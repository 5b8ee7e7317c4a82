# Reshape node of CasADi's MX expression graph, in Dafny

CasADi builds matrix-valued symbolic expressions (MX) as a DAG of nodes. Each
node can evaluate itself on numbers or on scalar symbols, build forward and
adjoint sensitivity expressions, propagate dependency tags ("sparsity"
propagation), print itself and emit C code. This project models one node kind,
`Reshape`. It has one dependency and keeps that dependency's nonzeros, in the
same order, under a sparsity pattern of its own with the same nonzero count.

Files:

- `mx.dfy` (module `Expr`): the expressions the node works on. A sparsity
  pattern is kept opaque: its extents and its nonzero count. An MX expression
  is its pattern plus the sequence of its nonzero entries. The module also has
  the empty expression `MX()`, `reshape` and `addToSum`.
- `bitwords.dfy` (module `BitWords`): tag words (`bv64`, one per nonzero) and
  the word-wise specification of backward propagation.
- `text.dfy` (module `Text`): decimal rendering of the count written into
  generated code, C identifiers, and parenthesis balance of printed text.
- `reshape.dfy` (module `ReshapeNode`): class `Reshape` with the node's
  constructor and operations, plus a reader for the generated copy loop.

Modelling decisions:

- Numeric and scalar-symbolic buffers are Dafny arrays. The source's check
  "input pointer equals output pointer" is array identity. `EvaluateGen` is
  generic in the element type. `EvaluateD` is its instance at `real`.
- Tag words live in their own `array<bv64>`. The source instead reads the
  `double` storage of a numeric matrix as words.
- `evaluateMX` receives vectors of `MX*` that point into the scheduler's work
  vector. The model passes that work vector as an `array<MX>` and each pointer
  as an index into it. The in-place check compares the two indices.
- In the in-place case `evaluateMX` returns before it touches any forward or
  adjoint slot. The model does the same.
- `shape()` and `dep().shape()` are row and column counts (`Expr.Shape`).
  Reshaping to a shape (`Expr.ReshapeTo`, used by `evaluateMX`) needs equal
  element counts and keeps the expression's own nonzero count. Reshaping to a
  pattern (`Expr.Reshape`, used by `Value` and `getReshape`) needs
  equal nonzero counts. Where both apply they agree (`Expr.ReshapeToPattern`).
- `generateOperation` and `printPart` write to a stream. The model returns the
  written text. `endl` is the character `'\n'`.

## Model

| member | source | states |
|---|---|---|
| `ReshapeNode.Reshape.constructor` | casadi/core/mx/reshape.cpp:37-41 | construction requires equal nonzero counts; the node keeps its dependency and pattern, and `Valid()` records the equal counts |
| `ReshapeNode.Reshape.EvaluateGen` | casadi/core/mx/reshape.cpp:57-65 | same buffer: nothing changes; distinct buffers: output positions `0..nnz-1` hold the input's first `nnz` values in order, the rest of the output and all of the input are unchanged |
| `ReshapeNode.Reshape.EvaluateD` | casadi/core/mx/reshape.cpp:47-50 | numeric evaluation has the same contract as `EvaluateGen` |
| `ReshapeNode.Reshape.PropagateSparsity` | casadi/core/mx/reshape.cpp:67-82 | same buffer: nothing changes; forward: output words `k < |input|` become the input words, the input is unchanged; backward: the input becomes the word-wise OR of the old input and old output, and output words `k < |input|` become 0; output words past the input's length are never touched |
| `ReshapeNode.Reshape.ForwardWords` | casadi/core/mx/reshape.cpp:74-75 | forward branch: the first `|input|` output words become the input words; later output words are unchanged |
| `ReshapeNode.Reshape.BackwardWords` | casadi/core/mx/reshape.cpp:76-80 | backward branch: the input becomes the word-wise OR of old input and old output; the first `|input|` output words become 0; later output words are unchanged |
| `BitWords.OrIntoAt` | casadi/core/mx/reshape.cpp:77-80 | backward word `k` of the dependency is old input word `k` OR output word `k` |
| `BitWords.OrIntoGrows` | casadi/core/mx/reshape.cpp:77-78 | backward propagation never clears a bit of the dependency |
| `BitWords.OrIntoReceives` | casadi/core/mx/reshape.cpp:77-78 | every bit of a consumed output word reaches the matching dependency word |
| `BitWords.OrIntoCleared` | casadi/core/mx/reshape.cpp:77-80 | after one backward pass the output words are zero, so a second pass leaves the dependency unchanged |
| `BitWords.OrIntoCommutes` | casadi/core/mx/reshape.cpp:77-80 | two consumers OR-ing into the same dependency give the same words in either order |
| `ReshapeNode.Reshape.EvaluateMX` | casadi/core/mx/reshape.cpp:92-116 | same slot: the work vector is unchanged; otherwise the output becomes the input reshaped to the node's shape unless it was given, each forward sensitivity becomes its seed reshaped to the node's shape, each adjoint seed reshaped to the dependency's shape is added into its sensitivity and the seed slot becomes `MX()`, and no other slot changes |
| `ReshapeNode.Reshape.ForwardSensitivities` | casadi/core/mx/reshape.cpp:102-106 | each of the `nfwd` sensitivity slots holds its seed reshaped to the node's shape, for seeds of any pattern with the node's element count; other slots are unchanged |
| `ReshapeNode.Reshape.AdjointSensitivities` | casadi/core/mx/reshape.cpp:108-115 | each of the `nadj` sensitivity slots holds its old value plus its seed reshaped to the dependency's shape; each seed slot is `MX()`; other slots are unchanged |
| `ReshapeNode.Reshape.AdjointStep` | casadi/core/mx/reshape.cpp:111-114 | one direction: the new work vector is the old one with the sensitivity slot replaced by its sum with the seed reshaped to the dependency's shape and then the seed slot replaced by `MX()` |
| `ReshapeNode.SlotsApart` | casadi/core/mx/reshape.cpp:103-113 | distinct slots keep every read in `evaluateMX` apart from every write that precedes it; the dependency's slot is not among them, since it is read before any write |
| `Expr.Reshape` | casadi/core/mx/reshape.cpp:37-41 | reshaping to a pattern needs equal nonzero counts, yields that pattern and keeps the entries |
| `Expr.ReshapeTo` | casadi/core/mx/reshape.cpp:99-113 | reshaping to a shape needs equal element counts, yields that shape, and keeps the nonzero count and the entries |
| `Expr.ReshapeToRoundTrip` | casadi/core/mx/reshape.cpp:105-113 | reshaping to a shape and back to the original shape restores the expression |
| `Expr.ReshapeToPattern` | casadi/core/mx/reshape.cpp:99 | when the nonzero counts also agree, reshaping to a pattern's shape gives exactly that pattern |
| `Expr.ReshapeRoundTrip` | casadi/core/mx/reshape.cpp:127-129 | reshaping to a pattern and back to the original pattern restores the expression |
| `Expr.ReshapeTwice` | casadi/core/mx/reshape.cpp:127-129 | two reshapes in a row equal one reshape to the last pattern |
| `Expr.AddToSum` | casadi/core/mx/reshape.cpp:113 | an empty slot takes the addend; the result has the addend's pattern |
| `Expr.AddToSumAdds` | casadi/core/mx/reshape.cpp:113 | into a non-empty slot the addend is added entry by entry |
| `Expr.AccumulateCommutes` | casadi/core/mx/reshape.cpp:110-114 | two adjoint contributions accumulated into one slot give the same sum in either order |
| `ReshapeNode.Reshape.AdjointIdentity` | casadi/core/mx/reshape.cpp:104-113 | accumulating an adjoint seed `a` into a sensitivity slot raises its inner product with a forward seed `f` by the inner product of `f`'s forward sensitivity with `a`: the adjoint branch is the transpose of the forward branch |
| `Expr.DotAddNz` | casadi/core/mx/reshape.cpp:113 | the inner product is additive in its second argument, which is what accumulation into a slot needs |
| `ReshapeNode.Reshape.GenerateOperation` | casadi/core/mx/reshape.cpp:118-125 | the code is empty exactly when argument and result names are equal; otherwise, for identifier names, reading the line back gives the count `nnz()`, the result name and the argument name |
| `ReshapeNode.CopyLoopParses` | casadi/core/mx/reshape.cpp:123-124 | the copy-loop text determines its count and both buffer names |
| `ReshapeNode.ParseCopyLoopSound` | casadi/core/mx/reshape.cpp:123-124 | every line the reader accepts is exactly the copy loop for the count and names it returns, with a decimal count without leading zeros |
| `Text.NatToStringParse` | casadi/core/mx/reshape.cpp:123 | a decimal numeral without leading zeros is the rendering of the number it denotes |
| `Text.ParseNatToString` | casadi/core/mx/reshape.cpp:123 | the decimal text written for `nnz()` reads back as the same number |
| `ReshapeNode.Reshape.PrintPart` | casadi/core/mx/reshape.cpp:84-90 | part 0 opens one parenthesis more than it closes (`"reshape("`); every other part closes one (`")"`) |
| `ReshapeNode.Reshape.PrintBalanced` | casadi/core/mx/reshape.cpp:84-90 | a balanced dependency text printed between the two parts stays balanced |
| `ReshapeNode.Reshape.GetReshape` | casadi/core/mx/reshape.cpp:127-129 | reshaping a Reshape node reshapes its dependency directly; the result equals the reshape of the node's own value |

## Left out

- `casadi/core/mx/subref.hpp` (the SubRef node) declares its operations but gives no bodies. Any gather or scatter behaviour would be invented, so SubRef is not part of this model.
- `examples/sundials_testing.cpp` is an integrator driver. It calls SUNDIALS, SuperLU and LAPACK and prints to `cout`. It is not part of this model.
- `Reshape::clone`, memory ownership and reference counting: not modelled, since they only copy the node.
- The scratch workspaces `itmp` and `rtmp` are unused by this node and are not parameters of the model.
- `evaluateSX` is `evaluateGen` at the scalar-symbol type. The generic `EvaluateGen` stands for it; no separate scalar-symbol type is modelled.
- `get_bvec_t`: the model does not reinterpret `double` storage as tag words. It uses a separate word array.
- Floating point: the model has no rounding. Evaluation only copies, and entries of expressions are integers that are only copied and added.
- The internals of `Sparsity`, `MX`, `DMatrix`, `SX` and `CodeGenerator` are not modelled. A pattern is its extents and nonzero count. `CodeGenerator` is unused by this node.
- Nonzero placement: two patterns with the same extents and nonzero count but different nonzero positions are the same pattern in the model. Reshaping to a shape therefore does not say where the nonzeros land.
- AddToSum: sums of two expressions with different patterns are not modelled. CasADi then forms the union pattern. The model requires the slot to be `MX()` or to share the addend's pattern.
- EvaluateMX: requires that the output, the used forward seeds and sensitivities, the adjoint seeds and the used adjoint sensitivities are pairwise distinct slots. The dependency's slot may coincide with any of them except the output. CasADi's scheduler hands over distinct slots. The node does not check it, and what happens when those roles share a slot is not modelled.
- GenerateOperation: the read-back guarantee is stated only for names that are C identifiers. The emitted text itself is the same for any names.
- The stream flush done by `endl` is not modelled.
