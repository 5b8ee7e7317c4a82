/**
 * The matrix-expression values a Reshape node consumes and produces.
 *
 * A sparsity pattern is kept opaque: its extents and its number of
 * structural nonzeros. An MX expression is modelled by its pattern and the
 * sequence of its nonzero entries, in storage order; the entries stand for
 * the scalar sub-expressions and are only copied and added here.
 */
module Expr {

  /** A pattern, seen from outside: its extents and its nonzero count. */
  datatype Sparsity = Sparsity(nrow: nat, ncol: nat, nnz: nat)

  datatype MXValue = MXValue(sp: Sparsity, nz: seq<int>)

  /** A well-formed expression stores exactly one entry per structural nonzero. */
  type MX = x: MXValue | |x.nz| == x.sp.nnz witness MXValue(Sparsity(0, 0, 0), [])

  /** The empty expression `MX()`: no rows, no columns, no nonzeros. */
  const Empty: MX := MXValue(Sparsity(0, 0, 0), [])

  /** Whether `x` is `MX()`; a 0-by-0 pattern has no nonzeros. */
  predicate IsEmpty(x: MX)
  {
    x.sp == Sparsity(0, 0, 0)
  }

  /**
   * `reshape(x, sp)`: the same nonzeros, in the same order, under another
   * pattern with as many nonzeros. A mismatch is a failed assertion in the
   * builder, hence a precondition.
   */
  function Reshape(x: MX, sp: Sparsity): (r: MX)
    requires x.sp.nnz == sp.nnz
    ensures r.sp == sp
    ensures r.nz == x.nz
  {
    MXValue(sp, x.nz)
  }

  /** Reshaping back to the original pattern restores the expression. */
  lemma ReshapeRoundTrip(x: MX, sp: Sparsity)
    requires x.sp.nnz == sp.nnz
    ensures Reshape(Reshape(x, sp), x.sp) == x
  {
  }

  /** Two reshapes in a row are one reshape to the last pattern. */
  lemma ReshapeTwice(x: MX, sp1: Sparsity, sp2: Sparsity)
    requires x.sp.nnz == sp1.nnz == sp2.nnz
    ensures Reshape(Reshape(x, sp1), sp2) == Reshape(x, sp2)
  {
  }

  /** What `shape()` returns: a row and a column count, with no pattern. */
  datatype Shape = Shape(nrow: nat, ncol: nat)

  function ShapeOf(sp: Sparsity): Shape
  {
    Shape(sp.nrow, sp.ncol)
  }

  /** The number of elements, structural zeros included, of a matrix of shape `s`. */
  function Numel(s: Shape): nat
  {
    s.nrow * s.ncol
  }

  /**
   * `reshape(x, shape)`: the same nonzeros, in the same order, laid out in
   * a shape with as many elements. The pattern keeps `x`'s nonzero count;
   * a mismatch in element count is a failed assertion in the builder.
   */
  function ReshapeTo(x: MX, s: Shape): (r: MX)
    requires Numel(ShapeOf(x.sp)) == Numel(s)
    ensures ShapeOf(r.sp) == s && r.sp.nnz == x.sp.nnz
    ensures r.nz == x.nz
  {
    MXValue(Sparsity(s.nrow, s.ncol, x.sp.nnz), x.nz)
  }

  /** Reshaping back to the original shape restores the expression. */
  lemma ReshapeToRoundTrip(x: MX, s: Shape)
    requires Numel(ShapeOf(x.sp)) == Numel(s)
    ensures ReshapeTo(ReshapeTo(x, s), ShapeOf(x.sp)) == x
  {
  }

  /**
   * When `x` already has as many nonzeros as `sp`, reshaping to `sp`'s shape
   * and reshaping to `sp` itself agree.
   */
  lemma ReshapeToPattern(x: MX, sp: Sparsity)
    requires Numel(ShapeOf(x.sp)) == Numel(ShapeOf(sp)) && x.sp.nnz == sp.nnz
    ensures ReshapeTo(x, ShapeOf(sp)) == Reshape(x, sp)
  {
  }

  /** Entry-wise sum of two nonzero sequences of the same length. */
  function AddNz(a: seq<int>, b: seq<int>): (s: seq<int>)
    requires |a| == |b|
    ensures |s| == |a|
  {
    if a == [] then [] else [a[0] + b[0]] + AddNz(a[1..], b[1..])
  }

  lemma {:induction false} AddNzAt(a: seq<int>, b: seq<int>, k: nat)
    requires |a| == |b| && k < |a|
    ensures AddNz(a, b)[k] == a[k] + b[k]
  {
    if k > 0 {
      AddNzAt(a[1..], b[1..], k - 1);
    }
  }

  /**
   * `slot.addToSum(x)`: an empty slot takes the value `x`, any other slot
   * has `x` added to it entry by entry. Only sums over one pattern are
   * modelled.
   */
  function AddToSum(slot: MX, x: MX): (r: MX)
    requires IsEmpty(slot) || slot.sp == x.sp
    ensures r.sp == x.sp
    ensures IsEmpty(slot) ==> r == x
  {
    if IsEmpty(slot) then x else MXValue(x.sp, AddNz(slot.nz, x.nz))
  }

  /** Into a slot that already holds a value, the addend is summed entry by entry. */
  lemma AddToSumAdds(slot: MX, x: MX, k: nat)
    requires !IsEmpty(slot) && slot.sp == x.sp
    requires k < x.sp.nnz
    ensures AddToSum(slot, x).nz[k] == slot.nz[k] + x.nz[k]
  {
    AddNzAt(slot.nz, x.nz, k);
  }

  /**
   * Two contributions accumulated into one slot give the same sum in
   * either order: the result of a backward sweep does not depend on the
   * order in which the consumers of an expression are visited.
   */
  lemma {:induction false} AccumulateCommutes(slot: MX, a: MX, b: MX)
    requires a.sp == b.sp
    requires IsEmpty(slot) || slot.sp == a.sp
    ensures AddToSum(AddToSum(slot, a), b) == AddToSum(AddToSum(slot, b), a)
  {
    if IsEmpty(slot) {
      if IsEmpty(a) {
        assert a.nz == [] == b.nz;
      } else {
        var l := AddToSum(a, b);
        var r := AddToSum(b, a);
        forall k | 0 <= k < |l.nz|
          ensures l.nz[k] == r.nz[k]
        {
          AddToSumAdds(a, b, k);
          AddToSumAdds(b, a, k);
        }
      }
    } else {
      var l := AddToSum(AddToSum(slot, a), b);
      var r := AddToSum(AddToSum(slot, b), a);
      forall k | 0 <= k < |l.nz|
        ensures l.nz[k] == r.nz[k]
      {
        AddToSumAdds(slot, a, k);
        AddToSumAdds(slot, b, k);
        AddToSumAdds(AddToSum(slot, a), b, k);
        AddToSumAdds(AddToSum(slot, b), a, k);
      }
    }
  }

  /** Inner product of two nonzero sequences of equal length. */
  function Dot(a: seq<int>, b: seq<int>): int
    requires |a| == |b|
  {
    if a == [] then 0 else a[0] * b[0] + Dot(a[1..], b[1..])
  }

  /** The inner product is linear in its second argument. */
  lemma {:induction false} DotAddNz(a: seq<int>, b: seq<int>, c: seq<int>)
    requires |a| == |b| == |c|
    ensures Dot(a, AddNz(b, c)) == Dot(a, b) + Dot(a, c)
  {
    if a != [] {
      assert AddNz(b, c)[0] == b[0] + c[0];
      assert AddNz(b, c)[1..] == AddNz(b[1..], c[1..]);
      DotAddNz(a[1..], b[1..], c[1..]);
      assert a[0] * (b[0] + c[0]) == a[0] * b[0] + a[0] * c[0];
    }
  }
}
