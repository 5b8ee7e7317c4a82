/**
 * The Reshape node of the matrix-expression graph: one dependency whose
 * nonzeros it keeps, in order, under a pattern of its own with the same
 * nonzero count.
 */
module ReshapeNode {
  import opened Expr
  import opened BitWords
  import opened Text

  datatype Option<T> = None | Some(value: T)

  /** What a generated copy loop says: `count` entries from `src` to `dst`. */
  datatype CopyLoop = CopyLoop(count: nat, dst: string, src: string)

  const LoopHead: string := "  for (i=0; i<"
  const LoopStep: string := "; ++i) "
  const AssignMid: string := "[i] = "
  const AssignEnd: string := "[i];\n"

  /** The loop body: entry `i` of `src` assigned to entry `i` of `dst`. */
  function AssignText(dst: string, src: string): string
  {
    dst + AssignMid + src + AssignEnd
  }

  /** The C statement that copies `count` entries of `src` into `dst`. */
  function CopyLoopText(count: nat, dst: string, src: string): string
  {
    LoopHead + NatToString(count) + LoopStep + AssignText(dst, src)
  }

  /** Reads back the count and the two buffer names of a copy loop. */
  function ParseCopyLoop(line: string): Option<CopyLoop>
  {
    if LoopHead <= line then ParseCount(line[|LoopHead|..]) else None
  }

  /** The decimal count, up to the `;` that starts the loop step. */
  function ParseCount(s: string): Option<CopyLoop>
  {
    var i := Find(s, ';');
    var count := s[..i];
    if IsDecimal(count) && LoopStep <= s[i..]
    then ParseTarget(ParseNat(count), s[i + |LoopStep|..])
    else None
  }

  /** The result buffer's name, up to its `[i] = `. */
  function ParseTarget(count: nat, s: string): Option<CopyLoop>
  {
    var j := Find(s, '[');
    if AssignMid <= s[j..] then ParseSource(count, s[..j], s[j + |AssignMid|..]) else None
  }

  /** The argument buffer's name, followed by the end of the statement. */
  function ParseSource(count: nat, dst: string, s: string): Option<CopyLoop>
  {
    var k := Find(s, '[');
    if s[k..] == AssignEnd then Some(CopyLoop(count, dst, s[..k])) else None
  }

  lemma ParseSourceOf(count: nat, dst: string, src: string)
    requires '[' !in src
    ensures ParseSource(count, dst, src + AssignEnd) == Some(CopyLoop(count, dst, src))
  {
    var s := src + AssignEnd;
    assert s == src + ['['] + AssignEnd[1..];
    FindAfter(src, '[', AssignEnd[1..]);
    assert s[..|src|] == src;
    assert s[|src|..] == AssignEnd;
  }

  lemma ParseTargetOf(count: nat, dst: string, src: string)
    requires '[' !in dst && '[' !in src
    ensures ParseTarget(count, AssignText(dst, src)) == Some(CopyLoop(count, dst, src))
  {
    var s := AssignText(dst, src);
    var tail := AssignMid[1..] + src + AssignEnd;
    assert AssignMid == ['['] + AssignMid[1..];
    assert s == dst + ['['] + tail;
    FindAfter(dst, '[', tail);
    assert s[|dst| + |AssignMid|..] == src + AssignEnd;
    ParseSourceOf(count, dst, src);
  }

  lemma ParseCountOf(count: nat, rest: string)
    ensures ParseCount(NatToString(count) + LoopStep + rest) == ParseTarget(count, rest)
  {
    var n := NatToString(count);
    var s := n + LoopStep + rest;
    var tail := LoopStep[1..] + rest;
    assert s == n + [';'] + tail;
    assert ';' !in n by {
      forall k | 0 <= k < |n| ensures n[k] != ';' { assert IsDigit(n[k]); }
    }
    FindAfter(n, ';', tail);
    assert s[|n|..] == LoopStep + rest;
    assert s[|n| + |LoopStep|..] == rest;
    ParseNatToString(count);
  }

  /** The generated loop determines its count and both buffer names. */
  lemma CopyLoopParses(count: nat, dst: string, src: string)
    requires '[' !in dst && '[' !in src
    ensures ParseCopyLoop(CopyLoopText(count, dst, src)) == Some(CopyLoop(count, dst, src))
  {
    var rest := AssignText(dst, src);
    var line := CopyLoopText(count, dst, src);
    assert line == LoopHead + (NatToString(count) + LoopStep + rest);
    assert line[|LoopHead|..] == NatToString(count) + LoopStep + rest;
    ParseCountOf(count, rest);
    ParseTargetOf(count, dst, src);
  }

  lemma ParseSourceSound(count: nat, dst: string, s: string)
    requires ParseSource(count, dst, s).Some?
    ensures var c := ParseSource(count, dst, s).value;
      c.count == count && c.dst == dst && '[' !in c.src && s == c.src + AssignEnd
  {
    var k := Find(s, '[');
    assert s == s[..k] + s[k..];
  }

  lemma ParseTargetSound(count: nat, s: string)
    requires ParseTarget(count, s).Some?
    ensures var c := ParseTarget(count, s).value;
      c.count == count && '[' !in c.dst && '[' !in c.src && s == AssignText(c.dst, c.src)
  {
    var j := Find(s, '[');
    var dst, rest := s[..j], s[j + |AssignMid|..];
    ParseSourceSound(count, dst, rest);
    var src := ParseSource(count, dst, rest).value.src;
    SplitAround(s, j, AssignMid);
    AppendAssoc(dst + AssignMid, src, AssignEnd);
  }

  /** An accepted count stage is a decimal count, the loop step, and the rest. */
  lemma ParseCountSplit(s: string) returns (count: string, rest: string)
    requires ParseCount(s).Some?
    ensures IsDecimal(count) && s == count + LoopStep + rest
    ensures ParseCount(s) == ParseTarget(ParseNat(count), rest)
  {
    var i := Find(s, ';');
    count, rest := s[..i], s[i + |LoopStep|..];
    SplitAround(s, i, LoopStep);
  }

  lemma ParseCountSound(s: string)
    requires ParseCount(s).Some?
    ensures var c := ParseCount(s).value;
      '[' !in c.dst && '[' !in c.src && s == NatToString(c.count) + LoopStep + AssignText(c.dst, c.src)
  {
    var count, rest := ParseCountSplit(s);
    ParseTargetSound(ParseNat(count), rest);
    NatToStringParse(count);
  }

  /**
   * Every line the reader accepts is exactly the loop generated for what it
   * read: with `CopyLoopParses`, reading is the inverse of generating.
   */
  lemma ParseCopyLoopSound(line: string)
    requires ParseCopyLoop(line).Some?
    ensures var c := ParseCopyLoop(line).value;
      '[' !in c.dst && '[' !in c.src && line == CopyLoopText(c.count, c.dst, c.src)
  {
    var rest := line[|LoopHead|..];
    var c := ParseCopyLoop(line).value;
    ParseCountSound(rest);
    PrefixSplit(LoopHead, line);
    var n, body := NatToString(c.count), AssignText(c.dst, c.src);
    AppendAssoc(LoopHead, n + LoopStep, body);
    AppendAssoc(LoopHead, n, LoopStep);
  }

  lemma IdentifierHasNoBracket(s: string)
    requires IsIdentifier(s)
    ensures '[' !in s
  {
    forall k | 0 <= k < |s| ensures s[k] != '[' { assert IsIdentifierChar(s[k]); }
  }

  /** No two slot indices in `s` are the same. */
  predicate Distinct(s: seq<nat>)
  {
    forall i, j :: 0 <= i < j < |s| ==> s[i] != s[j]
  }

  /**
   * The slots a symbolic evaluation writes or reads after its first write,
   * in the order the scheduler hands them over: output, the used forward
   * seeds, forward sensitivities, adjoint seeds and the used adjoint
   * sensitivities. The dependency's slot is read before anything is written
   * and may coincide with any of them except the output.
   */
  function Slots(output: nat, fwdSeed: seq<nat>, fwdSens: seq<nat>,
                 adjSeed: seq<nat>, adjSens: seq<nat>): seq<nat>
    requires |fwdSens| <= |fwdSeed| && |adjSeed| <= |adjSens|
  {
    [output] + fwdSeed[..|fwdSens|] + fwdSens + adjSeed + adjSens[..|adjSeed|]
  }

  /** What distinct slots mean for each pair of roles the loops rely on. */
  lemma SlotsApart(output: nat, fwdSeed: seq<nat>, fwdSens: seq<nat>,
                   adjSeed: seq<nat>, adjSens: seq<nat>)
    requires |fwdSens| <= |fwdSeed| && |adjSeed| <= |adjSens|
    requires Distinct(Slots(output, fwdSeed, fwdSens, adjSeed, adjSens))
    ensures forall d :: 0 <= d < |fwdSens| ==> fwdSeed[d] != output && fwdSens[d] != output
    ensures forall d :: 0 <= d < |adjSeed| ==> adjSeed[d] != output && adjSens[d] != output
    ensures forall d, e :: 0 <= d < |fwdSens| && 0 <= e < |fwdSens| ==> fwdSeed[d] != fwdSens[e]
    ensures forall d, e :: 0 <= d < e < |fwdSens| ==> fwdSens[d] != fwdSens[e]
    ensures forall d, e :: 0 <= d < |fwdSens| && 0 <= e < |adjSeed| ==>
      fwdSens[d] != adjSeed[e] && fwdSens[d] != adjSens[e]
    ensures forall d, e :: 0 <= d < |adjSeed| && 0 <= e < |adjSeed| ==> adjSeed[d] != adjSens[e]
    ensures forall d, e :: 0 <= d < e < |adjSeed| ==> adjSeed[d] != adjSeed[e] && adjSens[d] != adjSens[e]
  {
    ForwardSlotsApart(output, fwdSeed, fwdSens, adjSeed, adjSens);
    AdjointSlotsApart(output, fwdSeed, fwdSens, adjSeed, adjSens);
    CrossSlotsApart(output, fwdSeed, fwdSens, adjSeed, adjSens);
  }

  lemma ForwardSlotsApart(output: nat, fwdSeed: seq<nat>, fwdSens: seq<nat>,
                          adjSeed: seq<nat>, adjSens: seq<nat>)
    requires |fwdSens| <= |fwdSeed| && |adjSeed| <= |adjSens|
    requires Distinct(Slots(output, fwdSeed, fwdSens, adjSeed, adjSens))
    ensures forall d :: 0 <= d < |fwdSens| ==> fwdSeed[d] != output && fwdSens[d] != output
    ensures forall d, e :: 0 <= d < |fwdSens| && 0 <= e < |fwdSens| ==> fwdSeed[d] != fwdSens[e]
    ensures forall d, e :: 0 <= d < e < |fwdSens| ==> fwdSens[d] != fwdSens[e]
  {
    var s := Slots(output, fwdSeed, fwdSens, adjSeed, adjSens);
    var nf := |fwdSens|;
    assert s[0] == output;
    forall d | 0 <= d < nf
      ensures fwdSeed[d] != output && fwdSens[d] != output
    {
      assert s[1 + d] == fwdSeed[d] && s[1 + nf + d] == fwdSens[d];
    }
    forall d, e | 0 <= d < nf && 0 <= e < nf
      ensures fwdSeed[d] != fwdSens[e]
    {
      assert s[1 + d] == fwdSeed[d] && s[1 + nf + e] == fwdSens[e];
    }
    forall d, e | 0 <= d < e < nf
      ensures fwdSens[d] != fwdSens[e]
    {
      assert s[1 + nf + d] == fwdSens[d] && s[1 + nf + e] == fwdSens[e];
    }
  }

  lemma AdjointSlotsApart(output: nat, fwdSeed: seq<nat>, fwdSens: seq<nat>,
                          adjSeed: seq<nat>, adjSens: seq<nat>)
    requires |fwdSens| <= |fwdSeed| && |adjSeed| <= |adjSens|
    requires Distinct(Slots(output, fwdSeed, fwdSens, adjSeed, adjSens))
    ensures forall d :: 0 <= d < |adjSeed| ==> adjSeed[d] != output && adjSens[d] != output
    ensures forall d, e :: 0 <= d < |adjSeed| && 0 <= e < |adjSeed| ==> adjSeed[d] != adjSens[e]
    ensures forall d, e :: 0 <= d < e < |adjSeed| ==> adjSeed[d] != adjSeed[e] && adjSens[d] != adjSens[e]
  {
    var s := Slots(output, fwdSeed, fwdSens, adjSeed, adjSens);
    var nf, na := |fwdSens|, |adjSeed|;
    assert s[0] == output;
    forall d | 0 <= d < na
      ensures adjSeed[d] != output && adjSens[d] != output
    {
      assert s[1 + 2 * nf + d] == adjSeed[d] && s[1 + 2 * nf + na + d] == adjSens[d];
    }
    forall d, e | 0 <= d < na && 0 <= e < na
      ensures adjSeed[d] != adjSens[e]
    {
      assert s[1 + 2 * nf + d] == adjSeed[d] && s[1 + 2 * nf + na + e] == adjSens[e];
    }
    forall d, e | 0 <= d < e < na
      ensures adjSeed[d] != adjSeed[e] && adjSens[d] != adjSens[e]
    {
      assert s[1 + 2 * nf + d] == adjSeed[d] && s[1 + 2 * nf + e] == adjSeed[e];
      assert s[1 + 2 * nf + na + d] == adjSens[d] && s[1 + 2 * nf + na + e] == adjSens[e];
    }
  }

  lemma CrossSlotsApart(output: nat, fwdSeed: seq<nat>, fwdSens: seq<nat>,
                        adjSeed: seq<nat>, adjSens: seq<nat>)
    requires |fwdSens| <= |fwdSeed| && |adjSeed| <= |adjSens|
    requires Distinct(Slots(output, fwdSeed, fwdSens, adjSeed, adjSens))
    ensures forall d, e :: 0 <= d < |fwdSens| && 0 <= e < |adjSeed| ==>
      fwdSens[d] != adjSeed[e] && fwdSens[d] != adjSens[e]
  {
    var s := Slots(output, fwdSeed, fwdSens, adjSeed, adjSens);
    var nf, na := |fwdSens|, |adjSeed|;
    forall d, e | 0 <= d < nf && 0 <= e < na
      ensures fwdSens[d] != adjSeed[e] && fwdSens[d] != adjSens[e]
    {
      assert s[1 + nf + d] == fwdSens[d];
      assert s[1 + 2 * nf + e] == adjSeed[e] && s[1 + 2 * nf + na + e] == adjSens[e];
    }
  }

  /**
   * The adjoint loop's state after `d` directions, relative to the work
   * vector `w0` it started from: the first `d` sensitivities hold their sums
   * and their seeds are cleared; later directions and every other slot are
   * as they were.
   */
  ghost predicate AdjointProgress(w0: seq<MX>, w: seq<MX>, adjSeed: seq<nat>, adjSens: seq<nat>,
                                  target: Shape, d: nat)
    requires |w| == |w0| && d <= |adjSeed| == |adjSens|
    requires forall e :: 0 <= e < |adjSeed| ==> adjSeed[e] < |w0| && adjSens[e] < |w0|
    requires forall e :: 0 <= e < |adjSeed| ==> Numel(ShapeOf(w0[adjSeed[e]].sp)) == Numel(target)
    requires forall e :: 0 <= e < |adjSeed| ==>
      IsEmpty(w0[adjSens[e]]) || w0[adjSens[e]].sp == Sparsity(target.nrow, target.ncol, w0[adjSeed[e]].sp.nnz)
  {
    (forall e :: 0 <= e < d ==> w[adjSens[e]] == AddToSum(w0[adjSens[e]], ReshapeTo(w0[adjSeed[e]], target)))
    && (forall e :: 0 <= e < d ==> w[adjSeed[e]] == Empty)
    && (forall e :: d <= e < |adjSeed| ==> w[adjSeed[e]] == w0[adjSeed[e]])
    && (forall e :: d <= e < |adjSeed| ==> w[adjSens[e]] == w0[adjSens[e]])
    && (forall i :: 0 <= i < |w| && i !in adjSeed && i !in adjSens ==> w[i] == w0[i])
  }

  /** One more direction of the adjoint loop keeps `AdjointProgress`. */
  lemma AdjointProgressStep(w0: seq<MX>, w: seq<MX>, adjSeed: seq<nat>, adjSens: seq<nat>,
                            target: Shape, d: nat)
    requires |w| == |w0| && d < |adjSeed| == |adjSens|
    requires forall e :: 0 <= e < |adjSeed| ==> adjSeed[e] < |w0| && adjSens[e] < |w0|
    requires forall e :: 0 <= e < |adjSeed| ==> Numel(ShapeOf(w0[adjSeed[e]].sp)) == Numel(target)
    requires forall e :: 0 <= e < |adjSeed| ==>
      IsEmpty(w0[adjSens[e]]) || w0[adjSens[e]].sp == Sparsity(target.nrow, target.ncol, w0[adjSeed[e]].sp.nnz)
    requires forall e :: 0 <= e < |adjSeed| ==> adjSeed[e] != adjSens[d] && adjSens[e] != adjSeed[d]
    requires forall e :: 0 <= e < |adjSeed| && e != d ==> adjSeed[e] != adjSeed[d] && adjSens[e] != adjSens[d]
    requires AdjointProgress(w0, w, adjSeed, adjSens, target, d)
    ensures w[adjSeed[d]] == w0[adjSeed[d]] && w[adjSens[d]] == w0[adjSens[d]]
    ensures AdjointProgress(w0, w[adjSens[d] := AddToSum(w[adjSens[d]], ReshapeTo(w[adjSeed[d]], target))]
                                 [adjSeed[d] := Empty], adjSeed, adjSens, target, d + 1)
  {
    var seed, sens := adjSeed[d], adjSens[d];
    var w' := w[sens := AddToSum(w[sens], ReshapeTo(w[seed], target))][seed := Empty];
    forall e | 0 <= e < d + 1
      ensures w'[adjSens[e]] == AddToSum(w0[adjSens[e]], ReshapeTo(w0[adjSeed[e]], target))
    {
      assert adjSens[e] != seed;
    }
    forall e | 0 <= e < d + 1
      ensures w'[adjSeed[e]] == Empty
    {
      if e < d {
        assert adjSeed[e] != sens;
      }
    }
    forall e | d + 1 <= e < |adjSeed|
      ensures w'[adjSeed[e]] == w0[adjSeed[e]] && w'[adjSens[e]] == w0[adjSens[e]]
    {
      assert adjSeed[e] != seed && adjSeed[e] != sens;
      assert adjSens[e] != seed && adjSens[e] != sens;
    }
    forall i | 0 <= i < |w'| && i !in adjSeed && i !in adjSens
      ensures w'[i] == w0[i]
    {
      assert i != seed && i != sens;
    }
  }

  class Reshape {
    /** The single dependency. */
    const dep: MX
    /** The node's own pattern. */
    const sp: Sparsity

    /** Reshaping never changes the number of nonzeros. */
    predicate Valid()
    {
      dep.sp.nnz == sp.nnz
    }

    /** Construction asserts that the two nonzero counts agree. */
    constructor (x: MX, sp: Sparsity)
      requires x.sp.nnz == sp.nnz
      ensures Valid()
      ensures dep == x && this.sp == sp
    {
      dep := x;
      this.sp := sp;
    }

    function Nnz(): nat
    {
      sp.nnz
    }

    /** The expression this node stands for. */
    function Value(): (r: MX)
      requires Valid()
      ensures r.sp == sp && r.nz == dep.nz
    {
      Expr.Reshape(dep, sp)
    }

    /**
     * Numeric or scalar-symbolic evaluation: copies the first `Nnz()`
     * entries of the dependency's buffer into the output buffer, unless
     * both are the same buffer.
     */
    method EvaluateGen<T>(input: array<T>, output: array<T>)
      requires input != output ==> Nnz() <= input.Length && Nnz() <= output.Length
      modifies output
      ensures input[..] == old(input[..])
      ensures input == output ==> output[..] == old(output[..])
      ensures input != output ==> output[..Nnz()] == old(input[..Nnz()])
      ensures input != output ==> output[Nnz()..] == old(output[Nnz()..])
    {
      if input == output {
        return;
      }
      var n := Nnz();
      for k := 0 to n
        invariant forall j :: 0 <= j < k ==> output[j] == input[j]
        invariant forall j :: k <= j < output.Length ==> output[j] == old(output[j])
      {
        output[k] := input[k];
      }
    }

    /** Numeric evaluation, at the real-valued instance of `EvaluateGen`. */
    method EvaluateD(input: array<real>, output: array<real>)
      requires input != output ==> Nnz() <= input.Length && Nnz() <= output.Length
      modifies output
      ensures input[..] == old(input[..])
      ensures input == output ==> output[..] == old(output[..])
      ensures input != output ==> output[..Nnz()] == old(input[..Nnz()])
      ensures input != output ==> output[Nnz()..] == old(output[Nnz()..])
    {
      EvaluateGen(input, output);
    }

    /**
     * Sparsity propagation on one tag word per entry. Forward, the
     * dependency's words are copied into the output; backward, each output
     * word is or-ed into the dependency's word and then cleared. The
     * length of the dependency's buffer bounds both loops.
     */
    method PropagateSparsity(input: array<Word>, output: array<Word>, fwd: bool)
      requires input != output ==> input.Length <= output.Length
      modifies input, output
      ensures input == output ==> input[..] == old(input[..])
      ensures input != output && fwd ==> input[..] == old(input[..])
      ensures input != output && fwd ==> output[..input.Length] == old(input[..])
      ensures input != output && !fwd ==> input[..] == OrInto(old(input[..]), old(output[..]))
      ensures input != output && !fwd ==> output[..input.Length] == Zeros(input.Length)
      ensures input != output ==> output[input.Length..] == old(output[input.Length..])
    {
      if input == output {
        return;
      }
      if fwd {
        ForwardWords(input, output);
      } else {
        BackwardWords(input, output);
      }
    }

    /** The forward branch of `PropagateSparsity`: the dependency's words are copied. */
    method ForwardWords(input: array<Word>, output: array<Word>)
      requires input != output && input.Length <= output.Length
      modifies output
      ensures output[..input.Length] == input[..]
      ensures output[input.Length..] == old(output[input.Length..])
    {
      for k := 0 to input.Length
        invariant forall j :: 0 <= j < k ==> output[j] == input[j]
        invariant forall j :: k <= j < output.Length ==> output[j] == old(output[j])
      {
        output[k] := input[k];
      }
    }

    /**
     * The backward branch of `PropagateSparsity`: each output word is or-ed
     * into the dependency's word and then cleared.
     */
    method BackwardWords(input: array<Word>, output: array<Word>)
      requires input != output && input.Length <= output.Length
      modifies input, output
      ensures input[..] == OrInto(old(input[..]), old(output[..]))
      ensures output[..input.Length] == Zeros(input.Length)
      ensures output[input.Length..] == old(output[input.Length..])
    {
      var n := input.Length;
      for k := 0 to n
        invariant forall j :: 0 <= j < k ==> input[j] == old(input[j]) | old(output[j])
        invariant forall j :: k <= j < n ==> input[j] == old(input[j])
        invariant forall j :: 0 <= j < k ==> output[j] == 0
        invariant forall j :: k <= j < output.Length ==> output[j] == old(output[j])
      {
        input[k] := input[k] | output[k];
        output[k] := 0;
      }
      forall j | 0 <= j < n
        ensures input[..][j] == OrInto(old(input[..]), old(output[..]))[j]
      {
        OrIntoAt(old(input[..]), old(output[..]), j);
      }
    }

    /**
     * Symbolic evaluation with forward and adjoint sensitivities. Every
     * expression pointer the scheduler passes is an index into its work
     * vector `work`. The output is set unless the caller already gave it;
     * each forward sensitivity is its seed reshaped to the node's shape;
     * each adjoint seed is reshaped to the dependency's shape, added into
     * its sensitivity and then cleared.
     */
    method EvaluateMX(work: array<MX>, input: nat, output: nat,
                      fwdSeed: seq<nat>, fwdSens: seq<nat>,
                      adjSeed: seq<nat>, adjSens: seq<nat>, outputGiven: bool)
      requires Valid()
      requires |fwdSens| <= |fwdSeed| && |adjSeed| <= |adjSens|
      requires input != output ==> input < work.Length && output < work.Length
      requires input != output ==>
        forall d :: 0 <= d < |fwdSens| ==> fwdSeed[d] < work.Length && fwdSens[d] < work.Length
      requires input != output ==>
        forall d :: 0 <= d < |adjSeed| ==> adjSeed[d] < work.Length && adjSens[d] < work.Length
      requires input != output ==> Distinct(Slots(output, fwdSeed, fwdSens, adjSeed, adjSens))
      requires input != output && !outputGiven ==> Numel(ShapeOf(work[input].sp)) == Numel(ShapeOf(sp))
      requires input != output ==>
        forall d :: 0 <= d < |fwdSens| ==> Numel(ShapeOf(work[fwdSeed[d]].sp)) == Numel(ShapeOf(sp))
      requires input != output ==>
        forall d :: 0 <= d < |adjSeed| ==> Numel(ShapeOf(work[adjSeed[d]].sp)) == Numel(ShapeOf(dep.sp))
      requires input != output ==>
        forall d :: 0 <= d < |adjSeed| ==>
          IsEmpty(work[adjSens[d]]) || work[adjSens[d]].sp == Sparsity(dep.sp.nrow, dep.sp.ncol, work[adjSeed[d]].sp.nnz)
      modifies work
      ensures input == output ==> work[..] == old(work[..])
      ensures input != output && outputGiven ==> work[output] == old(work[output])
      ensures input != output && !outputGiven ==> work[output] == ReshapeTo(old(work[input]), ShapeOf(sp))
      ensures input != output ==>
        forall d :: 0 <= d < |fwdSens| ==> work[fwdSens[d]] == ReshapeTo(old(work[fwdSeed[d]]), ShapeOf(sp))
      ensures input != output ==>
        forall d :: 0 <= d < |adjSeed| ==>
          work[adjSens[d]] == AddToSum(old(work[adjSens[d]]), ReshapeTo(old(work[adjSeed[d]]), ShapeOf(dep.sp)))
      ensures input != output ==> forall d :: 0 <= d < |adjSeed| ==> work[adjSeed[d]] == Empty
      ensures forall i ::
        (0 <= i < work.Length && i != output && i !in fwdSens && i !in adjSeed && i !in adjSens[..|adjSeed|])
        ==> work[i] == old(work[i])
    {
      if input == output {
        return;
      }
      var nfwd := |fwdSens|;
      var nadj := |adjSeed|;
      SlotsApart(output, fwdSeed, fwdSens, adjSeed, adjSens);
      if !outputGiven {
        work[output] := ReshapeTo(work[input], ShapeOf(sp));
      }
      ForwardSensitivities(work, fwdSeed[..nfwd], fwdSens);
      AdjointSensitivities(work, adjSeed, adjSens[..nadj]);
    }

    /**
     * The forward loop of `EvaluateMX`: each sensitivity slot receives its
     * seed reshaped to the node's shape.
     */
    method ForwardSensitivities(work: array<MX>, fwdSeed: seq<nat>, fwdSens: seq<nat>)
      requires |fwdSeed| == |fwdSens|
      requires forall d :: 0 <= d < |fwdSens| ==> fwdSeed[d] < work.Length && fwdSens[d] < work.Length
      requires forall d, e :: 0 <= d < |fwdSens| && 0 <= e < |fwdSens| ==> fwdSeed[d] != fwdSens[e]
      requires forall d, e :: 0 <= d < e < |fwdSens| ==> fwdSens[d] != fwdSens[e]
      requires forall d :: 0 <= d < |fwdSens| ==> Numel(ShapeOf(work[fwdSeed[d]].sp)) == Numel(ShapeOf(sp))
      modifies work
      ensures forall d :: 0 <= d < |fwdSens| ==> work[fwdSens[d]] == ReshapeTo(old(work[fwdSeed[d]]), ShapeOf(sp))
      ensures forall i :: 0 <= i < work.Length && i !in fwdSens ==> work[i] == old(work[i])
    {
      for d := 0 to |fwdSens|
        invariant forall e :: 0 <= e < d ==> work[fwdSens[e]] == ReshapeTo(old(work[fwdSeed[e]]), ShapeOf(sp))
        invariant forall e :: 0 <= e < |fwdSens| ==> work[fwdSeed[e]] == old(work[fwdSeed[e]])
        invariant forall i :: 0 <= i < work.Length && i !in fwdSens ==> work[i] == old(work[i])
      {
        work[fwdSens[d]] := ReshapeTo(work[fwdSeed[d]], ShapeOf(sp));
      }
    }

    /**
     * The adjoint loop of `EvaluateMX`: each seed, reshaped to the
     * dependency's shape, is added into its sensitivity slot, and the seed
     * slot is then cleared.
     */
    method AdjointSensitivities(work: array<MX>, adjSeed: seq<nat>, adjSens: seq<nat>)
      requires |adjSeed| == |adjSens|
      requires forall d :: 0 <= d < |adjSeed| ==> adjSeed[d] < work.Length && adjSens[d] < work.Length
      requires forall d, e :: 0 <= d < |adjSeed| && 0 <= e < |adjSeed| ==> adjSeed[d] != adjSens[e]
      requires forall d, e :: 0 <= d < e < |adjSeed| ==> adjSeed[d] != adjSeed[e] && adjSens[d] != adjSens[e]
      requires forall d :: 0 <= d < |adjSeed| ==> Numel(ShapeOf(work[adjSeed[d]].sp)) == Numel(ShapeOf(dep.sp))
      requires forall d :: 0 <= d < |adjSeed| ==>
        IsEmpty(work[adjSens[d]]) || work[adjSens[d]].sp == Sparsity(ShapeOf(dep.sp).nrow, ShapeOf(dep.sp).ncol, work[adjSeed[d]].sp.nnz)
      modifies work
      ensures forall d :: 0 <= d < |adjSeed| ==>
        work[adjSens[d]] == AddToSum(old(work[adjSens[d]]), ReshapeTo(old(work[adjSeed[d]]), ShapeOf(dep.sp)))
      ensures forall d :: 0 <= d < |adjSeed| ==> work[adjSeed[d]] == Empty
      ensures forall i :: 0 <= i < work.Length && i !in adjSeed && i !in adjSens ==> work[i] == old(work[i])
    {
      ghost var w0 := work[..];
      for d := 0 to |adjSeed|
        invariant AdjointProgress(w0, work[..], adjSeed, adjSens, ShapeOf(dep.sp), d)
      {
        AdjointProgressStep(w0, work[..], adjSeed, adjSens, ShapeOf(dep.sp), d);
        AdjointStep(work, adjSeed[d], adjSens[d]);
      }
    }

    /** One direction of the adjoint loop: accumulate the seed, then clear it. */
    method AdjointStep(work: array<MX>, aseed: nat, asens: nat)
      requires aseed < work.Length && asens < work.Length && aseed != asens
      requires Numel(ShapeOf(work[aseed].sp)) == Numel(ShapeOf(dep.sp))
      requires IsEmpty(work[asens]) || work[asens].sp == Sparsity(dep.sp.nrow, dep.sp.ncol, work[aseed].sp.nnz)
      modifies work
      ensures work[..] == old(work[..])[asens := AddToSum(old(work[asens]), ReshapeTo(old(work[aseed]), ShapeOf(dep.sp)))]
                                       [aseed := Empty]
    {
      work[asens] := AddToSum(work[asens], ReshapeTo(work[aseed], ShapeOf(dep.sp)));
      work[aseed] := Empty;
    }

    /**
     * The forward and adjoint transforms are adjoint to each other. For a
     * forward seed `f` with the dependency's pattern and an adjoint seed `a`
     * with the pattern of `f`'s forward sensitivity, accumulating `a` into a
     * sensitivity slot raises that slot's inner product with `f` by exactly
     * the inner product of `f`'s forward sensitivity with `a`.
     */
    lemma AdjointIdentity(f: MX, slot: MX, a: MX)
      requires Numel(ShapeOf(dep.sp)) == Numel(ShapeOf(sp))
      requires f.sp == dep.sp && a.sp == Sparsity(sp.nrow, sp.ncol, dep.sp.nnz)
      requires IsEmpty(slot) || slot.sp == dep.sp
      ensures Dot(f.nz, AddToSum(slot, ReshapeTo(a, ShapeOf(dep.sp))).nz)
           == (if IsEmpty(slot) then 0 else Dot(f.nz, slot.nz)) + Dot(ReshapeTo(f, ShapeOf(sp)).nz, a.nz)
    {
      if !IsEmpty(slot) {
        DotAddNz(f.nz, slot.nz, a.nz);
      }
    }

    /**
     * One statement of generated code: nothing when the argument and the
     * result name the same work vector, otherwise a loop that copies
     * `Nnz()` entries from the argument into the result.
     */
    function GenerateOperation(arg: seq<string>, res: seq<string>): (code: string)
      requires |arg| >= 1 && |res| >= 1
      ensures code == [] <==> arg[0] == res[0]
      ensures arg[0] != res[0] && IsIdentifier(res[0]) && IsIdentifier(arg[0]) ==>
        ParseCopyLoop(code) == Some(CopyLoop(Nnz(), res[0], arg[0]))
    {
      if arg[0] == res[0] then []
      else
        var code := CopyLoopText(Nnz(), res[0], arg[0]);
        assert IsIdentifier(res[0]) && IsIdentifier(arg[0]) ==>
          ParseCopyLoop(code) == Some(CopyLoop(Nnz(), res[0], arg[0])) by {
          if IsIdentifier(res[0]) && IsIdentifier(arg[0]) {
            IdentifierHasNoBracket(res[0]);
            IdentifierHasNoBracket(arg[0]);
            CopyLoopParses(Nnz(), res[0], arg[0]);
          }
        }
        code
    }

    /** The text printed before (part 0) and after the dependency. */
    function PrintPart(part: int): (s: string)
      ensures Net(s) == if part == 0 then 1 else -1
    {
      if part == 0 then
        NetWithoutParens("reshape");
        assert "reshape("[..7] == "reshape";
        "reshape("
      else
        ")"
    }

    /** Printing a well-parenthesised dependency gives a well-parenthesised node. */
    lemma PrintBalanced(depText: string)
      requires Balanced(depText)
      ensures Balanced(PrintPart(0) + depText + PrintPart(1))
    {
      var open := PrintPart(0);
      forall i | 0 <= i <= |open|
        ensures Net(open[..i]) >= 0
      {
        if i < |open| {
          assert forall k :: 0 <= k < i ==> open[..i][k] == "reshape"[k];
          NetWithoutParens(open[..i]);
        } else {
          assert open[..i] == open;
        }
      }
      Enclose(open, depText, PrintPart(1));
    }

    /**
     * Reshaping this node again reshapes its dependency directly: the
     * result equals the reshape of the node's own value.
     */
    function GetReshape(sp2: Sparsity): (r: MX)
      requires Valid()
      requires sp2.nnz == Nnz()
      ensures r == Expr.Reshape(Value(), sp2)
      ensures r.sp == sp2 && r.nz == dep.nz
    {
      Expr.Reshape(dep, sp2)
    }
  }
}
