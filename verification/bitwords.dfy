/**
 * Dependency tags for sparsity propagation: one 64-bit word per nonzero,
 * each bit standing for one seed direction.
 */
module BitWords {

  type Word = bv64

  /** A sequence of `n` cleared words. */
  function Zeros(n: nat): (s: seq<Word>)
    ensures |s| == n
    ensures forall k :: 0 <= k < n ==> s[k] == 0
  {
    seq(n, _ => 0)
  }

  /**
   * The words `arg` after the tags of `res` have been or-ed into them,
   * position by position; `res` may be longer than `arg`.
   */
  function OrInto(arg: seq<Word>, res: seq<Word>): (s: seq<Word>)
    requires |arg| <= |res|
    ensures |s| == |arg|
  {
    if arg == [] then [] else [arg[0] | res[0]] + OrInto(arg[1..], res[1..])
  }

  lemma {:induction false} OrIntoAt(arg: seq<Word>, res: seq<Word>, k: nat)
    requires |arg| <= |res| && k < |arg|
    ensures OrInto(arg, res)[k] == arg[k] | res[k]
  {
    if k > 0 {
      OrIntoAt(arg[1..], res[1..], k - 1);
    }
  }

  /** Every bit set in `a` is set in `b`, word by word. */
  predicate Covers(b: seq<Word>, a: seq<Word>)
  {
    |a| == |b| && forall k :: 0 <= k < |a| ==> b[k] & a[k] == a[k]
  }

  /** Accumulating never clears a tag of the dependency. */
  lemma OrIntoGrows(arg: seq<Word>, res: seq<Word>)
    requires |arg| <= |res|
    ensures Covers(OrInto(arg, res), arg)
  {
    forall k | 0 <= k < |arg|
      ensures OrInto(arg, res)[k] & arg[k] == arg[k]
    {
      OrIntoAt(arg, res, k);
    }
  }

  /** Every tag of the consumed output reaches the dependency. */
  lemma OrIntoReceives(arg: seq<Word>, res: seq<Word>)
    requires |arg| <= |res|
    ensures Covers(OrInto(arg, res), res[..|arg|])
  {
    forall k | 0 <= k < |arg|
      ensures OrInto(arg, res)[k] & res[k] == res[k]
    {
      OrIntoAt(arg, res, k);
    }
  }

  /**
   * Or-ing words that were cleared changes nothing: a second backward pass
   * straight after the first, whose output words are now zero, leaves the
   * dependency as it is.
   */
  lemma OrIntoCleared(arg: seq<Word>, res: seq<Word>)
    requires |arg| <= |res| && res[..|arg|] == Zeros(|arg|)
    ensures OrInto(arg, res) == arg
  {
    forall k | 0 <= k < |arg|
      ensures OrInto(arg, res)[k] == arg[k]
    {
      assert res[k] == res[..|arg|][k] == 0;
      OrIntoAt(arg, res, k);
    }
  }

  /** Two consumers accumulating into one dependency, in either order. */
  lemma OrIntoCommutes(arg: seq<Word>, res1: seq<Word>, res2: seq<Word>)
    requires |arg| <= |res1| && |arg| <= |res2|
    ensures OrInto(OrInto(arg, res1), res2) == OrInto(OrInto(arg, res2), res1)
  {
    forall k | 0 <= k < |arg|
      ensures OrInto(OrInto(arg, res1), res2)[k] == OrInto(OrInto(arg, res2), res1)[k]
    {
      OrIntoAt(arg, res1, k);
      OrIntoAt(arg, res2, k);
      OrIntoAt(OrInto(arg, res1), res2, k);
      OrIntoAt(OrInto(arg, res2), res1, k);
    }
  }
}
