/**
 * Text helpers for the node's printed and generated forms: decimal
 * rendering of counts as a C++ stream writes them, C identifiers, and the
 * parenthesis balance of a printed expression.
 */
module Text {

  predicate IsDigit(c: char)
  {
    '0' <= c <= '9'
  }

  predicate AllDigits(s: string)
  {
    forall k :: 0 <= k < |s| ==> IsDigit(s[k])
  }

  function DigitChar(d: nat): (c: char)
    requires d < 10
    ensures IsDigit(c)
  {
    (d + '0' as int) as char
  }

  function DigitValue(c: char): (d: nat)
    requires IsDigit(c)
    ensures d < 10
  {
    c as int - '0' as int
  }

  /** Decimal digits of `n`, most significant first, without leading zeros. */
  function NatToString(n: nat): (s: string)
    ensures |s| >= 1 && AllDigits(s)
    ensures |s| > 1 ==> s[0] != '0'
  {
    if n < 10 then [DigitChar(n)] else NatToString(n / 10) + [DigitChar(n % 10)]
  }

  /** The number a string of decimal digits denotes. */
  function ParseNat(s: string): nat
    requires AllDigits(s)
  {
    if s == [] then 0 else 10 * ParseNat(s[..|s| - 1]) + DigitValue(s[|s| - 1])
  }

  lemma {:induction false} ParseNatToString(n: nat)
    ensures ParseNat(NatToString(n)) == n
  {
    var s := NatToString(n);
    if n >= 10 {
      ParseNatToString(n / 10);
      assert s[..|s| - 1] == NatToString(n / 10);
    }
  }

  /** Decimal digits as a stream writes them: at least one, no leading zero. */
  predicate IsDecimal(s: string)
  {
    |s| > 0 && AllDigits(s) && (|s| == 1 || s[0] != '0')
  }

  lemma {:induction false} ParseNatPositive(s: string)
    requires |s| > 0 && AllDigits(s) && s[0] != '0'
    ensures ParseNat(s) >= 1
  {
    if |s| > 1 {
      ParseNatPositive(s[..|s| - 1]);
    }
  }

  /** A decimal string is the rendering of the number it denotes. */
  lemma {:induction false} NatToStringParse(s: string)
    requires IsDecimal(s)
    ensures NatToString(ParseNat(s)) == s
  {
    var last := s[|s| - 1];
    var v := DigitValue(last);
    assert DigitChar(v) == last;
    if |s| == 1 {
      assert s[..0] == [];
      assert s == [last];
    } else {
      var p := s[..|s| - 1];
      assert p[0] == s[0];
      NatToStringParse(p);
      ParseNatPositive(p);
      var n := ParseNat(s);
      assert n == 10 * ParseNat(p) + v;
      assert n / 10 == ParseNat(p) && n % 10 == v;
      assert s == p + [last];
    }
  }

  lemma AppendAssoc(a: string, b: string, c: string)
    ensures a + (b + c) == (a + b) + c
  {
  }

  /** A string that starts with `p` is `p` followed by the rest. */
  lemma PrefixSplit(p: string, t: string)
    requires p <= t
    ensures t == p + t[|p|..]
  {
    assert t[..|p|] == p;
    assert t == t[..|p|] + t[|p|..];
  }

  /** A string with `p` at position `i` is what precedes it, `p`, and what follows. */
  lemma SplitAround(s: string, i: nat, p: string)
    requires i <= |s| && p <= s[i..]
    ensures s == s[..i] + p + s[i + |p|..]
  {
    PrefixSplit(p, s[i..]);
    assert s[i..][|p|..] == s[i + |p|..];
    assert s == s[..i] + s[i..];
    AppendAssoc(s[..i], p, s[i + |p|..]);
  }

  /** The index of the first `c` in `s`, or `|s|` when there is none. */
  function Find(s: string, c: char): (i: nat)
    ensures i <= |s|
    ensures i < |s| ==> s[i] == c
    ensures forall j :: 0 <= j < i ==> s[j] != c
  {
    if s == [] then 0 else if s[0] == c then 0 else 1 + Find(s[1..], c)
  }

  /** The first `c` in `x + [c] + y` splits it back into `x` and `[c] + y`. */
  lemma FindAfter(x: string, c: char, y: string)
    requires c !in x
    ensures Find(x + [c] + y, c) == |x|
    ensures (x + [c] + y)[..|x|] == x && (x + [c] + y)[|x|..] == [c] + y
  {
    var s := x + [c] + y;
    assert s[|x|] == c;
    assert forall j :: 0 <= j < |x| ==> s[j] == x[j];
    assert s[..|x|] == x;
    assert s[|x|..] == [c] + y;
  }

  predicate IsIdentifierChar(c: char)
  {
    IsDigit(c) || 'a' <= c <= 'z' || 'A' <= c <= 'Z' || c == '_'
  }

  /** A C identifier, such as the work-vector names the code generator uses. */
  predicate IsIdentifier(s: string)
  {
    |s| > 0 && !IsDigit(s[0]) && forall k :: 0 <= k < |s| ==> IsIdentifierChar(s[k])
  }

  /** Opening minus closing parentheses in `s`. */
  function Net(s: string): int
  {
    if s == [] then 0
    else Net(s[..|s| - 1]) + (if s[|s| - 1] == '(' then 1 else if s[|s| - 1] == ')' then -1 else 0)
  }

  lemma {:induction false} NetWithoutParens(s: string)
    requires '(' !in s && ')' !in s
    ensures Net(s) == 0
  {
    if s != [] {
      assert s[..|s| - 1] <= s;
      NetWithoutParens(s[..|s| - 1]);
    }
  }

  /** Every `)` closes an earlier `(`, and all of them are closed. */
  predicate Balanced(s: string)
  {
    Net(s) == 0 && forall i :: 0 <= i <= |s| ==> Net(s[..i]) >= 0
  }

  lemma {:induction false} NetConcat(a: string, b: string)
    ensures Net(a + b) == Net(a) + Net(b)
  {
    if b != [] {
      var b' := b[..|b| - 1];
      assert (a + b)[..|a + b| - 1] == a + b';
      NetConcat(a, b');
    } else {
      assert a + b == a;
    }
  }

  /** Wrapping a balanced text between `open` and `close` keeps it balanced. */
  lemma Enclose(open: string, t: string, close: string)
    requires Net(open) == 1 && Net(close) == -1
    requires forall i :: 0 <= i <= |open| ==> Net(open[..i]) >= 0
    requires forall i :: 0 <= i < |close| ==> Net(close[..i]) >= 0
    requires Balanced(t)
    ensures Balanced(open + t + close)
  {
    var s := open + t + close;
    NetConcat(open, t);
    NetConcat(open + t, close);
    forall i | 0 <= i <= |s|
      ensures Net(s[..i]) >= 0
    {
      if i <= |open| {
        assert s[..i] == open[..i];
      } else if i <= |open| + |t| {
        assert s[..i] == open + t[..i - |open|];
        NetConcat(open, t[..i - |open|]);
      } else if i < |s| {
        assert s[..i] == (open + t) + close[..i - |open| - |t|];
        NetConcat(open + t, close[..i - |open| - |t|]);
      } else {
        assert s[..i] == s;
      }
    }
  }
}
