/**
 Decimal numerals: what a whole part, a point and a fraction stand for, and
 what padding, trimming and rounding do to that value.
 */
module Decimals {
  import opened Numerals

  // ----- the value of a decimal numeral

  /** Where the point is; the length when there is none. */
  function PointAt(s: string): (i: nat)
    ensures i <= |s|
    ensures i < |s| ==> s[i] == '.'
    ensures forall k :: 0 <= k < i ==> s[k] != '.'
  {
    if s == "" || s[0] == '.' then 0 else 1 + PointAt(s[1..])
  }

  function Fraction(f: string): real {
    Parse(f, 10) as real / Power(10, |f|) as real
  }

  function ParseUnsigned(s: string): real {
    var i := PointAt(s);
    if i == |s| then Parse(s, 10) as real else Parse(s[..i], 10) as real + Fraction(s[i + 1..])
  }

  /** The number that a string with an optional minus sign and an optional point stands for. */
  function ParseDecimal(s: string): real {
    if s != "" && s[0] == '-' then -ParseUnsigned(s[1..]) else ParseUnsigned(s)
  }

  lemma ParsePointed(negative: bool, w: string, f: string)
    requires w != "" && forall i :: 0 <= i < |w| ==> w[i] != '.' && w[i] != '-'
    ensures ParseDecimal(Signed(negative, w + "." + f))
         == (if negative then -1.0 else 1.0) * (Parse(w, 10) as real + Fraction(f))
  {
    hide Parse, Fraction;
    var s := w + "." + f;
    assert s[|w|] == '.' && s[..|w|] == w && s[|w| + 1..] == f;
    assert forall k :: 0 <= k < |w| ==> s[k] == w[k];
    assert PointAt(s) == |w|;
    assert ("-" + s)[1..] == s;
    assert s[0] == w[0];
  }

  lemma ParsePlain(negative: bool, w: string)
    requires w != "" && forall i :: 0 <= i < |w| ==> w[i] != '.' && w[i] != '-'
    ensures ParseDecimal(Signed(negative, w)) == (if negative then -1.0 else 1.0) * Parse(w, 10) as real
  {
    hide Parse;
    assert PointAt(w) == |w|;
    assert ("-" + w)[1..] == w;
  }

  // ----- padding and trimming

  function Zeros(n: nat): (s: string)
    ensures |s| == n && forall i :: 0 <= i < n ==> s[i] == '0'
  {
    seq(n, _ => '0')
  }

  /** Zeros in front, up to a length. */
  function Padded(s: string, n: nat): (r: string)
    ensures |r| == if |s| < n then n else |s|
  {
    Zeros(if |s| < n then n - |s| else 0) + s
  }

  /** Without the zeros at the end, but with at least one character. */
  function Trimmed(s: string): (r: string)
    requires s != ""
    ensures 1 <= |r| <= |s| && r == s[..|r|]
    ensures |r| > 1 ==> r[|r| - 1] != '0'
    ensures forall i :: |r| <= i < |s| ==> s[i] == '0'
    decreases |s|
  {
    if |s| > 1 && s[|s| - 1] == '0' then Trimmed(s[..|s| - 1]) else s
  }

  lemma {:induction false} PaddedParse(n: nat, s: string)
    ensures Parse(Zeros(n) + s, 10) == Parse(s, 10)
    decreases n + |s|
  {
    if s != "" {
      assert (Zeros(n) + s)[..n + |s| - 1] == Zeros(n) + s[..|s| - 1];
      PaddedParse(n, s[..|s| - 1]);
    } else if n > 0 {
      assert (Zeros(n) + s)[..n - 1] == Zeros(n - 1) + s;
      PaddedParse(n - 1, s);
    } else {
      assert Zeros(n) + s == s;
    }
  }

  lemma PowerStep(k: nat)
    ensures Power(10, k + 1) == 10 * Power(10, k)
  {
  }

  lemma SameQuotient(a: int, p: int)
    requires p > 0
    ensures (10 * a) as real / (10 * p) as real == a as real / p as real
  {
    var x, y := a as real, p as real;
    assert (10 * a) as real == 10.0 * x && (10 * p) as real == 10.0 * y;
    assert (10.0 * x) / (10.0 * y) == x / y;
  }

  /** Trailing zeros do not change a fraction. */
  lemma {:induction false} TrimmedFraction(s: string)
    requires s != ""
    ensures Fraction(Trimmed(s)) == Fraction(s)
    decreases |s|
  {
    if |s| > 1 && s[|s| - 1] == '0' {
      var t := s[..|s| - 1];
      TrimmedFraction(t);
      PowerStep(|t|);
      SameQuotient(Parse(t, 10), Power(10, |t|));
    }
  }
}
