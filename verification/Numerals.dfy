/**
 Numerals: the strings that number printing has to produce, and the numbers
 they stand for.
 */
module Numerals {

  predicate IsBase(b: int) {
    2 <= b <= 36
  }

  /** 0-9, then a-z. */
  function DigitChar(d: int): (c: char)
    requires 0 <= d < 36
  {
    (if d < 10 then 48 + d else 87 + d) as char
  }

  predicate IsDigit(c: char, base: int) {
    ('0' <= c <= '9' && c as int - 48 < base) || ('a' <= c <= 'z' && c as int - 87 < base)
  }

  function DigitValue(c: char): int {
    if c <= '9' then c as int - 48 else c as int - 87
  }

  lemma DigitRoundTrip(d: int, base: int)
    requires IsBase(base) && 0 <= d < base
    ensures IsDigit(DigitChar(d), base) && DigitValue(DigitChar(d)) == d
    ensures DigitChar(d) == '0' <==> d == 0
    ensures DigitChar(d) != '-' && DigitChar(d) != '.' && DigitChar(d) != '\0'
  {
  }

  /** The numeral of `v`, most significant digit first. */
  function Digits(v: nat, base: int): (s: string)
    requires IsBase(base)
    ensures |s| >= 1
  {
    if v < base then [DigitChar(v)]
    else
      DivSmaller(v, base);
      Digits(v / base, base) + [DigitChar(v % base)]
  }

  /** The number that a string of digits stands for. */
  function Parse(s: string, base: int): int
    decreases |s|
  {
    if s == "" then 0 else base * Parse(s[..|s| - 1], base) + DigitValue(s[|s| - 1])
  }

  predicate AllDigits(s: string, base: int) {
    forall i :: 0 <= i < |s| ==> IsDigit(s[i], base)
  }

  /** At least one digit, and no 0 in front of others. */
  predicate Canonical(s: string, base: int) {
    |s| >= 1 && AllDigits(s, base) && (|s| > 1 ==> s[0] != '0')
  }

  lemma {:induction false} DigitsCanonical(v: nat, base: int)
    requires IsBase(base)
    ensures Canonical(Digits(v, base), base)
    ensures Digits(v, base)[0] == '0' <==> v == 0
    decreases v
  {
    if v < base {
      DigitRoundTrip(v, base);
    } else {
      DivSmaller(v, base);
      DigitsCanonical(v / base, base);
      DigitRoundTrip(v % base, base);
    }
  }

  lemma DivSmaller(v: nat, base: int)
    requires IsBase(base) && v >= base
    ensures 0 < v / base < v && 0 <= v % base < base
  {
  }

  lemma {:induction false} DigitsParse(v: nat, base: int)
    requires IsBase(base)
    ensures Parse(Digits(v, base), base) == v
    decreases v
  {
    hide DigitChar, DigitValue, Parse;
    if v < base {
      DigitRoundTrip(v, base);
      ParseAppend("", DigitChar(v), base);
      assert "" + [DigitChar(v)] == [DigitChar(v)];
      assert Parse("", base) == 0 by { ParseEmpty(base); }
    } else {
      DivSmaller(v, base);
      DigitsParse(v / base, base);
      DigitRoundTrip(v % base, base);
      ParseAppend(Digits(v / base, base), DigitChar(v % base), base);
    }
  }

  lemma ParseEmpty(base: int)
    ensures Parse("", base) == 0
  {
  }

  lemma ParseAppend(s: string, c: char, base: int)
    ensures Parse(s + [c], base) == base * Parse(s, base) + DigitValue(c)
  {
    assert (s + [c])[..|s|] == s;
  }

  function Power(b: int, k: nat): (p: int)
    requires b >= 1
    ensures p >= 1
  {
    if k == 0 then 1 else b * Power(b, k - 1)
  }

  /** A number below base^k has at most k digits. */
  lemma {:induction false} DigitsLength(v: nat, base: int, k: nat)
    requires IsBase(base) && k >= 1 && v < Power(base, k)
    ensures |Digits(v, base)| <= k
    decreases k
  {
    assert Power(base, 1) == base * Power(base, 0) == base;
    if v >= base {
      DivBound(v, base, Power(base, k - 1));
      DigitsLength(v / base, base, k - 1);
    }
  }

  lemma DivBound(v: nat, base: int, p: int)
    requires base >= 2 && v < base * p
    ensures v / base < p
  {
    MulCancel(base, v / base, p);
  }

  lemma MulCancel(a: int, x: int, y: int)
    requires a > 0 && a * x < a * y
    ensures x < y
  {
  }

  lemma MulMonotone(a: int, b: int, x: int, y: int)
    requires 0 <= a <= b && 0 <= x <= y
    ensures a * x <= b * y
  {
    assert a * x <= b * x;
    assert b * x <= b * y;
  }

  lemma {:induction false} PowerMonotone(a: int, b: int, k: nat)
    requires 1 <= a <= b
    ensures Power(a, k) <= Power(b, k)
  {
    if k != 0 {
      PowerMonotone(a, b, k - 1);
      MulMonotone(a, b, Power(a, k - 1), Power(b, k - 1));
    }
  }

  lemma {:induction false} PowerTwo(k: nat)
    ensures Power(2, k + 8) == 256 * Power(2, k)
  {
    assert Power(2, k + 8) == 2 * Power(2, k + 7) && Power(2, k + 7) == 2 * Power(2, k + 6);
    assert Power(2, k + 6) == 2 * Power(2, k + 5) && Power(2, k + 5) == 2 * Power(2, k + 4);
    assert Power(2, k + 4) == 2 * Power(2, k + 3) && Power(2, k + 3) == 2 * Power(2, k + 2);
    assert Power(2, k + 2) == 2 * Power(2, k + 1) && Power(2, k + 1) == 2 * Power(2, k);
  }

  lemma PowerTwo32()
    ensures Power(2, 32) == 0x1_0000_0000
  {
    assert Power(2, 0) == 1;
    PowerTwo(0);
    PowerTwo(8);
    PowerTwo(16);
    PowerTwo(24);
  }

  /** A 32-bit number has at most 32 digits in any base. */
  lemma Digits32(v: nat, base: int)
    requires IsBase(base) && v < 0x1_0000_0000
    ensures |Digits(v, base)| <= 32
  {
    hide Power, Digits;
    PowerTwo32();
    PowerMonotone(2, base, 32);
    DigitsLength(v, base, 32);
  }

  // ----- reversed strings and strings in memory

  function Reverse(s: string): (r: string)
    ensures |r| == |s|
    ensures forall i :: 0 <= i < |s| ==> r[i] == s[|s| - 1 - i]
  {
    if s == "" then "" else Reverse(s[1..]) + [s[0]]
  }

  /** The string in memory that ends at the first NUL. */
  function CString(s: string): string {
    if s == "" || s[0] == '\0' then "" else [s[0]] + CString(s[1..])
  }

  lemma {:induction false} CStringIs(t: string, rest: string)
    requires forall i :: 0 <= i < |t| ==> t[i] != '\0'
    ensures CString(t + ['\0'] + rest) == t
  {
    if t == "" {
      assert (t + ['\0'] + rest)[0] == '\0';
    } else {
      CStringIs(t[1..], rest);
      assert (t + ['\0'] + rest)[1..] == t[1..] + ['\0'] + rest;
    }
  }

  // ----- signed numerals

  function Signed(negative: bool, s: string): string {
    if negative then "-" + s else s
  }

  /** The integer that a numeral with an optional minus sign stands for. */
  function ParseSigned(s: string, base: int): int {
    if s != "" && s[0] == '-' then -Parse(s[1..], base) else Parse(s, base)
  }

  /** An optional minus sign and the digits of the magnitude read back as the number. */
  lemma SignedRoundTrip(v: int, base: int)
    requires IsBase(base)
    ensures ParseSigned(Signed(v < 0, Digits(if v < 0 then -v else v, base)), base) == v
  {
    var m := if v < 0 then -v else v;
    DigitsParse(m, base);
    DigitsCanonical(m, base);
    var s := Digits(m, base);
    assert ("-" + s)[1..] == s;
  }
}
