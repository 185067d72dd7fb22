/**
 Number printing (`modp_numtoa.c`): digits are written backwards into the
 caller's buffer, which is then reversed in place.
 */
module NumToA {
  import opened Numerals

  /** The characters from `lo` to `hi` after `t` swaps from both ends. */
  ghost function Swapped(s: string, lo: nat, hi: int, t: nat): (r: string)
    requires lo <= hi + 1 <= |s|
    ensures |r| == |s|
    ensures forall k :: 0 <= k < |s| ==> r[k] == if lo <= k <= hi && (k < lo + t || k > hi - t) then s[lo + hi - k]
            else s[k]
  {
    seq(|s|, k requires 0 <= k < |s| => if lo <= k <= hi && (k < lo + t || k > hi - t) then s[lo + hi - k] else s[k])
  }

  lemma SwapNext(s: string, lo: nat, hi: int, t: nat)
    requires lo <= hi + 1 <= |s| && lo + t < hi - t
    ensures var r := Swapped(s, lo, hi, t);
            r[hi - t := r[lo + t]][lo + t := r[hi - t]] == Swapped(s, lo, hi, t + 1)
  {
  }

  lemma SwapNone(s: string, lo: nat, hi: int)
    requires lo <= hi + 1 <= |s|
    ensures Swapped(s, lo, hi, 0) == s
  {
  }

  /** When the ends have met, the range is reversed and the rest is as it was. */
  lemma SwapAll(s: string, lo: nat, hi: int, t: nat)
    requires lo <= hi + 1 <= |s| && lo + t >= hi - t
    ensures var r := Swapped(s, lo, hi, t);
            r[lo..hi + 1] == Reverse(s[lo..hi + 1]) && r[..lo] == s[..lo] && r[hi + 1..] == s[hi + 1..]
  {
    hide Reverse, Swapped;
    SwappedInside(s, lo, hi, t);
    ReversedRange(s, Swapped(s, lo, hi, t), lo, hi + 1);
    SwappedOutside(s, lo, hi, t);
  }

  lemma SwappedInside(s: string, lo: nat, hi: int, t: nat)
    requires lo <= hi + 1 <= |s| && lo + t >= hi - t
    ensures forall k :: lo <= k <= hi ==> Swapped(s, lo, hi, t)[k] == s[lo + hi - k]
  {
    hide Swapped;
  }

  lemma SwappedOutside(s: string, lo: nat, hi: int, t: nat)
    requires lo <= hi + 1 <= |s|
    ensures Swapped(s, lo, hi, t)[..lo] == s[..lo] && Swapped(s, lo, hi, t)[hi + 1..] == s[hi + 1..]
  {
  }

  lemma ReversedRange(before: string, after: string, lo: nat, hi: nat)
    requires lo <= hi <= |before| == |after|
    requires forall k :: lo <= k < hi ==> after[k] == before[lo + hi - 1 - k]
    ensures after[lo..hi] == Reverse(before[lo..hi])
  {
    hide Reverse;
  }

  /** `strreverse`: swaps inwards from both ends; nothing happens when `end` is before `begin`. */
  method StrReverse(a: array<char>, begin: int, end: int)
    requires 0 <= begin <= end + 1 <= a.Length
    modifies a
    ensures a[begin..end + 1] == Reverse(old(a[begin..end + 1]))
    ensures a[..begin] == old(a[..begin]) && a[end + 1..] == old(a[end + 1..])
  {
    hide Reverse, Swapped;
    var b, e := begin, end;
    ghost var t, before := 0, a[..];
    SwapNone(before, begin, end);
    while e > b
      invariant 0 <= t && b == begin + t && e == end - t && b <= e + 1
      invariant a[..] == Swapped(before, begin, end, t)
    {
      SwapNext(before, begin, end, t);
      ghost var now := a[..];
      var aux := a[e];
      a[e] := a[b];
      e := e - 1;
      a[b] := aux;
      b := b + 1;
      assert a[..] == now[end - t := now[begin + t]][begin + t := now[end - t]];
      t := t + 1;
    }
    SwapAll(before, begin, end, t);
  }

  /** The loop that writes the digits of `value` backwards from `at`; `next` is the place behind them. */
  method PutDigits(str: array<char>, at: nat, value: nat, base: int) returns (next: nat)
    requires IsBase(base) && at + |Digits(value, base)| <= str.Length
    modifies str
    ensures next == at + |Digits(value, base)|
    ensures str[at..next] == Reverse(Digits(value, base))
    ensures str[..at] == old(str[..at]) && str[next..] == old(str[next..])
  {
    hide Reverse, DigitChar, Digits;
    next := at;
    var v: nat := value;
    assert Reverse(str[at..next]) == "" && Digits(v, base) + "" == Digits(v, base);
    while true
      invariant 0 <= v && at <= next <= str.Length
      invariant Digits(value, base) == Digits(v, base) + Reverse(str[at..next])
      invariant forall k :: 0 <= k < str.Length && !(at <= k < next) ==> str[k] == old(str[k])
      decreases v
    {
      var c := DigitChar(v % base);
      DigitsStep(v, base, Reverse(str[at..next]));
      ghost var before := str[at..next];
      str[next] := c;
      assert str[at..next + 1] == before + [c];
      ReverseAppend(before, c);
      next := next + 1;
      if v < base {
        ReverseTwice(str[at..next]);
        break;
      }
      DivSmaller(v, base);
      v := v / base;
    }
  }

  lemma DigitsStep(v: nat, base: int, rest: string)
    requires IsBase(base)
    ensures v < base ==> Digits(v, base) + rest == [DigitChar(v % base)] + rest
    ensures v >= base ==> Digits(v, base) + rest == Digits(v / base, base) + ([DigitChar(v % base)] + rest)
  {
    hide DigitChar;
    if v >= base {
      DivSmaller(v, base);
      Associate(Digits(v / base, base), [DigitChar(v % base)], rest);
    } else {
      SmallRemainder(v, base);
    }
  }

  lemma SmallRemainder(v: nat, base: int)
    requires v < base
    ensures v % base == v
  {
  }

  lemma Associate(a: string, b: string, c: string)
    ensures a + b + c == a + (b + c)
  {
  }

  /** One more character behind the first `p`. */
  lemma PutOne(first: string, before: string, now: string, p: nat, c: char)
    requires p < |first| == |before| && now == before[p := c] && before[p..] == first[p..]
    ensures now[..p + 1] == before[..p] + [c] && now[p + 1..] == first[p + 1..]
  {
    assert now[p + 1..] == before[p..][1..] && first[p + 1..] == first[p..][1..];
  }

  lemma ReverseAppend(s: string, c: char)
    ensures Reverse(s + [c]) == [c] + Reverse(s)
  {
  }

  lemma ReverseTwice(s: string)
    ensures Reverse(Reverse(s)) == s
  {
  }

  lemma ReverseConcat(s: string, t: string)
    ensures Reverse(s + t) == Reverse(t) + Reverse(s)
  {
  }

  /** No character of a numeral is NUL. */
  lemma NoNul(v: nat, base: int)
    requires IsBase(base)
    ensures forall i :: 0 <= i < |Digits(v, base)| ==>
            Digits(v, base)[i] != '\0' && Digits(v, base)[i] != '.' && Digits(v, base)[i] != '-'
  {
    DigitsCanonical(v, base);
    var s := Digits(v, base);
    forall i | 0 <= i < |s| ensures s[i] != '\0' && s[i] != '.' && s[i] != '-' {
      assert IsDigit(s[i], base);
    }
  }

  /** `modp_uitoa10` and `modp_ultoa10`. */
  method Uitoa10(value: nat, str: array<char>)
    requires |Digits(value, 10)| + 1 <= str.Length
    modifies str
    ensures CString(str[..]) == Digits(value, 10)
  {
    SignedDecimal(value, false, str);
  }

  /** `modp_itoa10`; the magnitude of the smallest number is not representable. */
  method Itoa10(value: int, str: array<char>)
    requires -0x8000_0000 < value < 0x8000_0000
    requires |Digits(if value < 0 then -value else value, 10)| + 2 <= str.Length
    modifies str
    ensures ParseSigned(CString(str[..]), 10) == value
    ensures CString(str[..]) == Signed(value < 0, Digits(if value < 0 then -value else value, 10))
  {
    SignedDecimal(if value < 0 then -value else value, value < 0, str);
    SignedRoundTrip(value, 10);
  }

  /** `modp_ltoa10`; the magnitude of the smallest number is not representable. */
  method Ltoa10(value: int, str: array<char>)
    requires -0x8000_0000_0000_0000 < value < 0x8000_0000_0000_0000
    requires |Digits(if value < 0 then -value else value, 10)| + 2 <= str.Length
    modifies str
    ensures ParseSigned(CString(str[..]), 10) == value
    ensures CString(str[..]) == Signed(value < 0, Digits(if value < 0 then -value else value, 10))
  {
    SignedDecimal(if value < 0 then -value else value, value < 0, str);
    SignedRoundTrip(value, 10);
  }

  /** The common body: digits backwards, sign, terminator, reversal. */
  method SignedDecimal(value: nat, negative: bool, str: array<char>)
    requires |Digits(value, 10)| + (if negative then 2 else 1) <= str.Length
    modifies str
    ensures CString(str[..]) == Signed(negative, Digits(value, 10))
  {
    hide Digits, Reverse;
    NoNul(value, 10);
    var n := PutDigits(str, 0, value, 10);
    assert str[..n] == str[0..n];
    Finish(str, n, negative, Digits(value, 10));
  }

  /** The end of every conversion: sign, terminator, reversal of what was written. */
  method Finish(str: array<char>, n: nat, negative: bool, ghost digits: string)
    requires n + (if negative then 2 else 1) <= str.Length
    requires str[..n] == Reverse(digits)
    requires forall i :: 0 <= i < |digits| ==> digits[i] != '\0'
    modifies str
    ensures CString(str[..]) == Signed(negative, digits)
    ensures str[n + (if negative then 2 else 1)..] == old(str[n + (if negative then 2 else 1)..])
  {
    hide Reverse, CString, Signed;
    var end := n;
    if negative {
      str[end] := '-';
      end := end + 1;
    }
    str[end] := '\0';
    ghost var text := Signed(negative, digits);
    SignedBackwards(negative, digits);
    assert str[0..end] == Reverse(text);
    StrReverse(str, 0, end - 1);
    ReverseTwice(text);
    TextEnds(str[..], text, end);
  }

  lemma SignedBackwards(negative: bool, digits: string)
    ensures Reverse(Signed(negative, digits)) == Reverse(digits) + if negative then "-" else ""
    ensures (forall i :: 0 <= i < |digits| ==> digits[i] != '\0') ==>
              forall i :: 0 <= i < |Signed(negative, digits)| ==> Signed(negative, digits)[i] != '\0'
  {
    hide Reverse;
    ReverseConcat("-", digits);
    assert Reverse("-") == "-";
  }

  /** Memory that starts with a text and a terminator holds that string. */
  lemma TextEnds(memory: string, text: string, end: nat)
    requires end < |memory| && memory[0..end] == text && memory[end] == '\0'
    requires forall i :: 0 <= i < |text| ==> text[i] != '\0'
    ensures CString(memory) == text
  {
    hide CString;
    assert memory == text + ['\0'] + memory[end + 1..];
    CStringIs(text, memory[end + 1..]);
  }

  // ----- any base

  const TABLE_DOWN: string := "zyxwvutsrqponmlkjihgfedcba"
  const TABLE_MIDDLE: string := "9876543210123456789"
  const TABLE_UP: string := "abcdefghijklmnopqrstuvwxyz"

  /** The table of `modp_itoaX`, with digit 0 in the middle. */
  const TABLE: string := TABLE_DOWN + TABLE_MIDDLE + TABLE_UP

  lemma TableDown(k: nat)
    requires k < 26
    ensures |TABLE_DOWN| == 26 && TABLE_DOWN[k] == (122 - k) as char
  {
  }

  lemma TableMiddle(k: nat)
    requires k < 19
    ensures |TABLE_MIDDLE| == 19 && TABLE_MIDDLE[k] == (48 + if k < 9 then 9 - k else k - 9) as char
  {
  }

  lemma TableUp(k: nat)
    requires k < 26
    ensures |TABLE_UP| == 26 && TABLE_UP[k] == (97 + k) as char
  {
  }

  /** The table holds the digits of both signs of a remainder. */
  lemma TableEntry(r: int)
    requires -35 <= r <= 35
    ensures |TABLE| == 71 && TABLE[35 + r] == DigitChar(if r < 0 then -r else r)
  {
    TableDown(if r < -9 then 35 + r else 0);
    TableMiddle(if -9 <= r <= 9 then 9 + r else 0);
    TableUp(if r > 9 then r - 10 else 0);
  }

  /** Division of the source: towards zero. */
  function TruncDiv(a: int, b: int): int
    requires b > 0
  {
    if a >= 0 then a / b else -((-a) / b)
  }

  function Magnitude(a: int): nat {
    if a < 0 then -a else a
  }

  /** tmp_value - value * base */
  function TruncRem(a: int, b: int): int
    requires b > 0
  {
    a - TruncDiv(a, b) * b
  }

  lemma Euclid(m: nat, b: int)
    requires b > 0
    ensures m == (m / b) * b + m % b && 0 <= m % b < b && m / b >= 0
  {
  }

  /** Truncating division divides the magnitude; the remainder has its digits, in either sign. */
  lemma TruncRemainder(a: int, b: int)
    requires IsBase(b)
    ensures Magnitude(TruncDiv(a, b)) == Magnitude(a) / b
    ensures Magnitude(TruncRem(a, b)) == Magnitude(a) % b
    ensures -35 <= TruncRem(a, b) <= 35
    ensures if a < 0 then TruncDiv(a, b) <= 0 else TruncDiv(a, b) >= 0
  {
    Euclid(Magnitude(a), b);
    TruncRemIs(a, b, Magnitude(a) / b, Magnitude(a) % b);
  }

  lemma TruncRemIs(a: int, b: int, q: int, r: int)
    requires b > 0 && q == Magnitude(a) / b && Magnitude(a) == q * b + r
    ensures TruncDiv(a, b) == if a < 0 then -q else q
    ensures TruncRem(a, b) == if a < 0 then -r else r
  {
    NegateProduct(q, b);
  }

  lemma NegateProduct(q: int, b: int)
    ensures (-q) * b == -(q * b)
  {
  }

  /** The table look-up; every index that the loop can form is in the table. */
  function TableChar(i: int): (c: char)
    requires 0 <= i <= 70
    ensures c == DigitChar(Magnitude(i - 35))
  {
    TableEntry(i - 35);
    TABLE[i]
  }

  /** The digit loop of `modp_itoaX`; the last dividend tells the sign. */
  method PutSignedDigits(start: int, str: array<char>, base: int) returns (ptr: nat, tmpValue: int)
    requires IsBase(base) && |Digits(Magnitude(start), base)| <= str.Length
    modifies str
    ensures ptr == |Digits(Magnitude(start), base)|
    ensures str[..ptr] == Reverse(Digits(Magnitude(start), base))
    ensures str[ptr..] == old(str[ptr..])
    ensures tmpValue < 0 <==> start < 0
  {
    hide Reverse, DigitChar, Digits, TruncDiv, TruncRem, TableChar;
    var value := start;
    ptr := 0;
    assert Reverse(str[..ptr]) == "";
    while true
      invariant 0 <= ptr <= str.Length && (if start < 0 then value < 0 else value >= 0)
      invariant Digits(Magnitude(start), base) == Digits(Magnitude(value), base) + Reverse(str[..ptr])
      invariant str[ptr..] == old(str[ptr..])
      decreases Magnitude(value)
    {
      tmpValue := value;
      value := TruncDiv(value, base);
      TruncRemainder(tmpValue, base);
      DigitsStep(Magnitude(tmpValue), base, Reverse(str[..ptr]));
      var c := TableChar(35 + TruncRem(tmpValue, base));
      ghost var before := str[..];
      str[ptr] := c;
      PutOne(old(str[..]), before, str[..], ptr, c);
      ReverseAppend(before[..ptr], c);
      ptr := ptr + 1;
      Quotient(Magnitude(tmpValue), base);
      if value == 0 {
        ReverseTwice(str[..ptr]);
        break;
      }
    }
  }

  /**
   `modp_itoaX`, for every 32-bit number including the smallest and for every
   base: an optional minus sign and the digits without redundant zeros, at
   most 34 characters with the terminator; an invalid base gives the empty
   string.
   */
  method ItoaX(start: int, str: array<char>, base: int)
    requires -0x8000_0000 <= start < 0x8000_0000 && str.Length >= 34
    modifies str
    ensures str[34..] == old(str[34..])
    ensures !IsBase(base) ==> CString(str[..]) == ""
    ensures IsBase(base) ==>
              && CString(str[..]) == Signed(start < 0, Digits(Magnitude(start), base))
              && Canonical(Digits(Magnitude(start), base), base)
              && ParseSigned(CString(str[..]), base) == start
  {
    if base < 2 || base > 36 {
      str[0] := '\0';
      assert str[..][0] == '\0';
      return;
    }
    hide Reverse, Digits, CString, ParseSigned;
    Digits32(Magnitude(start), base);
    DigitsCanonical(Magnitude(start), base);
    SignedRoundTrip(start, base);
    NoNul(Magnitude(start), base);
    ghost var before := str[..];
    var ptr, tmpValue := PutSignedDigits(start, str, base);
    ghost var digits := str[..];
    Finish(str, ptr, tmpValue < 0, Digits(Magnitude(start), base));
    SameTail(before, digits, str[..], ptr, ptr + (if tmpValue < 0 then 2 else 1), 34);
  }

  /** What neither of two steps has touched. */
  lemma SameTail(a: string, b: string, c: string, p: nat, q: nat, r: nat)
    requires p <= q <= r <= |a| == |b| == |c| && a[p..] == b[p..] && b[q..] == c[q..]
    ensures a[r..] == c[r..]
  {
    assert a[r..] == a[p..][r - p..] && b[r..] == b[p..][r - p..];
    assert b[r..] == b[q..][r - q..] && c[r..] == c[q..][r - q..];
  }

  lemma Quotient(m: nat, b: int)
    requires IsBase(b)
    ensures m / b == 0 <==> m < b
    ensures m >= b ==> m / b < m
  {
    if m >= b {
      DivSmaller(m, b);
    }
  }
}
