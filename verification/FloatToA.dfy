/**
 `modp_ftoa` and `modp_dtoa` (`modp_numtoa.c`): rounding to whole and fraction,
 and the in-place pipeline that prints them. The floating-point value is
 taken as the real number that it is, and its arithmetic as exact.
 */
module FloatToA {
  import opened Numerals
  import opened Decimals
  import opened NumToA

  // ----- the printed text

  /** What the pipeline has to print for a whole part and a scaled fraction. */
  function Text(negative: bool, whole: nat, frac: nat, prec: nat): string {
    Signed(negative, if prec == 0 then Digits(whole, 10) else Digits(whole, 10) + "." + FractionText(frac, prec))
  }

  function FractionText(frac: nat, prec: nat): (f: string)
    requires prec >= 1
    ensures f != ""
  {
    Trimmed(Padded(Digits(frac, 10), prec))
  }

  function FractionLength(frac: nat, prec: nat): (n: nat)
    ensures n >= prec && n >= 1
  {
    if |Digits(frac, 10)| < prec then prec else |Digits(frac, 10)|
  }

  function Sign(negative: bool): real {
    if negative then -1.0 else 1.0
  }

  lemma FractionValue(frac: nat, prec: nat)
    requires prec >= 1
    ensures Fraction(FractionText(frac, prec)) == frac as real / Power(10, FractionLength(frac, prec)) as real
  {
    hide Parse, Power;
    var d := Digits(frac, 10);
    TrimmedFraction(Padded(d, prec));
    PaddedParse(if |d| < prec then prec - |d| else 0, d);
    DigitsParse(frac, 10);
  }

  /** The printed text stands for the whole part and the fraction over the number of places it takes. */
  lemma TextValue(negative: bool, whole: nat, frac: nat, prec: nat)
    ensures ParseDecimal(Text(negative, whole, frac, prec))
         == Sign(negative) * (whole as real + if prec == 0 then 0.0
             else frac as real / Power(10, FractionLength(frac, prec)) as real)
  {
    hide Parse, Power, ParseDecimal, FractionText;
    var w := Digits(whole, 10);
    NoNul(whole, 10);
    DigitsParse(whole, 10);
    if prec == 0 {
      ParsePlain(negative, w);
    } else {
      FractionValue(frac, prec);
      ParsePointed(negative, w, FractionText(frac, prec));
    }
  }

  /** A number from base^k on has more than k digits. */
  lemma {:induction false} DigitsLong(v: nat, k: nat)
    requires v >= Power(10, k)
    ensures |Digits(v, 10)| > k
    decreases k
  {
    if k > 0 {
      DivFrom(v, Power(10, k - 1));
      DigitsLong(v / 10, k - 1);
    }
  }

  lemma DivFrom(v: nat, p: int)
    requires p >= 1 && v >= 10 * p
    ensures v / 10 >= p && v >= 10
  {
  }

  lemma {:induction false} PowerGrows(a: nat, b: nat)
    requires a < b
    ensures 10 * Power(10, a) <= Power(10, b)
    decreases b
  {
    if a < b - 1 {
      PowerGrows(a, b - 1);
    }
  }

  lemma DigitsFit(v: nat, k: nat)
    requires k >= 1
    ensures |Digits(v, 10)| <= k <==> v < Power(10, k)
  {
    if v < Power(10, k) {
      DigitsLength(v, 10, k);
    } else {
      DigitsLong(v, k);
    }
  }

  lemma QuotientsDiffer(f: int, p: int, q: int)
    requires f > 0 && 0 < p < q
    ensures f as real / p as real != f as real / q as real
  {
    Shrinks(f as real, p as real, q as real);
  }

  lemma Shrinks(f: real, p: real, q: real)
    requires f > 0.0 && 0.0 < p < q
    ensures f / p > f / q
  {
    var x, y := f / p, f / q;
    assert x * p == f == y * q;
    assert y > 0.0 && y * q > y * p;
    Larger(x, y, p);
  }

  lemma Larger(x: real, y: real, p: real)
    requires p > 0.0 && x * p > y * p
    ensures x > y
  {
    assert (x - y) * p > 0.0;
  }

  lemma SignedSame(negative: bool, w: real, x: real, y: real)
    ensures Sign(negative) * (w + x) == Sign(negative) * (w + y) <==> x == y
  {
  }

  /**
   The text stands for whole + frac / 10^prec exactly when the fraction is
   below 10^prec.
   */
  lemma TextExactly(negative: bool, whole: nat, frac: nat, prec: nat)
    requires prec >= 1
    ensures ParseDecimal(Text(negative, whole, frac, prec))
            == Sign(negative) * (whole as real + frac as real / Power(10, prec) as real)
       <==> frac < Power(10, prec)
  {
    hide Power, ParseDecimal, Text, Digits, Sign;
    var n := FractionLength(frac, prec);
    TextValue(negative, whole, frac, prec);
    DigitsFit(frac, prec);
    SignedSame(negative, whole as real, frac as real / Power(10, n) as real, frac as real / Power(10, prec) as real);
    if frac >= Power(10, prec) {
      PowerGrows(prec, n);
      QuotientsDiffer(frac, Power(10, prec), Power(10, n));
    }
  }

  /**
   With a precision the text has a point and at least one character behind it,
   and ends in a 0 only right behind the point; without one it has no point.
   */
  lemma TextTrimmed(negative: bool, whole: nat, frac: nat, prec: nat)
    ensures var t := Text(negative, whole, frac, prec);
            && |t| >= 1
            && (prec == 0 ==> '.' !in t)
            && (prec > 0 ==> |t| >= 2 && '.' in t && t[|t| - 1] != '.' && (t[|t| - 1] == '0' ==> t[|t| - 2] == '.'))
  {
    hide Digits;
    NoNul(whole, 10);
    NoNul(frac, 10);
    var t := Text(negative, whole, frac, prec);
    if prec > 0 {
      var f := FractionText(frac, prec);
      var head := Signed(negative, Digits(whole, 10) + ".");
      assert t == head + f && head[|head| - 1] == '.';
      assert t[|head| - 1] == '.';
      assert t[|t| - 1] == f[|f| - 1];
      assert |f| > 1 ==> f[|f| - 1] != '0';
    }
  }

  // ----- the pipeline

  /** How many leading zeros `trimLeadingZeros` overwrites. */
  function ZerosToDrop(s: string): (n: nat)
    ensures n <= |s|
  {
    if |s| >= 2 && s[0] == '0' && s[1] != '.' && s[1] != '\0' then 1 + ZerosToDrop(s[1..]) else 0
  }

  /** `trimLeadingZeros`: zeros of the string become NUL, up to the one before the point or the end. */
  method TrimLeadingZeros(str: array<char>) returns (ptr: nat)
    requires exists i :: 0 <= i < str.Length && str[i] == '\0'
    modifies str
    ensures ptr == ZerosToDrop(old(str[..])) <= str.Length
    ensures forall k :: 0 <= k < ptr ==> str[k] == '\0'
    ensures str[ptr..] == old(str[ptr..])
  {
    ghost var end :| 0 <= end < str.Length && str[end] == '\0';
    ptr := 0;
    while str[ptr] == '0'
      invariant ptr <= end && str[end] == '\0'
      invariant forall k :: 0 <= k < ptr ==> str[k] == '\0'
      invariant str[ptr..] == old(str[ptr..])
      invariant ptr + ZerosToDrop(str[ptr..]) == ZerosToDrop(old(str[..]))
      decreases end - ptr
    {
      assert str[ptr..][0] == str[ptr] && str[ptr..][1] == str[ptr + 1] && str[ptr..][1..] == str[ptr + 1..];
      if str[ptr + 1] == '.' || str[ptr + 1] == '\0' {
        return;
      }
      ghost var rest := str[ptr + 1..];
      str[ptr] := '\0';
      assert str[ptr + 1..] == rest;
      ptr := ptr + 1;
    }
  }

  /** On a reversed fraction before a point these are the trailing zeros, all but one digit. */
  lemma {:induction false} DropsTrailing(f: string, rest: string)
    requires f != "" && forall i :: 0 <= i < |f| ==> f[i] != '.' && f[i] != '\0'
    ensures ZerosToDrop(Reverse(f) + "." + rest) == |f| - |Trimmed(f)|
    decreases |f|
  {
    var s := Reverse(f) + "." + rest;
    assert s[0] == f[|f| - 1];
    if |f| > 1 {
      assert s[1] == f[|f| - 2];
      if f[|f| - 1] == '0' {
        var t := f[..|f| - 1];
        DropsTrailing(t, rest);
        assert f == t + ['0'];
        ReverseAppend(t, '0');
        assert s[1..] == Reverse(t) + "." + rest;
      }
    } else {
      assert s[1] == '.';
    }
  }

  /** The fraction digits backwards, zeros up to the precision, and the point. */
  method PutFraction(str: array<char>, frac: nat, prec: nat) returns (next: nat)
    requires prec >= 1 && FractionLength(frac, prec) + 1 <= str.Length
    modifies str
    ensures next == FractionLength(frac, prec) + 1
    ensures str[..next] == Reverse(Padded(Digits(frac, 10), prec)) + "."
    ensures str[next..] == old(str[next..])
  {
    hide Digits, Reverse;
    ghost var d := Digits(frac, 10);
    next := PutDigits(str, 0, frac, 10);
    ghost var first, middle := next, str[..];
    next := PutZeros(str, next, prec - next);
    SameTail(old(str[..]), middle, str[..], first, next, next + 1);
    assert str[..next] == Reverse(Padded(d, prec)) by { PaddedReverse(d, prec); }
    str[next] := '.';
    next := next + 1;
  }

  /** As many zeros as the digits fall short of the precision. */
  method PutZeros(str: array<char>, at: nat, short: int) returns (next: nat)
    requires at + (if short > 0 then short else 0) <= str.Length
    modifies str
    ensures next == at + (if short > 0 then short else 0)
    ensures str[..next] == old(str[..at]) + Zeros(next - at)
    ensures str[next..] == old(str[next..])
  {
    var count := short;
    next := at;
    while count > 0
      invariant at <= next <= str.Length && next + count == at + short && (count < 0 ==> next == at)
      invariant str[..at] == old(str[..at]) && forall k :: at <= k < next ==> str[k] == '0'
      invariant str[next..] == old(str[next..])
    {
      str[next] := '0';
      next := next + 1;
      count := count - 1;
    }
    assert str[..next] == str[..at] + str[at..next];
  }

  lemma PaddedReverse(d: string, prec: nat)
    ensures Reverse(Padded(d, prec)) == Reverse(d) + Zeros(|Padded(d, prec)| - |d|)
  {
    hide Reverse;
    var n := |Padded(d, prec)| - |d|;
    ReverseConcat(Zeros(n), d);
    assert Reverse(Zeros(n)) == Zeros(n);
  }

  lemma PaddedDigits(frac: nat, prec: nat)
    ensures forall i :: 0 <= i < |Padded(Digits(frac, 10), prec)| ==>
              Padded(Digits(frac, 10), prec)[i] != '\0' && Padded(Digits(frac, 10), prec)[i] != '.'
  {
    hide Digits;
    NoNul(frac, 10);
  }

  /**
   Printing from whole and fraction on: reversed digits, padding, point, whole
   part, sign, terminator, trimming and reversal, all in the caller's buffer.
   */
  method PrintParts(negative: bool, whole: nat, frac: nat, prec: nat, str: array<char>)
    requires (if prec == 0 then 0 else FractionLength(frac, prec) + 1) + |Digits(whole, 10)|
             + (if negative then 2 else 1) <= str.Length
    modifies str
    ensures CString(str[..]) == Text(negative, whole, frac, prec)
  {
    hide Digits, Reverse, CString, Padded, Trimmed, ZerosToDrop;
    ghost var w := Digits(whole, 10);
    NoNul(whole, 10);
    if prec == 0 {
      SignedDecimal(whole, negative, str);
      return;
    }
    ghost var f := Padded(Digits(frac, 10), prec);
    PaddedDigits(frac, prec);
    var point := PutFraction(str, frac, prec);
    ghost var front := str[..point];
    var wstr := PutDigits(str, point, whole, 10);
    assert str[..wstr] == front + Reverse(w);
    if negative {
      str[wstr] := '-';
      wstr := wstr + 1;
    }
    str[wstr] := '\0';
    assert str[..wstr] == Backwards(negative, w, f);
    TrimAndReverse(str, wstr, negative, w, f);
  }

  /** What the buffer holds before trimming. */
  ghost function Backwards(negative: bool, w: string, f: string): (r: string)
    ensures |r| == |f| + 1 + |w| + if negative then 1 else 0
  {
    Reverse(f) + "." + Reverse(w) + if negative then "-" else ""
  }

  /** The end of the conversion: the trailing zeros become NUL and end up behind the text. */
  method TrimAndReverse(str: array<char>, wstr: nat, negative: bool, ghost w: string, ghost f: string)
    requires f != "" && forall i :: 0 <= i < |f| ==> f[i] != '\0' && f[i] != '.'
    requires forall i :: 0 <= i < |w| ==> w[i] != '\0'
    requires wstr < str.Length && str[wstr] == '\0' && str[..wstr] == Backwards(negative, w, f)
    modifies str
    ensures CString(str[..]) == Signed(negative, w + "." + Trimmed(f))
  {
    hide CString, Backwards, Trimmed, ZerosToDrop, Reverse, Signed;
    ghost var text := Signed(negative, w + "." + Trimmed(f));
    BackwardsDrops(negative, w, f, str[wstr..]);
    assert str[..wstr] + str[wstr..] == str[..];
    ghost var before := str[..];
    var dropped := TrimLeadingZeros(str);
    ghost var now := str[0..wstr];
    DroppedTail(before, str[..], wstr, dropped);
    StrReverse(str, 0, wstr - 1);
    TextNoNul(negative, w, f);
    ShowsText(str[..], now, wstr, dropped, text);
  }

  lemma DroppedTail(before: string, after: string, wstr: nat, dropped: nat)
    requires dropped <= wstr < |before| == |after| && after[dropped..] == before[dropped..]
    ensures after[0..wstr][dropped..] == before[..wstr][dropped..] && after[wstr] == before[wstr]
  {
    assert after[wstr] == after[dropped..][wstr - dropped];
    assert after[0..wstr][dropped..] == after[dropped..][..wstr - dropped];
    assert before[..wstr][dropped..] == before[dropped..][..wstr - dropped];
  }

  lemma ShowsText(memory: string, now: string, wstr: nat, dropped: nat, text: string)
    requires wstr < |memory| && dropped <= wstr == |now| && memory[0..wstr] == Reverse(now) && memory[wstr] == '\0'
    requires now[dropped..] == Reverse(text) && forall k :: 0 <= k < dropped ==> now[k] == '\0'
    requires forall i :: 0 <= i < |text| ==> text[i] != '\0'
    ensures CString(memory) == text
  {
    hide Reverse, CString;
    var nuls := now[..dropped];
    assert now == nuls + Reverse(text);
    ReverseConcat(nuls, Reverse(text));
    ReverseTwice(text);
    TextAndNuls(memory, text, Reverse(nuls), wstr);
  }

  lemma TextAndNuls(memory: string, text: string, nuls: string, wstr: nat)
    requires wstr < |memory| && memory[0..wstr] == text + nuls && memory[wstr] == '\0'
    requires forall k :: 0 <= k < |nuls| ==> nuls[k] == '\0'
    requires forall i :: 0 <= i < |text| ==> text[i] != '\0'
    ensures CString(memory) == text
  {
    hide CString;
    var s := memory[0..wstr];
    assert s[..|text|] == text;
    assert memory[0..|text|] == s[..|text|];
    assert |nuls| > 0 ==> memory[|text|] == s[|text|] == nuls[0];
    TextEnds(memory, text, |text|);
  }

  lemma TextNoNul(negative: bool, w: string, f: string)
    requires f != "" && forall i :: 0 <= i < |f| ==> f[i] != '\0'
    requires forall i :: 0 <= i < |w| ==> w[i] != '\0'
    ensures var t := Signed(negative, w + "." + Trimmed(f)); forall i :: 0 <= i < |t| ==> t[i] != '\0'
  {
  }

  /** Backwards, the trailing zeros are the first characters, and dropping them leaves the reversed text. */
  lemma BackwardsDrops(negative: bool, w: string, f: string, rest: string)
    requires f != "" && forall i :: 0 <= i < |f| ==> f[i] != '\0' && f[i] != '.'
    ensures ZerosToDrop(Backwards(negative, w, f) + rest) == |f| - |Trimmed(f)|
    ensures Backwards(negative, w, f)[|f| - |Trimmed(f)|..] == Reverse(Signed(negative, w + "." + Trimmed(f)))
  {
    hide ZerosToDrop, Reverse, Trimmed;
    var after := Reverse(w) + (if negative then "-" else "") + rest;
    assert Backwards(negative, w, f) + rest == Reverse(f) + "." + after;
    DropsTrailing(f, after);
    BackwardsSuffix(negative, w, f, Trimmed(f));
  }

  lemma BackwardsSuffix(negative: bool, w: string, f: string, t: string)
    requires |t| <= |f| && t == f[..|t|]
    ensures Backwards(negative, w, f)[|f| - |t|..] == Reverse(Signed(negative, w + "." + t))
  {
    hide Reverse;
    var z := f[|t|..];
    assert f == t + z;
    ReverseConcat(t, z);
    var sign := if negative then "-" else "";
    assert Backwards(negative, w, f) == Reverse(z) + (Reverse(t) + "." + Reverse(w) + sign);
    assert Reverse(".") == ".";
    assert Reverse(sign) == sign;
    assert Signed(negative, w + "." + t) == sign + (w + ("." + t));
    ReverseConcat(sign, w + ("." + t));
    ReverseConcat(w, "." + t);
    ReverseConcat(".", t);
  }
}
