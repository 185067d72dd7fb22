/**
 The rounding of `modp_ftoa` (`modp_numtoa.c`) and the whole conversion. The
 product of the fraction and the power of ten is the only operation of it that
 rounds: it is any single nearest to the exact product. The differences
 `value - whole` and `tmp - frac` are exact, and so is the conversion of
 `frac` where it is compared.
 */
module FloatRounding {
  import opened Numerals
  import opened Decimals
  import opened NumToA
  import opened FloatToA
  import opened Singles

  datatype Parts = Parts(whole: nat, frac: nat)

  /** Rounding of the scaled fraction, with the rollover of the first branch only. */
  function RoundFraction(whole: nat, tmp: real, limit: int): Parts
    requires 0.0 <= tmp
  {
    var frac := tmp.Floor;
    var diff := tmp - frac as real;
    if diff > 0.5 then
      if frac + 1 >= limit then Parts(whole + 1, 0) else Parts(whole, frac + 1)
    else if diff == 0.5 && (frac == 0 || frac % 2 == 1) then
      Parts(whole, frac + 1)
    else
      Parts(whole, frac)
  }

  /** Rounding at precision 0, after the rounding of the scaled fraction. */
  function RoundWhole(v: real, p: Parts): Parts {
    var diff := v - p.whole as real;
    if diff > 0.5 || (diff == 0.5 && p.whole % 2 == 1) then p.(whole := p.whole + 1) else p
  }

  function Rounded(v: real, tmp: real, prec: nat): Parts
    requires v >= 0.0 && tmp >= 0.0
  {
    var p := RoundFraction(v.Floor, tmp, Power(10, prec));
    if prec == 0 then RoundWhole(v, p) else p
  }

  function Clamp(prec: int): (p: nat)
    ensures p <= 9 && (0 <= prec <= 9 ==> p == prec) && (prec < 0 ==> p == 0) && (prec > 9 ==> p == 9)
  {
    if prec < 0 then 0 else if prec > 9 then 9 else prec
  }

  /** The text of a value at a precision, given the product. */
  function Printed(value: real, tmp: real, prec: nat): string
    requires tmp >= 0.0
  {
    var p := Rounded(Abs(value), tmp, prec);
    Text(value < 0.0, p.whole, p.frac, prec)
  }

  // ----- the product

  /** The exact product of the fraction and the power of ten. */
  function Scaled(value: real, prec: nat): real {
    (Abs(value) - Abs(value).Floor as real) * Power(10, prec) as real
  }

  /** A product that the conversion can work with; at precision 0 it is the fraction itself. */
  ghost predicate Product(value: real, tmp: real, prec: nat) {
    && 0.0 <= tmp < Power(10, prec) as real
    && (prec == 0 ==> tmp == Abs(value) - Abs(value).Floor as real)
  }

  /** Whatever nearest single the product rounds to, it stays below the power of ten. */
  lemma ProductRounded(value: real, tmp: real, prec: nat)
    requires IsSingle(Abs(value)) && prec <= 9 && RoundsTo(Scaled(value, prec), tmp)
    ensures Product(value, tmp, prec)
  {
    hide IsSingle, RoundsTo, Power;
    FractionSingle(Abs(value));
    ProductBelow(Abs(value) - Abs(value).Floor as real, prec, Scaled(value, prec), tmp);
  }

  // ----- the numbers that are printed

  /** The number that the parts are rounded from: the whole part and the product over the power of ten. */
  function Approximate(value: real, tmp: real, prec: nat): real {
    Sign(value < 0.0) * Joined(Abs(value).Floor, tmp, prec)
  }

  function Joined(whole: int, tmp: real, prec: nat): real {
    whole as real + tmp / Power(10, prec) as real
  }

  /** At most half a unit of the last place away. */
  ghost predicate Nearest(x: real, y: real, prec: nat) {
    2.0 * (Power(10, prec) as real * Abs(x - y)) <= 1.0
  }

  function PartsValue(p: Parts, prec: nat): real {
    p.whole as real + if prec == 0 then 0.0 else p.frac as real / Power(10, FractionLength(p.frac, prec)) as real
  }

  lemma PrintedValue(value: real, tmp: real, prec: nat)
    requires tmp >= 0.0
    ensures ParseDecimal(Printed(value, tmp, prec))
         == Sign(value < 0.0) * PartsValue(Rounded(Abs(value), tmp, prec), prec)
  {
    hide Text, Power, ParseDecimal, Rounded;
    var p := Rounded(Abs(value), tmp, prec);
    TextValue(value < 0.0, p.whole, p.frac, prec);
  }

  lemma SignedDistance(negative: bool, x: real, y: real)
    ensures Abs(Sign(negative) * x - Sign(negative) * y) == Abs(x - y)
  {
  }

  /** p * (a - b) from the products. */
  lemma ScaledDistance(p: real, a: real, b: real, pa: real, pb: real)
    requires p > 0.0 && p * a == pa && p * b == pb
    ensures p * Abs(a - b) == Abs(pa - pb)
  {
    assert p * (a - b) == pa - pb;
    if a < b {
      assert p * (b - a) == pb - pa;
      SignOf(p, b - a);
    } else {
      SignOf(p, a - b);
    }
  }

  lemma SignOf(p: real, x: real)
    requires p > 0.0 && x >= 0.0
    ensures p * x >= 0.0
  {
  }

  lemma FracBelow(t: real, limit: int)
    requires 0.0 <= t < limit as real
    ensures t.Floor < limit
  {
  }

  /** 10^prec times the printed number, unless the fraction has reached 10^prec. */
  lemma PartsScaled(whole: nat, frac: nat, prec: nat)
    requires frac < Power(10, prec)
    ensures Power(10, prec) as real * PartsValue(Parts(whole, frac), prec)
         == Power(10, prec) as real * whole as real + frac as real
  {
    hide Power, Digits;
    if prec == 0 {
      PowerNone();
    } else {
      DigitsFit(frac, prec);
      TimesQuotient(Power(10, prec) as real, whole as real, frac as real);
    }
  }

  lemma TimesQuotient(p: real, w: real, f: real)
    requires p > 0.0
    ensures p * (w + f / p) == p * w + f
  {
    var q := f / p;
    assert q * p == f;
    assert p * (w + q) == p * w + p * q;
  }

  /** The rounded parts are nearest to whole + t / limit, and stay below the limit unless the tie rolls over. */
  lemma RoundFractionNearest(whole: nat, t: real, limit: int)
    requires 0.0 <= t < limit as real && limit >= 1
    ensures var p := RoundFraction(whole, t, limit);
            var l := limit as real;
            l * whole as real + t - 0.5 <= l * p.whole as real + p.frac as real <= l * whole as real + t + 0.5
    ensures t != limit as real - 0.5 ==> RoundFraction(whole, t, limit).frac < limit
    ensures t == limit as real - 0.5 && limit >= 10 && limit % 2 == 0 ==>
              RoundFraction(whole, t, limit) == Parts(whole, limit)
  {
    FracBelow(t, limit);
    var l, w := limit as real, whole as real;
    assert l * (w + 1.0) == l * w + l;
    assert (whole + 1) as real == w + 1.0;
    if t == l - 0.5 {
      assert t.Floor == limit - 1;
    }
  }

  lemma PowerEven(k: nat)
    requires k >= 1
    ensures Power(10, k) % 2 == 0 && Power(10, k) >= 10
  {
    var p := Power(10, k - 1);
    assert Power(10, k) == 2 * (5 * p);
  }

  /** Without the rolled-over tie, the parts are nearest. */
  lemma UsualNearest(whole: nat, t: real, prec: nat)
    requires prec >= 1 && 0.0 <= t < Power(10, prec) as real && t != Power(10, prec) as real - 0.5
    ensures Nearest(PartsValue(RoundFraction(whole, t, Power(10, prec)), prec), Joined(whole, t, prec), prec)
  {
    hide Power, PartsValue, RoundFraction;
    var limit := Power(10, prec);
    var l, w, p := limit as real, whole as real, RoundFraction(whole, t, limit);
    RoundFractionNearest(whole, t, limit);
    PartsScaled(p.whole, p.frac, prec);
    TimesQuotient(l, w, t);
    ScaledDistance(l, PartsValue(p, prec), w + t / l, l * p.whole as real + p.frac as real, l * w + t);
  }

  /** With the tie rolled over, the fraction 10^prec prints as .1. */
  lemma TieMissed(whole: nat, t: real, prec: nat)
    requires prec >= 1 && t == Power(10, prec) as real - 0.5 && t >= 0.0
    ensures var x := PartsValue(RoundFraction(whole, t, Power(10, prec)), prec);
            x == whole as real + 0.1 && !Nearest(x, Joined(whole, t, prec), prec)
  {
    hide Power, RoundFraction, Digits;
    var limit := Power(10, prec);
    var l, w := limit as real, whole as real;
    PowerEven(prec);
    RoundFractionNearest(whole, t, limit);
    TieLength(prec);
    TenTimes(l);
    TimesQuotient(l, w, t);
    assert l * (w + 0.1) == l * w + 0.1 * l;
    ScaledDistance(l, w + 0.1, w + t / l, l * w + 0.1 * l, l * w + t);
  }

  lemma TieNotNearest(whole: nat, t: real, prec: nat)
    requires prec >= 1 && t == Power(10, prec) as real - 0.5 && t >= 0.0
    ensures !Nearest(PartsValue(RoundFraction(whole, t, Power(10, prec)), prec), Joined(whole, t, prec), prec)
  {
    hide Power, RoundFraction, PartsValue, Nearest, Joined;
    TieMissed(whole, t, prec);
  }

  lemma TenTimes(l: real)
    requires l > 0.0
    ensures l / (10.0 * l) == 0.1
  {
    assert 0.1 * (10.0 * l) == l;
  }

  lemma TieLength(prec: nat)
    requires prec >= 1
    ensures Power(10, FractionLength(Power(10, prec), prec)) == 10 * Power(10, prec)
  {
    hide Digits;
    var n := Power(10, prec);
    PowerGrows(prec, prec + 1);
    DigitsFit(n, prec);
    DigitsFit(n, prec + 1);
    assert FractionLength(n, prec) == prec + 1;
  }

  /** Precision 0 rounds to the nearest whole number. */
  lemma WholeNearest(v: real)
    requires v >= 0.0
    ensures Nearest(PartsValue(Rounded(v, v - v.Floor as real, 0), 0), v, 0)
  {
    PowerNone();
    var t := v - v.Floor as real;
    assert t.Floor == 0;
  }

  /**
   The printed number is within half a unit of the last place of the number
   that the product stands for, if and only if the product is not half below
   10^prec, where the tie rounds up without a carry.
   */
  lemma PrintedNearest(value: real, tmp: real, prec: nat)
    requires Product(value, tmp, prec)
    ensures Nearest(ParseDecimal(Printed(value, tmp, prec)), Approximate(value, tmp, prec), prec)
       <==> !(prec >= 1 && tmp == Power(10, prec) as real - 0.5)
  {
    hide Power, PartsValue, RoundFraction, ParseDecimal, Printed, Approximate, Nearest, Joined;
    var v := Abs(value);
    PrintedParts(value, tmp, prec);
    if prec == 0 {
      JoinedWhole(v);
      WholeNearest(v);
    } else if tmp == Power(10, prec) as real - 0.5 {
      TieNotNearest(v.Floor, tmp, prec);
    } else {
      UsualNearest(v.Floor, tmp, prec);
    }
  }

  /** The sign does not matter for how near the printed number is. */
  lemma PrintedParts(value: real, tmp: real, prec: nat)
    requires tmp >= 0.0
    ensures Nearest(ParseDecimal(Printed(value, tmp, prec)), Approximate(value, tmp, prec), prec)
       <==> Nearest(PartsValue(Rounded(Abs(value), tmp, prec), prec), Joined(Abs(value).Floor, tmp, prec), prec)
  {
    hide Power, PartsValue, Rounded, ParseDecimal, Printed, Nearest, Joined;
    PrintedValue(value, tmp, prec);
    NearestSigned(value < 0.0, PartsValue(Rounded(Abs(value), tmp, prec), prec), Joined(Abs(value).Floor, tmp, prec),
        prec);
  }

  lemma NearestSigned(negative: bool, x: real, y: real, prec: nat)
    ensures Nearest(Sign(negative) * x, Sign(negative) * y, prec) <==> Nearest(x, y, prec)
  {
    hide Power, Sign;
    SignedDistance(negative, x, y);
  }

  lemma JoinedWhole(v: real)
    ensures Joined(v.Floor, v - v.Floor as real, 0) == v
  {
    PowerNone();
  }

  /** A whole product is printed exactly. */
  lemma PrintedExact(value: real, tmp: real, prec: nat)
    requires Product(value, tmp, prec) && tmp == tmp.Floor as real
    ensures ParseDecimal(Printed(value, tmp, prec)) == Approximate(value, tmp, prec)
  {
    hide Power, PartsValue, ParseDecimal, Printed, Sign;
    var v, limit := Abs(value), Power(10, prec);
    var l, w := limit as real, v.Floor as real;
    FracBelow(tmp, limit);
    PrintedValue(value, tmp, prec);
    PowerNone();
    assert Rounded(v, tmp, prec) == Parts(v.Floor, tmp.Floor);
    PartsScaled(v.Floor, tmp.Floor, prec);
    TimesQuotient(l, w, tmp);
    Cancels(l, PartsValue(Parts(v.Floor, tmp.Floor), prec), w + tmp / l);
  }

  lemma Cancels(p: real, a: real, b: real)
    requires p > 0.0 && p * a == p * b
    ensures a == b
  {
    assert p * (a - b) == 0.0;
  }

  // ----- ties

  /** `k` of the two nearest whole numbers of a half. */
  predicate NearestToHalf(k: int, x: real) {
    2.0 * Abs(x - k as real) == 1.0
  }

  /**
   A product halfway between two fractions goes to the even one, except that
   0.5 goes to 1; the whole part stays.
   */
  lemma TieGoesEven(value: real, tmp: real, prec: nat)
    requires Product(value, tmp, prec) && prec >= 1 && NearestToHalf(tmp.Floor, tmp)
    ensures var p := Rounded(Abs(value), tmp, prec);
            && p.whole == Abs(value).Floor
            && NearestToHalf(p.frac, tmp)
            && (tmp > 1.0 ==> p.frac % 2 == 0)
            && (tmp == 0.5 ==> p.frac == 1)
            && (tmp < 1.0 ==> tmp == 0.5)
  {
    hide Power;
  }

  /** At precision 0 a half goes to the even whole number. */
  lemma WholeTieGoesEven(value: real)
    requires NearestToHalf(Abs(value).Floor, Abs(value))
    ensures var v := Abs(value);
            var p := Rounded(v, v - v.Floor as real, 0);
            p.whole % 2 == 0 && NearestToHalf(p.whole, v)
  {
    PowerNone();
    var t := Abs(value) - Abs(value).Floor as real;
    assert t == 0.5 && t.Floor == 0;
  }

  /** What is printed for such products is the even fraction, in 10^prec parts. */
  lemma TiePrinted(value: real, tmp: real, prec: nat)
    requires Product(value, tmp, prec) && prec >= 1 && NearestToHalf(tmp.Floor, tmp)
    requires 1.0 < tmp != Power(10, prec) as real - 0.5
    ensures exists f: int ::
              && f % 2 == 0 && NearestToHalf(f, tmp)
              && ParseDecimal(Printed(value, tmp, prec))
                 == Sign(value < 0.0) * Joined(Abs(value).Floor, f as real, prec)
  {
    hide Power, ParseDecimal, Printed, RoundFraction, Digits;
    var p := Rounded(Abs(value), tmp, prec);
    TieGoesEven(value, tmp, prec);
    RoundFractionNearest(Abs(value).Floor, tmp, Power(10, prec));
    DigitsFit(p.frac, prec);
    PrintedValue(value, tmp, prec);
    assert PartsValue(p, prec) == Joined(Abs(value).Floor, p.frac as real, prec);
  }

  /** 0.25 with one place prints as 0.2, and 2.5 without any as 2. */
  lemma TieEvenExamples()
    ensures Rounded(0.25, 2.5, 1) == Parts(0, 2)
    ensures Rounded(2.5, 0.5, 0).whole == 2
  {
    Tens();
    PowerNone();
    assert (0.25 as real).Floor == 0 && (2.5 as real).Floor == 2 && (0.5 as real).Floor == 0;
  }

  // ----- singles

  /** The number that the product stands for is as far from the value as the product was rounded. */
  lemma ApproximateDistance(value: real, tmp: real, prec: nat)
    ensures Power(10, prec) as real * Abs(Approximate(value, tmp, prec) - value) == Abs(tmp - Scaled(value, prec))
  {
    hide Power;
    var v, p := Abs(value), Power(10, prec) as real;
    var w := v.Floor as real;
    TimesQuotient(p, w, tmp);
    assert p * v == p * w + Scaled(value, prec) by {
      assert (v - w) * p == v * p - w * p;
    }
    ScaledDistance(p, w + tmp / p, v, p * w + tmp, p * w + Scaled(value, prec));
    SignedDistance(value < 0.0, w + tmp / p, v);
    assert Sign(value < 0.0) * v == value;
  }

  /**
   For every single: unless the rounded product is half below 10^prec, the
   printed number is at most half a unit and the rounding of the product away
   from the value.
   */
  lemma SingleError(value: real, tmp: real, prec: nat)
    requires IsSingle(Abs(value)) && prec <= 9 && RoundsTo(Scaled(value, prec), tmp)
    requires prec >= 1 ==> tmp != Power(10, prec) as real - 0.5
    ensures tmp >= 0.0
    ensures Power(10, prec) as real * Abs(ParseDecimal(Printed(value, tmp, prec)) - value)
         <= 0.5 + Abs(tmp - Scaled(value, prec))
  {
    hide Power, ParseDecimal, Printed, Approximate, Scaled, IsSingle, RoundsTo;
    ProductRounded(value, tmp, prec);
    PrintedNearest(value, tmp, prec);
    ApproximateDistance(value, tmp, prec);
    Triangle(Power(10, prec) as real, ParseDecimal(Printed(value, tmp, prec)), Approximate(value, tmp, prec), value);
  }

  lemma Triangle(p: real, a: real, b: real, c: real)
    requires p > 0.0
    ensures p * Abs(a - c) <= p * Abs(a - b) + p * Abs(b - c)
  {
    var d := Abs(a - b) + Abs(b - c) - Abs(a - c);
    assert d >= 0.0;
    SignOf(p, d);
  }

  /** From seven places on no single is half below 10^prec: the tie does not occur. */
  lemma NoTieFromSeven(tmp: real, prec: nat)
    requires IsSingle(tmp) && tmp >= 0.0 && 7 <= prec <= 9
    ensures tmp != Power(10, prec) as real - 0.5
  {
    hide IsSingle;
    Tens();
    LargeWhole(tmp);
  }

  const ALMOST_095: real := 0.949999988079071044921875

  /** The single nearest to 0.95 times 10 rounds to 9.5. */
  lemma TieProduct()
    ensures IsSingle(ALMOST_095) && RoundsTo(Scaled(ALMOST_095, 1), 9.5)
  {
    Power24();
    Tens();
    assert Divides(ALMOST_095, 15938355, 24);
    assert Divides(9.5, 19, 1) by { PowerOne(); }
    assert Scaled(ALMOST_095, 1) == 9.49999988079071044921875 by {
      assert (ALMOST_095 as real).Floor == 0;
    }
    forall z | IsSingle(z) ensures Abs(9.49999988079071044921875 - 9.5) <= Abs(9.49999988079071044921875 - z) {
      NearlyNineAndAHalf(z);
    }
  }

  lemma NearlyNineAndAHalf(z: real)
    requires IsSingle(z)
    ensures Abs(9.49999988079071044921875 - 9.5) <= Abs(9.49999988079071044921875 - z)
  {
    hide IsSingle, Power;
    Tens();
    if z >= 8.0 {
      var j := OnGrid(z, 20);
      assert j <= 9961471 || j >= 9961472;
    }
  }

  /** So the float closest to 0.95 prints with one place as 0.1. */
  lemma TieExample()
    ensures ParseDecimal(Printed(ALMOST_095, 9.5, 1)) == 0.1
    ensures !Nearest(ParseDecimal(Printed(ALMOST_095, 9.5, 1)), Approximate(ALMOST_095, 9.5, 1), 1)
  {
    hide ParseDecimal, Printed, PartsValue, Nearest, RoundFraction, Approximate, RoundsTo;
    Tens();
    assert (ALMOST_095 as real).Floor == 0;
    TieProduct();
    ProductRounded(ALMOST_095, 9.5, 1);
    PrintedNearest(ALMOST_095, 9.5, 1);
    PrintedValue(ALMOST_095, 9.5, 1);
    TieMissed(0, 9.5, 1);
  }

  // ----- the conversion

  const THRES_MAX: real := 2147483648.0
  const OVERFLOW_TEXT: string := "3735928559"

  /**
   `modp_ftoa` of any single but ±2^31, which has no `int` whole part. The
   product `tmp` is given; it rounds either way where two singles are nearest.
   */
  method Ftoa(value: real, tmp: real, str: array<char>, precision: int)
    requires IsSingle(Abs(value)) && Abs(value) != 2147483648.0
    requires RoundsTo(Scaled(value, Clamp(precision)), tmp)
    requires str.Length >= 23
    modifies str
    ensures tmp >= 0.0
    ensures Abs(value) > 2147483648.0 ==> CString(str[..]) == "3735928559"
    ensures Abs(value) < 2147483648.0 ==> CString(str[..]) == Printed(value, tmp, Clamp(precision))
  {
    hide CString, Text, Digits, RoundFraction, RoundWhole, Power, Scaled, IsSingle, RoundsTo;
    var prec := Clamp(precision);
    ProductRounded(value, tmp, prec);
    LargeWhole(Abs(value));
    var neg := value < 0.0;
    var v := Abs(value);
    var p := Rounded(v, tmp, prec);
    if v > THRES_MAX {
      PutText(str, OVERFLOW_TEXT);
      return;
    }
    PartsFit(v, tmp, prec);
    PrintParts(neg, p.whole, p.frac, prec, str);
  }

  /** `strcpy` */
  method PutText(str: array<char>, s: string)
    requires |s| < str.Length && forall i :: 0 <= i < |s| ==> s[i] != '\0'
    modifies str
    ensures CString(str[..]) == s
  {
    var i := 0;
    while i < |s|
      invariant 0 <= i <= |s| && str[..i] == s[..i]
    {
      str[i] := s[i];
      i := i + 1;
    }
    str[i] := '\0';
    assert str[..] == s + ['\0'] + str[i + 1..];
    CStringIs(s, str[i + 1..]);
  }

  lemma PowerTen()
    ensures Power(10, 10) == 10000000000
  {
    Tens();
  }

  /** Whole part and fraction have at most ten digits each. */
  lemma PartsFit(v: real, tmp: real, prec: nat)
    requires 0.0 <= v <= 2147483647.0 && prec <= 9 && 0.0 <= tmp < Power(10, prec) as real
    ensures |Digits(Rounded(v, tmp, prec).whole, 10)| <= 10
    ensures FractionLength(Rounded(v, tmp, prec).frac, prec) <= 10
  {
    hide Digits, Power;
    var p := Rounded(v, tmp, prec);
    PowerTen();
    PowerGrows(prec, 10);
    FracBelow(tmp, Power(10, prec));
    DigitsFit(p.whole, 10);
    DigitsFit(p.frac, 10);
  }
}
