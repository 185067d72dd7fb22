/**
 The values of `float`: numbers with 24 significant bits, without limits of
 the exponent, and rounding to a nearest one of them, with ties either way.
 */
module Singles {
  import opened Numerals

  const LIMIT: int := 0x100_0000

  function Abs(x: real): real {
    if x < 0.0 then -x else x
  }

  /** `x` is m·2^k. */
  ghost predicate Scales(x: real, m: int, k: nat) {
    -LIMIT < m < LIMIT && x == m as real * Power(2, k) as real
  }

  /** `x` is m / 2^k. */
  ghost predicate Divides(x: real, m: int, k: nat) {
    -LIMIT < m < LIMIT && x * Power(2, k) as real == m as real
  }

  ghost predicate IsSingle(x: real) {
    exists m: int, k: nat :: Scales(x, m, k) || Divides(x, m, k)
  }

  /** `t` is a single nearest to `x`. */
  ghost predicate RoundsTo(x: real, t: real) {
    IsSingle(t) && forall z :: IsSingle(z) ==> Abs(x - t) <= Abs(x - z)
  }

  lemma RoundsSelf(x: real, t: real)
    requires IsSingle(x) && RoundsTo(x, t)
    ensures t == x
  {
    hide IsSingle;
  }

  lemma RoundsWithin(x: real, t: real, lo: real, hi: real)
    requires IsSingle(lo) && IsSingle(hi) && lo <= x <= hi && RoundsTo(x, t)
    ensures lo <= t <= hi
  {
    hide IsSingle;
    assert Abs(x - t) <= Abs(x - lo) && Abs(x - t) <= Abs(x - hi);
  }

  // ----- which numbers are singles

  lemma WholeSingle(m: int)
    requires -LIMIT < m < LIMIT
    ensures IsSingle(m as real)
  {
    assert Power(2, 0) == 1;
    assert Scales(m as real, m, 0);
  }

  lemma PowerSplit(a: nat, b: nat)
    ensures Power(2, a + b) == Power(2, a) * Power(2, b)
    decreases b
  {
    if b > 0 {
      PowerSplit(a, b - 1);
    }
  }

  lemma Power24()
    ensures Power(2, 8) == 0x100 && Power(2, 16) == 0x1_0000 && Power(2, 24) == LIMIT
  {
    assert Power(2, 0) == 1;
    PowerTwo(0);
    PowerTwo(8);
    PowerTwo(16);
  }

  /** A quotient with a divisor of more than 2^a is small. */
  lemma SmallQuotient(x: real, m: int, k: nat, a: nat)
    requires Divides(x, m, k) && x >= 0.0 && k > a && a <= 24
    ensures 2.0 * x * Power(2, a) as real < LIMIT as real
  {
    hide Power;
    var p, q := Power(2, a), Power(2, k - (a + 1));
    assert Power(2, k) == (p * 2) * q by {
      PowerSplit(a + 1, k - (a + 1));
      PowerSplit(a, 1);
      PowerOne();
    }
    QuotientBound(x, m as real, p as real, q as real);
  }

  lemma PowerOne()
    ensures Power(2, 1) == 2
  {
    assert Power(2, 0) == 1;
  }

  lemma QuotientBound(x: real, m: real, p: real, q: real)
    requires x >= 0.0 && p >= 1.0 && q >= 1.0 && m < LIMIT as real && x * ((p * 2.0) * q) == m
    ensures 2.0 * x * p < LIMIT as real
  {
    var y := 2.0 * x * p;
    assert x * ((p * 2.0) * q) == y * q;
    assert y >= 0.0;
    assert y * (q - 1.0) >= 0.0;
    assert y * q >= y;
  }

  /** A single that is not small is on the grid of 2^-a. */
  lemma OnGrid(x: real, a: nat) returns (j: int)
    requires IsSingle(x) && x >= 0.0 && a <= 24 && 2.0 * x * Power(2, a) as real >= LIMIT as real
    ensures x * Power(2, a) as real == j as real
  {
    hide Power, Scales, Divides;
    var m: int, k: nat :| Scales(x, m, k) || Divides(x, m, k);
    if Scales(x, m, k) {
      ScalesIs(x, m, k);
      j := m * Power(2, k) * Power(2, a);
      Regroup(m as real, Power(2, k) as real, Power(2, a) as real);
    } else {
      if k > a {
        SmallQuotient(x, m, k, a);
        assert false;
      }
      DividesIs(x, m, k);
      PowerSplit(k, a - k);
      j := m * Power(2, a - k);
      Regroup(x, Power(2, k) as real, Power(2, a - k) as real);
    }
  }

  lemma ScalesIs(x: real, m: int, k: nat)
    requires Scales(x, m, k)
    ensures x == m as real * Power(2, k) as real
  {
  }

  lemma DividesIs(x: real, m: int, k: nat)
    requires Divides(x, m, k)
    ensures x * Power(2, k) as real == m as real && -LIMIT < m < LIMIT
  {
  }

  lemma Regroup(x: real, y: real, z: real)
    ensures x * (y * z) == (x * y) * z
  {
  }

  /** The fraction of a single is a single: the subtraction of the whole part is exact. */
  lemma FractionSingle(x: real)
    requires IsSingle(x) && x >= 0.0
    ensures IsSingle(x - x.Floor as real)
  {
    hide Power;
    var m: int, k: nat :| Scales(x, m, k) || Divides(x, m, k);
    if Scales(x, m, k) {
      assert x == (m * Power(2, k)) as real;
      assert x.Floor == m * Power(2, k);
      WholeSingle(0);
    } else {
      FractionDivides(x, m, k);
    }
  }

  lemma FractionDivides(x: real, m: int, k: nat)
    requires Divides(x, m, k) && x >= 0.0
    ensures IsSingle(x - x.Floor as real)
  {
    hide Power;
    var p := Power(2, k);
    NotNegative(x, m, p);
    QuotientFloor(x, m, p);
    ModSmaller(m, p);
    assert Divides(x - x.Floor as real, m % p, k);
  }

  lemma NotNegative(x: real, m: int, p: int)
    requires x >= 0.0 && p >= 1 && x * p as real == m as real
    ensures m >= 0
  {
  }

  lemma ModSmaller(m: nat, p: int)
    requires p >= 1
    ensures 0 <= m % p <= m
  {
    assert m == p * (m / p) + m % p;
    assert p * (m / p) >= 0;
  }

  lemma QuotientFloor(x: real, m: nat, p: int)
    requires p >= 1 && x * p as real == m as real
    ensures (x - x.Floor as real) * p as real == (m % p) as real
  {
    var q, r, y := m / p, m % p, p as real;
    assert m == q * p + r;
    assert m as real == q as real * y + r as real;
    assert (x - q as real) * y == r as real;
    Between(x - q as real, y, r as real);
    assert x.Floor == q;
  }

  lemma Between(d: real, y: real, r: real)
    requires y >= 1.0 && d * y == r && 0.0 <= r < y
    ensures 0.0 <= d < 1.0
  {
    assert (d - 1.0) * y == r - y;
  }

  /** The largest single below 1 is 1 - 2^-24. */
  lemma BelowOne(x: real)
    requires IsSingle(x) && 0.0 <= x < 1.0
    ensures x * LIMIT as real <= LIMIT as real - 1.0
  {
    hide IsSingle, Power;
    Power24();
    if 2.0 * x * LIMIT as real >= LIMIT as real {
      var j := OnGrid(x, 24);
    }
  }

  /** From 2^23 on singles are whole, and below 2^31 they have an `int` whole part. */
  lemma LargeWhole(x: real)
    requires IsSingle(x) && x >= 0.0
    ensures x >= 8388608.0 ==> x == x.Floor as real
    ensures x < 2147483648.0 ==> x <= 2147483647.0
  {
    hide IsSingle;
    assert Power(2, 0) == 1;
    if x >= 8388608.0 {
      var j := OnGrid(x, 0);
    }
  }

  // ----- the products with powers of ten

  /** 10^prec has 24 significant bits, and the single before it is at a distance of 2^24 parts or more of it. */
  lemma PowerOfTenSingle(prec: nat) returns (before: real)
    requires 1 <= prec <= 9
    ensures var p := Power(10, prec) as real;
            && IsSingle(p) && IsSingle(before) && before < p
            && (p - before) * LIMIT as real < 2.0 * p
  {
    hide IsSingle;
    Tens();
    var k := if prec == 1 then 20 else if prec == 2 then 17 else if prec == 3 then 14 else if prec == 4 then 10
             else if prec == 5 then 7 else if prec == 6 then 4 else 0;
    var j := if prec == 8 then 3 else if prec == 9 then 6 else 0;
    if prec <= 7 {
      before := TenDown(Power(10, prec), k);
    } else {
      before := TenUp(Power(10, prec), j);
    }
  }

  lemma Tens()
    ensures Power(10, 1) == 10 && Power(10, 2) == 100 && Power(10, 3) == 1000 && Power(10, 4) == 10000
    ensures Power(10, 5) == 100000 && Power(10, 6) == 1000000 && Power(10, 7) == 10000000
    ensures Power(10, 8) == 100000000 && Power(10, 9) == 1000000000
    ensures Power(2, 0) == 1 && Power(2, 3) == 8 && Power(2, 4) == 16 && Power(2, 6) == 64 && Power(2, 7) == 128
    ensures Power(2, 10) == 1024 && Power(2, 14) == 16384 && Power(2, 17) == 131072 && Power(2, 20) == 1048576
  {
    assert Power(10, 0) == 1 && Power(2, 0) == 1;
    assert Power(10, 3) == 10 * (10 * (10 * Power(10, 0)));
    assert Power(10, 6) == 10 * (10 * (10 * Power(10, 3)));
    assert Power(10, 9) == 10 * (10 * (10 * Power(10, 6)));
    assert Power(2, 4) == 2 * (2 * (2 * (2 * Power(2, 0))));
    assert Power(2, 7) == 2 * (2 * (2 * Power(2, 4)));
    assert Power(2, 10) == 2 * (2 * (2 * Power(2, 7)));
    assert Power(2, 14) == 2 * (2 * (2 * (2 * Power(2, 10))));
    assert Power(2, 17) == 2 * (2 * (2 * Power(2, 14)));
    assert Power(2, 20) == 2 * (2 * (2 * Power(2, 17)));
  }

  lemma TenDown(p: int, k: nat) returns (before: real)
    requires LIMIT < 2 * p * Power(2, k) && p * Power(2, k) < LIMIT
    ensures IsSingle(p as real) && IsSingle(before) && before < p as real &&
            (p as real - before) * LIMIT as real < 2.0 * p as real
  {
    hide Power;
    var y := Power(2, k) as real;
    before := p as real - 1.0 / y;
    assert 1.0 / y * y == 1.0;
    assert before * y == p as real * y - 1.0;
    assert Divides(p as real, p * Power(2, k), k);
    assert Divides(before, p * Power(2, k) - 1, k);
    Spacing(p as real, y, LIMIT as real);
  }

  lemma Spacing(p: real, y: real, l: real)
    requires y >= 1.0 && l < 2.0 * p * y
    ensures 1.0 / y > 0.0 && 1.0 / y * l < 2.0 * p
  {
    var u := 1.0 / y;
    assert u * y == 1.0;
    assert u > 0.0;
    assert u * (2.0 * p * y - l) > 0.0;
    assert u * (2.0 * p * y) == 2.0 * p * (u * y);
  }

  lemma TenUp(p: int, j: nat) returns (before: real)
    requires p % Power(2, j) == 0 && 0 < p / Power(2, j) < LIMIT && Power(2, j) * LIMIT < 2 * p
    ensures IsSingle(p as real) && IsSingle(before) && before < p as real &&
            (p as real - before) * LIMIT as real < 2.0 * p as real
  {
    hide Power;
    var y, m := Power(2, j), p / Power(2, j);
    assert p == m * y;
    before := (p - y) as real;
    assert p - y == (m - 1) * y;
    assert Scales(p as real, m, j);
    assert Scales(before, m - 1, j);
  }

  /** The rounded product of a fraction and a power of ten stays below that power. */
  lemma ProductBelow(x: real, prec: nat, product: real, t: real)
    requires IsSingle(x) && 0.0 <= x < 1.0 && prec <= 9
    requires product == x * Power(10, prec) as real && RoundsTo(product, t)
    ensures 0.0 <= t < Power(10, prec) as real
    ensures prec == 0 ==> t == x
  {
    hide IsSingle, Power;
    WholeSingle(0);
    if prec == 0 {
      assert Power(10, 0) == 1 by { PowerNone(); }
      RoundsSelf(x, t);
    } else {
      var before := PowerOfTenSingle(prec);
      BelowOne(x);
      ProductFar(x, Power(10, prec) as real, before);
      RoundsBelow(product, t, Power(10, prec) as real, before);
    }
  }

  lemma RoundsBelow(x: real, t: real, p: real, before: real)
    requires RoundsTo(x, t) && IsSingle(0.0) && IsSingle(p) && IsSingle(before) && before < p
    requires 0.0 <= x < p && p - x > x - before
    ensures 0.0 <= t < p
  {
    hide IsSingle;
    RoundsWithin(x, t, 0.0, p);
    assert Abs(x - t) <= Abs(x - before);
  }

  lemma PowerNone()
    ensures Power(10, 0) == 1
  {
  }

  lemma ProductFar(x: real, p: real, before: real)
    requires 0.0 <= x && x * LIMIT as real <= LIMIT as real - 1.0 && p >= 1.0
    requires before < p && (p - before) * LIMIT as real < 2.0 * p
    ensures 0.0 <= x * p < p && p - x * p > x * p - before
  {
    var l := LIMIT as real;
    assert (l - 1.0 - x * l) * p >= 0.0;
    assert (x * l) * p == (x * p) * l;
    assert l * (p - x * p) >= p;
    assert (p - before) * l < 2.0 * (l * (p - x * p));
    Smaller(p - before, 2.0 * (p - x * p), l);
    assert x * p >= 0.0;
  }

  lemma Smaller(a: real, b: real, l: real)
    requires l > 0.0 && a * l < b * l
    ensures a < b
  {
    assert (b - a) * l > 0.0;
  }
}
