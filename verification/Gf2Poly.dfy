/**
 Polynomials over GF(2), the mathematics that a cyclic redundancy check is
 defined by.  A polynomial is the finite set of exponents whose coefficient
 is 1, so equality of polynomials is equality of sets.
 */
module Gf2Poly {

  type Poly = set<nat>

  /** The sum (and the difference): coefficients are added modulo 2. */
  function Add(a: Poly, b: Poly): (r: Poly)
    ensures forall e {:trigger e in r} :: e in r <==> (e in a) != (e in b)
  {
    (a - b) + (b - a)
  }

  /** The product of `a` and x^k. */
  function Shift(a: Poly, k: nat): (r: Poly)
    ensures forall e {:trigger e in r} :: e in r <==> e >= k && e - k in a
  {
    set e | e in a :: e + k
  }

  /** Every exponent of `a` is below `n`. */
  predicate Below(a: Poly, n: nat) {
    forall e :: e in a ==> e < n
  }

  /** The degree of a polynomial other than 0. */
  ghost function Degree(a: Poly): (m: nat)
    requires a != {}
    ensures m in a && forall e :: e in a ==> e <= m
  {
    var x :| x in a;
    if a == {x} then x
    else
      var m := Degree(a - {x});
      assert a == (a - {x}) + {x};
      if m < x then x else m
  }

  /** The product of `q` and `g`: one shifted copy of `g` for every exponent of `q`. */
  ghost function Mul(q: Poly, g: Poly): Poly {
    if q == {} then {}
    else var m := Degree(q); Add(Shift(g, m), Mul(q - {m}, g))
  }

  /** `g` divides `a`. */
  ghost predicate Divides(g: Poly, a: Poly) {
    exists q :: a == Mul(q, g)
  }

  /** `a` and `b` leave the same remainder modulo `g`. */
  ghost predicate Congruent(a: Poly, b: Poly, g: Poly) {
    Divides(g, Add(a, b))
  }

  /** `r` is the remainder of dividing `a` by `g`, a polynomial of degree `n`. */
  ghost predicate IsRemainder(a: Poly, g: Poly, n: nat, r: Poly) {
    Below(r, n) && Congruent(a, r, g)
  }

  // ----- sums and shifts

  lemma AddAssoc(a: Poly, b: Poly, c: Poly)
    ensures Add(Add(a, b), c) == Add(a, Add(b, c))
  {
  }

  lemma AddComm(a: Poly, b: Poly)
    ensures Add(a, b) == Add(b, a)
  {
  }

  lemma AddCancel(a: Poly, b: Poly)
    ensures Add(a, Add(a, b)) == b
    ensures Add(a, {}) == a
  {
  }

  lemma AddSwap(a: Poly, b: Poly, c: Poly)
    ensures Add(a, Add(b, c)) == Add(b, Add(a, c))
  {
  }

  lemma ShiftAdd(a: Poly, b: Poly, k: nat)
    ensures Shift(Add(a, b), k) == Add(Shift(a, k), Shift(b, k))
  {
  }

  lemma ShiftShift(a: Poly, j: nat, k: nat)
    ensures Shift(Shift(a, j), k) == Shift(a, j + k)
  {
    assert forall e :: e in Shift(Shift(a, j), k) <==> e in Shift(a, j + k);
  }

  lemma ShiftInjective(a: Poly, b: Poly, k: nat)
    requires Shift(a, k) == Shift(b, k)
    ensures a == b
  {
    forall e | e in a ensures e in b { assert e + k in Shift(a, k); }
    forall e | e in b ensures e in a { assert e + k in Shift(b, k); }
  }

  /** A polynomial without exponents below `k` is a multiple of x^k. */
  lemma ShiftDown(a: Poly, k: nat) returns (b: Poly)
    requires forall e :: e in a ==> e >= k
    ensures a == Shift(b, k)
  {
    b := set e | e in a :: e - k;
    assert forall e: nat :: e in b <==> e + k in a;
  }

  lemma AddSplit(a: Poly, b: Poly, m: nat)
    requires m in b
    ensures Add(a, b) == Add(Add(a, b - {m}), {m})
  {
  }

  lemma ShiftSplit(a: Poly, k: nat, m: nat)
    requires m in a && forall e :: e in a ==> e <= m
    ensures m + k in Shift(a, k) && forall e :: e in Shift(a, k) ==> e <= m + k
    ensures Shift(a, k) - {m + k} == Shift(a - {m}, k)
  {
    assert m + k in Shift(a, k);
  }

  // ----- products

  lemma DegreeIs(a: Poly, m: nat)
    requires m in a && Below(a, m + 1)
    ensures Degree(a) == m
  {
  }

  /** `Mul` unfolded at a known degree. */
  lemma MulTop(q: Poly, g: Poly, m: nat)
    requires m in q && forall e :: e in q ==> e <= m
    ensures Mul(q, g) == Add(Shift(g, m), Mul(q - {m}, g))
  {
    DegreeIs(q, m);
  }

  /** Adding x^j to the first factor adds a shifted copy of the second one. */
  lemma {:induction false} MulToggle(q: Poly, g: Poly, j: nat)
    ensures Mul(Add(q, {j}), g) == Add(Shift(g, j), Mul(q, g))
    decreases |q|
  {
    var t := Add(q, {j});
    if q == {} || j > Degree(q) {
      MulTop(t, g, j);
      assert t - {j} == q;
    } else if j == Degree(q) {
      assert t == q - {j};
      AddCancel(Shift(g, j), Mul(t, g));
    } else {
      MulToggleBelow(q, g, j, Degree(q));
    }
  }

  lemma {:induction false} MulToggleBelow(q: Poly, g: Poly, j: nat, m: nat)
    requires m in q && Below(q, m + 1) && j < m
    ensures Mul(Add(q, {j}), g) == Add(Shift(g, j), Mul(q, g))
    decreases |q|, 0
  {
    var t := Add(q, {j});
    MulTop(t, g, m);
    MulTop(q, g, m);
    assert t - {m} == Add(q - {m}, {j});
    MulToggle(q - {m}, g, j);
    AddSwap(Shift(g, m), Shift(g, j), Mul(q - {m}, g));
  }

  lemma {:induction false} MulAdd(p: Poly, q: Poly, g: Poly)
    ensures Mul(Add(p, q), g) == Add(Mul(p, g), Mul(q, g))
    decreases |q|
  {
    if q == {} {
      AddCancel(p, {});
      AddCancel(Mul(p, g), {});
    } else {
      var m := Degree(q);
      MulAdd(p, q - {m}, g);
      AddSplit(p, q, m);
      MulToggle(Add(p, q - {m}), g, m);
      AddSwap(Shift(g, m), Mul(p, g), Mul(q - {m}, g));
    }
  }

  lemma {:induction false} MulShift(q: Poly, g: Poly, k: nat)
    ensures Mul(Shift(q, k), g) == Shift(Mul(q, g), k)
    decreases |q|
  {
    if q == {} {
      assert Shift(q, k) == {};
    } else {
      var m := Degree(q);
      MulShift(q - {m}, g, k);
      MulShiftStep(q, g, k, m);
    }
  }

  lemma MulShiftStep(q: Poly, g: Poly, k: nat, m: nat)
    requires m in q && forall e :: e in q ==> e <= m
    requires Mul(Shift(q - {m}, k), g) == Shift(Mul(q - {m}, g), k)
    ensures Mul(Shift(q, k), g) == Shift(Mul(q, g), k)
  {
    var p := Mul(q - {m}, g);
    calc {
      Mul(Shift(q, k), g);
    ==  { ShiftSplit(q, k, m); MulTop(Shift(q, k), g, m + k); }
      Add(Shift(g, m + k), Shift(p, k));
    ==  { ShiftShift(g, m, k); }
      Add(Shift(Shift(g, m), k), Shift(p, k));
    ==  { ShiftAdd(Shift(g, m), p, k); }
      Shift(Add(Shift(g, m), p), k);
    ==  { MulTop(q, g, m); }
      Shift(Mul(q, g), k);
    }
  }

  lemma {:induction false} MulShiftRight(q: Poly, g: Poly, k: nat)
    ensures Mul(q, Shift(g, k)) == Shift(Mul(q, g), k)
    decreases |q|
  {
    if q != {} {
      var m := Degree(q);
      MulShiftRight(q - {m}, g, k);
      ShiftAdd(Shift(g, m), Mul(q - {m}, g), k);
      ShiftShift(g, m, k);
      ShiftShift(g, k, m);
    }
  }

  /** The degree of a product is the sum of the degrees. */
  lemma {:induction false} MulDegree(q: Poly, g: Poly, n: nat)
    requires n in g && Below(g, n + 1) && q != {}
    ensures Degree(q) + n in Mul(q, g)
    ensures Below(Mul(q, g), Degree(q) + n + 1)
    decreases |q|
  {
    var m := Degree(q);
    if q - {m} == {} {
      MulEmpty(g);
    } else {
      MulDegree(q - {m}, g, n);
    }
    MulDegreeStep(q, g, n, m);
  }

  lemma MulDegreeStep(q: Poly, g: Poly, n: nat, m: nat)
    requires n in g && Below(g, n + 1)
    requires m in q && forall e :: e in q ==> e <= m
    requires Below(Mul(q - {m}, g), m + n)
    ensures m + n in Mul(q, g) && Below(Mul(q, g), m + n + 1)
  {
    MulTop(q, g, m);
    assert m + n in Shift(g, m);
    DegreeSum(Shift(g, m), Mul(q - {m}, g), m + n);
  }

  lemma DegreeSum(a: Poly, b: Poly, m: nat)
    requires m in a && Below(a, m + 1) && Below(b, m)
    ensures m in Add(a, b) && Below(Add(a, b), m + 1)
  {
  }

  lemma MulEmpty(g: Poly)
    ensures Mul({}, g) == {}
  {
  }

  /** When `g` has a constant term, a product by `g` has one exactly when the other factor has. */
  lemma {:induction false} MulConstantTerm(q: Poly, g: Poly)
    requires 0 in g
    ensures 0 in Mul(q, g) <==> 0 in q
    decreases |q|
  {
    if q != {} {
      var m := Degree(q);
      MulConstantTerm(q - {m}, g);
      assert 0 in Shift(g, m) <==> m == 0;
      assert 0 in q <==> (m == 0) != (0 in q - {m});
    }
  }

  // ----- congruence

  lemma DividesSum(g: Poly, a: Poly, b: Poly)
    requires Divides(g, a) && Divides(g, b)
    ensures Divides(g, Add(a, b))
  {
    var p :| a == Mul(p, g);
    var q :| b == Mul(q, g);
    MulAdd(p, q, g);
  }

  lemma DividesShift(g: Poly, a: Poly, k: nat)
    requires Divides(g, a)
    ensures Divides(g, Shift(a, k))
  {
    var q :| a == Mul(q, g);
    MulShift(q, g, k);
  }

  lemma DividesSelf(g: Poly)
    ensures Divides(g, {}) && Divides(g, g)
  {
    assert Mul({}, g) == {};
    MulToggle({}, g, 0);
    assert Add({}, {0}) == {0};
    assert Shift(g, 0) == g;
    AddCancel(g, {});
    assert Mul({0}, g) == g;
  }

  lemma CongruentRefl(a: Poly, g: Poly)
    ensures Congruent(a, a, g)
  {
    DividesSelf(g);
    assert Add(a, a) == {};
  }

  lemma CongruentTrans(a: Poly, b: Poly, c: Poly, g: Poly)
    requires Congruent(a, b, g) && Congruent(b, c, g)
    ensures Congruent(a, c, g)
  {
    DividesSum(g, Add(a, b), Add(b, c));
    assert Add(Add(a, b), Add(b, c)) == Add(a, c);
  }

  lemma CongruentSymm(a: Poly, b: Poly, g: Poly)
    requires Congruent(a, b, g)
    ensures Congruent(b, a, g)
  {
    AddComm(a, b);
  }

  lemma CongruentAdd(a: Poly, b: Poly, c: Poly, g: Poly)
    requires Congruent(a, b, g)
    ensures Congruent(Add(a, c), Add(b, c), g)
  {
    assert Add(Add(a, c), Add(b, c)) == Add(a, b);
  }

  lemma CongruentShift(a: Poly, b: Poly, g: Poly, k: nat)
    requires Congruent(a, b, g)
    ensures Congruent(Shift(a, k), Shift(b, k), g)
  {
    DividesShift(g, Add(a, b), k);
    ShiftAdd(a, b, k);
  }

  /** A multiple of `g` of lower degree than `g` is 0. */
  lemma SmallMultipleIsZero(g: Poly, n: nat, a: Poly)
    requires n in g && Below(g, n + 1)
    requires Divides(g, a) && Below(a, n)
    ensures a == {}
  {
    var q :| a == Mul(q, g);
    if q != {} {
      MulDegree(q, g, n);
    }
  }

  /** Division with remainder has one remainder only. */
  lemma RemainderUnique(a: Poly, g: Poly, n: nat, r: Poly, s: Poly)
    requires n in g && Below(g, n + 1)
    requires IsRemainder(a, g, n, r) && IsRemainder(a, g, n, s)
    ensures r == s
  {
    CongruentSymm(a, r, g);
    CongruentTrans(r, a, s, g);
    SmallMultipleIsZero(g, n, Add(r, s));
    forall e ensures e in r <==> e in s {
      assert e !in Add(r, s);
    }
  }

  lemma DividesUnshiftOne(g: Poly, a: Poly)
    requires 0 in g && Divides(g, Shift(a, 1))
    ensures Divides(g, a)
  {
    var q :| Shift(a, 1) == Mul(q, g);
    assert 0 !in q by {
      MulConstantTerm(q, g);
      assert 0 !in Shift(a, 1);
    }
    var p := ShiftDown(q, 1);
    MulShift(p, g, 1);
    ShiftInjective(Mul(p, g), a, 1);
  }

  /** A polynomial with a constant term that divides x^t·a divides a. */
  lemma {:induction false} DividesUnshift(g: Poly, a: Poly, t: nat)
    requires 0 in g && Divides(g, Shift(a, t))
    ensures Divides(g, a)
    decreases t
  {
    if t == 0 {
      assert Shift(a, 0) == a;
    } else {
      DividesUnshiftOne(g, Shift(a, t - 1)) by {
        ShiftShift(a, t - 1, 1);
      }
      DividesUnshift(g, a, t - 1);
    }
  }
}
