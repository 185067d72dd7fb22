/**
 Which configurations of the programmable path notice every change of a single
 byte.
 */
module CrcDetection {
  import opened Basics
  import opened Gf2Poly
  import opened Words
  import opened CrcSpec

  /** `s` and `t` differ in the byte at `p` and nowhere else. */
  predicate DifferAt(s: seq<Octet>, t: seq<Octet>, p: nat) {
    |s| == |t| && p < |s| && s[p] != t[p] && forall i :: 0 <= i < |s| && i != p ==> s[i] == t[i]
  }

  /** Changing one byte of a message always changes its CRC. */
  ghost predicate DetectsByteChanges(cfg: Config)
    requires cfg.Valid()
  {
    forall s, t, p :: DifferAt(s, t, p) ==> Crc(s, cfg) != Crc(t, cfg)
  }

  /** The generator has a nonzero coefficient at x^e for some e with polySize - e >= 8. */
  predicate HasLowTerm(cfg: Config) {
    exists e :: e in cfg.poly && e + 8 <= cfg.polySize
  }

  /** Reflection, final xor and mask lose nothing of the low bits. */
  lemma ReturnedInjective(c: Word, d: Word, cfg: Config)
    requires cfg.Valid() && cfg.table.None?
    ensures Returned(c, cfg) == Returned(d, cfg) <==> Low(c, cfg.polySize) == Low(d, cfg.polySize)
  {
    var n := cfg.polySize;
    if Low(c, n) == Low(d, n) {
      assert forall e :: e < n ==> (e in c <==> e in d) by {
        assert forall e :: e < n ==> (e in c <==> e in Low(c, n)) && (e in d <==> e in Low(d, n));
      }
      assert Returned(c, cfg) == Returned(d, cfg);
    }
    if Returned(c, cfg) == Returned(d, cfg) {
      forall e | e < n ensures e in c <==> e in d {
        var i := if cfg.reflectRemainder then n - 1 - e else e;
        assert i in Returned(c, cfg) <==> (e in c) != (i in cfg.finalVal);
        assert i in Returned(d, cfg) <==> (e in d) != (i in cfg.finalVal);
      }
    }
  }

  lemma FedInjective(c: Octet, d: Octet, cfg: Config)
    requires c != d
    ensures Add(Fed(c, cfg), Fed(d, cfg)) != {}
  {
    var e :| (e in c) != (e in d);
    var i := if cfg.reflectData then 7 - e else e;
    assert i in Add(Fed(c, cfg), Fed(d, cfg));
  }

  /** The message polynomials differ by the change of the byte, at its place. */
  lemma {:induction false} MessageDifference(a: seq<Octet>, c: Octet, d: Octet, b: seq<Octet>, cfg: Config)
    ensures Add(Message(a + [c] + b, cfg), Message(a + [d] + b, cfg))
         == Shift(Add(Fed(c, cfg), Fed(d, cfg)), 8 * |b|)
    decreases |b|
  {
    if b == [] {
      MessageAppend(a, c, cfg);
      MessageAppend(a, d, cfg);
      assert a + [c] + b == a + [c] && a + [d] + b == a + [d];
      DifferenceHere(Shift(Message(a, cfg), 8), Fed(c, cfg), Fed(d, cfg));
    } else {
      var k := |b| - 1;
      var s, t := a + [c] + b[..k], a + [d] + b[..k];
      assert a + [c] + b == s + [b[k]] && a + [d] + b == t + [b[k]];
      MessageDifference(a, c, d, b[..k], cfg);
      MessageAppend(s, b[k], cfg);
      MessageAppend(t, b[k], cfg);
      DifferenceStep(Message(s, cfg), Message(t, cfg), Fed(b[k], cfg), Add(Fed(c, cfg), Fed(d, cfg)), 8 * k);
    }
  }

  lemma MessageAppend(s: seq<Octet>, d: Octet, cfg: Config)
    ensures Message(s + [d], cfg) == Add(Shift(Message(s, cfg), 8), Fed(d, cfg))
  {
    assert (s + [d])[..|s|] == s;
  }

  lemma DifferenceHere(a: Poly, c: Poly, d: Poly)
    ensures Add(Add(a, c), Add(a, d)) == Shift(Add(c, d), 0)
  {
  }

  lemma DifferenceStep(m: Poly, n: Poly, f: Poly, delta: Poly, j: nat)
    requires Add(m, n) == Shift(delta, j)
    ensures Add(Add(Shift(m, 8), f), Add(Shift(n, 8), f)) == Shift(delta, j + 8)
  {
    CancelSame(Shift(m, 8), Shift(n, 8), f);
    ShiftAdd(m, n, 8);
    ShiftShift(delta, j, 8);
  }

  lemma CancelSame(a: Poly, b: Poly, c: Poly)
    ensures Add(Add(a, c), Add(b, c)) == Add(a, b)
  {
  }

  /** Messages of equal length have the same CRC exactly when the generator divides their difference. */
  lemma SameCrc(s: seq<Octet>, t: seq<Octet>, cfg: Config)
    requires cfg.Valid() && cfg.table.None? && |s| == |t|
    ensures Crc(s, cfg) == Crc(t, cfg)
       <==> Divides(cfg.Generator(), Shift(Add(Message(s, cfg), Message(t, cfg)), cfg.polySize))
  {
    var n, g, i := cfg.polySize, cfg.Generator(), cfg.initialVal;
    var r, q := Low(Register(i, s, cfg), n), Low(Register(i, t, cfg), n);
    var a, b := Dividend(i, s, cfg), Dividend(i, t, cfg);
    ReturnedInjective(Register(i, s, cfg), Register(i, t, cfg), cfg);
    RegisterIsRemainder(i, s, cfg);
    RegisterIsRemainder(i, t, cfg);
    assert Add(a, b) == Shift(Add(Message(s, cfg), Message(t, cfg)), n) by {
      var x, y, z := Shift(Low(i, n), 8 * |s|), Shift(Message(s, cfg), n), Shift(Message(t, cfg), n);
      AddComm(x, y);
      AddComm(x, z);
      CancelSame(y, z, x);
      ShiftAdd(Message(s, cfg), Message(t, cfg), n);
    }
    SameRemainder(a, b, g, n, r, q);
  }

  lemma SameRemainder(a: Poly, b: Poly, g: Poly, n: nat, r: Poly, q: Poly)
    requires n in g && Below(g, n + 1)
    requires IsRemainder(a, g, n, r) && IsRemainder(b, g, n, q)
    ensures r == q <==> Congruent(a, b, g)
  {
    if r == q {
      CongruentSymm(b, r, g);
      CongruentTrans(a, r, b, g);
    }
    if Congruent(a, b, g) {
      CongruentTrans(a, b, q, g);
      RemainderUnique(a, g, n, r, q);
    }
  }

  /** The generator is x^k times a polynomial with a constant term. */
  lemma Factor(cfg: Config) returns (k: nat, q: Poly)
    requires cfg.Valid()
    ensures k <= cfg.polySize && cfg.Generator() == Shift(q, k)
    ensures 0 in q && cfg.polySize - k in q && Below(q, cfg.polySize - k + 1)
    ensures HasLowTerm(cfg) <==> k + 8 <= cfg.polySize
  {
    var n, g := cfg.polySize, cfg.Generator();
    k := Least(g, n);
    q := ShiftDown(g, k);
    assert k in Shift(q, k) && n in Shift(q, k);
    forall e | e in q ensures e <= n - k {
      assert e + k in g;
    }
    if k + 8 <= n {
      assert k in cfg.poly;
    }
    if HasLowTerm(cfg) {
      var e :| e in cfg.poly && e + 8 <= n;
      assert e in g;
    }
  }

  lemma Least(a: Poly, n: nat) returns (k: nat)
    requires n in a
    ensures k <= n && k in a && forall e :: e in a ==> k <= e
  {
    k := 0;
    while k !in a
      invariant k <= n
      invariant forall e :: e in a ==> k <= e
      decreases n - k
    {
      k := k + 1;
    }
  }

  /** With a low term, no change of one byte goes unnoticed. */
  lemma ChangeDetected(a: seq<Octet>, c: Octet, d: Octet, b: seq<Octet>, cfg: Config)
    requires cfg.Valid() && cfg.table.None? && HasLowTerm(cfg)
    requires c != d
    ensures Crc(a + [c] + b, cfg) != Crc(a + [d] + b, cfg)
  {
    if Crc(a + [c] + b, cfg) == Crc(a + [d] + b, cfg) {
      var n, delta := cfg.polySize, Add(Fed(c, cfg), Fed(d, cfg));
      SameCrc(a + [c] + b, a + [d] + b, cfg);
      MessageDifference(a, c, d, b, cfg);
      ShiftShift(delta, 8 * |b|, n);
      var k, q := Factor(cfg);
      DividesFactor(cfg.Generator(), q, k, delta, 8 * |b| + n);
      SmallMultipleIsZero(q, n - k, delta);
      FedInjective(c, d, cfg);
    }
  }

  lemma SplitAt(s: seq<Octet>, t: seq<Octet>, p: nat)
    requires DifferAt(s, t, p)
    ensures s == s[..p] + [s[p]] + s[p + 1..] && t == s[..p] + [t[p]] + s[p + 1..]
  {
  }

  lemma DividesFactor(g: Poly, q: Poly, k: nat, a: Poly, m: nat)
    requires g == Shift(q, k) && 0 in q && k <= m
    requires Divides(g, Shift(a, m))
    ensures Divides(q, a)
  {
    var f :| Shift(a, m) == Mul(f, g);
    MulShiftRight(f, q, k);
    ShiftShift(a, m - k, k);
    ShiftInjective(Mul(f, q), Shift(a, m - k), k);
    DividesUnshift(q, a, m - k);
  }

  /** Without a low term there is a one-byte message whose CRC is that of the byte 0. */
  lemma ChangeMissed(cfg: Config) returns (d: Octet)
    requires cfg.Valid() && cfg.table.None? && !HasLowTerm(cfg)
    ensures DifferAt([{}], [d], 0) && Crc([{}], cfg) == Crc([d], cfg)
  {
    var n, g := cfg.polySize, cfg.Generator();
    var k, q := Factor(cfg);
    d := Fed(q, cfg);
    FedTwice(q, cfg);
    FedTwice({}, cfg);
    OneByteMessage({}, cfg);
    OneByteMessage(d, cfg);
    AddCancel(q, {});
    AddComm({}, q);
    assert Divides(g, Shift(q, n)) by {
      ShiftShift(q, k, n - k);
      DividesSelf(g);
      DividesShift(g, g, n - k);
    }
    SameCrc([{}], [d], cfg);
  }

  lemma FedTwice(d: Octet, cfg: Config)
    ensures Fed(Fed(d, cfg), cfg) == d && Fed({}, cfg) == {}
  {
    assert forall e: nat :: e in Reflected(Reflected(d, 8), 8) <==> e in d;
  }

  lemma OneByteMessage(d: Octet, cfg: Config)
    ensures Message([d], cfg) == Fed(d, cfg)
  {
    MessageAppend([], d, cfg);
    assert [] + [d] == [d];
    assert Shift({}, 8) == {};
    AddComm({}, Fed(d, cfg));
    AddCancel(Fed(d, cfg), {});
  }

  /** The exact condition, one that can be read off the configuration. */
  lemma DetectsExactly(cfg: Config)
    requires cfg.Valid() && cfg.table.None?
    ensures DetectsByteChanges(cfg) <==> HasLowTerm(cfg)
  {
    if HasLowTerm(cfg) {
      forall s, t, p | DifferAt(s, t, p) ensures Crc(s, cfg) != Crc(t, cfg) {
        SplitAt(s, t, p);
        ChangeDetected(s[..p], s[p], t[p], s[p + 1..], cfg);
      }
    } else {
      var d := ChangeMissed(cfg);
    }
  }

  /** In particular every odd polynomial detects a change of one byte. */
  lemma OddPolynomialDetects(cfg: Config)
    requires cfg.Valid() && cfg.table.None? && 0 in cfg.poly
    ensures DetectsByteChanges(cfg)
  {
    assert HasLowTerm(cfg);
    DetectsExactly(cfg);
  }
}
