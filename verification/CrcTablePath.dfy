/**
 The table path of the driver against its programmable path: with a table
 built for the mirrored polynomial, the table register is at every byte the
 mirror image of the division register.
 */
module CrcTablePath {
  import opened Basics
  import opened Gf2Poly
  import opened Words
  import opened CrcSpec

  /** One step of the division on the mirrored register, with the mirrored polynomial `rp`. */
  function ReflStep(t: Word, rp: Word): Word {
    if 0 in t then Xor(ShiftRight(t, 1), rp) else ShiftRight(t, 1)
  }

  function ReflSteps(t: Word, rp: Word, k: nat): Word {
    if k == 0 then t else ReflStep(ReflSteps(t, rp, k - 1), rp)
  }

  /** Entry i of the table is the byte i divided for eight steps: the table of section 8 of RFC 1952. */
  ghost predicate IsTableFor(table: seq<Word>, rp: Word) {
    |table| == 256 && forall x: Octet :: table[Value(x)] == ReflSteps(x, rp, 8)
  }

  /** Both paths are meant to agree: data and remainder are mirrored, and the table is the right one. */
  ghost predicate Mirrored(cfg: Config) {
    && cfg.Valid()
    && cfg.reflectData && cfg.reflectRemainder
    && cfg.initialVal == Reflected(cfg.initialVal, cfg.polySize)
    && cfg.table.Some?
    && IsTableFor(cfg.table.value, Reflected(cfg.poly, cfg.polySize))
  }

  // ----- the mirrored division

  lemma MirrorBitStep(c: Word, cfg: Config)
    requires cfg.Valid()
    ensures Reflected(BitStep(c, cfg), cfg.polySize)
         == ReflStep(Reflected(c, cfg.polySize), Reflected(cfg.poly, cfg.polySize))
  {
    var n := cfg.polySize;
    var l, r := Reflected(BitStep(c, cfg), n), ReflStep(Reflected(c, n), Reflected(cfg.poly, n));
    forall e: nat ensures e in l <==> e in r {
    }
  }

  lemma {:induction false} MirrorBitSteps(c: Word, cfg: Config, k: nat)
    requires cfg.Valid()
    ensures Reflected(BitSteps(c, cfg, k), cfg.polySize)
         == ReflSteps(Reflected(c, cfg.polySize), Reflected(cfg.poly, cfg.polySize), k)
    decreases k
  {
    if k != 0 {
      MirrorBitSteps(c, cfg, k - 1);
      MirrorBitStepsOne(c, Reflected(c, cfg.polySize), cfg, k);
    }
  }

  lemma MirrorBitStepsOne(c: Word, t: Word, cfg: Config, k: nat)
    requires cfg.Valid() && k > 0
    requires Reflected(BitSteps(c, cfg, k - 1), cfg.polySize) == ReflSteps(t, Reflected(cfg.poly, cfg.polySize), k - 1)
    ensures Reflected(BitSteps(c, cfg, k), cfg.polySize) == ReflSteps(t, Reflected(cfg.poly, cfg.polySize), k)
  {
    MirrorBitStep(BitSteps(c, cfg, k - 1), cfg);
  }

  /** Bringing the mirrored byte into the top of the register brings the byte into the bottom of its mirror image. */
  lemma MirrorFeed(c: Word, d: Octet, n: nat)
    requires 8 <= n <= 32
    ensures Reflected(Xor(c, ShiftLeft(Reflected(d, 8), n - 8)), n) == Xor(Reflected(c, n), d)
  {
    var l, r := Reflected(Xor(c, ShiftLeft(Reflected(d, 8), n - 8)), n), Xor(Reflected(c, n), d);
    forall e: nat ensures e in l <==> e in r {
    }
  }

  // ----- eight steps at once

  lemma ReflStepLinear(x: Word, y: Word, rp: Word)
    ensures ReflStep(Xor(x, y), rp) == Xor(ReflStep(x, rp), ReflStep(y, rp))
  {
  }

  lemma {:induction false} ReflStepsLinear(x: Word, y: Word, rp: Word, k: nat)
    ensures ReflSteps(Xor(x, y), rp, k) == Xor(ReflSteps(x, rp, k), ReflSteps(y, rp, k))
    decreases k
  {
    hide ReflStep, Xor, ShiftRight;
    if k != 0 {
      ReflStepsLinear(x, y, rp, k - 1);
      ReflStepsLinearOne(x, y, Xor(x, y), rp, k);
    }
  }

  lemma ReflStepsLinearOne(x: Word, y: Word, z: Word, rp: Word, k: nat)
    requires k > 0
    requires ReflSteps(z, rp, k - 1) == Xor(ReflSteps(x, rp, k - 1), ReflSteps(y, rp, k - 1))
    ensures ReflSteps(z, rp, k) == Xor(ReflSteps(x, rp, k), ReflSteps(y, rp, k))
  {
    ReflStepLinear(ReflSteps(x, rp, k - 1), ReflSteps(y, rp, k - 1), rp);
  }

  lemma ShiftRightOne(x: Word, rp: Word, k: nat)
    requires k > 0 && forall e :: e in x ==> e >= k
    ensures ReflStep(ShiftRight(x, k - 1), rp) == ShiftRight(x, k)
  {
    assert 0 !in ShiftRight(x, k - 1);
    assert ShiftRight(ShiftRight(x, k - 1), 1) == ShiftRight(x, k);
  }

  /** Low bits that are 0 are only shifted out. */
  lemma {:induction false} ReflStepsShift(x: Word, rp: Word, k: nat)
    requires forall e :: e in x ==> e >= k
    ensures ReflSteps(x, rp, k) == ShiftRight(x, k)
    decreases k
  {
    hide ReflStep, Xor;
    if k == 0 {
      assert ShiftRight(x, 0) == x;
    } else {
      ReflStepsShift(x, rp, k - 1);
      ReflStepsShiftOne(x, rp, k);
    }
  }

  lemma ReflStepsShiftOne(x: Word, rp: Word, k: nat)
    requires k > 0 && forall e :: e in x ==> e >= k
    requires ReflSteps(x, rp, k - 1) == ShiftRight(x, k - 1)
    ensures ReflSteps(x, rp, k) == ShiftRight(x, k)
  {
    ShiftRightOne(x, rp, k);
  }

  /** Eight steps are one table look-up. */
  lemma EightSteps(x: Word, table: seq<Word>, rp: Word)
    requires IsTableFor(table, rp)
    ensures ReflSteps(x, rp, 8) == Xor(table[Value(Low(x, 8))], ShiftRight(x, 8))
  {
    var low: Octet := Low(x, 8);
    var high: Word := x - low;
    assert x == Xor(low, high);
    ReflStepsLinear(low, high, rp, 8);
    ReflStepsShift(high, rp, 8);
    assert ShiftRight(high, 8) == ShiftRight(x, 8);
  }

  // ----- the two paths

  lemma MirrorByteStep(c: Word, d: Octet, cfg: Config)
    requires Mirrored(cfg)
    ensures TableStep(Reflected(c, cfg.polySize), d, cfg.table.value)
         == Reflected(ByteStep(c, d, cfg), cfg.polySize)
  {
    var n := cfg.polySize;
    var t, rp := Reflected(c, n), Reflected(cfg.poly, n);
    MirrorFeed(c, d, n);
    MirrorBitSteps(Xor(c, ShiftLeft(Fed(d, cfg), n - 8)), cfg, 8);
    EightSteps(Xor(t, d), cfg.table.value, rp);
    assert ShiftRight(Xor(t, d), 8) == ShiftRight(t, 8);
  }

  /** The table register is the mirror image of the low bits of the division register. */
  lemma {:induction false} TableRegister(s: seq<Octet>, cfg: Config)
    requires Mirrored(cfg)
    ensures Register(cfg.initialVal, s, cfg)
         == Reflected(Register(cfg.initialVal, s, cfg.(table := None)), cfg.polySize)
    decreases |s|
  {
    if s != [] {
      var k := |s| - 1;
      var p := cfg.(table := None);
      TableRegister(s[..k], cfg);
      var c := Register(cfg.initialVal, s[..k], p);
      MirrorByteStep(c, s[k], cfg);
      SameBits(c, s[k], cfg);
    }
  }

  lemma {:induction false} SameBitSteps(c: Word, cfg: Config, k: nat)
    requires cfg.Valid()
    ensures BitSteps(c, cfg, k) == BitSteps(c, cfg.(table := None), k)
    decreases k
  {
    if k != 0 {
      SameBitSteps(c, cfg, k - 1);
    }
  }

  lemma SameBits(c: Word, d: Octet, cfg: Config)
    requires cfg.Valid()
    ensures ByteStep(c, d, cfg) == ByteStep(c, d, cfg.(table := None))
  {
    hide BitSteps, BitStep, Reflected, ShiftLeft, Xor;
    SameBitSteps(Xor(c, ShiftLeft(Fed(d, cfg), cfg.polySize - 8)), cfg, 8);
  }

  /** The table path returns what the programmable path returns. */
  lemma TablePathAgrees(s: seq<Octet>, cfg: Config)
    requires Mirrored(cfg)
    ensures Crc(s, cfg) == Crc(s, cfg.(table := None))
  {
    TableRegister(s, cfg);
  }
}
