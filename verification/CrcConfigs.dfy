/**
 The two configurations that the driver ships with: no change of a single
 byte and no burst goes unnoticed by them, on the table path as on the
 programmable one.
 */
module CrcConfigs {
  import opened Basics
  import opened Gf2Poly
  import opened Words
  import opened WordLiterals
  import opened CrcSpec
  import opened CrcDetection
  import opened CrcBursts
  import opened CrcTables

  /** A table that returns the same CRCs detects the same changes. */
  lemma TableDetects(cfg: Config)
    requires cfg.Valid() && DetectsByteChanges(cfg.(table := None))
    requires forall s :: Crc(s, cfg) == Crc(s, cfg.(table := None))
    ensures DetectsByteChanges(cfg)
  {
    hide Crc, DifferAt;
    forall s, t, p | DifferAt(s, t, p) ensures Crc(s, cfg) != Crc(t, cfg) {
      assert Crc(s, cfg) == Crc(s, cfg.(table := None));
    }
  }

  lemma Crc32Detects()
    ensures DetectsByteChanges(Crc32Config())
  {
    hide Crc, DetectsByteChanges, Crc32Table, FromBv;
    Crc32PolyPositions();
    OddPolynomialDetects(Crc32Config().(table := None));
    forall s ensures Crc(s, Crc32Config()) == Crc(s, Crc32Config().(table := None)) {
      Crc32Agrees(s);
    }
    TableDetects(Crc32Config());
  }

  lemma Crc16Detects()
    ensures DetectsByteChanges(Crc16Config())
  {
    hide Crc, DetectsByteChanges, Crc16Table, FromBv;
    Crc16PolyPositions();
    OddPolynomialDetects(Crc16Config().(table := None));
    forall s ensures Crc(s, Crc16Config()) == Crc(s, Crc16Config().(table := None)) {
      Crc16Agrees(s);
    }
    TableDetects(Crc16Config());
  }

  lemma {:induction false} SameMessage(s: seq<Octet>, cfg: Config)
    ensures Message(s, cfg) == Message(s, cfg.(table := None))
    decreases |s|
  {
    if s != [] {
      SameMessage(s[..|s| - 1], cfg);
    }
  }

  lemma TableDetectsBursts(cfg: Config)
    requires cfg.Valid() && DetectsBursts(cfg.(table := None))
    requires forall s :: Crc(s, cfg) == Crc(s, cfg.(table := None))
    ensures DetectsBursts(cfg)
  {
    hide Crc, Message;
    var p := cfg.(table := None);
    forall s, t, j, delta | Burst(s, t, cfg, j, delta) ensures Crc(s, cfg) != Crc(t, cfg) {
      SameMessage(s, cfg);
      SameMessage(t, cfg);
      assert Burst(s, t, p, j, delta);
      assert Crc(s, cfg) == Crc(s, p) && Crc(t, cfg) == Crc(t, p);
    }
  }

  /** No burst of up to 32 bits goes unnoticed. */
  lemma Crc32DetectsBursts()
    ensures DetectsBursts(Crc32Config())
  {
    hide Crc, DetectsBursts, Crc32Table, FromBv;
    Crc32PolyPositions();
    BurstsExactly(Crc32Config().(table := None));
    forall s ensures Crc(s, Crc32Config()) == Crc(s, Crc32Config().(table := None)) {
      Crc32Agrees(s);
    }
    TableDetectsBursts(Crc32Config());
  }

  /** No burst of up to 16 bits goes unnoticed. */
  lemma Crc16DetectsBursts()
    ensures DetectsBursts(Crc16Config())
  {
    hide Crc, DetectsBursts, Crc16Table, FromBv;
    Crc16PolyPositions();
    BurstsExactly(Crc16Config().(table := None));
    forall s ensures Crc(s, Crc16Config()) == Crc(s, Crc16Config().(table := None)) {
      Crc16Agrees(s);
    }
    TableDetectsBursts(Crc16Config());
  }

  // ----- what the configurations compute

  /** x^32 + x^26 + ... + x + 1 */
  const CRC32_GENERATOR: Poly := {32, 26, 23, 22, 16, 12, 11, 10, 8, 7, 5, 4, 2, 1, 0}

  /** x^16 + x^15 + x^2 + 1 */
  const CRC16_GENERATOR: Poly := {16, 15, 2, 0}

  lemma Crc32Parameters()
    ensures var cfg := Crc32Config();
            && cfg.polySize == 32 && cfg.reflectData && cfg.reflectRemainder
            && cfg.Generator() == CRC32_GENERATOR
            && Low(cfg.initialVal, 32) == Ones(32) && cfg.finalVal == Ones(32)
  {
    Crc32PolyPositions();
    hide FromBv, Crc32Table, Ones;
    GeneratorOf(Crc32Config());
    LowGenerator32(Crc32Config().poly);
    LowOnes();
  }

  lemma GeneratorOf(cfg: Config)
    ensures cfg.Generator() == {cfg.polySize} + Low(cfg.poly, cfg.polySize)
  {
  }

  lemma LowGenerator32(w: Word)
    requires w == {0, 1, 2, 4, 5, 7, 8, 10, 11, 12, 16, 22, 23, 26}
    ensures {32} + Low(w, 32) == CRC32_GENERATOR
  {
    assert Low(w, 32) == w;
  }

  lemma LowOnes()
    ensures Low(Ones(32), 32) == Ones(32)
  {
  }

  lemma Crc16Parameters()
    ensures var cfg := Crc16Config();
            && cfg.polySize == 16 && cfg.reflectData && cfg.reflectRemainder
            && cfg.Generator() == CRC16_GENERATOR
            && Low(cfg.initialVal, 16) == {}
            && cfg.finalVal == {}
  {
    Crc16PolyPositions();
    hide FromBv, Crc16Table;
  }

  /**
   The CRC of section 8 of RFC 1952, from the table: bit e is the complement of
   coefficient 31 - e of the remainder of (x^31 + ... + 1)·x^(8L) + p·x^32, where p
   has the bits of each byte with the least significant first.
   */
  lemma Crc32Computes(s: seq<Octet>, p: Poly, r: Poly)
    requires IsMessage(p, s, true)
    requires IsRemainder(Add(Shift(Ones(32), 8 * |s|), Shift(p, 32)), CRC32_GENERATOR, 32, r)
    ensures Below(Crc(s, Crc32Config()), 32)
    ensures forall e: nat :: e < 32 ==> (e in Crc(s, Crc32Config()) <==> 31 - e !in r)
  {
    hide Crc, IsMessage, IsRemainder, Crc32Config, Add, Shift, Ones;
    Crc32Parameters();
    Crc32Agrees(s);
    SameGenerator(Crc32Config());
    CrcIsRemainder(s, Crc32Config().(table := None), p, r);
  }

  /** CRC-16: bit e is coefficient 15 - e of the remainder of p·x^16. */
  lemma Crc16Computes(s: seq<Octet>, p: Poly, r: Poly)
    requires IsMessage(p, s, true)
    requires IsRemainder(Shift(p, 16), CRC16_GENERATOR, 16, r)
    ensures Below(Crc(s, Crc16Config()), 16)
    ensures forall e: nat :: e < 16 ==> (e in Crc(s, Crc16Config()) <==> 15 - e in r)
  {
    hide Crc, IsMessage, IsRemainder, Crc16Config, Add, Shift;
    Crc16Parameters();
    Crc16Agrees(s);
    SameGenerator(Crc16Config());
    AddNone(8 * |s|, Shift(p, 16));
    CrcIsRemainder(s, Crc16Config().(table := None), p, r);
  }

  lemma SameGenerator(cfg: Config)
    ensures cfg.(table := None).Generator() == cfg.Generator()
  {
  }

  lemma AddNone(k: nat, a: Poly)
    ensures Add(Shift({}, k), a) == a
  {
  }
}
