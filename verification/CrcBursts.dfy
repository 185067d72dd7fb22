/**
 Which configurations of the programmable path notice every burst of changed
 bits that is no longer than the CRC.
 */
module CrcBursts {
  import opened Basics
  import opened Gf2Poly
  import opened Words
  import opened CrcSpec
  import opened CrcDetection

  /** The messages differ by x^j·delta, all changed bits being within `polySize` bits. */
  ghost predicate Burst(s: seq<Octet>, t: seq<Octet>, cfg: Config, j: nat, delta: Poly) {
    && |s| == |t|
    && delta != {} && Below(delta, cfg.polySize)
    && Add(Message(s, cfg), Message(t, cfg)) == Shift(delta, j)
  }

  /** A burst always changes the CRC. */
  ghost predicate DetectsBursts(cfg: Config)
    requires cfg.Valid()
  {
    forall s, t, j, delta :: Burst(s, t, cfg, j, delta) ==> Crc(s, cfg) != Crc(t, cfg)
  }

  lemma BurstDetected(s: seq<Octet>, t: seq<Octet>, cfg: Config, j: nat, delta: Poly)
    requires cfg.Valid() && cfg.table.None? && 0 in cfg.poly && Burst(s, t, cfg, j, delta)
    ensures Crc(s, cfg) != Crc(t, cfg)
  {
    hide Crc, Message;
    var n, g := cfg.polySize, cfg.Generator();
    if Crc(s, cfg) == Crc(t, cfg) {
      SameCrc(s, t, cfg);
      ShiftShift(delta, j, n);
      DividesUnshift(g, delta, j + n);
      SmallMultipleIsZero(g, n, delta);
    }
  }

  /** The bytes of a polynomial, the most significant first. */
  lemma {:induction false} MessageOf(p: Poly, len: nat, cfg: Config) returns (s: seq<Octet>)
    requires Below(p, 8 * len)
    ensures |s| == len && Message(s, cfg) == p
    decreases len
  {
    hide Message;
    if len == 0 {
      s := [];
      assert Message(s, cfg) == p by { NoMessage(p, cfg); }
    } else {
      var high, low := SplitByte(p, len);
      var front := MessageOf(high, len - 1, cfg);
      FedTwice(low, cfg);
      MessageAppend(front, Fed(low, cfg), cfg);
      s := front + [Fed(low, cfg)];
    }
  }

  lemma NoMessage(p: Poly, cfg: Config)
    requires Below(p, 0)
    ensures Message([], cfg) == p
  {
    assert p == {};
  }

  lemma SplitByte(p: Poly, len: nat) returns (high: Poly, low: Octet)
    requires len > 0 && Below(p, 8 * len)
    ensures p == Add(Shift(high, 8), low) && Below(high, 8 * (len - 1))
  {
    high := set e | e in p && e >= 8 :: e - 8;
    low := set e | e in p && e < 8;
    forall e: nat ensures e in p <==> e in Add(Shift(high, 8), low) {
      if e >= 8 && e in p {
        assert e - 8 in high;
      }
    }
  }

  /** Without a constant term some polynomial below x^polySize is a factor of the generator, up to powers of x. */
  lemma ShortFactor(cfg: Config) returns (q: Poly)
    requires cfg.Valid() && 0 !in cfg.poly
    ensures q != {} && Below(q, cfg.polySize) && Divides(cfg.Generator(), Shift(q, cfg.polySize))
  {
    hide Divides;
    var n, g := cfg.polySize, cfg.Generator();
    var k: nat;
    k, q := Factor(cfg);
    NotConstant(q, k);
    ShiftShift(q, k, n - k);
    DividesSelf(g);
    DividesShift(g, g, n - k);
  }

  lemma NotConstant(q: Poly, k: nat)
    requires 0 in q && 0 !in Shift(q, k)
    ensures k > 0
  {
    assert k == 0 ==> Shift(q, k) == q;
  }

  lemma AddNothing(q: Poly)
    ensures Add(q, {}) == q && Shift(q, 0) == q
  {
  }

  /** Without a constant term there is a burst that the CRC misses. */
  lemma BurstMissed(cfg: Config) returns (s: seq<Octet>, t: seq<Octet>, delta: Poly)
    requires cfg.Valid() && cfg.table.None? && 0 !in cfg.poly
    ensures Burst(s, t, cfg, 0, delta) && Crc(s, cfg) == Crc(t, cfg)
  {
    hide Crc, Message, Divides, Add, Shift;
    delta := ShortFactor(cfg);
    AddNothing(delta);
    s := MessageOf(delta, 4, cfg);
    t := MessageOf({}, 4, cfg);
    SameCrc(s, t, cfg);
  }

  /** Every burst is noticed if and only if the polynomial is odd. */
  lemma BurstsExactly(cfg: Config)
    requires cfg.Valid() && cfg.table.None?
    ensures DetectsBursts(cfg) <==> 0 in cfg.poly
  {
    hide Crc, Burst;
    if 0 in cfg.poly {
      forall s, t, j, delta | Burst(s, t, cfg, j, delta) ensures Crc(s, cfg) != Crc(t, cfg) {
        BurstDetected(s, t, cfg, j, delta);
      }
    } else {
      var s, t, delta := BurstMissed(cfg);
    }
  }
}
