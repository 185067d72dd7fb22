/**
 What the software CRC driver computes, as functions of its configuration, its
 register and the bytes fed to it, and what those functions mean.
 */
module CrcSpec {
  import opened Basics
  import opened Gf2Poly
  import opened Words

  /** The configuration of a driver. */
  datatype Config = Config(
    polySize: nat,
    poly: Word,
    initialVal: Word,
    finalVal: Word,
    reflectData: bool,
    reflectRemainder: bool,
    table: Option<seq<Word>>)
  {
    /** The polynomial sizes that the shifts of the driver are defined for, and a whole table. */
    predicate Valid() {
      8 <= polySize <= 32 && (table.Some? ==> |table.value| == 256)
    }

    /** The polynomial that the bit loop divides by: `poly` and the implied x^polySize. */
    function Generator(): (g: Poly)
      ensures polySize in g && Below(g, polySize + 1)
    {
      {polySize} + Low(poly, polySize)
    }
  }

  // ----- the programmable path

  /** One turn of the bit loop.  Bits at and above `polySize` are never cleared. */
  function BitStep(c: Word, cfg: Config): Word
    requires cfg.Valid()
  {
    if cfg.polySize - 1 in c then Xor(ShiftLeft(c, 1), cfg.poly) else ShiftLeft(c, 1)
  }

  function BitSteps(c: Word, cfg: Config, k: nat): Word
    requires cfg.Valid()
  {
    if k == 0 then c else BitStep(BitSteps(c, cfg, k - 1), cfg)
  }

  /** The byte that enters the division. */
  function Fed(d: Octet, cfg: Config): Octet {
    if cfg.reflectData then Reflected(d, 8) else d
  }

  function ByteStep(c: Word, d: Octet, cfg: Config): Word
    requires cfg.Valid()
  {
    BitSteps(Xor(c, ShiftLeft(Fed(d, cfg), cfg.polySize - 8)), cfg, 8)
  }

  // ----- the table path

  function TableStep(t: Word, d: Octet, table: seq<Word>): Word
    requires |table| == 256
  {
    Xor(table[Value(Low(Xor(t, d), 8))], ShiftRight(t, 8))
  }

  // ----- the driver

  /** The register after the bytes `s`, from the register `c`. */
  function Register(c: Word, s: seq<Octet>, cfg: Config): Word
    requires cfg.Valid()
    decreases |s|
  {
    if s == [] then c
    else
      var r := Register(c, s[..|s| - 1], cfg);
      if cfg.table.Some? then TableStep(r, s[|s| - 1], cfg.table.value) else ByteStep(r, s[|s| - 1], cfg)
  }

  /** The value returned for the register `c`. */
  function Returned(c: Word, cfg: Config): Word
    requires cfg.Valid()
  {
    Low(Xor(if cfg.table.None? && cfg.reflectRemainder then Reflected(c, cfg.polySize) else c, cfg.finalVal),
        cfg.polySize)
  }

  /** The CRC of `s`: what the driver returns when `s` is fed to it after a reset. */
  function Crc(s: seq<Octet>, cfg: Config): Word
    requires cfg.Valid()
  {
    Returned(Register(cfg.initialVal, s, cfg), cfg)
  }

  // ----- the register is a polynomial remainder

  /** The message as a polynomial, first byte first. */
  function Message(s: seq<Octet>, cfg: Config): Poly
    decreases |s|
  {
    if s == [] then {} else Add(Shift(Message(s[..|s| - 1], cfg), 8), Fed(s[|s| - 1], cfg))
  }

  /**
   `p` is the polynomial of the bytes `s`, the first byte first, each with its
   most significant bit first, or with its least significant bit first.
   */
  ghost predicate IsMessage(p: Poly, s: seq<Octet>, lowFirst: bool) {
    && Below(p, 8 * |s|)
    && forall i: nat, e: nat :: i < |s| && e < 8 ==>
         (BitPlace(|s|, i, e, lowFirst) in p <==> e in s[i])
  }

  /** The power of x that stands for bit `e` of byte `i` of `n`. */
  function BitPlace(n: nat, i: nat, e: nat, lowFirst: bool): nat
    requires i < n && e < 8
  {
    8 * (n - 1 - i) + if lowFirst then 7 - e else e
  }

  /** The coefficients of the message, from the bytes alone. */
  lemma {:induction false} MessageBits(s: seq<Octet>, cfg: Config)
    ensures IsMessage(Message(s, cfg), s, cfg.reflectData)
    decreases |s|
  {
    if s != [] {
      var n := |s| - 1;
      MessageBits(s[..n], cfg);
      MessageBitsNext(s, cfg, Message(s[..n], cfg));
    }
  }

  lemma MessageBitsNext(s: seq<Octet>, cfg: Config, front: Poly)
    requires s != [] && IsMessage(front, s[..|s| - 1], cfg.reflectData)
    ensures IsMessage(Add(Shift(front, 8), Fed(s[|s| - 1], cfg)), s, cfg.reflectData)
  {
    var n := |s| - 1;
    var f := Fed(s[n], cfg);
    var p := Add(Shift(front, 8), f);
    forall i: nat, e: nat | i < |s| && e < 8 ensures BitPlace(|s|, i, e, cfg.reflectData) in p <==> e in s[i] {
      var at := BitPlace(|s|, i, e, cfg.reflectData);
      if i == n {
        assert at in f <==> e in s[n];
        assert at !in Shift(front, 8);
      } else {
        assert at == BitPlace(n, i, e, cfg.reflectData) + 8;
        assert BitPlace(n, i, e, cfg.reflectData) in front <==> e in s[..n][i];
        assert at in Shift(front, 8) <==> at - 8 in front;
        assert at !in f;
      }
    }
  }

  /** A message has one polynomial only. */
  lemma MessageUnique(p: Poly, q: Poly, s: seq<Octet>, lowFirst: bool)
    requires IsMessage(p, s, lowFirst) && IsMessage(q, s, lowFirst)
    ensures p == q
  {
    forall at: nat ensures at in p <==> at in q {
      if at < 8 * |s| {
        var i, e := PlaceOf(|s|, at, lowFirst);
        assert BitPlace(|s|, i, e, lowFirst) == at;
      }
    }
  }

  lemma PlaceOf(n: nat, at: nat, lowFirst: bool) returns (i: nat, e: nat)
    requires at < 8 * n
    ensures i < n && e < 8 && BitPlace(n, i, e, lowFirst) == at
  {
    i := n - 1 - at / 8;
    e := if lowFirst then 7 - at % 8 else at % 8;
  }

  /** c·x^(8L) + M·x^polySize, for a message M of L bytes. */
  function Dividend(c: Word, s: seq<Octet>, cfg: Config): Poly {
    Add(Shift(Low(c, cfg.polySize), 8 * |s|), Shift(Message(s, cfg), cfg.polySize))
  }

  lemma BitStepRemainder(c: Word, cfg: Config)
    requires cfg.Valid()
    ensures Congruent(Shift(Low(c, cfg.polySize), 1), Low(BitStep(c, cfg), cfg.polySize), cfg.Generator())
  {
    var n, g := cfg.polySize, cfg.Generator();
    var sum := Add(Shift(Low(c, n), 1), Low(BitStep(c, cfg), n));
    if n - 1 in c {
      forall e ensures e in sum <==> e in g {
      }
      assert sum == g;
    } else {
      forall e ensures e !in sum {
      }
      assert sum == {};
    }
    DividesSelf(g);
  }

  lemma {:induction false} BitStepsRemainder(c: Word, cfg: Config, k: nat)
    requires cfg.Valid()
    ensures Congruent(Shift(Low(c, cfg.polySize), k), Low(BitSteps(c, cfg, k), cfg.polySize), cfg.Generator())
    decreases k
  {
    var n, g := cfg.polySize, cfg.Generator();
    var low := Low(c, n);
    if k == 0 {
      assert Shift(low, 0) == low;
      CongruentRefl(low, g);
    } else {
      var before := BitSteps(c, cfg, k - 1);
      assert BitSteps(c, cfg, k) == BitStep(before, cfg);
      hide BitStep, BitSteps, Congruent, Divides, Mul, Add, Shift, Low;
      BitStepsRemainder(c, cfg, k - 1);
      BitStepRemainder(before, cfg);
      ShiftRemainder(low, k - 1, Low(before, n), Low(BitStep(before, cfg), n), g);
    }
  }

  lemma ShiftRemainder(a: Poly, k: nat, r: Poly, next: Poly, g: Poly)
    requires Congruent(Shift(a, k), r, g) && Congruent(Shift(r, 1), next, g)
    ensures Congruent(Shift(a, k + 1), next, g)
  {
    CongruentShift(Shift(a, k), r, g, 1);
    ShiftShift(a, k, 1);
    CongruentTrans(Shift(a, k + 1), Shift(r, 1), next, g);
  }

  /** A byte step multiplies by x^8 and brings in the byte at x^polySize. */
  lemma ByteStepRemainder(c: Word, d: Octet, cfg: Config)
    requires cfg.Valid()
    ensures Congruent(Add(Shift(Low(c, cfg.polySize), 8), Shift(Fed(d, cfg), cfg.polySize)),
                      Low(ByteStep(c, d, cfg), cfg.polySize), cfg.Generator())
  {
    var n := cfg.polySize;
    var f := Fed(d, cfg);
    var x := Xor(c, ShiftLeft(f, n - 8));
    BitStepsRemainder(x, cfg, 8);
    assert Low(x, n) == Add(Low(c, n), Shift(f, n - 8));
    ShiftAdd(Low(c, n), Shift(f, n - 8), 8);
    ShiftShift(f, n - 8, 8);
  }

  /**
   The low `polySize` bits of the register are the remainder of the division
   of c·x^(8L) + M·x^polySize by the generator.
   */
  lemma {:induction false} RegisterIsRemainder(c: Word, s: seq<Octet>, cfg: Config)
    requires cfg.Valid() && cfg.table.None?
    ensures IsRemainder(Dividend(c, s, cfg), cfg.Generator(), cfg.polySize, Low(Register(c, s, cfg), cfg.polySize))
    decreases |s|
  {
    var n, g := cfg.polySize, cfg.Generator();
    var low := Low(c, n);
    if s == [] {
      assert Dividend(c, s, cfg) == low;
      CongruentRefl(low, g);
    } else {
      var k := |s| - 1;
      var t, d := s[..k], s[k];
      var r := Register(c, t, cfg);
      RegisterIsRemainder(c, t, cfg);
      ByteStepRemainder(r, d, cfg);
      ByteRemainder(Dividend(c, t, cfg), Low(r, n), Shift(Fed(d, cfg), n), Low(ByteStep(r, d, cfg), n), g);
      DividendStep(c, s, cfg);
    }
  }

  /** Two congruences composed: first the message so far, then the next byte. */
  lemma ByteRemainder(a: Poly, r: Poly, f: Poly, next: Poly, g: Poly)
    requires Congruent(a, r, g)
    requires Congruent(Add(Shift(r, 8), f), next, g)
    ensures Congruent(Add(Shift(a, 8), f), next, g)
  {
    CongruentShift(a, r, g, 8);
    CongruentAdd(Shift(a, 8), Shift(r, 8), f, g);
    CongruentTrans(Add(Shift(a, 8), f), Add(Shift(r, 8), f), next, g);
  }

  lemma DividendStep(c: Word, s: seq<Octet>, cfg: Config)
    requires s != []
    ensures Dividend(c, s, cfg)
         == Add(Shift(Dividend(c, s[..|s| - 1], cfg), 8), Shift(Fed(s[|s| - 1], cfg), cfg.polySize))
  {
    var n, k := cfg.polySize, |s| - 1;
    var t, f := s[..k], Fed(s[k], cfg);
    DividendAlgebra(Low(c, n), 8 * k, Message(t, cfg), n, f);
  }

  lemma DividendAlgebra(low: Poly, k: nat, m: Poly, n: nat, f: Poly)
    ensures Add(Shift(low, k + 8), Shift(Add(Shift(m, 8), f), n))
         == Add(Shift(Add(Shift(low, k), Shift(m, n)), 8), Shift(f, n))
  {
    calc {
      Add(Shift(Add(Shift(low, k), Shift(m, n)), 8), Shift(f, n));
    ==  { ShiftAdd(Shift(low, k), Shift(m, n), 8); }
      Add(Add(Shift(Shift(low, k), 8), Shift(Shift(m, n), 8)), Shift(f, n));
    ==  { ShiftShift(low, k, 8); ShiftShift(m, n, 8); ShiftShift(m, 8, n); }
      Add(Add(Shift(low, k + 8), Shift(Shift(m, 8), n)), Shift(f, n));
    ==  { AddAssoc(Shift(low, k + 8), Shift(Shift(m, 8), n), Shift(f, n)); }
      Add(Shift(low, k + 8), Add(Shift(Shift(m, 8), n), Shift(f, n)));
    ==  { ShiftAdd(Shift(m, 8), f, n); }
      Add(Shift(low, k + 8), Shift(Add(Shift(m, 8), f), n));
    }
  }

  /**
   The returned CRC, bit by bit, from the bytes: a coefficient of the remainder
   of initialVal·x^(8L) + p·x^polySize for the polynomial `p` of the bytes (the
   mirrored one with `reflectRemainder`), plus the bit of `finalVal`; nothing
   beyond `polySize` bits.
   */
  lemma CrcIsRemainder(s: seq<Octet>, cfg: Config, p: Poly, r: Poly)
    requires cfg.Valid() && cfg.table.None? && IsMessage(p, s, cfg.reflectData)
    requires IsRemainder(Add(Shift(Low(cfg.initialVal, cfg.polySize), 8 * |s|), Shift(p, cfg.polySize)),
                         cfg.Generator(), cfg.polySize, r)
    ensures Below(Crc(s, cfg), cfg.polySize)
    ensures forall e: nat :: e < cfg.polySize ==>
              (e in Crc(s, cfg) <==>
               ((if cfg.reflectRemainder then cfg.polySize - 1 - e else e) in r) != (e in cfg.finalVal))
  {
    hide Register, Message, IsMessage, IsRemainder, Returned, Reflected, Xor;
    var n, c := cfg.polySize, Register(cfg.initialVal, s, cfg);
    MessageBits(s, cfg);
    MessageUnique(p, Message(s, cfg), s, cfg.reflectData);
    RegisterIsRemainder(cfg.initialVal, s, cfg);
    RemainderUnique(Dividend(cfg.initialVal, s, cfg), cfg.Generator(), n, r, Low(c, n));
    assert forall i: nat :: i < n ==> (i in r <==> i in c);
    ReturnedBits(c, cfg);
  }

  lemma ReturnedBits(c: Word, cfg: Config)
    requires cfg.Valid() && cfg.table.None?
    ensures Below(Returned(c, cfg), cfg.polySize)
    ensures forall e: nat :: e < cfg.polySize ==>
              (e in Returned(c, cfg) <==>
               ((if cfg.reflectRemainder then cfg.polySize - 1 - e else e) in c) != (e in cfg.finalVal))
  {
  }
}
