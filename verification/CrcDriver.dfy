/**
 The software CRC driver: an object with a register that is reset, fed and
 read.
 */
module CrcDriver {
  import opened Basics
  import opened Gf2Poly
  import opened Words
  import opened CrcSpec

  /** The mirror image of the low `bit` bits of `x`. */
  function PartReflected(x: Word, n: nat, bit: nat): (r: Word)
    requires n <= 32
    ensures forall e: nat {:trigger e in r} :: e in r <==> e < n && n - 1 - e < bit && n - 1 - e in x
  {
    set e | e in Reflected(x, n) && n - 1 - e < bit
  }

  lemma PartReflectedNext(x: Word, n: nat, bit: nat)
    requires bit < n <= 32
    ensures PartReflected(x, n, bit + 1)
         == if bit in x then PartReflected(x, n, bit) + {n - 1 - bit} else PartReflected(x, n, bit)
  {
    var l := PartReflected(x, n, bit + 1);
    var r := if bit in x then PartReflected(x, n, bit) + {n - 1 - bit} else PartReflected(x, n, bit);
    forall e: nat ensures e in l <==> e in r {
    }
  }

  lemma PartReflectedEnds(x: Word, n: nat)
    requires n <= 32
    ensures PartReflected(x, n, 0) == {} && PartReflected(x, n, n) == Reflected(x, n)
  {
  }

  lemma ShiftRightNext(x: Word, k: nat)
    ensures ShiftRight(x, 0) == x && ShiftRight(ShiftRight(x, k), 1) == ShiftRight(x, k + 1)
    ensures 0 in ShiftRight(x, k) <==> k in x
  {
  }

  /** The bit loop of `reflect`. */
  method Reflect(data: Word, nBits: nat) returns (reflection: Word)
    requires nBits <= 32
    ensures reflection == Reflected(data, nBits)
  {
    hide ShiftRight, Reflected, PartReflected;
    reflection := {};
    var d := data;
    var bit := 0;
    PartReflectedEnds(data, nBits);
    ShiftRightNext(data, 0);
    while bit < nBits
      invariant 0 <= bit <= nBits
      invariant d == ShiftRight(data, bit)
      invariant reflection == PartReflected(data, nBits, bit)
    {
      ShiftRightNext(data, bit);
      PartReflectedNext(data, nBits, bit);
      if 0 in d {
        reflection := reflection + {nBits - 1 - bit};
      }
      d := ShiftRight(d, 1);
      bit := bit + 1;
    }
  }

  class Driver {
    const config: Config
    var crc: Word

    constructor (cfg: Config)
      requires cfg.Valid()
      ensures config == cfg && crc == cfg.initialVal
    {
      config := cfg;
      crc := cfg.initialVal;
    }

    method Reset()
      modifies this`crc
      ensures crc == config.initialVal
    {
      crc := config.initialVal;
    }

    /** Feeds `buf` and returns the CRC of everything fed since the last reset. */
    method Calc(buf: seq<Octet>) returns (r: Word)
      requires config.Valid()
      modifies this`crc
      ensures crc == Register(old(crc), buf, config)
      ensures r == Returned(crc, config)
    {
      if config.table.Some? {
        CalcTable(buf);
        r := crc;
      } else {
        CalcBits(buf);
        r := crc;
        if config.reflectRemainder {
          r := Reflect(r, config.polySize);
        }
      }
      r := Low(Xor(r, config.finalVal), config.polySize);
    }

    /** The byte loop of the table path. */
    method CalcTable(buf: seq<Octet>)
      requires config.Valid() && config.table.Some?
      modifies this`crc
      ensures crc == Register(old(crc), buf, config)
    {
      var i := 0;
      while i < |buf|
        invariant 0 <= i <= |buf|
        invariant crc == Register(old(crc), buf[..i], config)
      {
        var idx := Value(Low(Xor(crc, buf[i]), 8));
        crc := Xor(config.table.value[idx], ShiftRight(crc, 8));
        assert buf[..i + 1][..i] == buf[..i];
        i := i + 1;
      }
      assert buf[..i] == buf;
    }

    /** The byte and bit loops of the programmable path. */
    method CalcBits(buf: seq<Octet>)
      requires config.Valid() && config.table.None?
      modifies this`crc
      ensures crc == Register(old(crc), buf, config)
    {
      var c := crc;
      var i := 0;
      while i < |buf|
        invariant 0 <= i <= |buf|
        invariant c == Register(old(crc), buf[..i], config)
      {
        var data := buf[i];
        if config.reflectData {
          data := Reflect(data, 8);
        }
        assert data == Fed(buf[i], config);
        c := DivideByte(Xor(c, ShiftLeft(data, config.polySize - 8)));
        assert buf[..i + 1][..i] == buf[..i];
        i := i + 1;
      }
      assert buf[..i] == buf;
      crc := c;
    }

    /** The bit loop: eight steps of modulo-2 division. */
    method DivideByte(start: Word) returns (c: Word)
      requires config.Valid()
      ensures c == BitSteps(start, config, 8)
    {
      c := start;
      var bit := 8;
      while bit > 0
        invariant 0 <= bit <= 8
        invariant c == BitSteps(start, config, 8 - bit)
      {
        if config.polySize - 1 in c {
          c := Xor(ShiftLeft(c, 1), config.poly);
        } else {
          c := ShiftLeft(c, 1);
        }
        bit := bit - 1;
      }
    }

    /** A reset and then one call for every piece: the last call returns the CRC of the whole. */
    method CalcPieces(pieces: seq<seq<Octet>>) returns (r: Word)
      requires config.Valid() && pieces != []
      modifies this`crc
      ensures r == Crc(Flatten(pieces), config)
    {
      hide Register, Returned, Flatten;
      Reset();
      r := Calc(pieces[0]);
      FlattenOne(pieces);
      var i := 1;
      while i < |pieces|
        invariant 1 <= i <= |pieces|
        invariant crc == Register(config.initialVal, Flatten(pieces[..i]), config)
        invariant r == Returned(crc, config)
      {
        r := Calc(pieces[i]);
        RegisterConcat(config.initialVal, Flatten(pieces[..i]), pieces[i], config);
        FlattenAppend(pieces[..i], pieces[i]);
        assert pieces[..i] + [pieces[i]] == pieces[..i + 1];
        i := i + 1;
      }
      assert pieces[..i] == pieces;
    }
  }

  lemma FlattenOne(pieces: seq<seq<Octet>>)
    requires pieces != []
    ensures Flatten(pieces[..1]) == pieces[0]
  {
    FlattenAppend([], pieces[0]);
    assert [] + [pieces[0]] == pieces[..1];
    assert [] + pieces[0] == pieces[0];
  }

  function Flatten(pieces: seq<seq<Octet>>): seq<Octet> {
    if pieces == [] then [] else Flatten(pieces[..|pieces| - 1]) + pieces[|pieces| - 1]
  }

  lemma FlattenAppend(pieces: seq<seq<Octet>>, last: seq<Octet>)
    ensures Flatten(pieces + [last]) == Flatten(pieces) + last
  {
    assert (pieces + [last])[..|pieces|] == pieces;
  }

  /** Feeding a buffer in two parts leaves the same register as feeding it at once. */
  lemma {:induction false} RegisterConcat(c: Word, s: seq<Octet>, t: seq<Octet>, cfg: Config)
    requires cfg.Valid()
    ensures Register(c, s + t, cfg) == Register(Register(c, s, cfg), t, cfg)
    decreases |t|
  {
    hide Register;
    if t == [] {
      assert s + t == s;
      RegisterNone(Register(c, s, cfg), cfg);
    } else {
      var k := |t| - 1;
      RegisterConcat(c, s, t[..k], cfg);
      RegisterAppend(c, s + t[..k], t[k], cfg);
      RegisterAppend(Register(c, s, cfg), t[..k], t[k], cfg);
      assert s + t == s + t[..k] + [t[k]];
      assert t[..k] + [t[k]] == t;
    }
  }

  lemma RegisterNone(c: Word, cfg: Config)
    requires cfg.Valid()
    ensures Register(c, [], cfg) == c
  {
  }

  lemma RegisterAppend(c: Word, s: seq<Octet>, d: Octet, cfg: Config)
    requires cfg.Valid()
    ensures Register(c, s + [d], cfg) == Register(Register(c, s, cfg), [d], cfg)
  {
    assert (s + [d])[..|s|] == s;
    assert [d][..0] == [];
  }
}
