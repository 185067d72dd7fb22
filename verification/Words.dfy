/**
 The `uint32_t` words of the CRC driver.  A word is the set of the positions
 of its 1 bits, so that a word is also the polynomial over GF(2) that it
 stands for and `^` is the sum of `Gf2Poly`.
 */
module Words {
  import opened Gf2Poly

  type Word = w: Poly | Below(w, 32)

  /** A `uint8_t`. */
  type Octet = w: Poly | Below(w, 8)

  /** x ^ y */
  function Xor(x: Word, y: Word): (r: Word)
    ensures r == Add(x, y)
  {
    Add(x, y)
  }

  /** x << k: bits that leave the 32-bit word are lost. */
  function ShiftLeft(x: Word, k: nat): (r: Word)
    ensures forall e {:trigger e in r} :: e in r <==> k <= e < 32 && e - k in x
  {
    set e | e in Shift(x, k) && e < 32
  }

  /** x >> k */
  function ShiftRight(x: Word, k: nat): (r: Word)
    ensures forall e: nat {:trigger e in r} :: e in r <==> e + k in x
  {
    set e | e in x && e >= k :: e - k
  }

  /** x & ((1 << n) - 1) */
  function Low(x: Word, n: nat): (r: Word)
    ensures Below(r, n)
    ensures forall e {:trigger e in r} :: e in r <==> e < n && e in x
  {
    set e | e in x && e < n
  }

  /** The mirror image of the low `n` bits of `x`; higher bits are dropped. */
  function Reflected(x: Word, n: nat): (r: Word)
    requires n <= 32
    ensures Below(r, n)
    ensures forall e: nat {:trigger e in r} :: e in r <==> e < n && n - 1 - e in x
  {
    set e | e in x && e < n :: n - 1 - e
  }

  /** The number that an octet is when it indexes an array. */
  function Value(x: Octet): (v: nat)
    ensures v < 256
  {
    16 * Nibble(ShiftRight(x, 4)) + Nibble(Low(x, 4))
  }

  /** The number 0..15 with the low bits of `x`. */
  function Nibble(x: Word): (v: nat)
    ensures v < 16
  {
    (if 0 in x then 1 else 0) + (if 1 in x then 2 else 0) + (if 2 in x then 4 else 0) + (if 3 in x then 8 else 0)
  }
}

/**
 Machine words as they are written in the source: the entries of the two
 tables and the constants of the two configurations.  `FromBv` gives the word
 of such a literal.
 */
module WordLiterals {
  import opened Gf2Poly
  import opened Words

  predicate BvLow(x: bv32) {
    x & 1 == 1
  }

  function BvHalf(x: bv32): bv32 {
    x >> 1
  }

  function BvXor(x: bv32, y: bv32): bv32 {
    x ^ y
  }

  /** Bit `i` of `x`. */
  predicate BvBit(x: bv32, i: nat)
    decreases i
  {
    if i == 0 then BvLow(x) else BvBit(BvHalf(x), i - 1)
  }

  /** The word with the bits of the literal `x`. */
  function FromBv(x: bv32): (w: Word)
    ensures forall i: nat :: i in w <==> i < 32 && BvBit(x, i)
  {
    set i: nat | i < 32 && BvBit(x, i)
  }

  lemma BvXorLow(x: bv32, y: bv32)
    ensures BvLow(BvXor(x, y)) == (BvLow(x) != BvLow(y))
    ensures BvHalf(BvXor(x, y)) == BvXor(BvHalf(x), BvHalf(y))
  {
  }

  lemma {:induction false} BvXorBit(x: bv32, y: bv32, i: nat)
    ensures BvBit(BvXor(x, y), i) == (BvBit(x, i) != BvBit(y, i))
    decreases i
  {
    hide BvLow, BvHalf, BvXor;
    BvXorLow(x, y);
    if i != 0 {
      BvXorBit(BvHalf(x), BvHalf(y), i - 1);
    }
  }

  lemma FromBvXor(x: bv32, y: bv32)
    ensures FromBv(BvXor(x, y)) == Add(FromBv(x), FromBv(y))
  {
    hide BvLow, BvHalf, BvXor, BvBit;
    forall i: nat | i < 32 ensures BvBit(BvXor(x, y), i) == (BvBit(x, i) != BvBit(y, i)) {
      BvXorBit(x, y, i);
    }
  }

  /** x >> 8 */
  function BvDrop8(x: bv32): bv32 {
    BvHalf(BvHalf(BvHalf(BvHalf(BvHalf(BvHalf(BvHalf(BvHalf(x))))))))
  }

  lemma BvBitDrop8(x: bv32, i: nat)
    ensures BvBit(x, i + 8) == BvBit(BvDrop8(x), i)
  {
    hide BvLow, BvHalf;
    var y := BvHalf(BvHalf(BvHalf(BvHalf(x))));
    assert BvBit(x, i + 8) == BvBit(BvHalf(x), i + 7) == BvBit(BvHalf(BvHalf(x)), i + 6)
        == BvBit(BvHalf(BvHalf(BvHalf(x))), i + 5) == BvBit(y, i + 4);
    assert BvBit(y, i + 4) == BvBit(BvHalf(y), i + 3) == BvBit(BvHalf(BvHalf(y)), i + 2)
        == BvBit(BvHalf(BvHalf(BvHalf(y))), i + 1);
  }

  lemma BvDropAll(x: bv32)
    ensures BvDrop8(BvDrop8(BvDrop8(BvDrop8(x)))) == 0
  {
  }

  lemma NoBit32(x: bv32)
    ensures !BvBit(x, 32)
  {
    assert !BvLow(0);
    BvDropAll(x);
    hide BvLow, BvHalf, BvDrop8;
    BvBitDrop8(x, 24);
    BvBitDrop8(BvDrop8(x), 16);
    BvBitDrop8(BvDrop8(BvDrop8(x)), 8);
    BvBitDrop8(BvDrop8(BvDrop8(BvDrop8(x))), 0);
  }

  lemma FromBvHalf(x: bv32)
    ensures FromBv(BvHalf(x)) == ShiftRight(FromBv(x), 1)
    ensures 0 in FromBv(x) <==> BvLow(x)
  {
    hide BvLow, BvHalf;
    NoBit32(x);
    forall i: nat ensures i in FromBv(BvHalf(x)) <==> i + 1 in FromBv(x) {
    }
  }

  lemma FromBvZero()
    ensures FromBv(0) == {}
  {
    FromBvXor(0, 0);
    assert BvXor(0, 0) == 0;
    hide *;
    assert forall e :: e !in Add(FromBv(0), FromBv(0));
  }
}
