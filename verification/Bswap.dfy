/**
 Byte order conversions (`bswap.h`) on a little-endian machine.  Words are
 natural numbers below 2^(8·size), so that a shift is a division or a product
 by a power of two.
 */
module Bswap {
  import opened Basics

  type Byte = x: int | 0 <= x < 256

  /** The value of the bytes `b` in memory, read as a little-endian word. */
  function LoadLittle(b: seq<Byte>): nat {
    if b == [] then 0 else b[0] + 256 * LoadLittle(b[1..])
  }

  /** The bytes of a little-endian word of `n` bytes, the low byte first. */
  function StoreLittle(x: nat, n: nat): (b: seq<Byte>)
    ensures |b| == n
  {
    if n == 0 then [] else [x % 256] + StoreLittle(x / 256, n - 1)
  }

  /** The value of `b` read with the most significant byte first. */
  function BigEndian(b: seq<Byte>): nat
    decreases |b|
  {
    if b == [] then 0 else 256 * BigEndian(b[..|b| - 1]) + b[|b| - 1]
  }

  function Reversed(b: seq<Byte>): (r: seq<Byte>)
    ensures |r| == |b|
    ensures forall i :: 0 <= i < |b| ==> r[i] == b[|b| - 1 - i]
  {
    if b == [] then [] else Reversed(b[1..]) + [b[0]]
  }

  /** The macro BSWAP_16: masks and shifts. */
  function Swap16(x: nat): nat
    requires x < 0x1_0000
  {
    x / 0x100 + (x % 0x100) * 0x100
  }

  /** The macro BSWAP_32: masks and shifts. */
  function Swap32(x: nat): nat
    requires x < 0x1_0000_0000
  {
    x / 0x100_0000 + (x / 0x1_0000 % 0x100) * 0x100 + (x / 0x100 % 0x100) * 0x1_0000 + (x % 0x100) * 0x100_0000
  }

  /** `bswap_n`: the swap loop that works inwards from both ends of the buffer. */
  method SwapBytes(data: array<Byte>)
    modifies data
    ensures data[..] == Reversed(old(data[..]))
  {
    var ptr, len := 0, data.Length;
    while len > 1
      invariant 0 <= ptr && 0 <= len && 2 * ptr + len == data.Length
      invariant forall k :: 0 <= k < ptr ==> data[k] == old(data[data.Length - 1 - k])
      invariant forall k :: 0 <= k < ptr ==> data[data.Length - 1 - k] == old(data[k])
      invariant forall k :: ptr <= k < ptr + len ==> data[k] == old(data[k])
    {
      var tmp := data[ptr];
      data[ptr] := data[ptr + len - 1];
      data[ptr + len - 1] := tmp;
      ptr := ptr + 1;
      len := len - 2;
    }
    forall k | 0 <= k < data.Length ensures data[k] == old(data[..])[data.Length - 1 - k] {
      if ptr <= k < ptr + len {
        assert k == data.Length - 1 - k;
      } else if k >= ptr + len {
        assert data[data.Length - 1 - (data.Length - 1 - k)] == old(data[data.Length - 1 - k]);
      }
    }
  }

  lemma {:induction false} StoreLoad(b: seq<Byte>)
    ensures StoreLittle(LoadLittle(b), |b|) == b
  {
    if b != [] {
      StoreLoad(b[1..]);
      StoreLoadFirst(b, LoadLittle(b[1..]));
    }
  }

  lemma StoreLoadFirst(b: seq<Byte>, rest: nat)
    requires b != [] && rest == LoadLittle(b[1..]) && StoreLittle(rest, |b| - 1) == b[1..]
    ensures StoreLittle(LoadLittle(b), |b|) == b
  {
    var x := b[0] + 256 * rest;
    Digit(x, b[0], rest);
    assert LoadLittle(b) == x;
    assert StoreLittle(x, |b|) == [x % 256] + StoreLittle(x / 256, |b| - 1);
    assert b == [b[0]] + b[1..];
  }

  lemma {:induction false} LoadReversed(b: seq<Byte>)
    ensures LoadLittle(Reversed(b)) == BigEndian(b)
    decreases |b|
  {
    if b != [] {
      var k := |b| - 1;
      LoadReversed(b[..k]);
      assert Reversed(b) == [b[k]] + Reversed(b[..k]);
    }
  }

  function Word16(b0: int, b1: int): int {
    b0 + 0x100 * b1
  }

  function Word32(b0: int, b1: int, b2: int, b3: int): int {
    b0 + 0x100 * b1 + 0x1_0000 * b2 + 0x100_0000 * b3
  }

  lemma Digits32(b0: Byte, b1: Byte, b2: Byte, b3: Byte)
    ensures 0 <= Word32(b0, b1, b2, b3) < 0x1_0000_0000
    ensures Swap32(Word32(b0, b1, b2, b3)) == Word32(b3, b2, b1, b0)
  {
    var x, y, z := Word32(b0, b1, b2, b3), Word32(b1, b2, b3, 0), Word32(b2, b3, 0, 0);
    Digit(x, b0, y);
    Digit(y, b1, z);
    Digit(z, b2, b3);
    DivTwice(x, 0x100, 0x100);
    DivTwice(x, 0x1_0000, 0x100);
  }

  /** The low byte of a word and the rest of it. */
  lemma Digit(x: nat, low: Byte, high: nat)
    requires x == low + 0x100 * high
    ensures x % 0x100 == low && x / 0x100 == high
  {
  }

  lemma LoadWords(b: seq<Byte>)
    ensures |b| == 2 ==> LoadLittle(b) == Word16(b[0], b[1])
    ensures |b| == 4 ==> LoadLittle(b) == Word32(b[0], b[1], b[2], b[3])
  {
    if |b| == 2 {
      assert b[1..][1..] == [];
    }
    if |b| == 4 {
      var c := b[1..];
      var d := c[1..];
      var e := d[1..];
      assert c == [b[1], b[2], b[3]] && d == [b[2], b[3]] && e == [b[3]] && e[1..] == [];
      assert LoadLittle(e) == b[3] && LoadLittle(d) == Word16(b[2], b[3]);
      assert LoadLittle(c) == b[1] + 256 * LoadLittle(d);
    }
  }

  /** Swapping a word loaded from two bytes reverses them: it gives their big-endian value. */
  lemma Swap16Reverses(b: seq<Byte>)
    requires |b| == 2
    ensures LoadLittle(b) < 0x1_0000 && Swap16(LoadLittle(b)) == LoadLittle(Reversed(b)) == BigEndian(b)
  {
    hide LoadLittle, BigEndian, Reversed;
    LoadWords(b);
    LoadWords(Reversed(b));
    LoadReversed(b);
    Digit(Word16(b[0], b[1]), b[0], b[1]);
  }

  /** Swapping a word loaded from four bytes reverses them: it gives their big-endian value. */
  lemma Swap32Reverses(b: seq<Byte>)
    requires |b| == 4
    ensures LoadLittle(b) < 0x1_0000_0000 && Swap32(LoadLittle(b)) == LoadLittle(Reversed(b)) == BigEndian(b)
  {
    hide LoadLittle, BigEndian, Reversed, Swap32, Word32;
    LoadWords(b);
    LoadWords(Reversed(b));
    LoadReversed(b);
    Digits32(b[0], b[1], b[2], b[3]);
  }

  lemma {:induction false} LoadStore(x: nat, n: nat)
    ensures LoadLittle(StoreLittle(x, n)) == x % Power256(n)
    decreases n
  {
    if n != 0 {
      var q := x / 256;
      LoadStore(q, n - 1);
      var p := Power256(n - 1);
      assert StoreLittle(x, n)[1..] == StoreLittle(q, n - 1);
      DivTwice(x, 256, p);
    }
  }

  function Power256(n: nat): (p: nat)
    ensures p > 0
  {
    if n == 0 then 1 else 256 * Power256(n - 1)
  }
}
