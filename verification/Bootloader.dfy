/**
 The device side of the bootloader protocol (section 3 of AN3155) as far as
 the client of `stm32loader.py` needs it: one received byte at a time, with
 every complement and checksum examined.
 */
module Bootloader {
  import opened Basics
  import opened Bswap
  import opened Numerals

  const ACK: Byte := 0x79
  const NACK: Byte := 0x1F
  const READ_MEMORY: Byte := 0x11
  const WRITE_MEMORY: Byte := 0x31

  // ----- checksums

  /** Exclusive or, bit by bit. */
  function XorBits(a: nat, b: nat): nat
    decreases a + b
  {
    if a == 0 && b == 0 then 0 else (a + b) % 2 + 2 * XorBits(a / 2, b / 2)
  }

  function Xor(a: Byte, b: Byte): Byte {
    XorBelow(a, b);
    XorBits(a, b)
  }

  lemma {:induction false} XorBitsBelow(a: nat, b: nat, k: nat)
    requires a < Power(2, k) && b < Power(2, k)
    ensures XorBits(a, b) < Power(2, k)
    decreases k
  {
    if k > 0 && (a != 0 || b != 0) {
      XorBitsBelow(a / 2, b / 2, k - 1);
    }
  }

  lemma XorBelow(a: Byte, b: Byte)
    ensures XorBits(a, b) < 256
  {
    PowerTwo(0);
    XorBitsBelow(a, b, 8);
  }

  lemma {:induction false} XorHalf(a: nat, b: nat)
    ensures XorBits(a, b) % 2 == (a + b) % 2 && XorBits(a, b) / 2 == XorBits(a / 2, b / 2)
  {
    if a != 0 || b != 0 {
      var q, r := XorBits(a / 2, b / 2), (a + b) % 2;
      assert XorBits(a, b) == r + 2 * q;
      Halve(q, r);
    }
  }

  lemma Halve(q: nat, r: nat)
    requires r < 2
    ensures (r + 2 * q) % 2 == r && (r + 2 * q) / 2 == q
  {
  }

  lemma Parity(x: nat, y: nat, c: nat)
    requires x % 2 == y % 2
    ensures (x + c) % 2 == (y + c) % 2
  {
  }

  lemma {:induction false} XorBitsZero(a: nat)
    ensures XorBits(a, 0) == a && XorBits(0, a) == a
    decreases a
  {
    if a != 0 {
      XorBitsZero(a / 2);
    }
  }

  lemma {:induction false} XorBitsSelf(a: nat)
    ensures XorBits(a, a) == 0
    decreases a
  {
    if a != 0 {
      XorBitsSelf(a / 2);
    }
  }

  lemma {:induction false} XorBitsAssociative(a: nat, b: nat, c: nat)
    ensures XorBits(XorBits(a, b), c) == XorBits(a, XorBits(b, c))
    decreases a + b + c
  {
    if a != 0 || b != 0 || c != 0 {
      XorBitsAssociative(a / 2, b / 2, c / 2);
      var l, r := XorBits(XorBits(a, b), c), XorBits(a, XorBits(b, c));
      SameHalves(a, b, c);
      assert l == 2 * (l / 2) + l % 2 && r == 2 * (r / 2) + r % 2;
    }
  }

  lemma SameHalves(a: nat, b: nat, c: nat)
    ensures XorBits(XorBits(a, b), c) / 2 == XorBits(XorBits(a / 2, b / 2), c / 2)
    ensures XorBits(a, XorBits(b, c)) / 2 == XorBits(a / 2, XorBits(b / 2, c / 2))
    ensures XorBits(XorBits(a, b), c) % 2 == XorBits(a, XorBits(b, c)) % 2
  {
    hide XorBits;
    XorHalf(a, b);
    XorHalf(b, c);
    XorHalf(XorBits(a, b), c);
    XorHalf(a, XorBits(b, c));
    Parity(XorBits(a, b), a + b, c);
    Parity(XorBits(b, c), b + c, a);
  }

  function XorAll(s: seq<Byte>): Byte
    decreases |s|
  {
    if s == [] then 0 else Xor(XorAll(s[..|s| - 1]), s[|s| - 1])
  }

  lemma XorZero(a: Byte)
    ensures Xor(a, 0) == a && Xor(0, a) == a
  {
    XorBitsZero(a);
  }

  lemma XorSelf(a: Byte)
    ensures Xor(a, a) == 0
  {
    XorBitsSelf(a);
  }

  lemma XorAssociative(a: Byte, b: Byte, c: Byte)
    ensures Xor(Xor(a, b), c) == Xor(a, Xor(b, c))
  {
    hide XorBits;
    XorBitsAssociative(a, b, c);
  }

  lemma XorInjective(a: Byte, b: Byte, c: Byte)
    ensures Xor(a, c) == Xor(b, c) <==> a == b
  {
    hide Xor;
    XorAssociative(a, c, c);
    XorAssociative(b, c, c);
    XorSelf(c);
    XorZero(a);
    XorZero(b);
  }

  lemma {:induction false} XorOnes(a: nat, k: nat)
    requires a < Power(2, k)
    ensures XorBits(a, Power(2, k) - 1) == Power(2, k) - 1 - a
    decreases k
  {
    if k > 0 {
      XorOnes(a / 2, k - 1);
      OnesStep(a, Power(2, k - 1));
    }
  }

  lemma OnesStep(a: nat, p: int)
    requires p >= 1 && a < 2 * p && XorBits(a / 2, p - 1) == p - 1 - a / 2
    ensures XorBits(a, 2 * p - 1) == 2 * p - 1 - a
  {
    hide XorBits;
    Halve(p - 1, 1);
    XorHalf(a, 2 * p - 1);
    OddSum(a, p, XorBits(a, 2 * p - 1));
  }

  lemma OddSum(a: nat, p: int, x: nat)
    requires p >= 1 && x % 2 == (a + 2 * p - 1) % 2 && x / 2 == p - 1 - a / 2
    ensures x == 2 * p - 1 - a
  {
    var h, b := a / 2, a % 2;
    assert a == 2 * h + b && x == 2 * (x / 2) + x % 2;
    if b == 0 {
      Halve(h + p - 1, 1);
      assert a + 2 * p - 1 == 1 + 2 * (h + p - 1);
    } else {
      Halve(h + p, 0);
      assert a + 2 * p - 1 == 0 + 2 * (h + p);
    }
  }

  /** The control byte of a byte is its complement. */
  lemma XorComplement(a: Byte)
    ensures Xor(a, 0xFF) == 255 - a
  {
    assert Power(2, 0) == 1;
    PowerTwo(0);
    XorOnes(a, 8);
  }

  /** A byte and its complement are recognized. */
  lemma ComplementAccepted(a: Byte)
    ensures Xor(a, Xor(a, 0xFF)) == 0xFF
  {
    hide Xor;
    XorAssociative(a, a, 0xFF);
    XorSelf(a);
    XorZero(0xFF);
  }

  // ----- the device

  /** What the device waits for. */
  datatype Phase =
    | Command
    | Complement(cmd: Byte)
    | Address(cmd: Byte, got: seq<Byte>)
    | Count(addr: nat)
    | CountComplement(addr: nat, n: Byte)
    | Length(addr: nat)
    | Data(addr: nat, n: Byte, got: seq<Byte>)

  /** Memory from `base` on, and the bytes sent that were not read yet. */
  datatype Device = Device(base: nat, memory: seq<Byte>, phase: Phase, out: seq<Byte>) {
    predicate Within(addr: nat, n: nat) {
      base <= addr && addr + n <= base + |memory|
    }

    predicate Idle() {
      phase == Command && out == []
    }
  }

  function Answer(d: Device, sent: seq<Byte>, phase: Phase): Device {
    d.(out := d.out + sent, phase := phase)
  }

  /** One byte from the client. */
  function Feed(d: Device, b: Byte): Device {
    match d.phase
    case Command =>
      d.(phase := Complement(b))
    case Complement(c) =>
      if Xor(c, b) == 0xFF && (c == READ_MEMORY || c == WRITE_MEMORY) then Answer(d, [ACK], Address(c, []))
      else Answer(d, [NACK], Command)
    case Address(c, got) =>
      if |got| < 4 then d.(phase := Address(c, got + [b]))
      else if b == XorAll(got) && d.Within(BigEndian(got), 1) then
        Answer(d, [ACK], if c == READ_MEMORY then Count(BigEndian(got)) else Length(BigEndian(got)))
      else Answer(d, [NACK], Command)
    case Count(a) =>
      d.(phase := CountComplement(a, b))
    case CountComplement(a, n) =>
      if Xor(n, b) == 0xFF && d.Within(a, n + 1) then
        Answer(d, [ACK] + d.memory[a - d.base..a - d.base + n + 1], Command)
      else Answer(d, [NACK], Command)
    case Length(a) =>
      d.(phase := Data(a, b, []))
    case Data(a, n, got) =>
      if |got| < n + 1 then d.(phase := Data(a, n, got + [b]))
      else if b == Xor(n, XorAll(got)) && d.Within(a, |got|) then
        Answer(d.(memory := Written(d.memory, a - d.base, got)), [ACK], Command)
      else Answer(d, [NACK], Command)
  }

  function FeedAll(d: Device, s: seq<Byte>): Device
    decreases |s|
  {
    if s == [] then d else FeedAll(Feed(d, s[0]), s[1..])
  }

  lemma FeedOne(d: Device, b: Byte)
    ensures FeedAll(d, [b]) == Feed(d, b)
  {
    hide Feed;
    assert [b][1..] == [];
  }

  lemma {:induction false} FeedAppend(d: Device, s: seq<Byte>, b: Byte)
    ensures FeedAll(d, s + [b]) == Feed(FeedAll(d, s), b)
    decreases |s|
  {
    hide Feed;
    if s == [] {
      assert s + [b] == [b];
      FeedOne(d, b);
    } else {
      assert (s + [b])[1..] == s[1..] + [b] && (s + [b])[0] == s[0];
      FeedAppend(Feed(d, s[0]), s[1..], b);
    }
  }

  /** Four address bytes are collected before the checksum is examined. */
  lemma {:induction false} AddressCollected(d: Device, c: Byte, got: seq<Byte>, s: seq<Byte>)
    requires d.phase == Address(c, got) && |got| + |s| <= 4
    ensures FeedAll(d, s) == d.(phase := Address(c, got + s))
    decreases |s|
  {
    if s == [] {
      assert got + s == got;
    } else {
      AddressCollected(Feed(d, s[0]), c, got + [s[0]], s[1..]);
      assert got + [s[0]] + s[1..] == got + s;
    }
  }

  /** What a frame with an address leads to. */
  function AddressTaken(d: Device, c: Byte, a: nat): Device {
    if d.Within(a, 1) then Answer(d, [ACK], if c == READ_MEMORY then Count(a) else Length(a))
    else Answer(d, [NACK], Command)
  }

  lemma AddressFed(d: Device, c: Byte, frame: seq<Byte>)
    requires d.phase == Address(c, []) && |frame| == 5 && frame[4] == XorAll(frame[..4])
    ensures FeedAll(d, frame) == AddressTaken(d, c, BigEndian(frame[..4]))
  {
    hide XorAll, BigEndian, FeedAll;
    AddressCollected(d, c, [], frame[..4]);
    assert frame == frame[..4] + [frame[4]] && [] + frame[..4] == frame[..4];
    FeedAppend(d, frame[..4], frame[4]);
  }
}
