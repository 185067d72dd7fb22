/**
 The SCSI target (`lib_scsi.c`) over a RAM disk: command decoding, sense data,
 the handlers and the per-block transfer loop.
 */
module Scsi {
  import opened Basics
  import opened Bswap
  import opened RamDisk

  // ----- constants

  const TEST_UNIT_READY: Byte := 0x00
  const REQUEST_SENSE: Byte := 0x03
  const INQUIRY: Byte := 0x12
  const MODE_SENSE_6: Byte := 0x1A
  const PREVENT_ALLOW_MEDIUM_REMOVAL: Byte := 0x1E
  const READ_FORMAT_CAPACITIES: Byte := 0x23
  const READ_CAPACITY_10: Byte := 0x25
  const READ_10: Byte := 0x28
  const WRITE_10: Byte := 0x2A
  const VERIFY_10: Byte := 0x2F

  const KEY_GOOD: Byte := 0x00
  const KEY_ILLEGAL_REQUEST: Byte := 0x05

  const ASENSE_NONE: Byte := 0x00
  const ASENSE_INVALID_COMMAND: Byte := 0x20
  const ASENSE_LBA_OUT_OF_RANGE: Byte := 0x21
  const ASENSE_INVALID_FIELD_IN_CDB: Byte := 0x24

  const SENSE_SIZE: nat := 18

  // ----- decoding

  datatype Transfer = Transfer(lba: nat, cnt: nat)

  /** The address range of a transfer: two big-endian numbers in the command. */
  function Requested(cmd: seq<Byte>): (q: Transfer)
    requires |cmd| >= 10
    ensures q.lba < TWO32 && q.cnt < 0x1_0000
  {
    RequestedBounds(cmd);
    Transfer(BigEndian(cmd[2..6]), BigEndian(cmd[7..9]))
  }

  lemma RequestedBounds(cmd: seq<Byte>)
    requires |cmd| >= 10
    ensures BigEndian(cmd[2..6]) < TWO32 && BigEndian(cmd[7..9]) < 0x1_0000
  {
    hide BigEndian, Reversed, Swap16, Swap32, LoadLittle;
    Swap32Reverses(cmd[2..6]);
    Swap16Reverses(cmd[7..9]);
    LoadWords(Reversed(cmd[2..6]));
    LoadWords(Reversed(cmd[7..9]));
  }

  /** `decode_data_request`: bytes 2..5 and 7..8 are loaded as little-endian words and swapped. */
  function Decode(cmd: seq<Byte>): (q: Transfer)
    requires |cmd| >= 10
    ensures q == Requested(cmd)
  {
    Swap32Reverses(cmd[2..6]);
    Swap16Reverses(cmd[7..9]);
    Transfer(Swap32(LoadLittle(cmd[2..6])), Swap16(LoadLittle(cmd[7..9])))
  }

  // ----- sense data

  function SenseData(key: Byte, code: Byte, qual: Byte): (s: seq<Byte>)
    ensures |s| == SENSE_SIZE && s[2] == key && s[12] == code && s[13] == qual
    ensures key < 16 ==> WellFormedSense(s)
  {
    seq(SENSE_SIZE, _ => 0)[0 := 0x70][2 := key][7 := 8][12 := code][13 := qual]
  }

  /**
   Fixed-format sense data of section 4.5.3 of SPC-3: current error, a sense
   key, an additional length that covers the sense code and its qualifier, and
   zero everywhere else.
   */
  predicate WellFormedSense(s: seq<Byte>) {
    && |s| == SENSE_SIZE
    && s[0] == 0x70
    && s[2] < 16
    && 13 < 8 + s[7] <= SENSE_SIZE
    && forall i :: 0 <= i < SENSE_SIZE && i != 0 && i != 2 && i != 7 && i != 12 && i != 13 ==> s[i] == 0
  }

  /** The additional length counts two bytes fewer than are sent; the standard has 10 for 18 bytes. */
  lemma SenseLengthShort(key: Byte, code: Byte, qual: Byte)
    ensures var s := SenseData(key, code, qual);
            s[7] != 10 && 8 + s[7] + 2 == |s| && 8 + 10 == |s|
  {
  }

  // ----- responses

  function StoreBig32(x: nat): (b: seq<Byte>)
    requires x < TWO32
    ensures |b| == 4
  {
    StoreLittle(Swap32(x), 4)
  }

  /** READ CAPACITY (10): the last block address wraps around on an empty device. */
  function Capacity(blkNum: nat, blkSize: nat): seq<Byte>
    requires blkNum < TWO32 && blkSize < TWO32
  {
    StoreBig32((blkNum - 1) % TWO32) + StoreBig32(blkSize)
  }

  function FormatCapacities(blkNum: nat, blkSize: nat, junk: seq<Byte>): seq<Byte>
    requires blkNum < TWO32 && |junk| == 3
  {
    var len := blkSize % 0x1_0000;
    junk + [8] + StoreBig32(blkNum) + [2, 0, len / 256, len % 256]
  }

  lemma FourBytes(x: nat) returns (b: seq<Byte>)
    requires x < TWO32
    ensures |b| == 4 && x == Word32(b[0], b[1], b[2], b[3])
  {
    hide LoadLittle, StoreLittle;
    b := StoreLittle(x, 4);
    LoadFour(x);
    LoadWords(b);
  }

  lemma SwapTwice(x: nat)
    requires x < TWO32
    ensures Swap32(x) < TWO32 && Swap32(Swap32(x)) == x
  {
    hide Swap32, Word32;
    var b := FourBytes(x);
    Digits32(b[0], b[1], b[2], b[3]);
    Digits32(b[3], b[2], b[1], b[0]);
  }

  /** A word stored for the wire reads back with its most significant byte first. */
  lemma StoreBigReads(x: nat)
    requires x < TWO32
    ensures BigEndian(StoreBig32(x)) == x
  {
    SwapTwice(x);
    LoadFour(Swap32(x));
    hide Swap32, LoadLittle, StoreLittle, BigEndian, Reversed;
    Swap32Reverses(StoreLittle(Swap32(x), 4));
  }

  lemma LoadFour(x: nat)
    requires x < TWO32
    ensures LoadLittle(StoreLittle(x, 4)) == x
  {
    assert Power256(1) == 256 && Power256(2) == 0x1_0000;
    assert Power256(3) == 0x100_0000;
    assert Power256(4) == TWO32;
    hide LoadLittle, StoreLittle, Power256;
    LoadStore(x, 4);
  }

  /** The host learns the last block address and the block size; on an empty device the address is wrong. */
  lemma CapacityReads(blkNum: nat, blkSize: nat)
    requires blkNum < TWO32 && blkSize < TWO32
    ensures |Capacity(blkNum, blkSize)| == 8
    ensures BigEndian(Capacity(blkNum, blkSize)[..4]) + 1 == blkNum <==> blkNum > 0
    ensures BigEndian(Capacity(blkNum, blkSize)[4..]) == blkSize
  {
    hide Swap32, StoreLittle, BigEndian;
    StoreBigReads((blkNum - 1) % TWO32);
    StoreBigReads(blkSize);
    var c := Capacity(blkNum, blkSize);
    assert c[..4] == StoreBig32((blkNum - 1) % TWO32) && c[4..] == StoreBig32(blkSize);
  }

  /** What the host reads from the reply: list length, block count, descriptor type and block size. */
  lemma FormatCapacitiesReads(blkNum: nat, blkSize: nat, junk: seq<Byte>)
    requires blkNum < TWO32 && |junk| == 3
    ensures var f := FormatCapacities(blkNum, blkSize, junk);
            && |f| == 12 && f[..3] == junk && f[3] == 8
            && BigEndian(f[4..8]) == blkNum
            && f[8] == 2
            && BigEndian(f[9..12]) == blkSize % 0x1_0000
  {
    hide Swap32, StoreLittle, BigEndian;
    StoreBigReads(blkNum);
    var f := FormatCapacities(blkNum, blkSize, junk);
    assert f[4..8] == StoreBig32(blkNum);
    var len := blkSize % 0x1_0000;
    assert f[9..12] == [0, len / 256, len % 256];
    BigEndianThree(0, len / 256, len % 256);
  }

  lemma BigEndianThree(a: Byte, b: Byte, c: Byte)
    ensures BigEndian([a, b, c]) == 0x1_0000 * a + 0x100 * b + c
  {
    assert [a, b, c][..2] == [a, b] && [a, b][..1] == [a] && [a][..0] == [];
    assert BigEndian([a]) == a;
    assert BigEndian([a, b]) == 256 * BigEndian([a]) + b;
  }

  /** The fields of a transfer, byte by byte. */
  lemma RequestedIs(cmd: seq<Byte>)
    requires |cmd| >= 10
    ensures Requested(cmd).lba == Word32(cmd[5], cmd[4], cmd[3], cmd[2])
    ensures Requested(cmd).cnt == Word16(cmd[8], cmd[7])
  {
    hide BigEndian;
    var a, b := cmd[2..6], cmd[7..9];
    assert a[..3] == [cmd[2], cmd[3], cmd[4]] && a[3] == cmd[5];
    assert b == [cmd[7], cmd[8]];
    BigEndianThree(cmd[2], cmd[3], cmd[4]);
    BigEndianLast(a);
    BigEndianTwo(cmd[7], cmd[8]);
  }

  lemma BigEndianLast(b: seq<Byte>)
    requires b != []
    ensures BigEndian(b) == 256 * BigEndian(b[..|b| - 1]) + b[|b| - 1]
  {
  }

  lemma BigEndianTwo(a: Byte, b: Byte)
    ensures BigEndian([a, b]) == 0x100 * a + b
  {
    assert [a, b][..1] == [a] && [a][..0] == [];
    assert BigEndian([a]) == a;
  }

  /**
   A transfer is refused exactly when it passes the capacity that READ
   CAPACITY reports, unless the 32-bit sum of its address and count wraps
   around to a number of blocks that the device has.
   */
  lemma RefusedExactly(q: Transfer, blkNum: nat, blkSize: nat)
    requires 0 < blkNum < TWO32 && blkSize < TWO32 && q.lba < TWO32 && q.cnt < 0x1_0000
    ensures |Capacity(blkNum, blkSize)| == 8
    ensures var last := BigEndian(Capacity(blkNum, blkSize)[..4]);
            (Add32(q.lba, q.cnt) > blkNum <==> q.lba + q.cnt > last + 1)
            <==> !(q.lba + q.cnt >= TWO32 && q.lba + q.cnt - TWO32 <= blkNum)
  {
    hide Capacity, BigEndian;
    CapacityReads(blkNum, blkSize);
  }

  /** One block at the highest address is such a transfer, on every device. */
  lemma WrongAcceptance(blkNum: nat)
    requires 0 < blkNum < TWO32 - 1
    ensures !(Add32(0xFFFF_FFFF, 1) > blkNum) && 0xFFFF_FFFF + 1 > blkNum
  {
  }

  /** What the replies depend on. */
  datatype Unit = Unit(blkNum: nat, blkSize: nat, protected: bool, inquiry: seq<Byte>)

  /** The bytes that a command other than a transfer answers with. */
  function Reply(u: Unit, cmd: seq<Byte>, unwritten: seq<Byte>): seq<Byte>
    requires |cmd| >= 10 && |unwritten| == 3
  {
    if cmd[0] == INQUIRY then u.inquiry
    else if cmd[0] == REQUEST_SENSE then SenseData(KEY_GOOD, ASENSE_NONE, 0)
    else if cmd[0] == READ_CAPACITY_10 then Capacity(u.blkNum % TWO32, u.blkSize % TWO32)
    else if cmd[0] == MODE_SENSE_6 then [3, 0, if u.protected then 0x80 else 0, 0]
    else if cmd[0] == READ_FORMAT_CAPACITIES && !(cmd[7] == 0 && cmd[8] == 0) then
      FormatCapacities(u.blkNum % TWO32, u.blkSize, unwritten)
    else []
  }

  /** The additional sense code of a refused command: invalid field, address out of range, invalid command. */
  function RefusalCode(cmd: seq<Byte>): Byte
    requires |cmd| >= 10
  {
    if cmd[0] == 0x12 || cmd[0] == 0x03 then 0x24
    else if cmd[0] == 0x28 || cmd[0] == 0x2A then 0x21
    else 0x20
  }

  /** The commands that end with ILLEGAL REQUEST. */
  predicate Illegal(u: Unit, cmd: seq<Byte>, unwritten: Byte)
    requires |cmd| >= 10
  {
    if cmd[0] == INQUIRY then cmd[1] % 4 != 0 || cmd[2] != 0
    else if cmd[0] == REQUEST_SENSE then
      cmd[1] != 0 || cmd[2] != 0 || cmd[3] != 0 || unwritten != 0 || cmd[4] != SENSE_SIZE
    else if cmd[0] in {READ_10, WRITE_10} then Add32(Requested(cmd).lba, Requested(cmd).cnt) > u.blkNum
    else cmd[0] !in {READ_CAPACITY_10, MODE_SENSE_6, READ_FORMAT_CAPACITIES,
                     TEST_UNIT_READY, PREVENT_ALLOW_MEDIUM_REMOVAL, VERIFY_10}
  }

  // ----- the transport

  /** The channel to the host.  A reliable one moves everything it is asked to move. */
  class Transport {
    const reliable: bool
    var sent: seq<Byte>
    var incoming: seq<Byte>

    method Transmit(data: seq<Byte>) returns (n: nat)
      modifies this`sent
      ensures n <= |data| && sent == old(sent) + data[..n]
      ensures reliable ==> n == |data|
    {
      if reliable {
        n := |data|;
      } else {
        n :| 0 <= n <= |data|;
      }
      sent := sent + data[..n];
    }

    method Receive(buf: array<Byte>, len: nat) returns (n: nat)
      requires len <= buf.Length
      modifies this`incoming, buf
      ensures n <= len && n <= |old(incoming)|
      ensures buf[..n] == old(incoming)[..n] && buf[n..] == old(buf[n..])
      ensures incoming == old(incoming)[n..]
      ensures reliable && len <= |old(incoming)| ==> n == len
    {
      var most := if len <= |incoming| then len else |incoming|;
      if reliable {
        n := most;
      } else {
        n :| 0 <= n <= most;
      }
      var source := incoming;
      incoming := incoming[n..];
      var i := 0;
      while i < n
        invariant 0 <= i <= n
        invariant buf[..i] == source[..i] && buf[n..] == old(buf[n..])
        invariant incoming == source[n..]
      {
        buf[i] := source[i];
        assert buf[..i] == source[..i];
        i := i + 1;
      }
    }
  }

  // ----- the simple view of READ (10) and WRITE (10)

  function Flat(d: seq<Block>): seq<Byte> {
    if d == [] then [] else Flat(d[..|d| - 1]) + d[|d| - 1]
  }

  lemma FlatAppend(d: seq<Block>, b: Block)
    ensures Flat(d + [b]) == Flat(d) + b
  {
    assert (d + [b])[..|d|] == d;
  }

  /** All blocks but the `cnt` from `lba` on are the same. */
  predicate SameOutside(d: seq<Block>, e: seq<Block>, lba: nat, cnt: nat) {
    |d| == |e| && forall k :: 0 <= k < |d| && !(lba <= k < lba + cnt) ==> d[k] == e[k]
  }

  lemma SameOutsideNext(d: seq<Block>, e: seq<Block>, f: seq<Block>, lba: nat, cnt: nat)
    requires SameOutside(d, e, lba, cnt) && |e| == |f|
    requires f == if lba + cnt < |e| then e[lba + cnt := f[lba + cnt]] else e
    ensures SameOutside(d, f, lba, cnt + 1)
  {
  }

  /** The first `n` blocks of a byte stream. */
  function FirstBlocks(s: seq<Byte>, bs: nat, n: nat): (d: seq<Block>)
    requires n * bs <= |s|
    ensures |d| == n && forall k :: 0 <= k < n ==> |d[k]| == bs
  {
    BlocksOf(s[..n * bs], bs, n)
  }

  lemma FirstBlocksNext(s: seq<Byte>, bs: nat, n: nat)
    requires n * bs + bs <= |s|
    ensures n * bs + bs == (n + 1) * bs
    ensures FirstBlocks(s, bs, n + 1) == FirstBlocks(s, bs, n) + [s[n * bs..n * bs + bs]]
  {
    MulStep(n, bs);
    var t, u := s[..(n + 1) * bs], s[..n * bs];
    MulOrder(n, n + 1, bs);
    assert u == t[0..n * bs];
    assert 0 * bs == 0;
    BlocksCopied(t, u, bs, n + 1, 0, n);
    assert BlocksOf(t, bs, n + 1)[n] == t[n * bs..(n + 1) * bs] == s[n * bs..n * bs + bs];
  }
}
