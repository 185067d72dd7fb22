/**
 The bootloader client (`stm32loader.py`): commands, and transfers in blocks
 of 256 bytes, against the device model.
 */
module Loader {
  import opened Basics
  import opened Bswap
  import opened Bootloader

  const BLOCK: nat := 256

  datatype Error = Nack | UnknownResponse | TimedOut
  datatype Result<T> = Ok(value: T) | Err(error: Error)

  /** The serial port, the device behind it, and all bytes sent to it. */
  class Port {
    var dev: Device
    var wire: seq<Byte>

    constructor (dev: Device)
      ensures this.dev == dev && wire == []
    {
      this.dev, wire := dev, [];
    }

    method Write(s: seq<Byte>)
      modifies this
      ensures dev == FeedAll(old(dev), s) && wire == old(wire) + s
    {
      dev, wire := FeedAll(dev, s), wire + s;
    }

    /** At most `n` bytes; fewer when the read times out. */
    method Read(n: nat) returns (s: seq<Byte>)
      modifies this`dev
      ensures var k := if n <= |old(dev).out| then n else |old(dev).out|;
              s == old(dev).out[..k] && dev == old(dev).(out := old(dev).out[k..])
    {
      var k := if n <= |dev.out| then n else |dev.out|;
      s := dev.out[..k];
      dev := dev.(out := dev.out[k..]);
    }
  }

  // ----- addresses

  /** `_encode_addr`: the low 32 bits, most significant byte first, and their checksum. */
  function EncodeAddr(addr: nat): (r: seq<Byte>)
    ensures |r| == 5
    ensures BigEndian(r[..4]) == addr % TWO32
    ensures r[4] == XorAll(r[..4])
  {
    var r := AddressBytes(addr);
    AddressReads(addr);
    var crc := Xor(Xor(Xor(r[0], r[1]), r[2]), r[3]);
    XorFour(r);
    r + [crc]
  }

  function AddressBytes(addr: nat): (r: seq<Byte>)
    ensures |r| == 4
  {
    [addr / 0x100_0000 % 256, addr / 0x1_0000 % 256, addr / 0x100 % 256, addr % 256]
  }

  lemma Prefixes(r: seq<Byte>)
    requires |r| == 4
    ensures r[..0] == [] && r[..0] + [r[0]] == r[..1] && r[..1] + [r[1]] == r[..2] && r[..2] + [r[2]] == r[..3] &&
            r[..3] + [r[3]] == r
  {
  }

  lemma XorAllOne(s: seq<Byte>, b: Byte)
    ensures XorAll(s + [b]) == Xor(XorAll(s), b) && XorAll([]) == 0
  {
    hide Xor;
    assert (s + [b])[..|s|] == s;
  }

  lemma BigEndianOne(s: seq<Byte>, b: Byte)
    ensures BigEndian(s + [b]) == 256 * BigEndian(s) + b && BigEndian([]) == 0
  {
    assert (s + [b])[..|s|] == s;
  }

  lemma XorFour(r: seq<Byte>)
    requires |r| == 4
    ensures XorAll(r) == Xor(Xor(Xor(r[0], r[1]), r[2]), r[3])
  {
    hide Xor;
    XorAllOne(r[..0], r[0]);
    XorAllOne(r[..1], r[1]);
    XorAllOne(r[..2], r[2]);
    XorAllOne(r[..3], r[3]);
    Prefixes(r);
    XorZero(r[0]);
  }

  lemma AddressReads(addr: nat)
    ensures BigEndian(AddressBytes(addr)) == addr % TWO32
  {
    hide BigEndian;
    var r := AddressBytes(addr);
    BigEndianOne(r[..0], r[0]);
    BigEndianOne(r[..1], r[1]);
    BigEndianOne(r[..2], r[2]);
    BigEndianOne(r[..3], r[3]);
    Prefixes(r);
    AddressSplit(addr);
  }

  lemma AddressSplit(addr: nat)
    ensures 256 * (256 * (256 * (addr / 0x100_0000 % 256) + addr / 0x1_0000 % 256) + addr / 0x100 % 256) + addr % 256
         == addr % TWO32
  {
    DivTwice(addr, 0x100, 0x100);
    DivTwice(addr, 0x1_0000, 0x100);
    DivTwice(addr, 0x100_0000, 0x100);
  }

  // ----- transfers

  function Fill(n: nat): (r: seq<Byte>)
    ensures |r| == n && forall i :: 0 <= i < n ==> r[i] == 0xFF
  {
    seq(n, _ => 0xFF)
  }

  /** The image filled up to a whole number of blocks, at least one. */
  function PaddedImage(data: seq<Byte>): (r: seq<Byte>)
    ensures |r| % 256 == 0 && 0 < |r| && |data| <= |r| <= |data| + 256 && r[..|data|] == data
    ensures |r| == |data| + 256 ==> data == []
    ensures forall i :: |data| <= i < |r| ==> r[i] == 0xFF
  {
    data + Fill(if data == [] then 256 else (256 - |data| % 256) % 256)
  }

  /** Every block of the data fits in the memory of the device; the device sees the low 32 bits of an address. */
  predicate Programs(d: Device, addr: nat, data: seq<Byte>)
    requires |data| % 256 == 0
    decreases |data|
  {
    data == [] || (d.Within(addr % TWO32, 256) && Programs(d, addr + 256, data[256..]))
  }

  /** The device after the blocks before the first that does not fit. */
  function Programmed(d: Device, addr: nat, data: seq<Byte>): Device
    requires |data| % 256 == 0
    decreases |data|
  {
    if data == [] || !d.Within(addr % TWO32, 256) then d
    else Programmed(d.(memory := Written(d.memory, addr % TWO32 - d.base, data[..256])), addr + 256, data[256..])
  }

  /** What reading in blocks gives. */
  function Readout(d: Device, addr: nat, lng: nat): Result<seq<Byte>>
    decreases lng
  {
    var a := addr % TWO32;
    var n := if lng > 256 then 256 else lng;
    if !d.Within(a, n) then Err(Nack)
    else
      var first := d.memory[a - d.base..a - d.base + n];
      if lng <= 256 then Ok(first) else Behind(first, Readout(d, addr + 256, lng - 256))
  }

  /** Data in front of a result. */
  function Behind(data: seq<Byte>, r: Result<seq<Byte>>): Result<seq<Byte>> {
    if r.Ok? then Ok(data + r.value) else r
  }

  lemma NothingBefore(r: Result<seq<Byte>>)
    ensures Behind([], r) == r
  {
    if r.Ok? {
      assert [] + r.value == r.value;
    }
  }

  lemma BehindTwice(x: seq<Byte>, y: seq<Byte>, r: Result<seq<Byte>>)
    ensures Behind(x, Behind(y, r)) == Behind(x + y, r)
  {
    if r.Ok? {
      assert x + (y + r.value) == x + y + r.value;
    }
  }

  lemma ReadoutStep(d: Device, addr: nat, lng: nat)
    ensures var a := addr % TWO32;
            var n := if lng > 256 then 256 else lng;
            if !d.Within(a, n) then Readout(d, addr, lng) == Err(Nack)
            else
              var first := d.memory[a - d.base..a - d.base + n];
              Readout(d, addr, lng) == if lng <= 256 then Ok(first)
                  else Behind(first, Readout(d, addr + 256, lng - 256))
  {
  }

  lemma ProgramLast(d: Device, addr: nat, block: seq<Byte>)
    requires |block| == 256
    ensures var a := addr % TWO32;
            && Programs(d, addr, block) == d.Within(a, 256)
            && Programmed(d, addr, block)
               == if d.Within(a, 256) then d.(memory := Written(d.memory, a - d.base, block)) else d
  {
    assert block[256..] == [] && block[..256] == block;
  }

  /** The first block. */
  lemma ProgramStep(d: Device, addr: nat, data: seq<Byte>)
    requires data != [] && |data| % 256 == 0
    ensures var a := addr % TWO32;
            if !d.Within(a, 256) then !Programs(d, addr, data) && Programmed(d, addr, data) == d
            else
              var e := d.(memory := Written(d.memory, a - d.base, data[..256]));
              && Programs(d, addr, data) == Programs(e, addr + 256, data[256..])
              && Programmed(d, addr, data) == Programmed(e, addr + 256, data[256..])
  {
    hide Programmed;
    var a := addr % TWO32;
    if d.Within(a, 256) {
      SameSize(d, d.(memory := Written(d.memory, a - d.base, data[..256])), addr + 256, data[256..]);
    }
    ProgrammedStep(d, addr, data);
  }

  lemma ProgrammedStep(d: Device, addr: nat, data: seq<Byte>)
    requires data != [] && |data| % 256 == 0
    ensures var a := addr % TWO32;
            Programmed(d, addr, data) == if !d.Within(a, 256) then d
              else Programmed(d.(memory := Written(d.memory, a - d.base, data[..256])), addr + 256, data[256..])
  {
  }

  /** Whether the blocks fit depends only on the place and the size of the memory. */
  lemma {:induction false} SameSize(d: Device, e: Device, addr: nat, data: seq<Byte>)
    requires |data| % 256 == 0 && d.base == e.base && |d.memory| == |e.memory|
    ensures Programs(d, addr, data) == Programs(e, addr, data)
    decreases |data|
  {
    if data != [] {
      SameSize(d, e, addr + 256, data[256..]);
    }
  }

  lemma PaddedImageIs(data: seq<Byte>)
    ensures PaddedImage(data) == data + Fill(|PaddedImage(data)| - |data|)
  {
  }

  lemma NextBlock(data: seq<Byte>, offs: nat)
    requires offs + 256 < |data| && offs % 256 == 0
    ensures var image := PaddedImage(data);
            && offs + 256 < |image| && |image[offs..]| % 256 == 0 && |image[offs + 256..]| % 256 == 0
            && image[offs..][..256] == data[offs..offs + 256] && image[offs..][256..] == image[offs + 256..]
  {
    hide PaddedImage;
    var image := PaddedImage(data);
    assert forall i :: 0 <= i < |data| ==> image[i] == image[..|data|][i];
  }

  lemma LastBlock(data: seq<Byte>, offs: nat)
    requires offs <= |data| <= offs + 256 && offs % 256 == 0 && (offs < |data| || data == [])
    ensures var image := PaddedImage(data);
            && |image| == offs + 256
            && image[offs..] == data[offs..] + Fill(256 - |data[offs..]|)
            && image[offs..][..256] == image[offs..] && image[offs..][256..] == []
  {
    hide PaddedImage;
    var image := PaddedImage(data);
    LastLength(|data|, offs, |image|);
    PaddedImageIs(data);
  }

  lemma LastLength(n: nat, offs: nat, size: nat)
    requires offs <= n <= offs + 256 && offs % 256 == 0 && (offs < n || n == 0)
    requires size % 256 == 0 && 0 < size && n <= size <= n + 256 && (size == n + 256 ==> n == 0)
    ensures size == offs + 256
  {
  }

  // ----- commands

  /** The bytes of a read command, up to the refusal of its address. */
  function ReadFrame(addr: nat, lng: nat, known: bool): seq<Byte> {
    [0x11, 0xEE] + EncodeAddr(addr) + if known then [(lng - 1) % 256, 255 - (lng - 1) % 256] else []
  }

  /** The bytes of a write command, up to the refusal of its address. */
  function WriteFrame(addr: nat, data: seq<Byte>, known: bool): seq<Byte> {
    [0x31, 0xCE] + EncodeAddr(addr)
    + if known then [(|data| - 1) % 256] + data + [Xor(0xFF, XorAll(data))] else []
  }

  lemma Assemble(w: seq<Byte>, a: seq<Byte>, b: seq<Byte>, c: seq<Byte>)
    ensures w + a + b + c == w + (a + b + c)
  {
  }

  lemma AssembleRead(w: seq<Byte>, addr: seq<Byte>, tail: seq<Byte>)
    ensures w + [0x11, 0xEE] + addr + tail == w + ([0x11, 0xEE] + addr + tail)
    ensures w + [0x11, 0xEE] + addr == w + ([0x11, 0xEE] + addr + [])
  {
  }

  lemma AssembleWrite(w: seq<Byte>, addr: seq<Byte>, tail: seq<Byte>)
    ensures w + [0x31, 0xCE] + addr + tail == w + ([0x31, 0xCE] + addr + tail)
    ensures w + [0x31, 0xCE] + addr == w + ([0x31, 0xCE] + addr + [])
  {
  }

  class CommandInterface {
    const sp: Port

    constructor (sp: Port)
      ensures this.sp == sp
    {
      this.sp := sp;
    }

    /** `_wait_for_ask` */
    method WaitForAsk() returns (r: Result<()>)
      modifies sp`dev
      ensures old(sp.dev).out == [] ==> r == Err(TimedOut) && sp.dev == old(sp.dev)
      ensures old(sp.dev).out != [] ==>
                && sp.dev == old(sp.dev).(out := old(sp.dev).out[1..])
                && var b := old(sp.dev).out[0];
                r == if b == 0x79 then Ok(()) else if b == 0x1F then Err(Nack) else Err(UnknownResponse)
    {
      var s := sp.Read(1);
      if s == [] {
        return Err(TimedOut);
      }
      var ask := s[0];
      if ask == ACK {
        return Ok(());
      }
      return Err(if ask == NACK then Nack else UnknownResponse);
    }

    /** `cmdGeneric` */
    method CmdGeneric(cmd: Byte) returns (r: Result<()>)
      requires sp.dev.Idle()
      modifies sp
      ensures cmd == READ_MEMORY || cmd == WRITE_MEMORY ==>
              r == Ok(()) && sp.dev == old(sp.dev).(phase := Address(cmd, []))
      ensures cmd != READ_MEMORY && cmd != WRITE_MEMORY ==> r == Err(Nack) && sp.dev == old(sp.dev)
      ensures sp.wire == old(sp.wire) + [cmd, 255 - cmd]
    {
      hide Xor, FeedAll;
      XorComplement(cmd);
      FeedOne(sp.dev, cmd);
      sp.Write([cmd]);
      var control := Xor(cmd, 0xFF);
      ComplementAccepted(cmd);
      FeedOne(sp.dev, control);
      sp.Write([control]);
      r := WaitForAsk();
    }

    /** The address frame of a command, and its answer. */
    method SendAddress(cmd: Byte, addr: nat) returns (r: Result<()>)
      requires sp.dev.phase == Address(cmd, []) && sp.dev.out == []
      modifies sp
      ensures if old(sp.dev).Within(addr % TWO32, 1) then
                && r == Ok(())
                && var a := addr % TWO32;
                sp.dev == old(sp.dev).(phase := if cmd == READ_MEMORY then Count(a) else Length(a))
              else
                r == Err(Nack) && sp.dev == old(sp.dev).(phase := Command)
      ensures sp.wire == old(sp.wire) + EncodeAddr(addr)
    {
      hide FeedAll, XorAll, BigEndian, EncodeAddr;
      AddressFed(sp.dev, cmd, EncodeAddr(addr));
      sp.Write(EncodeAddr(addr));
      r := WaitForAsk();
    }

    /** `cmdReadMemory`; a length of 0 asks the device for 256 bytes and leaves them unread. */
    method CmdReadMemory(addr: nat, lng: nat) returns (r: Result<seq<Byte>>)
      requires sp.dev.Idle() && lng <= BLOCK
      modifies sp
      ensures var d := old(sp.dev);
              var a := addr % TWO32;
              var n := if lng == 0 then BLOCK else lng;
              if !d.Within(a, n) then r == Err(Nack) && sp.dev == d
              else if lng == 0 then r == Ok([]) && sp.dev == d.(out := d.memory[a - d.base..a - d.base + n])
              else r == Ok(d.memory[a - d.base..a - d.base + n]) && sp.dev == d
      ensures sp.wire == old(sp.wire) + ReadFrame(addr, lng, old(sp.dev).Within(addr % TWO32, 1))
    {
      hide FeedAll, Xor, EncodeAddr;
      AssembleRead(sp.wire, EncodeAddr(addr), [(lng - 1) % 256, 255 - (lng - 1) % 256]);
      var q := CmdGeneric(READ_MEMORY);
      q := SendAddress(READ_MEMORY, addr);
      if q.Err? {
        return Err(q.error);
      }
      var n: Byte := (lng - 1) % 256;
      q := SendCount(addr % TWO32, n);
      if q.Err? {
        return Err(q.error);
      }
      ghost var sent := sp.dev.out;
      assert sent[..|sent|] == sent && sent[|sent|..] == [];
      var data := sp.Read(lng);
      return Ok(data);
    }

    /** The length frame of the read command, and its answer. */
    method SendCount(ghost a: nat, n: Byte) returns (q: Result<()>)
      requires sp.dev.phase == Count(a) && sp.dev.out == []
      modifies sp
      ensures var d := old(sp.dev);
              if d.Within(a, n + 1) then
                q == Ok(()) && sp.dev == d.(phase := Command, out := d.memory[a - d.base..a - d.base + n + 1])
              else q == Err(Nack) && sp.dev == d.(phase := Command)
      ensures sp.wire == old(sp.wire) + [n, 255 - n]
    {
      hide FeedAll, Xor;
      XorComplement(n);
      var crc := Xor(n, 0xFF);
      ComplementAccepted(n);
      FeedTwo(sp.dev, n, crc);
      sp.Write([n, crc]);
      q := WaitForAsk();
    }

    /**
     `cmdWriteMemory`. The checksum starts from 0xFF instead of from the length, so
     that only a block of exactly 256 bytes is accepted.
     */
    method CmdWriteMemory(addr: nat, data: seq<Byte>) returns (r: Result<()>)
      requires sp.dev.Idle() && |data| <= BLOCK
      modifies sp
      ensures var d := old(sp.dev);
              var a := addr % TWO32;
              if !d.Within(a, 1) then r == Err(Nack) && sp.dev == d
              else if data == [] then r == Err(TimedOut) && sp.dev == d.(phase := Data(a, 0xFF, [0xFF]))
              else if |data| == BLOCK && d.Within(a, BLOCK) then
                r == Ok(()) && sp.dev == d.(memory := Written(d.memory, a - d.base, data))
              else r == Err(Nack) && sp.dev == d
      ensures sp.wire == old(sp.wire) + WriteFrame(addr, data, old(sp.dev).Within(addr % TWO32, 1))
    {
      hide FeedAll, Xor, XorAll, EncodeAddr, Written;
      AssembleWrite(sp.wire, EncodeAddr(addr), [(|data| - 1) % 256] + data + [Xor(0xFF, XorAll(data))]);
      var q := CmdGeneric(WRITE_MEMORY);
      q := SendAddress(WRITE_MEMORY, addr);
      if q.Err? {
        return Err(q.error);
      }
      r := SendBlock(addr % TWO32, data);
    }

    /** Length, data and checksum of the write command, and its answer. */
    method SendBlock(ghost a: nat, data: seq<Byte>) returns (r: Result<()>)
      requires sp.dev.phase == Length(a) && sp.dev.out == [] && |data| <= BLOCK
      modifies sp
      ensures var d := old(sp.dev);
              if data == [] then r == Err(TimedOut) && sp.dev == d.(phase := Data(a, 0xFF, [0xFF]))
              else if |data| == BLOCK && d.Within(a, BLOCK) then
                r == Ok(()) && sp.dev == d.(phase := Command, memory := Written(d.memory, a - d.base, data))
              else r == Err(Nack) && sp.dev == d.(phase := Command)
      ensures sp.wire == old(sp.wire) + ([(|data| - 1) % 256] + data + [Xor(0xFF, XorAll(data))])
    {
      hide FeedAll, Xor, XorAll, Written;
      ghost var d := sp.dev;
      var lng: Byte := (|data| - 1) % 256;
      FeedOne(sp.dev, lng);
      sp.Write([lng]);
      ghost var w := sp.wire;
      var crc: Byte := 0xFF;
      var i := 0;
      XorNone();
      while i < |data|
        invariant 0 <= i <= |data|
        invariant sp.dev == d.(phase := Data(a, lng, data[..i]))
        invariant crc == Xor(0xFF, XorAll(data[..i]))
        invariant sp.wire == w + data[..i]
      {
        var c := data[i];
        XorNext(data, i);
        crc := Xor(crc, c);
        FeedOne(sp.dev, c);
        sp.Write([c]);
        assert data[..i] + [c] == data[..i + 1];
        i := i + 1;
      }
      assert data[..i] == data;
      XorInjective(lng, 0xFF, XorAll(data));
      assert data == [] ==> data + [crc] == [0xFF];
      FeedOne(sp.dev, crc);
      sp.Write([crc]);
      Assemble(old(sp.wire), [lng], data, [crc]);
      r := WaitForAsk();
    }

    /** `readMemory`: blocks of 256 bytes and a last one of 1 to 256, or of 0 when there is nothing to read. */
    method ReadMemory(addr: nat, lng: nat) returns (r: Result<seq<Byte>>)
      requires sp.dev.Idle()
      modifies sp
      ensures lng > 0 ==> sp.dev == old(sp.dev) && r == Readout(old(sp.dev), addr, lng)
      ensures lng == 0 ==>
                var d, a := old(sp.dev), addr % TWO32;
                if !d.Within(a, 256) then r == Err(Nack) && sp.dev == d
                else r == Ok([]) && sp.dev == d.(out := d.memory[a - d.base..a - d.base + 256])
    {
      hide Readout, ReadFrame;
      if lng == 0 {
        r := CmdReadMemory(addr, lng);
        return;
      }
      var a: nat, n: nat := addr, lng;
      var data := [];
      ghost var d := sp.dev;
      NothingBefore(Readout(d, addr, lng));
      while n > 256
        invariant 0 < n <= lng && sp.dev == d
        invariant Readout(d, addr, lng) == Behind(data, Readout(d, a, n))
      {
        ReadoutStep(d, a, n);
        var q := CmdReadMemory(a, 256);
        if q.Err? {
          return Err(q.error);
        }
        BehindTwice(data, q.value, Readout(d, a + 256, n - 256));
        data := data + q.value;
        a := a + 256;
        n := n - 256;
      }
      ReadoutStep(d, a, n);
      var q := CmdReadMemory(a, n);
      if q.Err? {
        return Err(q.error);
      }
      return Ok(data + q.value);
    }

    /** `writeMemory`: blocks of 256 bytes, the last one filled up with 0xFF. */
    method WriteMemory(addr: nat, data: seq<Byte>) returns (r: Result<()>)
      requires sp.dev.Idle()
      modifies sp
      ensures sp.dev == Programmed(old(sp.dev), addr, PaddedImage(data))
      ensures r == if Programs(old(sp.dev), addr, PaddedImage(data)) then Ok(()) else Err(Nack)
    {
      hide Programmed, Programs, PaddedImage, WriteFrame, Written;
      var lng := |data|;
      var offs: nat, a: nat := 0, addr;
      ghost var image := PaddedImage(data);
      PaddedImageIs(data);
      assert image[0..] == image;
      while lng > 256
        invariant 0 <= lng && offs + lng == |data| && (lng > 0 || data == [])
        invariant offs <= |image| && offs % 256 == 0 && sp.dev.Idle()
        invariant Programmed(sp.dev, a, image[offs..]) == Programmed(old(sp.dev), addr, image)
        invariant Programs(sp.dev, a, image[offs..]) == Programs(old(sp.dev), addr, image)
      {
        NextBlock(data, offs);
        ProgramStep(sp.dev, a, image[offs..]);
        r := CmdWriteMemory(a, data[offs..offs + 256]);
        if r.Err? {
          return;
        }
        offs := offs + 256;
        a := a + 256;
        lng := lng - 256;
      }
      LastBlock(data, offs);
      ProgramLast(sp.dev, a, image[offs..]);
      assert data[offs..offs + lng] == data[offs..];
      r := CmdWriteMemory(a, data[offs..offs + lng] + Fill(256 - lng));
    }
  }

  lemma FeedTwo(d: Device, a: Byte, b: Byte)
    ensures FeedAll(d, [a, b]) == Feed(Feed(d, a), b)
  {
    hide Feed, FeedAll;
    assert [a] + [b] == [a, b];
    FeedAppend(d, [a], b);
    FeedOne(d, a);
  }

  lemma XorNone()
    ensures Xor(0xFF, XorAll([])) == 0xFF
  {
    hide Xor;
    XorZero(0xFF);
  }

  lemma XorNext(data: seq<Byte>, i: nat)
    requires i < |data|
    ensures Xor(Xor(0xFF, XorAll(data[..i])), data[i]) == Xor(0xFF, XorAll(data[..i + 1]))
  {
    hide Xor, XorAll;
    XorAssociative(0xFF, XorAll(data[..i]), data[i]);
    XorAllOne(data[..i], data[i]);
    assert data[..i] + [data[i]] == data[..i + 1];
  }
}
