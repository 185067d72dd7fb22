/**
 Whole transfers of the bootloader client (`stm32loader.py`): what writing an
 image leaves in the device, and that reading gives it back.
 */
module LoaderRuns {
  import opened Basics
  import opened Bswap
  import opened Bootloader
  import opened Loader

  lemma WrittenTwice(m: seq<Byte>, at: nat, x: seq<Byte>, y: seq<Byte>)
    requires at + |x| + |y| <= |m|
    ensures Written(Written(m, at, x), at + |x|, y) == Written(m, at, x + y)
  {
    var l, r := Written(Written(m, at, x), at + |x|, y), Written(m, at, x + y);
    assert Written(m, at, x)[..at + |x|] == m[..at] + x;
    assert Written(m, at, x)[at + |x| + |y|..] == m[at + |x| + |y|..];
    assert l == m[..at] + x + y + m[at + |x| + |y|..];
    assert r == m[..at] + (x + y) + m[at + |x| + |y|..];
  }

  lemma WrittenAll(m: seq<Byte>, at: nat, x: seq<Byte>)
    requires at + |x| <= |m|
    ensures Written(m, at, x)[..at] == m[..at]
    ensures Written(m, at, x)[at..at + |x|] == x
    ensures Written(m, at, x)[at + |x|..] == m[at + |x|..]
  {
  }

  predicate Addressable(d: Device) {
    d.base + |d.memory| <= TWO32
  }

  /**
   Below 2^32, blocks are accepted exactly when they are all within the memory
   of the device, and then they are in place and nothing else has changed.
   */
  lemma {:induction false} ProgramsExactly(d: Device, addr: nat, data: seq<Byte>)
    requires Addressable(d) && |data| % 256 == 0 && data != [] && addr + |data| <= TWO32
    ensures Programs(d, addr, data) <==> d.Within(addr, |data|)
    ensures d.Within(addr, |data|) ==> Programmed(d, addr, data) == d.(memory := Written(d.memory, addr - d.base, data))
    decreases |data|
  {
    hide Programs, Programmed, Written;
    if |data| == 256 {
      ProgramLast(d, addr, data);
    } else {
      ProgramStep(d, addr, data);
      if d.Within(addr, 256) {
        var e := d.(memory := Written(d.memory, addr - d.base, data[..256]));
        ProgramsExactly(e, addr + 256, data[256..]);
        if d.Within(addr, |data|) {
          WrittenTwice(d.memory, addr - d.base, data[..256], data[256..]);
          assert data[..256] + data[256..] == data;
        }
      }
    }
  }

  /** Below 2^32, reading gives the bytes of the device, exactly when they are all within its memory. */
  lemma {:induction false} ReadoutExactly(d: Device, addr: nat, lng: nat)
    requires Addressable(d) && lng > 0 && addr + lng <= TWO32
    ensures Readout(d, addr, lng) == if d.Within(addr, lng) then Ok(d.memory[addr - d.base..addr - d.base + lng])
            else Err(Nack)
    decreases lng
  {
    hide Readout;
    ReadoutStep(d, addr, lng);
    if lng > 256 {
      ReadoutExactly(d, addr + 256, lng - 256);
      if d.Within(addr, lng) {
        var at := addr - d.base;
        assert d.memory[at..at + 256] + d.memory[at + 256..at + lng] == d.memory[at..at + lng];
      }
    }
  }

  /** What is read from where an image was written is the image. */
  lemma ImageReadBack(d: Device, addr: nat, data: seq<Byte>)
    requires Addressable(d) && data != [] && addr + |PaddedImage(data)| <= TWO32 && d.Within(addr, |PaddedImage(data)|)
    ensures Readout(Programmed(d, addr, PaddedImage(data)), addr, |data|) == Ok(data)
  {
    hide Programmed, Readout, PaddedImage, Written;
    var image := PaddedImage(data);
    ProgramsExactly(d, addr, image);
    var e := Programmed(d, addr, image);
    ReadoutExactly(e, addr, |data|);
    WrittenAll(d.memory, addr - d.base, image);
    var at := addr - d.base;
    assert e.memory[at..at + |data|] == e.memory[at..at + |image|][..|data|];
  }

  /**
   Programs the image, reads as many bytes back and compares, as the script
   does when asked to write and verify. An empty image leaves 256 bytes unread.
   */
  method WriteAndVerify(cmd: CommandInterface, addr: nat, data: seq<Byte>) returns (r: Result<bool>)
    requires cmd.sp.dev.Idle() && Addressable(cmd.sp.dev) && addr + |PaddedImage(data)| <= TWO32
    modifies cmd.sp
    ensures r.Ok? <==> old(cmd.sp.dev).Within(addr, |PaddedImage(data)|)
    ensures r.Ok? ==>
              && r.value
              && var d := old(cmd.sp.dev);
              cmd.sp.dev == d.(memory := Written(d.memory, addr - d.base, PaddedImage(data)),
                               out := if data == [] then PaddedImage(data) else [])
  {
    hide Programmed, Programs, Readout, PaddedImage, Written;
    ghost var d, image := cmd.sp.dev, PaddedImage(data);
    ProgramsExactly(d, addr, image);
    if d.Within(addr, |image|) {
      WrittenAll(d.memory, addr - d.base, image);
      if data != [] {
        ImageReadBack(d, addr, data);
      }
    }
    var w := cmd.WriteMemory(addr, data);
    if w.Err? {
      return Err(w.error);
    }
    var verify := cmd.ReadMemory(addr, |data|);
    return match verify
      case Ok(read) => Ok(data == read)
      case Err(e) => Err(e);
  }
}
