/**
 The SCSI target object: its handlers, its command interpreter, and what runs
 of commands do to the disk and send to the host.
 */
module ScsiTarget {
  import opened Basics
  import opened Bswap
  import opened RamDisk
  import opened Scsi

  class Target {
    const transport: Transport
    const disk: Disk
    const blkbuf: array<Byte>
    const inquiryResponse: seq<Byte>
    var sense: seq<Byte>
    var modeSense: seq<Byte>
    var residue: nat

    ghost predicate Valid()
      reads this, disk
    {
      && disk.Valid()
      && disk.blkSize <= blkbuf.Length < TWO32
      && blkbuf != disk.storage
      && |inquiryResponse| == 36
    }

    /** The last command was refused for what it asked. */
    predicate IllegalRequest(code: Byte)
      reads this
    {
      sense == SenseData(KEY_ILLEGAL_REQUEST, code, 0)
    }

    predicate NoSense()
      reads this
    {
      sense == SenseData(KEY_GOOD, ASENSE_NONE, 0)
    }

    /** `scsiObjectInit` and `scsiStart` */
    constructor (t: Transport, d: Disk, buf: array<Byte>, inquiry: seq<Byte>)
      requires d.Valid() && d.blkSize <= buf.Length < TWO32 && buf != d.storage && |inquiry| == 36
      ensures Valid() && transport == t && disk == d && blkbuf == buf && residue == 0
    {
      transport, disk, blkbuf, inquiryResponse := t, d, buf, inquiry;
      sense := seq(SENSE_SIZE, _ => 0);
      modeSense := [0, 0, 0, 0];
      residue := 0;
    }

    method SetSense(key: Byte, code: Byte, qual: Byte)
      modifies this`sense
      ensures sense == SenseData(key, code, qual)
    {
      sense := seq(SENSE_SIZE, _ => 0);
      sense := sense[0 := 0x70];
      sense := sense[2 := key];
      sense := sense[7 := 8];
      sense := sense[12 := code];
      sense := sense[13 := qual];
    }

    /** Sends `data`; what the transport did not take is recorded as the residue. */
    method TransmitData(data: seq<Byte>) returns (r: Outcome)
      modifies this`residue, transport`sent
      ensures r == Success || r == Failed
      ensures r == Success ==> transport.sent == old(transport.sent) + data && residue == old(residue)
      ensures r == Failed ==>
                0 < residue <= |data| && transport.sent == old(transport.sent) + data[..|data| - residue]
      ensures transport.reliable ==> r == Success
    {
      var n := transport.Transmit(data);
      assert data[..|data|] == data;
      if |data| - n > 0 {
        residue := |data| - n;
        r := Failed;
      } else {
        r := Success;
      }
    }

    method Inquiry(cmd: seq<Byte>) returns (r: Outcome)
      requires Valid() && |cmd| >= 10 && NoSense()
      modifies this`sense, this`residue, transport`sent
      ensures IllegalRequest(ASENSE_INVALID_FIELD_IN_CDB) || NoSense()
      ensures IllegalRequest(ASENSE_INVALID_FIELD_IN_CDB) <==> cmd[1] % 4 != 0 || cmd[2] != 0
      ensures Replied(r, inquiryResponse, old(transport.sent))
      ensures transport.reliable && NoSense() ==> r == Success
    {
      if cmd[1] % 4 != 0 || cmd[2] != 0 {
        SetSense(KEY_ILLEGAL_REQUEST, ASENSE_INVALID_FIELD_IN_CDB, 0);
        r := Failed;
      } else {
        r := TransmitData(inquiryResponse);
      }
    }

    /** One byte of the word compared with zero is never written: it can be anything. */
    method RequestSense(cmd: seq<Byte>, unwritten: Byte) returns (r: Outcome)
      requires Valid() && |cmd| >= 10 && NoSense()
      modifies this`sense, this`residue, transport`sent
      ensures IllegalRequest(ASENSE_INVALID_FIELD_IN_CDB) || NoSense()
      ensures IllegalRequest(ASENSE_INVALID_FIELD_IN_CDB)
         <==> cmd[1] != 0 || cmd[2] != 0 || cmd[3] != 0 || unwritten != 0 || cmd[4] != SENSE_SIZE
      ensures Replied(r, SenseData(KEY_GOOD, ASENSE_NONE, 0), old(transport.sent))
      ensures transport.reliable && NoSense() ==> r == Success
    {
      var tmp := [cmd[1], cmd[2], cmd[3], unwritten];
      if tmp != [0, 0, 0, 0] || cmd[4] != SENSE_SIZE {
        SetSense(KEY_ILLEGAL_REQUEST, ASENSE_INVALID_FIELD_IN_CDB, 0);
        r := Failed;
      } else {
        r := TransmitData(sense);
      }
    }

    method ModeSense6() returns (r: Outcome)
      requires Valid() && NoSense()
      modifies this`modeSense, this`residue, transport`sent
      ensures modeSense == [3, 0, if disk.Protected() then 0x80 else 0, 0]
      ensures Replied(r, modeSense, old(transport.sent))
      ensures transport.reliable && NoSense() ==> r == Success
    {
      modeSense := [3, 0, if disk.Protected() then 0x80 else 0, 0];
      r := TransmitData(modeSense);
    }

    method ReadFormatCapacities(cmd: seq<Byte>, unwritten: seq<Byte>) returns (r: Outcome)
      requires Valid() && |cmd| >= 10 && |unwritten| == 3 && NoSense()
      modifies this`residue, transport`sent
      ensures disk.blkNum < TWO32
      ensures Replied(r, if cmd[7] == 0 && cmd[8] == 0 then []
              else FormatCapacities(disk.blkNum, disk.blkSize, unwritten),
                      old(transport.sent))
      ensures transport.reliable && NoSense() ==> r == Success
    {
      disk.BlockCount();
      if cmd[7] == 0 && cmd[8] == 0 {
        r := Success;
      } else {
        r := TransmitData(FormatCapacities(disk.blkNum, disk.blkSize, unwritten));
      }
    }

    method ReadCapacity10() returns (r: Outcome)
      requires Valid() && NoSense()
      modifies this`residue, transport`sent
      ensures disk.blkNum < TWO32 && disk.blkSize < TWO32
      ensures Replied(r, Capacity(disk.blkNum, disk.blkSize), old(transport.sent))
      ensures transport.reliable && NoSense() ==> r == Success
    {
      disk.BlockCount();
      r := TransmitData(Capacity(disk.blkNum, disk.blkSize));
    }

    /**
     How a handler ends: refused with a sense code, or with its whole reply
     sent, or with the count of unsent bytes recorded.
     */
    predicate Replied(r: Outcome, reply: seq<Byte>, before: seq<Byte>)
      reads this, transport
    {
      if !NoSense() then r == Failed && transport.sent == before
      else if r == Success then transport.sent == before + reply
      else r == Failed && 0 < residue <= |reply| && transport.sent == before + reply[..|reply| - residue]
    }

    // ----- READ (10) and WRITE (10)

    /** `data_overflow` */
    method DataOverflow(q: Transfer) returns (refused: bool)
      requires Valid() && q.lba < TWO32 && q.cnt < TWO32
      modifies this`sense
      ensures refused <==> disk.Overflow(q.lba, q.cnt)
      ensures refused ==> IllegalRequest(ASENSE_LBA_OUT_OF_RANGE)
      ensures !refused ==> sense == old(sense)
    {
      refused := disk.Overflow(q.lba, q.cnt);
      if refused {
        SetSense(KEY_ILLEGAL_REQUEST, ASENSE_LBA_OUT_OF_RANGE, 0);
      }
    }

    /** One turn of the loop of `data_read_write10` for READ (10).  A failed read is not noticed. */
    method ReadBlock(k: nat) returns (fault: bool)
      requires Valid() && k < TWO32
      modifies blkbuf, transport`sent
      ensures disk.Blocks() == old(disk.Blocks())
      ensures fault <==> k + 1 == TWO32
      ensures k < disk.blkNum && transport.reliable ==> transport.sent == old(transport.sent) + disk.Blocks()[k]
    {
      disk.BlockCount();
      var bs := disk.blkSize;
      MulOne(bs);
      var st := disk.Read(k, blkbuf, 1);
      if st == Fault {
        return true;
      }
      if k < disk.blkNum {
        OneBlock(blkbuf[..bs], bs);
        assert disk.Blocks()[k..k + 1] == [disk.Blocks()[k]];
      }
      var n := transport.Transmit(blkbuf[..bs]);
      assert blkbuf[..bs][..bs] == blkbuf[..bs];
      fault := false;
    }

    /** One turn of the loop of `data_read_write10` for WRITE (10).  A failed write is not noticed. */
    method WriteBlock(k: nat) returns (fault: bool)
      requires Valid() && k < TWO32
      modifies blkbuf, transport`incoming, disk.storage
      ensures fault <==> k + 1 == TWO32
      ensures k >= disk.blkNum ==> disk.Blocks() == old(disk.Blocks())
      ensures k < disk.blkNum ==> disk.Blocks() == old(disk.Blocks())[k := disk.Blocks()[k]]
      ensures k < disk.blkNum && transport.reliable && disk.blkSize <= |old(transport.incoming)| ==>
                && disk.Blocks()[k] == old(transport.incoming)[..disk.blkSize]
                && transport.incoming == old(transport.incoming)[disk.blkSize..]
    {
      disk.BlockCount();
      var bs := disk.blkSize;
      MulOne(bs);
      var n := transport.Receive(blkbuf, bs);
      ghost var d := disk.Blocks();
      var st := disk.Write(k, blkbuf, 1);
      if k < disk.blkNum {
        OneBlock(blkbuf[..bs], bs);
        assert disk.Blocks() == d[k := blkbuf[..bs]];
      }
      fault := st == Fault;
    }

    /** The loop of `data_read_write10` for READ (10). */
    method ReadBlocks(q: Transfer) returns (r: Outcome)
      requires Valid() && q.lba < TWO32 && q.cnt < TWO32 && !disk.Overflow(q.lba, q.cnt)
      modifies blkbuf, transport`sent
      ensures disk.Blocks() == old(disk.Blocks())
      ensures r == Fault <==> disk.WrapsAround(q.lba, q.cnt)
      ensures r != Fault ==> r == Success && q.lba + q.cnt <= disk.blkNum
      ensures r == Success && transport.reliable ==>
                transport.sent == old(transport.sent) + Flat(disk.Blocks()[q.lba..q.lba + q.cnt])
    {
      hide BlocksOf, BlockAt, Flat;
      disk.OverflowIs(q.lba, q.cnt);
      disk.BlockCount();
      ghost var d := disk.Blocks();
      ghost var inside := q.lba + q.cnt <= |d|;
      if inside {
        FlatNone(transport.sent, d, q.lba);
      }
      var i := 0;
      while i < q.cnt
        invariant 0 <= i <= q.cnt && q.lba + i < TWO32
        invariant disk.Blocks() == d
        invariant transport.reliable && inside ==> transport.sent == old(transport.sent) + Flat(d[q.lba..q.lba + i])
      {
        var fault := ReadBlock(q.lba + i);
        if fault {
          return Fault;
        }
        if inside {
          FlatNext(old(transport.sent), d, q.lba, i);
        }
        i := i + 1;
      }
      r := Success;
    }

    /** The loop of `data_read_write10` for WRITE (10). */
    method WriteBlocks(q: Transfer) returns (r: Outcome)
      requires Valid() && q.lba < TWO32 && q.cnt < TWO32 && !disk.Overflow(q.lba, q.cnt)
      modifies blkbuf, transport`incoming, disk.storage
      ensures r == Fault <==> disk.WrapsAround(q.lba, q.cnt)
      ensures r != Fault ==> r == Success && q.lba + q.cnt <= disk.blkNum
      ensures SameOutside(old(disk.Blocks()), disk.Blocks(), q.lba, q.cnt)
      ensures r == Success && transport.reliable && q.cnt * disk.blkSize <= |old(transport.incoming)| ==>
                && disk.Blocks() == Written(old(disk.Blocks()), q.lba,
                    FirstBlocks(old(transport.incoming), disk.blkSize, q.cnt))
                && transport.incoming == old(transport.incoming)[q.cnt * disk.blkSize..]
    {
      hide BlocksOf, BlockAt, FirstBlocks, Written;
      disk.OverflowIs(q.lba, q.cnt);
      disk.BlockCount();
      ghost var d, input, bs := disk.Blocks(), transport.incoming, disk.blkSize;
      ghost var inside := q.lba + q.cnt <= |d|;
      ghost var delivered := inside && transport.reliable && q.cnt * bs <= |input|;
      if delivered {
        DeliveredNone(d, q.lba, input, bs);
      }
      var i := 0;
      while i < q.cnt
        invariant 0 <= i <= q.cnt && q.lba + i < TWO32
        invariant disk.blkNum == |d| && disk.blkSize == bs
        invariant SameOutside(d, disk.Blocks(), q.lba, i)
        invariant delivered ==>
                    && i * bs <= |input|
                    && disk.Blocks() == Written(d, q.lba, FirstBlocks(input, bs, i))
                    && transport.incoming == input[i * bs..]
      {
        if delivered {
          DeliveredNext(d, q.lba, input, bs, i, q.cnt);
        }
        ghost var e := disk.Blocks();
        var fault := WriteBlock(q.lba + i);
        SameOutsideNext(d, e, disk.Blocks(), q.lba, i);
        OutsideMore(d, disk.Blocks(), q.lba, i + 1, q.cnt);
        if fault {
          return Fault;
        }
        i := i + 1;
      }
      r := Success;
    }

    /**
     How a transfer ends: refused exactly when the sum of address and count,
     taken modulo 2^32, passes the number of blocks; and out of defined
     behaviour exactly when that sum wraps around and is not refused.
     */
    predicate Ended(q: Transfer, r: Outcome)
      reads this, disk
    {
      && (r == Failed <==> disk.Overflow(q.lba, q.cnt))
      && (r == Fault <==> disk.WrapsAround(q.lba, q.cnt))
      && (r == Success <==> q.lba + q.cnt <= disk.blkNum)
      && (if r == Failed then IllegalRequest(ASENSE_LBA_OUT_OF_RANGE) else NoSense())
    }

    /** What a transfer has done, from a disk `d`, bytes `sent` and bytes `input` waiting to be received. */
    ghost predicate Transferred(write: bool, q: Transfer, r: Outcome, d: seq<Block>, sent: seq<Byte>, input: seq<Byte>)
      requires Valid()
      reads this, disk, disk.storage, transport
    {
      && Ended(q, r)
      && |d| == disk.blkNum
      && (!write || r == Failed ==> disk.Blocks() == d)
      && (r == Failed ==> transport.sent == sent && transport.incoming == input)
      && SameOutside(d, disk.Blocks(), q.lba, q.cnt)
      && (!write && r == Success && transport.reliable ==>
            transport.sent == sent + Flat(d[q.lba..q.lba + q.cnt]) && transport.incoming == input)
      && (write && r == Success && transport.reliable && q.cnt * disk.blkSize <= |input| ==>
            && disk.Blocks() == Written(d, q.lba, FirstBlocks(input, disk.blkSize, q.cnt))
            && transport.incoming == input[q.cnt * disk.blkSize..]
            && transport.sent == sent)
    }

    /** `data_read_write10` */
    method DataReadWrite10(cmd: seq<Byte>) returns (r: Outcome)
      requires Valid() && |cmd| >= 10 && NoSense()
      modifies this`sense, blkbuf, transport`sent, transport`incoming, disk.storage
      ensures Transferred(cmd[0] != READ_10, Requested(cmd), r,
                          old(disk.Blocks()), old(transport.sent), old(transport.incoming))
    {
      hide BlocksOf, BlockAt, FirstBlocks, Written, Flat, Decode, Requested, SenseData;
      var q := Decode(cmd);
      var refused := DataOverflow(q);
      disk.OverflowIs(q.lba, q.cnt);
      if refused {
        r := Failed;
      } else if cmd[0] == READ_10 {
        r := ReadBlocks(q);
      } else {
        r := WriteBlocks(q);
      }
    }

    // ----- the command interpreter

    ghost function AsUnit(): Unit
      reads this, disk
    {
      Unit(disk.blkNum, disk.blkSize, disk.Protected(), inquiryResponse)
    }

    /** `scsiExecCmd`: one command.  `unwritten` stands for stack bytes that are read without being written. */
    method ExecCmd(cmd: seq<Byte>, unwritten: seq<Byte>) returns (r: Outcome)
      requires Valid() && |cmd| >= 10 && |unwritten| == 3
      modifies this`sense, this`modeSense, this`residue, blkbuf, transport`sent, transport`incoming, disk.storage
      ensures WellFormedSense(sense) && (NoSense() || IllegalRequest(RefusalCode(cmd)))
      ensures cmd[0] in {READ_10, WRITE_10} ==>
                Transferred(cmd[0] == WRITE_10, Requested(cmd), r,
                            old(disk.Blocks()), old(transport.sent), old(transport.incoming))
      ensures cmd[0] !in {READ_10, WRITE_10} ==>
                && Replied(r, Reply(AsUnit(), cmd, unwritten), old(transport.sent))
                && disk.Blocks() == old(disk.Blocks()) && transport.incoming == old(transport.incoming)
      ensures !NoSense() <==> Illegal(AsUnit(), cmd, unwritten[0])
      ensures cmd[0] !in {READ_10, WRITE_10} && transport.reliable && NoSense() ==> r == Success
    {
      hide SenseData, Capacity, FormatCapacities, BlocksOf, BlockAt, FirstBlocks, Written, Flat, Decode, Requested;
      SetSense(KEY_GOOD, ASENSE_NONE, 0);
      if cmd[0] == READ_10 || cmd[0] == WRITE_10 {
        r := DataReadWrite10(cmd);
      } else {
        r := ExecControl(cmd, unwritten);
      }
    }

    /** The cases of `scsiExecCmd` that move no blocks. */
    method ExecControl(cmd: seq<Byte>, unwritten: seq<Byte>) returns (r: Outcome)
      requires Valid() && |cmd| >= 10 && |unwritten| == 3 && cmd[0] !in {READ_10, WRITE_10} && NoSense()
      modifies this`sense, this`modeSense, this`residue, transport`sent
      ensures WellFormedSense(sense) && (NoSense() || IllegalRequest(RefusalCode(cmd)))
      ensures Replied(r, Reply(AsUnit(), cmd, unwritten), old(transport.sent))
      ensures !NoSense() <==> Illegal(AsUnit(), cmd, unwritten[0])
      ensures transport.reliable && NoSense() ==> r == Success
    {
      hide SenseData, Capacity, FormatCapacities;
      disk.BlockCount();
      if cmd[0] == INQUIRY {
        r := Inquiry(cmd);
      } else if cmd[0] == REQUEST_SENSE {
        r := RequestSense(cmd, unwritten[0]);
      } else if cmd[0] == READ_CAPACITY_10 {
        r := ReadCapacity10();
      } else if cmd[0] == MODE_SENSE_6 {
        r := ModeSense6();
      } else if cmd[0] == READ_FORMAT_CAPACITIES {
        r := ReadFormatCapacities(cmd, unwritten);
      } else if cmd[0] in {TEST_UNIT_READY, PREVENT_ALLOW_MEDIUM_REMOVAL, VERIFY_10} {
        SetSense(KEY_GOOD, ASENSE_NONE, 0);
        r := Success;
      } else {
        SetSense(KEY_ILLEGAL_REQUEST, ASENSE_INVALID_COMMAND, 0);
        r := Failed;
      }
    }
  }

  lemma MulOne(bs: nat)
    ensures 1 * bs == bs
  {
  }

  lemma FlatNone(before: seq<Byte>, d: seq<Block>, lba: nat)
    requires lba <= |d|
    ensures before == before + Flat(d[lba..lba + 0])
  {
    assert d[lba..lba + 0] == [];
  }

  lemma FlatNext(before: seq<Byte>, d: seq<Block>, lba: nat, i: nat)
    requires lba + i < |d|
    ensures before + Flat(d[lba..lba + i + 1]) == before + Flat(d[lba..lba + i]) + d[lba + i]
  {
    assert d[lba..lba + i] + [d[lba + i]] == d[lba..lba + i + 1];
    FlatAppend(d[lba..lba + i], d[lba + i]);
  }

  lemma OutsideMore(d: seq<Block>, e: seq<Block>, lba: nat, i: nat, cnt: nat)
    requires SameOutside(d, e, lba, i) && i <= cnt
    ensures SameOutside(d, e, lba, cnt)
  {
  }

  lemma DeliveredNone(d: seq<Block>, lba: nat, input: seq<Byte>, bs: nat)
    requires lba <= |d|
    ensures 0 * bs == 0 && Written(d, lba, FirstBlocks(input, bs, 0)) == d
  {
    assert 0 * bs == 0;
  }

  /** The stream and the disk before and after one more block of the transfer. */
  lemma DeliveredNext(d: seq<Block>, lba: nat, input: seq<Byte>, bs: nat, i: nat, cnt: nat)
    requires i < cnt && lba + cnt <= |d| && cnt * bs <= |input|
    ensures i * bs <= |input| && (i + 1) * bs <= |input|
    ensures bs <= |input[i * bs..]|
    ensures Written(d, lba, FirstBlocks(input, bs, i))[lba + i := input[i * bs..][..bs]]
         == Written(d, lba, FirstBlocks(input, bs, i + 1))
    ensures input[i * bs..][bs..] == input[(i + 1) * bs..]
  {
    MulOrder(i + 1, cnt, bs);
    MulStep(i, bs);
    FirstBlocksNext(input, bs, i);
    WrittenNext(d, lba, FirstBlocks(input, bs, i), input[i * bs..i * bs + bs]);
    assert input[i * bs..][..bs] == input[i * bs..i * bs + bs];
  }

  lemma OneBlock(b: seq<Byte>, bs: nat)
    requires |b| == bs
    ensures 1 * bs == bs && b[..1 * bs] == b && BlocksOf(b, bs, 1) == [b]
  {
    assert 0 * bs == 0 && (0 + 1) * bs == bs;
    assert BlocksOf(b, bs, 1)[0] == b[0 * bs..(0 + 1) * bs];
  }
}
