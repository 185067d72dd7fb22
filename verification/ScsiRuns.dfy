/**
 Runs of commands against the simple view of a disk: every READ (10) sends,
 for every block address, what was written there last.
 */
module ScsiRuns {
  import opened Basics
  import opened Bswap
  import opened RamDisk
  import opened Scsi
  import opened ScsiTarget

  /** What a command comes to: a transfer, an answer, or nothing. */
  datatype Request =
    | Read(lba: nat, cnt: nat)
    | Write(lba: nat, data: seq<Block>)
    | Answered(reply: seq<Byte>)
    | Refused
  {
    predicate Fits(n: nat) {
      match this
      case Read(lba, cnt) => lba + cnt <= n
      case Write(lba, data) => lba + |data| <= n
      case _ => true
    }
  }

  predicate AllFit(qs: seq<Request>, n: nat) {
    forall i :: 0 <= i < |qs| ==> qs[i].Fits(n)
  }

  /** The disk after one request. */
  function After(d: seq<Block>, q: Request): (e: seq<Block>)
    requires q.Fits(|d|)
    ensures |e| == |d|
  {
    if q.Write? then Written(d, q.lba, q.data) else d
  }

  /** The disk after a run. */
  function AfterAll(d: seq<Block>, qs: seq<Request>): (e: seq<Block>)
    requires AllFit(qs, |d|)
    ensures |e| == |d|
    decreases |qs|
  {
    if qs == [] then d else After(AfterAll(d, qs[..|qs| - 1]), qs[|qs| - 1])
  }

  /** The block written last at address `k`, if any. */
  function LastWrite(qs: seq<Request>, k: nat): Option<Block>
    decreases |qs|
  {
    if qs == [] then None
    else
      var q := qs[|qs| - 1];
      if q.Write? && q.lba <= k < q.lba + |q.data| then Some(q.data[k - q.lba])
      else LastWrite(qs[..|qs| - 1], k)
  }

  /** The contents that a run must show at address `k`: the last write, or what was there before. */
  function Expected(d: seq<Block>, qs: seq<Request>, k: nat): Block
    requires k < |d|
  {
    match LastWrite(qs, k)
    case Some(b) => b
    case None => d[k]
  }

  lemma {:induction false} LastWriteWins(d: seq<Block>, qs: seq<Request>, k: nat)
    requires AllFit(qs, |d|) && k < |d|
    ensures AfterAll(d, qs)[k] == Expected(d, qs, k)
    decreases |qs|
  {
    if qs != [] {
      LastWriteWins(d, qs[..|qs| - 1], k);
    }
  }

  /** What a read at the end of the run `qs` sends: for every address the block expected there. */
  function Answer(d: seq<Block>, qs: seq<Request>, lba: nat, cnt: nat): (a: seq<Block>)
    requires lba + cnt <= |d|
    ensures |a| == cnt
  {
    seq(cnt, i requires 0 <= i < cnt => Expected(d, qs, lba + i))
  }

  lemma AnswerIs(d: seq<Block>, qs: seq<Request>, lba: nat, cnt: nat)
    requires AllFit(qs, |d|) && lba + cnt <= |d|
    ensures AfterAll(d, qs)[lba..lba + cnt] == Answer(d, qs, lba, cnt)
  {
    hide Expected, AfterAll, Answer;
    var e, a := AfterAll(d, qs)[lba..lba + cnt], Answer(d, qs, lba, cnt);
    forall i | 0 <= i < cnt ensures e[i] == a[i] {
      LastWriteWins(d, qs, lba + i);
      AnswerAt(d, qs, lba, cnt, i);
    }
  }

  lemma AnswerAt(d: seq<Block>, qs: seq<Request>, lba: nat, cnt: nat, i: nat)
    requires lba + cnt <= |d| && i < cnt
    ensures Answer(d, qs, lba, cnt)[i] == Expected(d, qs, lba + i)
  {
    hide Expected;
  }

  /** What the host receives for a request after the run `qs`. */
  function Sends(d: seq<Block>, qs: seq<Request>, q: Request): seq<Byte>
    requires q.Fits(|d|)
  {
    match q
    case Read(lba, cnt) => Flat(Answer(d, qs, lba, cnt))
    case Answered(reply) => reply
    case _ => []
  }

  /** Everything the host receives in a run. */
  function Transcript(d: seq<Block>, qs: seq<Request>): seq<Byte>
    requires AllFit(qs, |d|)
    decreases |qs|
  {
    if qs == [] then []
    else
      var before, q := qs[..|qs| - 1], qs[|qs| - 1];
      Transcript(d, before) + Sends(d, before, q)
  }

  // ----- commands

  predicate IsTransfer(cmd: seq<Byte>)
    requires |cmd| >= 10
  {
    cmd[0] in {READ_10, WRITE_10}
  }

  /**
   A command that the target is defined for: the end of a transfer does not
   wrap around into the disk.
   */
  predicate Defined(cmd: seq<Byte>, u: Unit) {
    |cmd| >= 10 && (IsTransfer(cmd) && Requested(cmd).lba + Requested(cmd).cnt > u.blkNum ==>
                      Add32(Requested(cmd).lba, Requested(cmd).cnt) > u.blkNum)
  }

  /** The number of bytes that a command takes from the host. */
  function Taken(cmd: seq<Byte>, u: Unit): nat
    requires |cmd| >= 10
  {
    var t := Requested(cmd);
    if cmd[0] == WRITE_10 && t.lba + t.cnt <= u.blkNum then t.cnt * u.blkSize else 0
  }

  /** What a command comes to, with the data that the host sends for it. */
  function RequestOf(cmd: seq<Byte>, junk: seq<Byte>, input: seq<Byte>, u: Unit): (q: Request)
    requires Defined(cmd, u) && |junk| == 3 && Taken(cmd, u) <= |input|
    ensures q.Fits(u.blkNum)
  {
    var t := Requested(cmd);
    if IsTransfer(cmd) then
      if t.lba + t.cnt > u.blkNum then Refused
      else if cmd[0] == WRITE_10 then Write(t.lba, FirstBlocks(input, u.blkSize, t.cnt))
      else Read(t.lba, t.cnt)
    else if Illegal(u, cmd, junk[0]) then Refused
    else Answered(Reply(u, cmd, junk))
  }

  /** A command and the stack bytes that it reads without writing them. */
  datatype Cmd = Cmd(bytes: seq<Byte>, junk: seq<Byte>)

  /** The commands of a run are defined, and the host supplies the data of every write. */
  predicate Supplied(cmds: seq<Cmd>, input: seq<Byte>, u: Unit)
    decreases |cmds|
  {
    cmds == [] ||
    (&& Defined(cmds[0].bytes, u) && |cmds[0].junk| == 3
     && Taken(cmds[0].bytes, u) <= |input|
     && Supplied(cmds[1..], input[Taken(cmds[0].bytes, u)..], u))
  }

  /** The requests of a run of commands. */
  function Requests(cmds: seq<Cmd>, input: seq<Byte>, u: Unit): (qs: seq<Request>)
    requires Supplied(cmds, input, u)
    ensures AllFit(qs, u.blkNum) && |qs| == |cmds|
    decreases |cmds|
  {
    if cmds == [] then []
    else
      [RequestOf(cmds[0].bytes, cmds[0].junk, input, u)] + Requests(cmds[1..], input[Taken(cmds[0].bytes, u)..], u)
  }

  /** How a command of a run ends: outcome and sense data. */
  datatype End = End(outcome: Outcome, sense: seq<Byte>)

  /** Refused commands fail as illegal requests with their code, and all others succeed with clear sense data. */
  ghost predicate EndsAs(e: End, q: Request, cmd: seq<Byte>)
    requires |cmd| >= 10
  {
    && WellFormedSense(e.sense)
    && (if q == Refused then e.outcome == Failed && e.sense == SenseData(0x05, RefusalCode(cmd), 0)
        else e.outcome == Success && e.sense == SenseData(0x00, 0x00, 0))
  }

  /** The commands by their operation codes: transfers, those that are never refused, and the replies. */
  lemma TransferCodes(cmd: seq<Byte>, junk: seq<Byte>, input: seq<Byte>, u: Unit)
    requires Defined(cmd, u) && |junk| == 3 && Taken(cmd, u) <= |input|
    ensures var q, t := RequestOf(cmd, junk, input, u), Requested(cmd);
            && (q.Read? <==> cmd[0] == 0x28 && t.lba + t.cnt <= u.blkNum)
            && (q.Write? <==> cmd[0] == 0x2A && t.lba + t.cnt <= u.blkNum)
            && (cmd[0] in {0x00, 0x1A, 0x1E, 0x23, 0x25, 0x2F} ==> q.Answered?)
            && (cmd[0] in {0x00, 0x1E, 0x2F} ==> q.reply == [])
            && (cmd[0] == 0x1A ==> q.reply == [3, 0, if u.protected then 0x80 else 0, 0])
            && (cmd[0] == 0x25 ==> q.reply == Capacity(u.blkNum % TWO32, u.blkSize % TWO32))
            && (cmd[0] == 0x23 ==>
                  q.reply == if cmd[7] == 0 && cmd[8] == 0 then []
                             else FormatCapacities(u.blkNum % TWO32, u.blkSize, junk))
            && (cmd[0] == 0x12 && q.Answered? ==> q.reply == u.inquiry)
            && (cmd[0] == 0x03 && q.Answered? ==> q.reply == SenseData(0x00, 0x00, 0))
            && (cmd[0] !in {0x00, 0x03, 0x12, 0x1A, 0x1E, 0x23, 0x25, 0x28, 0x2A, 0x2F} ==> q == Refused)
  {
    hide Requested, FirstBlocks, Capacity, FormatCapacities, SenseData;
  }

  lemma RequestKind(cmd: seq<Byte>, junk: seq<Byte>, input: seq<Byte>, u: Unit)
    requires Defined(cmd, u) && |junk| == 3 && Taken(cmd, u) <= |input| && u.blkNum < TWO32
    ensures RequestOf(cmd, junk, input, u) == Refused <==> Illegal(u, cmd, junk[0])
  {
    hide Reply, Requested, FirstBlocks;
  }

  /** One command of a run over a reliable transport does its request on the disk and on the wire. */
  method Step(target: Target, cmd: Cmd, ghost d: seq<Block>, ghost done: seq<Request>, ghost wire: seq<Byte>)
    returns (e: End, ghost q: Request)
    requires target.Valid() && target.transport.reliable
    requires |d| == target.disk.blkNum && AllFit(done, |d|)
    requires Defined(cmd.bytes, target.AsUnit()) && |cmd.junk| == 3
    requires Taken(cmd.bytes, target.AsUnit()) <= |target.transport.incoming|
    requires target.disk.Blocks() == AfterAll(d, done)
    requires target.transport.sent == wire + Transcript(d, done)
    modifies target`sense, target`modeSense, target`residue, target.blkbuf, target.transport`sent,
             target.transport`incoming, target.disk.storage
    ensures AllFit(done + [q], |d|)
    ensures q == RequestOf(cmd.bytes, cmd.junk, old(target.transport.incoming), target.AsUnit())
    ensures EndsAs(e, q, cmd.bytes)
    ensures target.disk.Blocks() == AfterAll(d, done + [q])
    ensures target.transport.sent == wire + Transcript(d, done + [q])
    ensures target.transport.incoming == old(target.transport.incoming)[Taken(cmd.bytes, target.AsUnit())..]
  {
    hide BlocksOf, BlockAt, Flat, Requested, FirstBlocks, Answer, Written, Expected, SenseData, Reply, Sends,
        AfterAll, Transcript;
    q := RequestOf(cmd.bytes, cmd.junk, target.transport.incoming, target.AsUnit());
    target.disk.BlockCount();
    RequestKind(cmd.bytes, cmd.junk, target.transport.incoming, target.AsUnit());
    RunNext(d, done, q, wire);
    var r := target.ExecCmd(cmd.bytes, cmd.junk);
    e := End(r, target.sense);
  }

  lemma RunNext(d: seq<Block>, done: seq<Request>, q: Request, wire: seq<Byte>)
    requires AllFit(done, |d|) && q.Fits(|d|)
    ensures AllFit(done + [q], |d|)
    ensures AfterAll(d, done + [q]) == After(AfterAll(d, done), q)
    ensures wire + Transcript(d, done + [q]) == wire + Transcript(d, done) + SendsFrom(AfterAll(d, done), q)
  {
    hide AfterAll, Transcript, After, Sends, SendsFrom;
    AfterNext(d, done, q);
    SendsIs(d, done, q);
    TranscriptNext(d, done, q, wire);
  }

  /** What the host receives for a request, given the disk. */
  function SendsFrom(e: seq<Block>, q: Request): seq<Byte>
    requires q.Fits(|e|)
  {
    match q
    case Read(lba, cnt) => Flat(e[lba..lba + cnt])
    case Answered(reply) => reply
    case _ => []
  }

  lemma SendsIs(d: seq<Block>, done: seq<Request>, q: Request)
    requires AllFit(done, |d|) && q.Fits(|d|)
    ensures Sends(d, done, q) == SendsFrom(AfterAll(d, done), q)
  {
    hide Expected, Answer, Flat, AfterAll;
    if q.Read? {
      AnswerIs(d, done, q.lba, q.cnt);
    }
  }

  lemma AfterNext(d: seq<Block>, done: seq<Request>, q: Request)
    requires AllFit(done, |d|) && q.Fits(|d|)
    ensures AllFit(done + [q], |d|)
    ensures AfterAll(d, done + [q]) == After(AfterAll(d, done), q)
  {
    hide After;
    assert (done + [q])[..|done|] == done;
  }

  lemma TranscriptNext(d: seq<Block>, done: seq<Request>, q: Request, wire: seq<Byte>)
    requires AllFit(done, |d|) && q.Fits(|d|) && AllFit(done + [q], |d|)
    ensures wire + Transcript(d, done + [q]) == wire + Transcript(d, done) + Sends(d, done, q)
  {
    hide Sends;
    assert (done + [q])[..|done|] == done;
  }

  /**
   A run of any length and of any commands: the disk ends as the simple view
   says, the host has received for every read the blocks written last and for
   every other command its reply, and every command ends as it should.
   */
  method Run(target: Target, cmds: seq<Cmd>) returns (ends: seq<End>)
    requires target.Valid() && target.transport.reliable
    requires Supplied(cmds, target.transport.incoming, target.AsUnit())
    modifies target`sense, target`modeSense, target`residue, target.blkbuf, target.transport`sent,
             target.transport`incoming, target.disk.storage
    ensures var qs := Requests(cmds, old(target.transport.incoming), target.AsUnit());
            && AllFit(qs, |old(target.disk.Blocks())|)
            && target.disk.Blocks() == AfterAll(old(target.disk.Blocks()), qs)
            && target.transport.sent == old(target.transport.sent) + Transcript(old(target.disk.Blocks()), qs)
            && |ends| == |qs| == |cmds|
            && forall i :: 0 <= i < |ends| ==> |cmds[i].bytes| >= 10 && EndsAs(ends[i], qs[i], cmds[i].bytes)
  {
    hide BlocksOf, BlockAt, Flat, Requested, FirstBlocks, Answer, Written, Expected, AfterAll, Transcript,
         Supplied, Requests, RequestOf, Defined, Taken, EndsAs;
    ghost var d, wire, u := target.disk.Blocks(), target.transport.sent, target.AsUnit();
    ghost var qs := Requests(cmds, target.transport.incoming, u);
    ghost var done: seq<Request> := [];
    ends := [];
    RunNone(d, wire);
    assert cmds[0..] == cmds && done + qs == qs;
    var i := 0;
    while i < |cmds|
      invariant 0 <= i <= |cmds| && target.AsUnit() == u && target.Valid()
      invariant AllFit(done, u.blkNum) && |done| == |ends| == i
      invariant Supplied(cmds[i..], target.transport.incoming, u)
      invariant qs == done + Requests(cmds[i..], target.transport.incoming, u)
      invariant target.disk.Blocks() == AfterAll(d, done)
      invariant target.transport.sent == wire + Transcript(d, done)
      invariant forall k :: 0 <= k < |ends| ==> |cmds[k].bytes| >= 10 && EndsAs(ends[k], done[k], cmds[k].bytes)
    {
      RequestsNext(cmds, i, target.transport.incoming, u);
      var e, q := Step(target, cmds[i], d, done, wire);
      Regroup(done, q, Requests(cmds[i + 1..], target.transport.incoming, u));
      done := done + [q];
      ends := ends + [e];
      i := i + 1;
    }
    RequestsEnd(cmds, target.transport.incoming, u);
    assert qs == done;
  }

  lemma Regroup(a: seq<Request>, q: Request, b: seq<Request>)
    ensures a + ([q] + b) == a + [q] + b
  {
  }

  lemma RequestsNext(cmds: seq<Cmd>, i: nat, input: seq<Byte>, u: Unit)
    requires i < |cmds| && Supplied(cmds[i..], input, u)
    ensures Defined(cmds[i].bytes, u) && |cmds[i].bytes| >= 10 && |cmds[i].junk| == 3
    ensures Taken(cmds[i].bytes, u) <= |input|
    ensures Supplied(cmds[i + 1..], input[Taken(cmds[i].bytes, u)..], u)
    ensures Requests(cmds[i..], input, u)
         == [RequestOf(cmds[i].bytes, cmds[i].junk, input, u)]
            + Requests(cmds[i + 1..], input[Taken(cmds[i].bytes, u)..], u)
  {
    hide Taken, RequestOf;
    assert cmds[i..][0] == cmds[i] && cmds[i..][1..] == cmds[i + 1..];
  }

  lemma RequestsEnd(cmds: seq<Cmd>, input: seq<Byte>, u: Unit)
    requires Supplied(cmds[|cmds|..], input, u)
    ensures Requests(cmds[|cmds|..], input, u) == []
  {
    assert cmds[|cmds|..] == [];
  }

  lemma RunNone(d: seq<Block>, wire: seq<Byte>)
    ensures AfterAll(d, []) == d && wire + Transcript(d, []) == wire
  {
  }
}
