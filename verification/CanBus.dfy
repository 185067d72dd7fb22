/**
 Several AnalogX boards and other nodes on one CAN bus: every interleaving of
 their frames, waits and start-ups.
 */
module CanBus {
  import opened CanBoard

  /** A frame on the bus and the board that sent it; other nodes have no number. */
  datatype Sender = Node(index: nat) | Other
  datatype Sent = Sent(sender: Sender, frame: Frame)

  /** A board, how far it has followed the bus, and the frames it has read. */
  datatype Station = Station(board: Board, position: nat, got: seq<Frame>)

  datatype Bus = Bus(stations: seq<Station>, log: seq<Sent>)

  /**
   A board starts, waits in vain, sends sensor values or statistics, reads
   the next frame of the bus or loses it; another node sends anything.
   */
  datatype Step = Of(i: nat, act: Act) | External(frame: Frame)
  datatype Act = Start | Timeout | Sensors(values: seq<nat>) | Stats | Read | Lose

  function SensorFrame(base: nat, values: seq<nat>): Frame {
    Prepared(base + API_BROADCAST_SENSORS).(data := if |values| == 8 then values else Prepared(base).data)
  }

  function StatsFrame(b: Board): Frame {
    Frame(true, b.base + API_STATS, 8, [b.rate, 0x55, 0x55, 0x55, 0x55, 1, 0, 1])
  }

  function Announces(b: Bus, i: nat): Bus
    requires i < |b.stations|
  {
    var s := b.stations[i];
    Bus(b.stations[i := s.(board := Announced(s.board).(started := true))],
        b.log + [Sent(Node(i), Announcement(s.board.base))])
  }

  function Puts(b: Bus, sender: Sender, f: Frame): Bus {
    b.(log := b.log + [Sent(sender, f)])
  }

  /** A board follows the bus by one frame; it does not receive its own. */
  function Reads(b: Bus, i: nat, lost: bool): Bus
    requires i < |b.stations| && WellFormed(b)
  {
    var s := b.stations[i];
    if s.position >= |b.log| then b
    else
      var m := b.log[s.position];
      if lost || m.sender == Node(i) then b.(stations := b.stations[i := s.(position := s.position + 1)])
      else b.(stations := b.stations[i := Station(Received(s.board, m.frame), s.position + 1, s.got + [m.frame])])
  }

  ghost predicate WellFormed(b: Bus) {
    && (forall k :: 0 <= k < |b.log| ==> ValidFrame(b.log[k].frame))
    && (forall i :: 0 <= i < |b.stations| ==> b.stations[i].board.base < 0x1FFF_FF00)
  }

  ghost function Acts(b: Bus, i: nat, act: Act): Bus
    requires i < |b.stations| && WellFormed(b)
  {
    var s := b.stations[i].board;
    match act
    case Start => if s.started then b else Announces(b, i)
    case Timeout => if s.started && !s.provisioned then Announces(b, i) else b
    case Sensors(values) => Puts(b, Node(i), SensorFrame(s.base, values))
    case Stats => Puts(b, Node(i), StatsFrame(s))
    case Read => if s.started then Reads(b, i, false) else b
    case Lose => Reads(b, i, true)
  }

  /** A step that is not possible does nothing. */
  ghost function Next(b: Bus, a: Step): Bus
    requires WellFormed(b)
  {
    match a
    case External(f) => if ValidFrame(f) then Puts(b, Other, f) else b
    case Of(i, act) => if i < |b.stations| then Acts(b, i, act) else b
  }

  // ----- what frames received in a row mean

  ghost predicate Provisions(got: seq<Frame>, base: nat) {
    exists k :: 0 <= k < |got| && Configures(got[k], base)
  }

  /** The first byte of the last configuration that has one, or the default. */
  ghost function RateOf(got: seq<Frame>, base: nat): nat
    decreases |got|
  {
    if got == [] then DEFAULT_SAMPLE_RATE
    else
      var f := got[|got| - 1];
      if Configures(f, base) && f.dlc >= 1 && |f.data| > 0 then f.data[0] else RateOf(got[..|got| - 1], base)
  }

  lemma ProvisionsMore(got: seq<Frame>, f: Frame, base: nat)
    ensures Provisions(got + [f], base) <==> Provisions(got, base) || Configures(f, base)
  {
    var more := got + [f];
    assert more[|got|] == f;
    assert forall k :: 0 <= k < |got| ==> more[k] == got[k];
  }

  lemma RateMore(got: seq<Frame>, f: Frame, base: nat)
    requires ValidFrame(f)
    ensures RateOf(got + [f], base) == if Configures(f, base) && f.dlc >= 1 then f.data[0] else RateOf(got, base)
  {
    assert (got + [f])[..|got|] == got;
  }

  predicate Sets(f: Frame, base: nat) {
    Configures(f, base) && f.dlc >= 1 && |f.data| > 0
  }

  /** The rate is that of the last frame that sets one. */
  lemma {:induction false} RateIsLast(got: seq<Frame>, base: nat, k: nat)
    requires k < |got| && Sets(got[k], base) && forall l :: k < l < |got| ==> !Sets(got[l], base)
    ensures RateOf(got, base) == got[k].data[0]
    decreases |got|
  {
    var n := |got| - 1;
    if k < n {
      RateIsLast(got[..n], base, k);
      assert !Sets(got[n], base);
    }
  }

  /** Without such a frame the rate is the default. */
  lemma {:induction false} RateIsDefault(got: seq<Frame>, base: nat)
    requires forall l :: 0 <= l < |got| ==> !Sets(got[l], base)
    ensures RateOf(got, base) == 50
    decreases |got|
  {
    if got != [] {
      RateIsDefault(got[..|got| - 1], base);
      assert !Sets(got[|got| - 1], base);
    }
  }

  /** Frame `k` is the last that sets the rate. */
  ghost predicate LastSetting(got: seq<Frame>, base: nat, k: nat) {
    k < |got| && Sets(got[k], base) && forall l :: k < l < |got| ==> !Sets(got[l], base)
  }

  lemma {:induction false} FindLastSetting(got: seq<Frame>, base: nat) returns (k: nat)
    requires exists l :: 0 <= l < |got| && Sets(got[l], base)
    ensures LastSetting(got, base, k)
    decreases |got|
  {
    k := |got| - 1;
    if !Sets(got[k], base) {
      var front := got[..k];
      assert exists l :: 0 <= l < |front| && Sets(front[l], base) by {
        var l :| 0 <= l < |got| && Sets(got[l], base);
        assert front[l] == got[l];
      }
      k := FindLastSetting(front, base);
      assert forall l :: 0 <= l < |front| ==> front[l] == got[l];
    }
  }

  /** The rate is 0 if and only if the last frame that sets it starts with a 0. */
  lemma ZeroExactly(got: seq<Frame>, base: nat)
    ensures RateOf(got, base) == 0 <==> exists k: nat :: LastSetting(got, base, k) && got[k].data[0] == 0
  {
    hide RateOf, Sets;
    if exists l :: 0 <= l < |got| && Sets(got[l], base) {
      var k := FindLastSetting(got, base);
      RateIsLast(got, base, k);
      forall l: nat | LastSetting(got, base, l) ensures l == k {
      }
    } else {
      RateIsDefault(got, base);
    }
  }

  // ----- the invariant

  /** The identifiers of a board's own frames. */
  predicate OwnId(id: nat, base: nat) {
    id == base + API_ANNOUNCEMENT || id == base + API_STATS || id == base + API_BROADCAST_SENSORS
  }

  /** No own frame of one board configures a board, whatever their jumpers. */
  lemma OwnNeverConfigures(f: Frame, a1: bool, a2: bool, b1: bool, b2: bool)
    requires OwnId(f.id, BaseFor(a1, a2))
    ensures !Configures(f, BaseFor(b1, b2))
  {
  }

  /** Two boards read the same frame as a configuration exactly when their jumpers are the same. */
  lemma ConfiguresOne(f: Frame, a1: bool, a2: bool, b1: bool, b2: bool)
    requires Configures(f, BaseFor(a1, a2))
    ensures Configures(f, BaseFor(b1, b2)) <==> a1 == b1 && a2 == b2
  {
  }

  /** The configuration identifiers of the four settings of the jumpers. */
  lemma ConfigurationIds(f: Frame)
    ensures Configures(f, BaseFor(false, false)) <==> f.id == 0xE4603
    ensures Configures(f, BaseFor(true, false)) <==> f.id == 0xE4703
    ensures Configures(f, BaseFor(false, true)) <==> f.id == 0xE4803
    ensures Configures(f, BaseFor(true, true)) <==> f.id == 0xE4903
  {
  }

  /** The frames that a board sends, by their bytes. */
  lemma FramesAre(b: Board, values: seq<nat>)
    requires |values| == 8
    ensures Announcement(b.base) == Frame(true, b.base, 8, [9, 0x55, 0x55, 0x55, 0x55, 1, 0, 1])
    ensures StatsFrame(b) == Frame(true, b.base + 2, 8, [b.rate, 0x55, 0x55, 0x55, 0x55, 1, 0, 1])
    ensures SensorFrame(b.base, values) == Frame(true, b.base + 20, 8, values)
  {
  }

  ghost predicate Jumpered(base: nat) {
    || base == BaseFor(false, false) || base == BaseFor(true, false)
    || base == BaseFor(false, true) || base == BaseFor(true, true)
  }

  /** Frames of boards have their identifiers. */
  ghost predicate Labelled(b: Bus) {
    forall k :: 0 <= k < |b.log| && b.log[k].sender.Node? ==>
      b.log[k].sender.index < |b.stations| && OwnId(b.log[k].frame.id, b.stations[b.log[k].sender.index].board.base)
  }

  /** The frame is among the first `n` on the bus. */
  ghost predicate OnBus(log: seq<Sent>, n: nat, f: Frame) {
    exists k :: 0 <= k < n && k < |log| && log[k].frame == f
  }

  /** What a board has read was sent before its position. */
  ghost predicate Heard(log: seq<Sent>, n: nat, got: seq<Frame>) {
    forall j :: 0 <= j < |got| ==> OnBus(log, n, got[j])
  }

  /** The state of a board is what the frames it has read say. */
  ghost predicate Configured(s: Station) {
    && Jumpered(s.board.base)
    && (s.board.provisioned <==> Provisions(s.got, s.board.base))
    && s.board.rate == RateOf(s.got, s.board.base)
  }

  ghost predicate Inv(b: Bus) {
    && WellFormed(b)
    && Labelled(b)
    && (forall i :: 0 <= i < |b.stations| ==> Configured(b.stations[i]))
    && (forall i :: 0 <= i < |b.stations| ==> Heard(b.log, b.stations[i].position, b.stations[i].got))
  }

  lemma PutsKeep(b: Bus, sender: Sender, f: Frame)
    requires Inv(b) && ValidFrame(f)
    requires sender.Node? ==> sender.index < |b.stations| && OwnId(f.id, b.stations[sender.index].board.base)
    ensures Inv(Puts(b, sender, f))
  {
    hide Configured, OwnId;
    var c := Puts(b, sender, f);
    assert forall k :: 0 <= k < |b.log| ==> c.log[k] == b.log[k];
    forall i | 0 <= i < |c.stations| ensures Heard(c.log, c.stations[i].position, c.stations[i].got) {
      HeardMore(b.log, Sent(sender, f), b.stations[i].position, b.stations[i].got);
    }
  }

  lemma HeardMore(log: seq<Sent>, m: Sent, n: nat, got: seq<Frame>)
    requires Heard(log, n, got)
    ensures Heard(log + [m], n, got)
  {
    var more := log + [m];
    forall j | 0 <= j < |got| ensures OnBus(more, n, got[j]) {
      var k :| 0 <= k < n && k < |log| && log[k].frame == got[j];
      assert more[k].frame == got[j];
    }
  }

  /** A station may be replaced by one with the same base that is in order itself. */
  lemma StationKeep(b: Bus, i: nat, t: Station)
    requires Inv(b) && i < |b.stations| && Configured(t) && Heard(b.log, t.position, t.got) &&
             t.board.base == b.stations[i].board.base
    ensures Inv(b.(stations := b.stations[i := t]))
  {
    hide Configured, OwnId, Heard;
  }

  lemma ReadKeep(b: Bus, i: nat, lost: bool)
    requires Inv(b) && i < |b.stations|
    ensures Inv(Reads(b, i, lost))
  {
    hide Inv, Provisions, RateOf;
    var s := b.stations[i];
    InvHas(b, i);
    if s.position < |b.log| {
      var m := b.log[s.position];
      var skip := s.(position := s.position + 1);
      var take := Station(Received(s.board, m.frame), s.position + 1, s.got + [m.frame]);
      HeardOn(b.log, s.position, s.got);
      ProvisionsMore(s.got, m.frame, s.board.base);
      RateMore(s.got, m.frame, s.board.base);
      StationKeep(b, i, skip);
      StationKeep(b, i, take);
    }
  }

  lemma InvHas(b: Bus, i: nat)
    requires Inv(b) && i < |b.stations|
    ensures WellFormed(b) && Configured(b.stations[i]) && Heard(b.log, b.stations[i].position, b.stations[i].got)
  {
  }

  lemma HeardOn(log: seq<Sent>, n: nat, got: seq<Frame>)
    requires Heard(log, n, got) && n < |log|
    ensures Heard(log, n + 1, got)
    ensures Heard(log, n + 1, got + [log[n].frame])
  {
    var more := got + [log[n].frame];
    forall j | 0 <= j < |more| ensures OnBus(log, n + 1, more[j]) {
      if j < |got| {
        assert more[j] == got[j] && OnBus(log, n, got[j]);
        var k :| 0 <= k < n && k < |log| && log[k].frame == got[j];
        assert log[k].frame == more[j];
      } else {
        assert log[n].frame == more[j];
      }
    }
    forall j | 0 <= j < |got| ensures OnBus(log, n + 1, got[j]) {
      assert more[j] == got[j];
    }
  }

  lemma StepKeeps(b: Bus, a: Step)
    requires Inv(b)
    ensures Inv(Next(b, a))
  {
    hide Inv, Labelled, Heard;
    match a
    case External(f) =>
      if ValidFrame(f) {
        PutsKeep(b, Other, f);
      }
    case Of(i, act) =>
      if i < |b.stations| {
        InvHas(b, i);
        var s := b.stations[i];
        if act.Read? || act.Lose? {
          ReadKeep(b, i, act.Lose?);
        } else {
          var f := if act.Sensors? then SensorFrame(s.board.base, act.values)
                   else if act.Stats? then StatsFrame(s.board)
                   else Announcement(s.board.base);
          PutsKeep(b, Node(i), f);
          var t := s.(board := Announced(s.board).(started := true));
          InvHas(Puts(b, Node(i), f), i);
          StationKeep(Puts(b, Node(i), f), i, t);
        }
      }
  }

  ghost function After(b: Bus, run: seq<Step>): Bus
    requires Inv(b)
    decreases |run|
  {
    if run == [] then b else
      StepKeeps(b, run[0]);
      After(Next(b, run[0]), run[1..])
  }

  /** Boards with any jumpers, before any of them has started. */
  function PoweredUp(jumpers: seq<(bool, bool)>): Bus {
    Bus(seq(|jumpers|, i requires 0 <= i < |jumpers| => Station(PowerUp(jumpers[i].0, jumpers[i].1), 0, [])), [])
  }

  lemma PoweredUpInv(jumpers: seq<(bool, bool)>)
    ensures Inv(PoweredUp(jumpers))
  {
    var b := PoweredUp(jumpers);
    forall i | 0 <= i < |b.stations| ensures Configured(b.stations[i]) {
      assert RateOf([], b.stations[i].board.base) == DEFAULT_SAMPLE_RATE;
    }
  }

  /**
   In every run a board is provisioned exactly when it has read a frame with
   its configuration identifier, and its sample rate is what the last of them
   with data says.
   */
  lemma {:induction false} RunConfigured(b: Bus, run: seq<Step>, i: nat)
    requires Inv(b) && i < |b.stations|
    ensures Inv(After(b, run)) && |After(b, run).stations| == |b.stations|
    ensures Configured(After(b, run).stations[i])
    decreases |run|
  {
    hide Inv, Configured;
    InvHas(b, i);
    if run != [] {
      StepKeeps(b, run[0]);
      StepStations(b, run[0]);
      RunConfigured(Next(b, run[0]), run[1..], i);
    }
  }

  lemma StepStations(b: Bus, a: Step)
    requires WellFormed(b)
    ensures |Next(b, a).stations| == |b.stations|
  {
  }

  /** From power-up, with any jumpers, in every run. */
  lemma EveryRun(jumpers: seq<(bool, bool)>, run: seq<Step>, i: nat)
    requires i < |jumpers|
    ensures Inv(PoweredUp(jumpers)) && i < |After(PoweredUp(jumpers), run).stations|
    ensures var b := After(PoweredUp(jumpers), run);
            var s := b.stations[i];
            && (s.board.provisioned <==> Provisions(s.got, s.board.base))
            && s.board.rate == RateOf(s.got, s.board.base)
            && (s.board.provisioned ==>
                  exists k :: 0 <= k < |b.log| && b.log[k].sender == Other && Configures(b.log[k].frame, s.board.base))
  {
    hide Inv, RateOf, Provisions, After;
    PoweredUpInv(jumpers);
    RunConfigured(PoweredUp(jumpers), run, i);
    var b := After(PoweredUp(jumpers), run);
    if b.stations[i].board.provisioned {
      ProvisionedFromOutside(b, i);
    }
  }

  /** The sampling loop divides by the rate: in every run it is 0 if and only if the last frame that sets it says so. */
  lemma ZeroRateExactly(jumpers: seq<(bool, bool)>, run: seq<Step>, i: nat)
    requires i < |jumpers|
    ensures Inv(PoweredUp(jumpers)) && i < |After(PoweredUp(jumpers), run).stations|
    ensures var s := After(PoweredUp(jumpers), run).stations[i];
            s.board.rate == 0 <==> exists k: nat :: LastSetting(s.got, s.board.base, k) && s.got[k].data[0] == 0
  {
    hide Inv, RateOf, Provisions, LastSetting;
    EveryRun(jumpers, run, i);
    var s := After(PoweredUp(jumpers), run).stations[i];
    ZeroExactly(s.got, s.board.base);
  }

  /** One frame is enough for that. */
  lemma ZeroRateRun()
    ensures var f := Frame(true, 0xE4603, 1, [0, 0, 0, 0, 0, 0, 0, 0]);
            var run := [Of(0, Start), External(f), Of(0, Read), Of(0, Read)];
            && Inv(PoweredUp([(false, false)]))
            && |After(PoweredUp([(false, false)]), run).stations| == 1
            && After(PoweredUp([(false, false)]), run).stations[0].board.rate == 0
  {
    hide After, Inv;
    var f := Frame(true, 0xE4603, 1, [0, 0, 0, 0, 0, 0, 0, 0]);
    var b0 := PoweredUp([(false, false)]);
    PoweredUpInv([(false, false)]);
    InvHas(b0, 0);
    var b1 := NextOf(b0, Of(0, Start), [External(f), Of(0, Read), Of(0, Read)]);
    var b2 := NextOf(b1, External(f), [Of(0, Read), Of(0, Read)]);
    var b3 := NextOf(b2, Of(0, Read), [Of(0, Read)]);
    var b4 := NextOf(b3, Of(0, Read), []);
    AfterNone(b4);
    assert [Of(0, Start), External(f), Of(0, Read), Of(0, Read)]
        == [Of(0, Start)] + [External(f), Of(0, Read), Of(0, Read)];
    assert [External(f), Of(0, Read), Of(0, Read)] == [External(f)] + [Of(0, Read), Of(0, Read)];
    assert [Of(0, Read), Of(0, Read)] == [Of(0, Read)] + [Of(0, Read)];
    assert [Of(0, Read)] == [Of(0, Read)] + [];
  }

  lemma NextOf(b: Bus, a: Step, rest: seq<Step>) returns (c: Bus)
    requires Inv(b)
    ensures WellFormed(b) && c == Next(b, a) && Inv(c) && WellFormed(c) && After(b, [a] + rest) == After(c, rest)
  {
    StepKeeps(b, a);
    c := Next(b, a);
    assert ([a] + rest)[1..] == rest;
  }

  lemma AfterNone(b: Bus)
    requires Inv(b)
    ensures After(b, []) == b
  {
  }

  /** A board that is provisioned was provisioned by a frame of a node that is no board of this kind. */
  lemma ProvisionedFromOutside(b: Bus, i: nat)
    requires Inv(b) && i < |b.stations| && b.stations[i].board.provisioned
    ensures exists k ::
              0 <= k < |b.log| && b.log[k].sender == Other && Configures(b.log[k].frame, b.stations[i].board.base)
  {
    hide RateOf, Jumpered;
    var s := b.stations[i];
    assert Configured(s);
    var j :| 0 <= j < |s.got| && Configures(s.got[j], s.board.base);
    assert OnBus(b.log, s.position, s.got[j]);
    var k :| 0 <= k < s.position && k < |b.log| && b.log[k].frame == s.got[j];
    NodesNeverConfigure(b, k, i);
  }

  /** Own traffic of the boards configures none of them. */
  lemma NodesNeverConfigure(b: Bus, k: nat, i: nat)
    requires Inv(b) && k < |b.log| && i < |b.stations|
    ensures b.log[k].sender.Node? ==> !Configures(b.log[k].frame, b.stations[i].board.base)
  {
    hide RateOf, Provisions, Heard;
    assert Configured(b.stations[i]);
    if b.log[k].sender.Node? {
      assert Configured(b.stations[b.log[k].sender.index]);
    }
  }

  // ----- announcements

  lemma StepQuiet(b: Bus, a: Step, i: nat)
    requires Inv(b) && i < |b.stations| && b.stations[i].board.provisioned && b.stations[i].board.started
    ensures var c := Next(b, a);
            && i < |c.stations| && c.stations[i].board.provisioned && c.stations[i].board.started
            && c.stations[i].board.sent == b.stations[i].board.sent
  {
    hide Configured, Heard, Labelled;
  }

  /** Once it has started and is provisioned, a board never announces itself again. */
  lemma {:induction false} QuietAfter(b: Bus, run: seq<Step>, i: nat)
    requires Inv(b) && i < |b.stations| && b.stations[i].board.provisioned && b.stations[i].board.started
    ensures i < |After(b, run).stations|
    ensures After(b, run).stations[i].board.provisioned
    ensures After(b, run).stations[i].board.sent == b.stations[i].board.sent
    decreases |run|
  {
    hide Inv;
    if run != [] {
      InvHas(b, i);
      StepKeeps(b, run[0]);
      StepQuiet(b, run[0], i);
      QuietAfter(Next(b, run[0]), run[1..], i);
    }
  }

  // ----- the announcements of one worker

  /** The event brings a configuration of the board with this base. */
  ghost predicate Brings(e: Event, base: nat) {
    e.Frames? && Provisions(e.frames, base)
  }

  /** How many waits were in vain before the first configuration. */
  ghost function QuietBefore(events: seq<Event>, base: nat): nat
    decreases |events|
  {
    if events == [] then 0
    else
      var front := events[..|events| - 1];
      QuietBefore(front, base)
        + if events[|events| - 1].Quiet? && (forall k :: 0 <= k < |front| ==> !Brings(front[k], base)) then 1 else 0
  }

  function Repeated(f: Frame, n: nat): (r: seq<Frame>)
    ensures |r| == n && forall i :: 0 <= i < n ==> r[i] == f
  {
    seq(n, _ => f)
  }

  lemma {:induction false} ReceivedAllKeeps(b: Board, fs: seq<Frame>)
    requires forall i :: 0 <= i < |fs| ==> ValidFrame(fs[i])
    ensures ReceivedAll(b, fs).sent == b.sent && ReceivedAll(b, fs).base == b.base
    ensures ReceivedAll(b, fs).provisioned <==> b.provisioned || Provisions(fs, b.base)
    decreases |fs|
  {
    if fs != [] {
      var front, f := fs[..|fs| - 1], fs[|fs| - 1];
      ReceivedAllKeeps(b, front);
      ProvisionsMore(front, f, b.base);
      assert fs == front + [f];
    }
  }

  /**
   After its start-up a worker announces the board once for every wait in vain
   before the first configuration, and never more.
   */
  lemma {:induction false} AnnouncedExactly(b: Board, events: seq<Event>)
    requires !b.provisioned && forall i :: 0 <= i < |events| ==> ValidEvent(events[i])
    ensures var c := HandledAll(b, events);
            && c.base == b.base
            && (c.provisioned <==> exists k :: 0 <= k < |events| && Brings(events[k], b.base))
            && c.sent == b.sent + Repeated(Announcement(b.base), QuietBefore(events, b.base))
    decreases |events|
  {
    hide ReceivedAll, Provisions;
    if events != [] {
      var n := |events| - 1;
      var front, e := events[..n], events[n];
      AnnouncedExactly(b, front);
      var c := HandledAll(b, front);
      assert forall k :: 0 <= k < n ==> front[k] == events[k];
      if e.Frames? {
        ReceivedAllKeeps(c, e.frames);
      }
      assert Brings(events[n], b.base) <==> e.Frames? && Provisions(e.frames, b.base);
      RepeatedMore(b.sent, Announcement(b.base), QuietBefore(front, b.base));
    }
  }

  lemma RepeatedMore(s: seq<Frame>, f: Frame, n: nat)
    ensures s + Repeated(f, n) + [f] == s + Repeated(f, n + 1)
  {
  }
}
