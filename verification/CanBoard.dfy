/**
 One AnalogX board on the CAN bus (`system_CAN.c`, `analogx_api.c`, and the
 broadcasts of `system.c` and `system_ADC.c`).
 */
module CanBoard {
  import opened Basics

  const ANALOGX_CAN_BASE_ID: nat := 0xE4600
  const ANALOGX_CAN_API_RANGE: nat := 256
  const API_ANNOUNCEMENT: nat := 0
  const API_STATS: nat := 2
  const API_SET_CONFIG_GROUP_1: nat := 3
  const API_BROADCAST_SENSORS: nat := 20
  const DEFAULT_SAMPLE_RATE: nat := 50
  const SETTINGS_CHANNEL_COUNT: nat := 9

  /** A frame; a short identifier has 11 bits and an extended one 29, and there is room for 8 bytes. */
  datatype Frame = Frame(ext: bool, id: nat, dlc: nat, data: seq<nat>)

  predicate ValidFrame(f: Frame) {
    f.id < (if f.ext then 0x2000_0000 else 0x800) && f.dlc <= 8 && |f.data| == 8
  }

  /** The globals of the firmware; `started` once the start-up announcement is out. */
  datatype Board = Board(base: nat, provisioned: bool, rate: nat, started: bool, sent: seq<Frame>)

  function BaseFor(adr1: bool, adr2: bool): nat {
    ANALOGX_CAN_BASE_ID + ANALOGX_CAN_API_RANGE * ((if adr1 then 1 else 0) + (if adr2 then 2 else 0))
  }

  /** The four base addresses; the first jumper counts 256 and the second 512. */
  lemma BaseAddresses()
    ensures BaseFor(false, false) == 0xE4600 && BaseFor(true, false) == 0xE4700
    ensures BaseFor(false, true) == 0xE4800 && BaseFor(true, true) == 0xE4900
  {
  }

  function PowerUp(adr1: bool, adr2: bool): Board {
    Board(BaseFor(adr1, adr2), false, DEFAULT_SAMPLE_RATE, false, [])
  }

  /** The frame configures the board with this base. */
  predicate Configures(f: Frame, base: nat) {
    f.id == base + API_SET_CONFIG_GROUP_1
  }

  // ----- what a board does

  function Received(b: Board, f: Frame): Board
    requires ValidFrame(f)
  {
    if !Configures(f, b.base) then b
    else b.(provisioned := true, rate := if f.dlc >= 1 then f.data[0] else b.rate)
  }

  function ReceivedAll(b: Board, fs: seq<Frame>): Board
    requires forall i :: 0 <= i < |fs| ==> ValidFrame(fs[i])
    decreases |fs|
  {
    if fs == [] then b else Received(ReceivedAll(b, fs[..|fs| - 1]), fs[|fs| - 1])
  }

  /** `prepare_can_tx_message` with an extended identifier. */
  function Prepared(id: nat): Frame {
    Frame(true, id, 8, seq(8, _ => 0x55))
  }

  function Announcement(base: nat): Frame {
    Frame(true, base + API_ANNOUNCEMENT, 8, [SETTINGS_CHANNEL_COUNT, 0x55, 0x55, 0x55, 0x55, 1, 0, 1])
  }

  function Announced(b: Board): Board {
    b.(sent := b.sent + [Announcement(b.base)])
  }

  function TimedOut(b: Board): Board {
    if b.provisioned then b else Announced(b)
  }

  /** A wait of the worker: a second without an event, or frames to read. */
  datatype Event = Quiet | Frames(frames: seq<Frame>)

  predicate ValidEvent(e: Event) {
    e.Frames? ==> forall i :: 0 <= i < |e.frames| ==> ValidFrame(e.frames[i])
  }

  function Handled(b: Board, e: Event): Board
    requires ValidEvent(e)
  {
    match e
    case Quiet => TimedOut(b)
    case Frames(fs) => ReceivedAll(b, fs)
  }

  function HandledAll(b: Board, es: seq<Event>): Board
    requires forall i :: 0 <= i < |es| ==> ValidEvent(es[i])
    decreases |es|
  {
    if es == [] then b else Handled(HandledAll(b, es[..|es| - 1]), es[|es| - 1])
  }

  /** The firmware of a board and its global variables. */
  class Firmware {
    var canBaseAddress: nat
    var provisioned: bool
    var updateRateHz: nat
    var started: bool
    var sent: seq<Frame>

    ghost function View(): Board
      reads this
    {
      Board(canBaseAddress, provisioned, updateRateHz, started, sent)
    }

    /** `init_can_operating_parameters`, from the two address jumpers. */
    constructor (adr1: bool, adr2: bool)
      ensures View() == PowerUp(adr1, adr2)
    {
      var offset := 0;
      if adr1 {
        offset := offset + 0x01;
      }
      if adr2 {
        offset := offset + 0x02;
      }
      canBaseAddress := ANALOGX_CAN_BASE_ID + ANALOGX_CAN_API_RANGE * offset;
      provisioned, updateRateHz, started, sent := false, DEFAULT_SAMPLE_RATE, false, [];
    }

    /** `api_set_config_group_1` */
    method SetConfigGroup1(f: Frame)
      requires ValidFrame(f)
      modifies this`updateRateHz
      ensures updateRateHz == if f.dlc >= 1 then f.data[0] else old(updateRateHz)
    {
      if f.dlc < 1 {
        return;
      }
      updateRateHz := f.data[0];
    }

    /** `dispatch_can_rx`; the difference of the identifiers is an unsigned word. */
    method DispatchCanRx(f: Frame) returns (handled: bool)
      requires ValidFrame(f) && canBaseAddress < 0x2000_0000
      modifies this
      ensures View() == Received(old(View()), f)
      ensures handled == Configures(f, canBaseAddress)
    {
      var command := (f.id - canBaseAddress) % TWO32;
      SameDifference(f.id, canBaseAddress);
      if command == API_SET_CONFIG_GROUP_1 {
        SetConfigGroup1(f);
        provisioned := true;
        return true;
      }
      return false;
    }

    /** `api_send_announcement` */
    method SendAnnouncement()
      modifies this`sent
      ensures View() == Announced(old(View()))
    {
      var f := Prepared(canBaseAddress + API_ANNOUNCEMENT);
      var data := f.data[0 := SETTINGS_CHANNEL_COUNT][5 := 1][6 := 0][7 := 1];
      assert data == Announcement(canBaseAddress).data;
      sent := sent + [f.(data := data)];
    }

    /** `can_worker`: the start-up announcement, and then one event after the other. */
    method CanWorker(events: seq<Event>)
      requires canBaseAddress < 0x2000_0000 && forall i :: 0 <= i < |events| ==> ValidEvent(events[i])
      modifies this
      ensures View() == HandledAll(Announced(old(View())).(started := true), events)
    {
      hide ReceivedAll, HandledAll, Announced;
      SendAnnouncement();
      started := true;
      ghost var b := View();
      var i := 0;
      NoEvents(b);
      while i < |events|
        invariant 0 <= i <= |events| && canBaseAddress == old(canBaseAddress)
        invariant View() == HandledAll(b, events[..i])
      {
        NextEvent(b, events, i);
        match events[i] {
          case Quiet =>
            if !provisioned {
              SendAnnouncement();
            }
          case Frames(fs) =>
            ReceiveAll(fs);
        }
        i := i + 1;
      }
      assert events[..i] == events;
    }

    /** The loop that empties the receive mailboxes. */
    method ReceiveAll(fs: seq<Frame>)
      requires canBaseAddress < 0x2000_0000 && forall i :: 0 <= i < |fs| ==> ValidFrame(fs[i])
      modifies this
      ensures View() == ReceivedAll(old(View()), fs) && canBaseAddress == old(canBaseAddress)
    {
      hide ReceivedAll;
      var k := 0;
      NoFrames(View());
      while k < |fs|
        invariant 0 <= k <= |fs| && canBaseAddress == old(canBaseAddress)
        invariant View() == ReceivedAll(old(View()), fs[..k])
      {
        NextFrame(old(View()), fs, k);
        var handled := DispatchCanRx(fs[k]);
        k := k + 1;
      }
      assert fs[..k] == fs;
    }
  }

  lemma SameDifference(id: nat, base: nat)
    requires id < 0x2000_0000 && base < 0x2000_0000
    ensures (id - base) % TWO32 == API_SET_CONFIG_GROUP_1 <==> id == base + API_SET_CONFIG_GROUP_1
  {
  }

  lemma NoEvents(b: Board)
    ensures HandledAll(b, []) == b
  {
  }

  lemma NoFrames(b: Board)
    ensures ReceivedAll(b, []) == b
  {
  }

  lemma NextEvent(b: Board, events: seq<Event>, i: nat)
    requires i < |events| && forall k :: 0 <= k < |events| ==> ValidEvent(events[k])
    ensures HandledAll(b, events[..i + 1]) == Handled(HandledAll(b, events[..i]), events[i])
  {
    assert events[..i + 1][..i] == events[..i];
  }

  lemma NextFrame(b: Board, fs: seq<Frame>, i: nat)
    requires i < |fs| && forall k :: 0 <= k < |fs| ==> ValidFrame(fs[k])
    ensures ReceivedAll(b, fs[..i + 1]) == Received(ReceivedAll(b, fs[..i]), fs[i])
  {
    assert fs[..i + 1][..i] == fs[..i];
  }
}
