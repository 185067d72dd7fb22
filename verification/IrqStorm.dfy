/**
 The message chain of the IRQ storm test: N worker threads with bounded
 mailboxes, fed from both ends by two timer interrupts.  The chain is a state
 machine whose steps are the pieces of code that run without interruption.
 */
module IrqStorm {
  import opened Basics

  datatype Direction = Left | Right

  /**
   A message.  The program only has the direction; the identity (a running
   number for each direction) and the threads that fetched the message so far
   are kept to state where messages go.
   */
  datatype Message = Message(dir: Direction, id: nat, path: seq<nat>)

  /** What a worker thread is doing between two of its atomic steps. */
  datatype Worker =
    | Waiting                    // in chMBFetch
    | Holding(m: Message)        // fetched, not yet re-sent
    | Flagging                   // its post failed, `saturated` not yet written

  datatype State = State(
    size: nat,
    mb: seq<seq<Message>>,
    workers: seq<Worker>,
    saturated: bool,
    acceptedLeft: nat,               // injections that found room
    acceptedRight: nat,
    retired: seq<Message>,           // messages that left the chain at its ends
    dropped: seq<Message>,           // messages lost to a full mailbox inside the chain
    failed: bool)                    // some post failed since `saturated` was last cleared
  {
    function N(): nat {
      |mb|
    }

    predicate Shape() {
      |mb| >= 1 && |workers| == |mb|
    }

    function Accepted(d: Direction): nat {
      if d == Right then acceptedRight else acceptedLeft
    }
  }

  datatype Step =
    | Inject(dir: Direction)   // a timer interrupt
    | Fetch(i: nat)            // worker i takes a message from its mailbox
    | Forward(i: nat)          // worker i re-sends or retires the message it holds
    | Flag(i: nat)             // worker i writes `saturated` after a failed post
    | Clear                    // the test loop resets `saturated`

  /** The mailbox that an interrupt posts to: right-moving messages enter at thread 0. */
  function Entry(d: Direction, n: nat): nat
    requires n >= 1
  {
    if d == Right then 0 else n - 1
  }

  /** The next thread; beyond the ends it is not below `n` (the program relies on unsigned wrap-around). */
  function Target(d: Direction, i: nat, n: nat): nat {
    if d == Right then i + 1 else if i == 0 then n else i - 1
  }

  predicate Enabled(s: State, step: Step)
    requires s.Shape()
  {
    match step
    case Inject(_) => true
    case Fetch(i) => i < s.N() && s.workers[i].Waiting? && s.mb[i] != []
    case Forward(i) => i < s.N() && s.workers[i].Holding?
    case Flag(i) => i < s.N() && s.workers[i].Flagging?
    case Clear => true
  }

  function Next(s: State, step: Step): State
    requires s.Shape() && Enabled(s, step)
  {
    match step
    case Inject(d) => DoInject(s, d)
    case Fetch(i) => DoFetch(s, i)
    case Forward(i) => DoForward(s, i)
    case Flag(i) =>
      s.(workers := s.workers[i := Waiting], saturated := true)
    case Clear =>
      s.(saturated := false, failed := false)
  }

  /** The timer callbacks: post and flag are one step, interrupts are locked out. */
  function DoInject(s: State, d: Direction): State
    requires s.Shape()
  {
    var e := Entry(d, s.N());
    if |s.mb[e]| < s.size then
      s.(mb := s.mb[e := s.mb[e] + [Message(d, s.Accepted(d), [])]],
         acceptedRight := if d == Right then s.acceptedRight + 1 else s.acceptedRight,
         acceptedLeft := if d == Left then s.acceptedLeft + 1 else s.acceptedLeft)
    else
      s.(saturated := true, failed := true)
  }

  function DoFetch(s: State, i: nat): State
    requires s.Shape() && Enabled(s, Fetch(i))
  {
    var m := s.mb[i][0];
    s.(mb := s.mb[i := s.mb[i][1..]], workers := s.workers[i := Holding(m.(path := m.path + [i]))])
  }

  function DoForward(s: State, i: nat): State
    requires s.Shape() && Enabled(s, Forward(i))
  {
    var m := s.workers[i].m;
    var t := Target(m.dir, i, s.N());
    if t < s.N() then
      if |s.mb[t]| < s.size then
        s.(mb := s.mb[t := s.mb[t] + [m]], workers := s.workers[i := Waiting])
      else
        s.(workers := s.workers[i := Flagging], dropped := s.dropped + [m], failed := true)
    else
      s.(workers := s.workers[i := Waiting], retired := s.retired + [m])
  }

  /** The state before the timers start. */
  function Initial(n: nat, size: nat): (s: State)
    requires n >= 1
    ensures s.Shape()
  {
    State(size, seq(n, _ => []), seq(n, _ => Waiting), false, 0, 0, [], [], false)
  }

  // ----- messages of one direction, from the exit of the chain to its entry

  /** The running numbers of the messages of direction `d` in a sequence. */
  function Ids(q: seq<Message>, d: Direction): seq<nat> {
    if q == [] then []
    else (if q[0].dir == d then [q[0].id] else []) + Ids(q[1..], d)
  }

  function HeldBy(w: Worker): seq<Message> {
    if w.Holding? then [w.m] else []
  }

  /** The thread at distance `j` from where messages of direction `d` leave the chain. */
  function Slot(d: Direction, j: nat, n: nat): nat
    requires j < n
  {
    if d == Right then n - 1 - j else j
  }

  /** What thread `i` has of direction `d`: the message it holds, then its mailbox in order. */
  function At(s: State, d: Direction, i: nat): seq<nat>
    requires s.Shape() && i < s.N()
  {
    Ids(HeldBy(s.workers[i]), d) + Ids(s.mb[i], d)
  }

  /** The threads from the exit to the entry. */
  function Slots(s: State, d: Direction): (ls: seq<seq<nat>>)
    requires s.Shape()
    ensures |ls| == s.N() && forall j :: 0 <= j < s.N() ==> ls[j] == At(s, d, Slot(d, j, s.N()))
  {
    seq(s.N(), j requires 0 <= j < s.N() => At(s, d, Slot(d, j, s.N())))
  }

  /** First the retired messages, then the threads from the exit to the entry. */
  function Lines(s: State, d: Direction): (ls: seq<seq<nat>>)
    requires s.Shape()
    ensures |ls| == s.N() + 1 && ls[0] == Ids(s.retired, d)
    ensures forall j :: 1 <= j <= s.N() ==> ls[j] == At(s, d, Slot(d, j - 1, s.N()))
  {
    var ls := [Ids(s.retired, d)] + Slots(s, d);
    LinesAre(s, d, ls);
    ls
  }

  lemma LinesAre(s: State, d: Direction, ls: seq<seq<nat>>)
    requires s.Shape() && ls == [Ids(s.retired, d)] + Slots(s, d)
    ensures forall j :: 1 <= j <= s.N() ==> ls[j] == At(s, d, Slot(d, j - 1, s.N()))
  {
    hide Ids, At;
    forall j | 1 <= j <= s.N() ensures ls[j] == At(s, d, Slot(d, j - 1, s.N())) {
      assert ls[j] == Slots(s, d)[j - 1];
    }
  }

  function Concat(ls: seq<seq<nat>>): seq<nat> {
    if ls == [] then [] else ls[0] + Concat(ls[1..])
  }

  /** The numbers 0..k-1, in order. */
  function Numbers(k: nat): (q: seq<nat>)
    ensures |q| == k && forall i :: 0 <= i < k ==> q[i] == i
  {
    if k == 0 then [] else Numbers(k - 1) + [k - 1]
  }

  lemma {:induction false} ConcatSplit(ls: seq<seq<nat>>, p: nat)
    requires p < |ls|
    ensures Concat(ls) == Concat(ls[..p]) + ls[p] + Concat(ls[p + 1..])
  {
    if p == 0 {
      assert ls[..0] == [];
    } else {
      ConcatSplit(ls[1..], p - 1);
      assert ls[1..][..p - 1] == ls[1..p] && ls[1..][p..] == ls[p + 1..];
      assert ls[..p][1..] == ls[1..p];
    }
  }

  lemma ConcatSplitTwo(ls: seq<seq<nat>>, p: nat)
    requires p + 1 < |ls|
    ensures Concat(ls) == Concat(ls[..p]) + ((ls[p] + ls[p + 1]) + Concat(ls[p + 2..]))
  {
    hide Concat;
    ConcatSplit(ls, p);
    ConcatHead(ls, p + 1);
    Regroup(Concat(ls[..p]), ls[p], ls[p + 1], Concat(ls[p + 2..]));
  }

  lemma ConcatHead(ls: seq<seq<nat>>, p: nat)
    requires p < |ls|
    ensures Concat(ls[p..]) == ls[p] + Concat(ls[p + 1..])
  {
    assert ls[p..][1..] == ls[p + 1..];
  }

  lemma Regroup(a: seq<nat>, b: seq<nat>, c: seq<nat>, d: seq<nat>)
    ensures a + b + (c + d) == a + ((b + c) + d)
  {
  }

  /** Taking the first number of one line and putting it at the end of the line before it changes nothing. */
  lemma ConcatMove(ls: seq<seq<nat>>, ms: seq<seq<nat>>, p: nat, x: nat)
    requires p + 1 < |ls| && |ls[p + 1]| > 0 && ls[p + 1][0] == x
    requires ms == ls[p := ls[p] + [x]][p + 1 := ls[p + 1][1..]]
    ensures Concat(ms) == Concat(ls)
  {
    hide Concat;
    ConcatSplitTwo(ls, p);
    ConcatSplitTwo(ms, p);
    assert ls[..p] == ms[..p] && ls[p + 2..] == ms[p + 2..];
    assert ms[p] + ms[p + 1] == ls[p] + ls[p + 1];
  }

  /** A number added at the end of the last line is added at the end of everything. */
  lemma ConcatAppend(ls: seq<seq<nat>>, ms: seq<seq<nat>>, x: nat)
    requires ls != [] && ms == ls[|ls| - 1 := ls[|ls| - 1] + [x]]
    ensures Concat(ms) == Concat(ls) + [x]
  {
    hide Concat;
    var p := |ls| - 1;
    ConcatToLast(ls);
    ConcatToLast(ms);
    assert ls[..p] == ms[..p];
    AppendGroup(Concat(ls[..p]), ls[p], x);
  }

  lemma AppendGroup(a: seq<nat>, b: seq<nat>, x: nat)
    ensures a + (b + [x]) == a + b + [x]
  {
  }

  lemma ConcatToLast(ls: seq<seq<nat>>)
    requires ls != []
    ensures Concat(ls) == Concat(ls[..|ls| - 1]) + ls[|ls| - 1]
  {
    hide Concat;
    var p := |ls| - 1;
    ConcatSplit(ls, p);
    assert ls[p + 1..] == [];
    ConcatNone();
    assert Concat(ls[..p]) + ls[p] + [] == Concat(ls[..p]) + ls[p];
  }

  lemma ConcatNone()
    ensures Concat([]) == []
  {
  }

  /** Removing the first number of a line removes one number; the order of the others stays. */
  lemma ConcatRemove(ls: seq<seq<nat>>, ms: seq<seq<nat>>, p: nat, x: nat)
    requires p < |ls| && |ls[p]| > 0 && ls[p][0] == x
    requires ms == ls[p := ls[p][1..]]
    ensures Increasing(Concat(ls)) ==> Increasing(Concat(ms))
    ensures multiset(Concat(ls)) == multiset(Concat(ms)) + multiset{x}
  {
    hide Concat, Increasing;
    var a, b, rest := Concat(ls[..p]), Concat(ls[p + 1..]), ls[p][1..];
    ConcatSplit(ls, p);
    ConcatSplit(ms, p);
    assert ls[..p] == ms[..p] && ls[p + 1..] == ms[p + 1..];
    assert ls[p] == [x] + rest;
    assert Concat(ls) == a + [x] + (rest + b);
    assert Concat(ms) == a + (rest + b);
    RemoveOne(a, x, rest + b);
  }

  lemma RemoveOne(a: seq<nat>, x: nat, b: seq<nat>)
    ensures Increasing(a + [x] + b) ==> Increasing(a + b)
    ensures multiset(a + [x] + b) == multiset(a + b) + multiset{x}
  {
    var q, r := a + [x] + b, a + b;
    if Increasing(q) {
      forall i, j | 0 <= i < j < |r| ensures r[i] < r[j] {
        var i', j' := if i < |a| then i else i + 1, if j < |a| then j else j + 1;
        assert q[i'] == r[i] && q[j'] == r[j];
      }
    }
  }
}
