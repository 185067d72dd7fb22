/**
 Consequences over whole runs of the message chain: counts, retirement order,
 routes, the meaning of `saturated`, and draining.
 */
module IrqStormRuns {
  import opened Basics
  import opened IrqStorm
  import opened IrqStormOrder

  // ----- counts

  /** The number of messages of direction `d` at the threads lo..hi-1. */
  function CountAt(s: State, d: Direction, lo: nat, hi: nat): nat
    requires s.Shape() && lo <= hi <= s.N()
    decreases hi
  {
    if lo == hi then 0 else CountAt(s, d, lo, hi - 1) + |At(s, d, hi - 1)|
  }

  lemma {:induction false} CountAtFirst(s: State, d: Direction, lo: nat, hi: nat)
    requires s.Shape() && lo < hi <= s.N()
    ensures CountAt(s, d, lo, hi) == |At(s, d, lo)| + CountAt(s, d, lo + 1, hi)
    decreases hi
  {
    hide At;
    if lo + 1 < hi {
      CountAtFirst(s, d, lo, hi - 1);
    } else {
      assert CountAt(s, d, lo, lo) == 0 && CountAt(s, d, hi, hi) == 0;
    }
  }

  /** Messages in all mailboxes of threads 0..k-1 and in the hands of these threads. */
  function Queued(s: State, k: nat): nat
    requires k <= |s.mb|
  {
    if k == 0 then 0 else Queued(s, k - 1) + |s.mb[k - 1]|
  }

  function Held(s: State, k: nat): nat
    requires k <= |s.workers|
  {
    if k == 0 then 0 else Held(s, k - 1) + |HeldBy(s.workers[k - 1])|
  }

  lemma {:induction false} IdsCount(q: seq<Message>)
    ensures |Ids(q, Left)| + |Ids(q, Right)| == |q|
  {
    if q != [] {
      IdsCount(q[1..]);
    }
  }

  lemma {:induction false} CountBoth(s: State, k: nat)
    requires s.Shape() && k <= s.N()
    ensures CountAt(s, Left, 0, k) + CountAt(s, Right, 0, k) == Queued(s, k) + Held(s, k)
  {
    hide Ids, HeldBy;
    if k != 0 {
      CountBoth(s, k - 1);
      IdsCount(s.mb[k - 1]);
      IdsCount(HeldBy(s.workers[k - 1]));
    }
  }

  lemma {:induction false} LinesCount(s: State, d: Direction, k: nat)
    requires s.Shape() && k <= s.N()
    ensures |Concat(Lines(s, d)[..k + 1])| == |Ids(s.retired, d)|
            + (if d == Right then CountAt(s, d, s.N() - k, s.N()) else CountAt(s, d, 0, k))
    decreases k
  {
    hide At, Ids;
    var ls := Lines(s, d);
    if k == 0 {
      assert ls[..1] == [ls[0]];
      assert Concat([ls[0]]) == ls[0] + Concat([ls[0]][1..]);
    } else {
      LinesCount(s, d, k - 1);
      ConcatLast(ls, k);
      if d == Right {
        CountAtFirst(s, d, s.N() - k, s.N());
      }
    }
  }

  lemma ConcatLast(ls: seq<seq<nat>>, k: nat)
    requires k < |ls|
    ensures Concat(ls[..k + 1]) == Concat(ls[..k]) + ls[k]
  {
    ConcatSplit(ls[..k + 1], k);
    assert ls[..k + 1][..k] == ls[..k] && ls[..k + 1][k + 1..] == [];
  }

  /** Accepted injections are queued, held, retired or dropped in transit. */
  lemma CountLaw(s: State)
    requires Inv(s)
    ensures s.acceptedLeft + s.acceptedRight == Queued(s, s.N()) + Held(s, s.N()) + |s.retired| + |s.dropped|
  {
    forall d: Direction ensures |Trace(s, d)| + |Ids(s.dropped, d)| == s.Accepted(d) {
      assert Conserved(s, d);
      CountOne(Trace(s, d), Ids(s.dropped, d), s.Accepted(d));
    }
    hide Inv, Ids, At, Trace, Conserved, Ordered, Lines;
    TraceCount(s, Left);
    TraceCount(s, Right);
    CountBoth(s, s.N());
    IdsCount(s.retired);
    IdsCount(s.dropped);
  }

  lemma CountOne(q: seq<nat>, lost: seq<nat>, k: nat)
    requires multiset(q) + multiset(lost) == multiset(Numbers(k))
    ensures |q| + |lost| == k
  {
    assert |multiset(q) + multiset(lost)| == |q| + |lost|;
    assert |multiset(Numbers(k))| == k;
  }

  lemma TraceCount(s: State, d: Direction)
    requires s.Shape()
    ensures |Trace(s, d)| == |Ids(s.retired, d)| + CountAt(s, d, 0, s.N())
  {
    hide At, Ids;
    LinesCount(s, d, s.N());
    assert Lines(s, d)[..s.N() + 1] == Lines(s, d);
  }

  // ----- order of retirement

  /** Messages of one direction leave the chain in the order in which they entered it. */
  lemma RetiredInOrder(s: State, d: Direction)
    requires Inv(s)
    ensures Increasing(Ids(s.retired, d))
  {
    var ls := Lines(s, d);
    assert Ordered(s, d);
    assert Concat(ls) == ls[0] + Concat(ls[1..]);
    var r := Ids(s.retired, d);
    forall a, b | 0 <= a < b < |r| ensures r[a] < r[b] {
      assert r[a] == Trace(s, d)[a] && r[b] == Trace(s, d)[b];
    }
  }

  // ----- routes

  /** The first `k` threads on the way of direction `d`. */
  function Route(d: Direction, k: nat, n: nat): (r: seq<nat>)
    requires k <= n
    ensures |r| == k && forall j :: 0 <= j < k ==> r[j] == if d == Right then j else n - 1 - j
  {
    seq(k, j requires 0 <= j < k => if d == Right then j else n - 1 - j)
  }

  /** The number of threads that direction `d` passes before thread `i`. */
  function Passed(d: Direction, i: nat, n: nat): nat
    requires i < n
  {
    if d == Right then i else n - 1 - i
  }

  /** A message waiting at thread `i` has been fetched by exactly the threads before it, in order. */
  predicate QueueRouted(q: seq<Message>, i: nat, n: nat)
    requires i < n
  {
    forall a :: 0 <= a < |q| ==> q[a].path == Route(q[a].dir, Passed(q[a].dir, i, n), n)
  }

  predicate WorkerRouted(w: Worker, i: nat, n: nat)
    requires i < n
  {
    w.Holding? ==> w.m.path == Route(w.m.dir, Passed(w.m.dir, i, n) + 1, n)
  }

  /** A message that left the chain has been through all threads. */
  predicate RetiredRouted(q: seq<Message>, n: nat) {
    forall a :: 0 <= a < |q| ==> q[a].path == Route(q[a].dir, n, n)
  }

  /** A message that was lost had been through some threads in order, but not through the last. */
  predicate DroppedRouted(q: seq<Message>, n: nat) {
    forall a :: 0 <= a < |q| ==> 0 < |q[a].path| < n && q[a].path == Route(q[a].dir, |q[a].path|, n)
  }

  predicate Routed(s: State) {
    && s.Shape()
    && (forall i :: 0 <= i < s.N() ==> QueueRouted(s.mb[i], i, s.N()))
    && (forall i :: 0 <= i < s.N() ==> WorkerRouted(s.workers[i], i, s.N()))
    && RetiredRouted(s.retired, s.N())
    && DroppedRouted(s.dropped, s.N())
  }

  lemma FetchRoutes(s: State, i: nat)
    requires Routed(s) && Enabled(s, Fetch(i))
    ensures Routed(DoFetch(s, i))
  {
    var m, n := s.mb[i][0], s.N();
    assert m.path + [i] == Route(m.dir, Passed(m.dir, i, n) + 1, n);
    hide Route, Passed;
    var t := DoFetch(s, i);
    assert QueueRouted(t.mb[i], i, n) && WorkerRouted(t.workers[i], i, n);
    hide QueueRouted, WorkerRouted;
    assert forall j :: 0 <= j < n ==> QueueRouted(t.mb[j], j, n) && WorkerRouted(t.workers[j], j, n);
  }

  /** Where the message of worker `i` goes, it is on its route. */
  lemma ForwardOnRoute(s: State, i: nat)
    requires Routed(s) && Enabled(s, Forward(i))
    ensures var m, n := s.workers[i].m, s.N();
            var k := Target(m.dir, i, n);
            && (k < n ==> QueueRouted(s.mb[k] + [m], k, n) && DroppedRouted(s.dropped + [m], n))
            && (k >= n ==> RetiredRouted(s.retired + [m], n))
  {
    hide Route;
    var m, n := s.workers[i].m, s.N();
    var k := Target(m.dir, i, n);
    assert WorkerRouted(s.workers[i], i, n);
    if k < n {
      assert Passed(m.dir, k, n) == Passed(m.dir, i, n) + 1 < n;
      assert QueueRouted(s.mb[k], k, n);
    } else {
      assert Passed(m.dir, i, n) + 1 == n;
    }
  }

  lemma ForwardRoutes(s: State, i: nat)
    requires Routed(s) && Enabled(s, Forward(i))
    ensures Routed(DoForward(s, i))
  {
    hide Route, Passed, QueueRouted, RetiredRouted, DroppedRouted;
    ForwardOnRoute(s, i);
  }

  /** A message goes through the threads one after the other until it retires behind the last or is dropped. */
  lemma StepRoutes(s: State, step: Step)
    requires Routed(s) && Enabled(s, step)
    ensures Routed(Next(s, step))
  {
    match step
    case Inject(d) =>
      var i := Entry(d, s.N());
      assert Passed(d, i, s.N()) == 0 && Route(d, 0, s.N()) == [];
      assert QueueRouted(Next(s, step).mb[i], i, s.N());
    case Fetch(i) => FetchRoutes(s, i);
    case Forward(i) => ForwardRoutes(s, i);
    case Flag(i) =>
    case Clear =>
  }

  // ----- what `saturated` says

  /** No worker is between a failed post and the write of the flag. */
  predicate Settled(s: State) {
    NoneFlagging(s.workers)
  }

  predicate NoneFlagging(ws: seq<Worker>) {
    forall i :: 0 <= i < |ws| ==> !ws[i].Flagging?
  }

  /** A failure is flagged or about to be. */
  predicate NotLost(s: State) {
    s.failed ==> s.saturated || !Settled(s)
  }

  /** And nothing is flagged, or about to be, without a failure since the last clear. */
  predicate Punctual(s: State) {
    NotLost(s) && (s.saturated || !Settled(s) ==> s.failed)
  }

  lemma SettledSame(ws: seq<Worker>, i: nat, w: Worker)
    requires i < |ws| && !ws[i].Flagging? && !w.Flagging?
    ensures NoneFlagging(ws) <==> NoneFlagging(ws[i := w])
  {
    var vs := ws[i := w];
    assert forall j :: 0 <= j < |ws| ==> (ws[j].Flagging? <==> vs[j].Flagging?);
  }

  /** A step that changes neither the flag nor the failures, and no worker that is flagging. */
  lemma StepPunctual(s: State, step: Step)
    requires s.Shape() && Enabled(s, step)
    ensures NotLost(s) ==> NotLost(Next(s, step))
    ensures Punctual(s) && (step == Clear ==> Settled(s)) ==> Punctual(Next(s, step))
  {
    var t := Next(s, step);
    match step
    case Inject(_) =>
      assert t.workers == s.workers;
    case Fetch(i) =>
      SettledSame(s.workers, i, t.workers[i]);
    case Forward(i) =>
      if t.workers[i].Flagging? {
        assert !Settled(t);
      } else {
        SettledSame(s.workers, i, t.workers[i]);
      }
    case Flag(i) =>
      assert !Settled(s);
    case Clear =>
  }

  // ----- posts that fail

  /** The post of a step finds its mailbox full: the one at the entry, or the next one on the way. */
  predicate PostFails(s: State, step: Step)
    requires s.Shape() && Enabled(s, step)
  {
    match step
    case Inject(d) => |s.mb[Entry(d, s.N())]| >= s.size
    case Forward(i) =>
      var t := Target(s.workers[i].m.dir, i, s.N());
      t < s.N() && |s.mb[t]| >= s.size
    case _ => false
  }

  /** A failed post is on record until the flag is cleared, and nothing else is. */
  lemma StepFails(s: State, step: Step)
    requires s.Shape() && Enabled(s, step)
    ensures Next(s, step).failed <==> step != Clear && (s.failed || PostFails(s, step))
  {
  }

  /** The post of step `k` of a run fails, and the flag is not cleared afterwards. */
  ghost predicate FailsAt(s: State, steps: seq<Step>, k: nat)
    requires s.Shape() && CanRun(s, steps)
  {
    && k < |steps|
    && CanRun(s, steps[..k])
    && Enabled(Run(s, steps[..k]), steps[k])
    && PostFails(Run(s, steps[..k]), steps[k])
    && forall j :: k < j < |steps| ==> steps[j] != Clear
  }

  /** Some post of a run has failed since the flag was last cleared. */
  ghost predicate PostFailed(s: State, steps: seq<Step>)
    requires s.Shape() && CanRun(s, steps)
  {
    exists k: nat :: FailsAt(s, steps, k)
  }

  lemma FailsFirst(s: State, steps: seq<Step>)
    requires s.Shape() && steps != [] && CanRun(s, steps)
    ensures FailsAt(s, steps, 0) <==> PostFails(s, steps[0]) && Clear !in steps[1..]
  {
    hide Next, PostFails, Enabled;
    assert steps[..0] == [];
    assert forall j :: 0 < j < |steps| ==> steps[j] == steps[1..][j - 1];
  }

  lemma FailsLater(s: State, steps: seq<Step>, k: nat)
    requires s.Shape() && steps != [] && CanRun(s, steps)
    ensures FailsAt(s, steps, k + 1) <==> FailsAt(Next(s, steps[0]), steps[1..], k)
  {
    hide Next, PostFails, Enabled;
    var rest := steps[1..];
    if k < |rest| {
      var front := steps[..k + 1];
      assert front[0] == steps[0] && front[1..] == rest[..k];
      assert steps[k + 1] == rest[k];
      assert CanRun(s, front) <==> CanRun(Next(s, steps[0]), rest[..k]);
      assert (forall j :: k + 1 < j < |steps| ==> steps[j] != Clear)
        <==> (forall j :: k < j < |rest| ==> rest[j] != Clear) by {
        assert forall j :: 0 <= j < |rest| ==> rest[j] == steps[j + 1];
        assert forall j :: 0 < j < |steps| ==> steps[j] == rest[j - 1];
      }
    }
  }

  /** What is on record is exactly that: a post of the run that failed since the last clear. */
  lemma {:induction false} FailedExactly(s: State, steps: seq<Step>)
    requires s.Shape() && CanRun(s, steps)
    ensures Run(s, steps).failed <==> PostFailed(s, steps) || (s.failed && Clear !in steps)
    decreases |steps|
  {
    hide Next, PostFails, FailsAt;
    if steps == [] {
      forall k: nat ensures !FailsAt(s, steps, k) {
        NothingFails(s, k);
      }
    } else {
      var t, rest := Next(s, steps[0]), steps[1..];
      StepFails(s, steps[0]);
      FailedExactly(t, rest);
      FailsFirst(s, steps);
      FailedSplit(s, steps);
      assert Clear in steps <==> steps[0] == Clear || Clear in rest;
      ClearDoesNotFail(s, steps[0]);
    }
  }

  lemma NothingFails(s: State, k: nat)
    requires s.Shape()
    ensures !FailsAt(s, [], k)
  {
  }

  lemma ClearDoesNotFail(s: State, step: Step)
    requires s.Shape() && Enabled(s, step)
    ensures step == Clear ==> !PostFails(s, step)
  {
  }

  lemma FailedSplit(s: State, steps: seq<Step>)
    requires s.Shape() && steps != [] && CanRun(s, steps)
    ensures PostFailed(s, steps) <==> FailsAt(s, steps, 0) || PostFailed(Next(s, steps[0]), steps[1..])
  {
    hide Next, FailsAt;
    var t, rest := Next(s, steps[0]), steps[1..];
    if PostFailed(s, steps) && !FailsAt(s, steps, 0) {
      var k: nat :| FailsAt(s, steps, k);
      FailsLater(s, steps, k - 1);
    }
    if PostFailed(t, rest) {
      var k: nat :| FailsAt(t, rest, k);
      FailsLater(s, steps, k);
    }
  }

  // ----- how many posts succeed

  /** The injections of direction `d` in a run that find room. */
  function RoomFound(s: State, steps: seq<Step>, d: Direction): nat
    requires s.Shape() && CanRun(s, steps)
    decreases |steps|
  {
    if steps == [] then 0
    else
      (if steps[0] == Inject(d) && !PostFails(s, steps[0]) then 1 else 0) + RoomFound(Next(s, steps[0]), steps[1..], d)
  }

  /** The messages that a run loses inside the chain. */
  function Lost(s: State, steps: seq<Step>): nat
    requires s.Shape() && CanRun(s, steps)
    decreases |steps|
  {
    if steps == [] then 0
    else (if steps[0].Forward? && PostFails(s, steps[0]) then 1 else 0) + Lost(Next(s, steps[0]), steps[1..])
  }

  lemma StepAccepts(s: State, step: Step)
    requires s.Shape() && Enabled(s, step)
    ensures forall d: Direction :: Next(s, step).Accepted(d)
              == s.Accepted(d) + if step == Inject(d) && !PostFails(s, step) then 1 else 0
    ensures |Next(s, step).dropped| == |s.dropped| + if step.Forward? && PostFails(s, step) then 1 else 0
  {
  }

  /** Exactly the injections that find room are accepted, and exactly the re-sent messages that do not are dropped. */
  lemma {:induction false} RunAccepts(s: State, steps: seq<Step>)
    requires s.Shape() && CanRun(s, steps)
    ensures forall d: Direction :: Run(s, steps).Accepted(d) == s.Accepted(d) + RoomFound(s, steps, d)
    ensures |Run(s, steps).dropped| == |s.dropped| + Lost(s, steps)
    decreases |steps|
  {
    hide Next, PostFails;
    if steps != [] {
      StepAccepts(s, steps[0]);
      RunAccepts(Next(s, steps[0]), steps[1..]);
    }
  }

  /** Every clear of a run is taken while no worker is about to write the flag. */
  predicate QuietClears(s: State, steps: seq<Step>)
    requires s.Shape() && CanRun(s, steps)
    decreases |steps|
  {
    steps == [] || ((steps[0] == Clear ==> Settled(s)) && QuietClears(Next(s, steps[0]), steps[1..]))
  }

  lemma {:induction false} RunPunctual(s: State, steps: seq<Step>)
    requires s.Shape() && CanRun(s, steps) && NotLost(s)
    ensures NotLost(Run(s, steps))
    ensures Punctual(s) && QuietClears(s, steps) ==> Punctual(Run(s, steps))
    decreases |steps|
  {
    hide Punctual, NotLost, Settled, Next;
    if steps != [] {
      StepPunctual(s, steps[0]);
      RunPunctual(Next(s, steps[0]), steps[1..]);
    }
  }

  /**
   From the start, if every clear is taken while no worker is about to write
   the flag: the flag never stands unless a post has failed since it was
   cleared, and it is exact in every state in which no worker is about to write
   it.
   */
  lemma SaturatedExactly(n: nat, size: nat, steps: seq<Step>)
    requires n >= 1 && CanRun(Initial(n, size), steps) && QuietClears(Initial(n, size), steps)
    ensures var s := Run(Initial(n, size), steps);
            && (s.saturated ==> PostFailed(Initial(n, size), steps))
            && (Settled(s) ==> (s.saturated <==> PostFailed(Initial(n, size), steps)))
  {
    hide PostFailed;
    RunPunctual(Initial(n, size), steps);
    FailedExactly(Initial(n, size), steps);
  }

  /** The flag stands only with a failure since the clear, whatever happens until the next one. */
  ghost predicate FlagsOnlyFailures(t: State)
    requires t.Shape()
  {
    forall steps :: CanRun(t, steps) && Clear !in steps ==> (Run(t, steps).saturated ==> PostFailed(t, steps))
  }

  lemma {:induction false} NoClears(s: State, steps: seq<Step>)
    requires s.Shape() && CanRun(s, steps) && Clear !in steps
    ensures QuietClears(s, steps)
    decreases |steps|
  {
    hide Next;
    if steps != [] {
      assert steps[0] in steps;
      NoClears(Next(s, steps[0]), steps[1..]);
    }
  }

  /** That holds after a clear if and only if it is taken while no worker is about to write the flag. */
  lemma ClearExactly(s: State)
    requires s.Shape()
    ensures FlagsOnlyFailures(Next(s, Clear)) <==> Settled(s)
  {
    hide PostFailed;
    var t := Next(s, Clear);
    if Settled(s) {
      forall steps | CanRun(t, steps) && Clear !in steps
        ensures Run(t, steps).saturated ==> PostFailed(t, steps)
      {
        NoClears(t, steps);
        RunPunctual(t, steps);
        FailedExactly(t, steps);
      }
    } else {
      var i :| 0 <= i < |s.workers| && s.workers[i].Flagging?;
      LateFlag(s, i);
    }
  }

  /** A worker that is flagging when the flag is cleared sets it again without a failure. */
  lemma LateFlag(s: State, i: nat)
    requires s.Shape() && i < |s.workers| && s.workers[i].Flagging?
    ensures CanRun(Next(s, Clear), [Flag(i)])
    ensures Run(Next(s, Clear), [Flag(i)]).saturated && !PostFailed(Next(s, Clear), [Flag(i)])
    ensures !Run(Next(s, Clear), [Flag(i)]).failed
  {
    hide PostFailed;
    var t := Next(s, Clear);
    var u := Next(t, Flag(i));
    assert [Flag(i)][1..] == [];
    assert CanRun(u, []) && Run(u, []) == u;
    FailedExactly(t, [Flag(i)]);
  }

  /** With two threads and mailboxes of one message: a failed post is not yet visible in the flag. */
  lemma FlagTooLate() returns (s: State, steps: seq<Step>)
    ensures s == Initial(2, 1) && CanRun(s, steps)
    ensures Run(s, steps).failed && !Run(s, steps).saturated
  {
    s := Initial(2, 1);
    steps := [Inject(Right), Fetch(0), Inject(Left), Forward(0)];
    var s1 := Next(s, steps[0]);
    var s2 := Next(s1, steps[1]);
    var s3 := Next(s2, steps[2]);
    var s4 := Next(s3, steps[3]);
    assert steps[1..] == [Fetch(0), Inject(Left), Forward(0)];
    assert steps[1..][1..] == [Inject(Left), Forward(0)];
    assert steps[1..][1..][1..] == [Forward(0)];
    assert Run(s3, [Forward(0)]) == Run(s4, []) == s4;
  }

  /** And if the flag is cleared just then, it is set later without any failure since. */
  lemma FlagAfterClear() returns (s: State, steps: seq<Step>)
    ensures s == Initial(2, 1) && CanRun(s, steps)
    ensures !Run(s, steps).failed && Run(s, steps).saturated
  {
    hide CanRun, Run;
    s := Initial(2, 1);
    var a, b, c, d, e, f := Inject(Right), Fetch(0), Inject(Left), Forward(0), Clear, Flag(0);
    var s1 := Next(s, a);
    var s2 := Next(s1, b);
    var s3 := Next(s2, c);
    var s4 := Next(s3, d);
    assert s4.workers[0] == Flagging;
    var t := [e, f];
    LateFlag(s4, 0);
    RunFirst(s4, e, [f]);
    assert [e] + [f] == t;
    RunFirst(s3, d, t);
    RunFirst(s2, c, [d] + t);
    RunFirst(s1, b, [c] + ([d] + t));
    RunFirst(s, a, [b] + ([c] + ([d] + t)));
    steps := [a] + ([b] + ([c] + ([d] + t)));
  }

  lemma RunFirst(s: State, step: Step, rest: seq<Step>)
    requires s.Shape() && Enabled(s, step) && Next(s, step).Shape() && CanRun(Next(s, step), rest)
    ensures CanRun(s, [step] + rest) && Run(s, [step] + rest) == Run(Next(s, step), rest)
  {
    hide Next, Enabled;
    assert ([step] + rest)[1..] == rest;
  }

  // ----- draining

  /** The steps that a message at thread `i` still needs: three for each thread on its way. */
  function Weight(m: Message, i: nat, n: nat): (w: nat)
    requires i < n
    ensures w >= 3
  {
    3 * (if m.dir == Right then n - i else i + 1)
  }

  function QueueWeight(q: seq<Message>, i: nat, n: nat): nat
    requires i < n
  {
    if q == [] then 0 else Weight(q[0], i, n) + QueueWeight(q[1..], i, n)
  }

  function WorkerWeight(w: Worker, i: nat, n: nat): nat
    requires i < n
  {
    match w
    case Waiting => 0
    case Holding(m) => Weight(m, i, n) - 1
    case Flagging => 1
  }

  /** The work left at thread `i`. */
  function WorkAt(s: State, i: nat): nat
    requires s.Shape() && i < s.N()
  {
    QueueWeight(s.mb[i], i, s.N()) + WorkerWeight(s.workers[i], i, s.N())
  }

  /** The work left at the threads 0..k-1. */
  function WorkLeft(s: State, k: nat): nat
    requires s.Shape() && k <= s.N()
  {
    if k == 0 then 0 else WorkLeft(s, k - 1) + WorkAt(s, k - 1)
  }

  predicate OfWorker(step: Step) {
    step.Fetch? || step.Forward? || step.Flag?
  }

  lemma {:induction false} QueueWeightAppend(q: seq<Message>, m: Message, i: nat, n: nat)
    requires i < n
    ensures QueueWeight(q + [m], i, n) == QueueWeight(q, i, n) + Weight(m, i, n)
  {
    if q != [] {
      QueueWeightAppend(q[1..], m, i, n);
      assert (q + [m])[1..] == q[1..] + [m];
    } else {
      assert [m][1..] == [];
    }
  }

  /** Only the threads `i` and `j` change their work. */
  lemma {:induction false} WorkChange(s: State, t: State, i: nat, j: nat, k: nat)
    requires s.Shape() && t.Shape() && s.N() == t.N() && k <= s.N() && i < s.N() && j < s.N()
    requires forall l :: 0 <= l < s.N() && l != i && l != j ==> WorkAt(t, l) == WorkAt(s, l)
    ensures WorkLeft(t, k) - WorkLeft(s, k)
         == (if i < k then WorkAt(t, i) - WorkAt(s, i) else 0)
          + (if j < k && j != i then WorkAt(t, j) - WorkAt(s, j) else 0)
    decreases k
  {
    hide WorkAt;
    if k != 0 {
      WorkChange(s, t, i, j, k - 1);
    }
  }

  lemma ForwardWorks(s: State, i: nat)
    requires s.Shape() && Enabled(s, Forward(i))
    ensures DoForward(s, i).Shape() && DoForward(s, i).N() == s.N()
    ensures WorkLeft(DoForward(s, i), s.N()) < WorkLeft(s, s.N())
  {
    hide WorkLeft;
    var t, n, m := DoForward(s, i), s.N(), s.workers[i].m;
    var k := Target(m.dir, i, n);
    if k < n && |s.mb[k]| < s.size {
      QueueWeightAppend(s.mb[k], m, k, n);
      assert WorkAt(t, k) == WorkAt(s, k) + Weight(m, i, n) - 3;
      assert WorkAt(t, i) == WorkAt(s, i) - (Weight(m, i, n) - 1);
      WorkChange(s, t, i, k, n);
    } else {
      assert WorkAt(t, i) < WorkAt(s, i);
      WorkChange(s, t, i, i, n);
    }
  }

  lemma FetchWorks(s: State, i: nat)
    requires s.Shape() && Enabled(s, Fetch(i))
    ensures DoFetch(s, i).Shape() && DoFetch(s, i).N() == s.N()
    ensures WorkLeft(DoFetch(s, i), s.N()) < WorkLeft(s, s.N())
  {
    hide WorkLeft;
    assert WorkAt(DoFetch(s, i), i) < WorkAt(s, i);
    WorkChange(s, DoFetch(s, i), i, i, s.N());
  }

  /** Every step of a worker leaves less work. */
  lemma StepWorks(s: State, step: Step)
    requires s.Shape() && Enabled(s, step) && OfWorker(step)
    ensures Next(s, step).Shape() && Next(s, step).N() == s.N()
    ensures WorkLeft(Next(s, step), s.N()) < WorkLeft(s, s.N())
  {
    hide WorkLeft, DoFetch, DoForward;
    match step
    case Fetch(i) => FetchWorks(s, i);
    case Forward(i) => ForwardWorks(s, i);
    case Flag(i) =>
      var t := Next(s, step);
      assert WorkAt(t, i) < WorkAt(s, i);
      WorkChange(s, t, i, i, s.N());
  }

  /** With the timers stopped no schedule of the workers is longer than the work left. */
  lemma {:induction false} DrainBound(s: State, steps: seq<Step>)
    requires s.Shape() && CanRun(s, steps)
    requires forall a :: 0 <= a < |steps| ==> OfWorker(steps[a])
    ensures Run(s, steps).Shape() && Run(s, steps).N() == s.N()
    ensures |steps| + WorkLeft(Run(s, steps), s.N()) <= WorkLeft(s, s.N())
    decreases |steps|
  {
    hide WorkLeft, Next;
    if steps != [] {
      StepWorks(s, steps[0]);
      DrainBound(Next(s, steps[0]), steps[1..]);
    }
  }

  /** No worker can go on. */
  predicate Resting(s: State)
    requires s.Shape()
  {
    forall i :: 0 <= i < s.N() ==> !Enabled(s, Fetch(i)) && !Enabled(s, Forward(i)) && !Enabled(s, Flag(i))
  }

  /** When no worker can go on, nothing is left in the chain: what was accepted is retired or was dropped. */
  lemma Drained(s: State)
    requires Inv(s) && Resting(s)
    ensures forall i :: 0 <= i < s.N() ==> s.mb[i] == [] && s.workers[i] == Waiting
    ensures s.acceptedLeft + s.acceptedRight == |s.retired| + |s.dropped|
  {
    hide Conserved, Ordered, Bounded;
    forall i | 0 <= i < s.N() ensures s.mb[i] == [] && s.workers[i] == Waiting {
      assert !Enabled(s, Fetch(i)) && !Enabled(s, Forward(i)) && !Enabled(s, Flag(i));
    }
    CountLaw(s);
    NothingLeft(s, s.N());
  }

  /**
   Where no worker can go on after quiet clears, the flag is exact; this is
   what the pause of the test loop is for.
   */
  lemma DrainedExactly(n: nat, size: nat, steps: seq<Step>)
    requires n >= 1 && CanRun(Initial(n, size), steps) && QuietClears(Initial(n, size), steps)
    requires Resting(Run(Initial(n, size), steps))
    ensures var s := Run(Initial(n, size), steps);
            && Settled(s)
            && (s.saturated <==> PostFailed(Initial(n, size), steps))
            && s.acceptedLeft + s.acceptedRight == |s.retired| + |s.dropped|
  {
    var s := Run(Initial(n, size), steps);
    hide PostFailed;
    InitialInv(n, size);
    RunKeeps(Initial(n, size), steps);
    Drained(s);
    SaturatedExactly(n, size, steps);
  }

  lemma {:induction false} NothingLeft(s: State, k: nat)
    requires s.Shape() && k <= s.N()
    requires forall i :: 0 <= i < s.N() ==> s.mb[i] == [] && s.workers[i] == Waiting
    ensures Queued(s, k) == 0 && Held(s, k) == 0
    decreases k
  {
    if k != 0 {
      NothingLeft(s, k - 1);
    }
  }

  // ----- every run

  predicate AllInv(s: State) {
    Inv(s) && Routed(s) && NotLost(s)
  }

  lemma {:induction false} RunAll(s: State, steps: seq<Step>)
    requires AllInv(s) && CanRun(s, steps)
    ensures AllInv(Run(s, steps))
    decreases |steps|
  {
    if steps != [] {
      StepKeeps(s, steps[0]);
      StepRoutes(s, steps[0]);
      StepPunctual(s, steps[0]);
      hide Inv, Routed, NotLost;
      RunAll(Next(s, steps[0]), steps[1..]);
    }
  }

  /**
   Any number of threads, any mailbox size, any interleaving of interrupts,
   workers and clears: mailboxes stay within their size, accepted injections
   are accounted for, each direction retires in injection order after passing
   all threads, and with quiet clears `saturated` says what it should once
   pending writes of it are done.
   */
  lemma EveryRun(n: nat, size: nat, steps: seq<Step>)
    requires n >= 1 && CanRun(Initial(n, size), steps)
    ensures var s := Run(Initial(n, size), steps);
            && AllInv(s)
            && (forall i :: 0 <= i < s.N() ==> |s.mb[i]| <= s.size)
            && s.acceptedLeft + s.acceptedRight == Queued(s, s.N()) + Held(s, s.N()) + |s.retired| + |s.dropped|
            && (forall d: Direction :: Increasing(Ids(s.retired, d)))
            && RetiredRouted(s.retired, s.N()) && DroppedRouted(s.dropped, s.N())
            && (QuietClears(Initial(n, size), steps) ==>
                  && (s.saturated ==> PostFailed(Initial(n, size), steps))
                  && (Settled(s) ==> (s.saturated <==> PostFailed(Initial(n, size), steps))))
            && s.acceptedRight == RoomFound(Initial(n, size), steps, Right)
            && s.acceptedLeft == RoomFound(Initial(n, size), steps, Left)
            && |s.dropped| == Lost(Initial(n, size), steps)
  {
    var s0 := Initial(n, size);
    InitialInv(n, size);
    assert Routed(s0) && NotLost(s0);
    RunAll(s0, steps);
    RunAccepts(s0, steps);
    var s := Run(s0, steps);
    hide Inv, Routed, NotLost, Conserved, Ordered, Run, Initial, PostFailed, RoomFound, Lost;
    assert s.Accepted(Right) == s.acceptedRight && s.Accepted(Left) == s.acceptedLeft;
    CountLaw(s);
    if QuietClears(s0, steps) {
      SaturatedExactly(n, size, steps);
    }
    forall d: Direction ensures Increasing(Ids(s.retired, d)) {
      RetiredInOrder(s, d);
    }
    AllInvGives(s);
  }

  lemma AllInvGives(s: State)
    requires AllInv(s)
    ensures forall i :: 0 <= i < s.N() ==> |s.mb[i]| <= s.size
    ensures RetiredRouted(s.retired, s.N()) && DroppedRouted(s.dropped, s.N())
  {
  }
}
