/**
 The triple buffer (`tribuf.c`, `tribuf.h`) in the build with a semaphore: three
 buffers that a producer and a consumer exchange by swapping pointers.
 */
module TriBuf {

  /** The handler structure; a negative count of `ready` is the number of waiters. */
  datatype Pointers = Pointers(front: nat, back: nat, orphan: nat, ready: int)

  class Handler {
    var front: nat
    var back: nat
    var orphan: nat
    var ready: int

    ghost function View(): Pointers
      reads this
    {
      Pointers(front, back, orphan, ready)
    }

    /** `tribufObjectInit` */
    constructor (front: nat, back: nat, orphan: nat)
      ensures View() == Pointers(front, back, orphan, 0)
    {
      this.front, this.back, this.orphan, this.ready := front, back, orphan, 0;
    }

    /** `tribufIsReadyI` */
    method IsReady() returns (b: bool)
      ensures b <==> ShowsReady(View())
    {
      b := 0 != ready;
    }

    /** `tribufSwapFrontI` */
    method SwapFront()
      modifies this
      ensures View() == FrontSwapped(old(View()))
    {
      var f := orphan;
      orphan := front;
      front := f;
    }

    /** `tribufSwapBackI`; reports whether the signal woke a waiter. */
    method SwapBack() returns (woken: bool)
      modifies this
      ensures View() == BackSwapped(old(View()))
      ensures woken == (old(ready) < 0)
    {
      var b := orphan;
      orphan := back;
      back := b;
      woken := false;
      if ready < 1 {
        woken := ready < 0;
        ready := ready + 1;
      }
    }

    /** The part of `tribufWaitReadyTimeoutS` up to where the caller may block. */
    method StartWait() returns (blocked: bool)
      modifies this
      ensures View() == old(View()).(ready := old(ready) - 1)
      ensures blocked == (old(ready) <= 0)
    {
      ready := ready - 1;
      blocked := ready < 0;
    }

    /** The end of a wait that times out. */
    method EndWait()
      requires ready < 0
      modifies this
      ensures View() == old(View()).(ready := old(ready) + 1)
    {
      ready := ready + 1;
    }
  }

  predicate ShowsReady(p: Pointers) {
    p.ready != 0
  }

  function FrontSwapped(p: Pointers): (r: Pointers) {
    p.(front := p.orphan, orphan := p.front)
  }

  function BackSwapped(p: Pointers): (r: Pointers) {
    p.(back := p.orphan, orphan := p.back, ready := if p.ready < 1 then p.ready + 1 else p.ready)
  }
}

/**
 A producer and a consumer around one handler. Frames are numbered in the
 order in which the producer publishes them. Every step is atomic and any
 interleaving of steps is a run.
 */
module TriBufProtocol {
  import opened Basics
  import opened TriBuf

  /** What the consumer is doing: it holds a signal between the end of its wait and its swap. */
  datatype Phase = Running | Waiting | Signalled

  datatype State = State(
    p: Pointers,
    frame: map<nat, nat>,
    published: nat,
    phase: Phase,
    since: nat,
    taken: seq<nat>,
    idle: bool
  )

  /** `since` counts publications after the last take; `idle` is whether some take had none before it. */
  datatype Step =
    | Fill       // the producer writes a frame into the back buffer
    | Publish    // and swaps it
    | Wait       // the consumer starts to wait, or takes the signal
    | Timeout    // and gives up
    | Take       // it swaps the front after a wait
    | Grab       // or without one

  predicate Buffers(s: State) {
    s.p.front in s.frame && s.p.back in s.frame && s.p.orphan in s.frame
  }

  predicate Enabled(s: State, a: Step)
    requires Buffers(s)
  {
    match a
    case Fill => true
    case Publish => s.frame[s.p.back] == s.published + 1
    case Wait => s.phase == Running
    case Timeout => s.phase == Waiting
    case Take => s.phase == Signalled
    case Grab => s.phase == Running
  }

  /** One step; a step that is not enabled does nothing. */
  function Next(s: State, a: Step): (t: State)
    requires Buffers(s)
    ensures Buffers(t)
  {
    if !Enabled(s, a) then s else
    match a
    case Fill =>
      s.(frame := s.frame[s.p.back := s.published + 1])
    case Publish =>
      s.(p := BackSwapped(s.p),
         published := s.published + 1,
         phase := if s.p.ready < 0 then Signalled else s.phase,
         since := s.since + 1)
    case Wait =>
      s.(p := s.p.(ready := s.p.ready - 1), phase := if s.p.ready <= 0 then Waiting else Signalled)
    case Timeout =>
      s.(p := s.p.(ready := s.p.ready + 1), phase := Running)
    case Take | Grab =>
      s.(p := FrontSwapped(s.p), phase := Running, since := 0,
         taken := s.taken + [s.frame[s.p.orphan]],
         idle := s.idle || s.since == 0)
  }

  function After(s: State, run: seq<Step>): (t: State)
    requires Buffers(s)
    ensures Buffers(t)
    decreases |run|
  {
    if run == [] then s else After(Next(s, run[0]), run[1..])
  }

  function Initial(front: nat, back: nat, orphan: nat): (s: State)
    ensures Buffers(s)
  {
    State(Pointers(front, back, orphan, 0), map[front := 0, back := 0, orphan := 0], 0, Running, 0, [], false)
  }

  // ----- every interleaving

  ghost predicate Permutation(p: Pointers, buffers: set<nat>) {
    p.front != p.back && p.front != p.orphan && p.back != p.orphan && buffers == {p.front, p.back, p.orphan}
  }

  /** Three different buffers, and a count that says whether the consumer waits. */
  ghost predicate Safe(s: State, buffers: set<nat>) {
    && Buffers(s)
    && Permutation(s.p, buffers)
    && -1 <= s.p.ready <= 1
    && (s.phase == Waiting <==> s.p.ready == -1)
  }

  lemma StepSafe(s: State, a: Step, buffers: set<nat>)
    requires Safe(s, buffers)
    ensures Safe(Next(s, a), buffers)
    ensures a != Take && a != Grab ==>
            Next(s, a).p.front == s.p.front && Next(s, a).frame[s.p.front] == s.frame[s.p.front]
  {
  }

  /** In every run the buffers stay a permutation and the count at most 1. */
  lemma {:induction false} RunSafe(s: State, run: seq<Step>, buffers: set<nat>)
    requires Safe(s, buffers)
    ensures Safe(After(s, run), buffers)
    decreases |run|
  {
    if run != [] {
      StepSafe(s, run[0], buffers);
      RunSafe(Next(s, run[0]), run[1..], buffers);
    }
  }

  /** What the consumer reads does not change while it keeps its front buffer. */
  lemma {:induction false} FrontKept(s: State, run: seq<Step>, buffers: set<nat>)
    requires Safe(s, buffers) && Take !in run && Grab !in run
    ensures After(s, run).p.front == s.p.front
    ensures After(s, run).frame[s.p.front] == s.frame[s.p.front]
    decreases |run|
  {
    if run != [] {
      StepSafe(s, run[0], buffers);
      FrontKept(Next(s, run[0]), run[1..], buffers);
    }
  }

  // ----- freshness

  /** What the frames in the buffers are, as long as no take was idle. */
  ghost predicate Fresh(s: State) {
    && Buffers(s)
    && s.frame[s.p.front] == (if s.taken == [] then 0 else s.taken[|s.taken| - 1])
    && s.frame[s.p.front] <= s.published
    && Increasing([0] + s.taken)
    && (s.since > 0 ==> s.frame[s.p.front] < s.frame[s.p.orphan] == s.published)
    && (s.since == 0 ==> s.frame[s.p.orphan] <= s.frame[s.p.front] == s.published)
  }

  ghost predicate Tracked(s: State, buffers: set<nat>) {
    && Safe(s, buffers)
    && (if s.idle then !Increasing([0] + s.taken) else Fresh(s))
  }

  lemma IncreasingAppend(f: seq<nat>, x: nat)
    requires f != []
    ensures Increasing(f + [x]) <==> Increasing(f) && f[|f| - 1] < x
  {
    var g := f + [x];
    assert forall i :: 0 <= i < |f| ==> g[i] == f[i];
    assert g[|f|] == x;
  }

  lemma StepTracked(s: State, a: Step, buffers: set<nat>)
    requires Tracked(s, buffers)
    ensures Tracked(Next(s, a), buffers)
  {
    StepSafe(s, a, buffers);
    if (a == Take || a == Grab) && Enabled(s, a) {
      var x := s.frame[s.p.orphan];
      assert [0] + (s.taken + [x]) == ([0] + s.taken) + [x];
      IncreasingAppend([0] + s.taken, x);
    }
  }

  /**
   In every interleaving: the frames taken are strictly newer each time
   exactly when a publication came before every take since the one before.
   */
  lemma {:induction false} RunTracked(s: State, run: seq<Step>, buffers: set<nat>)
    requires Tracked(s, buffers)
    ensures Tracked(After(s, run), buffers)
    ensures Increasing([0] + After(s, run).taken) <==> !After(s, run).idle
    decreases |run|
  {
    if run != [] {
      StepTracked(s, run[0], buffers);
      RunTracked(Next(s, run[0]), run[1..], buffers);
    }
  }

  lemma InitialTracked(front: nat, back: nat, orphan: nat)
    requires front != back && front != orphan && back != orphan
    ensures Tracked(Initial(front, back, orphan), {front, back, orphan})
    ensures Consistent(Initial(front, back, orphan))
  {
    var s := Initial(front, back, orphan);
    assert s.frame[front] == 0 && s.frame[orphan] == 0;
  }

  // ----- the signal

  /** The signal is up exactly when the orphan is newer; a consumer that holds it has something to take. */
  ghost predicate Consistent(s: State) {
    && Buffers(s)
    && (s.phase == Signalled ==> s.p.ready == 0 && s.since > 0)
    && (s.phase != Signalled ==> (s.p.ready == 1 <==> s.since > 0))
  }

  /** The consumer waits before it swaps, and no publication falls in between. */
  ghost predicate Atomic(s: State, run: seq<Step>)
    requires Buffers(s)
    decreases |run|
  {
    run == [] || (run[0] != Grab && !(run[0] == Publish && s.phase == Signalled) && Atomic(Next(s, run[0]), run[1..]))
  }

  lemma StepConsistent(s: State, a: Step, buffers: set<nat>)
    requires Tracked(s, buffers) && Consistent(s) && !s.idle && a != Grab && !(a == Publish && s.phase == Signalled)
    ensures Consistent(Next(s, a)) && !Next(s, a).idle
    ensures a == Take && Enabled(s, a) ==>
              Next(s, a).frame[Next(s, a).p.front] == s.published > s.frame[s.p.front]
  {
  }

  /**
   When waiting and swapping are one step for the producer: the signal is up
   exactly when the orphan is newer than the front, and each frame taken is
   strictly newer than the one before.
   */
  lemma {:induction false} AtomicRun(s: State, run: seq<Step>, buffers: set<nat>)
    requires Tracked(s, buffers) && Consistent(s) && !s.idle && Atomic(s, run)
    ensures var t := After(s, run);
            && Consistent(t)
            && Increasing([0] + t.taken)
            && (t.phase != Signalled ==> (t.p.ready == 1 <==> t.frame[t.p.orphan] > t.frame[t.p.front]))
    decreases |run|
  {
    if run != [] {
      StepTracked(s, run[0], buffers);
      StepConsistent(s, run[0], buffers);
      AtomicRun(Next(s, run[0]), run[1..], buffers);
    }
  }

  /** From the initial handler, in every interleaving. */
  lemma EveryRun(front: nat, back: nat, orphan: nat, run: seq<Step>)
    requires front != back && front != orphan && back != orphan
    ensures var s, buffers := Initial(front, back, orphan), {front, back, orphan};
            var t := After(s, run);
            && Safe(t, buffers)
            && (Increasing([0] + t.taken) <==> !t.idle)
            && (Atomic(s, run) ==>
                  && Increasing([0] + t.taken)
                  && (t.phase != Signalled ==> (t.p.ready == 1 <==> t.frame[t.p.orphan] > t.frame[t.p.front])))
  {
    hide After, Increasing, Tracked, Consistent, Atomic;
    var s, buffers := Initial(front, back, orphan), {front, back, orphan};
    InitialTracked(front, back, orphan);
    TrackedSafe(s, buffers);
    RunSafe(s, run, buffers);
    RunTracked(s, run, buffers);
    if Atomic(s, run) {
      AtomicRun(s, run, buffers);
    }
  }

  lemma TrackedSafe(s: State, buffers: set<nat>)
    requires Tracked(s, buffers)
    ensures Safe(s, buffers)
  {
  }

  /** `tribufIsReadyI` tells whether the orphan is newer exactly when nobody waits. */
  lemma IsReadyExactly(s: State, buffers: set<nat>)
    requires Tracked(s, buffers) && Consistent(s) && !s.idle && s.phase != Signalled
    ensures (ShowsReady(s.p) <==> s.frame[s.p.orphan] > s.frame[s.p.front]) <==> s.phase != Waiting
  {
  }

  function Publications(k: nat): (run: seq<Step>)
    ensures Take !in run && Grab !in run
  {
    if k == 0 then [] else [Fill, Publish] + Publications(k - 1)
  }

  lemma PublishOnce(s: State, buffers: set<nat>)
    requires Safe(s, buffers) && s.phase == Signalled
    ensures var t := Next(Next(s, Fill), Publish);
            Safe(t, buffers) && t.phase == Signalled && t.p.ready == 1 && t.since == s.since + 1
  {
    StepSafe(s, Fill, buffers);
    StepSafe(Next(s, Fill), Publish, buffers);
  }

  lemma {:induction false} PublishMany(s: State, k: nat, buffers: set<nat>)
    requires Safe(s, buffers) && s.phase == Signalled
    ensures var t := After(s, Publications(k));
            && Safe(t, buffers) && t.phase == Signalled && t.since == s.since + k
            && t.p.ready == if k == 0 then s.p.ready else 1
    decreases k
  {
    if k != 0 {
      var t := Next(Next(s, Fill), Publish);
      PublishOnce(s, buffers);
      PublishMany(t, k - 1, buffers);
      var run := Publications(k);
      assert run[0] == Fill && run[1..][0] == Publish && run[1..][1..] == Publications(k - 1);
      assert After(s, run) == After(Next(s, Fill), run[1..]) == After(t, Publications(k - 1));
    }
  }

  /**
   The publications that fall between the end of a wait and the swap: the
   signal is right again after the swap exactly when there are none.
   */
  lemma LateSwapExactly(s: State, k: nat, buffers: set<nat>)
    requires Safe(s, buffers) && Consistent(s) && s.phase == Signalled
    ensures var t := Next(After(s, Publications(k)), Take);
            && (Consistent(t) <==> k == 0)
            && (k > 0 ==> t.p.ready == 1 && t.since == 0)
  {
    PublishMany(s, k, buffers);
  }

  /** A run in which the consumer goes back to an older frame. */
  lemma StaleRun()
    ensures After(Initial(0, 1, 2), [Fill, Publish, Wait, Fill, Publish, Take, Wait, Take]).taken == [2, 0]
  {
    hide After;
    var s := Initial(0, 1, 2);
    var s1 := Next(Next(s, Fill), Publish);
    var s2 := Next(s1, Wait);
    var s3 := Next(Next(s2, Fill), Publish);
    var s4 := Next(s3, Take);
    assert s4.taken == [2];
    var run := [Fill, Publish, Wait, Fill, Publish, Take, Wait, Take];
    assert run == [Fill, Publish] + ([Wait, Fill] + ([Publish, Take] + ([Wait, Take] + [])));
    AfterTwo(s, Fill, Publish, [Wait, Fill] + ([Publish, Take] + ([Wait, Take] + [])));
    AfterTwo(s1, Wait, Fill, [Publish, Take] + ([Wait, Take] + []));
    AfterTwo(Next(s2, Fill), Publish, Take, [Wait, Take] + []);
    AfterTwo(s4, Wait, Take, []);
    AfterNone(Next(Next(s4, Wait), Take));
  }

  lemma AfterNone(s: State)
    requires Buffers(s)
    ensures After(s, []) == s
  {
  }

  lemma AfterTwo(s: State, a: Step, b: Step, rest: seq<Step>)
    requires Buffers(s)
    ensures After(s, [a, b] + rest) == After(Next(Next(s, a), b), rest)
  {
    hide Next;
    var run := [a, b] + rest;
    assert run[1..][1..] == rest && run[0] == a && run[1..][0] == b;
  }
}
