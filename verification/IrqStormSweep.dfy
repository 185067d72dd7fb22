/**
 The test loop of the IRQ storm: it clears the flag, lets the chain run for
 every timer interval and reads the flag at the end of each.
 */
module IrqStormSweep {
  import opened Basics
  import opened IrqStorm
  import opened IrqStormOrder
  import opened IrqStormRuns
  import opened IrqStormSystem

  // ----- stretches of interrupts and worker steps

  /** A stretch of steps of the chain; a step that cannot be taken is not, and only the test loop clears the flag. */
  function Exec(s: State, steps: seq<Step>): (t: State)
    requires s.Shape()
    ensures t.Shape()
    decreases |steps|
  {
    if steps == [] then s
    else
      var t, step := Exec(s, steps[..|steps| - 1]), steps[|steps| - 1];
      if step != Clear && Enabled(t, step) then Next(t, step) else t
  }

  lemma {:induction false} RunAppend(s: State, steps: seq<Step>, step: Step)
    requires s.Shape() && CanRun(s, steps) && Enabled(Run(s, steps), step) && Next(Run(s, steps), step).Shape()
    ensures CanRun(s, steps + [step]) && Run(s, steps + [step]) == Next(Run(s, steps), step)
    decreases |steps|
  {
    hide Next, Enabled;
    var more := steps + [step];
    if steps == [] {
      assert more == [step] && more[1..] == [];
    } else {
      assert more[0] == steps[0] && more[1..] == steps[1..] + [step];
      RunAppend(Next(s, steps[0]), steps[1..], step);
    }
  }

  lemma NextShape(s: State, step: Step)
    requires s.Shape() && Enabled(s, step)
    ensures Next(s, step).Shape()
  {
  }

  /** A stretch is a run without clears. */
  lemma {:induction false} ExecIsRun(s: State, steps: seq<Step>) returns (taken: seq<Step>)
    requires s.Shape()
    ensures Clear !in taken && CanRun(s, taken) && Run(s, taken) == Exec(s, steps)
    decreases |steps|
  {
    hide Next, Enabled;
    if steps == [] {
      taken := [];
    } else {
      var n := |steps| - 1;
      taken := ExecIsRun(s, steps[..n]);
      if steps[n] != Clear && Enabled(Exec(s, steps[..n]), steps[n]) {
        NextShape(Run(s, taken), steps[n]);
        RunAppend(s, taken, steps[n]);
        taken := taken + [steps[n]];
      }
    }
  }

  /** A stretch keeps what every run keeps. */
  lemma ExecKeeps(s: State, steps: seq<Step>)
    requires s.Shape() && NotLost(s)
    ensures NotLost(Exec(s, steps))
    ensures Punctual(s) ==> Punctual(Exec(s, steps))
    ensures AllInv(s) ==> AllInv(Exec(s, steps))
  {
    hide AllInv, Punctual, NotLost;
    var taken := ExecIsRun(s, steps);
    NoClears(s, taken);
    RunPunctual(s, taken);
    if AllInv(s) {
      RunAll(s, taken);
    }
  }

  /** The interrupts and the scheduler take the steps of a stretch. */
  method Storm(sys: System, steps: seq<Step>)
    requires sys.Valid()
    modifies sys
    ensures sys.Valid() && sys.Chain() == Exec(old(sys.Chain()), steps)
  {
    hide Next;
    var k := 0;
    while k < |steps|
      invariant 0 <= k <= |steps| && sys.Valid()
      invariant sys.Chain() == Exec(old(sys.Chain()), steps[..k])
    {
      assert steps[..k + 1][..k] == steps[..k];
      TakeStep(sys, steps[k]);
      k := k + 1;
    }
    assert steps[..k] == steps;
  }

  method TakeStep(sys: System, step: Step)
    requires sys.Valid()
    modifies sys
    ensures sys.Valid()
    ensures sys.Chain() ==
            if step != Clear && Enabled(old(sys.Chain()), step) then Next(old(sys.Chain()), step) else old(sys.Chain())
  {
    hide Next;
    match step {
      case Inject(d) =>
        if d == Right {
          sys.Gpt1Callback();
        } else {
          sys.Gpt2Callback();
        }
      case Fetch(i) =>
        if i < |sys.mb| && sys.workers[i].Waiting? && sys.mb[i] != [] {
          sys.WorkerFetch(i);
        }
      case Forward(i) =>
        if i < |sys.mb| && sys.workers[i].Holding? {
          sys.WorkerForward(i);
        }
      case Flag(i) =>
        if i < |sys.mb| && sys.workers[i].Flagging? {
          sys.WorkerFlag(i);
        }
      case Clear =>
    }
  }

  // ----- one iteration

  /** What happens in iteration `i` while the timers run with an interval, and in the pause after it. */
  type Storms = (nat, nat) -> seq<Step>

  /**
   The timer intervals of one iteration: from the first (2000 in the program)
   down by a tenth, rounded up, while at least 2.
   */
  function Schedule(interval: nat): (vs: seq<nat>)
    ensures forall k :: 0 <= k < |vs| ==> 2 <= vs[k] <= interval
    ensures forall j, k :: 0 <= j < k < |vs| ==> vs[j] > vs[k]
  {
    if interval < 2 then [] else [interval] + Schedule(interval - (interval + 9) / 10)
  }

  /**
   Every interval is shorter than the one before by a tenth of it, rounded up
   to a whole number, and the last one is 2.
   */
  lemma {:induction false} ScheduleSteps(interval: nat)
    ensures var vs := Schedule(interval);
            && (vs == [] <==> interval < 2)
            && (vs != [] ==> vs[0] == interval)
            && (forall k :: 0 < k < |vs| ==> ShorterByTenth(vs[k - 1], vs[k]))
            && (vs != [] ==> vs[|vs| - 1] == 2)
    decreases interval
  {
    if interval >= 2 {
      var next := interval - (interval + 9) / 10;
      ScheduleSteps(next);
      var vs, rest := Schedule(interval), Schedule(next);
      assert vs == [interval] + rest;
      forall k | 0 < k < |vs| ensures ShorterByTenth(vs[k - 1], vs[k]) {
        assert vs[k] == rest[k - 1];
        if k > 1 {
          assert vs[k - 1] == rest[k - 2];
        }
      }
    }
  }

  predicate ShorterByTenth(v: nat, next: nat) {
    v <= 10 * (v - next) < v + 10
  }

  /** The chain after the intervals `vs` of iteration `i`, from where the flag was cleared. */
  function AfterIntervals(s: State, storms: Storms, i: nat, vs: seq<nat>): (t: State)
    requires s.Shape()
    ensures t.Shape()
    decreases |vs|
  {
    if vs == [] then s else Exec(AfterIntervals(s, storms, i, vs[..|vs| - 1]), storms(i, vs[|vs| - 1]))
  }

  /**
   Iteration `i` ends after `k` intervals in a state where the flag is read:
   it was not set at the end of any interval before, and `threshold` is the
   last interval if it is set now, or else 0 with no interval left.
   */
  ghost predicate EndsAfter(s: State, storms: Storms, i: nat, vs: seq<nat>, k: nat, threshold: nat, t: State)
    requires s.Shape()
  {
    && k <= |vs|
    && t == AfterIntervals(s, storms, i, vs[..k])
    && (forall j :: 0 <= j < k ==> !AfterIntervals(s, storms, i, vs[..j]).saturated)
    && (if t.saturated then k > 0 && threshold == vs[k - 1] else threshold == 0 && k == |vs|)
  }

  ghost predicate Ends(s: State, storms: Storms, i: nat, vs: seq<nat>, threshold: nat, t: State)
    requires s.Shape()
  {
    exists k :: EndsAfter(s, storms, i, vs, k, threshold, t)
  }

  /** The body of the test loop up to the pause. */
  method Iteration(sys: System, storms: Storms, i: nat, first: nat) returns (threshold: nat)
    requires sys.Valid()
    modifies sys
    ensures sys.Valid()
    ensures Ends(Next(old(sys.Chain()), Clear), storms, i, Schedule(first), threshold, sys.Chain())
  {
    hide Exec, Schedule, Next, AfterIntervals;
    sys.ClearSaturated();
    ghost var s, vs := sys.Chain(), Schedule(first);
    ghost var k := 0;
    threshold := 0;
    var interval := first;
    assert vs[0..] == vs && vs[..0] == [];
    NoIntervals(s, storms, i);
    while interval >= 2
      invariant sys.Valid() && 0 <= k <= |vs| && threshold == 0 && !sys.saturated
      invariant Schedule(interval) == vs[k..]
      invariant sys.Chain() == AfterIntervals(s, storms, i, vs[..k])
      invariant forall j :: 0 <= j < k ==> !AfterIntervals(s, storms, i, vs[..j]).saturated
      decreases interval
    {
      NextInterval(interval, vs, k);
      Storm(sys, storms(i, interval));
      MoreIntervals(s, storms, i, vs, k);
      k := k + 1;
      if sys.saturated {
        threshold := interval;
        assert EndsAfter(s, storms, i, vs, k, threshold, sys.Chain());
        return;
      }
      interval := interval - (interval + 9) / 10;
    }
    LastInterval(interval, vs, k);
    assert EndsAfter(s, storms, i, vs, k, threshold, sys.Chain());
  }

  lemma NoIntervals(s: State, storms: Storms, i: nat)
    requires s.Shape()
    ensures AfterIntervals(s, storms, i, []) == s
  {
  }

  lemma MoreIntervals(s: State, storms: Storms, i: nat, vs: seq<nat>, k: nat)
    requires s.Shape() && k < |vs|
    ensures AfterIntervals(s, storms, i, vs[..k + 1]) == Exec(AfterIntervals(s, storms, i, vs[..k]), storms(i, vs[k]))
  {
    hide Exec;
    assert vs[..k + 1][..k] == vs[..k];
  }

  lemma NextInterval(interval: nat, vs: seq<nat>, k: nat)
    requires interval >= 2 && k <= |vs| && Schedule(interval) == vs[k..]
    ensures k < |vs| && vs[k] == interval && Schedule(interval - (interval + 9) / 10) == vs[k + 1..]
  {
    assert vs[k..][0] == interval && vs[k..][1..] == vs[k + 1..];
  }

  lemma LastInterval(interval: nat, vs: seq<nat>, k: nat)
    requires interval < 2 && k <= |vs| && Schedule(interval) == vs[k..]
    ensures k == |vs|
  {
  }

  lemma {:induction false} IntervalsKeep(s: State, storms: Storms, i: nat, vs: seq<nat>)
    requires s.Shape() && NotLost(s)
    ensures NotLost(AfterIntervals(s, storms, i, vs))
    ensures Punctual(s) ==> Punctual(AfterIntervals(s, storms, i, vs))
    ensures AllInv(s) ==> AllInv(AfterIntervals(s, storms, i, vs))
    decreases |vs|
  {
    hide NotLost, Punctual, AllInv, Exec;
    if vs != [] {
      IntervalsKeep(s, storms, i, vs[..|vs| - 1]);
      ExecKeeps(AfterIntervals(s, storms, i, vs[..|vs| - 1]), storms(i, vs[|vs| - 1]));
    }
  }

  lemma {:induction false} RunConcat(s: State, a: seq<Step>, b: seq<Step>)
    requires s.Shape() && CanRun(s, a) && CanRun(Run(s, a), b)
    ensures CanRun(s, a + b) && Run(s, a + b) == Run(Run(s, a), b)
    decreases |a|
  {
    hide Next, Enabled;
    if a == [] {
      assert a + b == b;
    } else {
      assert (a + b)[0] == a[0] && (a + b)[1..] == a[1..] + b;
      RunConcat(Next(s, a[0]), a[1..], b);
    }
  }

  /** The intervals of an iteration are one run without clears. */
  lemma {:induction false} IntervalsAreRun(s: State, storms: Storms, i: nat, vs: seq<nat>) returns (taken: seq<Step>)
    requires s.Shape()
    ensures Clear !in taken && CanRun(s, taken) && Run(s, taken) == AfterIntervals(s, storms, i, vs)
    decreases |vs|
  {
    hide Exec, CanRun, Run;
    if vs == [] {
      taken := [];
      RunNone(s);
    } else {
      var n := |vs| - 1;
      taken := IntervalsAreRun(s, storms, i, vs[..n]);
      var more := ExecIsRun(AfterIntervals(s, storms, i, vs[..n]), storms(i, vs[n]));
      RunConcat(s, taken, more);
      taken := taken + more;
    }
  }

  lemma RunNone(s: State)
    requires s.Shape()
    ensures CanRun(s, []) && Run(s, []) == s
  {
  }

  /**
   If no worker was about to write the flag when it was cleared, a threshold
   is reported only if a post has failed in the run of this iteration; and
   exactly then, if no worker is about to write the flag when it is read.
   */
  lemma ThresholdRight(s: State, storms: Storms, i: nat, first: nat, threshold: nat, t: State)
    returns (taken: seq<Step>)
    requires s.Shape() && Settled(s) && Ends(Next(s, Clear), storms, i, Schedule(first), threshold, t)
    ensures Clear !in taken && CanRun(Next(s, Clear), taken) && Run(Next(s, Clear), taken) == t
    ensures threshold > 0 ==> PostFailed(Next(s, Clear), taken)
    ensures Settled(t) ==> (threshold > 0 <==> PostFailed(Next(s, Clear), taken))
  {
    hide Schedule, AfterIntervals, PostFailed, CanRun, Run;
    var c := Next(s, Clear);
    assert Punctual(c);
    var k: nat :| EndsAfter(c, storms, i, Schedule(first), k, threshold, t);
    taken := IntervalsAreRun(c, storms, i, Schedule(first)[..k]);
    IntervalsKeep(c, storms, i, Schedule(first)[..k]);
    FailedExactly(c, taken);
  }

  // ----- the sweep

  /** One iteration: where it started, what it reported, and where the flag was read. */
  datatype Round = Round(start: State, threshold: nat, read: State)

  /** Round `k` starts where the pause of the round before it ends. */
  ghost predicate Follows(rs: seq<Round>, pause: nat -> seq<Step>, start: State, k: nat)
    requires k < |rs| && forall j :: 0 <= j < |rs| ==> rs[j].start.Shape() && rs[j].read.Shape()
  {
    rs[k].start == if k == 0 then start else Exec(rs[k - 1].read, pause(k))
  }

  ghost predicate Rounds(rs: seq<Round>, storms: Storms, pause: nat -> seq<Step>, first: nat, start: State,
                         now: State) {
    && (forall k :: 0 <= k < |rs| ==> rs[k].start.Shape() && rs[k].read.Shape())
    && (forall k :: 0 <= k < |rs| ==>
          Ends(Next(rs[k].start, Clear), storms, k + 1, Schedule(first), rs[k].threshold, rs[k].read))
    && (forall k :: 0 <= k < |rs| ==> Follows(rs, pause, start, k))
    && now == if rs == [] then start else Exec(rs[|rs| - 1].read, pause(|rs|))
  }

  /** The test loop: the largest threshold that any iteration reports. */
  method Sweep(sys: System, storms: Storms, pause: nat -> seq<Step>, first: nat, iterations: nat)
    returns (worst: nat, ghost rounds: seq<Round>)
    requires sys.Valid()
    modifies sys
    ensures sys.Valid() && |rounds| == iterations
    ensures Rounds(rounds, storms, pause, first, old(sys.Chain()), sys.Chain())
    ensures forall k :: 0 <= k < |rounds| ==> rounds[k].threshold <= worst
    ensures worst > 0 ==> exists k :: 0 <= k < |rounds| && rounds[k].threshold == worst
  {
    hide Exec, Schedule, Ends;
    worst, rounds := 0, [];
    var i := 1;
    while i <= iterations
      invariant 1 <= i <= iterations + 1 && |rounds| == i - 1 && sys.Valid()
      invariant Rounds(rounds, storms, pause, first, old(sys.Chain()), sys.Chain())
      invariant forall k :: 0 <= k < |rounds| ==> rounds[k].threshold <= worst
      invariant worst > 0 ==> exists k :: 0 <= k < |rounds| && rounds[k].threshold == worst
    {
      ghost var start, before := sys.Chain(), rounds;
      var threshold := Iteration(sys, storms, i, first);
      ghost var read := sys.Chain();
      Storm(sys, pause(i));
      rounds := rounds + [Round(start, threshold, read)];
      MoreRounds(before, Round(start, threshold, read), storms, pause, first, old(sys.Chain()));
      assert forall k :: 0 <= k < |before| ==> rounds[k] == before[k];
      if threshold > worst {
        worst := threshold;
        assert rounds[|before|].threshold == worst;
      }
      i := i + 1;
    }
  }

  lemma MoreRounds(rs: seq<Round>, r: Round, storms: Storms, pause: nat -> seq<Step>, first: nat, start: State)
    requires Rounds(rs, storms, pause, first, start, r.start) && r.start.Shape() && r.read.Shape()
    requires Ends(Next(r.start, Clear), storms, |rs| + 1, Schedule(first), r.threshold, r.read)
    ensures Rounds(rs + [r], storms, pause, first, start, Exec(r.read, pause(|rs| + 1)))
  {
    hide Exec, Ends, Schedule;
    var more := rs + [r];
    assert forall k :: 0 <= k < |rs| ==> more[k] == rs[k];
    forall k | 0 <= k < |more| ensures Follows(more, pause, start, k) {
      assert k < |rs| ==> Follows(rs, pause, start, k);
    }
  }

  /**
   The whole test, from the start: if every pause lets the workers come to
   rest, every reported threshold stands for a post that failed in the run of
   its iteration, and whatever is accepted is retired or dropped by its end.
   */
  lemma SweepRight(n: nat, size: nat, rs: seq<Round>, storms: Storms, pause: nat -> seq<Step>, first: nat, now: State,
                   k: nat) returns (taken: seq<Step>)
    requires n >= 1 && Rounds(rs, storms, pause, first, Initial(n, size), now) && k < |rs|
    requires forall j :: 0 < j < |rs| ==> Resting(rs[j].start)
    ensures AllInv(rs[k].start) && Settled(rs[k].start)
    ensures var c := Next(rs[k].start, Clear);
            && Clear !in taken && CanRun(c, taken) && Run(c, taken) == rs[k].read
            && (rs[k].threshold > 0 ==> PostFailed(c, taken))
            && (Settled(rs[k].read) ==> (rs[k].threshold > 0 <==> PostFailed(c, taken)))
    ensures k > 0 ==>
              rs[k].start.acceptedLeft + rs[k].start.acceptedRight == |rs[k].start.retired| + |rs[k].start.dropped|
  {
    hide Schedule, Ends, Exec, Inv, Routed, PostFailed, CanRun, Run;
    RoundStart(n, size, rs, storms, pause, first, now, k);
    taken := ThresholdRight(rs[k].start, storms, k + 1, first, rs[k].threshold, rs[k].read);
    if k > 0 {
      Drained(rs[k].start);
    }
  }

  lemma {:induction false} RoundStart(n: nat, size: nat, rs: seq<Round>, storms: Storms, pause: nat -> seq<Step>,
                                      first: nat, now: State, k: nat)
    requires n >= 1 && Rounds(rs, storms, pause, first, Initial(n, size), now) && k < |rs|
    requires forall j :: 0 < j < |rs| ==> Resting(rs[j].start)
    ensures AllInv(rs[k].start) && Settled(rs[k].start)
    decreases k
  {
    hide Schedule, Exec, AllInv, EndsAfter;
    assert Follows(rs, pause, Initial(n, size), k);
    if k == 0 {
      InitialAll(n, size);
    } else {
      RoundStart(n, size, rs, storms, pause, first, now, k - 1);
      var r := rs[k - 1];
      ClearKeeps(r.start);
      assert Ends(Next(r.start, Clear), storms, k, Schedule(first), r.threshold, r.read);
      EndsKeeps(Next(r.start, Clear), storms, k, Schedule(first), r.threshold, r.read);
      ExecAll(r.read, pause(k));
      RestingSettled(rs[k].start);
    }
  }

  lemma InitialAll(n: nat, size: nat)
    requires n >= 1
    ensures AllInv(Initial(n, size)) && Settled(Initial(n, size))
  {
    InitialInv(n, size);
  }

  lemma ClearKeeps(s: State)
    requires AllInv(s)
    ensures AllInv(Next(s, Clear))
  {
    hide Inv, Routed;
    StepKeeps(s, Clear);
    StepRoutes(s, Clear);
  }

  lemma EndsKeeps(s: State, storms: Storms, i: nat, vs: seq<nat>, threshold: nat, t: State)
    requires AllInv(s) && Ends(s, storms, i, vs, threshold, t)
    ensures AllInv(t)
  {
    hide Routed, AfterIntervals;
    var k: nat :| EndsAfter(s, storms, i, vs, k, threshold, t);
    IntervalsKeep(s, storms, i, vs[..k]);
  }

  lemma ExecAll(s: State, steps: seq<Step>)
    requires AllInv(s)
    ensures AllInv(Exec(s, steps))
  {
    hide Routed, Exec;
    ExecKeeps(s, steps);
  }

  lemma RestingSettled(s: State)
    requires s.Shape() && Resting(s)
    ensures Settled(s)
  {
    forall i | 0 <= i < |s.workers| ensures !s.workers[i].Flagging? {
      assert !Enabled(s, Flag(i));
    }
  }
}
