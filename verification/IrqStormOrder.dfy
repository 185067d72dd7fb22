/**
 Conservation and order in the message chain: what every step of every
 interleaving keeps.
 */
module IrqStormOrder {
  import opened Basics
  import opened IrqStorm

  /** No mailbox holds more than its size. */
  predicate Bounded(s: State) {
    forall i :: 0 <= i < |s.mb| ==> |s.mb[i]| <= s.size
  }

  /** All messages of direction `d`, retired ones first, then from the exit of the chain to its entry. */
  function Trace(s: State, d: Direction): seq<nat>
    requires s.Shape()
  {
    Concat(Lines(s, d))
  }

  /** Every accepted message is exactly once retired, held, queued or dropped. */
  predicate Conserved(s: State, d: Direction)
    requires s.Shape()
  {
    multiset(Trace(s, d)) + multiset(Ids(s.dropped, d)) == multiset(Numbers(s.Accepted(d)))
  }

  /** Messages are retired, held and queued in the order of their injection. */
  predicate Ordered(s: State, d: Direction)
    requires s.Shape()
  {
    Increasing(Trace(s, d))
  }

  predicate Inv(s: State) {
    && s.Shape()
    && Bounded(s)
    && forall d: Direction :: Conserved(s, d) && Ordered(s, d)
  }

  // ----- sequences of messages

  lemma {:induction false} IdsAppend(q: seq<Message>, m: Message, d: Direction)
    ensures Ids(q + [m], d) == Ids(q, d) + (if m.dir == d then [m.id] else [])
  {
    if q != [] {
      IdsAppend(q[1..], m, d);
      assert (q + [m])[1..] == q[1..] + [m];
    } else {
      assert [m][1..] == [];
    }
  }

  lemma NumbersBound(k: nat, x: nat)
    requires x in multiset(Numbers(k))
    ensures x < k
  {
    assert x in Numbers(k);
  }

  lemma Extend(q: seq<nat>, k: nat)
    requires Increasing(q) && forall x :: x in q ==> x < k
    ensures Increasing(q + [k])
  {
    var r := q + [k];
    forall a, b | 0 <= a < b < |r| ensures r[a] < r[b] {
      if b == |q| {
        assert q[a] in q;
      }
    }
  }

  // ----- how a step changes the lines

  lemma SameLines(s: State, t: State, d: Direction)
    requires s.Shape() && t.Shape() && s.N() == t.N()
    requires Ids(t.retired, d) == Ids(s.retired, d)
    requires forall i :: 0 <= i < s.N() ==> At(t, d, i) == At(s, d, i)
    ensures Lines(t, d) == Lines(s, d)
  {
    hide At, Ids;
  }

  /** Thread `i` is the only one whose line changes. */
  lemma LinesUpdated(s: State, t: State, d: Direction, j: nat, line: seq<nat>)
    requires s.Shape() && t.Shape() && s.N() == t.N() && j < s.N()
    requires Ids(t.retired, d) == Ids(s.retired, d)
    requires At(t, d, Slot(d, j, s.N())) == line
    requires forall i :: 0 <= i < s.N() && i != Slot(d, j, s.N()) ==> At(t, d, i) == At(s, d, i)
    ensures Lines(t, d) == Lines(s, d)[j + 1 := line]
  {
    hide At, Ids;
    var ls, ms := Lines(s, d)[j + 1 := line], Lines(t, d);
    forall p | 0 <= p <= s.N() ensures ms[p] == ls[p] {
    }
  }

  lemma InjectLines(s: State, d: Direction, e: Direction)
    requires s.Shape() && |s.mb[Entry(d, s.N())]| < s.size
    ensures var t := DoInject(s, d);
            t.Shape() && Lines(t, e) == if e == d then Lines(s, d)[s.N() := Lines(s, d)[s.N()] + [s.Accepted(d)]]
                else Lines(s, e)
  {
    var t, n := DoInject(s, d), s.N();
    var i := Entry(d, n);
    var m := Message(d, s.Accepted(d), []);
    IdsAppend(s.mb[i], m, e);
    assert At(t, e, i) == At(s, e, i) + (if e == d then [m.id] else []);
    if e == d {
      LinesUpdated(s, t, d, n - 1, At(s, d, i) + [m.id]);
    } else {
      SameLines(s, t, e);
    }
  }

  lemma FetchLines(s: State, i: nat, d: Direction)
    requires s.Shape() && Enabled(s, Fetch(i))
    ensures var t := DoFetch(s, i); t.Shape() && Lines(t, d) == Lines(s, d)
  {
    var t := DoFetch(s, i);
    assert HeldBy(s.workers[i]) == [];
    var h := HeldBy(t.workers[i]);
    assert h[1..] == [];
    assert At(t, d, i) == At(s, d, i);
    SameLines(s, t, d);
  }

  /** A worker that gives up the message it holds, and nothing else of direction `d` changing at it. */
  lemma ReleasedAt(s: State, t: State, i: nat, d: Direction)
    requires s.Shape() && t.Shape() && s.N() == t.N() && i < s.N()
    requires s.workers[i].Holding? && !t.workers[i].Holding? && t.mb[i] == s.mb[i]
    ensures s.workers[i].m.dir == d ==> At(s, d, i) == [s.workers[i].m.id] + At(t, d, i)
    ensures s.workers[i].m.dir != d ==> At(s, d, i) == At(t, d, i)
  {
    var m := s.workers[i].m;
    assert [m][1..] == [];
    assert HeldBy(t.workers[i]) == [];
  }

  lemma DropLines(s: State, i: nat, j: nat, d: Direction)
    requires s.Shape() && Enabled(s, Forward(i)) && j < s.N() && Slot(s.workers[i].m.dir, j, s.N()) == i
    requires var t := Target(s.workers[i].m.dir, i, s.N()); t < s.N() && |s.mb[t]| >= s.size
    ensures var t, e := DoForward(s, i), s.workers[i].m.dir;
            && t.Shape()
            && (d != e ==> Lines(t, d) == Lines(s, d))
            && (d == e ==> && |Lines(s, d)[j + 1]| > 0 && Lines(s, d)[j + 1][0] == s.workers[i].m.id
                           && Lines(t, d) == Lines(s, d)[j + 1 := Lines(s, d)[j + 1][1..]])
  {
    var t := DoForward(s, i);
    ReleasedAt(s, t, i, d);
    hide Ids;
    if d == s.workers[i].m.dir {
      assert At(s, d, i)[1..] == At(t, d, i);
      LinesUpdated(s, t, d, j, At(s, d, i)[1..]);
    } else {
      SameLines(s, t, d);
    }
  }

  lemma RetireLines(s: State, i: nat, d: Direction)
    requires s.Shape() && Enabled(s, Forward(i)) && Target(s.workers[i].m.dir, i, s.N()) >= s.N()
    ensures var t, e := DoForward(s, i), s.workers[i].m.dir;
            && t.Shape()
            && (d != e ==> Lines(t, d) == Lines(s, d))
            && (d == e ==> && |Lines(s, d)[1]| > 0 && Lines(s, d)[1][0] == s.workers[i].m.id
                           && Lines(t, d)
                              == Lines(s, d)[0 := Lines(s, d)[0] + [s.workers[i].m.id]][1 := Lines(s, d)[1][1..]])
  {
    hide At, Ids;
    var t := DoForward(s, i);
    RetireAt(s, i, d);
    if d == s.workers[i].m.dir {
      LinesRetired(s, t, d, [s.workers[i].m.id]);
    } else {
      SameLines(s, t, d);
    }
  }

  lemma RetireAt(s: State, i: nat, d: Direction)
    requires s.Shape() && Enabled(s, Forward(i)) && Target(s.workers[i].m.dir, i, s.N()) >= s.N()
    ensures var t, m := DoForward(s, i), s.workers[i].m;
            && Slot(m.dir, 0, s.N()) == i
            && Ids(t.retired, d) == Ids(s.retired, d) + (if m.dir == d then [m.id] else [])
            && At(s, d, i) == (if m.dir == d then [m.id] else []) + At(t, d, i)
            && forall l :: 0 <= l < s.N() && l != i ==> At(t, d, l) == At(s, d, l)
  {
    var t, m := DoForward(s, i), s.workers[i].m;
    ReleasedAt(s, t, i, d);
    IdsAppend(s.retired, m, d);
  }

  /** The line at the exit gives its first numbers to the end of the retired ones. */
  lemma LinesRetired(s: State, t: State, d: Direction, x: seq<nat>)
    requires s.Shape() && t.Shape() && s.N() == t.N()
    requires Ids(t.retired, d) == Ids(s.retired, d) + x
    requires At(s, d, Slot(d, 0, s.N())) == x + At(t, d, Slot(d, 0, s.N()))
    requires forall l :: 0 <= l < s.N() && l != Slot(d, 0, s.N()) ==> At(t, d, l) == At(s, d, l)
    ensures |Lines(s, d)[1]| >= |x| && Lines(s, d)[1][..|x|] == x
    ensures Lines(t, d) == Lines(s, d)[0 := Lines(s, d)[0] + x][1 := Lines(s, d)[1][|x|..]]
  {
    hide At, Ids;
    var ls, ms := Lines(s, d), Lines(t, d);
    assert ls[1][|x|..] == ms[1];
    assert ms[0] == ls[0] + x;
    forall p | 1 < p <= s.N() ensures ms[p] == ls[p] {
    }
  }

  lemma PassLines(s: State, i: nat, j: nat, d: Direction)
    requires s.Shape() && Enabled(s, Forward(i)) && j < s.N() && Slot(s.workers[i].m.dir, j, s.N()) == i
    requires var t := Target(s.workers[i].m.dir, i, s.N()); t < s.N() && |s.mb[t]| < s.size
    ensures j > 0
    ensures var t, e := DoForward(s, i), s.workers[i].m.dir;
            && t.Shape()
            && (d != e ==> Lines(t, d) == Lines(s, d))
            && (d == e ==> && |Lines(s, d)[j + 1]| > 0 && Lines(s, d)[j + 1][0] == s.workers[i].m.id
                           && var ls := Lines(s, d);
                           Lines(t, d) == ls[j := ls[j] + [s.workers[i].m.id]][j + 1 := ls[j + 1][1..]])
  {
    hide At, Ids;
    var t := DoForward(s, i);
    PassAt(s, i, j, d);
    if d == s.workers[i].m.dir {
      LinesMoved(s, t, d, j, [s.workers[i].m.id]);
    } else {
      SameLines(s, t, d);
    }
  }

  lemma PassAt(s: State, i: nat, j: nat, d: Direction)
    requires s.Shape() && Enabled(s, Forward(i)) && j < s.N() && Slot(s.workers[i].m.dir, j, s.N()) == i
    requires var t := Target(s.workers[i].m.dir, i, s.N()); t < s.N() && |s.mb[t]| < s.size
    ensures j > 0
    ensures var t, m, k := DoForward(s, i), s.workers[i].m, Target(s.workers[i].m.dir, i, s.N());
            && k == Slot(m.dir, j - 1, s.N()) && k != i
            && Ids(t.retired, d) == Ids(s.retired, d)
            && At(t, d, k) == At(s, d, k) + (if m.dir == d then [m.id] else [])
            && At(s, d, i) == (if m.dir == d then [m.id] else []) + At(t, d, i)
            && forall l :: 0 <= l < s.N() && l != k && l != i ==> At(t, d, l) == At(s, d, l)
  {
    hide Ids;
    var t, m := DoForward(s, i), s.workers[i].m;
    var k := Target(m.dir, i, s.N());
    ReleasedAt(s, t, i, d);
    IdsAppend(s.mb[k], m, d);
    Associate(Ids(HeldBy(s.workers[k]), d), Ids(s.mb[k], d), if m.dir == d then [m.id] else []);
  }

  lemma Associate(a: seq<nat>, b: seq<nat>, c: seq<nat>)
    ensures a + (b + c) == a + b + c
  {
  }

  /** The line at distance j gives its first numbers to the end of the line before it. */
  lemma LinesMoved(s: State, t: State, d: Direction, j: nat, x: seq<nat>)
    requires s.Shape() && t.Shape() && s.N() == t.N() && 0 < j < s.N()
    requires Ids(t.retired, d) == Ids(s.retired, d)
    requires At(s, d, Slot(d, j, s.N())) == x + At(t, d, Slot(d, j, s.N()))
    requires At(t, d, Slot(d, j - 1, s.N())) == At(s, d, Slot(d, j - 1, s.N())) + x
    requires forall l :: 0 <= l < s.N() && l != Slot(d, j, s.N()) && l != Slot(d, j - 1, s.N()) ==>
             At(t, d, l) == At(s, d, l)
    ensures |Lines(s, d)[j + 1]| >= |x| && Lines(s, d)[j + 1][..|x|] == x
    ensures Lines(t, d) == Lines(s, d)[j := Lines(s, d)[j] + x][j + 1 := Lines(s, d)[j + 1][|x|..]]
  {
    hide At, Ids;
    var ls, ms := Lines(s, d), Lines(t, d);
    assert ls[j + 1][|x|..] == ms[j + 1];
    assert ms[j] == ls[j] + x;
    forall p | 0 <= p <= s.N() && p != j && p != j + 1 ensures ms[p] == ls[p] {
    }
  }

  // ----- every step keeps the invariant

  /** A step after which the messages of direction `d` stand as before. */
  lemma SameTrace(s: State, t: State, d: Direction)
    requires s.Shape() && t.Shape() && Conserved(s, d) && Ordered(s, d)
    requires Trace(t, d) == Trace(s, d)
    requires Ids(t.dropped, d) == Ids(s.dropped, d) && t.Accepted(d) == s.Accepted(d)
    ensures Conserved(t, d) && Ordered(t, d)
  {
    hide Trace, Ids, Increasing;
  }

  lemma AddedTrace(s: State, t: State, d: Direction)
    requires s.Shape() && t.Shape() && Conserved(s, d) && Ordered(s, d)
    requires t.Accepted(d) == s.Accepted(d) + 1 && Trace(t, d) == Trace(s, d) + [s.Accepted(d)]
    requires Ids(t.dropped, d) == Ids(s.dropped, d)
    ensures Conserved(t, d) && Ordered(t, d)
  {
    hide Trace, Ids, Increasing, Numbers;
    NextNumber(Trace(s, d), multiset(Ids(s.dropped, d)), s.Accepted(d));
  }

  lemma NextNumber(q: seq<nat>, lost: multiset<nat>, k: nat)
    requires Increasing(q) && multiset(q) + lost == multiset(Numbers(k))
    ensures Increasing(q + [k]) && multiset(q + [k]) + lost == multiset(Numbers(k + 1))
  {
    hide Increasing;
    assert Numbers(k + 1) == Numbers(k) + [k];
    assert multiset(q + [k]) == multiset(q) + multiset{k};
    assert multiset(Numbers(k) + [k]) == multiset(Numbers(k)) + multiset{k};
    forall x | x in q ensures x < k {
      assert x in multiset(q) + lost;
      NumbersBound(k, x);
    }
    Extend(q, k);
  }

  lemma RemovedTrace(s: State, t: State, d: Direction, x: nat)
    requires s.Shape() && t.Shape() && Conserved(s, d) && Ordered(s, d)
    requires t.Accepted(d) == s.Accepted(d) && Ids(t.dropped, d) == Ids(s.dropped, d) + [x]
    requires Increasing(Trace(s, d)) ==> Increasing(Trace(t, d))
    requires multiset(Trace(s, d)) == multiset(Trace(t, d)) + multiset{x}
    ensures Conserved(t, d) && Ordered(t, d)
  {
    hide Trace, Ids, Increasing;
  }

  lemma InjectKeeps(s: State, d: Direction, e: Direction)
    requires s.Shape() && Conserved(s, e) && Ordered(s, e)
    ensures DoInject(s, d).Shape() && Conserved(DoInject(s, d), e) && Ordered(DoInject(s, d), e)
  {
    hide Lines, Concat, Increasing, Conserved, Ordered, Ids;
    var t := DoInject(s, d);
    if |s.mb[Entry(d, s.N())]| >= s.size {
      SameLines(s, t, e);
      SameTrace(s, t, e);
    } else {
      InjectLines(s, d, e);
      if e == d {
        ConcatAppend(Lines(s, d), Lines(t, d), s.Accepted(d));
        AddedTrace(s, t, d);
      } else {
        SameTrace(s, t, e);
      }
    }
  }

  lemma FetchKeeps(s: State, i: nat, d: Direction)
    requires s.Shape() && Enabled(s, Fetch(i)) && Conserved(s, d) && Ordered(s, d)
    ensures DoFetch(s, i).Shape() && Conserved(DoFetch(s, i), d) && Ordered(DoFetch(s, i), d)
  {
    hide Lines, Concat, Increasing, Conserved, Ordered, Ids, At;
    FetchLines(s, i, d);
    SameTrace(s, DoFetch(s, i), d);
  }

  lemma ForwardKeeps(s: State, i: nat, d: Direction)
    requires s.Shape() && Enabled(s, Forward(i)) && Conserved(s, d) && Ordered(s, d)
    ensures DoForward(s, i).Shape() && Conserved(DoForward(s, i), d) && Ordered(DoForward(s, i), d)
  {
    hide Lines, Concat, Increasing, Conserved, Ordered, Ids, At;
    var t, m := DoForward(s, i), s.workers[i].m;
    var k := Target(m.dir, i, s.N());
    var j := if m.dir == Right then s.N() - 1 - i else i;
    if k >= s.N() {
      RetireLines(s, i, d);
      if d == m.dir {
        ConcatMove(Lines(s, d), Lines(t, d), 0, m.id);
      }
      SameTrace(s, t, d);
    } else if |s.mb[k]| < s.size {
      PassLines(s, i, j, d);
      if d == m.dir {
        ConcatMove(Lines(s, d), Lines(t, d), j, m.id);
      }
      SameTrace(s, t, d);
    } else {
      DropLines(s, i, j, d);
      IdsAppend(s.dropped, m, d);
      if d == m.dir {
        ConcatRemove(Lines(s, d), Lines(t, d), j + 1, m.id);
        RemovedTrace(s, t, d, m.id);
      } else {
        SameTrace(s, t, d);
      }
    }
  }

  /** A step that touches no message. */
  lemma QuietKeeps(s: State, t: State, d: Direction)
    requires s.Shape() && Conserved(s, d) && Ordered(s, d)
    requires t.Shape() && t.mb == s.mb && t.retired == s.retired && t.dropped == s.dropped
    requires t.acceptedLeft == s.acceptedLeft && t.acceptedRight == s.acceptedRight
    requires forall i :: 0 <= i < s.N() ==> HeldBy(t.workers[i]) == HeldBy(s.workers[i])
    ensures Conserved(t, d) && Ordered(t, d)
  {
    hide Lines, Concat, Increasing, Conserved, Ordered, Ids;
    SameLines(s, t, d);
    SameTrace(s, t, d);
  }

  /** Every step of every interleaving keeps conservation, order and the mailbox bounds. */
  lemma StepKeeps(s: State, step: Step)
    requires Inv(s) && Enabled(s, step)
    ensures Inv(Next(s, step))
  {
    hide Conserved, Ordered;
    var t := Next(s, step);
    forall d: Direction ensures Conserved(t, d) && Ordered(t, d) {
      match step
      case Inject(e) => InjectKeeps(s, e, d);
      case Fetch(i) => FetchKeeps(s, i, d);
      case Forward(i) => ForwardKeeps(s, i, d);
      case Flag(i) => QuietKeeps(s, t, d);
      case Clear => QuietKeeps(s, t, d);
    }
  }

  // ----- runs

  /** `steps` can be taken one after the other from `s`. */
  predicate CanRun(s: State, steps: seq<Step>)
    requires s.Shape()
    decreases |steps|
  {
    steps == [] || (Enabled(s, steps[0]) && Next(s, steps[0]).Shape() && CanRun(Next(s, steps[0]), steps[1..]))
  }

  function Run(s: State, steps: seq<Step>): (t: State)
    requires s.Shape() && CanRun(s, steps)
    ensures t.Shape()
    decreases |steps|
  {
    if steps == [] then s else Run(Next(s, steps[0]), steps[1..])
  }

  lemma {:induction false} RunKeeps(s: State, steps: seq<Step>)
    requires Inv(s) && CanRun(s, steps)
    ensures Inv(Run(s, steps))
    decreases |steps|
  {
    if steps != [] {
      StepKeeps(s, steps[0]);
      RunKeeps(Next(s, steps[0]), steps[1..]);
    }
  }

  lemma InitialInv(n: nat, size: nat)
    requires n >= 1
    ensures Inv(Initial(n, size))
  {
    var s := Initial(n, size);
    forall d: Direction ensures Trace(s, d) == [] {
      EmptyConcat(Lines(s, d));
    }
  }

  lemma {:induction false} EmptyConcat(ls: seq<seq<nat>>)
    requires forall i :: 0 <= i < |ls| ==> ls[i] == []
    ensures Concat(ls) == []
  {
    if ls != [] {
      EmptyConcat(ls[1..]);
    }
  }
}
