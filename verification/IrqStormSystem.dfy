/**
 The code of the IRQ storm test: the shared variables, the timer callbacks, the
 pieces of a worker's loop.
 */
module IrqStormSystem {
  import opened IrqStorm

  /** The module's static variables.  `Chain` gives them, with the history, as a state of the chain. */
  class System {
    const size: nat
    var mb: seq<seq<Message>>
    var workers: seq<Worker>
    var saturated: bool
    ghost var acceptedLeft: nat
    ghost var acceptedRight: nat
    ghost var retired: seq<Message>
    ghost var dropped: seq<Message>
    ghost var failed: bool
    var nextLeft: nat
    var nextRight: nat

    ghost function Chain(): State
      reads this
    {
      State(size, mb, workers, saturated, acceptedLeft, acceptedRight, retired, dropped, failed)
    }

    ghost predicate Valid()
      reads this
    {
      Chain().Shape() && nextLeft == acceptedLeft && nextRight == acceptedRight
    }

    constructor (n: nat, mailboxSize: nat)
      requires n >= 1
      ensures Valid() && Chain() == Initial(n, mailboxSize)
    {
      size := mailboxSize;
      mb := seq(n, _ => []);
      workers := seq(n, _ => Waiting);
      saturated := false;
      acceptedLeft, acceptedRight, retired, dropped, failed := 0, 0, [], [], false;
      nextLeft, nextRight := 0, 0;
    }

    /** `chMBPost` without waiting: the message goes to the end of the mailbox if there is room. */
    method Post(k: nat, m: Message) returns (ok: bool)
      requires k < |mb|
      modifies this`mb
      ensures ok <==> |old(mb)[k]| < size
      ensures mb == if ok then old(mb)[k := old(mb)[k] + [m]] else old(mb)
    {
      ok := |mb[k]| < size;
      if ok {
        mb := mb[k := mb[k] + [m]];
      }
    }

    /** `irq_storm_gpt1_cb`: a message for the right enters at thread 0. */
    method Gpt1Callback()
      requires Valid()
      modifies this
      ensures Valid() && Chain() == Next(old(Chain()), Inject(Right))
    {
      var ok := Post(0, Message(Right, nextRight, []));
      if !ok {
        saturated := true;
        failed := true;
      } else {
        acceptedRight := acceptedRight + 1;
        nextRight := nextRight + 1;
      }
    }

    /** `irq_storm_gpt2_cb`: a message for the left enters at the last thread. */
    method Gpt2Callback()
      requires Valid()
      modifies this
      ensures Valid() && Chain() == Next(old(Chain()), Inject(Left))
    {
      var ok := Post(|mb| - 1, Message(Left, nextLeft, []));
      if !ok {
        saturated := true;
        failed := true;
      } else {
        acceptedLeft := acceptedLeft + 1;
        nextLeft := nextLeft + 1;
      }
    }

    /** The start of a worker's turn: `chMBFetch` returns. */
    method WorkerFetch(me: nat)
      requires Valid() && Enabled(Chain(), Fetch(me))
      modifies this
      ensures Valid() && Chain() == Next(old(Chain()), Fetch(me))
    {
      var msg := mb[me][0];
      mb := mb[me := mb[me][1..]];
      workers := workers[me := Holding(msg.(path := msg.path + [me]))];
    }

    /** The rest of a worker's turn, up to the write of the flag after a failed post. */
    method WorkerForward(me: nat)
      requires Valid() && Enabled(Chain(), Forward(me))
      modifies this
      ensures Valid() && Chain() == Next(old(Chain()), Forward(me))
    {
      var msg := workers[me].m;
      // the subtraction is on unsigned numbers: thread 0 gets a target beyond the last thread
      var target := if msg.dir == Left then (if me == 0 then |mb| else me - 1) else me + 1;
      if target < |mb| {
        var ok := Post(target, msg);
        if ok {
          workers := workers[me := Waiting];
        } else {
          workers := workers[me := Flagging];
          dropped := dropped + [msg];
          failed := true;
        }
      } else {
        workers := workers[me := Waiting];
        retired := retired + [msg];
      }
    }

    method WorkerFlag(me: nat)
      requires Valid() && Enabled(Chain(), Flag(me))
      modifies this
      ensures Valid() && Chain() == Next(old(Chain()), Flag(me))
    {
      saturated := true;
      workers := workers[me := Waiting];
    }

    /** The test loop starts an iteration. */
    method ClearSaturated()
      requires Valid()
      modifies this
      ensures Valid() && Chain() == Next(old(Chain()), Clear) && !saturated
    {
      saturated := false;
      failed := false;
    }
  }
}
