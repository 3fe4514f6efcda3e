/**
 * The transmit side always comes to rest: from every state of the invariant,
 * and without a new packet, the moves of the contexts, the task, the interrupt
 * and the FIFO lead to a state in which everything has been sent.
 */
module TxProgress {
  import opened Bytes
  import opened Cobs
  import opened Message
  import opened TxRing
  import opened TxProtocol
  import opened TxOwnership
  import opened TxConservation
  import opened TxSafety
  import opened TxRuns

  // ---------------------------------------------------------------- the measure

  /** The contexts at each place on the way to the ring. */
  function At(s: State, place: nat): set<nat> {
    set k | k in s.pushers && Place(s.pushers[k]) == place
  }

  function Place(p: Pusher): nat {
    match p
    case Checking(_) => 1
    case Allocating(_) => 2
    case Encoded(_, _) => 3
    case Committed => 4
    case _ => 0
  }

  /** The bytes that are still in the ring. */
  ghost function Left(s: State): int { 1 + |WireOf(s.store.committed)| - |s.port.wire| - |s.port.fifo| }

  // How many steps of task, interrupt and events are due while no byte moves.

  function LoopWork(free: nat): nat { if free > 0 then 2 else 14 }

  function TaskWork(t: Task): nat {
    match t
    case Waiting => 0
    case Receiving => 1
    case TxStart => 4
    case TxMeasure => 3
    case TxLoop(free) => LoopWork(free)
    case TxCopy(free, _, _) => if free > 0 then 1 else 14
    case TxReset(free, _) => LoopWork(free) + 2
    case TxFree(free, _) => LoopWork(free) + 1
    case TxDone(free) => if free > 0 then 1 else 13
    case TxEnable => 12
  }

  function AfterWork(tx: bool): nat { if tx then 8 else 0 }

  function IsrWork(i: Isr): nat {
    match i
    case Outside => 0
    case Entered(rx, tx) => 1 + (if rx then 3 else 0) + AfterWork(tx)
    case PostRx(tx) => 3 + AfterWork(tx)
    case HandleTx => 8
    case IsrCommitted => 7
    case IsrWaking => 6
  }

  /** The handler has seen the TX interrupt and will disable it. */
  predicate WillDisable(i: Isr) {
    match i
    case Entered(_, tx) => tx
    case PostRx(tx) => tx
    case HandleTx => true
    case _ => false
  }

  function Work(s: State): nat {
    TaskWork(s.task) + 5 * Count(s.events, DoTx) + 2 * Count(s.events, DoRx) + IsrWork(s.isr)
    + if s.port.txEnabled && !WillDisable(s.isr) then 11 else 0
  }

  /** Contexts, bytes, buffers, steps, FIFO: t has less to do than s, in this order of weight. */
  ghost predicate Less(t: State, s: State) {
    || |t.pushers| < |s.pushers|
    || (|t.pushers| == |s.pushers| && (
      || FewerAt(t, s)
      || (SameAt(t, s) && (
        || Left(t) < Left(s)
        || (Left(t) == Left(s) && (
          || t.store.ring.Used() < s.store.ring.Used()
          || (t.store.ring.Used() == s.store.ring.Used() && (
            || Work(t) < Work(s)
            || (Work(t) == Work(s) && |t.port.fifo| < |s.port.fifo|)))))))))
  }

  predicate SameAt(t: State, s: State) {
    |At(t, 1)| == |At(s, 1)| && |At(t, 2)| == |At(s, 2)| && |At(t, 3)| == |At(s, 3)| && |At(t, 4)| == |At(s, 4)|
  }

  /** A context has moved on to the next place. */
  predicate FewerAt(t: State, s: State) {
    || |At(t, 1)| < |At(s, 1)|
    || (|At(t, 1)| == |At(s, 1)| && (
      || |At(t, 2)| < |At(s, 2)|
      || (|At(t, 2)| == |At(s, 2)| && (
        || |At(t, 3)| < |At(s, 3)|
        || (|At(t, 3)| == |At(s, 3)| && |At(t, 4)| < |At(s, 4)|)))))
  }

  // ---------------------------------------------------------------- the steps

  lemma DispatchWorks(s: State)
    requires CanStep(s, TaskStep) && s.task.Waiting?
    ensures Work(ApplyTask(s)) < Work(s)
  {}

  // What a step in the middle of `transmitter_send` or `do_rx` does.
  lemma RunningWorks(s: State)
    requires CanStep(s, TaskStep) && !s.task.Waiting? && s.port.fifo == []
    requires !s.task.TxCopy? || (s.task.free == 0 && s.task.i != |s.store.heap[s.task.id]|)
    ensures var s' := ApplyTask(s);
            && s'.events == s.events && s'.isr == s.isr
            && if s.task.TxEnable? then s'.task == Waiting && s'.port.txEnabled
               else s'.port.txEnabled == s.port.txEnabled && TaskWork(s'.task) < TaskWork(s.task)
  {
    hide Ring.Empty, Ring.Pop;
  }

  lemma StoreStays(s: State)
    requires CanStep(s, TaskStep)
    requires !s.task.TxCopy? || (s.task.free == 0 && s.task.i != |s.store.heap[s.task.id]|)
    ensures ApplyTask(s).store.ring == s.store.ring && ApplyTask(s).port.fifo == s.port.fifo
  {
    hide Ring.Empty, Ring.Pop;
  }

  // A step of the task that neither writes a byte nor takes a buffer out of the ring.
  lemma TaskWorks(s: State)
    requires CanStep(s, TaskStep) && s.port.fifo == [] && s.isr.Outside?
    requires !s.task.TxCopy? || (s.task.free == 0 && s.task.i != |s.store.heap[s.task.id]|)
    ensures var s' := ApplyTask(s); s'.store.ring == s.store.ring && s'.port.fifo == s.port.fifo && Work(s') < Work(s)
  {
    hide ApplyTask, Count;
    StoreStays(s);
    if s.task.Waiting? {
      DispatchWorks(s);
    } else {
      RunningWorks(s);
    }
  }

  // A step that does.
  lemma TaskCopies(s: State)
    requires CanStep(s, TaskStep) && s.task.TxCopy? && s.task.i <= |s.store.heap[s.task.id]|
    requires s.task.free > 0 || s.task.i == |s.store.heap[s.task.id]|
    ensures var s' := ApplyTask(s);
            if s.task.i < |s.store.heap[s.task.id]|
            then |s'.port.fifo| == |s.port.fifo| + 1
            else s'.store.ring == s.store.ring.Pop() && s'.port.fifo == s.port.fifo
  {
    hide Ring.Pop;
  }

  lemma TaskKeeps(s: State)
    requires CanStep(s, TaskStep)
    ensures ApplyTask(s).pushers == s.pushers && ApplyTask(s).port.wire == s.port.wire
  {
    hide Ring.Pop, Ring.Empty;
  }

  /** A step of the task with an empty FIFO and no interrupt under way brings the end nearer. */
  lemma TaskDecreases(s: State)
    requires Inv(s) && CanStep(s, TaskStep) && s.port.fifo == [] && s.isr.Outside?
    ensures Less(ApplyTask(s), s)
  {
    hide ApplyTask, WireOf, Ring.Queue, Ring.Pop, Ring.Used, Sending, Ownership, Counters, At, Work;
    TaskKeeps(s);
    TaskCommits(s);
    SameContexts(s, ApplyTask(s));
    if s.task.TxCopy? {
      CopyFacts(s);
      if s.task.free > 0 || s.task.i == |s.store.heap[s.task.id]| {
        TaskCopies(s);
        PopLess(s.store.ring);
        return;
      }
    }
    TaskWorks(s);
  }

  lemma SameContexts(s: State, t: State)
    requires t.pushers == s.pushers
    ensures forall p :: At(t, p) == At(s, p)
  {}

  lemma PopLess<T>(r: Ring<T>)
    requires !r.Empty()
    ensures r.Pop().Used() < r.Used()
  {
    EmptyIsZeroUsed(r);
    UsedAfterPop(r.read, r.write);
  }

  // ---------------------------------------------------------------- the interrupt and the FIFO

  lemma IsrDecreases(s: State)
    requires Inv(s) && CanStep(s, IsrStep)
    ensures Less(ApplyIsr(s), s)
  {
    hide ApplyIsr, WireOf, Ring.Used, Ownership, Sending, WakeUp, Counters, FifoFits, At, Work;
    IsrFrame(s);
    SameContexts(s, ApplyIsr(s));
    IsrWorks(s);
  }

  lemma IsrWorks(s: State)
    requires Tokens(s) && CanStep(s, IsrStep)
    ensures Work(ApplyIsr(s)) < Work(s)
  {
    hide Count, Post;
    QueueBound(s);
    PostKeeps(s.(isr := Outside, pending := true), DoTx);
    if s.isr.PostRx? {
      PostKeeps(s.(isr := AfterRx(s.isr.tx)), DoRx);
    }
  }

  lemma InterruptDecreases(s: State)
    requires CanStep(s, Interrupt(false, true))
    ensures Less(Apply(s, Interrupt(false, true)), s)
  {
    hide WireOf, Ring.Used, At, Count;
    SameContexts(s, Apply(s, Interrupt(false, true)));
  }

  lemma DrainDecreases(s: State)
    requires CanStep(s, Drain)
    ensures Less(Apply(s, Drain), s)
  {
    hide WireOf, Ring.Used, At, Count;
    SameContexts(s, Apply(s, Drain));
  }

  // ---------------------------------------------------------------- the contexts

  lemma LeavingDecreases(s: State, t: State, k: nat)
    requires k in s.pushers && t.pushers == s.pushers - {k}
    ensures Less(t, s)
  {
    assert t.pushers.Keys == s.pushers.Keys - {k};
    assert |t.pushers| == |t.pushers.Keys| && |s.pushers| == |s.pushers.Keys|;
  }

  lemma OtherPlaces(s: State, t: State, k: nat, place: nat)
    requires k in s.pushers && k in t.pushers && t.pushers == s.pushers[k := t.pushers[k]]
    requires Place(s.pushers[k]) != place && Place(t.pushers[k]) != place
    ensures At(t, place) == At(s, place)
  {}

  // The context leaves its place for a later one, or for one behind them all.
  lemma MovingDecreases(s: State, t: State, k: nat)
    requires k in s.pushers && k in t.pushers && t.pushers == s.pushers[k := t.pushers[k]]
    requires 1 <= Place(s.pushers[k]) && (Place(t.pushers[k]) == 0 || Place(t.pushers[k]) > Place(s.pushers[k]))
    ensures Less(t, s)
  {
    hide At, Place;
    var place := Place(s.pushers[k]);
    assert t.pushers.Keys == s.pushers.Keys && |t.pushers| == |t.pushers.Keys| && |s.pushers| == |s.pushers.Keys|;
    forall p: nat | 1 <= p < place ensures At(t, p) == At(s, p) {
      OtherPlaces(s, t, k, p);
    }
    PlaceLeft(s, t, k);
    PlacesKnown(s.pushers[k]);
  }

  lemma PlacesKnown(p: Pusher)
    ensures Place(p) <= 4
  {}

  lemma PlaceLeft(s: State, t: State, k: nat)
    requires k in s.pushers && k in t.pushers && t.pushers == s.pushers[k := t.pushers[k]]
    requires Place(t.pushers[k]) != Place(s.pushers[k])
    ensures var p := Place(s.pushers[k]); |At(t, p)| < |At(s, p)|
  {
    var p := Place(s.pushers[k]);
    assert k in At(s, p) && At(t, p) == At(s, p) - {k};
  }

  lemma PushDecreases(s: State, k: nat, choice: bool)
    requires CanStep(s, Push(k, choice))
    ensures Less(ApplyPush(s, k, choice), s)
  {
    hide Encode, Body, Less, Ring.Push, Ring.LiteralFull, Wake, Release;
    var t := ApplyPush(s, k, choice);
    WakeFrame(Leave(s, k));
    if k in t.pushers {
      MovingDecreases(s, t, k);
    } else {
      LeavingDecreases(s, t, k);
    }
  }

  // ---------------------------------------------------------------- coming to rest

  /** At rest, and the last byte has left the FIFO. */
  predicate Settled(s: State) { Quiescent(s) && s.port.fifo == [] }

  // With the task, the interrupt and the FIFO at rest, a context that holds up the ring can move.
  lemma ContextMoves(s: State) returns (k: nat)
    requires Inv(s) && s.pushers != map[] && s.task.Waiting? && s.events == [] && s.isr.Outside? && !s.port.txEnabled
    ensures k in s.pushers && !(s.pushers[k].Encoded? && WrappedFull(s.store.ring))
  {
    hide Ownership, Sending, FifoFits, Counters, Ring.Queue;
    if s.store.ring.Empty() {
      EmptyIsZeroUsed(s.store.ring);
      k :| k in s.pushers;
    } else {
      assert Count(s.events, DoTx) == 0;
      k :| AboutToWake(s, k);
    }
  }

  /** As long as something is left to do, some party can move, and what is left becomes less. */
  lemma SomeoneMoves(s: State, choice: bool) returns (l: Label)
    requires Inv(s) && !Settled(s)
    ensures CanStep(s, l) && !l.Begin? && !(IsCommit(s, l) && WrappedFull(s.store.ring))
    ensures Less(Apply(s, l), s)
  {
    hide Inv, Less, ApplyPush, ApplyTask, ApplyIsr, WrappedFull, CanStep;
    if s.port.fifo != [] {
      l := Drain;
      NoUseAfterFree(s, l);
      DrainDecreases(s);
    } else if !s.isr.Outside? {
      l := IsrStep;
      NoUseAfterFree(s, l);
      IsrDecreases(s);
    } else if !s.task.Waiting? || s.events != [] {
      l := TaskStep;
      NoUseAfterFree(s, l);
      TaskDecreases(s);
    } else if s.port.txEnabled {
      l := Interrupt(false, true);
      NoUseAfterFree(s, l);
      InterruptDecreases(s);
    } else {
      var k := ContextMoves(s);
      l := Push(k, choice);
      NoUseAfterFree(s, l);
      PushDecreases(s, k, choice);
    }
  }

  lemma LeftIsNatural(s: State)
    requires Inv(s)
    ensures Left(s) >= 0
  {
    hide WireOf, Positioned, Ownership, WakeUp, Tokens, Counters, FifoFits, Unsent;
    assert |s.port.wire + s.port.fifo + Unsent(s)| == |[0] + WireOf(s.store.committed)|;
  }

  /**
   * From every state of the invariant there is a guarded run without a new
   * packet, whatever the unlocked tests and allocations yield, to a state at rest.
   */
  lemma {:induction false} Settles(s: State, choose: State -> bool) returns (labels: seq<Label>)
    requires Inv(s)
    ensures Possible(s, labels) && Guarded(s, labels) && forall l :: l in labels ==> !l.Begin?
    ensures Settled(Final(s, labels)) && Inv(Final(s, labels))
    decreases |s.pushers|, |At(s, 1)|, |At(s, 2)|, |At(s, 3)|, |At(s, 4)|, Left(s), s.store.ring.Used(), Work(s),
      |s.port.fifo|
  {
    hide Inv, Apply, CanStep, IsCommit, WrappedFull, Settled, At, Left, Work, Ring.Used;
    if Settled(s) {
      labels := [];
    } else {
      var l := SomeoneMoves(s, choose(s));
      InvKeptExactly(s, l);
      LeftIsNatural(s);
      var rest := Settles(Apply(s, l), choose);
      labels := [l] + rest;
      assert labels[0] == l && labels[1..] == rest;
    }
  }

  /** At rest everything committed is on the wire, and every buffer is freed. */
  lemma SettledMeansSent(s: State)
    requires Inv(s) && Settled(s)
    ensures s.port.wire == [0] + WireOf(s.store.committed)
    ensures s.store.ring.Empty() && s.store.heap == map[] && |s.store.freed| == s.store.next
  {
    hide Inv, Quiescent;
    QuiescentMeansDone(s);
  }
}
