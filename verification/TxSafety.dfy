/**
 * The invariant of the transmit side and the theorems about whole runs: every
 * interleaving of pushing contexts, comm task, interrupt and FIFO.
 */
module TxSafety {
  import opened Bytes
  import opened Cobs
  import opened Message
  import opened TxRing
  import opened TxProtocol
  import opened TxOwnership
  import opened TxConservation

  // ---------------------------------------------------------------- wake-up

  /** A context between putting a frame into the ring and waking the task. */
  predicate AboutToWake(s: State, k: nat) {
    k in s.pushers && (s.pushers[k].Committed? || s.pushers[k].Waking?)
  }

  /** Positions of the task from which it still reaches a test of the ring or enables the interrupt. */
  predicate WillLook(t: Task) {
    !t.Waiting? && !t.Receiving? && (t.TxDone? ==> t.free == 0)
  }

  /** Something will look at the ring again. */
  ghost predicate Covered(s: State) {
    || s.pending || s.port.txEnabled || WillLook(s.task)
    || s.isr.IsrCommitted? || s.isr.IsrWaking?
    || exists k :: AboutToWake(s, k)
  }

  /** A ring that is not empty is never forgotten. */
  ghost predicate WakeUp(s: State) { !s.store.ring.Empty() ==> Covered(s) }

  lemma WakeUpKeptPush(s: State, k: nat, choice: bool)
    requires WakeUp(s) && CanStep(s, Push(k, choice))
    ensures WakeUp(ApplyPush(s, k, choice))
  {
    hide Encode, Body, Ring.Push, Ring.LiteralFull, Ring.Empty, Wake;
    var s' := ApplyPush(s, k, choice);
    PushFrame(s, k, choice);
    WakeFrame(Leave(s, k));
    WakeSets(Leave(s, k));
    if s.pushers[k].Encoded? && !s.store.ring.LiteralFull() {
      assert AboutToWake(s', k);
    } else if !s.store.ring.Empty() && !s.pending {
      if j :| AboutToWake(s, j) {
        if j != k || s.pushers[k].Committed? {
          assert AboutToWake(s', j);
        }
      }
    }
  }

  lemma WakeSets(s: State)
    ensures Wake(s).pending
  {}

  lemma WakeUpKeptTask(s: State)
    requires s.store.ring.Valid() && Sending(s) && WakeUp(s) && CanStep(s, TaskStep)
    ensures WakeUp(ApplyTask(s))
  {
    hide Encode, Body, Ring.Queue, Ring.Pop, Ring.Empty, Conserved, Release;
    var s' := ApplyTask(s);
    if s.task.TxCopy? {
      CopyFacts(s);
    }
    if s'.store.ring == s.store.ring && !s.store.ring.Empty() {
      if k :| AboutToWake(s, k) {
        assert AboutToWake(s', k);
      }
    }
  }

  lemma WakeUpKeptIsr(s: State)
    requires WakeUp(s) && CanStep(s, IsrStep)
    ensures WakeUp(ApplyIsr(s))
  {
    hide Wake, Ring.Empty;
    var s' := ApplyIsr(s);
    IsrFrame(s);
    WakeSets(s.(isr := Outside));
    if k :| AboutToWake(s, k) {
      assert AboutToWake(s', k);
    }
  }

  lemma WakeUpKept(s: State, l: Label)
    requires s.store.ring.Valid() && Sending(s) && WakeUp(s) && CanStep(s, l)
    ensures WakeUp(Apply(s, l))
  {
    hide Sending, ApplyPush, ApplyTask, ApplyIsr, Ring.Empty, Ring.Valid;
    if l.Push? {
      WakeUpKeptPush(s, l.k, l.choice);
    } else if l.TaskStep? {
      WakeUpKeptTask(s);
    } else if l.IsrStep? {
      WakeUpKeptIsr(s);
    } else {
      if k :| AboutToWake(s, k) {
        assert AboutToWake(Apply(s, l), k);
      }
    }
  }

  // ---------------------------------------------------------------- the counters

  /** The write counter counts the committed frames, the read counter those taken out. */
  predicate Counters(st: Store) {
    && st.ring.write == |st.committed| % WRAP
    && st.ring.Used() <= |st.committed|
    && st.ring.read == (|st.committed| - st.ring.Used()) % WRAP
  }

  /** Before the counters wrap for the first time the literal test is exact. */
  lemma EarlyRingsAreNotWrapped(st: Store)
    requires Counters(st) && |st.committed| < WRAP
    ensures !WrappedFull(st.ring)
  {}

  lemma CountersPush(st: Store, id: nat, p: Packet)
    requires st.ring.Valid() && st.ring.Used() < SIZE && Counters(st)
    ensures Counters(st.(ring := st.ring.Push(id), committed := st.committed + [p]))
  {
    PushUsed(st.ring, id);
    WrapAdd(|st.committed|, 1);
    assert |st.committed + [p]| - st.ring.Push(id).Used() == |st.committed| - st.ring.Used();
    hide Ring.Used, Ring.Queue;
  }

  lemma CountersPop(st: Store)
    requires st.ring.Valid() && !st.ring.Empty() && Counters(st)
    ensures Counters(st.(ring := st.ring.Pop()))
  {
    UsedAfterPop(st.ring.read, st.ring.write);
  }

  lemma CountersSame(st: Store, st': Store)
    requires st'.ring == st.ring && st'.committed == st.committed && Counters(st)
    ensures Counters(st')
  {}

  lemma CountersKeptPush(s: State, k: nat, choice: bool)
    requires s.store.ring.Valid() && Counters(s.store) && CanStep(s, Push(k, choice))
    requires s.pushers[k].Encoded? ==> !WrappedFull(s.store.ring)
    ensures Counters(ApplyPush(s, k, choice).store)
  {
    hide Encode, Body, Counters, Ring.Push, Ring.LiteralFull, Ring.Used, Wake;
    WakeFrame(Leave(s, k));
    if s.pushers[k].Encoded? && !s.store.ring.LiteralFull() {
      LiteralFullAgrees(s.store.ring);
      CountersPush(s.store, s.pushers[k].id, s.pushers[k].packet);
    } else {
      CountersSame(s.store, ApplyPush(s, k, choice).store);
    }
  }

  lemma CountersKeptTask(s: State)
    requires s.store.ring.Valid() && Sending(s) && Counters(s.store) && CanStep(s, TaskStep)
    ensures Counters(ApplyTask(s).store)
  {
    hide Sending, Counters, Ring.Pop, Ring.Queue, Ring.Empty, Ring.Used;
    if s.task.TxCopy? {
      CopyFacts(s);
    }
    if AtEnd(s) {
      CountersPop(s.store);
    } else {
      CountersSame(s.store, ApplyTask(s).store);
    }
  }

  // ---------------------------------------------------------------- the invariant

  ghost predicate Inv(s: State) {
    && s.store.ring.Valid() && Ownership(s) && Sending(s)
    && Tokens(s) && FifoFits(s) && WakeUp(s) && Counters(s.store)
  }

  lemma InitSending()
    ensures Init().store.ring.Valid() && Ownership(Init()) && Sending(Init())
  {
    hide Encode, Body;
    var s := Init();
    assert Queue(s) == [];
    assert Contents([], s.store.heap) == [];
    assert s.port.wire + s.port.fifo + [] == [0] + [];
  }

  lemma InitInv()
    ensures Inv(Init())
  {
    hide Sending, Ownership, Ring.Valid;
    InitSending();
  }

  /** A step the source can take touches no freed buffer, and frees only allocated ones. */
  lemma NoUseAfterFree(s: State, l: Label)
    requires Inv(s) && Enabled(s, l)
    ensures CanStep(s, l)
    ensures l.Push? && s.pushers[l.k].Refused? ==> s.pushers[l.k].id in s.store.heap
    ensures s.task.TxFree? ==> s.task.id in s.store.heap
  {
    hide Encode, Body, Conserved, Ring.Queue, Ring.Empty, WakeUp, Tokens, Counters, FifoFits;
    if s.task.TxCopy? {
      CopyFacts(s);
    }
    if l.Push? && s.pushers[l.k].Refused? {
      assert HeldBy(s, l.k, s.pushers[l.k].id);
    }
  }

  // The steps that leave store, task and contexts alone, except for starting a context.
  lemma StoreKeptEvent(s: State, l: Label)
    requires CanStep(s, l) && !l.Push? && !l.TaskStep?
    requires s.store.ring.Valid() && Ownership(s) && Sending(s) && Counters(s.store)
    ensures var s' := Apply(s, l); s'.store.ring.Valid() && Ownership(s') && Sending(s') && Counters(s'.store)
  {
    hide Encode, Body, Ownership, Conserved, Counters, Ring.Queue, Ring.Valid, ApplyIsr;
    var s' := Apply(s, l);
    if l.IsrStep? {
      IsrFrame(s);
    }
    if l.Drain? {
      assert s.port.wire + [s.port.fifo[0]] + s.port.fifo[1..] == s.port.wire + s.port.fifo;
    }
    OwnershipUntouched(s, s');
    SendingUntouched(s, s');
  }

  lemma StoreKept(s: State, l: Label)
    requires CanStep(s, l)
    requires s.store.ring.Valid() && Ownership(s) && Sending(s) && Counters(s.store)
    requires IsCommit(s, l) ==> !WrappedFull(s.store.ring)
    ensures var s' := Apply(s, l); s'.store.ring.Valid() && Ownership(s') && Sending(s') && Counters(s'.store)
  {
    hide Ownership, Sending, Counters, ApplyPush, ApplyTask, ApplyIsr, Ring.Valid;
    if l.Push? {
      OwnershipKeptPush(s, l.k, l.choice);
      SendingKeptPush(s, l.k, l.choice);
      CountersKeptPush(s, l.k, l.choice);
    } else if l.TaskStep? {
      if s.task.TxCopy? {
        CopyFacts(s);
      }
      OwnershipKeptTask(s);
      SendingKeptTask(s);
      CountersKeptTask(s);
    } else {
      StoreKeptEvent(s, l);
    }
  }

  /**
   * Every step keeps the invariant, with one exception: putting a buffer into
   * a full ring whose write counter has wrapped.
   */
  lemma InvKeptExactly(s: State, l: Label)
    requires Inv(s) && CanStep(s, l)
    ensures Inv(Apply(s, l)) <==> !(IsCommit(s, l) && WrappedFull(s.store.ring))
  {
    hide Ownership, Sending, Tokens, FifoFits, WakeUp, Counters, ApplyTask, ApplyIsr, Ring.Valid;
    if IsCommit(s, l) && WrappedFull(s.store.ring) {
      hide Encode, Body, Ring.Push, Ring.LiteralFull;
      WrappedFullLosesOldest(s.store.ring, s.pushers[l.k].id);
    } else {
      hide Apply;
      StoreKept(s, l);
      TokensKept(s, l);
      FifoFitsKept(s, l);
      WakeUpKept(s, l);
    }
  }
}
