/**
 * Whole runs of the transmit side: what holds after any sequence of steps from
 * `comm_init`, and what holds when nothing is left to do.
 */
module TxRuns {
  import opened Bytes
  import opened Cobs
  import opened Message
  import opened TxRing
  import opened TxProtocol
  import opened TxOwnership
  import opened TxConservation
  import opened TxSafety

  /** The steps can be taken one after the other. */
  predicate Possible(s: State, labels: seq<Label>)
    decreases |labels|
  {
    labels == [] || (CanStep(s, labels[0]) && Possible(Apply(s, labels[0]), labels[1..]))
  }

  function Final(s: State, labels: seq<Label>): State
    requires Possible(s, labels)
    decreases |labels|
  {
    if labels == [] then s else Final(Apply(s, labels[0]), labels[1..])
  }

  /** No step puts a buffer into a full ring whose write counter has wrapped. */
  predicate Guarded(s: State, labels: seq<Label>)
    requires Possible(s, labels)
    decreases |labels|
  {
    labels == [] || (
      && !(IsCommit(s, labels[0]) && WrappedFull(s.store.ring))
      && Guarded(Apply(s, labels[0]), labels[1..]))
  }

  lemma {:induction false} InvAfter(s: State, labels: seq<Label>)
    requires Inv(s) && Possible(s, labels) && Guarded(s, labels)
    ensures Inv(Final(s, labels))
    decreases |labels|
  {
    hide Inv, CanStep, Apply, IsCommit, WrappedFull;
    if labels != [] {
      InvKeptExactly(s, labels[0]);
      InvAfter(Apply(s, labels[0]), labels[1..]);
    }
  }

  /** The invariant holds in every state a guarded run from `comm_init` reaches. */
  lemma Reachable(labels: seq<Label>)
    requires Possible(Init(), labels) && Guarded(Init(), labels)
    ensures Inv(Final(Init(), labels))
  {
    hide Inv, Init;
    InitInv();
    InvAfter(Init(), labels);
  }

  lemma CommittedGrows(s: State, l: Label)
    requires CanStep(s, l)
    ensures s.store.committed <= Apply(s, l).store.committed
  {
    hide Encode, Body, Ring.Push, Ring.Pop, Ring.LiteralFull, Ring.Empty, Wake, ApplyTask, ApplyIsr;
    if l.IsrStep? {
      IsrFrame(s);
    } else if l.Push? {
      WakeFrame(Leave(s, l.k));
    } else if l.TaskStep? {
      TaskCommits(s);
    }
  }

  lemma TaskCommits(s: State)
    requires CanStep(s, TaskStep)
    ensures ApplyTask(s).store.committed == s.store.committed
  {
    hide Ring.Pop, Ring.Empty;
  }

  lemma {:induction false} CommittedGrowsAll(s: State, labels: seq<Label>)
    requires Possible(s, labels)
    ensures s.store.committed <= Final(s, labels).store.committed
    decreases |labels|
  {
    hide CanStep, Apply;
    if labels != [] {
      CommittedGrows(s, labels[0]);
      CommittedGrowsAll(Apply(s, labels[0]), labels[1..]);
    }
  }

  /** Every run that commits fewer than 65536 frames is guarded, whatever its steps. */
  lemma {:induction false} EarlyRunsAreGuarded(s: State, labels: seq<Label>)
    requires Inv(s) && Possible(s, labels) && |Final(s, labels).store.committed| < WRAP
    ensures Guarded(s, labels)
    decreases |labels|
  {
    hide CanStep, Apply, IsCommit, WrappedFull, Ownership, Sending, Tokens, FifoFits, WakeUp, Counters;
    if labels != [] {
      CommittedGrowsAll(s, labels);
      EarlyRingsAreNotWrapped(s.store);
      InvKeptExactly(s, labels[0]);
      EarlyRunsAreGuarded(Apply(s, labels[0]), labels[1..]);
    }
  }

  /** A guarded run leads from s to s'. */
  ghost predicate Reaches(s: State, s': State) {
    exists labels :: Possible(s, labels) && Guarded(s, labels) && Final(s, labels) == s'
  }

  lemma {:induction false} RunConcat(s: State, a: seq<Label>, b: seq<Label>)
    requires Possible(s, a) && Guarded(s, a) && Possible(Final(s, a), b) && Guarded(Final(s, a), b)
    ensures Possible(s, a + b) && Guarded(s, a + b) && Final(s, a + b) == Final(Final(s, a), b)
    decreases |a|
  {
    hide CanStep, Apply, IsCommit, WrappedFull;
    if a == [] {
      assert a + b == b;
    } else {
      assert (a + b)[1..] == a[1..] + b;
      RunConcat(Apply(s, a[0]), a[1..], b);
    }
  }

  lemma Stay(s: State)
    ensures Reaches(s, s)
  {
    var none: seq<Label> := [];
    assert Possible(s, none) && Guarded(s, none) && Final(s, none) == s;
  }

  lemma Join(s: State, t: State, u: State)
    requires Reaches(s, t) && Reaches(t, u)
    ensures Reaches(s, u)
  {
    hide Possible, Guarded, Final;
    var a :| Possible(s, a) && Guarded(s, a) && Final(s, a) == t;
    var b :| Possible(t, b) && Guarded(t, b) && Final(t, b) == u;
    RunConcat(s, a, b);
  }

  // Extend a run from s0 by one step.
  lemma Go(s0: State, s: State, l: Label)
    requires Reaches(s0, s) && CanStep(s, l) && !(IsCommit(s, l) && WrappedFull(s.store.ring))
    ensures Reaches(s0, Apply(s, l))
  {
    hide CanStep, Apply, IsCommit, WrappedFull;
    var one, none: seq<Label> := [l], [];
    assert one[1..] == none;
    assert Possible(Apply(s, l), none) && Guarded(Apply(s, l), none) && Final(Apply(s, l), none) == Apply(s, l);
    assert Possible(s, one) && Guarded(s, one) && Final(s, one) == Apply(s, l);
    Join(s0, s, Apply(s, l));
  }

  lemma ReachesInv(s: State, t: State)
    requires Inv(s) && Reaches(s, t)
    ensures Inv(t)
  {
    hide Inv, Possible, Guarded, Final;
    var labels :| Possible(s, labels) && Guarded(s, labels) && Final(s, labels) == t;
    InvAfter(s, labels);
  }

  // ---------------------------------------------------------------- what follows

  /** What has been sent is a beginning of the leading zero and the committed frames. */
  lemma WireIsPrefix(s: State)
    requires Inv(s)
    ensures s.port.wire <= [0] + WireOf(s.store.committed)
  {
    hide Encode, Body, Ring.Queue, Positioned, Unsent, Ownership, WakeUp, Tokens, Counters, FifoFits;
  }

  /** With ring and FIFO empty everything committed is on the wire. */
  lemma AllSent(s: State)
    requires Inv(s) && s.store.ring.Empty() && s.port.fifo == []
    ensures s.port.wire == [0] + WireOf(s.store.committed)
  {
    hide Encode, Body, Ring.Queue, Ownership, WakeUp, Tokens, Counters, FifoFits;
    QueueHead(s);
    assert Unsent(s) == [];
    assert s.port.wire + [] + [] == s.port.wire;
  }

  /** Nothing but the start of a new context, the receiver or the FIFO can move the state on. */
  predicate Quiescent(s: State) {
    s.pushers == map[] && s.task.Waiting? && s.events == [] && s.isr.Outside? && !s.port.txEnabled
  }

  /** Nothing is forgotten and nothing leaks: at rest the ring is empty and every buffer is freed. */
  lemma QuiescentMeansDone(s: State)
    requires Inv(s) && Quiescent(s)
    ensures s.store.ring.Empty() && s.store.heap == map[] && !s.pending && s.port.rxEnabled
    ensures |s.store.freed| == s.store.next
    ensures s.port.fifo == [] ==> s.port.wire == [0] + WireOf(s.store.committed)
  {
    hide Encode, Body, Ring.Queue, Sending, Counters, FifoFits;
    assert Count(s.events, DoTx) == 0 && Count(s.events, DoRx) == 0;
    QueueHead(s);
    assert Queue(s) == [];
    assert forall id :: id !in s.store.heap;
    Pigeon(s.store.freed, s.store.next);
    if s.port.fifo == [] {
      AllSent(s);
    }
  }

  /** A sequence without repetition that holds exactly the numbers below n has length n. */
  lemma {:induction false} Pigeon(q: seq<nat>, n: nat)
    requires forall i :: 0 <= i < |q| ==> q[i] < n
    requires forall i, j :: 0 <= i < j < |q| ==> q[i] != q[j]
    requires forall x: nat :: x < n ==> x in q
    ensures |q| == n
    decreases n
  {
    if n == 0 {
    } else {
      var last: nat := n - 1;
      assert last in q;
      var i :| 0 <= i < |q| && q[i] == last;
      var r := q[..i] + q[i + 1..];
      forall x: nat | x < n - 1 ensures x in r {
        assert x in q;
        var j :| 0 <= j < |q| && q[j] == x;
        assert r[if j < i then j else j - 1] == x;
      }
      Pigeon(r, n - 1);
    }
  }
}
