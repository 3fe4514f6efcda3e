/**
 * The one gap of the ring is real: a run from `comm_init` that sends one small
 * packet at a time, 65530 times, and then 33 without a pause, comes to a locked
 * section that overwrites the oldest buffer; the receiver is given the last
 * packet in place of the oldest.
 */
module TxOverwrite {
  import opened Bytes
  import opened Cobs
  import opened Link
  import opened Message
  import opened TxConservation
  import opened TxOwnership
  import opened TxProgress
  import opened TxProtocol
  import opened TxRing
  import opened TxRuns
  import opened TxSafety
  import Machine = CobsDecoder

  const SMALL := Packet(0, [])
  const OTHER := Packet(1, [])

  predicate AllSmall(packets: seq<Packet>) { forall i :: 0 <= i < |packets| ==> packets[i] == SMALL }

  /** Nothing is going on after n small packets. */
  ghost predicate AtRest(s: State, n: nat) {
    Inv(s) && Settled(s) && |s.store.committed| == n && AllSmall(s.store.committed)
  }

  lemma RestFacts(s: State, n: nat)
    requires AtRest(s, n) && n < WRAP
    ensures s.store.ring.Valid() && s.store.ring.Used() == 0 && s.store.ring.read == n && s.idx == 0 && !s.pending
    ensures s.port.wire == [0] + WireOf(s.store.committed)
  {
    hide Encode, Body, WireOf, Conserved, Ownership, WakeUp, FifoFits, Ring.Queue;
    SettledMeansSent(s);
    EmptyIsZeroUsed(s.store.ring);
    QuiescentMeansDone(s);
    QueueHead(s);
  }

  /** The packet is put into the ring and the task is woken, unless it has been. */
  lemma Send(s0: State, s: State) returns (s': State)
    requires Reaches(s0, s) && s.pushers == map[]
    requires s.store.ring.Valid() && s.store.ring.Used() < SIZE
    requires s.task.Waiting? && |s.events| < QUEUE_SIZE
    ensures Reaches(s0, s') && s'.pushers == map[]
    ensures s'.store.ring.Valid() && s'.store.ring.Used() == s.store.ring.Used() + 1
    ensures s'.store.ring.read == s.store.ring.read && s'.store.committed == s.store.committed + [SMALL]
    ensures s' == s.(store := s'.store, pending := true, pushers := map[],
                     events := if s.pending then s.events else s.events + [DoTx])
  {
    hide Encode, Body, Reaches, Ring.Queue, Ring.LiteralFull;
    var s3, id := Prepare(s0, s, SMALL);
    LiteralFullAgrees(s.store.ring);
    PushAppends(s.store.ring, id);
    PushUsed(s.store.ring, id);
    Go(s0, s3, Push(0, true));
    var s4 := ApplyPush(s3, 0, true);
    Go(s0, s4, Push(0, true));
    s' := ApplyPush(s4, 0, true);
    if !s.pending {
      Go(s0, s', Push(0, true));
      s' := ApplyPush(s', 0, true);
    }
    assert s'.pushers == map[];
  }

  /** A context that holds an encoded packet. */
  lemma Prepare(s0: State, s: State, p: Packet) returns (s': State, id: nat)
    requires Reaches(s0, s) && s.pushers == map[] && |s.store.ring.slots| == SIZE && !s.task.TxCopy?
    ensures Reaches(s0, s') && s'.store.heap == s.store.heap[id := Encode(Body(p))]
    ensures s' == s.(store := s.store.(heap := s'.store.heap, next := s.store.next + 1),
                     pushers := map[0 := Encoded(p, id)])
  {
    hide Reaches, Encode, Body, Ring.LiteralFull;
    id := s.store.next;
    Go(s0, s, Begin(0, p));
    var s1 := Goto(s, 0, Checking(p));
    Go(s0, s1, Push(0, true));
    var s2 := Goto(s1, 0, Allocating(p));
    Go(s0, s2, Push(0, true));
    s' := ApplyPush(s2, 0, true);
    assert s'.pushers == map[0 := Encoded(p, id)];
  }

  // Without a context nothing is committed.
  lemma {:induction false} NothingNew(s: State, labels: seq<Label>)
    requires Possible(s, labels) && s.pushers == map[] && forall l :: l in labels ==> !l.Begin?
    ensures Final(s, labels).store.committed == s.store.committed
    decreases |labels|
  {
    if labels != [] {
      hide ApplyTask, ApplyIsr;
      assert labels[0] in labels && forall l :: l in labels[1..] ==> l in labels;
      if labels[0].TaskStep? {
        TaskCommits(s);
        TaskKeeps(s);
      } else if labels[0].IsrStep? {
        IsrFrame(s);
      }
      NothingNew(Apply(s, labels[0]), labels[1..]);
    }
  }

  // The parties come to rest.
  lemma Rest(s0: State, s: State, n: nat) returns (s': State)
    requires Reaches(s0, s) && Inv(s) && s.pushers == map[] && |s.store.committed| == n && AllSmall(s.store.committed)
    ensures Reaches(s0, s') && AtRest(s', n)
  {
    hide Possible, Guarded, Final, Inv, Settled;
    var labels := Settles(s, _ => false);
    s' := Final(s, labels);
    NothingNew(s, labels);
    Join(s0, s, s');
  }

  lemma {:induction false} Cycles(s0: State, s: State, n: nat, k: nat) returns (s': State)
    requires Reaches(s0, s) && AtRest(s, n) && n + k < WRAP
    ensures Reaches(s0, s') && AtRest(s', n + k)
    decreases k
  {
    hide Reaches, Inv, Ring.Used;
    s' := s;
    if k > 0 {
      RestFacts(s, n);
      Stay(s);
      var t := Send(s, s);
      ReachesInv(s, t);
      Join(s0, s, t);
      s' := Rest(s0, t, n + 1);
      s' := Cycles(s0, s', n + 1, k - 1);
    }
  }

  // k packets while the task does not run.
  lemma {:induction false} SendMany(s0: State, s: State, k: nat) returns (s': State)
    requires Reaches(s0, s) && s.pushers == map[] && s.task.Waiting? && AllSmall(s.store.committed)
    requires s.store.ring.Valid() && s.store.ring.Used() + k <= SIZE
    requires s.events == if s.pending then [DoTx] else []
    ensures Reaches(s0, s') && s'.store.ring.Valid() && s'.store.ring.Used() == s.store.ring.Used() + k
    ensures s'.store.ring.read == s.store.ring.read
    ensures AllSmall(s'.store.committed) && |s'.store.committed| == |s.store.committed| + k
    ensures s' == s.(store := s'.store, pending := s.pending || k > 0,
                     events := if s.pending || k > 0 then [DoTx] else [])
    decreases k
  {
    hide Reaches, Ring.Valid, Ring.Used;
    s' := s;
    if k > 0 {
      s' := Send(s0, s);
      s' := SendMany(s0, s', k - 1);
    }
  }

  // The inner loop of the task, when the rest of the buffer fits the FIFO.
  lemma {:induction false} CopyOut(s0: State, s: State) returns (s': State)
    requires Reaches(s0, s) && s.task.TxCopy? && s.task.id in s.store.heap && |s.store.ring.slots| == SIZE
    requires s.task.i <= |s.store.heap[s.task.id]| <= s.task.i + s.task.free
    ensures Reaches(s0, s')
    ensures var len := |s.store.heap[s.task.id]|;
            s' == s.(task := TxCopy(s.task.free + s.task.i - len, s.task.id, len),
                     port := s.port.(fifo := s.port.fifo + s.store.heap[s.task.id][s.task.i..]))
    decreases s.task.free
  {
    hide Reaches;
    s' := s;
    assert s.store.heap[s.task.id][|s.store.heap[s.task.id]|..] == [];
    if s.task.i < |s.store.heap[s.task.id]| {
      Go(s0, s, TaskStep);
      s' := CopyOut(s0, ApplyTask(s));
    }
  }

  lemma {:induction false} DrainAll(s0: State, s: State) returns (s': State)
    requires Reaches(s0, s) && |s.store.ring.slots| == SIZE && (s.task.TxCopy? ==> s.task.id in s.store.heap)
    ensures Reaches(s0, s')
    ensures s' == s.(port := s.port.(fifo := [], wire := s.port.wire + s.port.fifo))
    decreases |s.port.fifo|
  {
    hide Reaches;
    s' := s;
    if s.port.fifo != [] {
      Go(s0, s, Drain);
      s' := DrainAll(s0, Apply(s, Drain));
    }
  }

  /**
   * A guarded run from `comm_init` reaches a state in which the next step is
   * the one that breaks the ring: the buffer goes over the oldest one, which is
   * then in no slot, though it was never sent or freed.
   */
  lemma OverwriteReached() returns (s: State)
    ensures Reaches(Init(), s) && IsCommit(s, Push(0, true)) && s.store.ring.Valid() && WrappedFull(s.store.ring)
    ensures CanStep(s, Push(0, true)) && !Inv(Apply(s, Push(0, true)))
    ensures Lost(s, Apply(s, Push(0, true)))
    ensures s.pushers[0].packet == OTHER && s.task.Waiting? && s.events == [DoTx] && s.idx == 0 && s.port.fifo == []
    ensures |s.store.committed| == WRAP - 6 + SIZE && AllSmall(s.store.committed)
    ensures s.port.wire == [0] + WireOf(s.store.committed[..WRAP - 6])
  {
    hide Reaches, Inv, WireOf, Ring.Used;
    InitInv();
    Stay(Init());
    s := Rest(Init(), Init(), 0);
    s := Cycles(Init(), s, 0, WRAP - 6);
    RestFacts(s, WRAP - 6);
    var few := s.store.committed;
    s := SendMany(Init(), s, SIZE);
    assert s.store.committed[..WRAP - 6] == few;
    FullAndWrapped(s.store.ring);
    var id;
    s, id := Prepare(Init(), s, OTHER);
    CommitOverwrites(s);
  }

  lemma FullAndWrapped<T>(r: Ring<T>)
    requires r.Used() == SIZE && r.read == WRAP - 6
    ensures WrappedFull(r)
  {}

  /** The oldest buffer of s is in no slot of t, but still allocated. */
  ghost predicate Lost(s: State, t: State) {
    && |s.store.ring.slots| == |t.store.ring.slots| == SIZE && Queue(s) != []
    && Queue(s)[0] !in Queue(t) && Queue(s)[0] in t.store.heap
    && Queue(t) != [] && t.store.ring.slots[t.store.ring.read % SIZE] == Queue(t)[0] != Queue(s)[0]
  }

  lemma CommitOverwrites(s: State)
    requires Reaches(Init(), s) && s.store.ring.Valid() && WrappedFull(s.store.ring)
    requires 0 in s.pushers && s.pushers[0].Encoded?
    ensures CanStep(s, Push(0, true)) && !Inv(Apply(s, Push(0, true)))
    ensures var t := Apply(s, Push(0, true));
            && Lost(s, t) && Queue(t)[0] == s.pushers[0].id && s.pushers[0].id in t.store.heap && !t.store.ring.Empty()
            && t.store.heap[s.pushers[0].id] == Encode(Body(s.pushers[0].packet))
            && t == Goto(s, 0, Committed).(store := s.store.(
                      ring := s.store.ring.Push(s.pushers[0].id),
                      committed := s.store.committed + [s.pushers[0].packet]))
  {
    hide Inv, Init, Reaches, Encode, Body, Ring.Queue, Ring.Push, Ring.LiteralFull, Ring.Used;
    InitInv();
    ReachesInv(Init(), s);
    NoUseAfterFree(s, Push(0, true));
    InvKeptExactly(s, Push(0, true));
    var id, q := s.pushers[0].id, Queue(s);
    WrappedFullLosesOldest(s.store.ring, id);
    HeldElsewhere(s, id);
    FirstSlot(s.store.ring.Push(id));
  }

  lemma FirstSlot<T>(r: Ring<T>)
    requires |r.slots| == SIZE && r.Used() > 0
    ensures !r.Empty() && r.Queue() != [] && r.slots[r.read % SIZE] == r.Queue()[0]
  {
    EmptyIsZeroUsed(r);
  }

  lemma HeldElsewhere(s: State, id: nat)
    requires Inv(s) && 0 in s.pushers && s.pushers[0].Encoded? && s.pushers[0].id == id && s.store.ring.Used() > 0
    ensures id in s.store.heap && id !in Queue(s) && s.store.heap[id] == Encode(Body(s.pushers[0].packet))
    ensures Queue(s) != [] && Queue(s)[0] in s.store.heap && Queue(s)[0] !in Queue(s)[1..]
  {
    hide Encode, Body, Conserved, WakeUp, Tokens, Counters, FifoFits, Ring.Used;
    assert HeldBy(s, 0, id);
  }

  // What the task makes of the overwritten ring: its first buffer is the newest.
  lemma NewestGoesFirst(s: State) returns (t: State)
    requires |s.store.ring.slots| == SIZE && !s.store.ring.Empty()
    requires s.task.Waiting? && s.events == [DoTx] && s.port.fifo == [] && s.idx == 0
    requires var id := s.store.ring.slots[s.store.ring.read % SIZE];
             id in s.store.heap && |s.store.heap[id]| <= FIFO_SIZE
    ensures Reaches(s, t) && t.store == s.store
    ensures t.port.fifo == [] && t.port.wire == s.port.wire + s.store.heap[s.store.ring.slots[s.store.ring.read % SIZE]]
  {
    hide Reaches, Ring.Empty;
    var id := s.store.ring.slots[s.store.ring.read % SIZE];
    assert [DoTx][1..] == [];
    Stay(s);
    Go(s, s, TaskStep);
    var s1 := s.(events := [], task := TxStart);
    assert ApplyTask(s) == s1;
    Go(s, s1, TaskStep);
    var s2 := s1.(pending := false, task := TxMeasure);
    Go(s, s2, TaskStep);
    var s3 := s2.(task := TxLoop(FIFO_SIZE));
    Go(s, s3, TaskStep);
    t := CopyOut(s, s3.(task := TxCopy(FIFO_SIZE, id, 0)));
    t := DrainAll(s, t);
    assert [] + s.store.heap[id][0..] == s.store.heap[id];
  }

  lemma {:induction false} PossibleConcat(s: State, a: seq<Label>, b: seq<Label>)
    requires Possible(s, a) && Possible(Final(s, a), b)
    ensures Possible(s, a + b) && Final(s, a + b) == Final(Final(s, a), b)
    decreases |a|
  {
    hide CanStep, Apply;
    if a == [] {
      assert a + b == b;
    } else {
      assert (a + b)[1..] == a[1..] + b;
      PossibleConcat(Apply(s, a[0]), a[1..], b);
    }
  }

  lemma ThenStepThen(s: State, t: State, l: Label, u: State) returns (labels: seq<Label>)
    requires Reaches(s, t) && CanStep(t, l) && Reaches(Apply(t, l), u)
    ensures Possible(s, labels) && Final(s, labels) == u
  {
    hide CanStep, Apply;
    var a :| Possible(s, a) && Guarded(s, a) && Final(s, a) == t;
    var b :| Possible(Apply(t, l), b) && Guarded(Apply(t, l), b) && Final(Apply(t, l), b) == u;
    assert ([l] + b)[1..] == b;
    PossibleConcat(s, a, [l] + b);
    labels := a + ([l] + b);
  }

  /**
   * Without the guard the link breaks its promise: after some run all packets fit,
   * and yet the packets the receiver has dispatched are no beginning of those
   * committed.
   */
  lemma LinkBreaks() returns (labels: seq<Label>)
    ensures Possible(Init(), labels)
    ensures var s := Final(Init(), labels);
            && AllFit(s.store.committed) && |s.store.committed| == WRAP - 6 + SIZE + 1
            && Received(s.port.wire).packets == s.store.committed[..WRAP - 6] + [OTHER]
            && !(Received(s.port.wire).packets <= s.store.committed)
  {
    hide Reaches, Inv, Init, Possible, Final, Encode, Body, WireOf, Received, AllFit, Lost, WrappedFull, Ring.Empty;
    var s := OverwriteReached();
    CommitOverwrites(s);
    var s1 := Apply(s, Push(0, true));
    var e := Encode(Body(OTHER));
    EncodeBound(Body(OTHER));
    OverwrittenHead(s, s1);
    var t := NewestGoesFirst(s1);
    labels := ThenStepThen(Init(), s, Push(0, true), t);
    var sent := s.store.committed[..WRAP - 6];
    WireOfSnoc(sent, OTHER);
    assert [0] + WireOf(sent) + e == [0] + (WireOf(sent) + e);
    Dispatched(sent + [OTHER]);
    assert t.store.committed == s.store.committed + [OTHER];
    assert t.store.committed[..WRAP - 6] == sent && t.store.committed[WRAP - 6] == SMALL;
    SmallFits(s.store.committed);
  }

  lemma OverwrittenHead(s: State, t: State)
    requires Lost(s, t)
    ensures |t.store.ring.slots| == SIZE && Queue(t) != []
    ensures t.store.ring.slots[t.store.ring.read % SIZE] == Queue(t)[0]
  {}

  lemma SmallFits(packets: seq<Packet>)
    requires AllSmall(packets)
    ensures AllFit(packets + [OTHER])
  {}

  /** A wire of whole frames is dispatched packet by packet. */
  lemma Dispatched(packets: seq<Packet>)
    requires forall i :: 0 <= i < |packets| ==> packets[i].data == []
    ensures Received([0] + WireOf(packets)).packets == packets
  {
    hide Encode, Body, Machine.Run, Machine.Safe, Accepts, CountCrcErrors, CountProtocolErrors;
    WholeWire(Machine.Idle, packets);
    BodiesAccepted(packets);
    assert [] + Bodies(packets) == Bodies(packets) && [] + packets == packets;
  }
}
