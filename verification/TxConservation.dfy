/**
 * No byte put into the ring is lost, repeated or reordered on its way to the
 * wire.
 */
module TxConservation {
  import opened Bytes
  import opened Cobs
  import opened Message
  import opened TxRing
  import opened TxProtocol
  import opened TxOwnership

  /** The frames of some packets as they go over the wire. */
  function WireOf(packets: seq<Packet>): bytes {
    if packets == [] then [] else Encode(Body(packets[0])) + WireOf(packets[1..])
  }

  lemma {:induction false} WireOfSnoc(packets: seq<Packet>, p: Packet)
    ensures WireOf(packets + [p]) == WireOf(packets) + Encode(Body(p))
  {
    hide Encode, Body;
    if packets == [] {
      assert (packets + [p])[1..] == [];
    } else {
      assert (packets + [p])[1..] == packets[1..] + [p];
      WireOfSnoc(packets[1..], p);
    }
  }

  /** The read position in the head buffer: `idx` while copying, else `idx_in_buf`. */
  function Position(s: State): nat {
    match s.task
    case TxCopy(_, _, i) => i
    case TxReset(_, _) => 0
    case _ => s.idx
  }

  /** The buffers in the ring exist and are not empty, and the position is inside the head. */
  ghost predicate Positioned(s: State)
    requires |s.store.ring.slots| == SIZE
  {
    var q := Queue(s);
    && (forall i :: 0 <= i < |q| ==> q[i] in s.store.heap && s.store.heap[q[i]] != [])
    && (if q == [] then !s.task.TxCopy? && Position(s) == 0
        else Position(s) <= |s.store.heap[q[0]]|)
    && (q != [] && !s.task.TxCopy? ==> Position(s) < |s.store.heap[q[0]]|)
    && (s.task.TxCopy? ==> s.task.id == q[0])
    && (forall k :: k in s.pushers && s.pushers[k].Encoded? ==>
          s.pushers[k].id in s.store.heap && s.store.heap[s.pushers[k].id] == Encode(Body(s.pushers[k].packet)))
  }

  /** The contents of some buffers. */
  function Contents(q: seq<nat>, heap: map<nat, bytes>): (r: seq<bytes>)
    requires forall i :: 0 <= i < |q| ==> q[i] in heap
    ensures |r| == |q|
  {
    seq(|q|, i requires 0 <= i < |q| => heap[q[i]])
  }

  /** The concatenation of some buffers from position n of the first. */
  function Tail(frames: seq<bytes>, n: nat): bytes
    requires frames != [] ==> n <= |frames[0]|
  {
    if frames == [] then [] else frames[0][n..] + Flatten(frames[1..])
  }

  /** What the ring still has to send: the rest of the head buffer, then the other buffers. */
  function Unsent(s: State): bytes
    requires |s.store.ring.slots| == SIZE && Positioned(s)
  {
    Tail(Contents(Queue(s), s.store.heap), Position(s))
  }

  /**
   * The bytes on the wire, in the FIFO and still in the ring are the leading
   * zero of `comm_init` and all committed frames in commit order.
   */
  ghost predicate Conserved(s: State)
    requires |s.store.ring.slots| == SIZE && Positioned(s)
  {
    s.port.wire + s.port.fifo + Unsent(s) == [0] + WireOf(s.store.committed)
  }

  ghost predicate Sending(s: State) { |s.store.ring.slots| == SIZE && Positioned(s) && Conserved(s) }

  // Steps that leave the queue, its buffers and the position alone.
  lemma SendingUntouched(s: State, s': State)
    requires Sending(s) && |s'.store.ring.slots| == SIZE
    requires Queue(s') == Queue(s)
    requires forall id :: id in Queue(s) ==> id in s'.store.heap && s'.store.heap[id] == s.store.heap[id]
    requires Position(s') == Position(s)
    requires s'.task.TxCopy? ==> s.task.TxCopy? && s'.task.id == s.task.id
    requires s.task.TxCopy? ==> s'.task.TxCopy? || (Queue(s) != [] && Position(s) < |s.store.heap[Queue(s)[0]]|)
    requires s'.port.wire + s'.port.fifo == s.port.wire + s.port.fifo && s'.store.committed == s.store.committed
    requires forall k :: k in s'.pushers && s'.pushers[k].Encoded? ==>
               s'.pushers[k].id in s'.store.heap
               && s'.store.heap[s'.pushers[k].id] == Encode(Body(s'.pushers[k].packet))
    ensures Sending(s')
  {
    hide Encode, Body, Ring.Queue;
    var q := Queue(s);
    assert forall i :: 0 <= i < |q| ==> q[i] in q;
    assert Contents(Queue(s'), s'.store.heap) == Contents(q, s.store.heap);
  }

  lemma EncodeNotEmpty(m: bytes)
    ensures Encode(m) != []
  {}

  lemma TailSnoc(frames: seq<bytes>, n: nat, e: bytes)
    requires if frames == [] then n == 0 else n <= |frames[0]|
    ensures Tail(frames + [e], n) == Tail(frames, n) + e
  {
    if frames == [] {
      assert (frames + [e])[1..] == [];
      assert e[0..] == e;
    } else {
      assert (frames + [e])[1..] == frames[1..] + [e];
      FlattenSnoc(frames[1..], e);
    }
  }

  // A buffer with the encoding of p joins the end of the queue.
  lemma PositionedPush(s: State, s': State, id: nat, e: bytes)
    requires |s.store.ring.slots| == |s'.store.ring.slots| == SIZE && Positioned(s)
    requires id in s.store.heap && s.store.heap[id] == e && e != []
    requires Queue(s') == Queue(s) + [id]
    requires s'.store.heap == s.store.heap && s'.task == s.task && s'.idx == s.idx
    requires forall k :: k in s'.pushers && s'.pushers[k].Encoded? ==> k in s.pushers && s'.pushers[k] == s.pushers[k]
    ensures Positioned(s')
    ensures Contents(Queue(s'), s'.store.heap) == Contents(Queue(s), s.store.heap) + [e]
  {
    hide Encode, Body, Ring.Queue;
    assert Queue(s')[0] == if Queue(s) == [] then id else Queue(s)[0];
  }

  lemma ConservedPush(s: State, s': State, p: Packet)
    requires |s.store.ring.slots| == |s'.store.ring.slots| == SIZE && Positioned(s) && Positioned(s') && Conserved(s)
    requires Contents(Queue(s'), s'.store.heap) == Contents(Queue(s), s.store.heap) + [Encode(Body(p))]
    requires Position(s') == Position(s) && s'.store.committed == s.store.committed + [p]
    requires s'.port.wire == s.port.wire && s'.port.fifo == s.port.fifo
    ensures Conserved(s')
  {
    hide Encode, Body, Ring.Queue, Position;
    var e := Encode(Body(p));
    WireOfSnoc(s.store.committed, p);
    TailSnoc(Contents(Queue(s), s.store.heap), Position(s), e);
    assert s'.port.wire + s'.port.fifo + Unsent(s') == s.port.wire + s.port.fifo + Unsent(s) + e;
    assert [0] + WireOf(s'.store.committed) == [0] + WireOf(s.store.committed) + e;
  }

  lemma SendingCommit(s: State, k: nat, s': State)
    requires Sending(s) && s.store.ring.Valid() && s.store.ring.Used() < SIZE
    requires k in s.pushers && s.pushers[k].Encoded?
    requires var id, p := s.pushers[k].id, s.pushers[k].packet;
             s' == Goto(s, k, Committed).(
                     store := s.store.(ring := s.store.ring.Push(id), committed := s.store.committed + [p]))
    ensures Sending(s')
  {
    hide Encode, Body, Ring.Queue, Ring.Push, Conserved;
    var id, p := s.pushers[k].id, s.pushers[k].packet;
    PushAppends(s.store.ring, id);
    EncodeNotEmpty(Body(p));
    PositionedPush(s, s', id, Encode(Body(p)));
    ConservedPush(s, s', p);
  }

  lemma QueueHead(s: State)
    requires s.store.ring.Valid()
    ensures Queue(s) == [] <==> s.store.ring.Empty()
    ensures Queue(s) != [] ==> Queue(s)[0] == s.store.ring.slots[s.store.ring.read % SIZE]
  {
    EmptyIsZeroUsed(s.store.ring);
  }

  lemma SplitFirst(a: bytes, n: nat, c: bytes)
    requires n < |a|
    ensures a[n..] + c == [a[n]] + (a[n + 1..] + c)
  {
    assert a[n..] == [a[n]] + a[n + 1..];
  }

  // The byte at the position goes to the FIFO.
  lemma TailByte(frames: seq<bytes>, n: nat)
    requires frames != [] && n < |frames[0]|
    ensures Tail(frames, n) == [frames[0][n]] + Tail(frames, n + 1)
  {
    hide Flatten;
    SplitFirst(frames[0], n, Flatten(frames[1..]));
  }

  lemma PositionedByte(s: State, s': State)
    requires |s.store.ring.slots| == SIZE && Positioned(s) && s.task.TxCopy? && s.task.free > 0
    requires s.task.i < |s.store.heap[s.task.id]|
    requires s' == s.(port := s.port.(fifo := s'.port.fifo), task := TxCopy(s.task.free - 1, s.task.id, s.task.i + 1))
    ensures Positioned(s')
  {
    hide Encode, Body, Ring.Queue;
  }

  lemma SendingByte(s: State, s': State)
    requires Sending(s) && s.task.TxCopy? && s.task.free > 0
    requires s.task.id in s.store.heap && s.task.i < |s.store.heap[s.task.id]|
    requires s' == s.(port := s.port.(fifo := s.port.fifo + [s.store.heap[s.task.id][s.task.i]]),
                      task := TxCopy(s.task.free - 1, s.task.id, s.task.i + 1))
    ensures Sending(s')
  {
    hide Encode, Body, Ring.Queue, Conserved;
    var q := Queue(s);
    PositionedByte(s, s');
    TailByte(Contents(q, s.store.heap), s.task.i);
    ConservedByte(s, s', Contents(q, s.store.heap)[0][s.task.i]);
  }

  lemma ConservedByte(s: State, s': State, b: byte)
    requires |s.store.ring.slots| == |s'.store.ring.slots| == SIZE && Positioned(s) && Positioned(s') && Conserved(s)
    requires Unsent(s) == [b] + Unsent(s') && s'.store.committed == s.store.committed
    requires s'.port.wire == s.port.wire && s'.port.fifo == s.port.fifo + [b]
    ensures Conserved(s')
  {
    hide Positioned, Unsent;
    assert s'.port.wire + s'.port.fifo + Unsent(s') == s.port.wire + s.port.fifo + Unsent(s);
  }

  // The head buffer is sent and leaves the ring.
  lemma PositionedPop(s: State, s': State)
    requires |s.store.ring.slots| == SIZE && Positioned(s) && s.store.ring.Valid() && s.task.TxCopy?
    requires s' == s.(store := s.store.(ring := s.store.ring.Pop()), task := TxReset(s.task.free, s.task.id))
    ensures Queue(s) != [] && s.store.ring.Used() > 0 && |s'.store.ring.slots| == SIZE
    ensures Queue(s') == Queue(s)[1..] && Positioned(s')
  {
    hide Encode, Body, Ring.Pop, Ring.Queue;
    PopRemoves(s.store.ring);
  }

  lemma TailPop(frames: seq<bytes>)
    requires frames != []
    ensures Tail(frames, |frames[0]|) == Tail(frames[1..], 0)
  {}

  lemma SendingPop(s: State, s': State)
    requires Sending(s) && s.store.ring.Valid() && AtEnd(s)
    requires s' == s.(store := s.store.(ring := s.store.ring.Pop()), task := TxReset(s.task.free, s.task.id))
    ensures Sending(s')
  {
    hide Encode, Body, Ring.Pop, Ring.Queue;
    var q := Queue(s);
    PositionedPop(s, s');
    var c := Contents(q, s.store.heap);
    assert Contents(Queue(s'), s'.store.heap) == c[1..];
    TailPop(c);
    assert Unsent(s') == Unsent(s);
  }

  /** What `Sending` says about the position of the comm task. */
  lemma CopyFacts(s: State)
    requires Sending(s) && s.store.ring.Valid() && s.task.TxCopy?
    ensures CopiesHead(s) && s.task.id in s.store.heap && s.task.i <= |s.store.heap[s.task.id]|
  {
    hide Encode, Body, Ring.Queue, Conserved;
    QueueHead(s);
  }

  lemma SendingKeptCopy(s: State)
    requires CanStep(s, TaskStep) && s.store.ring.Valid() && Sending(s) && s.task.TxCopy?
    ensures Sending(ApplyTask(s))
  {
    hide Encode, Body, Sending, Position, Ring.Queue, Ring.Pop, Ring.Valid;
    var s' := ApplyTask(s);
    CopyFacts(s);
    if AtEnd(s) {
      SendingPop(s, s');
    } else if s.task.free > 0 {
      SendingByte(s, s');
    } else {
      SendingRest(s, s');
    }
  }

  lemma SendingRest(s: State, s': State)
    requires Sending(s) && s.store.ring.Valid() && s.task.TxCopy? && s.task.id in s.store.heap
    requires s.task.i < |s.store.heap[s.task.id]|
    requires s' == s.(idx := s.task.i, task := TxDone(s.task.free))
    ensures Sending(s')
  {}

  lemma TakenNotEncoded(s: State, id: nat)
    requires |s.store.ring.slots| == SIZE && Ownership(s) && Taken(s.task) == Some(id)
    ensures id !in Queue(s)
    ensures forall k :: k in s.pushers && s.pushers[k].Encoded? ==> s.pushers[k].id != id
  {
    hide Ring.Queue;
    forall k | k in s.pushers && s.pushers[k].Encoded?
      ensures s.pushers[k].id != id
    {
      assert HeldBy(s, k, s.pushers[k].id);
    }
  }

  // Steps of the task that neither copy nor free nor look at the ring.
  lemma TaskRests(s: State)
    requires CanStep(s, TaskStep) && !s.task.TxCopy? && !s.task.TxLoop? && !s.task.TxFree?
    ensures var s' := ApplyTask(s);
            s'.store == s.store && s'.pushers == s.pushers && !s'.task.TxCopy? && Position(s') == Position(s)
            && s'.port.wire == s.port.wire && s'.port.fifo == s.port.fifo
  {
    hide Ring.Empty;
  }

  lemma SendingFree(s: State, s': State)
    requires s.task.TxFree? && |s.store.ring.slots| == SIZE && Ownership(s) && Sending(s)
    requires s' == s.(store := Release(s.store, s.task.id), task := TxLoop(s.task.free))
    ensures Sending(s')
  {
    hide Encode, Body, Ownership, Conserved, Ring.Queue;
    TakenNotEncoded(s, s.task.id);
    SendingUntouched(s, s');
  }

  lemma SendingLoop(s: State, s': State)
    requires s.task.TxLoop? && s.store.ring.Valid() && Sending(s)
    requires s' == s.(task := if s.task.free > 0 && !s.store.ring.Empty()
                              then TxCopy(s.task.free, s.store.ring.slots[s.store.ring.read % SIZE], s.idx)
                              else TxDone(s.task.free))
    ensures Sending(s')
  {}

  lemma SendingKeptTask(s: State)
    requires CanStep(s, TaskStep) && s.store.ring.Valid() && Ownership(s) && Sending(s)
    ensures Sending(ApplyTask(s))
  {
    hide Encode, Body, Ownership, Conserved, Ring.Queue, Ring.Empty;
    var s' := ApplyTask(s);
    if s.task.TxCopy? {
      SendingKeptCopy(s);
    } else if s.task.TxLoop? {
      SendingLoop(s, s');
    } else if s.task.TxFree? {
      SendingFree(s, s');
    } else {
      hide ApplyTask;
      TaskRests(s);
      SendingUntouched(s, s');
    }
  }

  lemma RefusedNotEncoded(s: State, k: nat)
    requires |s.store.ring.slots| == SIZE && Ownership(s) && k in s.pushers && s.pushers[k].Refused?
    ensures s.pushers[k].id in s.store.heap && s.pushers[k].id !in Queue(s)
    ensures forall j :: j in s.pushers && s.pushers[j].Encoded? ==> s.pushers[j].id != s.pushers[k].id
  {
    hide Ownership, Ring.Queue;
    var id := s.pushers[k].id;
    assert HeldBy(s, k, id);
    HolderFacts(s, k, id);
    forall j | j in s.pushers && s.pushers[j].Encoded?
      ensures s.pushers[j].id != id
    {
      assert HeldBy(s, j, s.pushers[j].id);
    }
  }

  lemma SendingMalloc(s: State, k: nat, p: Packet, s': State)
    requires Sending(s) && Ownership(s) && k in s.pushers
    requires s' == Goto(s, k, Encoded(p, s.store.next)).(
                     store := s.store.(heap := s.store.heap[s.store.next := Encode(Body(p))], next := s.store.next + 1))
    ensures Sending(s')
  {
    hide Encode, Body, Conserved, Ring.Queue;
    assert s.store.next !in s.store.heap;
    SendingUntouched(s, s');
  }

  lemma SendingKeptPush(s: State, k: nat, choice: bool)
    requires CanStep(s, Push(k, choice)) && s.store.ring.Valid() && Ownership(s) && Sending(s)
    requires s.pushers[k].Encoded? ==> !WrappedFull(s.store.ring)
    ensures Sending(ApplyPush(s, k, choice))
  {
    hide Encode, Body, Ownership, Conserved, Ring.Queue, Ring.Push, Ring.LiteralFull;
    var s' := ApplyPush(s, k, choice);
    if s.pushers[k].Allocating? && choice {
      SendingMalloc(s, k, s.pushers[k].packet, s');
    } else if s.pushers[k].Encoded? && !s.store.ring.LiteralFull() {
      LiteralFullAgrees(s.store.ring);
      SendingCommit(s, k, s');
    } else {
      if s.pushers[k].Refused? {
        RefusedNotEncoded(s, k);
      }
      SendingUntouched(s, s');
    }
  }
}
