/**
 * `struct transmitter` of user_main/comm.c and the functions that work on it,
 * each as one context executes it. Where the other contexts, the interrupt and
 * the task are meanwhile is kept in fields of its own, so that the whole is a
 * state of the machine in `TxProtocol` and every function a run of it.
 */
module Transmitter {
  import opened Bytes
  import opened Cobs
  import CobsCodec
  import opened Message
  import opened TxRing
  import opened TxProtocol
  import opened TxOwnership
  import opened TxConservation
  import opened TxSafety
  import opened TxRuns

  /** The priorities of comm.h; any other value of the argument is `Other`. */
  datatype Priority = Low | Medium | High | Other

  /** `size_t` arithmetic. */
  function SizeT(x: int): uint32 { x % UINT32 }

  /** The unlocked test as it is written. */
  predicate Admits<T>(ring: Ring<T>, prio: Priority, heapFree: uint32) {
    var bufUsed := SizeT(ring.write - ring.read);
    var bufFree := SizeT(SIZE - bufUsed);
    bufUsed != SIZE && match prio
      case Low => !(heapFree < 20000 || bufFree < 15)
      case Medium => !(heapFree < 10000 || bufFree < 10)
      case High => !(heapFree < 2000 || bufFree < 1)
      case Other => true
  }

  /**
   * The unlocked test asks for heap and for free slots by priority, and for one
   * free slot in any case; but after the write counter has wrapped where the read
   * counter has not, for heap only.
   */
  lemma AdmitsExactly<T>(ring: Ring<T>, prio: Priority, heapFree: uint32)
    requires ring.Valid()
    ensures var wrapped := ring.write < ring.read;
            Admits(ring, prio, heapFree) <==>
            match prio
            case Low => heapFree >= 20000 && (wrapped || ring.Used() <= 32 - 15)
            case Medium => heapFree >= 10000 && (wrapped || ring.Used() <= 32 - 10)
            case High => heapFree >= 2000 && (wrapped || ring.Used() <= 32 - 1)
            case Other => wrapped || ring.Used() < 32
  {
    hide Ring.Queue;
    SizeTUsed(ring.write, ring.read);
  }

  lemma SizeTUsed(w: uint16, r: uint16)
    ensures w >= r ==> SizeT(w - r) == w - r == (w - r) % WRAP
    ensures w >= r && w - r <= SIZE ==> SizeT(SIZE - SizeT(w - r)) == SIZE - (w - r)
    ensures w < r ==> SizeT(w - r) == UINT32 + w - r && SizeT(SIZE - SizeT(w - r)) == SIZE + r - w
  {}

  /** The lengths kept beside the filled slots are those of the buffers in them. */
  ghost predicate LensMatch(st: Store, lens: seq<nat>)
    requires |st.ring.slots| == |lens| == SIZE
  {
    forall i: nat :: Filled(st.ring, i) ==>
      st.ring.slots[i] in st.heap && lens[i] == |st.heap[st.ring.slots[i]]|
  }

  /** Allocation and encoding; the byte 0x55 behind the longest encoding stays untouched. */
  method EncodeIntoNew(data: bytes) returns (frame: bytes)
    requires data != []
    ensures frame == Encode(data)
  {
    var encodedMaxSize := MaxSize(|data|) + 1;
    var encoded := new byte[encodedMaxSize](_ => 0);
    encoded[encodedMaxSize - 1] := 0x55;
    var encodedSize := CobsCodec.Encode(encoded, data);
    EncodeBound(data);
    assert encoded[encodedMaxSize - 1] == 0x55;
    frame := encoded[..encodedSize];
  }

  class Transmitter {
    // struct transmitter; a pointer is the number of an allocated buffer
    const bufs: array<nat>
    const bufLens: array<nat>
    var bufReadI: uint16
    var bufWriteI: uint16
    var taskPending: bool
    var droppedPackets: uint32
    var idxInBuf: nat

    // the heap, the UART and the event queue
    var heap: map<nat, bytes>
    var nextId: nat
    var freed: seq<nat>
    var port: Port
    var events: seq<Event>

    // where the task, the interrupt and the contexts in comm_send are
    var task: Task
    var isr: Isr
    var pushers: map<nat, Pusher>

    ghost var committed: seq<Packet>

    ghost function View(): State
      reads this, bufs
    {
      State(Store(Ring(bufs[..], bufReadI, bufWriteI), heap, nextId, freed, committed), idxInBuf, taskPending,
            port, events, task, isr, pushers)
    }

    ghost predicate Valid()
      reads this, bufs, bufLens
    {
      bufs.Length == bufLens.Length == SIZE && bufs != bufLens && Inv(View()) && LensMatch(View().store, bufLens[..])
    }

    /** `comm_init`. */
    constructor ()
      ensures Valid() && View() == Init() && droppedPackets == 0
      ensures fresh(bufs) && fresh(bufLens)
    {
      bufs := new nat[SIZE](_ => 0);
      bufLens := new nat[SIZE](_ => 0);
      bufReadI, bufWriteI, taskPending, droppedPackets, idxInBuf := 0, 0, false, 0, 0;
      heap, nextId, freed, events, committed := map[], 0, [], [], [];
      port := Port([0], [], false, true);
      task, isr, pushers := Waiting, Outside, map[];
      new;
      hide Inv, LensMatch;
      InitInv();
      assert bufs[..] == seq(SIZE, _ => 0);
      InitLens(bufLens[..]);
    }

    /** `system_os_post`. */
    method PostEvent(e: Event)
      modifies this`events
      ensures View() == Post(old(View()), e)
    {
      if |events| + (if task.Waiting? then 0 else 1) < QUEUE_SIZE {
        events := events + [e];
      }
    }

    method WakeTask()
      modifies this`events, this`taskPending
      ensures View() == Wake(old(View()))
    {
      if taskPending {
        return;
      }
      // locked from here on: looked at again
      if !taskPending {
        taskPending := true;
        PostEvent(DoTx);
      }
    }

    /** The unlocked test of `transmitter_push`: whether to drop the packet. */
    method Precheck(prio: Priority, heapFree: uint32) returns (drop: bool)
      ensures drop <==> !Admits(View().store.ring, prio, heapFree)
    {
      var bufUsed := SizeT(bufWriteI - bufReadI);
      if bufUsed == SIZE {
        return true;
      }
      var bufFree := SizeT(SIZE - bufUsed);
      match prio {
        case Low => return heapFree < 20000 || bufFree < 15;
        case Medium => return heapFree < 10000 || bufFree < 10;
        case High => return heapFree < 2000 || bufFree < 1;
        case Other => return false;
      }
    }

    /**
     * `comm_send` and `transmitter_push` up to the locked section, in a context
     * k: the number of the encoded buffer, or None. A packet the unlocked test
     * turns away is counted, one for which there is no memory is not.
     */
    method Prepare(k: nat, p: Packet, prio: Priority, heapFree: uint32, mallocOk: bool) returns (r: Option<nat>)
      requires Valid() && k !in pushers
      modifies this`heap, this`nextId, this`pushers, this`droppedPackets
      ensures Valid() && Reaches(old(View()), View())
      ensures r.Some? <==> Admits(old(View().store.ring), prio, heapFree) && mallocOk
      ensures r.Some? ==> r.value == old(nextId) && View() == Prepared(old(View()), k, p)
      ensures r.None? ==> View() == old(View())
      ensures droppedPackets ==
              if Admits(old(View().store.ring), prio, heapFree) then old(droppedPackets)
              else (old(droppedPackets) + 1) % UINT32
    {
      hide Inv, Reaches, LensMatch, Encode, Body;
      ghost var s0 := View();
      PrepareRuns(s0, k, p, Admits(s0.store.ring, prio, heapFree), mallocOk);
      var data := BuildBody(p.kind, p.data);

      var drop := Precheck(prio, heapFree);
      if drop {
        droppedPackets := (droppedPackets + 1) % UINT32;
        return None;
      }

      if !mallocOk {
        return None;
      }
      var frame := EncodeIntoNew(data[..]);
      PreparedKeeps(s0, k, p, bufLens[..]);
      r := Some(nextId);
      heap := heap[nextId := frame];
      pushers := pushers[k := Encoded(p, nextId)];
      nextId := nextId + 1;
    }

    // The buffer of context k goes into the slot at the write counter.
    method TakeSlot(k: nat)
      requires bufs.Length == bufLens.Length == SIZE && bufs != bufLens
      requires k in pushers && pushers[k].Encoded? && pushers[k].id in heap
      modifies this`bufWriteI, this`committed, this`pushers, bufs, bufLens
      ensures View() == Leave(old(View()), k).(store := old(View().store).(
                          ring := old(View().store.ring).Push(old(pushers[k].id)),
                          committed := old(committed) + [old(pushers[k].packet)]))
      ensures bufLens[..] == old(bufLens[..])[old(bufWriteI) % SIZE := |old(heap[pushers[k].id])|]
    {
      var id, i := pushers[k].id, bufWriteI % SIZE;
      bufs[i] := id;
      bufLens[i] := |heap[id]|;
      bufWriteI := (bufWriteI + 1) % WRAP;
      committed := committed + [pushers[k].packet];
      pushers := pushers - {k};
    }

    /**
     * `transmitter_push` from its locked section on, in a context k: the buffer
     * goes into the ring and the task is woken, or it is freed and the packet
     * counted as dropped.
     */
    method Commit(k: nat) returns (ok: bool)
      requires Valid() && k in pushers && pushers[k].Encoded?
      modifies this, bufs, bufLens
      ensures ok <==> old(bufWriteI) - old(bufReadI) != 32
      ensures View() == if ok then Pushed(old(View()), k) else Leave(old(View()), k).(
                          store := Release(old(View().store), old(pushers[k].id)))
      ensures droppedPackets == if ok then old(droppedPackets) else (old(droppedPackets) + 1) % UINT32
      ensures !WrappedFull(old(View().store.ring)) ==> Valid() && Reaches(old(View()), View())
    {
      hide Inv, Reaches, LensMatch, Encode, Body, WrappedFull, Ring.Used;
      ghost var s0 := View();
      var id := pushers[k].id;
      CommitRuns(s0, k, bufLens[..]);
      if bufWriteI - bufReadI == SIZE {
        heap, freed := heap - {id}, freed + [id];
        droppedPackets := (droppedPackets + 1) % UINT32;
        pushers := pushers - {k};
        return false;
      }
      TakeSlot(k);
      // unlocked again
      WakeTask();
      ok := true;
    }

    // The inner loop of `transmitter_send`: bytes of the head buffer go to the FIFO.
    method CopyBytes(buf: nat, len: nat, idx0: nat, free0: nat, ghost s0: State) returns (idx: nat, free: nat)
      requires Inv(View()) && Reaches(s0, View()) && bufs.Length == SIZE
      requires task == TxCopy(free0, buf, idx0) && buf in heap && len == |heap[buf]| && idx0 <= len
      modifies this`port, this`task
      ensures Inv(View()) && Reaches(s0, View())
      ensures task == TxCopy(free, buf, idx) && idx <= len && (idx == len || free == 0)
      ensures port == old(port).(fifo := port.fifo) && |port.fifo| + free == |old(port.fifo)| + free0
    {
      hide Inv, Reaches;
      idx, free := idx0, free0;
      while idx < len && free != 0
        invariant Inv(View()) && Reaches(s0, View())
        invariant task == TxCopy(free, buf, idx) && idx <= len
        invariant port == old(port).(fifo := port.fifo) && |port.fifo| + free == |old(port.fifo)| + free0
      {
        TaskGoes(s0, View());
        port := port.(fifo := port.fifo + [heap[buf][idx]]);
        idx := idx + 1;
        free := free - 1;
        task := TxCopy(free, buf, idx);
      }
    }

    // The head buffer is sent: it leaves the ring and is freed.
    method FreeHead(buf: nat, free: nat, ghost s0: State)
      requires Valid() && Reaches(s0, View())
      requires buf in heap && task == TxCopy(free, buf, |heap[buf]|)
      modifies this`task, this`bufReadI, this`idxInBuf, this`heap, this`freed
      ensures Valid() && Reaches(s0, View())
      ensures task == TxLoop(free) && bufReadI == (old(bufReadI) + 1) % WRAP
    {
      hide Inv, Reaches, LensMatch, Ring.Queue;
      FreeHeadRuns(s0, View(), bufLens[..]);
      bufReadI := (bufReadI + 1) % WRAP;
      idxInBuf := 0;
      heap, freed := heap - {buf}, freed + [buf];
      task := TxLoop(free);
    }

    // One round of the outer loop; `more` is false when it is left by `break`.
    method SendHead(free0: nat, ghost s0: State) returns (free: nat, more: bool)
      requires Valid() && Reaches(s0, View())
      requires task == TxLoop(free0) && free0 > 0 && bufReadI != bufWriteI
      modifies this`port, this`task, this`bufReadI, this`idxInBuf, this`heap, this`freed
      ensures Valid() && Reaches(s0, View())
      ensures port == old(port).(fifo := port.fifo) && |port.fifo| + free == |old(port.fifo)| + free0
      ensures if more then task == TxLoop(free) && bufReadI == (old(bufReadI) + 1) % WRAP
              else task == TxDone(0) && free == 0 && bufReadI == old(bufReadI)
    {
      hide Inv, Reaches, LensMatch, Ring.Queue;
      var bufIdx := bufReadI % SIZE;
      var buf := bufs[bufIdx];
      var len := bufLens[bufIdx];
      var idx := idxInBuf;
      HeadFacts(View(), bufLens[..]);
      TaskGoes(s0, View());
      task := TxCopy(free0, buf, idx);
      CopyStarts(View());
      idx, free := CopyBytes(buf, len, idx, free0, s0);
      if idx != len {
        TaskGoes(s0, View());
        idxInBuf := idx;
        task := TxDone(free);
        return free, false;
      }
      FreeHead(buf, free, s0);
      more := true;
    }

    /**
     * `transmitter_send`: bytes of the ring go to the FIFO until the one is
     * empty or the other is full; if the ring is not empty then, or the FIFO was
     * full to begin with, the TX interrupt is enabled.
     */
    method Send()
      requires Valid() && task.TxStart?
      modifies this`taskPending, this`port, this`task, this`bufReadI, this`idxInBuf, this`heap, this`freed
      ensures Valid() && Reaches(old(View()), View())
      ensures task.Waiting? && !taskPending
      ensures port.fifo + Unsent(View()) == old(port.fifo) + old(Unsent(View()))
      ensures |port.fifo| == 126 || bufReadI == bufWriteI
      ensures port == old(port).(fifo := port.fifo, txEnabled := port.txEnabled)
      ensures port.txEnabled <==> old(port.txEnabled) || |old(port.fifo)| == 126 || bufReadI != bufWriteI
    {
      hide Inv, Reaches, LensMatch, Ring.Queue, Unsent;
      ghost var s0 := View();
      SendStarts(s0);
      taskPending := false;
      var fifoFree := FIFO_SIZE - |port.fifo|;
      if fifoFree == 0 {
        port := port.(txEnabled := true);
        task := Waiting;
      } else {
        task := TxLoop(fifoFree);
        fifoFree := SendLoop(fifoFree, s0);
        SendEnds(s0, View());
        if fifoFree == 0 && bufReadI != bufWriteI {
          port := port.(txEnabled := true);
        }
        task := Waiting;
      }
      StreamKept(s0, View());
    }

    // The outer loop.
    method SendLoop(free0: nat, ghost s0: State) returns (free: nat)
      requires Valid() && Reaches(s0, View()) && task == TxLoop(free0) && |port.fifo| + free0 == FIFO_SIZE
      modifies this`port, this`task, this`bufReadI, this`idxInBuf, this`heap, this`freed
      ensures Valid() && Reaches(s0, View()) && task == TxDone(free)
      ensures port == old(port).(fifo := port.fifo) && |port.fifo| + free == FIFO_SIZE
      ensures free == 0 || bufReadI == bufWriteI
    {
      hide Inv, Reaches, LensMatch, Ring.Queue, Ring.Used;
      free := free0;
      var more := true;
      while more && free != 0 && bufReadI != bufWriteI
        invariant Valid() && Reaches(s0, View())
        invariant task == if more then TxLoop(free) else TxDone(0)
        invariant !more ==> free == 0
        invariant port == old(port).(fifo := port.fifo) && |port.fifo| + free == FIFO_SIZE
        decreases more, (bufWriteI - bufReadI) % WRAP
      {
        UsedAfterPop(bufReadI, bufWriteI);
        free, more := SendHead(free, s0);
      }
      if more {
        TaskGoes(s0, View());
        task := TxDone(free);
      }
    }

    /** `uart0_rx_intr_handler`, where `rx` and `tx` are the bits of the status. */
    method Handler(rx: bool, tx: bool)
      requires Valid() && isr.Outside? && (rx ==> port.rxEnabled) && (tx ==> port.txEnabled)
      modifies this`port, this`events, this`taskPending
      ensures Valid() && Reaches(old(View()), View())
      ensures port == old(port).(rxEnabled := old(port.rxEnabled) && !rx, txEnabled := old(port.txEnabled) && !tx)
      ensures events == old(events) + (if rx then [DoRx] else []) + (if tx && !old(taskPending) then [DoTx] else [])
      ensures taskPending == (old(taskPending) || tx)
    {
      hide Inv, Reaches, LensMatch, Ring.Queue;
      HandlerRuns(View(), rx, tx);
      if rx {
        port := port.(rxEnabled := false);
        PostEvent(DoRx);
      }
      if tx {
        port := port.(txEnabled := false);
        WakeTask();
      }
    }

    /** `comm_task` takes the next event; `do_rx` leaves this state alone but for enabling its interrupt. */
    method CommTask()
      requires Valid() && task.Waiting? && events != []
      modifies this`events, this`taskPending, this`port, this`task, this`bufReadI, this`idxInBuf, this`heap, this`freed
      ensures Valid() && Reaches(old(View()), View())
      ensures task.Waiting? && events == old(events)[1..]
      ensures old(events[0]) == DoRx ==> port == old(port).(rxEnabled := true) && bufReadI == old(bufReadI)
      ensures old(events[0]) == DoTx ==> |port.fifo| == FIFO_SIZE || bufReadI == bufWriteI
    {
      hide Inv, Reaches, LensMatch, Ring.Queue;
      ghost var s0 := View();
      DispatchRuns(s0);
      var e := events[0];
      events := events[1..];
      match e {
        case DoRx =>
          port := port.(rxEnabled := true);
        case DoTx =>
          task := TxStart;
          ghost var s1 := View();
          Send();
          Join(s0, s1, View());
      }
    }
  }

  lemma HandlerRuns(s: State, rx: bool, tx: bool)
    requires Inv(s) && s.isr.Outside? && (rx ==> s.port.rxEnabled) && (tx ==> s.port.txEnabled)
    ensures var s1 := if rx then Post(s.(port := s.port.(rxEnabled := false)), DoRx) else s;
            var s2 := if tx then Wake(s1.(port := s1.port.(txEnabled := false))) else s1;
            && Inv(s2) && Reaches(s, s2)
            && s2.events == s.events + (if rx then [DoRx] else []) + (if tx && !s.pending then [DoTx] else [])
  {
    hide Inv, Reaches, Ring.Queue, Post;
    Stay(s);
    IsrGoes(s, s, Interrupt(rx, tx));
    var s1 := s.(isr := Entered(rx, tx));
    IsrGoes(s, s1, IsrStep);
    var s2 := s1.(port := s.port.(rxEnabled := s.port.rxEnabled && !rx), isr := if rx then PostRx(tx) else AfterRx(tx));
    if rx {
      Found(s2, DoRx);
      IsrGoes(s, s2, IsrStep);
      s2 := s2.(events := s.events + [DoRx], isr := AfterRx(tx));
    }
    if tx {
      IsrGoes(s, s2, IsrStep);
      var s3 := s2.(port := s2.port.(txEnabled := false), isr := IsrCommitted);
      IsrGoes(s, s3, IsrStep);
      if !s.pending {
        Found(s3, DoTx);
        IsrGoes(s, s3.(isr := IsrWaking), IsrStep);
      }
    }
  }

  // The interrupt moves on.
  lemma IsrGoes(s0: State, s: State, l: Label)
    requires Inv(s) && Reaches(s0, s) && Enabled(s, l) && (l.IsrStep? || l.Interrupt?)
    ensures CanStep(s, l) && Reaches(s0, Apply(s, l)) && Inv(Apply(s, l))
  {
    hide Inv, Reaches, Apply;
    NoUseAfterFree(s, l);
    Go(s0, s, l);
    InvKeptExactly(s, l);
  }

  // There is room for an event that stands for its token.
  lemma Found(s: State, e: Event)
    requires Inv(s) && (!s.pending || s.isr.PostRx?)
    ensures forall t: State :: t.events == s.events && t.task == s.task ==> Post(t, e) == t.(events := s.events + [e])
  {
    hide Ownership, Sending, WakeUp, Counters, FifoFits;
    QueueBound(s);
  }

  lemma DispatchRuns(s: State)
    requires Inv(s) && s.task.Waiting? && s.events != []
    ensures var t := if s.events[0] == DoRx then s.(events := s.events[1..], port := s.port.(rxEnabled := true))
                     else s.(events := s.events[1..], task := TxStart);
            Inv(t) && Reaches(s, t)
  {
    hide Inv, Reaches, Ring.Queue, Ring.Empty;
    Stay(s);
    TaskGoes(s, s);
    if s.events[0] == DoRx {
      TaskGoes(s, s.(task := Receiving, events := s.events[1..]));
    }
  }

  lemma SendStarts(s: State)
    requires Inv(s) && s.task.TxStart?
    ensures |s.port.fifo| <= FIFO_SIZE
    ensures var t := if |s.port.fifo| == FIFO_SIZE
                     then s.(pending := false, port := s.port.(txEnabled := true), task := Waiting)
                     else s.(pending := false, task := TxLoop(FIFO_SIZE - |s.port.fifo|));
            Inv(t) && Reaches(s, t)
  {
    hide Inv, Reaches, Ring.Queue, Ring.Empty;
    Room(s);
    Stay(s);
    TaskGoes(s, s);
    var s1 := s.(pending := false, task := TxMeasure);
    TaskGoes(s, s1);
    if |s.port.fifo| == FIFO_SIZE {
      TaskGoes(s, s1.(task := TxEnable));
    }
  }

  lemma SendEnds(s0: State, s: State)
    requires Inv(s) && Reaches(s0, s) && s.task.TxDone?
    ensures var t := s.(task := Waiting, port := s.port.(
                       txEnabled := s.port.txEnabled || (s.task.free == 0 && !s.store.ring.Empty())));
            Inv(t) && Reaches(s0, t)
  {
    hide Inv, Reaches, Ring.Queue, Ring.Empty;
    TaskGoes(s0, s);
    if s.task.free == 0 && !s.store.ring.Empty() {
      TaskGoes(s0, s.(task := TxEnable));
    }
  }

  lemma Room(s: State)
    requires Inv(s)
    ensures |s.port.fifo| <= FIFO_SIZE
  {
    hide Ownership, Sending, WakeUp, Tokens, Counters;
  }

  // What is not yet on the wire stays the same while the task runs.
  lemma StreamKept(s: State, t: State)
    requires Inv(s) && Inv(t) && s.port.wire == t.port.wire && s.store.committed == t.store.committed
    ensures s.port.fifo + Unsent(s) == t.port.fifo + Unsent(t)
  {
    hide Ownership, Positioned, WakeUp, Tokens, Counters, FifoFits, Unsent, Ring.Queue;
    Regroup(s.port.wire, s.port.fifo, Unsent(s), t.port.fifo, Unsent(t));
  }

  lemma Regroup(w: bytes, a: bytes, b: bytes, c: bytes, d: bytes)
    requires w + a + b == w + c + d
    ensures a + b == c + d
  {
    assert w + a + b == w + (a + b) && w + c + d == w + (c + d);
    assert (w + (a + b))[|w|..] == a + b && (w + (c + d))[|w|..] == c + d;
  }

  // The task moves on.
  lemma TaskGoes(s0: State, s: State)
    requires Inv(s) && Reaches(s0, s) && Enabled(s, TaskStep)
    ensures CanStep(s, TaskStep) && Reaches(s0, ApplyTask(s)) && Inv(ApplyTask(s))
  {
    hide Inv, Reaches, ApplyTask;
    NoUseAfterFree(s, TaskStep);
    Go(s0, s, TaskStep);
    InvKeptExactly(s, TaskStep);
  }

  lemma HeadFacts(s: State, lens: seq<nat>)
    requires Inv(s) && |lens| == SIZE && LensMatch(s.store, lens) && !s.store.ring.Empty()
    ensures var i := s.store.ring.read % SIZE;
            s.store.ring.slots[i] in s.store.heap && lens[i] == |s.store.heap[s.store.ring.slots[i]]|
  {
    hide Ownership, Sending, WakeUp, Tokens, Counters, FifoFits, Ring.Queue;
    EmptyIsZeroUsed(s.store.ring);
    HeadFilled(s.store.ring);
  }

  lemma HeadFilled<T>(r: Ring<T>)
    requires r.Used() > 0
    ensures Filled(r, r.read % SIZE)
  {}

  lemma CopyStarts(s: State)
    requires Inv(s) && s.task.TxCopy?
    ensures s.task.id in s.store.heap && s.task.i <= |s.store.heap[s.task.id]|
  {
    hide Ownership, Sending, WakeUp, Tokens, Counters, FifoFits, Ring.Queue;
    CopyFacts(s);
  }

  lemma LensPop(s: State, lens: seq<nat>)
    requires Inv(s) && |lens| == SIZE && LensMatch(s.store, lens) && s.task.TxCopy?
    ensures LensMatch(s.store.(ring := s.store.ring.Pop()), lens)
  {
    hide Ownership, Sending, WakeUp, Tokens, Counters, FifoFits, Ring.Queue, Filled, Ring.Used;
    CopyFacts(s);
    EmptyIsZeroUsed(s.store.ring);
    forall i: nat | Filled(s.store.ring.Pop(), i)
      ensures i < SIZE && Filled(s.store.ring, i)
    {
      FilledAfterPop(s.store.ring, i);
      FilledInside(s.store.ring, i);
    }
  }

  // The three steps behind the copying of a whole buffer.
  function HeadFreed(s: State): State
    requires s.task.TxCopy?
  {
    s.(store := Release(s.store.(ring := s.store.ring.Pop()), s.task.id), idx := 0, task := TxLoop(s.task.free))
  }

  lemma FreeHeadRuns(s0: State, s: State, lens: seq<nat>)
    requires Inv(s) && Reaches(s0, s) && |lens| == SIZE && LensMatch(s.store, lens)
    requires s.task.TxCopy? && s.task.id in s.store.heap && s.task.i == |s.store.heap[s.task.id]|
    ensures var t := HeadFreed(s); Inv(t) && Reaches(s0, t) && LensMatch(t.store, lens)
  {
    hide Inv, Reaches, LensMatch, Ring.Queue, Ring.Pop, Ring.Empty;
    var free, id := s.task.free, s.task.id;
    TaskGoes(s0, s);
    LensPop(s, lens);
    var s1 := s.(store := s.store.(ring := s.store.ring.Pop()), task := TxReset(free, id));
    TaskGoes(s0, s1);
    var s2 := s1.(idx := 0, task := TxFree(free, id));
    TaskGoes(s0, s2);
    FreeTaken(s2, lens);
  }

  lemma FreeTaken(s: State, lens: seq<nat>)
    requires Inv(s) && |lens| == SIZE && LensMatch(s.store, lens) && s.task.TxFree?
    ensures LensMatch(Release(s.store, s.task.id), lens)
  {
    hide Sending, Ownership, WakeUp, Tokens, Counters, FifoFits, Ring.Queue, LensMatch;
    TakenFacts(s, s.task.id);
    LensFree(s, s.task.id, lens);
  }

  /** The buffer of context k is in the ring, the task is woken and the context is done. */
  function Pushed(s: State, k: nat): State
    requires |s.store.ring.slots| == SIZE && k in s.pushers && s.pushers[k].Encoded?
  {
    Wake(Leave(s, k).(store := s.store.(
      ring := s.store.ring.Push(s.pushers[k].id), committed := s.store.committed + [s.pushers[k].packet])))
  }

  // The steps of a context from the locked section on.
  lemma CommitRuns(s: State, k: nat, lens: seq<nat>)
    requires Inv(s) && k in s.pushers && s.pushers[k].Encoded? && |lens| == SIZE && LensMatch(s.store, lens)
    ensures s.pushers[k].id in s.store.heap
    ensures !WrappedFull(s.store.ring) ==>
              var id := s.pushers[k].id;
              if s.store.ring.LiteralFull()
              then var t := Leave(s, k).(store := Release(s.store, id));
                   Reaches(s, t) && Inv(t) && LensMatch(t.store, lens)
              else var t := Pushed(s, k);
                   Reaches(s, t) && Inv(t)
                   && LensMatch(t.store, lens[s.store.ring.write % SIZE := |s.store.heap[id]|])
  {
    hide Inv, Reaches, LensMatch, Encode, Body, WrappedFull, Ring.Used, Ring.Push, Ring.LiteralFull, Pushed;
    EncodedInHeap(s, k);
    if !WrappedFull(s.store.ring) {
      Stay(s);
      NoUseAfterFree(s, Push(k, true));
      Go(s, s, Push(k, true));
      if s.store.ring.LiteralFull() {
        RefusedRuns(s, k, lens);
      } else {
        PushedRuns(s, k, lens);
      }
    }
  }

  lemma EncodedInHeap(s: State, k: nat)
    requires Inv(s) && k in s.pushers && s.pushers[k].Encoded?
    ensures s.pushers[k].id in s.store.heap && s.pushers[k].id !in s.store.ring.Queue()
  {
    hide Sending, WakeUp, Tokens, Counters, FifoFits, Ring.Queue;
    assert HeldBy(s, k, s.pushers[k].id);
  }

  lemma RefusedRuns(s: State, k: nat, lens: seq<nat>)
    requires Inv(s) && k in s.pushers && s.pushers[k].Encoded? && |lens| == SIZE && LensMatch(s.store, lens)
    requires s.pushers[k].id in s.store.heap && s.store.ring.LiteralFull()
    requires CanStep(s, Push(k, true)) && Reaches(s, Apply(s, Push(k, true)))
    ensures var t := Leave(s, k).(store := Release(s.store, s.pushers[k].id));
            Reaches(s, t) && Inv(t) && LensMatch(t.store, lens)
  {
    hide Inv, Reaches, LensMatch, Encode, Body, Ring.Used, Ring.Push, Ring.LiteralFull;
    var id := s.pushers[k].id;
    var s1 := Goto(s, k, Refused(id));
    Go(s, s1, Push(k, true));
    assert s.pushers[k := Refused(id)] - {k} == s.pushers - {k};
    var t := Leave(s, k).(store := Release(s.store, id));
    ReachesInv(s, t);
    EncodedInHeap(s, k);
    LensFree(s, id, lens);
  }

  lemma LensFree(s: State, id: nat, lens: seq<nat>)
    requires Inv(s) && |lens| == SIZE && LensMatch(s.store, lens) && id !in s.store.ring.Queue()
    ensures LensMatch(Release(s.store, id), lens)
  {
    hide Ownership, Sending, WakeUp, Tokens, Counters, FifoFits, Ring.Queue, Filled;
    forall i: nat | Filled(s.store.ring, i)
      ensures i < SIZE && s.store.ring.slots[i] != id
    {
      FilledIsQueued(s.store.ring, i);
      FilledInside(s.store.ring, i);
    }
  }

  lemma PushedRuns(s: State, k: nat, lens: seq<nat>)
    requires Inv(s) && k in s.pushers && s.pushers[k].Encoded? && |lens| == SIZE && LensMatch(s.store, lens)
    requires s.pushers[k].id in s.store.heap && !s.store.ring.LiteralFull() && !WrappedFull(s.store.ring)
    requires CanStep(s, Push(k, true)) && Reaches(s, Apply(s, Push(k, true)))
    ensures Reaches(s, Pushed(s, k)) && Inv(Pushed(s, k))
    ensures LensMatch(Pushed(s, k).store, lens[s.store.ring.write % SIZE := |s.store.heap[s.pushers[k].id]|])
  {
    hide Inv, Reaches, LensMatch, Encode, Body, WrappedFull, Ring.Used, Ring.Push, Ring.LiteralFull, Wake;
    var id := s.pushers[k].id;
    var s1 := Goto(s, k, Committed).(store := s.store.(
      ring := s.store.ring.Push(id), committed := s.store.committed + [s.pushers[k].packet]));
    LensPush(s, id, s.pushers[k].packet, lens);
    Go(s, s1, Push(k, true));
    assert s1.pushers - {k} == s.pushers - {k};
    WakeFrame(Leave(s1, k));
    if s.pending {
      WakePending(Leave(s1, k));
    } else {
      assert s1.pushers[k := Waking] - {k} == s.pushers - {k};
      Go(s, Goto(s1, k, Waking), Push(k, true));
    }
    ReachesInv(s, Pushed(s, k));
  }

  lemma WakePending(s: State)
    requires s.pending
    ensures Wake(s) == s
  {}

  lemma LensPush(s: State, id: nat, p: Packet, lens: seq<nat>)
    requires Inv(s) && |lens| == SIZE && LensMatch(s.store, lens) && id in s.store.heap
    requires !s.store.ring.LiteralFull() && !WrappedFull(s.store.ring)
    ensures s.store.ring.Push(id).Valid()
    ensures LensMatch(s.store.(ring := s.store.ring.Push(id), committed := s.store.committed + [p]),
                      lens[s.store.ring.write % SIZE := |s.store.heap[id]|])
  {
    hide Ownership, Sending, WakeUp, Tokens, Counters, FifoFits, Ring.Queue, Filled, Ring.LiteralFull, Ring.Used;
    LiteralFullAgrees(s.store.ring);
    ValidUsed(s.store.ring);
    PushAppends(s.store.ring, id);
    forall i: nat | Filled(s.store.ring.Push(id), i)
      ensures i < SIZE && (i == s.store.ring.write % SIZE || Filled(s.store.ring, i))
    {
      FilledAfterPush(s.store.ring, id, i);
      FilledInside(s.store.ring.Push(id), i);
    }
  }

  lemma ValidUsed<T>(r: Ring<T>)
    requires r.Valid()
    ensures r.Used() <= SIZE
  {}

  lemma FilledInside<T>(r: Ring<T>, i: nat)
    requires Filled(r, i)
    ensures i < SIZE
  {}

  /** A context k holds the encoded packet. */
  function Prepared(s: State, k: nat, p: Packet): State {
    Goto(s, k, Encoded(p, s.store.next)).(
      store := s.store.(heap := s.store.heap[s.store.next := Encode(Body(p))], next := s.store.next + 1))
  }

  // The steps of a context up to the locked section.
  lemma PrepareRuns(s: State, k: nat, p: Packet, admitted: bool, mallocOk: bool)
    requires Inv(s) && k !in s.pushers
    ensures Reaches(s, if admitted && mallocOk then Prepared(s, k, p) else s)
  {
    hide Inv, Reaches, Encode, Body;
    Stay(s);
    NoUseAfterFree(s, Begin(k, p));
    Go(s, s, Begin(k, p));
    var s1 := Goto(s, k, Checking(p));
    Go(s, s1, Push(k, admitted));
    assert s.pushers[k := Checking(p)] - {k} == s.pushers;
    if admitted {
      var s2 := Goto(s1, k, Allocating(p));
      Go(s, s2, Push(k, mallocOk));
      assert s.pushers[k := Checking(p)][k := Allocating(p)] - {k} == s.pushers;
      assert s.pushers[k := Checking(p)][k := Allocating(p)][k := Encoded(p, s.store.next)] ==
             s.pushers[k := Encoded(p, s.store.next)];
    }
  }

  lemma PreparedKeeps(s: State, k: nat, p: Packet, lens: seq<nat>)
    requires Inv(s) && k !in s.pushers && |lens| == SIZE && LensMatch(s.store, lens)
    ensures Inv(Prepared(s, k, p)) && LensMatch(Prepared(s, k, p).store, lens)
  {
    hide Encode, Body, Sending, WakeUp, Tokens, Counters, FifoFits, Reaches, Ring.Queue;
    PrepareRuns(s, k, p, true, true);
    ReachesInv(s, Prepared(s, k, p));
  }

  lemma InitLens(lens: seq<nat>)
    requires |lens| == SIZE
    ensures LensMatch(Init().store, lens)
  {}
}
