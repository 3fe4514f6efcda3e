/**
 * The concurrent side of user_main/comm.c: pushing contexts, the comm task and
 * the UART interrupt, interleaved at every access to shared state. Sections
 * between `ets_intr_lock` and `ets_intr_unlock` are one step, and so is each
 * register access.
 */
module TxProtocol {
  import opened Bytes
  import opened Cobs
  import opened Message
  import opened TxRing

  const FIFO_SIZE: nat := 126
  const QUEUE_SIZE: nat := 3  // comm_queue

  datatype Event = DoRx | DoTx

  /** Where a context in `comm_send` is. */
  datatype Pusher =
    | Checking(packet: Packet)            // before the unlocked test
    | Allocating(packet: Packet)          // before os_malloc and cobs_encode
    | Encoded(packet: Packet, id: nat)    // before the locked section
    | Refused(id: nat)                    // the locked test failed; before os_free
    | Committed                           // before the unlocked test of task_pending
    | Waking                              // before the locked test and post

  /** Where the comm task is; `free` is `fifo_free_n`. */
  datatype Task =
    | Waiting
    | Receiving
    | TxStart                             // before task_pending is cleared
    | TxMeasure                           // before the FIFO count is read
    | TxLoop(free: nat)                   // at the test of the outer loop
    | TxCopy(free: nat, id: nat, i: nat)  // in the inner loop, i is `idx`
    | TxReset(free: nat, id: nat)         // buf_read_i advanced, before idx_in_buf = 0
    | TxFree(free: nat, id: nat)          // before os_free
    | TxDone(free: nat)                   // at the test behind the outer loop
    | TxEnable                            // before the TX interrupt is enabled

  /** Where the interrupt handler is; the flags are the bits of the status it read. */
  datatype Isr =
    | Outside
    | Entered(rx: bool, tx: bool)
    | PostRx(tx: bool)                    // RX interrupt disabled, before the post
    | HandleTx                            // before the TX interrupt is disabled
    | IsrCommitted                        // before the unlocked test of task_pending
    | IsrWaking                           // before the locked test and post

  datatype Store = Store(
    ring: Ring<nat>,          // slots hold buffer ids
    heap: map<nat, bytes>,    // the allocated buffers
    next: nat,                // ids from here on were never allocated
    freed: seq<nat>,          // the calls of os_free
    committed: seq<Packet>)   // history: what was put into the ring, in order

  datatype Port = Port(
    fifo: bytes,              // UART TX FIFO
    wire: bytes,              // what has left the FIFO
    txEnabled: bool,
    rxEnabled: bool)

  datatype State = State(
    store: Store,
    idx: nat,                 // idx_in_buf
    pending: bool,            // task_pending
    port: Port,
    events: seq<Event>,
    task: Task,
    isr: Isr,
    pushers: map<nat, Pusher>)

  /** Who moves next. `choice` is the outcome of the unlocked test, or of os_malloc. */
  datatype Label =
    | Begin(k: nat, packet: Packet)
    | Push(k: nat, choice: bool)
    | TaskStep
    | Drain
    | Interrupt(rx: bool, tx: bool)
    | IsrStep

  /** `comm_init`: the task is registered, one zero byte is in the FIFO, receiving is enabled. */
  function Init(): State {
    State(Store(Ring(seq(SIZE, _ => 0), 0, 0), map[], 0, [], []), 0, false,
          Port([0], [], false, true), [], Waiting, Outside, map[])
  }

  /** `system_os_post`: an event that finds no room, the running one counted, is lost. */
  function Post(s: State, e: Event): State {
    if |s.events| + (if s.task.Waiting? then 0 else 1) < QUEUE_SIZE
    then s.(events := s.events + [e]) else s
  }

  /** The locked part of `transmitter_wake_task`. */
  function Wake(s: State): State {
    if s.pending then s else Post(s.(pending := true), DoTx)
  }

  predicate Enabled(s: State, l: Label) {
    match l
    case Begin(k, _) => k !in s.pushers
    case Push(k, _) => k in s.pushers
    case TaskStep => s.task.Waiting? ==> s.events != []
    case Drain => s.port.fifo != []
    case Interrupt(rx, tx) => s.isr.Outside? && (rx ==> s.port.rxEnabled) && (tx ==> s.port.txEnabled)
    case IsrStep => !s.isr.Outside?
  }

  /** A step is possible, and touches no freed buffer. */
  predicate CanStep(s: State, l: Label) {
    Enabled(s, l) && |s.store.ring.slots| == SIZE && (s.task.TxCopy? ==> s.task.id in s.store.heap)
  }

  function Leave(s: State, k: nat): State { s.(pushers := s.pushers - {k}) }

  function Goto(s: State, k: nat, p: Pusher): State { s.(pushers := s.pushers[k := p]) }

  function Release(st: Store, id: nat): Store { st.(heap := st.heap - {id}, freed := st.freed + [id]) }

  /** One step of `transmitter_push` and `transmitter_wake_task` in context k. */
  function ApplyPush(s: State, k: nat, choice: bool): State
    requires CanStep(s, Push(k, choice))
  {
    var st := s.store;
    match s.pushers[k]
    case Checking(p) => if choice then Goto(s, k, Allocating(p)) else Leave(s, k)
    case Allocating(p) =>
      if choice then
        Goto(s, k, Encoded(p, st.next)).(store := st.(heap := st.heap[st.next := Encode(Body(p))], next := st.next + 1))
      else Leave(s, k)
    case Encoded(p, id) =>
      if st.ring.LiteralFull() then Goto(s, k, Refused(id))
      else Goto(s, k, Committed).(store := st.(ring := st.ring.Push(id), committed := st.committed + [p]))
    case Refused(id) => Leave(s, k).(store := Release(st, id))
    case Committed => if s.pending then Leave(s, k) else Goto(s, k, Waking)
    case Waking => Wake(Leave(s, k))
  }

  /** One step of the comm task: `comm_task` and `transmitter_send`. */
  function ApplyTask(s: State): State
    requires CanStep(s, TaskStep)
  {
    var st := s.store;
    match s.task
    case Waiting =>
      s.(task := if s.events[0] == DoRx then Receiving else TxStart, events := s.events[1..])
    case Receiving => s.(port := s.port.(rxEnabled := true), task := Waiting)
    case TxStart => s.(pending := false, task := TxMeasure)
    case TxMeasure =>
      var free := FIFO_SIZE - |s.port.fifo|;
      s.(task := if free <= 0 then TxEnable else TxLoop(free))
    case TxLoop(free) =>
      if free > 0 && !st.ring.Empty()
      then s.(task := TxCopy(free, st.ring.slots[st.ring.read % SIZE], s.idx))
      else s.(task := TxDone(free))
    case TxCopy(free, id, i) =>
      var buf := st.heap[id];
      if i < |buf| && free > 0 then
        s.(port := s.port.(fifo := s.port.fifo + [buf[i]]), task := TxCopy(free - 1, id, i + 1))
      else if i != |buf| then s.(idx := i, task := TxDone(free))
      else s.(store := st.(ring := st.ring.Pop()), task := TxReset(free, id))
    case TxReset(free, id) => s.(idx := 0, task := TxFree(free, id))
    case TxFree(free, id) => s.(store := Release(st, id), task := TxLoop(free))
    case TxDone(free) => s.(task := if free == 0 && !st.ring.Empty() then TxEnable else Waiting)
    case TxEnable => s.(port := s.port.(txEnabled := true), task := Waiting)
  }

  function AfterRx(tx: bool): Isr { if tx then HandleTx else Outside }

  /** One step of `uart0_rx_intr_handler` behind the reading of the status. */
  function ApplyIsr(s: State): State
    requires CanStep(s, IsrStep)
  {
    match s.isr
    case Entered(rx, tx) =>
      if rx then s.(port := s.port.(rxEnabled := false), isr := PostRx(tx)) else s.(isr := AfterRx(tx))
    case PostRx(tx) => Post(s.(isr := AfterRx(tx)), DoRx)
    case HandleTx => s.(port := s.port.(txEnabled := false), isr := IsrCommitted)
    case IsrCommitted => s.(isr := if s.pending then Outside else IsrWaking)
    case IsrWaking => Wake(s.(isr := Outside))
  }

  function Apply(s: State, l: Label): State
    requires CanStep(s, l)
  {
    match l
    case Begin(k, p) => Goto(s, k, Checking(p))
    case Push(k, choice) => ApplyPush(s, k, choice)
    case TaskStep => ApplyTask(s)
    case Drain => s.(port := s.port.(fifo := s.port.fifo[1..], wire := s.port.wire + [s.port.fifo[0]]))
    case Interrupt(rx, tx) => s.(isr := Entered(rx, tx))
    case IsrStep => ApplyIsr(s)
  }

  /** The step that puts a buffer into the ring, or finds it full. */
  predicate IsCommit(s: State, l: Label) { l.Push? && l.k in s.pushers && s.pushers[l.k].Encoded? }

  // ---------------------------------------------------------------- event tokens

  function Count(events: seq<Event>, e: Event): nat {
    if events == [] then 0 else (if events[0] == e then 1 else 0) + Count(events[1..], e)
  }

  function One(b: bool): nat { if b then 1 else 0 }

  /**
   * `task_pending` stands for exactly one DO_TX, queued or just dispatched;
   * exactly one of the RX interrupt being enabled, a DO_RX being queued, being
   * handled or about to be posted holds.
   */
  predicate Tokens(s: State) {
    && Count(s.events, DoTx) + One(s.task.TxStart?) == One(s.pending)
    && One(s.port.rxEnabled) + Count(s.events, DoRx) + One(s.task.Receiving?) + One(s.isr.PostRx?) == 1
    && (s.isr.Entered? && s.isr.rx ==> s.port.rxEnabled)
  }

  lemma {:induction false} CountSnoc(events: seq<Event>, x: Event, e: Event)
    ensures Count(events + [x], e) == Count(events, e) + One(x == e)
  {
    if events != [] {
      assert (events + [x])[1..] == events[1..] + [x];
      CountSnoc(events[1..], x, e);
    }
  }

  lemma {:induction false} CountsAll(events: seq<Event>)
    ensures |events| == Count(events, DoRx) + Count(events, DoTx)
  {
    if events != [] {
      CountsAll(events[1..]);
    }
  }

  /** The queue never holds more than one DO_TX and one DO_RX, nor overflows with the running event. */
  lemma QueueBound(s: State)
    requires Tokens(s)
    ensures Count(s.events, DoTx) <= 1 && Count(s.events, DoRx) <= 1
    ensures |s.events| + One(!s.task.Waiting?) <= 3
    ensures !s.pending || s.isr.PostRx? ==> |s.events| + One(!s.task.Waiting?) < QUEUE_SIZE == 3
  {
    CountsAll(s.events);
  }

  lemma PostKeeps(s: State, e: Event)
    ensures var s' := Post(s, e); s' == s.(events := s'.events)
    ensures |s.events| + One(!s.task.Waiting?) < QUEUE_SIZE ==>
            Post(s, e).events == s.events + [e] &&
            (forall x :: Count(Post(s, e).events, x) == Count(s.events, x) + One(x == e))
  {
    forall x ensures Count(s.events + [e], x) == Count(s.events, x) + One(x == e) {
      CountSnoc(s.events, e, x);
    }
  }

  lemma TokensKeptPush(s: State, k: nat, choice: bool)
    requires Tokens(s) && CanStep(s, Push(k, choice))
    ensures Tokens(ApplyPush(s, k, choice))
  {
    hide Encode, Body, Post, Ring.Push, Ring.LiteralFull;
    QueueBound(s);
    PostKeeps(Leave(s, k).(pending := true), DoTx);
  }

  lemma TokensKeptTask(s: State)
    requires Tokens(s) && CanStep(s, TaskStep)
    ensures Tokens(ApplyTask(s))
  {
    hide Ring.Pop, Ring.Empty, Release;
  }

  lemma TokensKeptIsr(s: State)
    requires Tokens(s) && CanStep(s, IsrStep)
    ensures Tokens(ApplyIsr(s))
  {
    hide Post;
    QueueBound(s);
    PostKeeps(s.(isr := Outside, pending := true), DoTx);
    if s.isr.PostRx? {
      PostKeeps(s.(isr := AfterRx(s.isr.tx)), DoRx);
    }
  }

  lemma TokensKept(s: State, l: Label)
    requires Tokens(s) && CanStep(s, l)
    ensures Tokens(Apply(s, l))
  {
    hide ApplyPush, ApplyTask, ApplyIsr, Count;
    if l.Push? {
      TokensKeptPush(s, l.k, l.choice);
    } else if l.TaskStep? {
      TokensKeptTask(s);
    } else if l.IsrStep? {
      TokensKeptIsr(s);
    }
  }

  /** No post is ever lost for want of room in the queue. */
  lemma PostsFindRoom(s: State, l: Label)
    requires Tokens(s) && CanStep(s, l)
    ensures !s.pending && ((l.Push? && s.pushers[l.k].Waking?) || (l.IsrStep? && s.isr.IsrWaking?)) ==>
            Apply(s, l).events == s.events + [DoTx]
    ensures l.IsrStep? && s.isr.PostRx? ==> Apply(s, l).events == s.events + [DoRx]
  {
    QueueBound(s);
  }

  // ---------------------------------------------------------------- the FIFO bound

  /** Room the task believes to be in the FIFO. */
  function Claimed(t: Task): nat {
    match t
    case TxLoop(free) => free
    case TxCopy(free, _, _) => free
    case TxReset(free, _) => free
    case TxFree(free, _) => free
    case TxDone(free) => free
    case _ => 0
  }

  /** `126 - fifo_cnt` does not underflow, and the task never writes more than there is room. */
  predicate FifoFits(s: State) { |s.port.fifo| + Claimed(s.task) <= FIFO_SIZE == 126 }

  lemma FifoFitsKept(s: State, l: Label)
    requires FifoFits(s) && CanStep(s, l)
    ensures FifoFits(Apply(s, l))
  {
    hide Encode, Body, Ring.Push, Ring.Pop, Ring.Empty, Ring.LiteralFull, Wake, Post;
    if l.IsrStep? {
      IsrFrame(s);
    } else if l.Push? {
      PushFrame(s, l.k, l.choice);
    } else if l.TaskStep? {
      FifoFitsKeptTask(s);
    }
  }

  lemma FifoFitsKeptTask(s: State)
    requires FifoFits(s) && CanStep(s, TaskStep)
    ensures FifoFits(ApplyTask(s))
  {
    hide Ring.Pop, Ring.Empty, Release;
  }

  // What the steps of a part leave alone.

  lemma WakeFrame(s: State)
    ensures Wake(s) == s.(pending := Wake(s).pending, events := Wake(s).events)
  {}

  lemma IsrFrame(s: State)
    requires CanStep(s, IsrStep)
    ensures var s' := ApplyIsr(s);
            s'.store == s.store && s'.idx == s.idx && s'.task == s.task && s'.pushers == s.pushers
            && s'.port.fifo == s.port.fifo && s'.port.wire == s.port.wire
  {
    hide Wake;
    WakeFrame(s.(isr := Outside));
  }

  lemma PushFrame(s: State, k: nat, choice: bool)
    requires CanStep(s, Push(k, choice))
    ensures var s' := ApplyPush(s, k, choice);
            s'.idx == s.idx && s'.port == s.port && s'.task == s.task && s'.isr == s.isr
  {
    hide Encode, Body, Ring.Push, Ring.LiteralFull, Wake, Release;
    WakeFrame(Leave(s, k));
  }
}
