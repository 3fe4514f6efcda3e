/**
 * No select sleeps through an event, none is signalled twice, and no callback
 * follows a node that has left the list.
 */
module SelectSafety {
  import opened SelectProtocol

  // ---------------------------------------------------------------- the list

  predicate NoDup(list: seq<nat>) {
    forall i, j :: 0 <= i < j < |list| ==> list[i] != list[j]
  }

  /** The list holds, once each, the selects that are between joining and leaving it. */
  ghost predicate Linked(st: State) {
    && NoDup(st.list)
    && forall k :: k in st.list <==> k in st.threads && OnList(st.threads[k].pc)
  }

  /** As long as the counter has not moved, the node a callback stands at is on the list. */
  ghost predicate Anchored(st: State) {
    forall e :: e in st.walkers ==>
      var w := st.walkers[e];
      w.sock < |st.socks| && w.last <= st.ctr && (w.last == st.ctr ==> w.scb in st.list)
  }

  /** The file descriptors of every select are sockets. */
  ghost predicate Sockets(st: State) {
    forall k :: k in st.threads ==> forall s: nat :: st.threads[k].want.Interested(s) ==> s < |st.socks|
  }

  /** At most one signal for a select; the semaphore holds it until the select has waited. */
  predicate OneSignal(t: Thread) {
    && t.signals == (if t.signalled then 1 else 0)
    && t.sem <= t.signals
    && (t.pc.Enlist? ==> !t.signalled)
    && (!t.pc.Dec? && !t.pc.Unlink? && !t.pc.Done? ==> t.sem == t.signals)
  }

  ghost predicate SignalledOnce(st: State) {
    forall k :: k in st.threads ==> OneSignal(st.threads[k])
  }

  // ---------------------------------------------------------------- select_waiting

  /** The select has counted itself at socket s. */
  predicate Registered(t: Thread, s: nat) {
    t.want.Interested(s) && match t.pc
      case Inc(i) => s < i
      case Scan(_, _) => true
      case Wait => true
      case Dec(i) => s >= i
      case _ => false
  }

  function Waiters(st: State, s: nat): set<nat> {
    set k | k in st.threads && Registered(st.threads[k], s)
  }

  /** `select_waiting` is the number of selects that have counted themselves at the socket. */
  ghost predicate Counted(st: State) {
    forall s :: 0 <= s < |st.socks| ==> st.socks[s].waiting == |Waiters(st, s)|
  }

  // ---------------------------------------------------------------- no lost wake-up

  /** Callback e will come to node k: it starts again, or k lies behind its node. */
  predicate WillVisit(st: State, e: nat, k: nat, s: nat) {
    && e in st.walkers && k in st.list && st.walkers[e].sock == s
    && (st.walkers[e].last == st.ctr ==>
          st.walkers[e].scb in st.list && IndexOf(st.list, st.walkers[e].scb) < IndexOf(st.list, k))
  }

  /** The select relies on being woken for socket s: it has found it not ready, or waits. */
  predicate Relies(t: Thread, s: nat) {
    t.want.Interested(s) && (t.pc.Wait? || (t.pc.Scan? && !t.pc.ready && s < t.pc.i))
  }

  ghost predicate Covered(st: State, k: nat, s: nat) { exists e :: WillVisit(st, e, k, s) }

  /** A condition a select relies on being told about is told, or will be by a callback under way. */
  ghost predicate NoLostWakeUp(st: State) {
    forall k, s: nat :: Untold(st, k, s) ==> Covered(st, k, s)
  }

  /** The select relies on socket s, a condition it wants holds there, and it has not been signalled. */
  predicate Untold(st: State, k: nat, s: nat) {
    && k in st.threads && s < |st.socks| && Relies(st.threads[k], s)
    && st.threads[k].want.Signals(s, st.socks[s]) && !st.threads[k].signalled
  }

  ghost predicate Inv(st: State) {
    Linked(st) && Anchored(st) && Sockets(st) && SignalledOnce(st) && Counted(st) && NoLostWakeUp(st)
  }

  lemma InitInv(n: nat)
    ensures Inv(Init(n))
  {
    forall s | 0 <= s < n ensures Waiters(Init(n), s) == {} {}
  }

  /** No callback follows a pointer of a node that is not on the list. */
  lemma NoStaleNode(st: State, l: Label)
    requires Inv(st) && Enabled(st, l)
    ensures CanStep(st, l)
  {}

  // ---------------------------------------------------------------- list lemmas

  lemma RemoveAt(list: seq<nat>, x: nat, k: nat)
    requires x in list && k < |list| - 1
    ensures Remove(list, x)[k] == list[if k < IndexOf(list, x) then k else k + 1]
  {
    hide IndexOf;
    CutAt(list, IndexOf(list, x), k);
  }

  lemma CutAt(list: seq<nat>, i: nat, k: nat)
    requires i < |list| && k < |list| - 1
    ensures (list[..i] + list[i + 1..])[k] == list[if k < i then k else k + 1]
  {}

  lemma RemoveMember(list: seq<nat>, x: nat, y: nat)
    requires NoDup(list) && x in list
    ensures y in Remove(list, x) <==> y in list && y != x
  {
    hide Remove, IndexOf;
    var i, r := IndexOf(list, x), Remove(list, x);
    RemoveLength(list, x);
    if y in r {
      var k :| 0 <= k < |r| && r[k] == y;
      RemoveAt(list, x, k);
    }
    if y in list && y != x {
      var j :| 0 <= j < |list| && list[j] == y;
      RemoveAt(list, x, if j < i then j else j - 1);
    }
  }

  lemma RemoveLength(list: seq<nat>, x: nat)
    requires x in list
    ensures |Remove(list, x)| == |list| - 1
  {
    hide IndexOf;
  }

  lemma RemoveSpec(list: seq<nat>, x: nat)
    requires NoDup(list)
    ensures NoDup(Remove(list, x))
    ensures forall y :: y in Remove(list, x) <==> y in list && y != x
  {
    if x in list {
      hide Remove, IndexOf;
      var r := Remove(list, x);
      RemoveLength(list, x);
      forall j, k | 0 <= j < k < |r| ensures r[j] != r[k] {
        RemoveAt(list, x, j);
        RemoveAt(list, x, k);
      }
      forall y ensures y in r <==> y in list && y != x {
        RemoveMember(list, x, y);
      }
    }
  }

  lemma IndexUnique(list: seq<nat>, i: nat)
    requires NoDup(list) && i < |list|
    ensures IndexOf(list, list[i]) == i
  {}

  // ---------------------------------------------------------------- counting

  lemma CountedSame(st: State, st': State)
    requires Counted(st) && |st'.socks| == |st.socks|
    requires forall s :: 0 <= s < |st.socks| ==> st'.socks[s].waiting == st.socks[s].waiting
    requires forall k, s: nat :: k in st'.threads && Registered(st'.threads[k], s) <==>
                                 k in st.threads && Registered(st.threads[k], s)
    ensures Counted(st')
  {
    hide Registered;
    forall s | 0 <= s < |st.socks| ensures Waiters(st', s) == Waiters(st, s) {}
  }

  lemma WaitersSame(st: State, st': State, k: nat, s: nat)
    requires k in st.threads && k in st'.threads && st'.threads == st.threads[k := st'.threads[k]]
    requires Registered(st'.threads[k], s) <==> Registered(st.threads[k], s)
    ensures Waiters(st', s) == Waiters(st, s)
  {
    hide Registered;
  }

  lemma WaitersJoin(st: State, st': State, k: nat, s: nat)
    requires k in st.threads && k in st'.threads && st'.threads == st.threads[k := st'.threads[k]]
    requires Registered(st'.threads[k], s) && !Registered(st.threads[k], s)
    ensures |Waiters(st', s)| == |Waiters(st, s)| + 1
  {
    hide Registered;
    assert Waiters(st', s) == Waiters(st, s) + {k} && k !in Waiters(st, s);
  }

  // The select counts itself at socket i, or off.
  lemma CountedMoves(st: State, st': State, k: nat, i: nat, d: int)
    requires Counted(st) && k in st.threads && i < |st.socks| && (d == 1 || d == -1)
    requires st'.socks == AddWaiting(st, i, d).socks
    requires k in st'.threads && st'.threads == st.threads[k := st'.threads[k]]
    requires forall s: nat :: s != i ==> (Registered(st'.threads[k], s) <==> Registered(st.threads[k], s))
    requires Registered(st'.threads[k], i) == (d == 1) && Registered(st.threads[k], i) == (d == -1)
    ensures Counted(st')
  {
    hide Registered, Waiters;
    forall s | 0 <= s < |st.socks|
      ensures st'.socks[s].waiting == |Waiters(st', s)|
    {
      if s != i {
        WaitersSame(st, st', k, s);
      } else if d == 1 {
        WaitersJoin(st, st', k, s);
      } else {
        assert st'.threads[k := st.threads[k]] == st.threads;
        WaitersJoin(st', st, k, s);
      }
    }
  }

  lemma CountedAdvance(st: State, k: nat)
    requires Counted(st) && Sockets(st) && (CanStep(st, Move(k, true)) || CanStep(st, Move(k, false)))
    ensures Counted(Advance(st, k))
  {
    var st', t := Advance(st, k), st.threads[k];
    if (t.pc.Inc? || t.pc.Dec?) && t.pc.i < t.want.maxfdp1 && t.want.Interested(t.pc.i) {
      CountedMoves(st, st', k, t.pc.i, if t.pc.Inc? then 1 else -1);
    } else {
      CountedSame(st, st');
    }
  }

  // ---------------------------------------------------------------- one node of the list

  lemma ArriveFrame(st: State, e: nat, s: nat, pos: nat)
    requires s < |st.socks| && forall k :: k in st.list ==> k in st.threads
    ensures var st' := Arrive(st, e, s, pos);
            && st'.socks == st.socks && st'.list == st.list && st'.ctr == st.ctr
            && st'.threads.Keys == st.threads.Keys
            && (forall k :: k in st.threads ==>
                  st'.threads[k].pc == st.threads[k].pc && st'.threads[k].want == st.threads[k].want
                  && (st.threads[k].signalled ==> st'.threads[k] == st.threads[k]))
            && (forall d :: d != e ==> (d in st'.walkers <==> d in st.walkers)
                                       && (d in st.walkers ==> st'.walkers[d] == st.walkers[d]))
  {}

  lemma ArriveSignalled(st: State, e: nat, s: nat, pos: nat)
    requires s < |st.socks| && Linked(st) && SignalledOnce(st)
    ensures SignalledOnce(Arrive(st, e, s, pos))
  {}

  lemma ArriveAnchored(st: State, e: nat, s: nat, pos: nat)
    requires s < |st.socks| && Linked(st) && Anchored(st)
    ensures Anchored(Arrive(st, e, s, pos))
  {}

  /** A callback that comes to the list at or before node k signals it or will come to it. */
  lemma ArriveCovers(st: State, e: nat, s: nat, pos: nat, k: nat)
    requires s < |st.socks| && Linked(st) && k in st.list && pos <= IndexOf(st.list, k)
    requires st.threads[k].want.Signals(s, st.socks[s])
    ensures Arrive(st, e, s, pos).threads[k].signalled || WillVisit(Arrive(st, e, s, pos), e, k, s)
  {
    IndexUnique(st.list, pos);
  }

  // ---------------------------------------------------------------- the steps of a select

  lemma AdvanceThreads(st: State, k: nat)
    requires CanStep(st, Move(k, true)) || CanStep(st, Move(k, false))
    ensures var st' := Advance(st, k);
            && st'.walkers == st.walkers && st'.threads.Keys == st.threads.Keys
            && (forall j :: j in st.threads && j != k ==> st'.threads[j] == st.threads[j])
            && st'.threads[k].want == st.threads[k].want && st'.threads[k].signalled == st.threads[k].signalled
  {
    hide Remove, Want.Interested, Want.ScanReady;
  }

  lemma AdvanceSocks(st: State, k: nat)
    requires CanStep(st, Move(k, true)) || CanStep(st, Move(k, false))
    ensures var st' := Advance(st, k);
            && |st'.socks| == |st.socks|
            && (forall s: nat :: s < |st.socks| ==> st'.socks[s] == st.socks[s].(waiting := st'.socks[s].waiting))
  {
    hide Remove, Want.ScanReady;
  }

  lemma AdvanceList(st: State, k: nat)
    requires CanStep(st, Move(k, true)) || CanStep(st, Move(k, false))
    ensures var st', pc := Advance(st, k), st.threads[k].pc;
            && st'.ctr == (if pc.Enlist? || pc.Unlink? then st.ctr + 1 else st.ctr)
            && st'.list == (if pc.Enlist? then [k] + st.list else if pc.Unlink? then Remove(st.list, k) else st.list)
            && k in st'.threads
            && (OnList(st'.threads[k].pc) <==> pc.Enlist? || (OnList(pc) && !pc.Unlink?))
  {
    hide Remove, Want.Interested, Want.ScanReady;
  }

  lemma LinkedAdvance(st: State, k: nat)
    requires Linked(st) && (CanStep(st, Move(k, true)) || CanStep(st, Move(k, false)))
    ensures Linked(Advance(st, k))
  {
    hide Remove, Advance, CanStep;
    AdvanceThreads(st, k);
    AdvanceList(st, k);
    if st.threads[k].pc.Unlink? {
      RemoveSpec(st.list, k);
    } else if st.threads[k].pc.Enlist? {
      assert k !in st.list;
    }
  }

  lemma AdvanceFrame(st: State, k: nat)
    requires CanStep(st, Move(k, true)) || CanStep(st, Move(k, false))
    ensures var st' := Advance(st, k);
            && st'.walkers == st.walkers && |st'.socks| == |st.socks| && st'.threads.Keys == st.threads.Keys
            && (forall j :: j in st.threads && j != k ==> st'.threads[j] == st.threads[j])
            && st'.threads[k].want == st.threads[k].want && st'.threads[k].signalled == st.threads[k].signalled
            && (forall s: nat :: s < |st.socks| ==> st'.socks[s] == st.socks[s].(waiting := st'.socks[s].waiting))
            && (if st.threads[k].pc.Enlist? || st.threads[k].pc.Unlink? then st'.ctr == st.ctr + 1
                else st'.ctr == st.ctr && st'.list == st.list)
  {
    hide Remove, Advance, CanStep;
    AdvanceThreads(st, k);
    AdvanceSocks(st, k);
    AdvanceList(st, k);
  }

  lemma AdvanceSignalled(st: State, k: nat)
    requires SignalledOnce(st) && (CanStep(st, Move(k, true)) || CanStep(st, Move(k, false)))
    ensures SignalledOnce(Advance(st, k))
  {
    hide Remove, Want.Interested, Want.ScanReady;
  }

  // A select that comes to rely on socket s has just seen that nothing it wants holds there.
  lemma RelianceGrows(st: State, k: nat, s: nat)
    requires (CanStep(st, Move(k, true)) || CanStep(st, Move(k, false))) && s < |st.socks|
    requires Relies(Advance(st, k).threads[k], s) && !Relies(st.threads[k], s)
    ensures !st.threads[k].want.Signals(s, st.socks[s])
  {}

  lemma AdvanceCovered(st: State, k: nat, j: nat, s: nat)
    requires Inv(st) && (CanStep(st, Move(k, true)) || CanStep(st, Move(k, false)))
    requires Untold(Advance(st, k), j, s)
    ensures Covered(Advance(st, k), j, s)
  {
    hide Counted, SignalledOnce, Want.Signals, NoDup;
    var st' := Advance(st, k);
    AdvanceFrame(st, k);
    LinkedAdvance(st, k);
    if j == k && !Relies(st.threads[k], s) {
      RelianceGrows(st, k, s);
      SameSignals(st.threads[k].want, s, st.socks[s], st'.socks[s]);
    }
    SameSignals(st.threads[j].want, s, st.socks[s], st'.socks[s]);
    assert Untold(st, j, s);
    var e :| WillVisit(st, e, j, s);
    assert WillVisit(st', e, j, s);
  }

  lemma SameSignals(w: Want, s: nat, a: Sock, b: Sock)
    requires b == a.(waiting := b.waiting)
    ensures w.Signals(s, a) == w.Signals(s, b)
  {}

  lemma InvAdvance(st: State, k: nat)
    requires Inv(st) && (CanStep(st, Move(k, true)) || CanStep(st, Move(k, false)))
    ensures Inv(Advance(st, k))
  {
    hide Advance, Linked, Counted, SignalledOnce, NoDup, Untold, Covered;
    LinkedAdvance(st, k);
    AdvanceFrame(st, k);
    AdvanceSignalled(st, k);
    CountedAdvance(st, k);
    forall j, s: nat | Untold(Advance(st, k), j, s) ensures Covered(Advance(st, k), j, s) {
      AdvanceCovered(st, k, j, s);
    }
  }

  // ---------------------------------------------------------------- the steps of a callback

  // What a callback that has come to a position of the list leaves in order.
  lemma InvArrive(st: State, e: nat, s: nat, pos: nat)
    requires s < |st.socks| && Linked(st) && Anchored(st) && Sockets(st) && SignalledOnce(st) && Counted(st)
    requires forall k, s': nat :: Untold(st, k, s') ==>
               (exists d :: d != e && WillVisit(st, d, k, s'))
               || (s' == s && k in st.list && pos <= IndexOf(st.list, k))
    ensures Inv(Arrive(st, e, s, pos))
  {
    hide Arrive, NoDup, Counted, SignalledOnce, Want.Signals, Want.Interested, Relies, Untold, WillVisit;
    var st' := Arrive(st, e, s, pos);
    ArriveFrame(st, e, s, pos);
    ArriveSignalled(st, e, s, pos);
    ArriveAnchored(st, e, s, pos);
    ArriveCounted(st, e, s, pos);
    forall k, s': nat | Untold(st', k, s') ensures Covered(st', k, s') {
      ArriveUntold(st, e, s, pos, k, s');
      if s' == s && k in st.list && pos <= IndexOf(st.list, k) {
        ArriveCoversUntold(st, e, s, pos, k);
      } else {
        var d :| d != e && WillVisit(st, d, k, s');
        ArriveOthers(st, e, s, pos, d, k, s');
      }
    }
  }

  lemma ArriveCounted(st: State, e: nat, s: nat, pos: nat)
    requires s < |st.socks| && Linked(st) && Counted(st)
    ensures Counted(Arrive(st, e, s, pos))
  {
    hide Arrive, NoDup;
    ArriveFrame(st, e, s, pos);
    CountedSame(st, Arrive(st, e, s, pos));
  }

  lemma ArriveUntold(st: State, e: nat, s: nat, pos: nat, k: nat, s': nat)
    requires s < |st.socks| && Linked(st) && Untold(Arrive(st, e, s, pos), k, s')
    ensures Untold(st, k, s')
  {
    hide Arrive, NoDup, Want.Signals;
    ArriveFrame(st, e, s, pos);
  }

  lemma ArriveCoversUntold(st: State, e: nat, s: nat, pos: nat, k: nat)
    requires s < |st.socks| && Linked(st) && k in st.list && pos <= IndexOf(st.list, k)
    requires Untold(Arrive(st, e, s, pos), k, s)
    ensures WillVisit(Arrive(st, e, s, pos), e, k, s)
  {}

  lemma ArriveOthers(st: State, e: nat, s: nat, pos: nat, d: nat, k: nat, s': nat)
    requires s < |st.socks| && Linked(st) && d != e && WillVisit(st, d, k, s')
    ensures WillVisit(Arrive(st, e, s, pos), d, k, s')
  {
    hide Arrive, NoDup;
    ArriveFrame(st, e, s, pos);
  }

  lemma InvWalk(st: State, e: nat)
    requires Inv(st) && CanStep(st, Walk(e))
    ensures Inv(Apply(st, Walk(e)))
  {
    hide Arrive, NoDup, Counted, SignalledOnce, Untold;
    var w := st.walkers[e];
    var pos := if w.last != st.ctr then 0 else IndexOf(st.list, w.scb) + 1;
    forall k, s: nat | Untold(st, k, s)
      ensures (exists d :: d != e && WillVisit(st, d, k, s))
              || (s == w.sock && k in st.list && pos <= IndexOf(st.list, k))
    {
      var d :| WillVisit(st, d, k, s);
    }
    InvArrive(st, e, w.sock, pos);
  }

  // The event is recorded; the callback has not looked at the list yet.
  function Recorded(st: State, s: nat, evt: NetconnEvent): State
    requires s < |st.socks|
  {
    st.(socks := st.socks[s := SetEvent(st.socks[s], evt)])
  }

  lemma RecordedKeeps(st: State, s: nat, evt: NetconnEvent)
    requires s < |st.socks| && Inv(st)
    ensures var st1 := Recorded(st, s, evt);
            Linked(st1) && Anchored(st1) && Sockets(st1) && SignalledOnce(st1) && Counted(st1)
  {
    hide NoDup, OneSignal, Registered;
    CountedSame(st, Recorded(st, s, evt));
  }

  lemma RecordedUntold(st: State, s: nat, evt: NetconnEvent, k: nat, s': nat)
    requires s < |st.socks| && Inv(st) && Untold(Recorded(st, s, evt), k, s')
    ensures s' != s ==> Untold(st, k, s')
    ensures k in st.list && k in Waiters(st, s')
  {
    hide NoDup, Want.Signals, Counted, SignalledOnce, SetEvent;
  }

  lemma InvEvent(st: State, e: nat, s: nat, evt: NetconnEvent)
    requires Inv(st) && CanStep(st, Event(e, s, evt))
    ensures Inv(Apply(st, Event(e, s, evt)))
  {
    hide Arrive, NoDup, SignalledOnce, Linked, Anchored, Sockets, Untold, Waiters, SetEvent;
    var st1 := Recorded(st, s, evt);
    RecordedKeeps(st, s, evt);
    forall k, s': nat | Untold(st1, k, s')
      ensures k in st.list && (s' == s ==> st.socks[s].waiting > 0)
      ensures s' == s || (exists d :: d != e && WillVisit(st1, d, k, s'))
    {
      RecordedUntold(st, s, evt, k, s');
      if s' != s {
        var d :| WillVisit(st, d, k, s');
        assert WillVisit(st1, d, k, s');
      }
    }
    WaitingUnchanged(st, s, evt);
    if st1.socks[s].waiting == 0 {
      assert NoLostWakeUp(st1);
    } else {
      InvArrive(st1, e, s, 0);
    }
  }

  lemma WaitingUnchanged(st: State, s: nat, evt: NetconnEvent)
    requires s < |st.socks|
    ensures Recorded(st, s, evt).socks[s].waiting == st.socks[s].waiting
  {}

  lemma InvBegin(st: State, k: nat, want: Want)
    requires Inv(st) && CanStep(st, Begin(k, want))
    ensures Inv(Apply(st, Begin(k, want)))
  {
    hide NoDup, Want.Signals;
    var st' := Apply(st, Begin(k, want));
    CountedSame(st, st');
    forall j, s: nat | Untold(st', j, s) ensures Covered(st', j, s) {
      assert Untold(st, j, s);
      var e :| WillVisit(st, e, j, s);
      assert WillVisit(st', e, j, s);
    }
  }

  lemma InvSetLastdata(st: State, s: nat, b: bool)
    requires Inv(st) && CanStep(st, SetLastdata(s, b))
    ensures Inv(Apply(st, SetLastdata(s, b)))
  {
    hide NoDup, Registered, OneSignal;
    var st' := Apply(st, SetLastdata(s, b));
    CountedSame(st, st');
    forall j, s': nat | Untold(st', j, s') ensures Covered(st', j, s') {
      assert Untold(st, j, s');
      var e :| WillVisit(st, e, j, s');
      assert WillVisit(st', e, j, s');
    }
  }

  /** Every step of every thread and every callback keeps the invariant. */
  lemma InvKept(st: State, l: Label)
    requires Inv(st) && CanStep(st, l)
    ensures Inv(Apply(st, l))
  {
    hide Inv, Advance, Arrive;
    match l {
      case Begin(k, want) => InvBegin(st, k, want);
      case Move(k, timeout) => InvAdvance(st, k);
      case Event(e, s, evt) => InvEvent(st, e, s, evt);
      case Walk(e) => InvWalk(st, e);
      case SetLastdata(s, b) => InvSetLastdata(st, s, b);
    }
  }

  // ---------------------------------------------------------------- whole runs

  /** The steps can be taken one after the other. */
  ghost predicate Possible(st: State, labels: seq<Label>)
    decreases |labels|
  {
    labels == [] || (Enabled(st, labels[0]) && CanStep(st, labels[0]) && Possible(Apply(st, labels[0]), labels[1..]))
  }

  ghost function Final(st: State, labels: seq<Label>): State
    requires Possible(st, labels)
    decreases |labels|
  {
    if labels == [] then st else Final(Apply(st, labels[0]), labels[1..])
  }

  lemma {:induction false} Reachable(st: State, labels: seq<Label>)
    requires Inv(st) && Possible(st, labels)
    ensures Inv(Final(st, labels))
    decreases |labels|
  {
    hide Inv, CanStep, Enabled, Apply;
    if labels != [] {
      InvKept(st, labels[0]);
      Reachable(Apply(st, labels[0]), labels[1..]);
    }
  }

  /** The select is blocked: it waits, and its semaphore is not up. */
  predicate Blocked(st: State, k: nat) { k in st.threads && st.threads[k].pc.Wait? && st.threads[k].sem == 0 }

  /**
   * After any run: while a select is blocked and a socket it asked for has data
   * to read, room to write or an error, as it asked, a callback is under way that
   * comes to it. With no callback under way, no such socket exists.
   */
  lemma SleepsOnlyWithReason(n: nat, labels: seq<Label>, k: nat, s: nat)
    requires Possible(Init(n), labels)
    ensures var st := Final(Init(n), labels);
            Blocked(st, k) && s < |st.socks| && s < st.threads[k].want.maxfdp1 && (
              || (s in st.threads[k].want.read && st.socks[s].rcvevent > 0)
              || (s in st.threads[k].want.write && st.socks[s].sendevent)
              || (s in st.threads[k].want.except && st.socks[s].errevent)) ==>
            st.walkers != map[] && Covered(st, k, s)
  {
    hide Possible, Final, Init, Linked, Anchored, Counted;
    InitInv(n);
    Reachable(Init(n), labels);
    var st := Final(Init(n), labels);
    if Blocked(st, k) && s < |st.socks| && Relies(st.threads[k], s) && st.threads[k].want.Signals(s, st.socks[s]) {
      assert OneSignal(st.threads[k]);
      assert Untold(st, k, s);
    }
  }

  /** A select is signalled only when a socket has what it asked for: that of the callback at work. */
  lemma SignalledForReason(st: State, l: Label, k: nat)
    requires CanStep(st, l) && k in st.threads && !st.threads[k].signalled
    requires k in Apply(st, l).threads && Apply(st, l).threads[k].signalled
    ensures l.Event? || l.Walk?
    ensures var s := if l.Event? then l.sock else st.walkers[l.e].sock;
            s < |Apply(st, l).socks| && var want, sock := st.threads[k].want, Apply(st, l).socks[s];
            || (s in want.read && sock.rcvevent > 0)
            || (s in want.write && sock.sendevent)
            || (s in want.except && sock.errevent)
  {
    hide Remove, IndexOf, Want.Interested, Want.ScanReady, SetEvent;
  }

  /** What each event does to the flags of its socket; `rcvevent` is 16 bits wide. */
  lemma EventFlags(k: Sock, evt: NetconnEvent)
    ensures var r := SetEvent(k, evt);
            && r.rcvevent == (match evt
                 case RcvPlus => if k.rcvevent == 0x7FFF then -0x8000 else k.rcvevent + 1
                 case RcvMinus => if k.rcvevent == -0x8000 then 0x7FFF else k.rcvevent - 1
                 case _ => k.rcvevent)
            && (r.sendevent <==> evt == SendPlus || (k.sendevent && evt != SendMinus))
            && (r.errevent <==> evt == Error || k.errevent)
            && r.lastdata == k.lastdata && r.waiting == k.waiting
  {}

  /** The second scan looks at every socket for what the select asked, and data kept from a read. */
  lemma ScanLooks(st: State, k: nat)
    requires CanStep(st, Move(k, false)) && st.threads[k].pc.Scan? && st.threads[k].pc.i < st.threads[k].want.maxfdp1
    ensures var pc, want, i := st.threads[k].pc, st.threads[k].want, st.threads[k].pc.i;
            var seen := i < |st.socks| && (
                          || (i in want.read && (st.socks[i].lastdata || st.socks[i].rcvevent > 0))
                          || (i in want.write && st.socks[i].sendevent)
                          || (i in want.except && st.socks[i].errevent));
            Advance(st, k).threads[k].pc == Scan(i + 1, pc.ready || seen)
  {}

  /** A select blocks exactly behind a second scan that has seen nothing. */
  lemma BlocksExactly(st: State, k: nat)
    requires CanStep(st, Move(k, true)) && !st.threads[k].pc.Wait?
    ensures Advance(st, k).threads[k].pc.Wait? <==>
            st.threads[k].pc.Scan? && !st.threads[k].pc.ready && st.threads[k].pc.i >= st.threads[k].want.maxfdp1
  {
    hide Remove, Want.Interested, Want.ScanReady;
  }

  /** After any run every select has been signalled at most once. */
  lemma SignalledAtMostOnce(n: nat, labels: seq<Label>, k: nat)
    requires Possible(Init(n), labels) && k in Final(Init(n), labels).threads
    ensures Final(Init(n), labels).threads[k].signals <= 1
  {
    hide Possible, Final, Init, Linked, Anchored, Counted, NoLostWakeUp, Sockets;
    InitInv(n);
    Reachable(Init(n), labels);
    assert OneSignal(Final(Init(n), labels).threads[k]);
  }

  /** The two assertions about `select_waiting` in `lwip_select` hold. */
  lemma WaitingAsserted(st: State, k: nat, s: nat)
    requires Inv(st) && k in st.threads && s < |st.socks| && st.threads[k].want.Interested(s)
    ensures st.threads[k].pc == Inc(s) ==> st.socks[s].waiting + 1 > 0
    ensures st.threads[k].pc == Dec(s) ==> st.socks[s].waiting - 1 >= 0
  {
    hide Linked, Anchored, NoLostWakeUp;
    if st.threads[k].pc == Dec(s) {
      assert k in Waiters(st, s);
    }
  }

  // ---------------------------------------------------------------- callbacks arrive

  /** How many nodes callback e still has to pass before node k, while the list stays as it is. */
  function Distance(st: State, e: nat, k: nat, s: nat): nat
    requires WillVisit(st, e, k, s)
  {
    if st.walkers[e].last != st.ctr then |st.list| + IndexOf(st.list, k)
    else IndexOf(st.list, k) - IndexOf(st.list, st.walkers[e].scb)
  }

  /** Every step of a callback that will come to a select signals it, or brings it nearer. */
  lemma WalkApproaches(st: State, e: nat, k: nat, s: nat)
    requires Inv(st) && Enabled(st, Walk(e)) && WillVisit(st, e, k, s) && s < |st.socks|
    requires st.threads[k].want.Signals(s, st.socks[s])
    ensures CanStep(st, Walk(e))
    ensures var st' := Apply(st, Walk(e));
            st'.threads[k].signalled || (WillVisit(st', e, k, s) && Distance(st', e, k, s) < Distance(st, e, k, s))
  {
    hide Counted, SignalledOnce, NoLostWakeUp, Sockets, Want.Signals;
    NoStaleNode(st, Walk(e));
    var w := st.walkers[e];
    var pos := if w.last != st.ctr then 0 else IndexOf(st.list, w.scb) + 1;
    ArriveCovers(st, e, s, pos, k);
    IndexUnique(st.list, pos);
  }

  /** Left to itself, a callback that will come to a select whose condition persists signals it. */
  lemma {:induction false} WokenInTheEnd(st: State, e: nat, k: nat, s: nat) returns (labels: seq<Label>)
    requires Inv(st) && WillVisit(st, e, k, s) && s < |st.socks| && st.threads[k].want.Signals(s, st.socks[s])
    ensures Possible(st, labels) && forall l :: l in labels ==> l == Walk(e)
    ensures k in Final(st, labels).threads && Final(st, labels).threads[k].signalled
    decreases Distance(st, e, k, s)
  {
    hide Inv, CanStep, Linked, Want.Signals, Arrive, IndexOf;
    WalkApproaches(st, e, k, s);
    ListKnown(st, k);
    var st' := Apply(st, Walk(e));
    InvKept(st, Walk(e));
    WalkKeeps(st, e, k);
    labels := [Walk(e)];
    assert labels[1..] == [];
    if !st'.threads[k].signalled {
      var rest := WokenInTheEnd(st', e, k, s);
      labels := labels + rest;
      assert labels[1..] == rest;
    }
  }

  lemma ListKnown(st: State, k: nat)
    requires Inv(st) && k in st.list
    ensures k in st.threads
  {}

  lemma WalkKeeps(st: State, e: nat, k: nat)
    requires CanStep(st, Walk(e)) && k in st.threads
    ensures var st' := Apply(st, Walk(e));
            st'.socks == st.socks && k in st'.threads && st'.threads[k].want == st.threads[k].want
  {
    hide IndexOf;
  }
}
