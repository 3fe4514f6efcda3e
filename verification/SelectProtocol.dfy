/**
 * `lwip_select` and `event_callback` of lwip/api/sockets.c, interleaved at
 * their locked sections: threads that put themselves on the list of waiting
 * selects, scan, block and take themselves off again, and event callbacks that
 * walk along the list and let go of the lock at every node.
 */
module SelectProtocol {

  type int16 = x: int | -0x8000 <= x < 0x8000

  function Wrap16(x: int): int16 { (x + 0x8000) % 0x1_0000 - 0x8000 }

  /** The fields of `struct lwip_sock` that select looks at. */
  datatype Sock = Sock(rcvevent: int16, sendevent: bool, errevent: bool, lastdata: bool, waiting: int)

  datatype NetconnEvent = RcvPlus | RcvMinus | SendPlus | SendMinus | Error

  function SetEvent(k: Sock, evt: NetconnEvent): Sock {
    match evt
    case RcvPlus => k.(rcvevent := Wrap16(k.rcvevent + 1))
    case RcvMinus => k.(rcvevent := Wrap16(k.rcvevent - 1))
    case SendPlus => k.(sendevent := true)
    case SendMinus => k.(sendevent := false)
    case Error => k.(errevent := true)
  }

  /** The arguments of a select. */
  datatype Want = Want(read: set<nat>, write: set<nat>, except: set<nat>, maxfdp1: nat) {

    predicate Interested(s: nat) { s < maxfdp1 && (s in read || s in write || s in except) }

    /** The tests of `lwip_selscan`. */
    predicate ScanReady(s: nat, k: Sock) {
      (s in read && (k.lastdata || k.rcvevent > 0)) || (s in write && k.sendevent) || (s in except && k.errevent)
    }

    /** The tests of `event_callback`. */
    predicate Signals(s: nat, k: Sock) {
      (k.rcvevent > 0 && s in read) || (k.sendevent && s in write) || (k.errevent && s in except)
    }
  }

  /** Where a select is; the loops over the sockets stop at `maxfdp1`. */
  datatype Pc =
    | Enlist                       // the first scan found nothing
    | Inc(i: nat)                  // select_waiting++
    | Scan(i: nat, ready: bool)    // the second scan
    | Wait
    | Dec(i: nat)                  // select_waiting--
    | Unlink
    | Done

  /** A select and its `struct lwip_select_cb`; `signals` counts the calls of `sys_sem_signal`. */
  datatype Thread = Thread(want: Want, pc: Pc, signalled: bool, sem: nat, signals: nat)

  /** An event callback that has let go of the lock at a node. */
  datatype Walker = Walker(sock: nat, scb: nat, last: nat)

  /** A node of the list is the number of its thread. */
  datatype State = State(
    socks: seq<Sock>, list: seq<nat>, ctr: nat, threads: map<nat, Thread>, walkers: map<nat, Walker>)

  datatype Label =
    | Begin(k: nat, want: Want)
    | Move(k: nat, timeout: bool)
    | Event(e: nat, sock: nat, evt: NetconnEvent)
    | Walk(e: nat)
    | SetLastdata(sock: nat, lastdata: bool)

  predicate OnList(pc: Pc) { !pc.Enlist? && !pc.Done? }

  function IndexOf(list: seq<nat>, x: nat): (i: nat)
    requires x in list
    ensures i < |list| && list[i] == x
  {
    if list[0] == x then 0 else 1 + IndexOf(list[1..], x)
  }

  function Remove(list: seq<nat>, x: nat): seq<nat> {
    if x in list then var i := IndexOf(list, x); list[..i] + list[i + 1..] else list
  }

  /** What the source may do. */
  ghost predicate Enabled(st: State, l: Label) {
    match l
    case Begin(k, want) => k !in st.threads && forall s: nat :: want.Interested(s) ==> s < |st.socks|
    case Move(k, timeout) =>
      k in st.threads && !st.threads[k].pc.Done? && (st.threads[k].pc.Wait? ==> timeout || st.threads[k].sem > 0)
    case Event(e, s, _) => e !in st.walkers && s < |st.socks|
    case Walk(e) => e in st.walkers
    case SetLastdata(s, _) => s < |st.socks|
  }

  /** The step follows no pointer of a node that is not on the list, and finds the node on it. */
  ghost predicate CanStep(st: State, l: Label) {
    && Enabled(st, l)
    && (l.Walk? ==>
          var w := st.walkers[l.e];
          w.sock < |st.socks| && (w.last == st.ctr ==> w.scb in st.list)
          && forall k :: k in st.list ==> k in st.threads)
    && (l.Event? ==> forall k :: k in st.list ==> k in st.threads)
    && (l.Move? ==> forall s: nat :: st.threads[l.k].want.Interested(s) ==> s < |st.socks|)
  }

  function SetPc(st: State, k: nat, pc: Pc): State
    requires k in st.threads
  {
    st.(threads := st.threads[k := st.threads[k].(pc := pc)])
  }

  function AddWaiting(st: State, s: nat, d: int): State
    requires s < |st.socks|
  {
    st.(socks := st.socks[s := st.socks[s].(waiting := st.socks[s].waiting + d)])
  }

  /** A thread between two locked sections moves to the next. */
  function Advance(st: State, k: nat): State
    requires CanStep(st, Move(k, true)) || CanStep(st, Move(k, false))
  {
    var t := st.threads[k];
    match t.pc
    case Enlist => SetPc(st, k, Inc(0)).(list := [k] + st.list, ctr := st.ctr + 1)
    case Inc(i) =>
      if i >= t.want.maxfdp1 then SetPc(st, k, Scan(0, false))
      else SetPc(if t.want.Interested(i) then AddWaiting(st, i, 1) else st, k, Inc(i + 1))
    case Scan(i, ready) =>
      if i >= t.want.maxfdp1 then SetPc(st, k, if ready then Dec(0) else Wait)
      else SetPc(st, k, Scan(i + 1, ready || (i < |st.socks| && t.want.ScanReady(i, st.socks[i]))))
    case Wait => st.(threads := st.threads[k := t.(pc := Dec(0), sem := if t.sem > 0 then t.sem - 1 else 0)])
    case Dec(i) =>
      if i >= t.want.maxfdp1 then SetPc(st, k, Unlink)
      else SetPc(if t.want.Interested(i) then AddWaiting(st, i, -1) else st, k, Dec(i + 1))
    case Unlink => SetPc(st, k, Done).(list := Remove(st.list, k), ctr := st.ctr + 1)
    case Done => st
  }

  /** The test of one node, and its semaphore. */
  function Signal(t: Thread, s: nat, sock: Sock): Thread {
    if !t.signalled && t.want.Signals(s, sock)
    then t.(signalled := true, sem := t.sem + 1, signals := t.signals + 1)
    else t
  }

  /** Callback e for socket s comes to position pos of the list: behind its end, or to a node. */
  function Arrive(st: State, e: nat, s: nat, pos: nat): State
    requires s < |st.socks| && forall k :: k in st.list ==> k in st.threads
  {
    if pos >= |st.list| then st.(walkers := st.walkers - {e})
    else
      var k := st.list[pos];
      st.(threads := st.threads[k := Signal(st.threads[k], s, st.socks[s])],
          walkers := st.walkers[e := Walker(s, k, st.ctr)])
  }

  function Apply(st: State, l: Label): State
    requires CanStep(st, l)
  {
    match l
    case Begin(k, want) => st.(threads := st.threads[k := Thread(want, Enlist, false, 0, 0)])
    case Move(k, _) => Advance(st, k)
    case Event(e, s, evt) =>
      var st1 := st.(socks := st.socks[s := SetEvent(st.socks[s], evt)]);
      if st1.socks[s].waiting == 0 then st1 else Arrive(st1, e, s, 0)
    case Walk(e) =>
      var w := st.walkers[e];
      Arrive(st, e, w.sock, if w.last != st.ctr then 0 else IndexOf(st.list, w.scb) + 1)
    case SetLastdata(s, b) => st.(socks := st.socks[s := st.socks[s].(lastdata := b)])
  }

  function Init(n: nat): State { State(seq(n, _ => Sock(0, false, false, false, 0)), [], 0, map[], map[]) }
}
