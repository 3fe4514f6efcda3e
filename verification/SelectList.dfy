/**
 * The data structures of the select code in lwip/api/sockets.c: the doubly
 * linked list of waiting selects and the result sets of a scan. Each method is
 * one locked section, except the scan, which takes the lock once per socket.
 */
module SelectList {
  import opened SelectProtocol
  import opened SelectSafety

  class SelectCb {
    const id: nat               // the number of its thread
    const want: Want            // readset, writeset, exceptset
    var next: SelectCb?
    var prev: SelectCb?
    var semSignalled: bool
    var sem: nat

    constructor (id: nat, want: Want)
      ensures this.id == id && this.want == want && next == null && prev == null && !semSignalled && sem == 0
    {
      this.id, this.want, next, prev, semSignalled, sem := id, want, null, null, false, 0;
    }

    /** The node has the sets, the flag and the semaphore of its thread. */
    ghost predicate Shows(st: State)
      reads this
    {
      && id in st.threads && st.threads[id].want == want
      && st.threads[id].signalled == semSignalled && st.threads[id].sem == sem
    }
  }

  class Selects {
    var list: SelectCb?
    var ctr: nat                // select_cb_ctr
    ghost var nodes: seq<SelectCb>

    ghost function At(i: int): SelectCb?
      reads this
    {
      if 0 <= i < |nodes| then nodes[i] else null
    }

    ghost predicate Valid()
      reads this, nodes`next, nodes`prev
    {
      && list == At(0)
      && (nodes != [] ==> nodes[0].prev == null && nodes[|nodes| - 1].next == null)
      && (forall i, j :: 0 <= i < |nodes| && 0 <= j < |nodes| && i + 1 == j ==>
            nodes[i].next == nodes[j] && nodes[j].prev == nodes[i])
      && (forall i, j :: 0 <= i < j < |nodes| ==> nodes[i] != nodes[j])
    }

    constructor ()
      ensures Valid() && nodes == [] && ctr == 0
    {
      list, ctr, nodes := null, 0, [];
    }

    /** A select puts itself on top of the list. */
    method Enlist(cb: SelectCb)
      requires Valid() && cb !in nodes
      modifies this, nodes, cb
      ensures Valid() && nodes == [cb] + old(nodes) && ctr == old(ctr) + 1
      ensures forall n :: n in nodes ==> n.semSignalled == old(n.semSignalled) && n.sem == old(n.sem)
    {
      cb.prev := null;
      cb.next := list;
      if list != null {
        list.prev := cb;
      }
      list := cb;
      ctr := ctr + 1;
      nodes := [cb] + nodes;
    }

    // The neighbours of node i are tied to each other.
    method Bypass(cb: SelectCb, ghost i: nat)
      requires Valid() && i < |nodes| && nodes[i] == cb
      modifies this`list, nodes
      ensures list == if i == 0 then At(1) else old(list)
      ensures forall k :: 0 <= k < |nodes| && k != i - 1 ==> nodes[k].next == old(nodes[k].next)
      ensures forall k :: 0 <= k < |nodes| && k != i + 1 ==> nodes[k].prev == old(nodes[k].prev)
      ensures i > 0 ==> nodes[i - 1].next == At(i + 1)
      ensures i + 1 < |nodes| ==> nodes[i + 1].prev == At(i - 1)
      ensures forall n :: n in nodes ==> n.semSignalled == old(n.semSignalled) && n.sem == old(n.sem)
    {
      assert cb.next == At(i + 1) && cb.prev == At(i - 1) && (list == cb <==> i == 0);
      if cb.next != null {
        cb.next.prev := cb.prev;
      }
      if list == cb {
        list := cb.next;
      } else {
        cb.prev.next := cb.next;
      }
    }

    /** A select takes itself off the list, wherever it is by now. */
    method Unlink(cb: SelectCb, ghost i: nat)
      requires Valid() && i < |nodes| && nodes[i] == cb
      modifies this, nodes
      ensures Valid() && nodes == old(nodes[..i] + nodes[i + 1..]) && ctr == old(ctr) + 1
      ensures forall n :: n in old(nodes) ==> n.semSignalled == old(n.semSignalled) && n.sem == old(n.sem)
    {
      Bypass(cb, i);
      ctr := ctr + 1;
      ghost var was := nodes;
      Closed(was, i);
      nodes := was[..i] + was[i + 1..];
      if nodes != [] {
        assert nodes[0] == was[if i == 0 then 1 else 0];
        assert nodes[|nodes| - 1] == was[if i == |was| - 1 then |was| - 2 else |was| - 1];
      }
    }

    /**
     * Where a callback goes on that stood at `scb` when the counter was `last`:
     * at the next node, or at the beginning if the list has changed.
     */
    method Onward(scb: SelectCb, last: nat, ghost i: nat) returns (r: SelectCb?)
      requires Valid() && (last == ctr ==> i < |nodes| && nodes[i] == scb)
      ensures r == At(if last != ctr then 0 else i + 1)
    {
      r := if last != ctr then list else scb.next;
    }

    /** The test of one node in `event_callback`. */
    method Look(scb: SelectCb, s: nat, sock: Sock)
      modifies scb`semSignalled, scb`sem
      ensures var signal := !old(scb.semSignalled) && (
                              || (s in scb.want.read && sock.rcvevent > 0)
                              || (s in scb.want.write && sock.sendevent)
                              || (s in scb.want.except && sock.errevent));
              scb.semSignalled == (old(scb.semSignalled) || signal)
              && scb.sem == old(scb.sem) + (if signal then 1 else 0)
    {
      if !scb.semSignalled {
        var doSignal := false;
        if sock.rcvevent > 0 {
          if s in scb.want.read {
            doSignal := true;
          }
        }
        if sock.sendevent {
          if !doSignal && s in scb.want.write {
            doSignal := true;
          }
        }
        if sock.errevent {
          if !doSignal && s in scb.want.except {
            doSignal := true;
          }
        }
        if doSignal {
          scb.semSignalled := true;
          scb.sem := scb.sem + 1;
        }
      }
    }

    /** The list, the counter and the nodes are those of a state of the protocol. */
    ghost predicate View(st: State)
      reads this, nodes
    {
      && Ids(nodes) == st.list && ctr == st.ctr
      && forall i :: 0 <= i < |nodes| ==> nodes[i].Shows(st)
    }

    /** Joining the list is the select's step from `Enlist`. */
    method Join(cb: SelectCb, ghost st: State)
      requires Valid() && View(st) && cb !in nodes && cb.Shows(st)
      requires CanStep(st, Move(cb.id, false)) && st.threads[cb.id].pc.Enlist?
      modifies this, nodes, cb
      ensures Valid() && View(Advance(st, cb.id)) && nodes == [cb] + old(nodes)
    {
      hide Selects.Valid, Advance, CanStep;
      ListStep(st, cb.id);
      Enlist(cb);
      forall i | 0 <= i < |nodes| ensures nodes[i].Shows(Advance(st, cb.id)) {
        assert nodes[i] in nodes && (nodes[i] == cb || nodes[i] == old(nodes)[i - 1]);
      }
    }

    /** Leaving the list is the select's step from `Unlink`. */
    method Leave(cb: SelectCb, ghost i: nat, ghost st: State)
      requires Valid() && View(st) && NoDup(st.list) && i < |nodes| && nodes[i] == cb
      requires CanStep(st, Move(cb.id, false)) && st.threads[cb.id].pc.Unlink?
      modifies this, nodes
      ensures Valid() && View(Advance(st, cb.id)) && nodes == old(nodes[..i] + nodes[i + 1..])
    {
      hide Selects.Valid, Advance, CanStep, NoDup, Remove;
      ListStep(st, cb.id);
      UnlinkRemoves(nodes, i);
      Unlink(cb, i);
      forall k | 0 <= k < |nodes| ensures nodes[k].Shows(Advance(st, cb.id)) {
        assert nodes[k] == old(nodes)[if k < i then k else k + 1] && nodes[k] in old(nodes);
      }
    }

    // A callback has come to position pos; `last` is what it remembers of the counter.
    method Come(r: SelectCb?, s: nat, sock: Sock, ghost pos: nat, ghost e: nat, ghost st: State) returns (last: nat)
      requires Valid() && View(st) && Linked(st) && s < |st.socks| && sock == st.socks[s] && r == At(pos)
      modifies nodes
      ensures Valid() && View(Arrive(st, e, s, pos)) && unchanged(this)
      ensures var w := Arrive(st, e, s, pos).walkers;
              if r == null then e !in w else r in nodes && e in w && w[e] == Walker(s, r.id, last)
    {
      hide Selects.Valid, Arrive, Linked, NoDup;
      last := ctr;
      forall i | 0 <= i < |st.list| ensures nodes[i].Shows(st) && (i != pos ==> nodes[i] != At(pos)) {
        ArriveAt(st, e, s, pos, i);
        assert nodes[i].id == st.list[i];
      }
      ArrivesAt(st, e, s, pos);
      if r != null {
        Look(r, s, sock);
      }
      forall i | 0 <= i < |nodes| ensures nodes[i].Shows(Arrive(st, e, s, pos)) {
        ArriveAt(st, e, s, pos, i);
        assert nodes[i].id == st.list[i];
      }
    }

    /** One round of a callback that stood at `scb`: the callback's step in the protocol. */
    method WalkOn(scb: SelectCb, last: nat, s: nat, sock: Sock, ghost e: nat, ghost st: State)
      returns (r: SelectCb?, last': nat)
      requires Valid() && View(st) && Linked(st) && CanStep(st, Walk(e))
      requires st.walkers[e] == Walker(s, scb.id, last) && sock == st.socks[s]
      requires last == ctr ==> nodes[IndexOf(st.list, scb.id)] == scb
      modifies nodes
      ensures Valid() && View(Apply(st, Walk(e))) && unchanged(this)
      ensures var w := Apply(st, Walk(e)).walkers;
              if r == null then e !in w else r in nodes && e in w && w[e] == Walker(s, r.id, last')
    {
      hide Linked, Arrive, IndexOf;
      ghost var i := if last == ctr then IndexOf(st.list, scb.id) else 0;
      r := Onward(scb, last, i);
      last' := Come(r, s, sock, if last != ctr then 0 else i + 1, e, st);
    }

    /** The first locked section of a callback, when a select waits for its socket. */
    method Begin(s: nat, sock: Sock, evt: NetconnEvent, ghost e: nat, ghost st: State)
      returns (r: SelectCb?, last: nat)
      requires Valid() && View(st) && Linked(st) && CanStep(st, Event(e, s, evt))
      requires sock == SetEvent(st.socks[s], evt) && sock.waiting != 0
      modifies nodes
      ensures Valid() && View(Apply(st, Event(e, s, evt))) && unchanged(this)
      ensures var w := Apply(st, Event(e, s, evt)).walkers;
              if r == null then e !in w else r in nodes && e in w && w[e] == Walker(s, r.id, last)
    {
      hide Arrive, NoDup;
      r := list;
      last := Come(r, s, sock, 0, e, Recorded(st, s, evt));
    }
  }

  // What joining and leaving the list changes in the protocol.
  lemma ListStep(st: State, k: nat)
    requires CanStep(st, Move(k, false)) && (st.threads[k].pc.Enlist? || st.threads[k].pc.Unlink?)
    ensures var st' := Advance(st, k);
            && st'.list == (if st.threads[k].pc.Enlist? then [k] + st.list else Remove(st.list, k))
            && st'.ctr == st.ctr + 1 && st'.threads.Keys == st.threads.Keys
            && forall j :: j in st.threads ==> st'.threads[j] == st.threads[j].(pc := st'.threads[j].pc)
  {
    hide Remove;
  }

  // What a callback that comes to position pos changes of the node at position i.
  lemma ArriveAt(st: State, e: nat, s: nat, pos: nat, i: nat)
    requires Linked(st) && s < |st.socks| && i < |st.list|
    ensures st.list[i] in st.threads && (i != pos && pos < |st.list| ==> st.list[i] != st.list[pos])
    ensures var st' := Arrive(st, e, s, pos);
            st.list[i] in st'.threads && st'.threads[st.list[i]] ==
              if i == pos then Signal(st.threads[st.list[i]], s, st.socks[s]) else st.threads[st.list[i]]
  {}

  lemma ArrivesAt(st: State, e: nat, s: nat, pos: nat)
    requires Linked(st) && s < |st.socks|
    ensures var st' := Arrive(st, e, s, pos);
            && st'.list == st.list && st'.ctr == st.ctr
            && if pos >= |st.list| then e !in st'.walkers
               else e in st'.walkers && st'.walkers[e] == Walker(s, st.list[pos], st.ctr)
  {}

  // A sequence without its element i.
  lemma Closed(was: seq<SelectCb>, i: nat)
    requires i < |was| && forall j, k :: 0 <= j < k < |was| ==> was[j] != was[k]
    ensures var r := was[..i] + was[i + 1..];
            && (forall k :: 0 <= k < |r| ==> r[k] == was[if k < i then k else k + 1])
            && (forall j, k :: 0 <= j < k < |r| ==> r[j] != r[k])
  {}

  /** The numbers on the list: what the protocol calls the list. */
  function Ids(nodes: seq<SelectCb>): (ids: seq<nat>)
    ensures |ids| == |nodes| && forall i :: 0 <= i < |ids| ==> ids[i] == nodes[i].id
  {
    seq(|nodes|, i requires 0 <= i < |nodes| => nodes[i].id)
  }

  /** Unlinking a node removes its number. */
  lemma UnlinkRemoves(nodes: seq<SelectCb>, i: nat)
    requires i < |nodes| && NoDup(Ids(nodes))
    ensures Ids(nodes[..i] + nodes[i + 1..]) == Remove(Ids(nodes), nodes[i].id)
  {
    IndexUnique(Ids(nodes), i);
  }

  /** The wanted descriptors below n whose socket has the flag. */
  ghost function Chosen(wanted: set<nat>, flags: seq<bool>, n: nat): set<nat> {
    set k | k in wanted && k < n && k < |flags| && flags[k]
  }

  lemma ChosenStep(wanted: set<nat>, flags: seq<bool>, n: nat)
    ensures n !in Chosen(wanted, flags, n)
    ensures Chosen(wanted, flags, n + 1) ==
            if n in wanted && n < |flags| && flags[n] then Chosen(wanted, flags, n) + {n} else Chosen(wanted, flags, n)
    ensures |Chosen(wanted, flags, n + 1)| ==
            |Chosen(wanted, flags, n)| + if n in wanted && n < |flags| && flags[n] then 1 else 0
  {}

  function Readable(seen: seq<Sock>): (r: seq<bool>)
    ensures |r| == |seen| && forall i :: 0 <= i < |r| ==> (r[i] <==> seen[i].lastdata || seen[i].rcvevent > 0)
  {
    seq(|seen|, i requires 0 <= i < |seen| => seen[i].lastdata || seen[i].rcvevent > 0)
  }

  function Writable(seen: seq<Sock>): (r: seq<bool>)
    ensures |r| == |seen| && forall i :: 0 <= i < |r| ==> r[i] == seen[i].sendevent
  {
    seq(|seen|, i requires 0 <= i < |seen| => seen[i].sendevent)
  }

  function Failed(seen: seq<Sock>): (r: seq<bool>)
    ensures |r| == |seen| && forall i :: 0 <= i < |r| ==> r[i] == seen[i].errevent
  {
    seq(|seen|, i requires 0 <= i < |seen| => seen[i].errevent)
  }

  /** Nothing is chosen exactly if no socket is ready in the sense of the protocol. */
  lemma NoneChosen(want: Want, seen: seq<Sock>)
    ensures Chosen(want.read, Readable(seen), want.maxfdp1) == {} == Chosen(want.write, Writable(seen), want.maxfdp1)
            && Chosen(want.except, Failed(seen), want.maxfdp1) == {} <==>
            forall i: nat :: i < |seen| && i < want.maxfdp1 ==> !want.ScanReady(i, seen[i])
  {
    var r, w, x := Readable(seen), Writable(seen), Failed(seen);
    var n := want.maxfdp1;
    if forall i: nat :: i < |seen| && i < n ==> !want.ScanReady(i, seen[i]) {
      assert forall k :: k in Chosen(want.read, r, n) ==> want.ScanReady(k, seen[k]);
      assert forall k :: k in Chosen(want.write, w, n) ==> want.ScanReady(k, seen[k]);
      assert forall k :: k in Chosen(want.except, x, n) ==> want.ScanReady(k, seen[k]);
    } else {
      var i: nat :| i < |seen| && i < n && want.ScanReady(i, seen[i]);
      assert i in Chosen(want.read, r, n) || i in Chosen(want.write, w, n) || i in Chosen(want.except, x, n);
    }
  }

  /**
   * `lwip_selscan`: `seen[i]` is the state of socket i when its turn comes; a
   * descriptor behind them is no socket.
   */
  method SelScan(want: Want, seen: seq<Sock>)
    returns (nready: nat, read: set<nat>, write: set<nat>, except: set<nat>)
    ensures read == Chosen(want.read, Readable(seen), want.maxfdp1)
    ensures write == Chosen(want.write, Writable(seen), want.maxfdp1)
    ensures except == Chosen(want.except, Failed(seen), want.maxfdp1)
    ensures nready == |read| + |write| + |except|
    ensures nready == 0 <==> forall i: nat :: i < |seen| && i < want.maxfdp1 ==> !want.ScanReady(i, seen[i])
  {
    nready, read, write, except := 0, {}, {}, {};
    var i := 0;
    while i < want.maxfdp1
      invariant 0 <= i <= want.maxfdp1
      invariant read == Chosen(want.read, Readable(seen), i)
      invariant write == Chosen(want.write, Writable(seen), i)
      invariant except == Chosen(want.except, Failed(seen), i)
      invariant nready == |read| + |write| + |except|
    {
      hide Chosen, Readable, Writable, Failed;
      ChosenStep(want.read, Readable(seen), i);
      ChosenStep(want.write, Writable(seen), i);
      ChosenStep(want.except, Failed(seen), i);
      var sock := if i < |seen| then seen[i] else Sock(0, false, false, false, 0);
      if i in want.read && (sock.lastdata || sock.rcvevent > 0) {
        read := read + {i};
        nready := nready + 1;
      }
      assert read == Chosen(want.read, Readable(seen), i + 1);
      if i in want.write && sock.sendevent {
        write := write + {i};
        nready := nready + 1;
      }
      assert write == Chosen(want.write, Writable(seen), i + 1);
      if i in want.except && sock.errevent {
        except := except + {i};
        nready := nready + 1;
      }
      i := i + 1;
    }
    NoneChosen(want, seen);
  }
}
