/**
 * The resolver's table in lwip/core/dns.c: requests, the timer and responses,
 * and the promise that the callback of an accepted request is called once.
 */
module DnsTable {
  import opened Bytes
  import opened DnsEntry

  const MAX_NAME_LENGTH: nat := 256  // DNS_MAX_NAME_LENGTH
  const MSG_SIZE: nat := 512         // DNS_MSG_SIZE
  const MIN_SIZE: nat := 26          // header, query and one answer
  const RRTYPE_A: nat := 1
  const RRCLASS_IN: nat := 1

  /** A resource record behind its name; `address` are the four bytes that follow it. */
  datatype Answer = Answer(kind: nat, cls: nat, ttl: uint32, len: nat, address: Ip)

  /** A response, its fields in host order; `nameMatches` is the outcome of `dns_compare_name`. */
  datatype Message = Message(
    length: nat, id: nat, flags1: byte, flags2: byte, numquestions: nat, nameMatches: bool, answers: seq<Answer>)

  predicate IsAddress(a: Answer) { a.kind == RRTYPE_A && a.cls == RRCLASS_IN && a.len == 4 }

  /** The first answer that holds an address. */
  function FirstAddress(answers: seq<Answer>): Option<Answer> {
    if answers == [] then None
    else if IsAddress(answers[0]) then Some(answers[0])
    else FirstAddress(answers[1..])
  }

  /** The response asks for nothing else, reports success and answers the question of the entry. */
  predicate Usable(m: Message) {
    m.flags1 >= 0x80 && m.flags2 % 0x10 == 0 && m.numquestions == 1 && m.nameMatches
  }

  /** What a response with the number of an entry does to it. */
  function Receive(e: Entry, m: Message): Effect {
    if e.state != Asking then Effect(e, None, None)
    else
      var done := e.(state := Done, err := m.flags2 % 0x10);
      match if Usable(m) then FirstAddress(m.answers) else None
      case Some(a) =>
        Effect(done.(ttl := if a.ttl > MAX_TTL then MAX_TTL else a.ttl, ipaddr := a.address), None,
               Tell(e, Some(a.address)))
      case None => Effect(done.(state := Unused, found := None), None, Tell(e, None))
  }

  /**
   * What a response does, on its fields: an asking entry gets an address exactly
   * if the response bit is set, no error is reported, there is one question for
   * the name asked and some answer is an Internet address of four bytes. The
   * first of those counts; its time to live is cut at a week. Otherwise the entry
   * is given up. In both cases the callback is called, with the address or none.
   */
  lemma ReceiveExactly(e: Entry, m: Message, j: nat)
    requires j <= |m.answers|
    requires forall i :: 0 <= i < j ==> !(m.answers[i].kind == 1 && m.answers[i].cls == 1 && m.answers[i].len == 4)
    requires j < |m.answers| ==> m.answers[j].kind == 1 && m.answers[j].cls == 1 && m.answers[j].len == 4
    ensures var r := Receive(e, m);
            if e.state != Asking then r == Effect(e, None, None)
            else if m.flags1 >= 0x80 && m.flags2 % 0x10 == 0 && m.numquestions == 1 && m.nameMatches && j < |m.answers|
            then r.sent == None
                 && r.entry == e.(state := Done, err := 0, ipaddr := m.answers[j].address,
                                  ttl := if m.answers[j].ttl > 604800 then 604800 else m.answers[j].ttl)
                 && r.called == if e.found.Some? then Some(Call(e.found.value, Some(m.answers[j].address))) else None
            else r.sent == None
                 && r.entry == e.(state := Unused, err := m.flags2 % 0x10, found := None)
                 && r.called == if e.found.Some? then Some(Call(e.found.value, None)) else None
  {
    FirstAddressAt(m.answers, j);
  }

  lemma {:induction false} FirstAddressAt(answers: seq<Answer>, j: nat)
    requires j <= |answers| && forall i :: 0 <= i < j ==> !IsAddress(answers[i])
    requires j < |answers| ==> IsAddress(answers[j])
    ensures FirstAddress(answers) == if j < |answers| then Some(answers[j]) else None
    decreases j
  {
    if j > 0 {
      FirstAddressAt(answers[1..], j - 1);
    }
  }

  // ---------------------------------------------------------------- accounting

  predicate Called(calls: seq<Call>, id: nat) { exists c :: 0 <= c < |calls| && calls[c].request == id }

  predicate Pending(table: seq<Entry>, id: nat) {
    exists i :: 0 <= i < |table| && table[i].state == Asking && table[i].found == Some(id)
  }

  /**
   * The requests with a callback are those below `next`. Each is either pending,
   * in exactly one entry, or has been called back, exactly once.
   */
  ghost predicate Accounted(table: seq<Entry>, calls: seq<Call>, next: nat) {
    && (forall i :: 0 <= i < |table| ==> table[i].state != New)
    && (forall i :: 0 <= i < |table| && table[i].state == Unused ==> table[i].found == None)
    && (forall i :: 0 <= i < |table| && table[i].found.Some? ==> table[i].found.value < next)
    && (forall i, j :: 0 <= i < j < |table| && table[i].found.Some? ==> table[i].found != table[j].found)
    && (forall i :: 0 <= i < |table| && table[i].found.Some? ==>
          (table[i].state == Done <==> Called(calls, table[i].found.value)))
    && (forall c :: 0 <= c < |calls| ==> calls[c].request < next)
    && (forall c, d :: 0 <= c < d < |calls| ==> calls[c].request != calls[d].request)
    && (forall id: nat :: id < next ==> Called(calls, id) || Pending(table, id))
  }

  function Calls(c: Option<Call>): seq<Call> { if c.Some? then [c.value] else [] }

  /** An entry keeps its request, gives up a completed one, or completes it and tells it. */
  predicate Fair(e: Entry, r: Effect) {
    if e.state == Asking && r.entry.state != Asking then
      && (r.called.Some? <==> e.found.Some?) && (r.called.Some? ==> r.called.value.request == e.found.value)
      && if r.entry.state == Done then r.entry.found == e.found else r.entry.state == Unused && r.entry.found == None
    else
      r.called == None && ((r.entry.state == e.state && r.entry.found == e.found)
                           || (e.state == Done && r.entry.state == Unused && r.entry.found == None))
  }

  lemma CheckIsFair(e: Entry, servers: seq<Ip>)
    requires e.state != New
    ensures Fair(e, Check(e, servers))
  {}

  lemma ReceiveIsFair(e: Entry, m: Message)
    ensures Fair(e, Receive(e, m))
  {}

  lemma CalledAfter(calls: seq<Call>, called: Option<Call>, id: nat)
    ensures Called(calls + Calls(called), id) <==> Called(calls, id) || (called.Some? && called.value.request == id)
  {
    var calls' := calls + Calls(called);
    if Called(calls, id) {
      var c :| 0 <= c < |calls| && calls[c].request == id;
      assert calls'[c].request == id;
    }
    if called.Some? && called.value.request == id {
      assert calls'[|calls|].request == id;
    }
  }

  // A request that was pending and is not told stays pending.
  lemma PendingAfter(table: seq<Entry>, i: nat, e: Entry, id: nat)
    requires i < |table| && Pending(table, id)
    requires table[i].found == Some(id) ==> e.state == Asking && e.found == Some(id)
    ensures Pending(table[i := e], id)
  {
    var k :| 0 <= k < |table| && table[k].state == Asking && table[k].found == Some(id);
    assert table[i := e][k].state == Asking && table[i := e][k].found == Some(id);
  }

  lemma FairKeeps(table: seq<Entry>, calls: seq<Call>, next: nat, i: nat, r: Effect)
    requires Accounted(table, calls, next) && i < |table| && Fair(table[i], r)
    ensures Accounted(table[i := r.entry], calls + Calls(r.called), next)
  {
    hide Called, Pending;
    var table', calls' := table[i := r.entry], calls + Calls(r.called);
    forall id: nat
      ensures Called(calls', id) <==> Called(calls, id) || (r.called.Some? && r.called.value.request == id)
    {
      CalledAfter(calls, r.called, id);
    }
    NotCalledTwice(table, calls, next, i, r);
    forall id: nat | id < next ensures Called(calls', id) || Pending(table', id) {
      if !Called(calls', id) {
        assert Pending(table, id);
        PendingAfter(table, i, r.entry, id);
      }
    }
  }

  lemma NotCalledTwice(table: seq<Entry>, calls: seq<Call>, next: nat, i: nat, r: Effect)
    requires Accounted(table, calls, next) && i < |table| && Fair(table[i], r)
    ensures var calls' := calls + Calls(r.called);
            && (forall c :: 0 <= c < |calls'| ==> calls'[c].request < next)
            && (forall c, d :: 0 <= c < d < |calls'| ==> calls'[c].request != calls'[d].request)
  {
    hide Pending;
  }

  /** A new request takes an entry that is unused or completed. */
  lemma AcceptKeeps(table: seq<Entry>, calls: seq<Call>, next: nat, i: nat, e: Entry)
    requires Accounted(table, calls, next) && i < |table| && (table[i].state == Unused || table[i].state == Done)
    requires e.state == Asking && (e.found == None || e.found == Some(next))
    ensures Accounted(table[i := e], calls, if e.found.Some? then next + 1 else next)
  {
    var table' := table[i := e];
    assert !Called(calls, next);
    forall id: nat | id < next && !Called(calls, id) ensures Pending(table', id) {
      var k :| 0 <= k < |table| && table[k].state == Asking && table[k].found == Some(id);
      assert table'[k].state == Asking && table'[k].found == Some(id);
    }
    if e.found.Some? {
      assert table'[i].found == Some(next);
    }
  }

  /** How often the callback of a request has been called. */
  function TimesCalled(calls: seq<Call>, id: nat): nat {
    if calls == [] then 0 else (if calls[0].request == id then 1 else 0) + TimesCalled(calls[1..], id)
  }

  lemma {:induction false} CalledIsPositive(calls: seq<Call>, id: nat)
    ensures TimesCalled(calls, id) > 0 <==> Called(calls, id)
    decreases |calls|
  {
    if calls != [] {
      CalledIsPositive(calls[1..], id);
      if Called(calls[1..], id) {
        var c :| 0 <= c < |calls[1..]| && calls[1..][c].request == id;
        assert calls[c + 1].request == id;
      }
      if Called(calls, id) && calls[0].request != id {
        var c :| 0 <= c < |calls| && calls[c].request == id;
        assert calls[1..][c - 1].request == id;
      }
    }
  }

  lemma {:induction false} CalledAtMostOnce(calls: seq<Call>, id: nat)
    requires forall c, d :: 0 <= c < d < |calls| ==> calls[c].request != calls[d].request
    ensures TimesCalled(calls, id) <= 1
    decreases |calls|
  {
    if calls != [] {
      CalledAtMostOnce(calls[1..], id);
      CalledIsPositive(calls[1..], id);
      forall c | 0 <= c < |calls[1..]| ensures calls[1..][c].request != calls[0].request {
        assert calls[1..][c] == calls[c + 1];
      }
    }
  }

  /** Every accepted request has been called back once, or is still being asked for and has not been. */
  lemma CalledExactlyOnce(table: seq<Entry>, calls: seq<Call>, next: nat, id: nat)
    requires Accounted(table, calls, next) && id < next
    ensures TimesCalled(calls, id) == if Pending(table, id) then 0 else 1
  {
    CalledIsPositive(calls, id);
    CalledAtMostOnce(calls, id);
  }

  // ---------------------------------------------------------------- the resolver

  datatype Query = Query(id: nat, server: uint8)

  function Sent(id: nat, s: Option<uint8>): seq<Query> { if s.Some? then [Query(id, s.value)] else [] }

  datatype Err = InProgress | Memory

  class Resolver {
    const table: array<Entry>     // dns_table
    const servers: seq<Ip>        // dns_servers
    var seqno: uint8              // dns_seqno
    var calls: seq<Call>          // the calls of callbacks, in order
    var queries: seq<Query>       // the queries sent, in order
    var next: nat                 // the number of the next request with a callback

    ghost predicate Valid()
      reads this, table
    {
      && 1 <= table.Length < 0x100 && |servers| < 0x100
      && Accounted(table[..], calls, next)
      && forall i :: 0 <= i < table.Length && table[i].state == Asking ==> Waiting(table[i], servers)
    }

    constructor (size: nat, servers: seq<Ip>)
      requires 1 <= size < 0x100 && |servers| < 0x100
      ensures Valid() && fresh(table) && table.Length == size && this.servers == servers
      ensures calls == [] && queries == [] && next == 0 && seqno == 0
      ensures forall i :: 0 <= i < size ==> table[i].state == Unused
    {
      this.servers := servers;
      table := new Entry[size](_ => Entry(Unused, 0, 0, 0, 0, 0, 0, [], ANY, None));
      seqno, calls, queries, next := 0, [], [], 0;
    }

    // An entry is replaced, a query sent and a callback called.
    method Perform(i: nat, r: Effect)
      requires Valid() && i < table.Length && Fair(table[i], r)
      requires r.entry.state == Asking ==> Waiting(r.entry, servers)
      modifies table, this`calls, this`queries
      ensures Valid()
      ensures table[..] == old(table[..])[i := r.entry] && calls == old(calls) + Calls(r.called)
      ensures queries == old(queries) + Sent(i, r.sent)
    {
      hide Accounted, Fair, Waiting;
      FairKeeps(table[..], calls, next, i, r);
      ghost var was := table[..];
      table[i] := r.entry;
      assert table[..] == was[i := r.entry];
      calls := calls + Calls(r.called);
      queries := queries + Sent(i, r.sent);
    }

    /** `dns_check_entry` on the fields of an entry. */
    method Examine(entry: Entry) returns (r: Effect)
      ensures r == Check(entry, servers)
    {
      var e, sent, called := entry, None, None;
      match e.state {
        case New =>
          e := e.(state := Asking, numdns := 0, tmr := 1, retries := 0);
          sent := Some(e.numdns);
        case Asking =>
          e := e.(tmr := Dec8(e.tmr));
          if e.tmr == 0 {
            e := e.(retries := Inc8(e.retries));
            if e.retries == MAX_RETRIES {
              if e.numdns + 1 < |servers| && servers[e.numdns + 1] != ANY {
                // change of server
                e := e.(numdns := Inc8(e.numdns));
                e := e.(tmr := 1, retries := 0);
              } else {
                if e.found.Some? {
                  called := Some(Call(e.found.value, None));
                }
                e := e.(state := Unused, found := None);
              }
            } else {
              // wait longer for the next retry
              e := e.(tmr := e.retries);
              sent := Some(e.numdns);
            }
          }
        case Done =>
          e := e.(ttl := Dec32(e.ttl));
          if e.ttl == 0 {
            e := e.(state := Unused, found := None);
          }
        case Unused =>
      }
      r := Effect(e, sent, called);
    }

    /** `dns_check_entry` on an entry of the table. */
    method CheckEntry(i: nat)
      requires Valid() && i < table.Length
      modifies table, this`calls, this`queries
      ensures Valid()
      ensures var r := Check(old(table[i]), servers);
              && table[..] == old(table[..])[i := r.entry]
              && calls == old(calls) + Calls(r.called) && queries == old(queries) + Sent(i, r.sent)
    {
      hide Fair, Check, Waiting;
      NotNew(table[..], calls, next, i);
      CheckIsFair(table[i], servers);
      CheckWaits(table[i], servers);
      var r := Examine(table[i]);
      Perform(i, r);
    }

    /** `dns_check_entries`, the timer: every entry is checked once, in the order of the table. */
    method CheckEntries()
      requires Valid()
      modifies table, this`calls, this`queries
      ensures Valid()
      ensures forall i :: 0 <= i < table.Length ==> table[i] == Check(old(table[i]), servers).entry
      ensures calls == old(calls) + RoundCalls(old(table[..]), servers)
      ensures queries == old(queries) + RoundQueries(old(table[..]), servers)
    {
      hide Accounted, Check, Waiting, Calls, Sent;
      var i := 0;
      assert table[..][..0] == [];
      while i < table.Length
        invariant i <= table.Length && Valid()
        invariant forall k :: 0 <= k < i ==> table[k] == Check(old(table[k]), servers).entry
        invariant forall k :: i <= k < table.Length ==> table[k] == old(table[k])
        invariant calls == old(calls) + RoundCalls(old(table[..])[..i], servers)
        invariant queries == old(queries) + RoundQueries(old(table[..])[..i], servers)
      {
        ghost var was := table[..];
        CheckEntry(i);
        assert forall k :: 0 <= k < table.Length && k != i ==> table[k] == table[..][k] == was[k];
        RoundGrows(old(table[..]), servers, i, old(calls), old(queries));
        i := i + 1;
      }
      assert old(table[..])[..i] == old(table[..]);
    }

    /** `dns_recv`. */
    method Recv(m: Message)
      requires Valid()
      modifies table, this`calls, this`queries
      ensures Valid() && queries == old(queries)
      ensures if 26 <= m.length <= 512 && m.id < table.Length
              then var r := Receive(old(table[m.id]), m);
                   table[..] == old(table[..])[m.id := r.entry] && calls == old(calls) + Calls(r.called)
              else table[..] == old(table[..]) && calls == old(calls)
    {
      hide Accounted, Fair, Waiting;
      if m.length > MSG_SIZE || m.length < MIN_SIZE || m.id >= table.Length {
        return;
      }
      ReceiveIsFair(table[m.id], m);
      var e := table[m.id];
      if e.state != Asking {
        assert table[..] == old(table[..])[m.id := e];
        return;
      }
      var done := e.(state := Done, err := m.flags2 % 0x10);
      if m.flags1 >= 0x80 && done.err == 0 && m.numquestions == 1 && m.nameMatches {
        var k := 0;
        while k < |m.answers|
          invariant k <= |m.answers| && FirstAddress(m.answers[k..]) == FirstAddress(m.answers)
        {
          var ans := m.answers[k];
          if ans.kind == RRTYPE_A && ans.cls == RRCLASS_IN && ans.len == 4 {
            var ttl := if ans.ttl > MAX_TTL then MAX_TTL else ans.ttl;
            Perform(m.id, Effect(done.(ttl := ttl, ipaddr := ans.address), None, Tell(done, Some(ans.address))));
            return;
          }
          k := k + 1;
        }
      }
      // responseerr
      Perform(m.id, Effect(done.(state := Unused, found := None), None, Tell(done, None)));
    }

    /** How long ago the entry was taken, as the source computes it. */
    function Age(i: nat): int
      reads this, table
      requires i < table.Length
    {
      seqno - table[i].seqno
    }

    /** Entry i is the first unused one; or it is completed, none is unused, and no completed one is older. */
    ghost predicate NextToTake(i: nat)
      reads this, table
      requires i < table.Length
    {
      || (table[i].state == Unused && forall j :: 0 <= j < i ==> table[j].state != Unused)
      || (table[i].state == Done && forall j :: 0 <= j < table.Length ==>
            table[j].state != Unused && (table[j].state == Done ==> Age(j) <= Age(i) || Age(j) <= 0))
    }

    /**
     * The search in `dns_enqueue`: the first unused entry, else the completed
     * one with the greatest age. None is found exactly if no entry is unused and
     * no completed one has a positive age, the first entry, which then is taken
     * for the oldest, not being completed either.
     */
    method Pick() returns (r: Option<nat>)
      requires 1 <= table.Length < 0x100
      ensures r.Some? ==> r.value < table.Length && NextToTake(r.value)
      ensures r.None? <==> table[0].state != Done && forall j :: 0 <= j < table.Length ==>
                table[j].state != Unused && (table[j].state == Done ==> Age(j) <= 0)
    {
      var lseq, lseqi := 0, 0;
      var i := 0;
      while i < table.Length
        invariant i <= table.Length && 0 <= lseq < 0x100 && lseqi < table.Length
        invariant forall j :: 0 <= j < i ==> table[j].state != Unused && (table[j].state == Done ==> Age(j) <= lseq)
        invariant if lseq == 0 then lseqi == 0 else table[lseqi].state == Done && Age(lseqi) == lseq
      {
        if table[i].state == Unused {
          return Some(i);
        }
        if table[i].state == Done {
          if seqno - table[i].seqno > lseq {  // computed as int
            lseq, lseqi := (seqno - table[i].seqno) % 0x100, i;
          }
        }
        i := i + 1;
      }
      if table[lseqi].state != Done {
        return None;
      }
      return Some(lseqi);
    }

    /** `dns_enqueue`: an accepted request takes an unused or completed entry and sends its first query. */
    method Enqueue(name: bytes, callback: bool) returns (err: Err)
      requires Valid()
      modifies this, table
      ensures Valid()
      ensures calls == old(calls)
      ensures err == Memory ==> table[..] == old(table[..]) && next == old(next) && queries == old(queries)
      ensures err == Memory <==> old(table[0]).state != Done && forall j :: 0 <= j < table.Length ==>
                old(table[j]).state != Unused && (old(table[j]).state == Done ==> old(Age(j)) <= 0)
      ensures err == InProgress ==>
                exists i :: 0 <= i < table.Length && old(NextToTake(i))
                  && table[..] == old(table[..])[i := table[i]] && queries == old(queries) + [Query(i, 0)]
                  && table[i] == old(table[i]).(
                       state := Asking, numdns := 0, tmr := 1, retries := 0, seqno := old(seqno),
                       found := if callback then Some(old(next)) else None,
                       name := name[..if |name| < 256 then |name| else 255])
      ensures seqno == if err == InProgress then (old(seqno) + 1) % 0x100 else old(seqno)
      ensures next == old(next) + if err == InProgress && callback then 1 else 0
    {
      hide Accounted, Waiting;
      var at := Pick();
      if at.None? {
        return Memory;
      }
      var i := at.value;
      var namelen := if |name| < MAX_NAME_LENGTH - 1 then |name| else MAX_NAME_LENGTH - 1;
      var e := table[i].(state := New, seqno := seqno, found := if callback then Some(next) else None,
                         name := name[..namelen]);
      var r := Examine(e);
      AcceptKeeps(table[..], calls, next, i, r.entry);
      FirstWaits(e, servers);
      ghost var was := table[..];
      seqno := (seqno + 1) % 0x100;
      next := if callback then next + 1 else next;
      table[i] := r.entry;
      assert table[..] == was[i := r.entry];
      queries := queries + Sent(i, r.sent);
      err := InProgress;
    }
  }

  lemma NotNew(table: seq<Entry>, calls: seq<Call>, next: nat, i: nat)
    requires Accounted(table, calls, next) && i < |table|
    ensures table[i].state != New
  {}

  lemma CheckWaits(e: Entry, servers: seq<Ip>)
    requires e.state == Asking ==> Waiting(e, servers)
    requires e.state != New
    ensures Check(e, servers).entry.state == Asking ==> Waiting(Check(e, servers).entry, servers)
  {}

  lemma FirstWaits(e: Entry, servers: seq<Ip>)
    requires e.state == New && |servers| < 0x100
    ensures Waiting(Check(e, servers).entry, servers)
  {}

  /** The callbacks a round of checks calls, in the order of the table. */
  function RoundCalls(table: seq<Entry>, servers: seq<Ip>): seq<Call> {
    if table == [] then []
    else RoundCalls(table[..|table| - 1], servers) + Calls(Check(table[|table| - 1], servers).called)
  }

  /** The queries it sends, in the order of the table. */
  function RoundQueries(table: seq<Entry>, servers: seq<Ip>): seq<Query> {
    if table == [] then []
    else RoundQueries(table[..|table| - 1], servers) + Sent(|table| - 1, Check(table[|table| - 1], servers).sent)
  }

  lemma RoundGrows(table: seq<Entry>, servers: seq<Ip>, i: nat, calls: seq<Call>, queries: seq<Query>)
    requires i < |table|
    ensures calls + RoundCalls(table[..i + 1], servers) ==
            calls + RoundCalls(table[..i], servers) + Calls(Check(table[i], servers).called)
    ensures queries + RoundQueries(table[..i + 1], servers) ==
            queries + RoundQueries(table[..i], servers) + Sent(i, Check(table[i], servers).sent)
  {
    hide Check;
    assert table[..i + 1][..i] == table[..i];
  }
}
