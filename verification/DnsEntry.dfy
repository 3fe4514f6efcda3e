/**
 * One entry of the resolver's table in lwip/core/dns.c: what a check of it
 * does, and exactly when an unanswered request is given up.
 */
module DnsEntry {
  import opened Bytes

  const MAX_RETRIES: nat := 4   // DNS_MAX_RETRIES
  const MAX_TTL: nat := 604800  // DNS_MAX_TTL

  type uint8 = byte

  type Ip = uint32

  const ANY: Ip := 0            // IP_ADDR_ANY: no server configured

  datatype Status = Unused | New | Asking | Done

  /** `struct dns_table_entry`; `found` is the number of the request, if it came with a callback. */
  datatype Entry = Entry(
    state: Status, numdns: uint8, tmr: uint8, retries: uint8, seqno: uint8, err: uint8, ttl: uint32,
    name: bytes, ipaddr: Ip, found: Option<nat>)

  /** A call of the callback of a request: with an address, or with NULL. */
  datatype Call = Call(request: nat, addr: Option<Ip>)

  /** What a check or a response does: the new entry, the server a query went to, the callback called. */
  datatype Effect = Effect(entry: Entry, sent: Option<uint8>, called: Option<Call>)

  function Dec8(x: uint8): uint8 { (x - 1) % 0x100 }

  function Inc8(x: uint8): uint8 { (x + 1) % 0x100 }

  function Dec32(x: uint32): uint32 { (x - 1) % UINT32 }

  function Tell(e: Entry, addr: Option<Ip>): Option<Call> {
    match e.found case None => None case Some(id) => Some(Call(id, addr))
  }

  /** Whether there is another server behind server n. */
  predicate HasNext(servers: seq<Ip>, n: nat) { n + 1 < |servers| && servers[n + 1] != ANY }

  /** `dns_check_entry`. */
  function Check(e: Entry, servers: seq<Ip>): Effect {
    match e.state
    case New => Effect(e.(state := Asking, numdns := 0, tmr := 1, retries := 0), Some(0), None)
    case Asking =>
      var e1 := e.(tmr := Dec8(e.tmr));
      if e1.tmr != 0 then Effect(e1, None, None)
      else
        var e2 := e1.(retries := Inc8(e.retries));
        if e2.retries == MAX_RETRIES then
          if HasNext(servers, e.numdns)
          then Effect(e2.(numdns := Inc8(e.numdns), tmr := 1, retries := 0), None, None)
          else Effect(e2.(state := Unused, found := None), None, Tell(e, None))
        else Effect(e2.(tmr := e2.retries), Some(e.numdns), None)
    case Done =>
      var e1 := e.(ttl := Dec32(e.ttl));
      Effect(if e1.ttl == 0 then e1.(state := Unused, found := None) else e1, None, None)
    case Unused => Effect(e, None, None)
  }

  // ---------------------------------------------------------------- the deadline

  /** The sum of the numbers from a up to but not including b: the waits between retries. */
  function Sum(a: nat, b: nat): nat
    decreases b - a
  {
    if a >= b then 0 else a + Sum(a + 1, b)
  }

  lemma {:induction false} SumClosed(a: nat, b: nat)
    requires a <= b
    ensures 2 * Sum(a, b) == b * (b - 1) - a * (a - 1)
    decreases b - a
  {
    if a < b {
      SumClosed(a + 1, b);
      assert (a + 1) * a == a * (a - 1) + 2 * a;
    }
  }

  /** How many servers are asked in a row, from server n on. */
  function Row(servers: seq<Ip>, n: nat): (r: nat)
    ensures r >= 1
    decreases |servers| - n
  {
    if HasNext(servers, n) then 1 + Row(servers, n + 1) else 1
  }

  /** The checks one server takes: 1 for the first query, then waits of 1, 2, ... checks. */
  const PERIOD: nat := 1 + Sum(1, MAX_RETRIES)

  /** An entry in the state between two checks. */
  predicate Waiting(e: Entry, servers: seq<Ip>) {
    e.state == Asking && e.tmr >= 1 && e.retries < MAX_RETRIES && |servers| < 0x100
    && (e.numdns < |servers| || e.numdns == 0)
  }

  /** The checks left before the request is given up. */
  function ChecksLeft(e: Entry, servers: seq<Ip>): nat {
    e.tmr + Sum(e.retries + 1, MAX_RETRIES) + PERIOD * (Row(servers, e.numdns) - 1)
  }

  /** The queries still to be sent before that. */
  function QueriesLeft(e: Entry, servers: seq<Ip>): nat
    requires e.retries < MAX_RETRIES
  {
    MAX_RETRIES - 1 - e.retries + (MAX_RETRIES - 1) * (Row(servers, e.numdns) - 1)
  }

  /** One check of a waiting entry: one check less is left, and the last one gives up. */
  lemma CheckCounts(e: Entry, servers: seq<Ip>)
    requires Waiting(e, servers)
    ensures ChecksLeft(e, servers) >= 1
    ensures var r := Check(e, servers);
            if ChecksLeft(e, servers) == 1
            then r.entry.state == Unused && r.called == Tell(e, None) && r.sent == None && QueriesLeft(e, servers) == 0
            else Waiting(r.entry, servers) && r.called == None && r.entry.found == e.found
                 && ChecksLeft(r.entry, servers) == ChecksLeft(e, servers) - 1
                 && QueriesLeft(r.entry, servers) + (if r.sent.Some? then 1 else 0) == QueriesLeft(e, servers)
  {
    var r := Check(e, servers);
    if e.tmr == 1 && e.retries + 1 == MAX_RETRIES && HasNext(servers, e.numdns) {
      assert Row(servers, e.numdns) == 1 + Row(servers, e.numdns + 1);
    }
  }

  /** n checks in a row, nothing else happening. */
  function Checks(e: Entry, servers: seq<Ip>, n: nat): Entry
    decreases n
  {
    if n == 0 then e else Checks(Check(e, servers).entry, servers, n - 1)
  }

  /** The queries sent in the course of n checks. */
  function Queries(e: Entry, servers: seq<Ip>, n: nat): seq<uint8>
    decreases n
  {
    if n == 0 then []
    else (match Check(e, servers).sent case None => [] case Some(s) => [s])
         + Queries(Check(e, servers).entry, servers, n - 1)
  }

  lemma {:induction false} GivesUpAfter(e: Entry, servers: seq<Ip>, n: nat)
    requires Waiting(e, servers) && n <= ChecksLeft(e, servers)
    ensures Checks(e, servers, n).state == if n < ChecksLeft(e, servers) then Asking else Unused
    ensures n == ChecksLeft(e, servers) ==> |Queries(e, servers, n)| == QueriesLeft(e, servers)
    decreases n
  {
    hide Check, ChecksLeft, QueriesLeft, Waiting;
    if n > 0 {
      CheckCounts(e, servers);
      var e' := Check(e, servers).entry;
      if n > 1 {
        GivesUpAfter(e', servers, n - 1);
      }
      if n == 1 {
        assert Checks(e', servers, 0) == e' && Queries(e', servers, 0) == [];
        if ChecksLeft(e, servers) > 1 {
          StillAsking(e', servers);
        }
      }
    } else {
      CheckCounts(e, servers);
      StillAsking(e, servers);
    }
  }

  lemma StillAsking(e: Entry, servers: seq<Ip>)
    requires Waiting(e, servers)
    ensures e.state == Asking && e.retries < MAX_RETRIES
  {}

  /** The servers the queries still to be sent go to: the rest of this one's, then each later one's. */
  function Plan(e: Entry, servers: seq<Ip>): seq<nat>
    requires e.retries < MAX_RETRIES
  {
    Times(e.numdns, MAX_RETRIES - 1 - e.retries) + Rounds(e.numdns + 1, Row(servers, e.numdns) - 1)
  }

  function Times(x: nat, n: nat): (r: seq<nat>)
    ensures |r| == n && forall i :: 0 <= i < n ==> r[i] == x
    decreases n
  {
    if n == 0 then [] else [x] + Times(x, n - 1)
  }

  /** All queries of k servers from server n on. */
  function Rounds(n: nat, k: nat): seq<nat>
    decreases k
  {
    if k == 0 then [] else Times(n, MAX_RETRIES - 1) + Rounds(n + 1, k - 1)
  }

  lemma {:induction false} RoundsAt(n: nat, k: nat, i: nat)
    requires i < (MAX_RETRIES - 1) * k
    ensures |Rounds(n, k)| == (MAX_RETRIES - 1) * k && Rounds(n, k)[i] == n + i / (MAX_RETRIES - 1)
    decreases k
  {
    if i < MAX_RETRIES - 1 {
      if k > 1 {
        RoundsAt(n + 1, k - 1, 0);
      }
    } else {
      RoundsAt(n + 1, k - 1, i - (MAX_RETRIES - 1));
    }
  }

  // A check sends the next planned query, or none.
  lemma CheckFollowsPlan(e: Entry, servers: seq<Ip>)
    requires Waiting(e, servers)
    ensures var r := Check(e, servers);
            && (r.entry.state == Asking ==> r.entry.retries < MAX_RETRIES)
            && Plan(e, servers) == (match r.sent case None => [] case Some(n) => [n as nat])
                                   + (if r.entry.state == Asking then Plan(r.entry, servers) else [])
  {
    hide Times, Rounds, Row;
    var r := Check(e, servers);
    var left := MAX_RETRIES - 1 - e.retries;
    if e.tmr == 1 && left == 0 {
      TimesStep(e.numdns, left);
      RowStep(servers, e.numdns);
    } else if e.tmr == 1 {
      TimesStep(e.numdns, left);
      assert Plan(r.entry, servers) == Times(e.numdns, left - 1) + Rounds(e.numdns + 1, Row(servers, e.numdns) - 1);
    } else {
      assert Plan(r.entry, servers) == Plan(e, servers);
    }
  }

  lemma TimesStep(x: nat, n: nat)
    ensures Times(x, n) == if n == 0 then [] else [x] + Times(x, n - 1)
  {}

  lemma RowStep(servers: seq<Ip>, n: nat)
    ensures Row(servers, n) == if HasNext(servers, n) then 1 + Row(servers, n + 1) else 1
    ensures Rounds(n + 1, Row(servers, n) - 1) ==
            if HasNext(servers, n) then Times(n + 1, MAX_RETRIES - 1) + Rounds(n + 2, Row(servers, n + 1) - 1) else []
  {}

  lemma {:induction false} QueriesFollowPlan(e: Entry, servers: seq<Ip>, n: nat)
    requires Waiting(e, servers) && n == ChecksLeft(e, servers)
    ensures |Queries(e, servers, n)| == |Plan(e, servers)|
    ensures forall i :: 0 <= i < |Plan(e, servers)| ==> Queries(e, servers, n)[i] == Plan(e, servers)[i]
    decreases n
  {
    hide Check, ChecksLeft, QueriesLeft, Plan, Waiting;
    CheckCounts(e, servers);
    CheckFollowsPlan(e, servers);
    var e' := Check(e, servers).entry;
    if n == 1 {
      assert Queries(e', servers, 0) == [];
    } else {
      StillAsking(e', servers);
      QueriesFollowPlan(e', servers, n - 1);
    }
  }

  /** `Row` is the length of the longest row of configured servers behind server n, and n itself. */
  lemma {:induction false} RowIs(servers: seq<Ip>, n: nat, k: nat)
    requires k == 1 || (k > 1 && n + k <= |servers|)
    requires forall j :: n < j < n + k && j < |servers| ==> servers[j] != 0
    requires n + k >= |servers| || servers[n + k] == 0
    ensures Row(servers, n) == k
    decreases k
  {
    if k > 1 {
      RowIs(servers, n + 1, k - 1);
    }
  }

  /**
   * The deadline. Servers 1 to k - 1 are configured, and there is no server k:
   * a new request leaves the state ASKING at exactly the 7k-th check after the
   * one that sent its first query, and never before, 7 being 1 + R * (R - 1) / 2
   * for R = 4 retries; it has then sent three more queries to each of the servers
   * 0 to k - 1, in this order, and none to another.
   */
  lemma Deadline(e: Entry, servers: seq<Ip>, k: nat, n: nat)
    requires e.state == New && |servers| < 0x100
    requires k == 1 || 1 < k <= |servers|
    requires forall j :: 1 <= j < k && j < |servers| ==> servers[j] != 0
    requires k >= |servers| || servers[k] == 0
    ensures 7 == 1 + MAX_RETRIES * (MAX_RETRIES - 1) / 2
    ensures var first := Check(e, servers);
            && first.sent == Some(0) && first.called == None && first.entry.state == Asking
            && (n < 7 * k ==> Checks(first.entry, servers, n).state == Asking)
            && (n == 7 * k ==> Checks(first.entry, servers, n).state == Unused)
            && (n == 7 * k ==> |Queries(first.entry, servers, n)| == 3 * k)
            && (n == 7 * k ==> forall i :: 0 <= i < 3 * k ==> Queries(first.entry, servers, n)[i] == i / 3)
  {
    hide Checks, Queries, Row, Sum, Rounds;
    var e1 := Check(e, servers).entry;
    RowIs(servers, 0, k);
    SumClosed(1, MAX_RETRIES);
    assert ChecksLeft(e1, servers) == PERIOD + PERIOD * (k - 1) == k * PERIOD;
    assert QueriesLeft(e1, servers) == 3 * k;
    if n <= k * PERIOD {
      GivesUpAfter(e1, servers, n);
    }
    if n == k * PERIOD {
      QueriesFollowPlan(e1, servers, n);
      PlanOfNew(e1, servers, k);
    }
  }

  lemma PlanOfNew(e: Entry, servers: seq<Ip>, k: nat)
    requires e.numdns == 0 && e.retries == 0 && Row(servers, 0) == k && k >= 1
    ensures |Plan(e, servers)| == 3 * k && forall i :: 0 <= i < 3 * k ==> Plan(e, servers)[i] == i / 3
  {
    assert Plan(e, servers) == Rounds(0, k);
    forall i | 0 <= i < 3 * k ensures |Plan(e, servers)| == 3 * k && Plan(e, servers)[i] == i / 3 {
      RoundsAt(0, k, i);
    }
    RoundsAt(0, k, 0);
  }

  /** The retries behind a request, and the wait before the next, n checks into a server. */
  function Retries(n: nat): uint8 { if n < 1 then 0 else if n < 2 then 1 else if n < 4 then 2 else 3 }

  function Wait(n: nat): uint8
    requires n < 7
  {
    if n < 2 then 1 else if n < 4 then 4 - n else 7 - n
  }

  lemma {:induction false} ChecksSnoc(e: Entry, servers: seq<Ip>, n: nat)
    ensures Checks(e, servers, n + 1) == Check(Checks(e, servers, n), servers).entry
    decreases n
  {
    hide Check;
    if n > 0 {
      ChecksSnoc(Check(e, servers).entry, servers, n - 1);
    }
  }

  // One check further, with the same server or on to the next.
  lemma CheckFurther(e: Entry, servers: seq<Ip>, j: nat)
    requires e.state == Asking && j < 7 && e.retries == Retries(j) && e.tmr == Wait(j)
    requires j == 6 ==> HasNext(servers, e.numdns) && e.numdns < 0xFF
    ensures Check(e, servers).entry ==
            if j == 6 then e.(numdns := e.numdns + 1, retries := Retries(0), tmr := Wait(0))
            else e.(retries := Retries(j + 1), tmr := Wait(j + 1))
  {}

  lemma {:induction false} Progress(e: Entry, servers: seq<Ip>, k: nat, n: nat)
    requires e.state == Asking && e.numdns == 0 && e.retries == Retries(0) && e.tmr == Wait(0) && |servers| < 0x100
    requires k == 1 || 1 < k <= |servers|
    requires forall j :: 1 <= j < k && j < |servers| ==> servers[j] != 0
    requires n < 7 * k
    ensures n / 7 < 0x100
    ensures Checks(e, servers, n) == e.(numdns := n / 7, retries := Retries(n % 7), tmr := Wait(n % 7))
    decreases n
  {
    hide Check, Retries, Wait;
    if n > 0 {
      Progress(e, servers, k, n - 1);
      ChecksSnoc(e, servers, n - 1);
      hide Checks;
      if n % 7 == 0 {
        assert (n - 1) % 7 == 6 && (n - 1) / 7 + 1 == n / 7 < k;
        assert HasNext(servers, (n - 1) / 7);
      } else {
        assert (n - 1) % 7 + 1 == n % 7 && (n - 1) / 7 == n / 7;
      }
      CheckFurther(Checks(e, servers, n - 1), servers, (n - 1) % 7);
    }
  }

  /**
   * When each query goes out: of the checks that follow the one with the first
   * query, the first, the second and the fourth of every seven, to the same
   * server for all of the seven. The callback is called by the last one, with no
   * address, and by no other.
   */
  lemma Schedule(e: Entry, servers: seq<Ip>, k: nat, n: nat)
    requires e.state == New && |servers| < 0x100
    requires k == 1 || 1 < k <= |servers|
    requires forall j :: 1 <= j < k && j < |servers| ==> servers[j] != 0
    requires k >= |servers| || servers[k] == 0
    requires n < 7 * k
    ensures var r := Check(Checks(Check(e, servers).entry, servers, n), servers);
            && (if n % 7 == 0 || n % 7 == 1 || n % 7 == 3 then r.sent.Some? && r.sent.value == n / 7
                else r.sent == None)
            && r.called == if n == 7 * k - 1 && e.found.Some? then Some(Call(e.found.value, None)) else None
  {
    hide Checks, Retries, Wait;
    var e1 := Check(e, servers).entry;
    assert Retries(0) == 0 && Wait(0) == 1 by { StartOfServer(); }
    Progress(e1, servers, k, n);
    SevenChecks(Checks(e1, servers, n), servers, n % 7);
    if n % 7 == 6 {
      assert n / 7 + 1 <= k && (n / 7 + 1 == k <==> n == 7 * k - 1);
      assert HasNext(servers, n / 7) <==> n / 7 + 1 < k;
    }
  }

  lemma StartOfServer()
    ensures Retries(0) == 0 && Wait(0) == 1
  {}

  lemma SevenChecks(e: Entry, servers: seq<Ip>, j: nat)
    requires e.state == Asking && j < 7 && e.retries == Retries(j) && e.tmr == Wait(j)
    ensures var r := Check(e, servers);
            && r.sent == (if j == 0 || j == 1 || j == 3 then Some(e.numdns) else None)
            && r.called == if j == 6 && !HasNext(servers, e.numdns) && e.found.Some?
                           then Some(Call(e.found.value, None)) else None
  {}

  /** A check changes nothing of an entry but its progress; name, sequence number and answer stay. */
  lemma CheckKeeps(e: Entry, servers: seq<Ip>)
    ensures var r := Check(e, servers).entry;
            && r.name == e.name && r.seqno == e.seqno && r.err == e.err && r.ipaddr == e.ipaddr
            && (e.state != Done ==> r.ttl == e.ttl)
            && (e.state == Unused ==> r == e)
            && (r.found == e.found || (r.found == None && r.state == Unused))
  {}

  // ---------------------------------------------------------------- the cache

  /** How many checks a completed entry stays: its time to live, and 2^32 checks if that is 0. */
  function Lifetime(ttl: uint32): nat { if ttl == 0 then UINT32 else ttl }

  lemma {:induction false} StaysFor(e: Entry, servers: seq<Ip>, n: nat)
    requires e.state == Done && n <= Lifetime(e.ttl)
    ensures Checks(e, servers, n).state == if n < Lifetime(e.ttl) then Done else Unused
    decreases n
  {
    if n > 0 {
      var e' := Check(e, servers).entry;
      if Lifetime(e.ttl) == 1 {
        assert Checks(e', servers, 0) == e';
      } else {
        StaysFor(e', servers, n - 1);
      }
    }
  }
}
