/**
 * The pool allocator of lwip/core/memp.c, with one lock around each of its
 * functions, no overflow check and the sanity check switched on. An element
 * that is handed out belongs to the user entirely: its `next` pointer overlaps
 * the user's data.
 */
module Memp {
  import opened Lists
  import opened MempLayout

  /** From x on, s are the cells of a list that ends. */
  ghost predicate IsList(next: Links, x: nat, s: seq<nat>)
    decreases |s|
  {
    if s == [] then x == NULL else x == s[0] && x != NULL && x in next && IsList(next, next[x], s[1..])
  }

  lemma {:induction false} ListWalk(next: Links, x: nat, s: seq<nat>, n: nat)
    requires NULL !in next && IsList(next, x, s)
    ensures Walk(next, x, n) == if n < |s| then s[n] else NULL
    ensures n < |s| ==> s[n] in next
    decreases n
  {
    if s == [] {
    } else if n > 0 {
      ListWalk(next, next[x], s[1..], n - 1);
    }
  }

  lemma ListIsGood(next: Links, x: nat, s: seq<nat>)
    requires NULL !in next && IsList(next, x, s)
    ensures WellLinked(next, x) && !HasCycle(next, x)
    ensures forall i, j :: 0 <= i < j < |s| ==> s[i] != s[j]
  {
    forall n: nat ensures Walk(next, x, n) == NULL || Walk(next, x, n) in next {
      ListWalk(next, x, s, n);
    }
    ListWalk(next, x, s, |s|);
    EndsMeansNoCycle(next, x, |s|);
    forall i, j | 0 <= i < j < |s| ensures s[i] != s[j] {
      ListWalk(next, x, s, i);
      ListWalk(next, x, s, j);
    }
  }

  /** A list does not change when other cells do. */
  lemma {:induction false} ListFrame(next: Links, next': Links, x: nat, s: seq<nat>)
    requires IsList(next, x, s)
    requires forall c :: c in s ==> (c in next ==> c in next' && next'[c] == next[c])
    ensures IsList(next', x, s)
    decreases |s|
  {
    if s != [] {
      assert s[0] in s;
      assert forall c :: c in s[1..] ==> c in s;
      ListFrame(next, next', next[x], s[1..]);
    }
  }

  /** A list that runs into another cell: where a pointer in its middle is bent to that cell's list. */
  lemma {:induction false} ListBent(next: Links, x: nat, s: seq<nat>, k: nat, y: nat, r: seq<nat>)
    requires IsList(next, x, s) && k < |s| && s[k] != NULL
    requires forall i :: 0 <= i < |s| && i != k ==> s[i] != s[k]
    requires IsList(next[s[k] := y], y, r)
    ensures IsList(next[s[k] := y], x, s[..k + 1] + r)
    decreases k
  {
    var t := s[..k + 1] + r;
    if k == 0 {
      assert t[1..] == r;
    } else {
      forall i | 0 <= i < |s[1..]| && i != k - 1 ensures s[1..][i] != s[1..][k - 1] {}
      ListBent(next, next[x], s[1..], k - 1, y, r);
      assert t[1..] == s[1..][..k] + r;
    }
  }

  /** A cell whose list leads back to it is on a cycle. */
  lemma ListClosed(next: Links, s: seq<nat>, k: nat, x: nat)
    requires NULL !in next && IsList(next, x, s) && k < |s|
    ensures var next' := next[s[k] := x];
            WellLinked(next', s[k]) && HasCycle(next', s[k])
  {
    ListIsGood(next, x, s);
    ListWalk(next, x, s, k);
    var next' := next[s[k] := x];
    assert s[k] != NULL;
    forall n: nat | n <= k ensures Walk(next', x, n) == s[n] && s[n] in next' {
      ListWalk(next, x, s, n);
      PrefixWalk(next, next', x, s, n, k);
    }
    assert Walk(next', s[k], k + 1) == Walk(next', x, k) == s[k];
    assert Walk(next', s[k], 0) == s[k];
    forall n: nat ensures Walk(next', s[k], n) in next' {
      Around(next', s[k], k + 1, x, s, n);
    }
  }

  lemma {:induction false} PrefixWalk(next: Links, next': Links, x: nat, s: seq<nat>, n: nat, k: nat)
    requires NULL !in next && IsList(next, x, s) && n <= k < |s|
    requires s[k] in next' && next' == next[s[k] := next'[s[k]]]
    requires forall i :: 0 <= i < k ==> s[i] != s[k]
    ensures Walk(next', x, n) == s[n]
    decreases n
  {
    if n > 0 {
      forall i | 0 <= i < k - 1 ensures s[1..][i] != s[1..][k - 1] {}
      PrefixWalk(next, next', next[x], s[1..], n - 1, k - 1);
    }
  }

  // Walking round a circle of p cells never leaves it.
  lemma {:induction false} Around(next: Links, c: nat, p: nat, x: nat, s: seq<nat>, n: nat)
    requires NULL !in next && c in next && 1 <= p <= |s| && next[c] == x && s[p - 1] == c
    requires forall m: nat :: m < p ==> Walk(next, x, m) == s[m]
    requires forall m: nat :: m < p ==> s[m] in next
    ensures Walk(next, c, n) in next
    decreases n
  {
    if n > p {
      WalkAdd(next, c, p, n - p);
      assert Walk(next, c, p) == Walk(next, x, p - 1) == c;
      Around(next, c, p, x, s, n - p);
    } else if n > 0 {
      assert Walk(next, c, n) == Walk(next, x, n - 1);
    }
  }

  // ---------------------------------------------------------------- the pools

  /** Every pool's list ends, and holds elements of that pool only; all elements are cells. */
  ghost predicate Good(l: Layout, next: Links, heads: seq<nat>, free: seq<seq<nat>>) {
    && l.Valid() && |heads| == |l.sizes| == |free| && NULL !in next
    && (forall i :: 0 <= i < |heads| ==> IsList(next, heads[i], free[i]))
    && (forall i :: 0 <= i < |heads| ==> forall c :: c in free[i] ==> c in l.Elements(i))
    && (forall i :: 0 <= i < |heads| ==> forall c :: c in l.Elements(i) ==> c in next)
  }

  /** Lists in order pass the sanity check. */
  lemma GoodIsSane(l: Layout, next: Links, heads: seq<nat>, free: seq<seq<nat>>)
    requires Good(l, next, heads, free)
    ensures forall i :: 0 <= i < |heads| ==> WellLinked(next, heads[i]) && !HasCycle(next, heads[i])
  {
    forall i | 0 <= i < |heads| ensures WellLinked(next, heads[i]) && !HasCycle(next, heads[i]) {
      ListIsGood(next, heads[i], free[i]);
    }
  }

  lemma OnOneList(l: Layout, next: Links, heads: seq<nat>, free: seq<seq<nat>>, i: nat, k: nat, c: nat)
    requires Good(l, next, heads, free) && i < |heads| && k < |heads| && i != k && c in free[i]
    ensures c !in free[k]
  {
    if i < k {
      PoolsDisjoint(l, i, k);
    } else {
      PoolsDisjoint(l, k, i);
    }
  }

  lemma ListExtended(next: Links, x: nat, s: seq<nat>, mem: nat)
    requires IsList(next, x, s) && mem !in s && mem != NULL
    ensures IsList(next[mem := x], mem, [mem] + s)
  {
    ListFrame(next, next[mem := x], x, s);
    assert ([mem] + s)[1..] == s;
  }

  // What putting a cell in front of a pool's list does to the list of that pool.
  lemma FreeOwnList(next: Links, x: nat, s: seq<nat>, mem: nat)
    requires NULL !in next && IsList(next, x, s) && mem in next
    ensures WellLinked(next[mem := x], mem)
    ensures HasCycle(next[mem := x], mem) <==> mem in s
  {
    if mem in s {
      var k :| 0 <= k < |s| && s[k] == mem;
      ListClosed(next, s, k, x);
    } else {
      ListExtended(next, x, s, mem);
      ListIsGood(next[mem := x], mem, [mem] + s);
    }
  }

  // What it does to the list of another pool, even if the cell is on that list.
  lemma FreeOtherList(next: Links, x: nat, s: seq<nat>, x': nat, s': seq<nat>, mem: nat)
    requires NULL !in next && IsList(next, x, s) && IsList(next, x', s') && mem in next
    requires !(mem in s && mem in s')
    ensures WellLinked(next[mem := x], x') && !HasCycle(next[mem := x], x')
  {
    var next' := next[mem := x];
    if mem in s' {
      var k :| 0 <= k < |s'| && s'[k] == mem;
      ListIsGood(next, x', s');
      ListFrame(next, next', x, s);
      ListBent(next, x', s', k, x, s);
      ListIsGood(next', x', s'[..k + 1] + s);
    } else {
      ListFrame(next, next', x', s');
      ListIsGood(next', x', s');
    }
  }

  /** What freeing a cell does to the lists: exactly a cell already on the list it joins makes a circle. */
  lemma AfterFree(l: Layout, next: Links, heads: seq<nat>, free: seq<seq<nat>>, kind: nat, mem: nat,
                  next': Links, heads': seq<nat>)
    requires Good(l, next, heads, free) && kind < |heads| && mem in next
    requires next' == next[mem := heads[kind]] && heads' == heads[kind := mem]
    ensures forall i :: 0 <= i < |heads| ==> WellLinked(next', heads'[i])
    ensures forall i :: 0 <= i < |heads| ==> (HasCycle(next', heads'[i]) <==> i == kind && mem in free[kind])
  {
    forall i | 0 <= i < |heads|
      ensures WellLinked(next', heads'[i])
      ensures HasCycle(next', heads'[i]) <==> i == kind && mem in free[kind]
    {
      if i == kind {
        FreeOwnList(next, heads[kind], free[kind], mem);
      } else {
        if mem in free[i] {
          OnOneList(l, next, heads, free, i, kind, mem);
        }
        FreeOtherList(next, heads[kind], free[kind], heads[i], free[i], mem);
      }
    }
  }

  /** Freeing an element that is handed out leaves all lists in order. */
  lemma FreeKeepsGood(l: Layout, next: Links, heads: seq<nat>, free: seq<seq<nat>>, kind: nat, mem: nat)
    requires Good(l, next, heads, free) && kind < |heads| && mem in l.Elements(kind) && mem !in free[kind]
    ensures Good(l, next[mem := heads[kind]], heads[kind := mem], free[kind := [mem] + free[kind]])
  {
    hide Layout.Elements, Layout.Valid;
    ListExtended(next, heads[kind], free[kind], mem);
    forall i | 0 <= i < |heads| && i != kind
      ensures IsList(next[mem := heads[kind]], heads[i], free[i])
    {
      assert mem !in free[i] by { NotElsewhere(l, next, heads, free, kind, i, mem); }
      ListFrame(next, next[mem := heads[kind]], heads[i], free[i]);
    }
  }

  lemma NotElsewhere(l: Layout, next: Links, heads: seq<nat>, free: seq<seq<nat>>, i: nat, k: nat, c: nat)
    requires Good(l, next, heads, free) && i < |heads| && k < |heads| && i != k && c in l.Elements(i)
    ensures c !in free[k]
  {
    if i < k {
      PoolsDisjoint(l, i, k);
    } else {
      PoolsDisjoint(l, k, i);
    }
  }

  /** While carving: the pools done so far are complete, and all cells lie below p. */
  ghost predicate Carved(l: Layout, next: Links, heads: seq<nat>, free: seq<seq<nat>>, p: nat) {
    && |heads| == |free| <= |l.sizes| == |l.num|
    && (forall i :: 0 <= i < |heads| ==> IsList(next, heads[i], free[i]))
    && (forall i :: 0 <= i < |heads| ==> forall c :: c in free[i] <==> c in l.Elements(i))
    && (forall i :: 0 <= i < |heads| ==> forall c :: c in l.Elements(i) ==> c in next)
    && (forall c :: c in next ==> 0 < c < p)
  }

  /** The first j elements of pool i. */
  ghost function First(l: Layout, i: nat, j: nat): set<nat>
    requires i < |l.sizes| == |l.num|
  {
    set m: nat | m < j :: l.Element(i, m)
  }

  lemma EmptyList(next: Links)
    ensures IsList(next, NULL, [])
  {}

  lemma CarveOne(l: Layout, next: Links, heads: seq<nat>, free: seq<seq<nat>>, p: nat, i: nat, j: nat, x: nat,
                 s: seq<nat>)
    requires l.Valid() && Carved(l, next, heads, free, p) && i < |l.sizes| && p == l.Element(i, j)
    requires IsList(next, x, s) && forall c :: c in s <==> c in First(l, i, j)
    requires forall c :: c in s ==> c in next
    ensures Carved(l, next[p := x], heads, free, p + l.sizes[i]) && p + l.sizes[i] == l.Element(i, j + 1)
    ensures IsList(next[p := x], p, [p] + s)
    ensures forall c :: c in [p] + s <==> c in First(l, i, j + 1)
  {
    assert p + l.sizes[i] == l.Element(i, j + 1) by {
      assert (j + 1) * l.sizes[i] == j * l.sizes[i] + l.sizes[i];
    }
    hide Layout.Element;
    assert p !in next;
    ListExtended(next, x, s, p);
    forall k | 0 <= k < |heads| ensures IsList(next[p := x], heads[k], free[k]) {
      ListFrame(next, next[p := x], heads[k], free[k]);
    }
    forall c ensures c in First(l, i, j + 1) <==> c == p || c in First(l, i, j) {
      if c in First(l, i, j + 1) && c != p {
        var m: nat :| m < j + 1 && c == l.Element(i, m);
      } else if c == p {
        assert c == l.Element(i, j);
      }
    }
  }

  lemma CarvedPool(l: Layout, next: Links, heads: seq<nat>, free: seq<seq<nat>>, p: nat, i: nat, x: nat, s: seq<nat>)
    requires Carved(l, next, heads, free, p) && i == |heads| < |l.sizes| && p == l.Element(i, l.num[i])
    requires IsList(next, x, s) && forall c :: c in s <==> c in First(l, i, l.num[i])
    requires forall c :: c in s ==> c in next
    ensures Carved(l, next, heads + [x], free + [s], p) && p == l.Start(i + 1)
  {
    assert First(l, i, l.num[i]) == l.Elements(i);
  }

  class Pools {
    const layout: Layout
    const tab: array<nat>       // memp_tab: the first free element of each pool
    var next: Links
    ghost var free: seq<seq<nat>>

    ghost predicate Valid()
      reads this, tab
    {
      Good(layout, next, tab[..], free)
    }

    /** The elements of pool i that are handed out: those that are not on its list. */
    ghost function Allocated(i: nat): set<nat>
      reads this
      requires i < |layout.sizes| == |layout.num| && i < |free|
    {
      layout.Elements(i) - (set c | c in free[i])
    }

    /** `memp_init`: `memory` is the address of `memp_memory`, the pools' data fit its element sizes. */
    constructor (memory: nat, align: nat, sizes: seq<nat>, num: seq<nat>)
      requires memory > 0 && align > 0 && |sizes| == |num|
      requires forall i :: 0 <= i < |sizes| ==> sizes[i] >= POINTER_SIZE
      ensures Valid() && fresh(tab)
      ensures layout.base == AlignUp(memory, align) && layout.align == align && layout.num == num
      ensures |layout.sizes| == |sizes| &&
              forall i :: 0 <= i < |sizes| ==> layout.sizes[i] == AlignUp(sizes[i], align)
      ensures forall i :: 0 <= i < |sizes| ==> Allocated(i) == {}
    {
      var aligned := seq(|sizes|, i requires 0 <= i < |sizes| => AlignUp(sizes[i], align));
      layout := Layout(AlignUp(memory, align), align, aligned, num);
      tab := new nat[|sizes|](_ => NULL);
      next, free := map[], [];
      new;
      var p := layout.base;
      var i := 0;
      while i < tab.Length
        invariant i <= tab.Length && |free| == i && p == layout.Start(i)
        invariant Carved(layout, next, tab[..i], free, p)
      {
        ghost var heads := tab[..i];
        tab[i] := NULL;
        p := Carve(i, p);
        assert tab[..i] == heads && tab[..i + 1] == heads + [tab[i]];
        i := i + 1;
      }
      assert tab[..] == tab[..i];
    }

    // The inner loop of `memp_init`: the elements of pool i are linked, the last one first.
    method Carve(i: nat, start: nat) returns (p: nat)
      requires layout.Valid() && tab.Length == |layout.sizes| && i < tab.Length && |free| == i
      requires start == layout.Start(i) && tab[i] == NULL && Carved(layout, next, tab[..i], free, start)
      modifies tab, this`next, this`free
      ensures p == layout.Start(i + 1) && |free| == i + 1
      ensures tab[..i] == old(tab[..i]) && Carved(layout, next, tab[..i] + [tab[i]], free, p)
    {
      hide IsList, Layout.Start;
      ghost var s: seq<nat> := [];
      ghost var heads, lists := tab[..i], free;
      p := start;
      var j := 0;
      EmptyList(next);
      while j < layout.num[i]
        invariant j <= layout.num[i] && p == layout.Element(i, j)
        invariant tab[..i] == heads
        invariant Carved(layout, next, heads, lists, p)
        invariant IsList(next, tab[i], s) && forall c :: c in s <==> c in First(layout, i, j)
        invariant forall c :: c in s ==> c in next
      {
        CarveOne(layout, next, heads, lists, p, i, j, tab[i], s);
        next := next[p := tab[i]];
        tab[i] := p;
        s := [p] + s;
        p := p + layout.sizes[i];
        j := j + 1;
      }
      free := lists + [s];
      CarvedPool(layout, next, heads, lists, p, i, tab[i], s);
    }

    /** `memp_malloc`. */
    method Malloc(kind: nat) returns (r: nat)
      requires Valid()
      modifies this, tab
      ensures Valid()
      ensures r == NULL <==> kind >= tab.Length || old(Allocated(kind)) == layout.Elements(kind)
      ensures r != NULL ==> r in layout.Elements(kind) && r !in old(Allocated(kind)) && r % layout.align == 0
      ensures forall i :: 0 <= i < tab.Length ==>
                Allocated(i) == if r != NULL && i == kind then old(Allocated(i)) + {r} else old(Allocated(i))
      ensures next == old(next) && (r == NULL ==> tab[..] == old(tab[..]))
    {
      if kind >= tab.Length {
        return NULL;
      }
      ListIsGood(next, tab[kind], free[kind]);
      r := tab[kind];
      if r != NULL {
        assert r == free[kind][0] && r in free[kind];
        tab[kind] := next[r];
        free := free[kind := free[kind][1..]];
        assert forall c :: c in old(free[kind]) <==> c == r || c in free[kind];
        ElementsAligned(layout, kind, r);
      }
    }

    /** `memp_sanity`. */
    method Sanity() returns (sane: bool)
      requires forall i :: 0 <= i < tab.Length ==> WellLinked(next, tab[i])
      ensures sane <==> forall i :: 0 <= i < tab.Length ==> !HasCycle(next, tab[i])
    {
      var i := 0;
      while i < tab.Length
        invariant 0 <= i <= tab.Length
        invariant forall k :: 0 <= k < i ==> !HasCycle(next, tab[k])
      {
        if tab[i] != NULL {
          var found := FindsCycle(next, tab[i]);
          if found {
            return false;
          }
        } else {
          EndsMeansNoCycle(next, tab[i], 0);
        }
        i := i + 1;
      }
      sane := true;
    }

    /**
     * `memp_free`; `sane` is the value of its sanity assertion. It is false
     * exactly if the element was on the list already. The assertion says nothing
     * about an element of another pool.
     */
    method Free(kind: nat, mem: nat) returns (sane: bool)
      requires Valid() && kind < tab.Length && (mem != NULL ==> mem in next)
      modifies this, tab
      ensures mem == NULL ==> sane && next == old(next) && tab[..] == old(tab[..]) && free == old(free)
      ensures mem != NULL ==> (sane <==> mem !in old(free[kind]))
      ensures mem != NULL ==> next == old(next[mem := tab[kind]]) && tab[..] == old(tab[..])[kind := mem]
      ensures mem in old(Allocated(kind)) ==>
                Valid() && forall i :: 0 <= i < tab.Length ==>
                  Allocated(i) == if i == kind then old(Allocated(i)) - {mem} else old(Allocated(i))
    {
      hide IsList, HasCycle, WellLinked, Layout.Elements;
      if mem == NULL {
        return true;
      }
      AfterFree(layout, next, tab[..], free, kind, mem, next[mem := tab[kind]], tab[..][kind := mem]);
      if mem in Allocated(kind) {
        FreeKeepsGood(layout, next, tab[..], free, kind, mem);
      }
      ghost var heads := tab[..];
      next := next[mem := tab[kind]];
      tab[kind] := mem;
      assert tab[..] == heads[kind := mem];
      free := if mem in Allocated(kind) then free[kind := [mem] + free[kind]] else free;
      sane := Sanity();
    }

    /** The user of an element writes to it, over the `next` pointer. */
    method Write(kind: nat, mem: nat, value: nat)
      requires Valid() && kind < tab.Length && mem in Allocated(kind)
      modifies this`next
      ensures Valid() && next == old(next)[mem := value]
    {
      hide IsList, Layout.Elements;
      forall i | 0 <= i < tab.Length
        ensures IsList(next[mem := value], tab[i], free[i])
      {
        if i != kind {
          NotElsewhere(layout, next, tab[..], free, kind, i, mem);
        }
        ListFrame(next, next[mem := value], tab[i], free[i]);
      }
      next := next[mem := value];
    }
  }

  lemma ElementsAligned(l: Layout, i: nat, x: nat)
    requires l.Valid() && i < |l.sizes| && x in l.Elements(i)
    ensures x % l.align == 0 && x != NULL
  {
    var j: nat :| j < l.num[i] && x == l.Element(i, j);
    ElementInPool(l, i, j);
  }
}
