/**
 * Linked lists in a memory of cells: where a pointer leads, when it leads round
 * in a circle, and why a tortoise and a hare find that out.
 */
module Lists {

  const NULL: nat := 0

  /** The `next` pointers of the cells that exist. */
  type Links = map<nat, nat>

  /** The pointer n steps behind x; NULL stays NULL. */
  function Walk(next: Links, x: nat, n: nat): nat
    decreases n
  {
    if n == 0 then x else if x in next then Walk(next, next[x], n - 1) else NULL
  }

  /** Every pointer from x on is NULL or a cell. */
  ghost predicate WellLinked(next: Links, x: nat) {
    NULL !in next && forall n: nat :: Walk(next, x, n) == NULL || Walk(next, x, n) in next
  }

  /** Some cell behind x is met again later. */
  ghost predicate HasCycle(next: Links, x: nat) {
    exists i: nat, j: nat :: i < j && Walk(next, x, i) != NULL && Walk(next, x, i) == Walk(next, x, j)
  }

  lemma {:induction false} WalkAdd(next: Links, x: nat, m: nat, n: nat)
    requires NULL !in next
    ensures Walk(next, x, m + n) == Walk(next, Walk(next, x, m), n)
    decreases m
  {
    if m == 0 {
    } else if x in next {
      WalkAdd(next, next[x], m - 1, n);
    } else {
      WalkNull(next, n);
    }
  }

  lemma {:induction false} WalkNull(next: Links, n: nat)
    requires NULL !in next
    ensures Walk(next, NULL, n) == NULL
    decreases n
  {}

  lemma WalkEnded(next: Links, x: nat, m: nat, n: nat)
    requires NULL !in next && Walk(next, x, m) == NULL && m <= n
    ensures Walk(next, x, n) == NULL
  {
    WalkAdd(next, x, m, n - m);
    WalkNull(next, n - m);
  }

  lemma WalkStep(next: Links, x: nat, n: nat)
    requires NULL !in next && Walk(next, x, n) in next
    ensures Walk(next, x, n + 1) == next[Walk(next, x, n)]
  {
    WalkAdd(next, x, n, 1);
    assert Walk(next, next[Walk(next, x, n)], 0) == next[Walk(next, x, n)];
  }

  /** A list that ends has no cycle. */
  lemma EndsMeansNoCycle(next: Links, x: nat, n: nat)
    requires NULL !in next && Walk(next, x, n) == NULL
    ensures !HasCycle(next, x)
  {
    if i: nat, j: nat :| i < j && Walk(next, x, i) != NULL && Walk(next, x, i) == Walk(next, x, j) {
      Periodic(next, x, i, j - i, n);
      if i <= n {
        WalkEnded(next, x, n, i + n * (j - i)) by { Scale(n, j - i); }
      } else {
        WalkEnded(next, x, n, i);
      }
    }
  }

  lemma Scale(n: nat, p: nat)
    requires p >= 1
    ensures n * p >= n
  {}

  // From a cell met again after p steps the walk repeats every p steps.
  lemma {:induction false} Periodic(next: Links, x: nat, i: nat, p: nat, k: nat)
    requires NULL !in next && Walk(next, x, i) == Walk(next, x, i + p)
    ensures Walk(next, x, i + k * p) == Walk(next, x, i)
    decreases k
  {
    if k > 0 {
      Periodic(next, x, i, p, k - 1);
      WalkAdd(next, x, i, p);
      WalkAdd(next, x, i + (k - 1) * p, p);
      assert i + (k - 1) * p + p == i + k * p;
    }
  }

  /** The cells at the first n places of a walk. */
  function Visited(next: Links, x: nat, n: nat): (s: seq<nat>)
    ensures |s| == n && forall i :: 0 <= i < n ==> s[i] == Walk(next, x, i)
  {
    seq(n, i requires 0 <= i < n => Walk(next, x, i))
  }

  /** More places than cells: one cell is at two of them. */
  lemma {:induction false} Repeats(s: seq<nat>, cells: set<nat>) returns (i: nat, j: nat)
    requires |s| > |cells| && forall k :: 0 <= k < |s| ==> s[k] in cells
    ensures i < j < |s| && s[i] == s[j]
    decreases |s|
  {
    var last := s[|s| - 1];
    var rest := s[..|s| - 1];
    if last in rest {
      i :| 0 <= i < |rest| && rest[i] == last;
      j := |s| - 1;
    } else {
      assert forall k :: 0 <= k < |rest| ==> rest[k] in rest && rest[k] in cells - {last};
      i, j := Repeats(rest, cells - {last});
    }
  }

  /**
   * If the walk has not ended after as many steps as there are cells, the
   * tortoise after k steps stands where the hare stands after 2k + 1, for some
   * k below the number of cells.
   */
  lemma Meet(next: Links, x: nat) returns (k: nat)
    requires WellLinked(next, x) && Walk(next, x, |next|) != NULL
    ensures k < |next| && Walk(next, x, k) == Walk(next, x, 2 * k + 1)
  {
    var s := Visited(next, x, |next| + 1);
    forall m | 0 <= m < |s| ensures s[m] in next.Keys {
      if s[m] == NULL {
        WalkEnded(next, x, m, |next|);
      }
    }
    assert |next.Keys| == |next|;
    var i, j := Repeats(s, next.Keys);
    var p := j - i;
    var q := Periods(i + 1, p);
    k := q * p - 1;
    // from k, which lies behind i, another q periods lead back to k
    WalkAdd(next, x, i, k - i);
    WalkAdd(next, x, j, k - i);
    assert Walk(next, x, k) == Walk(next, x, k + p);
    Periodic(next, x, k, p, q);
  }

  /** How often p has to be taken to reach n. */
  function Periods(n: nat, p: nat): (q: nat)
    requires p > 0
    ensures n <= q * p < n + p
  {
    (n + p - 1) / p
  }

  /** In a walk that stays among the cells, having no cycle means ending within their number. */
  lemma NoCycleMeansEnds(next: Links, x: nat)
    requires WellLinked(next, x)
    ensures HasCycle(next, x) <==> Walk(next, x, |next|) != NULL
  {
    if Walk(next, x, |next|) != NULL {
      var k := Meet(next, x);
      if Walk(next, x, k) == NULL {
        WalkEnded(next, x, k, |next|);
      }
      assert k < 2 * k + 1;
    } else {
      EndsMeansNoCycle(next, x, |next|);
    }
  }

  /** The inner loop of `memp_sanity`. */
  method FindsCycle(next: Links, head: nat) returns (found: bool)
    requires WellLinked(next, head) && head != NULL
    ensures found <==> HasCycle(next, head)
  {
    var t := head;
    assert Walk(next, head, 0) == head;
    WalkStep(next, head, 0);
    var h := next[t];
    ghost var k := 0;
    while t != NULL && h != NULL
      invariant k <= |next|
      invariant t == Walk(next, head, k) && h == Walk(next, head, 2 * k + 1)
      invariant forall m :: 0 <= m < k ==> Walk(next, head, m) != Walk(next, head, 2 * m + 1)
      decreases |next| - k
    {
      if t == h {
        return true;
      }
      if k == |next| {
        var m := Meet(next, head);
        assert false;
      }
      HareMoves(next, head, 2 * k + 1);
      WalkStep(next, head, k);
      t := next[t];
      h := if next[h] != NULL && next[next[h]] != NULL then next[next[h]] else NULL;
      k := k + 1;
    }
    if t == NULL {
      EndsMeansNoCycle(next, head, k);
    } else {
      EndsMeansNoCycle(next, head, 2 * k + 1);
    }
    found := false;
  }

  lemma HareMoves(next: Links, x: nat, n: nat)
    requires WellLinked(next, x) && Walk(next, x, n) != NULL
    ensures Walk(next, x, n) in next
    ensures var h := Walk(next, x, n);
            (next[h] != NULL ==> next[h] in next)
            && Walk(next, x, n + 2) == if next[h] != NULL && next[next[h]] != NULL then next[next[h]] else NULL
  {
    WalkStep(next, x, n);
    if next[Walk(next, x, n)] != NULL {
      WalkStep(next, x, n + 1);
    } else {
      WalkEnded(next, x, n + 1, n + 2);
    }
  }
}
