/**
 * Where lwip/core/memp.c puts the elements of its pools: all pools in one
 * array, one after the other, each element on an aligned address.
 */
module MempLayout {

  const POINTER_SIZE: nat := 4  // sizeof(struct memp)

  /** `LWIP_MEM_ALIGN_SIZE` and `LWIP_MEM_ALIGN`. */
  function AlignUp(x: nat, align: nat): (r: nat)
    requires align > 0
    ensures x <= r < x + align && r % align == 0
  {
    var q := (x + align - 1) / align;
    MultipleIsAligned(q * align, align, q);
    q * align
  }

  lemma MultipleIsAligned(x: int, a: nat, q: int)
    requires a > 0 && x == q * a
    ensures x % a == 0
  {
    var d := q - x / a;
    assert d * a == q * a - x / a * a;
    assert d * a == x % a;
    MultipleGrows(d, a);
  }

  lemma MultipleGrows(d: int, a: int)
    requires a >= 0
    ensures d >= 1 ==> d * a >= a
    ensures d <= -1 ==> d * a <= -a
  {
    if d >= 1 {
      assert (d - 1) * a >= 0;
    } else if d <= -1 {
      assert (-1 - d) * a >= 0;
    }
  }

  lemma AlignedSum(x: int, y: int, k: nat, a: nat)
    requires a > 0 && x % a == 0 && y % a == 0
    ensures (x + k * y) % a == 0
  {
    var p, q := x / a, y / a;
    assert x == p * a && y == q * a;
    assert k * y == k * q * a;
    MultipleIsAligned(x + k * y, a, p + k * q);
  }

  datatype Layout = Layout(base: nat, align: nat, sizes: seq<nat>, num: seq<nat>) {

    ghost predicate Valid() {
      && align > 0 && base > 0 && base % align == 0 && |sizes| == |num|
      && forall i :: 0 <= i < |sizes| ==> sizes[i] >= POINTER_SIZE && sizes[i] % align == 0
    }

    /** The address of the first element of pool i. */
    function Start(i: nat): (r: nat)
      requires i <= |sizes| == |num|
      ensures r >= base
    {
      if i == 0 then base else Start(i - 1) + num[i - 1] * sizes[i - 1]
    }

    /** The address of element j of pool i. */
    function Element(i: nat, j: nat): (r: nat)
      requires i < |sizes| == |num|
      ensures r >= base
    {
      Start(i) + j * sizes[i]
    }

    /** The elements of pool i. */
    function Elements(i: nat): set<nat>
      requires i < |sizes| == |num|
    {
      set j: nat | j < num[i] :: Element(i, j)
    }
  }

  lemma {:induction false} StartsOrdered(l: Layout, i: nat, k: nat)
    requires l.Valid() && i <= k <= |l.sizes|
    ensures l.Start(i) <= l.Start(k)
    decreases k - i
  {
    if i < k {
      assert l.num[i] * l.sizes[i] >= 0;
      StartsOrdered(l, i + 1, k);
    }
  }

  lemma {:induction false} StepsInside(j: nat, k: nat, size: nat)
    requires j < k
    ensures j * size + size <= k * size
    decreases k - j
  {
    assert (j + 1) * size == j * size + size;
    if j + 1 < k {
      StepsInside(j + 1, k, size);
    }
  }

  /** An element lies inside its pool, and its address is aligned. */
  lemma ElementInPool(l: Layout, i: nat, j: nat)
    requires l.Valid() && i < |l.sizes| && j < l.num[i]
    ensures l.Start(i) <= l.Element(i, j) && l.Element(i, j) + l.sizes[i] <= l.Start(i + 1)
    ensures l.Element(i, j) % l.align == 0
  {
    StepsInside(j, l.num[i], l.sizes[i]);
    StartAligned(l, i);
    AlignedSum(l.Start(i), l.sizes[i], j, l.align);
  }

  lemma {:induction false} StartAligned(l: Layout, i: nat)
    requires l.Valid() && i <= |l.sizes|
    ensures l.Start(i) % l.align == 0
    decreases i
  {
    if i > 0 {
      StartAligned(l, i - 1);
      AlignedSum(l.Start(i - 1), l.sizes[i - 1], l.num[i - 1], l.align);
    }
  }

  /** Two elements, of one pool or of two, never overlap. */
  lemma ElementsDisjoint(l: Layout, i: nat, j: nat, i': nat, j': nat)
    requires l.Valid() && i < |l.sizes| && j < l.num[i] && i' < |l.sizes| && j' < l.num[i']
    requires i < i' || (i == i' && j < j')
    ensures l.Element(i, j) + l.sizes[i] <= l.Element(i', j')
  {
    ElementInPool(l, i, j);
    ElementInPool(l, i', j');
    if i < i' {
      StartsOrdered(l, i + 1, i');
    } else {
      StepsInside(j, j', l.sizes[i]);
    }
  }

  /** No address is an element of two pools. */
  lemma PoolsDisjoint(l: Layout, i: nat, k: nat)
    requires l.Valid() && i < k < |l.sizes|
    ensures l.Elements(i) !! l.Elements(k)
  {
    forall x, y | x in l.Elements(i) && y in l.Elements(k)
      ensures x < y
    {
      var j: nat :| j < l.num[i] && x == l.Element(i, j);
      var j': nat :| j' < l.num[k] && y == l.Element(k, j');
      ElementsDisjoint(l, i, j, k, j');
    }
  }

  /** The size of `memp_memory`: what the pools need and room to align the first. */
  function MemorySize(align: nat, sizes: seq<nat>, num: seq<nat>): nat
    requires align > 0 && |sizes| == |num|
  {
    if sizes == [] then align - 1
    else MemorySize(align, sizes[..|sizes| - 1], num[..|num| - 1]) + num[|num| - 1] * sizes[|sizes| - 1]
  }

  lemma {:induction false} EndOfPools(l: Layout)
    requires l.align > 0 && |l.sizes| == |l.num|
    ensures l.Start(|l.sizes|) - l.base + l.align - 1 == MemorySize(l.align, l.sizes, l.num)
    decreases |l.sizes|
  {
    var n := |l.sizes|;
    if n > 0 {
      var m := l.(sizes := l.sizes[..n - 1], num := l.num[..n - 1]);
      EndOfPools(m);
      StartSame(l, m, n - 1);
    }
  }

  lemma {:induction false} StartSame(l: Layout, m: Layout, i: nat)
    requires |l.sizes| == |l.num| && |m.sizes| == |m.num| && m.base == l.base
    requires i <= |m.sizes| <= |l.sizes|
    requires forall k :: 0 <= k < |m.sizes| ==> m.sizes[k] == l.sizes[k] && m.num[k] == l.num[k]
    ensures l.Start(i) == m.Start(i)
    decreases i
  {
    if i > 0 {
      StartSame(l, m, i - 1);
    }
  }

  /** All elements lie inside `memp_memory`, wherever the linker puts it. */
  lemma PoolsInMemory(l: Layout, memory: nat, i: nat, j: nat)
    requires l.Valid() && l.base == AlignUp(memory, l.align) && i < |l.sizes| && j < l.num[i]
    ensures memory <= l.Element(i, j)
    ensures l.Element(i, j) + l.sizes[i] <= memory + MemorySize(l.align, l.sizes, l.num)
  {
    ElementInPool(l, i, j);
    StartsOrdered(l, i + 1, |l.sizes|);
    EndOfPools(l);
  }
}
