/**
 * The transmit ring of user_main/comm.c: 32 slots between two free-running
 * 16-bit counters.
 */
module TxRing {

  const SIZE: nat := 32         // TX_RING_BUFFER_SIZE
  const WRAP: nat := 0x1_0000   // the counters are uint16_t

  type uint16 = x: int | 0 <= x < WRAP

  datatype Ring<T> = Ring(slots: seq<T>, read: uint16, write: uint16) {

    predicate Valid() { |slots| == SIZE && Used() <= SIZE }

    /** The number of filled slots: the difference of the counters modulo their width. */
    function Used(): nat { (write - read) % WRAP }

    /** `buf_write_i - buf_read_i` as the source computes it, after promotion to int. */
    function LiteralUsed(): int { write - read }

    /** The test for a full ring in `transmitter_push`. */
    predicate LiteralFull() { LiteralUsed() == SIZE }

    predicate Empty() { read == write }

    /** The filled slots, oldest first. */
    function Queue(): (q: seq<T>)
      requires |slots| == SIZE
      ensures |q| == Used()
    {
      seq(Used(), k requires 0 <= k => slots[(read + k) % SIZE])
    }

    function Push(x: T): Ring<T>
      requires |slots| == SIZE
    {
      Ring(slots[write % SIZE := x], read, (write + 1) % WRAP)
    }

    function Pop(): Ring<T> { Ring(slots, (read + 1) % WRAP, write) }
  }

  lemma UsedAfterPush(r: uint16, w: uint16)
    ensures ((w + 1) % WRAP - r) % WRAP == if (w - r) % WRAP == WRAP - 1 then 0 else (w - r) % WRAP + 1
  {}

  lemma PushUsed<T>(r: Ring<T>, x: T)
    requires |r.slots| == SIZE && r.Used() < SIZE
    ensures r.Push(x).Used() == r.Used() + 1
  {
    UsedAfterPush(r.read, r.write);
  }

  lemma WrapAdd(x: nat, n: nat)
    ensures (x % WRAP + n) % WRAP == (x + n) % WRAP
  {}

  lemma UsedAfterPop(r: uint16, w: uint16)
    ensures (w - (r + 1) % WRAP) % WRAP == if w == r then WRAP - 1 else (w - r) % WRAP - 1
  {}

  // The slot for the next element lies behind the filled ones, if one is free.
  lemma SlotOf(r: uint16, w: uint16, k: nat)
    requires k <= (w - r) % WRAP < SIZE
    ensures (r + k) % SIZE == w % SIZE <==> k == (w - r) % WRAP
  {
    var d := (w - r) % WRAP;
    assert w % SIZE == (r + d) % SIZE;
  }

  lemma SlotAfterPop(r: uint16, k: nat)
    ensures ((r + 1) % WRAP + k) % SIZE == (r + (k + 1)) % SIZE
  {}

  lemma EmptyIsZeroUsed<T>(r: Ring<T>)
    ensures r.Empty() <==> r.Used() == 0
  {}

  /** Pushing into a ring that is not full appends to the queue. */
  lemma PushAppends<T>(r: Ring<T>, x: T)
    requires r.Valid() && r.Used() < SIZE
    ensures r.Push(x).Valid() && r.Push(x).Queue() == r.Queue() + [x]
  {
    var r' := r.Push(x);
    UsedAfterPush(r.read, r.write);
    forall k | 0 <= k < r'.Used()
      ensures r'.Queue()[k] == (r.Queue() + [x])[k]
    {
      SlotOf(r.read, r.write, k);
    }
  }

  /** Popping removes the oldest element. */
  lemma PopRemoves<T>(r: Ring<T>)
    requires r.Valid() && r.Used() > 0
    ensures r.Pop().Valid() && r.Pop().Queue() == r.Queue()[1..]
  {
    UsedAfterPop(r.read, r.write);
    forall k | 0 <= k < r.Used() - 1
      ensures r.Pop().Queue()[k] == r.Queue()[1..][k]
    {
      SlotAfterPop(r.read, k);
    }
  }

  /** Slot i holds an element of the queue. */
  predicate Filled<T>(r: Ring<T>, i: nat) { i < SIZE && (i - r.read) % SIZE < r.Used() }

  lemma SlotIndex(i: nat, r: uint16)
    requires i < SIZE
    ensures (r + (i - r) % SIZE) % SIZE == i
  {}

  lemma SlotIndexAfterPop(i: nat, r: uint16)
    requires i < SIZE
    ensures (i - (r + 1) % WRAP) % SIZE == if (i - r) % SIZE == 0 then SIZE - 1 else (i - r) % SIZE - 1
  {}

  lemma FilledIsQueued<T>(r: Ring<T>, i: nat)
    requires r.Valid() && Filled(r, i)
    ensures r.slots[i] in r.Queue()
  {
    SlotIndex(i, r.read);
    assert r.Queue()[(i - r.read) % SIZE] == r.slots[i];
  }

  lemma FilledAfterPush<T>(r: Ring<T>, x: T, i: nat)
    requires r.Valid() && r.Used() < SIZE && Filled(r.Push(x), i)
    ensures i == r.write % SIZE || Filled(r, i)
  {
    hide Ring.Queue;
    UsedAfterPush(r.read, r.write);
    SlotIndex(i, r.read);
    if (i - r.read) % SIZE == r.Used() {
      SlotOf(r.read, r.write, (i - r.read) % SIZE);
    }
  }

  lemma FilledAfterPop<T>(r: Ring<T>, i: nat)
    requires r.Valid() && r.Used() > 0 && Filled(r.Pop(), i)
    ensures Filled(r, i)
  {
    hide Ring.Queue;
    UsedAfterPop(r.read, r.write);
    SlotIndexAfterPop(i, r.read);
  }

  // ------------------------------------------------------ the literal full test

  /** The ring is full and the write counter has wrapped where the read counter has not. */
  predicate WrappedFull<T>(r: Ring<T>) { r.Used() == SIZE && r.write < r.read }

  /** The source's difference is the number of filled slots exactly while write >= read. */
  lemma LiteralUsedAgrees<T>(r: Ring<T>)
    ensures r.LiteralUsed() == r.Used() <==> r.write >= r.read
  {}

  /** The source's test finds a full ring in every state but the wrapped ones. */
  lemma LiteralFullAgrees<T>(r: Ring<T>)
    ensures (r.LiteralFull() <==> r.Used() == SIZE) <==> !WrappedFull(r)
  {}

  /** In a wrapped full ring the push goes through and replaces the oldest element. */
  lemma WrappedFullLosesOldest<T>(r: Ring<T>, x: T)
    requires r.Valid() && WrappedFull(r)
    ensures !r.LiteralFull()
    ensures |r.Push(x).slots| == SIZE && !r.Push(x).Valid() && r.Push(x).Used() == SIZE + 1
    ensures r.Push(x).Queue() == [x] + r.Queue()[1..] + [x]
  {
    UsedAfterPush(r.read, r.write);
    FullSlot(r.read, r.write);
    forall k: nat | 1 <= k < SIZE ensures r.Push(x).Queue()[k] == r.Queue()[k] {
      FullSlots(r.read, r.write, k);
    }
  }

  lemma FullSlots(r: uint16, w: uint16, k: nat)
    requires (w - r) % WRAP == SIZE && 1 <= k < SIZE
    ensures (r + k) % SIZE != w % SIZE
  {
    FullSlot(r, w);
  }

  lemma FullSlot(r: uint16, w: uint16)
    requires (w - r) % WRAP == SIZE
    ensures r % SIZE == (r + SIZE) % SIZE == w % SIZE
  {
    assert w == if w >= r then r + SIZE else r + SIZE - WRAP;
    assert WRAP == 2048 * SIZE;
  }

  // Such a state is reached: push and pop until the counters are near their end, then fill.

  /** n times push and pop. */
  function Rotate<T>(r: Ring<T>, x: T, n: nat): (r': Ring<T>)
    requires |r.slots| == SIZE
    ensures |r'.slots| == SIZE
    decreases n
  {
    if n == 0 then r else Rotate(r.Push(x).Pop(), x, n - 1)
  }

  function Fill<T>(r: Ring<T>, x: T, n: nat): (r': Ring<T>)
    requires |r.slots| == SIZE
    ensures |r'.slots| == SIZE
    decreases n
  {
    if n == 0 then r else Fill(r.Push(x), x, n - 1)
  }

  lemma {:induction false} RotateCounters<T>(r: Ring<T>, x: T, n: nat)
    requires |r.slots| == SIZE && r.read + n < WRAP && r.Empty()
    ensures var r' := Rotate(r, x, n);
            |r'.slots| == SIZE && r'.read == r'.write == r.read + n
    decreases n
  {
    if n > 0 {
      RotateCounters(r.Push(x).Pop(), x, n - 1);
    }
  }

  lemma {:induction false} FillCounters<T>(r: Ring<T>, x: T, n: nat)
    requires |r.slots| == SIZE && r.Used() + n <= SIZE
    ensures var r' := Fill(r, x, n);
            |r'.slots| == SIZE && r'.read == r.read && r'.write == (r.write + n) % WRAP
    decreases n
  {
    if n > 0 {
      PushUsed(r, x);
      FillCounters(r.Push(x), x, n - 1);
      WrapAdd(r.write + 1, n - 1);
    }
  }

  /** Starting from an empty ring with both counters zero, a wrapped full ring is reached. */
  lemma WrappedFullReached<T>(slots: seq<T>, x: T)
    requires |slots| == SIZE
    ensures var r := Fill(Rotate(Ring(slots, 0, 0), x, WRAP - 6), x, SIZE);
            WrappedFull(r) && r.Valid() && r.read == WRAP - 6 && r.write == SIZE - 6
  {
    hide Rotate, Fill;
    RotateCounters(Ring(slots, 0, 0), x, WRAP - 6);
    FillCounters(Rotate(Ring(slots, 0, 0), x, WRAP - 6), x, SIZE);
  }
}
