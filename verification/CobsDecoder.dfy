/**
 * The byte-at-a-time decoder of user_main/cobs.c as a state machine, and what
 * it delivers for every stream of bytes.
 */
module CobsDecoder {
  import opened Bytes
  import opened Cobs

  /**
   * `Idle` is DEC_IDLE. In DEC_BLOCK, `out` is the decoded part of the buffer,
   * `len` and `cnt` are `block_len` and `block_cnt`.
   */
  datatype State = Idle | Block(out: bytes, len: nonzero, cnt: nonzero, overflow: bool) {
    predicate Valid(size: nat) {
      Block? ==> cnt <= len && |out| <= size
    }
  }

  /** The state after one byte and the message handed to the callback, if any. */
  function Step(st: State, ch: byte, size: nat): (State, seq<bytes>) {
    match st
    case Idle =>
      if ch != 0 then (Block([], ch, ch, false), []) else (Idle, [])
    case Block(out, len, cnt, overflow) =>
      if ch == 0 then
        (Idle, if cnt == 1 && !overflow then [out] else [])
      else if cnt == 1 && len < 0xFF then
        (Block(out + [0], ch, ch, overflow), [])
      else if cnt == 1 then
        (Block(out, ch, ch, overflow), [])
      else if |out| < size then
        (Block(out + [ch], len, cnt - 1, overflow), [])
      else
        (Block(out, len, cnt - 1, true), [])
  }

  /**
   * The implied zero is written without looking at the size of the buffer:
   * this is when it lands behind its end.
   */
  predicate Overruns(st: State, ch: byte, size: nat) {
    st.Block? && ch != 0 && st.cnt == 1 && st.len < 0xFF && |st.out| == size
  }

  function Run(st: State, s: bytes, size: nat): (State, seq<bytes>)
    decreases |s|
  {
    if s == [] then (st, [])
    else
      var (st1, d1) := Step(st, s[0], size);
      var (st2, d2) := Run(st1, s[1..], size);
      (st2, d1 + d2)
  }

  function After(st: State, s: bytes, size: nat): State { Run(st, s, size).0 }

  function Delivered(st: State, s: bytes, size: nat): seq<bytes> { Run(st, s, size).1 }

  /** No byte of the stream makes the decoder write behind its buffer. */
  predicate Safe(st: State, s: bytes, size: nat)
    decreases |s|
  {
    s == [] || (!Overruns(st, s[0], size) && Safe(Step(st, s[0], size).0, s[1..], size))
  }

  /** The stream can be cut anywhere: decoding the parts in turn is decoding the whole. */
  lemma {:induction false} RunConcat(st: State, a: bytes, b: bytes, size: nat)
    ensures After(st, a + b, size) == After(After(st, a, size), b, size)
    ensures Delivered(st, a + b, size) == Delivered(st, a, size) + Delivered(After(st, a, size), b, size)
    ensures Safe(st, a + b, size) <==> Safe(st, a, size) && Safe(After(st, a, size), b, size)
    decreases |a|
  {
    if a == [] {
      assert a + b == b;
    } else {
      assert (a + b)[1..] == a[1..] + b;
      RunConcat(Step(st, a[0], size).0, a[1..], b, size);
    }
  }

  lemma RunSnoc(st: State, s: bytes, ch: byte, size: nat)
    ensures After(st, s + [ch], size) == Step(After(st, s, size), ch, size).0
    ensures Delivered(st, s + [ch], size) == Delivered(st, s, size) + Step(After(st, s, size), ch, size).1
  {
    hide Run;
    RunConcat(st, s, [ch], size);
    var one: bytes := [ch];
    assert one[1..] == [];
    RunFirst(After(st, s, size), one, size);
    RunEmpty(Step(After(st, s, size), ch, size).0, size);
  }

  lemma {:induction false} SafeKeepsValid(st: State, s: bytes, size: nat)
    requires st.Valid(size) && Safe(st, s, size)
    ensures After(st, s, size).Valid(size)
    decreases |s|
  {
    if s != [] {
      SafeKeepsValid(Step(st, s[0], size).0, s[1..], size);
    }
  }

  // ------------------------------------------------------------------- one frame

  // The data bytes of one block: they go to the buffer while there is room.
  function Filled(out: bytes, data: bytes, size: nat): bytes {
    if |out| + |data| <= size then out + data
    else if |out| <= size then out + data[..size - |out|]
    else out
  }

  lemma {:induction false} RunData(out: bytes, len: nonzero, cnt: nonzero, overflow: bool, data: bytes, size: nat)
    requires ZeroFree(data) && |data| < cnt && |out| <= size
    ensures After(Block(out, len, cnt, overflow), data, size) ==
            Block(Filled(out, data, size), len, cnt - |data|, overflow || |out| + |data| > size)
    ensures Delivered(Block(out, len, cnt, overflow), data, size) == []
    ensures Safe(Block(out, len, cnt, overflow), data, size)
    decreases |data|
  {
    if data != [] {
      var st := Step(Block(out, len, cnt, overflow), data[0], size).0;
      RunData(st.out, len, cnt - 1, st.overflow, data[1..], size);
      assert out + [data[0]] + data[1..] == out + data;
      if |out| < size < |out| + |data| {
        assert out + [data[0]] + data[1..][..size - |out| - 1] == out + data[..size - |out|];
      }
    } else {
      assert Filled(out, data, size) == out;
    }
  }

  // The state after the length byte of a block, the first byte of f.
  function Opened(out: bytes, f: bytes, overflow: bool): State
    requires f != [] && f[0] != 0
  {
    Block(out, f[0], f[0], overflow)
  }

  lemma RunFirst(st: State, s: bytes, size: nat)
    requires s != []
    ensures After(st, s, size) == After(Step(st, s[0], size).0, s[1..], size)
    ensures Delivered(st, s, size) == Step(st, s[0], size).1 + Delivered(Step(st, s[0], size).0, s[1..], size)
    ensures Safe(st, s, size) <==> !Overruns(st, s[0], size) && Safe(Step(st, s[0], size).0, s[1..], size)
  {}

  lemma RunEmpty(st: State, size: nat)
    ensures After(st, [], size) == st && Delivered(st, [], size) == [] && Safe(st, [], size)
  {}

  // A block followed by another: its data, then the length byte of the next one.
  lemma NextBlock(out: bytes, overflow: bool, f: bytes, size: nat, data: bytes, rest: bytes, next: State)
    requires ZeroFree(f) && f != [] && |f| > f[0] && |out| <= size
    requires data == f[1..f[0]] && rest == f[f[0]..]
    requires next == Opened(Filled(out, data, size) + Implied(f[0]), rest, overflow || |out| + |data| > size)
    ensures After(Opened(out, f, overflow), f[1..] + [0], size) == After(next, rest[1..] + [0], size)
    ensures Delivered(Opened(out, f, overflow), f[1..] + [0], size) == Delivered(next, rest[1..] + [0], size)
    ensures Safe(Opened(out, f, overflow), f[1..] + [0], size) <==>
            !(f[0] < 0xFF && |Filled(out, data, size)| == size) && Safe(next, rest[1..] + [0], size)
  {
    hide After, Delivered, Safe;
    var st, tail := Opened(out, f, overflow), rest + [0];
    assert f[1..] + [0] == data + tail;
    assert ZeroFree(data) && |data| == f[0] - 1;
    RunConcat(st, data, tail, size);
    RunData(out, f[0], f[0], overflow, data, size);
    var mid := After(st, data, size);
    assert Filled(out, data, size) + [] == Filled(out, data, size);
    assert Step(mid, rest[0], size) == (next, []);
    RunFirst(mid, tail, size);
    assert tail[0] == rest[0] && tail[1..] == rest[1..] + [0];
  }

  // The last block, complete or not, and the zero that ends the frame.
  lemma LastBlock(out: bytes, overflow: bool, f: bytes, size: nat)
    requires ZeroFree(f) && f != [] && |f| <= f[0] && |out| <= size
    ensures Safe(Opened(out, f, overflow), f[1..] + [0], size)
    ensures After(Opened(out, f, overflow), f[1..] + [0], size) == Idle
    ensures Delivered(Opened(out, f, overflow), f[1..] + [0], size) ==
            if |f| == f[0] && !overflow && |out| + |f| - 1 <= size then [out + f[1..]] else []
  {
    hide After, Delivered, Safe;
    var st := Opened(out, f, overflow);
    RunConcat(st, f[1..], [0], size);
    RunData(out, f[0], f[0], overflow, f[1..], size);
    RunFirst(After(st, f[1..], size), [0], size);
    var end: bytes := [0];
    assert end[1..] == [];
    RunEmpty(Idle, size);
  }

  /** A frame whose message fits is delivered, whatever block it starts in. */
  lemma {:induction false} Accepts(out: bytes, f: bytes, size: nat)
    requires ZeroFree(f) && Unstuff(f).Some?
    requires |out| + |Unstuff(f).value| <= size
    ensures Safe(Opened(out, f, false), f[1..] + [0], size)
    ensures After(Opened(out, f, false), f[1..] + [0], size) == Idle
    ensures Delivered(Opened(out, f, false), f[1..] + [0], size) == [out + Unstuff(f).value]
    decreases |f|
  {
    hide After, Delivered, Safe;
    if |f| == f[0] {
      LastBlock(out, false, f, size);
      assert f[1..f[0]] == f[1..];
    } else {
      var data, rest := f[1..f[0]], f[f[0]..];
      var next := Opened(out + data + Implied(f[0]), rest, false);
      NextBlock(out, false, f, size, data, rest, next);
      Accepts(out + data + Implied(f[0]), rest, size);
      assert out + data + Implied(f[0]) + Unstuff(rest).value == out + (data + Implied(f[0]) + Unstuff(rest).value);
    }
  }

  /** A frame that is incomplete, does not fit or overflowed before delivers nothing. */
  lemma {:induction false} Rejects(out: bytes, overflow: bool, f: bytes, size: nat)
    requires ZeroFree(f) && f != [] && |out| <= size
    requires Safe(Opened(out, f, overflow), f[1..] + [0], size)
    requires overflow || Unstuff(f).None? || |out| + |Unstuff(f).value| > size
    ensures After(Opened(out, f, overflow), f[1..] + [0], size) == Idle
    ensures Delivered(Opened(out, f, overflow), f[1..] + [0], size) == []
    decreases |f|
  {
    hide After, Delivered, Safe;
    if |f| <= f[0] {
      LastBlock(out, overflow, f, size);
      assert |f| == f[0] ==> f[1..f[0]] == f[1..];
    } else {
      var data, rest := f[1..f[0]], f[f[0]..];
      var out' := Filled(out, data, size) + Implied(f[0]);
      var overflow' := overflow || |out| + |data| > size;
      NextBlock(out, overflow, f, size, data, rest, Opened(out', rest, overflow'));
      Rejects(out', overflow', rest, size);
    }
  }

  // ---------------------------------------------------------------- main results

  lemma FromIdle(f: bytes, size: nat)
    requires ZeroFree(f) && f != []
    ensures After(Idle, f + [0], size) == After(Opened([], f, false), f[1..] + [0], size)
    ensures Delivered(Idle, f + [0], size) == Delivered(Opened([], f, false), f[1..] + [0], size)
    ensures Safe(Idle, f + [0], size) == Safe(Opened([], f, false), f[1..] + [0], size)
  {
    hide After, Delivered, Safe;
    RunFirst(Idle, f + [0], size);
    assert (f + [0])[1..] == f[1..] + [0];
  }

  /** What one frame delivers: its message, if it has one that fits the buffer. */
  lemma FrameOutcome(f: bytes, size: nat)
    requires ZeroFree(f) && f != [] && Safe(Idle, f + [0], size)
    ensures After(Idle, f + [0], size) == Idle
    ensures Delivered(Idle, f + [0], size) ==
            if Unstuff(f).Some? && |Unstuff(f).value| <= size then [Unstuff(f).value] else []
  {
    hide After, Delivered, Safe;
    FromIdle(f, size);
    if Unstuff(f).Some? && |Unstuff(f).value| <= size {
      Accepts([], f, size);
      assert [] + Unstuff(f).value == Unstuff(f).value;
    } else {
      Rejects([], false, f, size);
    }
  }

  /**
   * Round trip: the encoding of a message that fits the buffer is safe to
   * decode and delivers that message and nothing else.
   */
  lemma RoundTrip(m: bytes, size: nat)
    requires |m| <= size
    ensures Safe(Idle, Encode(m), size)
    ensures After(Idle, Encode(m), size) == Idle
    ensures Delivered(Idle, Encode(m), size) == [m]
  {
    hide After, Delivered, Safe;
    UnstuffStuff([], m);
    assert [] + m == m;
    FromIdle(Stuff([], m), size);
    Accepts([], Stuff([], m), size);
  }

  // A stretch of wire: frames and stray zeros.
  datatype Item = Stray | Frame(message: bytes)

  function Wire(items: seq<Item>): bytes {
    if items == [] then []
    else (match items[0] case Stray => [0] case Frame(m) => Encode(m)) + Wire(items[1..])
  }

  function Messages(items: seq<Item>): seq<bytes> {
    if items == [] then []
    else (match items[0] case Stray => [] case Frame(m) => [m]) + Messages(items[1..])
  }

  predicate Fit(items: seq<Item>, size: nat) {
    forall i :: 0 <= i < |items| && items[i].Frame? ==> |items[i].message| <= size
  }

  /** A stretch of frames delivers its messages in order; stray zeros change nothing. */
  lemma {:induction false} WireDelivers(items: seq<Item>, size: nat)
    requires Fit(items, size)
    ensures Safe(Idle, Wire(items), size)
    ensures After(Idle, Wire(items), size) == Idle
    ensures Delivered(Idle, Wire(items), size) == Messages(items)
    decreases |items|
  {
    hide After, Delivered, Safe;
    if items == [] {
      RunEmpty(Idle, size);
    } else {
      WireDelivers(items[1..], size);
      match items[0] {
        case Stray =>
          RunFirst(Idle, [0] + Wire(items[1..]), size);
          assert ([0] + Wire(items[1..]))[1..] == Wire(items[1..]);
        case Frame(m) =>
          RoundTrip(m, size);
          RunConcat(Idle, Encode(m), Wire(items[1..]), size);
      }
    }
  }

  /**
   * Resynchronisation: whatever state the decoder is in and whatever came
   * before, after one zero byte every following frame is delivered, exactly
   * and in order.
   */
  lemma Resynchronises(st: State, junk: bytes, items: seq<Item>, size: nat)
    requires Safe(st, junk + [0], size) && Fit(items, size)
    ensures Safe(st, junk + [0] + Wire(items), size)
    ensures After(st, junk + [0] + Wire(items), size) == Idle
    ensures Delivered(st, junk + [0] + Wire(items), size) == Delivered(st, junk + [0], size) + Messages(items)
  {
    hide After, Delivered, Safe;
    var mid := After(st, junk, size);
    RunConcat(st, junk, [0], size);
    RunFirst(mid, [0], size);
    var end: bytes := [0];
    assert end[1..] == [];
    RunEmpty(Idle, size);
    RunConcat(st, junk + [0], Wire(items), size);
    WireDelivers(items, size);
  }

  /** What a part of a stream delivers is the beginning of what the whole delivers. */
  lemma PrefixDelivers(st: State, a: bytes, b: bytes, size: nat)
    requires a <= b
    ensures Delivered(st, a, size) <= Delivered(st, b, size)
  {
    RunConcat(st, a, b[|a|..], size);
    assert b == a + b[|a|..];
  }

  // ------------------------------------------------------------ memory safety

  /** Every stretch of the stream without a zero has at most n bytes. */
  ghost predicate RunsAtMost(s: bytes, n: nat) {
    forall i, j :: 0 <= i <= j <= |s| && ZeroFree(s[i..j]) ==> j - i <= n
  }

  // k bytes of the current stretch have been decoded already.
  lemma {:induction false} BoundedRunsAreSafe(st: State, k: nat, s: bytes, size: nat)
    requires st.Valid(size) && (st.Block? ==> |st.out| < k)
    requires RunsAtMost(s, size + 1)
    requires st.Block? ==> forall j :: 0 <= j <= |s| && ZeroFree(s[..j]) ==> k + j <= size + 1
    ensures Safe(st, s, size)
    decreases |s|
  {
    if s != [] {
      var next := Step(st, s[0], size).0;
      forall i, j | 0 <= i <= j <= |s[1..]| && ZeroFree(s[1..][i..j])
        ensures j - i <= size + 1
      {
        assert s[1..][i..j] == s[i + 1..j + 1];
      }
      var k' := if st.Block? then k + 1 else 1;
      if s[0] != 0 {
        forall j | 0 <= j <= |s[1..]| && ZeroFree(s[1..][..j])
          ensures k' + j <= size + 1
        {
          assert s[..j + 1] == [s[0]] + s[1..][..j];
          assert s[0..j + 1] == s[..j + 1];
        }
        assert s[..1] == [s[0]];
      }
      BoundedRunsAreSafe(next, k', s[1..], size);
    }
  }

  /**
   * From idle, a stream whose zero-free stretches have at most one byte more
   * than the buffer never makes the decoder write behind it.
   */
  lemma ShortRunsAreSafe(s: bytes, size: nat)
    requires RunsAtMost(s, size + 1)
    ensures Safe(Idle, s, size)
  {
    BoundedRunsAreSafe(Idle, 0, s, size);
  }

  /**
   * No implied zero of the frame comes after as many decoded bytes as the
   * buffer holds; n bytes have been decoded before f.
   */
  predicate ImpliedZerosFit(n: nat, f: bytes, size: nat)
    requires ZeroFree(f)
    decreases |f|
  {
    f == [] || |f| <= f[0] || (
      && (f[0] < 0xFF ==> n + f[0] - 1 < size)
      && ImpliedZerosFit(n + f[0] - 1 + |Implied(f[0])|, f[f[0]..], size))
  }

  lemma {:induction false} SafeFromExactly(n: nat, out: bytes, overflow: bool, f: bytes, size: nat)
    requires ZeroFree(f) && f != []
    requires |out| == if n < size then n else size
    ensures Safe(Opened(out, f, overflow), f[1..] + [0], size) <==> ImpliedZerosFit(n, f, size)
    decreases |f|
  {
    hide After, Delivered, Safe;
    if |f| <= f[0] {
      LastBlock(out, overflow, f, size);
    } else {
      var data, rest := f[1..f[0]], f[f[0]..];
      var out' := Filled(out, data, size) + Implied(f[0]);
      var overflow' := overflow || |out| + |data| > size;
      NextBlock(out, overflow, f, size, data, rest, Opened(out', rest, overflow'));
      if f[0] == 0xFF || n + f[0] - 1 < size {
        SafeFromExactly(n + f[0] - 1 + |Implied(f[0])|, out', overflow', rest, size);
      }
    }
  }

  /** Exactly when a frame received from idle stays inside the buffer. */
  lemma SafeExactly(f: bytes, size: nat)
    requires ZeroFree(f) && f != []
    ensures Safe(Idle, f + [0], size) <==> ImpliedZerosFit(0, f, size)
  {
    hide After, Delivered, Safe;
    FromIdle(f, size);
    SafeFromExactly(0, [], false, f, size);
  }

  /** n bytes 0x01: one length byte and n - 1 implied zeros. */
  function Ones(n: nat): bytes { seq(n, _ => 1) }

  /** The bound is tight: for every buffer, one byte more can already write behind it. */
  lemma LongerRunOverruns(size: nat)
    ensures ZeroFree(Ones(size + 2)) && |Ones(size + 2)| == size + 2
    ensures !Safe(Idle, Ones(size + 2), size)
  {
    var s := Ones(size + 2);
    RunFirst(Idle, s, size);
    assert s[1..] == Ones(size + 1);
    OnesFill([], size + 1, size);
  }

  lemma {:induction false} OnesFill(out: bytes, n: nat, size: nat)
    requires |out| + n == size + 1 && |out| <= size
    ensures !Safe(Block(out, 1, 1, false), Ones(n), size)
    decreases n
  {
    var s := Ones(n);
    RunFirst(Block(out, 1, 1, false), s, size);
    if |out| < size {
      assert s[1..] == Ones(n - 1);
      OnesFill(out + [0], n - 1, size);
    }
  }
}
