/**
 * `cobs_encode` of user_main/cobs.c in the form it has there: walking through
 * the message, writing to a buffer and going back to patch the length bytes.
 */
module CobsCodec {
  import opened Bytes
  import Cobs

  // ------------------------------------------------------------------- encoder

  // What the encoder has written when the blocks in `closed` are complete, `run` is the data
  // of the open block and `rest` is still to be read.
  ghost predicate Written(src: bytes, closed: bytes, run: bytes, rest: bytes) {
    |run| < Cobs.FULL && Cobs.Encode(src) == closed + Cobs.Stuff(run, rest) + [0]
  }

  lemma CloseBlock(src: bytes, closed: bytes, run: bytes, rest: bytes)
    requires Written(src, closed, run, rest) && rest != [] && rest[0] == 0
    ensures Written(src, closed + [|run| + 1] + run, [], rest[1..])
  {
    var tail := Cobs.Stuff([], rest[1..]);
    assert closed + [|run| + 1] + run + tail + [0] == closed + ([|run| + 1] + run + tail) + [0];
  }

  lemma ExtendBlock(src: bytes, closed: bytes, run: bytes, rest: bytes)
    requires Written(src, closed, run, rest) && rest != [] && rest[0] != 0
    requires |run| + 1 < Cobs.FULL
    ensures Written(src, closed, run + [rest[0]], rest[1..])
  {}

  lemma FillBlock(src: bytes, closed: bytes, run: bytes, rest: bytes)
    requires Written(src, closed, run, rest) && rest != [] && rest[0] != 0
    requires |run| + 1 == Cobs.FULL
    ensures |rest| > 1 ==> Written(src, closed + [0xFF] + (run + [rest[0]]), [], rest[1..])
    ensures |rest| == 1 ==> Cobs.Encode(src) == closed + [0xFF] + (run + [rest[0]]) + [0]
  {
    if |rest| > 1 {
      var tail := Cobs.Stuff([], rest[1..]);
      var full := run + [rest[0]];
      assert closed + [0xFF] + full + tail + [0] == closed + ([0xFF] + full + tail) + [0];
    }
  }

  // The buffer after n bytes: closed blocks, a place for a length byte, the open block's data.
  ghost predicate Holds(buf: bytes, closed: bytes, run: bytes) {
    && |closed| + 1 + |run| <= |buf|
    && buf[..|closed|] == closed
    && buf[|closed| + 1..|closed| + 1 + |run|] == run
  }

  lemma HoldsData(buf: bytes, closed: bytes, run: bytes, ch: byte)
    requires Holds(buf, closed, run) && |closed| + 1 + |run| < |buf|
    ensures Holds(buf[|closed| + 1 + |run| := ch], closed, run + [ch])
  {}

  lemma HoldsPatched(buf: bytes, closed: bytes, run: bytes, code: byte)
    requires Holds(buf, closed, run)
    ensures buf[|closed| := code][..|closed| + 1 + |run|] == closed + [code] + run
    ensures |closed| + 1 + |run| < |buf| ==> Holds(buf[|closed| := code], closed + [code] + run, [])
  {}

  /** The encoder's loop invariant, on the contents of the buffer. */
  ghost predicate Encoding(src: bytes, i: nat, buf: bytes, closed: bytes, run: bytes) {
    && i <= |src| && |run| < Cobs.FULL
    && Written(src, closed, run, src[i..])
    && Holds(buf, closed, run)
    && |closed| + 1 + |run| < |Cobs.Encode(src)| <= |buf|
  }

  lemma EncodingStarts(src: bytes, buf: bytes)
    requires |buf| >= Cobs.MaxSize(|src|) && |buf| >= 2
    ensures Encoding(src, 0, buf, [], [])
  {
    Cobs.EncodeBound(src);
    assert src[0..] == src;
    assert [] + Cobs.Stuff([], src) == Cobs.Stuff([], src);
  }

  // The capacity test of the encoder never fails.
  lemma EncodingHasRoom(src: bytes, i: nat, buf: bytes, closed: bytes, run: bytes)
    requires Encoding(src, i, buf, closed, run) && i < |src|
    ensures |closed| + 1 + |run| < Cobs.MaxSize(|src|) - 1
  {
    Cobs.EncodeBound(src);
  }

  lemma EncodingZero(src: bytes, i: nat, buf: bytes, closed: bytes, run: bytes)
    requires Encoding(src, i, buf, closed, run) && i < |src| && src[i] == 0
    ensures Encoding(src, i + 1, buf[|closed| := |run| + 1], closed + [|run| + 1] + run, [])
  {
    hide Cobs.Encode, Cobs.Stuff;
    assert src[i..][1..] == src[i + 1..];
    CloseBlock(src, closed, run, src[i..]);
    WrittenRoom(src, closed + [|run| + 1] + run, [], src[i + 1..]);
    HoldsPatched(buf, closed, run, |run| + 1);
  }

  lemma EncodingData(src: bytes, i: nat, buf: bytes, closed: bytes, run: bytes)
    requires Encoding(src, i, buf, closed, run) && i < |src| && src[i] != 0
    requires |run| + 1 < Cobs.FULL
    ensures Encoding(src, i + 1, buf[|closed| + 1 + |run| := src[i]], closed, run + [src[i]])
  {
    hide Cobs.Encode, Cobs.Stuff;
    assert src[i..][1..] == src[i + 1..];
    ExtendBlock(src, closed, run, src[i..]);
    WrittenRoom(src, closed, run + [src[i]], src[i + 1..]);
    HoldsData(buf, closed, run, src[i]);
  }

  lemma EncodingFull(src: bytes, i: nat, buf: bytes, closed: bytes, run: bytes, full: bytes)
    requires Encoding(src, i, buf, closed, run) && i + 1 < |src| && src[i] != 0
    requires |run| + 1 == Cobs.FULL && full == run + [src[i]]
    ensures Encoding(src, i + 1, buf[|closed| + 1 + |run| := src[i]][|closed| := 0xFF], closed + [0xFF] + full, [])
  {
    hide Cobs.Encode, Cobs.Stuff;
    assert src[i..][1..] == src[i + 1..];
    FillBlock(src, closed, run, src[i..]);
    WrittenRoom(src, closed + [0xFF] + full, [], src[i + 1..]);
    HoldsData(buf, closed, run, src[i]);
    HoldsPatched(buf[|closed| + 1 + |run| := src[i]], closed, full, 0xFF);
  }

  // What is left to write at the end: the last length byte and the zero.
  ghost predicate Ending(src: bytes, buf: bytes, closed: bytes, run: bytes) {
    && Holds(buf, closed, run) && |run| < 0xFF
    && Cobs.Encode(src) == closed + [|run| + 1] + run + [0]
    && |Cobs.Encode(src)| <= |buf|
  }

  lemma EndsPartial(src: bytes, buf: bytes, closed: bytes, run: bytes)
    requires Encoding(src, |src|, buf, closed, run)
    ensures Ending(src, buf, closed, run)
  {
    assert src[|src|..] == [];
  }

  lemma EndsFull(src: bytes, i: nat, buf: bytes, closed: bytes, run: bytes)
    requires Encoding(src, i, buf, closed, run) && i + 1 == |src| && src[i] != 0
    requires |run| + 1 == Cobs.FULL
    ensures Ending(src, buf[|closed| + 1 + |run| := src[i]], closed, run + [src[i]])
  {
    hide Cobs.Encode, Cobs.Stuff;
    FillBlock(src, closed, run, src[i..]);
    HoldsData(buf, closed, run, src[i]);
  }

  lemma Ended(src: bytes, buf: bytes, closed: bytes, run: bytes)
    requires Ending(src, buf, closed, run)
    ensures |closed| + 1 + |run| + 1 == |Cobs.Encode(src)| <= |buf|
    ensures buf[|closed| := |run| + 1][|closed| + 1 + |run| := 0][..|Cobs.Encode(src)|] == Cobs.Encode(src)
  {
    HoldsPatched(buf, closed, run, |run| + 1);
  }

  lemma WrittenRoom(src: bytes, closed: bytes, run: bytes, rest: bytes)
    requires Written(src, closed, run, rest)
    ensures |closed| + 1 + |run| + |rest| < |Cobs.Encode(src)|
  {}

  lemma EncodingBounds(src: bytes, i: nat, buf: bytes, closed: bytes, run: bytes)
    requires Encoding(src, i, buf, closed, run)
    ensures |run| < Cobs.FULL && |closed| + 1 + |run| < |Cobs.Encode(src)| <= |buf|
  {}

  /**
   * `cobs_encode`. The caller's buffer has COBS_ENCODED_MAX_SIZE bytes, and two
   * for the empty message. The guard that returns -1 is never taken, and what
   * lies behind the encoded frame is not touched.
   */
  method Encode(dst: array<byte>, src: bytes) returns (r: int)
    requires dst.Length >= Cobs.MaxSize(|src|) && dst.Length >= 2
    modifies dst
    ensures r == |Cobs.Encode(src)| <= dst.Length
    ensures dst[..r] == Cobs.Encode(src)
    ensures forall k :: r <= k < dst.Length ==> dst[k] == old(dst[k])
  {
    hide Cobs.Encode, Encoding, Ending;
    ghost var n := |Cobs.Encode(src)|;
    EncodingStarts(src, dst[..]);
    EncodingBounds(src, 0, dst[..], [], []);
    ghost var closed, run: bytes := [], [];
    ghost var buf: bytes := dst[..];
    var codeEnd := Cobs.MaxSize(|src|) - 1;
    var codeLen: byte := 1;
    var codePtr, d, i := 0, 1, 0;
    while i < |src|
      invariant 0 <= i <= |src|
      invariant codePtr == |closed| && codeLen == |run| + 1 && d == codePtr + codeLen
      invariant buf == dst[..] && Encoding(src, i, buf, closed, run)
      invariant forall k :: n <= k < dst.Length ==> dst[k] == old(dst[k])
    {
      EncodingBounds(src, i, buf, closed, run);
      EncodingHasRoom(src, i, buf, closed, run);
      var ch := src[i];
      i := i + 1;
      if d >= codeEnd {
        assert false;
        return -1;
      }
      if ch == 0 {
        EncodingZero(src, i - 1, buf, closed, run);
        closed, run := closed + [codeLen] + run, [];
        dst[codePtr] := codeLen;
        buf := buf[codePtr := codeLen];
        codePtr := d;
        d := d + 1;
        codeLen := 1;
      } else {
        dst[d] := ch;
        d := d + 1;
        codeLen := codeLen + 1;
        if codeLen == 0xFF {
          if i == |src| {
            EndsFull(src, i - 1, buf, closed, run);
            buf, run := buf[d - 1 := ch], run + [ch];
            break;
          }
          EncodingFull(src, i - 1, buf, closed, run, run + [ch]);
          closed, run := closed + [0xFF] + (run + [ch]), [];
          dst[codePtr] := codeLen;
          buf := buf[d - 1 := ch][codePtr := codeLen];
          codePtr := d;
          d := d + 1;
          codeLen := 1;
        } else {
          EncodingData(src, i - 1, buf, closed, run);
          buf, run := buf[d - 1 := ch], run + [ch];
        }
      }
    }
    if codeLen < 0xFF {
      EndsPartial(src, buf, closed, run);
    }
    Ended(src, buf, closed, run);
    dst[codePtr] := codeLen;
    dst[d] := 0;
    ghost var done: bytes := buf[codePtr := codeLen][d := 0];
    assert dst[..] == done;
    d := d + 1;
    return d;
  }
}
