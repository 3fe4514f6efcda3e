/**
 * Consistent overhead byte stuffing as user_main/cobs.c spells it: what the
 * encoder writes, what a frame means, and that the two agree.
 */
module Cobs {
  import opened Bytes

  const FULL: nat := 254  // COBS_MAX_DISTANCE: data bytes in a full block

  /** `COBS_ENCODED_MAX_SIZE`. */
  function MaxSize(n: nat): nat { n + (n + FULL - 1) / FULL + 1 }

  // ------------------------------------------------------------------- encoding

  /**
   * The blocks the encoder still has to write when `open` are the data bytes
   * of the block it is in and `rest` is what is left of the message.
   */
  function Stuff(open: bytes, rest: bytes): (r: bytes)
    requires |open| < FULL
    ensures |r| >= 1 + |open| + |rest|
    decreases |rest|
  {
    if rest == [] then
      [|open| + 1] + open
    else if rest[0] == 0 then
      [|open| + 1] + open + Stuff([], rest[1..])
    else
      var run := open + [rest[0]];
      if |run| < FULL then Stuff(run, rest[1..])
      else if rest[1..] == [] then [0xFF] + run
      else [0xFF] + run + Stuff([], rest[1..])
  }

  /** The bytes `cobs_encode` writes for a message. */
  function Encode(m: bytes): bytes { Stuff([], m) + [0] }

  // ------------------------------------------------------------------- decoding

  /**
   * What the zero-free part of a frame means: blocks of a length byte and one
   * data byte less, with a zero implied between blocks unless the earlier one
   * is full. None if the last block is incomplete.
   */
  function Unstuff(f: bytes): Option<bytes>
    requires ZeroFree(f)
    decreases |f|
  {
    if f == [] || |f| < f[0] then None
    else
      var code, data, rest := f[0], f[1..f[0]], f[f[0]..];
      if rest == [] then Some(data)
      else match Unstuff(rest)
        case None => None
        case Some(m) => Some(data + Implied(code) + m)
  }

  function Implied(code: byte): bytes { if code < 0xFF then [0] else [] }

  /** The last block of the frame is full. */
  predicate FullTail(f: bytes)
    requires ZeroFree(f)
    decreases |f|
  {
    f != [] && |f| >= f[0] && if |f| == f[0] then f[0] == 0xFF else FullTail(f[f[0]..])
  }

  // ----------------------------------------------------------------- the lemmas

  lemma {:induction false} StuffZeroFree(open: bytes, rest: bytes)
    requires |open| < FULL && ZeroFree(open)
    ensures ZeroFree(Stuff(open, rest))
    decreases |rest|
  {
    if rest == [] {
    } else if rest[0] == 0 {
      StuffZeroFree([], rest[1..]);
    } else {
      var run := open + [rest[0]];
      if |run| < FULL {
        StuffZeroFree(run, rest[1..]);
      } else if rest[1..] != [] {
        StuffZeroFree([], rest[1..]);
      }
    }
  }

  /** A frame holds exactly one zero byte, its last. */
  lemma OneZero(m: bytes)
    ensures var e := Encode(m); forall i :: 0 <= i < |e| ==> (e[i] == 0 <==> i == |e| - 1)
  {
    StuffZeroFree([], m);
  }

  lemma {:induction false} StuffLength(open: bytes, rest: bytes)
    requires |open| < FULL && ZeroFree(open)
    requires |open| + |rest| >= 1
    ensures |Stuff(open, rest)| <= |open| + |rest| + (|open| + |rest| + FULL - 1) / FULL
    ensures ZeroFree(rest) ==> |Stuff(open, rest)| == |open| + |rest| + (|open| + |rest| + FULL - 1) / FULL
    decreases |rest|
  {
    if rest == [] {
    } else if rest[0] == 0 {
      if rest[1..] != [] {
        StuffLength([], rest[1..]);
      }
    } else {
      var run := open + [rest[0]];
      assert ZeroFree(rest) ==> ZeroFree(rest[1..]);
      if |run| < FULL {
        StuffLength(run, rest[1..]);
      } else if rest[1..] != [] {
        StuffLength([], rest[1..]);
      }
    }
  }

  /**
   * `COBS_ENCODED_MAX_SIZE` bounds the encoding of every message but the empty
   * one, which takes two bytes where the macro says one; messages without a
   * zero byte need all of it.
   */
  lemma EncodeBound(m: bytes)
    ensures |Encode(m)| <= MaxSize(|m|) <==> |m| >= 1
    ensures m != [] && ZeroFree(m) ==> |Encode(m)| == MaxSize(|m|)
  {
    if m != [] {
      StuffLength([], m);
    }
  }

  lemma UnstuffBlock(code: byte, data: bytes, e: bytes)
    requires 1 <= code && |data| == code - 1 && ZeroFree(data) && ZeroFree(e)
    ensures ZeroFree([code] + data + e)
    ensures Unstuff([code] + data + e) ==
            if e == [] then Some(data)
            else if Unstuff(e).None? then None
            else Some(data + Implied(code) + Unstuff(e).value)
  {
    var f := [code] + data + e;
    assert f[1..code] == data && f[code..] == e;
  }

  /** Decoding undoes encoding. */
  lemma {:induction false} UnstuffStuff(open: bytes, rest: bytes)
    requires |open| < FULL && ZeroFree(open)
    ensures ZeroFree(Stuff(open, rest)) && Unstuff(Stuff(open, rest)) == Some(open + rest)
    decreases |rest|
  {
    hide Unstuff;
    StuffZeroFree(open, rest);
    if rest == [] {
      UnstuffBlock(|open| + 1, open, []);
      assert [|open| + 1] + open + [] == [|open| + 1] + open && open + rest == open;
    } else if rest[0] == 0 {
      UnstuffStuff([], rest[1..]);
      UnstuffBlock(|open| + 1, open, Stuff([], rest[1..]));
      assert open + [0] + ([] + rest[1..]) == open + rest;
    } else {
      var run := open + [rest[0]];
      assert run + rest[1..] == open + rest;
      if |run| < FULL {
        UnstuffStuff(run, rest[1..]);
      } else if rest[1..] == [] {
        UnstuffBlock(0xFF, run, []);
        assert [0xFF] + run + [] == [0xFF] + run && open + rest == run;
      } else {
        UnstuffStuff([], rest[1..]);
        UnstuffBlock(0xFF, run, Stuff([], rest[1..]));
        assert run + [] + ([] + rest[1..]) == open + rest;
      }
    }
  }

  lemma EncodeInjective(a: bytes, b: bytes)
    requires Encode(a) == Encode(b)
    ensures a == b
  {
    UnstuffStuff([], a);
    UnstuffStuff([], b);
    assert [] + a == a && [] + b == b;
    assert Stuff([], a) == Encode(a)[..|Encode(a)| - 1];
    assert Stuff([], b) == Encode(b)[..|Encode(b)| - 1];
  }

  lemma {:induction false} StuffRun(open: bytes, data: bytes, rest: bytes)
    requires |open| + |data| < FULL && ZeroFree(data)
    ensures Stuff(open, data + rest) == Stuff(open + data, rest)
    decreases |data|
  {
    if data == [] {
      assert data + rest == rest && open + data == open;
    } else {
      assert (data + rest)[1..] == data[1..] + rest;
      StuffRun(open + [data[0]], data[1..], rest);
      assert open + [data[0]] + data[1..] == open + data;
    }
  }

  lemma StuffFull(data: bytes, rest: bytes)
    requires |data| == FULL && ZeroFree(data)
    ensures Stuff([], data + rest) == [0xFF] + data + if rest == [] then [] else Stuff([], rest)
  {
    var head, last := data[..FULL - 1], data[FULL - 1];
    assert data + rest == head + ([last] + rest);
    StuffRun([], head, [last] + rest);
    assert [] + head == head && head + [last] == data;
    assert ([last] + rest)[1..] == rest;
  }

  /** The encoder's spelling of m, or that spelling with an empty block after a full one. */
  predicate Spelling(f: bytes, m: bytes) {
    var e := Stuff([], m);
    f == e || (ZeroFree(e) && FullTail(e) && f == e + [1])
  }

  lemma FullTailExtends(code: byte, data: bytes, e: bytes)
    requires 1 <= code && |data| == code - 1 && ZeroFree(data) && e != [] && ZeroFree(e)
    ensures ZeroFree([code] + data + e)
    ensures FullTail([code] + data + e) == FullTail(e)
  {
    assert ([code] + data + e)[code..] == e;
  }

  lemma SpellingAfterBlock(code: byte, data: bytes, rest: bytes, m: bytes)
    requires 1 <= code < 0xFF && |data| == code - 1 && ZeroFree(data)
    requires ZeroFree(rest) && Spelling(rest, m)
    ensures Spelling([code] + data + rest, data + [0] + m)
  {
    var e := Stuff([], m);
    assert data + [0] + m == data + ([0] + m);
    StuffRun([], data, [0] + m);
    assert [] + data == data && ([0] + m)[1..] == m;
    assert Stuff([], data + [0] + m) == [code] + data + e;
    StuffZeroFree([], m);
    FullTailExtends(code, data, e);
    if rest != e {
      assert [code] + data + rest == [code] + data + e + [1];
    }
  }

  lemma SpellingAfterFull(data: bytes, rest: bytes, m: bytes)
    requires |data| == FULL && ZeroFree(data)
    requires ZeroFree(rest) && Spelling(rest, m)
    ensures Spelling([0xFF] + data + rest, data + m)
  {
    var e := Stuff([], m);
    StuffZeroFree([], m);
    StuffFull(data, m);
    if m != [] {
      FullTailExtends(0xFF, data, e);
      if rest != e {
        assert [0xFF] + data + rest == [0xFF] + data + e + [1];
      }
    } else {
      assert data + m == data && rest == [1];
      assert FullTail([0xFF] + data);
    }
  }

  /** Every accepted frame is one of the two spellings of what it decodes to. */
  lemma {:induction false} AcceptedIsSpelling(f: bytes)
    requires ZeroFree(f) && Unstuff(f).Some?
    ensures Spelling(f, Unstuff(f).value)
    decreases |f|
  {
    var code, data, rest := f[0], f[1..f[0]], f[f[0]..];
    assert f == [code] + data + rest;
    assert ZeroFree(data) && ZeroFree(rest);
    if rest == [] {
      assert data + [] == data && [] + data == data;
      if code < 0xFF {
        StuffRun([], data, []);
      } else {
        StuffFull(data, []);
      }
    } else {
      AcceptedIsSpelling(rest);
      var m := Unstuff(rest).value;
      if code < 0xFF {
        SpellingAfterBlock(code, data, rest, m);
      } else {
        SpellingAfterFull(data, rest, m);
        assert data + [] + m == data + m;
      }
    }
  }

  /** And both spellings are accepted. */
  lemma {:induction false} FullTailThenOne(e: bytes)
    requires ZeroFree(e) && FullTail(e)
    ensures ZeroFree(e + [1]) && Unstuff(e).Some? && Unstuff(e + [1]) == Unstuff(e)
    decreases |e|
  {
    var f, code := e + [1], e[0];
    assert f[1..code] == e[1..code] && f[code..] == e[code..] + [1];
    if |e| == code {
      assert f[code..] == [1];
      assert [1][1..1] == [] && Unstuff([1]) == Some([]);
      assert e[1..code] + [] + [] == e[1..code];
    } else {
      FullTailThenOne(e[code..]);
    }
  }

  /**
   * Near-canonicity: the frames that decode to m are exactly its encoding and,
   * if that ends in a full block, its encoding with an empty block added.
   */
  lemma SpellingsExact(f: bytes, m: bytes)
    ensures (ZeroFree(f) && Unstuff(f) == Some(m)) <==> Spelling(f, m)
  {
    UnstuffStuff([], m);
    assert [] + m == m;
    if ZeroFree(f) && Unstuff(f) == Some(m) {
      AcceptedIsSpelling(f);
    }
    if Spelling(f, m) && f != Stuff([], m) {
      FullTailThenOne(Stuff([], m));
    }
  }

  lemma StuffBlock(data: bytes, rest: bytes)
    requires |data| < FULL && ZeroFree(data)
    ensures Stuff([], data + ([0] + rest)) == [|data| + 1] + data + Stuff([], rest)
    ensures Stuff([], data) == [|data| + 1] + data
  {
    StuffRun([], data, [0] + rest);
    StuffRun([], data, []);
    assert data + [] == data && [] + data == data && ([0] + rest)[1..] == rest;
  }

  /** The example in user_main/message.h. */
  lemma DocumentedExample()
    ensures Encode([0x13, 0x08, 0x00, 0xF0, 0x00, 0x00, 0x34, 0xA4, 0x11]) ==
            [0x03, 0x13, 0x08, 0x02, 0xF0, 0x01, 0x04, 0x34, 0xA4, 0x11, 0x00]
  {
    hide Stuff;
    var last: bytes := [0x34, 0xA4, 0x11];
    var none: bytes := [];
    StuffBlock(last, []);
    StuffBlock([], last);
    assert none + ([0] + last) == [0] + last;
    StuffBlock([0xF0], [0] + last);
    StuffBlock([0x13, 0x08], [0xF0] + ([0] + ([0] + last)));
    assert [0x13, 0x08] + ([0] + ([0xF0] + ([0] + ([0] + last)))) ==
           [0x13, 0x08, 0x00, 0xF0, 0x00, 0x00, 0x34, 0xA4, 0x11];
  }
}
