/**
 * The two checksums of user_main/crc16.c are mirror images: reversing the bits
 * of every byte, of the initial value and of the result turns one into the
 * other. The proof for `crc16_ccitt_update` goes through the mirror.
 */
module Crc16Dual {
  import opened Bytes
  import opened Crc16Tables
  import opened Crc16

  /** The bits of a word in reverse order. */
  function Mirror(x: bv16): bv16 {
    var a := ((x & 0x5555) << 1) | ((x >> 1) & 0x5555);
    var b := ((a & 0x3333) << 2) | ((a >> 2) & 0x3333);
    var c := ((b & 0x0F0F) << 4) | ((b >> 4) & 0x0F0F);
    (c << 8) | (c >> 8)
  }

  lemma MirrorTwice(x: bv16)
    ensures Mirror(Mirror(x)) == x
  {}

  lemma MirrorXor(x: bv16, y: bv16, z: bv16)
    requires z == x ^ y
    ensures Mirror(z) == Mirror(x) ^ Mirror(y)
  {}

  lemma MirrorShift(x: bv16)
    ensures Mirror(x >> 1) == Mirror(x) << 1
  {}

  lemma MirrorFeedback(x: bv16)
    ensures Mirror(Feedback(x)) == FeedbackMsb(Mirror(x))
  {}

  lemma MirrorStepParts(x: bv16)
    ensures Mirror(Step(x)) == Mirror(x >> 1) ^ Mirror(Feedback(x))
  {
    MirrorXor(x >> 1, Feedback(x), Step(x));
  }

  /** The two registers step in mirror image. */
  lemma MirrorStep(x: bv16)
    ensures Mirror(Step(x)) == StepMsb(Mirror(x))
  {
    hide Mirror, Feedback, FeedbackMsb;
    MirrorStepParts(x);
    MirrorShift(x);
    MirrorFeedback(x);
  }

  lemma {:induction false} MirrorSteps(x: bv16, n: nat)
    ensures Mirror(Steps(x, n)) == StepsMsb(Mirror(x), n)
    decreases n
  {
    hide Mirror, Step, StepMsb;
    if n > 0 {
      MirrorSteps(x, n - 1);
      MirrorStep(Steps(x, n - 1));
    }
  }

  lemma MirrorIn(b: bool)
    ensures Mirror(In(b)) == In(b) << 15
  {}

  lemma MirrorFeed(s: bv16, b: bool)
    ensures FeedMsb(Mirror(s), b) == Mirror(Feed(s, b))
  {
    hide Mirror, Step, StepMsb, In;
    MirrorIn(b);
    MirrorXor(s, In(b), s ^ In(b));
    MirrorStep(s ^ In(b));
  }

  /** Fed the same bits, the two registers stay in mirror image. */
  lemma {:induction false} MirrorRun(s: bv16, bits: seq<bool>)
    ensures RunMsb(Mirror(s), bits) == Mirror(Run(s, bits))
    decreases |bits|
  {
    hide Mirror, Feed, FeedMsb;
    if bits != [] {
      MirrorFeed(s, bits[0]);
      MirrorRun(Feed(s, bits[0]), bits[1..]);
    }
  }

  // --------------------------------------------------------- bytes and messages

  /** A byte with its bits reversed. */
  function MirrorByte(b: byte): (r: byte) {
    ByteOf(Mirror(Word(b)) >> 8)
  }

  lemma ShiftedSmall(x: bv16, v: bv16)
    requires v == x >> 8
    ensures v & 0xFF == v
  {}

  lemma MirrorByteWord(b: byte)
    ensures Word(MirrorByte(b)) == Mirror(Word(b)) >> 8
  {
    hide Mirror, Word, ByteOf;
    var x := Mirror(Word(b));
    ByteOfWord(x >> 8);
    ShiftedSmall(x, x >> 8);
  }

  function MirrorBytes(m: bytes): (r: bytes)
    ensures |r| == |m|
  {
    if m == [] then [] else [MirrorByte(m[0])] + MirrorBytes(m[1..])
  }

  lemma MirrorBits(w: bv16, v: bv16)
    requires w < 256 && v == Mirror(w) >> 8
    ensures (v & 1 != 0) == (w & 128 != 0) && (v & 2 != 0) == (w & 64 != 0)
    ensures (v & 4 != 0) == (w & 32 != 0) && (v & 8 != 0) == (w & 16 != 0)
    ensures (v & 16 != 0) == (w & 8 != 0) && (v & 32 != 0) == (w & 4 != 0)
    ensures (v & 64 != 0) == (w & 2 != 0) && (v & 128 != 0) == (w & 1 != 0)
  {}

  lemma Reverse8(u: seq<bool>)
    requires |u| == 8
    ensures Reverse(u) == [u[7], u[6], u[5], u[4], u[3], u[2], u[1], u[0]]
  {}

  lemma MirrorByteBits(b: byte)
    ensures BitsOf(Word(MirrorByte(b)), 8) == Reverse(BitsOf(Word(b), 8))
  {
    hide Mirror, MirrorByte, Word, BitsOf, Reverse;
    WordSmall(b);
    MirrorByteWord(b);
    MirrorBits(Word(b), Word(MirrorByte(b)));
    Bits8(Word(b));
    Bits8(Word(MirrorByte(b)));
    Reverse8(BitsOf(Word(b), 8));
  }

  lemma {:induction false} MirrorMessageBits(m: bytes)
    ensures BitsMsb(m) == Bits(MirrorBytes(m))
  {
    hide MirrorByte, Word, BitsOf, Reverse;
    if m != [] {
      MirrorByteBits(m[0]);
      MirrorMessageBits(m[1..]);
      assert MirrorBytes(m)[0] == MirrorByte(m[0]) && MirrorBytes(m)[1..] == MirrorBytes(m[1..]);
    }
  }

  /**
   * The checksums are dual: reversing the initial value and the bits of every
   * byte reverses the result.
   */
  lemma Duality(s: bv16, m: bytes)
    ensures RunMsb(Mirror(s), BitsMsb(m)) == Mirror(Run(s, Bits(MirrorBytes(m))))
  {
    hide Mirror, MirrorBytes, Run, RunMsb, Bits, BitsMsb;
    MirrorMessageBits(m);
    MirrorRun(s, Bits(MirrorBytes(m)));
  }

  // --------------------------------------------------------- crc16_ccitt_update

  lemma MirrorIndex(crc: bv16, w: bv16, s: bv16, i: bv16)
    requires s == Mirror(crc)
    requires w < 256 && i == (s ^ (Mirror(w) >> 8)) & 0xFF
    ensures Mirror(i) == (((crc >> 8) ^ w) & 0xFF) << 8
  {}

  lemma MirrorHighByte(s: bv16)
    ensures Mirror(s >> 8) == Mirror(s) << 8
  {}

  lemma MirrorEntry(i: bv16, j: bv16)
    requires i < 256 && j < 256 && Mirror(i) == j << 8
    ensures Mirror(ReflectedEntry(i)) == CcittEntry(j)
  {
    hide Mirror, ReflectedEntry, CcittEntry, Steps, StepsMsb;
    ReflectedTableIsSteps(i);
    CcittTableIsSteps(j);
    MirrorSteps(i, 8);
  }

  lemma UpdateParts(s: bv16, d: byte, i: bv16)
    requires i == (s ^ Word(d)) & 0xFF
    ensures i < 256
    ensures Mirror(Update(s, d)) == (Mirror(s) << 8) ^ Mirror(ReflectedEntry(i))
  {
    hide Mirror, Word, ReflectedEntry;
    IndexSmall(s ^ Word(d));
    MirrorXor(s >> 8, ReflectedEntry(i), Update(s, d));
    MirrorHighByte(s);
  }

  lemma CcittUpdateOf(crc: bv16, data: byte, j: bv16)
    requires j == ((crc >> 8) ^ Word(data)) & 0xFF
    ensures j < 256
    ensures CcittUpdate(crc, data) == (crc << 8) ^ CcittEntry(j)
  {
    hide Word, CcittEntry;
    IndexSmall((crc >> 8) ^ Word(data));
  }

  lemma MirrorIndices(crc: bv16, data: byte, s: bv16, d: byte, i: bv16, j: bv16)
    requires s == Mirror(crc) && d == MirrorByte(data)
    requires i == (s ^ Word(d)) & 0xFF && j == ((crc >> 8) ^ Word(data)) & 0xFF
    ensures Mirror(i) == j << 8
  {
    hide Mirror, Word, MirrorByte;
    WordSmall(data);
    MirrorByteWord(data);
    MirrorIndex(crc, Word(data), s, i);
  }

  lemma MirrorUpdate(crc: bv16, data: byte, s: bv16, d: byte, i: bv16, j: bv16)
    requires s == Mirror(crc) && d == MirrorByte(data)
    requires i == (s ^ Word(d)) & 0xFF && j == ((crc >> 8) ^ Word(data)) & 0xFF
    ensures Mirror(Update(s, d)) == CcittUpdate(crc, data)
  {
    hide Mirror, Word, MirrorByte, Update, CcittUpdate, ReflectedEntry, CcittEntry;
    MirrorIndices(crc, data, s, d, i, j);
    UpdateParts(s, d, i);
    CcittUpdateOf(crc, data, j);
    MirrorEntry(i, j);
    MirrorTwice(crc);
  }

  /** One table step is eight register shifts, one for each bit of the byte, high bit first. */
  lemma CcittUpdateIsRun(crc: bv16, data: byte)
    ensures CcittUpdate(crc, data) == RunMsb(crc, Reverse(BitsOf(Word(data), 8)))
  {
    hide Mirror, Word, MirrorByte, Update, CcittUpdate, Run, RunMsb, BitsOf, Reverse;
    var s, d := Mirror(crc), MirrorByte(data);
    MirrorTwice(crc);
    MirrorByteBits(data);
    MirrorRun(s, BitsOf(Word(d), 8));
    UpdateIsRun(s, d);
    MirrorUpdate(crc, data, s, d, (s ^ Word(d)) & 0xFF, ((crc >> 8) ^ Word(data)) & 0xFF);
  }
}
