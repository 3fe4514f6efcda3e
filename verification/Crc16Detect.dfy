/**
 * What the checksum of the serial link detects, and the loops that compute it.
 */
module Crc16Detect {
  import opened Bytes
  import opened Crc16Tables
  import opened Crc16
  import opened Crc16Dual

  // ------------------------------------------------------------------ the loops

  lemma SnocBits(m: bytes, b: byte)
    ensures Bits(m + [b]) == Bits(m) + BitsOf(Word(b), 8)
    ensures BitsMsb(m + [b]) == BitsMsb(m) + Reverse(BitsOf(Word(b), 8))
  {
    hide BitsOf, Word, Reverse;
    BitsConcat(m, [b]);
    BitsMsbConcat(m, [b]);
    assert Bits([b]) == BitsOf(Word(b), 8) + Bits([]);
    assert BitsMsb([b]) == Reverse(BitsOf(Word(b), 8)) + BitsMsb([]);
  }

  lemma CrcSnoc(m: bytes, b: byte)
    ensures Crc(m + [b]) == Update(Crc(m), b)
  {
    hide Update, Run, Word, Bits, BitsOf;
    SnocBits(m, b);
    RunConcat(INIT, Bits(m), BitsOf(Word(b), 8));
    UpdateIsRun(Crc(m), b);
  }

  lemma CcittCrcSnoc(m: bytes, b: byte)
    ensures CcittCrc(m + [b]) == CcittUpdate(CcittCrc(m), b)
  {
    hide CcittUpdate, RunMsb, Word, BitsMsb, BitsOf, Reverse;
    SnocBits(m, b);
    RunMsbConcat(CCITT_INIT, BitsMsb(m), Reverse(BitsOf(Word(b), 8)));
    CcittUpdateIsRun(CcittCrc(m), b);
  }

  lemma CrcEmpty()
    ensures Crc([]) == INIT && CcittCrc([]) == CCITT_INIT
  {}

  /** `crc16_block`; with a negative length the loop does not run. */
  method Crc16Block(buf: bytes, len: int) returns (crc: bv16)
    requires len <= |buf|
    ensures crc == Crc(buf[..if len < 0 then 0 else len])
  {
    hide Update, Crc;
    crc := INIT;
    CrcEmpty();
    assert buf[..0] == [];
    var i := 0;
    while i < len
      invariant 0 <= i && (i <= len || i == 0)
      invariant crc == Crc(buf[..i])
    {
      CrcSnoc(buf[..i], buf[i]);
      assert buf[..i + 1] == buf[..i] + [buf[i]];
      crc := Update(crc, buf[i]);
      i := i + 1;
    }
  }

  /** `crc16_ccitt_block`. */
  method Crc16CcittBlock(buf: bytes, len: int) returns (crc: bv16)
    requires len <= |buf|
    ensures crc == CcittCrc(buf[..if len < 0 then 0 else len])
  {
    hide CcittUpdate, CcittCrc;
    crc := CCITT_INIT;
    CrcEmpty();
    assert buf[..0] == [];
    var i := 0;
    while i < len
      invariant 0 <= i && (i <= len || i == 0)
      invariant crc == CcittCrc(buf[..i])
    {
      CcittCrcSnoc(buf[..i], buf[i]);
      assert buf[..i + 1] == buf[..i] + [buf[i]];
      crc := CcittUpdate(crc, buf[i]);
      i := i + 1;
    }
  }

  // ---------------------------------------------------------------- injectivity

  lemma XorSame(s: bv16, t: bv16, v: bv16, x: bv16)
    requires x == s ^ v && x == t ^ v
    ensures s == t
  {}

  lemma StepXorInjective(s: bv16, t: bv16, v: bv16, x: bv16, y: bv16)
    requires x == s ^ v && y == t ^ v && Step(x) == Step(y)
    ensures s == t
  {
    hide Step;
    StepInjective(x, y);
    XorSame(s, t, v, x);
  }

  lemma FeedOf(s: bv16, b: bool, v: bv16, x: bv16)
    requires v == In(b) && x == s ^ v
    ensures Feed(s, b) == Step(x)
  {
    hide Step, In;
  }

  lemma FeedInjectiveNamed(s: bv16, t: bv16, b: bool, v: bv16, x: bv16, y: bv16)
    requires Feed(s, b) == Feed(t, b)
    requires v == In(b) && x == s ^ v && y == t ^ v
    ensures s == t
  {
    hide Step, In, Feed;
    FeedOf(s, b, v, x);
    FeedOf(t, b, v, y);
    StepXorInjective(s, t, v, x, y);
  }

  lemma FeedInjective(s: bv16, t: bv16, b: bool)
    requires Feed(s, b) == Feed(t, b)
    ensures s == t
  {
    hide Step, In, Feed;
    FeedInjectiveNamed(s, t, b, In(b), s ^ In(b), t ^ In(b));
  }

  /** Different registers stay different under the same input. */
  lemma {:induction false} RunInjective(s: bv16, t: bv16, bits: seq<bool>)
    requires Run(s, bits) == Run(t, bits)
    ensures s == t
    decreases |bits|
  {
    hide Feed;
    if bits != [] {
      RunInjective(Feed(s, bits[0]), Feed(t, bits[0]), bits[1..]);
      FeedInjective(s, t, bits[0]);
    }
  }

  /** From one register, sixteen bits are recovered from the register they lead to. */
  lemma WindowInjective(s: bv16, u: seq<bool>, v: seq<bool>)
    requires |u| == |v| == 16
    requires Run(s, u) == Run(s, v)
    ensures u == v
  {
    hide Run, BitsOf, Rest;
    var a := WordOf(u);
    var b := WordOf(v);
    Rest16(a);
    Rest16(b);
    BitsDetermineWord(s, a, b, 16);
  }

  /** The same for at most sixteen bits: pad both sides alike. */
  lemma ShortWindowInjective(s: bv16, u: seq<bool>, v: seq<bool>)
    requires |u| == |v| <= 16
    requires Run(s, u) == Run(s, v)
    ensures u == v
  {
    hide Run;
    var pad := seq(16 - |u|, _ => false);
    RunConcat(s, u, pad);
    RunConcat(s, v, pad);
    WindowInjective(s, u + pad, v + pad);
    assert u == (u + pad)[..|u|] && v == (v + pad)[..|u|];
  }

  lemma {:induction false} BitsInjective(x: bytes, y: bytes)
    requires Bits(x) == Bits(y)
    ensures x == y
  {
    hide BitsOf, Word;
    assert |x| == |y|;
    if x != [] {
      var a, b := BitsOf(Word(x[0]), 8), BitsOf(Word(y[0]), 8);
      assert a == Bits(x)[..8] && b == Bits(y)[..8];
      assert Bits(x[1..]) == Bits(x)[8..] && Bits(y[1..]) == Bits(y)[8..];
      ByteBitsInjective(x[0], y[0]);
      BitsInjective(x[1..], y[1..]);
    }
  }

  lemma ByteBitsInjective(a: byte, b: byte)
    requires BitsOf(Word(a), 8) == BitsOf(Word(b), 8)
    ensures a == b
  {
    hide BitsOf, Word, Rest, Run, ByteOf;
    WordSmall(a);
    WordSmall(b);
    SmallRest(Word(a));
    SmallRest(Word(b));
    BitsDetermineWord(0, Word(a), Word(b), 8);
    WordOfByte(a);
    WordOfByte(b);
  }

  lemma SmallRest(w: bv16)
    requires w < 256
    ensures Rest(w, 8) == 0
  {
    Rest8(w);
    SmallWord(w);
  }

  // ------------------------------------------------------------- error detection

  /**
   * Two different messages of the same length whose bits, in the order of the
   * checksum, differ only inside sixteen consecutive positions have different
   * checksums, however long they are.
   */
  lemma BurstDetected(x: bytes, y: bytes, k: nat)
    requires |x| == |y| && x != y
    requires forall i :: 0 <= i < 8 * |x| && !(k <= i < k + 16) ==> Bits(x)[i] == Bits(y)[i]
    ensures Crc(x) != Crc(y)
  {
    hide Run, Bits;
    if Crc(x) == Crc(y) {
      var n := 8 * |x|;
      var p := if k < n then k else n;
      var q := if k + 16 < n then k + 16 else n;
      var xs, ys := Bits(x), Bits(y);
      assert xs == xs[..p] + (xs[p..q] + xs[q..]);
      assert ys == xs[..p] + (ys[p..q] + xs[q..]);
      RunConcat(INIT, xs[..p], xs[p..q] + xs[q..]);
      RunConcat(INIT, xs[..p], ys[p..q] + xs[q..]);
      var s := Run(INIT, xs[..p]);
      RunConcat(s, xs[p..q], xs[q..]);
      RunConcat(s, ys[p..q], xs[q..]);
      RunInjective(Run(s, xs[p..q]), Run(s, ys[p..q]), xs[q..]);
      ShortWindowInjective(s, xs[p..q], ys[p..q]);
      BitsInjective(x, y);
    }
  }

  // -------------------------------------------------------------------- residue

  /** Two bytes read as a little-endian word. */
  function LittleEndian(a: byte, b: byte): bv16 {
    Word(a) | (Word(b) << 8)
  }

  lemma LowPart(w: bv16, a: bv16, b: bv16)
    requires a < 256 && w == a | (b << 8)
    ensures (w & 1 != 0) == (a & 1 != 0) && (w & 2 != 0) == (a & 2 != 0)
    ensures (w & 4 != 0) == (a & 4 != 0) && (w & 8 != 0) == (a & 8 != 0)
    ensures (w & 16 != 0) == (a & 16 != 0) && (w & 32 != 0) == (a & 32 != 0)
    ensures (w & 64 != 0) == (a & 64 != 0) && (w & 128 != 0) == (a & 128 != 0)
  {}

  lemma HighPart(w: bv16, a: bv16, b: bv16)
    requires a < 256 && b < 256 && w == a | (b << 8)
    ensures w >> 8 == b
  {}

  lemma LowBits(w: bv16, a: bv16, b: bv16)
    requires a < 256 && w == a | (b << 8)
    ensures BitsOf(w, 8) == BitsOf(a, 8)
  {
    hide BitsOf;
    Bits8(w);
    Bits8(a);
    LowPart(w, a, b);
  }

  lemma JoinedBits(w: bv16, a: bv16, b: bv16)
    requires a < 256 && b < 256 && w == a | (b << 8)
    ensures BitsOf(w, 16) == BitsOf(a, 8) + BitsOf(b, 8)
  {
    hide BitsOf, Rest;
    LowBits(w, a, b);
    HighPart(w, a, b);
    Rest8(w);
    BitsAdd(w, 8, 8);
  }

  lemma TwoBytes(a: byte, b: byte)
    ensures Bits([a, b]) == BitsOf(LittleEndian(a, b), 16)
  {
    hide BitsOf, Word;
    WordSmall(a);
    WordSmall(b);
    JoinedBits(LittleEndian(a, b), Word(a), Word(b));
    assert Bits([a, b]) == BitsOf(Word(a), 8) + (BitsOf(Word(b), 8) + []);
  }

  lemma {:induction false} ZeroSteps(n: nat)
    ensures Steps(0, n) == 0
    decreases n
  {
    if n > 0 {
      ZeroSteps(n - 1);
    }
  }

  lemma XorIsZero(s: bv16, w: bv16, x: bv16)
    requires x == s ^ w
    ensures x == 0 <==> s == w
  {}

  lemma StepsZero(x: bv16, n: nat)
    ensures Steps(x, n) == 0 <==> x == 0
  {
    hide Step;
    ZeroSteps(n);
    if Steps(x, n) == 0 {
      StepsInjective(x, 0, n);
    }
  }

  lemma RunWord(s: bv16, w: bv16, x: bv16)
    requires x == s ^ w
    ensures Run(s, BitsOf(w, 16)) == Steps(x, 16)
  {
    hide Run, BitsOf, Steps, Rest;
    Rest16(w);
    RunIsStepsOf(s, w, 16, x, Run(s, BitsOf(w, 16)), 0);
  }

  /**
   * The comparison of `decoder_check_and_dispatch_cb`, of the checksum over the
   * body with the two bytes behind it, succeeds exactly when the checksum over
   * everything, those two bytes included, is zero.
   */
  lemma ResidueZero(m: bytes, a: byte, b: byte)
    ensures Crc(m + [a, b]) == 0 <==> Crc(m) == LittleEndian(a, b)
  {
    hide Run, Bits, BitsOf, Steps, LittleEndian;
    var s, w := Crc(m), LittleEndian(a, b);
    BitsConcat(m, [a, b]);
    RunConcat(INIT, Bits(m), Bits([a, b]));
    TwoBytes(a, b);
    RunWord(s, w, s ^ w);
    StepsZero(s ^ w, 16);
    XorIsZero(s, w, s ^ w);
  }

  /** Splitting a word into its bytes, low byte first, and reading it back. */
  lemma LittleEndianRoundTrip(c: bv16)
    ensures LittleEndian(ByteOf(c), ByteOf(c >> 8)) == c
  {
    hide Word, ByteOf;
    ByteOfWord(c);
    ByteOfWord(c >> 8);
    JoinBytes(c, c >> 8);
  }

  lemma JoinBytes(c: bv16, u: bv16)
    requires u == c >> 8
    ensures (c & 0xFF) | ((u & 0xFF) << 8) == c
  {}
}
