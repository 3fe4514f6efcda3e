/**
 * The checksums of user_main/crc16.c and user_main/crc16.h. The table-driven
 * loops are proved against the shift registers run one input bit at a time;
 * what the checksum detects is then proved about the registers.
 */
module Crc16 {
  import opened Bytes
  import opened Crc16Tables

  const INIT: bv16 := 0xFFFF
  const CCITT_INIT: bv16 := 0

  function Word(b: byte): bv16 { (b as bv8) as bv16 }

  /** The low byte of a word. */
  function ByteOf(x: bv16): byte { ((x & 0xFF) as bv8) as int }

  lemma ByteRound(y: bv8)
    ensures (y as int) as bv8 == y
  {}

  lemma IntRoundAtMost(b: int)
    requires 0 <= b < 256
    ensures (b as bv8) as int <= b
  {}

  lemma IntRoundAtLeast(b: int)
    requires 0 <= b < 256
    ensures (b as bv8) as int >= b
  {}

  lemma IntRound(b: int)
    requires 0 <= b < 256
    ensures (b as bv8) as int == b
  {
    IntRoundAtMost(b);
    IntRoundAtLeast(b);
  }

  lemma LowRound(x: bv16)
    ensures ((x & 0xFF) as bv8) as bv16 == x & 0xFF
  {}

  lemma WidenRound(y: bv8)
    ensures ((y as bv16) & 0xFF) as bv8 == y
  {}

  lemma ByteOfWord(x: bv16)
    ensures Word(ByteOf(x)) == x & 0xFF
  {
    ByteRound((x & 0xFF) as bv8);
    LowRound(x);
  }

  lemma WordOfByte(b: byte)
    ensures ByteOf(Word(b)) == b
  {
    WidenRound(b as bv8);
    IntRound(b);
  }

  function In(b: bool): bv16 { if b then 1 else 0 }

  // --------------------------------------------------------- bit-serial definition

  /** The reflected register after one input bit. */
  function Feed(s: bv16, b: bool): bv16 { Step(s ^ In(b)) }

  /** The register that shifts towards its high bit after one input bit. */
  function FeedMsb(s: bv16, b: bool): bv16 { StepMsb(s ^ (In(b) << 15)) }

  /** The reflected register after the given input bits. */
  function Run(s: bv16, bits: seq<bool>): bv16
    decreases |bits|
  {
    if bits == [] then s else Run(Feed(s, bits[0]), bits[1..])
  }

  /** The same for the register that shifts towards its high bit. */
  function RunMsb(s: bv16, bits: seq<bool>): bv16
    decreases |bits|
  {
    if bits == [] then s else RunMsb(FeedMsb(s, bits[0]), bits[1..])
  }

  /** The n low bits of a word, low bit first. */
  function BitsOf(v: bv16, n: nat): (r: seq<bool>)
    ensures |r| == n
    decreases n
  {
    if n == 0 then [] else [v & 1 != 0] + BitsOf(v >> 1, n - 1)
  }

  // What is left of a word once its n low bits are taken.
  function Rest(v: bv16, n: nat): bv16
    decreases n
  {
    if n == 0 then v else Rest(v >> 1, n - 1)
  }

  /** The bits of a message, each byte low bit first: the order in which `crc16_block` takes them. */
  function Bits(m: bytes): (r: seq<bool>)
    ensures |r| == 8 * |m|
  {
    if m == [] then [] else BitsOf(Word(m[0]), 8) + Bits(m[1..])
  }

  function Reverse(s: seq<bool>): (r: seq<bool>)
    ensures |r| == |s| && forall i :: 0 <= i < |s| ==> r[i] == s[|s| - 1 - i]
  {
    seq(|s|, i requires 0 <= i < |s| => s[|s| - 1 - i])
  }

  /** The bits of a message, each byte high bit first: the order in which `crc16_ccitt_block` takes them. */
  function BitsMsb(m: bytes): (r: seq<bool>)
    ensures |r| == 8 * |m|
  {
    if m == [] then [] else Reverse(BitsOf(Word(m[0]), 8)) + BitsMsb(m[1..])
  }

  /** The checksum of a message, one bit at a time. */
  function Crc(m: bytes): bv16 { Run(INIT, Bits(m)) }

  function CcittCrc(m: bytes): bv16 { RunMsb(CCITT_INIT, BitsMsb(m)) }

  lemma {:induction false} RunConcat(s: bv16, a: seq<bool>, b: seq<bool>)
    ensures Run(s, a + b) == Run(Run(s, a), b)
    decreases |a|
  {
    if a == [] {
      assert a + b == b;
    } else {
      assert (a + b)[1..] == a[1..] + b;
      RunConcat(Feed(s, a[0]), a[1..], b);
    }
  }

  lemma {:induction false} RunMsbConcat(s: bv16, a: seq<bool>, b: seq<bool>)
    ensures RunMsb(s, a + b) == RunMsb(RunMsb(s, a), b)
    decreases |a|
  {
    if a == [] {
      assert a + b == b;
    } else {
      assert (a + b)[1..] == a[1..] + b;
      RunMsbConcat(FeedMsb(s, a[0]), a[1..], b);
    }
  }

  lemma {:induction false} BitsConcat(a: bytes, b: bytes)
    ensures Bits(a + b) == Bits(a) + Bits(b)
  {
    hide BitsOf, Word;
    if a == [] {
      assert a + b == b;
    } else {
      assert (a + b)[1..] == a[1..] + b;
      BitsConcat(a[1..], b);
    }
  }

  lemma {:induction false} BitsMsbConcat(a: bytes, b: bytes)
    ensures BitsMsb(a + b) == BitsMsb(a) + BitsMsb(b)
  {
    hide Reverse, BitsOf, Word;
    if a == [] {
      assert a + b == b;
    } else {
      assert (a + b)[1..] == a[1..] + b;
      BitsMsbConcat(a[1..], b);
    }
  }

  // --------------------------------------------------------- feeding a whole word

  // Feeding the low bit of v leaves the rest of v where the shift takes it.
  lemma FeedBit(s: bv16, v: bv16)
    ensures Step(s ^ (v & 1)) ^ (v >> 1) == Step(s ^ v)
  {}

  lemma InBit(v: bv16)
    ensures In(v & 1 != 0) == v & 1
  {}

  lemma RunFirst(s: bv16, v: bv16, n: nat)
    requires n > 0
    ensures Run(s, BitsOf(v, n)) == Run(Step(s ^ (v & 1)), BitsOf(v >> 1, n - 1))
  {
    var bits := BitsOf(v, n);
    assert bits[0] == (v & 1 != 0) && bits[1..] == BitsOf(v >> 1, n - 1);
    InBit(v);
  }

  lemma FeedThenShift(s: bv16, v: bv16, n: nat, t: bv16, u: bv16)
    requires t == Step(s ^ (v & 1)) && u == v >> 1
    ensures Steps(t ^ u, n) == Steps(s ^ v, n + 1)
  {
    FeedBit(s, v);
    StepsInner(s ^ v, n);
  }

  /** Feeding the n low bits of a word is adding the word and shifting n times. */
  lemma {:induction false} RunIsSteps(s: bv16, v: bv16, n: nat)
    ensures Run(s, BitsOf(v, n)) ^ Rest(v, n) == Steps(s ^ v, n)
    decreases n
  {
    if n > 0 {
      var t, u := Step(s ^ (v & 1)), v >> 1;
      RunIsSteps(t, u, n - 1);
      RunFirst(s, v, n);
      assert Rest(v, n) == Rest(u, n - 1);
      FeedThenShift(s, v, n - 1, t, u);
    }
  }

  // The same with every word named, so that equal words meet as equal names.
  lemma RunIsStepsOf(s: bv16, v: bv16, n: nat, t: bv16, run: bv16, rest: bv16)
    requires t == s ^ v
    requires run == Run(s, BitsOf(v, n)) && rest == Rest(v, n)
    ensures Steps(t, n) == run ^ rest
  {
    RunIsSteps(s, v, n);
  }

  lemma XorCancels(s: bv16, v: bv16, w: bv16)
    requires s ^ v == s ^ w
    ensures v == w
  {}

  lemma BitsDetermineWord(s: bv16, v: bv16, w: bv16, n: nat)
    requires Run(s, BitsOf(v, n)) == Run(s, BitsOf(w, n)) && Rest(v, n) == Rest(w, n)
    ensures v == w
  {
    var run, rest := Run(s, BitsOf(v, n)), Rest(v, n);
    RunIsStepsOf(s, v, n, s ^ v, run, rest);
    RunIsStepsOf(s, w, n, s ^ w, run, rest);
    StepsInjective(s ^ v, s ^ w, n);
    XorCancels(s, v, w);
  }

  lemma Rest8(v: bv16)
    ensures Rest(v, 8) == v >> 8
  {}

  lemma Rest16(v: bv16)
    ensures Rest(v, 16) == 0
  {
    Rest8(v);
    Rest8(v >> 8);
    RestAdd(v, 8, 8);
  }

  lemma {:induction false} RestAdd(v: bv16, m: nat, n: nat)
    ensures Rest(v, m + n) == Rest(Rest(v, m), n)
    decreases m
  {
    if m > 0 {
      RestAdd(v >> 1, m - 1, n);
    }
  }

  lemma {:induction false} BitsAdd(v: bv16, m: nat, n: nat)
    ensures BitsOf(v, m + n) == BitsOf(v, m) + BitsOf(Rest(v, m), n)
    decreases m
  {
    if m > 0 {
      BitsAdd(v >> 1, m - 1, n);
    }
  }

  lemma Bits4(v: bv16)
    ensures BitsOf(v, 4) == [v & 1 != 0, v & 2 != 0, v & 4 != 0, v & 8 != 0]
  {}

  lemma Rest4(v: bv16, u: bv16)
    requires u == Rest(v, 4)
    ensures (u & 1 != 0) == (v & 16 != 0) && (u & 2 != 0) == (v & 32 != 0)
    ensures (u & 4 != 0) == (v & 64 != 0) && (u & 8 != 0) == (v & 128 != 0)
  {}

  lemma Bits8(v: bv16)
    ensures BitsOf(v, 8) == [v & 1 != 0, v & 2 != 0, v & 4 != 0, v & 8 != 0,
                             v & 16 != 0, v & 32 != 0, v & 64 != 0, v & 128 != 0]
  {
    hide BitsOf, Rest;
    var u := Rest(v, 4);
    Bits4(v);
    Bits4(u);
    Rest4(v, u);
    BitsAdd(v, 4, 4);
  }

  lemma PackBits(b0: bool, b1: bool, b2: bool, b3: bool, b4: bool, b5: bool, b6: bool, b7: bool)
    returns (v: bv16)
    ensures v < 256
    ensures (v & 1 != 0) == b0 && (v & 2 != 0) == b1 && (v & 4 != 0) == b2 && (v & 8 != 0) == b3
    ensures (v & 16 != 0) == b4 && (v & 32 != 0) == b5 && (v & 64 != 0) == b6 && (v & 128 != 0) == b7
  {
    v := (if b0 then 1 else 0) | (if b1 then 2 else 0) | (if b2 then 4 else 0) | (if b3 then 8 else 0) |
         (if b4 then 16 else 0) | (if b5 then 32 else 0) | (if b6 then 64 else 0) | (if b7 then 128 else 0);
  }

  lemma WordOf8(u: seq<bool>) returns (v: bv16)
    requires |u| == 8
    ensures BitsOf(v, 8) == u && v < 256
  {
    v := PackBits(u[0], u[1], u[2], u[3], u[4], u[5], u[6], u[7]);
    Bits8(v);
  }

  /** Sixteen bits in a row are some word. */
  lemma WordOf(u: seq<bool>) returns (v: bv16)
    requires |u| == 16
    ensures BitsOf(v, 16) == u
  {
    var lo := WordOf8(u[..8]);
    var hi := WordOf8(u[8..]);
    v := lo | (hi << 8);
    Bits8(v);
    Bits8(lo);
    Rest8(v);
    BitsAdd(v, 8, 8);
    assert v >> 8 == hi;
  }

  // --------------------------------------------------------- table-driven updates

  lemma WordSmall(b: byte)
    ensures Word(b) < 256
  {}

  lemma IndexSmall(x: bv16)
    ensures x & 0xFF < 256
  {}

  /** `crc16_update`. */
  function Update(crc: bv16, data: byte): bv16 {
    var x := crc ^ Word(data);
    IndexSmall(x);
    (crc >> 8) ^ ReflectedEntry(x & 0xFF)
  }

  /** `crc16_ccitt_update`. */
  function CcittUpdate(crc: bv16, data: byte): bv16 {
    var offset := ((crc >> 8) ^ Word(data)) & 0xFF;
    IndexSmall((crc >> 8) ^ Word(data));
    (crc << 8) ^ CcittEntry(offset)
  }

  predicate LowBitsClear(x: bv16, n: nat)
    decreases n
  {
    n == 0 || (x & 1 == 0 && LowBitsClear(x >> 1, n - 1))
  }

  /** While the bits shifted out are zero there is no feedback. */
  lemma {:induction false} NoFeedback(x: bv16, n: nat)
    requires LowBitsClear(x, n)
    ensures Steps(x, n) == Rest(x, n)
    decreases n
  {
    if n > 0 {
      StepCases(x);
      NoFeedback(x >> 1, n - 1);
      StepsInner(x, n - 1);
    }
  }

  lemma HighByte(x: bv16, y: bv16, u: bv16)
    requires y == x & 0xFF00 && u == x >> 8
    ensures LowBitsClear(y, 8) && Rest(y, 8) == u
  {}

  lemma ByteHalves(x: bv16)
    ensures x == (x & 0xFF00) ^ (x & 0xFF)
  {}

  lemma SmallWordShift(crc: bv16, w: bv16, x: bv16)
    requires w < 256 && x == crc ^ w
    ensures x >> 8 == crc >> 8
  {}

  lemma SmallWord(w: bv16)
    requires w < 256
    ensures w >> 8 == 0
  {}

  lemma StepsByByte(x: bv16, n: nat, lo: bv16, hi: bv16, u: bv16)
    requires x == hi ^ lo
    requires LowBitsClear(hi, n) && u == Rest(hi, n)
    ensures Steps(x, n) == u ^ Steps(lo, n)
  {
    NoFeedback(hi, n);
    StepsXor(x, hi, lo, n);
  }

  // What makes n shifts a byte's worth of shifts for one input x = crc ^ data. Stated for a
  // named n, because the verifier would unfold `Steps(x, 8)`.
  predicate ByteWorth(n: nat, w: bv16, lo: bv16, hi: bv16, u: bv16) {
    && lo < 256 && ReflectedEntry(lo) == Steps(lo, n)
    && LowBitsClear(hi, n) && Rest(hi, n) == u
    && Rest(w, n) == 0
  }

  lemma EightIsByteWorth(w: bv16, x: bv16, lo: bv16, hi: bv16, u: bv16)
    requires w < 256 && lo == x & 0xFF && hi == x & 0xFF00 && u == x >> 8
    ensures ByteWorth(8, w, lo, hi, u)
  {
    IndexSmall(x);
    ReflectedTableIsSteps(lo);
    HighByte(x, hi, u);
    Rest8(w);
    SmallWord(w);
  }

  lemma UpdateOf(crc: bv16, data: byte, u: bv16, lo: bv16)
    requires u == crc >> 8 && lo == (crc ^ Word(data)) & 0xFF
    ensures lo < 256 && Update(crc, data) == u ^ ReflectedEntry(lo)
  {}

  lemma UpdateIsSteps(crc: bv16, data: byte, n: nat, x: bv16, lo: bv16, hi: bv16, u: bv16)
    requires x == crc ^ Word(data)
    requires lo == x & 0xFF && hi == x & 0xFF00 && u == crc >> 8
    requires ByteWorth(n, Word(data), lo, hi, u)
    ensures Update(crc, data) == Steps(x, n)
  {
    hide Update, Steps, ReflectedEntry, LowBitsClear, Rest, Word;
    ByteHalves(x);
    StepsByByte(x, n, lo, hi, u);
    UpdateOf(crc, data, u, lo);
  }

  lemma UpdateIsRunOf(crc: bv16, data: byte, n: nat, x: bv16, lo: bv16, hi: bv16, u: bv16)
    requires x == crc ^ Word(data)
    requires lo == x & 0xFF && hi == x & 0xFF00 && u == crc >> 8
    requires ByteWorth(n, Word(data), lo, hi, u)
    ensures Update(crc, data) == Run(crc, BitsOf(Word(data), n))
  {
    hide Update, Steps;
    var w, run := Word(data), Run(crc, BitsOf(Word(data), n));
    UpdateIsSteps(crc, data, n, x, lo, hi, u);
    RunIsStepsOf(crc, w, n, x, run, 0);
  }

  lemma ByteWorthOf(crc: bv16, w: bv16, x: bv16, lo: bv16, hi: bv16, u: bv16)
    requires w < 256 && x == crc ^ w && u == crc >> 8
    requires lo == x & 0xFF && hi == x & 0xFF00
    ensures ByteWorth(8, w, lo, hi, u)
  {
    hide *;
    SmallWordShift(crc, w, x);
    EightIsByteWorth(w, x, lo, hi, u);
  }

  lemma UpdateIsRunNamed(crc: bv16, data: byte, w: bv16, x: bv16, lo: bv16, hi: bv16, u: bv16)
    requires w == Word(data) && w < 256 && x == crc ^ w && u == crc >> 8
    requires lo == x & 0xFF && hi == x & 0xFF00
    ensures Update(crc, data) == Run(crc, BitsOf(w, 8))
  {
    hide *;
    ByteWorthOf(crc, w, x, lo, hi, u);
    UpdateIsRunOf(crc, data, 8, x, lo, hi, u);
  }

  /** One table step is eight register shifts, one for each bit of the byte. */
  lemma UpdateIsRun(crc: bv16, data: byte)
    ensures Update(crc, data) == Run(crc, BitsOf(Word(data), 8))
  {
    hide *;
    var w := Word(data);
    var x := crc ^ w;
    WordSmall(data);
    UpdateIsRunNamed(crc, data, w, x, x & 0xFF, x & 0xFF00, crc >> 8);
  }
}
