/**
 * Where the checksums of user_main/crc16.c start from: laws and check values that
 * determine the initial registers, and with them every checksum.
 */
module Crc16Start {
  import opened Bytes
  import opened Crc16
  import opened Crc16Detect
  import opened Crc16Tables

  /** The bits with the first sixteen complemented. */
  function FlipFirst16(bits: seq<bool>): (r: seq<bool>)
    ensures |r| == |bits| && forall i :: 0 <= i < |bits| ==> (r[i] <==> bits[i] != (i < 16))
  {
    seq(|bits|, i requires 0 <= i < |bits| => bits[i] != (i < 16))
  }

  lemma ZeroXor(z: bv16, w: bv16)
    requires z == 0
    ensures z ^ w == w && w ^ z == w
  {}

  // A run over all bits of a word is as many steps from the sum of state and word.
  lemma RunFrom(s: bv16, v: bv16, n: nat, t: bv16, run: bv16, rest: bv16)
    requires t == s ^ v && run == Run(s, BitsOf(v, n)) && rest == Rest(v, n) && rest == 0
    ensures Steps(t, n) == run
  {
    RunIsStepsOf(s, v, n, t, run, rest);
    ZeroXor(rest, run);
  }

  // Starting from s is adding s to the first sixteen bits.
  lemma StartIsAdded(s: bv16, v: bv16, w: bv16, n: nat, z: bv16)
    requires w == s ^ v && Rest(v, n) == 0 && Rest(w, n) == 0 && z == 0
    ensures Run(s, BitsOf(v, n)) == Run(z, BitsOf(w, n))
  {
    hide Run, BitsOf, Rest, Steps;
    var a, b := Run(s, BitsOf(v, n)), Run(z, BitsOf(w, n));
    ZeroXor(z, w);
    RunFrom(s, v, n, w, a, Rest(v, n));
    RunFrom(z, w, n, w, b, Rest(w, n));
  }

  // The n low bits of x are set.
  predicate LowBitsSet(x: bv16, n: nat)
    decreases n
  {
    n == 0 || (x & 1 == 1 && LowBitsSet(x >> 1, n - 1))
  }

  lemma OppositeBit(v: bv16, w: bv16, x: bv16)
    requires x == v ^ w && x & 1 == 1
    ensures (w & 1 != 0) == !(v & 1 != 0)
  {}

  lemma ShiftedXor(v: bv16, w: bv16)
    ensures (v ^ w) >> 1 == (v >> 1) ^ (w >> 1)
  {}

  lemma Halved(v: bv16, w: bv16, x: bv16, n: nat, v': bv16, w': bv16, x': bv16)
    requires x == v ^ w && LowBitsSet(x, n) && n > 0
    requires v' == v >> 1 && w' == w >> 1 && x' == x >> 1
    ensures x' == v' ^ w' && LowBitsSet(x', n - 1) && (w & 1 != 0) == !(v & 1 != 0)
  {
    OppositeBit(v, w, x);
    ShiftedXor(v, w);
  }

  lemma {:induction false} Flipped(v: bv16, w: bv16, x: bv16, n: nat)
    requires x == v ^ w && LowBitsSet(x, n)
    ensures forall i :: 0 <= i < n ==> BitsOf(w, n)[i] == !BitsOf(v, n)[i]
    decreases n
  {
    hide LowBitsSet, BitsOf;
    if n > 0 {
      var v', w', x' := v >> 1, w >> 1, x >> 1;
      Halved(v, w, x, n, v', w', x');
      Flipped(v', w', x', n - 1);
      FirstBits(v, n, v & 1 != 0, v');
      FirstBits(w, n, w & 1 != 0, w');
      forall i | 0 <= i < n ensures BitsOf(w, n)[i] == !BitsOf(v, n)[i] {
        if i > 0 {
          assert BitsOf(w', n - 1)[i - 1] == !BitsOf(v', n - 1)[i - 1];
        }
      }
    }
  }

  lemma FirstBits(v: bv16, n: nat, first: bool, v': bv16)
    requires n > 0 && first == (v & 1 != 0) && v' == v >> 1
    ensures BitsOf(v, n) == [first] + BitsOf(v', n - 1)
  {}

  lemma AllBitsSet()
    ensures LowBitsSet(0xFFFF, 16)
  {}

  lemma XorBack(v: bv16)
    ensures v ^ (0xFFFF ^ v) == 0xFFFF
  {}

  lemma Flipped16(v: bv16, w: bv16)
    requires w == 0xFFFF ^ v
    ensures BitsOf(w, 16) == FlipFirst16(BitsOf(v, 16))
  {
    hide BitsOf, LowBitsSet;
    AllBitsSet();
    XorBack(v);
    Flipped(v, w, 0xFFFF, 16);
  }

  /**
   * The checksum of two bytes or more is the remainder from an empty register of
   * the message with its first sixteen bits complemented.
   */
  lemma StartComplements(m: bytes)
    requires |m| >= 2
    ensures Crc(m) == Run(0, FlipFirst16(Bits(m)))
  {
    hide Run, Bits, BitsOf, Rest, FlipFirst16;
    var bits := Bits(m);
    var first, rest := bits[..16], bits[16..];
    var v := WordOf(first);
    Rest16(v);
    Rest16(0xFFFF ^ v);
    StartIsAdded(0xFFFF, v, 0xFFFF ^ v, 16, 0);
    Flipped16(v, 0xFFFF ^ v);
    RunConcat(0xFFFF, first, rest);
    RunConcat(0, FlipFirst16(first), rest);
    assert bits == first + rest && FlipFirst16(bits) == FlipFirst16(first) + rest;
  }

  /** The CCITT checksum is the remainder from an empty register of the message as it is. */
  lemma CcittStartsEmpty(m: bytes)
    ensures CcittCrc(m) == RunMsb(0, BitsMsb(m))
  {}

  // ---------------------------------------------------------------- check values

  lemma Step1()
    ensures Update(0xffff, 49) == 0x2f8d && CcittUpdate(0x0000, 49) == 0x2672
  {}

  lemma Step2()
    ensures Update(0x2f8d, 50) == 0x4d53 && CcittUpdate(0x2672, 50) == 0x20b5
  {}

  lemma Step3()
    ensures Update(0x4d53, 51) == 0x634b && CcittUpdate(0x20b5, 51) == 0x9752
  {}

  lemma Step4()
    ensures Update(0x634b, 52) == 0x8b13 && CcittUpdate(0x9752, 52) == 0xd789
  {}

  lemma Step5()
    ensures Update(0x8b13, 53) == 0x44bf && CcittUpdate(0xd789, 53) == 0x546c
  {}

  lemma Step6()
    ensures Update(0x44bf, 54) == 0x198d && CcittUpdate(0x546c, 54) == 0x20e4
  {}

  lemma Step7()
    ensures Update(0x198d, 55) == 0x1ac8 && CcittUpdate(0x20e4, 55) == 0x86d6
  {}

  lemma Step8()
    ensures Update(0x1ac8, 56) == 0xf795 && CcittUpdate(0x86d6, 56) == 0x9015
  {}

  lemma Step9()
    ensures Update(0xf795, 57) == 0x6f91 && CcittUpdate(0x9015, 57) == 0x31c3
  {}

  /** The check values of the two checksums: those of the string "123456789". */
  lemma CheckValues()
    ensures Crc([49, 50, 51, 52, 53, 54, 55, 56, 57]) == 0x6f91
    ensures CcittCrc([49, 50, 51, 52, 53, 54, 55, 56, 57]) == 0x31c3
  {
    hide Crc, CcittCrc, Update, CcittUpdate;
    StartValues();
    Step1();
    OneMore([], 49, [49]);
    Step2();
    OneMore([49], 50, [49, 50]);
    Step3();
    OneMore([49, 50], 51, [49, 50, 51]);
    Step4();
    OneMore([49, 50, 51], 52, [49, 50, 51, 52]);
    Step5();
    OneMore([49, 50, 51, 52], 53, [49, 50, 51, 52, 53]);
    Step6();
    OneMore([49, 50, 51, 52, 53], 54, [49, 50, 51, 52, 53, 54]);
    Step7();
    OneMore([49, 50, 51, 52, 53, 54], 55, [49, 50, 51, 52, 53, 54, 55]);
    Step8();
    OneMore([49, 50, 51, 52, 53, 54, 55], 56, [49, 50, 51, 52, 53, 54, 55, 56]);
    Step9();
    OneMore([49, 50, 51, 52, 53, 54, 55, 56], 57, [49, 50, 51, 52, 53, 54, 55, 56, 57]);
  }

  lemma OneMore(m: bytes, b: byte, n: bytes)
    requires n == m + [b]
    ensures Crc(n) == Update(Crc(m), b) && CcittCrc(n) == CcittUpdate(CcittCrc(m), b)
  {
    hide *;
    CrcSnoc(m, b);
    CcittCrcSnoc(m, b);
  }

  lemma StartValues()
    ensures Crc([]) == 0xFFFF && CcittCrc([]) == 0
  {}
}
