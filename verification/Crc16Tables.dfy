/**
 * The shift registers behind user_main/crc16.c and its two lookup tables, row
 * by row as they are written there, with the proof that every table entry is
 * the register run for eight steps from its index.
 */
module Crc16Tables {

  // The feedback is written as a mask, all ones or all zeros, so that exclusive or
  // distributes over it; `StepCases` gives the usual form.

  function Feedback(x: bv16): bv16 { (0 - (x & 1)) & 0x8408 }

  function FeedbackMsb(x: bv16): bv16 { (0 - (x >> 15)) & 0x1021 }

  /** One shift of the reflected register: polynomial 0x1021 with its low bit first. */
  function Step(x: bv16): bv16 { (x >> 1) ^ Feedback(x) }

  /** One shift of the register for polynomial 0x1021 with its high bit first. */
  function StepMsb(x: bv16): bv16 { (x << 1) ^ FeedbackMsb(x) }

  function Steps(x: bv16, n: nat): bv16
    decreases n
  {
    if n == 0 then x else Step(Steps(x, n - 1))
  }

  function StepsMsb(x: bv16, n: nat): bv16
    decreases n
  {
    if n == 0 then x else StepMsb(StepsMsb(x, n - 1))
  }

  lemma StepCases(x: bv16)
    ensures x & 1 == 1 ==> Step(x) == (x >> 1) ^ 0x8408
    ensures x & 1 == 0 ==> Step(x) == x >> 1
  {}

  // ---------------------------------------------------------------- linearity

  lemma {:induction false} StepsLinear(x: bv16, y: bv16, n: nat)
    ensures Steps(x ^ y, n) == Steps(x, n) ^ Steps(y, n)
    decreases n
  {
    if n > 0 {
      StepsLinear(x, y, n - 1);
    }
  }

  lemma StepsXor(z: bv16, x: bv16, y: bv16, n: nat)
    requires z == x ^ y
    ensures Steps(z, n) == Steps(x, n) ^ Steps(y, n)
  {
    StepsLinear(x, y, n);
  }

  lemma {:induction false} StepsMsbLinear(x: bv16, y: bv16, n: nat)
    ensures StepsMsb(x ^ y, n) == StepsMsb(x, n) ^ StepsMsb(y, n)
    decreases n
  {
    if n > 0 {
      StepsMsbLinear(x, y, n - 1);
    }
  }

  lemma StepsMsbXor(z: bv16, x: bv16, y: bv16, n: nat)
    requires z == x ^ y
    ensures StepsMsb(z, n) == StepsMsb(x, n) ^ StepsMsb(y, n)
  {
    StepsMsbLinear(x, y, n);
  }

  // -------------------------------------------------------------- injectivity

  /** The feedback sets the top bit, so no two states step to the same one. */
  lemma StepInjective(x: bv16, y: bv16)
    requires Step(x) == Step(y)
    ensures x == y
  {}

  lemma {:induction false} StepsInjective(x: bv16, y: bv16, n: nat)
    requires Steps(x, n) == Steps(y, n)
    ensures x == y
    decreases n
  {
    if n > 0 {
      StepInjective(Steps(x, n - 1), Steps(y, n - 1));
      StepsInjective(x, y, n - 1);
    }
  }

  lemma {:induction false} StepsInner(x: bv16, n: nat)
    ensures Steps(Step(x), n) == Steps(x, n + 1)
    decreases n
  {
    if n > 0 {
      StepsInner(x, n - 1);
    }
  }

  // ------------------------------------------------------------------- tables

  /** Row r of `crc16_tab`: entries 8r to 8r + 7. */
  function Reflected(r: bv16): (row: seq<bv16>)
    ensures |row| == 8
  {
    match r
    case 0x00 => [0x0000, 0x1189, 0x2312, 0x329b, 0x4624, 0x57ad, 0x6536, 0x74bf]
    case 0x01 => [0x8c48, 0x9dc1, 0xaf5a, 0xbed3, 0xca6c, 0xdbe5, 0xe97e, 0xf8f7]
    case 0x02 => [0x1081, 0x0108, 0x3393, 0x221a, 0x56a5, 0x472c, 0x75b7, 0x643e]
    case 0x03 => [0x9cc9, 0x8d40, 0xbfdb, 0xae52, 0xdaed, 0xcb64, 0xf9ff, 0xe876]
    case 0x04 => [0x2102, 0x308b, 0x0210, 0x1399, 0x6726, 0x76af, 0x4434, 0x55bd]
    case 0x05 => [0xad4a, 0xbcc3, 0x8e58, 0x9fd1, 0xeb6e, 0xfae7, 0xc87c, 0xd9f5]
    case 0x06 => [0x3183, 0x200a, 0x1291, 0x0318, 0x77a7, 0x662e, 0x54b5, 0x453c]
    case 0x07 => [0xbdcb, 0xac42, 0x9ed9, 0x8f50, 0xfbef, 0xea66, 0xd8fd, 0xc974]
    case 0x08 => [0x4204, 0x538d, 0x6116, 0x709f, 0x0420, 0x15a9, 0x2732, 0x36bb]
    case 0x09 => [0xce4c, 0xdfc5, 0xed5e, 0xfcd7, 0x8868, 0x99e1, 0xab7a, 0xbaf3]
    case 0x0a => [0x5285, 0x430c, 0x7197, 0x601e, 0x14a1, 0x0528, 0x37b3, 0x263a]
    case 0x0b => [0xdecd, 0xcf44, 0xfddf, 0xec56, 0x98e9, 0x8960, 0xbbfb, 0xaa72]
    case 0x0c => [0x6306, 0x728f, 0x4014, 0x519d, 0x2522, 0x34ab, 0x0630, 0x17b9]
    case 0x0d => [0xef4e, 0xfec7, 0xcc5c, 0xddd5, 0xa96a, 0xb8e3, 0x8a78, 0x9bf1]
    case 0x0e => [0x7387, 0x620e, 0x5095, 0x411c, 0x35a3, 0x242a, 0x16b1, 0x0738]
    case 0x0f => [0xffcf, 0xee46, 0xdcdd, 0xcd54, 0xb9eb, 0xa862, 0x9af9, 0x8b70]
    case 0x10 => [0x8408, 0x9581, 0xa71a, 0xb693, 0xc22c, 0xd3a5, 0xe13e, 0xf0b7]
    case 0x11 => [0x0840, 0x19c9, 0x2b52, 0x3adb, 0x4e64, 0x5fed, 0x6d76, 0x7cff]
    case 0x12 => [0x9489, 0x8500, 0xb79b, 0xa612, 0xd2ad, 0xc324, 0xf1bf, 0xe036]
    case 0x13 => [0x18c1, 0x0948, 0x3bd3, 0x2a5a, 0x5ee5, 0x4f6c, 0x7df7, 0x6c7e]
    case 0x14 => [0xa50a, 0xb483, 0x8618, 0x9791, 0xe32e, 0xf2a7, 0xc03c, 0xd1b5]
    case 0x15 => [0x2942, 0x38cb, 0x0a50, 0x1bd9, 0x6f66, 0x7eef, 0x4c74, 0x5dfd]
    case 0x16 => [0xb58b, 0xa402, 0x9699, 0x8710, 0xf3af, 0xe226, 0xd0bd, 0xc134]
    case 0x17 => [0x39c3, 0x284a, 0x1ad1, 0x0b58, 0x7fe7, 0x6e6e, 0x5cf5, 0x4d7c]
    case 0x18 => [0xc60c, 0xd785, 0xe51e, 0xf497, 0x8028, 0x91a1, 0xa33a, 0xb2b3]
    case 0x19 => [0x4a44, 0x5bcd, 0x6956, 0x78df, 0x0c60, 0x1de9, 0x2f72, 0x3efb]
    case 0x1a => [0xd68d, 0xc704, 0xf59f, 0xe416, 0x90a9, 0x8120, 0xb3bb, 0xa232]
    case 0x1b => [0x5ac5, 0x4b4c, 0x79d7, 0x685e, 0x1ce1, 0x0d68, 0x3ff3, 0x2e7a]
    case 0x1c => [0xe70e, 0xf687, 0xc41c, 0xd595, 0xa12a, 0xb0a3, 0x8238, 0x93b1]
    case 0x1d => [0x6b46, 0x7acf, 0x4854, 0x59dd, 0x2d62, 0x3ceb, 0x0e70, 0x1ff9]
    case 0x1e => [0xf78f, 0xe606, 0xd49d, 0xc514, 0xb1ab, 0xa022, 0x92b9, 0x8330]
    case _ => [0x7bc7, 0x6a4e, 0x58d5, 0x495c, 0x3de3, 0x2c6a, 0x1ef1, 0x0f78]
  }

  /** Row r of `crc16_ccitt_tab`: entries 8r to 8r + 7. */
  function Ccitt(r: bv16): (row: seq<bv16>)
    ensures |row| == 8
  {
    match r
    case 0x00 => [0x0000, 0x1021, 0x2042, 0x3063, 0x4084, 0x50a5, 0x60c6, 0x70e7]
    case 0x01 => [0x8108, 0x9129, 0xa14a, 0xb16b, 0xc18c, 0xd1ad, 0xe1ce, 0xf1ef]
    case 0x02 => [0x1231, 0x0210, 0x3273, 0x2252, 0x52b5, 0x4294, 0x72f7, 0x62d6]
    case 0x03 => [0x9339, 0x8318, 0xb37b, 0xa35a, 0xd3bd, 0xc39c, 0xf3ff, 0xe3de]
    case 0x04 => [0x2462, 0x3443, 0x0420, 0x1401, 0x64e6, 0x74c7, 0x44a4, 0x5485]
    case 0x05 => [0xa56a, 0xb54b, 0x8528, 0x9509, 0xe5ee, 0xf5cf, 0xc5ac, 0xd58d]
    case 0x06 => [0x3653, 0x2672, 0x1611, 0x0630, 0x76d7, 0x66f6, 0x5695, 0x46b4]
    case 0x07 => [0xb75b, 0xa77a, 0x9719, 0x8738, 0xf7df, 0xe7fe, 0xd79d, 0xc7bc]
    case 0x08 => [0x48c4, 0x58e5, 0x6886, 0x78a7, 0x0840, 0x1861, 0x2802, 0x3823]
    case 0x09 => [0xc9cc, 0xd9ed, 0xe98e, 0xf9af, 0x8948, 0x9969, 0xa90a, 0xb92b]
    case 0x0a => [0x5af5, 0x4ad4, 0x7ab7, 0x6a96, 0x1a71, 0x0a50, 0x3a33, 0x2a12]
    case 0x0b => [0xdbfd, 0xcbdc, 0xfbbf, 0xeb9e, 0x9b79, 0x8b58, 0xbb3b, 0xab1a]
    case 0x0c => [0x6ca6, 0x7c87, 0x4ce4, 0x5cc5, 0x2c22, 0x3c03, 0x0c60, 0x1c41]
    case 0x0d => [0xedae, 0xfd8f, 0xcdec, 0xddcd, 0xad2a, 0xbd0b, 0x8d68, 0x9d49]
    case 0x0e => [0x7e97, 0x6eb6, 0x5ed5, 0x4ef4, 0x3e13, 0x2e32, 0x1e51, 0x0e70]
    case 0x0f => [0xff9f, 0xefbe, 0xdfdd, 0xcffc, 0xbf1b, 0xaf3a, 0x9f59, 0x8f78]
    case 0x10 => [0x9188, 0x81a9, 0xb1ca, 0xa1eb, 0xd10c, 0xc12d, 0xf14e, 0xe16f]
    case 0x11 => [0x1080, 0x00a1, 0x30c2, 0x20e3, 0x5004, 0x4025, 0x7046, 0x6067]
    case 0x12 => [0x83b9, 0x9398, 0xa3fb, 0xb3da, 0xc33d, 0xd31c, 0xe37f, 0xf35e]
    case 0x13 => [0x02b1, 0x1290, 0x22f3, 0x32d2, 0x4235, 0x5214, 0x6277, 0x7256]
    case 0x14 => [0xb5ea, 0xa5cb, 0x95a8, 0x8589, 0xf56e, 0xe54f, 0xd52c, 0xc50d]
    case 0x15 => [0x34e2, 0x24c3, 0x14a0, 0x0481, 0x7466, 0x6447, 0x5424, 0x4405]
    case 0x16 => [0xa7db, 0xb7fa, 0x8799, 0x97b8, 0xe75f, 0xf77e, 0xc71d, 0xd73c]
    case 0x17 => [0x26d3, 0x36f2, 0x0691, 0x16b0, 0x6657, 0x7676, 0x4615, 0x5634]
    case 0x18 => [0xd94c, 0xc96d, 0xf90e, 0xe92f, 0x99c8, 0x89e9, 0xb98a, 0xa9ab]
    case 0x19 => [0x5844, 0x4865, 0x7806, 0x6827, 0x18c0, 0x08e1, 0x3882, 0x28a3]
    case 0x1a => [0xcb7d, 0xdb5c, 0xeb3f, 0xfb1e, 0x8bf9, 0x9bd8, 0xabbb, 0xbb9a]
    case 0x1b => [0x4a75, 0x5a54, 0x6a37, 0x7a16, 0x0af1, 0x1ad0, 0x2ab3, 0x3a92]
    case 0x1c => [0xfd2e, 0xed0f, 0xdd6c, 0xcd4d, 0xbdaa, 0xad8b, 0x9de8, 0x8dc9]
    case 0x1d => [0x7c26, 0x6c07, 0x5c64, 0x4c45, 0x3ca2, 0x2c83, 0x1ce0, 0x0cc1]
    case 0x1e => [0xef1f, 0xff3e, 0xcf5d, 0xdf7c, 0xaf9b, 0xbfba, 0x8fd9, 0x9ff8]
    case _ => [0x6e17, 0x7e36, 0x4e55, 0x5e74, 0x2e93, 0x3eb2, 0x0ed1, 0x1ef0]
  }

  /** `crc16_tab[i]`. */
  function ReflectedEntry(i: bv16): bv16
    requires i < 256
  {
    Column(i);
    Reflected(i >> 3)[(i & 7) as int]
  }

  /** `crc16_ccitt_tab[i]`. */
  function CcittEntry(i: bv16): bv16
    requires i < 256
  {
    Column(i);
    Ccitt(i >> 3)[(i & 7) as int]
  }

  lemma Column(i: bv16)
    ensures (i & 7) as int < 8
    ensures i == ((i >> 3) << 3) ^ (i & 7)
  {}

  // Each table is determined by its entries at the powers of two: the others are their
  // exclusive ors. The verifier computes that for every literal row.

  function ReflectedNibble0(i: bv16): bv16 {
    (if i & 0x01 != 0 then 0x1189 else 0) ^ (if i & 0x02 != 0 then 0x2312 else 0) ^
    (if i & 0x04 != 0 then 0x4624 else 0) ^ (if i & 0x08 != 0 then 0x8c48 else 0)
  }

  function ReflectedNibble1(i: bv16): bv16 {
    (if i & 0x10 != 0 then 0x1081 else 0) ^ (if i & 0x20 != 0 then 0x2102 else 0) ^
    (if i & 0x40 != 0 then 0x4204 else 0) ^ (if i & 0x80 != 0 then 0x8408 else 0)
  }

  function ReflectedByBits(i: bv16): bv16 {
    ReflectedNibble0(i) ^ ReflectedNibble1(i)
  }

  function CcittNibble0(i: bv16): bv16 {
    (if i & 0x01 != 0 then 0x1021 else 0) ^ (if i & 0x02 != 0 then 0x2042 else 0) ^
    (if i & 0x04 != 0 then 0x4084 else 0) ^ (if i & 0x08 != 0 then 0x8108 else 0)
  }

  function CcittNibble1(i: bv16): bv16 {
    (if i & 0x10 != 0 then 0x1231 else 0) ^ (if i & 0x20 != 0 then 0x2462 else 0) ^
    (if i & 0x40 != 0 then 0x48c4 else 0) ^ (if i & 0x80 != 0 then 0x9188 else 0)
  }

  function CcittByBits(i: bv16): bv16 {
    CcittNibble0(i) ^ CcittNibble1(i)
  }

  predicate ReflectedRow(r: bv16) {
    var row, base := Reflected(r), r << 3;
    && row[0] == ReflectedByBits(base) && row[1] == ReflectedByBits(base ^ 1)
    && row[2] == ReflectedByBits(base ^ 2) && row[3] == ReflectedByBits(base ^ 3)
    && row[4] == ReflectedByBits(base ^ 4) && row[5] == ReflectedByBits(base ^ 5)
    && row[6] == ReflectedByBits(base ^ 6) && row[7] == ReflectedByBits(base ^ 7)
  }

  predicate CcittRow(r: bv16) {
    var row, base := Ccitt(r), r << 3;
    && row[0] == CcittByBits(base) && row[1] == CcittByBits(base ^ 1)
    && row[2] == CcittByBits(base ^ 2) && row[3] == CcittByBits(base ^ 3)
    && row[4] == CcittByBits(base ^ 4) && row[5] == CcittByBits(base ^ 5)
    && row[6] == CcittByBits(base ^ 6) && row[7] == CcittByBits(base ^ 7)
  }

  lemma ReflectedRows00()
    ensures ReflectedRow(0x00) && ReflectedRow(0x01)
    ensures ReflectedRow(0x02) && ReflectedRow(0x03)
  {}

  lemma ReflectedRows04()
    ensures ReflectedRow(0x04) && ReflectedRow(0x05)
    ensures ReflectedRow(0x06) && ReflectedRow(0x07)
  {}

  lemma ReflectedRows08()
    ensures ReflectedRow(0x08) && ReflectedRow(0x09)
    ensures ReflectedRow(0x0a) && ReflectedRow(0x0b)
  {}

  lemma ReflectedRows0c()
    ensures ReflectedRow(0x0c) && ReflectedRow(0x0d)
    ensures ReflectedRow(0x0e) && ReflectedRow(0x0f)
  {}

  lemma ReflectedRows10()
    ensures ReflectedRow(0x10) && ReflectedRow(0x11)
    ensures ReflectedRow(0x12) && ReflectedRow(0x13)
  {}

  lemma ReflectedRows14()
    ensures ReflectedRow(0x14) && ReflectedRow(0x15)
    ensures ReflectedRow(0x16) && ReflectedRow(0x17)
  {}

  lemma ReflectedRows18()
    ensures ReflectedRow(0x18) && ReflectedRow(0x19)
    ensures ReflectedRow(0x1a) && ReflectedRow(0x1b)
  {}

  lemma ReflectedRows1c()
    ensures ReflectedRow(0x1c) && ReflectedRow(0x1d)
    ensures ReflectedRow(0x1e) && ReflectedRow(0x1f)
  {}

  lemma CcittRows00()
    ensures CcittRow(0x00) && CcittRow(0x01)
    ensures CcittRow(0x02) && CcittRow(0x03)
  {}

  lemma CcittRows04()
    ensures CcittRow(0x04) && CcittRow(0x05)
    ensures CcittRow(0x06) && CcittRow(0x07)
  {}

  lemma CcittRows08()
    ensures CcittRow(0x08) && CcittRow(0x09)
    ensures CcittRow(0x0a) && CcittRow(0x0b)
  {}

  lemma CcittRows0c()
    ensures CcittRow(0x0c) && CcittRow(0x0d)
    ensures CcittRow(0x0e) && CcittRow(0x0f)
  {}

  lemma CcittRows10()
    ensures CcittRow(0x10) && CcittRow(0x11)
    ensures CcittRow(0x12) && CcittRow(0x13)
  {}

  lemma CcittRows14()
    ensures CcittRow(0x14) && CcittRow(0x15)
    ensures CcittRow(0x16) && CcittRow(0x17)
  {}

  lemma CcittRows18()
    ensures CcittRow(0x18) && CcittRow(0x19)
    ensures CcittRow(0x1a) && CcittRow(0x1b)
  {}

  lemma CcittRows1c()
    ensures CcittRow(0x1c) && CcittRow(0x1d)
    ensures CcittRow(0x1e) && CcittRow(0x1f)
  {}

  lemma ReflectedPower0001()
    ensures Steps(0x0001, 8) == 0x1189
  {}

  lemma ReflectedPower0002()
    ensures Steps(0x0002, 8) == 0x2312
  {}

  lemma ReflectedPower0004()
    ensures Steps(0x0004, 8) == 0x4624
  {}

  lemma ReflectedPower0008()
    ensures Steps(0x0008, 8) == 0x8c48
  {}

  lemma ReflectedPowers01()
    ensures Steps(0x0001, 8) == 0x1189
    ensures Steps(0x0002, 8) == 0x2312
    ensures Steps(0x0004, 8) == 0x4624
    ensures Steps(0x0008, 8) == 0x8c48
  {
    ReflectedPower0001();
    ReflectedPower0002();
    ReflectedPower0004();
    ReflectedPower0008();
  }

  lemma ReflectedPower0010()
    ensures Steps(0x0010, 8) == 0x1081
  {}

  lemma ReflectedPower0020()
    ensures Steps(0x0020, 8) == 0x2102
  {}

  lemma ReflectedPower0040()
    ensures Steps(0x0040, 8) == 0x4204
  {}

  lemma ReflectedPower0080()
    ensures Steps(0x0080, 8) == 0x8408
  {}

  lemma ReflectedPowers10()
    ensures Steps(0x0010, 8) == 0x1081
    ensures Steps(0x0020, 8) == 0x2102
    ensures Steps(0x0040, 8) == 0x4204
    ensures Steps(0x0080, 8) == 0x8408
  {
    ReflectedPower0010();
    ReflectedPower0020();
    ReflectedPower0040();
    ReflectedPower0080();
  }

  lemma CcittPower0100()
    ensures StepsMsb(0x0100, 8) == 0x1021
  {}

  lemma CcittPower0200()
    ensures StepsMsb(0x0200, 8) == 0x2042
  {}

  lemma CcittPower0400()
    ensures StepsMsb(0x0400, 8) == 0x4084
  {}

  lemma CcittPower0800()
    ensures StepsMsb(0x0800, 8) == 0x8108
  {}

  lemma CcittPowers01()
    ensures StepsMsb(0x0100, 8) == 0x1021
    ensures StepsMsb(0x0200, 8) == 0x2042
    ensures StepsMsb(0x0400, 8) == 0x4084
    ensures StepsMsb(0x0800, 8) == 0x8108
  {
    CcittPower0100();
    CcittPower0200();
    CcittPower0400();
    CcittPower0800();
  }

  lemma CcittPower1000()
    ensures StepsMsb(0x1000, 8) == 0x1231
  {}

  lemma CcittPower2000()
    ensures StepsMsb(0x2000, 8) == 0x2462
  {}

  lemma CcittPower4000()
    ensures StepsMsb(0x4000, 8) == 0x48c4
  {}

  lemma CcittPower8000()
    ensures StepsMsb(0x8000, 8) == 0x9188
  {}

  lemma CcittPowers10()
    ensures StepsMsb(0x1000, 8) == 0x1231
    ensures StepsMsb(0x2000, 8) == 0x2462
    ensures StepsMsb(0x4000, 8) == 0x48c4
    ensures StepsMsb(0x8000, 8) == 0x9188
  {
    CcittPower1000();
    CcittPower2000();
    CcittPower4000();
    CcittPower8000();
  }

  lemma ReflectedAllRows(r: bv16)
    requires r < 32
    ensures ReflectedRow(r)
  {
    ReflectedRows00(); ReflectedRows04(); ReflectedRows08(); ReflectedRows0c();
    ReflectedRows10(); ReflectedRows14(); ReflectedRows18(); ReflectedRows1c();
  }

  lemma ReflectedEntryByBits(i: bv16)
    requires i < 256
    ensures ReflectedEntry(i) == ReflectedByBits(i)
  {
    ReflectedAllRows(i >> 3);
    Column(i);
    var j := i & 7;
    if j == 0 {} else if j == 1 {} else if j == 2 {} else if j == 3 {}
    else if j == 4 {} else if j == 5 {} else if j == 6 {} else {}
  }

  lemma CcittAllRows(r: bv16)
    requires r < 32
    ensures CcittRow(r)
  {
    CcittRows00(); CcittRows04(); CcittRows08(); CcittRows0c();
    CcittRows10(); CcittRows14(); CcittRows18(); CcittRows1c();
  }

  lemma CcittEntryByBits(i: bv16)
    requires i < 256
    ensures CcittEntry(i) == CcittByBits(i)
  {
    CcittAllRows(i >> 3);
    Column(i);
    var j := i & 7;
    if j == 0 {} else if j == 1 {} else if j == 2 {} else if j == 3 {}
    else if j == 4 {} else if j == 5 {} else if j == 6 {} else {}
  }

  // Splitting i into its bits.
  lemma Halves(i: bv16)
    requires i < 256
    ensures i == (i & 0x0f) ^ (i & 0xf0)
    ensures i << 8 == ((i & 0x0f) << 8) ^ ((i & 0xf0) << 8)
  {}

  lemma ReflectedBit(i: bv16, m: bv16)
    requires m in {1, 2, 4, 8, 16, 32, 64, 128}
    ensures Steps(i & m, 8) == if i & m != 0 then Steps(m, 8) else 0
  {
    assert i & m == 0 || i & m == m;
    assert Steps(0, 8) == 0;
  }

  lemma ReflectedLow(i: bv16)
    ensures Steps(i & 0x0f, 8) == ReflectedNibble0(i)
  {
    StepsLinear(i & 0x01, i & 0x02, 8);
    StepsLinear((i & 0x01) ^ (i & 0x02), i & 0x04, 8);
    StepsLinear((i & 0x01) ^ (i & 0x02) ^ (i & 0x04), i & 0x08, 8);
    assert i & 0x0f == (i & 0x01) ^ (i & 0x02) ^ (i & 0x04) ^ (i & 0x08);
    ReflectedBit(i, 0x01); ReflectedBit(i, 0x02); ReflectedBit(i, 0x04); ReflectedBit(i, 0x08);
    ReflectedPowers01();
  }

  lemma ReflectedHigh(i: bv16)
    ensures Steps(i & 0xf0, 8) == ReflectedNibble1(i)
  {
    StepsLinear(i & 0x10, i & 0x20, 8);
    StepsLinear((i & 0x10) ^ (i & 0x20), i & 0x40, 8);
    StepsLinear((i & 0x10) ^ (i & 0x20) ^ (i & 0x40), i & 0x80, 8);
    assert i & 0xf0 == (i & 0x10) ^ (i & 0x20) ^ (i & 0x40) ^ (i & 0x80);
    ReflectedBit(i, 0x10); ReflectedBit(i, 0x20); ReflectedBit(i, 0x40); ReflectedBit(i, 0x80);
    ReflectedPowers10();
  }

  lemma ReflectedSplit(i: bv16, n: nat)
    requires i < 256
    ensures Steps(i, n) == Steps(i & 0x0f, n) ^ Steps(i & 0xf0, n)
  {
    Halves(i);
    StepsXor(i, i & 0x0f, i & 0xf0, n);
  }

  lemma ReflectedStepsByBits(i: bv16)
    requires i < 256
    ensures ReflectedByBits(i) == Steps(i, 8)
  {
    hide Steps, ReflectedNibble0, ReflectedNibble1;
    ReflectedLow(i);
    ReflectedHigh(i);
    ReflectedSplit(i, 8);
  }

  /** Every entry of `crc16_tab` is the register run for eight steps from its index. */
  lemma ReflectedTableIsSteps(i: bv16)
    requires i < 256
    ensures ReflectedEntry(i) == Steps(i, 8)
  {
    hide Steps, ReflectedByBits, ReflectedEntry;
    ReflectedEntryByBits(i);
    ReflectedStepsByBits(i);
  }

  lemma CcittBit(i: bv16, m: bv16)
    requires m in {1, 2, 4, 8, 16, 32, 64, 128}
    ensures StepsMsb((i & m) << 8, 8) == if i & m != 0 then StepsMsb(m << 8, 8) else 0
  {
    assert i & m == 0 || i & m == m;
    assert StepsMsb(0, 8) == 0;
  }

  lemma CcittLow(i: bv16)
    ensures StepsMsb((i & 0x0f) << 8, 8) == CcittNibble0(i)
  {
    StepsMsbLinear((i & 0x01) << 8, (i & 0x02) << 8, 8);
    StepsMsbLinear(((i & 0x01) << 8) ^ ((i & 0x02) << 8), (i & 0x04) << 8, 8);
    StepsMsbLinear(((i & 0x01) << 8) ^ ((i & 0x02) << 8) ^ ((i & 0x04) << 8), (i & 0x08) << 8, 8);
    assert (i & 0x0f) << 8 == ((i & 0x01) << 8) ^ ((i & 0x02) << 8) ^ ((i & 0x04) << 8) ^ ((i & 0x08) << 8);
    CcittBit(i, 0x01); CcittBit(i, 0x02); CcittBit(i, 0x04); CcittBit(i, 0x08);
    CcittPowers01();
  }

  lemma CcittHigh(i: bv16)
    ensures StepsMsb((i & 0xf0) << 8, 8) == CcittNibble1(i)
  {
    StepsMsbLinear((i & 0x10) << 8, (i & 0x20) << 8, 8);
    StepsMsbLinear(((i & 0x10) << 8) ^ ((i & 0x20) << 8), (i & 0x40) << 8, 8);
    StepsMsbLinear(((i & 0x10) << 8) ^ ((i & 0x20) << 8) ^ ((i & 0x40) << 8), (i & 0x80) << 8, 8);
    assert (i & 0xf0) << 8 == ((i & 0x10) << 8) ^ ((i & 0x20) << 8) ^ ((i & 0x40) << 8) ^ ((i & 0x80) << 8);
    CcittBit(i, 0x10); CcittBit(i, 0x20); CcittBit(i, 0x40); CcittBit(i, 0x80);
    CcittPowers10();
  }

  lemma CcittSplit(i: bv16, n: nat)
    requires i < 256
    ensures StepsMsb(i << 8, n) == StepsMsb((i & 0x0f) << 8, n) ^ StepsMsb((i & 0xf0) << 8, n)
  {
    Halves(i);
    StepsMsbXor(i << 8, (i & 0x0f) << 8, (i & 0xf0) << 8, n);
  }

  lemma CcittStepsByBits(i: bv16)
    requires i < 256
    ensures CcittByBits(i) == StepsMsb(i << 8, 8)
  {
    hide StepsMsb, CcittNibble0, CcittNibble1;
    CcittLow(i);
    CcittHigh(i);
    CcittSplit(i, 8);
  }

  /** Every entry of `crc16_ccitt_tab` is the register run for eight steps from its index, put in the high byte. */
  lemma CcittTableIsSteps(i: bv16)
    requires i < 256
    ensures CcittEntry(i) == StepsMsb(i << 8, 8)
  {
    hide StepsMsb, CcittByBits, CcittEntry;
    CcittEntryByBits(i);
    CcittStepsByBits(i);
  }
}
