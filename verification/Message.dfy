/**
 * The messages of the serial link: how `comm_send` of user_main/comm.c builds
 * a body and how `decoder_check_and_dispatch_cb` judges one.
 */
module Message {
  import opened Bytes
  import opened Crc16
  import opened Crc16Detect

  /** What the callback is given: the type byte and the data behind it. */
  datatype Packet = Packet(kind: byte, data: bytes)

  datatype Verdict = ProtocolError | CrcError | Accepted(packet: Packet)

  const MAX_MESSAGE_SIZE: nat := 2040

  /** The body `comm_send` hands to the transmitter: type, data, checksum low byte first. */
  function Body(p: Packet): (r: bytes)
    ensures |r| == |p.data| + 3
  {
    var head := [p.kind] + p.data;
    var crc := Crc(head);
    head + [ByteOf(crc), ByteOf(crc >> 8)]
  }

  /** The verdict of the receiver on a decoded body. */
  function Judge(body: bytes): Verdict {
    var n := |body|;
    if n < 3 then ProtocolError
    else if Crc(body[..n - 2]) != LittleEndian(body[n - 2], body[n - 1]) then CrcError
    else Accepted(Packet(body[0], body[1..n - 2]))
  }

  /** The receiver accepts what the sender builds and recovers it. */
  lemma JudgeBody(p: Packet)
    ensures Judge(Body(p)) == Accepted(p)
  {
    hide Crc, LittleEndian, ByteOf;
    var head := [p.kind] + p.data;
    var body := Body(p);
    var n := |body|;
    LittleEndianRoundTrip(Crc(head));
    assert body[..n - 2] == head;
    assert body[n - 2] == ByteOf(Crc(head)) && body[n - 1] == ByteOf(Crc(head) >> 8);
    assert body[1..n - 2] == p.data;
  }

  /**
   * The comparison of two checksums is the test for a zero residue. What is
   * accepted is the first byte and all others but the last two.
   */
  lemma JudgeIsResidue(body: bytes)
    ensures Judge(body).Accepted? <==> |body| >= 3 && Crc(body) == 0
    ensures Judge(body).ProtocolError? <==> |body| < 3
    ensures Judge(body).Accepted? ==> Judge(body).packet == Packet(body[0], body[1..|body| - 2])
  {
    hide Crc, LittleEndian;
    var n := |body|;
    if n >= 3 {
      ResidueZero(body[..n - 2], body[n - 2], body[n - 1]);
      assert body == body[..n - 2] + [body[n - 2], body[n - 1]];
    }
  }

  /** The type byte comes first, then the data; with the two bytes behind them the checksum is 0. */
  lemma BodyLayout(p: Packet)
    ensures var b := Body(p); b[0] == p.kind && b[1..|p.data| + 1] == p.data && Crc(b) == 0
  {
    hide Crc, Judge;
    JudgeBody(p);
    JudgeIsResidue(Body(p));
  }

  /**
   * Damage to an accepted body that stays inside sixteen consecutive bits,
   * wherever it is, trailer included, is reported as a checksum error.
   */
  lemma BurstRejected(body: bytes, damaged: bytes, k: nat)
    requires Judge(body).Accepted?
    requires |damaged| == |body| && damaged != body
    requires forall i :: 0 <= i < 8 * |body| && !(k <= i < k + 16) ==> Bits(body)[i] == Bits(damaged)[i]
    ensures Judge(damaged) == CrcError
  {
    hide Crc, Bits;
    JudgeIsResidue(body);
    JudgeIsResidue(damaged);
    BurstDetected(body, damaged, k);
  }

  /** The accepted packets among some decoded bodies, in order. */
  function Accepts(bodies: seq<bytes>): seq<Packet> {
    if bodies == [] then []
    else (match Judge(bodies[0]) case Accepted(p) => [p] case _ => []) + Accepts(bodies[1..])
  }

  function CountProtocolErrors(bodies: seq<bytes>): nat {
    if bodies == [] then 0
    else (if Judge(bodies[0]).ProtocolError? then 1 else 0) + CountProtocolErrors(bodies[1..])
  }

  function CountCrcErrors(bodies: seq<bytes>): nat {
    if bodies == [] then 0
    else (if Judge(bodies[0]).CrcError? then 1 else 0) + CountCrcErrors(bodies[1..])
  }

  lemma {:induction false} CountsConcat(a: seq<bytes>, b: seq<bytes>)
    ensures Accepts(a + b) == Accepts(a) + Accepts(b)
    ensures CountProtocolErrors(a + b) == CountProtocolErrors(a) + CountProtocolErrors(b)
    ensures CountCrcErrors(a + b) == CountCrcErrors(a) + CountCrcErrors(b)
  {
    hide Judge;
    if a == [] {
      assert a + b == b;
    } else {
      assert (a + b)[1..] == a[1..] + b;
      CountsConcat(a[1..], b);
    }
  }

  /** What a receiver has put out: callback calls and error counters of 32 bits. */
  datatype Outputs = Outputs(packets: seq<Packet>, protoErrors: uint32, crcErrors: uint32)

  /** The outputs after judging some bodies, with or without a callback installed. */
  function JudgeAll(o: Outputs, hasCallback: bool, bodies: seq<bytes>): Outputs {
    Outputs(o.packets + (if hasCallback then Accepts(bodies) else []),
            (o.protoErrors + CountProtocolErrors(bodies)) % UINT32,
            (o.crcErrors + CountCrcErrors(bodies)) % UINT32)
  }

  lemma JudgeAllConcat(o: Outputs, hasCallback: bool, a: seq<bytes>, b: seq<bytes>)
    ensures JudgeAll(o, hasCallback, a + b) == JudgeAll(JudgeAll(o, hasCallback, a), hasCallback, b)
  {
    hide Accepts, CountProtocolErrors, CountCrcErrors;
    CountsConcat(a, b);
    ModAdd(o.protoErrors, CountProtocolErrors(a), CountProtocolErrors(b));
    ModAdd(o.crcErrors, CountCrcErrors(a), CountCrcErrors(b));
  }

  lemma ModAdd(x: int, a: int, b: int)
    ensures ((x + a) % UINT32 + b) % UINT32 == (x + (a + b)) % UINT32
  {}

  function Bodies(packets: seq<Packet>): (r: seq<bytes>)
    ensures |r| == |packets|
  {
    if packets == [] then [] else [Body(packets[0])] + Bodies(packets[1..])
  }

  /** Bodies the sender built are all accepted, in order, without an error. */
  lemma {:induction false} BodiesAccepted(packets: seq<Packet>)
    ensures Accepts(Bodies(packets)) == packets
    ensures CountProtocolErrors(Bodies(packets)) == 0 && CountCrcErrors(Bodies(packets)) == 0
  {
    hide Body, Judge;
    if packets != [] {
      JudgeBody(packets[0]);
      BodiesAccepted(packets[1..]);
      var r := Bodies(packets);
      assert r[0] == Body(packets[0]) && r[1..] == Bodies(packets[1..]);
    }
  }

  /** `comm_send` up to the call of `transmitter_push`: the body is built in place. */
  method BuildBody(kind: byte, data: bytes) returns (buf: array<byte>)
    ensures fresh(buf) && buf[..] == Body(Packet(kind, data))
  {
    hide Crc, ByteOf;
    var n := |data|;
    buf := new byte[n + 3](_ => 0);
    buf[0] := kind;
    var i := 0;
    while i < n
      invariant 0 <= i <= n
      invariant buf[0] == kind && buf[1..i + 1] == data[..i]
    {
      buf[1 + i] := data[i];
      i := i + 1;
    }
    assert buf[..n + 1] == [kind] + data;
    var crc := Crc16Block(buf[..], n + 1);
    assert buf[..][..n + 1] == buf[..n + 1];
    buf[n + 1] := ByteOf(crc);
    buf[n + 2] := ByteOf(crc >> 8);
    assert buf[..n + 1] == [kind] + data;
    assert buf[..] == buf[..n + 1] + [buf[n + 1], buf[n + 2]];
  }
}
