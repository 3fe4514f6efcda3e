/**
 * The serial link end to end: what the receiver of one board makes of the wire
 * of another, for every run of the transmit side.
 */
module Link {
  import opened Bytes
  import opened Cobs
  import Machine = CobsDecoder
  import opened Message
  import opened TxRing
  import opened TxProtocol
  import opened TxConservation
  import opened TxSafety
  import opened TxRuns
  import TxProgress
  import Receiver

  /** The decoder's buffer, without the bytes that align the payload. */
  const BUF_SIZE: nat := MaxSize(MAX_MESSAGE_SIZE)

  /** The bodies of the packets fit the decoder's buffer. */
  predicate AllFit(packets: seq<Packet>) {
    forall i :: 0 <= i < |packets| ==> |packets[i].data| + 3 <= BUF_SIZE
  }

  function Frames(packets: seq<Packet>): (r: seq<Machine.Item>)
    ensures |r| == |packets|
    ensures forall i :: 0 <= i < |r| ==> r[i] == Machine.Frame(Body(packets[i]))
  {
    seq(|packets|, i requires 0 <= i < |packets| => Machine.Frame(Body(packets[i])))
  }

  lemma {:induction false} FramesOnTheWire(packets: seq<Packet>)
    ensures Machine.Wire(Frames(packets)) == WireOf(packets)
    ensures Machine.Messages(Frames(packets)) == Bodies(packets)
  {
    hide Encode, Body;
    if packets != [] {
      FramesOnTheWire(packets[1..]);
      assert Frames(packets)[1..] == Frames(packets[1..]);
    }
  }

  lemma AllFitFrames(packets: seq<Packet>)
    requires AllFit(packets)
    ensures Machine.Fit(Frames(packets), BUF_SIZE)
  {
    hide Body;
  }

  /**
   * A receiver in any state that hears the leading zero and then frames: after
   * what the zero ends, it delivers the bodies in order.
   */
  lemma WholeWire(st: Machine.State, packets: seq<Packet>)
    requires AllFit(packets)
    ensures Machine.Safe(st, [0] + WireOf(packets), BUF_SIZE)
    ensures Machine.Delivered(st, [0] + WireOf(packets), BUF_SIZE) == Machine.Step(st, 0, BUF_SIZE).1 + Bodies(packets)
  {
    hide Encode, Body, Machine.After, Machine.Delivered, Machine.Safe, Machine.Fit, AllFit;
    var zero: bytes := [0];
    assert zero[1..] == [];
    Machine.RunFirst(st, zero, BUF_SIZE);
    Machine.RunEmpty(Machine.Idle, BUF_SIZE);
    assert [] + zero == zero;
    FramesOnTheWire(packets);
    AllFitFrames(packets);
    Machine.Resynchronises(st, [], Frames(packets), BUF_SIZE);
  }

  lemma {:induction false} PrefixOfBodies(some: seq<bytes>, packets: seq<Packet>)
    requires some <= Bodies(packets)
    ensures some == Bodies(packets[..|some|])
  {
    hide Body;
    if some != [] {
      PrefixOfBodies(some[1..], packets[1..]);
      assert packets[..|some|][1..] == packets[1..][..|some| - 1];
      assert some == [some[0]] + some[1..];
    } else {
      assert packets[..0] == [];
    }
  }

  lemma PrefixIsSafe(st: Machine.State, a: bytes, b: bytes)
    requires a <= b && Machine.Safe(st, b, BUF_SIZE)
    ensures Machine.Safe(st, a, BUF_SIZE)
  {
    Machine.RunConcat(st, a, b[|a|..], BUF_SIZE);
    assert b == a + b[|a|..];
  }

  /** What has been sent so far delivers the bodies of a beginning of the committed packets. */
  lemma Heard(s: State, st: Machine.State) returns (n: nat)
    requires Inv(s) && AllFit(s.store.committed)
    ensures n <= |s.store.committed|
    ensures Machine.Safe(st, s.port.wire, BUF_SIZE)
    ensures s.port.wire != [] ==>
            Machine.Delivered(st, s.port.wire, BUF_SIZE) ==
            Machine.Step(st, 0, BUF_SIZE).1 + Bodies(s.store.committed[..n])
    ensures s.port.wire == [] ==> n == 0 && Machine.Delivered(st, s.port.wire, BUF_SIZE) == []
    ensures s.store.ring.Empty() && s.port.fifo == [] ==> n == |s.store.committed| && s.port.wire != []
  {
    hide Inv, AllFit, Encode, Body, Machine.Run, Machine.Step, Machine.Safe, Ring.Empty;
    var whole := [0] + WireOf(s.store.committed);
    var wire := s.port.wire;
    WireIsPrefix(s);
    WholeWire(st, s.store.committed);
    PrefixIsSafe(st, wire, whole);
    if s.store.ring.Empty() && s.port.fifo == [] {
      AllSent(s);
      n := |s.store.committed|;
      assert s.store.committed[..n] == s.store.committed;
    } else if wire == [] {
      n := 0;
      Machine.RunEmpty(st, BUF_SIZE);
    } else {
      var first := Machine.Step(st, 0, BUF_SIZE).1;
      Machine.PrefixDelivers(st, wire, whole, BUF_SIZE);
      Machine.RunFirst(st, wire, BUF_SIZE);
      var rest := Machine.Delivered(st, wire, BUF_SIZE)[|first|..];
      assert rest <= Bodies(s.store.committed);
      PrefixOfBodies(rest, s.store.committed);
      n := |rest|;
    }
  }

  /** The outputs of a receiver that was idle with cleared counters. */
  function Received(wire: bytes): Outputs {
    JudgeAll(Outputs([], 0, 0), true, Machine.Delivered(Machine.Idle, wire, BUF_SIZE))
  }

  /**
   * The link: for every interleaving of senders, comm task, interrupt and FIFO
   * that puts no buffer into a full ring whose write counter has wrapped, the
   * bytes emitted so far make the receiver dispatch the first of the
   * committed packets, in order, each once and intact, and count no error; with
   * ring and FIFO empty they are all of them.
   */
  lemma EndToEnd(labels: seq<Label>)
    requires Possible(Init(), labels) && Guarded(Init(), labels)
    requires AllFit(Final(Init(), labels).store.committed)
    ensures var s := Final(Init(), labels);
            && Machine.Safe(Machine.Idle, s.port.wire, BUF_SIZE)
            && Received(s.port.wire).packets <= s.store.committed
            && Received(s.port.wire).protoErrors == 0
            && Received(s.port.wire).crcErrors == 0
            && (s.store.ring.Empty() && s.port.fifo == [] ==> Received(s.port.wire).packets == s.store.committed)
  {
    hide Inv, AllFit, Init, Final, Possible, Guarded, Encode, Body, Machine.Run, Machine.Delivered, Machine.Safe,
      Ring.Empty, Accepts, CountCrcErrors, CountProtocolErrors;
    Reachable(labels);
    var s := Final(Init(), labels);
    var n := Heard(s, Machine.Idle);
    var some := s.store.committed[..n];
    assert Machine.Delivered(Machine.Idle, s.port.wire, BUF_SIZE) == Bodies(some);
    BodiesAccepted(some);
    assert Received(s.port.wire).packets == some;
    assert n == |s.store.committed| ==> some == s.store.committed;
  }

  /** The same for every interleaving that commits fewer than 65536 packets, without any guard. */
  lemma EndToEndEarly(labels: seq<Label>)
    requires Possible(Init(), labels) && AllFit(Final(Init(), labels).store.committed)
    requires |Final(Init(), labels).store.committed| < WRAP
    ensures var s := Final(Init(), labels);
            && Machine.Safe(Machine.Idle, s.port.wire, BUF_SIZE)
            && Received(s.port.wire).packets <= s.store.committed
            && Received(s.port.wire).protoErrors == 0
            && Received(s.port.wire).crcErrors == 0
            && ((s.store.ring.Empty() || Quiescent(s)) && s.port.fifo == [] ==>
                  Received(s.port.wire).packets == s.store.committed)
  {
    hide Inv, AllFit, Init, Final, Possible, Guarded, Quiescent, Received, Ring.Empty, Machine.Safe;
    InitInv();
    EarlyRunsAreGuarded(Init(), labels);
    Reachable(labels);
    EndToEnd(labels);
    if Quiescent(Final(Init(), labels)) {
      QuiescentMeansDone(Final(Init(), labels));
    }
  }

  /** The same for every state that a guarded run reaches, such as those of a `Transmitter`. */
  lemma EndToEndReached(s: State)
    requires Reaches(Init(), s) && AllFit(s.store.committed)
    ensures Machine.Safe(Machine.Idle, s.port.wire, BUF_SIZE)
    ensures Received(s.port.wire).packets <= s.store.committed
    ensures Received(s.port.wire).protoErrors == 0 && Received(s.port.wire).crcErrors == 0
    ensures s.store.ring.Empty() && s.port.fifo == [] ==> Received(s.port.wire).packets == s.store.committed
  {
    hide AllFit, Init, Final, Possible, Guarded, Received, Ring.Empty, Machine.Safe;
    var labels :| Possible(Init(), labels) && Guarded(Init(), labels) && Final(Init(), labels) == s;
    EndToEnd(labels);
  }

  /**
   * Everything arrives in the end: after any guarded run, the parties can move on
   * without a new packet, whatever the unlocked tests and allocations yield, until
   * the receiver has dispatched all committed packets, those of before among them.
   */
  lemma ArrivesInTheEnd(labels: seq<Label>, choose: State -> bool) returns (more: seq<Label>)
    requires Possible(Init(), labels) && Guarded(Init(), labels)
    ensures Possible(Init(), labels + more) && Guarded(Init(), labels + more) && forall l :: l in more ==> !l.Begin?
    ensures var before, s := Final(Init(), labels).store.committed, Final(Init(), labels + more);
            && before <= s.store.committed && s.store.heap == map[]
            && (AllFit(s.store.committed) ==> Received(s.port.wire).packets == s.store.committed)
  {
    hide AllFit, Init, Final, Possible, Guarded, Received, Ring.Empty, Inv, Machine.Safe;
    Reachable(labels);
    var s0 := Final(Init(), labels);
    more := TxProgress.Settles(s0, choose);
    RunConcat(Init(), labels, more);
    CommittedGrowsAll(s0, more);
    var s := Final(Init(), labels + more);
    TxProgress.SettledMeansSent(s);
    if AllFit(s.store.committed) {
      EndToEnd(labels + more);
    }
  }

  /** In whatever pieces the bytes arrive, the receiver's code dispatches the committed packets. */
  method Listen(pieces: seq<bytes>, ghost s: State) returns (dec: Receiver.Decoder)
    requires Reaches(Init(), s) && AllFit(s.store.committed)
    requires Flatten(pieces) == s.port.wire && forall i :: 0 <= i < |pieces| ==> pieces[i] != []
    ensures fresh(dec) && dec.dispatched <= s.store.committed && dec.protoErrors == 0 && dec.crcErrors == 0
    ensures s.store.ring.Empty() && s.port.fifo == [] ==> dec.dispatched == s.store.committed
  {
    hide Reaches, AllFit, Init, Ring.Empty, Machine.Run, Machine.Safe, JudgeAll;
    EndToEndReached(s);
    dec := new Receiver.Decoder(true);
    var n := dec.DoRx(pieces);
    assert pieces[..n] == pieces;
    assert dec.Out() == Received(s.port.wire);
  }
}
