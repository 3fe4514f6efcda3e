/**
 * The receiving side of user_main/comm.c: `struct decoder` with the COBS
 * decoder of user_main/cobs.c inside it, and the check of every decoded body.
 */
module Receiver {
  import opened Bytes
  import Cobs
  import Machine = CobsDecoder
  import opened Crc16
  import opened Crc16Detect
  import opened Message

  datatype DecoderState = DecIdle | DecBlock

  class Decoder {
    // struct cobs_decoder
    const buf: array<byte>
    var bufInd: nat
    var overflow: bool
    var blockLen: nonzero
    var blockCnt: nonzero
    var state: DecoderState

    // struct decoder
    const hasCallback: bool
    var protoErrors: uint32
    var crcErrors: uint32
    var dispatched: seq<Packet>  // the calls of the message callback

    ghost predicate Valid()
      reads this
    {
      state == DecBlock ==> blockCnt <= blockLen && bufInd <= buf.Length
    }

    /** The COBS decoder's fields as a state of the machine in `CobsDecoder`. */
    ghost function View(): Machine.State
      reads this, buf
      requires Valid()
    {
      if state == DecIdle then Machine.Idle else Machine.Block(buf[..bufInd], blockLen, blockCnt, overflow)
    }

    /** `decoder_init`: the buffer holds the longest encoded message. */
    constructor (hasCallback: bool)
      ensures Valid() && View() == Machine.Idle && fresh(buf)
      ensures buf.Length == Cobs.MaxSize(MAX_MESSAGE_SIZE) == 2050 && this.hasCallback == hasCallback
      ensures protoErrors == 0 && crcErrors == 0 && dispatched == []
    {
      buf := new byte[Cobs.MaxSize(MAX_MESSAGE_SIZE)](_ => 0);
      bufInd, overflow, blockLen, blockCnt, state := 0, false, 1, 1, DecIdle;
      this.hasCallback := hasCallback;
      protoErrors, crcErrors, dispatched := 0, 0, [];
    }

    function Out(): Outputs
      reads this
    {
      Outputs(dispatched, protoErrors, crcErrors)
    }

    /** `decoder_check_and_dispatch_cb`; the error counters are 32 bits wide. */
    method CheckAndDispatch(data: bytes)
      modifies this`protoErrors, this`crcErrors, this`dispatched
      ensures Out() == JudgeAll(old(Out()), hasCallback, [data])
      ensures protoErrors == if |data| < 3 then (old(protoErrors) + 1) % 0x1_0000_0000 else old(protoErrors)
      ensures crcErrors ==
              if |data| >= 3 && Crc(data) != 0 then (old(crcErrors) + 1) % 0x1_0000_0000 else old(crcErrors)
      ensures dispatched == old(dispatched) +
              if |data| >= 3 && Crc(data) == 0 && hasCallback then [Packet(data[0], data[1..|data| - 2])] else []
    {
      hide JudgeAll;
      JudgeOne(Out(), hasCallback, data);
      JudgeIsResidue(data);
      var n := |data|;
      if n < 3 {
        protoErrors := (protoErrors + 1) % UINT32;
        return;
      }
      var crcCalc := Crc16Block(data, n - 2);
      var crcMsg := LittleEndian(data[n - 2], data[n - 1]);
      if crcCalc != crcMsg {
        crcErrors := (crcErrors + 1) % UINT32;
        return;
      }
      if hasCallback {
        dispatched := dispatched + [Packet(data[0], data[1..n - 2])];
      }
    }

    /** The body of the loop in `cobs_decoder_put`. */
    method PutByte(ch: byte)
      requires Valid() && !Machine.Overruns(View(), ch, buf.Length)
      modifies this, buf
      ensures Valid()
      ensures View() == Machine.Step(old(View()), ch, buf.Length).0
      ensures Out() == JudgeAll(old(Out()), hasCallback, Machine.Step(old(View()), ch, buf.Length).1)
    {
      hide JudgeAll;
      JudgeNone(Out(), hasCallback);
      match state {
        case DecIdle =>
          if ch != 0 {
            bufInd := 0;
            overflow := false;
            blockLen, blockCnt := ch, ch;
            state := DecBlock;
          }
        case DecBlock =>
          if ch != 0 {
            if blockCnt == 1 && blockLen < 0xFF {
              buf[bufInd] := 0;
              bufInd := bufInd + 1;
              blockLen, blockCnt := ch, ch;
            } else if blockCnt == 1 && blockLen == 0xFF {
              blockLen, blockCnt := ch, ch;
            } else {
              blockCnt := blockCnt - 1;
              if bufInd < buf.Length {
                buf[bufInd] := ch;
                bufInd := bufInd + 1;
              } else {
                overflow := true;
              }
            }
          } else {
            if blockCnt == 1 && !overflow {
              CheckAndDispatch(buf[..bufInd]);
            }
            bufInd := 0;
            state := DecIdle;
          }
      }
    }

    /** `decoder_put_data`, that is `cobs_decoder_put`. */
    method Put(src: bytes)
      requires Valid() && Machine.Safe(View(), src, buf.Length)
      modifies this, buf
      ensures Valid()
      ensures View() == Machine.After(old(View()), src, buf.Length)
      ensures Out() == JudgeAll(old(Out()), hasCallback, Machine.Delivered(old(View()), src, buf.Length))
    {
      hide Machine.After, Machine.Delivered, Machine.Safe, Machine.Step, JudgeAll;
      ghost var size, st0 := buf.Length, View();
      Machine.RunEmpty(st0, size);
      JudgeNone(Out(), hasCallback);
      assert src[..0] == [] && src[0..] == src;
      var i := 0;
      while i < |src|
        invariant 0 <= i <= |src| && Valid()
        invariant View() == Machine.After(st0, src[..i], size)
        invariant Machine.Safe(View(), src[i..], size)
        invariant Out() == JudgeAll(old(Out()), hasCallback, Machine.Delivered(st0, src[..i], size))
      {
        assert src[i..][1..] == src[i + 1..] && src[..i + 1] == src[..i] + [src[i]];
        ghost var st := View();
        Machine.RunFirst(st, src[i..], size);
        Machine.RunSnoc(st0, src[..i], src[i], size);
        JudgeAllConcat(old(Out()), hasCallback, Machine.Delivered(st0, src[..i], size),
                       Machine.Step(st, src[i], size).1);
        PutByte(src[i]);
        i := i + 1;
      }
      assert src[..i] == src;
    }

    /**
     * The loop of `do_rx`: pieces of at most 64 bytes until the UART's FIFO is
     * found empty. `arrivals[k]` comes in just before the FIFO count is read for
     * the k-th time; `n` is the number of arrivals seen.
     */
    method DoRx(arrivals: seq<bytes>) returns (n: nat)
      requires Valid() && Machine.Safe(View(), Flatten(arrivals), buf.Length)
      modifies this, buf
      ensures Valid() && n <= |arrivals|
      ensures n < |arrivals| ==> n > 0 && arrivals[n - 1] == []
      ensures View() == Machine.After(old(View()), Flatten(arrivals[..n]), buf.Length)
      ensures Out() == JudgeAll(old(Out()), hasCallback,
                                Machine.Delivered(old(View()), Flatten(arrivals[..n]), buf.Length))
    {
      hide Machine.After, Machine.Delivered, Machine.Safe, JudgeAll;
      ghost var size, st0 := buf.Length, View();
      Machine.RunEmpty(st0, size);
      JudgeNone(Out(), hasCallback);
      var fifo: bytes := [];
      ghost var fed: bytes := [];
      n := 0;
      while true
        invariant n <= |arrivals| && Valid()
        invariant fed + fifo == Flatten(arrivals[..n])
        invariant View() == Machine.After(st0, fed, size)
        invariant Out() == JudgeAll(old(Out()), hasCallback, Machine.Delivered(st0, fed, size))
        decreases |arrivals| - n, |fifo|
      {
        if n < |arrivals| {
          assert arrivals[..n + 1] == arrivals[..n] + [arrivals[n]];
          FlattenSnoc(arrivals[..n], arrivals[n]);
          fifo := fifo + arrivals[n];
          n := n + 1;
        }
        var count := |fifo|;
        if count == 0 {
          assert fed == Flatten(arrivals[..n]);
          break;
        }
        count := if count < 64 then count else 64;
        ghost var part := fifo[..count];
        StillSafe(st0, fed, part, fifo[count..], arrivals, n, size);
        JudgeAllConcat(old(Out()), hasCallback, Machine.Delivered(st0, fed, size),
                       Machine.Delivered(View(), part, size));
        Put(fifo[..count]);
        fed := fed + part;
        fifo := fifo[count..];
      }
    }
  }

  lemma StillSafe(st: Machine.State, fed: bytes, part: bytes, rest: bytes, arrivals: seq<bytes>, n: nat, size: nat)
    requires n <= |arrivals| && fed + (part + rest) == Flatten(arrivals[..n])
    requires Machine.Safe(st, Flatten(arrivals), size)
    ensures Machine.Safe(Machine.After(st, fed, size), part, size)
    ensures Machine.After(st, fed + part, size) == Machine.After(Machine.After(st, fed, size), part, size)
    ensures Machine.Delivered(st, fed + part, size) ==
            Machine.Delivered(st, fed, size) + Machine.Delivered(Machine.After(st, fed, size), part, size)
  {
    hide Machine.After, Machine.Delivered, Machine.Safe;
    var later := Flatten(arrivals[n..]);
    assert arrivals == arrivals[..n] + arrivals[n..];
    FlattenConcat(arrivals[..n], arrivals[n..]);
    assert Flatten(arrivals) == fed + part + (rest + later);
    Machine.RunConcat(st, fed, part, size);
    Machine.RunConcat(st, fed + part, rest + later, size);
  }

  lemma JudgeOne(o: Outputs, hasCallback: bool, body: bytes)
    ensures JudgeAll(o, hasCallback, [body]) ==
            match Judge(body)
            case ProtocolError => o.(protoErrors := (o.protoErrors + 1) % UINT32)
            case CrcError => o.(crcErrors := (o.crcErrors + 1) % UINT32)
            case Accepted(p) => if hasCallback then o.(packets := o.packets + [p]) else o
  {
    hide Judge;
    var none: seq<bytes> := [];
    assert [body][1..] == none;
    assert Accepts([body]) == match Judge(body) case Accepted(p) => [p] case _ => [];
    assert CountProtocolErrors([body]) == if Judge(body).ProtocolError? then 1 else 0;
    assert CountCrcErrors([body]) == if Judge(body).CrcError? then 1 else 0;
    assert o.packets + [] == o.packets;
  }

  lemma JudgeNone(o: Outputs, hasCallback: bool)
    ensures JudgeAll(o, hasCallback, []) == o
  {}
}
