/**
 * `lwip_recvfrom` of lwip/api/sockets.c: reading from a netconn whose data
 * comes in pieces, keeping what a call leaves over for the next one.
 */
module Stream {
  import opened Bytes

  /** A chain of pbufs with `tot_len` bytes, and whether its first has PBUF_FLAG_PUSH. */
  datatype Pbuf = Pbuf(data: bytes, push: bool)

  datatype RecvError = WouldBlock | Closed | OtherError

  /** What an attempt to get the next piece yields. */
  datatype Received = Data(buf: Pbuf) | Failure(err: RecvError)

  /** The bytes of some pbufs, in order. */
  function BytesOf(bufs: seq<Pbuf>): bytes {
    if bufs == [] then [] else bufs[0].data + BytesOf(bufs[1..])
  }

  function Min(a: int, b: int): int { if a < b then a else b }

  lemma SplitAt(data: bytes, i: nat, j: nat, rest: bytes)
    requires i <= j <= |data|
    ensures data[i..] + rest == data[i..j] + (data[j..] + rest)
  {
    assert data[i..] == data[i..j] + data[j..];
  }

  lemma {:induction false} BytesOfSnoc(bufs: seq<Pbuf>, buf: Pbuf)
    ensures BytesOf(bufs + [buf]) == BytesOf(bufs) + buf.data
  {
    if bufs == [] {
      assert (bufs + [buf])[1..] == [];
    } else {
      assert (bufs + [buf])[1..] == bufs[1..] + [buf];
      BytesOfSnoc(bufs[1..], buf);
    }
  }

  /** `mem` was read where `start` was still to come; now `rest` is. */
  ghost predicate Reads(start: bytes, mem: bytes, rest: bytes, peek: bool) {
    if peek then rest == start && mem <= rest else start == mem + rest
  }

  lemma ReadsNothing(start: bytes, peek: bool)
    ensures Reads(start, [], start, peek)
  {}

  lemma ReadsMore(start: bytes, mem: bytes, rest: bytes, piece: bytes, last: bytes, peek: bool)
    requires Reads(start, mem, rest, peek) && Reads(rest, piece, last, peek)
    requires peek ==> mem == []
    ensures Reads(start, mem + piece, last, peek)
  {
    if peek {
      assert mem + piece == piece;
    } else {
      assert mem + (piece + last) == mem + piece + last;
    }
  }

  class Socket {
    const tcp: bool
    const nonblocking: bool

    // What the rest of the stack does: `rcvevent` as it is found before the a-th attempt to get
    // a piece and behind the c-th copying of one, and the error the a-th attempt runs into.
    const before: nat -> int
    const after: nat -> int
    const failure: nat -> Option<RecvError>

    var lastdata: Option<Pbuf>
    var lastoffset: nat
    var incoming: seq<Pbuf>   // what the netconn will hand out, in order
    var attempts: nat
    var copies: nat
    var credit: nat           // the sum of the lengths given to netconn_recved

    /** TCP hands out no empty pbufs; their lengths are 16 bits wide. */
    ghost predicate Valid()
      reads this`lastdata, this`lastoffset, this`incoming
    {
      && (lastdata.None? ==> lastoffset == 0)
      && (lastdata.Some? ==> if tcp then lastoffset < |lastdata.value.data| else lastoffset == 0)
      && (lastdata.Some? ==> |lastdata.value.data| < 0x1_0000)
      && forall i :: 0 <= i < |incoming| ==> |incoming[i].data| < 0x1_0000 && (tcp ==> incoming[i].data != [])
    }

    /** The bytes not yet read. */
    ghost function Rest(): bytes
      reads this`lastdata, this`lastoffset, this`incoming
      requires Valid()
    {
      (if lastdata.Some? then lastdata.value.data[lastoffset..] else []) + BytesOf(incoming)
    }

    /** The pieces, or datagrams, not yet read to their end. */
    ghost function Pieces(): seq<Pbuf>
      reads this`lastdata, this`incoming
    {
      (if lastdata.Some? then [lastdata.value] else []) + incoming
    }

    constructor (tcp: bool, nonblocking: bool, incoming: seq<Pbuf>,
                 before: nat -> int, after: nat -> int, failure: nat -> Option<RecvError>)
      requires forall i :: 0 <= i < |incoming| ==> |incoming[i].data| < 0x1_0000 && (tcp ==> incoming[i].data != [])
      ensures Valid() && Rest() == BytesOf(incoming) && Pieces() == incoming
      ensures credit == 0 && attempts == 0 && copies == 0
      ensures this.tcp == tcp && this.nonblocking == nonblocking
      ensures this.before == before && this.after == after && this.failure == failure
    {
      this.tcp, this.nonblocking, this.incoming := tcp, nonblocking, incoming;
      this.before, this.after, this.failure := before, after, failure;
      lastdata, lastoffset, attempts, copies, credit := None, 0, 0, 0, 0;
    }

    /** `netconn_recv` and `netconn_recv_tcp_pbuf`: an error, or the next piece if there is one. */
    method NetconnRecv(a: nat) returns (r: Received)
      modifies this`incoming
      ensures r == if failure(a).Some? then Failure(failure(a).value)
                   else if old(incoming) == [] then Failure(OtherError) else Data(old(incoming)[0])
      ensures incoming == if r.Data? then old(incoming)[1..] else old(incoming)
    {
      if failure(a).Some? {
        return Failure(failure(a).value);
      }
      if incoming == [] {
        return Failure(OtherError);
      }
      r := Data(incoming[0]);
      incoming := incoming[1..];
    }

    /** `netconn_recved` tells the stack about a length, for TCP only. */
    method NetconnRecved(n: nat)
      modifies this`credit
      ensures credit == old(credit) + if tcp then n else 0
    {
      if tcp {
        credit := credit + n;
      }
    }

    // The head of the loop: `buf` is what was left over, or the next piece becomes it.
    method Fetch(dontwait: bool) returns (r: Received)
      requires Valid()
      modifies this`incoming, this`lastdata, this`attempts
      ensures Valid() && Rest() == old(Rest()) && Pieces() == old(Pieces())
      ensures old(lastdata).Some? ==> r == Data(old(lastdata).value) && attempts == old(attempts)
      ensures old(lastdata).None? ==>
                attempts == old(attempts) + 1 &&
                r == if (dontwait || nonblocking) && before(old(attempts)) <= 0 then Failure(WouldBlock)
                     else if failure(old(attempts)).Some? then Failure(failure(old(attempts)).value)
                     else if old(incoming) == [] then Failure(OtherError) else Data(old(incoming)[0])
      ensures lastdata == if r.Data? then Some(r.buf) else None
      ensures old(lastdata).None? && r.Data? ==> lastoffset == 0 && incoming == old(incoming)[1..]
      ensures old(lastdata).Some? || r.Failure? ==> incoming == old(incoming)
    {
      if lastdata.Some? {
        return Data(lastdata.value);
      }
      var a := attempts;
      attempts := attempts + 1;
      if (dontwait || nonblocking) && before(a) <= 0 {
        return Failure(WouldBlock);
      }
      r := NetconnRecv(a);
      if r.Data? {
        lastdata := Some(r.buf);
        assert r.buf.data[0..] == r.buf.data;
      }
    }

    // The foot of the loop: up to `len` bytes are copied, and taken out unless the call peeks.
    method Copy(len: nat, peek: bool) returns (piece: bytes)
      requires Valid() && tcp && lastdata.Some?
      modifies this`lastdata, this`lastoffset
      ensures Valid()
      ensures |piece| == Min(len, |old(lastdata).value.data| - old(lastoffset))
      ensures peek ==> lastdata == old(lastdata) && lastoffset == old(lastoffset) && piece <= Rest()
      ensures !peek ==> old(Rest()) == piece + Rest()
      ensures !peek && |piece| < len ==> lastdata == None
    {
      hide BytesOf;
      var buf := lastdata.value;
      var buflen := |buf.data| - lastoffset;
      var copylen := if len > buflen then buflen else len;
      piece := buf.data[lastoffset..lastoffset + copylen];
      SplitAt(buf.data, lastoffset, lastoffset + copylen, BytesOf(incoming));
      if !peek {
        if buflen - copylen > 0 {
          lastoffset := lastoffset + copylen;
        } else {
          lastdata := None;
          lastoffset := 0;
        }
      }
    }

    /** Nothing has come, and the call must not wait. */
    predicate MustNotWait(a: nat, dontwait: bool) { (dontwait || nonblocking) && before(a) <= 0 }

    /** An attempt is turned away. */
    predicate Refused(a: nat, dontwait: bool) { MustNotWait(a, dontwait) || failure(a).Some? }

    /** One round of the loop: an attempt, and the copying of what it yields. */
    method Round(len: nat, dontwait: bool, peek: bool) returns (got: Received, piece: bytes)
      requires Valid() && tcp
      modifies this`incoming, this`lastdata, this`lastoffset, this`attempts, this`copies
      ensures Valid() && attempts == old(attempts) + if old(lastdata).None? then 1 else 0
      ensures old(lastdata).Some? ==> got.Data?
      ensures old(lastdata).None? ==> got.Failure? == (Refused(old(attempts), dontwait) || old(Pieces()) == [])
      ensures got.Failure? ==>
                && piece == [] && Rest() == old(Rest()) && copies == old(copies)
                && (got.err == Closed <==> !MustNotWait(old(attempts), dontwait)
                                           && failure(old(attempts)) == Some(Closed))
      ensures got.Data? ==>
                && copies == old(copies) + 1 && old(Pieces()) != [] && got.buf == old(Pieces())[0]
                && |piece| == Min(len, |got.buf.data| - old(lastoffset)) && (len > 0 ==> piece != [])
      ensures got.Data? ==> Reads(old(Rest()), piece, Rest(), peek)
      ensures got.Data? && !peek && |piece| < len ==>
                lastdata.None? && lastoffset == 0 && Pieces() == old(Pieces())[1..]
    {
      piece := [];
      got := Fetch(dontwait);
      if got.Data? {
        piece := Copy(len, peek);
        copies := copies + 1;
      }
    }

    /** How many bytes the first n pieces hold, without the first `offset` ones. */
    ghost function Amount(pieces: seq<Pbuf>, offset: nat, n: nat): int
      requires n <= |pieces|
    {
      |BytesOf(pieces[..n])| - offset
    }

    /** Behind each of the first n pieces, copied from the c-th copying on, a call for `len` bytes goes on. */
    ghost predicate GoesOn(pieces: seq<Pbuf>, offset: nat, c: nat, n: nat, len: nat)
      requires n <= |pieces|
    {
      forall j :: 0 <= j < n ==>
        !pieces[j].push && after(c + j) > 0 && |BytesOf(pieces[..j + 1])| - offset < len
    }

    /** None of the attempts from a to before b is turned away. */
    ghost predicate Granted(a: nat, b: int, dontwait: bool) {
      forall i :: a <= i < b ==> !Refused(i, dontwait)
    }

    lemma StartsOn(pieces: seq<Pbuf>, offset: nat, c: nat, a: nat, len: nat, dontwait: bool)
      ensures GoesOn(pieces, offset, c, 0, len) && Granted(a, a, dontwait)
      ensures Amount(pieces, offset, 0) == 0 - offset
    {}

    lemma GoesOnMore(pieces: seq<Pbuf>, offset: nat, c: nat, n: nat, len: nat)
      requires n < |pieces| && GoesOn(pieces, offset, c, n, len)
      requires !pieces[n].push && after(c + n) > 0 && Amount(pieces, offset, n + 1) < len
      ensures GoesOn(pieces, offset, c, n + 1, len)
    {}

    lemma GoesOnLess(pieces: seq<Pbuf>, offset: nat, c: nat, n: nat, len: nat)
      requires 0 < n <= |pieces| && GoesOn(pieces, offset, c, n, len)
      ensures GoesOn(pieces, offset, c, n - 1, len)
    {}

    lemma AmountMore(pieces: seq<Pbuf>, offset: nat, n: nat)
      requires n < |pieces|
      ensures Amount(pieces, offset, n + 1) == Amount(pieces, offset, n) + |pieces[n].data|
    {
      assert pieces[..n + 1] == pieces[..n] + [pieces[n]];
      BytesOfSnoc(pieces[..n], pieces[n]);
    }

    lemma GrantedMore(a: nat, b: nat, dontwait: bool)
      requires Granted(a, b, dontwait)
      ensures Granted(a, b - 1, dontwait)
      ensures !Refused(b, dontwait) ==> Granted(a, b + 1, dontwait)
    {}

    // The loop.
    method Rounds(len0: nat, dontwait: bool, peek: bool, ghost pieces: seq<Pbuf>)
      returns (r: int, mem: bytes, ghost n: nat)
      requires Valid() && tcp && pieces == Pieces()
      modifies this`incoming, this`lastdata, this`lastoffset, this`attempts, this`copies
      ensures Valid() && copies == old(copies) + n && n <= |pieces| && attempts >= old(attempts)
      ensures Reads(old(Rest()), mem, Rest(), peek)
      ensures n == 0 ==> mem == [] && old(lastdata).None?
                         && (Refused(old(attempts), dontwait) || pieces == [])
                         && r == if !MustNotWait(old(attempts), dontwait) && failure(old(attempts)) == Some(Closed)
                                 then 0 else -1
      ensures n > 0 ==> r == |mem| == Min(len0, Amount(pieces, old(lastoffset), n))
      ensures n > 0 ==> GoesOn(pieces, old(lastoffset), old(copies), n - 1, len0)
      ensures (n > 1 ==> !peek) && (n > 0 && len0 > 0 ==> mem != [])
      ensures n > 0 ==> peek || |mem| == len0 || pieces[n - 1].push || after(copies - 1) <= 0
                        || n == |pieces| || (attempts > old(attempts) && Refused(attempts - 1, dontwait))
      ensures Granted(old(attempts), attempts - 1, dontwait)
      ensures n > 0 && old(lastdata).None? ==> !Refused(old(attempts), dontwait)
    {
      hide BytesOf, Reads, Socket.Rest, Socket.Valid, Socket.Amount, Socket.GoesOn;
      hide Socket.Pieces, Socket.Refused, Socket.MustNotWait, Socket.Granted;
      ghost var start, offset, c, a := Rest(), lastoffset, copies, attempts;
      var len: nat := len0;
      mem := [];
      n := 0;
      StartsOn(pieces, offset, c, a, len0, dontwait);
      ReadsNothing(start, peek);
      while true
        invariant Valid() && |mem| + len == len0 && n <= |pieces| && copies == c + n
        invariant Reads(start, mem, Rest(), peek)
        invariant n == 0 ==> mem == [] && lastdata == old(lastdata) && lastoffset == offset
        invariant n == 0 ==> attempts == a
        invariant n > 0 ==> !peek && lastdata == None && lastoffset == 0
        invariant Pieces() == pieces[n..]
        invariant n > 0 ==> len > 0 && |mem| == Amount(pieces, offset, n) > 0
        invariant GoesOn(pieces, offset, c, n, len0)
        invariant attempts >= a && Granted(a, attempts, dontwait)
        invariant old(lastdata).None? && n > 0 ==> attempts > a && !Refused(a, dontwait)
        decreases |pieces| - n
      {
        GrantedMore(a, attempts, dontwait);
        ghost var rest := Rest();
        var got, piece := Round(len, dontwait, peek);
        if got.Failure? {
          if |mem| > 0 {
            GoesOnLess(pieces, offset, c, n, len0);
            return |mem|, mem, n;  // already received data, return that
          }
          return if got.err == Closed then 0 else -1, [], 0;
        }
        ReadsMore(start, mem, rest, piece, Rest(), peek);
        AmountMore(pieces, offset, n);
        mem := mem + piece;
        len := len - |piece|;
        n := n + 1;
        if len <= 0 || got.buf.push || after(copies - 1) <= 0 || peek {
          return |mem|, mem, n;
        }
        GoesOnMore(pieces, offset, c, n - 1, len0);
      }
    }

    /**
     * `lwip_recvfrom` on a TCP socket. What is returned is the beginning of
     * what was not yet read; the rest is still there, unless the call peeks: then
     * all is. In both cases the window is credited with what was returned. The call
     * copies from n pieces; it goes on to the next one exactly as long as there is
     * room for more, the piece had no push flag, `rcvevent` is positive, it does not
     * peek, and the next attempt is not refused.
     */
    method RecvTcp(len0: nat, dontwait: bool, peek: bool) returns (r: int, mem: bytes, ghost n: nat)
      requires Valid() && tcp
      modifies this
      ensures Valid() && copies == old(copies) + n && n <= |old(Pieces())| && attempts >= old(attempts)
      ensures peek ==> Rest() == old(Rest()) && mem <= Rest()
      ensures !peek ==> old(Rest()) == mem + Rest()
      ensures credit == old(credit) + |mem|
      ensures n == 0 ==> mem == [] && old(lastdata).None?
                         && (Refused(old(attempts), dontwait) || old(incoming) == [])
                         && r == if !MustNotWait(old(attempts), dontwait) && failure(old(attempts)) == Some(Closed)
                                 then 0 else -1
      ensures n > 0 ==> r == |mem| == Min(len0, |BytesOf(old(Pieces())[..n])| - old(lastoffset))
      ensures n > 0 && old(lastdata).None? ==> !Refused(old(attempts), dontwait)
      ensures forall j :: 0 <= j < n - 1 ==> !old(Pieces())[j].push
      ensures forall j :: 0 <= j < n - 1 && !old(Pieces())[j].push ==>
                after(old(copies) + j) > 0 && |BytesOf(old(Pieces())[..j + 1])| - old(lastoffset) < len0
      ensures (n > 1 ==> !peek) && (n > 0 && len0 > 0 ==> mem != [])
      ensures n > 0 ==> peek || |mem| == len0 || old(Pieces())[n - 1].push || after(copies - 1) <= 0
                        || n == |old(Pieces())| || (attempts > old(attempts) && Refused(attempts - 1, dontwait))
      ensures forall a :: old(attempts) <= a < attempts - 1 ==> !Refused(a, dontwait)
    {
      hide BytesOf, Socket.Rest, Socket.Valid, Socket.Refused, Socket.MustNotWait;
      ghost var pieces, offset := Pieces(), lastoffset;
      r, mem, n := Rounds(len0, dontwait, peek, pieces);
      assert n > 0 ==> GoesOn(pieces, offset, old(copies), n - 1, len0);
      if |mem| > 0 {
        NetconnRecved(|mem|);
      }
    }

    /**
     * `lwip_recvfrom` on a socket that is not TCP: one datagram, cut off at
     * `len`, what is cut off is lost; or nothing, exactly if the attempt is refused
     * or there is no datagram.
     */
    method RecvDatagram(len: nat, dontwait: bool, peek: bool) returns (r: int, mem: bytes)
      requires Valid() && !tcp
      modifies this
      ensures Valid() && credit == old(credit)
      ensures attempts == old(attempts) + if old(lastdata).None? then 1 else 0
      ensures old(lastdata).None? && (Refused(old(attempts), dontwait) || old(Pieces()) == []) ==>
                && mem == [] && Pieces() == old(Pieces())
                && r == if !MustNotWait(old(attempts), dontwait) && failure(old(attempts)) == Some(Closed)
                        then 0 else -1
      ensures old(lastdata).Some? || (!Refused(old(attempts), dontwait) && old(Pieces()) != []) ==>
                && r == |mem| && mem == old(Pieces())[0].data[..Min(len, |old(Pieces())[0].data|)]
                && Pieces() == if peek then old(Pieces()) else old(Pieces())[1..]
    {
      hide BytesOf, Socket.Rest;
      var got := Fetch(dontwait);
      if got.Failure? {
        return if got.err == Closed then 0 else -1, [];
      }
      var buflen := |got.buf.data|;
      var copylen := if len > buflen then buflen else len;
      mem := got.buf.data[..copylen];
      if !peek {
        lastdata := None;
        lastoffset := 0;
      }
      if |mem| > 0 {
        NetconnRecved(|mem|);
      }
      r := |mem|;
    }

    /**
     * Any number of reads of any lengths, none of which peeks: together they
     * return a beginning of the stream, the rest is still to be read, and the
     * window has been credited with exactly what was returned.
     */
    method ReadMany(calls: seq<(nat, bool)>) returns (out: bytes)
      requires Valid() && tcp
      modifies this
      ensures Valid() && old(Rest()) == out + Rest() && credit == old(credit) + |out|
    {
      hide BytesOf, Socket.Rest, Socket.Valid;
      out := [];
      assert out + Rest() == Rest();
      for i := 0 to |calls|
        invariant Valid() && old(Rest()) == out + Rest() && credit == old(credit) + |out|
      {
        var r, mem, _ := RecvTcp(calls[i].0, calls[i].1, false);
        assert out + (mem + Rest()) == out + mem + Rest();
        out := out + mem;
      }
    }

    lemma NothingLeft()
      requires Valid()
      ensures Pieces() == [] ==> Rest() == []
    {}

    /**
     * Reads of one byte or more, no attempt of which is refused: as many of them as
     * there are bytes return all bytes.
     */
    method ReadAll(lens: seq<nat>, dontwait: bool) returns (out: bytes)
      requires Valid() && tcp && forall a :: a >= attempts ==> !Refused(a, dontwait)
      requires |lens| >= |Rest()| && forall i :: 0 <= i < |lens| ==> lens[i] > 0
      modifies this
      ensures Valid() && out == old(Rest()) && Rest() == []
    {
      hide BytesOf, Socket.Rest, Socket.Valid;
      out := [];
      assert out + Rest() == Rest();
      for i := 0 to |lens|
        invariant Valid() && old(Rest()) == out + Rest() && |Rest()| <= |lens| - i
        invariant attempts >= old(attempts)
      {
        NothingLeft();
        assert !Refused(attempts, dontwait);
        var r, mem, _ := RecvTcp(lens[i], dontwait, false);
        assert out + (mem + Rest()) == out + mem + Rest();
        out := out + mem;
      }
    }
  }
}
