/**
 * Domain names in lwip/core/dns.c: from dotted form to the labels of section
 * 3.1 of RFC 1035, skipping over a name in a message, and comparing the two forms.
 */
module DnsNames {
  import opened Bytes

  const DOT: byte := 46

  /** The length of the first label. */
  function LabelLength(name: bytes): (n: nat)
    ensures n <= |name| && (n < |name| ==> name[n] == DOT)
    ensures forall i :: 0 <= i < n ==> name[i] != DOT
  {
    if name == [] || name[0] == DOT then 0 else 1 + LabelLength(name[1..])
  }

  /** The name as labels, each behind a byte with its length, and a zero. */
  function Encode(name: bytes): (r: bytes)
    ensures |r| == |name| + 2
    decreases |name|
  {
    var n := LabelLength(name);
    [n % 0x100] + name[..n] + if n == |name| then [0] else Encode(name[n + 1..])
  }

  /** Every label has 1 to 0xBF bytes, so that its length is no pointer; RFC 1035 allows 63. */
  predicate Proper(name: bytes)
    decreases |name|
  {
    var n := LabelLength(name);
    1 <= n < 0xC0 && (n == |name| || Proper(name[n + 1..]))
  }

  // ---------------------------------------------------------------- skipping a name

  /** Where `dns_parse_name` ends that starts at p; None if it leaves the buffer. */
  function Skip(buf: bytes, p: nat): Option<nat>
    decreases |buf| - p
  {
    if p >= |buf| then None
    else
      var n := buf[p];
      if n >= 0xC0 then Some(p + 2)
      else if p + 1 + n >= |buf| then None
      else if buf[p + 1 + n] == 0 then Some(p + 1 + n + 1)
      else Skip(buf, p + 1 + n)
  }

  // The encoding of a name at position p.
  ghost predicate Holds(buf: bytes, p: nat, e: bytes) {
    p + |e| <= |buf| && forall i :: 0 <= i < |e| ==> buf[p + i] == e[i]
  }

  lemma ProperStep(name: bytes)
    requires Proper(name)
    ensures var n := LabelLength(name); 1 <= n < 0xC0 && (n < |name| ==> Proper(name[n + 1..]))
  {}

  lemma EncodeStep(name: bytes)
    ensures var n := LabelLength(name);
            Encode(name) == [n % 0x100] + name[..n] + if n == |name| then [0] else Encode(name[n + 1..])
  {}

  lemma HoldsParts(buf: bytes, p: nat, a: bytes, b: bytes, c: bytes)
    requires Holds(buf, p, a + b + c)
    ensures p + |a| + |b| + |c| <= |buf|
    ensures Holds(buf, p, a) && Holds(buf, p + |a|, b) && Holds(buf, p + |a| + |b|, c)
  {
    var e := a + b + c;
    forall i | 0 <= i < |a| ensures buf[p + i] == a[i] {
      assert e[i] == a[i];
    }
    forall i | 0 <= i < |b| ensures buf[p + |a| + i] == b[i] {
      assert e[|a| + i] == b[i] && buf[p + (|a| + i)] == e[|a| + i];
    }
    forall i | 0 <= i < |c| ensures buf[p + |a| + |b| + i] == c[i] {
      assert e[|a| + |b| + i] == c[i] && buf[p + (|a| + |b| + i)] == e[|a| + |b| + i];
    }
  }

  lemma HoldsAt(buf: bytes, p: nat, e: bytes, i: nat)
    requires Holds(buf, p, e) && i < |e|
    ensures p + i < |buf| && buf[p + i] == e[i]
  {}

  // What is found at the beginning of an encoded name.
  lemma HoldsLabel(buf: bytes, p: nat, name: bytes, n: nat)
    requires Proper(name) && Holds(buf, p, Encode(name)) && n == LabelLength(name)
    ensures 1 <= n < 0xC0 && p + 1 + n < |buf| && buf[p] == n
    ensures Holds(buf, p + 1, name[..n])
    ensures n == |name| ==> buf[p + 1 + n] == 0
    ensures n < |name| ==> Proper(name[n + 1..]) && Holds(buf, p + 1 + n, Encode(name[n + 1..])) && buf[p + 1 + n] != 0
  {
    hide Proper, Encode, Holds, LabelLength;
    ProperStep(name);
    EncodeStep(name);
    var head: bytes := [n];
    if n == |name| {
      HoldsParts(buf, p, head, name[..n], [0]);
      HoldsAt(buf, p + 1 + n, [0], 0);
    } else {
      var tail := Encode(name[n + 1..]);
      HoldsParts(buf, p, head, name[..n], tail);
      ProperStep(name[n + 1..]);
      StartsWithLength(name[n + 1..]);
      HoldsAt(buf, p + 1 + n, tail, 0);
    }
    HoldsAt(buf, p, head, 0);
  }

  lemma StartsWithLength(name: bytes)
    requires Proper(name)
    ensures Encode(name)[0] != 0
  {}

  /** Skipping the encoding of a proper name ends just behind it, whatever follows. */
  lemma {:induction false} SkipsEncoding(buf: bytes, p: nat, name: bytes)
    requires Proper(name) && Holds(buf, p, Encode(name))
    ensures Skip(buf, p) == Some(p + |name| + 2)
    decreases |name|
  {
    hide Encode, Holds, Proper, LabelLength;
    var n := LabelLength(name);
    HoldsLabel(buf, p, name, n);
    if n < |name| {
      SkipsEncoding(buf, p + 1 + n, name[n + 1..]);
    }
  }

  /**
   * Labels with a pointer, in a byte from 0xC0 on, where an encoding would have its
   * zero, as section 4.1.4 of RFC 1035 compresses names.
   */
  ghost predicate HoldsCompressed(buf: bytes, p: nat, name: bytes) {
    var q := p + |name| + 1;
    q < |buf| && buf[q] >= 0xC0 && Holds(buf[q := 0], p, Encode(name))
  }

  // What is found at the beginning of a compressed name.
  lemma CompressedLabel(buf: bytes, p: nat, name: bytes, n: nat)
    requires Proper(name) && HoldsCompressed(buf, p, name) && n == LabelLength(name)
    ensures 1 <= n < 0xC0 && p + 1 + n < |buf| && buf[p] == n && buf[p + 1 + n] != 0
    ensures Holds(buf, p + 1, name[..n])
    ensures n == |name| ==> buf[p + 1 + n] >= 0xC0
    ensures n < |name| ==> Proper(name[n + 1..]) && HoldsCompressed(buf, p + 1 + n, name[n + 1..])
  {
    hide Proper, Encode, LabelLength;
    HoldsLabel(buf[p + |name| + 1 := 0], p, name, n);
  }

  /** Skipping labels and a pointer ends behind the pointer's second byte. */
  lemma {:induction false} SkipsCompressed(buf: bytes, p: nat, name: bytes)
    requires Proper(name) && HoldsCompressed(buf, p, name)
    ensures Skip(buf, p) == Some(p + |name| + 3)
    decreases |name|
  {
    hide Encode, HoldsCompressed, Proper, LabelLength;
    var n := LabelLength(name);
    CompressedLabel(buf, p, name, n);
    if n < |name| {
      SkipsCompressed(buf, p + 1 + n, name[n + 1..]);
    }
  }

  // ---------------------------------------------------------------- comparing

  /** The inner loop of `dns_compare_name`: None if it leaves one of the two. */
  function CompareLabel(query: bytes, k: nat, buf: bytes, p: nat, n: nat): Option<bool>
    decreases n
  {
    if n == 0 then Some(true)
    else if k >= |query| || p >= |buf| then None
    else if query[k] != buf[p] then Some(false)
    else CompareLabel(query, k + 1, buf, p + 1, n - 1)
  }

  /** Whether `dns_compare_name` finds the dotted name from k on and the encoded one at p equal. */
  function Compare(query: bytes, k: nat, buf: bytes, p: nat): Option<bool>
    decreases |buf| - p
  {
    if p >= |buf| then None
    else
      var n := buf[p];
      if n >= 0xC0 then Some(true)
      else
        var part := CompareLabel(query, k, buf, p + 1, n);
        if part != Some(true) then part
        else if p + 1 + n >= |buf| then None
        else if buf[p + 1 + n] == 0 then Some(true)
        else Compare(query, k + n + 1, buf, p + 1 + n)
  }

  /** The names agree wherever the encoded one has no dot. */
  predicate Agrees(query: bytes, k: nat, name: bytes)
    requires k + |name| <= |query|
  {
    forall i :: 0 <= i < |name| && name[i] != DOT ==> query[k + i] == name[i]
  }

  /** The bytes of part stand in the query from k on. */
  predicate Stands(query: bytes, k: nat, part: bytes)
    requires k + |part| <= |query|
  {
    forall i :: 0 <= i < |part| ==> query[k + i] == part[i]
  }

  lemma {:induction false} CompareLabelExactly(query: bytes, k: nat, buf: bytes, p: nat, part: bytes)
    requires k + |part| <= |query| && Holds(buf, p, part)
    ensures CompareLabel(query, k, buf, p, |part|) == Some(Stands(query, k, part))
    decreases |part|
  {
    if part != [] {
      var rest := part[1..];
      assert part == [part[0]] + rest + [];
      HoldsParts(buf, p, [part[0]], rest, []);
      HoldsAt(buf, p, [part[0]], 0);
      CompareLabelExactly(query, k + 1, buf, p + 1, rest);
      StandsStep(query, k, part, rest);
    }
  }

  lemma StandsStep(query: bytes, k: nat, part: bytes, rest: bytes)
    requires k + |part| <= |query| && part != [] && rest == part[1..]
    ensures Stands(query, k, part) <==> query[k] == part[0] && Stands(query, k + 1, rest)
  {}

  /**
   * An encoded name no longer than the query is accepted if and only if the two
   * agree at every position that holds no dot in the encoded name.
   */
  lemma {:induction false} CompareExactly(query: bytes, k: nat, buf: bytes, p: nat, name: bytes)
    requires Proper(name) && Holds(buf, p, Encode(name)) && k + |name| <= |query|
    ensures Compare(query, k, buf, p) == Some(Agrees(query, k, name))
    decreases |name|
  {
    hide Encode, Holds, Proper, CompareLabel, Stands, Agrees, LabelLength;
    var n := LabelLength(name);
    HoldsLabel(buf, p, name, n);
    CompareLabelExactly(query, k, buf, p + 1, name[..n]);
    if n < |name| {
      CompareExactly(query, k + n + 1, buf, p + 1 + n, name[n + 1..]);
      AgreesSplit(query, k, name, n);
    } else {
      AgreesWhole(query, k, name);
    }
  }

  lemma AgreesWhole(query: bytes, k: nat, name: bytes)
    requires k + |name| <= |query| && LabelLength(name) == |name|
    ensures Agrees(query, k, name) <==> Stands(query, k, name[..|name|])
  {
    hide LabelLength;
  }

  lemma AgreesSplit(query: bytes, k: nat, name: bytes, n: nat)
    requires k + |name| <= |query| && n < |name| && name[n] == DOT
    requires forall i :: 0 <= i < n ==> name[i] != DOT
    ensures Agrees(query, k, name) <==> Stands(query, k, name[..n]) && Agrees(query, k + n + 1, name[n + 1..])
  {}

  /**
   * Labels with a pointer behind them are accepted exactly if the labels agree
   * with the query as far as they go; what the pointer points to is not looked at.
   */
  lemma {:induction false} ComparesCompressed(query: bytes, k: nat, buf: bytes, p: nat, name: bytes)
    requires Proper(name) && HoldsCompressed(buf, p, name) && k + |name| <= |query|
    ensures Compare(query, k, buf, p) == Some(Agrees(query, k, name))
    decreases |name|
  {
    hide Encode, Holds, HoldsCompressed, Proper, CompareLabel, Stands, Agrees, LabelLength;
    var n := LabelLength(name);
    CompressedLabel(buf, p, name, n);
    CompareLabelExactly(query, k, buf, p + 1, name[..n]);
    if n < |name| {
      ComparesCompressed(query, k + n + 1, buf, p + 1 + n, name[n + 1..]);
      AgreesSplit(query, k, name, n);
    } else {
      AgreesWhole(query, k, name);
    }
  }

  /** A pointer alone is skipped with its second byte, and compares as equal to anything. */
  lemma PointerAlone(query: bytes, k: nat, buf: bytes, p: nat)
    requires p < |buf| && buf[p] >= 0xC0
    ensures Skip(buf, p) == Some(p + 2) && Compare(query, k, buf, p) == Some(true)
  {}

  /** A name is accepted in its own encoding. */
  lemma AcceptsOwn(name: bytes, buf: bytes, p: nat, rest: bytes)
    requires Proper(name) && Holds(buf, p, Encode(name))
    ensures Compare(name + rest, 0, buf, p) == Some(true)
  {
    CompareExactly(name + rest, 0, buf, p, name);
  }

  /**
   * The comparison ends with the encoded name: a proper beginning of the query,
   * such as "a" for "a.b", is accepted too.
   */
  lemma AcceptsBeginning(query: bytes, name: bytes, buf: bytes, p: nat)
    requires Proper(name) && Holds(buf, p, Encode(name)) && name <= query
    ensures Compare(query, 0, buf, p) == Some(true)
  {
    hide Proper, Encode, Holds;
    CompareExactly(query, 0, buf, p, name);
  }

  /**
   * An encoded name longer than the query, which ends in a zero byte: the
   * comparison is turned down at the first difference, at the latest at that
   * zero, unless the name agrees that far and has a dot where the zero is. Then
   * the zero is stepped over unseen, and the bytes behind the query decide.
   */
  lemma {:induction false} CompareLonger(query: bytes, k: nat, buf: bytes, p: nat, name: bytes, m: nat)
    requires Proper(name) && ZeroFree(name) && Holds(buf, p, Encode(name))
    requires m < |name| && |query| == k + m
    ensures Compare(query + [0], k, buf, p) ==
            if Agrees(query, k, name[..m]) && name[m] == DOT then None else Some(false)
    decreases |name|
  {
    hide Encode, Holds, Proper, CompareLabel, Stands, Agrees, LabelLength, ZeroFree;
    var n := LabelLength(name);
    HoldsLabel(buf, p, name, n);
    if n > m {
      LabelMeetsEnd(query, k, buf, p + 1, name, m, n);
    } else {
      CompareLabelExactly(query + [0], k, buf, p + 1, name[..n]);
      StandsInside(query, k, name[..n]);
      AgreesStart(query, k, name, n, m);
      if n < m {
        RestZeroFree(name, n + 1);
        CompareLonger(query, k + n + 1, buf, p + 1 + n, name[n + 1..], m - n - 1);
        assert name[n + 1..][..m - n - 1] == name[n + 1..m];
      } else {
        LabelBehind(query + [0], k + n + 1, buf, p + 1 + n, name[n + 1..]);
      }
    }
  }

  // A label that goes on where the query ends.
  lemma LabelMeetsEnd(query: bytes, k: nat, buf: bytes, p: nat, name: bytes, m: nat, n: nat)
    requires m < n <= |name| && |query| == k + m && ZeroFree(name) && Holds(buf, p, name[..n])
    ensures CompareLabel(query + [0], k, buf, p, n) == Some(false)
  {
    hide CompareLabel;
    var start := name[..m + 1];
    assert name[..n] == start + name[m + 1..n] + [];
    HoldsParts(buf, p, start, name[m + 1..n], []);
    CompareLabelExactly(query + [0], k, buf, p, start);
    assert (query + [0])[k + m] != start[m];
    LabelStops(query + [0], k, buf, p, m + 1, n);
  }

  lemma {:induction false} LabelStops(query: bytes, k: nat, buf: bytes, p: nat, m: nat, n: nat)
    requires m <= n && CompareLabel(query, k, buf, p, m) == Some(false)
    ensures CompareLabel(query, k, buf, p, n) == Some(false)
    decreases n
  {
    if query[k] == buf[p] {
      LabelStops(query, k + 1, buf, p + 1, m - 1, n - 1);
    }
  }

  // A label that would be compared with what lies behind the query.
  lemma LabelBehind(query: bytes, k: nat, buf: bytes, p: nat, name: bytes)
    requires Proper(name) && Holds(buf, p, Encode(name)) && k >= |query|
    ensures Compare(query, k, buf, p) == None
  {
    hide Encode, Holds, Proper, LabelLength;
    HoldsLabel(buf, p, name, LabelLength(name));
  }

  lemma StandsInside(query: bytes, k: nat, part: bytes)
    requires k + |part| <= |query|
    ensures Stands(query + [0], k, part) <==> Stands(query, k, part)
  {}

  lemma RestZeroFree(name: bytes, n: nat)
    requires ZeroFree(name) && n <= |name|
    ensures ZeroFree(name[n..])
  {}

  // Agreement with a beginning of a name that holds its first label.
  lemma AgreesStart(query: bytes, k: nat, name: bytes, n: nat, m: nat)
    requires n == LabelLength(name) && n <= m < |name| && k + m <= |query|
    ensures if n == m then Agrees(query, k, name[..m]) <==> Stands(query, k, name[..n])
            else Agrees(query, k, name[..m]) <==>
                 Stands(query, k, name[..n]) && Agrees(query, k + n + 1, name[n + 1..m])
  {
    hide LabelLength;
    if n < m {
      assert name[..m][..n] == name[..n] && name[..m][n + 1..] == name[n + 1..m];
      AgreesSplit(query, k, name[..m], n);
    }
  }

  /**
   * The query "a" and the name "a.b": the comparison leaves the query, and
   * accepts if an older name has left a 'b' behind it.
   */
  lemma LongerAccepted(buf: bytes)
    requires buf == Encode([97, DOT, 98])
    ensures Compare([97, 0], 0, buf, 0) == None
    ensures Compare([97, 0, 98, 0], 0, buf, 0) == Some(true)
  {
    var name: bytes, last: bytes := [97, DOT, 98], [98];
    assert last[1..] == [] && name[1..] == [DOT, 98] && name[2..] == last;
    assert LabelLength([DOT, 98]) == LabelLength([]) == 0;
    assert LabelLength(last) == 1 && LabelLength(name) == 1;
    EncodeStep(last);
    EncodeStep(name);
    assert buf == [1, 97, 1, 98, 0];
    assert CompareLabel([97, 0, 98, 0], 2, buf, 3, 1) == Some(true);
    assert Compare([97, 0, 98, 0], 2, buf, 2) == Some(true);
  }

  // ---------------------------------------------------------------- the loops

  // The inner loop of the encoder: one label, and its length, 8 bits wide, in front of it.
  method EncodeLabel(dst: array<byte>, nptr: nat, name: bytes, i0: nat) returns (i: nat, query: nat)
    requires i0 <= |name| && nptr + 1 + |name| - i0 < dst.Length
    modifies dst
    ensures i0 <= i <= |name| && i - i0 == LabelLength(name[i0..]) && query == nptr + 1 + (i - i0)
    ensures dst[nptr..query] == [(i - i0) % 0x100] + name[i0..i]
    ensures forall k :: 0 <= k < dst.Length && !(nptr <= k < query) ==> dst[k] == old(dst[k])
  {
    hide LabelLength, Counted8;
    i, query := i0, nptr + 1;
    var n: byte := 0;
    CountsOn(0);
    while i < |name| && name[i] != DOT
      invariant i0 <= i <= |name| && query == nptr + 1 + (i - i0) && n == Counted8(i - i0)
      invariant dst[nptr + 1..query] == name[i0..i] && forall k :: i0 <= k < i ==> name[k] != DOT
      invariant forall k :: 0 <= k < dst.Length && !(nptr <= k < query) ==> dst[k] == old(dst[k])
    {
      dst[query] := name[i];
      assert dst[nptr + 1..query + 1] == dst[nptr + 1..query] + [name[i]] == name[i0..i + 1];
      query := query + 1;
      CountsOn(i - i0);
      n := (n + 1) % 0x100;
      i := i + 1;
    }
    LabelEndsAt(name, i0, i);
    CountsOn(i - i0);
    dst[nptr] := n;
    assert dst[nptr..query] == [n] + dst[nptr + 1..query];
  }

  // A count in 8 bits.
  function Counted8(x: nat): byte { x % 0x100 }

  lemma CountsOn(x: nat)
    ensures Counted8(0) == 0 && Counted8(x) == x % 0x100
    ensures (Counted8(x) + 1) % 0x100 == Counted8(x + 1)
  {}

  lemma LabelEndsAt(name: bytes, i0: nat, i: nat)
    requires i0 <= i <= |name| && (i < |name| ==> name[i] == DOT)
    requires forall k :: i0 <= k < i ==> name[k] != DOT
    ensures i - i0 == LabelLength(name[i0..])
  {}

  /** The loop of `dns_send` that writes the name. */
  method EncodeInto(dst: array<byte>, start: nat, name: bytes) returns (end: nat)
    requires start + |name| + 2 <= dst.Length
    modifies dst
    ensures end == start + |name| + 2 && dst[start..end] == Encode(name)
    ensures forall k :: 0 <= k < dst.Length && !(start <= k < end) ==> dst[k] == old(dst[k])
  {
    hide LabelLength, Encode;
    var query, i := start, 0;
    ghost var before: bytes := [];
    assert name[0..] == name && before + Encode(name) == Encode(name);
    while true
      invariant i <= |name| && query == start + i == start + |before|
      invariant dst[start..query] == before && before + Encode(name[i..]) == Encode(name)
      invariant forall k :: 0 <= k < dst.Length && !(start <= k < query) ==> dst[k] == old(dst[k])
      decreases |name| - i
    {
      ghost var i0, rest, query0 := i, name[i..], query;
      i, query := EncodeLabel(dst, query, name, i);
      ghost var part := dst[query0..query];
      EncodeRest(name, i0, i);
      Associates(before, part, if i == |name| then [0] else Encode(name[i + 1..]));
      assert dst[start..query0] == before;
      assert dst[start..query] == dst[start..query0] + part;
      before := before + part;
      if i == |name| {
        break;
      }
      i := i + 1;
    }
    dst[query] := 0;
    end := query + 1;
    assert dst[start..end] == before + [0];
  }

  lemma EncodeRest(name: bytes, i0: nat, i: nat)
    requires i0 <= i <= |name| && i - i0 == LabelLength(name[i0..])
    ensures Encode(name[i0..]) ==
            [(i - i0) % 0x100] + name[i0..i] + if i == |name| then [0] else Encode(name[i + 1..])
  {
    hide LabelLength, Encode;
    var rest := name[i0..];
    EncodeStep(rest);
    assert rest[..i - i0] == name[i0..i];
    if i < |name| {
      assert rest[i - i0 + 1..] == name[i + 1..];
    }
  }

  lemma Associates(a: bytes, b: bytes, c: bytes)
    ensures a + (b + c) == a + b + c
  {}

  /** `dns_parse_name`, for a name that ends inside the buffer. */
  method ParseName(buf: bytes, start: nat) returns (end: nat)
    requires Skip(buf, start).Some?
    ensures Skip(buf, start) == Some(end)
  {
    var query := start;
    while true
      invariant query < |buf| && Skip(buf, query) == Skip(buf, start)
      decreases |buf| - query
    {
      var n := buf[query];
      query := query + 1;
      if n >= 0xC0 {
        break;  // compressed name
      }
      ghost var goal := query + n;
      while n > 0
        invariant 0 <= n && query + n == goal
      {
        query := query + 1;
        n := n - 1;
      }
      if buf[query] == 0 {
        break;
      }
    }
    end := query + 1;
  }

  /** `dns_compare_name`: 0 if the names are found equal, 1 if not. */
  method CompareName(query: bytes, buf: bytes, start: nat) returns (r: int)
    requires Compare(query, 0, buf, start).Some?
    ensures r == if Compare(query, 0, buf, start).value then 0 else 1
  {
    var k: nat, p: nat := 0, start;
    while true
      invariant p < |buf| && Compare(query, k, buf, p) == Compare(query, 0, buf, start)
      decreases |buf| - p
    {
      ghost var k0, p0 := k, p;
      var n := buf[p];
      ghost var length: nat := n;
      p := p + 1;
      if n >= 0xC0 {
        break;  // compressed name
      }
      while n > 0
        invariant 0 <= n && p + n == p0 + 1 + length && k + n == k0 + length
        invariant CompareLabel(query, k, buf, p, n) == CompareLabel(query, k0, buf, p0 + 1, length)
      {
        if query[k] != buf[p] {
          return 1;
        }
        p := p + 1;
        k := k + 1;
        n := n - 1;
      }
      k := k + 1;
      if buf[p] == 0 {
        break;
      }
    }
    r := 0;
  }
}
