/** Bytes and byte strings, shared by every module of the project. */
module Bytes {

  type byte = x: int | 0 <= x < 0x100

  type bytes = seq<byte>

  const UINT32: int := 0x1_0000_0000

  type uint32 = x: int | 0 <= x < UINT32

  /** A byte that is not zero. */
  type nonzero = x: byte | 1 <= x witness 1

  datatype Option<+T> = None | Some(value: T)

  /** No byte of s is zero. */
  predicate ZeroFree(s: bytes) {
    forall i :: 0 <= i < |s| ==> s[i] != 0
  }

  /** The concatenation of a sequence of byte strings, in order. */
  function Flatten(parts: seq<bytes>): bytes {
    if parts == [] then [] else parts[0] + Flatten(parts[1..])
  }

  lemma {:induction false} FlattenConcat(a: seq<bytes>, b: seq<bytes>)
    ensures Flatten(a + b) == Flatten(a) + Flatten(b)
  {
    if a == [] {
      assert a + b == b;
    } else {
      assert (a + b)[1..] == a[1..] + b;
      FlattenConcat(a[1..], b);
    }
  }

  lemma FlattenSnoc(a: seq<bytes>, x: bytes)
    ensures Flatten(a + [x]) == Flatten(a) + x
  {
    FlattenConcat(a, [x]);
    assert Flatten([x]) == x + Flatten([]);
  }
}
