/** Bytes and byte strings, shared by all modules. */
module Bytes {
  type byte = b: int | 0 <= b < 256

  type bytes = seq<byte>

  function Zeros(n: nat): (r: bytes)
    ensures |r| == n
    ensures forall i :: 0 <= i < n ==> r[i] == 0
  {
    seq(n, _ => 0)
  }

  function Repeated(b: byte, n: nat): (r: bytes)
    ensures |r| == n && forall i :: 0 <= i < n ==> r[i] == b
  {
    seq(n, _ => b)
  }

  /** Pieces of a byte string, put together. */
  function Flatten(chunks: seq<bytes>): bytes {
    if chunks == [] then [] else Flatten(chunks[..|chunks| - 1]) + chunks[|chunks| - 1]
  }

  lemma FlattenNext(chunks: seq<bytes>, chunk: bytes)
    ensures Flatten([]) == [] && Flatten(chunks + [chunk]) == Flatten(chunks) + chunk
  {
    assert (chunks + [chunk])[..|chunks|] == chunks;
  }

  function Min(a: nat, b: nat): nat {
    if a < b then a else b
  }

  lemma MinIsLeast(a: nat, b: nat)
    ensures Min(a, b) <= a && Min(a, b) <= b && Min(a, b) in {a, b}
  {
  }

  /** memcpy into the middle of a buffer. */
  method CopyInto(target: array<byte>, at: nat, input: bytes)
    requires at + |input| <= target.Length
    modifies target
    ensures target[..] == old(target[..at]) + input + old(target[at + |input|..])
  {
    ghost var before := target[..];
    for i := 0 to |input|
      invariant forall j :: 0 <= j < target.Length ==>
        target[j] == if at <= j < at + i then input[j - at] else before[j]
    {
      target[at + i] := input[i];
    }
  }
}
