/** Block padding: how the last, partial block of a message is completed, and how the completion is
    recognised and removed. */
module Paddings {
  import opened Bytes
  import opened Wrappers

  datatype Scheme = PKCS | W3C | OneAndZeros

  /** The schemes that write the number of padding bytes need that number to be a byte. */
  predicate Suits(scheme: Scheme, size: nat) {
    size > 1 && (scheme == OneAndZeros || size < 256)
  }

  /** `rest`, completed to a block. */
  function Padded(scheme: Scheme, rest: bytes, size: nat): (r: bytes)
    requires Suits(scheme, size) && |rest| < size
    ensures |r| == size
  {
    match scheme
    case PKCS => rest + Repeated(size - |rest|, size - |rest|)
    case W3C => rest + Zeros(size - |rest| - 1) + [size - |rest|]
    case OneAndZeros => rest + [0x80] + Zeros(size - |rest| - 1)
  }

  /** What a decrypted last block is accepted as; W3C does not look at the bytes before the last. */
  predicate Accepts(scheme: Scheme, block: bytes, rest: bytes)
    requires Suits(scheme, |block|)
  {
    && |rest| < |block| && block[..|rest|] == rest
    && if scheme == W3C then block[|block| - 1] == |block| - |rest| else block == Padded(scheme, rest, |block|)
  }

  /** The number of padding bytes, at most the block size, must be a byte if it is written. */
  lemma SuitsExactly(scheme: Scheme, size: nat)
    ensures Suits(scheme, size) <==> 2 <= size && (scheme.OneAndZeros? || size <= 255)
  {
  }

  /** The completed block, byte by byte. */
  lemma PaddedBytes(scheme: Scheme, rest: bytes, size: nat)
    requires Suits(scheme, size) && |rest| < size
    ensures |Padded(scheme, rest, size)| == size && Padded(scheme, rest, size)[..|rest|] == rest
    ensures forall j :: |rest| <= j < size ==>
      Padded(scheme, rest, size)[j] ==
        if scheme == PKCS then size - |rest|
        else if scheme == W3C then if j == size - 1 then size - |rest| else 0
        else if j == |rest| then 0x80 else 0
  {
  }

  /** What is accepted, byte by byte. */
  lemma AcceptedBytes(scheme: Scheme, block: bytes, rest: bytes)
    requires Suits(scheme, |block|)
    ensures Accepts(scheme, block, rest) <==>
      && |rest| < |block| && block[..|rest|] == rest
      && (scheme == PKCS ==> forall j :: |rest| <= j < |block| ==> block[j] == |block| - |rest|)
      && (scheme == W3C ==> block[|block| - 1] == |block| - |rest|)
      && (scheme == OneAndZeros ==>
            forall j :: |rest| <= j < |block| ==> block[j] == if j == |rest| then 0x80 else 0)
  {
    if |rest| < |block| && block[..|rest|] == rest && scheme != W3C {
      PaddedBytes(scheme, rest, |block|);
      var padded := Padded(scheme, rest, |block|);
      if forall j :: |rest| <= j < |block| ==> block[j] == padded[j] {
        assert block == block[..|rest|] + block[|rest|..];
        assert padded == padded[..|rest|] + padded[|rest|..];
        assert block == padded;
      }
    }
  }

  /** Padding is accepted as what was padded. */
  lemma PaddedIsAccepted(scheme: Scheme, rest: bytes, size: nat)
    requires Suits(scheme, size) && |rest| < size
    ensures Accepts(scheme, Padded(scheme, rest, size), rest)
  {
  }

  /** A block is accepted in one way at most. */
  lemma AcceptedOnce(scheme: Scheme, block: bytes, x: bytes, y: bytes)
    requires Suits(scheme, |block|) && Accepts(scheme, block, x) && Accepts(scheme, block, y)
    ensures x == y
  {
    if scheme == OneAndZeros {
      MarkOfPadded(block, x);
      MarkOfPadded(block, y);
    } else {
      LastOfPadded(scheme, block, x);
      LastOfPadded(scheme, block, y);
    }
  }

  lemma LastOfPadded(scheme: Scheme, block: bytes, x: bytes)
    requires Suits(scheme, |block|) && Accepts(scheme, block, x) && scheme != OneAndZeros
    ensures block[|block| - 1] == |block| - |x|
  {
  }

  /** W3C padding is accepted if and only if its last byte is a possible count. */
  lemma W3cAcceptsCounts(block: bytes)
    requires Suits(W3C, |block|)
    ensures (exists rest :: Accepts(W3C, block, rest)) <==> 1 <= block[|block| - 1] <= |block|
  {
    var count := block[|block| - 1];
    if 1 <= count <= |block| {
      assert Accepts(W3C, block, block[..|block| - count]);
    }
  }

  /** So it is accepted as a text that it is not the padding of. */
  lemma W3cAcceptsMore()
    ensures Accepts(W3C, [7, 9, 9, 3], [7]) && Padded(W3C, [7], 4) != [7, 9, 9, 3]
  {
    assert Padded(W3C, [7], 4)[1] == 0;
  }

  lemma MarkOfPadded(block: bytes, x: bytes)
    requires Suits(OneAndZeros, |block|) && Accepts(OneAndZeros, block, x)
    ensures block[|x|] == 0x80 && forall j :: |x| < j < |block| ==> block[j] == 0
  {
  }

  /** Completes the block in a buffer. */
  method Pad(scheme: Scheme, rest: bytes, size: nat) returns (space: array<byte>)
    requires Suits(scheme, size) && |rest| < size
    ensures fresh(space) && space[..] == Padded(scheme, rest, size)
  {
    space := new byte[size];
    CopyInto(space, 0, rest);
    assert space[..|rest|] == rest;
    match scheme
    case PKCS =>
      Set(space, |rest|, size, size - |rest|);
    case W3C =>
      Set(space, |rest|, size - 1, 0);
      space[size - 1] := size - |rest|;
    case OneAndZeros =>
      space[|rest|] := 0x80;
      Set(space, |rest| + 1, size, 0);
  }

  method Set(space: array<byte>, from: nat, to: nat, value: byte)
    requires from <= to <= space.Length
    modifies space
    ensures forall j :: 0 <= j < space.Length ==> space[j] == if from <= j < to then value else old(space[j])
  {
    for i := from to to
      invariant forall j :: 0 <= j < space.Length ==> space[j] == if from <= j < i then value else old(space[j])
    {
      space[i] := value;
    }
  }

  /** Whether all bytes from `from` on are `value`. */
  method AllAre(space: bytes, from: nat, value: byte) returns (all: bool)
    requires from <= |space|
    ensures all <==> forall j :: from <= j < |space| ==> space[j] == value
  {
    for i := from to |space|
      invariant forall j :: from <= j < i ==> space[j] == value
    {
      if space[i] != value {
        return false;
      }
    }
    return true;
  }

  /** Removes the padding; None stands for InvalidCiphertext. A result is returned exactly for the
      blocks that are accepted. */
  method Unpad(scheme: Scheme, space: bytes) returns (rest: Option<bytes>)
    requires Suits(scheme, |space|)
    ensures rest.Some? ==> Accepts(scheme, space, rest.value)
    ensures rest.None? ==> forall x :: !Accepts(scheme, space, x)
  {
    var s := |space|;
    match scheme
    case PKCS =>
      rest := UnpadPkcs(space);
    case W3C =>
      var pad := space[s - 1];
      if pad < 1 || pad > s {
        return None;
      }
      rest := Some(space[..s - pad]);
    case OneAndZeros =>
      rest := UnpadOneAndZeros(space);
  }

  method UnpadPkcs(space: bytes) returns (rest: Option<bytes>)
    requires Suits(PKCS, |space|)
    ensures rest.Some? ==> Accepts(PKCS, space, rest.value)
    ensures rest.None? ==> forall x :: !Accepts(PKCS, space, x)
  {
    var s := |space|;
    var pad := space[s - 1];
    if pad < 1 || pad > s {
      return None;
    }
    var all := AllAre(space, s - pad, pad);
    if !all {
      forall x
        ensures !Accepts(PKCS, space, x)
      {
        if Accepts(PKCS, space, x) {
          LastOfPadded(PKCS, space, x);
        }
      }
      return None;
    }
    assert space == space[..s - pad] + Repeated(pad, pad);
    rest := Some(space[..s - pad]);
  }

  method UnpadOneAndZeros(space: bytes) returns (rest: Option<bytes>)
    requires Suits(OneAndZeros, |space|)
    ensures rest.Some? ==> Accepts(OneAndZeros, space, rest.value)
    ensures rest.None? ==> forall x :: !Accepts(OneAndZeros, space, x)
  {
    var length := |space|;
    while length > 1 && space[length - 1] == 0
      invariant 1 <= length <= |space| && forall j :: length <= j < |space| ==> space[j] == 0
    {
      length := length - 1;
    }
    length := length - 1;
    if space[length] != 0x80 {
      forall x
        ensures !Accepts(OneAndZeros, space, x)
      {
        if Accepts(OneAndZeros, space, x) {
          MarkOfPadded(space, x);
        }
      }
      return None;
    }
    assert space == space[..length] + [0x80] + Zeros(|space| - length - 1);
    rest := Some(space[..length]);
  }
}
