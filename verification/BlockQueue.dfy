/** The ring buffer of the buffered filters: a byte queue that hands out contiguous pieces. */
module BlockQueues {
  import opened Bytes
  import opened Divisibility
  import opened Wrappers

  /** What a ring of bytes holds: `size` bytes from `begin` on, going round at the end. */
  function Ring(buffer: bytes, begin: nat, size: nat): (r: bytes)
    requires begin <= |buffer| && size <= |buffer|
    ensures |r| == size
  {
    if begin + size <= |buffer| then buffer[begin..begin + size]
    else buffer[begin..] + buffer[..begin + size - |buffer|]
  }

  /** Byte `i` of a ring stands `i` places behind its beginning, going round at the end of the buffer. */
  lemma RingAt(buffer: bytes, begin: nat, size: nat, i: nat)
    requires begin <= |buffer| && size <= |buffer| && i < size
    ensures Ring(buffer, begin, size)[i] == buffer[if begin + i < |buffer| then begin + i else begin + i - |buffer|]
  {
  }

  /** The first `k` bytes are contiguous and removing them advances the beginning. */
  lemma RingSplit(buffer: bytes, begin: nat, size: nat, k: nat)
    requires begin <= |buffer| && size <= |buffer| && k <= size && begin + k <= |buffer|
    ensures buffer[begin..begin + k] == Ring(buffer, begin, size)[..k]
    ensures Ring(buffer, begin + k, size - k) == Ring(buffer, begin, size)[k..]
  {
  }

  lemma RingWraps(buffer: bytes, size: nat)
    requires size <= |buffer|
    ensures Ring(buffer, |buffer|, size) == Ring(buffer, 0, size)
  {
  }

  lemma RingEmpty(buffer: bytes, begin: nat)
    requires begin <= |buffer|
    ensures Ring(buffer, begin, 0) == []
  {
  }

  /** Where the free part begins. */
  function End(length: nat, begin: nat, size: nat): nat
    requires begin <= length && size <= length
  {
    if size < length - begin then begin + size else begin + size - length
  }

  lemma EndInside(length: nat, begin: nat, size: nat)
    requires begin <= length && size <= length
    ensures End(length, begin, size) <= length
  {
  }

  /** A buffer with `input` written from `end` on, going round at the end. */
  function Written(buffer: bytes, end: nat, input: bytes): (r: bytes)
    requires end <= |buffer| && |input| <= |buffer|
    ensures |r| == |buffer|
  {
    if end + |input| <= |buffer| then buffer[..end] + input + buffer[end + |input|..]
    else
      var len := |buffer| - end;
      input[len..] + buffer[|input| - len..end] + input[..len]
  }

  lemma WrittenInOne(buffer: bytes, end: nat, input: bytes)
    requires end + |input| <= |buffer|
    ensures Written(buffer, end, input) == buffer[..end] + input[..|input|] + buffer[end + |input|..]
  {
  }

  lemma WrittenInTwo(buffer: bytes, end: nat, input: bytes, first: bytes)
    requires end <= |buffer| && |input| <= |buffer| && end + |input| > |buffer|
    requires var len := |buffer| - end; first == buffer[..end] + input[..len] + buffer[end + len..]
    ensures var rest := input[|buffer| - end..];
      |rest| <= |first| && rest + first[|rest|..] == Written(buffer, end, input)
  {
    var len := |buffer| - end;
    assert first[|input| - len..] == buffer[|input| - len..end] + input[..len];
  }

  /** Writing behind the contents appends to the ring. */
  lemma RingAppend(buffer: bytes, begin: nat, size: nat, input: bytes)
    requires begin <= |buffer| && size + |input| <= |buffer|
    ensures Ring(Written(buffer, End(|buffer|, begin, size), input), begin, size + |input|) ==
      Ring(buffer, begin, size) + input
  {
    hide Written, Ring;
    var end := End(|buffer|, begin, size);
    if end + |input| > |buffer| {
      AppendAround(buffer, begin, size, input);
    } else if begin <= end && size < |buffer| - begin {
      AppendStraight(buffer, begin, size, input);
    } else {
      AppendBefore(buffer, begin, size, input);
    }
  }

  lemma AppendStraight(buffer: bytes, begin: nat, size: nat, input: bytes)
    requires begin + size + |input| <= |buffer|
    ensures Ring(Written(buffer, begin + size, input), begin, size + |input|) == Ring(buffer, begin, size) + input
  {
  }

  lemma AppendAround(buffer: bytes, begin: nat, size: nat, input: bytes)
    requires begin + size < |buffer| < begin + size + |input| && size + |input| <= |buffer|
    ensures Ring(Written(buffer, begin + size, input), begin, size + |input|) == Ring(buffer, begin, size) + input
  {
    hide Ring, Written;
    var len, r := |buffer| - (begin + size), Written(buffer, begin + size, input);
    RingAround(r, begin, size + |input|);
    WrittenAround(buffer, begin, size, input);
    RingSplit(buffer, begin, size, size);
    assert input == input[..len] + input[len..];
  }

  lemma WrittenAround(buffer: bytes, begin: nat, size: nat, input: bytes)
    requires begin + size < |buffer| < begin + size + |input| && size + |input| <= |buffer|
    ensures var len, r := |buffer| - (begin + size), Written(buffer, begin + size, input);
      r[begin..] == buffer[begin..begin + size] + input[..len] && r[..|input| - len] == input[len..]
  {
  }

  lemma AppendBefore(buffer: bytes, begin: nat, size: nat, input: bytes)
    requires begin <= |buffer| <= begin + size && size + |input| <= |buffer|
    ensures Ring(Written(buffer, begin + size - |buffer|, input), begin, size + |input|) ==
      Ring(buffer, begin, size) + input
  {
    hide Ring, Written;
    RingAround(buffer, begin, size);
    RingAround(Written(buffer, begin + size - |buffer|, input), begin, size + |input|);
    WrittenBefore(buffer, begin, begin + size - |buffer|, input);
  }

  lemma WrittenBefore(buffer: bytes, begin: nat, end: nat, input: bytes)
    requires end + |input| <= begin <= |buffer|
    ensures var r := Written(buffer, end, input);
      r[begin..] == buffer[begin..] && r[..end + |input|] == buffer[..end] + input
  {
  }

  lemma RingAround(buffer: bytes, begin: nat, size: nat)
    requires begin <= |buffer| <= begin + size && size <= |buffer|
    ensures Ring(buffer, begin, size) == buffer[begin..] + buffer[..begin + size - |buffer|]
  {
  }

  /** The next block of an aligned ring ends inside the buffer, on a block boundary. */
  lemma NextBlock(begin: nat, block: nat, count: nat)
    requires block > 0 && begin % block == 0 && begin < block * count
    ensures begin + block <= block * count && (begin + block) % block == 0
  {
    ModStep(begin, block);
    BlockFits(begin / block, block, count);
  }

  lemma BlockFits(k: nat, block: nat, count: nat)
    requires block * k < block * count
    ensures block * k + block <= block * count
  {
    if k >= count {
      Monotone(block, count, k);
    } else {
      Monotone(block, k + 1, count);
    }
  }

  class BlockQueue {
    var buffer: array<byte>
    var blockSize: nat
    var maxBlocks: nat
    var size: nat
    var begin: nat

    ghost predicate Valid()
      reads this, buffer
    {
      && buffer.Length == blockSize * maxBlocks && size <= buffer.Length
      && (begin < buffer.Length || begin == buffer.Length == 0)
    }

    /** The queue as one byte string. */
    ghost function Contents(): (r: bytes)
      reads this, buffer
      requires Valid()
      ensures |r| == size
    {
      Ring(buffer[..], begin, size)
    }

    lemma ContentsAt(i: nat)
      requires Valid() && i < size
      ensures Contents()[i] == buffer[if begin + i < buffer.Length then begin + i else begin + i - buffer.Length]
    {
      hide Ring;
      RingAt(buffer[..], begin, size, i);
    }

    /** The first block starts on a block boundary. */
    ghost predicate Aligned()
      reads this
    {
      blockSize > 0 && begin % blockSize == 0
    }

    constructor (block: nat, count: nat)
      ensures Valid() && Contents() == [] && fresh(buffer) && blockSize == block && maxBlocks == count && begin == 0
    {
      buffer := new byte[block * count];
      blockSize, maxBlocks, size, begin := block, count, 0, 0;
    }

    method ResetQueue(block: nat, count: nat)
      modifies this
      ensures Valid() && Contents() == [] && fresh(buffer) && blockSize == block && maxBlocks == count && begin == 0
    {
      buffer := new byte[block * count];
      blockSize, maxBlocks, size, begin := block, count, 0, 0;
    }

    method GetBlock() returns (block: Option<bytes>)
      requires Valid() && Aligned()
      modifies this`size, this`begin
      ensures Valid() && Aligned()
      ensures if old(size) < blockSize then block == None && Contents() == old(Contents())
              else block == Some(old(Contents())[..blockSize]) && Contents() == old(Contents())[blockSize..]
    {
      hide Ring;
      if size < blockSize {
        return None;
      }
      NextBlock(begin, blockSize, maxBlocks);
      RingSplit(buffer[..], begin, size, blockSize);
      block := Some(buffer[begin..begin + blockSize]);
      begin := begin + blockSize;
      size := size - blockSize;
      if begin == buffer.Length {
        RingWraps(buffer[..], size);
        begin := 0;
      }
    }

    /** At most `wanted` bytes, as many as are contiguous. */
    method GetContigousBlocks(wanted: nat) returns (piece: bytes)
      requires Valid()
      modifies this`size, this`begin
      ensures Valid()
      ensures |piece| == Min(wanted, Min(buffer.Length - old(begin), old(size)))
      ensures old(Contents()) == piece + Contents()
      ensures size == 0 || old(begin) + |piece| == buffer.Length ==> begin == 0
    {
      hide Ring;
      var n := Min(wanted, Min(buffer.Length - begin, size));
      RingSplit(buffer[..], begin, size, n);
      ghost var all := Contents();
      piece := buffer[begin..begin + n];
      assert all == all[..n] + all[n..];
      begin := begin + n;
      size := size - n;
      if size == 0 || begin == buffer.Length {
        if begin == buffer.Length {
          RingWraps(buffer[..], size);
        } else {
          RingEmpty(buffer[..], begin);
          RingEmpty(buffer[..], 0);
        }
        begin := 0;
      }
    }

    /** Everything, in order, in two copies where the contents go round. */
    method GetAll() returns (all: bytes)
      requires Valid()
      modifies this`size, this`begin
      ensures Valid() && Contents() == []
      ensures all == old(Contents())
    {
      var piece := GetContigousBlocks(buffer.Length);
      assert begin + size <= buffer.Length;
      all := piece + buffer[begin..begin + size];
      size := 0;
    }

    /** Appends; the caller must leave room. */
    method Put(input: bytes)
      requires Valid() && size + |input| <= buffer.Length
      modifies this`size, buffer
      ensures Valid() && begin == old(begin)
      ensures Contents() == old(Contents()) + input
    {
      hide Ring, Written, End;
      if |input| == 0 {
        assert buffer[..] == old(buffer[..]);
        return;
      }
      var end := End(buffer.Length, begin, size);
      EndInside(buffer.Length, begin, size);
      RingAppend(buffer[..], begin, size, input);
      Write(end, input);
      size := size + |input|;
    }

    /** Writes from `end` on, in two copies where the input goes round. */
    method Write(end: nat, input: bytes)
      requires end <= buffer.Length && |input| <= buffer.Length
      modifies buffer
      ensures buffer[..] == Written(old(buffer[..]), end, input)
    {
      hide Written;
      ghost var before := buffer[..];
      var len := Min(|input|, buffer.Length - end);
      CopyInto(buffer, end, input[..len]);
      if len < |input| {
        WrittenInTwo(before, end, input, buffer[..]);
        CopyInto(buffer, 0, input[len..]);
      } else {
        WrittenInOne(before, end, input);
      }
    }
  }
}
