/** Filters with buffered input: an arbitrary series of writes is handed on as one first piece,
    middle pieces that are whole blocks, and one last piece. */
module BufferedInputs {
  import opened Bytes
  import opened Divisibility
  import opened BlockQueues

  /** The virtual calls that a derived filter sees: FirstPut, NextPutMultiple or NextPutModifiable, LastPut. */
  datatype Call = First(data: bytes) | Next(data: bytes) | Last(data: bytes)

  /** The number of bytes that stay behind when `total` bytes have arrived after the first piece. */
  function Kept(total: nat, block: nat, last: nat): (k: nat)
    requires block >= 1
    ensures k <= total && (total < block + last ==> k == total) && (total >= block + last ==> last <= k < last + block)
  {
    if total < block + last then total else last + (total - last) % block
  }

  function Joined(calls: seq<Call>): bytes {
    if calls == [] then [] else Joined(calls[..|calls| - 1]) + calls[|calls| - 1].data
  }

  /** A middle piece: not empty, and whole blocks. */
  predicate IsMiddle(c: Call, block: nat)
    requires block >= 1
  {
    c.Next? && c.data != [] && |c.data| % block == 0
  }

  /** The first piece and the middle pieces of `message` up to position `upTo`, in order, nothing
      lost, nothing twice. */
  ghost predicate Passed(calls: seq<Call>, message: bytes, upTo: nat, first: nat, block: nat)
    requires block >= 1
  {
    && first <= upTo <= |message|
    && |calls| >= 1 && calls[0] == First(message[..first])
    && (forall i :: 1 <= i < |calls| ==> IsMiddle(calls[i], block))
    && Joined(calls[1..]) == message[first..upTo]
  }

  /** What a whole message must come out as, however it was written. */
  ghost predicate Delivers(calls: seq<Call>, message: bytes, first: nat, block: nat, last: nat)
    requires block >= 1
  {
    if |message| < first then calls == [Last(message)]
    else
      var end := |message| - Kept(|message| - first, block, last);
      && |calls| >= 2
      && Passed(calls[..|calls| - 1], message, end, first, block)
      && calls[|calls| - 1] == Last(message[end..])
  }

  /** The documented rule for the last piece, and for when there are middle pieces. */
  lemma DocumentedRule(calls: seq<Call>, message: bytes, first: nat, block: nat, last: nat)
    requires block >= 1 && Delivers(calls, message, first, block, last)
    ensures calls != [] && calls[|calls| - 1].Last?
    ensures var n := |calls[|calls| - 1].data|;
      if |message| < first then n == |message|
      else if |message| <= first + last then n == |message| - first
      else last <= n < last + block
    ensures (exists i :: 0 <= i < |calls| && calls[i].Next?) <==> |message| >= first + block + last
  {
    if |message| >= first {
      var front := calls[..|calls| - 1];
      if |front| == 1 {
        assert forall i :: 0 <= i < |calls| ==> !calls[i].Next?;
        assert Joined(front[1..]) == [];
      } else {
        assert calls[|calls| - 2] == front[1..][|front| - 2] == front[|front| - 1];
        assert IsMiddle(front[|front| - 1], block);
        assert Joined(front[1..]) != [];
      }
    }
  }

  /** The calls hand on the whole message in order: the first piece, whole blocks, and the last piece. */
  lemma EverythingDelivered(calls: seq<Call>, message: bytes, first: nat, block: nat, last: nat)
    requires block >= 1 && Delivers(calls, message, first, block, last)
    ensures |message| < first ==> calls == [Last(message)]
    ensures |message| >= first ==>
      && |calls| >= 2 && calls[0] == First(message[..first])
      && (forall i :: 1 <= i < |calls| - 1 ==> calls[i].Next? && calls[i].data != [] && |calls[i].data| % block == 0)
      && calls[|calls| - 1].Last? && |calls[|calls| - 1].data| <= |message| - first
    ensures Joined(calls) == message
  {
    hide Kept, Joined, Passed;
    if |message| < first {
      NoneJoined();
      JoinedNext([], Last(message));
      assert [] + [Last(message)] == calls;
    } else {
      var front, final := calls[..|calls| - 1], calls[|calls| - 1];
      var end := |message| - |final.data|;
      PassedInOrder(front, message, end, first, block);
      JoinedNext(front, final);
      assert front + [final] == calls && message[..end] + message[end..] == message;
      assert forall i :: 0 <= i < |front| ==> calls[i] == front[i];
    }
  }

  lemma PassedInOrder(calls: seq<Call>, message: bytes, upTo: nat, first: nat, block: nat)
    requires block >= 1 && Passed(calls, message, upTo, first, block)
    ensures first <= upTo <= |message| && |calls| >= 1 && calls[0] == First(message[..first])
    ensures forall i :: 1 <= i < |calls| ==> calls[i].Next? && calls[i].data != [] && |calls[i].data| % block == 0
    ensures Joined(calls) == message[..upTo]
  {
    hide Joined;
    NoneJoined();
    JoinedNext([], calls[0]);
    CallsConcat([calls[0]], calls[1..]);
    assert [] + [calls[0]] == [calls[0]] && [calls[0]] + calls[1..] == calls;
    assert message[..first] + message[first..upTo] == message[..upTo];
    forall i | 1 <= i < |calls|
      ensures calls[i].Next? && calls[i].data != [] && |calls[i].data| % block == 0
    {
      assert IsMiddle(calls[i], block);
    }
  }

  lemma NoneJoined()
    ensures Joined([]) == []
  {
  }

  lemma {:induction false} CallsConcat(x: seq<Call>, y: seq<Call>)
    ensures Joined(x + y) == Joined(x) + Joined(y)
  {
    hide Joined;
    if y == [] {
      NoneJoined();
      assert x + y == x;
    } else {
      var front, last := y[..|y| - 1], y[|y| - 1];
      CallsConcat(x, front);
      JoinedNext(front, last);
      JoinedNext(x + front, last);
      assert front + [last] == y && x + front + [last] == x + y;
    }
  }

  /** What stays behind is what is kept for the last piece and less than a block. */
  lemma KeptLeavesBlocks(total: nat, block: nat, last: nat)
    requires block >= 1
    ensures Kept(total, block, last) <= total && (total - Kept(total, block, last)) % block == 0
    ensures if total < block + last then Kept(total, block, last) == total
      else last <= Kept(total, block, last) < last + block
  {
    if total >= block + last {
      RoundedDown(total - last, block);
    }
  }

  /** Independence of chunking: two deliveries of one message begin alike, end alike, and have the
      same bytes between. */
  lemma SameDelivery(c: seq<Call>, d: seq<Call>, message: bytes, first: nat, block: nat, last: nat)
    requires block >= 1 && Delivers(c, message, first, block, last) && Delivers(d, message, first, block, last)
    ensures c[0] == d[0] && c[|c| - 1] == d[|d| - 1]
    ensures |message| >= first ==> Joined(c[1..|c| - 1]) == Joined(d[1..|d| - 1])
  {
    if |message| >= first {
      assert c[..|c| - 1][1..] == c[1..|c| - 1] && d[..|d| - 1][1..] == d[1..|d| - 1];
    }
  }

  lemma PassNext(calls: seq<Call>, message: bytes, upTo: nat, first: nat, block: nat, piece: bytes)
    requires block >= 1 && Passed(calls, message, upTo, first, block)
    requires upTo + |piece| <= |message| && piece == message[upTo..upTo + |piece|]
    requires piece != [] && |piece| % block == 0
    ensures Passed(calls + [Next(piece)], message, upTo + |piece|, first, block)
  {
    hide Joined;
    var all := calls + [Next(piece)];
    assert all[1..] == calls[1..] + [Next(piece)];
    JoinedNext(calls[1..], Next(piece));
    assert message[first..upTo] + piece == message[first..upTo + |piece|];
  }

  lemma JoinedNext(calls: seq<Call>, c: Call)
    ensures Joined(calls + [c]) == Joined(calls) + c.data
  {
    assert (calls + [c])[..|calls|] == calls;
  }

  /** More input behind the position reached changes nothing. */
  lemma PassedLonger(calls: seq<Call>, message: bytes, upTo: nat, first: nat, block: nat, input: bytes)
    requires block >= 1 && Passed(calls, message, upTo, first, block)
    ensures Passed(calls, message + input, upTo, first, block)
  {
    assert (message + input)[..first] == message[..first] && (message + input)[first..upTo] == message[first..upTo];
  }

  lemma PassedFirst(message: bytes, first: nat, block: nat)
    requires block >= 1 && first <= |message|
    ensures Passed([First(message[..first])], message, first, first, block)
  {
    assert [First(message[..first])][1..] == [];
  }

  /** The number of blocks that the ring buffer is given. */
  function Blocks(block: nat, last: nat): nat
    requires block >= 1
  {
    (2 * block + last - 2) / block
  }

  /** The ring buffer is large enough. */
  lemma Capacity(block: nat, last: nat)
    requires block >= 1
    ensures block + last - 1 <= block * Blocks(block, last) <= block + last - 1 + (block - 1)
    ensures block > 1 ==> block * Blocks(block, last) >= block
  {
    var n, q := 2 * block + last - 2, Blocks(block, last);
    assert n == block * q + n % block;
    if block > 1 {
      if q == 0 {
        TimesZero(block);
      } else {
        Monotone(block, 1, q);
      }
    }
  }

  lemma KeptStep(total: nat, left: nat, block: nat, last: nat)
    requires block >= 1 && left <= total && (total - left) % block == 0
    requires left < block + last
    requires left == total || left >= last
    ensures left == Kept(total, block, last)
  {
    if left != total {
      ModDifference(total - last, left - last, block);
      SmallMod(left - last, block);
      if total < block + last {
        SmallMod(total - last, block);
      }
    }
  }

  class BufferedInput {
    const firstSize: nat
    const blockSize: nat
    const lastSize: nat
    var firstInputDone: bool
    const queue: BlockQueue

    /** The virtual calls made for the current message, and the bytes written since it began. */
    var calls: seq<Call>
    ghost var message: bytes

    ghost predicate Valid()
      reads this, queue, queue.buffer
    {
      && blockSize >= 1 && queue.Valid()
      && if firstInputDone then
           && Sized() && firstSize <= |message|
           && queue.size == Kept(|message| - firstSize, blockSize, lastSize)
           && At(message, |message| - queue.size) && queue.Contents() == message[|message| - queue.size..]
         else
           && queue.blockSize == 1 && queue.maxBlocks == firstSize && queue.begin == 0
           && queue.Contents() == message && calls == [] && (|message| < firstSize || message == [])
    }

    /** The ring buffer of the middle phase. */
    ghost predicate Sized()
      reads this, queue
    {
      && blockSize >= 1 && queue.blockSize == blockSize && queue.maxBlocks == Blocks(blockSize, lastSize)
      && queue.Aligned()
    }

    /** All of `total` up to `upTo` has been handed on. */
    ghost predicate At(total: bytes, upTo: nat)
      reads this`calls
    {
      blockSize >= 1 && Passed(calls, total, upTo, firstSize, blockSize)
    }

    /** In the middle of a write: what is in the queue and the rest of the input are what has not
        been handed on. */
    ghost predicate Passing(total: bytes, rest: bytes)
      reads this, queue, queue.buffer
    {
      && blockSize >= 1 && queue.Valid() && Sized()
      && queue.size + |rest| <= |total|
      && At(total, |total| - queue.size - |rest|)
      && queue.Contents() + rest == total[|total| - queue.size - |rest|..]
    }

    constructor (first: nat, block: nat, last: nat)
      requires block >= 1
      ensures Valid() && message == [] && calls == [] && !firstInputDone
      ensures firstSize == first && blockSize == block && lastSize == last
      ensures fresh(queue) && fresh(queue.buffer)
    {
      firstSize, blockSize, lastSize := first, block, last;
      firstInputDone, calls, message := false, [], [];
      queue := new BlockQueue(1, first);
    }

    /** One middle piece from the queue. */
    method PassFromQueue(wanted: nat, ghost total: bytes, rest: bytes) returns (newLength: nat)
      requires Passing(total, rest) && blockSize == 1 && wanted > 0 && queue.size > 0
      modifies this`calls, queue`size, queue`begin
      ensures Passing(total, rest) && old(calls) <= calls
      ensures newLength == queue.size + |rest| && queue.size < old(queue.size)
      ensures old(queue.size) - wanted <= queue.size
    {
      hide Passed, Ring, Kept, Blocks;
      ghost var upTo := |total| - queue.size - |rest|;
      var piece := queue.GetContigousBlocks(wanted);
      PieceAt(total, upTo, piece, queue.Contents(), rest);
      PassNext(calls, total, upTo, firstSize, blockSize, piece);
      calls := calls + [Next(piece)];
      newLength := queue.size + |rest|;
    }

    /** The branch for a block size of one: all but the last bytes leave, first from the queue. */
    method PutBytewise(input: bytes, ghost total: bytes) returns (rest: bytes)
      requires Passing(total, input) && blockSize == 1
      modifies this`calls, queue`size, queue`begin
      ensures Passing(total, rest) && old(calls) <= calls
      ensures var before, after := old(queue.size) + |input|, queue.size + |rest|;
        after == if before > lastSize then lastSize else before
    {
      hide Passed, Ring, Kept, Blocks;
      rest := input;
      var newLength := queue.size + |rest|;
      while newLength > lastSize && queue.size > 0
        invariant Passing(total, rest) && old(calls) <= calls && newLength == queue.size + |rest|
        invariant if old(queue.size) + |input| > lastSize then newLength >= lastSize
          else newLength == old(queue.size) + |input|
        decreases queue.size
      {
        newLength := PassFromQueue(newLength - lastSize, total, rest);
      }
      if newLength > lastSize {
        rest := PassFromInput(rest, newLength - lastSize, total);
      }
    }

    /** A middle piece straight from the input, behind an empty queue. */
    method PassFromInput(rest: bytes, len: nat, ghost total: bytes) returns (left: bytes)
      requires Passing(total, rest) && queue.size == 0 && 0 < len <= |rest| && len % blockSize == 0
      modifies this`calls
      ensures Passing(total, left) && left == rest[len..] && old(calls) <= calls
    {
      hide Passed, Ring, Kept, Blocks, BlockQueue.Valid, BlockQueue.Contents, BlockQueue.Aligned;
      left := rest[len..];
      PassRest(calls, total, firstSize, blockSize, queue.Contents(), rest, len);
      calls := calls + [Next(rest[..len])];
    }

    /** One block from the queue. */
    method PassBlock(ghost total: bytes, rest: bytes)
      requires Passing(total, rest) && queue.size >= blockSize
      modifies this`calls, queue`size, queue`begin
      ensures Passing(total, rest) && queue.size == old(queue.size) - blockSize && old(calls) <= calls
    {
      hide Passed, Ring, Kept, Blocks;
      ghost var upTo := |total| - queue.size - |rest|;
      ghost var all := queue.Contents();
      var block := queue.GetBlock();
      var piece := block.value;
      assert all == piece + queue.Contents();
      PieceAt(total, upTo, piece, queue.Contents(), rest);
      Whole(blockSize);
      PassNext(calls, total, upTo, firstSize, blockSize, piece);
      calls := calls + [Next(piece)];
    }

    /** Moves input into the queue to complete a block. */
    method FillBlock(input: bytes, len: nat, ghost total: bytes) returns (rest: bytes)
      requires Passing(total, input) && len <= |input| && queue.size + len <= queue.buffer.Length
      modifies queue`size, queue.buffer
      ensures Passing(total, rest) && rest == input[len..] && queue.size == old(queue.size) + len
    {
      hide Passed, Ring, Kept, Blocks;
      ghost var all := queue.Contents();
      queue.Put(input[..len]);
      rest := input[len..];
      assert all + input == queue.Contents() + rest;
    }

    /** The branch for longer blocks: blocks from the queue, the block that the input completes,
        and the whole blocks of the input. */
    method PutBlockwise(input: bytes, ghost total: bytes) returns (rest: bytes)
      requires Passing(total, input) && blockSize > 1
      modifies this`calls, queue`size, queue`begin, queue.buffer
      ensures Passing(total, rest) && old(calls) <= calls
      ensures Reduced(old(queue.size) + |input|, queue.size + |rest|, blockSize, lastSize)
    {
      hide Passed, Ring, Blocks, Reduced, Shorter, Passing;
      ghost var before := queue.size + |input|;
      NotReduced(before, blockSize, lastSize);
      var newLength := PassQueued(input, total);
      rest, newLength := PassCompleted(input, newLength, total, before);
      if newLength >= blockSize + lastSize {
        var len := (newLength - lastSize) - (newLength - lastSize) % blockSize;
        WholeBlocks(newLength - lastSize, blockSize);
        rest := PassFromInput(rest, len, total);
        BlocksShorter(before, newLength, newLength - len, blockSize, lastSize);
        newLength := newLength - len;
      }
      AllReduced(before, newLength, blockSize, lastSize);
    }

    /** Blocks from the queue. */
    method PassQueued(input: bytes, ghost total: bytes) returns (newLength: nat)
      requires Passing(total, input) && blockSize > 1
      requires Shorter(queue.size + |input|, queue.size + |input|, blockSize, lastSize)
      modifies this`calls, queue`size, queue`begin
      ensures Passing(total, input) && old(calls) <= calls && newLength == queue.size + |input|
      ensures Shorter(old(queue.size) + |input|, newLength, blockSize, lastSize)
      ensures newLength < blockSize + lastSize || queue.size < blockSize
    {
      hide Passed, Ring, Blocks, Reduced, Shorter, Passing;
      newLength := queue.size + |input|;
      ghost var before := newLength;
      while newLength >= blockSize + lastSize && queue.size >= blockSize
        invariant Passing(total, input) && old(calls) <= calls && newLength == queue.size + |input|
        invariant Shorter(before, newLength, blockSize, lastSize)
        decreases queue.size
      {
        PassBlock(total, input);
        newLength := newLength - blockSize;
        OneBlockShorter(before, newLength, blockSize, lastSize);
      }
    }

    /** The block that the queue begins and the input completes. */
    method PassCompleted(input: bytes, length: nat, ghost total: bytes, ghost before: nat)
      returns (rest: bytes, newLength: nat)
      requires Passing(total, input) && blockSize > 1 && length == queue.size + |input|
      requires length < blockSize + lastSize || queue.size < blockSize
      requires Shorter(before, length, blockSize, lastSize)
      modifies this`calls, queue`size, queue`begin, queue.buffer
      ensures Passing(total, rest) && old(calls) <= calls && newLength == queue.size + |rest|
      ensures Shorter(before, newLength, blockSize, lastSize)
      ensures newLength >= blockSize + lastSize ==> queue.size == 0
    {
      hide Passed, Ring, Blocks, Reduced, Shorter, Passing;
      rest, newLength := input, length;
      if newLength >= blockSize + lastSize && queue.size > 0 {
        var len := blockSize - queue.size;
        RoomForBlock(total, input);
        rest := FillBlock(rest, len, total);
        PassBlock(total, rest);
        newLength := newLength - blockSize;
        OneBlockShorter(before, newLength, blockSize, lastSize);
      }
    }

    lemma RoomForBlock(total: bytes, input: bytes)
      requires Passing(total, input) && blockSize > 1
      ensures blockSize <= queue.buffer.Length
    {
      hide Passed, Ring, Blocks;
      Capacity(blockSize, lastSize);
    }

    /** Everything after the first piece: hands on what must leave and queues the rest. */
    method PutMiddle(input: bytes, ghost total: bytes)
      requires Passing(total, input)
      requires firstSize <= |total| - |input| && queue.size == Kept(|total| - |input| - firstSize, blockSize, lastSize)
      modifies this`calls, queue`size, queue`begin, queue.buffer
      ensures Passing(total, []) && old(calls) <= calls
      ensures queue.size == Kept(|total| - firstSize, blockSize, lastSize)
    {
      hide Passed, Ring, Blocks, Kept;
      var rest;
      ghost var before := queue.size + |input|;
      if blockSize == 1 {
        rest := PutBytewise(input, total);
        BytewiseReduced(before, queue.size + |rest|, lastSize);
      } else {
        rest := PutBlockwise(input, total);
      }
      Capacity(blockSize, lastSize);
      KeptOver(|total| - |input| - firstSize, |input|, queue.size + |rest|, blockSize, lastSize);
      rest := FillBlock(rest, |rest|, total);
    }

    /** Completes the first piece. */
    method PutFirst(input: bytes, ghost total: bytes) returns (rest: bytes)
      requires Valid() && !firstInputDone && |message| + |input| >= firstSize && total == message + input
      modifies this`calls, this`firstInputDone, queue, queue.buffer
      ensures Passing(total, rest) && queue.size == 0 && firstSize + |rest| == |total|
        && calls == [First(total[..firstSize])]
      ensures firstInputDone && fresh(queue.buffer)
    {
      hide Passed, Ring, Blocks, Kept;
      var len := firstSize - queue.size;
      var piece := CollectFirst(input[..len]);
      assert piece == total[..firstSize];
      calls := calls + [First(piece)];
      assert calls == [First(total[..firstSize])];
      queue.ResetQueue(blockSize, Blocks(blockSize, lastSize));
      rest := input[len..];
      firstInputDone := true;
      PassedFirst(total, firstSize, blockSize);
      assert queue.Contents() + rest == total[firstSize..];
    }

    method CollectFirst(input: bytes) returns (piece: bytes)
      requires queue.Valid() && queue.blockSize == 1 && queue.maxBlocks == firstSize && queue.begin == 0
      requires queue.size + |input| == firstSize
      modifies queue`size, queue`begin, queue.buffer
      ensures piece == old(queue.Contents()) + input
    {
      hide Ring;
      assert queue.buffer.Length == firstSize;
      queue.Put(input);
      piece := queue.GetContigousBlocks(firstSize);
      assert queue.Contents() == [];
    }

    /** The data part of a write. */
    method PutData(input: bytes)
      requires Valid() && input != []
      modifies this, queue, queue.buffer
      ensures Valid() && message == old(message) + input && old(calls) <= calls
      ensures fresh(queue.buffer) || queue.buffer == old(queue.buffer)
    {
      hide Passed, Ring, Blocks, Kept, BlockQueue.Valid, BlockQueue.Contents;
      var newLength := queue.size + |input|;
      if firstInputDone {
        PutLater(input);
      } else if newLength >= firstSize {
        PutUpTo(input);
      } else {
        PutEarly(input);
      }
    }

    /** The write that completes the first piece. */
    method PutUpTo(input: bytes)
      requires Valid() && !firstInputDone && queue.size + |input| >= firstSize
      modifies this, queue, queue.buffer
      ensures Valid() && message == old(message) + input && old(calls) <= calls && fresh(queue.buffer)
    {
      hide Passed, Ring, Blocks, Kept;
      ghost var total := message + input;
      var rest := PutFirst(input, total);
      NothingKept(blockSize, lastSize);
      PutMiddle(rest, total);
      message := total;
      assert queue.Contents() + [] == queue.Contents();
    }

    /** A write before the first piece is complete. */
    method PutEarly(input: bytes)
      requires Valid() && !firstInputDone && queue.size + |input| < firstSize
      modifies this`message, queue`size, queue.buffer
      ensures Valid() && message == old(message) + input
    {
      hide Passed, Ring, Blocks, Kept;
      assert queue.buffer.Length == firstSize;
      queue.Put(input);
      message := message + input;
    }

    method PutLater(input: bytes)
      requires Valid() && firstInputDone
      modifies this`calls, this`message, queue`size, queue`begin, queue.buffer
      ensures Valid() && message == old(message) + input && old(calls) <= calls
    {
      hide Passed, Ring, Blocks, Kept;
      ghost var total := message + input;
      PassedLonger(calls, message, |message| - queue.size, firstSize, blockSize, input);
      TailLonger(message, |message| - queue.size, queue.Contents(), input);
      PutMiddle(input, total);
      message := total;
      assert queue.Contents() + [] == queue.Contents();
    }

    /** The last piece: takes out what is queued. Until a `Restart` the input is as in the middle of a
        message, with an empty queue. */
    method Drain() returns (all: seq<Call>)
      requires Valid()
      modifies this`calls, queue`size, queue`begin
      ensures queue.Valid() && queue.size == 0
      ensures old(calls) <= all && Delivers(all, message, firstSize, blockSize, lastSize)
      ensures |message| >= firstSize && message != [] ==> firstInputDone
    {
      hide Passed, Ring, Kept, Delivers, Blocks;
      if !firstInputDone && firstSize == 0 {
        calls := calls + [First([])];
        NothingKept(blockSize, lastSize);
        PassedFirst(message, firstSize, blockSize);
        assert message[..firstSize] == [] && calls == [First([])];
      }
      var temp := queue.GetAll();
      if |message| < firstSize {
        DeliversShort(calls, message, firstSize, blockSize, lastSize);
      } else {
        DeliversAll(calls, message, firstSize, blockSize, lastSize);
      }
      all := calls + [Last(temp)];
    }

    /** The initial state. */
    method Restart()
      requires blockSize >= 1
      modifies this, queue
      ensures Valid() && message == [] && calls == [] && !firstInputDone && fresh(queue.buffer)
    {
      hide Passed, Ring, Kept, Delivers, Blocks;
      calls, message := [], [];
      firstInputDone := false;
      queue.ResetQueue(1, firstSize);
    }

    /** The end of a message: the last piece, and the initial state again. */
    method EndMessage() returns (all: seq<Call>)
      requires Valid()
      modifies this, queue
      ensures Valid() && message == [] && calls == [] && !firstInputDone && fresh(queue.buffer)
      ensures old(calls) <= all && Delivers(all, old(message), firstSize, blockSize, lastSize)
    {
      hide Passed, Ring, Kept, Delivers, Blocks;
      all := Drain();
      Restart();
    }

    /** The data part of a write. */
    method PutInput(input: bytes)
      requires Valid()
      modifies this, queue, queue.buffer
      ensures Valid() && message == old(message) + input && old(calls) <= calls
      ensures fresh(queue.buffer) || queue.buffer == old(queue.buffer)
    {
      hide Passed, Ring, Blocks, Kept;
      if input != [] {
        PutData(input);
      } else {
        assert message + input == message;
      }
    }

    method Put(input: bytes, messageEnd: bool) returns (made: seq<Call>)
      requires Valid()
      modifies this, queue, queue.buffer
      ensures Valid() && (fresh(queue.buffer) || queue.buffer == old(queue.buffer))
      ensures !messageEnd ==> message == old(message) + input && calls == old(calls) + made
      ensures messageEnd ==>
        && message == [] && calls == [] && !firstInputDone
        && Delivers(old(calls) + made, old(message) + input, firstSize, blockSize, lastSize)
    {
      hide Passed, Ring, Blocks, Kept, Delivers;
      ghost var before := calls;
      var from := |calls|;
      PutInput(input);
      if messageEnd {
        var all := EndMessage();
        made := all[from..];
        assert before + made == all;
      } else {
        made := calls[from..];
      }
    }

    /** A write without the restart, for filters that may refuse the last piece. */
    method PutAndDrain(input: bytes, messageEnd: bool) returns (made: seq<Call>)
      requires Valid()
      modifies this, queue, queue.buffer
      ensures fresh(queue.buffer) || queue.buffer == old(queue.buffer)
      ensures !messageEnd ==> Valid() && message == old(message) + input && calls == old(calls) + made
      ensures messageEnd ==>
        && queue.Valid() && queue.size == 0 && message == old(message) + input
        && (|message| >= firstSize && message != [] ==> firstInputDone)
        && Delivers(old(calls) + made, message, firstSize, blockSize, lastSize)
    {
      hide Passed, Ring, Blocks, Kept, Delivers, Valid, BlockQueue.Valid, BlockQueue.Contents;
      ghost var before := calls;
      var from := |calls|;
      PutInput(input);
      if messageEnd {
        var all := Drain();
        made := all[from..];
        assert before + made == all;
      } else {
        made := calls[from..];
      }
    }
  }

  lemma DeliversShort(calls: seq<Call>, message: bytes, first: nat, block: nat, last: nat)
    requires block >= 1 && |message| < first && calls == []
    ensures Delivers(calls + [Last(message)], message, first, block, last)
  {
  }

  lemma DeliversAll(calls: seq<Call>, message: bytes, first: nat, block: nat, last: nat)
    requires block >= 1 && first <= |message|
    requires Passed(calls, message, |message| - Kept(|message| - first, block, last), first, block)
    ensures var end := |message| - Kept(|message| - first, block, last);
      Delivers(calls + [Last(message[end..])], message, first, block, last)
  {
    hide Passed;
    PassedSome(calls, message, |message| - Kept(|message| - first, block, last), first, block);
    var all := calls + [Last(message[|message| - Kept(|message| - first, block, last)..])];
    assert all[..|all| - 1] == calls;
  }

  lemma PassedSome(calls: seq<Call>, message: bytes, upTo: nat, first: nat, block: nat)
    requires block >= 1 && Passed(calls, message, upTo, first, block)
    ensures |calls| >= 1
  {
  }

  /** `after` is `before` less whole blocks, and nothing leaves that the last piece needs. */
  predicate Shorter(before: nat, after: nat, block: nat, last: nat)
    requires block >= 1
  {
    after <= before && (before - after) % block == 0 && (after == before || after >= last)
  }

  predicate Reduced(before: nat, after: nat, block: nat, last: nat)
    requires block >= 1
  {
    Shorter(before, after, block, last) && after < block + last
  }

  lemma NotReduced(n: nat, block: nat, last: nat)
    requires block >= 1
    ensures Shorter(n, n, block, last)
  {
  }

  lemma OneBlockShorter(before: nat, after: nat, block: nat, last: nat)
    requires block >= 1 && Shorter(before, after + block, block, last) && after >= last
    ensures Shorter(before, after, block, last)
  {
    ModStep(before - (after + block), block);
  }

  lemma BlocksShorter(before: nat, now: nat, after: nat, block: nat, last: nat)
    requires block >= 1 && Shorter(before, now, block, last) && after <= now && after >= last
    requires (now - after) % block == 0
    ensures Shorter(before, after, block, last)
  {
    SumOfMultiples(before - now, now - after, block);
  }

  lemma AllReduced(before: nat, after: nat, block: nat, last: nat)
    requires block >= 1 && Shorter(before, after, block, last) && after < block + last
    ensures Reduced(before, after, block, last)
  {
  }

  lemma WholeBlocks(n: nat, block: nat)
    requires n >= block >= 1
    ensures 0 < n - n % block && (n - n % block) % block == 0
  {
    DivisionUnique(n - n % block, block, n / block, 0);
  }

  lemma BytewiseReduced(before: nat, after: nat, last: nat)
    requires after == if before > last then last else before
    ensures Reduced(before, after, 1, last)
  {
  }

  lemma NothingKept(block: nat, last: nat)
    requires block >= 1
    ensures Kept(0, block, last) == 0
  {
  }

  /** The number of bytes kept does not depend on how they arrived. */
  lemma KeptOver(total: nat, more: nat, after: nat, block: nat, last: nat)
    requires block >= 1 && Reduced(Kept(total, block, last) + more, after, block, last)
    ensures after == Kept(total + more, block, last) && after < block + last
  {
    var kept := Kept(total, block, last);
    if kept != total {
      RoundedDown(total - last, block);
    } else {
      assert (total - kept) % block == 0;
    }
    SumOfMultiples(total - kept, kept + more - after, block);
    KeptStep(total + more, after, block, last);
  }

  lemma PieceAt(total: bytes, upTo: nat, piece: bytes, queued: bytes, rest: bytes)
    requires upTo <= |total| && total[upTo..] == piece + queued + rest
    ensures upTo + |piece| <= |total| && piece == total[upTo..upTo + |piece|]
    ensures total[upTo + |piece|..] == queued + rest
  {
    assert total[upTo..][..|piece|] == piece;
    assert total[upTo..][|piece|..] == queued + rest;
  }

  lemma TailLonger(message: bytes, upTo: nat, tail: bytes, input: bytes)
    requires upTo <= |message| && message[upTo..] == tail
    ensures (message + input)[upTo..] == tail + input
  {
  }

  /** A piece of the rest is handed on when nothing is queued. */
  lemma PassRest(calls: seq<Call>, total: bytes, first: nat, block: nat, queued: bytes, rest: bytes, len: nat)
    requires |queued| == 0 && |rest| <= |total| && 0 < len <= |rest|
    requires queued + rest == total[|total| - |rest|..]
    requires block >= 1 && len % block == 0 && Passed(calls, total, |total| - |rest|, first, block)
    ensures queued + rest[len..] == total[|total| - |rest| + len..]
    ensures Passed(calls + [Next(rest[..len])], total, |total| - |rest| + len, first, block)
  {
    hide Passed;
    assert queued + rest == rest && queued + rest[len..] == rest[len..];
    InputAt(total, |total| - |rest|, rest, len);
    PassNext(calls, total, |total| - |rest|, first, block, rest[..len]);
  }

  lemma InputAt(total: bytes, upTo: nat, rest: bytes, len: nat)
    requires upTo <= |total| && total[upTo..] == rest && len <= |rest|
    ensures rest[..len] == total[upTo..upTo + len] && total[upTo + len..] == rest[len..]
  {
  }

  /** However a message is cut into writes, it is delivered by the one rule. */
  method PutMessage(filter: BufferedInput, chunks: seq<bytes>, last: bytes) returns (made: seq<Call>)
    requires filter.Valid() && filter.message == [] && filter.calls == []
    modifies filter, filter.queue, filter.queue.buffer
    ensures filter.Valid() && filter.message == [] && filter.calls == [] && !filter.firstInputDone
    ensures Delivers(made, Flatten(chunks) + last, filter.firstSize, filter.blockSize, filter.lastSize)
  {
    hide Passed, Ring, Blocks, Kept, Delivers;
    made := [];
    for i := 0 to |chunks|
      invariant filter.Valid() && filter.message == Flatten(chunks[..i]) && filter.calls == made
      invariant fresh(filter.queue.buffer) || filter.queue.buffer == old(filter.queue.buffer)
    {
      assert chunks[..i + 1][..i] == chunks[..i];
      var more := filter.Put(chunks[i], false);
      made := made + more;
    }
    assert chunks[..|chunks|] == chunks;
    var more := filter.Put(last, true);
    made := made + more;
  }
}
