/** The filter that runs a block cipher over a stream: buffered input, padding of the last block,
    and its removal on the way back. */
module StreamFilters {
  import opened Bytes
  import opened Divisibility
  import opened BlockQueues
  import opened BufferedInputs
  import opened Paddings

  /** One direction of a block cipher mode: the transformation of one block, which may change the
      state of the mode. */
  datatype Cipher<!S(!new)> = Cipher(size: nat, forward: bool, transform: (S, bytes) -> (S, bytes))

  function Transform<S(!new)>(c: Cipher<S>, s: S, block: bytes): (S, bytes) {
    c.transform(s, block)
  }

  ghost predicate KeepsLength<S(!new)>(c: Cipher<S>) {
    forall s, b :: |b| == c.size ==> |Transform(c, s, b).1| == c.size
  }

  /** `d` undoes `e`, block by block, and goes through the same states. */
  ghost predicate Inverse<S(!new)>(e: Cipher<S>, d: Cipher<S>) {
    && e.size == d.size && e.forward && !d.forward
    && forall s, b :: |b| == e.size ==> Transform(d, s, Transform(e, s, b).1) == (Transform(e, s, b).0, b)
  }

  /** Whole blocks, one after the other. */
  function Process<S(!new)>(c: Cipher<S>, s: S, data: bytes): (S, bytes)
    requires c.size >= 1 && |data| % c.size == 0
    decreases |data|
  {
    if data == [] then (s, []) else
      StepBack(|data|, c.size);
      var first := Transform(c, s, data[..c.size]);
      var rest := Process(c, first.0, data[c.size..]);
      (rest.0, first.1 + rest.1)
  }

  lemma {:induction false} ProcessConcat<S(!new)>(c: Cipher<S>, s: S, x: bytes, y: bytes)
    requires c.size >= 1 && |x| % c.size == 0 && |y| % c.size == 0
    ensures |x + y| % c.size == 0
    ensures Process(c, s, x + y) ==
      (Process(c, Process(c, s, x).0, y).0, Process(c, s, x).1 + Process(c, Process(c, s, x).0, y).1)
    decreases |x|
  {
    hide Process, Transform;
    SumOfMultiples(|x|, |y|, c.size);
    if x == [] {
      ProcessNothing(c, s);
      assert x + y == y && [] + Process(c, s, y).1 == Process(c, s, y).1;
    } else {
      ProcessFirst(c, s, x);
      ProcessFirst(c, s, x + y);
      assert (x + y)[..c.size] == x[..c.size] && (x + y)[c.size..] == x[c.size..] + y;
      var first := Transform(c, s, x[..c.size]);
      ProcessConcat(c, first.0, x[c.size..], y);
      var mid := Process(c, first.0, x[c.size..]);
      var end := Process(c, mid.0, y);
      assert first.1 + (mid.1 + end.1) == (first.1 + mid.1) + end.1;
    }
  }

  lemma ProcessNothing<S(!new)>(c: Cipher<S>, s: S)
    requires c.size >= 1
    ensures Process(c, s, []) == (s, [])
  {
  }

  lemma ProcessFirst<S(!new)>(c: Cipher<S>, s: S, data: bytes)
    requires c.size >= 1 && |data| % c.size == 0 && data != []
    ensures |data| >= c.size && |data[c.size..]| % c.size == 0
    ensures var first := Transform(c, s, data[..c.size]);
      Process(c, s, data) == (Process(c, first.0, data[c.size..]).0, first.1 + Process(c, first.0, data[c.size..]).1)
  {
    StepBack(|data|, c.size);
  }

  lemma {:induction false} ProcessLength<S(!new)>(c: Cipher<S>, s: S, data: bytes)
    requires c.size >= 1 && |data| % c.size == 0 && KeepsLength(c)
    ensures |Process(c, s, data).1| == |data|
    decreases |data|
  {
    if data != [] {
      StepBack(|data|, c.size);
      ProcessLength(c, Transform(c, s, data[..c.size]).0, data[c.size..]);
    }
  }

  lemma {:induction false} ProcessInverse<S(!new)>(e: Cipher<S>, d: Cipher<S>, s: S, data: bytes)
    requires e.size >= 1 && |data| % e.size == 0 && Inverse(e, d) && KeepsLength(e)
    ensures |Process(e, s, data).1| == |data|
    ensures Process(d, s, Process(e, s, data).1) == (Process(e, s, data).0, data)
    decreases |data|
  {
    ProcessLength(e, s, data);
    if data != [] {
      StepBack(|data|, e.size);
      var first := Transform(e, s, data[..e.size]);
      var rest := Process(e, first.0, data[e.size..]);
      ProcessInverse(e, d, first.0, data[e.size..]);
      assert (first.1 + rest.1)[..e.size] == first.1 && (first.1 + rest.1)[e.size..] == rest.1;
      assert data[..e.size] + data[e.size..] == data;
    }
  }

  // ---- What the mode does, block by block ----

  lemma KeepsLengthMeans<S(!new)>(c: Cipher<S>)
    ensures KeepsLength(c) <==> forall s, b :: |b| == c.size ==> |c.transform(s, b).1| == c.size
  {
    assert forall s, b :: Transform(c, s, b) == c.transform(s, b);
  }

  lemma InverseMeans<S(!new)>(e: Cipher<S>, d: Cipher<S>)
    ensures Inverse(e, d) <==>
      && e.size == d.size && e.forward && !d.forward
      && forall s, b :: |b| == e.size ==> d.transform(s, e.transform(s, b).1) == (e.transform(s, b).0, b)
  {
    assert forall s, b :: Transform(e, s, b) == e.transform(s, b) && Transform(d, s, b) == d.transform(s, b);
  }

  /** One block: exactly one transformation by the mode. */
  lemma OneBlock<S(!new)>(c: Cipher<S>, s: S, block: bytes)
    requires |block| == c.size >= 1
    ensures |block| % c.size == 0 && Process(c, s, block) == c.transform(s, block)
  {
    Whole(c.size);
    ProcessFirst(c, s, block);
    ProcessNothing(c, c.transform(s, block).0);
    assert block[..c.size] == block && block[c.size..] == [];
    assert c.transform(s, block).1 + [] == c.transform(s, block).1;
  }

  /** The block at `at`: the mode transforms it in the state that it has reached after the blocks before it. */
  lemma BlockAt<S(!new)>(c: Cipher<S>, s: S, data: bytes, at: nat)
    requires c.size >= 1 && |data| % c.size == 0 && KeepsLength(c) && at % c.size == 0 && at + c.size <= |data|
    ensures |data[..at]| % c.size == 0 && |data[..at + c.size]| % c.size == 0 && |Process(c, s, data).1| == |data|
    ensures (Process(c, s, data[..at + c.size]).0, Process(c, s, data).1[at..at + c.size])
      == c.transform(Process(c, s, data[..at]).0, data[at..at + c.size])
  {
    hide Process, KeepsLength, Transform;
    var before, block, after := data[..at], data[at..at + c.size], data[at + c.size..];
    var t := Process(c, s, before);
    OneBlock(c, t.0, block);
    SumOfMultiples(|before|, |block|, c.size);
    DifferenceOfMultiples(|data|, |before + block|, c.size);
    ProcessConcat(c, s, before, block);
    ProcessConcat(c, s, before + block, after);
    ProcessLength(c, s, before);
    ProcessLength(c, t.0, block);
    ProcessLength(c, s, data);
    assert before + block + after == data && before + block == data[..at + c.size];
  }

  /** The states that the mode goes through: `state(at)` is its state after `at` bytes, and the next state
      and the block of the output at `at` are what it makes of that state and of the block of the data. */
  lemma BlockByBlock<S(!new)>(c: Cipher<S>, s: S, data: bytes) returns (state: nat -> S)
    requires c.size >= 1 && |data| % c.size == 0 && KeepsLength(c)
    ensures |Process(c, s, data).1| == |data|
    ensures state(0) == s && state(|data|) == Process(c, s, data).0
    ensures forall at: nat :: at % c.size == 0 && at + c.size <= |data| ==>
      (state(at + c.size), Process(c, s, data).1[at..at + c.size]) == c.transform(state(at), data[at..at + c.size])
  {
    hide Process, KeepsLength, Transform;
    ProcessLength(c, s, data);
    ProcessNothing(c, s);
    state := (at: nat) => if at <= |data| && at % c.size == 0 then Process(c, s, data[..at]).0 else s;
    assert data[..0] == [] && data[..|data|] == data;
    forall at: nat | at % c.size == 0 && at + c.size <= |data|
      ensures (state(at + c.size), Process(c, s, data).1[at..at + c.size])
        == c.transform(state(at), data[at..at + c.size])
    {
      BlockAt(c, s, data, at);
      ModStep(at, c.size);
    }
  }

  /** The message with its last block completed. */
  function PaddedMessage(scheme: Scheme, message: bytes, size: nat): (r: bytes)
    requires Suits(scheme, size)
    ensures |r| % size == 0
  {
    var whole := WholePart(|message|, size);
    ModStep(whole, size);
    message[..whole] + Padded(scheme, message[whole..], size)
  }

  /** The length of the whole blocks of `n` bytes. */
  function WholePart(n: nat, size: nat): (w: nat)
    requires size >= 1
    ensures w <= n < w + size && w % size == 0
  {
    RoundedDown(n, size);
    n - n % size
  }

  function Encrypted<S(!new)>(c: Cipher<S>, scheme: Scheme, s: S, message: bytes): (S, bytes)
    requires Suits(scheme, c.size)
  {
    Process(c, s, PaddedMessage(scheme, message, c.size))
  }

  /** `text` is decrypted, from state `s` to state `t`, to `plain`. */
  ghost predicate Decrypts<S(!new)>(c: Cipher<S>, scheme: Scheme, s: S, text: bytes, t: S, plain: bytes)
    requires Suits(scheme, c.size)
  {
    && |text| >= c.size && |text| % c.size == 0
    && var p := Process(c, s, text);
      && |p.1| == |text| && t == p.0
      && |text| - c.size <= |plain| && plain[..|text| - c.size] == p.1[..|text| - c.size]
      && Accepts(scheme, p.1[|text| - c.size..], plain[|text| - c.size..])
  }

  /** `text` does not decrypt. */
  ghost predicate Refused<S(!new)>(c: Cipher<S>, scheme: Scheme, s: S, text: bytes)
    requires Suits(scheme, c.size)
  {
    forall t, p :: !Decrypts(c, scheme, s, text, t, p)
  }

  /** The length of the buffer for the last piece. */
  function LastBlockSize<S(!new)>(c: Cipher<S>): nat {
    if c.forward then 0 else c.size
  }

  /** A text is decrypted in one way at most. */
  lemma DecryptsOnce<S(!new)>(c: Cipher<S>, scheme: Scheme, s: S, text: bytes, t: S, plain: bytes, u: S, other: bytes)
    requires Suits(scheme, c.size) && Decrypts(c, scheme, s, text, t, plain) && Decrypts(c, scheme, s, text, u, other)
    ensures t == u && plain == other
  {
    hide Process, Accepts;
    var k := |text| - c.size;
    AcceptedOnce(scheme, Process(c, s, text).1[k..], plain[k..], other[k..]);
    assert plain == plain[..k] + plain[k..] && other == other[..k] + other[k..];
  }

  lemma PaddedParts(scheme: Scheme, message: bytes, size: nat)
    requires Suits(scheme, size)
    ensures |PaddedMessage(scheme, message, size)| >= size
    ensures var padded := PaddedMessage(scheme, message, size);
      var whole := |padded| - size;
      && whole <= |message| < whole + size
      && padded[..whole] == message[..whole] && padded[whole..] == Padded(scheme, message[whole..], size)
  {
    hide Padded, WholePart;
  }

  /** The message is followed by one to `size` bytes of padding, which make it whole blocks. */
  lemma PaddedMessageBytes(scheme: Scheme, message: bytes, size: nat)
    requires Suits(scheme, size)
    ensures var padded := PaddedMessage(scheme, message, size);
      var n := |padded| - |message|;
      && 1 <= n <= size && |padded| % size == 0 && padded[..|message|] == message
      && forall j :: |message| <= j < |padded| ==>
        padded[j] ==
          if scheme == PKCS then n
          else if scheme == W3C then if j == |padded| - 1 then n else 0
          else if j == |message| then 0x80 else 0
  {
    hide PaddedMessage, Padded;
    PaddedParts(scheme, message, size);
    var padded := PaddedMessage(scheme, message, size);
    var whole := |padded| - size;
    PaddedBytes(scheme, message[whole..], size);
    var block := padded[whole..];
    assert forall j :: |message| <= j < |padded| ==> padded[j] == block[j - whole];
    assert block[..|message| - whole] == message[whole..];
    assert padded[..|message|] == padded[..whole] + block[..|message| - whole];
  }

  /** Encryption in terms of the mode: block `at` of the output and the next state are what it makes of
      the state after `at` bytes and of the block of the padded message. */
  lemma EncryptedBlocks<S(!new)>(c: Cipher<S>, scheme: Scheme, s: S, message: bytes)
    returns (padded: bytes, modes: nat -> S)
    requires Suits(scheme, c.size) && KeepsLength(c)
    ensures padded == PaddedMessage(scheme, message, c.size)
    ensures |Encrypted(c, scheme, s, message).1| == |padded|
    ensures modes(0) == s && modes(|padded|) == Encrypted(c, scheme, s, message).0
    ensures forall at: nat :: at % c.size == 0 && at + c.size <= |padded| ==>
      (modes(at + c.size), Encrypted(c, scheme, s, message).1[at..at + c.size])
        == c.transform(modes(at), padded[at..at + c.size])
  {
    hide Process, KeepsLength, Transform, PaddedMessage;
    padded := PaddedMessage(scheme, message, c.size);
    modes := BlockByBlock(c, s, padded);
  }

  /** Decryption in terms of the mode: the blocks come out as it makes them, and the last one without
      what is accepted as its padding. */
  lemma DecryptedBlocks<S(!new)>(c: Cipher<S>, scheme: Scheme, s: S, text: bytes, t: S, plain: bytes)
    returns (padded: bytes, modes: nat -> S)
    requires Suits(scheme, c.size) && KeepsLength(c) && Decrypts(c, scheme, s, text, t, plain)
    ensures |text| % c.size == 0 && |padded| == |text| && |plain| < |text| <= |plain| + c.size
    ensures padded[..|plain|] == plain
    ensures scheme != W3C ==> padded == PaddedMessage(scheme, plain, c.size)
    ensures scheme == W3C ==> padded[|padded| - 1] == |padded| - |plain|
    ensures modes(0) == s && modes(|text|) == t
    ensures forall at: nat :: at % c.size == 0 && at + c.size <= |text| ==>
      (modes(at + c.size), padded[at..at + c.size]) == c.transform(modes(at), text[at..at + c.size])
  {
    hide Process, KeepsLength, Transform, PaddedMessage, Accepts;
    padded := Process(c, s, text).1;
    modes := BlockByBlock(c, s, text);
    DifferenceOfMultiples(|text|, c.size, c.size);
    Stripped(scheme, padded, plain, c.size);
  }

  lemma Stripped(scheme: Scheme, padded: bytes, plain: bytes, size: nat)
    requires Suits(scheme, size) && |padded| >= size && |padded| - size <= |plain|
    requires (|padded| - size) % size == 0 && plain[..|padded| - size] == padded[..|padded| - size]
    requires Accepts(scheme, padded[|padded| - size..], plain[|padded| - size..])
    ensures |plain| < |padded| <= |plain| + size && padded[..|plain|] == plain
    ensures scheme != W3C ==> padded == PaddedMessage(scheme, plain, size)
    ensures scheme == W3C ==> padded[|padded| - 1] == |padded| - |plain|
  {
    hide PaddedMessage, Padded;
    var k := |padded| - size;
    var block := padded[k..];
    assert padded == padded[..k] + block && plain == plain[..k] + plain[k..];
    assert padded[..|plain|] == padded[..k] + block[..|plain| - k];
    PaddedAs(scheme, plain, size, k);
    assert block[size - 1] == padded[|padded| - 1];
  }

  lemma PaddedAs(scheme: Scheme, message: bytes, size: nat, whole: nat)
    requires Suits(scheme, size) && whole <= |message| < whole + size && whole % size == 0
    ensures PaddedMessage(scheme, message, size) == message[..whole] + Padded(scheme, message[whole..], size)
  {
    hide Padded;
    DivisionUnique(|message|, size, whole / size, |message| - whole);
  }

  /** A text is refused exactly if it is not made of blocks or its last block is not a padded one. */
  lemma RefusedExactly<S(!new)>(c: Cipher<S>, scheme: Scheme, s: S, text: bytes)
    requires Suits(scheme, c.size) && KeepsLength(c)
    ensures |text| % c.size == 0 ==> |Process(c, s, text).1| == |text|
    ensures Refused(c, scheme, s, text) <==>
      || |text| < c.size || |text| % c.size != 0
      || var block := Process(c, s, text).1[|text| - c.size..];
        forall rest :: !Accepts(scheme, block, rest)
  {
    hide Process, Accepts, KeepsLength;
    if |text| >= c.size && |text| % c.size == 0 {
      ProcessLength(c, s, text);
      var p, k := Process(c, s, text), |text| - c.size;
      forall rest | Accepts(scheme, p.1[k..], rest)
        ensures Decrypts(c, scheme, s, text, p.0, p.1[..k] + rest)
      {
        assert (p.1[..k] + rest)[..k] == p.1[..k] && (p.1[..k] + rest)[k..] == rest;
      }
    } else if |text| % c.size == 0 {
      ProcessLength(c, s, text);
    }
  }

  lemma DecryptsEncrypted<S(!new)>(e: Cipher<S>, d: Cipher<S>, scheme: Scheme, s: S, message: bytes)
    requires Suits(scheme, e.size) && Inverse(e, d) && KeepsLength(e)
    ensures Decrypts(d, scheme, s, Encrypted(e, scheme, s, message).1, Encrypted(e, scheme, s, message).0, message)
  {
    hide Process, Padded, Inverse, KeepsLength, Accepts, PaddedMessage;
    var size := e.size;
    var padded := PaddedMessage(scheme, message, size);
    SameSize(e, d);
    PaddedParts(scheme, message, size);
    var whole := |padded| - size;
    ProcessInverse(e, d, s, padded);
    PaddedIsAccepted(scheme, message[whole..], size);
  }

  /** What was encrypted is decrypted to the original message and to nothing else. */
  lemma RoundTrip<S(!new)>(e: Cipher<S>, d: Cipher<S>, scheme: Scheme, s: S, message: bytes, t: S, plain: bytes)
    requires Suits(scheme, e.size) && Inverse(e, d) && KeepsLength(e)
    ensures e.size == d.size
    ensures Decrypts(d, scheme, s, Encrypted(e, scheme, s, message).1, t, plain)
       <==> t == Encrypted(e, scheme, s, message).0 && plain == message
  {
    hide Decrypts, Inverse, KeepsLength, Encrypted;
    SameSize(e, d);
    var c := Encrypted(e, scheme, s, message);
    DecryptsEncrypted(e, d, scheme, s, message);
    if Decrypts(d, scheme, s, c.1, t, plain) {
      DecryptsOnce(d, scheme, s, c.1, t, plain, c.0, message);
    }
  }

  lemma SameSize<S(!new)>(e: Cipher<S>, d: Cipher<S>)
    requires Inverse(e, d)
    ensures e.size == d.size
  {
  }

  /** Which calls a series of writes consists of before the last piece. */
  ghost predicate BeforeLast(calls: seq<Call>, size: nat)
    requires size >= 1
  {
    forall i :: 0 <= i < |calls| ==> calls[i] == First([]) || IsMiddle(calls[i], size)
  }

  lemma PassedBeforeLast(calls: seq<Call>, message: bytes, upTo: nat, size: nat)
    requires size >= 1 && Passed(calls, message, upTo, 0, size)
    ensures BeforeLast(calls, size) && Joined(calls) == message[..upTo]
  {
    assert calls[0] == First([]);
    assert calls == [calls[0]] + calls[1..];
    CallsConcat([calls[0]], calls[1..]);
    assert Joined([calls[0]]) == [];
  }

  /** What decides how a piece is cut into portions: the size of the space that the attached object
      offers, given what it has received and the size wanted, and the part of an optimal block that
      the mode has already used. */
  datatype Sizes<!S(!new)> = Sizes(offered: (bytes, nat) -> nat, used: S -> nat)

  function Offered<S(!new)>(z: Sizes<S>, received: bytes, desired: nat): nat {
    z.offered(received, desired)
  }

  function Used<S(!new)>(z: Sizes<S>, s: S): nat {
    z.used(s)
  }

  /** Whatever is used of an optimal block, room for one block is left. */
  ghost predicate LeavesRoom<S(!new)>(z: Sizes<S>, size: nat, optimal: nat) {
    forall s :: Used(z, s) + size <= optimal
  }

  lemma SizesAre<S(!new)>(z: Sizes<S>, received: bytes, desired: nat, s: S, size: nat, optimal: nat)
    ensures Offered(z, received, desired) == z.offered(received, desired) && Used(z, s) == z.used(s)
    ensures LeavesRoom(z, size, optimal) <==> forall t :: z.used(t) + size <= optimal
  {
    assert forall t :: Used(z, t) == z.used(t);
  }

  lemma StillRoom<S(!new)>(z: Sizes<S>, size: nat, optimal: nat, s: S)
    requires LeavesRoom(z, size, optimal)
    ensures Used(z, s) + size <= optimal
  {
  }

  lemma MoreRoom<S(!new)>(z: Sizes<S>, size: nat, optimal: nat, more: nat)
    requires LeavesRoom(z, size, optimal) && optimal <= more
    ensures LeavesRoom(z, size, more)
  {
    hide Used;
  }

  /** What a sink with `before` holds after the processing of `data`. */
  ghost predicate Delivered<S(!new)>(c: Cipher<S>, s: S, data: bytes, before: bytes, after: bytes) {
    c.size >= 1 && |data| % c.size == 0 && after == before + Process(c, s, data).1
  }

  /** The state of the cipher after `data`. */
  ghost predicate Reached<S(!new)>(c: Cipher<S>, s: S, data: bytes, t: S) {
    c.size >= 1 && |data| % c.size == 0 && t == Process(c, s, data).0
  }

  class StreamFilter<S(!new)> {
    const cipher: Cipher<S>
    const scheme: Scheme
    const sizes: Sizes<S>
    const input: BufferedInput
    var state: S
    var optimalBufferSize: nat

    /** The size of the filter's own working space. */
    var tempSpace: nat

    /** What the attached sink has received. */
    var output: bytes

    /** The cipher's state and the output when the current message began. */
    ghost var startState: S
    ghost var startOutput: bytes

    ghost predicate Set()
    {
      && Suits(scheme, cipher.size) && KeepsLength(cipher)
      && input.firstSize == 0 && input.blockSize == cipher.size && input.lastSize == LastBlockSize(cipher)
    }

    /** The sink and the cipher are where `data`, processed from the start of the message, leads. */
    ghost predicate Processed(data: bytes)
      reads this
    {
      && cipher.size >= 1 && |data| % cipher.size == 0 && LeavesRoom(sizes, cipher.size, optimalBufferSize)
      && state == Process(cipher, startState, data).0
      && output == startOutput + Process(cipher, startState, data).1
    }

    ghost predicate Valid()
      reads this, input, input.queue, input.queue.buffer
    {
      && Set() && input.Valid() && Processed(Joined(input.calls))
    }

    constructor (c: Cipher<S>, padding: Scheme, z: Sizes<S>, initial: S, optimal: nat)
      requires Suits(padding, c.size) && KeepsLength(c) && LeavesRoom(z, c.size, optimal)
      ensures Valid() && input.message == [] && input.calls == []
      ensures output == [] && startOutput == [] && state == startState == initial
      ensures cipher == c && scheme == padding && sizes == z && optimalBufferSize == optimal && tempSpace == 0
      ensures fresh(input) && fresh(input.queue) && fresh(input.queue.buffer)
    {
      hide KeepsLength, Process, Joined, Transform, BufferedInput.Valid, LeavesRoom;
      cipher, scheme, sizes, state, output := c, padding, z, initial, [];
      optimalBufferSize, tempSpace := optimal, 0;
      startState, startOutput := initial, [];
      input := new BufferedInput(0, c.size, LastBlockSize(c));
      new;
      NothingProcessed(c, initial);
    }

    method FirstPut(ghost done: bytes)
      requires Processed(done)
      modifies this`optimalBufferSize
      ensures Processed(done)
      ensures old(optimalBufferSize) > 4096 ==> optimalBufferSize == old(optimalBufferSize)
      ensures old(optimalBufferSize) <= optimalBufferSize
      ensures 0 < old(optimalBufferSize) <= 4096 ==>
        optimalBufferSize % old(optimalBufferSize) == 0
        && optimalBufferSize <= 4096 < optimalBufferSize + old(optimalBufferSize)
      ensures 4096 < 2 * optimalBufferSize
    {
      hide Process, LeavesRoom;
      StillRoom(sizes, cipher.size, optimalBufferSize, state);
      RoundedDown(4096, optimalBufferSize);
      var rounded := 4096 - 4096 % optimalBufferSize;
      if rounded > optimalBufferSize {
        MoreRoom(sizes, cipher.size, optimalBufferSize, rounded);
        optimalBufferSize := rounded;
      }
    }

    /** Processes a middle piece in portions that are whole blocks. */
    method NextPut(inString: bytes, ghost done: bytes)
      requires Processed(done) && |inString| % cipher.size == 0
      modifies this`state, this`output, this`tempSpace
      ensures Processed(done + inString)
    {
      hide Process, Transform, LeavesRoom;
      var length: nat, at: nat := |inString|, 0;
      assert done + inString[..0] == done;
      while length > 0
        invariant at + length == |inString| && length % cipher.size == 0
        invariant Processed(done + inString[..at])
        decreases length
      {
        ghost var space: nat;
        var len: nat;
        len, space := Portion(length);
        Emit(inString[at..at + len], done + inString[..at]);
        assert done + inString[..at] + inString[at..at + len] == done + inString[..at + len];
        at := at + len;
        length := length - len;
      }
      assert inString[..at] == inString;
    }

    /** The length of the next portion: as much as there is space for, less what is used of the first
        optimal block, in whole blocks. */
    method Portion(length: nat) returns (len: nat, ghost space: nat)
      requires cipher.size >= 1 && LeavesRoom(sizes, cipher.size, optimalBufferSize)
      requires length > 0 && length % cipher.size == 0
      modifies this`tempSpace
      ensures 0 < len <= length && len % cipher.size == 0 && (length - len) % cipher.size == 0
      ensures space == optimalBufferSize || space == old(tempSpace) || space == Offered(sizes, output, length)
      ensures space >= length ==> len == length
      ensures space < length ==>
        var room := space - if space == optimalBufferSize then Used(sizes, state) else 0;
        len <= room < len + cipher.size
    {
      hide LeavesRoom, Used, Offered;
      StillRoom(sizes, cipher.size, optimalBufferSize, state);
      StepBack(length, cipher.size);
      len := CreatePutSpace(cipher.size, length, optimalBufferSize);
      space := len;
      if len < length {
        if len == optimalBufferSize {
          len := len - Used(sizes, state);
        }
        RoundedDown(len, cipher.size);
        len := len - len % cipher.size;
      } else {
        len := length;
      }
      DifferenceOfMultiples(length, len, cipher.size);
    }

    /** The size of the space to write to: what the attached object offers, or else the filter's own
        space, which once made is used from then on. */
    method CreatePutSpace(minSize: nat, desiredSize: nat, bufferSize: nat) returns (size: nat)
      requires desiredSize >= minSize && bufferSize >= minSize
      modifies this`tempSpace
      ensures size >= minSize
      ensures old(tempSpace) < minSize <= Offered(sizes, output, desiredSize) ==>
        size == Offered(sizes, output, desiredSize) && tempSpace == old(tempSpace)
      ensures old(tempSpace) < minSize && Offered(sizes, output, desiredSize) < minSize ==>
        size == tempSpace == bufferSize
      ensures old(tempSpace) >= minSize ==> size == tempSpace == old(tempSpace)
    {
      if tempSpace < minSize {
        var offered := Offered(sizes, output, desiredSize);
        if offered >= minSize {
          return offered;
        }
        tempSpace := bufferSize;
      }
      size := tempSpace;
    }

    method Emit(piece: bytes, ghost done: bytes)
      requires Processed(done) && |piece| % cipher.size == 0
      modifies this`state, this`output
      ensures Processed(done + piece)
    {
      hide Process, LeavesRoom;
      ProcessConcat(cipher, startState, done, piece);
      var r := Process(cipher, state, piece);
      state, output := r.0, output + r.1;
    }

    /** The last piece on the way out: completed and encrypted. */
    method LastEncrypt(inString: bytes, ghost done: bytes)
      requires Processed(done) && Suits(scheme, cipher.size) && |inString| < cipher.size
      modifies this`state, this`output
      ensures |done + Padded(scheme, inString, cipher.size)| % cipher.size == 0
      ensures Processed(done + Padded(scheme, inString, cipher.size))
    {
      hide Process, Transform, Padded, LeavesRoom;
      var space := Pad(scheme, inString, cipher.size);
      Whole(cipher.size);
      Emit(space[..], done);
    }

    /** The last piece on the way back: decrypted, and stripped of its padding; false stands for
        InvalidCiphertext. */
    method LastDecrypt(inString: bytes, ghost done: bytes) returns (ok: bool, ghost plain: bytes)
      requires Processed(done) && Suits(scheme, cipher.size) && KeepsLength(cipher)
      requires |inString| == Kept(|done| + |inString|, cipher.size, cipher.size)
      modifies this`state, this`output
      ensures ok ==>
        Decrypts(cipher, scheme, startState, done + inString, state, plain) && output == startOutput + plain
      ensures !ok ==> Refused(cipher, scheme, startState, done + inString) && output == old(output)
      ensures !ok ==> Reached(cipher, startState, if |inString| == cipher.size then done + inString else done, state)
    {
      hide Process, Transform, Accepts, KeepsLength, Kept, Decrypts, Refused, LeavesRoom;
      plain := [];
      if |inString| != cipher.size {
        BlocksOnly(cipher, scheme, startState, done, inString);
        return false, plain;
      }
      Whole(cipher.size);
      ghost var before := Process(cipher, startState, done);
      var r := Process(cipher, state, inString);
      ProcessLength(cipher, startState, done);
      ProcessLength(cipher, state, inString);
      ProcessConcat(cipher, startState, done, inString);
      LastAccepted(cipher, scheme, startState, done, inString);
      state := r.0;
      var rest := Unpad(scheme, r.1);
      if rest.None? {
        return false, plain;
      }
      plain := before.1 + rest.value;
      PlainAccepted(cipher, scheme, startState, done, inString, rest.value);
      output := output + rest.value;
      assert startOutput + before.1 + rest.value == startOutput + plain;
      ok := true;
    }

    /** Serves the calls before the last piece. */
    method Run(made: seq<Call>, ghost before: seq<Call>)
      requires Processed(Joined(before)) && BeforeLast(made, cipher.size)
      modifies this`state, this`output, this`optimalBufferSize, this`tempSpace
      ensures Processed(Joined(before + made))
      ensures made != [] && made[0].First? ==> 4096 < 2 * optimalBufferSize
    {
      hide Process, Transform, Joined, LeavesRoom;
      assert before + made[..0] == before;
      for i := 0 to |made|
        invariant Processed(Joined(before + made[..i]))
        invariant i > 0 && made[0].First? ==> 4096 < 2 * optimalBufferSize
      {
        JoinedNext(before + made[..i], made[i]);
        assert before + made[..i] + [made[i]] == before + made[..i + 1];
        if made[i].First? {
          FirstPut(Joined(before + made[..i]));
          assert Joined(before + made[..i]) + [] == Joined(before + made[..i]);
        } else {
          NextPut(made[i].data, Joined(before + made[..i]));
        }
      }
      assert before + made[..|made|] == before + made;
    }

    /** One write. At the end of a message the output has grown by its encryption, or by the plain
        text that it decrypts to; `ok` is false exactly if it does not decrypt. */
    method Put(inString: bytes, messageEnd: bool) returns (ok: bool, ghost plain: bytes)
      requires Valid()
      modifies this, input, input.queue, input.queue.buffer
      ensures fresh(input.queue.buffer) || input.queue.buffer == old(input.queue.buffer)
      ensures !messageEnd ==>
        && ok && Valid() && input.message == old(input.message) + inString
        && startState == old(startState) && startOutput == old(startOutput)
      ensures messageEnd && ok ==>
        && Valid() && input.message == [] && input.calls == [] && startState == state
        && startOutput == output == old(startOutput) + plain
      ensures messageEnd && cipher.forward ==>
        && ok && Suits(scheme, cipher.size)
        && (state, plain) == Encrypted(cipher, scheme, old(startState), old(input.message) + inString)
      ensures messageEnd && !cipher.forward && ok ==>
        Decrypts(cipher, scheme, old(startState), old(input.message) + inString, state, plain)
      ensures messageEnd && !cipher.forward && !ok ==>
        var message := old(input.message) + inString;
        && Refused(cipher, scheme, old(startState), message)
        && Delivered(cipher, old(startState), AllButLast(message, cipher.size), old(startOutput), output)
        && Reached(cipher, old(startState), Consumed(message, cipher.size), state)
        && input.queue.Valid() && input.queue.size == 0 && (message != [] ==> input.firstInputDone)
    {
      hide Process, Transform, Joined, Passed, Delivers, BeforeLast, Ring, Kept, Accepts, KeepsLength, Blocks;
      hide Decrypts, Refused, Encrypted, LeavesRoom, Delivered, AllButLast, Reached, Consumed;
      plain := [];
      ghost var before, message := input.calls, input.message + inString;
      CallsBeforeLast(input);
      var made := input.PutAndDrain(inString, messageEnd);
      if messageEnd {
        EndSplit(before, made, message, cipher.size, input.lastSize);
        Run(made[..|made| - 1], before);
        ok, plain := Finish(made[|made| - 1].data, message);
        if ok {
          input.Restart();
          NoneJoined();
        }
      } else {
        CallsBeforeLast(input);
        BeforeLastPart(before, made, cipher.size);
        Run(made, before);
        ok := true;
      }
    }

    /** The end of a message. */
    method Finish(last: bytes, ghost message: bytes) returns (ok: bool, ghost plain: bytes)
      requires Set()
      requires var kept := Kept(|message|, cipher.size, LastBlockSize(cipher));
        last == message[|message| - kept..] && Processed(message[..|message| - kept])
      modifies this
      ensures ok ==> Processed([]) && startState == state && startOutput == output == old(startOutput) + plain
      ensures cipher.forward ==> ok && (state, plain) == Encrypted(cipher, scheme, old(startState), message)
      ensures !cipher.forward && ok ==> Decrypts(cipher, scheme, old(startState), message, state, plain)
      ensures !cipher.forward && !ok ==>
        && Refused(cipher, scheme, old(startState), message)
        && Delivered(cipher, old(startState), AllButLast(message, cipher.size), old(startOutput), output)
        && Reached(cipher, old(startState), Consumed(message, cipher.size), state)
    {
      hide Process, Transform, Joined, Ring, Kept, Accepts, KeepsLength, Decrypts, Refused, Padded, Passed, Encrypted;
      hide BufferedInput.Valid, WholePart, LeavesRoom;
      ghost var done := message[..|message| - |last|];
      assert done + last == message;
      if cipher.forward {
        KeptIsRest(|message|, cipher.size);
        LastEncrypt(last, done);
        EncryptedAs(cipher, scheme, startState, message, done, last);
        ghost var e := Encrypted(cipher, scheme, startState, message);
        ok, plain := true, e.1;
        assert state == e.0 && output == startOutput + plain && e == (state, plain);
      } else {
        ok, plain := LastDecrypt(last, done);
      }
      startState, startOutput := state, output;
      NothingProcessed(cipher, state);
      assert startOutput + [] == startOutput;
    }
  }

  lemma EncryptedAs<S(!new)>(c: Cipher<S>, scheme: Scheme, s: S, message: bytes, done: bytes, last: bytes)
    requires Suits(scheme, c.size) && done + last == message && |done| == WholePart(|message|, c.size)
      && |last| < c.size
    requires |done + Padded(scheme, last, c.size)| % c.size == 0
    ensures Encrypted(c, scheme, s, message) == Process(c, s, done + Padded(scheme, last, c.size))
  {
    hide Padded, Process, WholePart;
    assert message[..|done|] == done && message[|done|..] == last;
  }

  lemma KeptIsRest(n: nat, size: nat)
    requires size >= 1
    ensures Kept(n, size, 0) == n - WholePart(n, size) < size
  {
    if n < size {
      SmallMod(n, size);
    }
  }

  lemma CallsBeforeLast(input: BufferedInput)
    requires input.Valid() && input.firstSize == 0
    ensures BeforeLast(input.calls, input.blockSize)
  {
    hide Passed, Ring, Kept, Joined, Blocks;
    if input.firstInputDone {
      PassedBeforeLast(input.calls, input.message, |input.message| - input.queue.size, input.blockSize);
    }
  }

  lemma BeforeLastPart(before: seq<Call>, made: seq<Call>, size: nat)
    requires size >= 1 && BeforeLast(before + made, size)
    ensures BeforeLast(made, size)
  {
    forall i | 0 <= i < |made|
      ensures made[i] == First([]) || IsMiddle(made[i], size)
    {
      assert (before + made)[|before| + i] == made[i];
    }
  }

  /** The calls of the write that ends a message: what is left before the last piece, and the last piece. */
  lemma EndSplit(before: seq<Call>, made: seq<Call>, message: bytes, size: nat, last: nat)
    requires size >= 1 && BeforeLast(before, size) && Delivers(before + made, message, 0, size, last)
    ensures made != [] && BeforeLast(made[..|made| - 1], size)
    ensures var end := |message| - Kept(|message|, size, last);
      made[|made| - 1] == Last(message[end..]) && Joined(before + made[..|made| - 1]) == message[..end]
  {
    hide Passed, Joined, Kept;
    var all := before + made;
    var end := |message| - Kept(|message|, size, last);
    PassedBeforeLast(all[..|all| - 1], message, end, size);
    assert before + [] == before;
    NoLastBefore(before, size);
    assert made != [];
    assert all[..|all| - 1] == before + made[..|made| - 1];
    BeforeLastPart(before, made[..|made| - 1], size);
  }

  lemma NoLastBefore(calls: seq<Call>, size: nat)
    requires size >= 1 && BeforeLast(calls, size)
    ensures calls != [] ==> !calls[|calls| - 1].Last?
  {
  }

  /** A text without the last block that is kept back. */
  function AllButLast(text: bytes, size: nat): bytes
    requires size >= 1
  {
    text[..|text| - Kept(|text|, size, size)]
  }

  /** What of a text reaches the cipher: all of it, or all but a last piece that is not a block. */
  function Consumed(text: bytes, size: nat): bytes
    requires size >= 1
  {
    if Kept(|text|, size, size) == size then text else AllButLast(text, size)
  }

  /** What is kept back of a text are its last bytes, one block or more but less than two, or all of it. */
  lemma KeptBack(text: bytes, size: nat)
    requires size >= 1
    ensures var done := AllButLast(text, size);
      && |done| <= |text| && done == text[..|done|] && |done| % size == 0
      && (if |text| < 2 * size then done == [] else size <= |text| - |done| < 2 * size)
      && Consumed(text, size) == if |text| - |done| == size then text else done
  {
    hide Kept;
    KeptLeavesBlocks(|text|, size, size);
  }

  lemma DeliveredMeans<S(!new)>(c: Cipher<S>, s: S, data: bytes, before: bytes, after: bytes)
    ensures Delivered(c, s, data, before, after)
       <==> c.size >= 1 && |data| % c.size == 0 && after == before + Process(c, s, data).1
  {
  }

  lemma ReachedMeans<S(!new)>(c: Cipher<S>, s: S, data: bytes, t: S)
    ensures Reached(c, s, data, t) <==> c.size >= 1 && |data| % c.size == 0 && t == Process(c, s, data).0
  {
  }

  /** A text is decrypted only if its last piece is a block. */
  lemma BlocksOnly<S(!new)>(c: Cipher<S>, scheme: Scheme, s: S, done: bytes, last: bytes)
    requires Suits(scheme, c.size) && |last| == Kept(|done| + |last|, c.size, c.size)
    ensures |last| != c.size ==> Refused(c, scheme, s, done + last)
  {
    hide Process, Accepts;
    var n := |done| + |last|;
    if n >= c.size && n % c.size == 0 {
      MultipleKept(n, c.size);
    }
  }

  lemma MultipleKept(n: nat, size: nat)
    requires n >= size >= 1 && n % size == 0
    ensures Kept(n, size, size) == size
  {
    StepBack(n, size);
    if n < size + size {
      SmallMod(n - size, size);
    }
  }

  /** Whether a text with whole blocks is decrypted depends on its last block. */
  lemma LastAccepted<S(!new)>(c: Cipher<S>, scheme: Scheme, s: S, done: bytes, last: bytes)
    requires Suits(scheme, c.size) && KeepsLength(c) && |done| % c.size == 0 && |last| == c.size && |last| % c.size == 0
    ensures |Process(c, Process(c, s, done).0, last).1| == c.size
    ensures (forall x :: !Accepts(scheme, Process(c, Process(c, s, done).0, last).1, x))
        ==> Refused(c, scheme, s, done + last)
  {
    hide Process, Accepts, KeepsLength;
    ProcessLength(c, s, done);
    ProcessLength(c, Process(c, s, done).0, last);
    ProcessConcat(c, s, done, last);
    var before := Process(c, s, done).1;
    var block := Process(c, Process(c, s, done).0, last).1;
    assert (before + block)[|done + last| - c.size..] == block;
  }

  lemma PlainAccepted<S(!new)>(c: Cipher<S>, scheme: Scheme, s: S, done: bytes, last: bytes, rest: bytes)
    requires Suits(scheme, c.size) && KeepsLength(c) && |done| % c.size == 0 && |last| == c.size && |last| % c.size == 0
    requires |Process(c, Process(c, s, done).0, last).1| == c.size
    requires Accepts(scheme, Process(c, Process(c, s, done).0, last).1, rest)
    ensures Decrypts(c, scheme, s, done + last, Process(c, Process(c, s, done).0, last).0, Process(c, s, done).1 + rest)
  {
    hide Process, Accepts, KeepsLength;
    ProcessLength(c, s, done);
    ProcessLength(c, Process(c, s, done).0, last);
    ProcessConcat(c, s, done, last);
    var before := Process(c, s, done).1;
    var block := Process(c, Process(c, s, done).0, last).1;
    assert (before + block)[|done + last| - c.size..] == block;
    assert (before + rest)[|done + last| - c.size..] == rest && (before + rest)[..|done|] == before;
  }

  lemma NothingProcessed<S(!new)>(c: Cipher<S>, s: S)
    requires c.size >= 1
    ensures Joined([]) == [] && 0 % c.size == 0 && Process(c, s, []) == (s, [])
  {
  }

  /** A whole message, cut into writes in any way. What an encrypting filter sends to the sink is, block by
      block, what the mode makes of the padded message, in the states that it goes through. */
  method PutMessage<S(!new)>(filter: StreamFilter<S>, chunks: seq<bytes>, last: bytes)
    returns (ok: bool, ghost plain: bytes, ghost padded: bytes, ghost modes: nat -> S)
    requires filter.Valid() && filter.input.message == []
    modifies filter, filter.input, filter.input.queue, filter.input.queue.buffer
    ensures ok ==> filter.Valid() && filter.input.message == [] && filter.output == old(filter.startOutput) + plain
    ensures filter.cipher.forward ==> ok && Suits(filter.scheme, filter.cipher.size)
    ensures filter.cipher.forward ==>
      (filter.state, plain) == Encrypted(filter.cipher, filter.scheme, old(filter.startState), Flatten(chunks) + last)
    ensures filter.cipher.forward ==>
      && padded == PaddedMessage(filter.scheme, Flatten(chunks) + last, filter.cipher.size)
      && |plain| == |padded| && modes(0) == old(filter.startState) && modes(|padded|) == filter.state
      && forall at: nat :: at % filter.cipher.size == 0 && at + filter.cipher.size <= |padded| ==>
        (modes(at + filter.cipher.size), plain[at..at + filter.cipher.size])
          == filter.cipher.transform(modes(at), padded[at..at + filter.cipher.size])
    ensures !filter.cipher.forward && ok ==>
      && Suits(filter.scheme, filter.cipher.size)
      && Decrypts(filter.cipher, filter.scheme, old(filter.startState), Flatten(chunks) + last, filter.state, plain)
    ensures !filter.cipher.forward && !ok ==>
      var text := Flatten(chunks) + last;
      && Suits(filter.scheme, filter.cipher.size)
      && Refused(filter.cipher, filter.scheme, old(filter.startState), text)
      && Delivered(filter.cipher, old(filter.startState), AllButLast(text, filter.cipher.size),
        old(filter.startOutput), filter.output)
  {
    hide Process, Transform, Joined, Passed, Ring, Kept, KeepsLength, Decrypts, Refused, Encrypted, BufferedInput.Valid;
    hide LeavesRoom, Delivered, AllButLast, PaddedMessage;
    Fitting(filter);
    ghost var start := filter.startState;
    for i := 0 to |chunks|
      invariant filter.Valid() && filter.input.message == Flatten(chunks[..i])
      invariant filter.startState == old(filter.startState) && filter.startOutput == old(filter.startOutput)
      invariant fresh(filter.input.queue.buffer) || filter.input.queue.buffer == old(filter.input.queue.buffer)
    {
      assert chunks[..i + 1][..i] == chunks[..i];
      ok, plain := filter.Put(chunks[i], false);
    }
    assert chunks[..|chunks|] == chunks;
    ok, plain := filter.Put(last, true);
    padded, modes := EncryptedBlocks(filter.cipher, filter.scheme, start, Flatten(chunks) + last);
  }

  /** End to end: what is encrypted through one filter in any writes, and decrypted through another
      in any other writes, is the message. */
  method Transmit<S(!new)>(sender: StreamFilter<S>, receiver: StreamFilter<S>, chunks: seq<bytes>, last: bytes,
                           recut: bytes -> (seq<bytes>, bytes))
    returns (ok: bool)
    requires sender.Valid() && receiver.Valid() && sender.input.message == receiver.input.message == []
    requires sender != receiver && sender.input != receiver.input && sender.input.queue != receiver.input.queue
    requires sender.input.queue.buffer != receiver.input.queue.buffer
    requires Inverse(sender.cipher, receiver.cipher) && sender.scheme == receiver.scheme
    requires sender.startState == receiver.startState && sender.startOutput == receiver.startOutput == []
    requires forall text :: Flatten(recut(text).0) + recut(text).1 == text
    modifies sender, sender.input, sender.input.queue, sender.input.queue.buffer
    modifies receiver, receiver.input, receiver.input.queue, receiver.input.queue.buffer
    ensures ok && receiver.output == Flatten(chunks) + last && receiver.state == sender.state
  {
    hide Process, Transform, Joined, Passed, Ring, Kept, KeepsLength, Decrypts, Refused, Encrypted, BufferedInput.Valid;
    hide Inverse, Flatten, LeavesRoom, Delivered;
    ghost var e, d, scheme, start := sender.cipher, receiver.cipher, sender.scheme, sender.startState;
    ghost var message := Flatten(chunks) + last;
    ghost var plain: bytes;
    ghost var padded: bytes;
    ghost var modes: nat -> S;
    Directions(e, d);
    Fitting(sender);
    DecryptsEncrypted(e, d, scheme, start, message);
    ok, plain, padded, modes := PutMessage(sender, chunks, last);
    assert sender.output == plain;
    ghost var text := sender.output;
    assert (sender.state, text) == Encrypted(e, scheme, start, message);
    var cut := recut(sender.output);
    ok, plain, padded, modes := PutMessage(receiver, cut.0, cut.1);
    NotRefused(d, scheme, start, text, sender.state, message);
    RoundTrip(e, d, scheme, start, message, receiver.state, plain);
  }

  lemma Directions<S(!new)>(e: Cipher<S>, d: Cipher<S>)
    requires Inverse(e, d)
    ensures e.forward && !d.forward && e.size == d.size
  {
  }

  lemma Fitting<S(!new)>(filter: StreamFilter<S>)
    requires filter.Valid()
    ensures Suits(filter.scheme, filter.cipher.size) && KeepsLength(filter.cipher)
  {
  }

  lemma NotRefused<S(!new)>(c: Cipher<S>, scheme: Scheme, s: S, text: bytes, t: S, plain: bytes)
    requires Suits(scheme, c.size) && Decrypts(c, scheme, s, text, t, plain)
    ensures !Refused(c, scheme, s, text)
  {
  }
}
