/** The incremental driver of the block hashes, for 64-byte blocks and 32-bit words: buffering, the
    two-word byte counter, padding and restart, against a fold over the padded message. */
module IteratedHashes {
  import opened Bytes
  import Divisibility
  import opened Wrappers
  import opened Powers
  import opened BitWords
  import opened BlockHashing

  const WORD: nat := 0x1_0000_0000

  /** What a concrete hash supplies: a compression function, an initial state, and the bytes of a
      state, in the byte order that the length field uses too. */
  datatype Algorithm<!S(!new)> = Algorithm(
    compress: (S, bytes) -> S,
    initial: S,
    output: S -> bytes,
    digestSize: nat,
    bigEndian: bool
  )

  function CompressBlock<S(!new)>(a: Algorithm<S>, state: S, block: bytes): S {
    a.compress(state, block)
  }

  function Output<S(!new)>(a: Algorithm<S>, state: S): bytes {
    a.output(state)
  }

  /** Every state gives a digest of the stated size. */
  ghost predicate Sized<S(!new)>(a: Algorithm<S>) {
    forall s :: |Output(a, s)| == a.digestSize
  }

  /** The state after the whole blocks `data`. */
  function StateAfter<S(!new)>(a: Algorithm<S>, data: bytes): S {
    if |data| % 64 == 0 then Fold(a.compress, a.initial, data) else a.initial
  }

  /** The bit length of `n` bytes, modulo 2^64, in the byte order of the hash. */
  function LengthField<S(!new)>(a: Algorithm<S>, n: nat): (r: bytes)
    ensures |r| == 8
  {
    if a.bigEndian then BigEndianBytes(8 * n, 8) else LittleEndianBytes(8 * n, 8)
  }

  function Pad<S(!new)>(a: Algorithm<S>, message: bytes): bytes {
    PadTo64(message, LengthField(a, |message|))
  }

  /** The one-shot hash. */
  function Hash<S(!new)>(a: Algorithm<S>, message: bytes): bytes {
    Output(a, StateAfter(a, Pad(a, message)))
  }

  /** The fold of the compression function over the blocks, from the initial state on. */
  lemma StatesOf<S(!new)>(a: Algorithm<S>, data: bytes, block: bytes)
    requires |data| % 64 == 0 && |block| == 64
    ensures StateAfter(a, []) == a.initial
    ensures StateAfter(a, data + block) == a.compress(StateAfter(a, data), block)
  {
    FoldNext(a.compress, a.initial, data, block);
  }

  /** The digest in terms of what the concrete hash supplies, with the length field written out. */
  lemma HashIs<S(!new)>(a: Algorithm<S>, message: bytes)
    ensures var n := 8 * |message|;
      var padded := PadTo64(message, if a.bigEndian then BigEndianBytes(n, 8) else LittleEndianBytes(n, 8));
      Hash(a, message) == a.output(Fold(a.compress, a.initial, padded))
    ensures Sized(a) <==> forall s :: |a.output(s)| == a.digestSize
  {
    hide Fold, PadTo64;
    assert forall s :: Output(a, s) == a.output(s);
  }

  /** The digest of a message of at most 55 bytes: one compression. */
  lemma OneBlockDigest<S(!new)>(a: Algorithm<S>, message: bytes)
    requires |message| <= 55
    ensures var n := 8 * |message|;
      var length := if a.bigEndian then BigEndianBytes(n, 8) else LittleEndianBytes(n, 8);
      var block := message + [0x80] + Zeros(55 - |message|) + length;
      Hash(a, message) == a.output(a.compress(a.initial, block))
  {
    hide Fold, PadTo64, BigEndianBytes, LittleEndianBytes, Zeros;
    HashIs(a, message);
    var n := 8 * |message|;
    var length := if a.bigEndian then BigEndianBytes(n, 8) else LittleEndianBytes(n, 8);
    PadShape(message, |message|, length);
    var block := message + [0x80] + Zeros(55 - |message|) + length;
    assert message[|message| - |message|..] == message && message[..|message| - |message|] + block == block;
    FoldOne(a.compress, a.initial, block);
  }

  lemma NextState<S(!new)>(a: Algorithm<S>, data: bytes, block: bytes)
    requires |data| % 64 == 0 && |block| == 64
    ensures StateAfter(a, data + block) == CompressBlock(a, StateAfter(a, data), block)
  {
    FoldNext(a.compress, a.initial, data, block);
  }

  /** The start of the last, partial block of a message. */
  function Whole(n: nat): (w: nat)
    ensures w <= n < w + 64 && w % 64 == 0 && n - w == n % 64
  {
    Divisibility.RoundedDown(n, 64);
    n - n % 64
  }

  lemma WholeIs(n: nat, w: nat)
    requires w <= n < w + 64 && w % 64 == 0
    ensures Whole(n) == w
  {
    Divisibility.ModAddMultiple(n - w, w, 64);
    Divisibility.SmallMod(n - w, 64);
  }

  /** The two-word counter after adding a length: both words wrap. */
  function AddLo(lo: nat, length: nat): nat {
    (lo + length % WORD) % WORD
  }

  function AddHi(lo: nat, hi: nat, length: nat): nat {
    ((if AddLo(lo, length) < lo then (hi + 1) % WORD else hi) + length / WORD) % WORD
  }

  /** The one kind of addition whose overflow the comparison of high words misses: the length
      fills the high word and the low word carries. */
  predicate Missed(lo: nat, length: nat) {
    length / WORD == WORD - 1 && lo + length % WORD >= WORD
  }

  lemma WrapOnce(x: nat)
    requires x < 2 * WORD
    ensures x % WORD == if x < WORD then x else x - WORD
  {
  }

  lemma CounterPieces(lo: nat, hi: nat, length: nat)
    requires lo < WORD && hi < WORD && length < WORD * WORD
    ensures length == length / WORD * WORD + length % WORD && length / WORD < WORD
    ensures AddLo(lo, length) < WORD && AddHi(lo, hi, length) < WORD
    ensures AddLo(lo, length) == if lo + length % WORD < WORD then lo + length % WORD else lo + length % WORD - WORD
    ensures var carry := if lo + length % WORD < WORD then 0 else 1;
      AddHi(lo, hi, length) == (hi + carry + length / WORD) % WORD
  {
    WrapOnce(lo + length % WORD);
    WrapOnce(hi + 1);
    if hi + 1 == WORD {
      WrapOnce(length / WORD);
      WrapOnce(WORD + length / WORD);
    }
  }

  /** The counter is exact modulo 2^64, and the comparison sees an overflow unless it is missed. */
  lemma CounterAdds(lo: nat, hi: nat, length: nat)
    requires lo < WORD && hi < WORD && length < WORD * WORD
    ensures var total := hi * WORD + lo + length;
      && AddLo(lo, length) < WORD && AddHi(lo, hi, length) < WORD
      && AddHi(lo, hi, length) * WORD + AddLo(lo, length) ==
        (if total < WORD * WORD then total else total - WORD * WORD)
      && (AddHi(lo, hi, length) < hi <==> total >= WORD * WORD && !Missed(lo, length))
  {
    hide AddLo, AddHi;
    CounterPieces(lo, hi, length);
    var carry := if lo + length % WORD < WORD then 0 else 1;
    WrapOnce(hi + carry + length / WORD);
  }

  /** One byte and 2^64 - 1 more: the count is back at zero, and no overflow is seen. */
  lemma MissedOverflow()
    ensures var n := WORD * WORD - 1; Missed(1, n) && AddLo(1, n) == 0 && AddHi(1, 0, n) == 0
  {
    var n := WORD * WORD - 1;
    assert n == (WORD - 1) * WORD + (WORD - 1);
    assert n / WORD == WORD - 1 && n % WORD == WORD - 1;
  }

  /** Which bytes of a message are whole blocks and which are left over. */
  ghost predicate Buffered<S(!new)>(a: Algorithm<S>, message: bytes, buffer: bytes, state: S) {
    && |buffer| == 64
    && buffer[..|message| - Whole(|message|)] == message[Whole(|message|)..]
    && state == StateAfter(a, message[..Whole(|message|)])
  }

  /** Only the first bytes of the buffer are part of the message. */
  lemma FreePart<S(!new)>(a: Algorithm<S>, message: bytes, before: bytes, after: bytes, state: S)
    requires Buffered(a, message, before, state) && |after| == 64
    requires before[..|message| % 64] == after[..|message| % 64]
    ensures Buffered(a, message, after, state)
  {
    hide StateAfter;
  }

  /** A piece of a message: input from elsewhere, by word or byte, or bytes that the caller writes into
      the space it was given in the buffer. */
  datatype Piece = Copied(text: bytes, aligned: bool) | InPlace(text: bytes)

  function Texts(pieces: seq<Piece>): (r: seq<bytes>)
    ensures |r| == |pieces| && forall i :: 0 <= i < |r| ==> r[i] == pieces[i].text
  {
    seq(|pieces|, i requires 0 <= i < |pieces| => pieces[i].text)
  }

  /** What is written in place fits the space that is free at that time. */
  ghost predicate FitInPlace(pieces: seq<Piece>) {
    forall i :: 0 <= i < |pieces| && pieces[i].InPlace? ==>
      |Flatten(Texts(pieces)[..i])| % 64 + |pieces[i].text| <= 64
  }

  lemma FitsExactly(pieces: seq<Piece>)
    ensures FitInPlace(pieces) <==>
      forall i :: 0 <= i < |pieces| && pieces[i].InPlace? ==>
        |Flatten(Texts(pieces)[..i])| % 64 + |pieces[i].text| <= 64
  {
  }

  class IteratedHash<S(!new)> {
    const algorithm: Algorithm<S>
    const data: array<byte>
    var state: S
    var countLo: nat
    var countHi: nat

    /** What has been hashed since the last restart. */
    ghost var message: bytes

    ghost predicate Valid()
      reads this, data
    {
      && data.Length == 64
      && countLo < WORD && countHi < WORD && countHi * WORD + countLo == |message|
      && Buffered(algorithm, message, data[..], state)
    }

    constructor (a: Algorithm<S>)
      ensures Valid() && message == [] && algorithm == a && fresh(data)
    {
      algorithm, data := a, new byte[64];
      state, countLo, countHi, message := a.initial, 0, 0, [];
    }

    method Restart()
      requires data.Length == 64
      modifies this
      ensures Valid() && message == []
    {
      countLo, countHi := 0, 0;
      state, message := algorithm.initial, [];
    }

    method HashBlock()
      requires data.Length == 64
      modifies this`state
      ensures state == CompressBlock(algorithm, old(state), data[..])
    {
      state := algorithm.compress(state, data[..]);
    }

    /** Compresses as many whole blocks of the input as there are, straight from the input. */
    method HashMultipleBlocks(input: bytes, ghost before: bytes) returns (leftOver: nat)
      requires |input| >= 64 && |before| % 64 == 0
      requires state == StateAfter(algorithm, before)
      modifies this`state
      ensures |input| - leftOver == Whole(|input|)
      ensures state == StateAfter(algorithm, before + input[..Whole(|input|)])
    {
      hide CompressBlock, StateAfter;
      var at := 0;
      leftOver := |input|;
      assert before + input[..0] == before;
      while true
        invariant at + leftOver == |input| && leftOver >= 64 && at % 64 == 0
        invariant state == StateAfter(algorithm, before + input[..at])
        decreases leftOver
      {
        NextState(algorithm, before + input[..at], input[at..at + 64]);
        assert before + input[..at] + input[at..at + 64] == before + input[..at + 64];
        Compress(input[at..at + 64]);
        at := at + 64;
        leftOver := leftOver - 64;
        if leftOver < 64 {
          WholeIs(|input|, at);
          break;
        }
      }
    }

    method Compress(block: bytes)
      modifies this`state
      ensures state == CompressBlock(algorithm, old(state), block)
    {
      state := algorithm.compress(state, block);
    }

    /** Adds to the counter; `ok` is false where the library throws HashInputTooLong. */
    method Count(length: nat) returns (ok: bool)
      requires countLo < WORD && countHi < WORD && length < WORD * WORD
      modifies this`countLo, this`countHi
      ensures countLo == AddLo(old(countLo), length) && countHi == AddHi(old(countLo), old(countHi), length)
      ensures ok <==> countHi >= old(countHi)
    {
      var oldCountLo, oldCountHi := countLo, countHi;
      countLo := (oldCountLo + length % WORD) % WORD;
      if countLo < oldCountLo {
        countHi := (countHi + 1) % WORD;
      }
      countHi := (countHi + length / WORD) % WORD;
      ok := countHi >= oldCountHi;
    }

    /** Appends input that lies outside the buffer. `aligned` selects between compressing straight
        from the input and copying each block first. A refused addition leaves buffer and state as they were,
        but the counter has gone on, so the object is of no use before a restart. */
    method Update(input: bytes, aligned: bool) returns (ok: bool)
      requires Valid() && |input| < WORD * WORD
      modifies this, data
      ensures ok <==> old(|message|) + |input| < WORD * WORD || Missed(old(countLo), |input|)
      ensures old(|message|) + |input| < WORD * WORD ==> Valid() && message == old(message) + input
      ensures !ok ==>
        && message == old(message) && state == old(state) && data[..] == old(data[..])
        && countHi * 0x1_0000_0000 + countLo == |message| + |input| - 0x1_0000_0000_0000_0000
      ensures input != [] ==>
        countLo == AddLo(old(countLo), |input|) && countHi == AddHi(old(countLo), old(countHi), |input|)
    {
      hide StateAfter, Fold, AddLo, AddHi, Whole, Missed;
      if |input| == 0 {
        assert message + input == message;
        return true;
      }
      var oldCountLo := countLo;
      ghost var oldCountHi := countHi;
      CounterAdds(countLo, countHi, |input|);
      ok := Count(|input|);
      if !ok {
        return;
      }
      ghost var whole := message[..Whole(|message|)];
      ghost var rest := message[Whole(|message|)..] + input;
      NumberBuffered(oldCountLo, oldCountHi);
      assert message + input == whole + rest;
      message := message + input;
      Absorb(input, oldCountLo % 64, aligned, whole, rest);
      StillBuffered(algorithm, message, whole, rest, data[..], state);
    }

    /** The part of Update after counting: `num` bytes are in the buffer, `rest` is what they and
        the input make together. */
    method Absorb(input: bytes, num: nat, aligned: bool, ghost whole: bytes, ghost rest: bytes)
      requires data.Length == 64 && num < 64 && |whole| % 64 == 0
      requires rest == data[..num] + input
      requires state == StateAfter(algorithm, whole)
      modifies this`state, data
      ensures data[..|rest| - Whole(|rest|)] == rest[Whole(|rest|)..]
      ensures state == StateAfter(algorithm, whole + rest[..Whole(|rest|)])
    {
      hide StateAfter, Fold, CompressBlock, Whole;
      var left := input;
      ghost var done := whole;
      if num != 0 {
        if num + |input| >= 64 {
          CopyInto(data, num, input[..64 - num]);
          assert data[..] == rest[..64];
          NextState(algorithm, whole, data[..]);
          HashBlock();
          left := input[64 - num..];
          done := whole + rest[..64];
          assert rest == rest[..64] + left;
        } else {
          CopyInto(data, num, input);
          assert data[..num + |input|] == rest;
          WholeIs(|rest|, 0);
          assert whole + rest[..0] == whole;
          return;
        }
      }
      AbsorbBlocks(left, aligned, done);
      FirstBlockDone(whole, rest, left, if num == 0 then 0 else 64);
    }

    /** Whole blocks of the input, then the leftovers into the empty buffer. */
    method AbsorbBlocks(input: bytes, aligned: bool, ghost done: bytes)
      requires data.Length == 64 && |done| % 64 == 0
      requires state == StateAfter(algorithm, done)
      modifies this`state, data
      ensures data[..|input| - Whole(|input|)] == input[Whole(|input|)..]
      ensures state == StateAfter(algorithm, done + input[..Whole(|input|)])
    {
      hide StateAfter, Fold, CompressBlock, Whole;
      var left := input;
      if |input| >= 64 {
        if aligned {
          var leftOver := HashMultipleBlocks(input, done);
          left := input[|input| - leftOver..];
        } else {
          var at := CopyAndHash(input, done);
          left := input[at..];
        }
      } else {
        WholeIs(|input|, 0);
        assert done + input[..0] == done;
      }
      CopyInto(data, 0, left);
      assert data[..|left|] == left;
    }

    method CopyAndHash(input: bytes, ghost done: bytes) returns (at: nat)
      requires data.Length == 64 && |done| % 64 == 0 && |input| >= 64
      requires state == StateAfter(algorithm, done)
      modifies this`state, data
      ensures at == Whole(|input|)
      ensures state == StateAfter(algorithm, done + input[..at])
    {
      hide StateAfter, Fold, CompressBlock, Whole;
      at := 0;
      assert done + input[..0] == done;
      while true
        invariant at + 64 <= |input| && at % 64 == 0
        invariant state == StateAfter(algorithm, done + input[..at])
        decreases |input| - at
      {
        CopyInto(data, 0, input[at..at + 64]);
        assert data[..] == input[at..at + 64];
        NextState(algorithm, done + input[..at], input[at..at + 64]);
        assert done + input[..at] + input[at..at + 64] == done + input[..at + 64];
        HashBlock();
        at := at + 64;
        if |input| - at < 64 {
          WholeIs(|input|, at);
          break;
        }
      }
    }

    /** The free part of the buffer, which the caller may fill before `UpdateInPlace`. */
    method CreateUpdateSpace() returns (at: nat, size: nat)
      requires Valid()
      ensures at == |message| - Whole(|message|) && at + size == 64 && size > 0
    {
      NumberBuffered(countLo, countHi);
      at := countLo % 64;
      size := 64 - at;
    }

    /** Appends `length` bytes that the caller has written into the free part of the buffer. */
    method UpdateInPlace(length: nat) returns (ok: bool)
      requires Valid() && |message| - Whole(|message|) + length <= 64
      modifies this
      ensures ok <==> old(|message|) + length < WORD * WORD
      ensures ok ==> Valid() && message == old(message + data[|message| - Whole(|message|)..][..length])
      ensures !ok ==>
        && message == old(message) && state == old(state)
        && countHi * 0x1_0000_0000 + countLo == |message| + length - 0x1_0000_0000_0000_0000
    {
      hide StateAfter, Fold, AddLo, AddHi, Whole, Missed, CompressBlock;
      ghost var num0 := |message| - Whole(|message|);
      ghost var input := data[num0..][..length];
      if length == 0 {
        assert message + input == message;
        return true;
      }
      var oldCountLo := countLo;
      NumberBuffered(countLo, countHi);
      CounterAdds(countLo, countHi, length);
      NeverMissed(countLo, length);
      ok := Count(length);
      if !ok {
        return;
      }
      ghost var whole, rest := message[..Whole(|message|)], message[Whole(|message|)..] + input;
      BufferedThenWritten(message, Whole(|message|), data[..], num0, length);
      message := message + input;
      AbsorbInPlace(oldCountLo % 64 + length, whole, rest);
      StillBuffered(algorithm, message, whole, rest, data[..], state);
    }

    /** The part of Update after counting, for input that is already in the buffer. */
    method AbsorbInPlace(filled: nat, ghost whole: bytes, ghost rest: bytes)
      requires data.Length == 64 && filled <= 64 && |whole| % 64 == 0
      requires rest == data[..filled]
      requires state == StateAfter(algorithm, whole)
      modifies this`state
      ensures data[..|rest| - Whole(|rest|)] == rest[Whole(|rest|)..]
      ensures state == StateAfter(algorithm, whole + rest[..Whole(|rest|)])
    {
      hide StateAfter, Fold, CompressBlock, Whole;
      if filled == 64 {
        NextState(algorithm, whole, data[..]);
        HashBlock();
        WholeIs(|rest|, 64);
        assert rest == data[..] && rest[..64] == rest;
      } else {
        WholeIs(|rest|, 0);
        assert whole + rest[..0] == whole && rest[0..] == rest;
      }
    }

    /** One piece of a message, from outside the buffer or written into its free part. */
    method UpdatePiece(piece: Piece) returns (ok: bool)
      requires Valid() && |message| + |piece.text| < WORD * WORD
      requires piece.InPlace? ==> |message| % 64 + |piece.text| <= 64
      modifies this, data
      ensures ok && Valid() && message == old(message) + piece.text
    {
      hide StateAfter, Buffered;
      match piece {
        case Copied(text, aligned) =>
          ok := Update(text, aligned);
        case InPlace(text) =>
          var at, size := CreateUpdateSpace();
          CopyInto(data, at, text);
          FreePart(algorithm, message, old(data[..]), data[..], state);
          assert data[at..][..|text|] == text;
          ok := UpdateInPlace(|text|);
      }
    }

    method Fill(from: nat, to: nat)
      requires from <= to <= data.Length
      modifies data
      ensures data[..] == old(data[..from]) + Zeros(to - from) + old(data[to..])
    {
      CopyInto(data, from, Zeros(to - from));
    }

    /** Ends the message with `padFirst` and zeros up to `lastBlockSize`, in this block or the next. */
    method PadLastBlock(lastBlockSize: nat, padFirst: byte, ghost num0: nat)
      requires data.Length == 64 && lastBlockSize <= 64 && countLo % 64 == num0
      modifies this`state, data
      ensures var start := old(data[..num0]) + [padFirst];
        if num0 < lastBlockSize then
          state == old(state) && data[..lastBlockSize] == start + Zeros(lastBlockSize - num0 - 1)
        else
          && state == CompressBlock(algorithm, old(state), start + Zeros(63 - num0))
          && data[..lastBlockSize] == Zeros(lastBlockSize)
    {
      hide CompressBlock;
      var num := countLo % 64;
      data[num] := padFirst;
      num := num + 1;
      ghost var start := data[..num];
      assert start == old(data[..num0]) + [padFirst];
      if num <= lastBlockSize {
        Fill(num, lastBlockSize);
        assert data[..lastBlockSize] == start + Zeros(lastBlockSize - num);
      } else {
        Fill(num, 64);
        assert data[..] == start + Zeros(64 - num);
        HashBlock();
        Fill(0, lastBlockSize);
        assert data[..lastBlockSize] == Zeros(lastBlockSize);
      }
    }

    /** The digest, truncated to `size` bytes, and a fresh start; None where the size is refused. */
    method TruncatedFinal(size: nat) returns (digest: Option<bytes>)
      requires Valid() && Sized(algorithm)
      modifies this, data
      ensures |Hash(algorithm, old(message))| == algorithm.digestSize
      ensures digest == if size <= algorithm.digestSize then Some(Hash(algorithm, old(message))[..size]) else None
      ensures Valid()
      ensures message == if size <= algorithm.digestSize then [] else old(message)
    {
      hide StateAfter, Fold, Whole, CompressBlock, Output, Pad, LengthField, PadTo64, Zeros;
      DigestSized(algorithm, StateAfter(algorithm, Pad(algorithm, message)));
      if size > algorithm.digestSize {
        return None;
      }
      ghost var r, length := |message| - Whole(|message|), LengthField(algorithm, |message|);
      ghost var buffered := data[..r];
      NumberBuffered(countLo, countHi);
      FinalBlocks(algorithm, message, buffered, r);
      PadLastBlock(56, 0x80, r);
      ghost var padded := data[..56];
      var words := LengthWords();
      CopyInto(data, 56, words);
      assert data[..] == padded + length;
      assert r < 56 ==> data[..] == buffered + [0x80] + Zeros(55 - r) + length;
      HashBlock();
      digest := Some(Output(algorithm, state)[..size]);
      Restart();
    }

    /** The bit count as two words in the byte order of the hash. */
    method LengthWords() returns (words: bytes)
      requires countLo < WORD && countHi < WORD
      ensures words == LengthField(algorithm, countHi * WORD + countLo)
    {
      hide BigEndianBytes, LittleEndianBytes;
      var bitCountLo := countLo * 8 % WORD;
      var bitCountHi := (countLo / 0x2000_0000 + countHi * 8 % WORD) % WORD;
      BitCountBytes(countLo, countHi);
      words := if algorithm.bigEndian then BigEndianBytes(bitCountHi, 4) + BigEndianBytes(bitCountLo, 4)
               else LittleEndianBytes(bitCountLo, 4) + LittleEndianBytes(bitCountHi, 4);
    }
  }

  /** What is buffered and what has been written behind it are the beginning of the buffer. */
  lemma BufferedThenWritten(message: bytes, w: nat, buffer: bytes, num: nat, length: nat)
    requires w <= |message| && num == |message| - w && num + length <= |buffer| && buffer[..num] == message[w..]
    ensures var input := buffer[num..][..length];
      message + input == message[..w] + (message[w..] + input) && message[w..] + input == buffer[..num + length]
  {
  }

  lemma NeverMissed(lo: nat, length: nat)
    requires length <= 64
    ensures !Missed(lo, length)
  {
  }

  lemma DigestSized<S(!new)>(a: Algorithm<S>, s: S)
    requires Sized(a)
    ensures |Output(a, s)| == a.digestSize
  {
  }

  /** The padded message in terms of the `r` buffered bytes. */
  lemma FinalBlocks<S(!new)>(a: Algorithm<S>, message: bytes, buffered: bytes, r: nat)
    requires r == |message| - Whole(|message|) && buffered == message[Whole(|message|)..]
    ensures var length, before := LengthField(a, |message|), StateAfter(a, message[..Whole(|message|)]);
      StateAfter(a, Pad(a, message))
      == if r < 56 then CompressBlock(a, before, buffered + [0x80] + Zeros(55 - r) + length)
         else CompressBlock(a, CompressBlock(a, before, buffered + [0x80] + Zeros(63 - r)), Zeros(56) + length)
  {
    hide StateAfter, CompressBlock, PadTo64, Fold, LengthField, Zeros;
    var length, done := LengthField(a, |message|), message[..Whole(|message|)];
    PadShape(message, r, length);
    if r < 56 {
      NextState(a, done, buffered + [0x80] + Zeros(55 - r) + length);
    } else {
      NextState(a, done, buffered + [0x80] + Zeros(63 - r));
      NextState(a, done + (buffered + [0x80] + Zeros(63 - r)), Zeros(56) + length);
    }
  }

  /** The two words of the bit count, side by side, are eight times the byte count. */
  lemma BitCountWords(lo: nat, hi: nat)
    requires lo < WORD && hi < WORD
    ensures var q := 8 * hi + lo / 0x2000_0000;
      && 8 * (hi * WORD + lo) == q * WORD + lo * 8 % WORD
      && (lo / 0x2000_0000 + hi * 8 % WORD) % WORD == q % WORD
  {
  }

  lemma BitCountBytes(lo: nat, hi: nat)
    requires lo < WORD && hi < WORD
    ensures var bitLo, bitHi := lo * 8 % WORD, (lo / 0x2000_0000 + hi * 8 % WORD) % WORD;
      && BigEndianBytes(8 * (hi * WORD + lo), 8) == BigEndianBytes(bitHi, 4) + BigEndianBytes(bitLo, 4)
      && LittleEndianBytes(8 * (hi * WORD + lo), 8) == LittleEndianBytes(bitLo, 4) + LittleEndianBytes(bitHi, 4)
  {
    hide BigEndianBytes, LittleEndianBytes;
    BitCountWords(lo, hi);
    var q, bitLo := 8 * hi + lo / 0x2000_0000, lo * 8 % WORD;
    SplitWords(q, bitLo);
    ReversedWords(q * WORD + bitLo, q % WORD, bitLo);
  }

  lemma WordModulo(q: nat)
    ensures Low(q, 32) == q % WORD
  {
    hide Low, Shl, Shr, Pow2;
    SmallPowers();
    ShrLow(q, 32);
    ShlIsProduct(Shr(q, 32), 32);
  }

  lemma SplitWords(q: nat, lo: nat)
    requires lo < WORD
    ensures BigEndianBytes(q * WORD + lo, 8) == BigEndianBytes(q % WORD, 4) + BigEndianBytes(lo, 4)
  {
    hide BigEndianBytes, Low;
    var u, v := lo / 0x1_0000, lo % 0x1_0000;
    assert q * WORD + lo == 0x1_0000 * (0x1_0000 * q + u) + v;
    BigEndianTwoMore(0x1_0000 * q + u, v, 6);
    BigEndianTwoMore(q, u, 4);
    BigEndianTwoMore(u, v, 2);
    BigEndianTwoMore(0, u, 0);
    NoBytes(0);
    WordModulo(q);
    BigEndianOfLow(q, 4);
  }

  lemma ReversedWords(n: nat, hi: nat, lo: nat)
    requires BigEndianBytes(n, 8) == BigEndianBytes(hi, 4) + BigEndianBytes(lo, 4)
    ensures LittleEndianBytes(n, 8) == LittleEndianBytes(lo, 4) + LittleEndianBytes(hi, 4)
  {
    hide BigEndianBytes, LittleEndianBytes;
    forall i | 0 <= i < 8
      ensures LittleEndianBytes(n, 8)[i] == (LittleEndianBytes(lo, 4) + LittleEndianBytes(hi, 4))[i]
    {
      LittleIsReversedBig(n, 8, i);
      if i < 4 {
        LittleIsReversedBig(lo, 4, i);
      } else {
        LittleIsReversedBig(hi, 4, i - 4);
      }
    }
  }

  lemma FirstBlockDone(whole: bytes, rest: bytes, left: bytes, k: nat)
    requires k in {0, 64} && k <= |rest| && left == rest[k..]
    ensures |left| - Whole(|left|) == |rest| - Whole(|rest|) && left[Whole(|left|)..] == rest[Whole(|rest|)..]
    ensures whole + rest[..k] + left[..Whole(|left|)] == whole + rest[..Whole(|rest|)]
  {
    WholeIs(|rest|, Whole(|left|) + k);
  }

  lemma NumberBuffered(lo: nat, hi: nat)
    ensures (hi * WORD + lo) % 64 == lo % 64
  {
    var k := hi * 0x400_0000 + lo / 64;
    Divisibility.DivisionUnique(hi * WORD + lo, 64, k, lo % 64);
  }

  lemma StillBuffered<S(!new)>(a: Algorithm<S>, message: bytes, whole: bytes, rest: bytes, buffer: bytes, state: S)
    requires |whole| % 64 == 0 && message == whole + rest && |buffer| == 64
    requires buffer[..|rest| - Whole(|rest|)] == rest[Whole(|rest|)..]
    requires state == StateAfter(a, whole + rest[..Whole(|rest|)])
    ensures Buffered(a, message, buffer, state)
  {
    WholeIs(|message|, |whole| + Whole(|rest|));
    assert message[..Whole(|message|)] == whole + rest[..Whole(|rest|)];
    assert message[Whole(|message|)..] == rest[Whole(|rest|)..];
  }

  lemma {:induction false} FlattenPrefix(pieces: seq<bytes>, i: nat)
    requires i <= |pieces|
    ensures |Flatten(pieces[..i])| <= |Flatten(pieces)|
    decreases |pieces| - i
  {
    if i < |pieces| {
      assert pieces[..i + 1][..i] == pieces[..i];
      FlattenPrefix(pieces, i + 1);
    } else {
      assert pieces[..i] == pieces;
    }
  }

  /** A message in any mixture of pieces has the one-shot hash, and the object is ready for the next. */
  method HashPieces<S(!new)>(h: IteratedHash<S>, pieces: seq<Piece>, size: nat) returns (digest: Option<bytes>)
    requires h.Valid() && h.message == [] && Sized(h.algorithm) && size <= h.algorithm.digestSize
    requires |Flatten(Texts(pieces))| < WORD * WORD && FitInPlace(pieces)
    modifies h, h.data
    ensures |Hash(h.algorithm, Flatten(Texts(pieces)))| == h.algorithm.digestSize
    ensures digest == Some(Hash(h.algorithm, Flatten(Texts(pieces)))[..size])
    ensures h.Valid() && h.message == []
  {
    hide Buffered, Hash, Sized, Missed;
    ghost var texts := Texts(pieces);
    for i := 0 to |pieces|
      invariant h.Valid() && h.message == Flatten(texts[..i])
    {
      assert texts[..i + 1][..i] == texts[..i];
      FlattenPrefix(texts, i + 1);
      var ok := h.UpdatePiece(pieces[i]);
    }
    assert texts[..|pieces|] == texts;
    digest := h.TruncatedFinal(size);
  }
}
