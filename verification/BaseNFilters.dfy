/** The encoder and decoder as filters: bits are packed into a block of digits or bytes, and full
    blocks leave. */
module BaseNFilters {
  import opened Bytes
  import opened Wrappers
  import opened Divisibility
  import opened Powers
  import opened BitWords
  import opened BitStrings
  import opened BaseN

  /** A block of `w`-bit fields holds the bits of `pending`, in order, up to bit `p` of field `k`;
      all bits behind them are clear. */
  ghost predicate Packed(buf: bytes, w: nat, k: nat, p: nat, pending: bits) {
    && p < w && k <= |buf| && (forall i :: 0 <= i < |buf| ==> buf[i] < Pow2(w))
    && |pending| == |Joined(buf[..k], w)| + p
    && |pending| <= |Joined(buf, w)| && Joined(buf, w) == pending + NoBits(|Joined(buf, w)| - |pending|)
  }

  lemma PackedStart(n: nat, w: nat)
    requires w > 0
    ensures Packed(Zeros(n), w, 0, 0, [])
  {
    JoinedZeros(Zeros(n), w);
    assert Zeros(n)[..0] == [];
    PositivePower(w);
  }

  /** The letters of a full block follow those before it. */
  lemma BlockLeaves(alphabet: bytes, done: bits, pending: bits, w: nat, digits: bytes, size: nat)
    requires w > 0 && size > 0 && |done| % w == 0 && |pending| % w == 0 && Groups(pending, w) == digits
    requires |Groups(done, w)| % size == 0 && |digits| == size
    ensures |done + pending| % w == 0 && |Groups(done + pending, w)| % size == 0
    ensures Letters(alphabet, Groups(done + pending, w)) ==
      Letters(alphabet, Groups(done, w)) + Letters(alphabet, digits)
  {
    hide Groups, Letters;
    GroupsConcat(done, pending, w);
    LettersConcat(alphabet, Groups(done, w), digits);
    SumOfMultiples(|done|, |pending|, w);
    Whole(size);
    SumOfMultiples(|Groups(done, w)|, |digits|, size);
  }

  /** A field in the middle of a block. */
  lemma PackedParts(buf: bytes, w: nat, k: nat, p: nat, pending: bits)
    requires Packed(buf, w, k, p, pending) && k < |buf|
    ensures pending == Joined(buf[..k], w) + BitsOf(buf[k], w)[..p]
    ensures BitsOf(buf[k], w)[p..] == NoBits(w - p)
    ensures Joined(buf[k + 1..], w) == NoBits(|Joined(buf[k + 1..], w)|)
  {
    hide Joined, BitsOf, NoBits, Pow2;
    JoinedAround(buf, w, k);
    var all, front, field, rest := Joined(buf, w), Joined(buf[..k], w), BitsOf(buf[k], w), Joined(buf[k + 1..], w);
    assert all[..|pending|] == pending;
    assert all[|front| + p..|front| + w] == field[p..];
    assert all[|front| + w..] == rest;
  }

  /** Writing bits behind the pending ones, within one field. */
  lemma PackedWrite(buf: bytes, w: nat, k: nat, p: nat, pending: bits, x: nat, len: nat)
    requires Packed(buf, w, k, p, pending) && k < |buf| && w <= 8 && x < Pow2(len) && 0 < len && p + len <= w
    ensures Shl(x, w - p - len) >= 0 && Or(buf[k], Shl(x, w - p - len), 8) < 256
    ensures var full := p + len == w;
      var now := buf[k := Or(buf[k], Shl(x, w - p - len), 8)];
      Packed(now, w, if full then k + 1 else k, if full then 0 else p + len, pending + BitsOf(x, len))
  {
    hide Joined, BitsOf, NoBits, Pow2, Or, Shl;
    PackedParts(buf, w, k, p, pending);
    WriteBits(buf[k], w, p, x, len);
    Pow2Monotone(w, 8);
    SmallPowers();
    var v: byte := Or(buf[k], Shl(x, w - p - len), 8);
    var now := buf[k := v];
    JoinedAround(buf, w, k);
    JoinedAround(now, w, k);
    assert now[..k] == buf[..k] && now[k + 1..] == buf[k + 1..];
    var front, rest := Joined(buf[..k], w), Joined(buf[k + 1..], w);
    var more := pending + BitsOf(x, len);
    assert Joined(now, w) == more + (NoBits(w - p - len) + rest);
    assert NoBits(w - p - len) + rest == NoBits(|Joined(now, w)| - |more|);
    if p + len == w {
      assert now[..k + 1] == buf[..k] + [v];
      JoinedConcat(buf[..k], [v], w);
      JoinedOne(v, w);
    }
  }

  /** A block whose fields are all written holds exactly the pending bits. */
  lemma PackedFull(buf: bytes, w: nat, pending: bits)
    requires Packed(buf, w, |buf|, 0, pending)
    ensures Groups(pending, w) == buf && |pending| == |Joined(buf, w)| && |pending| % w == 0
  {
    hide Joined, BitsOf, Pow2, Groups;
    assert buf[..|buf|] == buf;
    assert Joined(buf, w) + [] == pending;
    GroupsOfJoined(buf, w, []);
    JoinedLength(buf, w);
    MultipleHasNoRest(w, |buf|);
  }

  /** The fields written so far, and a last partial one. */
  lemma PackedPartly(buf: bytes, w: nat, k: nat, p: nat, pending: bits)
    requires Packed(buf, w, k, p, pending)
    ensures p > 0 ==> k < |buf|
    ensures Groups(pending, w) == buf[..k]
    ensures p > 0 ==> Groups(pending + NoBits(w - p), w) == buf[..k + 1]
    ensures (|pending| - p) % w == 0
  {
    hide Joined, BitsOf, Pow2, Groups, NoBits;
    JoinedLength(buf[..k], w);
    MultipleHasNoRest(w, k);
    if k == |buf| {
      assert buf[..k] == buf;
      assert pending == Joined(buf, w) + [];
      GroupsOfJoined(buf, w, []);
    } else {
      PackedParts(buf, w, k, p, pending);
      GroupsOfJoined(buf[..k], w, BitsOf(buf[k], w)[..p]);
      if p > 0 {
        assert buf[..k + 1] == buf[..k] + [buf[k]];
        JoinedConcat(buf[..k], [buf[k]], w);
        JoinedOne(buf[k], w);
        var field := BitsOf(buf[k], w);
        assert field == field[..p] + field[p..];
        assert pending + NoBits(w - p) == Joined(buf[..k + 1], w) + [];
        GroupsOfJoined(buf[..k + 1], w, []);
      }
    }
  }

  lemma RoomLeft(buf: bytes, w: nat, k: nat, p: nat, pending: bits)
    requires Packed(buf, w, k, p, pending) && |pending| < w * |buf|
    ensures k < |buf|
  {
    hide Joined, BitsOf, NoBits, Pow2;
    JoinedLength(buf, w);
    assert buf[..|buf|] == buf;
  }

  /** The first `len` of `s` bits that stand at the top of a byte, moved to the bottom of a field. */
  lemma TopBits(b: nat, s: nat, t: nat)
    requires b < 256 && 0 < s <= 8 && 0 < t <= 8 && BitsOf(b, 8)[s..] == NoBits(8 - s)
    ensures var len := if s >= t then t else s;
      && Shr(b, 8 - len) < Pow2(len) && BitsOf(Shr(b, 8 - len), len) == BitsOf(b, 8)[..len]
      && Shl(Shr(b, 8 - len), t - len) == Shr(b, 8 - t)
  {
    hide BitsOf, NoBits, Shr, Shl, Low, Pow2;
    var len := if s >= t then t else s;
    BitsSplit(b, len, 8 - len);
    SmallPowers();
    TopBound(b, len, 8 - len);
    if s < t {
      ClearLow(b, s, 8 - s);
      ShrLow(b, 8 - s);
      MovedBack(Shr(b, 8 - s), t - s, 8 - t);
    } else {
      ShiftByNothing(Shr(b, 8 - t));
    }
  }

  lemma ShiftByNothing(n: nat)
    ensures Shl(n, 0) == n
  {
  }

  lemma MovedBack(x: nat, j: nat, k: nat)
    ensures Shl(x, j) >= 0 && Shl(x, j + k) >= 0 && Shr(Shl(x, j + k), k) == Shl(x, j)
  {
    hide Shl, Shr, Low, Pow2;
    ShlNat(x, j);
    ShlNat(x, j + k);
    ShlShl(x, j, k);
    ShrLow(Shl(x, j + k), k);
    LowDropsMultiple(0, Shl(x, j), k);
    PositivePower(k);
    LowOfSmall(0, k);
    Cancel(Shr(Shl(x, j + k), k), Shl(x, j), k);
  }

  lemma Cancel(m: nat, n: nat, k: nat)
    requires Shl(m, k) == Shl(n, k)
    ensures m == n
  {
    if m < n {
      ShlMonotone(m, n, k);
    } else if n < m {
      ShlMonotone(n, m, k);
    }
  }

  /** The rest of a byte, moved to the top. */
  lemma RestOfByte(b: nat, t: nat)
    requires b < 256 && 0 < t <= 8
    ensures Shl(b, t) >= 0 && Low(Shl(b, t), 8) < 256
    ensures BitsOf(Low(Shl(b, t), 8), 8) == BitsOf(b, 8)[t..] + NoBits(t)
  {
    hide BitsOf, NoBits, Shr, Shl, Low, Pow2;
    ShlNat(b, t);
    SmallPowers();
    ShrLow(Shl(b, t), 8);
    BitsSplit(b, t, 8 - t);
    BitsSplit(Shl(b, t), 0, 8);
    PositivePower(t);
    BitsSideBySide(b, 0, 8 - t, t);
    ZeroBits(t);
  }

  class Encoder {
    const alphabet: bytes
    const bitsPerChar: nat
    const padding: Option<byte>
    const outputBlockSize: nat
    const outBuf: array<byte>
    var bytePos: nat
    var bitPos: nat

    /** What the attached sink has received. */
    var output: bytes

    /** The bytes of the current message, the bits that have left and those in the block, and the
        output before the message. */
    ghost var message: bytes
    ghost var done: bits
    ghost var pending: bits
    ghost var startOutput: bytes

    ghost predicate Set() {
      && 1 <= bitsPerChar <= 7 && |alphabet| == Pow2(bitsPerChar)
      && outputBlockSize == OutputBlockSize(bitsPerChar) == outBuf.Length
    }

    /** The block holds the pending bits; at the start of a block it may hold anything. */
    ghost predicate Held()
      reads this`pending, this`bytePos, this`bitPos, outBuf
    {
      if pending == [] then bytePos == bitPos == 0 else Packed(outBuf[..], bitsPerChar, bytePos, bitPos, pending)
    }

    ghost predicate Left()
      reads this`done, this`output, this`startOutput
    {
      && 1 <= bitsPerChar && outputBlockSize > 0 && |done| % bitsPerChar == 0
      && output == startOutput + Letters(alphabet, Groups(done, bitsPerChar))
      && |Groups(done, bitsPerChar)| % outputBlockSize == 0
    }

    ghost predicate Valid()
      reads this, outBuf
    {
      && Set() && Held() && Left()
      && |pending| % 8 == 0 && |pending| < bitsPerChar * outputBlockSize
      && done + pending == Joined(message, 8)
    }

    /** One round of the inner loop: as many bits of the source as the current letter has room for. */
    method PackBits(b: nat, s: nat) returns (left: nat)
      requires Set() && Packed(outBuf[..], bitsPerChar, bytePos, bitPos, pending)
      requires |pending| < bitsPerChar * outputBlockSize
      requires b < 256 && 0 < s <= 8 && BitsOf(b, 8)[s..] == NoBits(8 - s)
      modifies this`bytePos, this`bitPos, this`pending, outBuf
      ensures Packed(outBuf[..], bitsPerChar, bytePos, bitPos, pending)
      ensures var t := bitsPerChar - old(bitPos);
        && left == (if s >= t then s - t else 0)
        && pending == old(pending) + BitsOf(b, 8)[..s - left]
    {
      hide Packed, BitsOf, NoBits, Shr, Shl, Low, Pow2, Or;
      InBlock();
      var t := bitsPerChar - bitPos;
      ghost var len := if s >= t then t else s;
      TopBits(b, s, t);
      PackedWrite(outBuf[..], bitsPerChar, bytePos, bitPos, pending, Shr(b, 8 - len), len);
      ghost var before := outBuf[..];
      outBuf[bytePos] := Or(outBuf[bytePos], Shr(b, 8 - t), 8);
      assert outBuf[..] == before[bytePos := outBuf[bytePos]];
      pending := pending + BitsOf(b, 8)[..len];
      if s >= t {
        bitPos := 0;
        bytePos := bytePos + 1;
        left := s - t;
      } else {
        bitPos := bitPos + s;
        left := 0;
      }
    }

    lemma InBlock()
      requires Set() && Packed(outBuf[..], bitsPerChar, bytePos, bitPos, pending)
      requires |pending| < bitsPerChar * outputBlockSize
      ensures bytePos < outBuf.Length && bitPos < bitsPerChar
    {
      hide Pow2, Joined, NoBits;
      RoomLeft(outBuf[..], bitsPerChar, bytePos, bitPos, pending);
    }

    /** The eight bits of a byte. */
    method PackByte(source: byte)
      requires Set() && Packed(outBuf[..], bitsPerChar, bytePos, bitPos, pending)
      requires |pending| + 8 <= bitsPerChar * outputBlockSize
      modifies this`bytePos, this`bitPos, this`pending, outBuf
      ensures Packed(outBuf[..], bitsPerChar, bytePos, bitPos, pending)
      ensures pending == old(pending) + BitsOf(source, 8)
    {
      hide Packed, BitsOf, NoBits, Shr, Shl, Low, Pow2, Or;
      var b: nat, bitsLeftInSource: nat := source, 8;
      assert BitsOf(b, 8)[..8] == BitsOf(b, 8) && BitsOf(b, 8)[8..] == NoBits(0);
      while true
        invariant Packed(outBuf[..], bitsPerChar, bytePos, bitPos, pending)
        invariant 0 < bitsLeftInSource <= 8 && b < 256
          && BitsOf(b, 8)[bitsLeftInSource..] == NoBits(8 - bitsLeftInSource)
        invariant pending + BitsOf(b, 8)[..bitsLeftInSource] == old(pending) + BitsOf(source, 8)
        decreases bitsLeftInSource
      {
        InBlock();
        var bitsLeftInTarget := bitsPerChar - bitPos;
        ghost var src := BitsOf(b, 8)[..bitsLeftInSource];
        var left := PackBits(b, bitsLeftInSource);
        if left == 0 {
          assert src[..bitsLeftInSource] == src;
          break;
        }
        RestOfByte(b, bitsLeftInTarget);
        ghost var rest := BitsOf(b, 8)[bitsLeftInTarget..] + NoBits(bitsLeftInTarget);
        assert rest[..left] == src[bitsLeftInTarget..];
        assert src == src[..bitsLeftInTarget] + src[bitsLeftInTarget..];
        assert rest[left..] == NoBits(8 - left);
        b := Low(Shl(b, bitsLeftInTarget), 8);
        bitsLeftInSource := left;
      }
    }

    constructor (letters: bytes, w: nat, pad: Option<byte>)
      requires 1 <= w <= 7 && |letters| == Pow2(w)
      ensures Valid() && message == [] && output == [] && startOutput == [] && fresh(outBuf)
      ensures alphabet == letters && bitsPerChar == w && padding == pad
    {
      hide Pow2;
      alphabet, bitsPerChar, padding := letters, w, pad;
      outputBlockSize := OutputBlockSize(w);
      outBuf := new byte[OutputBlockSize(w)];
      bytePos, bitPos, output := 0, 0, [];
      message, done, pending, startOutput := [], [], [], [];
      new;
      NothingLeft(letters, w, OutputBlockSize(w));
    }

    /** memset of the block. */
    method ClearBlock()
      requires Set()
      modifies outBuf
      ensures outBuf[..] == Zeros(outputBlockSize)
    {
      hide Pow2;
      for i := 0 to outBuf.Length
        invariant forall j :: 0 <= j < i ==> outBuf[j] == 0
      {
        outBuf[i] := 0;
      }
    }

    /** Replaces the first digits of the block by letters. */
    method Translate(n: nat)
      requires n <= outBuf.Length && forall i :: 0 <= i < n ==> outBuf[i] < |alphabet|
      modifies outBuf
      ensures outBuf[..n] == Letters(alphabet, old(outBuf[..n]))
    {
      for i := 0 to n
        invariant forall j :: 0 <= j < i ==> outBuf[j] == alphabet[old(outBuf[j])]
        invariant forall j :: i <= j < outBuf.Length ==> outBuf[j] == old(outBuf[j])
      {
        outBuf[i] := alphabet[outBuf[i]];
      }
    }

    /** A position in the first letter means that the block is empty, since a byte has more bits than a letter. */
    lemma StartOfBlock()
      requires Valid()
      ensures bytePos == 0 <==> pending == []
      ensures |pending| + 8 <= bitsPerChar * outputBlockSize
    {
      hide Pow2, NoBits, Left;
      if pending != [] && bytePos == 0 {
        assert outBuf[..0] == [];
      }
      OutputBlockIsLeast(bitsPerChar);
    }

    /** One byte of input. */
    method PutByte(source: byte)
      requires Valid()
      modifies this, outBuf
      ensures Valid() && message == old(message) + [source] && startOutput == old(startOutput)
    {
      hide Packed, BitsOf, NoBits, Pow2, Left, Joined, OutputBlockSize;
      AddByte(source);
      if bytePos == outputBlockSize {
        Flush();
        NothingLeft(alphabet, bitsPerChar, outputBlockSize);
        assert done + [] == done;
      } else {
        NotFull();
      }
    }

    method AddByte(source: byte)
      requires Valid()
      modifies this`bytePos, this`bitPos, this`pending, this`message, outBuf
      ensures message == old(message) + [source]
      ensures Set() && Packed(outBuf[..], bitsPerChar, bytePos, bitPos, pending) && |pending| % 8 == 0 && pending != []
      ensures done + pending == Joined(message, 8)
    {
      hide Packed, BitsOf, NoBits, Pow2, Left, Joined, OutputBlockSize;
      StartOfBlock();
      if bytePos == 0 {
        ClearBlock();
        PackedStart(outputBlockSize, bitsPerChar);
      }
      ghost var before := pending;
      PackByte(source);
      JoinedConcat(message, [source], 8);
      JoinedOne(source, 8);
      assert done + before + BitsOf(source, 8) == done + pending;
      message := message + [source];
    }

    lemma NotFull()
      requires Set() && Packed(outBuf[..], bitsPerChar, bytePos, bitPos, pending) && bytePos != outputBlockSize
      ensures |pending| < bitsPerChar * outputBlockSize
    {
      hide Pow2, NoBits, BitsOf;
      JoinedAround(outBuf[..], bitsPerChar, bytePos);
      JoinedLength(outBuf[..], bitsPerChar);
    }

    /** A full block leaves. */
    method Flush()
      requires Set() && Left() && bytePos == outputBlockSize
      requires Packed(outBuf[..], bitsPerChar, bytePos, bitPos, pending)
      modifies this`bytePos, this`bitPos, this`output, this`done, this`pending, outBuf
      ensures Set() && Left() && Held() && pending == [] && done == old(done + pending)
      ensures |pending| < bitsPerChar * outputBlockSize
    {
      hide Packed, BitsOf, NoBits, Joined, OutputBlockSize, Groups, Letters, Pow2;
      FullBlock();
      ghost var digits := outBuf[..];
      PackedFull(digits, bitsPerChar, pending);
      BlockLeaves(alphabet, done, pending, bitsPerChar, digits, outputBlockSize);
      DigitsInAlphabet(digits, bytePos, bitPos);
      Translate(bytePos);
      assert outBuf[..bytePos] == outBuf[..] && old(outBuf[..bytePos]) == digits;
      assert startOutput + Letters(alphabet, Groups(done, bitsPerChar)) + outBuf[..]
        == startOutput + (Letters(alphabet, Groups(done, bitsPerChar)) + outBuf[..]);
      output := output + outBuf[..];
      done, pending := done + pending, [];
      bytePos, bitPos := 0, 0;
    }

    lemma DigitsInAlphabet(digits: bytes, k: nat, p: nat)
      requires Set() && Packed(digits, bitsPerChar, k, p, pending)
      ensures forall i :: 0 <= i < |digits| ==> digits[i] < |alphabet|
    {
      hide Pow2, BitsOf, NoBits, Joined;
    }

    lemma FullBlock()
      requires Set() && Packed(outBuf[..], bitsPerChar, bytePos, bitPos, pending) && bytePos == outputBlockSize
      ensures bitPos == 0 && outputBlockSize > 0 && bitsPerChar * outputBlockSize > 0
    {
      hide Pow2, BitsOf, NoBits;
      assert outBuf[..bytePos] == outBuf[..];
      OutputBlockIsLeast(bitsPerChar);
    }

    /** The end of a message: the last digits, and padding up to the end of the block. */
    method EndMessage()
      requires Valid()
      modifies this, outBuf
      ensures Valid() && message == [] && startOutput == output
      ensures output == old(startOutput) + Encoded(alphabet, bitsPerChar, padding, old(message))
    {
      hide Packed, BitsOf, NoBits, Pow2, Joined, Groups, OutputBlockSize, DigitsOf, Letters, Missing, Repeated;
      hide LastBlock;
      ghost var digits := Groups(pending + NoBits(Missing(|pending|, bitsPerChar)), bitsPerChar);
      EndDigits(message, done, pending, bitsPerChar);
      LastDigits(digits);
      EncodedInParts(alphabet, bitsPerChar, padding, message, Groups(done, bitsPerChar), digits);
      CompleteBlock(digits);
      output := output + outBuf[..bytePos];
      ghost var all := Letters(alphabet, Groups(done, bitsPerChar)) + outBuf[..bytePos];
      assert output == startOutput + all;
      Reset();
    }

    method Reset()
      requires Set()
      modifies this
      ensures Valid() && message == [] && startOutput == output == old(output)
    {
      hide Packed, NoBits, Pow2, Joined, Groups, OutputBlockSize, Letters;
      message, done, pending, startOutput := [], [], [], output;
      bytePos, bitPos := 0, 0;
      SizePositive();
      NothingLeft(alphabet, bitsPerChar, outputBlockSize);
      assert startOutput + [] == startOutput;
    }

    lemma SizePositive()
      requires Set()
      ensures outputBlockSize > 0
    {
    }

    /** The last letters, and the padding that completes their block. */
    method CompleteBlock(ghost digits: seq<nat>)
      requires Set() && bytePos <= outBuf.Length && (bitPos > 0 ==> bytePos < outBuf.Length)
      requires var n := if bitPos > 0 then bytePos + 1 else bytePos;
        outBuf[..n] == digits && forall i :: 0 <= i < n ==> outBuf[i] < |alphabet|
      modifies this`bytePos, outBuf
      ensures bytePos <= outBuf.Length && |digits| <= outputBlockSize
      ensures outBuf[..bytePos] == LastBlock(alphabet, padding, digits, outputBlockSize)
    {
      hide Pow2, OutputBlockSize, Letters, Repeated;
      if bitPos > 0 {
        bytePos := bytePos + 1;
      }
      Translate(bytePos);
      if padding.Some? && bytePos > 0 {
        Fill(bytePos, padding.value);
        bytePos := outputBlockSize;
        assert outBuf[..bytePos] == outBuf[..];
      }
    }

    /** The digits in the block, the last one completed by zeros. */
    lemma LastDigits(digits: seq<nat>)
      requires Valid() && digits == Groups(pending + NoBits(Missing(|pending|, bitsPerChar)), bitsPerChar)
      ensures var n := if bitPos > 0 then bytePos + 1 else bytePos;
        n <= outBuf.Length && outBuf[..n] == digits && forall i :: 0 <= i < n ==> outBuf[i] < |alphabet|
      ensures outputBlockSize > 0
    {
      hide BitsOf, Joined, Pow2, Groups, Left, NoBits;
      if pending == [] {
        NothingLeft(alphabet, bitsPerChar, outputBlockSize);
        assert [] + NoBits(Missing(0, bitsPerChar)) == [];
      } else {
        RestOfPending(pending, bitsPerChar, bytePos, bitPos, outBuf[..]);
      }
    }

    method Fill(from: nat, value: byte)
      requires from <= outBuf.Length
      modifies outBuf
      ensures outBuf[..] == old(outBuf[..from]) + Repeated(value, outBuf.Length - from)
    {
      for i := from to outBuf.Length
        invariant forall j :: 0 <= j < outBuf.Length ==> outBuf[j] == if from <= j < i then value else old(outBuf[j])
      {
        outBuf[i] := value;
      }
    }

    /** One write, which may also end the message. */
    method Put2(input: bytes, messageEnd: bool)
      requires Valid()
      modifies this, outBuf
      ensures Valid()
      ensures !messageEnd ==> message == old(message) + input && startOutput == old(startOutput)
      ensures messageEnd ==>
        && message == [] && startOutput == output
        && output == old(startOutput) + Encoded(alphabet, bitsPerChar, padding, old(message) + input)
    {
      hide Valid, Encoded;
      var inputPosition := 0;
      assert message + input[..0] == message;
      while inputPosition < |input|
        invariant inputPosition <= |input|
        invariant Valid() && message == old(message) + input[..inputPosition] && startOutput == old(startOutput)
      {
        PutByte(input[inputPosition]);
        inputPosition := inputPosition + 1;
      }
      assert input[..inputPosition] == input;
      if messageEnd {
        WidthInRange();
        EndMessage();
      }
    }

    lemma WidthInRange()
      requires Valid()
      ensures 1 <= bitsPerChar <= 7
    {
    }
  }

  lemma NoRepeated()
    ensures forall b: byte :: Repeated(b, 0) == []
  {
  }

  /** The letters of the last block, with padding to its end if there are letters at all. */
  function LastBlock(alphabet: bytes, padding: Option<byte>, digits: seq<nat>, size: nat): bytes
    requires |digits| <= size
  {
    if padding.Some? && digits != [] then Letters(alphabet, digits) + Repeated(padding.value, size - |digits|)
    else Letters(alphabet, digits)
  }

  lemma EncodedInParts(alphabet: bytes, w: nat, padding: Option<byte>, message: bytes, x: seq<nat>, y: seq<nat>)
    requires 1 <= w <= 7 && DigitsOf(message, w) == x + y
    requires |x| % OutputBlockSize(w) == 0 && |y| <= OutputBlockSize(w)
    ensures Encoded(alphabet, w, padding, message) ==
      Letters(alphabet, x) + LastBlock(alphabet, padding, y, OutputBlockSize(w))
  {
    hide DigitsOf, OutputBlockSize, Letters, Missing, Repeated;
    Positive(w);
    LettersConcat(alphabet, x, y);
    EndPadding(|x|, |y|, OutputBlockSize(w));
    if padding.Some? {
      NoRepeated();
      var pad := Repeated(padding.value, Missing(|x + y|, OutputBlockSize(w)));
      assert Letters(alphabet, x) + Letters(alphabet, y) + pad == Letters(alphabet, x) + (Letters(alphabet, y) + pad);
      if y == [] {
        assert Letters(alphabet, y) + [] == Letters(alphabet, y);
      }
    }
  }

  lemma Positive(w: nat)
    ensures OutputBlockSize(w) > 0
  {
  }

  lemma EndPadding(total: nat, n: nat, size: nat)
    requires size > 0 && total % size == 0 && n <= size
    ensures Missing(total + n, size) == if n == 0 then 0 else size - n
  {
    if n == size {
      Whole(size);
      SumOfMultiples(total, size, size);
    } else {
      SameMissing(total, n, size);
    }
  }

  lemma RestOfPending(pending: bits, w: nat, k: nat, p: nat, buf: bytes)
    requires Packed(buf, w, k, p, pending)
    ensures var n := if p > 0 then k + 1 else k;
      n <= |buf| && Groups(pending + NoBits(Missing(|pending|, w)), w) == buf[..n]
  {
    hide Joined, BitsOf, NoBits, Pow2, Groups;
    PackedPartly(buf, w, k, p, pending);
    LastPart(|pending|, p, w);
    if p == 0 {
      assert pending + NoBits(0) == pending;
    }
  }

  lemma LastPart(n: nat, p: nat, w: nat)
    requires p < w && n >= p && (n - p) % w == 0
    ensures Missing(n, w) == if p == 0 then 0 else w - p
  {
    var q := (n - p) / w;
    assert n == w * q + p;
    DivisionUnique(n, w, q, p);
  }

  /** What has left and what is in the block are the digits of the message. */
  lemma EndDigits(message: bytes, done: bits, pending: bits, w: nat)
    requires w > 0 && |done| % w == 0 && done + pending == Joined(message, 8)
    ensures DigitsOf(message, w) == Groups(done, w) + Groups(pending + NoBits(Missing(|pending|, w)), w)
  {
    hide Joined, NoBits, Groups, Missing;
    SameMissing(|done|, |pending|, w);
    CompletedGroups(done, pending, NoBits(Missing(|pending|, w)), w);
  }

  lemma CompletedGroups(done: bits, pending: bits, z: bits, w: nat)
    requires w > 0 && |done| % w == 0
    ensures Groups(done + pending + z, w) == Groups(done, w) + Groups(pending + z, w)
  {
    hide Groups;
    assert done + pending + z == done + (pending + z);
    GroupsConcat(done, pending + z, w);
  }

  lemma SameMissing(x: nat, y: nat, w: nat)
    requires w > 0 && x % w == 0
    ensures Missing(x + y, w) == Missing(y, w)
  {
    var p, q, r := x / w, y / w, y % w;
    assert x + y == w * (p + q) + r;
    DivisionUnique(x + y, w, p + q, r);
  }

  lemma NothingLeft(alphabet: bytes, w: nat, size: nat)
    requires w > 0 && size > 0
    ensures Groups([], w) == [] && Letters(alphabet, []) == [] && Joined([], 8) == [] && 0 % w == 0 % size == 0
    ensures w * size > 0
  {
  }
}
