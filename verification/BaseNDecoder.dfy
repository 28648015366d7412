/** The decoder as a filter: digits are packed into a block of bytes, letters without a digit are
    skipped, and full blocks leave. */
module BaseNDecoders {
  import opened Bytes
  import opened Divisibility
  import opened Powers
  import opened BitWords
  import opened BitStrings
  import opened BaseN
  import opened BaseNFilters

  /** One bit string laid over another. */
  function OrBits(x: bits, y: bits): (r: bits)
    requires |x| == |y|
    ensures |r| == |x| && forall i :: 0 <= i < |r| ==> r[i] == (x[i] || y[i])
  {
    seq(|x|, i requires 0 <= i < |x| == |y| => x[i] || y[i])
  }

  lemma {:induction false} BitsOfOr(x: nat, y: nat, w: nat)
    ensures BitsOf(Or(x, y, w), w) == OrBits(BitsOf(x, w), BitsOf(y, w))
  {
    if w > 0 {
      BitsOfOr(x / 2, y / 2, w - 1);
      var b := Bit(OR, x % 2, y % 2);
      assert Or(x, y, w) == b + 2 * Or(x / 2, y / 2, w - 1);
      assert Or(x, y, w) / 2 == Or(x / 2, y / 2, w - 1) && Or(x, y, w) % 2 == b;
    }
  }

  /** `value` behind the bits `b`, with `w` bits of its own: what exceeds them is laid over the bits of
      the byte that has been begun. */
  function Behind(b: bits, value: nat, w: nat): (r: bits)
    ensures |r| == |b| + w
  {
    var k := |b| - |b| % 8;
    b[..k] + OrBits(b[k..], BitsOf(Shr(value, w), |b| % 8)) + BitsOf(value, w)
  }

  /** Bit by bit: the digit's low `w` bits follow, and those above them fall onto the bits of the byte that
      is not yet full. */
  lemma BehindBits(b: bits, value: nat, w: nat)
    ensures |Behind(b, value, w)| == |b| + w
    ensures forall i :: 0 <= i < |b| ==>
      (Behind(b, value, w)[i] <==> b[i] || (i / 8 == |b| / 8 && GetBit(value, w + |b| - 1 - i)))
    ensures forall i :: |b| <= i < |b| + w ==> (Behind(b, value, w)[i] <==> GetBit(value, w + |b| - 1 - i))
  {
    hide GetBit, BitsOf, Shr;
    var m := |b| % 8;
    var k := |b| - m;
    assert forall i :: 0 <= i < |b| ==> (i / 8 == |b| / 8 <==> i >= k);
    forall i | 0 <= i < m
      ensures BitsOf(Shr(value, w), m)[i] <==> GetBit(value, w + |b| - 1 - (k + i))
    {
      BitAt(Shr(value, w), m, i);
      BitOfShr(value, w, m - 1 - i);
    }
    forall i | 0 <= i < w
      ensures BitsOf(value, w)[i] <==> GetBit(value, w - 1 - i)
    {
      BitAt(value, w, i);
    }
  }

  /** The bits of some digits, for a table whose digits may exceed the width. */
  function Overlaid(digits: seq<nat>, w: nat): (r: bits)
    ensures |r| == w * |digits|
  {
    if digits == [] then []
    else
      Distribute(w, |digits| - 1, 1);
      Behind(Overlaid(digits[..|digits| - 1], w), digits[|digits| - 1], w)
  }

  /** What the decoder makes of some letters, whatever its table. */
  function Unpacked(lookup: seq<int>, w: nat, letters: bytes): bytes
    requires |lookup| == 256
  {
    Octets(Overlaid(Digits(lookup, letters), w))
  }

  lemma OverlaidNext(digits: seq<nat>, d: nat, w: nat)
    ensures Overlaid([], w) == [] && Overlaid(digits + [d], w) == Behind(Overlaid(digits, w), d, w)
  {
    hide Behind;
    assert (digits + [d])[..|digits|] == digits;
  }

  /** The bits of the decoder's output: those of the digits found, in whole bytes. */
  lemma UnpackedBits(lookup: seq<int>, w: nat, letters: bytes, k: nat, i: nat)
    requires |lookup| == 256 && i < 8
    ensures var b := Overlaid(Digits(lookup, letters), w);
      && (k < |b| / 8 ==> |Unpacked(lookup, w, letters)| == |b| / 8)
      && (k < |b| / 8 ==> (GetBit(Unpacked(lookup, w, letters)[k], 7 - i) <==> b[8 * k + i]))
  {
    hide Overlaid, Octets, GetBit, Digits;
    var b := Overlaid(Digits(lookup, letters), w);
    if k < |b| / 8 {
      OctetBits(b, k, i);
    }
  }

  /** Digits that fit the width do not overlap. */
  lemma {:induction false} FittingDigits(digits: seq<nat>, w: nat)
    requires forall i :: 0 <= i < |digits| ==> digits[i] < Pow2(w)
    ensures Overlaid(digits, w) == Joined(digits, w)
  {
    hide Pow2, BitsOf, Joined, Shr;
    if digits == [] {
      NoValuesJoined(w);
    } else {
      var front, last := digits[..|digits| - 1], digits[|digits| - 1];
      FittingDigits(front, w);
      JoinedConcat(front, [last], w);
      JoinedOne(last, w);
      assert digits == front + [last];
      FittingBehind(Joined(front, w), last, w);
    }
  }

  lemma NoValuesJoined(w: nat)
    ensures Joined([], w) == []
  {
  }

  lemma FittingBehind(b: bits, value: nat, w: nat)
    requires value < Pow2(w)
    ensures Behind(b, value, w) == b + BitsOf(value, w)
  {
    hide Pow2, BitsOf, Shr;
    TopBound(value, 0, w);
    PowZero();
    ZeroBits(|b| % 8);
    var k := |b| - |b| % 8;
    assert OrBits(b[k..], NoBits(|b| % 8)) == b[k..];
  }

  /** Whole bytes in front make no difference. */
  lemma BehindBytes(done: bits, b: bits, value: nat, w: nat)
    requires |done| % 8 == 0
    ensures Behind(done + b, value, w) == done + Behind(b, value, w)
  {
    hide BitsOf, Shr, OrBits;
    var all, p := done + b, |b| % 8;
    ModAddMultiple(|b|, |done|, 8);
    var k := |b| - p;
    assert |all| - |all| % 8 == |done| + k;
    assert all[..|done| + k] == done + b[..k] && all[|done| + k..] == b[k..];
    Regrouped(done, b[..k], OrBits(b[k..], BitsOf(Shr(value, w), p)), BitsOf(value, w));
  }

  lemma Regrouped(a: bits, b: bits, c: bits, d: bits)
    ensures a + b + c + d == a + (b + c + d)
  {
  }

  lemma OverlaidOneMore(digits: seq<nat>, value: nat, w: nat)
    ensures Overlaid(digits + [value], w) == Behind(Overlaid(digits, w), value, w)
  {
    hide Behind;
    assert (digits + [value])[..|digits|] == digits;
  }

  lemma OctetsConcat(x: bits, y: bits)
    requires |x| % 8 == 0
    ensures Octets(x + y) == Octets(x) + Octets(y)
  {
    hide Groups;
    GroupsConcat(x, y, 8);
  }

  lemma OctetsOfBlock(pending: bits, buf: bytes, k: nat, p: nat)
    requires Packed(buf, 8, k, p, pending)
    ensures Octets(pending) == buf[..k]
  {
    hide Packed, Groups;
    PackedPartly(buf, 8, k, p, pending);
  }

  lemma NothingDecoded(lookup: seq<int>, w: nat)
    requires |lookup| == 256
    ensures Digits(lookup, []) == [] && Overlaid([], w) == [] && Octets([]) == []
  {
  }

  /** Or-ing a byte onto a block: `a` falls on the bits of the byte that has been begun, `b` behind them. */
  lemma PackedOr(buf: bytes, k: nat, p: nat, pending: bits, y: nat, a: bits, b: bits)
    requires Packed(buf, 8, k, p, pending) && k < |buf|
    requires |a| == p && 0 < |b| && p + |b| <= 8 && BitsOf(y, 8) == a + b + NoBits(8 - p - |b|)
    ensures p <= |pending| && Or(buf[k], y, 8) < 256
    ensures var full := p + |b| == 8;
      Packed(buf[k := Or(buf[k], y, 8)], 8, if full then k + 1 else k, if full then 0 else p + |b|,
             pending[..|pending| - p] + OrBits(pending[|pending| - p..], a) + b)
  {
    hide Joined, BitsOf, NoBits, Pow2, Or, OrBits;
    SmallPowers();
    PackedParts(buf, 8, k, p, pending);
    var begun, z := BitsOf(buf[k], 8)[..p], 8 - p - |b|;
    OrOntoByte(buf[k], p, y, a, b);
    var v: byte := Or(buf[k], y, 8);
    var now := buf[k := v];
    JoinedAround(buf, 8, k);
    JoinedAround(now, 8, k);
    assert now[..k] == buf[..k] && now[k + 1..] == buf[k + 1..];
    var front, rest := Joined(buf[..k], 8), Joined(buf[k + 1..], 8);
    assert pending[..|pending| - p] == front && pending[|pending| - p..] == begun;
    var more := front + OrBits(begun, a) + b;
    assert Joined(now, 8) == more + (NoBits(z) + rest);
    assert NoBits(z) + rest == NoBits(|Joined(now, 8)| - |more|);
    if z == 0 {
      assert now[..k + 1] == buf[..k] + [v];
      JoinedConcat(buf[..k], [v], 8);
      JoinedOne(v, 8);
    }
  }

  lemma OrOntoByte(u: nat, p: nat, y: nat, a: bits, b: bits)
    requires |a| == p && p + |b| <= 8 && BitsOf(u, 8)[p..] == NoBits(8 - p)
    requires BitsOf(y, 8) == a + b + NoBits(8 - p - |b|)
    ensures Or(u, y, 8) < 256
    ensures BitsOf(Or(u, y, 8), 8) == OrBits(BitsOf(u, 8)[..p], a) + b + NoBits(8 - p - |b|)
  {
    hide BitsOf, Pow2, Or;
    SmallPowers();
    BitwiseBound(OR, u, y, 8);
    OrIsBitwise(u, y, 8);
    BitsOfOr(u, y, 8);
    assert BitsOf(u, 8) == BitsOf(u, 8)[..p] + NoBits(8 - p);
  }

  lemma OrIsBitwise(x: nat, y: nat, w: nat)
    ensures Or(x, y, w) == Bitwise(OR, x, y, w)
  {
  }

  /** A digit shifted to its place within one byte, and cut to the byte. */
  lemma ShiftedDigit(value: nat, w: nat, p: nat)
    requires p + w <= 8
    ensures BitsOf(ShlWord(value, 8 - p - w, 8), 8) == BitsOf(Shr(value, w), p) + BitsOf(value, w) + NoBits(8 - p - w)
  {
    hide BitsOf, Shr, Shl, Low, Pow2;
    var k := 8 - p - w;
    ShlNat(value, k);
    PositivePower(k);
    BitsSplit(Shl(value, k), 0, 8);
    EmptyBits(Shr(Shl(value, k), 8));
    BitsSideBySide(value, 0, p + w, k);
    ZeroBits(k);
    BitsSplit(value, p, w);
  }

  /** The high part of a digit that crosses a byte boundary. */
  lemma HighPart(value: nat, w: nat, p: nat)
    requires p < 8 < p + w && w <= 8
    ensures var low := p + w - 8;
      && BitsOf(Shr(value, low), 8) == BitsOf(Shr(value, w), p) + BitsOf(Shr(value, low), 8 - p)
      && BitsOf(value, w) == BitsOf(Shr(value, low), 8 - p) + BitsOf(value, low)
  {
    hide BitsOf, Shr, Low;
    var low := p + w - 8;
    BitsSplit(Shr(value, low), p, 8 - p);
    ShrShr(value, low, 8 - p);
    BitsSplit(value, 8 - p, low);
  }

  /** The two parts of a digit that crosses a byte boundary make up the digit. */
  lemma Crossing(b: bits, value: nat, w: nat, p: nat, high: bits, low: bits)
    requires |b| % 8 == p && BitsOf(value, w) == high + low
    ensures b[..|b| - p] + OrBits(b[|b| - p..], BitsOf(Shr(value, w), p)) + high + low == Behind(b, value, w)
  {
    hide BitsOf, Shr;
  }

  lemma NoMoreBits(b: bits)
    ensures b + NoBits(0) == b
  {
  }

  lemma NothingOver(b: bits, more: bits)
    ensures b[..|b| - 0] + OrBits(b[|b| - 0..], []) + more == b + more
  {
  }

  class Decoder {
    const lookup: seq<int>
    const bitsPerChar: nat
    const outputBlockSize: nat
    const outBuf: array<byte>
    var bytePos: nat
    var bitPos: nat

    /** What the attached sink has received. */
    var output: bytes

    /** The letters of the current message, the bits that have left and those in the block, and the
        output before the message. */
    ghost var message: bytes
    ghost var done: bits
    ghost var pending: bits
    ghost var startOutput: bytes

    ghost predicate Set() {
      && 1 <= bitsPerChar <= 7 && |lookup| == 256
      && outputBlockSize == DecodedBlockSize(bitsPerChar) == outBuf.Length
    }

    ghost predicate Held()
      reads this`pending, this`bytePos, this`bitPos, outBuf
    {
      if pending == [] then bytePos == bitPos == 0 else Packed(outBuf[..], 8, bytePos, bitPos, pending)
    }

    ghost predicate Valid()
      reads this, outBuf
    {
      && Set() && Held()
      && |pending| % bitsPerChar == 0 && |pending| < 8 * outputBlockSize
      && done + pending == Overlaid(Digits(lookup, message), bitsPerChar)
      && |done| % 8 == 0 && output == startOutput + Octets(done)
    }

    constructor (table: seq<int>, w: nat)
      requires 1 <= w <= 7 && |table| == 256
      ensures Valid() && message == [] && output == [] && startOutput == [] && fresh(outBuf)
      ensures lookup == table && bitsPerChar == w
    {
      hide Pow2;
      lookup, bitsPerChar := table, w;
      outputBlockSize := DecodedBlockSize(w);
      outBuf := new byte[DecodedBlockSize(w)];
      bytePos, bitPos, output := 0, 0, [];
      message, done, pending, startOutput := [], [], [], [];
      new;
      NothingDecoded(table, w);
      DecodedBlockIsLeast(w);
    }

    lemma StartOfBlock()
      requires Valid()
      ensures bytePos == 0 && bitPos == 0 <==> pending == []
      ensures |pending| + bitsPerChar <= 8 * outputBlockSize
    {
      hide Pow2, NoBits, Octets, Digits;
      if pending != [] && bytePos == 0 && bitPos == 0 {
        assert outBuf[..0] == [];
      }
      DecodedBlockIsLeast(bitsPerChar);
      RoomForMultiple(|pending|, 8 * outputBlockSize, bitsPerChar);
    }

    method ClearBlock()
      requires Set()
      modifies outBuf
      ensures outBuf[..] == Zeros(outputBlockSize)
    {
      for i := 0 to outBuf.Length
        invariant forall j :: 0 <= j < i ==> outBuf[j] == 0
      {
        outBuf[i] := 0;
      }
    }

    /** Or-s a value, cut to a byte, onto one byte of the block. */
    method OrByte(k: nat, y: nat, ghost p: nat, ghost a: bits, ghost b: bits)
      requires Packed(outBuf[..], 8, k, p, pending) && k < outBuf.Length
      requires |a| == p && 0 < |b| && p + |b| <= 8 && BitsOf(y, 8) == a + b + NoBits(8 - p - |b|)
      modifies this`pending, outBuf
      ensures var full := p + |b| == 8;
        Packed(outBuf[..], 8, if full then k + 1 else k, if full then 0 else p + |b|, pending)
      ensures p <= old(|pending|) && |pending| == old(|pending|) + |b|
      ensures pending == old(pending)[..old(|pending|) - p] + OrBits(old(pending)[old(|pending|) - p..], a) + b
    {
      hide Packed, BitsOf, Or, NoBits, OrBits;
      PackedOr(outBuf[..], k, p, pending, y, a, b);
      ghost var before := outBuf[..];
      outBuf[k] := Or(outBuf[k], y, 8);
      assert outBuf[..] == before[k := outBuf[k]];
      pending := pending[..|pending| - p] + OrBits(pending[|pending| - p..], a) + b;
    }

    /** The bits of one digit. */
    method PackDigit(value: nat)
      requires Set() && Packed(outBuf[..], 8, bytePos, bitPos, pending)
      requires |pending| + bitsPerChar <= 8 * outputBlockSize
      modifies this`bytePos, this`bitPos, this`pending, outBuf
      ensures Packed(outBuf[..], 8, bytePos, bitPos, pending)
      ensures pending == Behind(old(pending), value, bitsPerChar)
    {
      hide Packed, BitsOf, Behind;
      InBlock();
      var newBitPos := bitPos + bitsPerChar;
      if newBitPos <= 8 {
        PackWithin(value, newBitPos);
      } else {
        PackAcross(value, newBitPos);
      }
      ghost var packed := outBuf[..];
      bitPos := newBitPos;
      while bitPos >= 8
        invariant 8 * bytePos + bitPos == old(8 * bytePos) + newBitPos && outBuf[..] == packed
        decreases bitPos
        modifies this`bitPos, this`bytePos
      {
        bitPos := bitPos - 8;
        bytePos := bytePos + 1;
      }
    }

    /** A digit that ends in the byte that has been begun. */
    method PackWithin(value: nat, newBitPos: nat)
      requires Set() && Packed(outBuf[..], 8, bytePos, bitPos, pending) && bytePos < outBuf.Length
      requires |pending| % 8 == bitPos && newBitPos == bitPos + bitsPerChar <= 8
      modifies this`pending, outBuf
      ensures var full := newBitPos == 8;
        Packed(outBuf[..], 8, if full then bytePos + 1 else bytePos, if full then 0 else newBitPos, pending)
      ensures pending == Behind(old(pending), value, bitsPerChar)
    {
      hide Packed, BitsOf, Shr, ShlWord, NoBits;
      ShiftedDigit(value, bitsPerChar, bitPos);
      ghost var over, own := BitsOf(Shr(value, bitsPerChar), bitPos), BitsOf(value, bitsPerChar);
      OrByte(bytePos, ShlWord(value, 8 - newBitPos, 8), bitPos, over, own);
    }

    /** A digit that goes on in the next byte. */
    method PackAcross(value: nat, newBitPos: nat)
      requires Set() && Packed(outBuf[..], 8, bytePos, bitPos, pending) && bytePos < outBuf.Length
      requires |pending| + bitsPerChar <= 8 * outputBlockSize
      requires |pending| % 8 == bitPos && newBitPos == bitPos + bitsPerChar > 8
      modifies this`pending, outBuf
      ensures Packed(outBuf[..], 8, bytePos + 1, newBitPos - 8, pending)
      ensures pending == Behind(old(pending), value, bitsPerChar)
    {
      hide Packed, BitsOf, Shr, ShlWord, NoBits, Behind, OrBits, DecodedBlockSize;
      var low: nat := newBitPos - 8;
      ghost var over, high := BitsOf(Shr(value, bitsPerChar), bitPos), BitsOf(Shr(value, low), 8 - bitPos);
      HighPart(value, bitsPerChar, bitPos);
      NoMoreBits(over + high);
      OrByte(bytePos, Shr(value, low), bitPos, over, high);
      MoreRoom(bytePos + 1);
      OrFresh(bytePos + 1, value, low);
      Crossing(old(pending), value, bitsPerChar, bitPos, high, BitsOf(value, low));
    }

    /** The first bits of a byte. */
    method OrFresh(k: nat, value: nat, len: nat)
      requires Packed(outBuf[..], 8, k, 0, pending) && k < outBuf.Length && 0 < len < 8
      modifies this`pending, outBuf
      ensures Packed(outBuf[..], 8, k, len, pending) && pending == old(pending) + BitsOf(value, len)
    {
      hide Packed, BitsOf, Shr, ShlWord, NoBits;
      ShiftedDigit(value, len, 0);
      EmptyBits(Shr(value, len));
      NothingOver(pending, BitsOf(value, len));
      OrByte(k, ShlWord(value, 8 - len, 8), 0, [], BitsOf(value, len));
    }

    lemma InBlock()
      requires Set() && Packed(outBuf[..], 8, bytePos, bitPos, pending)
        && |pending| + bitsPerChar <= 8 * outputBlockSize
      ensures bytePos < outBuf.Length && bitPos < 8 && |pending| % 8 == bitPos
    {
      hide Pow2, Joined, NoBits;
      RoomLeft(outBuf[..], 8, bytePos, bitPos, pending);
      JoinedLength(outBuf[..bytePos], 8);
    }

    lemma MoreRoom(k: nat)
      requires Packed(outBuf[..], 8, k, 0, pending) && |pending| < 8 * outBuf.Length
      ensures k < outBuf.Length
    {
      hide Pow2, Joined, NoBits;
      RoomLeft(outBuf[..], 8, k, 0, pending);
    }

    /** One letter of input. */
    method PutLetter(c: byte)
      requires Valid()
      modifies this, outBuf
      ensures Valid() && message == old(message) + [c] && startOutput == old(startOutput)
    {
      hide Packed, BitsOf, NoBits, Pow2, Overlaid, DecodedBlockSize, Digits, Octets;
      var value := lookup[c];
      NextLetter(lookup, message, c);
      if value < 0 || value >= 256 {
        assert Digits(lookup, message) + [] == Digits(lookup, message);
        message := message + [c];
        return;
      }
      AddDigit(value);
      message := message + [c];
      if bytePos == outputBlockSize {
        Flush();
        assert done + [] == done;
      } else {
        NotFull();
      }
    }

    method AddDigit(value: nat)
      requires Valid()
      modifies this`bytePos, this`bitPos, this`pending, outBuf
      ensures Set() && Packed(outBuf[..], 8, bytePos, bitPos, pending) && |pending| % bitsPerChar == 0 && pending != []
      ensures done + pending == Overlaid(Digits(lookup, message) + [value], bitsPerChar)
    {
      hide Packed, BitsOf, NoBits, Pow2, Overlaid, DecodedBlockSize, Digits, Octets, Behind;
      StartOfBlock();
      if bytePos == 0 && bitPos == 0 {
        ClearBlock();
        PackedStart(outputBlockSize, 8);
      }
      ghost var before := pending;
      PackDigit(value);
      OverlaidOneMore(Digits(lookup, message), value, bitsPerChar);
      BehindBytes(done, before, value, bitsPerChar);
      ModStep(|before|, bitsPerChar);
    }

    lemma NotFull()
      requires Set() && Packed(outBuf[..], 8, bytePos, bitPos, pending) && bytePos != outputBlockSize
      ensures |pending| < 8 * outputBlockSize
    {
      hide Pow2, NoBits, BitsOf;
      JoinedAround(outBuf[..], 8, bytePos);
      JoinedLength(outBuf[..], 8);
    }

    /** A full block leaves. */
    method Flush()
      requires Set() && bytePos == outputBlockSize && |done| % 8 == 0 && output == startOutput + Octets(done)
      requires Packed(outBuf[..], 8, bytePos, bitPos, pending)
      modifies this`bytePos, this`bitPos, this`output, this`done, this`pending
      ensures Held() && pending == [] && done == old(done + pending) && |done| % 8 == 0
      ensures output == startOutput + Octets(done) && 0 % bitsPerChar == 0 < 8 * outputBlockSize
    {
      hide BitsOf, NoBits, Joined, Octets, DecodedBlockSize, Pow2;
      FullBlock();
      OctetsOfBlock(pending, outBuf[..], bytePos, bitPos);
      OctetsConcat(done, pending);
      assert outBuf[..bytePos] == outBuf[..];
      output := output + outBuf[..];
      done, pending := done + pending, [];
      bytePos, bitPos := 0, 0;
    }

    lemma FullBlock()
      requires Set() && Packed(outBuf[..], 8, bytePos, bitPos, pending) && bytePos == outputBlockSize
      ensures bitPos == 0 && outputBlockSize > 0 && |pending| % 8 == 0 && 0 % bitsPerChar == 0
    {
      hide Pow2, BitsOf, NoBits;
      assert outBuf[..bytePos] == outBuf[..];
      JoinedLength(outBuf[..], 8);
      DecodedBlockIsLeast(bitsPerChar);
    }

    /** The end of a message: the whole bytes in the block leave, the rest is dropped. */
    method EndMessage()
      requires Valid()
      modifies this
      ensures Valid() && message == [] && startOutput == output
      ensures output == old(startOutput) + Unpacked(lookup, bitsPerChar, old(message))
    {
      hide BitsOf, NoBits, Joined, Octets, DecodedBlockSize, Pow2, Digits, Packed;
      LastBytes();
      OctetsConcat(done, pending);
      assert startOutput + (Octets(done) + outBuf[..bytePos]) == output + outBuf[..bytePos];
      output := output + outBuf[..bytePos];
      Reset();
    }

    lemma LastBytes()
      requires Valid()
      ensures bytePos <= outBuf.Length && outBuf[..bytePos] == Octets(pending)
    {
      hide BitsOf, NoBits, Joined, DecodedBlockSize, Pow2, Digits, Groups;
      if pending == [] {
        NothingDecoded(lookup, bitsPerChar);
      } else {
        OctetsOfBlock(pending, outBuf[..], bytePos, bitPos);
      }
    }

    method Reset()
      requires Set()
      modifies this
      ensures Valid() && message == [] && startOutput == output == old(output)
    {
      hide Pow2, Digits, Joined, Octets, DecodedBlockSize;
      message, done, pending, startOutput := [], [], [], output;
      bytePos, bitPos := 0, 0;
      NothingDecoded(lookup, bitsPerChar);
      DecodedBlockIsLeast(bitsPerChar);
      assert startOutput + [] == startOutput;
    }

    /** One write, which may also end the message. */
    method Put2(input: bytes, messageEnd: bool)
      requires Valid()
      modifies this, outBuf
      ensures Valid() && |lookup| == 256
      ensures !messageEnd ==> message == old(message) + input && startOutput == old(startOutput)
      ensures messageEnd ==>
        && message == [] && startOutput == output
        && output == old(startOutput) + Unpacked(lookup, bitsPerChar, old(message) + input)
    {
      hide Valid, Unpacked;
      var inputPosition := 0;
      assert message + input[..0] == message;
      while inputPosition < |input|
        invariant inputPosition <= |input|
        invariant Valid() && message == old(message) + input[..inputPosition] && startOutput == old(startOutput)
      {
        PutLetter(input[inputPosition]);
        inputPosition := inputPosition + 1;
      }
      assert input[..inputPosition] == input;
      LookupSize();
      if messageEnd {
        EndMessage();
      }
    }

    lemma LookupSize()
      requires Valid()
      ensures |lookup| == 256
    {
    }
  }
}
