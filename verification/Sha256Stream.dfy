/** The incremental SHA-256 hasher: block buffering, the four-digit length counter, padding, and
    the two ways of feeding it, against the one-shot definition of FIPS 180-4. */
module Sha256Stream {
  import opened Bytes
  import opened Powers
  import opened BitWords
  import opened Sha256
  import opened BlockHashing

  // ---- The one-shot definition: sections 5.1.1, 5.2.1 and 6.2.2 of FIPS 180-4 ----

  /** The padded message; the length field is the bit length modulo 2^64. */
  function Pad(message: bytes): (r: bytes)
    ensures |r| % 64 == 0
  {
    PadTo64(message, BigEndianBytes(8 * |message|, 8))
  }

  /** The compression as a total function. */
  function CompressDigest(digest: seq<nat>, block: bytes): seq<nat> {
    if |digest| == 8 && |block| == 64 then Compress(digest, block) else digest
  }

  /** The digest words as bytes. */
  function DigestBytes(digest: seq<nat>): (r: bytes)
    ensures |r| == 4 * |digest|
  {
    if digest == [] then [] else BigEndianBytes(digest[0], 4) + DigestBytes(digest[1..])
  }

  function Hash(message: bytes): bytes {
    DigestBytes(Fold(CompressDigest, INITIAL_MESSAGE_DIGEST, Pad(message)))
  }

  // ---- The length counter ----

  /** The number that base-65536 digits stand for, from digit `i` on. */
  ghost function DigitsValue(d: seq<nat>, i: nat): nat
    decreases |d| - i
  {
    if i >= |d| then 0
    else
      ShlNat(d[i], 16 * i);
      Shl(d[i], 16 * i) + DigitsValue(d, i + 1)
  }

  ghost predicate GoodDigits(d: seq<nat>) {
    |d| == 4 && forall i :: 0 <= i < 4 ==> d[i] < Pow2(16)
  }

  lemma {:induction false} DigitsUpdate(d: seq<nat>, k: nat, v: nat, i: nat)
    requires k < |d|
    ensures DigitsValue(d[k := v], i) == DigitsValue(d, i) + if i <= k then Shl(v - d[k], 16 * k) else 0
    decreases |d| - i
  {
    if i < |d| {
      DigitsUpdate(d, k, v, i + 1);
      ShlAdd(v, d[k], 16 * k);
    }
  }

  /** Digits in range stand for a number below the next weight. */
  lemma {:induction false} DigitsBound(d: seq<nat>, i: nat)
    requires i <= |d|
    requires forall j :: 0 <= j < |d| ==> d[j] < Pow2(16)
    ensures DigitsValue(d, i) <= Shl(1, 16 * |d|) - Shl(1, 16 * i)
    decreases |d| - i
  {
    hide Pow2, Shl, DigitsValue;
    if i < |d| {
      DigitsBound(d, i + 1);
      DigitBound(d[i], i);
      FirstDigit(d, i);
    } else {
      NoDigits(d);
    }
  }

  lemma DigitBound(x: nat, i: nat)
    requires x < Pow2(16)
    ensures 0 <= Shl(x, 16 * i) <= Shl(1, 16 * (i + 1)) - Shl(1, 16 * i)
  {
    hide Pow2, Shl;
    ShlMonotone(0, x, 16 * i);
    ShlMonotone(x + 1, Pow2(16), 16 * i);
    ShlAdd(x, 1, 16 * i);
    ShlOne(16);
    ShlShl(1, 16, 16 * i);
    assert 16 + 16 * i == 16 * (i + 1);
  }

  /** A carry into digit `i`, and the carry out of it: neither changes the total. */
  lemma CarryIn(d: seq<nat>, i: nat, carry: nat)
    requires i < |d|
    ensures DigitsValue(d[i := d[i] + carry], 0) == DigitsValue(d, 0) + Shl(carry, 16 * i)
  {
    DigitsUpdate(d, i, d[i] + carry, 0);
  }

  lemma CarryOut(d: seq<nat>, i: nat)
    requires i < |d|
    ensures DigitsValue(d[i := Low(d[i], 16)], 0) + Shl(Shr(d[i], 16), 16 * (i + 1)) == DigitsValue(d, 0)
    ensures Low(d[i], 16) < Pow2(16)
  {
    hide Low, Shr, Shl, Pow2, DigitsValue;
    var x, h, l := d[i], Shr(d[i], 16), Low(d[i], 16);
    DigitsUpdate(d, i, l, 0);
    ShrLow(x, 16);
    ShlAdd(Shl(h, 16), l, 16 * i);
    ShlAdd(l, x, 16 * i);
    ShlShl(h, 16, 16 * i);
    assert 16 + 16 * i == 16 * (i + 1);
  }

  /** In-range digits plus a carry beyond them are the digits, modulo 2^64. */
  lemma DropLastCarry(d: seq<nat>, carry: nat)
    requires GoodDigits(d)
    ensures Shl(carry, 64) >= 0
    ensures DigitsValue(d, 0) == Low(DigitsValue(d, 0) + Shl(carry, 64), 64)
  {
    hide Low, Shl, Pow2, DigitsValue;
    DigitsBound(d, 0);
    ShlOne(64);
    ShlOne(0);
    LowDropsMultiple(DigitsValue(d, 0), carry, 64);
    PowZero();
    LowOfSmall(DigitsValue(d, 0), 64);
  }

  lemma NoCarry(d: seq<nat>, i: nat)
    ensures DigitsValue(d, 0) == DigitsValue(d, 0) + Shl(0, 16 * i)
  {
    ShlMonotone(0, 0, 16 * i);
  }

  /** Adds `n`, as a word of `width` bits, to the counter, stopping at the first digit without carry. */
  method AddToDataLength(digits: array<nat>, n: nat, width: nat)
    requires digits.Length == 4 && GoodDigits(digits[..])
    modifies digits
    ensures GoodDigits(digits[..])
    ensures DigitsValue(digits[..], 0) == Low(DigitsValue(old(digits[..][0 := Low(digits[0] + n, width)]), 0), 64)
  {
    hide Low, Shr, Shl, Pow2, DigitsValue;
    SmallPowers();
    var carry: nat := 0;
    digits[0] := Low(digits[0] + n, width);
    ghost var start := digits[..];
    NoCarry(start, 0);
    var i := 0;
    while i < 4
      invariant 0 <= i <= 4
      invariant forall j :: 0 <= j < 4 && j != i ==> digits[j] < Pow2(16)
      invariant DigitsValue(start, 0) == DigitsValue(digits[..], 0) + Shl(carry, 16 * i)
    {
      ghost var d := digits[..];
      CarryIn(d, i, carry);
      digits[i] := digits[i] + carry;
      assert digits[..] == d[i := d[i] + carry];
      d := digits[..];
      if digits[i] >= 0x1_0000 {
        CarryOut(d, i);
        carry := Shr(digits[i], 16);
        digits[i] := Low(digits[i], 16);
        assert digits[..] == d[i := Low(d[i], 16)];
      } else {
        carry := 0;
        NoCarry(d, 4);
        break;
      }
      i := i + 1;
    }
    DropLastCarry(digits[..], carry);
  }

  /** One digit of the doubling by eight: `b` is the new digit and `next` the carry. */
  lemma TimesEight(x: nat, carry: nat, width: nat)
    requires width >= 32 && x < Pow2(16) && carry < 8
    ensures var b := Low(Or(ShlWord(x, 3, width), carry, width), 16);
      var next := Low(Shr(x, 13), 16);
      b < Pow2(16) && next < 8 && 8 * x + carry == Shl(next, 16) + b
  {
    hide Low, Shr, Shl, Pow2, Bitwise;
    SmallPowers();
    Pow2Monotone(32, width);
    ShlIsProduct(x, 3);
    LowOfSmall(8 * x, width);
    OrDisjoint(x, carry, 3, width);
    ShrLow(x, 13);
    ShlIsProduct(Shr(x, 13), 13);
    LowOfSmall(Shr(x, 13), 16);
    var e := 8 * x + carry;
    ShlIsProduct(Shr(x, 13), 16);
    var r := e - 0x1_0000 * Shr(x, 13);
    LowDropsMultiple(r, Shr(x, 13), 16);
    LowOfSmall(r, 16);
  }

  /** The step of the doubling loop: the old digits below `i` are replaced, those above count eightfold. */
  lemma TimesEightStep(d: seq<nat>, t: seq<nat>, i: nat, carry: nat, b: nat, next: nat)
    requires i < |d| == |t| && d[i] == t[i]
    requires 8 * DigitsValue(d, 0) == DigitsValue(t, 0) + Shl(carry, 16 * i) + 7 * DigitsValue(d, i)
    requires 8 * d[i] + carry == Shl(next, 16) + b
    ensures 8 * DigitsValue(d, 0) == DigitsValue(t[i := b], 0) + Shl(next, 16 * (i + 1)) + 7 * DigitsValue(d, i + 1)
  {
    hide Shl, DigitsValue;
    DigitsUpdate(t, i, b, 0);
    FirstDigit(d, i);
    DigitMoves(d[i], carry, b, next, i);
  }

  lemma DigitMoves(x: nat, carry: nat, b: nat, next: nat, i: nat)
    requires 8 * x + carry == Shl(next, 16) + b
    ensures Shl(b - x, 16 * i) + Shl(next, 16 * (i + 1)) == Shl(carry, 16 * i) + 7 * Shl(x, 16 * i)
  {
    hide Shl;
    var k := 16 * i;
    ShlAdd(b, x, k);
    ShlAdd(Shl(next, 16), b, k);
    ShlShl(next, 16, k);
    assert 16 + k == 16 * (i + 1);
    ShlAdd(8 * x, carry, k);
    ShlEightfold(x, k);
  }

  lemma FirstDigit(d: seq<nat>, i: nat)
    requires i < |d|
    ensures DigitsValue(d, i) == Shl(d[i], 16 * i) + DigitsValue(d, i + 1)
  {
  }

  lemma ShlEightfold(x: nat, k: nat)
    ensures Shl(8 * x, k) == 8 * Shl(x, k)
  {
    hide Shl;
    ShlAdd(x, x, k);
    ShlAdd(2 * x, 2 * x, k);
    ShlAdd(4 * x, 4 * x, k);
  }

  lemma FourDigits(d: seq<nat>)
    requires |d| == 4
    ensures DigitsValue(d, 0) == d[0] + 0x1_0000 * (d[1] + 0x1_0000 * (d[2] + 0x1_0000 * d[3]))
  {
    hide DigitsValue, Shl, Pow2;
    NoDigits(d);
    FirstDigit(d, 3);
    FirstDigit(d, 2);
    FirstDigit(d, 1);
    FirstDigit(d, 0);
    PowersOf16();
    ShlIsProduct(d[0], 0);
    ShlIsProduct(d[1], 16);
    ShlIsProduct(d[2], 32);
    ShlIsProduct(d[3], 48);
  }

  lemma PowersOf16()
    ensures Pow2(0) == 1 && Pow2(16) == 0x1_0000 && Pow2(32) == 0x1_0000_0000 && Pow2(48) == 0x1_0000_0000_0000
  {
    hide Pow2;
    SmallPowers();
    PowZero();
    Pow2Sum(16, 32);
  }

  /** The bytes of the digits, most significant first. */
  lemma DigitsAsBytes(d: seq<nat>)
    requires GoodDigits(d)
    ensures Pow2(16) == 0x1_0000
    ensures BigEndianBytes(DigitsValue(d, 0), 8)
         == [d[3] / 256, d[3] % 256, d[2] / 256, d[2] % 256, d[1] / 256, d[1] % 256, d[0] / 256, d[0] % 256]
  {
    hide BigEndianBytes, DigitsValue, Pow2;
    SmallPowers();
    FourDigits(d);
    BigEndianTwoMore(0, d[3], 0);
    BigEndianTwoMore(d[3], d[2], 2);
    BigEndianTwoMore(d[2] + 0x1_0000 * d[3], d[1], 4);
    BigEndianTwoMore(d[1] + 0x1_0000 * (d[2] + 0x1_0000 * d[3]), d[0], 6);
    NoBytes(0);
  }

  /** Eight times the counter, as eight big-endian bytes at `begin`. */
  method WriteDataBitLength(digits: array<nat>, out: array<byte>, begin: nat, ghost count: nat, width: nat)
    requires digits.Length == 4 && GoodDigits(digits[..]) && width >= 32
    requires DigitsValue(digits[..], 0) == Low(count, 64)
    requires begin + 8 <= out.Length
    modifies out
    ensures out[..] == old(out[..begin]) + BigEndianBytes(8 * count, 8) + old(out[begin + 8..])
  {
    hide Low, Shr, Shl, Pow2, DigitsValue, BigEndianBytes, Or, ShlWord;
    var bits := EightTimesDigits(digits, count, width);
    DigitsAsBytes(bits);
    BigEndianOfLow(8 * count, 8);
    var at, i := begin, 3;
    while i >= 0
      invariant -1 <= i <= 3 && at == begin + 2 * (3 - i)
      invariant forall j :: i < j < 4 ==>
        out[begin + 2 * (3 - j)] == bits[j] / 256 && out[begin + 2 * (3 - j) + 1] == bits[j] % 256
      invariant out[..begin] == old(out[..begin]) && out[begin + 8..] == old(out[begin + 8..])
    {
      out[at] := bits[i] / 256;
      out[at + 1] := bits[i] % 256;
      at := at + 2;
      i := i - 1;
    }
    assert out[..] == out[..begin] + out[begin..begin + 8] + out[begin + 8..];
    assert out[begin..begin + 8] == [bits[3] / 256, bits[3] % 256, bits[2] / 256, bits[2] % 256,
                                     bits[1] / 256, bits[1] % 256, bits[0] / 256, bits[0] % 256];
  }

  method EightTimesDigits(digits: array<nat>, ghost count: nat, width: nat) returns (bits: seq<nat>)
    requires digits.Length == 4 && GoodDigits(digits[..]) && width >= 32
    requires DigitsValue(digits[..], 0) == Low(count, 64)
    ensures GoodDigits(bits)
    ensures DigitsValue(bits, 0) == Low(8 * count, 64)
  {
    hide Low, Shr, Shl, Pow2, DigitsValue, Or, ShlWord;
    var d := digits[..];
    bits := d;
    var carry: nat := 0;
    NoCarry(d, 0);
    for i := 0 to 4
      invariant GoodDigits(bits) && carry < 8
      invariant forall j :: i <= j < 4 ==> bits[j] == d[j]
      invariant 8 * DigitsValue(d, 0) == DigitsValue(bits, 0) + Shl(carry, 16 * i) + 7 * DigitsValue(d, i)
    {
      var before := bits[i];
      TimesEight(before, carry, width);
      ghost var b, next := Low(Or(ShlWord(before, 3, width), carry, width), 16), Low(Shr(before, 13), 16);
      TimesEightStep(d, bits, i, carry, b, next);
      bits := bits[i := Low(Or(ShlWord(before, 3, width), carry, width), 16)];
      carry := Low(Shr(before, 13), 16);
    }
    NoDigits(d);
    DropLastCarry(bits, carry);
    EightTimesLow(count);
  }

  lemma NoDigits(d: seq<nat>)
    ensures DigitsValue(d, |d|) == 0
  {
  }

  lemma EightTimesLow(count: nat)
    ensures Low(8 * Low(count, 64), 64) == Low(8 * count, 64)
  {
    hide Low, Shl;
    ShrLow(count, 64);
    ShlEightfold(Shr(count, 64), 64);
    LowDropsMultiple(8 * Low(count, 64), 8 * Shr(count, 64), 64);
  }

  // ---- The hasher ----

  lemma InitialDigestIs32()
    ensures |INITIAL_MESSAGE_DIGEST| == 8 && forall i :: 0 <= i < 8 ==> Is32(INITIAL_MESSAGE_DIGEST[i])
  {
    hide Pow2;
    SmallPowers();
  }

  lemma NothingCounted(d: seq<nat>)
    requires |d| == 4 && forall i :: 0 <= i < 4 ==> d[i] == 0
    ensures GoodDigits(d) && DigitsValue(d, 0) == Low(0, 64)
  {
    hide DigitsValue, Low, Pow2;
    SmallPowers();
    FourDigits(d);
    PowersOfZero(64);
  }

  /** The digits of a counter are a number below 2^64. */
  lemma CounterInRange(d: seq<nat>)
    requires GoodDigits(d)
    ensures Low(DigitsValue(d, 0), 64) == DigitsValue(d, 0)
  {
    hide DigitsValue, Low, Shl, Pow2;
    DropLastCarry(d, 0);
    ShlMonotone(0, 0, 64);
  }

  lemma {:induction false} PowersOfZero(k: nat)
    ensures Low(0, k) == 0
  {
    if k > 0 {
      PowersOfZero(k - 1);
    }
  }

  /** Whether adding a length overflows a word before the counter can carry. */
  predicate Counts(digit: nat, n: nat, width: nat) {
    width >= 64 || digit + n < Pow2(width)
  }

  lemma CountsMeans(digit: nat, n: nat, width: nat)
    ensures Counts(digit, n, width) <==> width >= 64 || digit + n < Pow2(width)
  {
  }

  /** The counter after a piece of `n` bytes. */
  lemma CounterAdvances(d: seq<nat>, total: nat, n: nat, width: nat)
    requires width >= 32 && GoodDigits(d) && DigitsValue(d, 0) == Low(total, 64)
    requires Counts(d[0], n, width)
    ensures Low(DigitsValue(d[0 := Low(d[0] + Low(n, width), width)], 0), 64) == Low(total + n, 64)
  {
    hide Low, Pow2, DigitsValue, Shl;
    var rest, first: int := DigitsValue(d[0 := 0], 0), d[0];
    var low: int := Low(d[0] + Low(n, width), width);
    DigitsUpdate(d, 0, 0, 0);
    DigitsUpdate(d, 0, low, 0);
    ShlByNothing(-first);
    ShlByNothing(low - first);
    DigitsBound(d[0 := 0], 0);
    if width >= 64 {
      LowLow(d[0] + Low(n, width), width, 64);
      LowLow(n, width, 64);
      LowSum(d[0], Low(n, width), 64);
      LowSum(d[0], n, 64);
      LowSum(rest, low, 64);
      LowSum(rest, d[0] + n, 64);
    } else {
      LowOfSmall(n, width);
      LowOfSmall(d[0] + n, width);
    }
    LowSum(n, total, 64);
  }

  /** The condition is exact: with a narrower word, a length that overflows it leaves a wrong count. */
  lemma CounterLoses(d: seq<nat>, total: nat, n: nat, width: nat)
    requires 32 <= width && GoodDigits(d) && DigitsValue(d, 0) == Low(total, 64)
    requires !Counts(d[0], n, width) && n + Pow2(16) <= Pow2(64)
    ensures Low(DigitsValue(d[0 := Low(d[0] + Low(n, width), width)], 0), 64) != Low(total + n, 64)
  {
    hide Low, Pow2, DigitsValue, Shl, Shr;
    var sum := DigitsValue(d[0 := Low(d[0] + Low(n, width), width)], 0);
    var low: int, first: int := Low(d[0] + Low(n, width), width), d[0];
    DigitsUpdate(d, 0, low, 0);
    ShlByNothing(low - first);
    LowSum(d[0], n, width);
    ShrLow(d[0] + n, width);
    LowSum(n, total, 64);
    DifferentLow(sum, n + DigitsValue(d, 0), 64);
  }

  /** The count after a piece of `n` bytes: the length is added to the lowest 16 bits in a word. */
  function Recount(count: nat, n: nat, width: nat): nat {
    LowAtMost(count, 16);
    Low(count - Low(count, 16) + Low(Low(count, 16) + n, width), 64)
  }

  /** In numbers: the piece is added to the lowest 16 bits in a word of `width` bits, the rest stays. */
  lemma RecountIs(count: nat, n: nat, width: nat)
    ensures count - count % 0x1_0000 >= 0
    ensures Recount(count, n, width)
      == (count - count % 0x1_0000 + (count % 0x1_0000 + n) % Pow2(width)) % 0x1_0000_0000_0000_0000
  {
    hide Low, Pow2;
    SmallPowers();
    Pow2Sum(32, 32);
    LowIsRest(count, 16);
    LowIsRest(Low(count, 16) + n, width);
    LowIsRest(count - Low(count, 16) + Low(Low(count, 16) + n, width), 64);
  }

  lemma LowAtMost(n: nat, k: nat)
    ensures Low(n, k) <= n
  {
    hide Low, Shl, Shr, Pow2;
    ShrLow(n, k);
    ShlNat(Shr(n, k), k);
  }

  lemma BumpedIsRecount(d: seq<nat>, n: nat, width: nat)
    requires GoodDigits(d)
    ensures Low(DigitsValue(Bumped(d, n, width), 0), 64) == Recount(DigitsValue(d, 0), n, width)
  {
    hide Low, Pow2, DigitsValue, Shl;
    var low: int := Low(d[0] + Low(n, width), width);
    FirstOfDigits(d);
    DigitsUpdate(d, 0, low, 0);
    ShlByNothing(low - d[0]);
    LowSum(d[0], n, width);
    LowAtMost(DigitsValue(d, 0), 16);
  }

  lemma FirstOfDigits(d: seq<nat>)
    requires GoodDigits(d)
    ensures Low(DigitsValue(d, 0), 16) == d[0]
  {
    hide Low, Pow2, DigitsValue, Shl;
    SmallPowers();
    FourDigits(d);
    var rest := d[1] + 0x1_0000 * (d[2] + 0x1_0000 * d[3]);
    ShlIsProduct(rest, 16);
    LowDropsMultiple(d[0], rest, 16);
    LowOfSmall(d[0], 16);
  }

  /** The digits before carrying: the length, cut to a word, goes to the first digit. */
  ghost function Bumped(d: seq<nat>, n: nat, width: nat): (r: seq<nat>)
    requires |d| > 0
  {
    d[0 := Low(d[0] + Low(n, width), width)]
  }

  lemma CountAfterPiece(d: seq<nat>, total: nat, n: nat, width: nat)
    requires width >= 32 && GoodDigits(d)
    ensures DigitsValue(d, 0) == Low(total, 64) && Counts(d[0], n, width) ==>
      Low(DigitsValue(Bumped(d, n, width), 0), 64) == Low(total + n, 64)
    ensures DigitsValue(d, 0) == Low(total, 64) && !Counts(d[0], n, width) && n + Pow2(16) <= Pow2(64) ==>
      Low(DigitsValue(Bumped(d, n, width), 0), 64) != Low(total + n, 64)
  {
    hide Low, Pow2, DigitsValue, Counts;
    if DigitsValue(d, 0) == Low(total, 64) {
      if Counts(d[0], n, width) {
        CounterAdvances(d, total, n, width);
      } else if n + Pow2(16) <= Pow2(64) {
        CounterLoses(d, total, n, width);
      }
    }
  }

  /** Numbers less than 2^k apart have different low bits. */
  lemma DifferentLow(x: nat, y: nat, k: nat)
    requires x < y < x + Pow2(k)
    ensures Low(x, k) != Low(y, k)
  {
    hide Low, Pow2, Shl, Shr;
    ShrLow(x, k);
    ShrLow(y, k);
    ShlOne(k);
    ShlAdd(Shr(y, k), Shr(x, k), k);
    if Shr(y, k) > Shr(x, k) {
      ShlMonotone(1, Shr(y, k) - Shr(x, k), k);
    } else {
      ShlMonotone(Shr(y, k) - Shr(x, k), 0, k);
    }
  }

  lemma ShlByNothing(n: int)
    ensures Shl(n, 16 * 0) == n
  {
  }

  lemma NothingHashed()
    ensures DigestAfter([]) == INITIAL_MESSAGE_DIGEST
  {
  }

  /** The digest after the whole blocks of `data`, from the initial digest. */
  function DigestAfter(data: bytes): seq<nat> {
    if |data| % 64 == 0 then Fold(CompressDigest, INITIAL_MESSAGE_DIGEST, data) else []
  }

  /** The next block of a buffered message. */
  lemma NextBlock(message: bytes, done: nat)
    requires done % 64 == 0 && done + 64 <= |message|
    ensures |DigestAfter(message[..done])| == 8
    ensures DigestAfter(message[..done + 64]) == Compress(DigestAfter(message[..done]), message[done..done + 64])
  {
    hide Compress, Fold, INITIAL_MESSAGE_DIGEST;
    InitialDigestIs32();
    FoldLength(INITIAL_MESSAGE_DIGEST, message[..done]);
    FoldNext(CompressDigest, INITIAL_MESSAGE_DIGEST, message[..done], message[done..done + 64]);
    assert message[..done] + message[done..done + 64] == message[..done + 64];
  }

  lemma {:induction false} FoldLength(start: seq<nat>, data: bytes)
    requires |data| % 64 == 0 && |start| == 8
    ensures |Fold(CompressDigest, start, data)| == 8
    decreases |data|
  {
    hide Compress;
    if data != [] {
      FoldLength(Compress(start, data[..64]), data[64..]);
    }
  }

  /** The digest is that of the whole blocks of a message, and the buffer holds the rest. */
  ghost predicate Buffers(message: bytes, buffer: bytes, digest: seq<nat>) {
    && |buffer| < 64
    && |buffer| <= |message| && (|message| - |buffer|) % 64 == 0
    && buffer == message[|message| - |buffer|..]
    && digest == DigestAfter(message[..|message| - |buffer|])
  }

  lemma NothingBuffered()
    ensures Buffers([], [], DigestAfter([]))
  {
    hide DigestAfter;
  }

  class Hash256OneByOne {
    const width: nat
    const dataLengthDigits: array<nat>
    const h: array<nat>
    var buffer: bytes

    /** What has been processed since the last `Init`. */
    ghost var message: bytes

    /** The digest and the buffer are those of the message, and the counter holds digits. */
    ghost predicate Hashed()
      reads this, dataLengthDigits, h
    {
      && Shape()
      && Buffers(message, buffer, h[..])
      && (forall i :: 0 <= i < 8 ==> Is32(h[i]))
      && GoodDigits(dataLengthDigits[..])
    }

    ghost function Counted(): nat
      reads this, dataLengthDigits
    {
      DigitsValue(dataLengthDigits[..], 0)
    }

    ghost predicate Valid()
      reads this, dataLengthDigits, h
    {
      Hashed() && Counted() == Low(|message|, 64)
    }

    ghost predicate Shape() {
      width >= 32 && dataLengthDigits.Length == 4 && h.Length == 8 && dataLengthDigits != h
    }

    constructor (wordBits: nat)
      requires wordBits >= 32
      ensures Valid() && message == [] && width == wordBits
      ensures forall i :: 0 <= i < 4 ==> dataLengthDigits[..][i] == 0
      ensures fresh(dataLengthDigits) && fresh(h)
    {
      hide Low, DigestAfter, DigitsValue, GoodDigits, Is32;
      width := wordBits;
      dataLengthDigits := new nat[4];
      h := new nat[8];
      new;
      Init();
    }

    method Init()
      requires Shape()
      modifies this, dataLengthDigits, h
      ensures Valid() && message == []
      ensures forall i :: 0 <= i < 4 ==> dataLengthDigits[..][i] == 0
    {
      hide Low, DigestAfter, DigitsValue, GoodDigits, Is32, Buffers;
      buffer, message := [], [];
      ClearDigits();
      NothingCounted(dataLengthDigits[..]);
      StartDigest(h);
      NothingBuffered();
    }

    method ClearDigits()
      requires Shape()
      modifies dataLengthDigits
      ensures forall i :: 0 <= i < 4 ==> dataLengthDigits[..][i] == 0
    {
      for i := 0 to 4
        invariant forall j :: 0 <= j < i ==> dataLengthDigits[j] == 0
      {
        dataLengthDigits[i] := 0;
      }
    }

    /** Appends a piece of the message. The count stays right exactly while no length overflows a word. */
    method Process(data: bytes)
      requires Hashed()
      modifies this, dataLengthDigits, h
      ensures Hashed() && message == old(message) + data
      ensures Counted() == Recount(old(Counted()), |data|, width)
      ensures old(Valid() && Counts(dataLengthDigits[0], |data|, width)) ==> Valid()
      ensures old(Valid() && !Counts(dataLengthDigits[0], |data|, width)) && |data| + Pow2(16) <= Pow2(64) ==> !Valid()
    {
      hide Low, Pow2, DigestAfter, DigitsValue, GoodDigits, Is32, Compress, Counts, Bumped, Recount;
      CountAfterPiece(dataLengthDigits[..], |message|, |data|, width);
      BumpedIsRecount(dataLengthDigits[..], |data|, width);
      Append(data);
    }

    method Append(data: bytes)
      requires Hashed()
      modifies this, dataLengthDigits, h
      ensures Hashed() && message == old(message) + data
      ensures Counted() == Low(DigitsValue(Bumped(old(dataLengthDigits[..]), |data|, width), 0), 64)
    {
      hide Low, Pow2, DigestAfter, DigitsValue, GoodDigits, Is32, Compress;
      ghost var done := |message| - |buffer|;
      AddToDataLength(dataLengthDigits, Low(|data|, width), width);
      message := message + data;
      buffer := buffer + data;
      assert message[..done] == old(message[..done]);
      assert buffer == message[done..];
      var i := HashWholeBlocks(done);
      buffer := buffer[i..];
      assert message[done..][i..] == message[done + i..];
    }

    /** Compresses the whole blocks of the buffer, whose first byte is byte `done` of the message. */
    method HashWholeBlocks(ghost done: nat) returns (i: nat)
      requires Shape()
      requires done <= |message| && done % 64 == 0 && buffer == message[done..]
      requires h[..] == DigestAfter(message[..done])
      requires forall j :: 0 <= j < 8 ==> Is32(h[j])
      modifies h
      ensures i % 64 == 0 && i <= |buffer| < i + 64
      ensures h[..] == DigestAfter(message[..done + i])
      ensures forall j :: 0 <= j < 8 ==> Is32(h[j])
    {
      hide Low, Pow2, DigestAfter, Is32, Compress;
      i := 0;
      while i + 64 <= |buffer|
        invariant 0 <= i <= |buffer| && i % 64 == 0
        invariant h[..] == DigestAfter(message[..done + i])
        invariant forall j :: 0 <= j < 8 ==> Is32(h[j])
      {
        NextBlock(message, done + i);
        assert buffer[i..i + 64] == message[done + i..done + i + 64];
        HashBlock(h, buffer[i..i + 64], width);
        i := i + 64;
      }
    }

    /** Pads and compresses the last block or two: afterwards `h` is the digest of the message, padded
        with what the counter says. */
    method Finish()
      requires Hashed()
      modifies h
      ensures h[..] == DigestAfter(PadTo64(message, BigEndianBytes(8 * Counted(), 8)))
    {
      hide Low, Pow2, DigestAfter, DigitsValue, GoodDigits, Is32, Compress, PadTo64, BigEndianBytes, Zeros;
      CounterInRange(dataLengthDigits[..]);
      var temp, remains := StartPadding();
      ghost var start := temp[..remains + 1];
      ghost var hashed, length := message[..|message| - remains], BigEndianBytes(8 * Counted(), 8);
      ghost var prefix: bytes;
      PadShape(message, remains, length);
      if remains > 55 {
        ZeroTo(temp, remains + 1, 64);
        prefix := start + Zeros(63 - remains);
        assert temp[..] == prefix;
        HashTemp(temp, hashed);
        hashed, prefix := hashed + prefix, Zeros(56);
        ZeroTo(temp, 0, 60);
        FirstZeros(temp[..], [], 60, temp[60..]);
      } else {
        prefix := start + Zeros(55 - remains);
        ZeroTo(temp, remains + 1, 60);
        FirstZeros(temp[..], start, 60, temp[60..]);
      }
      WriteDataBitLength(dataLengthDigits, temp, 56, Counted(), width);
      assert temp[..] == prefix + length;
      HashTemp(temp, hashed);
    }

    /** The buffered bytes and the first padding byte in a fresh block. */
    method StartPadding() returns (temp: array<byte>, remains: nat)
      requires |buffer| < 64
      ensures fresh(temp) && temp.Length == 64 && remains == |buffer| && temp[..remains + 1] == buffer + [0x80]
    {
      temp := new byte[64];
      remains := |buffer|;
      CopyInto(temp, 0, buffer);
      assert temp[..remains] == buffer;
      temp[remains] := 0x80;
    }

    /** Compresses `temp` as the block that follows `data`. */
    method HashTemp(temp: array<byte>, ghost data: bytes)
      requires Shape() && temp.Length == 64 && |data| % 64 == 0
      requires forall i :: 0 <= i < 8 ==> Is32(h[i])
      requires h[..] == DigestAfter(data)
      modifies h
      ensures h[..] == DigestAfter(data + temp[..])
      ensures forall i :: 0 <= i < 8 ==> Is32(h[i])
    {
      hide Low, Pow2, DigestAfter, Is32, Compress;
      ghost var whole := data + temp[..];
      assert whole[..|data|] == data && whole[..|data| + 64] == whole && whole[|data|..|data| + 64] == temp[..];
      NextBlock(whole, |data|);
      HashBlock(h, temp[..], width);
    }

    /** The first `n` bytes of the digest, or all of it. */
    method GetHashBytes(n: nat) returns (out: bytes)
      requires Shape()
      ensures out == DigestBytes(h[..])[..if n < 32 then n else 32]
    {
      hide DigestBytes, BigEndianBytes, Low, Shr;
      out := [];
      for k := 0 to 8
        invariant |out| == if n < 4 * k then n else 4 * k
        invariant forall j :: 0 <= j < |out| ==> out[j] == DigestBytes(h[..])[j]
      {
        var i := 0;
        while i < 4 && |out| < n
          invariant 0 <= i <= 4
          invariant |out| == if n < 4 * k + i then n else 4 * k + i
          invariant i < 4 ==> |out| <= n
          invariant forall j :: 0 <= j < |out| ==> out[j] == DigestBytes(h[..])[j]
        {
          ByteOfDigest(h[..], k, i);
          out := out + [Shr(h[k], 24 - 8 * i) % 256];
          i := i + 1;
        }
      }
    }
  }

  /** The digest before the first block. */
  method StartDigest(h: array<nat>)
    requires h.Length == 8
    modifies h
    ensures h[..] == DigestAfter([])
    ensures forall i :: 0 <= i < 8 ==> Is32(h[i])
  {
    hide DigestAfter, Is32, INITIAL_MESSAGE_DIGEST;
    InitialDigestIs32();
    NothingHashed();
    CopyDigest(h, INITIAL_MESSAGE_DIGEST);
    assert forall i :: 0 <= i < 8 ==> h[i] == INITIAL_MESSAGE_DIGEST[i];
  }

  method CopyDigest(target: array<nat>, words: seq<nat>)
    requires target.Length == |words|
    modifies target
    ensures target[..] == words
  {
    for i := 0 to |words|
      invariant forall j :: 0 <= j < i ==> target[j] == words[j]
    {
      target[i] := words[i];
    }
  }

  method ZeroTo(temp: array<byte>, from: nat, to: nat)
    requires from <= to <= temp.Length
    modifies temp
    ensures temp[..] == old(temp[..from]) + Zeros(to - from) + old(temp[to..])
  {
    CopyInto(temp, from, Zeros(to - from));
  }

  /** The bytes before the length field. */
  lemma FirstZeros(temp: bytes, start: bytes, to: nat, rest: bytes)
    requires 56 <= to <= |temp| && |start| <= 56 && temp == start + Zeros(to - |start|) + rest
    ensures temp[..56] == start + Zeros(56 - |start|)
  {
  }

  lemma {:induction false} DigestBytesAt(d: seq<nat>, k: nat, i: nat)
    requires k < |d| && i < 4
    ensures DigestBytes(d)[4 * k + i] == BigEndianBytes(d[k], 4)[i]
  {
    hide BigEndianBytes;
    if k > 0 {
      DigestBytesAt(d[1..], k - 1, i);
    }
  }

  lemma ShiftByBytes(n: nat)
    ensures Shr(n, 24) == n / 256 / 256 / 256 && Shr(n, 16) == n / 256 / 256 && Shr(n, 8) == n / 256 && Shr(n, 0) == n
  {
    hide Shr;
    ShrEight(n);
    ShrEight(n / 256);
    ShrEight(n / 256 / 256);
    ShrShr(n, 8, 8);
    ShrShr(n, 16, 8);
    ShrZero(n);
  }

  lemma ByteOfDigest(d: seq<nat>, k: nat, i: nat)
    requires k < |d| && i < 4
    ensures DigestBytes(d)[4 * k + i] == Shr(d[k], 24 - 8 * i) % 256
  {
    hide *;
    DigestBytesAt(d, k, i);
    BigFourBytes(d[k]);
    ShiftByBytes(d[k]);
  }

  lemma BigFourBytes(n: nat)
    ensures BigEndianBytes(n, 4) == [n / 256 / 256 / 256 % 256, n / 256 / 256 % 256, n / 256 % 256, n % 256]
  {
    assert BigEndianBytes(n / 256 / 256 / 256, 1) == [n / 256 / 256 / 256 % 256];
    assert BigEndianBytes(n / 256 / 256, 2) == [n / 256 / 256 / 256 % 256, n / 256 / 256 % 256];
    assert BigEndianBytes(n / 256, 3) == [n / 256 / 256 / 256 % 256, n / 256 / 256 % 256, n / 256 % 256];
  }

  /** The hash of a message whose length field says `count`. */
  function HashWithCount(message: bytes, count: nat): bytes {
    DigestBytes(DigestAfter(PadTo64(message, BigEndianBytes(8 * count, 8))))
  }

  lemma HashFolds(message: bytes)
    ensures Hash(message)
      == DigestBytes(Fold(CompressDigest, INITIAL_MESSAGE_DIGEST, PadTo64(message, BigEndianBytes(8 * |message|, 8))))
  {
    hide Fold, PadTo64, BigEndianBytes, DigestBytes, INITIAL_MESSAGE_DIGEST, CompressDigest;
  }

  lemma OneCompression(digest: seq<nat>, block: bytes)
    requires |digest| == 8 && |block| == 64
    ensures CompressDigest(digest, block) == Compress(digest, block)
  {
    hide Compress;
  }

  /** The hash of a message of at most 55 bytes: one compression, its words most significant byte first. */
  lemma OneBlockHash(message: bytes)
    requires |message| <= 55
    ensures |INITIAL_MESSAGE_DIGEST| == 8
    ensures var block := message + [0x80] + Zeros(55 - |message|) + BigEndianBytes(8 * |message|, 8);
      Hash(message) == DigestBytes(Compress(INITIAL_MESSAGE_DIGEST, block))
  {
    hide Fold, PadTo64, BigEndianBytes, Zeros, Compress, DigestBytes, INITIAL_MESSAGE_DIGEST, CompressDigest, Hash;
    InitialDigestIs32();
    HashFolds(message);
    var length := BigEndianBytes(8 * |message|, 8);
    PadShape(message, |message|, length);
    var block := message + [0x80] + Zeros(55 - |message|) + length;
    assert message[|message| - |message|..] == message && message[..|message| - |message|] + block == block;
    FoldOne(CompressDigest, INITIAL_MESSAGE_DIGEST, block);
    OneCompression(INITIAL_MESSAGE_DIGEST, block);
  }

  /** Only the count modulo 2^64 matters. */
  lemma SameCount(message: bytes, count: nat, other: nat)
    requires Low(count, 64) == Low(other, 64)
    ensures HashWithCount(message, count) == HashWithCount(message, other)
  {
    hide Low, BigEndianBytes, PadTo64, DigestAfter, DigestBytes;
    EightTimesLow(count);
    EightTimesLow(other);
    BigEndianOfLow(8 * count, 8);
    BigEndianOfLow(8 * other, 8);
  }

  /** With the right count it is the hash. */
  lemma RightCount(message: bytes)
    ensures HashWithCount(message, |message|) == Hash(message)
  {
    hide BigEndianBytes, PadTo64, Fold, DigestBytes, INITIAL_MESSAGE_DIGEST;
  }

  lemma HashLength(message: bytes, count: nat)
    ensures |HashWithCount(message, count)| == 32
  {
    hide BigEndianBytes, PadTo64, Fold, INITIAL_MESSAGE_DIGEST, CompressDigest;
    InitialDigestIs32();
    FoldLength(INITIAL_MESSAGE_DIGEST, PadTo64(message, BigEndianBytes(8 * count, 8)));
  }

  /** A length that a word holds, or whose word holds the whole counter, is counted right. */
  lemma CountOfWord(n: nat, width: nat)
    requires Counts(0, n, width)
    ensures Low(Low(n, width), 64) == Low(n, 64)
  {
    hide Low, Pow2;
    if width >= 64 {
      LowLow(n, width, 64);
    } else {
      LowOfSmall(n, width);
    }
  }

  lemma LowOfLow(n: nat, k: nat)
    ensures Low(Low(n, k), k) == Low(n, k)
  {
    LowLow(n, k, k);
  }

  /** The count of the first piece. */
  lemma FirstPiece(n: nat, width: nat)
    ensures Recount(0, n, width) == Low(Low(n, width), 64)
  {
    hide Low;
    PowersOfZero(16);
  }

  /** The count is lost: one piece of 2^32 bytes, with words of 32 bits, leaves the counter at zero. */
  lemma LostPiece()
    ensures Recount(0, 0x1_0000_0000, 32) == 0 && !Counts(0, 0x1_0000_0000, 32)
  {
    hide Low, Pow2, Shl;
    SmallPowers();
    FirstPiece(0x1_0000_0000, 32);
    ShlOne(32);
    LowDropsMultiple(0, 1, 32);
    PowersOfZero(32);
    PowersOfZero(64);
  }

  /** The count after some pieces. */
  function CountAfter(pieces: seq<bytes>, width: nat): nat {
    if pieces == [] then 0
    else Recount(CountAfter(pieces[..|pieces| - 1], width), |pieces[|pieces| - 1]|, width)
  }

  /** Every piece, added to the lowest 16 bits of the length before it, fits a word. */
  ghost predicate AllCount(pieces: seq<bytes>, width: nat) {
    forall i :: 0 <= i < |pieces| ==> Counts(Low(|Flatten(pieces[..i])|, 16), |pieces[i]|, width)
  }

  lemma AllCountFront(pieces: seq<bytes>, width: nat)
    requires pieces != []
    ensures var front, last := pieces[..|pieces| - 1], pieces[|pieces| - 1];
      AllCount(pieces, width) <==> AllCount(front, width) && Counts(Low(|Flatten(front)|, 16), |last|, width)
  {
    hide Counts, Low, Flatten;
    var front := pieces[..|pieces| - 1];
    forall i | 0 <= i < |front|
      ensures front[..i] == pieces[..i] && front[i] == pieces[i]
    {
    }
    if AllCount(front, width) && Counts(Low(|Flatten(front)|, 16), |pieces[|front|]|, width) {
      forall i | 0 <= i < |pieces|
        ensures Counts(Low(|Flatten(pieces[..i])|, 16), |pieces[i]|, width)
      {
        if i < |front| {
          assert Counts(Low(|Flatten(front[..i])|, 16), |front[i]|, width);
        }
      }
    }
  }

  /** If every piece counts, the count is right, modulo 2^64. */
  lemma {:induction false} CountsRight(pieces: seq<bytes>, width: nat)
    requires AllCount(pieces, width)
    ensures CountAfter(pieces, width) == Low(|Flatten(pieces)|, 64)
  {
    hide AllCount, Counts, Low, Recount;
    if pieces == [] {
      PowersOfZero(64);
    } else {
      var front, last := pieces[..|pieces| - 1], pieces[|pieces| - 1];
      AllCountFront(pieces, width);
      CountsRight(front, width);
      RecountsRight(|Flatten(front)|, |last|, width);
    }
  }

  lemma RecountsRight(total: nat, n: nat, width: nat)
    requires Counts(Low(total, 16), n, width)
    ensures Recount(Low(total, 64), n, width) == Low(total + n, 64)
  {
    hide Low, Pow2, Shl;
    var count := Low(total, 64);
    var low := Low(count, 16);
    LowLow(total, 64, 16);
    LowAtMost(count, 16);
    var rest: nat := count - low;
    if width >= 64 {
      LowSum(rest, low + n, 64);
      LowSum(rest, Low(low + n, width), 64);
      LowLow(low + n, width, 64);
    } else {
      LowOfSmall(low + n, width);
    }
    LowSum(n, total, 64);
  }

  /** Below 2^64 bytes, the count is right if and only if every piece counts; otherwise it is too small. */
  lemma {:induction false} CountsExactly(pieces: seq<bytes>, width: nat)
    requires |Flatten(pieces)| < Pow2(64)
    ensures CountAfter(pieces, width) <= |Flatten(pieces)|
    ensures CountAfter(pieces, width) == |Flatten(pieces)| <==> AllCount(pieces, width)
  {
    hide AllCount, Counts, Low, Recount, Pow2;
    if pieces == [] {
      NoPieces(width);
    } else {
      var front, last := pieces[..|pieces| - 1], pieces[|pieces| - 1];
      AllCountFront(pieces, width);
      CountsExactly(front, width);
      RecountsExactly(CountAfter(front, width), |last|, width);
    }
  }

  lemma NoPieces(width: nat)
    ensures AllCount([], width)
  {
  }

  lemma RecountsExactly(count: nat, n: nat, width: nat)
    requires count + n < Pow2(64)
    ensures Recount(count, n, width) <= count + n
    ensures Recount(count, n, width) == count + n <==> Counts(Low(count, 16), n, width)
  {
    hide Low, Pow2;
    var low := Low(count, 16);
    LowAtMost(count, 16);
    LowAtMost(low + n, width);
    LowOfSmall(count - low + Low(low + n, width), 64);
    if width >= 64 {
      Pow2Monotone(64, width);
      LowOfSmall(low + n, width);
    } else if low + n < Pow2(width) {
      LowOfSmall(low + n, width);
    } else {
      LowBound(low + n, width);
    }
  }

  /** The whole range at once, as for random-access iterators. */
  method Hash256RandomAccess(data: bytes, outLength: nat, width: nat) returns (out: bytes)
    requires width >= 32
    ensures |HashWithCount(data, Low(|data|, width))| == 32
    ensures out == HashWithCount(data, Low(|data|, width))[..if outLength < 32 then outLength else 32]
    ensures Counts(0, |data|, width) ==> HashWithCount(data, Low(|data|, width)) == Hash(data)
  {
    hide Low, Pow2, DigestAfter, DigitsValue, GoodDigits, Is32, Hash, Counts, PadTo64, BigEndianBytes, DigestBytes;
    hide Recount;
    var hasher := new Hash256OneByOne(width);
    FirstPiece(|data|, width);
    PowersOfZero(64);
    hasher.Process(data);
    assert hasher.message == data;
    hasher.Finish();
    LowOfLow(Low(|data|, width), 64);
    SameCount(data, hasher.Counted(), Low(|data|, width));
    HashLength(data, hasher.Counted());
    out := hasher.GetHashBytes(outLength);
    if Counts(0, |data|, width) {
      CountOfWord(|data|, width);
      SameCount(data, Low(|data|, width), |data|);
      RightCount(data);
    }
  }

  /** Any pieces of any sizes, processed one by one: the hash with the length that the counter makes of
      them, and so the hash of the message whenever every piece counts. */
  method HashPieces(pieces: seq<bytes>, outLength: nat, width: nat) returns (out: bytes)
    requires width >= 32
    ensures |HashWithCount(Flatten(pieces), CountAfter(pieces, width))| == 32
    ensures out == HashWithCount(Flatten(pieces), CountAfter(pieces, width))[..if outLength < 32 then outLength else 32]
    ensures AllCount(pieces, width) ==>
      HashWithCount(Flatten(pieces), CountAfter(pieces, width)) == Hash(Flatten(pieces))
  {
    hide Low, Pow2, DigestAfter, DigitsValue, GoodDigits, Is32, Hash, Counts, PadTo64, BigEndianBytes, DigestBytes;
    hide Recount, HashWithCount, AllCount;
    var hasher := new Hash256OneByOne(width);
    PowersOfZero(64);
    for i := 0 to |pieces|
      invariant hasher.Hashed() && hasher.message == Flatten(pieces[..i]) && hasher.width == width
      invariant hasher.Counted() == CountAfter(pieces[..i], width)
      invariant fresh(hasher) && fresh(hasher.h) && fresh(hasher.dataLengthDigits)
    {
      assert pieces[..i + 1][..i] == pieces[..i];
      hasher.Process(pieces[i]);
    }
    assert pieces[..|pieces|] == pieces;
    hasher.Finish();
    UnfoldHash(Flatten(pieces), hasher.Counted());
    HashLength(Flatten(pieces), hasher.Counted());
    out := hasher.GetHashBytes(outLength);
    if AllCount(pieces, width) {
      CountsRight(pieces, width);
      LowOfLow(|Flatten(pieces)|, 64);
      SameCount(Flatten(pieces), CountAfter(pieces, width), |Flatten(pieces)|);
      RightCount(Flatten(pieces));
    }
  }

  lemma UnfoldHash(message: bytes, count: nat)
    ensures HashWithCount(message, count) == DigestBytes(DigestAfter(PadTo64(message, BigEndianBytes(8 * count, 8))))
  {
  }

  /** A piece of at most an int's size is always counted. */
  lemma PieceCounts(d: seq<nat>, n: nat, width: nat)
    requires GoodDigits(d) && n < 0x8000_0000 && width >= 32
    ensures Counts(d[0], n, width)
  {
    hide Pow2;
    SmallPowers();
    Pow2Monotone(32, width);
  }

  /** Piece by piece through a buffer, as for input iterators; `at` is the iterator's position. The size
      of the buffer is a positive int. */
  method Hash256Input(data: bytes, outLength: nat, bufferSize: nat, width: nat) returns (out: bytes)
    requires width >= 32 && 0 < bufferSize < 0x8000_0000
    ensures |Hash(data)| == 32 && out == Hash(data)[..if outLength < 32 then outLength else 32]
  {
    hide Low, Pow2, DigestAfter, DigitsValue, GoodDigits, Is32, Hash, Counts, PadTo64, BigEndianBytes, DigestBytes;
    hide Bumped;
    var buffer := new byte[bufferSize];
    var hasher := new Hash256OneByOne(width);
    var at := 0;
    while at != |data|
      invariant at <= |data|
      invariant hasher.Valid() && hasher.message == data[..at] && hasher.width == width
      invariant fresh(hasher) && fresh(hasher.h) && fresh(hasher.dataLengthDigits)
      decreases |data| - at
    {
      var size := ReadPiece(data, at, buffer);
      assert data[..at] + buffer[..size] == data[..at + size];
      PieceCounts(hasher.dataLengthDigits[..], size, width);
      hasher.Process(buffer[..size]);
      at := at + size;
    }
    assert data[..at] == data;
    hasher.Finish();
    LowOfLow(|data|, 64);
    SameCount(data, hasher.Counted(), |data|);
    RightCount(data);
    HashLength(data, |data|);
    out := hasher.GetHashBytes(outLength);
  }

  /** Fills the buffer from position `at`, or as far as the data goes. */
  method ReadPiece(data: bytes, at: nat, buffer: array<byte>) returns (size: nat)
    requires at < |data| && buffer.Length > 0
    modifies buffer
    ensures 0 < size <= buffer.Length && at + size <= |data|
    ensures buffer[..size] == data[at..at + size]
  {
    size := buffer.Length;
    var i := 0;
    while i != buffer.Length
      invariant 0 <= i <= buffer.Length == size && at + i <= |data|
      invariant buffer[..i] == data[at..at + i]
      decreases buffer.Length - i
    {
      if at + i == |data| {
        size := i;
        break;
      }
      buffer[i] := data[at + i];
      i := i + 1;
    }
  }
}
