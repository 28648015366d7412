/** Compact targets, the proof-of-work check and the nonce search. */
module ProofOfWork {
  import opened Bytes
  import opened Wrappers
  import opened Powers
  import opened BitWords
  import opened Serializer
  import opened Blocks

  /** The number that `b` denotes, most significant byte first. */
  function FromBigEndian(b: bytes): (n: nat)
    ensures n < Pow2(8 * |b|)
    decreases |b|
  {
    if b == [] then 0 else
      TopByte(b[0], |b| - 1, FromBigEndian(b[1..]));
      Shl(b[0], 8 * (|b| - 1)) + FromBigEndian(b[1..])
  }

  lemma TopByte(x: byte, k: nat, rest: nat)
    requires rest < Pow2(8 * k)
    ensures 0 <= Shl(x, 8 * k) <= Shl(x, 8 * k) + rest < Shl(x + 1, 8 * k) <= Pow2(8 * k + 8)
  {
    hide Shl, Pow2;
    ShlNat(x, 8 * k);
    ShlAdd(x, 1, 8 * k);
    ShlOne(8 * k);
    ShlMonotone(x + 1, 256, 8 * k);
    EightMore(8 * k);
    ShlIsProduct(256, 8 * k);
  }

  /** Each further byte multiplies by 256. */
  lemma {:induction false} BigEndianStep(b: bytes, x: byte)
    ensures FromBigEndian([]) == 0
    ensures FromBigEndian(b + [x]) == 256 * FromBigEndian(b) + x
    decreases |b|
  {
    hide Shl;
    if b == [] {
      NextDigit(x, []);
      ShlZero(x);
      assert [] + [x] == [x] + [];
    } else {
      var rest, k := b[1..], 8 * (|b| - 1);
      BigEndianStep(rest, x);
      NextDigit(b[0], rest);
      NextDigit(b[0], rest + [x]);
      assert [b[0]] + rest == b && [b[0]] + (rest + [x]) == b + [x];
      ShlShl(b[0], k, 8);
      EightTimes(Shl(b[0], k));
    }
  }

  lemma ShlZero(n: int)
    ensures Shl(n, 0) == n
  {
  }

  /** The order of std::array, which compares byte by byte from the front. */
  predicate Less(a: bytes, b: bytes)
    requires |a| == |b|
  {
    a != [] && (a[0] < b[0] || (a[0] == b[0] && Less(a[1..], b[1..])))
  }

  /** Lexicographic order of byte arrays of one length is the order of the numbers they denote. */
  lemma {:induction false} LessIsNumeric(a: bytes, b: bytes)
    requires |a| == |b|
    ensures Less(a, b) <==> FromBigEndian(a) < FromBigEndian(b)
  {
    if a != [] {
      LessIsNumeric(a[1..], b[1..]);
      var k := |a| - 1;
      TopByte(a[0], k, FromBigEndian(a[1..]));
      TopByte(b[0], k, FromBigEndian(b[1..]));
      if a[0] < b[0] {
        ShlMonotone(a[0] + 1, b[0], 8 * k);
      } else if b[0] < a[0] {
        ShlMonotone(b[0] + 1, a[0], 8 * k);
      }
    }
  }

  /** The fields of a compact target: the exponent in the top byte, the sign in bit 23, the
      magnitude below it. */
  function Exponent(bits: uint32): (e: nat)
    ensures e < 256
  {
    bits / 0x100_0000
  }

  function Mantissa(bits: uint32): (m: nat)
    ensures m < 0x80_0000
  {
    bits % 0x80_0000
  }

  predicate Negative(bits: uint32) {
    bits / 0x80_0000 % 2 == 1
  }

  /** The number that a compact target stands for: mantissa * 256^(exponent - 3), rounded down, and
      zero for what is negative or too large. */
  function TargetValue(bits: uint32): nat {
    if Negative(bits) || Exponent(bits) > 32 then 0
    else if Exponent(bits) <= 3 then Shr(Mantissa(bits), 8 * (3 - Exponent(bits)))
    else
      ShlNat(Mantissa(bits), 8 * (Exponent(bits) - 3));
      Shl(Mantissa(bits), 8 * (Exponent(bits) - 3))
  }

  /** The fields of a compact target with the bytes and bits written out. */
  lemma CompactLayout(bits: uint32, exponent: nat, sign: nat, mantissa: nat)
    requires exponent < 256 && sign < 2 && mantissa < 0x80_0000
    requires bits == exponent * 0x100_0000 + sign * 0x80_0000 + mantissa
    ensures Exponent(bits) == exponent && Mantissa(bits) == mantissa && (Negative(bits) <==> sign == 1)
  {
  }

  /** The target in arithmetic: mantissa * 256^(exponent - 3) rounded down, or zero. */
  lemma TargetLaw(bits: uint32)
    ensures bits / 0x80_0000 % 2 == 1 || bits / 0x100_0000 > 32 ==> TargetValue(bits) == 0
    ensures bits / 0x80_0000 % 2 == 0 && bits / 0x100_0000 < 3 ==>
      TargetValue(bits) == bits % 0x80_0000 / Pow2(8 * (3 - bits / 0x100_0000))
    ensures bits / 0x80_0000 % 2 == 0 && 3 <= bits / 0x100_0000 <= 32 ==>
      TargetValue(bits) == bits % 0x80_0000 * Pow2(8 * (bits / 0x100_0000 - 3))
  {
    hide Shl, Shr, Pow2;
    var exponent, mantissa := bits / 0x100_0000, bits % 0x80_0000;
    if exponent <= 3 {
      ShrIsQuotient(mantissa, 8 * (3 - exponent));
      PowZero();
    } else {
      ShlIsProduct(mantissa, 8 * (exponent - 3));
    }
  }

  method BitsToTarget(bits: uint32) returns (target: Hash256)
    ensures FromBigEndian(target) == TargetValue(bits)
  {
    hide FromBigEndian, Shl, Shr, Zeros, Exponent, Mantissa, Negative;
    target := Zeros(32);
    var exponent, mantissa := Exponent(bits), Mantissa(bits);
    ZerosDenoteZero(32);
    if Negative(bits) {
      return;
    }
    if exponent > 32 {
      return;
    }
    if exponent <= 3 {
      ShrDecreases(mantissa, 8 * (3 - exponent));
      mantissa := Shr(mantissa, 8 * (3 - exponent));
      target := target[29 := mantissa / 0x1_0000 % 256];
      target := target[30 := mantissa / 256 % 256];
      target := target[31 := mantissa % 256];
      ThreeBytesAt(mantissa, 0, target);
      ShlZero(mantissa);
    } else {
      var offset := 32 - exponent;
      target := target[offset := mantissa / 0x1_0000 % 256];
      target := target[offset + 1 := mantissa / 256 % 256];
      target := target[offset + 2 := mantissa % 256];
      ThreeBytesAt(mantissa, exponent - 3, target);
    }
  }

  lemma {:induction false} ZerosDenoteZero(k: nat)
    ensures FromBigEndian(Zeros(k)) == 0
  {
    if k > 0 {
      ZerosDenoteZero(k - 1);
      assert Zeros(k)[1..] == Zeros(k - 1);
      ShlMonotone(0, 0, 8 * (k - 1));
    }
  }

  lemma {:induction false} LeadingZeros(j: nat, b: bytes)
    ensures FromBigEndian(Zeros(j) + b) == FromBigEndian(b)
  {
    if j == 0 {
      assert Zeros(j) + b == b;
    } else {
      LeadingZeros(j - 1, b);
      assert (Zeros(j) + b)[1..] == Zeros(j - 1) + b;
      ShlMonotone(0, 0, 8 * (j - 1 + |b|));
    }
  }

  lemma NextDigit(x: byte, rest: bytes)
    ensures FromBigEndian([x] + rest) == Shl(x, 8 * |rest|) + FromBigEndian(rest)
  {
    assert ([x] + rest)[1..] == rest;
  }

  lemma ThreeBytesAt(mantissa: nat, k: nat, target: Hash256)
    requires mantissa < 0x100_0000 && k <= 29
    requires target ==
      Zeros(32)[29 - k := mantissa / 0x1_0000 % 256][30 - k := mantissa / 256 % 256][31 - k := mantissa % 256]
    ensures FromBigEndian(target) == Shl(mantissa, 8 * k)
  {
    hide FromBigEndian, Shl, Zeros;
    Digits(mantissa);
    Spread(mantissa / 0x1_0000 % 256, mantissa / 256 % 256, mantissa % 256, k);
  }

  lemma Digits(mantissa: nat)
    requires mantissa < 0x100_0000
    ensures mantissa == 0x1_0000 * (mantissa / 0x1_0000 % 256) + 256 * (mantissa / 256 % 256) + mantissa % 256
  {
  }

  /** Three bytes with `k` zero bytes behind them. */
  lemma Spread(a: byte, b: byte, c: byte, k: nat)
    requires k <= 29
    ensures FromBigEndian(Zeros(32)[29 - k := a][30 - k := b][31 - k := c]) == Shl(0x1_0000 * a + 256 * b + c, 8 * k)
  {
    hide FromBigEndian, Shl, Zeros;
    Layout(a, b, c, k);
    LeadingZeros(29 - k, [a] + ([b] + ([c] + Zeros(k))));
    NextDigit(a, [b] + ([c] + Zeros(k)));
    NextDigit(b, [c] + Zeros(k));
    NextDigit(c, Zeros(k));
    ZerosDenoteZero(k);
    ThreeShifts(a, b, c, 8 * k);
  }

  lemma Layout(a: byte, b: byte, c: byte, k: nat)
    requires k <= 29
    ensures Zeros(32)[29 - k := a][30 - k := b][31 - k := c] == Zeros(29 - k) + ([a] + ([b] + ([c] + Zeros(k))))
  {
  }

  lemma ThreeShifts(a: nat, b: nat, c: nat, k: nat)
    ensures Shl(a, k + 16) + Shl(b, k + 8) + Shl(c, k) == Shl(0x1_0000 * a + 256 * b + c, k)
  {
    hide Shl;
    EightTimes(a);
    EightTimes(256 * a);
    EightTimes(b);
    ShlShl(a, 8, 8);
    ShlShl(a, 16, k);
    ShlShl(b, 8, k);
    ShlAdd(0x1_0000 * a, 256 * b, k);
    ShlAdd(0x1_0000 * a + 256 * b, c, k);
  }

  /** What a valid proof of work means: the header's hash, as a number, is at most the target. */
  predicate Passes(h: Hasher, header: Header) {
    FromBigEndian(HeaderHash(h, header)) <= TargetValue(header.nBits)
  }

  /** A header passes exactly if its hash is at most its target, and so does every header with a smaller
      hash and a larger target. */
  lemma PassesBelow(h: Hasher, header: Header, other: Header)
    ensures Passes(h, header) <==> FromBigEndian(h(SerializeHeader(header))) <= TargetValue(header.nBits)
    ensures
      && Passes(h, header) && TargetValue(header.nBits) <= TargetValue(other.nBits)
      && FromBigEndian(h(SerializeHeader(other))) <= FromBigEndian(h(SerializeHeader(header)))
      ==>
        Passes(h, other)
  {
    hide FromBigEndian, TargetValue, SerializeHeader;
  }

  method CheckProofOfWork(h: Hasher, header: Header) returns (result: bool)
    ensures result <==> Passes(h, header)
    ensures result <==> FromBigEndian(h(SerializeHeader(header))) <= TargetValue(header.nBits)
  {
    hide TargetValue, FromBigEndian, SerializeHeader, Less;
    var target := BitsToTarget(header.nBits);
    var hash := HeaderHash(h, header);
    LessIsNumeric(target, hash);
    result := !Less(target, hash);
  }

  const WRAP: nat := 0x1_0000_0000

  /** The header of attempt `k`: all nonces in order, then the next second, modulo 2^32. */
  function Attempt(start: Header, bits: uint32, k: nat): Header {
    start.(nBits := bits, nNonce := k % WRAP, nTime := (start.nTime + k / WRAP) % WRAP)
  }

  ghost predicate FirstPassing(h: Hasher, start: Header, bits: uint32, k: nat) {
    Passes(h, Attempt(start, bits, k)) && forall j: nat :: j < k ==> !Passes(h, Attempt(start, bits, j))
  }

  lemma FirstAttempt(start: Header, bits: uint32)
    ensures Attempt(start, bits, 0) == start.(nBits := bits, nNonce := 0)
  {
  }

  /** The first passing attempt in numbers: its hash is at most the target, those of all earlier ones exceed it. */
  lemma FirstPassingMeans(h: Hasher, start: Header, bits: uint32, k: nat)
    ensures FirstPassing(h, start, bits, k) <==>
      && FromBigEndian(h(SerializeHeader(Attempt(start, bits, k)))) <= TargetValue(bits)
      && forall j: nat :: j < k ==> FromBigEndian(h(SerializeHeader(Attempt(start, bits, j)))) > TargetValue(bits)
  {
    hide FromBigEndian, TargetValue, SerializeHeader;
    AttemptBits(start, bits);
    assert forall j: nat ::
      Passes(h, Attempt(start, bits, j))
      <==> FromBigEndian(h(SerializeHeader(Attempt(start, bits, j)))) <= TargetValue(bits);
  }

  lemma AttemptBits(start: Header, bits: uint32)
    ensures forall j: nat :: Attempt(start, bits, j).nBits == bits
  {
  }

  /** The search, stopped after `fuel` steps; it changes nothing but nBits, nNonce and nTime, and
      finds the first attempt that passes. */
  method MineBlock(h: Hasher, start: Header, nBitsTarget: uint32, fuel: nat) returns (mined: Option<Header>)
    ensures mined.None? <==> forall j: nat :: j <= fuel ==> !Passes(h, Attempt(start, nBitsTarget, j))
    ensures mined.Some? ==> exists k: nat ::
      k <= fuel && FirstPassing(h, start, nBitsTarget, k) && mined.value == Attempt(start, nBitsTarget, k)
  {
    hide TargetValue, FromBigEndian, SerializeHeader, Less, HeaderHash;
    var header := start.(nBits := nBitsTarget, nNonce := 0);
    var target := BitsToTarget(header.nBits);
    var k: nat := 0;
    var hash := HeaderHash(h, header);
    LessIsNumeric(target, hash);
    while Less(target, hash)
      invariant k <= fuel && header == Attempt(start, nBitsTarget, k) && hash == HeaderHash(h, header)
      invariant Less(target, hash) <==> !Passes(h, header)
      invariant forall j: nat :: j < k ==> !Passes(h, Attempt(start, nBitsTarget, j))
      decreases fuel - k
    {
      if k == fuel {
        return None;
      }
      NextAttempt(start, nBitsTarget, k);
      if header.nNonce == WRAP - 1 {
        header := header.(nNonce := 0, nTime := (header.nTime + 1) % WRAP);
      } else {
        header := header.(nNonce := header.nNonce + 1);
      }
      k := k + 1;
      hash := HeaderHash(h, header);
      LessIsNumeric(target, hash);
    }
    assert FirstPassing(h, start, nBitsTarget, k);
    mined := Some(header);
  }

  /** All nonces in turn, and then, from zero again, those of the next second. */
  lemma NextAttempt(start: Header, bits: uint32, k: nat)
    ensures var now, next := Attempt(start, bits, k), Attempt(start, bits, k + 1);
      next == if now.nNonce == 0xffff_ffff then now.(nNonce := 0, nTime := (now.nTime + 1) % 0x1_0000_0000)
        else now.(nNonce := now.nNonce + 1)
  {
    if k % WRAP == WRAP - 1 {
      assert (k + 1) / WRAP == k / WRAP + 1 && (k + 1) % WRAP == 0;
    } else {
      assert (k + 1) / WRAP == k / WRAP && (k + 1) % WRAP == k % WRAP + 1;
    }
  }

  /** Attempts repeat after 2^64 steps, so a search that has not stopped by then never stops. */
  lemma AttemptsRepeat(h: Hasher, start: Header, bits: uint32, k: nat)
    ensures Attempt(start, bits, k % (WRAP * WRAP)) == Attempt(start, bits, k)
    ensures (forall j: nat :: j < WRAP * WRAP ==> !Passes(h, Attempt(start, bits, j))) ==>
      !Passes(h, Attempt(start, bits, k))
  {
    var q, r := k / (WRAP * WRAP), k % (WRAP * WRAP);
    assert k == WRAP * (WRAP * q + r / WRAP) + r % WRAP;
    assert k / WRAP == WRAP * q + r / WRAP && k % WRAP == r % WRAP;
    assert start.nTime + k / WRAP == WRAP * q + (start.nTime + r / WRAP);
    assert (start.nTime + k / WRAP) % WRAP == (start.nTime + r / WRAP) % WRAP;
  }

  /** As long as the time does not wrap, the attempt found is the first passing pair of time and
      nonce: no earlier time from the start on with any nonce passes, and no smaller nonce. */
  lemma FirstPassingPair(h: Hasher, start: Header, bits: uint32, k: nat, time: uint32, nonce: uint32)
    requires FirstPassing(h, start, bits, k) && start.nTime + k / WRAP < WRAP
    requires start.nTime <= time
    ensures var mined := Attempt(start, bits, k);
      && mined == start.(nBits := bits, nTime := start.nTime + k / WRAP, nNonce := k % WRAP)
      && (time < mined.nTime || (time == mined.nTime && nonce < mined.nNonce)
          ==> !Passes(h, start.(nBits := bits, nTime := time, nNonce := nonce)))
  {
    hide Passes;
    var j := (time - start.nTime) * WRAP + nonce;
    assert j / WRAP == time - start.nTime && j % WRAP == nonce;
    assert Attempt(start, bits, j) == start.(nBits := bits, nTime := time, nNonce := nonce);
  }
}
