/** Folding a compression function over the 64-byte blocks of a byte string, and the padding that
    makes a message a whole number of blocks. */
module BlockHashing {
  import opened Bytes
  import opened Powers
  import opened BitWords

  /** The state after all blocks of `data`, first block first. */
  function Fold<S>(f: (S, bytes) -> S, state: S, data: bytes): S
    requires |data| % 64 == 0
  {
    if data == [] then state else Fold(f, f(state, data[..64]), data[64..])
  }

  lemma {:induction false} FoldConcat<S>(f: (S, bytes) -> S, state: S, x: bytes, y: bytes)
    requires |x| % 64 == 0 && |y| % 64 == 0
    ensures Fold(f, state, x + y) == Fold(f, Fold(f, state, x), y)
    decreases |x|
  {
    if x == [] {
      assert x + y == y;
    } else {
      assert (x + y)[..64] == x[..64] && (x + y)[64..] == x[64..] + y;
      FoldConcat(f, f(state, x[..64]), x[64..], y);
    }
  }

  lemma FoldOne<S>(f: (S, bytes) -> S, state: S, block: bytes)
    requires |block| == 64
    ensures Fold(f, state, []) == state
    ensures Fold(f, state, block) == f(state, block)
  {
    assert block[..64] == block && block[64..] == [];
  }

  /** One more block at the end. */
  lemma FoldNext<S>(f: (S, bytes) -> S, state: S, data: bytes, block: bytes)
    requires |data| % 64 == 0 && |block| == 64
    ensures Fold(f, state, data + block) == f(Fold(f, state, data), block)
  {
    FoldConcat(f, state, data, block);
    FoldOne(f, Fold(f, state, data), block);
  }

  /** `n` modulo 256^k, most significant byte first. */
  function BigEndianBytes(n: nat, k: nat): (r: bytes)
    ensures |r| == k
  {
    if k == 0 then [] else BigEndianBytes(n / 256, k - 1) + [n % 256]
  }

  /** The number of zero bytes that fills the last block up to the eight length bytes. */
  function ZeroCount(n: nat): (z: nat)
    ensures (n + 1 + z + 8) % 64 == 0 && z < 64
  {
    if n % 64 <= 55 then 55 - n % 64 else 119 - n % 64
  }

  /** `n` modulo 256^k, least significant byte first. */
  function LittleEndianBytes(n: nat, k: nat): (r: bytes)
    ensures |r| == k
  {
    if k == 0 then [] else [n % 256] + LittleEndianBytes(n / 256, k - 1)
  }

  /** The message, a one bit, zero bits up to eight bytes before a block boundary, and a length field. */
  function PadTo64(message: bytes, length: bytes): (r: bytes)
    requires |length| == 8
    ensures |r| % 64 == 0
  {
    message + [0x80] + Zeros(ZeroCount(|message|)) + length
  }

  /** The padded message byte by byte: the message, 0x80, zeros, and the length field at the end of a block. */
  lemma PaddedTo64(message: bytes, length: bytes)
    requires |length| == 8
    ensures var p, n := PadTo64(message, length), |message|;
      && n + 9 <= |p| <= n + 72 && |p| % 64 == 0
      && p[..n] == message && p[n] == 0x80
      && (forall j :: n < j < |p| - 8 ==> p[j] == 0)
      && p[|p| - 8..] == length
  {
    hide ZeroCount;
    var p, z := PadTo64(message, length), ZeroCount(|message|);
    assert |p| == |message| + 1 + z + 8;
  }

  /** The padded message in terms of the `r` bytes left after its whole blocks: one more block, or two. */
  lemma PadShape(message: bytes, r: nat, length: bytes)
    requires r < 64 && r <= |message| && (|message| - r) % 64 == 0
    requires |length| == 8
    ensures var done, rest := message[..|message| - r], message[|message| - r..];
      && (r <= 55 ==> PadTo64(message, length) == done + (rest + [0x80] + Zeros(55 - r) + length))
      && (r > 55 ==> PadTo64(message, length) == done + (rest + [0x80] + Zeros(63 - r)) + (Zeros(56) + length))
  {
    hide ZeroCount, Zeros;
    var done, rest := message[..|message| - r], message[|message| - r..];
    assert message == done + rest;
    ZerosNeeded(|message|, r);
    if r <= 55 {
      Regroup(done, rest, Zeros(55 - r), [], length);
    } else {
      Regroup(done, rest, Zeros(63 - r), Zeros(56), length);
    }
  }

  lemma ZerosNeeded(n: nat, r: nat)
    requires r < 64 && r <= n && (n - r) % 64 == 0
    ensures ZeroCount(n) == if r <= 55 then 55 - r else 119 - r
    ensures r > 55 ==> Zeros(119 - r) == Zeros(63 - r) + Zeros(56)
  {
  }

  lemma Regroup(a: bytes, b: bytes, z: bytes, y: bytes, l: bytes)
    ensures a + b + [0x80] + (z + y) + l == a + (b + [0x80] + z) + (y + l)
    ensures y == [] ==> a + b + [0x80] + z + l == a + (b + [0x80] + z + l)
  {
  }

  /** Two more bytes at the end. */
  lemma BigEndianTwoMore(n: nat, b: nat, k: nat)
    requires b < 0x1_0000
    ensures BigEndianBytes(0x1_0000 * n + b, k + 2) == BigEndianBytes(n, k) + [b / 256, b % 256]
  {
    var m := 0x1_0000 * n + b;
    assert m % 256 == b % 256 && m / 256 == 256 * n + b / 256;
    assert m / 256 % 256 == b / 256 && m / 256 / 256 == n;
    assert BigEndianBytes(m, k + 2) == BigEndianBytes(m / 256, k + 1) + [m % 256];
    assert BigEndianBytes(m / 256, k + 1) == BigEndianBytes(m / 256 / 256, k) + [m / 256 % 256];
  }

  lemma NoBytes(n: nat)
    ensures BigEndianBytes(n, 0) == []
  {
  }

  /** Only the low 8k bits of a number appear in its k bytes. */
  lemma {:induction false} BigEndianOfLow(n: nat, k: nat)
    ensures BigEndianBytes(Low(n, 8 * k), k) == BigEndianBytes(n, k)
  {
    if k > 0 {
      EightLower(n, 8 * k);
      BigEndianOfLow(n / 256, k - 1);
      assert 8 * k - 8 == 8 * (k - 1);
    }
  }

  lemma EightLower(n: nat, j: nat)
    requires j >= 8
    ensures Low(n, j) % 256 == n % 256 && Low(n, j) / 256 == Low(n / 256, j - 8)
  {
    hide Low, Shl, Pow2;
    SmallPowers();
    LowOfConcat(n / 256, n % 256, 8, j - 8);
    ShlIsProduct(n / 256, 8);
    ShlIsProduct(Low(n / 256, j - 8), 8);
  }

  /** Byte `i`, counted from the least significant one, is the digit of 256^i. */
  lemma {:induction false} ByteOfNumber(n: nat, k: nat, i: nat)
    requires i < k
    ensures BigEndianBytes(n, k)[k - 1 - i] == LittleEndianBytes(n, k)[i] == n / Pow2(8 * i) % 256
  {
    hide Pow2;
    if i > 0 {
      ByteOfNumber(n / 256, k - 1, i - 1);
      NextQuotient(n, i - 1);
    } else {
      PowZero();
    }
  }

  lemma NextQuotient(n: nat, i: nat)
    ensures n / Pow2(8 * (i + 1)) == n / 256 / Pow2(8 * i)
  {
    hide Pow2, Shr;
    ShrShr(n, 8, 8 * i);
    ShrEight(n);
    ShrIsQuotient(n, 8 * (i + 1));
    ShrIsQuotient(n / 256, 8 * i);
    assert 8 * (i + 1) == 8 + 8 * i;
  }

  lemma {:induction false} LittleIsReversedBig(n: nat, k: nat, i: nat)
    requires i < k
    ensures LittleEndianBytes(n, k)[i] == BigEndianBytes(n, k)[k - 1 - i]
  {
    if i > 0 {
      LittleIsReversedBig(n / 256, k - 1, i - 1);
    }
  }
}
