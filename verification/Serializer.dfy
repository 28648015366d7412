/** Little-endian integers and raw bytes on growing buffers, and readers that advance an offset. */
module Serializer {
  import opened Bytes
  import opened Wrappers
  import opened Powers
  import opened BitWords
  import opened BlockHashing

  type uint32 = n: nat | n < 0x1_0000_0000
  type uint64 = n: nat | n < 0x1_0000_0000_0000_0000
  type int32 = n: int | -0x8000_0000 <= n < 0x8000_0000
  type int64 = n: int | -0x8000_0000_0000_0000 <= n < 0x8000_0000_0000_0000
  type Hash256 = h: bytes | |h| == 32 witness Zeros(32)

  /** Double SHA-256, of which nothing is assumed. */
  type Hasher = bytes -> Hash256

  /** What a reader returns: the value and the offset behind it. */
  datatype Read<+T> = Read(value: T, next: nat)

  /** `s` is what `data` holds from `at` on. */
  predicate Holds(data: bytes, at: nat, s: bytes) {
    at + |s| <= |data| && data[at..at + |s|] == s
  }

  lemma HoldsExactly(data: bytes, at: nat, s: bytes)
    ensures Holds(data, at, s) <==> at + |s| <= |data| && forall i :: 0 <= i < |s| ==> data[at + i] == s[i]
  {
    if at + |s| <= |data| {
      var part := data[at..at + |s|];
      assert forall i :: 0 <= i < |part| ==> part[i] == data[at + i];
      if forall i :: 0 <= i < |s| ==> data[at + i] == s[i] {
        assert part == s;
      }
    }
  }

  lemma HoldsBoth(data: bytes, at: nat, s: bytes, t: bytes)
    ensures Holds(data, at, s + t) <==> Holds(data, at, s) && Holds(data, at + |s|, t)
  {
    var n := at + |s| + |t|;
    if n <= |data| {
      assert data[at..n] == data[at..at + |s|] + data[at + |s|..n];
      if Holds(data, at, s + t) {
        assert data[at..at + |s|] == (s + t)[..|s|] && data[at + |s|..n] == (s + t)[|s|..];
      }
    }
  }

  lemma HoldsPart(prefix: bytes, s: bytes, suffix: bytes)
    ensures Holds(prefix + s + suffix, |prefix|, s)
  {
  }

  /** The number that `b` denotes, least significant byte first. */
  function FromLittleEndian(b: bytes): nat {
    if b == [] then 0 else b[0] + 256 * FromLittleEndian(b[1..])
  }

  lemma {:induction false} LittleEndianRoundTrip(n: nat, k: nat)
    ensures FromLittleEndian(LittleEndianBytes(n, k)) == Low(n, 8 * k)
  {
    if k > 0 {
      LittleEndianRoundTrip(n / 256, k - 1);
      EightLower(n, 8 * k);
      assert 8 * k - 8 == 8 * (k - 1);
      assert LittleEndianBytes(n, k)[1..] == LittleEndianBytes(n / 256, k - 1);
    }
  }

  lemma {:induction false} LittleEndianOnto(b: bytes)
    ensures LittleEndianBytes(FromLittleEndian(b), |b|) == b
    ensures FromLittleEndian(b) < Pow2(8 * |b|)
  {
    if b != [] {
      LittleEndianOnto(b[1..]);
      var rest := FromLittleEndian(b[1..]);
      assert FromLittleEndian(b) / 256 == rest && FromLittleEndian(b) % 256 == b[0];
      EightMore(8 * |b[1..]|);
    }
  }

  lemma {:induction false} LastByte(b: bytes, x: byte)
    ensures Shl(x, 8 * |b|) >= 0
    ensures FromLittleEndian(b + [x]) == FromLittleEndian(b) + Shl(x, 8 * |b|)
  {
    ShlNat(x, 8 * |b|);
    if b == [] {
      assert b + [x] == [x];
    } else {
      LastByte(b[1..], x);
      assert (b + [x])[1..] == b[1..] + [x];
      ShlShl(x, 8 * |b[1..]|, 8);
      EightTimes(Shl(x, 8 * |b[1..]|));
    }
  }

  lemma {:induction false} OrCommutes(x: nat, y: nat, w: nat)
    ensures Or(x, y, w) == Or(y, x, w)
  {
    if w > 0 {
      OrCommutes(x / 2, y / 2, w - 1);
    }
  }

  /** One more byte, shifted into place and or-ed on. */
  lemma OrNextByte(b: bytes, x: byte, w: nat)
    requires 8 * |b| + 8 <= w
    ensures Or(FromLittleEndian(b), ShlWord(x, 8 * |b|, w), w) == FromLittleEndian(b + [x])
  {
    hide Shl, Low, Bitwise, Pow2, FromLittleEndian, Or;
    var k := 8 * |b|;
    LittleEndianOnto(b);
    LastByte(b, x);
    ByteFits(x, k, w);
    LowOfSmall(Shl(x, k), w);
    OrCommutes(FromLittleEndian(b), Shl(x, k), w);
    OrDisjoint(x, FromLittleEndian(b), k, w);
  }

  lemma ByteFits(x: byte, k: nat, w: nat)
    requires k + 8 <= w
    ensures Shl(x, k) < Pow2(w)
  {
    hide Shl, Pow2;
    ShlMonotone(x, 256, k);
    EightMore(k);
    Pow2Monotone(k + 8, w);
    ShlIsProduct(256, k);
  }

  /** What a little-endian reader of `k` bytes returns; Error stands for std::out_of_range. */
  function ReadInteger(data: bytes, at: nat, k: nat): Result<Read<nat>> {
    if at + k <= |data| then Ok(Read(FromLittleEndian(data[at..at + k]), at + k)) else Error
  }

  /** The readers invert the writers and accept nothing else. */
  lemma ReadIntegerExact(data: bytes, at: nat, k: nat, n: nat, next: nat)
    requires n < Pow2(8 * k)
    ensures ReadInteger(data, at, k) == Ok(Read(n, next))
      <==> Holds(data, at, LittleEndianBytes(n, k)) && next == at + k
  {
    hide FromLittleEndian, LittleEndianBytes, Pow2;
    LittleEndianRoundTrip(n, k);
    LowOfSmall(n, 8 * k);
    if at + k <= |data| {
      LittleEndianOnto(data[at..at + k]);
    }
  }

  lemma ReadIntegerRange(data: bytes, at: nat, k: nat)
    ensures ReadInteger(data, at, k).Ok? ==> ReadInteger(data, at, k).value.value < Pow2(8 * k)
  {
    if at + k <= |data| {
      LittleEndianOnto(data[at..at + k]);
    }
  }

  function ReadUint32(data: bytes, at: nat): (r: Result<Read<uint32>>)
    ensures r == ReadInteger(data, at, 4)
  {
    ReadIntegerRange(data, at, 4);
    SmallPowers();
    ReadInteger(data, at, 4)
  }

  function ReadUint64(data: bytes, at: nat): (r: Result<Read<uint64>>)
    ensures r == ReadInteger(data, at, 8)
  {
    ReadIntegerRange(data, at, 8);
    Pow64();
    ReadInteger(data, at, 8)
  }

  lemma Pow64()
    ensures Pow2(64) == 0x1_0000_0000_0000_0000
  {
    hide Pow2;
    SmallPowers();
    Pow2Sum(32, 32);
  }

  lemma Uint32Exact(data: bytes, at: nat, n: uint32, next: nat)
    ensures ReadUint32(data, at) == Ok(Read(n, next)) <==> Holds(data, at, LittleEndianBytes(n, 4)) && next == at + 4
  {
    hide Pow2, ReadInteger;
    SmallPowers();
    ReadIntegerExact(data, at, 4, n, next);
  }

  lemma Uint64Exact(data: bytes, at: nat, n: uint64, next: nat)
    ensures ReadUint64(data, at) == Ok(Read(n, next)) <==> Holds(data, at, LittleEndianBytes(n, 8)) && next == at + 8
  {
    hide Pow2, ReadInteger;
    Pow64();
    ReadIntegerExact(data, at, 8, n, next);
  }

  function ReadBytes(data: bytes, at: nat, len: nat): Result<Read<bytes>> {
    if at + len <= |data| then Ok(Read(data[at..at + len], at + len)) else Error
  }

  function ReadBytes32(data: bytes, at: nat): Result<Read<Hash256>> {
    if at + 32 <= |data| then Ok(Read(data[at..at + 32], at + 32)) else Error
  }

  lemma BytesExact(data: bytes, at: nat, s: bytes, next: nat)
    ensures ReadBytes(data, at, |s|) == Ok(Read(s, next)) <==> Holds(data, at, s) && next == at + |s|
  {
  }

  /** The unsigned casts that the writers apply to signed fields, and the casts back. */
  function ToUint32(n: int32): uint32 {
    if n < 0 then n + 0x1_0000_0000 else n
  }

  function ToInt32(n: uint32): int32 {
    if n < 0x8000_0000 then n else n - 0x1_0000_0000
  }

  function ToUint64(n: int64): uint64 {
    if n < 0 then n + 0x1_0000_0000_0000_0000 else n
  }

  function ToInt64(n: uint64): int64 {
    if n < 0x8000_0000_0000_0000 then n else n - 0x1_0000_0000_0000_0000
  }

  /** Two's complement: the casts keep the number modulo the size of the word, and undo one another. */
  lemma TwosComplement(n: int32, m: uint32)
    ensures ToUint32(n) == n % 0x1_0000_0000 && ToInt32(ToUint32(n)) == n
    ensures (ToInt32(m) - m) % 0x1_0000_0000 == 0 && ToUint32(ToInt32(m)) == m
  {
  }

  lemma LongTwosComplement(n: int64, m: uint64)
    ensures ToUint64(n) == n % 0x1_0000_0000_0000_0000 && ToInt64(ToUint64(n)) == n
    ensures (ToInt64(m) - m) % 0x1_0000_0000_0000_0000 == 0 && ToUint64(ToInt64(m)) == m
  {
  }

  method WriteUint32LE(out: bytes, value: uint32) returns (r: bytes)
    ensures r == out + LittleEndianBytes(value, 4)
  {
    hide LittleEndianBytes, Shr;
    r := out + [value % 256];
    r := r + [Shr(value, 8) % 256];
    r := r + [Shr(value, 16) % 256];
    r := r + [Shr(value, 24) % 256];
    LittleFourBytes(value);
  }

  method WriteUint64LE(out: bytes, value: uint64) returns (r: bytes)
    ensures r == out + LittleEndianBytes(value, 8)
  {
    hide LittleEndianBytes, Shr;
    r := out + [value % 256];
    r := r + [Shr(value, 8) % 256];
    r := r + [Shr(value, 16) % 256];
    r := r + [Shr(value, 24) % 256];
    r := r + [Shr(value, 32) % 256];
    r := r + [Shr(value, 40) % 256];
    r := r + [Shr(value, 48) % 256];
    r := r + [Shr(value, 56) % 256];
    LittleFourBytes(value);
    LittleFourBytes(Shr(value, 32));
    ShrShr(value, 32, 8);
    ShrShr(value, 32, 16);
    ShrShr(value, 32, 24);
    LittleEndianSplit(value, 4, 4);
  }

  lemma LittleFourBytes(value: nat)
    ensures LittleEndianBytes(value, 4) ==
      [value % 256, Shr(value, 8) % 256, Shr(value, 16) % 256, Shr(value, 24) % 256]
  {
    hide LittleEndianBytes, Shr;
    NextBytes(value, 0, 4);
    NextBytes(value, 8, 3);
    NextBytes(value, 16, 2);
    NextBytes(value, 24, 1);
    NoLittleBytes(Shr(value, 32));
    ShrZero(value);
  }

  lemma NoLittleBytes(n: nat)
    ensures LittleEndianBytes(n, 0) == []
  {
  }

  lemma NextBytes(value: nat, j: nat, k: nat)
    requires k > 0
    ensures LittleEndianBytes(Shr(value, j), k) == [Shr(value, j) % 256] + LittleEndianBytes(Shr(value, j + 8), k - 1)
  {
    hide Shr;
    ShrShr(value, j, 8);
    ShrEight(Shr(value, j));
  }

  lemma {:induction false} LittleEndianSplit(n: nat, j: nat, k: nat)
    ensures LittleEndianBytes(n, j + k) == LittleEndianBytes(n, j) + LittleEndianBytes(Shr(n, 8 * j), k)
  {
    hide Shr;
    if j == 0 {
      ShrZero(n);
    } else {
      LittleEndianSplit(n / 256, j - 1, k);
      ShrEight(n);
      ShrShr(n, 8, 8 * (j - 1));
    }
  }

  method ReadUint32LE(data: bytes, offset: nat) returns (r: Result<Read<uint32>>)
    ensures r == ReadUint32(data, offset)
  {
    hide FromLittleEndian, Or, ShlWord, Pow2;
    if offset + 4 > |data| {
      return Error;
    }
    var value := Or(Or(Or(data[offset], ShlWord(data[offset + 1], 8, 32), 32), ShlWord(data[offset + 2], 16, 32), 32),
                    ShlWord(data[offset + 3], 24, 32), 32);
    OneByte(data[offset]);
    OrNextByte([data[offset]], data[offset + 1], 32);
    assert [data[offset]] + [data[offset + 1]] == data[offset..offset + 2];
    OrNextByte(data[offset..offset + 2], data[offset + 2], 32);
    assert data[offset..offset + 2] + [data[offset + 2]] == data[offset..offset + 3];
    OrNextByte(data[offset..offset + 3], data[offset + 3], 32);
    assert data[offset..offset + 3] + [data[offset + 3]] == data[offset..offset + 4];
    LittleEndianOnto(data[offset..offset + 4]);
    SmallPowers();
    r := Ok(Read(value, offset + 4));
  }

  lemma OneByte(b: byte)
    ensures FromLittleEndian([b]) == b
  {
  }

  lemma EmptyIsZero()
    ensures FromLittleEndian([]) == 0
  {
  }

  method ReadUint64LE(data: bytes, offset: nat) returns (r: Result<Read<uint64>>)
    ensures r == ReadUint64(data, offset)
  {
    hide FromLittleEndian, Or, ShlWord, Pow2;
    var value := 0;
    EmptyIsZero();
    for i := 0 to 8
      invariant offset + i <= |data| || i == 0
      invariant value == if i == 0 then 0 else FromLittleEndian(data[offset..offset + i])
    {
      if offset + i >= |data| {
        return Error;
      }
      OrNextByte(data[offset..offset + i], data[offset + i], 64);
      assert data[offset..offset + i] + [data[offset + i]] == data[offset..offset + i + 1];
      value := Or(value, ShlWord(data[offset + i], 8 * i, 64), 64);
    }
    LittleEndianOnto(data[offset..offset + 8]);
    Pow64();
    r := Ok(Read(value, offset + 8));
  }

  /** A reader, repeated: `count` values, one behind the other. */
  function ReadMany<T>(read: (bytes, nat) -> Result<Read<T>>, data: bytes, at: nat, count: nat): Result<Read<seq<T>>> {
    if count == 0 then Ok(Read([], at)) else
      match ReadMany(read, data, at, count - 1)
      case Error => Error
      case Ok(front) =>
        match read(data, front.next)
        case Error => Error
        case Ok(last) => Ok(Read(front.value + [last.value], last.next))
  }

  function WriteMany<T>(write: T -> bytes, values: seq<T>): bytes {
    if values == [] then [] else WriteMany(write, values[..|values| - 1]) + write(values[|values| - 1])
  }

  lemma WrittenInOrder<T>(write: T -> bytes, values: seq<T>, x: T)
    ensures WriteMany(write, []) == []
    ensures WriteMany(write, values + [x]) == WriteMany(write, values) + write(x)
  {
    assert (values + [x])[..|values|] == values;
  }

  /** What is read is well-formed and is written as exactly the bytes consumed. */
  ghost predicate Sound<T>(read: (bytes, nat) -> Result<Read<T>>, write: T -> bytes, good: T -> bool) {
    forall data, at: nat :: read(data, at).Ok? ==>
      var r := read(data, at).value;
      good(r.value) && Holds(data, at, write(r.value)) && r.next == at + |write(r.value)|
  }

  /** Whatever is well-formed is read back where it is held. */
  ghost predicate Complete<T(!new)>(read: (bytes, nat) -> Result<Read<T>>, write: T -> bytes, good: T -> bool) {
    forall data, at: nat, x :: good(x) && Holds(data, at, write(x)) ==> read(data, at) == Ok(Read(x, at + |write(x)|))
  }

  lemma {:induction false} ReadManySound<T>(read: (bytes, nat) -> Result<Read<T>>, write: T -> bytes, good: T -> bool,
                                            data: bytes, at: nat, count: nat)
    requires Sound(read, write, good)
    ensures ReadMany(read, data, at, count).Ok? ==>
      var r := ReadMany(read, data, at, count).value;
      && |r.value| == count && (forall x :: x in r.value ==> good(x))
      && r.next == at + |WriteMany(write, r.value)|
      && (at <= |data| ==> Holds(data, at, WriteMany(write, r.value)))
  {
    hide Holds, Sound;
    if count > 0 && ReadMany(read, data, at, count).Ok? {
      ReadManySound(read, write, good, data, at, count - 1);
      var front := ReadMany(read, data, at, count - 1).value;
      var last := read(data, front.next).value;
      ReadsSoundly(read, write, good, data, front.next);
      var all := front.value + [last.value];
      assert all[..count - 1] == front.value;
      HoldsBoth(data, at, WriteMany(write, front.value), write(last.value));
    } else if count == 0 && at <= |data| {
      HoldsNothing(data, at);
    }
  }

  lemma ReadsSoundly<T>(read: (bytes, nat) -> Result<Read<T>>, write: T -> bytes, good: T -> bool, data: bytes, at: nat)
    requires Sound(read, write, good) && read(data, at).Ok?
    ensures var r := read(data, at).value;
      good(r.value) && Holds(data, at, write(r.value)) && r.next == at + |write(r.value)|
  {
    hide Holds;
  }

  lemma HoldsNothing(data: bytes, at: nat)
    requires at <= |data|
    ensures Holds(data, at, [])
  {
  }

  lemma {:induction false} ReadManyComplete<T(!new)>(read: (bytes, nat) -> Result<Read<T>>, write: T -> bytes,
      good: T -> bool, data: bytes, at: nat, values: seq<T>)
    requires Complete(read, write, good)
    requires forall x :: x in values ==> good(x)
    requires Holds(data, at, WriteMany(write, values))
    ensures ReadMany(read, data, at, |values|) == Ok(Read(values, at + |WriteMany(write, values)|))
  {
    hide Holds, Complete;
    if values != [] {
      var front, last := values[..|values| - 1], values[|values| - 1];
      var next := at + |WriteMany(write, front)|;
      HoldsBoth(data, at, WriteMany(write, front), write(last));
      ReadManyComplete(read, write, good, data, at, front);
      ReadsBack(read, write, good, data, next, last);
      assert front + [last] == values;
    }
  }

  lemma ReadsBack<T(!new)>(read: (bytes, nat) -> Result<Read<T>>, write: T -> bytes, good: T -> bool,
      data: bytes, at: nat, x: T)
    requires Complete(read, write, good) && good(x) && Holds(data, at, write(x))
    ensures read(data, at) == Ok(Read(x, at + |write(x)|))
  {
    hide Holds;
  }

  /** Once a value cannot be read, more values cannot be read either. */
  lemma {:induction false} ReadManyStops<T>(read: (bytes, nat) -> Result<Read<T>>, data: bytes, at: nat, few: nat,
      many: nat)
    requires few <= many && ReadMany(read, data, at, few).Error?
    ensures ReadMany(read, data, at, many).Error?
    decreases many
  {
    if few < many {
      ReadManyStops(read, data, at, few, many - 1);
    }
  }
}
