/** The compression of one 64-byte block: the function of FIPS 180-4 on 32-bit words, and the
    library's in-place version, which works in a word type of 32 or more bits and masks late. */
module Sha256 {
  import opened Bytes
  import opened Powers
  import opened BitWords

  const ADD_CONSTANTS_0: seq<nat> := [
    0x428a2f98, 0x71374491, 0xb5c0fbcf, 0xe9b5dba5, 0x3956c25b, 0x59f111f1, 0x923f82a4, 0xab1c5ed5]
  const ADD_CONSTANTS_1: seq<nat> := [
    0xd807aa98, 0x12835b01, 0x243185be, 0x550c7dc3, 0x72be5d74, 0x80deb1fe, 0x9bdc06a7, 0xc19bf174]
  const ADD_CONSTANTS_2: seq<nat> := [
    0xe49b69c1, 0xefbe4786, 0x0fc19dc6, 0x240ca1cc, 0x2de92c6f, 0x4a7484aa, 0x5cb0a9dc, 0x76f988da]
  const ADD_CONSTANTS_3: seq<nat> := [
    0x983e5152, 0xa831c66d, 0xb00327c8, 0xbf597fc7, 0xc6e00bf3, 0xd5a79147, 0x06ca6351, 0x14292967]
  const ADD_CONSTANTS_4: seq<nat> := [
    0x27b70a85, 0x2e1b2138, 0x4d2c6dfc, 0x53380d13, 0x650a7354, 0x766a0abb, 0x81c2c92e, 0x92722c85]
  const ADD_CONSTANTS_5: seq<nat> := [
    0xa2bfe8a1, 0xa81a664b, 0xc24b8b70, 0xc76c51a3, 0xd192e819, 0xd6990624, 0xf40e3585, 0x106aa070]
  const ADD_CONSTANTS_6: seq<nat> := [
    0x19a4c116, 0x1e376c08, 0x2748774c, 0x34b0bcb5, 0x391c0cb3, 0x4ed8aa4a, 0x5b9cca4f, 0x682e6ff3]
  const ADD_CONSTANTS_7: seq<nat> := [
    0x748f82ee, 0x78a5636f, 0x84c87814, 0x8cc70208, 0x90befffa, 0xa4506ceb, 0xbef9a3f7, 0xc67178f2]

  const ADD_CONSTANT: seq<nat> :=
    ADD_CONSTANTS_0 + ADD_CONSTANTS_1 + ADD_CONSTANTS_2 + ADD_CONSTANTS_3
    + ADD_CONSTANTS_4 + ADD_CONSTANTS_5 + ADD_CONSTANTS_6 + ADD_CONSTANTS_7

  const INITIAL_MESSAGE_DIGEST: seq<nat> := [
    0x6a09e667, 0xbb67ae85, 0x3c6ef372, 0xa54ff53a, 0x510e527f, 0x9b05688c, 0x1f83d9ab, 0x5be0cd19]

  ghost predicate Is32(x: nat) {
    x < Pow2(32)
  }

  // ---- Sections 3.2, 4.1.2, 6.2.1 and 6.2.2 of FIPS 180-4, on 32-bit words ----

  function RotR(x: nat, n: nat): nat
    requires n < 32
  {
    Or(Shr(x, n), ShlWord(x, 32 - n, 32), 32)
  }

  function Ch(x: nat, y: nat, z: nat): nat { Xor(And(x, y, 32), And(Not(x, 32), z, 32), 32) }

  function Maj(x: nat, y: nat, z: nat): nat { Xor(Xor(And(x, y, 32), And(x, z, 32), 32), And(y, z, 32), 32) }

  function BigSigma0(x: nat): nat { Xor(Xor(RotR(x, 2), RotR(x, 13), 32), RotR(x, 22), 32) }

  function BigSigma1(x: nat): nat { Xor(Xor(RotR(x, 6), RotR(x, 11), 32), RotR(x, 25), 32) }

  function SmallSigma0(x: nat): nat { Xor(Xor(RotR(x, 7), RotR(x, 18), 32), Shr(x, 3), 32) }

  function SmallSigma1(x: nat): nat { Xor(Xor(RotR(x, 17), RotR(x, 19), 32), Shr(x, 10), 32) }

  /** Addition modulo 2^32. */
  function Add32(x: nat, y: nat): nat { Low(x + y, 32) }

  function BigEndian(b0: byte, b1: byte, b2: byte, b3: byte): nat {
    ((b0 * 256 + b1) * 256 + b2) * 256 + b3
  }

  /** The message schedule. */
  function Schedule(block: bytes, t: nat): nat
    requires |block| == 64
  {
    if t < 16 then BigEndian(block[4 * t], block[4 * t + 1], block[4 * t + 2], block[4 * t + 3])
    else Add32(SmallSigma1(Schedule(block, t - 2)) + Schedule(block, t - 7) + SmallSigma0(Schedule(block, t - 15)),
               Schedule(block, t - 16))
  }

  datatype Working = Working(a: nat, b: nat, c: nat, d: nat, e: nat, f: nat, g: nat, h: nat)

  function Round(s: Working, k: nat, w: nat): Working {
    var t1 := Low(s.h + BigSigma1(s.e) + Ch(s.e, s.f, s.g) + k + w, 32);
    var t2 := Low(BigSigma0(s.a) + Maj(s.a, s.b, s.c), 32);
    Working(Add32(t1, t2), s.a, s.b, s.c, Add32(s.d, t1), s.e, s.f, s.g)
  }

  /** The working variables after `t` rounds. */
  function Rounds(digest: seq<nat>, block: bytes, t: nat): Working
    requires |digest| == 8 && |block| == 64 && t <= 64
  {
    if t == 0 then Working(digest[0], digest[1], digest[2], digest[3], digest[4], digest[5], digest[6], digest[7])
    else Round(Rounds(digest, block, t - 1), ADD_CONSTANT[t - 1], Schedule(block, t - 1))
  }

  /** The next intermediate digest. */
  function Compress(digest: seq<nat>, block: bytes): (r: seq<nat>)
    requires |digest| == 8 && |block| == 64
    ensures |r| == 8
  {
    var s := Rounds(digest, block, 64);
    [Add32(digest[0], s.a), Add32(digest[1], s.b), Add32(digest[2], s.c), Add32(digest[3], s.d),
     Add32(digest[4], s.e), Add32(digest[5], s.f), Add32(digest[6], s.g), Add32(digest[7], s.h)]
  }

  // ---- The library's operations, in a word type of `w` bits ----

  function Mask32(x: nat): nat { Low(x, 32) }

  function RotrWide(x: nat, n: nat, w: nat): nat
    requires n < 32
  {
    Mask32(Or(Shr(x, n), ShlWord(x, 32 - n, w), w))
  }

  function ChWide(x: nat, y: nat, z: nat, w: nat): nat { Xor(And(x, y, w), And(Not(x, w), z, w), w) }

  function MajWide(x: nat, y: nat, z: nat, w: nat): nat { Xor(Xor(And(x, y, w), And(x, z, w), w), And(y, z, w), w) }

  function BSig0Wide(x: nat, w: nat): nat { Xor(Xor(RotrWide(x, 2, w), RotrWide(x, 13, w), w), RotrWide(x, 22, w), w) }

  function BSig1Wide(x: nat, w: nat): nat { Xor(Xor(RotrWide(x, 6, w), RotrWide(x, 11, w), w), RotrWide(x, 25, w), w) }

  function SSig0Wide(x: nat, w: nat): nat { Xor(Xor(RotrWide(x, 7, w), RotrWide(x, 18, w), w), Shr(x, 3), w) }

  function SSig1Wide(x: nat, w: nat): nat { Xor(Xor(RotrWide(x, 17, w), RotrWide(x, 19, w), w), Shr(x, 10), w) }

  function LoadWide(b0: byte, b1: byte, b2: byte, b3: byte, w: nat): nat {
    Or(Or(Or(ShlWord(b0, 24, w), ShlWord(b1, 16, w), w), ShlWord(b2, 8, w), w), b3, w)
  }

  lemma RotrAgrees(x: nat, n: nat, w: nat)
    requires n < 32 <= w
    ensures RotrWide(x, n, w) == RotR(x, n)
    ensures Is32(RotR(x, n))
  {
    hide Low, Shr, Shl, Bitwise;
    ShlNat(x, 32 - n);
    var s, t := Shr(x, n), Shl(x, 32 - n);
    LowOfBitwise(OR, s, Low(t, w), w, 32);
    BitwiseOfLow(OR, s, Low(t, w), 32);
    BitwiseOfLow(OR, s, Low(t, 32), 32);
    LowLow(t, w, 32);
    LowLow(t, 32, 32);
    BitwiseBound(OR, s, Low(t, 32), 32);
  }

  lemma XorAgrees(x: nat, y: nat, z: nat, w: nat)
    requires w >= 32 && Is32(x) && Is32(y) && Is32(z)
    ensures Xor(Xor(x, y, w), z, w) == Xor(Xor(x, y, 32), z, 32)
    ensures Is32(Xor(Xor(x, y, 32), z, 32))
  {
    hide Low, Pow2, Bitwise;
    NarrowBitwise(XOR, x, y, w, 32);
    BitwiseBound(XOR, x, y, 32);
    NarrowBitwise(XOR, Xor(x, y, 32), z, w, 32);
    BitwiseBound(XOR, Xor(x, y, 32), z, 32);
  }

  lemma ShrIs32(x: nat, n: nat)
    requires Is32(x)
    ensures Is32(Shr(x, n))
  {
    ShrDecreases(x, n);
  }

  lemma SigmasAgree(x: nat, w: nat)
    requires w >= 32 && Is32(x)
    ensures BSig0Wide(x, w) == BigSigma0(x)
    ensures BSig1Wide(x, w) == BigSigma1(x)
    ensures SSig0Wide(x, w) == SmallSigma0(x)
    ensures SSig1Wide(x, w) == SmallSigma1(x)
  {
    hide RotrWide, RotR, Shr, Xor, Is32;
    RotrAgrees(x, 2, w);
    RotrAgrees(x, 13, w);
    RotrAgrees(x, 22, w);
    XorAgrees(RotR(x, 2), RotR(x, 13), RotR(x, 22), w);
    RotrAgrees(x, 6, w);
    RotrAgrees(x, 11, w);
    RotrAgrees(x, 25, w);
    XorAgrees(RotR(x, 6), RotR(x, 11), RotR(x, 25), w);
    RotrAgrees(x, 7, w);
    RotrAgrees(x, 18, w);
    ShrIs32(x, 3);
    XorAgrees(RotR(x, 7), RotR(x, 18), Shr(x, 3), w);
    RotrAgrees(x, 17, w);
    RotrAgrees(x, 19, w);
    ShrIs32(x, 10);
    XorAgrees(RotR(x, 17), RotR(x, 19), Shr(x, 10), w);
  }

  lemma ChoicesAgree(x: nat, y: nat, z: nat, w: nat)
    requires w >= 32 && Is32(x) && Is32(y) && Is32(z)
    ensures ChWide(x, y, z, w) == Ch(x, y, z)
    ensures MajWide(x, y, z, w) == Maj(x, y, z)
  {
    hide Low, Pow2, Bitwise, Not;
    NarrowBitwise(AND, x, y, w, 32);
    NarrowBitwise(AND, x, z, w, 32);
    NarrowBitwise(AND, y, z, w, 32);
    NarrowAnd(Not(x, w), z, w, 32);
    LowOfNot(x, w, 32);
    BitwiseBound(AND, x, y, 32);
    BitwiseBound(AND, x, z, 32);
    BitwiseBound(AND, y, z, 32);
    BitwiseBound(AND, Not(x, 32), z, 32);
    NarrowBitwise(XOR, And(x, y, 32), And(Not(x, 32), z, 32), w, 32);
    XorAgrees(And(x, y, 32), And(x, z, 32), And(y, z, 32), w);
  }

  /** Masking once after additions that wrap at `w` bits is adding modulo 2^32 throughout. */
  lemma LateMask(x: nat, y: nat, w: nat)
    requires w >= 32
    ensures Mask32(Low(x + Low(y, w), w)) == Add32(x, Low(y, 32))
    ensures Mask32(Low(Low(x, w) + Low(y, w), w)) == Add32(Low(x, 32), Low(y, 32))
    ensures Mask32(Low(x, w)) == Low(x, 32)
  {
    hide Low;
    LowLow(x + Low(y, w), w, 32);
    LowSum(x, Low(y, w), 32);
    LowSum(x, y, 32);
    LowLow(y, w, 32);
    LowLow(y, 32, 32);
    LowLow(Low(x, w) + Low(y, w), w, 32);
    LowSum(Low(x, w), Low(y, w), 32);
    LowSum(Low(y, 32), Low(x, w), 32);
    LowSum(Low(y, 32), Low(x, 32), 32);
    LowLow(x, w, 32);
    LowLow(x, 32, 32);
  }

  /** A byte shifted into its place within a word. */
  lemma ShiftedByte(b: byte, k: nat, w: nat)
    requires w >= 32 && k in {0, 8, 16, 24}
    ensures ShlWord(b, k, w) == Shl(b, k) == b * Pow2(k) < Pow2(w)
  {
    hide Pow2, Shl, Low;
    ShlNat(b, k);
    ShlIsProduct(b, k);
    ByteProduct(b, k);
    SmallPowers();
    Pow2Monotone(32, w);
    LowOfSmall(b * Pow2(k), w);
  }

  lemma ByteProduct(b: byte, k: nat)
    requires k in {0, 8, 16, 24}
    ensures 0 <= b * Pow2(k) < 0x1_0000_0000
  {
    hide Pow2;
    SmallPowers();
    PowZero();
  }

  lemma LoadAgrees(b0: byte, b1: byte, b2: byte, b3: byte, w: nat)
    requires w >= 32
    ensures LoadWide(b0, b1, b2, b3, w) == BigEndian(b0, b1, b2, b3)
    ensures Is32(BigEndian(b0, b1, b2, b3))
  {
    hide Pow2, Shl, Low, Bitwise;
    SmallPowers();
    Pow2Monotone(32, w);
    ShiftedByte(b0, 24, w);
    ShiftedByte(b1, 16, w);
    ShiftedByte(b2, 8, w);
    OrDisjoint(b0, b1 * Pow2(16), 24, w);
    var x := b0 * 256 + b1;
    ShlIsProduct(x, 16);
    OrDisjoint(x, b2 * Pow2(8), 16, w);
    var y := x * 256 + b2;
    ShlIsProduct(y, 8);
    OrDisjoint(y, b3, 8, w);
  }

  /** One round in the wide word type, with its temporaries unmasked, is the round of the standard. */
  lemma RoundAgrees(s: Working, k: nat, x: nat, w: nat)
    requires w >= 32 && All32(s)
    ensures var temp1 := Low(s.h + BSig1Wide(s.e, w) + ChWide(s.e, s.f, s.g, w) + k + x, w);
      var temp2 := Low(BSig0Wide(s.a, w) + MajWide(s.a, s.b, s.c, w), w);
      Working(Mask32(Low(temp1 + temp2, w)), s.a, s.b, s.c, Mask32(Low(s.d + temp1, w)), s.e, s.f, s.g) ==
        Round(s, k, x)
    ensures All32(Round(s, k, x))
  {
    hide Low, Is32, BSig1Wide, BSig0Wide, BigSigma0, BigSigma1, ChWide, MajWide, Ch, Maj, Mask32;
    SigmasAgree(s.a, w);
    SigmasAgree(s.e, w);
    ChoicesAgree(s.e, s.f, s.g, w);
    ChoicesAgree(s.a, s.b, s.c, w);
    var t1 := s.h + BigSigma1(s.e) + Ch(s.e, s.f, s.g) + k + x;
    var t2 := BigSigma0(s.a) + Maj(s.a, s.b, s.c);
    LateMask(t1, t2, w);
    LateMask(s.d, t1, w);
    LowIs32(Low(t1, 32) + Low(t2, 32));
    LowIs32(s.d + Low(t1, 32));
  }

  ghost predicate All32(s: Working) {
    Is32(s.a) && Is32(s.b) && Is32(s.c) && Is32(s.d) && Is32(s.e) && Is32(s.f) && Is32(s.g) && Is32(s.h)
  }

  lemma LowIs32(x: nat)
    ensures Is32(Low(x, 32))
  {
    LowBound(x, 32);
  }

  lemma ScheduleStep(block: bytes, t: nat)
    requires |block| == 64 && 16 <= t
    ensures Schedule(block, t) == Add32(SmallSigma1(Schedule(block, t - 2)) + Schedule(block, t - 7)
                                        + SmallSigma0(Schedule(block, t - 15)), Schedule(block, t - 16))
  {
  }

  lemma ScheduleAgrees(block: bytes, t: nat, w: nat)
    requires |block| == 64 && w >= 32 && 16 <= t
    requires Is32(Schedule(block, t - 2)) && Is32(Schedule(block, t - 15))
    ensures Mask32(Low(SSig1Wide(Schedule(block, t - 2), w) + Schedule(block, t - 7)
                       + SSig0Wide(Schedule(block, t - 15), w) + Schedule(block, t - 16), w)) == Schedule(block, t)
    ensures Is32(Schedule(block, t))
  {
    hide Low, Is32, SSig1Wide, SSig0Wide, SmallSigma0, SmallSigma1, Mask32, Schedule;
    ScheduleStep(block, t);
    SigmasAgree(Schedule(block, t - 2), w);
    SigmasAgree(Schedule(block, t - 15), w);
    LateMask(SmallSigma1(Schedule(block, t - 2)) + Schedule(block, t - 7)
             + SmallSigma0(Schedule(block, t - 15)) + Schedule(block, t - 16), 0, w);
    LowIs32(SmallSigma1(Schedule(block, t - 2)) + Schedule(block, t - 7)
            + SmallSigma0(Schedule(block, t - 15)) + Schedule(block, t - 16));
  }

  /** Fills the 64 schedule words. */
  method FillSchedule(block: bytes, width: nat) returns (w: array<nat>)
    requires |block| == 64 && width >= 32
    ensures fresh(w) && w.Length == 64
    ensures forall t :: 0 <= t < 64 ==> w[t] == Schedule(block, t) && Is32(w[t])
  {
    w := new nat[64];
    for i := 0 to 16
      invariant forall t :: 0 <= t < i ==> w[t] == Schedule(block, t) && Is32(w[t])
    {
      LoadAgrees(block[4 * i], block[4 * i + 1], block[4 * i + 2], block[4 * i + 3], width);
      w[i] := LoadWide(block[4 * i], block[4 * i + 1], block[4 * i + 2], block[4 * i + 3], width);
    }
    ScheduleLoop(block, width, w);
  }

  method ScheduleLoop(block: bytes, width: nat, w: array<nat>)
    requires |block| == 64 && width >= 32 && w.Length == 64
    requires forall t :: 0 <= t < 16 ==> w[t] == Schedule(block, t) && Is32(w[t])
    modifies w
    ensures forall t :: 0 <= t < 64 ==> w[t] == Schedule(block, t) && Is32(w[t])
  {
    hide *;
    for i := 16 to 64
      invariant forall t :: 0 <= t < i ==> w[t] == Schedule(block, t) && Is32(w[t])
    {
      ScheduleAgrees(block, i, width);
      w[i] := Mask32(Low(SSig1Wide(w[i - 2], width) + w[i - 7] + SSig0Wide(w[i - 15], width) + w[i - 16], width));
    }
  }

  /** Updates the digest in place with one block. With a word type of any width from 32 bits on,
      the result is the compression of the standard, and every digest word stays below 2^32. */
  method HashBlock(messageDigest: array<nat>, block: bytes, width: nat)
    requires messageDigest.Length == 8 && |block| == 64 && width >= 32
    requires forall i :: 0 <= i < 8 ==> Is32(messageDigest[i])
    modifies messageDigest
    ensures messageDigest[..] == Compress(old(messageDigest[..]), block)
    ensures forall i :: 0 <= i < 8 ==> Is32(messageDigest[i])
  {
    hide Low, Schedule, Rounds, Is32, Mask32;
    var w := FillSchedule(block, width);
    var s := RunRounds(messageDigest, block, w, width);
    AddIn(messageDigest, [s.a, s.b, s.c, s.d, s.e, s.f, s.g, s.h], width);
  }

  method RunRounds(messageDigest: array<nat>, block: bytes, w: array<nat>, width: nat) returns (s: Working)
    requires messageDigest.Length == 8 && |block| == 64 && width >= 32 && w.Length == 64
    requires forall i :: 0 <= i < 8 ==> Is32(messageDigest[i])
    requires forall t :: 0 <= t < 64 ==> w[t] == Schedule(block, t)
    ensures s == Rounds(messageDigest[..], block, 64)
  {
    hide Low, Schedule, Is32, Round, BSig0Wide, BSig1Wide, ChWide, MajWide, Mask32;
    var a: nat, b: nat, c: nat, d: nat := messageDigest[0], messageDigest[1], messageDigest[2], messageDigest[3];
    var e: nat, f: nat, g: nat, h: nat := messageDigest[4], messageDigest[5], messageDigest[6], messageDigest[7];
    for i := 0 to 64
      invariant Working(a, b, c, d, e, f, g, h) == Rounds(messageDigest[..], block, i)
      invariant All32(Working(a, b, c, d, e, f, g, h))
    {
      RoundAgrees(Working(a, b, c, d, e, f, g, h), ADD_CONSTANT[i], w[i], width);
      var temp1 := Low(h + BSig1Wide(e, width) + ChWide(e, f, g, width) + ADD_CONSTANT[i] + w[i], width);
      var temp2 := Low(BSig0Wide(a, width) + MajWide(a, b, c, width), width);
      h := g;
      g := f;
      f := e;
      e := Mask32(Low(d + temp1, width));
      d := c;
      c := b;
      b := a;
      a := Mask32(Low(temp1 + temp2, width));
    }
    s := Working(a, b, c, d, e, f, g, h);
  }

  /** Adds the working variables to the digest words, which wrap, and masks them at the end. */
  method AddIn(messageDigest: array<nat>, s: seq<nat>, width: nat)
    requires messageDigest.Length == 8 == |s| && width >= 32
    modifies messageDigest
    ensures forall i :: 0 <= i < 8 ==> messageDigest[i] == Add32(old(messageDigest[i]), s[i]) && Is32(messageDigest[i])
  {
    hide Low, Is32;
    for i := 0 to 8
      invariant forall j :: 0 <= j < i ==> messageDigest[j] == Low(old(messageDigest[j]) + s[j], width)
      invariant forall j :: i <= j < 8 ==> messageDigest[j] == old(messageDigest[j])
    {
      messageDigest[i] := Low(messageDigest[i] + s[i], width);
    }
    for i := 0 to 8
      invariant forall j :: 0 <= j < i ==>
        messageDigest[j] == Add32(old(messageDigest[j]), s[j]) && Is32(messageDigest[j])
      invariant forall j :: i <= j < 8 ==> messageDigest[j] == Low(old(messageDigest[j]) + s[j], width)
    {
      LateMask(old(messageDigest[i]) + s[i], 0, width);
      LowIs32(old(messageDigest[i]) + s[i]);
      messageDigest[i] := Mask32(messageDigest[i]);
    }
  }
}
