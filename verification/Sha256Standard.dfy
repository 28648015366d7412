/** What the constants and the word functions of SHA-256 are, independently of how they are written: the
    constants as fractional parts of roots of primes (sections 4.2.2 and 5.3.3 of FIPS 180-4), the word
    functions bit by bit, and schedule, rounds and digest in arithmetic modulo 2^32. */
module Sha256Standard {
  import opened Bytes
  import opened Divisibility
  import opened Powers
  import opened BitWords
  import opened Sha256

  // ---- The primes ----

  const PRIMES_0: seq<nat> := [2, 3, 5, 7, 11, 13, 17, 19]
  const PRIMES_1: seq<nat> := [23, 29, 31, 37, 41, 43, 47, 53]
  const PRIMES_2: seq<nat> := [59, 61, 67, 71, 73, 79, 83, 89]
  const PRIMES_3: seq<nat> := [97, 101, 103, 107, 109, 113, 127, 131]
  const PRIMES_4: seq<nat> := [137, 139, 149, 151, 157, 163, 167, 173]
  const PRIMES_5: seq<nat> := [179, 181, 191, 193, 197, 199, 211, 223]
  const PRIMES_6: seq<nat> := [227, 229, 233, 239, 241, 251, 257, 263]
  const PRIMES_7: seq<nat> := [269, 271, 277, 281, 283, 293, 307, 311]

  const PRIMES: seq<nat> := PRIMES_0 + PRIMES_1 + PRIMES_2 + PRIMES_3 + PRIMES_4 + PRIMES_5 + PRIMES_6 + PRIMES_7

  predicate Coprimes(n: nat, p: nat)
    requires p > 0
  {
    n % p != 0 || n == p
  }

  /** No prime below 18 but itself divides `n`. */
  predicate Sieved(n: nat) {
    && Coprimes(n, 2) && Coprimes(n, 3) && Coprimes(n, 5) && Coprimes(n, 7)
    && Coprimes(n, 11) && Coprimes(n, 13) && Coprimes(n, 17)
  }

  /** A number below 18^2 is prime if it passes the sieve. */
  lemma SievedIsPrime(n: nat, d: nat)
    requires 2 <= d < n < 324 && n % d == 0
    ensures !Sieved(n)
  {
    var q := n / d;
    assert n == d * q && q >= 2;
    if d < 18 {
      SmallFactor(n, d, q);
    } else {
      if q >= 18 {
        SquareBound(d, q);
      }
      SmallFactor(n, q, d);
    }
  }

  lemma SmallFactor(n: nat, d: nat, q: nat)
    requires n == d * q && 2 <= d < 18 && q >= 2
    ensures !Sieved(n)
  {
    var p := if d % 2 == 0 then 2 else if d % 3 == 0 then 3 else if d % 5 == 0 then 5 else d;
    assert d == p * (d / p) && n == p * (d / p * q);
    MultipleHasNoRest(p, d / p * q);
  }

  lemma SquareBound(d: nat, q: nat)
    requires d >= 18 && q >= 18
    ensures d * q >= 324
  {
  }

  // ---- The constants ----

  /** The whole part of the cube root of a number below 7^3. */
  function WholeRoot(p: nat): nat {
    if p < 8 then 1 else if p < 27 then 2 else if p < 64 then 3 else if p < 125 then 4 else if p < 216 then 5 else 6
  }

  /** `k` holds the first 32 bits of the fractional part of the cube root of `p`, whose whole part is `r`. */
  ghost predicate CubeRoot(p: nat, r: nat, k: nat) {
    var v := r * 0x1_0000_0000 + k;
    k < 0x1_0000_0000 && v * v * v <= p * 0x1_0000_0000_0000_0000_0000_0000 < (v + 1) * (v + 1) * (v + 1)
  }

  lemma Row0(j: nat)
    requires j < 8
    ensures |PRIMES_0| == |ADD_CONSTANTS_0| == 8 && Sieved(PRIMES_0[j]) && 2 <= PRIMES_0[j] <= 19
    ensures CubeRoot(PRIMES_0[j], WholeRoot(PRIMES_0[j]), ADD_CONSTANTS_0[j])
  {
  }

  lemma Row1(j: nat)
    requires j < 8
    ensures |PRIMES_1| == |ADD_CONSTANTS_1| == 8 && Sieved(PRIMES_1[j]) && 23 <= PRIMES_1[j] <= 53
    ensures CubeRoot(PRIMES_1[j], WholeRoot(PRIMES_1[j]), ADD_CONSTANTS_1[j])
  {
  }

  lemma Row2(j: nat)
    requires j < 8
    ensures |PRIMES_2| == |ADD_CONSTANTS_2| == 8 && Sieved(PRIMES_2[j]) && 59 <= PRIMES_2[j] <= 89
    ensures CubeRoot(PRIMES_2[j], WholeRoot(PRIMES_2[j]), ADD_CONSTANTS_2[j])
  {
  }

  lemma Row3(j: nat)
    requires j < 8
    ensures |PRIMES_3| == |ADD_CONSTANTS_3| == 8 && Sieved(PRIMES_3[j]) && 97 <= PRIMES_3[j] <= 131
    ensures CubeRoot(PRIMES_3[j], WholeRoot(PRIMES_3[j]), ADD_CONSTANTS_3[j])
  {
  }

  lemma Row4(j: nat)
    requires j < 8
    ensures |PRIMES_4| == |ADD_CONSTANTS_4| == 8 && Sieved(PRIMES_4[j]) && 137 <= PRIMES_4[j] <= 173
    ensures CubeRoot(PRIMES_4[j], WholeRoot(PRIMES_4[j]), ADD_CONSTANTS_4[j])
  {
  }

  lemma Row5(j: nat)
    requires j < 8
    ensures |PRIMES_5| == |ADD_CONSTANTS_5| == 8 && Sieved(PRIMES_5[j]) && 179 <= PRIMES_5[j] <= 223
    ensures CubeRoot(PRIMES_5[j], WholeRoot(PRIMES_5[j]), ADD_CONSTANTS_5[j])
  {
  }

  lemma Row6(j: nat)
    requires j < 8
    ensures |PRIMES_6| == |ADD_CONSTANTS_6| == 8 && Sieved(PRIMES_6[j]) && 227 <= PRIMES_6[j] <= 263
    ensures CubeRoot(PRIMES_6[j], WholeRoot(PRIMES_6[j]), ADD_CONSTANTS_6[j])
  {
  }

  lemma Row7(j: nat)
    requires j < 8
    ensures |PRIMES_7| == |ADD_CONSTANTS_7| == 8 && Sieved(PRIMES_7[j]) && 269 <= PRIMES_7[j] <= 311
    ensures CubeRoot(PRIMES_7[j], WholeRoot(PRIMES_7[j]), ADD_CONSTANTS_7[j])
  {
  }

  lemma EightRows(a: seq<nat>, b: seq<nat>, c: seq<nat>, d: seq<nat>, e: seq<nat>, f: seq<nat>, g: seq<nat>,
      h: seq<nat>, t: nat)
    requires |a| == |b| == |c| == |d| == |e| == |f| == |g| == |h| == 8 && t < 64
    ensures |a + b + c + d + e + f + g + h| == 64
    ensures (a + b + c + d + e + f + g + h)[t] ==
      if t < 8 then a[t] else if t < 16 then b[t - 8] else if t < 24 then c[t - 16] else if t < 32 then d[t - 24]
      else if t < 40 then e[t - 32] else if t < 48 then f[t - 40] else if t < 56 then g[t - 48] else h[t - 56]
  {
  }

  lemma RowsOfEight()
    ensures |PRIMES_0| == |PRIMES_1| == |PRIMES_2| == |PRIMES_3| == 8
    ensures |PRIMES_4| == |PRIMES_5| == |PRIMES_6| == |PRIMES_7| == 8
    ensures |ADD_CONSTANTS_0| == |ADD_CONSTANTS_1| == |ADD_CONSTANTS_2| == |ADD_CONSTANTS_3| == 8
    ensures |ADD_CONSTANTS_4| == |ADD_CONSTANTS_5| == |ADD_CONSTANTS_6| == |ADD_CONSTANTS_7| == 8
  {
  }

  lemma AnyRow(t: nat)
    requires t < 64
    ensures |PRIMES| == |ADD_CONSTANT| == 64
    ensures Sieved(PRIMES[t]) && 2 <= PRIMES[t] <= 311
    ensures CubeRoot(PRIMES[t], WholeRoot(PRIMES[t]), ADD_CONSTANT[t])
  {
    hide Sieved, CubeRoot, WholeRoot;
    RowsOfEight();
    EightRows(PRIMES_0, PRIMES_1, PRIMES_2, PRIMES_3, PRIMES_4, PRIMES_5, PRIMES_6, PRIMES_7, t);
    EightRows(ADD_CONSTANTS_0, ADD_CONSTANTS_1, ADD_CONSTANTS_2, ADD_CONSTANTS_3,
              ADD_CONSTANTS_4, ADD_CONSTANTS_5, ADD_CONSTANTS_6, ADD_CONSTANTS_7, t);
    if t < 8 {
      Row0(t);
    } else if t < 16 {
      Row1(t - 8);
    } else if t < 24 {
      Row2(t - 16);
    } else if t < 32 {
      Row3(t - 24);
    } else if t < 40 {
      Row4(t - 32);
    } else if t < 48 {
      Row5(t - 40);
    } else if t < 56 {
      Row6(t - 48);
    } else {
      Row7(t - 56);
    }
  }

  /** The 64 round constants: the first 32 bits of the fractional parts of the cube roots of the primes. */
  lemma RoundConstants(t: nat) returns (p: nat, r: nat)
    requires t < 64
    ensures |PRIMES| == |ADD_CONSTANT| == 64 && p == PRIMES[t]
    ensures 2 <= p <= 311 && forall d :: 2 <= d < p ==> p % d != 0
    ensures ADD_CONSTANT[t] < 0x1_0000_0000
    ensures var v := r * 0x1_0000_0000 + ADD_CONSTANT[t];
      v * v * v <= p * 0x1_0000_0000_0000_0000_0000_0000 < (v + 1) * (v + 1) * (v + 1)
  {
    hide Sieved;
    AnyRow(t);
    p, r := PRIMES[t], WholeRoot(PRIMES[t]);
    forall d | 2 <= d < p
      ensures p % d != 0
    {
      if p % d == 0 {
        SievedIsPrime(p, d);
      }
    }
  }

  /** The primes are in order, 64 of them from 2 to 311, and so the first 64. */
  lemma FirstAndLastPrime()
    ensures |PRIMES| == 64 && PRIMES[0] == 2 && PRIMES[63] == 311
  {
    PrimeIn(0);
    PrimeIn(63);
  }

  lemma PrimesInOrder(t: nat)
    requires t < 63
    ensures |PRIMES| == 64 && PRIMES[t] < PRIMES[t + 1]
  {
    Rows();
    RowsInOrder(PRIMES_0, PRIMES_1, PRIMES_2, PRIMES_3, PRIMES_4, PRIMES_5, PRIMES_6, PRIMES_7, t);
    assert PRIMES == PRIMES_0 + PRIMES_1 + PRIMES_2 + PRIMES_3 + PRIMES_4 + PRIMES_5 + PRIMES_6 + PRIMES_7;
  }

  predicate InOrder(s: seq<nat>) {
    forall i :: 0 <= i < |s| - 1 ==> s[i] < s[i + 1]
  }

  lemma RowsInOrder(a: seq<nat>, b: seq<nat>, c: seq<nat>, d: seq<nat>, e: seq<nat>, f: seq<nat>, g: seq<nat>,
      h: seq<nat>, t: nat)
    requires |a| == |b| == |c| == |d| == |e| == |f| == |g| == |h| == 8 && t < 63
    requires InOrder(a) && InOrder(b) && InOrder(c) && InOrder(d)
    requires InOrder(e) && InOrder(f) && InOrder(g) && InOrder(h)
    requires a[7] < b[0] && b[7] < c[0] && c[7] < d[0] && d[7] < e[0] && e[7] < f[0] && f[7] < g[0] && g[7] < h[0]
    ensures var s := a + b + c + d + e + f + g + h;
      |s| == 64 && s[t] < s[t + 1]
  {
    EightRows(a, b, c, d, e, f, g, h, t);
    EightRows(a, b, c, d, e, f, g, h, t + 1);
  }

  lemma Rows()
    ensures |PRIMES_0| == |PRIMES_1| == |PRIMES_2| == |PRIMES_3| == 8
    ensures |PRIMES_4| == |PRIMES_5| == |PRIMES_6| == |PRIMES_7| == 8
    ensures InOrder(PRIMES_0) && InOrder(PRIMES_1) && InOrder(PRIMES_2) && InOrder(PRIMES_3)
    ensures InOrder(PRIMES_4) && InOrder(PRIMES_5) && InOrder(PRIMES_6) && InOrder(PRIMES_7)
    ensures PRIMES_0[7] < PRIMES_1[0] && PRIMES_1[7] < PRIMES_2[0] && PRIMES_2[7] < PRIMES_3[0]
    ensures PRIMES_3[7] < PRIMES_4[0] && PRIMES_4[7] < PRIMES_5[0] && PRIMES_5[7] < PRIMES_6[0]
    ensures PRIMES_6[7] < PRIMES_7[0]
  {
  }

  lemma PrimeIn(t: nat)
    requires t < 64
    ensures |PRIMES| == 64
    ensures |PRIMES_0| == |PRIMES_1| == |PRIMES_2| == |PRIMES_3| == 8
    ensures |PRIMES_4| == |PRIMES_5| == |PRIMES_6| == |PRIMES_7| == 8
    ensures PRIMES[t] ==
      if t < 8 then PRIMES_0[t] else if t < 16 then PRIMES_1[t - 8] else if t < 24 then PRIMES_2[t - 16]
      else if t < 32 then PRIMES_3[t - 24] else if t < 40 then PRIMES_4[t - 32] else if t < 48 then PRIMES_5[t - 40]
      else if t < 56 then PRIMES_6[t - 48] else PRIMES_7[t - 56]
  {
    RowsOfEight();
    EightRows(PRIMES_0, PRIMES_1, PRIMES_2, PRIMES_3, PRIMES_4, PRIMES_5, PRIMES_6, PRIMES_7, t);
  }

  /** The initial digest: the first 32 bits of the fractional parts of the square roots of the first
      eight primes. */
  lemma InitialDigest(i: nat) returns (p: nat, r: nat)
    requires i < 8
    ensures |INITIAL_MESSAGE_DIGEST| == 8 && INITIAL_MESSAGE_DIGEST[i] < 0x1_0000_0000
    ensures p == [2, 3, 5, 7, 11, 13, 17, 19][i]
    ensures var v := r * 0x1_0000_0000 + INITIAL_MESSAGE_DIGEST[i];
      v * v <= p * 0x1_0000_0000_0000_0000 < (v + 1) * (v + 1)
  {
    p, r := [2, 3, 5, 7, 11, 13, 17, 19][i], [1, 1, 2, 2, 3, 3, 4, 4][i];
  }

  // ---- The word functions, bit by bit ----

  /** Choice: where a bit of `x` is set, that of `y`, elsewhere that of `z`. */
  lemma BitOfCh(x: nat, y: nat, z: nat, i: nat)
    requires i < 32
    ensures GetBit(Ch(x, y, z), i) <==> if GetBit(x, i) then GetBit(y, i) else GetBit(z, i)
  {
    hide GetBit, Bitwise, Not;
    BitOfAnd(x, y, 32, i);
    BitOfNot(x, 32, i);
    BitOfAnd(Not(x, 32), z, 32, i);
    BitOfXor(And(x, y, 32), And(Not(x, 32), z, 32), 32, i);
  }

  /** Majority: the bit that at least two of the three have. */
  lemma BitOfMaj(x: nat, y: nat, z: nat, i: nat)
    requires i < 32
    ensures GetBit(Maj(x, y, z), i) <==>
      (GetBit(x, i) && GetBit(y, i)) || (GetBit(x, i) && GetBit(z, i)) || (GetBit(y, i) && GetBit(z, i))
  {
    hide GetBit, Bitwise;
    BitOfAnd(x, y, 32, i);
    BitOfAnd(x, z, 32, i);
    BitOfAnd(y, z, 32, i);
    BitOfXor(And(x, y, 32), And(x, z, 32), 32, i);
    BitOfXor(Xor(And(x, y, 32), And(x, z, 32), 32), And(y, z, 32), 32, i);
  }

  /** Rotation to the right: bit `i` is bit `i + n`, going round after bit 31. */
  lemma BitOfRotR(x: nat, n: nat, i: nat)
    requires x < 0x1_0000_0000 && n < 32 && i < 32
    ensures GetBit(RotR(x, n), i) <==> GetBit(x, (i + n) % 32)
  {
    hide GetBit, Bitwise, Shr, Shl, Low, Pow2;
    ShlNat(x, 32 - n);
    BitOfOr(Shr(x, n), ShlWord(x, 32 - n, 32), 32, i);
    BitOfShr(x, n, i);
    BitOfLow(Shl(x, 32 - n), 32, i);
    BitOfShl(x, 32 - n, i);
    if i + n >= 32 {
      SmallPowers();
      HighBit(x, 32, n + i);
    } else if n == 0 {
    }
  }

  lemma BitOfXors(x: nat, y: nat, z: nat, i: nat)
    requires i < 32
    ensures GetBit(Xor(Xor(x, y, 32), z, 32), i) <==> GetBit(x, i) != (GetBit(y, i) != GetBit(z, i))
  {
    hide GetBit, Bitwise;
    BitOfXor(x, y, 32, i);
    BitOfXor(Xor(x, y, 32), z, 32, i);
  }

  /** The functions of section 4.1.2, bit by bit; above the word there is nothing. */
  lemma BitOfSigmas(x: nat, i: nat)
    requires x < 0x1_0000_0000 && i < 32
    ensures GetBit(BigSigma0(x), i) <==>
      GetBit(x, (i + 2) % 32) != (GetBit(x, (i + 13) % 32) != GetBit(x, (i + 22) % 32))
    ensures GetBit(BigSigma1(x), i) <==>
      GetBit(x, (i + 6) % 32) != (GetBit(x, (i + 11) % 32) != GetBit(x, (i + 25) % 32))
    ensures GetBit(SmallSigma0(x), i) <==>
      GetBit(x, (i + 7) % 32) != (GetBit(x, (i + 18) % 32) != (i + 3 < 32 && GetBit(x, i + 3)))
    ensures GetBit(SmallSigma1(x), i) <==>
      GetBit(x, (i + 17) % 32) != (GetBit(x, (i + 19) % 32) != (i + 10 < 32 && GetBit(x, i + 10)))
  {
    hide GetBit, Bitwise, Shr, Xor, RotR;
    BitOfRotR(x, 2, i);
    BitOfRotR(x, 13, i);
    BitOfRotR(x, 22, i);
    BitOfXors(RotR(x, 2), RotR(x, 13), RotR(x, 22), i);
    BitOfRotR(x, 6, i);
    BitOfRotR(x, 11, i);
    BitOfRotR(x, 25, i);
    BitOfXors(RotR(x, 6), RotR(x, 11), RotR(x, 25), i);
    BitOfRotR(x, 7, i);
    BitOfRotR(x, 18, i);
    BitOfShifted(x, 3, i);
    BitOfXors(RotR(x, 7), RotR(x, 18), Shr(x, 3), i);
    BitOfRotR(x, 17, i);
    BitOfRotR(x, 19, i);
    BitOfShifted(x, 10, i);
    BitOfXors(RotR(x, 17), RotR(x, 19), Shr(x, 10), i);
  }

  lemma BitOfShifted(x: nat, n: nat, i: nat)
    requires x < 0x1_0000_0000
    ensures GetBit(Shr(x, n), i) <==> i + n < 32 && GetBit(x, i + n)
  {
    hide GetBit, Shr, Pow2;
    BitOfShr(x, n, i);
    if i + n >= 32 {
      SmallPowers();
      HighBit(x, 32, n + i);
    }
  }

  // ---- Schedule, rounds and digest ----

  lemma AddIsModular(x: nat)
    ensures Low(x, 32) == x % 0x1_0000_0000
  {
    hide Low, Pow2;
    SmallPowers();
    LowIsRest(x, 32);
  }

  /** The message schedule of section 6.2.2, step 1. */
  lemma ScheduleLaw(block: bytes, t: nat)
    requires |block| == 64
    ensures t < 16 ==>
      var b: seq<nat> := block[4 * t..4 * t + 4];
      Schedule(block, t) == 0x100_0000 * b[0] + 0x1_0000 * b[1] + 0x100 * b[2] + b[3]
    ensures t >= 16 ==>
      var sum := SmallSigma1(Schedule(block, t - 2)) + Schedule(block, t - 7)
        + SmallSigma0(Schedule(block, t - 15)) + Schedule(block, t - 16);
      Schedule(block, t) == sum % 0x1_0000_0000
  {
    hide SmallSigma0, SmallSigma1, Low;
    if t >= 16 {
      ScheduleStep(block, t);
      AddIsModular(SmallSigma1(Schedule(block, t - 2)) + Schedule(block, t - 7)
                   + SmallSigma0(Schedule(block, t - 15)) + Schedule(block, t - 16));
    }
  }

  /** The working variables of section 6.2.2, steps 2 and 3. */
  lemma RoundsLaw(digest: seq<nat>, block: bytes, t: nat)
    requires |digest| == 8 && |block| == 64 && t < 64
    ensures Rounds(digest, block, 0)
      == Working(digest[0], digest[1], digest[2], digest[3], digest[4], digest[5], digest[6], digest[7])
    ensures |ADD_CONSTANT| == 64
    ensures var s, n := Rounds(digest, block, t), Rounds(digest, block, t + 1);
      var t1 := s.h + BigSigma1(s.e) + Ch(s.e, s.f, s.g) + ADD_CONSTANT[t] + Schedule(block, t);
      var t2 := BigSigma0(s.a) + Maj(s.a, s.b, s.c);
      && n.h == s.g && n.g == s.f && n.f == s.e && n.d == s.c && n.c == s.b && n.b == s.a
      && n.e == (s.d + t1) % 0x1_0000_0000
      && n.a == (t1 + t2) % 0x1_0000_0000
  {
    hide BigSigma0, BigSigma1, Ch, Maj, Low, Schedule;
    var s := Rounds(digest, block, t);
    var t1 := s.h + BigSigma1(s.e) + Ch(s.e, s.f, s.g) + ADD_CONSTANT[t] + Schedule(block, t);
    var t2 := BigSigma0(s.a) + Maj(s.a, s.b, s.c);
    assert Rounds(digest, block, t + 1) == Round(s, ADD_CONSTANT[t], Schedule(block, t));
    LowSum(s.d, t1, 32);
    LowSum(Low(t1, 32), t2, 32);
    LowSum(t2, t1, 32);
    AddIsModular(s.d + t1);
    AddIsModular(t1 + t2);
  }

  /** The intermediate digest of section 6.2.2, step 4. */
  lemma DigestLaw(digest: seq<nat>, block: bytes)
    requires |digest| == 8 && |block| == 64
    ensures var s, r := Rounds(digest, block, 64), Compress(digest, block);
      && r[0] == (digest[0] + s.a) % 0x1_0000_0000 && r[1] == (digest[1] + s.b) % 0x1_0000_0000
      && r[2] == (digest[2] + s.c) % 0x1_0000_0000 && r[3] == (digest[3] + s.d) % 0x1_0000_0000
      && r[4] == (digest[4] + s.e) % 0x1_0000_0000 && r[5] == (digest[5] + s.f) % 0x1_0000_0000
      && r[6] == (digest[6] + s.g) % 0x1_0000_0000 && r[7] == (digest[7] + s.h) % 0x1_0000_0000
  {
    hide Rounds, Low, Pow2, Schedule;
    var s := Rounds(digest, block, 64);
    AddIsModular(digest[0] + s.a);
    AddIsModular(digest[1] + s.b);
    AddIsModular(digest[2] + s.c);
    AddIsModular(digest[3] + s.d);
    AddIsModular(digest[4] + s.e);
    AddIsModular(digest[5] + s.f);
    AddIsModular(digest[6] + s.g);
    AddIsModular(digest[7] + s.h);
  }
}
