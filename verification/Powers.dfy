/** Powers of two, shifts and binary digits of the mathematical integers that stand for the
    library's multi-precision numbers. Shifts are defined by repeated halving and doubling, so
    that reasoning about them stays linear. */
module Powers {
  import opened Divisibility

  function Pow2(n: nat): (p: nat)
    ensures p >= 1
  {
    if n == 0 then 1 else 2 * Pow2(n - 1)
  }

  /** `n * 2^k`. */
  function Shl(n: int, k: nat): int {
    if k == 0 then n else 2 * Shl(n, k - 1)
  }

  /** `n >> k`. */
  function Shr(n: nat, k: nat): nat {
    if k == 0 then n else Shr(n / 2, k - 1)
  }

  /** The low `k` bits of `n`, that is `n` modulo `2^k`. */
  function Low(n: nat, k: nat): nat {
    if k == 0 then 0 else n % 2 + 2 * Low(n / 2, k - 1)
  }

  /** Bit `k` of `n`, where bit 0 is the least significant. */
  predicate GetBit(n: nat, k: nat) {
    Shr(n, k) % 2 == 1
  }

  function BitCount(n: nat): nat {
    if n == 0 then 0 else 1 + BitCount(n / 2)
  }

  lemma PowZero()
    ensures Pow2(0) == 1
  {
  }

  /** The product that `Shl` abbreviates. */
  lemma {:induction false} ShlIsProduct(n: int, k: nat)
    ensures Shl(n, k) == n * Pow2(k)
  {
    if k > 0 {
      ShlIsProduct(n, k - 1);
      assert n * (2 * Pow2(k - 1)) == 2 * (n * Pow2(k - 1));
    }
  }

  lemma {:induction false} ShlAdd(m: int, n: int, k: nat)
    ensures Shl(m + n, k) == Shl(m, k) + Shl(n, k)
    ensures Shl(m - n, k) == Shl(m, k) - Shl(n, k)
  {
    if k > 0 {
      ShlAdd(m, n, k - 1);
    }
  }

  lemma {:induction false} ShlShl(n: int, j: nat, k: nat)
    ensures Shl(Shl(n, j), k) == Shl(n, j + k)
  {
    if k > 0 {
      ShlShl(n, j, k - 1);
    }
  }

  lemma {:induction false} ShlOne(k: nat)
    ensures Shl(1, k) == Pow2(k)
  {
    if k > 0 {
      ShlOne(k - 1);
    }
  }

  lemma {:induction false} ShlMonotone(m: int, n: int, k: nat)
    requires m <= n
    ensures Shl(m, k) <= Shl(n, k)
    ensures m < n ==> Shl(m, k) < Shl(n, k)
    ensures Shl(0, k) == 0
  {
    if k > 0 {
      ShlMonotone(m, n, k - 1);
    }
  }

  lemma {:induction false} Pow2Sum(m: nat, n: nat)
    ensures Pow2(m + n) == Pow2(m) * Pow2(n)
  {
    ShlOne(m);
    ShlShl(1, n, m);
    ShlOne(n);
    ShlOne(n + m);
    ShlIsProduct(Pow2(n), m);
  }

  lemma {:induction false} Pow2Monotone(m: nat, n: nat)
    requires m <= n
    ensures Pow2(m) <= Pow2(n)
    decreases n - m
  {
    if m < n {
      Pow2Monotone(m + 1, n);
    }
  }

  /** A number is its high part, shifted back, plus its low part. */
  lemma {:induction false} ShrLow(n: nat, k: nat)
    ensures n == Shl(Shr(n, k), k) + Low(n, k)
    ensures Low(n, k) < Pow2(k)
  {
    if k > 0 {
      ShrLow(n / 2, k - 1);
    }
  }

  lemma {:induction false} ShrShr(n: nat, j: nat, k: nat)
    ensures Shr(Shr(n, j), k) == Shr(n, j + k)
  {
    if j > 0 {
      ShrShr(n / 2, j - 1, k);
    }
  }

  lemma ShrZero(n: nat)
    ensures Shr(n, 0) == n
  {
  }

  lemma ShrSucc(n: nat, k: nat)
    ensures Shr(n, k + 1) == Shr(n, k) / 2
  {
    ShrShr(n, k, 1);
    assert Shr(Shr(n, k), 1) == Shr(Shr(n, k) / 2, 0);
  }

  lemma {:induction false} ShrDecreases(n: nat, k: nat)
    ensures Shr(n, k) <= n
    ensures k > 0 ==> Shr(n, k) <= n / 2
  {
    if k > 0 {
      ShrDecreases(n / 2, k - 1);
    }
  }

  lemma {:induction false} ShiftedOut(n: nat, k: nat)
    requires k >= BitCount(n)
    ensures Shr(n, k) == 0
  {
    if k > 0 {
      ShiftedOut(n / 2, k - 1);
    }
  }

  /** Adding 2^k changes only the high part. */
  lemma {:induction false} AddAtBit(n: nat, k: nat)
    ensures Shr(n + Pow2(k), k) == Shr(n, k) + 1
    ensures Low(n + Pow2(k), k) == Low(n, k)
  {
    if k > 0 {
      AddAtBit(n / 2, k - 1);
      assert (n + Pow2(k)) / 2 == n / 2 + Pow2(k - 1);
    }
  }

  // ---- What the functions are in ordinary arithmetic ----

  lemma PowersOfTwo(k: nat)
    ensures Pow2(0) == 1 && Pow2(k + 1) == 2 * Pow2(k)
  {
  }

  lemma QuotientAndRest(n: nat, k: nat)
    ensures Shr(n, k) == n / Pow2(k) && Low(n, k) == n % Pow2(k)
  {
    hide Shr, Low, Pow2, Shl;
    ShrLow(n, k);
    ShlIsProduct(Shr(n, k), k);
    DivisionUnique(n, Pow2(k), Shr(n, k), Low(n, k));
  }

  lemma ShrIsQuotient(n: nat, k: nat)
    ensures Shr(n, k) == n / Pow2(k)
  {
    QuotientAndRest(n, k);
  }

  lemma LowIsRest(n: nat, k: nat)
    ensures Low(n, k) == n % Pow2(k)
  {
    QuotientAndRest(n, k);
  }

  /** The number of bits is the least `k` such that the number is below 2^k. */
  lemma {:induction false} BitCountExactly(n: nat, k: nat)
    ensures n < Pow2(k) <==> BitCount(n) <= k
  {
    if n > 0 && k > 0 {
      BitCountExactly(n / 2, k - 1);
    }
  }

  // ---- Bits ----

  lemma BitOfShr(x: nat, n: nat, i: nat)
    ensures GetBit(Shr(x, n), i) <==> GetBit(x, n + i)
  {
    hide Shr;
    ShrShr(x, n, i);
  }

  lemma {:induction false} BitOfLow(x: nat, k: nat, i: nat)
    requires i < k
    ensures GetBit(Low(x, k), i) <==> GetBit(x, i)
  {
    if i > 0 {
      BitOfLow(x / 2, k - 1, i - 1);
      assert Low(x, k) / 2 == Low(x / 2, k - 1);
    }
  }

  lemma {:induction false} BitOfShl(x: nat, k: nat, i: nat)
    ensures Shl(x, k) >= 0 && (GetBit(Shl(x, k), i) <==> i >= k && GetBit(x, i - k))
  {
    ShlMonotone(0, x, k);
    if k > 0 {
      ShlMonotone(0, x, k - 1);
      assert Shl(x, k) / 2 == Shl(x, k - 1) && Shl(x, k) % 2 == 0;
      if i > 0 {
        BitOfShl(x, k - 1, i - 1);
      }
    }
  }

  /** A number below 2^k has no bits from `k` on. */
  lemma {:induction false} HighBit(x: nat, k: nat, i: nat)
    requires x < Pow2(k) && i >= k
    ensures !GetBit(x, i)
  {
    if k == 0 {
      ShrDecreases(0, i);
    } else {
      HighBit(x / 2, k - 1, i - 1);
    }
  }

  /** The bits determine the number. */
  lemma {:induction false} SameBits(x: nat, y: nat, k: nat)
    requires x < Pow2(k) && y < Pow2(k) && forall i :: 0 <= i < k ==> (GetBit(x, i) <==> GetBit(y, i))
    ensures x == y
  {
    if k > 0 {
      forall i | 0 <= i < k - 1
        ensures GetBit(x / 2, i) <==> GetBit(y / 2, i)
      {
        assert GetBit(x, i + 1) <==> GetBit(y, i + 1);
      }
      SameBits(x / 2, y / 2, k - 1);
      assert GetBit(x, 0) <==> GetBit(y, 0);
    }
  }
}
