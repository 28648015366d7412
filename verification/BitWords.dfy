/** Unsigned machine words as numbers: bitwise operations on `w`-bit words, and how they behave
    when a word is cut down to its low bits. */
module BitWords {
  import opened Powers

  datatype BitOp = AND | OR | XOR

  function Bit(op: BitOp, a: nat, b: nat): (r: nat)
    requires a < 2 && b < 2
    ensures r < 2
  {
    match op
    case AND => if a == 1 && b == 1 then 1 else 0
    case OR => if a == 1 || b == 1 then 1 else 0
    case XOR => if a == b then 0 else 1
  }

  /** `x op y` on words of `w` bits. */
  function Bitwise(op: BitOp, x: nat, y: nat, w: nat): nat {
    if w == 0 then 0 else Bit(op, x % 2, y % 2) + 2 * Bitwise(op, x / 2, y / 2, w - 1)
  }

  function And(x: nat, y: nat, w: nat): nat { Bitwise(AND, x, y, w) }

  function Or(x: nat, y: nat, w: nat): nat { Bitwise(OR, x, y, w) }

  function Xor(x: nat, y: nat, w: nat): nat { Bitwise(XOR, x, y, w) }

  /** `~x` on words of `w` bits. */
  function Not(x: nat, w: nat): nat {
    if w == 0 then 0 else 1 - x % 2 + 2 * Not(x / 2, w - 1)
  }

  /** `x << k` on words of `w` bits. */
  function ShlWord(x: nat, k: nat, w: nat): nat
  {
    ShlNat(x, k);
    Low(Shl(x, k), w)
  }

  lemma {:induction false} ShlNat(x: nat, k: nat)
    ensures Shl(x, k) >= x
  {
    if k > 0 {
      ShlNat(x, k - 1);
    }
  }

  lemma {:induction false} LowBound(n: nat, k: nat)
    ensures Low(n, k) < Pow2(k)
  {
    if k > 0 {
      LowBound(n / 2, k - 1);
    }
  }

  lemma {:induction false} LowOfSmall(n: nat, k: nat)
    requires n < Pow2(k)
    ensures Low(n, k) == n
  {
    if k > 0 {
      LowOfSmall(n / 2, k - 1);
    }
  }

  /** Cutting to `j` bits and then to fewer is cutting to fewer. */
  lemma {:induction false} LowLow(n: nat, j: nat, k: nat)
    requires k <= j
    ensures Low(Low(n, j), k) == Low(n, k)
  {
    if k > 0 {
      LowLow(n / 2, j - 1, k - 1);
      assert Low(n, j) % 2 == n % 2 && Low(n, j) / 2 == Low(n / 2, j - 1);
    }
  }

  lemma {:induction false} LowDropsMultiple(n: nat, z: nat, k: nat)
    ensures Shl(z, k) >= 0
    ensures Low(n + Shl(z, k), k) == Low(n, k)
  {
    ShlNat(z, k);
    if k > 0 {
      LowDropsMultiple(n / 2, z, k - 1);
      assert (n + Shl(z, k)) / 2 == n / 2 + Shl(z, k - 1);
    }
  }

  /** Addition may reduce either operand first. */
  lemma LowSum(x: nat, y: nat, k: nat)
    ensures Low(x + y, k) == Low(x + Low(y, k), k)
  {
    ShrLow(y, k);
    LowDropsMultiple(x + Low(y, k), Shr(y, k), k);
  }

  lemma {:induction false} BitwiseBound(op: BitOp, x: nat, y: nat, w: nat)
    ensures Bitwise(op, x, y, w) < Pow2(w)
  {
    if w > 0 {
      BitwiseBound(op, x / 2, y / 2, w - 1);
    }
  }

  /** The low bits of a bitwise result are the result in a narrower word. */
  lemma {:induction false} LowOfBitwise(op: BitOp, x: nat, y: nat, w: nat, k: nat)
    requires k <= w
    ensures Low(Bitwise(op, x, y, w), k) == Bitwise(op, x, y, k)
  {
    if k > 0 {
      LowOfBitwise(op, x / 2, y / 2, w - 1, k - 1);
    }
  }

  /** Only the low bits of the operands matter. */
  lemma {:induction false} BitwiseOfLow(op: BitOp, x: nat, y: nat, k: nat)
    ensures Bitwise(op, Low(x, k), Low(y, k), k) == Bitwise(op, x, y, k)
  {
    if k > 0 {
      BitwiseOfLow(op, x / 2, y / 2, k - 1);
    }
  }

  /** Words that fit `k` bits give the same result in any wider word. */
  lemma {:induction false} NarrowBitwise(op: BitOp, x: nat, y: nat, w: nat, k: nat)
    requires k <= w && x < Pow2(k) && y < Pow2(k)
    ensures Bitwise(op, x, y, w) == Bitwise(op, x, y, k)
  {
    if k > 0 {
      NarrowBitwise(op, x / 2, y / 2, w - 1, k - 1);
    } else if w > 0 {
      NarrowBitwise(op, 0, 0, w - 1, 0);
    }
  }

  /** In a conjunction with a word of `k` bits only the low `k` bits of the other word matter. */
  lemma {:induction false} NarrowAnd(x: nat, y: nat, w: nat, k: nat)
    requires k <= w && y < Pow2(k)
    ensures And(x, y, w) == And(Low(x, k), y, k)
  {
    if k > 0 {
      NarrowAnd(x / 2, y / 2, w - 1, k - 1);
      assert Low(x, k) % 2 == x % 2 && Low(x, k) / 2 == Low(x / 2, k - 1);
    } else if w > 0 {
      NarrowAnd(x / 2, 0, w - 1, 0);
    }
  }

  lemma {:induction false} LowOfNot(x: nat, w: nat, k: nat)
    requires k <= w
    ensures Low(Not(x, w), k) == Not(x, k)
  {
    if k > 0 {
      LowOfNot(x / 2, w - 1, k - 1);
      var rest := Not(x / 2, w - 1);
      assert Not(x, w) == 1 - x % 2 + 2 * rest;
      assert Not(x, w) / 2 == rest && Not(x, w) % 2 == 1 - x % 2;
    }
  }

  /** A disjunction of words without common bits is their sum. */
  lemma {:induction false} OrDisjoint(a: nat, b: nat, k: nat, w: nat)
    requires b < Pow2(k) && k <= w
    requires Shl(a, k) < Pow2(w)
    ensures Shl(a, k) >= 0 && Or(Shl(a, k), b, w) == Shl(a, k) + b
  {
    ShlNat(a, k);
    if k > 0 {
      OrDisjoint(a, b / 2, k - 1, w - 1);
      ShlNat(a, k - 1);
      assert Shl(a, k) / 2 == Shl(a, k - 1) && Shl(a, k) % 2 == 0;
    } else {
      OrSelfZero(a, w);
    }
  }

  lemma {:induction false} OrSelfZero(x: nat, w: nat)
    requires x < Pow2(w)
    ensures Or(x, 0, w) == x
  {
    if w > 0 {
      OrSelfZero(x / 2, w - 1);
    }
  }

  /** The low bits of a concatenation. */
  lemma {:induction false} LowOfConcat(q: nat, r: nat, k: nat, j: nat)
    requires r < Pow2(k)
    ensures Shl(q, k) >= 0 && Low(Shl(q, k) + r, k + j) == Shl(Low(q, j), k) + r
  {
    ShlNat(q, k);
    if k > 0 {
      ShlNat(q, k - 1);
      LowOfConcat(q, r / 2, k - 1, j);
      assert (Shl(q, k) + r) / 2 == Shl(q, k - 1) + r / 2 && (Shl(q, k) + r) % 2 == r % 2;
    }
  }

  lemma SmallPowers()
    ensures Pow2(3) == 8 && Pow2(8) == 256 && Pow2(13) == 0x2000 && Pow2(16) == 0x1_0000
    ensures Pow2(24) == 0x1000000 && Pow2(32) == 0x1_0000_0000
  {
    assert Pow2(6) == 64;
    assert Pow2(9) == 512;
  }

  lemma EightMore(k: nat)
    ensures Pow2(k + 8) == 256 * Pow2(k)
  {
    hide Pow2;
    Pow2Sum(k, 8);
    SmallPowers();
  }

  lemma EightTimes(n: int)
    ensures Shl(n, 8) == 256 * n
  {
    hide Pow2, Shl;
    ShlIsProduct(n, 8);
    SmallPowers();
  }

  lemma ShrEight(n: nat)
    ensures Shr(n, 8) == n / 256
  {
    hide Shr, Shl, Low, Pow2;
    ShrLow(n, 8);
    EightTimes(Shr(n, 8));
    SmallPowers();
  }

  // ---- Bit by bit ----

  lemma BitStep(x: nat, i: nat)
    ensures GetBit(x, i) <==> if i == 0 then x % 2 == 1 else GetBit(x / 2, i - 1)
  {
  }

  lemma HalfOfBitwise(op: BitOp, x: nat, y: nat, w: nat)
    requires w > 0
    ensures var z := Bitwise(op, x, y, w);
      z % 2 == Bit(op, x % 2, y % 2) && z / 2 == Bitwise(op, x / 2, y / 2, w - 1)
  {
    hide Bit;
  }

  lemma {:induction false} BitOfBitwise(op: BitOp, x: nat, y: nat, w: nat, i: nat)
    requires i < w
    ensures GetBit(Bitwise(op, x, y, w), i) <==>
      Bit(op, if GetBit(x, i) then 1 else 0, if GetBit(y, i) then 1 else 0) == 1
  {
    hide GetBit, Bit, Bitwise;
    HalfOfBitwise(op, x, y, w);
    BitStep(x, i);
    BitStep(y, i);
    BitStep(Bitwise(op, x, y, w), i);
    if i > 0 {
      BitOfBitwise(op, x / 2, y / 2, w - 1, i - 1);
    }
  }

  lemma BitOfAnd(x: nat, y: nat, w: nat, i: nat)
    requires i < w
    ensures GetBit(And(x, y, w), i) <==> GetBit(x, i) && GetBit(y, i)
  {
    hide GetBit, Bitwise;
    BitOfBitwise(AND, x, y, w, i);
  }

  lemma BitOfOr(x: nat, y: nat, w: nat, i: nat)
    requires i < w
    ensures GetBit(Or(x, y, w), i) <==> GetBit(x, i) || GetBit(y, i)
  {
    hide GetBit, Bitwise;
    BitOfBitwise(OR, x, y, w, i);
  }

  lemma BitOfXor(x: nat, y: nat, w: nat, i: nat)
    requires i < w
    ensures GetBit(Xor(x, y, w), i) <==> GetBit(x, i) != GetBit(y, i)
  {
    hide GetBit, Bitwise;
    BitOfBitwise(XOR, x, y, w, i);
  }

  lemma {:induction false} BitOfNot(x: nat, w: nat, i: nat)
    requires i < w
    ensures GetBit(Not(x, w), i) <==> !GetBit(x, i)
  {
    hide GetBit;
    var z := Not(x, w);
    assert z % 2 == 1 - x % 2 && z / 2 == Not(x / 2, w - 1);
    BitStep(x, i);
    BitStep(z, i);
    if i > 0 {
      BitOfNot(x / 2, w - 1, i - 1);
    }
  }
}
