/** The signed sliding-window recoding of an exponent: the class that produces one window at a
    time, the list of digits it produces, and what that list means. */
module WindowSliders {
  import opened Powers

  /** A signed digit standing for `value * 2^position`. */
  datatype Digit = Digit(position: nat, value: int)

  /** The digits of `exp * 2^begin`, least significant first: a run of zero bits is skipped, then
      a window of `w` bits is cut off. When negation is fast and the bit after the window is set,
      the window is replaced by its complement and one is carried into the rest. */
  ghost function Recode(exp: nat, w: nat, fastNegate: bool, begin: nat): seq<Digit>
    requires w >= 1
    decreases exp
  {
    if exp == 0 then []
    else if exp % 2 == 0 then Recode(exp / 2, w, fastNegate, begin + 1)
    else
      RestIsSmaller(exp, w);
      if fastNegate && GetBit(exp, w)
      then [Digit(begin, Low(exp, w) - Pow2(w))] + Recode(Shr(exp, w) + 1, w, fastNegate, begin + w)
      else [Digit(begin, Low(exp, w))] + Recode(Shr(exp, w), w, fastNegate, begin + w)
  }

  lemma RestIsSmaller(exp: nat, w: nat)
    requires exp % 2 == 1 && w >= 1
    ensures Shr(exp, w) < exp
    ensures GetBit(exp, w) ==> Shr(exp, w) + 1 < exp
  {
    ShrDecreases(exp, w);
    if exp == 1 {
      ShrDecreases(0, w - 1);
    }
  }

  /** The number a list of digits stands for, the sum of `value * 2^position`. */
  ghost function Value(ds: seq<Digit>): int {
    if ds == [] then 0 else Shl(ds[0].value, ds[0].position) + Value(ds[1..])
  }

  lemma ValueIsSum(d: Digit, ds: seq<Digit>)
    ensures Value([]) == 0
    ensures Value([d] + ds) == d.value * Pow2(d.position) + Value(ds)
  {
    assert ([d] + ds)[1..] == ds;
    ShlIsProduct(d.value, d.position);
  }

  ghost predicate Odd(n: int) {
    n % 2 == 1
  }

  /** What the recoding promises of each digit: odd, below 2^w, negative only if that is fast. */
  ghost predicate GoodDigit(d: Digit, w: nat, fastNegate: bool) {
    && Odd(d.value)
    && 0 - Pow2(w) < d.value < Pow2(w)
    && (d.value < 0 ==> fastNegate)
  }

  ghost predicate GoodDigits(ds: seq<Digit>, w: nat, fastNegate: bool, begin: nat) {
    && (forall k :: 0 <= k < |ds| ==> GoodDigit(ds[k], w, fastNegate) && begin <= ds[k].position)
    && (forall j, k :: 0 <= j < k < |ds| ==> ds[j].position + w <= ds[k].position)
  }

  /** The recoding of an exponent is the exponent. */
  lemma {:induction false} RecodeValue(exp: nat, w: nat, fastNegate: bool, begin: nat)
    requires w >= 1
    ensures Value(Recode(exp, w, fastNegate, begin)) == Shl(exp, begin)
    decreases exp
  {
    ShlMonotone(0, 0, begin);
    if exp == 0 {
    } else if exp % 2 == 0 {
      RecodeValue(exp / 2, w, fastNegate, begin + 1);
      ShlShl(exp / 2, 1, begin);
      assert Shl(exp / 2, 1) == 2 * Shl(exp / 2, 0) == exp;
    } else {
      RestIsSmaller(exp, w);
      var carry := if fastNegate && GetBit(exp, w) then 1 else 0;
      var rest := Shr(exp, w) + carry;
      RecodeValue(rest, w, fastNegate, begin + w);
      var ds := Recode(exp, w, fastNegate, begin);
      assert ds[1..] == Recode(rest, w, fastNegate, begin + w);
      ShlShl(rest, w, begin);
      assert w + begin == begin + w;
      ShlAdd(ds[0].value, Shl(rest, w), begin);
      ShlAdd(Shr(exp, w), carry, w);
      ShrLow(exp, w);
      ShlOne(w);
      ShlMonotone(0, 0, w);
      assert ds[0].value + Shl(rest, w) == exp;
    }
  }

  lemma WindowBounds(exp: nat, w: nat)
    requires w >= 1 && Odd(exp)
    ensures Odd(Low(exp, w)) && 1 <= Low(exp, w) < Pow2(w)
    ensures Odd(Pow2(w) - Low(exp, w)) && 1 <= Pow2(w) - Low(exp, w) < Pow2(w)
  {
    hide Low, Pow2, Shr, Shl;
    ShrLow(exp, w);
    LowestBit(exp, w);
  }

  lemma LowestBit(n: nat, w: nat)
    requires w >= 1
    ensures Low(n, w) % 2 == n % 2 && Pow2(w) % 2 == 0
  {
    hide Low, Pow2;
    OneBit(n, w);
    Parity(n % 2, Low(n / 2, w - 1));
    Parity(0, Pow2(w - 1));
  }

  lemma OneBit(n: nat, w: nat)
    requires w >= 1
    ensures Low(n, w) == n % 2 + 2 * Low(n / 2, w - 1) && Pow2(w) == 2 * Pow2(w - 1)
  {
  }

  lemma Parity(b: nat, n: nat)
    requires b < 2
    ensures (b + 2 * n) % 2 == b
  {
  }

  /** Every digit is odd, fits the window, and is at least a window away from the next. */
  lemma {:induction false} RecodeShape(exp: nat, w: nat, fastNegate: bool, begin: nat)
    requires w >= 1
    ensures GoodDigits(Recode(exp, w, fastNegate, begin), w, fastNegate, begin)
    decreases exp
  {
    hide Low, Pow2, Shr, GoodDigits;
    if exp == 0 {
      NoDigits(w, fastNegate, begin);
    } else if exp % 2 == 0 {
      RecodeShape(exp / 2, w, fastNegate, begin + 1);
      EarlierBegin(Recode(exp / 2, w, fastNegate, begin + 1), w, fastNegate, begin, begin + 1);
    } else {
      RestIsSmaller(exp, w);
      WindowBounds(exp, w);
      var rest := Shr(exp, w) + if fastNegate && GetBit(exp, w) then 1 else 0;
      RecodeShape(rest, w, fastNegate, begin + w);
      var ds := Recode(exp, w, fastNegate, begin);
      assert ds == [ds[0]] + Recode(rest, w, fastNegate, begin + w);
      DigitInFront(ds[0], Recode(rest, w, fastNegate, begin + w), w, fastNegate, begin);
    }
  }

  lemma NoDigits(w: nat, fastNegate: bool, begin: nat)
    ensures GoodDigits([], w, fastNegate, begin)
  {
  }

  lemma EarlierBegin(ds: seq<Digit>, w: nat, fastNegate: bool, begin: nat, later: nat)
    requires GoodDigits(ds, w, fastNegate, later) && begin <= later
    ensures GoodDigits(ds, w, fastNegate, begin)
  {
    hide GoodDigit;
  }

  lemma DigitInFront(d: Digit, ds: seq<Digit>, w: nat, fastNegate: bool, begin: nat)
    requires GoodDigit(d, w, fastNegate) && d.position == begin && GoodDigits(ds, w, fastNegate, begin + w)
    ensures GoodDigits([d] + ds, w, fastNegate, begin)
  {
    hide GoodDigit;
  }

  lemma RecodeDigits(exp: nat, w: nat, fastNegate: bool, begin: nat)
    requires w >= 1
    ensures var ds := Recode(exp, w, fastNegate, begin);
      && (forall k :: 0 <= k < |ds| ==>
            && ds[k].value % 2 == 1 && 0 - Pow2(w) < ds[k].value < Pow2(w)
            && (fastNegate || ds[k].value > 0) && begin <= ds[k].position)
      && (forall j, k :: 0 <= j < k < |ds| ==> ds[j].position + w <= ds[k].position)
  {
    hide Recode, Pow2;
    RecodeShape(exp, w, fastNegate, begin);
    var ds := Recode(exp, w, fastNegate, begin);
    assert forall k :: 0 <= k < |ds| ==> GoodDigit(ds[k], w, fastNegate);
    assert forall k :: 0 <= k < |ds| ==> Odd(ds[k].value);
  }

  /** Skipping a position whose bit is clear leaves the digits unchanged. */
  lemma SkipClearBit(exp: nat, w: nat, fastNegate: bool, begin: nat, skip: nat)
    requires w >= 1
    requires !GetBit(exp, skip)
    ensures Recode(Shr(exp, skip), w, fastNegate, begin + skip)
         == Recode(Shr(exp, skip + 1), w, fastNegate, begin + (skip + 1))
  {
    ShrSucc(exp, skip);
    assert begin + skip + 1 == begin + (skip + 1);
  }

  /** The digits of an odd exponent, with the carry left in the exponent itself. */
  lemma RecodeOdd(exp: nat, w: nat, fastNegate: bool, begin: nat)
    requires w >= 1 && Odd(exp)
    ensures fastNegate && GetBit(exp, w) ==>
      Recode(exp, w, fastNegate, begin)
      == [Digit(begin, 0 - (Pow2(w) - Low(exp, w)))] + Recode(Shr(exp + Pow2(w), w), w, fastNegate, begin + w)
    ensures !(fastNegate && GetBit(exp, w)) ==>
      Recode(exp, w, fastNegate, begin)
      == [Digit(begin, Low(exp, w))] + Recode(Shr(exp, w), w, fastNegate, begin + w)
  {
    AddAtBit(exp, w);
    hide Shr, Low, Pow2;
  }

  /** The rules of the recoding: nothing for zero, no digit at a clear bit, and at a set bit the window or,
      where negation is fast and the next bit is set, the window less 2^w with a carry. */
  lemma RecodeRules(exp: nat, w: nat, fastNegate: bool, begin: nat)
    requires w >= 1
    ensures Recode(0, w, fastNegate, begin) == []
    ensures Recode(2 * exp, w, fastNegate, begin) == Recode(exp, w, fastNegate, begin + 1)
    ensures exp % 2 == 1 ==>
      var carry := if fastNegate && exp / Pow2(w) % 2 == 1 then 1 else 0;
      Recode(exp, w, fastNegate, begin)
      == [Digit(begin, exp % Pow2(w) - carry * Pow2(w))]
         + Recode(exp / Pow2(w) + carry, w, fastNegate, begin + w)
  {
    hide Shr, Low, Pow2;
    QuotientAndRest(exp, w);
    NoneLeft(w, fastNegate, begin);
  }

  lemma NoneLeft(w: nat, fastNegate: bool, begin: nat)
    requires w >= 1
    ensures Recode(0, w, fastNegate, begin) == []
  {
  }

  /** The window width chosen for an exponent of `bits` bits. */
  function PickWindowSize(bits: nat): (w: nat)
    ensures 1 <= w <= 7
  {
    if bits <= 17 then 1
    else if bits <= 24 then 2
    else if bits <= 70 then 3
    else if bits <= 197 then 4
    else if bits <= 539 then 5
    else if bits <= 1434 then 6
    else 7
  }

  /** Up to which length of the exponent each width is used. */
  lemma WindowWidths(bits: nat)
    ensures PickWindowSize(bits) >= 2 <==> bits > 17
    ensures PickWindowSize(bits) >= 3 <==> bits > 24
    ensures PickWindowSize(bits) >= 4 <==> bits > 70
    ensures PickWindowSize(bits) >= 5 <==> bits > 197
    ensures PickWindowSize(bits) >= 6 <==> bits > 539
    ensures PickWindowSize(bits) >= 7 <==> bits > 1434
  {
  }

  const WORD_BITS := 64

  function WordCount(n: nat): nat {
    (BitCount(n) + WORD_BITS - 1) / WORD_BITS
  }

  /** Past the words of an exponent nothing is left of it. */
  lemma PastTheTop(exp: nat, skip: nat)
    requires skip >= WordCount(exp) * WORD_BITS
    ensures forall w, fastNegate, begin :: w >= 1 ==> Recode(Shr(exp, skip), w, fastNegate, begin) == []
  {
    ShiftedOut(exp, skip);
  }

  lemma SetBit(exp: nat, k: nat)
    requires GetBit(exp, k)
    ensures Odd(Shr(exp, k))
  {
  }

  class WindowSlider {
    const windowModulus: nat
    const windowSize: nat
    const fastNegate: bool
    var exp: nat
    var windowBegin: nat
    var expWindow: int
    var negateNext: bool
    var firstTime: bool
    var finished: bool

    /** The digits still to come, the one in `expWindow` included. */
    ghost var digits: seq<Digit>

    ghost predicate Valid()
      reads this
    {
      && windowSize >= 1
      && windowModulus == Pow2(windowSize)
      && if firstTime then
           !finished && windowBegin == 0 && digits == Recode(exp, windowSize, fastNegate, 0)
         else if finished then
           digits == []
         else
           && Odd(expWindow) && 0 < expWindow < windowModulus
           && digits == [Digit(windowBegin, if negateNext then -expWindow else expWindow)]
                        + Recode(Shr(exp, windowSize), windowSize, fastNegate, windowBegin + windowSize)
    }

    constructor (expIn: nat, fastNegateIn: bool, windowSizeIn: nat := 0)
      ensures Valid() && firstTime && fastNegate == fastNegateIn
      ensures windowSize == if windowSizeIn == 0 then PickWindowSize(BitCount(expIn)) else windowSizeIn
      ensures digits == Recode(expIn, windowSize, fastNegateIn, 0)
    {
      var w := if windowSizeIn == 0 then PickWindowSize(BitCount(expIn)) else windowSizeIn;
      exp, windowSize, windowModulus, windowBegin, expWindow := expIn, w, Pow2(w), 0, 0;
      fastNegate, negateNext, firstTime, finished := fastNegateIn, false, true, false;
      digits := Recode(expIn, w, fastNegateIn, 0);
    }

    /** Moves to the next digit; by `Valid` the slider is finished exactly when none is left. */
    method FindNextWindow()
      requires Valid() && !finished
      modifies this
      ensures Valid() && !firstTime
      ensures digits == if old(firstTime) then old(digits) else old(digits)[1..]
    {
      hide Recode, Shr, Low, Pow2, GetBit, Odd;
      ShrZero(exp);
      digits := if firstTime then digits else digits[1..];
      var skipCount := if firstTime then 0 else windowSize;
      assert digits == Recode(Shr(exp, skipCount), windowSize, fastNegate, windowBegin + skipCount);
      firstTime := false;
      var expLen := WordCount(exp) * WORD_BITS;
      while !GetBit(exp, skipCount)
        invariant exp == old(exp) && windowBegin == old(windowBegin) && !firstTime && !finished
        invariant digits == if old(firstTime) then old(digits) else old(digits)[1..]
        invariant skipCount <= expLen + windowSize
        invariant digits == Recode(Shr(exp, skipCount), windowSize, fastNegate, windowBegin + skipCount)
        decreases expLen + windowSize + 1 - skipCount
      {
        if skipCount >= expLen {
          PastTheTop(exp, skipCount);
          finished := true;
          return;
        }
        SkipClearBit(exp, windowSize, fastNegate, windowBegin, skipCount);
        skipCount := skipCount + 1;
      }
      SetBit(exp, skipCount);

      exp := Shr(exp, skipCount);
      windowBegin := windowBegin + skipCount;
      expWindow := Low(exp, windowSize);
      WindowBounds(exp, windowSize);
      RecodeOdd(exp, windowSize, fastNegate, windowBegin);

      if fastNegate && GetBit(exp, windowSize) {
        negateNext := true;
        expWindow := windowModulus - expWindow;
        exp := exp + windowModulus;
      } else {
        negateNext := false;
      }
    }
  }
}
