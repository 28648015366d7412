/** The difficulty adjustment, with real numbers in place of the code's doubles. */
module Retargeting {
  import opened Divisibility
  import opened Wrappers
  import opened Powers
  import opened BitWords
  import opened Serializer
  import opened Blocks
  import opened ProofOfWork

  /** 256^k. */
  function Power256(k: nat): (p: real)
    ensures p >= 1.0
  {
    if k == 0 then 1.0 else 256.0 * Power256(k - 1)
  }

  /** mantissa * 256^(exponent - 3), not rounded, and without a look at the sign bit. */
  function Value(bits: uint32): (v: real)
    ensures v >= 0.0
  {
    var m := Mantissa(bits) as real;
    if Exponent(bits) >= 3 then Scaled(m, Exponent(bits) - 3)
    else
      Quotient(m, Power256(3 - Exponent(bits)));
      m / Power256(3 - Exponent(bits))
  }

  /** `m` * 256^k. */
  function Scaled(m: real, k: nat): (v: real)
    ensures m >= 0.0 ==> v >= m
  {
    Product(m, Power256(k));
    m * Power256(k)
  }

  lemma Product(m: real, p: real)
    requires p >= 1.0
    ensures m >= 0.0 ==> m * p >= m
  {
  }

  lemma Quotient(m: real, p: real)
    requires m >= 0.0 && p >= 1.0
    ensures m / p >= 0.0
  {
  }

  /** Within the range of valid exponents the value is the target. */
  lemma ValueIsTarget(bits: uint32)
    requires !Negative(bits) && 3 <= Exponent(bits) <= 32
    ensures TargetValue(bits) as real == Value(bits)
  {
    hide Power256, Shl, Shr, Exponent, Mantissa, Negative, Scaled;
    var k := Exponent(bits) - 3;
    ShrZero(Mantissa(bits));
    ShlZero(Mantissa(bits));
    assert TargetValue(bits) == Shl(Mantissa(bits), 8 * k);
    ShiftScales(Mantissa(bits), k);
  }

  lemma {:induction false} ShiftScales(m: nat, k: nat)
    ensures Shl(m, 8 * k) as real == Scaled(m as real, k)
  {
    if k > 0 {
      ShiftScales(m, k - 1);
      ShlShl(m, 8 * (k - 1), 8);
      EightTimes(Shl(m, 8 * (k - 1)));
      ScaledMore(m as real, k - 1);
    } else {
      ShlZero(m);
    }
  }

  lemma ScaledMore(m: real, k: nat)
    ensures Scaled(m, k + 1) == 256.0 * Scaled(m, k)
    ensures Scaled(m / 256.0, k + 1) == Scaled(m, k)
  {
    RegroupReals(m, Power256(k));
  }

  lemma RegroupReals(m: real, p: real)
    ensures m * (256.0 * p) == 256.0 * (m * p) && m / 256.0 * (256.0 * p) == m * p
  {
  }

  lemma ScaledLess(m: real, n: real, k: nat)
    requires m <= n
    ensures Scaled(m, k) <= Scaled(n, k)
    ensures Scaled(n, k) - Scaled(m, k) == Scaled(n - m, k)
    ensures m < n ==> Scaled(m, k) < Scaled(n, k)
  {
    hide Power256;
    var p := Power256(k);
    Differences(m, n, p);
    assert Scaled(m, k) == m * p && Scaled(n, k) == n * p && Scaled(n - m, k) == (n - m) * p;
  }

  lemma Differences(m: real, n: real, p: real)
    requires m <= n && p >= 1.0
    ensures m * p <= n * p && n * p - m * p == (n - m) * p
    ensures m < n ==> m * p < n * p
  {
    Distributes(n, m, p);
    Product(n - m, p);
    assert n * p - m * p >= n - m;
  }

  lemma Distributes(n: real, m: real, p: real)
    ensures n * p - m * p == (n - m) * p
  {
  }

  /** The observed timespan, clamped to a quarter and four times the target timespan. */
  function Clamp(actual: int, timespan: nat): (c: nat)
    ensures timespan / 4 <= c <= 4 * timespan
    ensures timespan / 4 <= actual <= 4 * timespan ==> c == actual
  {
    if actual < timespan / 4 then timespan / 4 else if actual > 4 * timespan then 4 * timespan else actual
  }

  /** A period below a quarter counts as a quarter, one above four times as four times, and a shorter
      period never counts for more than a longer one. */
  lemma ClampLaw(actual: int, longer: int, timespan: nat)
    ensures actual < timespan / 4 ==> Clamp(actual, timespan) == timespan / 4
    ensures actual > 4 * timespan ==> Clamp(actual, timespan) == 4 * timespan
    ensures timespan / 4 <= actual <= 4 * timespan ==> Clamp(actual, timespan) == actual
    ensures actual <= longer ==> Clamp(actual, timespan) <= Clamp(longer, timespan)
  {
  }

  /** The documented lower bound of a quarter is exact only for timespans divisible by four. */
  lemma QuarterIsExact(timespan: nat)
    ensures (forall actual :: 4 * Clamp(actual, timespan) >= timespan) <==> timespan % 4 == 0
  {
    if forall actual :: 4 * Clamp(actual, timespan) >= timespan {
      assert 4 * Clamp(-1, timespan) >= timespan;
    }
  }

  /** A positive number with the mantissa brought below 2^24, as few bytes shifted out as possible. */
  predicate Normal(value: real, m: real, e: nat) {
    && e >= 3 && 0.0 <= m < 16777216.0 && (e > 3 ==> m >= 65536.0)
    && Scaled(m, e - 3) == value
  }

  /** Normal forms are unique. */
  lemma NormalIsUnique(value: real, m: real, e: nat, n: real, f: nat)
    requires Normal(value, m, e) && Normal(value, n, f)
    ensures m == n && e == f
  {
    hide Scaled;
    if e < f {
      Separated(m, e - 3, n, f - 3);
    } else if f < e {
      Separated(n, f - 3, m, e - 3);
    } else if m < n {
      ScaledLess(m, n, e - 3);
    } else if n < m {
      ScaledLess(n, m, e - 3);
    }
  }

  lemma {:induction false} Separated(m: real, j: nat, n: real, k: nat)
    requires m < 16777216.0 && n >= 65536.0 && j < k
    ensures Scaled(m, j) < Scaled(n, k)
    decreases k
  {
    hide Scaled;
    ScaledMore(n, k - 1);
    if j + 1 == k {
      ScaledMore(m, j);
      ScaledMore(256.0 * n, j);
      ScaledLess(m, 256.0 * n, j);
      ScaledTimes(n, j);
    } else {
      Separated(m, j, n, k - 1);
      ScaledPositive(n, k - 1);
    }
  }

  lemma ScaledTimes(n: real, j: nat)
    ensures Scaled(256.0 * n, j) == 256.0 * Scaled(n, j)
  {
  }

  lemma ScaledPositive(n: real, j: nat)
    requires n > 0.0
    ensures Scaled(n, j) > 0.0
  {
  }

  function Compact(m: real, e: nat): uint32
    requires 0.0 <= m < 16777216.0
  {
    e % 256 * 0x100_0000 + m.Floor % 0x80_0000
  }

  /** Shifts whole bytes out of the value until the mantissa fits. */
  method Normalize(value: real) returns (m: real, e: nat)
    requires value >= 0.0
    ensures Normal(value, m, e)
  {
    hide Scaled;
    m, e := value, 3;
    ScaledNone(value);
    ghost var steps := value.Floor;
    while m >= 16777216.0
      invariant e >= 3 && 0.0 <= m <= (steps + 1) as real && (e > 3 ==> m >= 65536.0)
      invariant steps >= 0
      invariant Scaled(m, e - 3) == value
      decreases steps
    {
      ScaledMore(m, e - 3);
      m := m / 256.0;
      e := e + 1;
      steps := m.Floor;
    }
  }

  lemma ScaledNone(m: real)
    ensures Scaled(m, 0) == m
  {
  }

  /** What the new value is before normalisation. */
  function NewValue(bits: uint32, actual: nat, timespan: nat): (v: real)
    requires timespan > 0
    ensures v >= 0.0
  {
    TimesRatio(Value(bits), actual, timespan)
  }

  /** `v` times the ratio of the timespans. */
  function TimesRatio(v: real, actual: nat, timespan: nat): (r: real)
    requires timespan > 0
    ensures v >= 0.0 ==> r >= 0.0
  {
    if v >= 0.0 then
      NotNegative(v, actual as real, timespan as real);
      v * (actual as real / timespan as real)
    else v * (actual as real / timespan as real)
  }

  lemma NotNegative(v: real, a: real, t: real)
    requires v >= 0.0 && a >= 0.0 && t > 0.0
    ensures v * (a / t) >= 0.0
  {
    assert a / t >= 0.0;
  }

  ghost predicate IsRetarget(newBits: uint32, bits: uint32, actual: nat, timespan: nat)
    requires timespan > 0
  {
    exists m: real, e: nat :: Normal(NewValue(bits, actual, timespan), m, e) && newBits == Compact(m, e)
  }

  /** Whole bytes: 256^k is 2^(8k). */
  lemma PowerLaw(k: nat)
    ensures Power256(0) == 1.0 && Power256(k + 1) == 256.0 * Power256(k)
    ensures Power256(k) == Pow2(8 * k) as real
  {
    PowersAgree(k);
  }

  /** The value of a compact number: the low 23 bits, times 256 for each unit of the top byte above three,
      divided by 256 for each one below. */
  lemma ValueLaw(bits: uint32)
    ensures bits / 0x100_0000 >= 3 ==> Value(bits) == (bits % 0x80_0000) as real * Power256(bits / 0x100_0000 - 3)
    ensures bits / 0x100_0000 < 3 ==> Value(bits) * Power256(3 - bits / 0x100_0000) == (bits % 0x80_0000) as real
  {
    hide Power256;
  }

  /** A retarget in numbers: the value times the ratio of the periods is brought to a mantissa below 2^24
      with as few bytes shifted out as possible; its whole part is cut to 23 bits and its exponent to 8. */
  lemma RetargetMeans(newBits: uint32, bits: uint32, actual: nat, timespan: nat) returns (m: real, e: nat)
    requires timespan > 0 && IsRetarget(newBits, bits, actual, timespan)
    ensures e >= 3 && 0.0 <= m < 16777216.0 && (e > 3 ==> m >= 65536.0)
    ensures m * Power256(e - 3) * timespan as real == Value(bits) * actual as real
    ensures newBits == e % 256 * 0x100_0000 + m.Floor % 0x80_0000
  {
    hide Power256, Value, TimesRatio, Scaled, Compact;
    m, e :| Normal(NewValue(bits, actual, timespan), m, e) && newBits == Compact(m, e);
    CompactIs(m, e);
    UnfoldRatio(Value(bits), actual, timespan);
    ScaledIsProduct(m, e - 3);
    var value := TimesRatio(Value(bits), actual, timespan);
    Substituted(value, m * Power256(e - 3), timespan as real);
  }

  /** And there is no other: any such mantissa and exponent give the retarget. */
  lemma RetargetGiven(newBits: uint32, bits: uint32, actual: nat, timespan: nat, m: real, e: nat)
    requires timespan > 0 && e >= 3 && 0.0 <= m < 16777216.0 && (e > 3 ==> m >= 65536.0)
    requires m * Power256(e - 3) * timespan as real == Value(bits) * actual as real
    ensures IsRetarget(newBits, bits, actual, timespan) <==> newBits == e % 256 * 0x100_0000 + m.Floor % 0x80_0000
  {
    hide Power256, Value, TimesRatio, Scaled, Compact;
    var value := NewValue(bits, actual, timespan);
    UnfoldRatio(Value(bits), actual, timespan);
    ScaledIsProduct(m, e - 3);
    Substituted(Scaled(m, e - 3), m * Power256(e - 3), timespan as real);
    Substituted(value, TimesRatio(Value(bits), actual, timespan), timespan as real);
    SameFactor(Scaled(m, e - 3), value, timespan as real, Value(bits) * actual as real);
    assert Normal(value, m, e);
    CompactIs(m, e);
    if IsRetarget(newBits, bits, actual, timespan) {
      var n: real, f: nat :| Normal(value, n, f) && newBits == Compact(n, f);
      NormalIsUnique(value, m, e, n, f);
    }
  }

  lemma ScaledIsProduct(m: real, k: nat)
    ensures Scaled(m, k) == m * Power256(k)
  {
  }

  lemma Substituted(x: real, y: real, t: real)
    requires x == y
    ensures x * t == y * t
  {
  }

  lemma CompactIs(m: real, e: nat)
    requires 0.0 <= m < 16777216.0
    ensures Compact(m, e) == e % 256 * 0x100_0000 + m.Floor % 0x80_0000
  {
  }

  lemma SameFactor(x: real, y: real, t: real, z: real)
    requires t > 0.0 && x * t == z && y * t == z
    ensures x == y
  {
    if x < y {
      StrictlyMonotone(x, y, t);
    } else if y < x {
      StrictlyMonotone(y, x, t);
    }
  }

  /** A longer period never gives a smaller value. */
  lemma LongerPeriod(bits: uint32, actual: nat, longer: nat, timespan: nat)
    requires timespan > 0 && actual <= longer
    ensures NewValue(bits, actual, timespan) <= NewValue(bits, longer, timespan)
  {
    hide Value, TimesRatio;
    var v, t := Value(bits), timespan as real;
    UnfoldRatio(v, actual, timespan);
    UnfoldRatio(v, longer, timespan);
    TimesMonotone(actual as real, longer as real, v);
    if NewValue(bits, actual, timespan) > NewValue(bits, longer, timespan) {
      StrictlyMonotone(NewValue(bits, longer, timespan), NewValue(bits, actual, timespan), t);
    }
  }

  /** One second instead of 100: at 0x1b00ffff the difficulty becomes 0x1a3fffc0, a quarter of the target. */
  lemma QuarteredExample(newBits: uint32)
    requires IsRetarget(newBits, 0x1b00_ffff, 25, 100)
    ensures newBits == 0x1a3f_ffc0
  {
    hide Power256, IsRetarget, Value;
    var m: real, bits: uint32 := 4194240.0, 0x1b00_ffff;
    assert bits / 0x100_0000 == 27 && bits % 0x80_0000 == 65535;
    ValueLaw(bits);
    PowerLaw(23);
    assert Value(bits) == 65535.0 * Power256(24);
    assert m * Power256(23) * 100.0 == 65535.0 * (256.0 * Power256(23)) * 25.0;
    RetargetGiven(newBits, bits, 25, 100, m, 26);
    assert m.Floor == 4194240;
  }

  /** The next difficulty: unchanged between boundaries, retargeted at a boundary, an error
      without history. */
  method GetNextWorkRequired(headers: seq<Header>, interval: uint32, timespan: uint32) returns (r: Result<uint32>)
    requires interval > 0 && timespan > 0
    ensures r.Error? <==> headers == []
    ensures headers != [] && |headers| % interval != 0 ==> r == Ok(headers[|headers| - 1].nBits)
    ensures headers != [] && |headers| % interval == 0 ==> interval <= |headers| && r.Ok?
    ensures headers != [] && |headers| % interval == 0 ==>
      (var tip, start := headers[|headers| - 1], headers[|headers| - interval];
       && IsRetarget(r.value, tip.nBits, Clamp(tip.nTime - start.nTime, timespan), timespan)
       && (tip.nTime - start.nTime < timespan / 4 ==> IsRetarget(r.value, tip.nBits, timespan / 4, timespan))
       && (tip.nTime - start.nTime > 4 * timespan ==> IsRetarget(r.value, tip.nBits, 4 * timespan, timespan))
       && (timespan / 4 <= tip.nTime - start.nTime <= 4 * timespan ==>
             IsRetarget(r.value, tip.nBits, tip.nTime - start.nTime, timespan)))
  {
    hide Scaled, Value;
    if headers == [] {
      return Error;
    }
    var currentBits := headers[|headers| - 1].nBits;
    if |headers| % interval != 0 {
      return Ok(currentBits);
    }
    PeriodFits(|headers|, interval);
    var periodStart, periodEnd := headers[|headers| - interval], headers[|headers| - 1];
    var actual := periodEnd.nTime - periodStart.nTime;
    if actual < timespan / 4 {
      actual := timespan / 4;
    }
    if actual > timespan * 4 {
      actual := timespan * 4;
    }
    var value := NewValue(currentBits, actual, timespan);
    var m, e := Normalize(value);
    r := Ok(Compact(m, e));
  }

  lemma PeriodFits(n: nat, interval: nat)
    requires n > 0 && interval > 0 && n % interval == 0
    ensures interval <= n
  {
    if n < interval {
      SmallMod(n, interval);
    }
  }

  /** The value that a normal form keeps once its fraction and its 24th bit are cut off. */
  lemma CompactTarget(m: real, e: nat)
    requires 3 <= e < 256 && 0.0 <= m < 16777216.0
    ensures TargetValue(Compact(m, e)) as real == if e > 32 then 0.0 else Scaled((m.Floor % 0x80_0000) as real, e - 3)
  {
    hide Scaled, Power256, TargetValue, Compact, Exponent, Mantissa, Negative;
    var bits := Compact(m, e);
    CompactOf(m, e);
    if e <= 32 {
      ValueIsTarget(bits);
    } else {
      TooLarge(bits);
    }
  }

  lemma CompactOf(m: real, e: nat)
    requires 3 <= e < 256 && 0.0 <= m < 16777216.0
    ensures var bits := Compact(m, e);
      Exponent(bits) == e && Mantissa(bits) == m.Floor % 0x80_0000 && !Negative(bits)
  {
    hide Exponent, Mantissa, Negative;
    CompactFields(m.Floor, e);
  }

  lemma CompactFields(n: nat, e: nat)
    requires e < 256
    ensures var bits: uint32 := e * 0x100_0000 + n % 0x80_0000;
      Exponent(bits) == e && Mantissa(bits) == n % 0x80_0000 && !Negative(bits)
  {
  }

  lemma TooLarge(bits: uint32)
    requires Exponent(bits) > 32
    ensures TargetValue(bits) == 0
  {
  }

  lemma ExponentFits(value: real, m: real, e: nat, k: nat)
    requires Normal(value, m, e) && value < Scaled(65536.0, k)
    ensures e <= k + 2 || e == 3
  {
    hide Scaled;
    if e > k + 2 && e > 3 {
      Bigger(m, k, e - 3);
    }
  }

  lemma {:induction false} Bigger(m: real, j: nat, k: nat)
    requires m >= 65536.0 && j <= k
    ensures Scaled(65536.0, j) <= Scaled(m, k)
    decreases k
  {
    hide Scaled;
    if j == k {
      ScaledLess(65536.0, m, j);
    } else {
      Bigger(m, j, k - 1);
      ScaledMore(m, k - 1);
      ScaledPositive(m, k - 1);
    }
  }

  /** The value before normalisation: at most four times the old value, which bounds its exponent. */
  lemma FourfoldValue(bits: uint32, actual: nat, timespan: nat, k: nat)
    requires timespan > 0 && actual <= 4 * timespan && Exponent(bits) <= k + 3
    ensures NewValue(bits, actual, timespan) <= 4.0 * Value(bits) < Scaled(65536.0, k + 2)
  {
    hide Scaled, Value, Exponent, Mantissa, Power256, TimesRatio;
    AtMostFourfold(Value(bits), actual, timespan);
    ValueBound(bits, k);
  }

  lemma AtMostFourfold(v: real, actual: nat, timespan: nat)
    requires v >= 0.0 && timespan > 0 && actual <= 4 * timespan
    ensures TimesRatio(v, actual, timespan) <= 4.0 * v
  {
    AtMostFour(actual as real, timespan as real);
    TimesMonotone(actual as real / timespan as real, 4.0, v);
  }

  lemma AtMostFour(a: real, t: real)
    requires t > 0.0 && 0.0 <= a <= 4.0 * t
    ensures a / t <= 4.0
  {
  }

  lemma TimesMonotone(x: real, y: real, v: real)
    requires x <= y && v >= 0.0
    ensures v * x <= v * y
  {
  }

  lemma ValueBound(bits: uint32, k: nat)
    requires Exponent(bits) <= k + 3
    ensures 4.0 * Value(bits) < Scaled(65536.0, k + 2)
  {
    hide Power256, Scaled;
    ValueAtMost(bits, k);
    ScaledMore(65536.0, k + 1);
    ScaledMore(65536.0, k);
    ScaledTimes(65536.0, k);
    ScaledTimes(256.0 * 65536.0, k);
    FourTimes(8388608.0, k);
    ScaledLess(4.0 * 8388608.0, 256.0 * (256.0 * 65536.0), k);
  }

  lemma ValueAtMost(bits: uint32, k: nat)
    requires Exponent(bits) <= k + 3
    ensures Value(bits) <= Scaled(8388608.0, k)
  {
    hide Power256, Scaled;
    var m := Mantissa(bits) as real;
    if Exponent(bits) >= 3 {
      ScaledLess(m, 8388608.0, Exponent(bits) - 3);
      Grows(8388608.0, Exponent(bits) - 3, k);
    } else {
      Smaller(m, Power256(3 - Exponent(bits)));
      Grows(8388608.0, 0, k);
      ScaledNone(8388608.0);
    }
  }

  lemma Smaller(m: real, p: real)
    requires m >= 0.0 && p >= 1.0
    ensures m / p <= m
  {
    Product(m, p);
    assert m / p * p == m;
    Product(m / p, p);
  }

  lemma FourTimes(m: real, k: nat)
    ensures Scaled(4.0 * m, k) == 4.0 * Scaled(m, k)
  {
  }

  lemma {:induction false} Grows(m: real, j: nat, k: nat)
    requires m >= 0.0 && j <= k
    ensures Scaled(m, j) <= Scaled(m, k)
    decreases k
  {
    hide Scaled;
    if j < k {
      Grows(m, j, k - 1);
      ScaledMore(m, k - 1);
      ScaledLess(0.0, m, k - 1);
      Nothing(k - 1);
    }
  }

  lemma Nothing(k: nat)
    ensures Scaled(0.0, k) == 0.0
  {
  }

  /** Safety, for every compact target: the new target never exceeds the old value times the clamped
      ratio, and so never four times the old value. */
  lemma NeverAboveValue(newBits: uint32, bits: uint32, actual: nat, timespan: nat)
    requires timespan > 0 && actual <= 4 * timespan
    requires IsRetarget(newBits, bits, actual, timespan)
    ensures TargetValue(newBits) as real <= NewValue(bits, actual, timespan) <= 4.0 * Value(bits)
  {
    hide Scaled, TargetValue, Value, Exponent, Negative, NewValue, Compact;
    var value := NewValue(bits, actual, timespan);
    var m: real, e: nat :| Normal(value, m, e) && newBits == Compact(m, e);
    FourfoldValue(bits, actual, timespan, 252);
    ExponentFits(value, m, e, 254);
    if e < 256 {
      CompactTarget(m, e);
      ScaledLess((m.Floor % 0x80_0000) as real, m, e - 3);
    } else {
      ExponentWraps(m);
    }
  }

  /** An exponent of 256 does not fit its byte; what is left of it makes the target zero. */
  lemma ExponentWraps(m: real)
    requires 0.0 <= m < 16777216.0
    ensures TargetValue(Compact(m, 256)) == 0
  {
    hide Shr, Shl, Pow2;
    var n := m.Floor % 0x80_0000;
    SmallPowers();
    assert Exponent(Compact(m, 256)) == 0 && Mantissa(Compact(m, 256)) == n;
    ShrLow(n, 24);
    ShlIsProduct(Shr(n, 24), 24);
  }

  /** Where the target is the value, it is bounded by the old target times the ratio. */
  lemma NeverAboveRatio(newBits: uint32, bits: uint32, actual: nat, timespan: nat)
    requires timespan > 0 && actual <= 4 * timespan
    requires !Negative(bits) && 3 <= Exponent(bits) <= 32
    requires IsRetarget(newBits, bits, actual, timespan)
    ensures TargetValue(newBits) as real <= TimesRatio(TargetValue(bits) as real, actual, timespan)
    ensures TargetValue(newBits) <= 4 * TargetValue(bits)
  {
    hide Scaled, TargetValue, Value, Exponent, Negative, TimesRatio, IsRetarget;
    ValueIsTarget(bits);
    NeverAboveValue(newBits, bits, actual, timespan);
  }

  /** The low bytes of the mantissa that a small target does not hold, and their number. */
  function Dropped(bits: uint32): nat {
    Low(Mantissa(bits), 8 * DroppedBytes(bits))
  }

  function DroppedBytes(bits: uint32): nat {
    if Exponent(bits) < 3 then 3 - Exponent(bits) else 0
  }

  /** The dropped bytes in numbers. */
  lemma DroppedLaw(bits: uint32)
    ensures DroppedBytes(bits) == if bits / 0x100_0000 < 3 then 3 - bits / 0x100_0000 else 0
    ensures Dropped(bits) == bits % 0x80_0000 % Pow2(8 * DroppedBytes(bits))
  {
    hide Low, Pow2;
    LowIsRest(Mantissa(bits), 8 * DroppedBytes(bits));
  }

  /** The bound in whole numbers. */
  lemma RatioOfIntegers(newTarget: nat, target: nat, actual: nat, timespan: nat)
    requires timespan > 0
    ensures newTarget as real <= TimesRatio(target as real, actual, timespan)
      <==> newTarget * timespan <= target * actual
  {
    var n, v, a, t := newTarget as real, target as real, actual as real, timespan as real;
    RatioTimes(v, a, t);
    var r := TimesRatio(v, actual, timespan);
    if n <= r {
      TimesMonotone(n, r, t);
    } else {
      StrictlyMonotone(r, n, t);
    }
    RealProduct(newTarget, timespan);
    RealProduct(target, actual);
  }

  lemma RatioTimes(v: real, a: real, t: real)
    requires t > 0.0
    ensures v * (a / t) * t == v * a
  {
    assert a / t * t == a;
    assert v * (a / t) * t == v * (a / t * t);
  }

  lemma StrictlyMonotone(x: real, y: real, v: real)
    requires x < y && v > 0.0
    ensures v * x < v * y
  {
  }

  /** With an exponent below three the new target is the scaled value rounded down. */
  lemma SmallTarget(newBits: uint32, bits: uint32, actual: nat, timespan: nat)
    requires timespan > 0 && actual <= 4 * timespan && Exponent(bits) < 3
    requires IsRetarget(newBits, bits, actual, timespan)
    ensures var all := Pow2(8 * DroppedBytes(bits)) * timespan;
      TargetValue(newBits) * all <= Mantissa(bits) * actual < (TargetValue(newBits) + 1) * all
  {
    hide Scaled, TargetValue, Value, Negative, TimesRatio, Compact, Pow2, Mantissa, Exponent;
    var k := DroppedBytes(bits);
    SmallValue(bits, actual, timespan);
    var value := NewValue(bits, actual, timespan);
    ScaledNone(value);
    var m: real, e: nat :| Normal(value, m, e) && newBits == Compact(m, e);
    assert Normal(value, value, 3);
    NormalIsUnique(value, m, e, value, 3);
    CompactTarget(value, 3);
    ScaledNone(value.Floor as real);
    assert TargetValue(newBits) == value.Floor;
    Rounded(value, Pow2(8 * k) * timespan, Mantissa(bits) * actual);
  }

  lemma Rounded(value: real, all: nat, n: nat)
    requires all > 0 && value >= 0.0 && value * all as real == n as real
    ensures value.Floor * all <= n < (value.Floor + 1) * all
  {
    Below(value.Floor, value, all, n);
    Above(value.Floor + 1, value, all, n);
  }

  lemma Below(q: nat, value: real, all: nat, n: nat)
    requires q as real <= value && value * all as real == n as real
    ensures q * all <= n
  {
    TimesMonotone(q as real, value, all as real);
    RealProduct(q, all);
  }

  lemma Above(q: nat, value: real, all: nat, n: nat)
    requires all > 0 && value < q as real && value * all as real == n as real
    ensures n < q * all
  {
    StrictlyMonotone(value, q as real, all as real);
    RealProduct(q, all);
  }

  lemma RealProduct(x: nat, y: nat)
    ensures (x * y) as real == x as real * y as real
  {
  }

  /** The scaled value of a small exponent, as a quotient of whole numbers. */
  lemma SmallValue(bits: uint32, actual: nat, timespan: nat)
    requires timespan > 0 && actual <= 4 * timespan && Exponent(bits) < 3
    ensures var all := Pow2(8 * DroppedBytes(bits)) * timespan;
      && NewValue(bits, actual, timespan) * all as real == (Mantissa(bits) * actual) as real
      && NewValue(bits, actual, timespan) < 8388608.0
  {
    hide Pow2, Power256, TimesRatio, Mantissa, Exponent;
    var k, m, t := DroppedBytes(bits), Mantissa(bits), timespan as real;
    var p := Pow2(8 * k);
    PowersAgree(k);
    var v := Value(bits);
    assert v * p as real == m as real;
    RatioTimes(v, actual as real, t);
    var r := TimesRatio(v, actual, timespan);
    assert r * t == v * actual as real by { UnfoldRatio(v, actual, timespan); }
    Reorder(r, t, p as real, v, actual as real, m as real);
    RealProduct(p, timespan);
    RealProduct(m, actual);
    AtMostFourfold(v, actual, timespan);
    SmallQuotient(v, p as real, m as real, k);
  }

  lemma UnfoldRatio(v: real, actual: nat, timespan: nat)
    requires timespan > 0
    ensures TimesRatio(v, actual, timespan) * timespan as real == v * actual as real
  {
    RatioTimes(v, actual as real, timespan as real);
  }

  lemma Reorder(r: real, t: real, p: real, v: real, a: real, m: real)
    requires r * t == v * a && v * p == m
    ensures r * (p * t) == m * a
  {
    assert r * (p * t) == r * t * p;
    assert v * a * p == v * p * a;
  }

  lemma SmallQuotient(v: real, p: real, m: real, k: nat)
    requires v * p == m && m < 8388608.0 && p >= 256.0 && v >= 0.0
    ensures 4.0 * v < 8388608.0
  {
    TimesMonotone(256.0, p, v);
  }

  lemma {:induction false} PowersAgree(k: nat)
    ensures Pow2(8 * k) as real == Power256(k)
    ensures k > 0 ==> Power256(k) >= 256.0
  {
    hide Pow2;
    if k > 0 {
      PowersAgree(k - 1);
      EightMore(8 * (k - 1));
      assert 8 * (k - 1) + 8 == 8 * k;
    } else {
      NothingShifted();
    }
  }

  lemma NothingShifted()
    ensures Pow2(0) == 1
    ensures forall n: nat :: Low(n, 0) == 0
  {
  }

  /** The mantissa is what a small target holds of it, and the dropped bytes. */
  lemma TargetAndDropped(bits: uint32)
    requires !Negative(bits) && Exponent(bits) < 3
    ensures Mantissa(bits) == TargetValue(bits) * Pow2(8 * DroppedBytes(bits)) + Dropped(bits)
  {
    hide Pow2, Low, Shr, Shl, Mantissa, Exponent, Negative;
    var k := 8 * DroppedBytes(bits);
    ShrLow(Mantissa(bits), k);
    ShlIsProduct(Shr(Mantissa(bits), k), k);
  }

  /** When a quotient rounded down stays below that of the whole part alone. */
  lemma FloorRule(q: nat, all: nat, whole: nat, part: nat, p: nat, a: nat, t: nat)
    requires p > 0 && t > 0 && all == whole * p + part
    requires q * (p * t) <= all * a < (q + 1) * (p * t)
    ensures q * t <= whole * a <==> part * a < p * (t - whole * a % t)
  {
    Quotients(q, whole, part, p, a, t, whole * a / t, whole * a % t);
  }

  lemma Quotients(q: nat, whole: nat, part: nat, p: nat, a: nat, t: nat, u: nat, w: nat)
    requires whole * a == u * t + w && w < t
    requires q * (p * t) <= (whole * p + part) * a < (q + 1) * (p * t)
    ensures q * t <= whole * a <==> part * a < p * (t - w)
  {
    WholeAndPart(whole, part, p, a, t, u, w);
    QuotientBelow(q, u, t, w);
    FloorBelow(q, u, p * t, (whole * p + part) * a);
  }

  lemma WholeAndPart(whole: nat, part: nat, p: nat, a: nat, t: nat, u: nat, w: nat)
    requires whole * a == u * t + w && w < t
    ensures (whole * p + part) * a == u * (p * t) + w * p + part * a
    ensures (u + 1) * (p * t) == u * (p * t) + p * t
    ensures p * (t - w) == p * t - w * p
  {
    assert (whole * p + part) * a == whole * a * p + part * a;
    assert (u * t + w) * p == u * (p * t) + w * p;
  }

  lemma QuotientBelow(q: nat, u: nat, t: nat, w: nat)
    requires w < t
    ensures q * t <= u * t + w <==> q <= u
  {
    if q <= u {
      Times(q, u, t);
    } else {
      Times(u + 1, q, t);
    }
  }

  lemma FloorBelow(q: nat, u: nat, unit: nat, n: nat)
    requires q * unit <= n < (q + 1) * unit
    ensures q <= u <==> n < (u + 1) * unit
  {
    if q <= u {
      Times(q + 1, u + 1, unit);
    } else {
      Times(u + 1, q, unit);
    }
  }

  lemma Times(x: nat, y: nat, z: nat)
    requires x <= y
    ensures x * z <= y * z
  {
  }

  /** For small exponents the target is the value rounded down, and the bound against the target holds
      if and only if the dropped bytes, scaled too, do not reach the next multiple of the timespan. */
  lemma RatioExactly(newBits: uint32, bits: uint32, actual: nat, timespan: nat)
    requires timespan > 0 && actual <= 4 * timespan
    requires !Negative(bits) && Exponent(bits) <= 32
    requires IsRetarget(newBits, bits, actual, timespan)
    ensures TargetValue(newBits) * timespan <= TargetValue(bits) * actual
      <==> Dropped(bits) * actual
           < Pow2(8 * DroppedBytes(bits)) * (timespan - TargetValue(bits) * actual % timespan)
  {
    hide Scaled, TargetValue, Value, Exponent, Negative, TimesRatio, IsRetarget, Low, Pow2, NewValue, Mantissa;
    var target, p := TargetValue(bits), Pow2(8 * DroppedBytes(bits));
    if Exponent(bits) >= 3 {
      NeverAboveRatio(newBits, bits, actual, timespan);
      RatioOfIntegers(TargetValue(newBits), target, actual, timespan);
      NothingShifted();
    } else {
      SmallTarget(newBits, bits, actual, timespan);
      TargetAndDropped(bits);
      FloorRule(TargetValue(newBits), Mantissa(bits), target, Dropped(bits), p, actual, timespan);
    }
  }

  /** Where it fails: the target of 0x0200ffff is 255, and four times the period makes it 1023. */
  lemma RoundedDownTarget(newBits: uint32, timespan: nat)
    requires timespan > 0 && IsRetarget(newBits, 0x0200_ffff, 4 * timespan, timespan)
    ensures TargetValue(0x0200_ffff) == 255 && TargetValue(newBits) == 1023
  {
    hide Pow2, Low, TargetValue, IsRetarget, Exponent, Mantissa, Negative;
    var bits: uint32 := 0x0200_ffff;
    SmallPowers();
    FieldsOfSmall();
    SmallTarget(newBits, bits, 4 * timespan, timespan);
    TargetAndDropped(bits);
    LowBound(65535, 8);
    Between(TargetValue(newBits), 262140, 256, timespan);
  }

  lemma FieldsOfSmall()
    ensures Exponent(0x0200_ffff) == 2 && Mantissa(0x0200_ffff) == 65535 && !Negative(0x0200_ffff)
    ensures DroppedBytes(0x0200_ffff) == 1
  {
  }

  lemma Between(q: nat, n: nat, p: nat, t: nat)
    requires t > 0 && q * (p * t) <= n * t < (q + 1) * (p * t)
    ensures q * p <= n < (q + 1) * p
  {
    assert q * (p * t) == q * p * t && (q + 1) * (p * t) == (q + 1) * p * t;
    if q * p > n {
      Times(n + 1, q * p, t);
    }
    if n >= (q + 1) * p {
      Times((q + 1) * p, n, t);
    }
  }

  /** Accuracy: with the new exponent and the mantissa before cutting, the new target falls short of
      the old one times the ratio by less than one unit of the new mantissa, if and only if that
      mantissa fits 23 bits and the exponent does not exceed 32. */
  lemma FallsShort(newBits: uint32, bits: uint32, actual: nat, timespan: nat, m: real, e: nat)
    requires timespan > 0 && actual <= 4 * timespan
    requires !Negative(bits) && 3 <= Exponent(bits) <= 32
    requires Normal(NewValue(bits, actual, timespan), m, e) && newBits == Compact(m, e)
    ensures var goal := TimesRatio(TargetValue(bits) as real, actual, timespan);
      goal - TargetValue(newBits) as real < Power256(e - 3) <==> m.Floor < 0x80_0000 && e <= 32
  {
    hide Scaled, TargetValue, Value, Exponent, Negative, Power256, TimesRatio, Compact;
    var value, kept := NewValue(bits, actual, timespan), if e > 32 then 0.0 else (m.Floor % 0x80_0000) as real;
    ValueIsTarget(bits);
    FourfoldValue(bits, actual, timespan, 29);
    ExponentFits(value, m, e, 31);
    CompactTarget(m, e);
    Nothing(e - 3);
    ScaledLess(kept, m, e - 3);
    OneUnit(e - 3);
    if m - kept < 1.0 {
      ScaledLess(m - kept, 1.0, e - 3);
    } else {
      ScaledLess(1.0, m - kept, e - 3);
    }
  }

  lemma OneUnit(k: nat)
    ensures Scaled(1.0, k) == Power256(k)
  {
  }

  /** When a retarget leaves no target at all, for every compact target: if and only if the cut leaves
      nothing of the mantissa, or the exponent is too large. */
  lemma ZeroExactly(newBits: uint32, bits: uint32, actual: nat, timespan: nat, m: real, e: nat)
    requires timespan > 0 && actual <= 4 * timespan
    requires Normal(NewValue(bits, actual, timespan), m, e) && newBits == Compact(m, e)
    ensures TargetValue(newBits) == 0 <==> e > 32 || m.Floor % 0x80_0000 == 0
  {
    hide Scaled, TargetValue, Value, Exponent, Negative, NewValue, Compact;
    FourfoldValue(bits, actual, timespan, 252);
    ExponentFits(NewValue(bits, actual, timespan), m, e, 254);
    if e == 256 {
      ExponentWraps(m);
    } else {
      CompactTarget(m, e);
      var kept := (m.Floor % 0x80_0000) as real;
      Nothing(e - 3);
      if kept > 0.0 {
        ScaledPositive(kept, e - 3);
      }
    }
  }

  /** An old target of zero, because of the sign bit or a large exponent, has a value all the same: the
      bound against the target holds if and only if the new target is zero too. */
  lemma RatioOfZeroTarget(newBits: uint32, bits: uint32, actual: nat, timespan: nat, m: real, e: nat)
    requires timespan > 0 && actual <= 4 * timespan && (Negative(bits) || Exponent(bits) > 32)
    requires Normal(NewValue(bits, actual, timespan), m, e) && newBits == Compact(m, e)
    ensures TargetValue(newBits) * timespan <= TargetValue(bits) * actual <==> e > 32 || m.Floor % 0x80_0000 == 0
  {
    hide Scaled, Value, NewValue, Compact, Shl, Shr, Exponent, Negative;
    ZeroExactly(newBits, bits, actual, timespan, m, e);
    NoTarget(bits);
    ZeroProduct(TargetValue(newBits), timespan);
    ZeroProduct(0, actual);
  }

  lemma NoTarget(bits: uint32)
    requires Negative(bits) || Exponent(bits) > 32
    ensures TargetValue(bits) == 0
  {
  }

  lemma ZeroProduct(n: nat, t: nat)
    ensures n == 0 ==> n * t == 0
    ensures n > 0 && t > 0 ==> n * t > 0
  {
  }

  /** The normal form of a mantissa below 2^16 and an exponent above 3, with an unchanged value. */
  lemma ShiftedForm(newBits: uint32, bits: uint32, timespan: nat)
    requires timespan > 0 && IsRetarget(newBits, bits, timespan, timespan)
    requires 256 <= Mantissa(bits) < 0x1_0000 && Exponent(bits) > 4
    ensures var m := 256.0 * Mantissa(bits) as real;
      && Normal(NewValue(bits, timespan, timespan), m, Exponent(bits) - 1)
      && newBits == Compact(m, Exponent(bits) - 1)
  {
    hide Scaled, Power256, TimesRatio, Mantissa, Exponent, Compact;
    var value, x, e := NewValue(bits, timespan, timespan), Mantissa(bits) as real, Exponent(bits) - 1;
    SamePeriod(Value(bits), timespan);
    ScaledMore(x, e - 3);
    ScaledTimes(x, e - 3);
    assert Normal(value, 256.0 * x, e);
    var n: real, f: nat :| Normal(value, n, f) && newBits == Compact(n, f);
    NormalIsUnique(value, n, f, 256.0 * x, e);
  }

  /** The worst case: at the difficulty 0x1d008000, after a period of exactly the intended length, the
      new target is zero. */
  lemma LostWithoutCause(newBits: uint32, timespan: nat)
    requires timespan > 0 && IsRetarget(newBits, 0x1d00_8000, timespan, timespan)
    ensures newBits == 0x1c00_0000 && TargetValue(newBits) == 0 < TargetValue(0x1d00_8000)
  {
    hide Scaled, Power256, TimesRatio, Normal, IsRetarget, Shl, Shr, NewValue;
    var bits: uint32 := 0x1d00_8000;
    assert Mantissa(bits) == 0x8000 && Exponent(bits) == 29 && !Negative(bits);
    ShiftedForm(newBits, bits, timespan);
    ShlMonotone(0, 0x8000, 208);
    ZeroExactly(newBits, bits, timespan, timespan, 256.0 * 32768.0, 28);
  }

  /** A target that nothing meets becomes one that can be met: 0x1d80ffff, with the sign bit. */
  lemma RaisedFromZero(newBits: uint32, timespan: nat)
    requires timespan > 0 && IsRetarget(newBits, 0x1d80_ffff, timespan, timespan)
    ensures newBits == 0x1c7f_ff00 && TargetValue(0x1d80_ffff) == 0 < TargetValue(newBits)
  {
    hide Scaled, Power256, TimesRatio, Normal, IsRetarget, Shl, Shr, NewValue;
    var bits: uint32 := 0x1d80_ffff;
    assert Mantissa(bits) == 0xffff && Exponent(bits) == 29 && Negative(bits);
    ShiftedForm(newBits, bits, timespan);
    ZeroExactly(newBits, bits, timespan, timespan, 256.0 * 65535.0, 28);
  }

  /** The cut is not harmless: at the difficulty 0x1d00ffff, with a period of exactly the intended
      length, the new target is about half of the old one. */
  lemma HalvedWithoutCause(newBits: uint32, timespan: nat)
    requires timespan > 0 && IsRetarget(newBits, 0x1d00_ffff, timespan, timespan)
    ensures newBits == 0x1c7f_ff00
  {
    hide Scaled, Power256, TimesRatio, Normal, IsRetarget, NewValue;
    var bits: uint32 := 0x1d00_ffff;
    assert Mantissa(bits) == 0xffff && Exponent(bits) == 29;
    ShiftedForm(newBits, bits, timespan);
  }

  lemma SamePeriod(v: real, timespan: nat)
    requires timespan > 0
    ensures TimesRatio(v, timespan, timespan) == v
  {
    assert timespan as real / timespan as real == 1.0;
  }
}
