/** Multiplying one base by several exponents at once: each exponent is recoded by a window
    slider, every window adds the current power of the base to a bucket, and the buckets of an
    exponent are combined at the end. */
module SimultaneousMultiplication {
  import opened Groups
  import opened Powers
  import opened WindowSliders

  /** The sum of the coefficients from index `j` on. */
  ghost function Suffix(c: seq<int>, j: nat): int
    decreases |c| - j
  {
    if j >= |c| then 0 else c[j] + Suffix(c, j + 1)
  }

  /** The sum of the suffix sums from index `j` on. */
  ghost function Nested(c: seq<int>, j: nat): int
    decreases |c| - j
  {
    if j >= |c| then 0 else Suffix(c, j) + Nested(c, j + 1)
  }

  /** The sum of (2k+1) times coefficient k, from index `j` on: what a bucket list stands for. */
  ghost function Weighted(c: seq<int>, j: nat): int
    decreases |c| - j
  {
    if j >= |c| then 0 else (2 * j + 1) * c[j] + Weighted(c, j + 1)
  }

  /** Three buckets count once, three times and five times. */
  lemma ThreeBuckets(x: int, y: int, z: int)
    ensures Weighted([x, y, z], 0) == x + 3 * y + 5 * z
    ensures Suffix([x, y, z], 0) == x + y + z && Nested([x, y, z], 1) == y + 2 * z
  {
    var c := [x, y, z];
    assert Weighted(c, 3) == 0 && Suffix(c, 3) == 0 && Nested(c, 3) == 0;
    assert Weighted(c, 2) == 5 * z && Suffix(c, 2) == z && Nested(c, 2) == z;
    assert Weighted(c, 1) == 3 * y + Weighted(c, 2) && Suffix(c, 1) == y + Suffix(c, 2);
  }

  lemma WeightedStep(c: seq<int>, j: nat)
    ensures j < |c| ==> Weighted(c, j) == (2 * j + 1) * c[j] + Weighted(c, j + 1)
    ensures j >= |c| ==> Weighted(c, j) == 0
  {
  }

  lemma {:induction false} WeightedFromSuffixes(c: seq<int>, j: nat)
    ensures Weighted(c, j) == 2 * Nested(c, j + 1) + (2 * j + 1) * Suffix(c, j)
    decreases |c| - j
  {
    if j < |c| {
      WeightedFromSuffixes(c, j + 1);
      var s := Suffix(c, j + 1);
      assert Suffix(c, j) == c[j] + s;
      assert (2 * (j + 1) + 1) * s == (2 * j + 1) * s + 2 * s;
      assert (2 * j + 1) * (c[j] + s) == (2 * j + 1) * c[j] + (2 * j + 1) * s;
    }
  }

  lemma {:induction false} WeightedUpdate(c: seq<int>, k: nat, v: int, j: nat)
    requires k < |c|
    ensures Weighted(c[k := v], j) == Weighted(c, j) + if j <= k then (2 * k + 1) * (v - c[k]) else 0
    decreases |c| - j
  {
    if j < |c| {
      WeightedUpdate(c, k, v, j + 1);
      if j == k {
        assert (2 * k + 1) * v == (2 * k + 1) * c[k] + (2 * k + 1) * (v - c[k]);
      }
    }
  }

  lemma {:induction false} WeightedZero(c: seq<int>, j: nat)
    requires forall k :: 0 <= k < |c| ==> c[k] == 0
    ensures Weighted(c, j) == 0
    decreases |c| - j
  {
    if j < |c| {
      WeightedZero(c, j + 1);
    }
  }

  /** Bucket `j` holds `c[j]` times the base. */
  ghost predicate Holds<T(!new)>(g: Group<T>, base: T, bucket: seq<T>, c: seq<int>) {
    |bucket| == |c| && forall j :: 0 <= j < |c| ==> bucket[j] == Mul(g, c[j], base)
  }

  /** The digits of a slider at a moment when all positions below `from` have been served. */
  ghost predicate Within(ds: seq<Digit>, from: nat, to: nat) {
    && (forall k :: 0 <= k < |ds| ==> from <= ds[k].position < to)
    && (forall j, k :: 0 <= j < k < |ds| ==> ds[j].position < ds[k].position)
  }

  /** A position above all those in the list. */
  ghost function Bound(ds: seq<Digit>): (to: nat)
    ensures forall k :: 0 <= k < |ds| ==> ds[k].position < to
  {
    if ds == [] then 0
    else
      var rest := Bound(ds[1..]);
      assert forall k :: 1 <= k < |ds| ==> ds[k] == ds[1..][k - 1];
      if ds[0].position < rest then rest else ds[0].position + 1
  }

  /** What a slider still has to deliver and what its buckets hold add up to its exponent `e`. */
  ghost predicate Tracks<T(!new)>(g: Group<T>, base: T, s: WindowSlider, bucket: seq<T>, c: seq<int>,
                                  e: nat, from: nat, to: nat)
    reads s
  {
    && s.Valid() && !s.firstTime
    && Holds(g, base, bucket, c)
    && |c| == Pow2(s.windowSize - 1)
    && Within(s.digits, from, to)
    && Weighted(c, 0) + Value(s.digits) == e
  }

  /** The final combination: sum of (2j+1) times bucket j, by running sums and one doubling. */
  method CombineBuckets<T(!new)>(g: Group<T>, base: T, buckets: seq<T>, ghost c: seq<int>) returns (r: T)
    requires IsGroup(g)
    requires Holds(g, base, buckets, c) && |buckets| >= 1
    ensures r == Mul(g, Weighted(c, 0), base)
  {
    hide Add, IsGroup, Mul, Weighted;
    var b := buckets;
    var last := |b| - 1;
    r := b[last];
    assert Suffix(c, last) == c[last] && Nested(c, last) == Suffix(c, last);
    WeightedFromSuffixes(c, 0);
    if |b| > 1 {
      var j := |b| - 2;
      while j >= 1
        invariant 0 <= j <= |b| - 2 && |b| == |c|
        invariant forall k :: 0 <= k <= j ==> b[k] == Mul(g, c[k], base)
        invariant b[j + 1] == Mul(g, Suffix(c, j + 1), base)
        invariant r == Mul(g, Nested(c, j + 1), base)
      {
        b := b[j := Add(g, b[j], b[j + 1])];
        MulAdd(g, c[j], Suffix(c, j + 1), base);
        r := Add(g, r, b[j]);
        MulAdd(g, Nested(c, j + 1), Suffix(c, j), base);
        assert Nested(c, j + 1) + Suffix(c, j) == Nested(c, j);
        j := j - 1;
      }
      b := b[0 := Add(g, b[0], b[1])];
      MulAdd(g, c[0], Suffix(c, 1), base);
      MulDouble(g, Nested(c, 1), base);
      r := Add(g, Add(g, r, r), b[0]);
      MulAdd(g, 2 * Nested(c, 1), Suffix(c, 0), base);
    }
  }

  /** A fresh slider for `e`, moved to its first window, and its buckets, all the identity. */
  method Prepare<T(!new)>(g: Group<T>, base: T, e: nat, inversionIsFast: bool)
    returns (s: WindowSlider, bucket: seq<T>, ghost c: seq<int>, ghost to: nat)
    ensures fresh(s) && s.windowSize == PickWindowSize(BitCount(e)) && s.fastNegate == inversionIsFast
    ensures Tracks(g, base, s, bucket, c, e, 0, to)
  {
    s := new WindowSlider(e, inversionIsFast, 0);
    s.FindNextWindow();
    bucket := seq(Pow2(s.windowSize - 1), _ => g.zero);
    c := seq(Pow2(s.windowSize - 1), _ => 0);
    to := Bound(s.digits);
    WeightedZero(c, 0);
    RecodeValue(e, s.windowSize, inversionIsFast, 0);
    RecodeShape(e, s.windowSize, inversionIsFast, 0);
  }

  /** Adds the window that starts at `position`, where the power of the base is `power`, to its
      bucket and moves the slider on. */
  method TakeWindow<T(!new)>(g: Group<T>, base: T, s: WindowSlider, bucket: seq<T>, position: nat, power: T,
                             ghost c: seq<int>, ghost e: nat, ghost to: nat)
    returns (bucket': seq<T>, ghost c': seq<int>)
    requires IsGroup(g)
    requires Tracks(g, base, s, bucket, c, e, position, to)
    requires !s.finished && s.windowBegin == position
    requires power == Mul(g, Pow2(position), base)
    modifies s
    ensures Tracks(g, base, s, bucket', c', e, position + 1, to)
  {
    hide Add, Neg, IsGroup, Mul, Weighted, Shl, Pow2, Value;
    var k := s.expWindow / 2;
    ghost var d := s.digits[0];
    WindowIndex(s.expWindow, s.windowSize);
    ghost var step: int := if s.negateNext then 0 - Pow2(position) else Pow2(position);
    MulAdd(g, c[k], step, base);
    if s.negateNext {
      MulNeg(g, Pow2(position), base);
      bucket' := bucket[k := Add(g, bucket[k], Neg(g, power))];
    } else {
      bucket' := bucket[k := Add(g, bucket[k], power)];
    }
    c' := c[k := c[k] + step];
    Deposit(c, k, s.digits, step);
    s.FindNextWindow();
  }

  lemma WindowIndex(window: nat, w: nat)
    requires w >= 1 && Odd(window) && window < Pow2(w)
    ensures window == 2 * (window / 2) + 1 && window / 2 < Pow2(w - 1)
  {
  }

  /** Putting a digit into the bucket of half its size moves its value from the list to the buckets. */
  lemma Deposit(c: seq<int>, k: nat, ds: seq<Digit>, step: int)
    requires k < |c| && |ds| > 0
    requires || (ds[0].value == 2 * k + 1 && step == Pow2(ds[0].position))
             || (ds[0].value == -(2 * k + 1) && step == 0 - Pow2(ds[0].position))
    ensures Weighted(c[k := c[k] + step], 0) + Value(ds[1..]) == Weighted(c, 0) + Value(ds)
  {
    WeightedUpdate(c, k, c[k] + step, 0);
    ShlIsProduct(ds[0].value, ds[0].position);
    SignedProduct(2 * k + 1, Pow2(ds[0].position));
    hide Weighted, Shl, Pow2;
  }

  lemma SignedProduct(a: int, b: int)
    ensures -a * b == -(a * b) && a * -b == -(a * b)
  {
  }

  lemma NotDue<T(!new)>(g: Group<T>, base: T, s: WindowSlider, bucket: seq<T>, c: seq<int>, e: nat, from: nat, to: nat)
    requires Tracks(g, base, s, bucket, c, e, from, to)
    requires s.finished || s.windowBegin != from
    ensures Tracks(g, base, s, bucket, c, e, from + 1, to)
  {
  }

  ghost predicate AllDone(exponents: seq<WindowSlider>)
    reads exponents
  {
    forall j :: 0 <= j < |exponents| ==> exponents[j].finished
  }

  /** All sliders are distinct and track their exponents; those below index `i` are served. */
  ghost predicate AllTrack<T(!new)>(g: Group<T>, base: T, exponents: seq<WindowSlider>, buckets: seq<seq<T>>,
                                    cs: seq<seq<int>>, exps: seq<nat>, i: nat, from: nat, to: nat)
    reads exponents
  {
    && |exponents| == |buckets| == |cs| == |exps|
    && (forall j, k :: 0 <= j < k < |exps| ==> exponents[j] != exponents[k])
    && (forall j :: 0 <= j < |exps| ==>
          Tracks(g, base, exponents[j], buckets[j], cs[j], exps[j], if j < i then from + 1 else from, to))
  }

  lemma TracksLater<T(!new)>(g: Group<T>, base: T, s: WindowSlider, bucket: seq<T>, c: seq<int>, e: nat,
                             from: nat, to: nat, to': nat)
    requires Tracks(g, base, s, bucket, c, e, from, to) && to <= to'
    ensures Tracks(g, base, s, bucket, c, e, from, to')
  {
  }

  lemma AllTrackLater<T(!new)>(g: Group<T>, base: T, exponents: seq<WindowSlider>, buckets: seq<seq<T>>,
                               cs: seq<seq<int>>, exps: seq<nat>, to: nat, to': nat)
    requires AllTrack(g, base, exponents, buckets, cs, exps, 0, 0, to) && to <= to'
    ensures AllTrack(g, base, exponents, buckets, cs, exps, 0, 0, to')
  {
    forall j | 0 <= j < |exps|
      ensures Tracks(g, base, exponents[j], buckets[j], cs[j], exps[j], 0, to')
    {
      TracksLater(g, base, exponents[j], buckets[j], cs[j], exps[j], 0, to, to');
    }
  }

  method PrepareAll<T(!new)>(g: Group<T>, base: T, exps: seq<nat>, inversionIsFast: bool)
    returns (exponents: seq<WindowSlider>, buckets: seq<seq<T>>, ghost cs: seq<seq<int>>, ghost to: nat)
    ensures AllTrack(g, base, exponents, buckets, cs, exps, 0, 0, to)
    ensures |exponents| == |exps|
    ensures forall j :: 0 <= j < |exps| ==> fresh(exponents[j])
  {
    hide Tracks, IsGroup, Add;
    exponents, buckets, cs, to := [], [], [], 0;
    for i := 0 to |exps|
      invariant AllTrack(g, base, exponents, buckets, cs, exps[..i], 0, 0, to)
      invariant forall j :: 0 <= j < i ==> fresh(exponents[j])
    {
      var s, bucket;
      ghost var c, bound;
      s, bucket, c, bound := Prepare(g, base, exps[i], inversionIsFast);
      ghost var to' := if to < bound then bound else to;
      TracksLater(g, base, s, bucket, c, exps[i], 0, bound, to');
      AllTrackLater(g, base, exponents, buckets, cs, exps[..i], to, to');
      exponents, buckets, cs, to := exponents + [s], buckets + [bucket], cs + [c], to';
    }
    assert exps[..|exps|] == exps;
  }

  /** One exponent at one bit position: its window is taken if it starts there. */
  method Serve<T(!new)>(g: Group<T>, base: T, s: WindowSlider, bucket: seq<T>, position: nat, power: T,
                        ghost c: seq<int>, ghost e: nat, ghost to: nat)
    returns (bucket': seq<T>, ghost c': seq<int>)
    requires IsGroup(g)
    requires Tracks(g, base, s, bucket, c, e, position, to)
    requires power == Mul(g, Pow2(position), base)
    modifies s
    ensures Tracks(g, base, s, bucket', c', e, position + 1, to)
  {
    if !s.finished && position == s.windowBegin {
      bucket', c' := TakeWindow(g, base, s, bucket, position, power, c, e, to);
    } else {
      NotDue(g, base, s, bucket, c, e, position, to);
      bucket', c' := bucket, c;
    }
  }

  /** One pass over the exponents at one bit position. */
  method ServeRound<T(!new)>(g: Group<T>, base: T, exps: seq<nat>, exponents: seq<WindowSlider>, buckets: seq<seq<T>>,
                             position: nat, power: T, ghost cs: seq<seq<int>>, ghost to: nat)
    returns (notDone: bool, buckets': seq<seq<T>>, ghost cs': seq<seq<int>>)
    requires IsGroup(g)
    requires AllTrack(g, base, exponents, buckets, cs, exps, 0, position, to)
    requires power == Mul(g, Pow2(position), base)
    modifies exponents
    ensures AllTrack(g, base, exponents, buckets', cs', exps, 0, position + 1, to)
    ensures notDone <==> !AllDone(exponents)
  {
    notDone, buckets', cs' := false, buckets, cs;
    hide Tracks, Mul, IsGroup, Add;
    for i := 0 to |exps|
      invariant AllTrack(g, base, exponents, buckets', cs', exps, i, position, to)
      invariant notDone <==> exists j :: 0 <= j < i && !exponents[j].finished
    {
      var bucket;
      ghost var c;
      bucket, c := Serve(g, base, exponents[i], buckets'[i], position, power, cs'[i], exps[i], to);
      buckets', cs' := buckets'[i := bucket], cs'[i := c];
      notDone := notDone || !exponents[i].finished;
    }
  }

  lemma FirstPower<T(!new)>(g: Group<T>, base: T)
    requires IsGroup(g)
    ensures base == Mul(g, Pow2(0), base)
  {
    MulOne(g, base);
  }

  lemma Doubling(n: nat)
    ensures Pow2(n + 1) == 2 * Pow2(n)
  {
  }

  /** Finished sliders leave their exponents in the buckets. */
  lemma AllFinished<T(!new)>(g: Group<T>, base: T, exponents: seq<WindowSlider>, buckets: seq<seq<T>>,
                             cs: seq<seq<int>>, exps: seq<nat>, from: nat, to: nat)
    requires AllTrack(g, base, exponents, buckets, cs, exps, 0, from, to)
    requires AllDone(exponents)
    ensures |buckets| == |cs| == |exps|
    ensures forall j :: 0 <= j < |exps| ==>
      Holds(g, base, buckets[j], cs[j]) && |buckets[j]| >= 1 && Weighted(cs[j], 0) == exps[j]
  {
    forall j | 0 <= j < |exps|
      ensures Holds(g, base, buckets[j], cs[j]) && |buckets[j]| >= 1 && Weighted(cs[j], 0) == exps[j]
    {
      assert Tracks(g, base, exponents[j], buckets[j], cs[j], exps[j], from, to);
    }
  }

  lemma SomePositionLeft<T(!new)>(g: Group<T>, base: T, exponents: seq<WindowSlider>, buckets: seq<seq<T>>,
                                  cs: seq<seq<int>>, exps: seq<nat>, from: nat, to: nat)
    requires AllTrack(g, base, exponents, buckets, cs, exps, 0, from, to)
    requires !AllDone(exponents)
    ensures from < to
  {
    var j :| 0 <= j < |exps| && !exponents[j].finished;
    assert Tracks(g, base, exponents[j], buckets[j], cs[j], exps[j], from, to);
    assert exponents[j].digits[0].position < to;
  }

  method CombineAll<T(!new)>(g: Group<T>, base: T, buckets: seq<seq<T>>, ghost cs: seq<seq<int>>)
    returns (results: seq<T>)
    requires IsGroup(g)
    requires |buckets| == |cs|
    requires forall j :: 0 <= j < |cs| ==> Holds(g, base, buckets[j], cs[j]) && |buckets[j]| >= 1
    ensures |results| == |cs|
    ensures forall j :: 0 <= j < |cs| ==> results[j] == Mul(g, Weighted(cs[j], 0), base)
  {
    hide Mul, Holds, Weighted;
    results := [];
    for i := 0 to |buckets|
      invariant |results| == i
      invariant forall j :: 0 <= j < i ==> results[j] == Mul(g, Weighted(cs[j], 0), base)
    {
      var r := CombineBuckets(g, base, buckets[i], cs[i]);
      results := results + [r];
    }
  }

  /** The rounds at positions 0, 1, 2, ... until every slider is finished. */
  method ServeAll<T(!new)>(g: Group<T>, base: T, exps: seq<nat>, exponents: seq<WindowSlider>, start: seq<seq<T>>,
                           ghost startCs: seq<seq<int>>, ghost to: nat)
    returns (buckets: seq<seq<T>>, ghost cs: seq<seq<int>>)
    requires IsGroup(g)
    requires AllTrack(g, base, exponents, start, startCs, exps, 0, 0, to)
    modifies exponents
    ensures |buckets| == |cs| == |exps|
    ensures forall j :: 0 <= j < |exps| ==>
      Holds(g, base, buckets[j], cs[j]) && |buckets[j]| >= 1 && Weighted(cs[j], 0) == exps[j]
  {
    hide *;
    var expBitPosition, power, notDone := 0, base, true;
    buckets, cs := start, startCs;
    FirstPower(g, base);
    while notDone
      invariant AllTrack(g, base, exponents, buckets, cs, exps, 0, expBitPosition + if notDone then 0 else 1, to)
      invariant power == Mul(g, Pow2(expBitPosition), base)
      invariant !notDone ==> AllDone(exponents)
      decreases notDone, if expBitPosition < to then to - expBitPosition else 0
    {
      notDone, buckets, cs := ServeRound(g, base, exps, exponents, buckets, expBitPosition, power, cs, to);
      if notDone {
        SomePositionLeft(g, base, exponents, buckets, cs, exps, expBitPosition + 1, to);
        MulDouble(g, Pow2(expBitPosition), base);
        power := Add(g, power, power);
        Doubling(expBitPosition);
        expBitPosition := expBitPosition + 1;
      }
    }
    AllFinished(g, base, exponents, buckets, cs, exps, expBitPosition + 1, to);
  }

  /** Returns `exps[i]` times `base` for every `i`. */
  method SimultaneousMultiply<T(!new)>(g: Group<T>, inversionIsFast: bool, base: T, exps: seq<nat>)
    returns (results: seq<T>)
    requires IsGroup(g)
    ensures |results| == |exps|
    ensures forall i :: 0 <= i < |exps| ==> results[i] == Mul(g, exps[i], base)
  {
    hide *;
    var exponents, buckets;
    ghost var cs, to;
    exponents, buckets, cs, to := PrepareAll(g, base, exps, inversionIsFast);
    buckets, cs := ServeAll(g, base, exps, exponents, buckets, cs, to);
    results := CombineAll(g, base, buckets, cs);
  }

  /** Returns `exponent` times `base`. */
  method ScalarMultiply<T(!new)>(g: Group<T>, inversionIsFast: bool, base: T, exponent: nat) returns (result: T)
    requires IsGroup(g)
    ensures result == Mul(g, exponent, base)
  {
    hide *;
    var results := SimultaneousMultiply(g, inversionIsFast, base, [exponent]);
    result := results[0];
  }
}
