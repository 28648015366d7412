/** Euclid's algorithm and the extended form that computes inverses modulo `m`, over the integers.
    The rotation of three array slots by indices is kept. */
module Euclid {

  ghost predicate Divides(d: int, n: int) {
    exists k :: n == d * k
  }

  ghost predicate Coprime(a: int, b: int) {
    forall d :: d > 0 && Divides(d, a) && Divides(d, b) ==> d == 1
  }

  function Abs(n: int): (r: nat)
    ensures r == n || r == -n
  {
    if n < 0 then -n else n
  }

  lemma DividesWitness(d: int, n: int, k: int)
    requires n == d * k
    ensures Divides(d, n)
  {
  }

  lemma DividesCombination(d: int, x: int, y: int, q: int)
    requires Divides(d, x) && Divides(d, y)
    ensures Divides(d, x + q * y)
  {
    var k :| x == d * k;
    var l :| y == d * l;
    assert d * (k + q * l) == d * k + q * (d * l);
    DividesWitness(d, x + q * y, k + q * l);
  }

  /** Replacing x by x - q y keeps the common divisors with y. */
  lemma SameCommonDivisors(d: int, x: int, y: int, q: int)
    ensures Divides(d, y) ==> (Divides(d, x - q * y) <==> Divides(d, x))
  {
    if Divides(d, y) {
      if Divides(d, x) {
        DividesCombination(d, x, y, -q);
        assert -q * y == -(q * y);
      }
      if Divides(d, x - q * y) {
        DividesCombination(d, x - q * y, y, q);
      }
    }
  }

  lemma DividesSelfAndZero(d: int)
    ensures Divides(d, 0) && Divides(d, d)
  {
    DividesWitness(d, 0, 0);
    DividesWitness(d, d, 1);
  }

  /** Common divisors of the current pair and of the starting pair. */
  ghost predicate SameDivisors(x: int, y: int, a: int, b: int) {
    forall d :: Divides(d, x) && Divides(d, y) <==> Divides(d, a) && Divides(d, b)
  }

  lemma EuclidStep(x: int, y: int, q: int, a: int, b: int)
    requires SameDivisors(x, y, a, b)
    ensures SameDivisors(y, x - q * y, a, b)
  {
    forall d
      ensures Divides(d, y) && Divides(d, x - q * y) <==> Divides(d, a) && Divides(d, b)
    {
      SameCommonDivisors(d, x, y, q);
      assert Divides(d, x) && Divides(d, y) <==> Divides(d, a) && Divides(d, b);
    }
  }

  lemma DivisionAlgorithm(x: int, y: int)
    requires y != 0
    ensures x % y == x - x / y * y && 0 <= x % y < Abs(y)
    ensures Abs(x % y) < Abs(y)
  {
  }

  /** The three slots of the arrays, in some order. */
  predicate Rotation(i0: int, i1: int, i2: int) {
    0 <= i0 < 3 && 0 <= i1 < 3 && 0 <= i2 < 3 && i0 != i1 && i1 != i2 && i2 != i0
  }

  /** The result has exactly the common divisors of the arguments as its divisors. */
  method Gcd(a: int, b: int) returns (r: int)
    ensures forall d :: Divides(d, r) <==> Divides(d, a) && Divides(d, b)
  {
    hide Divides;
    var g := new int[3];
    g[0], g[1] := b, a;
    var i0, i1, i2 := 0, 1, 2;
    while g[i1] != 0
      invariant Rotation(i0, i1, i2)
      invariant SameDivisors(g[i0], g[i1], b, a)
      decreases Abs(g[i1])
    {
      DivisionAlgorithm(g[i0], g[i1]);
      EuclidStep(g[i0], g[i1], g[i0] / g[i1], b, a);
      g[i2] := g[i0] % g[i1];
      i0, i1, i2 := i1, i2, i0;
    }
    r := g[i0];
    forall d
      ensures Divides(d, r) <==> Divides(d, a) && Divides(d, b)
    {
      DividesSelfAndZero(d);
    }
  }

  /** Units of the integers, as `Integer::IsUnit` decides them. */
  predicate IsUnit(n: int) {
    n == 1 || n == -1
  }

  /** What an inverse routine owes its caller: an inverse if there is one, and otherwise zero. */
  ghost predicate IsInverse(a: int, m: nat, v: int)
    requires m > 0
  {
    if Coprime(a, m) then Divides(m, a * v - 1) else v == 0
  }

  /** Divisibility in terms of the remainder. */
  lemma DividesExactly(d: int, n: int)
    ensures Divides(0, n) <==> n == 0
    ensures d != 0 ==> (Divides(d, n) <==> n % d == 0)
  {
    if Divides(0, n) {
      var k :| n == 0 * k;
    } else {
      if n == 0 {
        DividesWitness(0, n, 0);
      }
    }
    if d != 0 {
      DivisionAlgorithm(n, d);
      if n % d == 0 {
        assert n / d * d == d * (n / d);
        DividesWitness(d, n, n / d);
      } else if k :| n == d * k {
        assert n % d == d * k - n / d * d == d * (k - n / d);
        NoMultipleBetween(d, k - n / d);
      }
    }
  }

  lemma NoMultipleBetween(d: int, k: int)
    requires d != 0 && 0 <= d * k < Abs(d)
    ensures d * k == 0
  {
    if d > 0 {
      MulBounds(d, k);
    } else {
      assert d * k == -d * -k;
      MulBounds(-d, -k);
    }
    if k == 0 {
      assert d * 0 == 0;
    }
  }

  /** Coprime numbers have no common divisor above one, and an inverse leaves the remainder one. */
  lemma CoprimeMeans(a: int, m: nat, v: int)
    requires m > 0
    ensures Coprime(a, m) <==> forall d :: d > 1 ==> a % d != 0 || m % d != 0
    ensures IsInverse(a, m, v) <==> if Coprime(a, m) then (a * v - 1) % m == 0 else v == 0
  {
    hide Divides;
    DividesExactly(m, a * v - 1);
    if Coprime(a, m) {
      forall d | d > 1
        ensures a % d != 0 || m % d != 0
      {
        DividesExactly(d, a);
        DividesExactly(d, m);
      }
    }
    if forall d :: d > 1 ==> a % d != 0 || m % d != 0 {
      forall d | d > 0 && Divides(d, a) && Divides(d, m)
        ensures d == 1
      {
        DividesExactly(d, a);
        DividesExactly(d, m);
      }
    }
  }

  lemma UnitsAreInvertible(n: int)
    ensures IsUnit(n) <==> exists k :: n * k == 1
  {
    if IsUnit(n) {
      assert n * n == 1;
    } else if k :| n * k == 1 {
      if n > 1 {
        MulBounds(n, k);
      } else if n < -1 {
        assert n * k == -n * -k;
        MulBounds(-n, -k);
      }
    }
  }

  /** Both remainders as combinations of `a` and `m`, with `u` and `v` the multipliers kept. */
  ghost predicate Bezout(a: int, m: int, x: int, y: int, u: int, v: int, k: int, l: int) {
    && x == u * a + k * m
    && y == v * a + l * m
  }

  lemma BezoutStep(a: int, m: int, x: int, y: int, u: int, v: int, k: int, l: int, q: int)
    requires Bezout(a, m, x, y, u, v, k, l)
    ensures Bezout(a, m, y, x - q * y, v, u - v * q, l, k - l * q)
  {
    calc {
      x - q * y;
      u * a + k * m - q * (v * a + l * m);
      { assert q * (v * a + l * m) == q * (v * a) + q * (l * m); }
      u * a + k * m - (q * (v * a) + q * (l * m));
      { assert q * (v * a) == v * q * a && q * (l * m) == l * q * m; }
      u * a - v * q * a + (k * m - l * q * m);
      (u - v * q) * a + (k - l * q) * m;
    }
  }

  /** The size invariant of the multipliers, for reduced arguments: they alternate in sign and
      never exceed the modulus. */
  ghost predicate Small(m: int, x: int, y: int, u: int, v: int) {
    && 0 <= y < x
    && Abs(v) * x + Abs(u) * y == m
    && Abs(u) <= Abs(v)
    && (u <= 0 <= v || v <= 0 <= u)
  }

  lemma MulBounds(d: int, k: int)
    requires d > 0
    ensures k > 0 ==> d * k >= d
    ensures k < 0 ==> d * k <= -d
  {
  }

  lemma MultipliersKeepSum(s: int, t: int, q: int, x: int, y: int)
    ensures (s + t * q) * y + t * (x - q * y) == t * x + s * y
  {
    assert (s + t * q) * y == s * y + t * q * y;
    assert t * (x - q * y) == t * x - t * (q * y);
    assert t * q * y == t * (q * y);
  }

  lemma SmallStep(m: int, x: int, y: int, u: int, v: int, q: int, r: int)
    requires Small(m, x, y, u, v)
    requires y > 0 && r == x - q * y && 0 <= r < y
    ensures Small(m, y, r, v, u - v * q)
  {
    var s, t := Abs(u), Abs(v);
    MultipliersKeepSum(s, t, q, x, y);
    MulBounds(y, q);
    assert y * q == q * y && q >= 1;
    OppositeSigns(u, v, q);
  }

  lemma OppositeSigns(u: int, v: int, q: int)
    requires q >= 1 && (u <= 0 <= v || v <= 0 <= u)
    ensures Abs(u - v * q) == Abs(u) + Abs(v) * q && Abs(v) <= Abs(u - v * q)
    ensures u - v * q <= 0 <= v || v <= 0 <= u - v * q
  {
    if v > 0 {
      MulBounds(v, q);
    } else if v < 0 {
      MulBounds(-v, q);
      assert -v * q == -(v * q);
    }
  }

  /** Reduced arguments stay below the modulus, so "zero modulo m" is "zero"; an argument of size
      `m` or more can only be in the first two positions. */
  ghost predicate Window(a: int, m: int, x: int, y: int) {
    if Abs(a) < m then Abs(y) < m
    else (x == m && y == a) || (x == a && y == m)
  }

  lemma SmallModulo(x: int, y: int)
    requires 0 <= x < Abs(y)
    ensures x % y == x
  {
    DivisionAlgorithm(x, y);
    if x / y != 0 {
      MulBounds(Abs(y), x / y);
    }
  }

  lemma MultipleModulo(m: nat, k: int)
    requires m > 0
    ensures m * k % m == 0
  {
    DivisionAlgorithm(m * k, m);
    var r := m * k % m;
    assert m * (k - m * k / m) == r by {
      assert m * (k - m * k / m) == m * k - m * (m * k / m);
      assert m * (m * k / m) == m * k / m * m;
    }
    MulBounds(m, k - m * k / m);
    if k == m * k / m {
      assert m * 0 == 0;
    }
  }

  lemma WindowStep(a: int, m: int, x: int, y: int)
    requires m > 0 && Window(a, m, x, y) && y % m != 0
    ensures y != 0 && Window(a, m, y, x % y)
  {
    MultipleModulo(m, 0);
    MultipleModulo(m, 1);
    MultipleModulo(m, -1);
    assert m * -1 == -m && m * 1 == m && m * 0 == 0;
    DivisionAlgorithm(x, y);
    if Abs(a) >= m {
      assert Abs(a) != m;
      SmallModulo(m, a);
    }
  }

  lemma OneHasOneDivisor(d: int, x: int)
    requires d > 0 && IsUnit(x) && Divides(d, x)
    ensures d == 1
  {
    var k :| x == d * k;
    MulBounds(d, k);
  }

  /** The exit with a unit in the last nonzero position. */
  lemma ExitUnit(a: int, m: nat, x: int, y: int, u: int, v: int, k: int, l: int)
    requires m > 0 && IsUnit(x)
    requires Bezout(a, m, x, y, u, v, k, l)
    ensures Coprime(a, m)
    ensures Divides(m, a * (u / x) - 1)
  {
    forall d | d > 0 && Divides(d, a) && Divides(d, m)
      ensures d == 1
    {
      DividesSelfAndZero(d);
      DividesCombination(d, 0, a, u);
      DividesCombination(d, u * a, m, k);
      OneHasOneDivisor(d, x);
    }
    if x == 1 {
      assert u / x == u;
      assert a * u == u * a && m * -k == -(k * m);
      DividesWitness(m, a * u - 1, -k);
    } else {
      assert u / x == -u;
      assert a * -u == -(u * a) && m * k == k * m;
      DividesWitness(m, a * -u - 1, k);
    }
  }

  /** The exit with zero reached and no unit: there is a common divisor above one. */
  lemma ExitNoUnit(a: int, m: nat, x: int)
    requires m > 0 && !IsUnit(x)
    requires SameDivisors(x, 0, m, a)
    ensures !Coprime(a, m)
  {
    var d := if x == 0 then 2 else Abs(x);
    DividesSelfAndZero(d);
    assert Divides(d, x) by {
      DividesSelfAndZero(x);
      if x < 0 {
        DividesWitness(d, x, -1);
      }
    }
    assert Divides(d, m) && Divides(d, a);
  }

  lemma ZeroIsNoInverse(a: int, m: nat)
    requires m > 1
    ensures !Divides(m, a * 0 - 1)
  {
    forall k
      ensures -1 != m * k
    {
      MulBounds(m, k);
    }
  }

  lemma SmallResult(m: nat, x: int, y: int, u: int, v: int)
    requires m > 0 && Small(m, x, y, u, v)
    ensures Abs(if IsUnit(x) then u / x else 0) <= m
  {
    if x == 1 {
      assert u / x == u;
      assert Abs(u) * y >= 0;
    }
  }

  /** The invariant of the loop, for consecutive remainders `x`, `y` and multipliers `u`, `v`. */
  ghost predicate Running(a: int, m: nat, x: int, y: int, u: int, v: int, k: int, l: int) {
    && Bezout(a, m, x, y, u, v, k, l)
    && SameDivisors(x, y, m, a)
    && Window(a, m, x, y)
    && (0 <= a < m ==> Small(m, x, y, u, v))
  }

  lemma RunningMeans(a: int, m: nat, x: int, y: int, u: int, v: int, k: int, l: int, d: int)
    requires Running(a, m, x, y, u, v, k, l)
    ensures x == u * a + k * m && y == v * a + l * m
    ensures Divides(d, x) && Divides(d, y) <==> Divides(d, a) && Divides(d, m)
    ensures 0 <= a < m ==> 0 <= y < x <= m && Abs(u) <= Abs(v) && Abs(v) * x + Abs(u) * y == m
  {
    hide Divides;
    if 0 <= a < m {
      MulBounds(x, Abs(v));
      assert x * Abs(v) == Abs(v) * x;
      NotNegative(Abs(u), y);
    }
  }

  lemma NotNegative(p: nat, q: nat)
    ensures p * q >= 0
  {
  }

  lemma Start(a: int, m: nat)
    requires m > 0
    ensures Running(a, m, m, a, 0, 1, 1, 0)
  {
  }

  lemma Continue(a: int, m: nat, x: int, y: int, u: int, v: int, k: int, l: int)
    requires m > 0 && y % m != 0
    requires Running(a, m, x, y, u, v, k, l)
    ensures y != 0 && Abs(x % y) < Abs(y)
    ensures Running(a, m, y, x % y, v, u - v * (x / y), l, k - l * (x / y))
  {
    hide SameDivisors, Bezout;
    WindowStep(a, m, x, y);
    DivisionAlgorithm(x, y);
    BezoutStep(a, m, x, y, u, v, k, l, x / y);
    EuclidStep(x, y, x / y, m, a);
    if 0 <= a < m {
      SmallStep(m, x, y, u, v, x / y, x % y);
    }
  }

  /** What the exit state says of the value returned. */
  lemma Exit(a: int, m: nat, x: int, y: int, u: int, v: int, k: int, l: int)
    requires m > 0 && y % m == 0
    requires Running(a, m, x, y, u, v, k, l)
    ensures var r := if IsUnit(x) then u / x else 0;
      && (IsInverse(a, m, r) <==> Abs(a) < m || m == 1 || !Coprime(a, m))
      && (0 <= a < m ==> Abs(r) <= m)
  {
    hide Bezout, SameDivisors, Small, Divides, Coprime, Window;
    WindowExit(a, m, x, y);
    if 0 <= a < m {
      SmallResult(m, x, y, u, v);
    }
    if IsUnit(x) {
      ExitUnit(a, m, x, y, u, v, k, l);
    } else {
      if Abs(a) < m {
        ExitNoUnit(a, m, x);
      } else if m > 1 {
        ZeroIsNoInverse(a, m);
      } else {
        DividesWitness(1, a * 0 - 1, -1);
      }
    }
  }

  lemma WindowExit(a: int, m: nat, x: int, y: int)
    requires m > 0 && Window(a, m, x, y) && y % m == 0
    ensures Abs(a) < m ==> y == 0
    ensures IsUnit(x) ==> Abs(a) < m || m == 1
  {
  }

  /** The inverse of `a` modulo `m`. It is right exactly when `a` is reduced in absolute value
      (or has no inverse, or the modulus is one): the loop test is equality modulo `m`, so that a
      larger `a` stops the loop after one step. */
  method MultiplicativeInverse(a: int, m: nat) returns (r: int)
    requires m > 0
    ensures IsInverse(a, m, r) <==> Abs(a) < m || m == 1 || !Coprime(a, m)
    ensures 0 <= a < m ==> Abs(r) <= m
  {
    hide Divides, Coprime, IsInverse, Running, Abs;
    var g, v := new int[3], new int[3];
    g[0], g[1] := m, a;
    v[0], v[1] := 0, 1;
    var i0, i1, i2 := 0, 1, 2;
    ghost var k, l := 1, 0;
    Start(a, m);
    while g[i1] % m != 0
      invariant g != v && Rotation(i0, i1, i2)
      invariant Running(a, m, g[i0], g[i1], v[i0], v[i1], k, l)
      decreases Abs(g[i1])
    {
      Continue(a, m, g[i0], g[i1], v[i0], v[i1], k, l);
      var y := g[i0] / g[i1];
      g[i2] := g[i0] % g[i1];
      v[i2] := v[i0] - v[i1] * y;
      k, l := l, k - l * y;
      i0, i1, i2 := i1, i2, i0;
    }
    Exit(a, m, g[i0], g[i1], v[i0], v[i1], k, l);
    r := if IsUnit(g[i0]) then v[i0] / g[i0] else 0;
  }

  lemma ThreeAndTwoAreCoprime()
    ensures Coprime(3, 2)
  {
    forall d | d > 0 && Divides(d, 3) && Divides(d, 2)
      ensures d == 1
    {
      DividesCombination(d, 3, 2, -1);
      OneHasOneDivisor(d, 1);
    }
  }

  /** An argument outside the reduced range for which the result is wrong: 3 has an inverse modulo
      2, but it is not returned. */
  method UnreducedExample() returns (r: int)
    ensures Coprime(3, 2) && !IsInverse(3, 2, r)
  {
    ThreeAndTwoAreCoprime();
    r := MultiplicativeInverse(3, 2);
  }
}
