/** Multiples, quotients and remainders of numbers that are not literals. */
module Divisibility {

  lemma Monotone(b: nat, x: nat, y: nat)
    requires x <= y
    ensures b * x <= b * y
  {
  }

  lemma Distribute(b: nat, x: nat, y: nat)
    ensures b * (x + y) == b * x + b * y
  {
  }

  lemma TimesZero(b: nat)
    ensures b * 0 == 0
  {
  }

  lemma DivisionUnique(n: nat, b: nat, q: nat, r: nat)
    requires b > 0 && n == b * q + r && r < b
    ensures n / b == q && n % b == r
  {
    var q1, r1 := n / b, n % b;
    assert b * (q1 - q) == r - r1;
    if q1 > q {
      Monotone(b, 1, q1 - q);
    } else if q > q1 {
      Monotone(b, 1, q - q1);
    }
  }

  lemma MultipleHasNoRest(b: nat, q: nat)
    requires b > 0
    ensures (b * q) % b == 0
  {
    DivisionUnique(b * q, b, q, 0);
  }

  lemma Whole(b: nat)
    requires b > 0
    ensures b % b == 0
  {
  }

  lemma SmallMod(n: nat, b: nat)
    requires n < b
    ensures n % b == n
  {
  }

  lemma ModStep(n: nat, b: nat)
    requires b > 0
    ensures (n + b) % b == n % b
  {
    var q := n / b;
    assert n + b == b * (q + 1) + n % b;
    DivisionUnique(n + b, b, q + 1, n % b);
  }

  lemma SumOfMultiples(x: nat, y: nat, b: nat)
    requires b > 0 && x % b == 0 && y % b == 0
    ensures (x + y) % b == 0
  {
    Distribute(b, x / b, y / b);
    DivisionUnique(x + y, b, x / b + y / b, 0);
  }

  lemma ModAddMultiple(n: nat, m: nat, b: nat)
    requires b > 0 && m % b == 0
    ensures (n + m) % b == n % b
  {
    Distribute(b, n / b, m / b);
    DivisionUnique(n + m, b, n / b + m / b, n % b);
  }

  lemma DifferenceOfMultiples(x: nat, y: nat, b: nat)
    requires b > 0 && y <= x && x % b == 0 && y % b == 0
    ensures (x - y) % b == 0
  {
    ModAddMultiple(x - y, y, b);
  }

  /** Numbers a multiple apart leave the same remainder. */
  lemma ModDifference(n: nat, m: nat, b: nat)
    requires b > 0 && m <= n && (n - m) % b == 0
    ensures n % b == m % b
  {
    var k := (n - m) / b;
    Distribute(b, k, m / b);
    assert n == b * (k + m / b) + m % b;
    DivisionUnique(n, b, k + m / b, m % b);
  }

  lemma RoundedDown(n: nat, b: nat)
    requires b > 0
    ensures n % b < b && (n - n % b) % b == 0
  {
    DivisionUnique(n - n % b, b, n / b, 0);
  }

  /** A multiple that is not zero has room for one step back. */
  lemma StepBack(n: nat, b: nat)
    requires b > 0 && n > 0 && n % b == 0
    ensures n >= b && (n - b) % b == 0
  {
    if n < b {
      SmallMod(n, b);
    } else {
      ModStep(n - b, b);
    }
  }

  /** Two multiples are at least one step apart. */
  lemma RoomForMultiple(n: nat, total: nat, b: nat)
    requires b > 0 && n % b == 0 && total % b == 0 && n < total
    ensures n + b <= total
  {
    DifferenceOfMultiples(total, n, b);
    StepBack(total - n, b);
  }
}
