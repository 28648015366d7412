/** Abstract groups, written additively as in Crypto++'s AbstractGroup, and the integer
    multiples that scalar multiplication is specified by. */
module Groups {

  /** The operations a concrete group class supplies. */
  datatype Group<!T(!new)> = Group(add: (T, T) -> T, neg: T -> T, zero: T)

  function Add<T(!new)>(g: Group<T>, x: T, y: T): T {
    g.add(x, y)
  }

  function Neg<T(!new)>(g: Group<T>, x: T): T {
    g.neg(x)
  }

  /** Marks the triples of elements at which a quantified law may be used. */
  ghost predicate At<T>(x: T, y: T, z: T) {
    true
  }

  ghost predicate IsGroup<T(!new)>(g: Group<T>) {
    && (forall x, y, z {:trigger At(x, y, z)} :: Add(g, Add(g, x, y), z) == Add(g, x, Add(g, y, z)))
    && (forall x {:trigger Add(g, x, g.zero)} :: Add(g, x, g.zero) == x)
    && (forall x {:trigger Add(g, g.zero, x)} :: Add(g, g.zero, x) == x)
    && (forall x {:trigger Neg(g, x)} :: Add(g, x, Neg(g, x)) == g.zero && Add(g, Neg(g, x), x) == g.zero)
  }

  ghost predicate IsAbelian<T(!new)>(g: Group<T>) {
    && IsGroup(g)
    && forall x, y {:trigger At(x, y, y)} :: Add(g, x, y) == Add(g, y, x)
  }

  lemma Assoc<T(!new)>(g: Group<T>, x: T, y: T, z: T)
    requires IsGroup(g)
    ensures Add(g, Add(g, x, y), z) == Add(g, x, Add(g, y, z))
  {
    assert At(x, y, z);
  }

  lemma Commute<T(!new)>(g: Group<T>, x: T, y: T)
    requires IsAbelian(g)
    ensures Add(g, x, y) == Add(g, y, x)
  {
    assert At(x, y, y);
  }

  /** `n` times `x`, for any integer `n`: the specification of ScalarMultiply. */
  ghost function Mul<T(!new)>(g: Group<T>, n: int, x: T): T
    decreases if n < 0 then -n else n
  {
    if n == 0 then g.zero
    else if n > 0 then Add(g, Mul(g, n - 1, x), x)
    else Add(g, Mul(g, n + 1, x), Neg(g, x))
  }

  lemma MulSucc<T(!new)>(g: Group<T>, n: int, x: T)
    requires IsGroup(g)
    ensures Mul(g, n + 1, x) == Add(g, Mul(g, n, x), x)
    ensures Mul(g, n - 1, x) == Add(g, Mul(g, n, x), Neg(g, x))
  {
    if n < 0 {
      Assoc(g, Mul(g, n + 1, x), Neg(g, x), x);
    } else if n > 0 {
      Assoc(g, Mul(g, n - 1, x), x, Neg(g, x));
    } else {
      assert Mul(g, 1, x) == Add(g, Mul(g, 0, x), x);
      assert Mul(g, -1, x) == Add(g, Mul(g, 0, x), Neg(g, x));
    }
  }

  /** Multiples of one element add up, in any group. */
  lemma {:induction false} MulAdd<T(!new)>(g: Group<T>, m: int, n: int, x: T)
    requires IsGroup(g)
    ensures Mul(g, m + n, x) == Add(g, Mul(g, m, x), Mul(g, n, x))
    decreases if n < 0 then -n else n
  {
    if n > 0 {
      MulAdd(g, m, n - 1, x);
      MulSucc(g, m + n - 1, x);
      Assoc(g, Mul(g, m, x), Mul(g, n - 1, x), x);
    } else if n < 0 {
      MulAdd(g, m, n + 1, x);
      MulSucc(g, m + n + 1, x);
      Assoc(g, Mul(g, m, x), Mul(g, n + 1, x), Neg(g, x));
    }
  }

  // ---- The operations of the concrete class ----

  lemma GroupGiven<T(!new)>(g: Group<T>)
    requires forall x, y, z :: g.add(g.add(x, y), z) == g.add(x, g.add(y, z))
    requires forall x :: g.add(x, g.zero) == x && g.add(g.zero, x) == x
    requires forall x :: g.add(x, g.neg(x)) == g.zero && g.add(g.neg(x), x) == g.zero
    ensures IsGroup(g)
    ensures (forall x, y :: g.add(x, y) == g.add(y, x)) ==> IsAbelian(g)
  {
    assert forall x, y :: Add(g, x, y) == g.add(x, y);
    assert forall x :: Neg(g, x) == g.neg(x);
  }

  lemma GroupLaws<T(!new)>(g: Group<T>, x: T, y: T, z: T)
    requires IsGroup(g)
    ensures g.add(g.add(x, y), z) == g.add(x, g.add(y, z))
    ensures g.add(x, g.zero) == x == g.add(g.zero, x)
    ensures g.add(x, g.neg(x)) == g.zero == g.add(g.neg(x), x)
    ensures IsAbelian(g) ==> g.add(x, y) == g.add(y, x)
  {
    Assoc(g, x, y, z);
    assert Add(g, x, g.zero) == x && Add(g, g.zero, x) == x;
    assert Add(g, x, Neg(g, x)) == g.zero && Add(g, Neg(g, x), x) == g.zero;
    if IsAbelian(g) {
      Commute(g, x, y);
    }
  }

  /** Multiples are repeated additions of the element, or of its negative. */
  lemma MulSteps<T(!new)>(g: Group<T>, n: int, x: T)
    requires IsGroup(g)
    ensures Mul(g, 0, x) == g.zero
    ensures Mul(g, n + 1, x) == g.add(Mul(g, n, x), x)
    ensures Mul(g, n - 1, x) == g.add(Mul(g, n, x), g.neg(x))
  {
    MulSucc(g, n, x);
  }

  lemma IntegersAreGroup(g: Group<int>)
    requires g.zero == 0 && (forall x, y :: g.add(x, y) == x + y) && forall x :: g.neg(x) == -x
    ensures IsAbelian(g)
  {
    assert forall x, y :: Add(g, x, y) == x + y;
    assert forall x :: Neg(g, x) == -x;
  }

  /** In the group of the integers the multiples are the products. */
  lemma {:induction false} IntegerMultiples(g: Group<int>, n: int, x: int)
    requires g.zero == 0 && (forall y, z :: g.add(y, z) == y + z) && forall y :: g.neg(y) == -y
    ensures IsAbelian(g) && Mul(g, n, x) == n * x
    decreases if n < 0 then -n else n
  {
    hide Mul, IsGroup;
    IntegersAreGroup(g);
    AbelianGroup(g);
    MulSteps(g, if n > 0 then n - 1 else n + 1, x);
    if n > 0 {
      IntegerMultiples(g, n - 1, x);
      assert n * x == (n - 1) * x + x;
    } else if n < 0 {
      IntegerMultiples(g, n + 1, x);
      assert n * x == (n + 1) * x - x;
    }
  }

  lemma AbelianGroup<T(!new)>(g: Group<T>)
    requires IsAbelian(g)
    ensures IsGroup(g)
  {
  }

  lemma InverseUnique<T(!new)>(g: Group<T>, x: T, y: T)
    requires IsGroup(g)
    requires Add(g, x, y) == g.zero
    ensures Neg(g, x) == y
  {
    Assoc(g, Neg(g, x), x, y);
  }

  lemma MulNeg<T(!new)>(g: Group<T>, n: int, x: T)
    requires IsGroup(g)
    ensures Mul(g, -n, x) == Neg(g, Mul(g, n, x))
  {
    MulAdd(g, n, -n, x);
    InverseUnique(g, Mul(g, n, x), Mul(g, -n, x));
  }

  lemma MulOne<T(!new)>(g: Group<T>, x: T)
    requires IsGroup(g)
    ensures Mul(g, 1, x) == x
  {
    MulSucc(g, 0, x);
  }

  lemma MulDouble<T(!new)>(g: Group<T>, n: int, x: T)
    requires IsGroup(g)
    ensures Add(g, Mul(g, n, x), Mul(g, n, x)) == Mul(g, 2 * n, x)
  {
    MulAdd(g, n, n, x);
  }

  /** `m` times `n` times `x`. */
  lemma {:induction false} MulMul<T(!new)>(g: Group<T>, m: int, n: int, x: T)
    requires IsGroup(g)
    ensures Mul(g, m, Mul(g, n, x)) == Mul(g, m * n, x)
    decreases if m < 0 then -m else m
  {
    if m > 0 {
      MulMul(g, m - 1, n, x);
      MulAdd(g, (m - 1) * n, n, x);
      assert (m - 1) * n + n == m * n;
    } else if m < 0 {
      MulMul(g, m + 1, n, x);
      MulNeg(g, n, x);
      MulAdd(g, (m + 1) * n, -n, x);
      assert (m + 1) * n + -n == m * n;
    }
  }

  /** (a + b) + (c + d) == (a + c) + (b + d). */
  lemma Exchange<T(!new)>(g: Group<T>, a: T, b: T, c: T, d: T)
    requires IsAbelian(g)
    ensures Add(g, Add(g, a, b), Add(g, c, d)) == Add(g, Add(g, a, c), Add(g, b, d))
  {
    Assoc(g, a, b, Add(g, c, d));
    Assoc(g, b, c, d);
    Commute(g, b, c);
    Assoc(g, c, b, d);
    Assoc(g, a, c, Add(g, b, d));
  }

  /** Multiplication by a natural number distributes over addition in an abelian group. */
  lemma {:induction false} MulDistributes<T(!new)>(g: Group<T>, n: nat, x: T, y: T)
    requires IsAbelian(g)
    ensures Mul(g, n, Add(g, x, y)) == Add(g, Mul(g, n, x), Mul(g, n, y))
  {
    if n > 0 {
      MulDistributes(g, n - 1, x, y);
      Exchange(g, Mul(g, n - 1, x), Mul(g, n - 1, y), x, y);
    }
  }

  /** `a` times `x` plus `b` times `y`. */
  ghost function Lin<T(!new)>(g: Group<T>, a: int, x: T, b: int, y: T): T {
    Add(g, Mul(g, a, x), Mul(g, b, y))
  }

  lemma LinIs<T(!new)>(g: Group<T>, a: int, x: T, b: int, y: T)
    ensures Lin(g, a, x, b, y) == g.add(Mul(g, a, x), Mul(g, b, y))
  {
  }

  lemma LinAdd<T(!new)>(g: Group<T>, a: int, b: int, c: int, d: int, x: T, y: T)
    requires IsAbelian(g)
    ensures Add(g, Lin(g, a, x, b, y), Lin(g, c, x, d, y)) == Lin(g, a + c, x, b + d, y)
  {
    Exchange(g, Mul(g, a, x), Mul(g, b, y), Mul(g, c, x), Mul(g, d, y));
    MulAdd(g, a, c, x);
    MulAdd(g, b, d, y);
  }

  lemma LinUnits<T(!new)>(g: Group<T>, x: T, y: T)
    requires IsAbelian(g)
    ensures Lin(g, 1, x, 0, y) == x
    ensures Lin(g, 0, x, 1, y) == y
    ensures Lin(g, 0, x, 0, y) == g.zero
  {
    MulOne(g, x);
    MulOne(g, y);
  }
}
