/** Multiplying many bases by many exponents at once, by repeatedly reducing the largest exponent
    by the next largest one (the Bos-Coster method). */
module GeneralCascade {
  import opened Groups
  import opened SimultaneousMultiplication
  import opened CascadeMultiplication

  /** A base and its exponent, ordered by exponent. */
  datatype BaseAndExponent<T> = BaseAndExponent(base: T, exponent: nat)

  ghost function Term<T(!new)>(g: Group<T>, p: BaseAndExponent<T>): T {
    Mul(g, p.exponent, p.base)
  }

  /** The sum of exponent times base over a list: the specification. */
  ghost function Sum<T(!new)>(g: Group<T>, s: seq<BaseAndExponent<T>>): T {
    if s == [] then g.zero else Add(g, Term(g, s[0]), Sum(g, s[1..]))
  }

  ghost function Total<T>(s: seq<BaseAndExponent<T>>): nat {
    if s == [] then 0 else s[0].exponent + Total(s[1..])
  }

  lemma SumIs<T(!new)>(g: Group<T>, p: BaseAndExponent<T>, s: seq<BaseAndExponent<T>>)
    ensures Sum(g, []) == g.zero && Sum(g, [p] + s) == g.add(Mul(g, p.exponent, p.base), Sum(g, s))
    ensures Total<T>([]) == 0 && Total([p] + s) == p.exponent + Total(s)
  {
    hide Mul;
    assert ([p] + s)[1..] == s;
  }

  lemma {:induction false} SumConcat<T(!new)>(g: Group<T>, s: seq<BaseAndExponent<T>>, t: seq<BaseAndExponent<T>>)
    requires IsAbelian(g)
    ensures Sum(g, s + t) == Add(g, Sum(g, s), Sum(g, t))
    ensures Total(s + t) == Total(s) + Total(t)
  {
    if s == [] {
      assert s + t == t;
    } else {
      assert (s + t)[1..] == s[1..] + t;
      SumConcat(g, s[1..], t);
      Assoc(g, Term(g, s[0]), Sum(g, s[1..]), Sum(g, t));
    }
  }

  /** Any entry may be taken out of the sum first. */
  lemma SumExtract<T(!new)>(g: Group<T>, s: seq<BaseAndExponent<T>>, i: nat)
    requires IsAbelian(g) && i < |s|
    ensures Sum(g, s) == Add(g, Term(g, s[i]), Sum(g, s[..i] + s[i + 1..]))
    ensures Total(s) == s[i].exponent + Total(s[..i] + s[i + 1..])
  {
    var a, b, x := s[..i], s[i + 1..], [s[i]];
    assert s == a + (x + b);
    SumConcat(g, a, x + b);
    SumConcat(g, x, b);
    SumConcat(g, a, b);
    assert Sum(g, x) == Term(g, s[i]) && Total(x) == s[i].exponent by { assert x[1..] == []; }
    Assoc(g, Sum(g, a), Term(g, s[i]), Sum(g, b));
    Commute(g, Sum(g, a), Term(g, s[i]));
    Assoc(g, Term(g, s[i]), Sum(g, a), Sum(g, b));
  }

  /** The sum depends only on which entries there are, not on their order. */
  lemma {:induction false} SumPermutation<T(!new)>(g: Group<T>, s: seq<BaseAndExponent<T>>, t: seq<BaseAndExponent<T>>)
    requires IsAbelian(g)
    requires multiset(s) == multiset(t)
    ensures Sum(g, s) == Sum(g, t) && Total(s) == Total(t)
  {
    if s == [] {
      assert |t| == |multiset(t)| == 0;
    } else {
      assert s[0] in multiset(t);
      var i :| 0 <= i < |t| && t[i] == s[0];
      SumExtract(g, t, i);
      RestIsPermuted(s, t, i);
      SumPermutation(g, s[1..], t[..i] + t[i + 1..]);
    }
  }

  lemma RestIsPermuted<X>(s: seq<X>, t: seq<X>, i: nat)
    requires multiset(s) == multiset(t) && s != [] && i < |t| && t[i] == s[0]
    ensures multiset(s[1..]) == multiset(t[..i] + t[i + 1..])
  {
    assert s == [s[0]] + s[1..];
    assert t == t[..i] + ([t[i]] + t[i + 1..]);
    assert multiset(s[1..]) == multiset(s) - multiset{s[0]} == multiset(t) - multiset{t[i]};
    assert multiset(t[..i] + t[i + 1..]) == multiset(t) - multiset{t[i]};
  }

  lemma {:induction false} SumOfZeros<T(!new)>(g: Group<T>, s: seq<BaseAndExponent<T>>)
    requires IsGroup(g)
    requires forall i :: 0 <= i < |s| ==> s[i].exponent == 0
    ensures Sum(g, s) == g.zero
  {
    if s != [] {
      SumOfZeros(g, s[1..]);
    }
  }

  /** The last pair has the largest exponent, the first pair the next largest. */
  ghost predicate LargestAtEnds<T>(s: seq<BaseAndExponent<T>>) {
    && |s| >= 2
    && (forall i :: 0 <= i < |s| ==> s[i].exponent <= s[|s| - 1].exponent)
    && (forall i :: 0 <= i < |s| - 1 ==> s[i].exponent <= s[0].exponent)
  }

  method IndexOfLargest<T>(a: array<BaseAndExponent<T>>, n: nat) returns (m: nat)
    requires 0 < n <= a.Length
    ensures m < n && forall i :: 0 <= i < n ==> a[i].exponent <= a[m].exponent
  {
    m := 0;
    for k := 1 to n
      invariant m < k && forall i :: 0 <= i < k ==> a[i].exponent <= a[m].exponent
    {
      if a[m].exponent < a[k].exponent {
        m := k;
      }
    }
  }

  method Swap<T>(a: array<BaseAndExponent<T>>, i: nat, j: nat)
    requires i < a.Length && j < a.Length
    modifies a
    ensures a[..] == old(a[..][i := a[j]][j := a[i]])
    ensures multiset(a[..]) == multiset(old(a[..]))
  {
    a[i], a[j] := a[j], a[i];
  }

  /** Stands for the standard heap calls: of what they guarantee, only this is relied on, that the
      pairs are rearranged so that the two largest exponents are at the two ends. */
  method PushAndPopHeap<T>(a: array<BaseAndExponent<T>>)
    requires a.Length >= 2
    modifies a
    ensures multiset(a[..]) == multiset(old(a[..]))
    ensures LargestAtEnds(a[..])
  {
    var last := a.Length - 1;
    ghost var s := a[..];
    var m := IndexOfLargest(a, a.Length);
    Swap(a, m, last);
    ghost var t := a[..];
    LargestLast(s, m);
    var n := IndexOfLargest(a, last);
    Swap(a, n, 0);
    NextLargestFirst(t, n);
  }

  lemma LargestLast<T>(s: seq<BaseAndExponent<T>>, m: nat)
    requires m < |s| && forall i :: 0 <= i < |s| ==> s[i].exponent <= s[m].exponent
    ensures var t := s[m := s[|s| - 1]][|s| - 1 := s[m]];
      forall i :: 0 <= i < |s| ==> t[i].exponent <= t[|s| - 1].exponent
  {
  }

  lemma NextLargestFirst<T>(t: seq<BaseAndExponent<T>>, n: nat)
    requires n < |t| - 1
    requires forall i :: 0 <= i < |t| ==> t[i].exponent <= t[|t| - 1].exponent
    requires forall i :: 0 <= i < |t| - 1 ==> t[i].exponent <= t[n].exponent
    ensures LargestAtEnds(t[n := t[0]][0 := t[n]])
  {
  }

  /** One reduction: the last exponent becomes its remainder, the quotient moves into the first base. */
  ghost function Reduced<T(!new)>(g: Group<T>, s: seq<BaseAndExponent<T>>): seq<BaseAndExponent<T>>
    requires |s| >= 2 && s[0].exponent > 0
  {
    var first, last := s[0], s[|s| - 1];
    var q := last.exponent / first.exponent;
    [BaseAndExponent(Add(g, first.base, Mul(g, q, last.base)), first.exponent)]
    + s[1..|s| - 1]
    + [BaseAndExponent(last.base, last.exponent % first.exponent)]
  }

  /** Only the first base and the last exponent change, by the quotient and the remainder. */
  lemma ReducedEnds<T(!new)>(g: Group<T>, s: seq<BaseAndExponent<T>>)
    requires |s| >= 2 && s[0].exponent > 0
    ensures var r, k, n := Reduced(g, s), s[0].exponent, |s| - 1;
      && |r| == |s| && (forall i :: 1 <= i < n ==> r[i] == s[i])
      && r[0].exponent == k && r[0].base == g.add(s[0].base, Mul(g, s[n].exponent / k, s[n].base))
      && r[n].exponent == s[n].exponent % k && r[n].base == s[n].base
  {
    hide Mul;
  }

  /** m (b + q c) + r c == m b + (m q + r) c. */
  lemma MoveQuotient<T(!new)>(g: Group<T>, b: T, c: T, m: nat, q: nat, r: nat)
    requires IsAbelian(g)
    ensures Add(g, Mul(g, m, Add(g, b, Mul(g, q, c))), Mul(g, r, c)) == Add(g, Mul(g, m, b), Mul(g, m * q + r, c))
  {
    MulDistributes(g, m, b, Mul(g, q, c));
    MulMul(g, m, q, c);
    Assoc(g, Mul(g, m, b), Mul(g, m * q, c), Mul(g, r, c));
    MulAdd(g, m * q, r, c);
  }

  /** The two ends may be added first. */
  lemma EndsFirst<T(!new)>(g: Group<T>, x: BaseAndExponent<T>, mid: seq<BaseAndExponent<T>>, y: BaseAndExponent<T>)
    requires IsAbelian(g)
    ensures Sum(g, [x] + mid + [y]) == Add(g, Add(g, Term(g, x), Term(g, y)), Sum(g, mid))
    ensures Total([x] + mid + [y]) == x.exponent + y.exponent + Total(mid)
  {
    var s := [x] + mid + [y];
    SumExtract(g, s, 0);
    assert s[..0] + s[1..] == mid + [y];
    SumExtract(g, mid + [y], |mid|);
    assert (mid + [y])[..|mid|] + (mid + [y])[|mid| + 1..] == mid;
    Assoc(g, Term(g, x), Term(g, y), Sum(g, mid));
  }

  /** A reduction keeps the sum and strictly lowers the total of the exponents. */
  lemma ReductionKeepsSum<T(!new)>(g: Group<T>, s: seq<BaseAndExponent<T>>)
    requires IsAbelian(g)
    requires LargestAtEnds(s) && s[0].exponent > 0
    ensures Sum(g, Reduced(g, s)) == Sum(g, s)
    ensures Total(Reduced(g, s)) < Total(s)
  {
    hide Mul, Sum, Total, IsAbelian;
    var first, mid, last := s[0], s[1..|s| - 1], s[|s| - 1];
    var first', last' := Reduced(g, s)[0], Reduced(g, s)[|s| - 1];
    assert s == [first] + mid + [last];
    assert Reduced(g, s) == [first'] + mid + [last'];
    EndsFirst(g, first, mid, last);
    EndsFirst(g, first', mid, last');
    QuotientAndRemainder(last.exponent, first.exponent);
    MoveQuotient(g, first.base, last.base, first.exponent, last.exponent / first.exponent, last'.exponent);
  }

  lemma QuotientAndRemainder(t: nat, m: nat)
    requires m > 0
    ensures m * (t / m) + t % m == t && t % m < m
  {
  }

  /** When the next largest exponent is zero only the last pair contributes. */
  lemma OnlyLastLeft<T(!new)>(g: Group<T>, s: seq<BaseAndExponent<T>>)
    requires IsAbelian(g)
    requires LargestAtEnds(s) && s[0].exponent == 0
    ensures forall i :: 0 <= i < |s| - 1 ==> s[i].exponent == 0
    ensures Sum(g, s) == Term(g, s[|s| - 1])
  {
    SumExtract(g, s, |s| - 1);
    SumOfZeros(g, s[..|s| - 1] + s[|s|..]);
  }

  /** Returns the sum of exponent times base over one or more pairs, rewriting the pairs. */
  method GeneralCascadeMultiplication<T(0,!new)>(g: Group<T>, inversionIsFast: bool, a: array<BaseAndExponent<T>>)
    returns (result: T)
    requires IsAbelian(g)
    requires a.Length >= 1
    modifies a
    ensures result == Sum(g, old(a[..]))
    ensures a.Length >= 3 ==> forall i :: 0 <= i < a.Length - 1 ==> a[i].exponent == 0
  {
    hide Add, Mul, IsAbelian;
    if a.Length == 1 {
      OnePair(g, a[0]);
      assert a[..] == [a[0]];
      result := ScalarMultiply(g, inversionIsFast, a[0].base, a[0].exponent);
    } else if a.Length == 2 {
      TwoPairs(g, a[0], a[1]);
      assert a[..] == [a[0], a[1]];
      result := CascadeScalarMultiply(g, a[0].base, a[0].exponent, a[1].base, a[1].exponent);
    } else {
      result := ReduceAll(g, inversionIsFast, a);
    }
  }

  lemma OnePair<T(!new)>(g: Group<T>, p: BaseAndExponent<T>)
    requires IsAbelian(g)
    ensures IsGroup(g) && Sum(g, [p]) == Term(g, p)
  {
    assert [p][1..] == [];
  }

  lemma TwoPairs<T(!new)>(g: Group<T>, p: BaseAndExponent<T>, q: BaseAndExponent<T>)
    requires IsAbelian(g)
    ensures Sum(g, [p, q]) == Lin(g, p.exponent, p.base, q.exponent, q.base)
  {
    OnePair(g, q);
    assert [p, q][1..] == [q];
  }

  method ReduceAll<T(0,!new)>(g: Group<T>, inversionIsFast: bool, a: array<BaseAndExponent<T>>) returns (result: T)
    requires IsAbelian(g)
    requires a.Length >= 3
    modifies a
    ensures result == Sum(g, old(a[..]))
    ensures forall i :: 0 <= i < a.Length - 1 ==> a[i].exponent == 0
  {
    hide Add, Mul, Sum, Total, Reduced, IsGroup;
    var last := a.Length - 1;
    PushAndPopHeap(a);
    SumPermutation(g, a[..], old(a[..]));
    while a[0].exponent != 0
      invariant Sum(g, a[..]) == Sum(g, old(a[..]))
      invariant LargestAtEnds(a[..])
      decreases Total(a[..])
    {
      ghost var s := a[..];
      Reduce(g, inversionIsFast, a);
      ReductionKeepsSum(g, s);
      ghost var reduced := a[..];
      PushAndPopHeap(a);
      SumPermutation(g, a[..], reduced);
    }
    OnlyLastLeft(g, a[..]);
    result := ScalarMultiply(g, inversionIsFast, a[last].base, a[last].exponent);
  }

  method Reduce<T(0,!new)>(g: Group<T>, inversionIsFast: bool, a: array<BaseAndExponent<T>>)
    requires IsAbelian(g)
    requires a.Length >= 3 && a[0].exponent > 0
    modifies a
    ensures a[..] == Reduced(g, old(a[..]))
  {
    hide Add, Mul;
    var last := a.Length - 1;
    var t := a[last].exponent;
    var q := t / a[0].exponent;
    a[last] := BaseAndExponent(a[last].base, t % a[0].exponent);
    if q == 1 {
      MulOne(g, a[last].base);
      a[0] := BaseAndExponent(Add(g, a[0].base, a[last].base), a[0].exponent);
    } else {
      var multiple := ScalarMultiply(g, inversionIsFast, a[last].base, q);
      a[0] := BaseAndExponent(Add(g, a[0].base, multiple), a[0].exponent);
    }
  }
}
