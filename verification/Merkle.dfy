/** The Merkle commitment of a list of hashes, and what it binds. */
module Merkle {
  import opened Bytes
  import opened Powers
  import opened Serializer

  ghost predicate Collision(h: Hasher, a: bytes, b: bytes) {
    a != b && h(a) == h(b)
  }

  /** The two hashes that node `i` of the next layer covers, the last one doubled where it has no partner. */
  function Pair(layer: seq<Hash256>, i: nat): (p: bytes)
    requires 2 * i < |layer|
    ensures |p| == 64
  {
    Concat(layer[2 * i], if 2 * i + 1 < |layer| then layer[2 * i + 1] else layer[2 * i])
  }

  function Concat(left: bytes, right: bytes): bytes {
    left + right
  }

  function NextLayer(h: Hasher, layer: seq<Hash256>): (r: seq<Hash256>)
    ensures |r| == (|layer| + 1) / 2
    ensures forall i :: 0 <= i < |r| ==> r[i] == h(Pair(layer, i))
  {
    seq<Hash256>((|layer| + 1) / 2, i requires 0 <= i < (|layer| + 1) / 2 => h(Pair(layer, i)))
  }

  function Root(h: Hasher, layer: seq<Hash256>): Hash256
    decreases |layer|
  {
    if |layer| == 0 then Zeros(32) else if |layer| == 1 then layer[0] else Root(h, NextLayer(h, layer))
  }

  /** The root, layer by layer. */
  method BuildRoot(h: Hasher, hashes: seq<Hash256>) returns (root: Hash256)
    ensures root == Root(h, hashes)
    ensures |hashes| == 1 ==> root == hashes[0]
    ensures |hashes| == 2 ==>
      var left: bytes, right: bytes := hashes[0], hashes[1];
      root == h(left + right)
  {
    if |hashes| == 2 {
      TwoHashes(h, hashes[0], hashes[1]);
      assert hashes == [hashes[0], hashes[1]];
    }
    var layers := hashes;
    while |layers| > 1
      invariant Root(h, layers) == Root(h, hashes)
      decreases |layers|
    {
      var nextLayer := [];
      var i := 0;
      while i < |layers|
        invariant i % 2 == 0 && i <= |layers| + 1 && |nextLayer| == i / 2
        invariant forall j :: 0 <= j < |nextLayer| ==> nextLayer[j] == NextLayer(h, layers)[j]
      {
        var left := layers[i];
        var right := if i + 1 < |layers| then layers[i + 1] else left;
        assert Concat(left, right) == Pair(layers, i / 2);
        nextLayer := nextLayer + [h(Concat(left, right))];
        i := i + 2;
      }
      assert nextLayer == NextLayer(h, layers);
      layers := nextLayer;
    }
    root := if |layers| == 0 then Zeros(32) else layers[0];
  }

  /** Somewhere in the trees over two lists, at the same place, different pairs have the same hash. */
  ghost predicate CollidesInTrees(h: Hasher, xs: seq<Hash256>, ys: seq<Hash256>)
    requires |xs| == |ys|
    decreases |xs|
  {
    |xs| > 1 &&
    ((exists i :: 0 <= i < (|xs| + 1) / 2 && Collision(h, Pair(xs, i), Pair(ys, i)))
     || CollidesInTrees(h, NextLayer(h, xs), NextLayer(h, ys)))
  }

  /** Binding: lists of one length with the same root are the same, or their own trees show a
      collision of two 64-byte inputs. */
  lemma {:induction false} Binding(h: Hasher, xs: seq<Hash256>, ys: seq<Hash256>)
    requires |xs| == |ys| && Root(h, xs) == Root(h, ys)
    ensures xs == ys || CollidesInTrees(h, xs, ys)
    decreases |xs|
  {
    if |xs| > 1 {
      Binding(h, NextLayer(h, xs), NextLayer(h, ys));
      if NextLayer(h, xs) == NextLayer(h, ys) && xs != ys {
        var k :| 0 <= k < |xs| && xs[k] != ys[k];
        PairsDiffer(xs, ys, k);
        assert NextLayer(h, xs)[k / 2] == NextLayer(h, ys)[k / 2];
        assert Collision(h, Pair(xs, k / 2), Pair(ys, k / 2));
      }
    }
  }

  lemma PairsDiffer(xs: seq<Hash256>, ys: seq<Hash256>, k: nat)
    requires |xs| == |ys| && k < |xs| && xs[k] != ys[k]
    ensures Pair(xs, k / 2) != Pair(ys, k / 2)
  {
    var x, y := Pair(xs, k / 2), Pair(ys, k / 2);
    if k % 2 == 0 {
      assert x[..32] == xs[k] && y[..32] == ys[k];
    } else {
      assert x[32..] == xs[k] && y[32..] == ys[k];
    }
  }

  // ---- Which hashes are combined, and in which order ----

  /** The trees over up to three hashes. */
  lemma SmallTrees(h: Hasher, x: bytes, y: bytes, z: bytes)
    requires |x| == |y| == |z| == 32
    ensures Root(h, []) == Zeros(32) && Root(h, [x]) == x
    ensures Root(h, [x, y]) == h(x + y)
    ensures Root(h, [x, y, z]) == h(h(x + y) + h(z + z))
  {
    hide Root;
    NoHashes(h);
    OneHash(h, x);
    TwoHashes(h, x, y);
    var left: bytes, right: bytes := h(x + y), h(z + z);
    TwoHashes(h, left, right);
    NextLayerHashes(h, [x, y, z], 0);
    NextLayerHashes(h, [x, y, z], 1);
    RootStep(h, [x, y, z]);
    assert NextLayer(h, [x, y, z]) == [left, right];
  }

  lemma NoHashes(h: Hasher)
    ensures Root(h, []) == Zeros(32)
  {
  }

  lemma OneHash(h: Hasher, x: Hash256)
    ensures Root(h, [x]) == x
  {
  }

  lemma TwoHashes(h: Hasher, x: bytes, y: bytes)
    requires |x| == |y| == 32
    ensures Root(h, [x, y]) == h(x + y)
  {
    hide Root;
    NextLayerHashes(h, [x, y], 0);
    RootStep(h, [x, y]);
    OneHash(h, h(x + y));
    assert NextLayer(h, [x, y]) == [h(x + y)];
  }

  /** Node `i` of the next layer: its left hash, then its right one, or the left one again. */
  lemma NextLayerHashes(h: Hasher, layer: seq<Hash256>, i: nat)
    requires 2 * i < |layer|
    ensures |NextLayer(h, layer)| == (|layer| + 1) / 2
    ensures var left: bytes := layer[2 * i];
      var right: bytes := if 2 * i + 1 < |layer| then layer[2 * i + 1] else left;
      NextLayer(h, layer)[i] == h(left + right)
  {
  }

  /** The height is the least `k` with at most 2^k leaves. */
  lemma {:induction false} HeightExactly(n: nat, k: nat)
    requires n >= 1
    ensures n <= Pow2(k) <==> Height(n) <= k
    decreases n
  {
    if n > 1 {
      if k > 0 {
        HeightExactly((n + 1) / 2, k - 1);
      }
    } else {
      PowerPositive(k);
    }
  }

  lemma {:induction false} DoubledStep(h: Hasher, x: Hash256, k: nat)
    ensures Doubled(h, x, 0) == x
    ensures Doubled(h, x, k + 1) == h(Doubled(h, x, k) + Doubled(h, x, k))
    decreases k
  {
    if k > 0 {
      DoubledStep(h, h(x + x), k - 1);
    }
  }

  /** The tree splits at the largest power of two below the count: the root is the hash of the root of the
      left part and of the root of the right part, which is doubled up to the height of the left part. */
  lemma {:induction false} RootSplit(h: Hasher, xs: seq<Hash256>, ys: seq<Hash256>, k: nat)
    requires |xs| == Pow2(k) && 1 <= |ys| <= Pow2(k)
    ensures Height(|ys|) <= k
    ensures Root(h, xs + ys) == h(Root(h, xs) + Doubled(h, Root(h, ys), k - Height(|ys|)))
    decreases k
  {
    hide NextLayer, Root;
    HeightExactly(|ys|, k);
    if k == 0 {
      OneHash(h, xs[0]);
      OneHash(h, ys[0]);
      TwoHashes(h, xs[0], ys[0]);
      assert xs == [xs[0]] && ys == [ys[0]] && xs + ys == [xs[0], ys[0]];
    } else {
      HalfOfPower(k);
      PowerPositive(k - 1);
      NextLayerConcat(h, xs, ys);
      RootStep(h, xs + ys);
      RootStep(h, xs);
      RootSplit(h, NextLayer(h, xs), NextLayer(h, ys), k - 1);
      if |ys| > 1 {
        RootStep(h, ys);
      } else {
        var y: bytes := ys[0];
        NextLayerHashes(h, ys, 0);
        OneHash(h, y);
        OneHash(h, h(y + y));
        assert ys == [y] && NextLayer(h, ys) == [h(y + y)];
      }
    }
  }

  /** Two full trees of one height, side by side. */
  lemma RootOfHalves(h: Hasher, xs: seq<Hash256>, ys: seq<Hash256>, k: nat)
    requires |xs| == |ys| == Pow2(k)
    ensures Root(h, xs + ys) == h(Root(h, xs) + Root(h, ys))
  {
    hide Root, Doubled, Height, Pow2;
    PowerPositive(k);
    RootSplit(h, xs, ys, k);
    DoubledStep(h, Root(h, ys), 0);
    HeightExactly(|ys|, k);
    if k > 0 {
      HalfOfPower(k);
      PowerPositive(k - 1);
      HeightExactly(|ys|, k - 1);
    }
  }

  // ---- Lists of different lengths ----

  /** The number of layers above the leaves. */
  function Height(n: nat): nat {
    if n <= 1 then 0 else 1 + Height((n + 1) / 2)
  }

  /** Which of `n` hashes stands at leaf `j` of the tree once every missing partner is filled in. */
  function Leaf(n: nat, j: nat): (i: nat)
    requires n >= 1
    ensures i < n
  {
    if n == 1 then 0 else Min(2 * Leaf((n + 1) / 2, j / 2) + j % 2, n - 1)
  }

  /** The leaves of the completed tree. */
  function Completed(layer: seq<Hash256>): (r: seq<Hash256>)
    requires layer != []
    ensures |r| == Pow2(Height(|layer|))
    ensures forall j :: 0 <= j < |r| ==> r[j] == layer[Leaf(|layer|, j)]
  {
    seq<Hash256>(Pow2(Height(|layer|)), j requires j >= 0 => layer[Leaf(|layer|, j)])
  }

  /** The completed list begins with the list itself. */
  lemma {:induction false} LeafOfList(n: nat, j: nat)
    requires j < n
    ensures Leaf(n, j) == j
  {
    if n > 1 {
      LeafOfList((n + 1) / 2, j / 2);
    }
  }

  lemma CompletedBegins(xs: seq<Hash256>)
    requires xs != []
    ensures |xs| <= |Completed(xs)| && Completed(xs)[..|xs|] == xs
  {
    hide Leaf;
    HeightExactly(|xs|, Height(|xs|));
    forall j | 0 <= j < |xs|
      ensures Leaf(|xs|, j) == j
    {
      LeafOfList(|xs|, j);
    }
  }

  /** Completing the leaves completes every layer above them. */
  lemma CompletedNext(h: Hasher, xs: seq<Hash256>)
    requires |xs| > 1
    ensures |Completed(xs)| == 2 * |Completed(NextLayer(h, xs))|
    ensures NextLayer(h, Completed(xs)) == Completed(NextLayer(h, xs))
  {
    hide NextLayer, Completed, Pair, Pow2;
    var n, next := |xs|, NextLayer(h, xs);
    OneLayerLess(n);
    forall i | 0 <= i < |Completed(next)|
      ensures NextLayer(h, Completed(xs))[i] == Completed(next)[i]
    {
      LeafPair(n, i);
      PairOfLeaves(Completed(xs), xs, i, Leaf((n + 1) / 2, i));
    }
  }

  lemma OneLayerLess(n: nat)
    requires n > 1
    ensures Height(n) == 1 + Height((n + 1) / 2) && Pow2(Height(n)) == 2 * Pow2(Height((n + 1) / 2))
  {
  }

  lemma LeafPair(n: nat, i: nat)
    requires n > 1
    ensures Leaf(n, 2 * i) == 2 * Leaf((n + 1) / 2, i)
    ensures Leaf(n, 2 * i + 1) == Min(2 * Leaf((n + 1) / 2, i) + 1, n - 1)
  {
    hide Leaf;
    Halves(i);
    LeafStep(n, 2 * i);
    LeafStep(n, 2 * i + 1);
  }

  lemma Halves(i: nat)
    ensures 2 * i / 2 == i && 2 * i % 2 == 0 && (2 * i + 1) / 2 == i && (2 * i + 1) % 2 == 1
  {
  }

  lemma LeafStep(n: nat, j: nat)
    requires n > 1
    ensures Leaf(n, j) == Min(2 * Leaf((n + 1) / 2, j / 2) + j % 2, n - 1)
  {
    hide Min;
  }

  lemma PairOfLeaves(all: seq<Hash256>, xs: seq<Hash256>, i: nat, k: nat)
    requires 2 * i + 1 < |all| && 2 * k < |xs|
    requires all[2 * i] == xs[2 * k] && all[2 * i + 1] == xs[Min(2 * k + 1, |xs| - 1)]
    ensures Pair(all, i) == Pair(xs, k)
  {
  }

  /** The completed tree has the same root. */
  lemma {:induction false} CompletedRoot(h: Hasher, xs: seq<Hash256>)
    requires xs != []
    ensures Root(h, Completed(xs)) == Root(h, xs)
    decreases |xs|
  {
    hide NextLayer, Root, Pow2;
    if |xs| == 1 {
      OnlyLeaf(xs);
    } else {
      CompletedNext(h, xs);
      CompletedRoot(h, NextLayer(h, xs));
      PowerPositive(Height(|NextLayer(h, xs)|));
      RootStep(h, xs);
      RootStep(h, Completed(xs));
    }
  }

  lemma OnlyLeaf(xs: seq<Hash256>)
    requires |xs| == 1
    ensures Completed(xs) == xs
  {
    PowZero();
  }

  lemma PowerPositive(k: nat)
    ensures Pow2(k) >= 1
  {
  }

  /** `k` layers up. */
  function Above(h: Hasher, layer: seq<Hash256>, k: nat): (r: seq<Hash256>)
    requires k <= Height(|layer|) && layer != []
    ensures r != [] && Height(|r|) == Height(|layer|) - k
    decreases k
  {
    if k == 0 then layer else Above(h, NextLayer(h, layer), k - 1)
  }

  /** Each level is the layer over the one below. */
  lemma {:induction false} AboveStep(h: Hasher, layer: seq<Hash256>, k: nat)
    requires k < Height(|layer|) && layer != []
    ensures Above(h, layer, 0) == layer
    ensures Above(h, layer, k + 1) == NextLayer(h, Above(h, layer, k))
    decreases k
  {
    hide NextLayer;
    if k > 0 {
      AboveStep(h, NextLayer(h, layer), k - 1);
    }
  }

  lemma PairParts(layer: seq<Hash256>, i: nat)
    requires 2 * i < |layer|
    ensures |Pair(layer, i)| == 64 && Pair(layer, i)[..32] == layer[2 * i]
    ensures Pair(layer, i)[32..] == layer[if 2 * i + 1 < |layer| then 2 * i + 1 else 2 * i]
  {
  }

  /** The collision that is found: at some level `k` the two pairs `i` differ and have the same hash. */
  lemma {:induction false} CollisionInTrees(h: Hasher, xs: seq<Hash256>, ys: seq<Hash256>)
    returns (a: bytes, b: bytes, k: nat, i: nat)
    requires |xs| == |ys| && CollidesInTrees(h, xs, ys)
    ensures a != b && h(a) == h(b) && k < Height(|xs|)
    ensures var us, vs := Above(h, xs, k), Above(h, ys, k);
      && |us| == |vs| && 2 * i < |us| && |a| == |b| == 64
      && a[..32] == us[2 * i] && a[32..] == us[if 2 * i + 1 < |us| then 2 * i + 1 else 2 * i]
      && b[..32] == vs[2 * i] && b[32..] == vs[if 2 * i + 1 < |vs| then 2 * i + 1 else 2 * i]
    decreases |xs|
  {
    hide NextLayer, Pair;
    if j :| 0 <= j < (|xs| + 1) / 2 && Collision(h, Pair(xs, j), Pair(ys, j)) {
      PairParts(xs, j);
      PairParts(ys, j);
      a, b, k, i := Pair(xs, j), Pair(ys, j), 0, j;
    } else {
      a, b, k, i := CollisionInTrees(h, NextLayer(h, xs), NextLayer(h, ys));
      k := k + 1;
    }
  }

  lemma {:induction false} AboveRoot(h: Hasher, layer: seq<Hash256>, k: nat)
    requires k <= Height(|layer|) && layer != []
    ensures Root(h, Above(h, layer, k)) == Root(h, layer)
    decreases k
  {
    hide NextLayer, Root;
    if k > 0 {
      AboveRoot(h, NextLayer(h, layer), k - 1);
      RootStep(h, layer);
    }
  }

  /** When two lists of any lengths have the same root: if and only if the completed tree over the one
      is, at its height, the completed tree over the other, up to a collision at one place of the two. */
  lemma SameRootExactly(h: Hasher, xs: seq<Hash256>, ys: seq<Hash256>)
    requires xs != [] && ys != [] && Height(|xs|) <= Height(|ys|)
    ensures var level := Above(h, ys, Height(|ys|) - Height(|xs|));
      && |Completed(xs)| == |Completed(level)|
      && (Completed(xs) == Completed(level) ==> Root(h, xs) == Root(h, ys))
      && (Root(h, xs) == Root(h, ys) ==>
            Completed(xs) == Completed(level) || CollidesInTrees(h, Completed(xs), Completed(level)))
  {
    hide NextLayer, Root, Completed, CollidesInTrees;
    var level := Above(h, ys, Height(|ys|) - Height(|xs|));
    AboveRoot(h, ys, Height(|ys|) - Height(|xs|));
    CompletedRoot(h, xs);
    CompletedRoot(h, level);
    if Root(h, xs) == Root(h, ys) {
      Binding(h, Completed(xs), Completed(level));
    }
  }

  /** The case of one height, where the condition is on the lists alone. */
  lemma SameHeightExactly(h: Hasher, xs: seq<Hash256>, ys: seq<Hash256>)
    requires xs != [] && ys != [] && Height(|xs|) == Height(|ys|)
    ensures Completed(xs) == Completed(ys) ==> Root(h, xs) == Root(h, ys)
    ensures Root(h, xs) == Root(h, ys) ==>
      Completed(xs) == Completed(ys) || CollidesInTrees(h, Completed(xs), Completed(ys))
  {
    hide Root, Completed, CollidesInTrees;
    SameRootExactly(h, xs, ys);
  }

  /** One hash, repeated. */
  function Copies(x: Hash256, n: nat): (r: seq<Hash256>)
    ensures |r| == n && forall i :: 0 <= i < n ==> r[i] == x
  {
    seq<Hash256>(n, _ => x)
  }

  /** The root over copies of a hash, by the height alone. */
  function Doubled(h: Hasher, x: Hash256, k: nat): Hash256
    decreases k
  {
    if k == 0 then x else Doubled(h, h(Concat(x, x)), k - 1)
  }

  lemma {:induction false} RootOfCopies(h: Hasher, x: Hash256, n: nat)
    requires n >= 1
    ensures Root(h, Copies(x, n)) == Doubled(h, x, Height(n))
    decreases n
  {
    if n > 1 {
      RootOfCopies(h, h(Concat(x, x)), (n + 1) / 2);
      assert NextLayer(h, Copies(x, n)) == Copies(h(Concat(x, x)), (n + 1) / 2);
    }
  }

  lemma {:induction false} DoubledTwice(h: Hasher, x: Hash256, j: nat, k: nat)
    ensures Doubled(h, Doubled(h, x, j), k) == Doubled(h, x, j + k)
    decreases j
  {
    if j > 0 {
      DoubledTwice(h, h(Concat(x, x)), j - 1, k);
    }
  }

  /** Equal counts are needed for binding, whatever the hash: for any two counts there are lists of
      these lengths with the same root. */
  lemma AnyTwoCounts(h: Hasher, n: nat, m: nat) returns (xs: seq<Hash256>, ys: seq<Hash256>)
    requires n >= 1 && m >= 1
    ensures |xs| == n && |ys| == m && Root(h, xs) == Root(h, ys)
  {
    hide Root, Concat, Height;
    var x: Hash256 := Zeros(32);
    if Height(n) <= Height(m) {
      xs, ys := Copies(Doubled(h, x, Height(m) - Height(n)), n), Copies(x, m);
      DoubledTwice(h, x, Height(m) - Height(n), Height(n));
    } else {
      xs, ys := Copies(x, n), Copies(Doubled(h, x, Height(n) - Height(m)), m);
      DoubledTwice(h, x, Height(n) - Height(m), Height(m));
    }
    RootOfCopies(h, xs[0], n);
    RootOfCopies(h, ys[0], m);
  }

  /** An odd list of more than one hash and the list with its last hash repeated have the same root. */
  lemma RepeatedLast(h: Hasher, xs: seq<Hash256>)
    requires |xs| % 2 == 1 && |xs| > 1
    ensures Root(h, xs + [xs[|xs| - 1]]) == Root(h, xs)
  {
    hide Concat, Root, Pair, NextLayer;
    var ys := xs + [xs[|xs| - 1]];
    var n := (|xs| + 1) / 2;
    assert |ys| == 2 * n && |NextLayer(h, ys)| == n;
    forall i | 0 <= i < n
      ensures Pair(ys, i) == Pair(xs, i)
    {
      SamePair(xs, i);
    }
    assert NextLayer(h, ys) == NextLayer(h, xs);
    RootStep(h, xs);
    RootStep(h, ys);
  }

  lemma RootStep(h: Hasher, layer: seq<Hash256>)
    requires |layer| > 1
    ensures Root(h, layer) == Root(h, NextLayer(h, layer))
  {
  }

  lemma SamePair(xs: seq<Hash256>, i: nat)
    requires |xs| % 2 == 1 && 2 * i < |xs|
    ensures Pair(xs + [xs[|xs| - 1]], i) == Pair(xs, i)
  {
  }

  /** The last 2^t hashes of a list. */
  function Tail(xs: seq<Hash256>, t: nat): (r: seq<Hash256>)
    requires Pow2(t) <= |xs|
    ensures |r| == Pow2(t)
  {
    xs[|xs| - Pow2(t)..]
  }

  /** `n` can be halved `t` times, to an odd number above one. */
  predicate OddAfter(n: nat, t: nat) {
    if t == 0 then n % 2 == 1 && n > 1 else n % 2 == 0 && OddAfter(n / 2, t - 1)
  }

  lemma {:induction false} OddAfterBound(n: nat, t: nat)
    requires OddAfter(n, t)
    ensures Pow2(t) < n
  {
    if t > 0 {
      OddAfterBound(n / 2, t - 1);
    }
  }

  lemma {:induction false} OddMultiple(q: nat, t: nat)
    requires q % 2 == 1 && q > 1
    ensures Shl(q, t) >= 0 && OddAfter(Shl(q, t), t)
  {
    if t > 0 {
      OddMultiple(q, t - 1);
      Halves(Shl(q, t - 1));
    }
  }

  /** A list whose length is an odd multiple of 2^t, and more, keeps its root when its last 2^t hashes
      are repeated. */
  lemma RepeatedTail(h: Hasher, xs: seq<Hash256>, q: nat, t: nat)
    requires q % 2 == 1 && q > 1 && |xs| == q * Pow2(t)
    ensures Pow2(t) <= |xs| && Root(h, xs + xs[|xs| - Pow2(t)..]) == Root(h, xs)
  {
    hide Root;
    OddMultiple(q, t);
    ShlIsProduct(q, t);
    RepeatedAfter(h, xs, t);
  }

  lemma {:induction false} RepeatedAfter(h: Hasher, xs: seq<Hash256>, t: nat)
    requires OddAfter(|xs|, t)
    ensures Pow2(t) <= |xs| && Root(h, xs + Tail(xs, t)) == Root(h, xs)
    decreases t
  {
    hide Root, NextLayer, Pair, Pow2;
    OddAfterBound(|xs|, t);
    if t == 0 {
      PowZero();
      RepeatedLast(h, xs);
      assert Tail(xs, 0) == [xs[|xs| - 1]];
    } else {
      var tail, next := Tail(xs, t), NextLayer(h, xs);
      RepeatedAfter(h, next, t - 1);
      NextLayerConcat(h, xs, tail);
      NextLayerTail(h, xs, t);
      RootStep(h, xs);
      RootStep(h, xs + tail);
    }
  }

  lemma HalfOfPower(t: nat)
    requires t > 0
    ensures Pow2(t) == 2 * Pow2(t - 1)
  {
  }

  lemma NextLayerConcat(h: Hasher, xs: seq<Hash256>, ys: seq<Hash256>)
    requires |xs| % 2 == 0
    ensures NextLayer(h, xs + ys) == NextLayer(h, xs) + NextLayer(h, ys)
  {
    hide NextLayer, Pair;
    var all, k := xs + ys, |xs| / 2;
    assert (|all| + 1) / 2 == k + (|ys| + 1) / 2 && |NextLayer(h, xs)| == k;
    forall i | 0 <= i < |NextLayer(h, all)|
      ensures NextLayer(h, all)[i] == (NextLayer(h, xs) + NextLayer(h, ys))[i]
    {
      if i < k {
        PairInFront(xs, ys, i);
      } else {
        PairBehind(xs, ys, k, i);
      }
    }
  }

  lemma PairInFront(xs: seq<Hash256>, ys: seq<Hash256>, i: nat)
    requires 2 * i + 1 < |xs|
    ensures Pair(xs + ys, i) == Pair(xs, i)
  {
    hide Concat;
  }

  lemma PairBehind(xs: seq<Hash256>, ys: seq<Hash256>, k: nat, i: nat)
    requires |xs| == 2 * k && k <= i && 2 * i < |xs| + |ys|
    ensures Pair(xs + ys, i) == Pair(ys, i - k)
  {
    hide Concat;
  }

  lemma NextLayerTail(h: Hasher, xs: seq<Hash256>, t: nat)
    requires t > 0 && Pow2(t) <= |xs| && |xs| % 2 == 0
    ensures Pow2(t - 1) <= |NextLayer(h, xs)| && NextLayer(h, Tail(xs, t)) == Tail(NextLayer(h, xs), t - 1)
  {
    hide NextLayer;
    HalfOfPower(t);
    var front := xs[..|xs| - Pow2(t)];
    assert xs == front + Tail(xs, t);
    NextLayerConcat(h, front, Tail(xs, t));
  }
}
