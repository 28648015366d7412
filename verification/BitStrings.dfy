/** Numbers as strings of bits, most significant first; grouping bits into numbers and back. */
module BitStrings {
  import opened Divisibility
  import opened Powers
  import opened BitWords

  type bits = seq<bool>

  function NoBits(n: nat): (r: bits)
    ensures |r| == n && forall i :: 0 <= i < n ==> !r[i]
  {
    seq(n, _ => false)
  }

  /** The low `w` bits of `n`. */
  function BitsOf(n: nat, w: nat): (r: bits)
    ensures |r| == w
  {
    if w == 0 then [] else BitsOf(n / 2, w - 1) + [n % 2 == 1]
  }

  /** Bit `i` from the front is bit `w - 1 - i` of the number. */
  lemma {:induction false} BitAt(n: nat, w: nat, i: nat)
    requires i < w
    ensures BitsOf(n, w)[i] <==> GetBit(n, w - 1 - i)
  {
    hide GetBit;
    BitStep(n, w - 1 - i);
    if i < w - 1 {
      BitAt(n / 2, w - 1, i);
    }
  }

  function ValueOf(b: bits): nat {
    if b == [] then 0 else 2 * ValueOf(b[..|b| - 1]) + if b[|b| - 1] then 1 else 0
  }

  lemma {:induction false} ValueOfBits(n: nat, w: nat)
    requires n < Pow2(w)
    ensures ValueOf(BitsOf(n, w)) == n
  {
    if w > 0 {
      ValueOfBits(n / 2, w - 1);
      assert BitsOf(n, w)[..w - 1] == BitsOf(n / 2, w - 1);
    }
  }

  lemma {:induction false} BitsOfValue(b: bits)
    ensures ValueOf(b) < Pow2(|b|) && BitsOf(ValueOf(b), |b|) == b
  {
    if b != [] {
      BitsOfValue(b[..|b| - 1]);
      var front := ValueOf(b[..|b| - 1]);
      assert ValueOf(b) / 2 == front;
      assert b == b[..|b| - 1] + [b[|b| - 1]];
    }
  }

  /** A number and its continuation, side by side. */
  lemma {:induction false} BitsSideBySide(u: nat, x: nat, j: nat, t: nat)
    requires x < Pow2(t)
    ensures Shl(u, t) >= 0 && BitsOf(Shl(u, t) + x, j + t) == BitsOf(u, j) + BitsOf(x, t)
  {
    ShlNat(u, t);
    if t > 0 {
      BitsSideBySide(u, x / 2, j, t - 1);
      assert (Shl(u, t) + x) / 2 == Shl(u, t - 1) + x / 2 && (Shl(u, t) + x) % 2 == x % 2;
      assert BitsOf(u, j) + BitsOf(x, t) == BitsOf(u, j) + BitsOf(x / 2, t - 1) + [x % 2 == 1];
    } else {
      assert BitsOf(u, j) + [] == BitsOf(u, j);
    }
  }

  /** The high bits and the low bits of a number. */
  lemma BitsSplit(n: nat, j: nat, t: nat)
    ensures BitsOf(n, j + t) == BitsOf(Shr(n, t), j) + BitsOf(Low(n, t), t)
    ensures BitsOf(Low(n, t), t) == BitsOf(n, t)
  {
    hide BitsOf, Shr, Low, Shl, Pow2;
    ShrLow(n, t);
    BitsSideBySide(Shr(n, t), Low(n, t), j, t);
    BitsSideBySide(Shr(n, t), Low(n, t), 0, t);
    EmptyBits(Shr(n, t));
  }

  lemma EmptyBits(n: nat)
    ensures BitsOf(n, 0) == [] && forall b: bits :: [] + b == b
  {
  }

  lemma {:induction false} ZeroBits(w: nat)
    ensures BitsOf(0, w) == NoBits(w)
  {
    if w > 0 {
      ZeroBits(w - 1);
    }
  }

  /** Numbers of `w` bits each, one behind the other. */
  function Joined(values: seq<nat>, w: nat): bits {
    if values == [] then [] else BitsOf(values[0], w) + Joined(values[1..], w)
  }

  lemma {:induction false} JoinedConcat(x: seq<nat>, y: seq<nat>, w: nat)
    ensures Joined(x + y, w) == Joined(x, w) + Joined(y, w)
  {
    if x == [] {
      assert x + y == y;
    } else {
      assert (x + y)[1..] == x[1..] + y;
      JoinedConcat(x[1..], y, w);
    }
  }

  lemma JoinedOne(v: nat, w: nat)
    ensures Joined([v], w) == BitsOf(v, w)
  {
    assert [v][1..] == [];
  }

  /** The value at one place, and everything around it. */
  lemma JoinedAround(values: seq<nat>, w: nat, k: nat)
    requires k < |values|
    ensures Joined(values, w) == Joined(values[..k], w) + BitsOf(values[k], w) + Joined(values[k + 1..], w)
  {
    hide Joined;
    assert values == values[..k] + [values[k]] + values[k + 1..];
    JoinedConcat(values[..k] + [values[k]], values[k + 1..], w);
    JoinedConcat(values[..k], [values[k]], w);
    JoinedOne(values[k], w);
  }

  /** Bit `i` of the `k`-th number. */
  lemma BitOfJoined(values: seq<nat>, w: nat, k: nat, i: nat)
    requires k < |values| && i < w
    ensures 0 <= w * k + i < |Joined(values, w)| == w * |values|
    ensures Joined(values, w)[w * k + i] <==> GetBit(values[k], w - 1 - i)
  {
    hide Joined, BitsOf, GetBit;
    JoinedAround(values, w, k);
    JoinedLength(values[..k], w);
    JoinedLength(values, w);
    BitAt(values[k], w, i);
  }

  lemma {:induction false} JoinedZeros(values: seq<nat>, w: nat)
    requires forall i :: 0 <= i < |values| ==> values[i] == 0
    ensures Joined(values, w) == NoBits(|Joined(values, w)|)
  {
    if values != [] {
      ZeroBits(w);
      JoinedZeros(values[1..], w);
    }
  }

  lemma {:induction false} JoinedLength(values: seq<nat>, w: nat)
    ensures |Joined(values, w)| == w * |values|
  {
    if values != [] {
      JoinedLength(values[1..], w);
      Distribute(w, |values| - 1, 1);
    }
  }

  /** The numbers that the whole groups of `w` bits denote; an incomplete group is dropped. */
  function Groups(b: bits, w: nat): seq<nat>
    requires w > 0
    decreases |b|
  {
    if |b| < w then [] else [ValueOf(b[..w])] + Groups(b[w..], w)
  }

  /** Grouping recovers the numbers, whatever incomplete group follows. */
  lemma {:induction false} GroupsOfJoined(values: seq<nat>, w: nat, rest: bits)
    requires 0 < w && |rest| < w && forall i :: 0 <= i < |values| ==> values[i] < Pow2(w)
    ensures Groups(Joined(values, w) + rest, w) == values
  {
    hide Pow2, BitsOf, ValueOf, Groups;
    if values == [] {
      assert Joined(values, w) + rest == rest;
      TooFewBits(rest, w);
    } else {
      var all := Joined(values, w) + rest;
      assert all[..w] == BitsOf(values[0], w) && all[w..] == Joined(values[1..], w) + rest;
      ValueOfBits(values[0], w);
      GroupsOfJoined(values[1..], w, rest);
      FirstGroup(all, w);
      assert [values[0]] + values[1..] == values;
    }
  }

  lemma TooFewBits(b: bits, w: nat)
    requires |b| < w
    ensures Groups(b, w) == []
  {
  }

  lemma FirstGroup(b: bits, w: nat)
    requires 0 < w <= |b|
    ensures Groups(b, w) == [ValueOf(b[..w])] + Groups(b[w..], w)
  {
  }

  /** Joining the groups gives the bits back if there is no incomplete group. */
  lemma {:induction false} JoinedGroups(b: bits, w: nat)
    requires w > 0 && |b| % w == 0
    ensures Joined(Groups(b, w), w) == b
    ensures forall i :: 0 <= i < |Groups(b, w)| ==> Groups(b, w)[i] < Pow2(w)
    decreases |b|
  {
    if b != [] {
      StepBack(|b|, w);
      JoinedGroups(b[w..], w);
      BitsOfValue(b[..w]);
      assert Groups(b, w)[1..] == Groups(b[w..], w);
    }
  }

  lemma {:induction false} GroupsConcat(x: bits, y: bits, w: nat)
    requires w > 0 && |x| % w == 0
    ensures Groups(x + y, w) == Groups(x, w) + Groups(y, w)
    decreases |x|
  {
    if x == [] {
      assert x + y == y;
    } else {
      StepBack(|x|, w);
      assert (x + y)[..w] == x[..w] && (x + y)[w..] == x[w..] + y;
      GroupsConcat(x[w..], y, w);
    }
  }

  /** Writing `len` bits at position `p` of a `width`-bit field whose bits from `p` on are still clear. */
  lemma WriteBits(u: nat, width: nat, p: nat, x: nat, len: nat)
    requires p + len <= width <= 8 && u < Pow2(width) && x < Pow2(len)
    requires BitsOf(u, width)[p..] == NoBits(width - p)
    ensures Shl(x, width - p - len) >= 0
    ensures var v := Or(u, Shl(x, width - p - len), 8);
      v < Pow2(width) && BitsOf(v, width) == BitsOf(u, width)[..p] + BitsOf(x, len) + NoBits(width - p - len)
  {
    hide BitsOf, Shl, Shr, Low, Pow2, Or, NoBits;
    var rest, shift := width - p, width - p - len;
    ClearLow(u, p, rest);
    var top, y := Shr(u, rest), Shl(x, shift);
    ShrLow(u, rest);
    ShlNat(x, shift);
    ShiftedBound(x, len, shift);
    Pow2Monotone(width, 8);
    OrDisjoint(top, y, rest, 8);
    BitsSideBySide(top, y, p, rest);
    BitsSideBySide(x, 0, len, shift);
    PositivePower(shift);
    ZeroBits(shift);
    BitsSplit(u, p, rest);
    assert BitsOf(u, width)[..p] == BitsOf(top, p);
    TopBound(u, p, rest);
    BothBounded(top, y, p, rest);
  }

  lemma PositivePower(k: nat)
    ensures Pow2(k) >= 1
  {
  }

  /** A number whose low bits are clear. */
  lemma ClearLow(u: nat, p: nat, rest: nat)
    requires BitsOf(u, p + rest)[p..] == NoBits(rest)
    ensures Low(u, rest) == 0
  {
    hide BitsOf, Shr, Low, Pow2, NoBits;
    BitsSplit(u, p, rest);
    assert BitsOf(Low(u, rest), rest) == BitsOf(u, p + rest)[p..];
    ZeroBits(rest);
    ShrLow(u, rest);
    PositivePower(rest);
    ValueOfBits(Low(u, rest), rest);
    ValueOfBits(0, rest);
  }

  lemma ShiftedBound(x: nat, len: nat, shift: nat)
    requires x < Pow2(len)
    ensures Shl(x, shift) < Pow2(len + shift)
  {
    hide Shl, Pow2;
    ShlMonotone(x, Pow2(len), shift);
    ShlOne(len);
    ShlShl(1, len, shift);
    ShlOne(len + shift);
  }

  lemma TopBound(u: nat, p: nat, rest: nat)
    requires u < Pow2(p + rest)
    ensures Shr(u, rest) < Pow2(p)
  {
    hide Shl, Pow2, Shr, Low;
    ShrLow(u, rest);
    ShlOne(p);
    ShlShl(1, p, rest);
    ShlOne(p + rest);
    if Shr(u, rest) >= Pow2(p) {
      ShlMonotone(Pow2(p), Shr(u, rest), rest);
    }
  }

  lemma BothBounded(top: nat, y: nat, p: nat, rest: nat)
    requires top < Pow2(p) && y < Pow2(rest)
    ensures Shl(top, rest) + y < Pow2(p + rest)
  {
    hide Shl, Pow2;
    ShlMonotone(top + 1, Pow2(p), rest);
    ShlAdd(top, 1, rest);
    ShlOne(rest);
    ShlOne(p);
    ShlShl(1, p, rest);
    ShlOne(p + rest);
  }
}
