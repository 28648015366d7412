/** Double multiplication `e1*x + e2*y`: both exponents are read together from the top, and a
    table of small combinations of `x` and `y` is filled only where it can be read. */
module CascadeMultiplication {
  import opened Groups
  import opened Powers

  /** Half the number of bits of a table index: the window width for `bits`-bit exponents. */
  function PickWidth(bits: nat): (w: nat)
    ensures 1 <= w <= 3
  {
    if bits <= 46 then 1 else if bits <= 260 then 2 else 3
  }

  function TableSize(w: nat): nat {
    if w == 1 then 2 else if w == 2 then 4 else 8
  }

  /** The place of `col*x + row*y` in the table, `(row << w) + col`. */
  function Index(w: nat, col: nat, row: nat): nat {
    if w == 1 then 2 * row + col else if w == 2 then 4 * row + col else 8 * row + col
  }

  ghost predicate Entry<T(!new)>(g: Group<T>, x: T, y: T, w: nat, table: seq<T>, col: nat, row: nat) {
    && col < TableSize(w)
    && Index(w, col, row) < |table| && table[Index(w, col, row)] == Lin(g, col, x, row, y)
  }

  /** Every entry that a window can select is filled: those with an odd multiplier. */
  ghost predicate Filled<T(!new)>(g: Group<T>, x: T, y: T, w: nat, table: seq<T>) {
    forall c, r :: 0 <= c < TableSize(w) && 0 <= r < TableSize(w) && (c % 2 == 1 || r % 2 == 1)
      ==> Entry(g, x, y, w, table, c, r)
  }

  lemma Widths(bits: nat)
    ensures PickWidth(bits) >= 2 <==> bits > 46
    ensures PickWidth(bits) >= 3 <==> bits > 260
  {
  }

  /** The entry for `c` times `x` plus `r` times `y` stands at row `r` and column `c`, one of them odd. */
  lemma FilledEntry<T(!new)>(g: Group<T>, x: T, y: T, w: nat, table: seq<T>, c: nat, r: nat)
    requires 1 <= w <= 3 && Filled(g, x, y, w, table)
    ensures TableSize(w) == Pow2(w)
    ensures c < Pow2(w) && r < Pow2(w) && (c % 2 == 1 || r % 2 == 1) ==>
      && 0 <= Pow2(w) * r + c < |table|
      && table[Pow2(w) * r + c] == g.add(Mul(g, c, x), Mul(g, r, y))
  {
    hide Mul;
    assert Pow2(1) == 2 && Pow2(2) == 4 && Pow2(3) == 8;
    if c < TableSize(w) && r < TableSize(w) && (c % 2 == 1 || r % 2 == 1) {
      assert Entry(g, x, y, w, table, c, r);
    }
  }

  /** Stores a correct entry; no other entry is lost. */
  method Store<T(0,!new)>(g: Group<T>, x: T, y: T, w: nat, table: array<T>, ghost col: nat, ghost row: nat, k: nat,
      value: T)
    requires col < TableSize(w) && k == Index(w, col, row) < table.Length && value == Lin(g, col, x, row, y)
    modifies table
    ensures forall c, r :: (c == col && r == row) || Entry(g, x, y, w, old(table[..]), c, r)
              ==> Entry(g, x, y, w, table[..], c, r)
  {
    hide Lin, Add;
    table[k] := value;
  }

  /** Adding two entries gives the entry of the sums. */
  lemma AddEntries<T(!new)>(g: Group<T>, x: T, y: T, w: nat, table: seq<T>, c: nat, r: nat, c': nat, r': nat)
    requires IsAbelian(g)
    requires Entry(g, x, y, w, table, c, r) && Entry(g, x, y, w, table, c', r')
    ensures Add(g, table[Index(w, c, r)], table[Index(w, c', r')]) == Lin(g, c + c', x, r + r', y)
  {
    LinAdd(g, c, r, c', r', x, y);
  }

  lemma AddX<T(!new)>(g: Group<T>, x: T, y: T, w: nat, table: seq<T>, c: nat, r: nat)
    requires IsAbelian(g)
    requires Entry(g, x, y, w, table, c, r)
    ensures Add(g, table[Index(w, c, r)], x) == Lin(g, c + 1, x, r, y)
  {
    LinUnits(g, x, y);
    LinAdd(g, c, r, 1, 0, x, y);
  }

  lemma AddY<T(!new)>(g: Group<T>, x: T, y: T, w: nat, table: seq<T>, c: nat, r: nat)
    requires IsAbelian(g)
    requires Entry(g, x, y, w, table, c, r)
    ensures Add(g, table[Index(w, c, r)], y) == Lin(g, c, x, r + 1, y)
  {
    LinUnits(g, x, y);
    LinAdd(g, c, r, 0, 1, x, y);
  }

  /** The entries that are filled before the loops: x, y, 2x and 2y. */
  ghost predicate Seeded<T(!new)>(g: Group<T>, x: T, y: T, w: nat, table: seq<T>) {
    && Entry(g, x, y, w, table, 1, 0) && Entry(g, x, y, w, table, 0, 1)
    && Entry(g, x, y, w, table, 2, 0) && Entry(g, x, y, w, table, 0, 2)
  }

  /** Odd multiples of `x` in row 0. */
  method FillFirstRow<T(0,!new)>(g: Group<T>, x: T, y: T, w: nat, table: array<T>)
    requires IsAbelian(g) && 2 <= w <= 3 && table.Length == TableSize(w) * TableSize(w)
    requires Seeded(g, x, y, w, table[..])
    modifies table
    ensures Seeded(g, x, y, w, table[..])
    ensures forall c :: 0 <= c < TableSize(w) && c % 2 == 1 ==> Entry(g, x, y, w, table[..], c, 0)
  {
    hide Add, Lin, IsAbelian, Entry;
    var i := 3;
    while i < TableSize(w)
      invariant i % 2 == 1 && 3 <= i <= TableSize(w) + 1
      invariant Seeded(g, x, y, w, table[..])
      invariant forall c :: 0 <= c < i && c % 2 == 1 && c < TableSize(w) ==> Entry(g, x, y, w, table[..], c, 0)
    {
      AddEntries(g, x, y, w, table[..], i - 2, 0, 2, 0);
      Store(g, x, y, w, table, i, 0, i, Add(g, table[i - 2], table[2]));
      i := i + 2;
    }
  }

  /** Column `i`, from its entry in row 0 downwards. */
  method FillColumn<T(0,!new)>(g: Group<T>, x: T, y: T, w: nat, table: array<T>, i: nat)
    requires IsAbelian(g) && 2 <= w <= 3 && table.Length == TableSize(w) * TableSize(w) && i < TableSize(w)
    requires Entry(g, x, y, w, table[..], i, 0)
    modifies table
    ensures forall c, r :: Entry(g, x, y, w, old(table[..]), c, r) ==> Entry(g, x, y, w, table[..], c, r)
    ensures forall r :: 0 <= r < TableSize(w) ==> Entry(g, x, y, w, table[..], i, r)
  {
    hide Add, Lin, IsAbelian, Entry;
    var ts := TableSize(w);
    var j := i + ts;
    ghost var row := 1;
    while j < table.Length
      invariant 1 <= row <= ts && j == Index(w, i, row)
      invariant forall c, r :: Entry(g, x, y, w, old(table[..]), c, r) ==> Entry(g, x, y, w, table[..], c, r)
      invariant forall r :: 0 <= r < row ==> Entry(g, x, y, w, table[..], i, r)
    {
      AddY(g, x, y, w, table[..], i, row - 1);
      Store(g, x, y, w, table, i, row, j, Add(g, table[j - ts], y));
      j := j + ts;
      row := row + 1;
    }
  }

  /** Every odd column. */
  method FillOddColumns<T(0,!new)>(g: Group<T>, x: T, y: T, w: nat, table: array<T>)
    requires IsAbelian(g) && 2 <= w <= 3 && table.Length == TableSize(w) * TableSize(w)
    requires Seeded(g, x, y, w, table[..])
    requires forall c :: 0 <= c < TableSize(w) && c % 2 == 1 ==> Entry(g, x, y, w, table[..], c, 0)
    modifies table
    ensures Seeded(g, x, y, w, table[..])
    ensures forall c, r :: 0 <= c < TableSize(w) && c % 2 == 1 && 0 <= r < TableSize(w) ==>
      Entry(g, x, y, w, table[..], c, r)
  {
    hide Add, Lin, IsAbelian, Entry, Index;
    var ts := TableSize(w);
    var i := 1;
    while i < ts
      invariant i % 2 == 1 && 1 <= i <= ts + 1
      invariant Seeded(g, x, y, w, table[..])
      invariant forall c, r :: 0 <= c < ts && c % 2 == 1 && 0 <= r < ts && (c < i || r == 0) ==>
        Entry(g, x, y, w, table[..], c, r)
    {
      FillColumn(g, x, y, w, table, i);
      i := i + 2;
    }
  }

  /** Odd multiples of `y` in column 0. */
  method FillFirstColumn<T(0,!new)>(g: Group<T>, x: T, y: T, w: nat, table: array<T>)
    requires IsAbelian(g) && 2 <= w <= 3 && table.Length == TableSize(w) * TableSize(w)
    requires Seeded(g, x, y, w, table[..])
    modifies table
    ensures forall c, r :: Entry(g, x, y, w, old(table[..]), c, r) ==> Entry(g, x, y, w, table[..], c, r)
    ensures forall r :: 0 <= r < TableSize(w) && r % 2 == 1 ==> Entry(g, x, y, w, table[..], 0, r)
  {
    hide Add, Lin, IsAbelian, Entry;
    var ts := TableSize(w);
    var i := 3 * ts;
    ghost var row := 3;
    while i < table.Length
      invariant 3 <= row <= ts + 1 && row % 2 == 1 && i == Index(w, 0, row)
      invariant Seeded(g, x, y, w, table[..])
      invariant forall c, r :: Entry(g, x, y, w, old(table[..]), c, r) ==> Entry(g, x, y, w, table[..], c, r)
      invariant forall r :: 0 <= r < row && r < ts && r % 2 == 1 ==> Entry(g, x, y, w, table[..], 0, r)
    {
      AddEntries(g, x, y, w, table[..], 0, row - 2, 0, 2);
      Store(g, x, y, w, table, 0, row, i, Add(g, table[i - 2 * ts], table[2 * ts]));
      i := i + 2 * ts;
      row := row + 2;
    }
  }

  /** The even columns of row `row`, whose odd columns are filled. */
  method FillRow<T(0,!new)>(g: Group<T>, x: T, y: T, w: nat, table: array<T>, i: nat, ghost row: nat)
    requires IsAbelian(g) && 2 <= w <= 3 && table.Length == TableSize(w) * TableSize(w)
    requires row < TableSize(w) && i == Index(w, 0, row) && Entry(g, x, y, w, table[..], 0, row)
    requires forall c :: 0 <= c < TableSize(w) && c % 2 == 1 ==> Entry(g, x, y, w, table[..], c, row)
    modifies table
    ensures forall c, r :: Entry(g, x, y, w, old(table[..]), c, r) ==> Entry(g, x, y, w, table[..], c, r)
    ensures forall c :: 0 <= c < TableSize(w) ==> Entry(g, x, y, w, table[..], c, row)
  {
    hide Add, Lin, IsAbelian, Entry;
    var ts := TableSize(w);
    var j := i + 2;
    ghost var col := 2;
    while j < i + ts
      invariant 2 <= col <= ts && col % 2 == 0 && j == i + col
      invariant forall c, r :: Entry(g, x, y, w, old(table[..]), c, r) ==> Entry(g, x, y, w, table[..], c, r)
      invariant forall c :: 0 <= c < ts && (c % 2 == 1 || c < col) ==> Entry(g, x, y, w, table[..], c, row)
    {
      AddX(g, x, y, w, table[..], col - 1, row);
      Store(g, x, y, w, table, col, row, j, Add(g, table[j - 1], x));
      j := j + 2;
      col := col + 2;
    }
  }

  /** Every odd row. */
  method FillOddRows<T(0,!new)>(g: Group<T>, x: T, y: T, w: nat, table: array<T>)
    requires IsAbelian(g) && 2 <= w <= 3 && table.Length == TableSize(w) * TableSize(w)
    requires forall c, r :: 0 <= c < TableSize(w) && 0 <= r < TableSize(w) && (c % 2 == 1 || (c == 0 && r % 2 == 1))
              ==> Entry(g, x, y, w, table[..], c, r)
    modifies table
    ensures Filled(g, x, y, w, table[..])
  {
    hide Add, Lin, IsAbelian, Entry;
    var ts := TableSize(w);
    var i := ts;
    ghost var row := 1;
    while i < table.Length
      invariant 1 <= row <= ts + 1 && row % 2 == 1 && i == Index(w, 0, row)
      invariant forall c, r :: 0 <= c < ts && 0 <= r < ts && (c % 2 == 1 || (r % 2 == 1 && (c == 0 || r < row)))
                  ==> Entry(g, x, y, w, table[..], c, r)
    {
      FillRow(g, x, y, w, table, i, row);
      i := i + 2 * ts;
      row := row + 2;
    }
  }

  /** The whole table, filled column by column and row by row. */
  method FillTable<T(0,!new)>(g: Group<T>, x: T, y: T, w: nat) returns (table: array<T>)
    requires IsAbelian(g) && 1 <= w <= 3
    ensures fresh(table) && table.Length == TableSize(w) * TableSize(w)
    ensures Filled(g, x, y, w, table[..])
  {
    hide Add, Lin, IsAbelian;
    var ts := TableSize(w);
    table := new T[ts * ts];
    LinUnits(g, x, y);
    table[1] := x;
    table[ts] := y;
    if w == 1 {
      AddEntries(g, x, y, w, table[..], 1, 0, 0, 1);
      table[3] := Add(g, x, y);
    } else {
      LinAdd(g, 1, 0, 1, 0, x, y);
      LinAdd(g, 0, 1, 0, 1, x, y);
      table[2] := Add(g, x, x);
      table[2 * ts] := Add(g, y, y);
      FillFirstRow(g, x, y, w, table);
      FillOddColumns(g, x, y, w, table);
      FillFirstColumn(g, x, y, w, table);
      FillOddRows(g, x, y, w, table);
    }
  }

  /** Doubles `n` times. */
  method DoubleTimes<T(0,!new)>(g: Group<T>, start: T, n: nat, x: T, y: T, ghost a: int, ghost b: int)
    returns (result: T)
    requires IsAbelian(g)
    requires start == Lin(g, a, x, b, y)
    ensures result == Lin(g, Shl(a, n), x, Shl(b, n), y)
  {
    hide IsAbelian, Add, Lin;
    result := start;
    var left := n;
    ghost var done := 0;
    while left > 0
      invariant done + left == n
      invariant result == Lin(g, Shl(a, done), x, Shl(b, done), y)
    {
      LinAdd(g, Shl(a, done), Shl(b, done), Shl(a, done), Shl(b, done), x, y);
      result := Add(g, result, result);
      left := left - 1;
      done := done + 1;
      assert Shl(a, done) == 2 * Shl(a, done - 1) && Shl(b, done) == 2 * Shl(b, done - 1);
    }
  }

  /** A window whose multipliers are all below 2^d is shifted by fewer than `d` positions. */
  lemma {:induction false} ShiftBelow(m: nat, k: nat, d: nat)
    requires m > 0
    requires Shl(m, k) < Pow2(d)
    ensures k < d
  {
    if k > 0 {
      if d == 0 {
        ShlMonotone(1, m, k);
        ShlOne(k);
        assert false;
      }
      ShiftBelow(m, k - 1, d - 1);
    } else if d == 0 {
      assert false;
    }
  }

  /** Divides both multipliers by two while both are even; `squaresBefore` never underflows. */
  method HalveTogether(p1: nat, p2: nat, squares: nat, ghost d: nat)
    returns (power1: nat, power2: nat, squaresBefore: nat, squaresAfter: nat)
    requires p1 < Pow2(d) && p2 < Pow2(d) && d <= squares + 1
    ensures Shl(power1, squaresAfter) == p1 && Shl(power2, squaresAfter) == p2
    ensures squaresBefore + squaresAfter == squares
    ensures power1 <= p1 && power2 <= p2
    ensures if p1 == 0 && p2 == 0 then power1 == power2 == 0 else power1 % 2 == 1 || power2 % 2 == 1
  {
    power1, power2, squaresBefore, squaresAfter := p1, p2, squares, 0;
    while (power1 > 0 || power2 > 0) && power1 % 2 == 0 && power2 % 2 == 0
      invariant Shl(power1, squaresAfter) == p1 && Shl(power2, squaresAfter) == p2
      invariant squaresBefore + squaresAfter == squares
      invariant power1 <= p1 && power2 <= p2
      invariant p1 == 0 && p2 == 0 <==> power1 == power2 == 0
      decreases power1 + power2
    {
      var q1, q2 := power1 / 2, power2 / 2;
      ShlShl(q1, 1, squaresAfter);
      ShlShl(q2, 1, squaresAfter);
      assert Shl(q1, 1) == 2 * Shl(q1, 0) && Shl(q2, 1) == 2 * Shl(q2, 0);
      if q1 > 0 {
        ShiftBelow(q1, squaresAfter + 1, d);
      } else {
        ShiftBelow(q2, squaresAfter + 1, d);
      }
      power1, power2 := q1, q2;
      squaresBefore, squaresAfter := squaresBefore - 1, squaresAfter + 1;
    }
  }

  /** Between two windows: the bits of `e` above position `n` that are not yet in the result are
      exactly the multiplier `power`; the result stands for the bits above `prev`. */
  ghost predicate Collected(e: nat, n: nat, prev: nat, power: nat, firstTime: bool) {
    if firstTime then Shr(e, n) == power && n <= prev + 1 && power < Pow2(prev + 1 - n)
    else n <= prev && Shr(e, n) == Shl(Shr(e, prev), prev - n) + power && power < Pow2(prev - n)
  }

  lemma CollectBit(e: nat, n: nat, prev: nat, power: nat, firstTime: bool)
    requires n > 0
    requires Collected(e, n, prev, power, firstTime)
    ensures Collected(e, n - 1, prev, 2 * power + if GetBit(e, n - 1) then 1 else 0, firstTime)
  {
    ShrSucc(e, n - 1);
    if !firstTime {
      assert Shl(Shr(e, prev), prev - n + 1) == 2 * Shl(Shr(e, prev), prev - n);
    }
  }

  lemma Reset(e: nat, n: nat)
    ensures Collected(e, n, n, 0, false)
  {
    assert Shl(Shr(e, n), 0) == Shr(e, n);
  }

  /** The bits above `n` after a window: those already there, shifted, plus the window. */
  lemma WindowAdds(e: nat, n: nat, prev: nat, power: nat, firstTime: bool, odd: nat, before: nat, after: nat)
    requires Collected(e, n, prev, power, firstTime)
    requires n <= prev && before + after == prev - n && Shl(odd, after) == power
    ensures Shl(odd + if firstTime then 0 else Shl(Shr(e, prev), before), after) == Shr(e, n)
  {
    if !firstTime {
      ShlAdd(odd, Shl(Shr(e, prev), before), after);
      ShlShl(Shr(e, prev), before, after);
    }
  }

  /** One window: the squarings before it, the table entry, and the squarings after it. */
  method ApplyWindow<T(0,!new)>(g: Group<T>, x: T, y: T, w: nat, table: array<T>, start: T, firstTime: bool,
                                p1: nat, p2: nat, prevPosition: nat, i: nat, ghost e1: nat, ghost e2: nat)
    returns (result: T)
    requires IsAbelian(g) && 1 <= w <= 3 && table.Length == TableSize(w) * TableSize(w)
    requires Filled(g, x, y, w, table[..])
    requires p1 < TableSize(w) && p2 < TableSize(w) && i <= prevPosition
    requires Collected(e1, i, prevPosition, p1, firstTime) && Collected(e2, i, prevPosition, p2, firstTime)
    requires if firstTime then p1 > 0 || p2 > 0 else start == Lin(g, Shr(e1, prevPosition), x, Shr(e2, prevPosition), y)
    ensures result == Lin(g, Shr(e1, i), x, Shr(e2, i), y)
  {
    hide IsAbelian, Add, Lin, Pow2, Shr, Shl;
    ghost var a1, a2 := Shr(e1, prevPosition), Shr(e2, prevPosition);
    ghost var d := if firstTime then prevPosition + 1 - i else prevPosition - i;
    var power1, power2, squaresBefore, squaresAfter := HalveTogether(p1, p2, prevPosition - i, d);
    WindowAdds(e1, i, prevPosition, p1, firstTime, power1, squaresBefore, squaresAfter);
    WindowAdds(e2, i, prevPosition, p2, firstTime, power2, squaresBefore, squaresAfter);
    ghost var b1 := power1 + if firstTime then 0 else Shl(a1, squaresBefore);
    ghost var b2 := power2 + if firstTime then 0 else Shl(a2, squaresBefore);
    assert power1 > 0 || power2 > 0 ==> Entry(g, x, y, w, table[..], power1, power2);
    if firstTime {
      result := table[Index(w, power1, power2)];
    } else {
      result := DoubleTimes(g, start, squaresBefore, x, y, a1, a2);
      if power1 > 0 || power2 > 0 {
        LinAdd(g, Shl(a1, squaresBefore), Shl(a2, squaresBefore), power1, power2, x, y);
        result := Add(g, result, table[Index(w, power1, power2)]);
      }
    }
    assert result == Lin(g, b1, x, b2, y);
    result := DoubleTimes(g, result, squaresAfter, x, y, b1, b2);
  }

  lemma NoBits(e: nat)
    requires BitCount(e) == 0
    ensures e == 0
  {
  }

  /** The topmost bit position holds a set bit of one of the exponents, and so do all prefixes. */
  lemma {:induction false} TopIsSet(e: nat, n: nat)
    requires n < BitCount(e)
    ensures Shr(e, n) > 0
  {
    if n > 0 {
      TopIsSet(e / 2, n - 1);
    }
  }

  lemma StartCollected(e: nat, expLen: nat)
    requires BitCount(e) <= expLen && expLen > 0
    ensures Collected(e, expLen, expLen - 1, 0, true)
  {
    ShiftedOut(e, expLen);
  }

  /** Returns `e1 * x + e2 * y`. */
  method CascadeScalarMultiply<T(0,!new)>(g: Group<T>, x: T, e1: nat, y: T, e2: nat) returns (result: T)
    requires IsAbelian(g)
    ensures result == Lin(g, e1, x, e2, y)
  {
    hide IsAbelian, Add, Lin, Pow2, Shl, Collected, Filled, BitCount;
    var expLen := if BitCount(e1) < BitCount(e2) then BitCount(e2) else BitCount(e1);
    if expLen == 0 {
      NoBits(e1);
      NoBits(e2);
      LinUnits(g, x, y);
      return g.zero;
    }

    var w := PickWidth(expLen);
    var tableSize := TableSize(w);
    var powerTable := FillTable(g, x, y, w);
    var power1: nat, power2: nat, prevPosition: nat, firstTime := 0, 0, expLen - 1, true;
    result := g.zero;
    ghost var contents := powerTable[..];
    StartCollected(e1, expLen);
    StartCollected(e2, expLen);
    var i: int := expLen - 1;
    while i >= 0
      invariant -1 <= i < expLen && i <= prevPosition
      invariant powerTable[..] == contents
      invariant 2 * power1 < tableSize && 2 * power2 < tableSize
      invariant Collected(e1, i + 1, prevPosition, power1, firstTime)
      invariant Collected(e2, i + 1, prevPosition, power2, firstTime)
      invariant !firstTime ==> result == Lin(g, Shr(e1, prevPosition), x, Shr(e2, prevPosition), y)
      invariant i == -1 ==> !firstTime && prevPosition == 0
    {
      CollectBit(e1, i + 1, prevPosition, power1, firstTime);
      CollectBit(e2, i + 1, prevPosition, power2, firstTime);
      power1 := 2 * power1 + if GetBit(e1, i) then 1 else 0;
      power2 := 2 * power2 + if GetBit(e2, i) then 1 else 0;

      if i == 0 || 2 * power1 >= tableSize || 2 * power2 >= tableSize {
        if firstTime {
          SomethingCollected(e1, e2, expLen, i, prevPosition, power1, power2);
        }
        result := ApplyWindow(g, x, y, w, powerTable, result, firstTime, power1, power2, prevPosition, i, e1, e2);
        firstTime, prevPosition := false, i;
        power1, power2 := 0, 0;
        Reset(e1, i);
        Reset(e2, i);
      }
      i := i - 1;
    }
    assert Shr(e1, 0) == e1 && Shr(e2, 0) == e2;
  }

  lemma SomethingCollected(e1: nat, e2: nat, expLen: nat, i: nat, prev: nat, power1: nat, power2: nat)
    requires expLen == BitCount(e1) || expLen == BitCount(e2)
    requires i < expLen
    requires Collected(e1, i, prev, power1, true) && Collected(e2, i, prev, power2, true)
    ensures power1 > 0 || power2 > 0
  {
    TopIsSet(if expLen == BitCount(e1) then e1 else e2, i);
  }
}
