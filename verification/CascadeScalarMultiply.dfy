/** Two bases, two exponents: `AbstractGroup::CascadeScalarMultiply` scans both exponents from the top in
    common windows and looks the joint digit up in a table of small combinations. */
module CascadeScalarMultiplication {
  import opened Bits
  import opened Groups
  import opened SimultaneousMultiplication

  /** i * x + j * y */
  ghost function Combo<T(!new)>(g: Group<T>, x: T, y: T, i: int, j: int): (r: T)
    requires Abelian(g) && g.ok(x) && g.ok(y)
    ensures g.ok(r)
  {
    Add(g, Mul(g, i, x), Mul(g, j, y))
  }

  lemma ComboAdd<T(!new)>(g: Group<T>, x: T, y: T, i: int, j: int, k: int, l: int)
    requires Abelian(g) && g.ok(x) && g.ok(y)
    ensures Add(g, Combo(g, x, y, i, j), Combo(g, x, y, k, l)) == Combo(g, x, y, i + k, j + l)
  {
    hide Abelian, Mul, Add;
    MulAdd(g, i, k, x);
    MulAdd(g, j, l, y);
    Exchange(g, Mul(g, i, x), Mul(g, j, y), Mul(g, k, x), Mul(g, l, y));
  }

  lemma ComboBases<T(!new)>(g: Group<T>, x: T, y: T)
    requires Abelian(g) && g.ok(x) && g.ok(y)
    ensures Combo(g, x, y, 1, 0) == x && Combo(g, x, y, 0, 1) == y && Combo(g, x, y, 0, 0) == g.zero
  {
    MulOne(g, x);
    MulOne(g, y);
    Unit(g, x);
    Unit(g, y);
    Unit(g, g.zero);
  }

  lemma ComboShl<T(!new)>(g: Group<T>, x: T, y: T, i: int, j: int, n: nat)
    requires Abelian(g) && g.ok(x) && g.ok(y)
    ensures Mul(g, Pow2(n), Combo(g, x, y, i, j)) == Combo(g, x, y, Shl(i, n), Shl(j, n))
  {
    hide Abelian, Mul, Add, Shl, Pow2;
    var p := Pow2(n);
    MulDistributes(g, p, Mul(g, i, x), Mul(g, j, y));
    MulMul(g, p, i, x);
    MulMul(g, p, j, y);
    ShlIsTimesPow2(i, n);
    ShlIsTimesPow2(j, n);
    TimesCommutes(p, i);
    TimesCommutes(p, j);
  }

  lemma TimesCommutes(a: int, b: int)
    ensures a * b == b * a
  {}

  // The table ------------------------------------------------------------------------------------------

  /** The place of i * x + j * y: `(j << w) + i`. */
  function Slot(w: nat, i: nat, j: nat): nat {
    Shl(j, w) + i
  }

  lemma SlotNext(w: nat, i: nat, j: nat)
    ensures Slot(w, i, j + 1) == Slot(w, i, j) + Pow2(w)
  {
    ShlAdd(j, 1, w);
  }

  lemma SlotInjective(w: nat, i: nat, j: nat, k: nat, l: nat)
    requires i < Pow2(w) && k < Pow2(w) && Slot(w, i, j) == Slot(w, k, l)
    ensures i == k && j == l
  {
    ShrUnique(Slot(w, i, j), w, j, i);
    ShrUnique(Slot(w, k, l), w, l, k);
  }

  lemma SlotBound(w: nat, i: nat, j: nat)
    requires i < Pow2(w) && j < Pow2(w)
    ensures Slot(w, i, j) < Shl(Pow2(w), w)
  {
    ShlMonotone(j, Pow2(w), w);
  }

  /** The filled slots hold what their place says; nothing is assumed about the others. */
  ghost predicate Holds<T(!new)>(g: Group<T>, x: T, y: T, w: nat, table: seq<T>, filled: set<(nat, nat)>)
    requires Abelian(g) && g.ok(x) && g.ok(y)
  {
    && |table| == Shl(Pow2(w), w)
    && forall i: nat, j: nat :: (i, j) in filled ==>
                        i < Pow2(w) && j < Pow2(w) && Slot(w, i, j) < |table|
                        && table[Slot(w, i, j)] == Combo(g, x, y, i, j)
  }

  lemma Fill<T(!new)>(g: Group<T>, x: T, y: T, w: nat, table: seq<T>, filled: set<(nat, nat)>, i: nat, j: nat)
    requires Abelian(g) && g.ok(x) && g.ok(y) && Holds(g, x, y, w, table, filled)
    requires i < Pow2(w) && j < Pow2(w)
    ensures Slot(w, i, j) < |table|
    ensures Holds(g, x, y, w, table[Slot(w, i, j) := Combo(g, x, y, i, j)], filled + {(i, j)})
  {
    hide Abelian, Combo, Slot, Shl, Pow2;
    SlotBound(w, i, j);
    forall k, l | (k, l) in filled && Slot(w, k, l) == Slot(w, i, j) ensures (k, l) == (i, j) {
      SlotInjective(w, i, j, k, l);
    }
  }

  /** A sum of two filled slots fills a third. */
  method SetSum<T(!new)>(g: Group<T>, x: T, y: T, w: nat, table: seq<T>, ghost filled: set<(nat, nat)>,
                         at: nat, left: nat, right: nat,
                         ghost i: nat, ghost j: nat, ghost k: nat, ghost l: nat)
    returns (table': seq<T>)
    requires Abelian(g) && g.ok(x) && g.ok(y) && Holds(g, x, y, w, table, filled)
    requires (i, j) in filled && (k, l) in filled && i + k < Pow2(w) && j + l < Pow2(w)
    requires left == Slot(w, i, j) && right == Slot(w, k, l) && at == Slot(w, i + k, j + l)
    ensures Holds(g, x, y, w, table', filled + {(i + k, j + l)})
  {
    hide Abelian, Combo, Slot, Shl, Pow2, Add;
    Fill(g, x, y, w, table, filled, i + k, j + l);
    ComboAdd(g, x, y, i, j, k, l);
    table' := table[at := Add(g, table[left], table[right])];
  }

  lemma Corners(w: nat)
    requires 1 <= w
    ensures Slot(w, 1, 0) == 1 && Slot(w, 0, 1) == Pow2(w) && Slot(w, 2, 0) == 2 && Slot(w, 0, 2) == 2 * Pow2(w)
    ensures Pow2(w) >= 2 && (w >= 2 ==> Pow2(w) >= 4)
    ensures w == 1 ==> Pow2(w) == 2 && Slot(w, 1, 1) == 3
  {
    ShlZero(w);
    ShlAdd(1, 1, w);
    Pow2Monotone(1, w);
    if w >= 2 { Pow2Monotone(2, w); }
  }

  /** The two bases in their places. */
  method StartTable<T(!new)>(g: Group<T>, x: T, y: T, w: nat, blank: T) returns (table: seq<T>)
    requires Abelian(g) && g.ok(x) && g.ok(y) && w >= 1
    ensures Holds(g, x, y, w, table, {(1, 0), (0, 1)})
  {
    hide Abelian, Combo, Slot, Shl, Pow2;
    Corners(w);
    ComboBases(g, x, y);
    var tableSize := Pow2(w);
    table := seq(Shl(tableSize, w), _ => blank);
    Fill(g, x, y, w, table, {}, 1, 0);
    table := table[1 := x];
    Fill(g, x, y, w, table, {(1, 0)}, 0, 1);
    assert {(1, 0)} + {(0, 1)} == {(1, 0), (0, 1)};
    table := table[tableSize := y];
  }

  /** Every pair of digits that are not both even is filled. */
  ghost predicate Complete(w: nat, filled: set<(nat, nat)>) {
    forall i: nat, j: nat :: i < Pow2(w) && j < Pow2(w) && (Odd(i) || Odd(j)) ==> (i, j) in filled
  }

  /** The first columns of odd i are filled in row 0. */
  ghost predicate OddRow0(filled: set<(nat, nat)>, n: nat) {
    forall i: nat :: i < n && Odd(i) ==> (i, 0) in filled
  }

  ghost predicate OddColumns(w: nat, filled: set<(nat, nat)>, n: nat) {
    forall i: nat, j: nat :: i < n && j < Pow2(w) && Odd(i) ==> (i, j) in filled
  }

  ghost predicate OddColumn0(filled: set<(nat, nat)>, n: nat) {
    forall j: nat :: j < n && Odd(j) ==> (0, j) in filled
  }

  ghost predicate OddRows(w: nat, filled: set<(nat, nat)>, n: nat) {
    forall i: nat, j: nat :: i < Pow2(w) && j < n && Odd(j) ==> (i, j) in filled
  }

  /** x, 3x, 5x, ... in row 0. */
  method FillRow0<T(!new)>(g: Group<T>, x: T, y: T, w: nat, table0: seq<T>, ghost filled0: set<(nat, nat)>)
    returns (table: seq<T>, ghost filled: set<(nat, nat)>)
    requires Abelian(g) && g.ok(x) && g.ok(y) && w >= 2 && Holds(g, x, y, w, table0, filled0)
    requires (1, 0) in filled0 && (2, 0) in filled0
    ensures Holds(g, x, y, w, table, filled) && filled0 <= filled && OddRow0(filled, Pow2(w))
  {
    hide Abelian, Combo, Holds, Slot, Shl, Pow2;
    table, filled := table0, filled0;
    var tableSize := Pow2(w);
    Corners(w);
    var i := 3;
    while i < tableSize
      invariant 3 <= i && Odd(i)
      invariant Holds(g, x, y, w, table, filled) && filled0 <= filled && OddRow0(filled, i)
    {
      SlotRow0(w, i);
      SlotRow0(w, i - 2);
      table := SetSum(g, x, y, w, table, filled, i, i - 2, 2, i - 2, 0, 2, 0);
      filled := filled + {(i, 0)};
      i := i + 2;
    }
  }

  lemma SlotRow0(w: nat, i: nat)
    ensures Slot(w, i, 0) == i
  {
    ShlZero(w);
  }

  /** In each odd column, add y row by row. */
  method FillColumns<T(!new)>(g: Group<T>, x: T, y: T, w: nat, table0: seq<T>, ghost filled0: set<(nat, nat)>)
    returns (table: seq<T>, ghost filled: set<(nat, nat)>)
    requires Abelian(g) && g.ok(x) && g.ok(y) && w >= 2 && Holds(g, x, y, w, table0, filled0)
    requires (0, 1) in filled0 && OddRow0(filled0, Pow2(w))
    ensures Holds(g, x, y, w, table, filled) && filled0 <= filled && OddColumns(w, filled, Pow2(w))
  {
    hide Abelian, Combo, Holds, Slot, Shl, Pow2;
    table, filled := table0, filled0;
    var tableSize := Pow2(w);
    Corners(w);
    var i := 1;
    while i < tableSize
      invariant 1 <= i && Odd(i)
      invariant Holds(g, x, y, w, table, filled) && filled0 <= filled && OddColumns(w, filled, i)
    {
      table, filled := FillColumn(g, x, y, w, table, filled, i);
      i := i + 2;
    }
  }

  method FillColumn<T(!new)>(g: Group<T>, x: T, y: T, w: nat, table0: seq<T>, ghost filled0: set<(nat, nat)>, i: nat)
    returns (table: seq<T>, ghost filled: set<(nat, nat)>)
    requires Abelian(g) && g.ok(x) && g.ok(y) && w >= 2 && Holds(g, x, y, w, table0, filled0)
    requires (0, 1) in filled0 && (i, 0) in filled0 && i < Pow2(w)
    ensures Holds(g, x, y, w, table, filled) && filled0 <= filled
    ensures forall r: nat :: r < Pow2(w) ==> (i, r) in filled
  {
    hide Abelian, Combo, Holds, Slot, Shl, Pow2;
    table, filled := table0, filled0;
    var tableSize := Pow2(w);
    Corners(w);
    SlotNext(w, i, 0);
    SlotRow0(w, i);
    SlotLimit(w, i, 1);
    var j := i + tableSize;
    ghost var row := 1;
    while j < Shl(tableSize, w)
      invariant 1 <= row <= tableSize && j == Slot(w, i, row) && (j < Shl(tableSize, w) <==> row < tableSize)
      invariant Holds(g, x, y, w, table, filled) && filled0 <= filled
      invariant forall r: nat :: r < row ==> (i, r) in filled
      decreases tableSize - row
    {
      SlotNext(w, i, row - 1);
      table := SetSum(g, x, y, w, table, filled, j, j - tableSize, tableSize, i, row - 1, 0, 1);
      filled := filled + {(i, row)};
      SlotNext(w, i, row);
      row, j := row + 1, j + tableSize;
      SlotLimit(w, i, row);
    }
  }

  lemma SlotLimit(w: nat, i: nat, j: nat)
    requires i < Pow2(w)
    ensures Slot(w, i, j) < Shl(Pow2(w), w) <==> j < Pow2(w)
  {
    if j < Pow2(w) {
      SlotBound(w, i, j);
    } else {
      ShlMonotone(Pow2(w), j, w);
    }
  }

  /** y, 3y, 5y, ... in column 0. */
  method FillColumn0<T(!new)>(g: Group<T>, x: T, y: T, w: nat, table0: seq<T>, ghost filled0: set<(nat, nat)>)
    returns (table: seq<T>, ghost filled: set<(nat, nat)>)
    requires Abelian(g) && g.ok(x) && g.ok(y) && w >= 2 && Holds(g, x, y, w, table0, filled0)
    requires (0, 1) in filled0 && (0, 2) in filled0
    ensures Holds(g, x, y, w, table, filled) && filled0 <= filled && OddColumn0(filled, Pow2(w))
  {
    hide Abelian, Combo, Holds, Slot, Shl, Pow2;
    table, filled := table0, filled0;
    var tableSize := Pow2(w);
    Corners(w);
    SlotNext(w, 0, 2);
    SlotLimit(w, 0, 3);
    var i := 3 * tableSize;
    ghost var row := 3;
    while i < Shl(tableSize, w)
      invariant 3 <= row <= tableSize + 1 && Odd(row)
      invariant i == Slot(w, 0, row) && (i < Shl(tableSize, w) <==> row < tableSize)
      invariant Holds(g, x, y, w, table, filled) && filled0 <= filled && OddColumn0(filled, row)
      decreases tableSize + 1 - row
    {
      SlotNext(w, 0, row - 2);
      SlotNext(w, 0, row - 1);
      table := SetSum(g, x, y, w, table, filled, i, i - 2 * tableSize, 2 * tableSize, 0, row - 2, 0, 2);
      filled := filled + {(0, row)};
      SlotNext(w, 0, row);
      SlotNext(w, 0, row + 1);
      row, i := row + 2, i + 2 * tableSize;
      SlotLimit(w, 0, row);
    }
  }

  /** In each odd row, the even columns follow from the odd ones by adding x. */
  method FillRows<T(!new)>(g: Group<T>, x: T, y: T, w: nat, table0: seq<T>, ghost filled0: set<(nat, nat)>)
    returns (table: seq<T>, ghost filled: set<(nat, nat)>)
    requires Abelian(g) && g.ok(x) && g.ok(y) && w >= 2 && Holds(g, x, y, w, table0, filled0)
    requires (1, 0) in filled0 && OddColumns(w, filled0, Pow2(w)) && OddColumn0(filled0, Pow2(w))
    ensures Holds(g, x, y, w, table, filled) && filled0 <= filled && OddRows(w, filled, Pow2(w))
  {
    hide Abelian, Combo, Holds, Slot, Shl, Pow2;
    table, filled := table0, filled0;
    var tableSize := Pow2(w);
    Corners(w);
    SlotLimit(w, 0, 1);
    var i := tableSize;
    ghost var row := 1;
    while i < Shl(tableSize, w)
      invariant 1 <= row <= tableSize + 1 && Odd(row)
      invariant i == Slot(w, 0, row) && (i < Shl(tableSize, w) <==> row < tableSize)
      invariant Holds(g, x, y, w, table, filled) && filled0 <= filled && OddRows(w, filled, row)
      decreases tableSize + 1 - row
    {
      table, filled := FillRow(g, x, y, w, table, filled, i, row);
      SlotNext(w, 0, row);
      SlotNext(w, 0, row + 1);
      row, i := row + 2, i + 2 * tableSize;
      SlotLimit(w, 0, row);
    }
  }

  method FillRow<T(!new)>(g: Group<T>, x: T, y: T, w: nat, table0: seq<T>, ghost filled0: set<(nat, nat)>,
                          i: nat, ghost row: nat)
    returns (table: seq<T>, ghost filled: set<(nat, nat)>)
    requires Abelian(g) && g.ok(x) && g.ok(y) && w >= 2 && Holds(g, x, y, w, table0, filled0)
    requires row < Pow2(w) && i == Slot(w, 0, row) && (1, 0) in filled0 && (0, row) in filled0
    requires OddColumns(w, filled0, Pow2(w))
    ensures Holds(g, x, y, w, table, filled) && filled0 <= filled
    ensures forall c: nat :: c < Pow2(w) ==> (c, row) in filled
  {
    hide Abelian, Combo, Holds, Slot, Shl, Pow2;
    table, filled := table0, filled0;
    var tableSize := Pow2(w);
    Corners(w);
    var j := i + 2;
    ghost var col := 2;
    while j < i + tableSize
      invariant 2 <= col && j == i + col && !Odd(col)
      invariant Holds(g, x, y, w, table, filled) && filled0 <= filled
      invariant forall c: nat :: c < col && c < tableSize ==> (c, row) in filled
    {
      SlotShift(w, col, row);
      SlotShift(w, col - 1, row);
      table := SetSum(g, x, y, w, table, filled, j, j - 1, 1, col - 1, row, 1, 0);
      filled := filled + {(col, row)};
      col, j := col + 2, j + 2;
    }
  }

  lemma SlotShift(w: nat, i: nat, j: nat)
    ensures Slot(w, i, j) == Slot(w, 0, j) + i
  {}

  /** Every slot a window can read, one with an odd coordinate, holds its combination. */
  ghost predicate Ready<T(!new)>(g: Group<T>, x: T, y: T, w: nat, table: seq<T>)
    requires Abelian(g) && g.ok(x) && g.ok(y)
  {
    forall i: nat, j: nat :: i < Pow2(w) && j < Pow2(w) && (Odd(i) || Odd(j)) ==>
                               Slot(w, i, j) < |table| && table[Slot(w, i, j)] == Combo(g, x, y, i, j)
  }

  lemma AllFilled<T(!new)>(g: Group<T>, x: T, y: T, w: nat, table: seq<T>, filled: set<(nat, nat)>)
    requires Abelian(g) && g.ok(x) && g.ok(y) && Holds(g, x, y, w, table, filled) && Complete(w, filled)
    ensures Ready(g, x, y, w, table)
  {
    hide Abelian, Combo, Slot, Shl, Pow2, Odd;
    forall i: nat, j: nat | i < Pow2(w) && j < Pow2(w) && (Odd(i) || Odd(j))
      ensures Slot(w, i, j) < |table| && table[Slot(w, i, j)] == Combo(g, x, y, i, j)
    {
      assert (i, j) in filled;
    }
  }

  /** The whole table, whatever it held before. */
  method FillTable<T(!new)>(g: Group<T>, x: T, y: T, w: nat, blank: T) returns (table: seq<T>)
    requires Abelian(g) && g.ok(x) && g.ok(y) && w >= 1
    ensures Ready(g, x, y, w, table)
  {
    hide Abelian, Combo, Holds, Slot, Shl, Pow2;
    var tableSize := Pow2(w);
    Corners(w);
    table := StartTable(g, x, y, w, blank);
    ghost var filled := {(1, 0), (0, 1)};
    if w == 1 {
      table := SetSum(g, x, y, w, table, filled, 3, 1, 2, 1, 0, 0, 1);
      filled := filled + {(1, 1)};
    } else {
      table := SetSum(g, x, y, w, table, filled, 2, 1, 1, 1, 0, 1, 0);
      filled := filled + {(2, 0)};
      table := SetSum(g, x, y, w, table, filled, 2 * tableSize, tableSize, tableSize, 0, 1, 0, 1);
      filled := filled + {(0, 2)};
      table, filled := FillRow0(g, x, y, w, table, filled);
      table, filled := FillColumns(g, x, y, w, table, filled);
      table, filled := FillColumn0(g, x, y, w, table, filled);
      assert OddColumns(w, filled, tableSize);
      table, filled := FillRows(g, x, y, w, table, filled);
      assert OddColumns(w, filled, tableSize);
    }
    AllFilled(g, x, y, w, table, filled);
  }

  // The scan -------------------------------------------------------------------------------------------

  method DoubleTimes<T(!new)>(g: Group<T>, r: T, n: nat) returns (r': T)
    requires Abelian(g) && g.ok(r)
    ensures r' == Mul(g, Pow2(n), r)
  {
    hide Abelian, Mul, Pow2;
    var k := 0;
    r' := r;
    PowZero();
    MulOne(g, r);
    while k < n
      invariant k <= n && r' == Mul(g, Pow2(k), r)
    {
      PowDoubles(k);
      MulAdd(g, Pow2(k), Pow2(k), r);
      r' := Add(g, r', r');
      k := k + 1;
    }
  }

  /** Moves common factors of two from before the lookup to after it. */
  method SplitSquares(power1: nat, power2: nat, squares: nat) returns (p1: nat, p2: nat, before: nat, after: nat)
    requires power1 < Pow2(squares + 1) && power2 < Pow2(squares + 1)
    ensures before + after == squares && power1 == Shl(p1, after) && power2 == Shl(p2, after)
    ensures p1 <= power1 && p2 <= power2
    ensures (power1, power2) != (0, 0) ==> Odd(p1) || Odd(p2)
    ensures (power1, power2) == (0, 0) ==> p1 == p2 == 0 && after == 0
  {
    hide Pow2, Shl;
    p1, p2, before, after := power1, power2, squares, 0;
    ShlNone(power1);
    ShlNone(power2);
    while (p1 > 0 || p2 > 0) && p1 % 2 == 0 && p2 % 2 == 0
      invariant before + after == squares && power1 == Shl(p1, after) && power2 == Shl(p2, after)
      invariant p1 <= power1 && p2 <= power2 && (p1 == p2 == 0 <==> power1 == power2 == 0)
      invariant power1 == power2 == 0 ==> after == 0
      decreases p1 + p2
    {
      if p1 > 0 {
        SquaresLeft(power1, p1, after, squares);
      } else {
        SquaresLeft(power2, p2, after, squares);
      }
      ShlTwice(p1 / 2, after);
      ShlTwice(p2 / 2, after);
      p1, p2, before, after := p1 / 2, p2 / 2, before - 1, after + 1;
    }
  }

  /** A window with a factor of two still in it leaves a squaring to move. */
  lemma SquaresLeft(power: nat, p: nat, after: nat, squares: nat)
    requires power < Pow2(squares + 1) && power == Shl(p, after) && p >= 2
    ensures after < squares
  {
    ShlMonotone(2, p, after);
    ShlTwice(1, after);
    if squares < after + 1 {
      Pow2Monotone(squares + 1, after + 1);
    }
  }

  /** One window: lookup between the squarings that come before it and those moved after it.
      From the combination of the bits above the window to that of the bits down to it. */
  method ApplyWindow<T(!new)>(g: Group<T>, x: T, y: T, w: nat, table: seq<T>,
                              firstTime: bool, result: T, ghost a1: nat, ghost a2: nat,
                              power1: nat, power2: nat, squares: nat)
    returns (r: T)
    requires Abelian(g) && g.ok(x) && g.ok(y) && Ready(g, x, y, w, table)
    requires power1 < Pow2(w) && power2 < Pow2(w)
    requires power1 < Pow2(squares + 1) && power2 < Pow2(squares + 1)
    requires if firstTime then a1 == a2 == 0 && (power1, power2) != (0, 0) else result == Combo(g, x, y, a1, a2)
    ensures r == Combo(g, x, y, Shl(a1, squares) + power1, Shl(a2, squares) + power2)
  {
    hide Abelian, Mul, Combo, Slot, Shl, Pow2, Add, Ready, Odd;
    var p1, p2, before, after := SplitSquares(power1, power2, squares);
    if power1 > 0 || power2 > 0 {
      Lookup(g, x, y, w, table, p1, p2);
    }
    if firstTime {
      r := table[Slot(w, p1, p2)];
      ShlZero(squares);
      ComboShl(g, x, y, p1, p2, after);
    } else {
      r := DoubleTimes(g, result, before);
      ComboShl(g, x, y, a1, a2, before);
      if p1 > 0 || p2 > 0 {
        ComboAdd(g, x, y, Shl(a1, before), Shl(a2, before), p1, p2);
        r := Add(g, r, table[Slot(w, p1, p2)]);
      }
      ComboShl(g, x, y, Shl(a1, before) + p1, Shl(a2, before) + p2, after);
      MovedSquares(a1, p1, before, after);
      MovedSquares(a2, p2, before, after);
    }
    r := DoubleTimes(g, r, after);
  }

  lemma Lookup<T(!new)>(g: Group<T>, x: T, y: T, w: nat, table: seq<T>, i: nat, j: nat)
    requires Abelian(g) && g.ok(x) && g.ok(y) && Ready(g, x, y, w, table)
    requires i < Pow2(w) && j < Pow2(w) && (Odd(i) || Odd(j))
    ensures Slot(w, i, j) < |table| && table[Slot(w, i, j)] == Combo(g, x, y, i, j)
    ensures i > 0 || j > 0
  {
    hide Abelian, Combo, Slot, Shl, Pow2;
  }

  lemma MovedSquares(a: nat, p: nat, before: nat, after: nat)
    ensures Shl(Shl(a, before) + p, after) == Shl(a, before + after) + Shl(p, after)
  {
    ShlAdd(Shl(a, before), p, after);
    ShlShl(a, before, after);
  }

  /** What the scan knows before it reads bit i - 1: the bits from `prev` up are in the result, the bits
      from i up to `prev` in the window. */
  ghost predicate Scanned(e: nat, i: nat, prev: nat, first: bool, expLen: nat, a: nat, power: nat) {
    && i <= expLen
    && (if first then prev == expLen - 1 && a == 0 && power == Shr(e, i) && power < Pow2(expLen - i)
        else i <= prev < expLen && a == Shr(e, prev) && Shr(e, i) == Shl(a, prev - i) + power
             && power < Pow2(prev - i))
  }

  lemma ScanBit(e: nat, i: nat, prev: nat, first: bool, expLen: nat, a: nat, power: nat)
    requires Scanned(e, i + 1, prev, first, expLen, a, power) && i < expLen
    ensures Scanned(e, i, prev, first, expLen, a, 2 * power + (if Bit(e, i) then 1 else 0))
  {
    var h := Shr(e, i);
    assert Shr(e, i + 1) == h / 2;
    if first {
      assert Pow2(expLen - i) == 2 * Pow2(expLen - i - 1);
    } else {
      assert Shl(a, prev - i) == 2 * Shl(a, prev - i - 1);
      assert Pow2(prev - i) == 2 * Pow2(prev - i - 1);
    }
  }

  /** The highest bit keeps every higher part of the exponent above zero. */
  lemma {:induction false} TopBit(e: nat, i: nat)
    requires i < BitCount(e)
    ensures Shr(e, i) >= 1
    decreases i
  {
    BitCountBound(e);
    if Shr(e, i) == 0 {
      ShlZero(i);
      assert e == Low(e, i);
      Pow2Monotone(i, BitCount(e) - 1);
    }
  }

  lemma ScanStart(e: nat, expLen: nat)
    requires expLen >= BitCount(e) && expLen >= 1
    ensures Scanned(e, expLen, expLen - 1, true, expLen, 0, 0)
  {
    BitCountBound(e);
    Pow2Monotone(BitCount(e), expLen);
    ShrSmall(e, expLen);
  }

  /** e1 * x + e2 * y for all exponents; `blank` is what an unfilled table slot holds. */
  method CascadeScalarMultiply<T(!new)>(g: Group<T>, x: T, e1: nat, y: T, e2: nat, blank: T) returns (result: T)
    requires Abelian(g) && g.ok(x) && g.ok(y)
    ensures result == Combo(g, x, y, e1, e2)
  {
    hide Abelian, Mul, Combo, Ready, Shr, Shl, Pow2, Scanned, BitCount, Bit;
    var expLen := if BitCount(e1) >= BitCount(e2) then BitCount(e1) else BitCount(e2);
    if expLen == 0 {
      ZeroLength(e1);
      ZeroLength(e2);
      ComboBases(g, x, y);
      return g.zero;
    }
    var w := if expLen <= 46 then 1 else if expLen <= 260 then 2 else 3;
    var powerTable := FillTable(g, x, y, w, blank);
    result := ScanBits(g, x, e1, y, e2, w, expLen, powerTable, blank);
  }

  /** From the top bit down, one window at a time. */
  method ScanBits<T(!new)>(g: Group<T>, x: T, e1: nat, y: T, e2: nat, w: nat, expLen: nat, powerTable: seq<T>, blank: T)
    returns (result: T)
    requires Abelian(g) && g.ok(x) && g.ok(y) && w >= 1 && Ready(g, x, y, w, powerTable)
    requires expLen > 0 && expLen == if BitCount(e1) >= BitCount(e2) then BitCount(e1) else BitCount(e2)
    ensures result == Combo(g, x, y, e1, e2)
  {
    hide Abelian, Mul, Combo, Ready, Shr, Shl, Pow2, Scanned, BitCount, Bit;
    var tableSize := Pow2(w);
    PowDoubles(w - 1);
    var power1: nat, power2: nat, prevPosition: nat, firstTime := 0, 0, expLen - 1, true;
    ghost var a1: nat, a2: nat := 0, 0;
    result := blank;
    ScanStart(e1, expLen);
    ScanStart(e2, expLen);
    var i := expLen;
    while i > 0
      invariant 0 <= i <= expLen && prevPosition < expLen
      invariant Scanned(e1, i, prevPosition, firstTime, expLen, a1, power1)
      invariant Scanned(e2, i, prevPosition, firstTime, expLen, a2, power2)
      invariant 2 * power1 < tableSize && 2 * power2 < tableSize
      invariant !firstTime ==> result == Combo(g, x, y, a1, a2)
      invariant i == 0 ==> !firstTime && prevPosition == 0
    {
      i := i - 1;
      ScanBit(e1, i, prevPosition, firstTime, expLen, a1, power1);
      ScanBit(e2, i, prevPosition, firstTime, expLen, a2, power2);
      power1 := 2 * power1 + (if Bit(e1, i) then 1 else 0);
      power2 := 2 * power2 + (if Bit(e2, i) then 1 else 0);
      if i == 0 || 2 * power1 >= tableSize || 2 * power2 >= tableSize {
        if BitCount(e1) >= BitCount(e2) { TopBit(e1, i); } else { TopBit(e2, i); }
        Window(e1, i, prevPosition, firstTime, expLen, a1, power1);
        Window(e2, i, prevPosition, firstTime, expLen, a2, power2);
        result := ApplyWindow(g, x, y, w, powerTable, firstTime, result, a1, a2,
                              power1, power2, prevPosition - i);
        prevPosition, firstTime := i, false;
        power1, power2, a1, a2 := 0, 0, Shr(e1, i), Shr(e2, i);
      }
    }
    Whole(e1, prevPosition, firstTime, expLen, a1, power1);
    Whole(e2, prevPosition, firstTime, expLen, a2, power2);
  }

  lemma ZeroLength(e: nat)
    requires BitCount(e) == 0
    ensures e == 0
  {}

  /** At the end of a window, its squares cover its bits, and the window can be folded into the result. */
  lemma Window(e: nat, i: nat, prev: nat, first: bool, expLen: nat, a: nat, power: nat)
    requires Scanned(e, i, prev, first, expLen, a, power) && i < expLen
    ensures i <= prev && power < Pow2(prev - i + 1)
    ensures Shr(e, i) == Shl(a, prev - i) + power
    ensures Scanned(e, i, i, false, expLen, Shr(e, i), 0)
  {
    if first {
      ShlZero(prev - i);
    } else {
      Pow2Monotone(prev - i, prev - i + 1);
    }
    ShlNone(Shr(e, i));
  }

  lemma Whole(e: nat, prev: nat, first: bool, expLen: nat, a: nat, power: nat)
    requires Scanned(e, 0, prev, first, expLen, a, power) && !first && prev == 0
    ensures a == e
  {}
}
