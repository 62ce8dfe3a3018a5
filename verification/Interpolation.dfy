/** arm_linear_interp_q15: table interpolation with a 12.20 argument. */
module Interpolation {
  import opened Basics
  import opened FixedPoint

  const CELL := 0x10_0000

  ghost predicate IsTable(table: seq<int>) {
    0 < |table| < TWO32 && forall i :: 0 <= i < |table| ==> IsQ15(table[i])
  }

  ghost predicate Nondecreasing(table: seq<int>) {
    forall i, j :: 0 <= i <= j < |table| ==> table[i] <= table[j]
  }

  /** The weighted sum in one cell; the two weights add up to one less than a whole. */
  function InCell(y0: int, y1: int, fract: int): int {
    Shr(y0 * (0xF_FFFF - fract) + y1 * fract, CELL)
  }

  /** The table index is taken from the argument's bits, so it is never negative. */
  function Interpolate(table: seq<int>, x: int): int
    requires IsTable(table)
  {
    var index := ToUint32(x) / CELL;
    if index >= |table| - 1 then table[|table| - 1]
    else InCell(table[index], table[index + 1], ToUint32(x) % CELL)
  }

  /** A cell's value is the line between its ends, less than one LSB, and `y0 / CELL` more, below it. */
  lemma {:induction false} CellIsOnLine(y0: int, y1: int, fract: int)
    ensures y0 <= y0 * (CELL - fract) + y1 * fract - CELL * InCell(y0, y1, fract) < y0 + CELL
  {
    var sum := y0 * (0xF_FFFF - fract) + y1 * fract;
    assert y0 * (CELL - fract) == y0 * (0xF_FFFF - fract) + y0;
    assert sum == CELL * (sum / CELL) + sum % CELL;
  }

  /** Inside the table, the result is the line through the two table points next to the argument, up to the
      truncation and to the weights that add up to one less than a whole; from the last point on it is the
      last value.  A negative argument counts as the unsigned word it is.  This determines every result. */
  lemma {:induction false} InterpolationIsOnLine(table: seq<int>, x: int)
    requires IsTable(table) && IsQ31(x)
    ensures var u := if x < 0 then x + 0x1_0000_0000 else x;
            var i, f := u / CELL, u % CELL;
            if i + 1 < |table| then
              table[i] <= table[i] * (CELL - f) + table[i + 1] * f - CELL * Interpolate(table, x) < table[i] + CELL
            else Interpolate(table, x) == table[|table| - 1]
  {
    hide InCell;
    var u := if x < 0 then x + TWO32 else x;
    assert ToUint32(x) == u;
    if u / CELL + 1 < |table| {
      CellIsOnLine(table[u / CELL], table[u / CELL + 1], u % CELL);
    }
  }

  /** A cell's values lie between its ends, or one below. */
  lemma {:induction false} CellRange(y0: int, y1: int, lo: int, hi: int, fract: int)
    requires lo <= y0 <= hi && lo <= y1 <= hi && IsQ15(lo) && IsQ15(hi) && 0 <= fract < CELL
    ensures lo - 1 <= InCell(y0, y1, fract) <= hi && IsQ15(InCell(y0, y1, fract))
  {
    hide Shr;
    TimesMonotone(0xF_FFFF - fract, lo, y0);
    TimesMonotone(0xF_FFFF - fract, y0, hi);
    TimesMonotone(fract, lo, y1);
    TimesMonotone(fract, y1, hi);
    assert lo * (0xF_FFFF - fract) + lo * fract == lo * 0xF_FFFF;
    assert hi * (0xF_FFFF - fract) + hi * fract == hi * 0xF_FFFF;
    assert lo * 0xF_FFFF <= y0 * (0xF_FFFF - fract) + y1 * fract <= hi * 0xF_FFFF;
  }

  /** Inside a rising cell the value rises. */
  lemma {:induction false} CellMonotone(y0: int, y1: int, f: int, g: int)
    requires y0 <= y1 && f <= g
    ensures InCell(y0, y1, f) <= InCell(y0, y1, g)
  {
    TimesMonotone(g - f, y0, y1);
    assert y0 * (0xF_FFFF - f) + y1 * f + (y1 - y0) * (g - f) == y0 * (0xF_FFFF - g) + y1 * g;
  }

  /** The value at a table point: the same at the end of one cell and the start of the next. */
  function Edge(y: int): int {
    Shr(y * 0xF_FFFF, CELL)
  }

  lemma {:induction false} EdgeFacts(y: int, z: int)
    ensures InCell(y, z, 0) == Edge(y) && InCell(y, z, 0xF_FFFF) == Edge(z)
    ensures y <= z ==> Edge(y) <= Edge(z)
    ensures IsQ15(y) ==> Edge(y) <= y
  {
  }

  /** From any point of cell `i` to any later table point the value does not fall. */
  lemma {:induction false} UpToEdge(table: seq<int>, i: nat, j: nat, f: int)
    requires Nondecreasing(table) && i < j < |table| && 0 <= f < CELL
    ensures InCell(table[i], table[i + 1], f) <= Edge(table[j])
  {
    CellMonotone(table[i], table[i + 1], f, 0xF_FFFF);
    EdgeFacts(table[i], table[i + 1]);
    EdgeFacts(table[i + 1], table[j]);
  }

  /** Interpolating a nondecreasing table is monotone, across cells and at the clamped end. */
  lemma {:induction false} InterpolationIsMonotone(table: seq<int>, x: int, y: int)
    requires IsTable(table) && Nondecreasing(table) && 0 <= x <= y < TWO31
    ensures Interpolate(table, x) <= Interpolate(table, y)
  {
    hide InCell, Edge, Nondecreasing;
    var i, j := x / CELL, y / CELL;
    var f, g := x % CELL, y % CELL;
    var last := |table| - 1;
    CellOf(x, y);
    if i < last {
      if i == j {
        Ordered(table, i, i + 1);
        CellMonotone(table[i], table[i + 1], f, g);
      } else if j < last {
        Ordered(table, j, j + 1);
        UpToEdge(table, i, j, f);
        CellMonotone(table[j], table[j + 1], 0, g);
        EdgeFacts(table[j], table[j + 1]);
      } else {
        UpToEdge(table, i, last, f);
        EdgeFacts(table[last], 0);
      }
    }
  }

  lemma {:induction false} Ordered(table: seq<int>, i: nat, j: nat)
    requires Nondecreasing(table) && i <= j < |table|
    ensures table[i] <= table[j]
  {
  }

  lemma {:induction false} CellOf(x: int, y: int)
    requires 0 <= x <= y < TWO31
    ensures ToUint32(x) == x && ToUint32(y) == y && x / CELL <= y / CELL
    ensures (x / CELL == y / CELL ==> x % CELL <= y % CELL)
  {
  }

  /** The result is a q15 value between the two table values next to the argument, or one below. */
  lemma {:induction false} InterpolationInRange(table: seq<int>, x: int)
    requires IsTable(table) && 0 <= x < TWO31
    ensures IsQ15(Interpolate(table, x))
    ensures var i := x / CELL;
            i + 1 < |table| ==>
              var y0, y1 := table[i], table[i + 1];
              (if y0 <= y1 then y0 else y1) - 1 <= Interpolate(table, x) <= (if y0 <= y1 then y1 else y0)
  {
    hide InCell;
    var i := x / CELL;
    CellOf(x, x);
    if i + 1 < |table| {
      var y0, y1 := table[i], table[i + 1];
      CellRange(y0, y1, if y0 <= y1 then y0 else y1, if y0 <= y1 then y1 else y0, x % CELL);
    }
  }

  /** A negative argument reads the far end of the table, not its beginning: the kernel's test for a
      negative index can never succeed. */
  lemma {:induction false} NegativeReadsTheEnd(table: seq<int>, x: int)
    requires IsTable(table) && -TWO31 <= x < 0
    ensures ToUint32(x) / CELL >= 2048
    ensures |table| <= 2049 ==> Interpolate(table, x) == table[|table| - 1]
  {
    assert ToUint32(x) == x + TWO32;
  }
}
