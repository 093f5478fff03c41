/** Fuel cells on a 300 by 300 grid (C version): the power of one cell, the
    filled grid `cells[301][301]`, the nested-loop sum of a square, and the
    two searches for the square of largest power. */
module Day11C {

  import opened Arith
  import Day11

  // ---------------------------------------------------------------------
  // Cells and the grid
  // ---------------------------------------------------------------------

  /** `cell`, with C's truncating `/` and `%`. Signed overflow of the
      `int` product is undefined in C; it is taken here as the
      two's-complement wrap the usual compilers produce. */
  function Cell(x: int, y: int, serial: int): int {
    var rackId := x + 10;
    var startLevel := rackId * y;
    var value := Wrap32((startLevel + serial) * rackId);
    TruncMod(TruncDiv(value, 100), 10) - 5
  }

  /** The C formula and the Kotlin `Grid.get` of an atom give the same power. */
  lemma CellMatchesKotlin(x: int, y: int, serial: int)
    ensures Cell(x, y, serial) == Day11.Power(serial, x, y)
  {
  }

  type Grid = seq<seq<int>>

  /** The shape of the global `int cells[301][301]`. */
  predicate IsGrid(g: Grid) {
    |g| == 301 && forall i :: 0 <= i < |g| ==> |g[i]| == 301
  }

  /** `cells[y][x]`, with 0 for an index outside the array. */
  function At(g: Grid, x: int, y: int): int {
    if 0 <= y < |g| && 0 <= x < |g[y]| then g[y][x] else 0
  }

  /** `fill`: every cell of 1..300 by 1..300 holds its power; row 0 and
      column 0 keep the zero of static initialisation. */
  function Fill(serial: int): (g: Grid)
    ensures IsGrid(g)
    ensures forall x, y :: At(g, x, y) == if 1 <= x <= 300 && 1 <= y <= 300 then Cell(x, y, serial) else 0
  {
    seq(301, y => seq(301, x => if 1 <= x && 1 <= y then Cell(x, y, serial) else 0))
  }

  // ---------------------------------------------------------------------
  // Sums over a block
  // ---------------------------------------------------------------------

  /** The sum of the `w` cells of row `y` from column `x` rightwards. */
  function RowSum(g: Grid, x: int, y: int, w: int): int
    decreases w
  {
    if w <= 0 then 0 else RowSum(g, x, y, w - 1) + At(g, x + w - 1, y)
  }

  /** The sum of the `w` by `h` block with top-left `(x, y)`, row by row. */
  function BlockSum(g: Grid, x: int, y: int, w: int, h: int): int
    decreases h
  {
    if h <= 0 then 0 else BlockSum(g, x, y, w, h - 1) + RowSum(g, x, y + h - 1, w)
  }

  /** The total of the `size` by `size` square with top-left `(x, y)`. */
  function Total(g: Grid, x: int, y: int, size: int): int {
    BlockSum(g, x, y, size, size)
  }

  /** Where every cell lies between `lo` and `hi`. */
  ghost predicate CellsWithin(g: Grid, lo: int, hi: int) {
    forall x, y :: lo <= At(g, x, y) <= hi
  }

  lemma {:induction false} RowSumBounds(g: Grid, x: int, y: int, w: int, lo: int, hi: int)
    requires CellsWithin(g, lo, hi) && w >= 0
    ensures lo * w <= RowSum(g, x, y, w) <= hi * w
    decreases w
  {
    if w > 0 {
      RowSumBounds(g, x, y, w - 1, lo, hi);
      assert lo <= At(g, x + w - 1, y) <= hi;
      assert lo * w == lo * (w - 1) + lo && hi * w == hi * (w - 1) + hi;
    }
  }

  /** A block of `h` rows, each summing to within `lo..hi`, sums to within
      `lo * h .. hi * h`. */
  lemma {:induction false} BlockSumBounds(g: Grid, x: int, y: int, w: int, h: int, lo: int, hi: int)
    requires h >= 0
    requires forall y' :: lo <= RowSum(g, x, y', w) <= hi
    ensures lo * h <= BlockSum(g, x, y, w, h) <= hi * h
    decreases h
  {
    if h > 0 {
      BlockSumBounds(g, x, y, w, h - 1, lo, hi);
      assert lo <= RowSum(g, x, y + h - 1, w) <= hi;
      assert lo * h == lo * (h - 1) + lo && hi * h == hi * (h - 1) + hi;
    }
  }

  /** Every entry of the filled grid lies between -14 and 4, and between
      -5 and 4 when the serial number is small enough for no product to
      wrap. */
  lemma FilledCellBounds(serial: int, x: int, y: int)
    ensures -14 <= At(Fill(serial), x, y) <= 4
    ensures 0 <= serial <= Day11.MaxSafeSerial ==> -5 <= At(Fill(serial), x, y) <= 4
  {
    if 1 <= x <= 300 && 1 <= y <= 300 {
      CellMatchesKotlin(x, y, serial);
    }
  }

  /** A square of the filled grid totals at most 4 times its number of
      cells and at least -14 times it, or -5 times it when the serial
      number is small enough for no product to wrap. */
  lemma TotalBounds(serial: int, x: int, y: int, size: int)
    requires size >= 0
    ensures -14 * size * size <= Total(Fill(serial), x, y, size) <= 4 * size * size
    ensures 0 <= serial <= Day11.MaxSafeSerial ==> -5 * size * size <= Total(Fill(serial), x, y, size)
  {
    forall a, b
      ensures -14 <= At(Fill(serial), a, b) <= 4
      ensures 0 <= serial <= Day11.MaxSafeSerial ==> -5 <= At(Fill(serial), a, b)
    {
      FilledCellBounds(serial, a, b);
    }
    SquareWithin(serial, x, y, size, -14);
    if 0 <= serial <= Day11.MaxSafeSerial {
      SquareWithin(serial, x, y, size, -5);
    }
  }

  /** A square of a grid whose cells lie in `lo..4` totals within
      `lo..4` times its number of cells. */
  lemma SquareWithin(serial: int, x: int, y: int, size: int, lo: int)
    requires size >= 0
    requires forall a, b :: lo <= At(Fill(serial), a, b) <= 4
    ensures lo * size * size <= Total(Fill(serial), x, y, size) <= 4 * size * size
  {
    var g := Fill(serial);
    forall y'
      ensures lo * size <= RowSum(g, x, y', size) <= 4 * size
    {
      RowSumBounds(g, x, y', size, lo, 4);
    }
    BlockSumBounds(g, x, y, size, size, lo * size, 4 * size);
  }

  /** `square`: the nested loops over rows `y .. y + size - 1` and columns
      `x .. x + size - 1`. The C code reads `cells[y1][x1]` directly, so
      every index it reaches must lie inside the array. */
  method Square(g: Grid, x: int, y: int, size: int) returns (total: int)
    requires IsGrid(g)
    requires size <= 0 || (0 <= x && x + size <= 301 && 0 <= y && y + size <= 301)
    ensures total == Total(g, x, y, size)
  {
    total := 0;
    var y1 := y;
    while y1 < y + size
      invariant y <= y1 && (size > 0 ==> y1 <= y + size) && (size <= 0 ==> y1 == y)
      invariant total == BlockSum(g, x, y, size, y1 - y)
    {
      var x1 := x;
      while x1 < x + size
        invariant x <= x1 <= x + size
        invariant total == BlockSum(g, x, y, size, y1 - y) + RowSum(g, x, y1, x1 - x)
      {
        total := total + g[y1][x1];
        x1 := x1 + 1;
      }
      y1 := y1 + 1;
    }
  }

  // ---------------------------------------------------------------------
  // The searches
  // ---------------------------------------------------------------------

  /** The running maximum of `part1` and `part2`: a value and the square it
      belongs to. */
  datatype Best = Best(value: int, x: int, y: int, size: int)

  const Start := Best(0, 0, 0, 0)

  /** The last top-left coordinate a square of `size` can have. */
  function Limit(size: int): int { 301 - size }

  /** Reading order of top-left corners: row first, then column. */
  predicate Before(x1: int, y1: int, x2: int, y2: int) {
    y1 < y2 || (y1 == y2 && x1 < x2)
  }

  /** No square of `size` on the grid totals more than `v`. */
  ghost predicate NoneAbove(g: Grid, size: int, v: int) {
    forall x, y :: 1 <= x <= Limit(size) && 1 <= y <= Limit(size) ==> Total(g, x, y, size) <= v
  }

  /** Every square of `size` on the grid totals less than `v`. */
  ghost predicate AllBelow(g: Grid, size: int, v: int) {
    forall x, y :: 1 <= x <= Limit(size) && 1 <= y <= Limit(size) ==> Total(g, x, y, size) < v
  }

  /** `b` is a square of the grid with total `b.value`, and every square of
      the same size before it in reading order totals less. */
  ghost predicate FirstOfItsSize(g: Grid, b: Best) {
    && 1 <= b.x <= Limit(b.size) && 1 <= b.y <= Limit(b.size)
    && Total(g, b.x, b.y, b.size) == b.value
    && forall x, y :: 1 <= x <= Limit(b.size) && 1 <= y <= Limit(b.size) && Before(x, y, b.x, b.y) ==>
      Total(g, x, y, b.size) < b.value
  }

  /** The inner loop over `x` for one row `y`, keeping the first square
      that beats the running maximum. */
  method ScanRow(g: Grid, size: int, y: int, b0: Best) returns (b: Best)
    requires IsGrid(g) && 1 <= size <= 300 && 1 <= y <= Limit(size)
    ensures b.value >= b0.value
    ensures forall x :: 1 <= x <= Limit(size) ==> Total(g, x, y, size) <= b.value
    ensures b == b0 || (
      && b.value > b0.value && b.size == size && b.y == y && 1 <= b.x <= Limit(size)
      && Total(g, b.x, y, size) == b.value
      && forall x :: 1 <= x < b.x ==> Total(g, x, y, size) < b.value)
  {
    b := b0;
    var x := 1;
    while x <= Limit(size)
      invariant 1 <= x <= Limit(size) + 1
      invariant b.value >= b0.value
      invariant forall x' :: 1 <= x' < x ==> Total(g, x', y, size) <= b.value
      invariant b == b0 || (
        && b.value > b0.value && b.size == size && b.y == y && 1 <= b.x < x
        && Total(g, b.x, y, size) == b.value
        && forall x' :: 1 <= x' < b.x ==> Total(g, x', y, size) < b.value)
    {
      var sq := Square(g, x, y, size);
      if sq > b.value {
        b := Best(sq, x, y, size);
      }
      x := x + 1;
    }
  }

  /** The loops over `y` and `x` for one size: the first square in reading
      order whose total beats the running maximum, or the maximum unchanged. */
  method Scan(g: Grid, size: int, b0: Best) returns (b: Best)
    requires IsGrid(g) && 1 <= size <= 300
    ensures b.value >= b0.value && NoneAbove(g, size, b.value)
    ensures b == b0 || (b.value > b0.value && b.size == size && FirstOfItsSize(g, b))
  {
    b := b0;
    var y := 1;
    while y <= Limit(size)
      invariant 1 <= y <= Limit(size) + 1
      invariant b.value >= b0.value
      invariant forall x', y' :: 1 <= x' <= Limit(size) && 1 <= y' < y ==> Total(g, x', y', size) <= b.value
      invariant b == b0 || (
        && b.value > b0.value && b.size == size && 1 <= b.x <= Limit(size) && 1 <= b.y < y
        && Total(g, b.x, b.y, size) == b.value
        && forall x', y' :: 1 <= x' <= Limit(size) && 1 <= y' <= Limit(size) && Before(x', y', b.x, b.y) ==>
          Total(g, x', y', size) < b.value)
    {
      b := ScanRow(g, size, y, b);
      y := y + 1;
    }
  }

  /** `part1`: the 3 by 3 square of largest total, the first in reading
      order among equals; `Start` when no square totals more than 0. */
  method Part1(g: Grid) returns (b: Best)
    requires IsGrid(g)
    ensures b.value >= 0 && NoneAbove(g, 3, b.value)
    ensures b.value == 0 ==> b == Start
    ensures b.value > 0 ==> b.size == 3 && FirstOfItsSize(g, b)
  {
    b := Scan(g, 3, Start);
  }

  /** `part2`: sizes from 300 down to 1, so among equal totals the largest
      size wins, and within it the first square in reading order. */
  method Part2(g: Grid) returns (b: Best)
    requires IsGrid(g)
    ensures b.value >= 0
    ensures forall s :: 1 <= s <= 300 ==> NoneAbove(g, s, b.value)
    ensures b.value == 0 ==> b == Start
    ensures b.value > 0 ==> 1 <= b.size <= 300 && FirstOfItsSize(g, b)
    ensures b.value > 0 ==> forall s :: b.size < s <= 300 ==> AllBelow(g, s, b.value)
  {
    b := Start;
    var size := 300;
    while size > 0
      invariant 0 <= size <= 300
      invariant b.value >= 0
      invariant forall s :: size < s <= 300 ==> NoneAbove(g, s, b.value)
      invariant b.value == 0 ==> b == Start
      invariant b.value > 0 ==> size < b.size <= 300 && FirstOfItsSize(g, b)
      invariant b.value > 0 ==> forall s :: b.size < s <= 300 ==> AllBelow(g, s, b.value)
    {
      var b' := Scan(g, size, b);
      forall s | size < s <= 300
        ensures NoneAbove(g, s, b'.value)
        ensures b' != b ==> AllBelow(g, s, b'.value)
      {
        assert NoneAbove(g, s, b.value);
      }
      b := b';
      size := size - 1;
    }
  }
}
