/** Fuel cells on a 300 by 300 grid (Kotlin version): the power formula,
    the square ranges, the enumeration of 3 by 3 squares, the recursive
    decomposition of a square into cells, and the dyadic `steps` of a range. */
module Day11 {

  import opened Arith
  import opened Plane
  import opened Toolbox

  // ---------------------------------------------------------------------
  // The power formula
  // ---------------------------------------------------------------------

  function RackId(x: int): int { x + 10 }

  function StartLevel(x: int, y: int): int { RackId(x) * y }

  /** `hundreds`: truncating `/ 100`, then truncating `% 10`. */
  function Hundreds(n: int): (d: int)
    ensures n >= 0 ==> 0 <= d <= 9
    ensures n < 0 ==> -9 <= d <= 0
  {
    TruncMod(TruncDiv(n, 100), 10)
  }

  /** For a non-negative number `hundreds` is its decimal hundreds digit:
      the last three digits are that digit times 100 plus the last two. */
  lemma HundredsIsDigit(n: int)
    requires n >= 0
    ensures n % 1000 == Hundreds(n) * 100 + n % 100
  {
    var q, r := n / 100, n % 100;
    var a, d := q / 10, q % 10;
    assert Hundreds(n) == d;
    assert n == q * 100 + r;
    assert q == a * 10 + d;
    assert n == a * 1000 + (d * 100 + r) by {
      assert q * 100 == a * 1000 + d * 100;
    }
    DivModUnique(n, 1000, a, d * 100 + r);
  }

  /** The largest serial number for which `(startLevel + serial) * rackId`
      stays inside `Int` on every cell of the grid: `(93000 + serial) * 310`
      is then below 2^31. */
  const MaxSafeSerial := 6834366

  /** `Grid.get` of an `Atom`: the power level of the fuel cell at `(x, y)`,
      with the `Int` product wrapped to 32 bits. On the grid only the sum
      with the serial and the product can leave `Int` range, and wrapping
      the sum first changes nothing (`PowerWrapsStepwise`). */
  function Power(serial: int, x: int, y: int): (r: int)
    ensures -14 <= r <= 4
    ensures 1 <= x <= 300 && 1 <= y <= 300 && 0 <= serial <= MaxSafeSerial ==> -5 <= r <= 4
  {
    var v := (StartLevel(x, y) + serial) * RackId(x);
    assert 1 <= x <= 300 && 1 <= y <= 300 && 0 <= serial <= MaxSafeSerial ==> Wrap32(v) >= 0 by {
      if 1 <= x <= 300 && 1 <= y <= 300 && 0 <= serial <= MaxSafeSerial {
        ProductFits(serial, x, y);
      }
    }
    Hundreds(Wrap32(v)) - 5
  }

  /** On the grid, with a serial number up to `MaxSafeSerial`, the product
      is a non-negative `Int`. */
  lemma ProductFits(serial: int, x: int, y: int)
    requires 1 <= x <= 300 && 1 <= y <= 300 && 0 <= serial <= MaxSafeSerial
    ensures 0 <= (StartLevel(x, y) + serial) * RackId(x) < TwoTo31
  {
    var rack, level := RackId(x), StartLevel(x, y);
    var s := level + serial;
    assert level <= 93000 by {
      MulLe(rack, 310, y);
      MulLe(y, 300, 310);
    }
    assert 0 <= level by {
      MulLe(0, rack, y);
    }
    assert 0 <= s * rack <= 6927366 * 310 by {
      MulLe(0, s, rack);
      MulLe(rack, 310, s);
      MulLe(s, 6927366, 310);
    }
  }

  /** Wrapping `startLevel + serial` to `Int` before the product, as the
      source's `Int` addition does, gives the same power. */
  lemma PowerWrapsStepwise(serial: int, x: int, y: int)
    ensures Power(serial, x, y) == Hundreds(Wrap32(Wrap32(StartLevel(x, y) + serial) * RackId(x))) - 5
  {
    WrapMul(StartLevel(x, y) + serial, RackId(x));
  }

  /** Beyond `MaxSafeSerial` the product wraps and the power leaves -5..4:
      at (300, 300) with serial 7000000 the product 2198830000 wraps to
      -2096137296, whose `hundreds` is -2. */
  lemma LargeSerialWraps()
    ensures Power(7000000, 300, 300) == -7
  {
    assert (StartLevel(300, 300) + 7000000) * RackId(300) == 2198830000;
    assert Wrap32(2198830000) == -2096137296;
  }

  // ---------------------------------------------------------------------
  // Squares
  // ---------------------------------------------------------------------

  /** `Pos`: a single fuel cell or a square of cells with top-left `(x, y)`. */
  datatype GridPos = Atom(x: int, y: int) | Square(x: int, y: int, size: int)

  /** `xRange`: the columns `x .. x+size-1` of a square. */
  function XRange(p: GridPos): (r: Range)
    requires p.Square?
    ensures r.Size() == (if p.size < 0 then 0 else p.size)
    ensures forall i :: r.Contains(i) <==> p.x <= i < p.x + p.size
  {
    Range(p.x, p.x + p.size - 1)
  }

  /** `yRange`: the rows `y .. y+size-1` of a square. */
  function YRange(p: GridPos): (r: Range)
    requires p.Square?
    ensures r.Size() == (if p.size < 0 then 0 else p.size)
    ensures forall i :: r.Contains(i) <==> p.y <= i < p.y + p.size
  {
    Range(p.y, p.y + p.size - 1)
  }

  const Side := 298

  /** `nines`: every 3 by 3 square that fits in the 300 by 300 grid, row by
      row (`y` outer, `x` inner). */
  function Nines(): (r: seq<GridPos>)
    ensures |r| == Side * Side
    ensures forall k :: 0 <= k < |r| ==> r[k].Square? && r[k].size == 3
    ensures forall k :: 0 <= k < |r| ==> 1 <= r[k].x && r[k].x + 2 <= 300 && 1 <= r[k].y && r[k].y + 2 <= 300
  {
    seq(Side * Side, k requires 0 <= k < Side * Side => Square(k % Side + 1, k / Side + 1, 3))
  }

  /** Every fitting 3 by 3 square occurs in `nines`, at the index its row and
      column give, and the list is in reading order of the top-left corners. */
  lemma NinesComplete(x: int, y: int)
    requires 1 <= x <= Side && 1 <= y <= Side
    ensures var k := (y - 1) * Side + (x - 1); 0 <= k < |Nines()| && Nines()[k] == Square(x, y, 3)
  {
    var k := (y - 1) * Side + (x - 1);
    MulLe(y - 1, Side - 1, Side);
    DivModUnique(k, Side, y - 1, x - 1);
  }

  lemma NinesInReadingOrder(j: int, k: int)
    requires 0 <= j < k < Side * Side
    ensures ReadingLess(Pos(Nines()[j].x, Nines()[j].y), Pos(Nines()[k].x, Nines()[k].y))
  {
    var qj, qk := j / Side, k / Side;
    assert qj <= qk by {
      MulGap(qk, qj, Side);
    }
    if qj == qk {
      assert j % Side < k % Side;
    }
  }

  // ---------------------------------------------------------------------
  // Decomposing a square into cells
  // ---------------------------------------------------------------------

  /** The `n` atoms of the row `y` from `x` rightwards. */
  function RowAtoms(x: int, y: int, n: nat): seq<Pos>
  {
    if n == 0 then [] else RowAtoms(x, y, n - 1) + [Pos(x + n - 1, y)]
  }

  /** The `n` atoms of the column `x` from `y` downwards. */
  function ColumnAtoms(x: int, y: int, n: nat): seq<Pos>
  {
    if n == 0 then [] else ColumnAtoms(x, y, n - 1) + [Pos(x, y + n - 1)]
  }

  /** How many times `p` occurs among the first `n` elements of `s`. */
  function OccurrencesUpTo(s: seq<Pos>, p: Pos, n: nat): nat
    requires n <= |s|
  {
    if n == 0 then 0 else OccurrencesUpTo(s, p, n - 1) + (if s[n - 1] == p then 1 else 0)
  }

  /** How many times `p` occurs in `s`. */
  function Occurrences(s: seq<Pos>, p: Pos): nat
  {
    OccurrencesUpTo(s, p, |s|)
  }

  lemma {:induction false} OccurrencesUpToPrefix(a: seq<Pos>, b: seq<Pos>, p: Pos, n: nat)
    requires n <= |a|
    ensures OccurrencesUpTo(a + b, p, n) == OccurrencesUpTo(a, p, n)
  {
    if n > 0 {
      OccurrencesUpToPrefix(a, b, p, n - 1);
    }
  }

  lemma {:induction false} OccurrencesUpToSuffix(a: seq<Pos>, b: seq<Pos>, p: Pos, k: nat)
    requires k <= |b|
    ensures OccurrencesUpTo(a + b, p, |a| + k) == Occurrences(a, p) + OccurrencesUpTo(b, p, k)
  {
    if k == 0 {
      OccurrencesUpToPrefix(a, b, p, |a|);
    } else {
      OccurrencesUpToSuffix(a, b, p, k - 1);
      assert (a + b)[|a| + k - 1] == b[k - 1];
    }
  }

  lemma OccurrencesConcat(a: seq<Pos>, b: seq<Pos>, p: Pos)
    ensures Occurrences(a + b, p) == Occurrences(a, p) + Occurrences(b, p)
  {
    OccurrencesUpToSuffix(a, b, p, |b|);
  }

  lemma {:induction false} RowAtomsCount(x: int, y: int, n: nat, p: Pos)
    ensures Occurrences(RowAtoms(x, y, n), p) == if p.y == y && x <= p.x < x + n then 1 else 0
  {
    if n > 0 {
      RowAtomsCount(x, y, n - 1, p);
      OccurrencesConcat(RowAtoms(x, y, n - 1), [Pos(x + n - 1, y)], p);
      OccurrencesSingle(Pos(x + n - 1, y), p);
    }
  }

  lemma {:induction false} ColumnAtomsCount(x: int, y: int, n: nat, p: Pos)
    ensures Occurrences(ColumnAtoms(x, y, n), p) == if p.x == x && y <= p.y < y + n then 1 else 0
  {
    if n > 0 {
      ColumnAtomsCount(x, y, n - 1, p);
      OccurrencesConcat(ColumnAtoms(x, y, n - 1), [Pos(x, y + n - 1)], p);
      OccurrencesSingle(Pos(x, y + n - 1), p);
    }
  }

  predicate InBlock(x: int, y: int, size: int, p: Pos) {
    x <= p.x < x + size && y <= p.y < y + size
  }

  /** `n and 1` for a non-negative `n`: its lowest binary digit. */
  function Parity(n: nat): (r: nat)
    ensures r <= 1
  {
    if n < 2 then n else Parity(n - 2)
  }

  /** `n / 2` for a non-negative `n`, written by recursion so that the
      proofs about the decomposition stay linear. */
  function Half(n: nat): (h: nat)
    ensures 2 * h + Parity(n) == n
  {
    if n < 2 then 0 else Half(n - 2) + 1
  }

  lemma HalfIsDivision(n: nat)
    ensures Half(n) == n / 2 && Parity(n) == n % 2
  {
    DivModUnique(n, 2, Half(n), Parity(n));
  }

  function Indicator(b: bool): nat { if b then 1 else 0 }

  /** The extra atoms of an odd square, as the source writes them: the last
      row in full and the last column in full, corner included in both. */
  function EdgesAsWritten(x: int, y: int, size: nat): seq<Pos> {
    if Parity(size) == 1 then RowAtoms(x, y + size - 1, size) + ColumnAtoms(x + size - 1, y, size) else []
  }

  /** The extra atoms with the column stopping above the corner. */
  function Edges(x: int, y: int, size: nat): seq<Pos> {
    if Parity(size) == 1 then RowAtoms(x, y + size - 1, size) + ColumnAtoms(x + size - 1, y, size - 1) else []
  }

  /** The atoms a square's `cells` flatten to, as the source writes it: four
      quarter squares of half the size, then for an odd size the last row and
      the last column, so the bottom-right corner appears in both. */
  function FlattenAsWritten(x: int, y: int, size: int): seq<Pos>
    requires size >= 1
    decreases size
  {
    if size == 1 then [Pos(x, y)]
    else if size == 2 then [Pos(x, y), Pos(x + 1, y), Pos(x, y + 1), Pos(x + 1, y + 1)]
    else
      var q := Half(size);
      FlattenAsWritten(x, y, q) + FlattenAsWritten(x + q, y, q)
        + FlattenAsWritten(x, y + q, q) + FlattenAsWritten(x + q, y + q, q) + EdgesAsWritten(x, y, size)
  }

  /** The four quarter squares, then the corrected edges. */
  function Quarters(x: int, y: int, size: int, q: int): seq<Pos>
    requires 1 <= q < size
    decreases size, 0
  {
    Flatten(x, y, q) + Flatten(x + q, y, q) + Flatten(x, y + q, q) + Flatten(x + q, y + q, q) + Edges(x, y, size)
  }

  /** The same decomposition as `FlattenAsWritten`, with the last column
      stopping above the corner. */
  function Flatten(x: int, y: int, size: int): seq<Pos>
    requires size >= 1
    decreases size, 1
  {
    if size == 1 then [Pos(x, y)]
    else if size == 2 then [Pos(x, y), Pos(x + 1, y), Pos(x, y + 1), Pos(x + 1, y + 1)]
    else
      Quarters(x, y, size, Half(size))
  }

  lemma OccurrencesSingle(a: Pos, p: Pos)
    ensures Occurrences([a], p) == Indicator(a == p)
  {
    assert OccurrencesUpTo([a], p, 0) == 0;
  }

  /** Occurrences of `p` in five concatenated parts. */
  lemma OccurrencesOfFive(a: seq<Pos>, b: seq<Pos>, c: seq<Pos>, d: seq<Pos>, e: seq<Pos>, p: Pos)
    ensures Occurrences(a + b + c + d + e, p)
      == Occurrences(a, p) + Occurrences(b, p) + Occurrences(c, p) + Occurrences(d, p) + Occurrences(e, p)
  {
    OccurrencesConcat(a, b, p);
    OccurrencesConcat(a + b, c, p);
    OccurrencesConcat(a + b + c, d, p);
    OccurrencesConcat(a + b + c + d, e, p);
  }

  /** The explicit decomposition of a size-2 square covers it once. */
  lemma TwoByTwo(x: int, y: int, p: Pos)
    ensures Occurrences([Pos(x, y), Pos(x + 1, y), Pos(x, y + 1), Pos(x + 1, y + 1)], p)
      == Indicator(InBlock(x, y, 2, p))
  {
    var a, b, c, d := Pos(x, y), Pos(x + 1, y), Pos(x, y + 1), Pos(x + 1, y + 1);
    assert [a, b, c, d] == [a] + [b] + [c] + [d] + [];
    OccurrencesOfFive([a], [b], [c], [d], [], p);
    OccurrencesSingle(a, p);
    OccurrencesSingle(b, p);
    OccurrencesSingle(c, p);
    OccurrencesSingle(d, p);
  }

  /** Where the edges of the two decompositions hold `p`. */
  function EdgeCountAsWritten(x: int, y: int, size: nat, p: Pos): nat {
    if Parity(size) == 1
    then Indicator(p.y == y + size - 1 && x <= p.x < x + size) + Indicator(p.x == x + size - 1 && y <= p.y < y + size)
    else 0
  }

  function EdgeCount(x: int, y: int, size: nat, p: Pos): nat {
    if Parity(size) == 1
    then Indicator(p.y == y + size - 1 && x <= p.x < x + size) + Indicator(p.x == x + size - 1 && y <= p.y < y + size - 1)
    else 0
  }

  lemma EdgesAsWrittenOccurrences(x: int, y: int, size: nat, p: Pos)
    ensures Occurrences(EdgesAsWritten(x, y, size), p) == EdgeCountAsWritten(x, y, size, p)
  {
    if Parity(size) == 1 {
      OccurrencesConcat(RowAtoms(x, y + size - 1, size), ColumnAtoms(x + size - 1, y, size), p);
      RowAtomsCount(x, y + size - 1, size, p);
      ColumnAtomsCount(x + size - 1, y, size, p);
    }
  }

  lemma EdgesOccurrences(x: int, y: int, size: nat, p: Pos)
    ensures Occurrences(Edges(x, y, size), p) == EdgeCount(x, y, size, p)
  {
    if Parity(size) == 1 {
      OccurrencesConcat(RowAtoms(x, y + size - 1, size), ColumnAtoms(x + size - 1, y, size - 1), p);
      RowAtomsCount(x, y + size - 1, size, p);
      ColumnAtomsCount(x + size - 1, y, size - 1, p);
    }
  }

  /** The occurrences of `p` in each decomposition, computed on the
      decomposition's shape rather than on its list of atoms. */
  function CountAsWritten(x: int, y: int, size: int, p: Pos): nat
    requires size >= 1
    decreases size
  {
    if size == 1 then Indicator(p == Pos(x, y))
    else if size == 2 then Indicator(InBlock(x, y, 2, p))
    else
      var q := Half(size);
      CountAsWritten(x, y, q, p) + CountAsWritten(x + q, y, q, p) + CountAsWritten(x, y + q, q, p)
        + CountAsWritten(x + q, y + q, q, p) + EdgeCountAsWritten(x, y, size, p)
  }

  /** The atoms of a square hold `p` as often as its count says. */
  predicate AgreesAsWritten(x: int, y: int, size: int, p: Pos)
    requires size >= 1
  {
    Occurrences(FlattenAsWritten(x, y, size), p) == CountAsWritten(x, y, size, p)
  }

  /** One level of the decomposition, counted at `p`. */
  lemma FlattenAsWrittenStep(x: int, y: int, size: int, q: int, p: Pos)
    requires size > 2 && q == Half(size)
    requires AgreesAsWritten(x, y, q, p) && AgreesAsWritten(x + q, y, q, p) && AgreesAsWritten(x, y + q, q, p) && AgreesAsWritten(x + q, y + q, q, p)
    ensures AgreesAsWritten(x, y, size, p)
  {
    OccurrencesOfFive(FlattenAsWritten(x, y, q), FlattenAsWritten(x + q, y, q), FlattenAsWritten(x, y + q, q), FlattenAsWritten(x + q, y + q, q), EdgesAsWritten(x, y, size), p);
    EdgesAsWrittenOccurrences(x, y, size, p);
  }

  lemma FlattenAsWrittenBase(x: int, y: int, size: int, p: Pos)
    requires 1 <= size <= 2
    ensures Occurrences(FlattenAsWritten(x, y, size), p) == CountAsWritten(x, y, size, p)
  {
    if size == 1 {
      assert FlattenAsWritten(x, y, size) == [Pos(x, y)];
      OccurrencesSingle(Pos(x, y), p);
    } else {
      assert FlattenAsWritten(x, y, size) == [Pos(x, y), Pos(x + 1, y), Pos(x, y + 1), Pos(x + 1, y + 1)];
      TwoByTwo(x, y, p);
    }
  }

  lemma {:induction false} CountAsWrittenIsOccurrences(x: int, y: int, size: int, p: Pos)
    requires size >= 1
    ensures Occurrences(FlattenAsWritten(x, y, size), p) == CountAsWritten(x, y, size, p)
    decreases size
  {
    if size <= 2 {
      FlattenAsWrittenBase(x, y, size, p);
    } else {
      var q := Half(size);
      forall a, b
        ensures AgreesAsWritten(a, b, q, p)
      {
        CountAsWrittenIsOccurrences(a, b, q, p);
      }
      FlattenAsWrittenStep(x, y, size, q, p);
    }
  }

  /** Outside its block the as-written decomposition holds nothing. */
  lemma {:induction false} CountAsWrittenOutside(x: int, y: int, size: int, p: Pos)
    requires size >= 1 && !InBlock(x, y, size, p)
    ensures CountAsWritten(x, y, size, p) == 0
    decreases size
  {
    if size > 2 {
      var q := Half(size);
      assert size == 2 * q + Parity(size);
      CountAsWrittenOutside(x, y, q, p);
      CountAsWrittenOutside(x + q, y, q, p);
      CountAsWrittenOutside(x, y + q, q, p);
      CountAsWrittenOutside(x + q, y + q, q, p);
    }
  }

  /** As written, a square of odd size 3 or more holds its bottom-right
      cell twice, so `Grid.get` adds that cell's power twice. */
  lemma OddSquareCountsCornerTwice(x: int, y: int, size: int)
    requires size >= 3 && Parity(size) == 1
    ensures Occurrences(FlattenAsWritten(x, y, size), Pos(x + size - 1, y + size - 1)) == 2
  {
    var q := Half(size);
    var corner := Pos(x + size - 1, y + size - 1);
    assert size == 2 * q + 1;
    CountAsWrittenIsOccurrences(x, y, size, corner);
    forall a, b | !InBlock(a, b, q, corner)
      ensures CountAsWritten(a, b, q, corner) == 0
    {
      CountAsWrittenOutside(a, b, q, corner);
    }
  }

  /** The four quarters of a square, its last row and its last column above
      the corner split the square's block: every cell lies in exactly one. */
  lemma QuartersPartition(x: int, y: int, size: int, p: Pos)
    requires size > 2
    ensures var q := Half(size);
      Indicator(InBlock(x, y, q, p)) + Indicator(InBlock(x + q, y, q, p))
      + Indicator(InBlock(x, y + q, q, p)) + Indicator(InBlock(x + q, y + q, q, p))
      + EdgeCount(x, y, size, p)
      == Indicator(InBlock(x, y, size, p))
  {
    var q := Half(size);
    assert size == 2 * q + Parity(size);
  }

  /** The corrected atoms of a square hold `p` once inside its block and
      never outside it. */
  predicate Covers(x: int, y: int, size: int, p: Pos)
    requires size >= 1
  {
    Occurrences(Flatten(x, y, size), p) == Indicator(InBlock(x, y, size, p))
  }

  lemma FlattenStep(x: int, y: int, size: int, q: int, p: Pos)
    requires size > 2 && q == Half(size)
    requires Covers(x, y, q, p) && Covers(x + q, y, q, p) && Covers(x, y + q, q, p) && Covers(x + q, y + q, q, p)
    ensures Covers(x, y, size, p)
  {
    FlattenUnfold(x, y, size);
    OccurrencesOfFive(Flatten(x, y, q), Flatten(x + q, y, q), Flatten(x, y + q, q), Flatten(x + q, y + q, q), Edges(x, y, size), p);
    EdgesOccurrences(x, y, size, p);
    QuartersPartition(x, y, size, p);
  }

  lemma FlattenUnfold(x: int, y: int, size: int)
    requires size > 2
    ensures 1 <= Half(size) < size
    ensures Flatten(x, y, size) == Quarters(x, y, size, Half(size))
  {
  }

  lemma FlattenBase(x: int, y: int, size: int, p: Pos)
    requires 1 <= size <= 2
    ensures Covers(x, y, size, p)
  {
    if size == 1 {
      assert Flatten(x, y, size) == [Pos(x, y)];
      OccurrencesSingle(Pos(x, y), p);
      assert InBlock(x, y, 1, p) <==> p == Pos(x, y);
    } else {
      assert Flatten(x, y, size) == [Pos(x, y), Pos(x + 1, y), Pos(x, y + 1), Pos(x + 1, y + 1)];
      TwoByTwo(x, y, p);
    }
  }

  /** The corrected decomposition holds each cell of the block exactly once
      and nothing outside it. */
  lemma {:induction false} FlattenCoversBlockOnce(x: int, y: int, size: int, p: Pos)
    requires size >= 1
    ensures Occurrences(Flatten(x, y, size), p) == if InBlock(x, y, size, p) then 1 else 0
    decreases size
  {
    if size <= 2 {
      FlattenBase(x, y, size, p);
    } else {
      var q := Half(size);
      forall a, b
        ensures Covers(a, b, q, p)
      {
        FlattenCoversBlockOnce(a, b, q, p);
      }
      FlattenStep(x, y, size, q, p);
    }
  }

  // ---------------------------------------------------------------------
  // `IntRange.steps`
  // ---------------------------------------------------------------------

  predicate IsPowerOfTwo(n: int) {
    n == 1 || (n >= 2 && n % 2 == 0 && IsPowerOfTwo(n / 2))
  }

  /** Each step is aligned: it starts, at `start` plus the steps before it,
      on a multiple of its own size. */
  predicate Aligned(start: int, ys: seq<int>) {
    ys == [] || (
      var last := ys[|ys| - 1];
      Aligned(start, ys[..|ys| - 1]) && last > 0 && (start + Sum(ys[..|ys| - 1])) % last == 0)
  }

  lemma DoubleAlign(i: int, b: int)
    requires b > 0 && i % b == 0
    ensures BitSet(i, b) ==> (i + b) % (2 * b) == 0
    ensures !BitSet(i, b) ==> i % (2 * b) == 0
  {
    var q := i / b;
    assert i == q * b;
    var m := q / 2;
    assert q == 2 * m + q % 2;
    if BitSet(i, b) {
      assert i + b == (m + 1) * (2 * b) by {
        assert i == (2 * m + 1) * b;
      }
      DivModUnique(i + b, 2 * b, m + 1, 0);
    } else {
      assert i == m * (2 * b) by {
        assert i == (2 * m) * b;
      }
      DivModUnique(i, 2 * b, m, 0);
    }
  }

  lemma HalfAlign(i: int, h: int)
    requires h > 0 && i % (2 * h) == 0
    ensures i % h == 0
  {
    var q := i / (2 * h);
    assert i == q * (2 * h);
    assert i == (2 * q) * h;
    DivModUnique(i, h, 2 * q, 0);
  }

  lemma AddAlign(i: int, h: int)
    requires h > 0 && i % h == 0
    ensures (i + h) % h == 0
  {
    ModShift(i, h);
  }

  lemma AppendStep(start: int, ys: seq<int>, bit: int)
    requires Aligned(start, ys) && bit > 0 && (start + Sum(ys)) % bit == 0
    ensures Aligned(start, ys + [bit])
    ensures Sum(ys + [bit]) == Sum(ys) + bit
  {
    SumConcat(ys, [bit]);
    assert Sum([bit]) == bit;
    assert (ys + [bit])[..|ys|] == ys;
  }

  /** The step state shared by both phases of `steps`. */
  predicate StepState(start: int, i: int, bit: int, ys: seq<int>) {
    IsPowerOfTwo(bit) && bit >= 1 && i % bit == 0 && i == start + Sum(ys)
    && Aligned(start, ys) && forall k :: 0 <= k < |ys| ==> IsPowerOfTwo(ys[k])
  }

  /** One pass of the first loop: take the step `bit` if that bit of the
      cursor is set, then double `bit`. */
  method Grow(start: int, i: int, bit: int, ys: seq<int>) returns (i': int, bit': int, ys': seq<int>)
    requires StepState(start, i, bit, ys)
    ensures StepState(start, i', bit', ys') && bit' == 2 * bit
    ensures i' == (if BitSet(i, bit) then i + bit else i)
    ensures ys' == (if BitSet(i, bit) then ys + [bit] else ys)
  {
    i', ys' := i, ys;
    DoubleAlign(i, bit);
    if BitSet(i, bit) {
      AppendStep(start, ys, bit);
      ys' := ys + [bit];
      i' := i + bit;
    }
    bit' := bit * 2;
    assert IsPowerOfTwo(bit') by {
      assert bit' / 2 == bit;
    }
  }

  /** One pass of the second loop: halve `bit`, then take it as a step if it
      still fits before `end`. */
  method Shrink(start: int, end: int, i: int, bit: int, ys: seq<int>) returns (i': int, bit': int, ys': seq<int>)
    requires StepState(start, i, bit, ys) && bit >= 2
    ensures StepState(start, i', bit', ys') && bit' == bit / 2
    ensures i' == (if i + bit' <= end then i + bit' else i)
    ensures ys' == (if i + bit' <= end then ys + [bit'] else ys)
  {
    HalfAlign(i, bit / 2);
    bit' := bit / 2;
    i', ys' := i, ys;
    if i + bit' <= end {
      AppendStep(start, ys, bit');
      AddAlign(i, bit');
      ys' := ys + [bit'];
      i' := i + bit';
    }
  }

  /** `IntRange.steps`: cuts the range into aligned blocks whose sizes are
      powers of two, first growing the block size, then shrinking it. On a
      non-empty range the blocks tile it exactly; on an empty one the first
      test of bit 1 still yields a step when the start is odd. */
  method Steps(r: Range) returns (ys: seq<int>)
    ensures forall k :: 0 <= k < |ys| ==> IsPowerOfTwo(ys[k])
    ensures Aligned(r.start, ys)
    ensures !r.IsEmpty() ==> Sum(ys) == r.Size()
    ensures r.IsEmpty() ==> ys == (if r.start % 2 == 1 then [1] else [])
  {
    var i := r.start;
    var end := r.end + 1;
    var bit := 1;
    ys := [];
    // first `do … while (i + bit <= end)`
    i, bit, ys := Grow(r.start, i, bit, ys);
    while i + bit <= end
      invariant StepState(r.start, i, bit, ys) && bit >= 2
      invariant !r.IsEmpty() ==> i <= end
      invariant r.IsEmpty() ==> bit == 2 && ys == (if r.start % 2 == 1 then [1] else []) && i >= end
      decreases end - i - bit
    {
      i, bit, ys := Grow(r.start, i, bit, ys);
    }
    // second `do … while (bit > 1)`
    i, bit, ys := Shrink(r.start, end, i, bit, ys);
    while bit > 1
      invariant StepState(r.start, i, bit, ys)
      invariant !r.IsEmpty() ==> i <= end < i + bit
      invariant r.IsEmpty() ==> bit == 1 && ys == (if r.start % 2 == 1 then [1] else [])
      decreases bit
    {
      i, bit, ys := Shrink(r.start, end, i, bit, ys);
    }
  }
}
