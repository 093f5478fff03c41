/** Two-dimensional grid geometry shared by the grid puzzles: positions,
    reading order, Manhattan distance, inclusive integer ranges and boxes,
    and a sort by reading order. */
module Plane {

  import opened Wrappers

  datatype Pos = Pos(x: int, y: int)

  /** `rows[p.y][p.x]` on a grid of text rows, which may differ in length;
      either index outside the rows throws. */
  function CellAt(rows: seq<seq<char>>, p: Pos): (r: Result<char>)
    ensures r.Ok? <==> 0 <= p.y < |rows| && 0 <= p.x < |rows[p.y]|
    ensures r.Ok? ==> r.value == rows[p.y][p.x]
  {
    if 0 <= p.y < |rows| && 0 <= p.x < |rows[p.y]| then Ok(rows[p.y][p.x]) else Err("IndexOutOfBoundsException")
  }

  /** Reading order: by row (y) ascending, then by column (x) ascending. */
  predicate ReadingLess(a: Pos, b: Pos) {
    a.y < b.y || (a.y == b.y && a.x < b.x)
  }

  /** The source's reading-order comparator: the difference of the rows,
      or of the columns when the rows agree (machine overflow not modelled). */
  function ReadingCompare(a: Pos, b: Pos): (r: int)
    ensures r < 0 <==> ReadingLess(a, b)
    ensures r > 0 <==> ReadingLess(b, a)
    ensures r == 0 <==> a == b
  {
    if a.y - b.y != 0 then a.y - b.y else a.x - b.x
  }

  lemma ReadingLessIsStrictTotal(a: Pos, b: Pos, c: Pos)
    ensures !ReadingLess(a, a)
    ensures ReadingLess(a, b) ==> !ReadingLess(b, a)
    ensures a != b ==> ReadingLess(a, b) || ReadingLess(b, a)
    ensures ReadingLess(a, b) && ReadingLess(b, c) ==> ReadingLess(a, c)
  {
  }

  function Abs(n: int): nat {
    if n < 0 then -n else n
  }

  function Manhattan(a: Pos, b: Pos): nat {
    Abs(a.x - b.x) + Abs(a.y - b.y)
  }

  lemma ManhattanIsMetric(a: Pos, b: Pos)
    ensures Manhattan(a, b) == Manhattan(b, a)
    ensures Manhattan(a, b) == 0 <==> a == b
  {
  }

  /** Kotlin's `IntRange` `start..end` (end inclusive); empty when start > end.
      `Range(1, 0)` is Kotlin's `IntRange.EMPTY`. */
  datatype Range = Range(start: int, end: int) {
    predicate IsEmpty() { start > end }
    predicate Contains(i: int) { start <= i <= end }
    function Size(): nat { if start > end then 0 else end - start + 1 }
  }

  const EmptyRange := Range(1, 0)

  /** `extend` as written in the days that test for the empty range first:
      the empty range becomes `i..i`, otherwise the bounds widen to cover `i`. */
  function Extend(r: Range, i: int): (e: Range)
    ensures e.Contains(i)
    ensures forall j :: r.Contains(j) ==> e.Contains(j)
    ensures r.IsEmpty() ==> e == Range(i, i)
    ensures !r.IsEmpty() ==> e.start == (if i < r.start then i else r.start)
    ensures !r.IsEmpty() ==> e.end == (if i > r.end then i else r.end)
  {
    if r.IsEmpty() then Range(i, i)
    else Range(if i < r.start then i else r.start, if i > r.end then i else r.end)
  }

  datatype Box = Box(x: Range, y: Range) {
    predicate Contains(p: Pos) { x.Contains(p.x) && y.Contains(p.y) }
    function Width(): int { x.end - x.start + 1 }
    function Height(): int { y.end - y.start + 1 }
  }

  const EmptyBox := Box(EmptyRange, EmptyRange)

  /** The set of positions inside a box. */
  function BoxCells(b: Box): (r: set<Pos>)
    ensures forall p :: p in r <==> b.Contains(p)
  {
    var r := set x: int, y: int | b.x.start <= x <= b.x.end && b.y.start <= y <= b.y.end :: Pos(x, y);
    assert forall p :: b.Contains(p) ==> Pos(p.x, p.y) in r;
    r
  }

  /** `Box.plus(p)` with the empty-testing `extend`. */
  function AddPos(b: Box, p: Pos): (r: Box)
    ensures r.Contains(p)
    ensures forall q :: b.Contains(q) ==> r.Contains(q)
  {
    Box(Extend(b.x, p.x), Extend(b.y, p.y))
  }

  // ---------------------------------------------------------------------
  // Stable sort by reading order of a key (Kotlin's `sortedWith`)
  // ---------------------------------------------------------------------

  ghost predicate SortedBy<T>(s: seq<T>, key: T -> Pos) {
    forall i, j :: 0 <= i < j < |s| ==> !ReadingLess(key(s[j]), key(s[i]))
  }

  /** Inserts `x` in front of the first element that is not strictly before it. */
  function InsertBy<T>(x: T, s: seq<T>, key: T -> Pos): (r: seq<T>)
    requires SortedBy(s, key)
    ensures SortedBy(r, key)
    ensures multiset(r) == multiset(s) + multiset{x}
    ensures |r| == |s| + 1
    ensures forall y :: y in r ==> y == x || y in s
  {
    if s == [] || !ReadingLess(key(s[0]), key(x)) then
      [x] + s
    else
      assert s == [s[0]] + s[1..];
      HeadFirst(s, key);
      var rest := InsertBy(x, s[1..], key);
      ConsSorted(s[0], rest, key);
      [s[0]] + rest
  }

  /** In a sorted sequence nothing comes before the head. */
  lemma HeadFirst<T>(s: seq<T>, key: T -> Pos)
    requires SortedBy(s, key) && s != []
    ensures forall y :: y in s[1..] ==> !ReadingLess(key(y), key(s[0]))
  {
    forall y | y in s[1..] ensures !ReadingLess(key(y), key(s[0])) {
      var k :| 0 <= k < |s[1..]| && s[1..][k] == y;
      assert s[k + 1] == y;
    }
  }

  /** A head that nothing in a sorted tail comes before keeps it sorted. */
  lemma ConsSorted<T>(h: T, rest: seq<T>, key: T -> Pos)
    requires SortedBy(rest, key) && forall y :: y in rest ==> !ReadingLess(key(y), key(h))
    ensures SortedBy([h] + rest, key)
  {
    var r := [h] + rest;
    forall i, j | 0 <= i < j < |r| ensures !ReadingLess(key(r[j]), key(r[i])) {
      assert r[j] == rest[j - 1];
      if i > 0 {
        assert r[i] == rest[i - 1];
      } else {
        assert rest[j - 1] in rest;
      }
    }
  }

  /** Insertion sort by reading order of a key: a sorted permutation of the input. */
  function SortBy<T>(s: seq<T>, key: T -> Pos): (r: seq<T>)
    ensures SortedBy(r, key)
    ensures multiset(r) == multiset(s)
    ensures |r| == |s|
  {
    if s == [] then []
    else
      assert s == [s[0]] + s[1..];
      InsertBy(s[0], SortBy(s[1..], key), key)
  }
}
