/** The lumber-collection area: a grid of open ground, trees and
    lumberyards that changes minute by minute, each acre according to its
    eight neighbours. Part 1 scores the grid after ten minutes; part 2
    finds the first repeated grid and uses the cycle to jump to minute
    1 000 000 000. */
module Day18 {

  import opened Wrappers
  import opened Arith
  import opened Plane
  import opened Toolbox

  datatype Acre = Open | Trees | Lumberyard

  /** `height` rows of `width` acres each. */
  predicate Shaped(width: nat, height: nat, acres: seq<seq<Acre>>) {
    |acres| == height && forall y :: 0 <= y < height ==> |acres[y]| == width
  }

  datatype Landscape = Landscape(width: nat, height: nat, acres: seq<seq<Acre>>)

  type Land = l: Landscape | Shaped(l.width, l.height, l.acres) witness Landscape(0, 0, [])

  /** `Landscape(width, height)`: everything open. */
  function Blank(width: nat, height: nat): (l: Land)
    ensures l.width == width && l.height == height
    ensures forall y, x :: 0 <= y < height && 0 <= x < width ==> l.acres[y][x] == Open
  {
    Landscape(width, height, seq(height, y => seq(width, x => Open)))
  }

  predicate ValidPos(l: Land, p: Pos) {
    0 <= p.y < l.height && 0 <= p.x < l.width
  }

  /** Outside the grid every acre reads as open. */
  function Get(l: Land, p: Pos): (a: Acre)
    ensures !ValidPos(l, p) ==> a == Open
  {
    if ValidPos(l, p) then l.acres[p.y][p.x] else Open
  }

  /** Writing outside the grid does nothing. */
  function Set(l: Land, p: Pos, a: Acre): (r: Land)
    ensures r.width == l.width && r.height == l.height
    ensures !ValidPos(l, p) ==> r == l
    ensures forall q :: Get(r, q) == if q == p && ValidPos(l, p) then a else Get(l, q)
  {
    if ValidPos(l, p) then l.(acres := l.acres[p.y := l.acres[p.y][p.x := a]]) else l
  }

  /** Two grids of the same shape with the same acres are the same grid. */
  lemma SameCells(l: Land, m: Land)
    requires l.width == m.width && l.height == m.height
    requires forall p :: ValidPos(l, p) ==> Get(l, p) == Get(m, p)
    ensures l == m
  {
    forall y | 0 <= y < l.height ensures l.acres[y] == m.acres[y] {
      forall x | 0 <= x < l.width ensures l.acres[y][x] == m.acres[y][x] {
        assert Get(l, Pos(x, y)) == Get(m, Pos(x, y));
      }
    }
  }

  // ---------------------------------------------------------------------
  // Parsing and printing
  // ---------------------------------------------------------------------

  function Symbol(a: Acre): char {
    match a
    case Open => '.'
    case Trees => '|'
    case Lumberyard => '#'
  }

  /** The acre a character stands for, if any. */
  function AcreOf(c: char): (r: Option<Acre>)
    ensures r.Some? ==> Symbol(r.value) == c
    ensures r.None? ==> forall a: Acre :: Symbol(a) != c
  {
    if c == '.' then Some(Open)
    else if c == '|' then Some(Trees)
    else if c == '#' then Some(Lumberyard)
    else None
  }

  lemma AcreOfSymbol(a: Acre)
    ensures AcreOf(Symbol(a)) == Some(a)
  {
  }

  predicate Readable(rows: seq<string>) {
    forall y, x :: 0 <= y < |rows| && 0 <= x < |rows[y]| ==> AcreOf(rows[y][x]).Some?
  }

  /** `parse` on the input's lines: as wide as the longest line, a row per
      line, each character's acre where the line has one and open ground
      past a short line's end. `max()!!` of no lines throws, and so does a
      character that is not an acre's symbol. */
  function Parse(rows: seq<string>): (r: Result<Land>)
    ensures rows == [] ==> r == Err("NullPointerException")
    ensures rows != [] ==> (r.Ok? <==> Readable(rows))
    ensures rows != [] && !Readable(rows) ==> r == Err("IllegalArgumentException")
    ensures r.Ok? ==> r.value.width == MaxLength(rows) && r.value.height == |rows|
    ensures r.Ok? ==> forall y :: 0 <= y < |rows| ==> |rows[y]| <= r.value.width
    ensures r.Ok? ==> forall y, x :: 0 <= y < |rows| && 0 <= x < |rows[y]| ==>
      Get(r.value, Pos(x, y)) == AcreOf(rows[y][x]).value
    ensures r.Ok? ==> forall y, x :: 0 <= y < |rows| && |rows[y]| <= x < r.value.width ==>
      Get(r.value, Pos(x, y)) == Open
  {
    if rows == [] then Err("NullPointerException")
    else if !Readable(rows) then Err("IllegalArgumentException")
    else
      var width := MaxLength(rows);
      MaxLengthIsMax(rows);
      Ok(Landscape(width, |rows|, seq(|rows|, y requires 0 <= y < |rows| =>
        seq(width, x requires 0 <= x => if x < |rows[y]| then AcreOf(rows[y][x]).value else Open))))
  }

  /** `toString`, split into its lines: one symbol per acre. */
  function Render(l: Land): (rows: seq<string>)
    ensures |rows| == l.height
    ensures forall y :: 0 <= y < l.height ==> |rows[y]| == l.width
    ensures forall y, x :: 0 <= y < l.height && 0 <= x < l.width ==> AcreOf(rows[y][x]) == Some(Get(l, Pos(x, y)))
  {
    seq(l.height, y requires 0 <= y < l.height => seq(l.width, x requires 0 <= x < l.width => Symbol(l.acres[y][x])))
  }

  /** Parsing a printed grid gives the grid back. */
  lemma ParseRendered(l: Land)
    requires l.height >= 1
    ensures Parse(Render(l)) == Ok(l)
  {
    var rows := Render(l);
    var r := Parse(rows);
    MaxLengthIsMax(rows);
    assert MaxLength(rows) == l.width;
    SameCells(r.value, l);
  }

  // ---------------------------------------------------------------------
  // Neighbours and counts
  // ---------------------------------------------------------------------

  /** The eight surrounding positions, row by row from the one above-left. */
  function Neighbours(p: Pos): seq<Pos> {
    [Pos(p.x - 1, p.y - 1), Pos(p.x, p.y - 1), Pos(p.x + 1, p.y - 1),
     Pos(p.x - 1, p.y), Pos(p.x + 1, p.y),
     Pos(p.x - 1, p.y + 1), Pos(p.x, p.y + 1), Pos(p.x + 1, p.y + 1)]
  }

  predicate Adjacent(p: Pos, q: Pos) {
    q != p && -1 <= q.x - p.x <= 1 && -1 <= q.y - p.y <= 1
  }

  /** Exactly the eight adjacent positions, each once, never `p` itself. */
  lemma NeighboursAreAdjacent(p: Pos)
    ensures |Neighbours(p)| == 8
    ensures forall q :: q in Neighbours(p) <==> Adjacent(p, q)
    ensures forall i, j :: 0 <= i < j < 8 ==> Neighbours(p)[i] != Neighbours(p)[j]
  {
    forall q | Adjacent(p, q) ensures q in Neighbours(p) {
      var dx, dy := q.x - p.x, q.y - p.y;
      var k := if dy == -1 then dx + 1 else if dy == 0 then (if dx == -1 then 3 else 4) else dx + 6;
      assert Neighbours(p)[k] == q;
    }
  }

  /** How many of the positions hold the acre. */
  function CountAt(l: Land, ps: seq<Pos>, a: Acre): (n: nat)
    ensures n <= |ps|
  {
    if ps == [] then 0
    else CountAt(l, ps[..|ps| - 1], a) + (if Get(l, ps[|ps| - 1]) == a then 1 else 0)
  }

  /** Every position holds exactly one of the three kinds. */
  lemma {:induction false} CountsPartition(l: Land, ps: seq<Pos>)
    ensures CountAt(l, ps, Open) + CountAt(l, ps, Trees) + CountAt(l, ps, Lumberyard) == |ps|
  {
    if ps != [] {
      CountsPartition(l, ps[..|ps| - 1]);
    }
  }

  lemma {:induction false} CountNone(l: Land, ps: seq<Pos>, a: Acre)
    requires forall i :: 0 <= i < |ps| ==> Get(l, ps[i]) != a
    ensures CountAt(l, ps, a) == 0
  {
    if ps != [] {
      CountNone(l, ps[..|ps| - 1], a);
    }
  }

  function NeighbourCount(l: Land, p: Pos, a: Acre): (n: nat)
    ensures n <= 8
  {
    CountAt(l, Neighbours(p), a)
  }

  /** `positions`: row by row, left to right. */
  function Positions(width: nat, height: nat): seq<Pos> {
    if height == 0 then [] else Positions(width, height - 1) + seq(width, x => Pos(x, height - 1))
  }

  /** The positions list every cell of the grid once. */
  lemma {:induction false} PositionsListCells(width: nat, height: nat)
    ensures |Positions(width, height)| == width * height
    ensures forall p :: p in Positions(width, height) <==> 0 <= p.x < width && 0 <= p.y < height
    ensures forall i, j :: 0 <= i < j < |Positions(width, height)| ==> Positions(width, height)[i] != Positions(width, height)[j]
  {
    if height > 0 {
      PositionsListCells(width, height - 1);
      var init, row := Positions(width, height - 1), seq(width, x => Pos(x, height - 1));
      assert Positions(width, height) == init + row;
      assert width * height == width * (height - 1) + width;
      forall p: Pos | 0 <= p.x < width && 0 <= p.y < height ensures p in init + row {
        if p.y == height - 1 {
          assert row[p.x] == p;
        }
      }
      forall p: Pos | p in row ensures p.y == height - 1 {
      }
    }
  }

  function TotalCount(l: Land, a: Acre): nat {
    CountAt(l, Positions(l.width, l.height), a)
  }

  /** The three totals add up to the number of acres. */
  lemma TotalsCoverGrid(l: Land)
    ensures TotalCount(l, Open) + TotalCount(l, Trees) + TotalCount(l, Lumberyard) == l.width * l.height
  {
    CountsPartition(l, Positions(l.width, l.height));
    PositionsListCells(l.width, l.height);
  }

  /** Trees times lumberyards, as a Kotlin `Int`. */
  function ResourceValue(l: Land): (v: I32)
    ensures TotalCount(l, Trees) * TotalCount(l, Lumberyard) < TwoTo31 ==>
      v == TotalCount(l, Trees) * TotalCount(l, Lumberyard)
  {
    Wrap32(TotalCount(l, Trees) * TotalCount(l, Lumberyard))
  }

  // ---------------------------------------------------------------------
  // Equality and hashing
  // ---------------------------------------------------------------------

  /** Whether `l` and `m` agree on the listed positions. */
  predicate AllSame(l: Land, m: Land, ps: seq<Pos>) {
    ps == [] || (AllSame(l, m, ps[..|ps| - 1]) && Get(l, ps[|ps| - 1]) == Get(m, ps[|ps| - 1]))
  }

  lemma {:induction false} AllSameMeaning(l: Land, m: Land, ps: seq<Pos>)
    ensures AllSame(l, m, ps) <==> forall i :: 0 <= i < |ps| ==> Get(l, ps[i]) == Get(m, ps[i])
  {
    if ps != [] {
      AllSameMeaning(l, m, ps[..|ps| - 1]);
    }
  }

  /** The source's `equals`: `l`'s own positions agree with `m`, which
      reads as open wherever it is smaller. */
  predicate EqualsAsWritten(l: Land, m: Land) {
    AllSame(l, m, Positions(l.width, l.height))
  }

  lemma EqualsAsWrittenMeaning(l: Land, m: Land)
    ensures EqualsAsWritten(l, m) <==> forall p :: ValidPos(l, p) ==> Get(l, p) == Get(m, p)
  {
    var ps := Positions(l.width, l.height);
    AllSameMeaning(l, m, ps);
    PositionsListCells(l.width, l.height);
    if forall i :: 0 <= i < |ps| ==> Get(l, ps[i]) == Get(m, ps[i]) {
      forall p | ValidPos(l, p) ensures Get(l, p) == Get(m, p) {
        var i :| 0 <= i < |ps| && ps[i] == p;
      }
    }
  }

  function OrdinalBits(a: Acre): bv32 {
    match a
    case Open => 0
    case Trees => 1
    case Lumberyard => 2
  }

  /** The source's `hashCode`: from 31, multiply by 31 and xor in each
      acre's ordinal, row by row. Kotlin's `Int` multiplication keeps the
      low 32 bits, which is multiplication of the bits modulo 2^32. */
  function HashOf(l: Land, ps: seq<Pos>): bv32 {
    if ps == [] then 31 else HashStep(HashOf(l, ps[..|ps| - 1]), Get(l, ps[|ps| - 1]))
  }

  /** One step of the hash: multiply by 31 and xor in the acre's ordinal. */
  function HashStep(h: bv32, a: Acre): bv32 {
    (h * 31) ^ OrdinalBits(a)
  }

  /** The acres of `rows`, row after row. */
  function Flatten(rows: seq<seq<Acre>>): seq<Acre> {
    if rows == [] then [] else Flatten(rows[..|rows| - 1]) + rows[|rows| - 1]
  }

  /** The hash fold over a plain list of acres. */
  function HashCells(cs: seq<Acre>): bv32 {
    if cs == [] then 31 else HashStep(HashCells(cs[..|cs| - 1]), cs[|cs| - 1])
  }

  /** Positions read off as `cs`: folding either gives the same hash. */
  lemma {:induction false} HashOfCells(l: Land, ps: seq<Pos>, cs: seq<Acre>)
    requires |ps| == |cs| && forall i :: 0 <= i < |ps| ==> Get(l, ps[i]) == cs[i]
    ensures HashOf(l, ps) == HashCells(cs)
    decreases |ps|
  {
    if ps != [] {
      var n := |ps| - 1;
      HashOfCells(l, ps[..n], cs[..n]);
    }
  }

  /** The first `h` rows of positions read off the first `h` rows of acres. */
  lemma {:induction false} PositionsReadRows(l: Land, h: nat)
    requires h <= l.height
    ensures |Positions(l.width, h)| == |Flatten(l.acres[..h])|
    ensures forall i :: 0 <= i < |Positions(l.width, h)| ==> Get(l, Positions(l.width, h)[i]) == Flatten(l.acres[..h])[i]
  {
    if h > 0 {
      PositionsReadRows(l, h - 1);
      assert l.acres[..h][..h - 1] == l.acres[..h - 1];
      var init, row := Positions(l.width, h - 1), seq(l.width, x => Pos(x, h - 1));
      assert Positions(l.width, h) == init + row;
      assert Flatten(l.acres[..h]) == Flatten(l.acres[..h - 1]) + l.acres[h - 1];
    }
  }

  /** `hashCode`: the fold over the acres read row by row. */
  function Hash(l: Land): (r: I32)
    ensures r == FromBits32(HashCells(Flatten(l.acres)))
  {
    PositionsReadRows(l, l.height);
    assert l.acres[..l.height] == l.acres;
    HashOfCells(l, Positions(l.width, l.height), Flatten(l.acres));
    FromBits32(HashOf(l, Positions(l.width, l.height)))
  }

  /** One open acre equals two open acres... */
  lemma EqualsAsWrittenIgnoresWidth()
    ensures EqualsAsWritten(Blank(1, 1), Blank(2, 1))
  {
    EqualsAsWrittenMeaning(Blank(1, 1), Blank(2, 1));
  }

  /** ...yet their hashes differ. */
  lemma HashSeesWidth()
    ensures Hash(Blank(1, 1)) == 961 && Hash(Blank(2, 1)) == 29791
  {
    assert Positions(1, 1) == [Pos(0, 0)];
    assert Positions(2, 1) == [Pos(0, 0), Pos(1, 0)];
    assert [Pos(0, 0), Pos(1, 0)][..1] == [Pos(0, 0)];
  }

  /** Equality that also compares the dimensions: the same shape and the
      same acre everywhere. */
  function Equals(l: Land, m: Land): (r: bool)
    ensures r <==> l.width == m.width && l.height == m.height && forall p :: ValidPos(l, p) ==> Get(l, p) == Get(m, p)
  {
    EqualsAsWrittenMeaning(l, m);
    l.width == m.width && l.height == m.height && EqualsAsWritten(l, m)
  }

  /** It is the grids' identity, so it is symmetric and agrees with `Hash`. */
  lemma EqualsIsIdentity(l: Land, m: Land)
    ensures Equals(l, m) <==> l == m
    ensures Equals(l, m) ==> Equals(m, l) && Hash(l) == Hash(m)
  {
    EqualsAsWrittenMeaning(l, m);
    if Equals(l, m) {
      SameCells(l, m);
    }
    if l == m {
      EqualsAsWrittenMeaning(l, l);
    }
  }

  // ---------------------------------------------------------------------
  // One minute
  // ---------------------------------------------------------------------

  /** What an acre becomes. */
  function Rule(l: Land, p: Pos): (a: Acre)
    ensures a == Trees <==>
      (Get(l, p) == Open && NeighbourCount(l, p, Trees) >= 3) || (Get(l, p) == Trees && NeighbourCount(l, p, Lumberyard) < 3)
    ensures a == Lumberyard <==>
      (Get(l, p) == Trees && NeighbourCount(l, p, Lumberyard) >= 3) ||
      (Get(l, p) == Lumberyard && NeighbourCount(l, p, Lumberyard) >= 1 && NeighbourCount(l, p, Trees) >= 1)
  {
    match Get(l, p)
    case Open => if NeighbourCount(l, p, Trees) >= 3 then Trees else Open
    case Trees => if NeighbourCount(l, p, Lumberyard) >= 3 then Lumberyard else Trees
    case Lumberyard =>
      if NeighbourCount(l, p, Lumberyard) >= 1 && NeighbourCount(l, p, Trees) >= 1 then Lumberyard else Open
  }

  /** The grid a minute later, acre by acre from the old grid only. */
  function Next(l: Land): (r: Land)
    ensures r.width == l.width && r.height == l.height
    ensures forall p :: ValidPos(l, p) ==> Get(r, p) == Rule(l, p)
  {
    Landscape(l.width, l.height, seq(l.height, y => seq(l.width, x => Rule(l, Pos(x, y)))))
  }

  /** Whether `q` comes before row `y`, column `x` in row-major order. */
  predicate Before(q: Pos, x: int, y: int) {
    q.y < y || (q.y == y && q.x < x)
  }

  /** `tick` as written: a blank grid of the same shape, written position
      by position with the rule applied to the old grid. */
  method Tick(l: Land) returns (next: Land)
    ensures next == Next(l)
  {
    next := Blank(l.width, l.height);
    var y := 0;
    while y < l.height
      invariant 0 <= y <= l.height
      invariant next.width == l.width && next.height == l.height
      invariant forall q :: ValidPos(l, q) ==> Get(next, q) == if q.y < y then Rule(l, q) else Open
    {
      var x := 0;
      while x < l.width
        invariant 0 <= x <= l.width
        invariant next.width == l.width && next.height == l.height
        invariant forall q :: ValidPos(l, q) ==> Get(next, q) == if Before(q, x, y) then Rule(l, q) else Open
      {
        next := Set(next, Pos(x, y), Rule(l, Pos(x, y)));
        x := x + 1;
      }
      y := y + 1;
    }
    forall p | ValidPos(l, p) ensures Get(next, p) == Get(Next(l), p) {
    }
    SameCells(next, Next(l));
  }

  /** Bare ground stays bare. */
  lemma BlankStaysBlank(width: nat, height: nat)
    ensures Next(Blank(width, height)) == Blank(width, height)
  {
    var b := Blank(width, height);
    forall p | ValidPos(b, p) ensures Get(Next(b), p) == Get(b, p) {
      CountNone(b, Neighbours(p), Trees);
    }
    SameCells(Next(b), b);
  }

  // ---------------------------------------------------------------------
  // The timeline and the two parts
  // ---------------------------------------------------------------------

  /** The resource value of the grid after ten minutes: trees times
      lumberyards, wrapped to an `Int`. */
  function Part1(l: Land): (r: I32)
    ensures var g := Iterate(Next, l, 10); r == Wrap32(TotalCount(g, Trees) * TotalCount(g, Lumberyard))
  {
    ResourceValue(Iterate(Next, l, 10))
  }

  /** Once a state recurs after `p` steps, it recurs every `p` steps. */
  lemma {:induction false} Periodic<T>(f: T -> T, x: T, start: nat, p: nat, k: nat, r: nat)
    requires Iterate(f, x, start) == Iterate(f, x, start + p)
    ensures Iterate(f, x, start + k * p + r) == Iterate(f, x, start + r)
  {
    if k > 0 {
      Periodic(f, x, start, p, k - 1, r + p);
      assert start + k * p + r == start + (k - 1) * p + (r + p);
      IterateAdd(f, x, start, p + r);
      IterateAdd(f, x, start + p, r);
      IterateAdd(f, x, start, r);
      assert start + (p + r) == (start + p) + r;
    }
  }

  /** So the state at any `n >= start` is the one `(n - start) % p` steps
      after `start`. */
  lemma Landing<T>(f: T -> T, x: T, start: nat, p: nat, n: nat)
    requires p > 0 && start <= n
    requires Iterate(f, x, start) == Iterate(f, x, start + p)
    ensures Iterate(f, x, n) == Iterate(f, x, start + (n - start) % p)
  {
    var k, r := (n - start) / p, (n - start) % p;
    Periodic(f, x, start, p, k, r);
    assert start + k * p + r == n;
  }

  /** `findLoop` from position `i`: `seen` maps each earlier element to its
      index, and those earlier elements are all different. */
  function FindFrom<T(==)>(ts: seq<T>, i: nat, seen: map<T, nat>): (r: Result<(nat, nat)>)
    requires i <= |ts|
    requires forall a, b :: 0 <= a < b < i ==> ts[a] != ts[b]
    requires forall a :: 0 <= a < i ==> ts[a] in seen && seen[ts[a]] == a
    requires forall t :: t in seen ==> exists a :: 0 <= a < i && ts[a] == t
    ensures r.Ok? ==> r.value.0 < r.value.1 < |ts| && ts[r.value.0] == ts[r.value.1]
    ensures r.Ok? ==> forall a, b :: 0 <= a < b < r.value.1 ==> ts[a] != ts[b]
    ensures r.Err? ==> r == Err("OutOfFuel") && forall a, b :: 0 <= a < b < |ts| ==> ts[a] != ts[b]
    decreases |ts| - i
  {
    if i == |ts| then Err("OutOfFuel")
    else if ts[i] in seen then Ok((seen[ts[i]], i))
    else FindFrom(ts, i + 1, seen[ts[i] := i])
  }

  /** The first element equal to an earlier one, and that earlier one;
      `ts` is the stretch of the endless timeline the model looks at. */
  function FindLoop<T(==)>(ts: seq<T>): (r: Result<(nat, nat)>)
    ensures r.Ok? ==> r.value.0 < r.value.1 < |ts| && ts[r.value.0] == ts[r.value.1]
    ensures r.Ok? ==> forall a, b :: 0 <= a < b < r.value.1 ==> ts[a] != ts[b]
    ensures r.Err? ==> r == Err("OutOfFuel") && forall a, b :: 0 <= a < b < |ts| ==> ts[a] != ts[b]
  {
    FindFrom(ts, 0, map[])
  }

  /** The first `n` grids of the timeline. */
  function Timeline(l: Land, n: nat): (ts: seq<Land>)
    ensures |ts| == n && forall i :: 0 <= i < n ==> ts[i] == Iterate(Next, l, i)
  {
    seq(n, i requires 0 <= i => Iterate(Next, l, i))
  }

  const Minutes := 1000000000

  /** Taking away the remainder leaves whole multiples of `p`, and there
      are none exactly when `n` is below `p`. */
  lemma WholeMultiples(n: int, p: int)
    requires n >= 0 && p > 0
    ensures (n - n % p) % p == 0
    ensures n / p == 0 <==> n < p
  {
    DivModUnique(n - n % p, p, n / p, 0);
    if n < p {
      DivModUnique(n, p, 0, n);
    }
  }

  /** The offset into the loop as written: the remainder is taken modulo
      the number of loops instead of the loop's length. */
  function LastLoopAsWritten(start: nat, end: nat): (r: Result<int>)
    requires start < end
    ensures r.Err? <==> -(end - start) < Minutes - start < end - start
    ensures r.Err? ==> r == Err("ArithmeticException")
    ensures r.Ok? && start <= Minutes ==>
      var loops := (Minutes - start) / (end - start);
      0 <= r.value < loops && (Minutes - start - r.value) % loops == 0
  {
    var n, p := Minutes - start, end - start;
    WholeMultiples(if n >= 0 then n else -n, p);
    var loops := TruncDiv(n, p);
    if loops == 0 then Err("ArithmeticException")
    else
      assert n >= 0 ==> (n - n % loops) % loops == 0 by {
        if n >= 0 {
          WholeMultiples(n, loops);
        }
      }
      Ok(TruncMod(n, loops))
  }

  /** The intended offset: the remainder modulo the loop's length. */
  function LastLoop(start: nat, end: nat): (r: int)
    requires start < end
    ensures start <= Minutes ==> 0 <= r < end - start && (Minutes - start - r) % (end - start) == 0
    ensures start > Minutes ==> -(end - start) < r <= 0
  {
    assert start <= Minutes ==> (Minutes - start - (Minutes - start) % (end - start)) % (end - start) == 0 by {
      if start <= Minutes {
        WholeMultiples(Minutes - start, end - start);
      }
    }
    TruncMod(Minutes - start, end - start)
  }

  /** The two agree whenever there are more loops than the remainder, which
      holds for loops much shorter than the square root of the minutes. */
  lemma LastLoopAgrees(start: nat, end: nat)
    requires start < end && start <= Minutes
    requires (Minutes - start) / (end - start) > (Minutes - start) % (end - start)
    ensures LastLoopAsWritten(start, end) == Ok(LastLoop(start, end))
  {
    var n, p := Minutes - start, end - start;
    var q, r := n / p, n % p;
    assert n == p * q + r;
    DivModUnique(n, q, p, r);
  }

  /** A loop longer than the minutes left after it: no loops, so the
      remainder divides by zero. */
  lemma LastLoopDividesByZero()
    ensures LastLoopAsWritten(0, 1000000001) == Err("ArithmeticException")
  {
  }

  /** A loop of 600 000 000 minutes from the start: one loop, so the as-
      written offset is 0 where the intended one is 400 000 000. */
  lemma LastLoopMisses()
    ensures LastLoopAsWritten(0, 600000000) == Ok(0)
    ensures LastLoop(0, 600000000) == 400000000
  {
  }

  /** `drop(start)` then `drop(offset)` then `first()` of the timeline. */
  function Landed(l: Land, start: nat, offset: int): (r: Result<Land>)
    ensures r.Ok? <==> offset >= 0
    ensures r.Ok? ==> r.value == Iterate(Next, l, start + offset)
  {
    if offset < 0 then Err("IllegalArgumentException") else Ok(Iterate(Next, l, start + offset))
  }

  /** The loop found fits more whole loops into the minutes left after its
      start than the remainder, so both offsets agree. */
  predicate LoopsExceedRemainder(start: nat, end: nat) {
    start < end && start <= Minutes && (Minutes - start) / (end - start) > (Minutes - start) % (end - start)
  }

  /** Part 2 as written, looking for the loop among the first `fuel` grids:
      when it answers, it answers with the resource value of some grid of
      the timeline, and it agrees with the intended part 2 whenever the
      loop fits more whole loops than its remainder. */
  function Part2AsWritten(l: Land, fuel: nat): (r: Result<I32>)
    ensures r.Ok? ==> FindLoop(Timeline(l, fuel)).Ok?
    ensures r.Ok? ==> exists n: nat :: r.value == ResourceValue(Iterate(Next, l, n))
    ensures var found := FindLoop(Timeline(l, fuel));
      found.Ok? && LoopsExceedRemainder(found.value.0, found.value.1) ==> r == Part2(l, fuel)
  {
    match FindLoop(Timeline(l, fuel))
    case Err(e) => Err(e)
    case Ok((start, end)) =>
      assert LoopsExceedRemainder(start, end) ==> LastLoopAsWritten(start, end) == Ok(LastLoop(start, end)) by {
        if LoopsExceedRemainder(start, end) {
          LastLoopAgrees(start, end);
        }
      }
      match LastLoopAsWritten(start, end)
      case Err(e) => Err(e)
      case Ok(offset) => LandValue(l, start, offset)
  }

  /** The resource value of the grid `offset` minutes after `start`. */
  function LandValue(l: Land, start: nat, offset: int): (r: Result<I32>)
    ensures r.Ok? <==> offset >= 0
    ensures r.Ok? ==> r.value == ResourceValue(Iterate(Next, l, start + offset))
  {
    match Landed(l, start, offset)
    case Err(e) => Err(e)
    case Ok(last) => Ok(ResourceValue(last))
  }

  /** Part 2 with the intended offset. */
  function Part2(l: Land, fuel: nat): (r: Result<I32>)
    ensures r.Ok? ==> FindLoop(Timeline(l, fuel)).Ok?
    ensures fuel <= Minutes ==> (r.Ok? <==> FindLoop(Timeline(l, fuel)).Ok?)
  {
    match FindLoop(Timeline(l, fuel))
    case Err(e) => Err(e)
    case Ok((start, end)) => LandValue(l, start, LastLoop(start, end))
  }

  /** It is the value after a billion minutes. */
  lemma Part2Lands(l: Land, fuel: nat)
    requires fuel <= Minutes && Part2(l, fuel).Ok?
    ensures Part2(l, fuel).value == ResourceValue(Iterate(Next, l, Minutes))
  {
    var ts := Timeline(l, fuel);
    var (start, end) := FindLoop(ts).value;
    assert ts[start] == ts[end];
    LoopLands(l, start, end);
  }

  /** Landing on the last loop of a repeat found before the last minute
      gives the grid after the last minute. */
  lemma LoopLands(l: Land, start: nat, end: nat)
    requires start < end <= Minutes
    requires Iterate(Next, l, start) == Iterate(Next, l, end)
    ensures Landed(l, start, LastLoop(start, end)) == Ok(Iterate(Next, l, Minutes))
  {
    var p := end - start;
    assert LastLoop(start, end) == (Minutes - start) % p;
    Landing(Next, l, start, p, Minutes);
  }
}
