/** Manhattan territories: every coordinate floods the bounding box outwards,
    claiming the cells it is strictly nearest to; ties become equidistant
    cells. Part 2 counts the cells whose summed distance is below a limit. */
module Day6 {

  import opened Wrappers
  import opened Plane
  import Toolbox

  /** `IntRange.extend` in this file: unlike the other days there is no case
      for the empty range, so extending `1..0` keeps 1 and 0 in range. */
  function ExtendAsWritten(r: Range, i: int): (e: Range)
    ensures e.Contains(i)
    ensures e.start <= r.start && r.end <= e.end
    ensures e.start == i || e.start == r.start
    ensures e.end == i || e.end == r.end
  {
    Range(if i < r.start then i else r.start, if i > r.end then i else r.end)
  }

  /** `Box.plus`: the box widened to cover `p`. */
  function Plus(b: Box, p: Pos): (r: Box)
    ensures r.Contains(p)
    ensures forall q :: b.Contains(q) ==> r.Contains(q)
  {
    Box(ExtendAsWritten(b.x, p.x), ExtendAsWritten(b.y, p.y))
  }

  /** A parsed coordinate with its sequential id. */
  datatype Site = Site(id: int, pos: Pos)

  /** `spaceExtent`: folds `Plus` over the coordinates starting from the
      empty box `1..0`; the result contains every coordinate, and, the empty
      range not being special, its start is at most 1 and its end at least
      0 on each axis. */
  function SpaceExtent(sites: seq<Site>): (b: Box)
    ensures forall s :: s in sites ==> b.Contains(s.pos)
    ensures b.x.start <= 1 && 0 <= b.x.end && b.y.start <= 1 && 0 <= b.y.end
    ensures sites != [] ==> b.Width() >= 1 && b.Height() >= 1
  {
    if sites == [] then EmptyBox else Plus(SpaceExtent(sites[..|sites| - 1]), sites[|sites| - 1].pos)
  }

  // ---------------------------------------------------------------------
  // Cells and the space
  // ---------------------------------------------------------------------

  datatype Cell =
    | Unclaimed
    | Coordinate(id: int)
    | Claimed(id: int, distance: nat)
    | Equidistant(distance: nat)

  predicate ClaimedBy(c: Cell, id: int) {
    (c.Claimed? || c.Coordinate?) && c.id == id
  }

  /** `Space`: the grid over a box, one value per position of the box. */
  datatype Space<T> = Space(box: Box, cells: map<Pos, T>)

  ghost predicate WellFormed<T>(s: Space<T>) {
    s.cells.Keys == BoxCells(s.box)
  }

  /** `makeSpace`: every position of the box holds `empty`. */
  function MakeSpace<T>(box: Box, empty: T): (s: Space<T>)
    ensures WellFormed(s) && s.box == box
    ensures forall p :: p in s.cells ==> s.cells[p] == empty
  {
    Space(box, map p | p in BoxCells(box) :: empty)
  }

  /** The cell at `p` is claimed by `id`. */
  predicate ClaimedAt(s: Space<Cell>, p: Pos, id: int) {
    p in s.cells && ClaimedBy(s.cells[p], id)
  }

  // ---------------------------------------------------------------------
  // The flood fill
  // ---------------------------------------------------------------------

  predicate HasDistance(c: Cell) {
    c.Claimed? || c.Equidistant?
  }

  /** A strict improvement: an unclaimed cell gains a claim, a distance
      shrinks, or a claim at the same distance becomes a tie. */
  ghost predicate Improves(after: Cell, before: Cell) {
    || (before.Unclaimed? && HasDistance(after))
    || (HasDistance(before) && HasDistance(after) && after.distance < before.distance)
    || (before.Claimed? && after.Equidistant? && after.distance == before.distance)
  }

  /** The rule of the inner `fill` for one cell reached by coordinate `id`
      at `distance`. Coordinate cells and the coordinate's own claims are
      kept; a strictly nearer coordinate takes over; an equal distance from
      another coordinate makes a tie; anything else is kept. */
  function NewCell(cell: Cell, id: int, distance: nat): (r: Cell)
    ensures cell.Coordinate? ==> r == cell
    ensures cell.Claimed? && cell.id == id ==> r == cell
    ensures cell.Unclaimed? ==> r == Claimed(id, distance)
    ensures HasDistance(cell) && !ClaimedBy(cell, id) && distance < cell.distance ==> r == Claimed(id, distance)
    ensures cell.Claimed? && cell.id != id && distance == cell.distance ==> r == Equidistant(distance)
    ensures HasDistance(cell) && distance > cell.distance ==> r == cell
    ensures cell.Equidistant? && distance == cell.distance ==> r == cell
    ensures r != cell ==> Improves(r, cell)
  {
    match cell
    case Unclaimed => Claimed(id, distance)
    case Claimed(cid, d) =>
      if cid == id then cell
      else if distance < d then Claimed(id, distance)
      else if distance == d then Equidistant(distance)
      else cell
    case Equidistant(d) => if distance < d then Claimed(id, distance) else cell
    case Coordinate(_) => cell
  }

  /** `around`: the four neighbours in the order UP, DOWN, LEFT, RIGHT. */
  function Around(p: Pos): (r: seq<Pos>)
    ensures |r| == 4 && p !in r
    ensures forall q :: q in r <==> Manhattan(p, q) == 1
  {
    [Pos(p.x, p.y - 1), Pos(p.x, p.y + 1), Pos(p.x - 1, p.y), Pos(p.x + 1, p.y)]
  }

  /** The inner `fill(p)` for coordinate `site`: outside the box nothing
      happens; inside, the cell takes its `NewCell` value and, only if that
      changed it, the neighbours are returned for expansion. */
  function FillAt(s: Space<Cell>, site: Site, p: Pos): (r: (Space<Cell>, seq<Pos>))
    requires WellFormed(s)
    ensures WellFormed(r.0) && r.0.box == s.box
    ensures !s.box.Contains(p) ==> r.0 == s
    ensures forall q :: q in s.cells && q != p ==> r.0.cells[q] == s.cells[q]
    ensures s.box.Contains(p) ==> r.0.cells[p] == NewCell(s.cells[p], site.id, Manhattan(p, site.pos))
    ensures r.1 == if r.0 == s then [] else Around(p)
  {
    if !s.box.Contains(p) then (s, [])
    else
      var cell := s.cells[p];
      var newCell := NewCell(cell, site.id, Manhattan(p, site.pos));
      if newCell != cell then
        assert s.cells[p := newCell].Keys == s.cells.Keys;
        assert s.cells[p := newCell] != s.cells by {
          assert s.cells[p := newCell][p] != s.cells[p];
        }
        (Space(s.box, s.cells[p := newCell]), Around(p))
      else
        assert s.cells[p := newCell] == s.cells;
        (s, [])
  }

  /** `stack.addAll(ps)` on an insertion-ordered set: appends, in order, the
      elements not already present. */
  function AddAll(stack: seq<Pos>, ps: seq<Pos>): (r: seq<Pos>)
    ensures forall q :: q in r <==> q in stack || q in ps
    ensures |r| >= |stack| && r[..|stack|] == stack
    decreases |ps|
  {
    if ps == [] then stack
    else if ps[0] in stack then AddAll(stack, ps[1..])
    else AddAll(stack + [ps[0]], ps[1..])
  }

  /** A cell value never moves away from its coordinate: claims only get
      nearer, and `Coordinate` cells never change. */
  ghost predicate NoFarther(after: Cell, before: Cell) {
    || before.Unclaimed?
    || after == before
    || (HasDistance(before) && HasDistance(after) && after.distance <= before.distance)
  }

  /** Every cell of `b` is no farther than it was in `a`, over the same box. */
  ghost predicate Progressed(b: Space<Cell>, a: Space<Cell>) {
    && b.box == a.box
    && b.cells.Keys == a.cells.Keys
    && forall q :: q in a.cells ==> NoFarther(b.cells[q], a.cells[q])
  }

  lemma ProgressedTrans(c: Space<Cell>, b: Space<Cell>, a: Space<Cell>)
    requires Progressed(c, b) && Progressed(b, a)
    ensures Progressed(c, a)
  {
  }

  lemma {:induction false} ProgressedRefl(a: Space<Cell>)
    ensures Progressed(a, a)
  {
  }

  /** The worklist loop: take the first position, add what `fill` returns,
      remove the position. `fuel` bounds the number of iterations, and
      running out of it with work left gives `OutOfFuel`. */
  function FillLoop(s: Space<Cell>, site: Site, stack: seq<Pos>, fuel: nat): (r: Result<Space<Cell>>)
    requires WellFormed(s)
    ensures stack == [] ==> r == Ok(s)
    ensures r.Err? ==> r == Err("OutOfFuel") && stack != []
    ensures r.Ok? ==> WellFormed(r.value) && Progressed(r.value, s)
    decreases fuel
  {
    if stack == [] then
      ProgressedRefl(s);
      Ok(s)
    else if fuel == 0 then Err("OutOfFuel")
    else
      var (s', pushed) := FillAt(s, site, stack[0]);
      assert Progressed(s', s);
      var r := FillLoop(s', site, AddAll(stack, pushed)[1..], fuel - 1);
      if r.Ok? then
        ProgressedTrans(r.value, s', s);
        r
      else r
  }

  /** `Space.fill(c)`: the worklist starts with the neighbours of the coordinate. */
  function Fill(s: Space<Cell>, site: Site, fuel: nat): (r: Result<Space<Cell>>)
    requires WellFormed(s)
    ensures r.Err? ==> r == Err("OutOfFuel")
    ensures r.Ok? ==> WellFormed(r.value) && Progressed(r.value, s)
  {
    FillLoop(s, site, AddAll([], Around(site.pos)), fuel)
  }

  /** Fills for each coordinate in turn; the first fill that runs out of
      fuel ends the whole. */
  function FillAll(s: Space<Cell>, sites: seq<Site>, fuel: nat): (r: Result<Space<Cell>>)
    requires WellFormed(s)
    ensures sites == [] ==> r == Ok(s)
    ensures r.Err? ==> r == Err("OutOfFuel")
    ensures r.Ok? ==> WellFormed(r.value) && Progressed(r.value, s)
    decreases |sites|
  {
    if sites == [] then
      ProgressedRefl(s);
      Ok(s)
    else
      match Fill(s, sites[0], fuel)
      case Err(m) => Err(m)
      case Ok(s') =>
        var r := FillAll(s', sites[1..], fuel);
        if r.Ok? then
          ProgressedTrans(r.value, s', s);
          r
        else r
  }

  /** Writes a `Coordinate` cell at each coordinate's position. */
  function PlaceSites(s: Space<Cell>, sites: seq<Site>): (r: Space<Cell>)
    requires WellFormed(s)
    requires forall t :: t in sites ==> s.box.Contains(t.pos)
    ensures WellFormed(r) && r.box == s.box
    ensures forall t :: t in sites ==> r.cells[t.pos].Coordinate?
    ensures forall q :: q in s.cells && (forall t :: t in sites ==> t.pos != q) ==> r.cells[q] == s.cells[q]
  {
    if sites == [] then s
    else
      var t := sites[|sites| - 1];
      var s' := PlaceSites(s, sites[..|sites| - 1]);
      assert s'.cells[t.pos := Coordinate(t.id)].Keys == s'.cells.Keys;
      Space(s'.box, s'.cells[t.pos := Coordinate(t.id)])
  }

  // ---------------------------------------------------------------------
  // Areas
  // ---------------------------------------------------------------------

  datatype Area = Infinite | Finite(size: nat)

  /** Some cell of row `y` with column in `x .. x+n-1` is claimed by `id`. */
  function RowAny(s: Space<Cell>, y: int, x: int, n: nat, id: int): (r: bool)
    ensures r <==> exists k :: x <= k < x + n && ClaimedAt(s, Pos(k, y), id)
    decreases n
  {
    if n == 0 then false else ClaimedAt(s, Pos(x, y), id) || RowAny(s, y, x + 1, n - 1, id)
  }

  /** Some cell of column `x` with row in `y .. y+n-1` is claimed by `id`. */
  function ColumnAny(s: Space<Cell>, x: int, y: int, n: nat, id: int): (r: bool)
    ensures r <==> exists k :: y <= k < y + n && ClaimedAt(s, Pos(x, k), id)
    decreases n
  {
    if n == 0 then false else ClaimedAt(s, Pos(x, y), id) || ColumnAny(s, x, y + 1, n - 1, id)
  }

  /** `p` lies on the border of box `b`. */
  predicate OnEdge(b: Box, p: Pos) {
    b.Contains(p) && (p.y == b.y.start || p.y == b.y.end || p.x == b.x.start || p.x == b.x.end)
  }

  /** Number of cells claimed by `id` (its `Coordinate` cell included). */
  function ClaimedCount(s: Space<Cell>, id: int): nat {
    |set p | p in s.cells && ClaimedBy(s.cells[p], id)|
  }

  /** `areaForCoordinate`: infinite exactly when a border cell is claimed by
      `id`, otherwise the number of claimed cells. Taking the first row of a
      space without rows fails, as it does in the source. */
  function AreaForCoordinate(s: Space<Cell>, id: int): (r: Result<Area>)
    requires WellFormed(s)
    ensures r.Ok? <==> s.box.Width() >= 1 && s.box.Height() >= 1
    ensures r.Ok? ==> (r.value.Infinite? <==> exists p :: OnEdge(s.box, p) && ClaimedAt(s, p, id))
    ensures r.Ok? && r.value.Finite? ==> r.value.size == ClaimedCount(s, id)
  {
    var b := s.box;
    if b.Width() < 1 || b.Height() < 1 then Err("NoSuchElementException")
    else
      var top := RowAny(s, b.y.start, b.x.start, b.Width(), id);
      var bottom := RowAny(s, b.y.end, b.x.start, b.Width(), id);
      var left := ColumnAny(s, b.x.start, b.y.start, b.Height(), id);
      var right := ColumnAny(s, b.x.end, b.y.start, b.Height(), id);
      assert (exists p :: OnEdge(b, p) && ClaimedAt(s, p, id)) ==> top || bottom || left || right by {
        if p :| OnEdge(b, p) && ClaimedAt(s, p, id) {
          if p.y == b.y.start {
            assert ClaimedAt(s, Pos(p.x, b.y.start), id);
          } else if p.y == b.y.end {
            assert ClaimedAt(s, Pos(p.x, b.y.end), id);
          } else if p.x == b.x.start {
            assert ClaimedAt(s, Pos(b.x.start, p.y), id);
          } else {
            assert ClaimedAt(s, Pos(b.x.end, p.y), id);
          }
        }
      }
      assert top || bottom || left || right ==> exists p :: OnEdge(b, p) && ClaimedAt(s, p, id) by {
        if top {
          var k :| b.x.start <= k < b.x.start + b.Width() && ClaimedAt(s, Pos(k, b.y.start), id);
          assert OnEdge(b, Pos(k, b.y.start));
        } else if bottom {
          var k :| b.x.start <= k < b.x.start + b.Width() && ClaimedAt(s, Pos(k, b.y.end), id);
          assert OnEdge(b, Pos(k, b.y.end));
        } else if left {
          var k :| b.y.start <= k < b.y.start + b.Height() && ClaimedAt(s, Pos(b.x.start, k), id);
          assert OnEdge(b, Pos(b.x.start, k));
        } else if right {
          var k :| b.y.start <= k < b.y.start + b.Height() && ClaimedAt(s, Pos(b.x.end, k), id);
          assert OnEdge(b, Pos(b.x.end, k));
        }
      }
      if top || bottom || left || right then Ok(Infinite) else Ok(Finite(ClaimedCount(s, id)))
  }

  /** A finite area counts at least the coordinate's own cell and at most the box. */
  lemma FiniteAreaBounds(s: Space<Cell>, site: Site)
    requires WellFormed(s) && ClaimedAt(s, site.pos, site.id)
    ensures 1 <= ClaimedCount(s, site.id) <= |s.cells|
  {
    var claimed := set p | p in s.cells && ClaimedBy(s.cells[p], site.id);
    assert site.pos in claimed;
    assert claimed <= s.cells.Keys;
    Toolbox.SubsetSize(claimed, s.cells.Keys);
  }

  /** The score of `part1`'s `maxBy`: infinite areas score 0. */
  function Score(a: Area): nat {
    match a
    case Finite(n) => n
    case Infinite => 0
  }

  /** The first area with the highest score among `areas[..n+1]`. */
  function FirstBest(areas: seq<Area>, n: nat): (i: nat)
    requires n < |areas|
    ensures i <= n
    ensures forall k :: 0 <= k <= n ==> Score(areas[k]) <= Score(areas[i])
    ensures forall k :: 0 <= k < i ==> Score(areas[k]) < Score(areas[i])
  {
    if n == 0 then 0
    else
      var b := FirstBest(areas, n - 1);
      if Score(areas[n]) > Score(areas[b]) then n else b
  }

  /** The filled space of `part1`: coordinates placed, then each one flooded. */
  function FilledSpace(sites: seq<Site>, fuel: nat): (r: Result<Space<Cell>>)
    ensures r.Err? ==> r == Err("OutOfFuel")
    ensures r.Ok? ==> WellFormed(r.value) && r.value.box == SpaceExtent(sites)
  {
    var box := SpaceExtent(sites);
    var placed := PlaceSites(MakeSpace(box, Unclaimed), sites);
    match FillAll(placed, sites, fuel)
    case Err(m) => Err(m)
    case Ok(s) =>
      assert s.box == placed.box;
      Ok(s)
  }

  /** The areas of the coordinates, in input order. */
  function Areas(sites: seq<Site>, fuel: nat): (r: Result<seq<Area>>)
    requires sites != []
    ensures r.Err? <==> FilledSpace(sites, fuel).Err?
    ensures r.Err? ==> r == Err("OutOfFuel")
    ensures r.Ok? ==> |r.value| == |sites|
    ensures r.Ok? ==> forall i :: 0 <= i < |sites| ==> Ok(r.value[i]) == AreaForCoordinate(FilledSpace(sites, fuel).value, sites[i].id)
  {
    match FilledSpace(sites, fuel)
    case Err(m) => Err(m)
    case Ok(s) => Ok(seq(|sites|, i requires 0 <= i < |sites| => AreaForCoordinate(s, sites[i].id).value))
  }

  /** `part1`: the first area of highest score; none without coordinates. */
  function Part1(sites: seq<Site>, fuel: nat): (r: Result<Option<Area>>)
    ensures sites == [] ==> r == Ok(None)
    ensures sites != [] ==> (r.Err? <==> FilledSpace(sites, fuel).Err?)
    ensures r.Err? ==> r == Err("OutOfFuel")
    ensures r.Ok? && sites != [] ==> r.value.Some?
    ensures r.Ok? && sites != [] ==>
      exists i :: 0 <= i < |sites| && r.value.value == Areas(sites, fuel).value[i]
    ensures r.Ok? && sites != [] ==>
      forall k :: 0 <= k < |sites| ==> Score(Areas(sites, fuel).value[k]) <= Score(r.value.value)
  {
    if sites == [] then Ok(None)
    else
      match Areas(sites, fuel)
      case Err(m) => Err(m)
      case Ok(areas) => Ok(Some(areas[FirstBest(areas, |areas| - 1)]))
  }

  // ---------------------------------------------------------------------
  // Part 2
  // ---------------------------------------------------------------------

  function SumDistance(sites: seq<Site>, p: Pos): nat {
    if sites == [] then 0 else Manhattan(sites[0].pos, p) + SumDistance(sites[1..], p)
  }

  /** `fillDistances`: rows top to bottom, each left to right, store the
      summed distance to all coordinates. */
  method FillDistances(box: Box, sites: seq<Site>) returns (s: Space<nat>)
    ensures WellFormed(s) && s.box == box
    ensures forall p :: p in s.cells ==> s.cells[p] == SumDistance(sites, p)
  {
    var cells: map<Pos, nat> := map[];
    var y := box.y.start;
    while y <= box.y.end
      invariant box.y.start <= y <= box.y.end + 1 || (y == box.y.start && box.y.IsEmpty())
      invariant forall p :: p in cells <==> box.Contains(p) && p.y < y
      invariant forall p :: p in cells ==> cells[p] == SumDistance(sites, p)
      decreases box.y.end - y
    {
      var x := box.x.start;
      while x <= box.x.end
        invariant box.x.start <= x <= box.x.end + 1 || (x == box.x.start && box.x.IsEmpty())
        invariant forall p :: p in cells <==> box.Contains(p) && (p.y < y || (p.y == y && p.x < x))
        invariant forall p :: p in cells ==> cells[p] == SumDistance(sites, p)
        decreases box.x.end - x
      {
        cells := cells[Pos(x, y) := SumDistance(sites, Pos(x, y))];
        x := x + 1;
      }
      y := y + 1;
    }
    assert cells.Keys == BoxCells(box);
    s := Space(box, cells);
  }

  /** The cells of `box` whose summed distance to all coordinates is below `max`. */
  function NearCells(box: Box, sites: seq<Site>, max: int): set<Pos> {
    set p | p in BoxCells(box) && SumDistance(sites, p) < max
  }

  /** A larger limit never counts fewer cells, and never more than the box holds. */
  lemma NearCellsMonotone(box: Box, sites: seq<Site>, lo: int, hi: int)
    requires lo <= hi
    ensures NearCells(box, sites, lo) <= NearCells(box, sites, hi) <= BoxCells(box)
    ensures |NearCells(box, sites, lo)| <= |NearCells(box, sites, hi)| <= |BoxCells(box)|
  {
    Toolbox.SubsetSize(NearCells(box, sites, lo), NearCells(box, sites, hi));
    Toolbox.SubsetSize(NearCells(box, sites, hi), BoxCells(box));
  }

  /** `part2`: the number of cells of the extent whose summed distance to all
      coordinates is below `max`. */
  method Part2(sites: seq<Site>, max: int) returns (n: nat)
    ensures n == |NearCells(SpaceExtent(sites), sites, max)|
  {
    var box := SpaceExtent(sites);
    var s := FillDistances(box, sites);
    var below := set p | p in s.cells && s.cells[p] < max;
    var wanted := NearCells(box, sites, max);
    forall p
      ensures p in below <==> p in wanted
    {
      if p in s.cells {
        assert s.cells[p] == SumDistance(sites, p);
      }
    }
    assert below == wanted;
    n := |below|;
  }
}
