/** Water flowing down from the spring at (500, 0) through a scan of clay
    veins. A flow falls while the cell below is free, spreads left and
    right where it cannot fall, and stops at the bottom row of the scan's
    bounding box. The flow's path matters to the source only through its
    last cell, so the model carries that cell alone. */
module Day17 {

  import opened Wrappers
  import opened Plane

  /** A vertical vein at one column over a range of rows, or a horizontal
      one at one row over a range of columns. */
  datatype Vein =
    | Vertical(col: int, rows: Range)
    | Horizontal(row: int, cols: Range)

  datatype Scan = Scan(veins: seq<Vein>)

  function Down(p: Pos): Pos { Pos(p.x, p.y + 1) }
  function Left(p: Pos): Pos { Pos(p.x - 1, p.y) }
  function Right(p: Pos): Pos { Pos(p.x + 1, p.y) }

  /** `IntRange.extend(ir)`: an empty range becomes `ir`, otherwise the
      bounds widen to the smaller start and the larger end. */
  function ExtendRange(r: Range, ir: Range): (e: Range)
    ensures r.IsEmpty() ==> e == ir
    ensures forall j :: r.Contains(j) ==> e.Contains(j)
    ensures forall j :: !r.IsEmpty() && ir.Contains(j) ==> e.Contains(j)
    ensures !r.IsEmpty() ==> e.start == (if ir.start < r.start then ir.start else r.start)
    ensures !r.IsEmpty() ==> e.end == (if ir.end > r.end then ir.end else r.end)
  {
    if r.IsEmpty() then ir
    else Range(if ir.start < r.start then ir.start else r.start, if ir.end > r.end then ir.end else r.end)
  }

  /** `isAt`: the cell lies on the vein's segment. */
  predicate IsAt(v: Vein, p: Pos) {
    match v
    case Vertical(x, y) => x == p.x && y.Contains(p.y)
    case Horizontal(y, x) => y == p.y && x.Contains(p.x)
  }

  /** `veinAt`: some vein covers the cell. */
  predicate VeinAt(s: Scan, p: Pos) {
    exists i :: 0 <= i < |s.veins| && IsAt(s.veins[i], p)
  }

  /** One step of the `boundingBox` fold. */
  function AddVein(b: Box, v: Vein): (r: Box)
    ensures forall p :: b.Contains(p) ==> r.Contains(p)
    ensures forall p :: IsAt(v, p) ==> r.Contains(p)
  {
    match v
    case Vertical(x, y) => Box(Extend(b.x, x), ExtendRange(b.y, y))
    case Horizontal(y, x) => Box(ExtendRange(b.x, x), Extend(b.y, y))
  }

  /** The bounding box of the first veins, folded from the empty box. */
  function BoundingBox(veins: seq<Vein>): Box
  {
    if veins == [] then EmptyBox else AddVein(BoundingBox(veins[..|veins| - 1]), veins[|veins| - 1])
  }

  /** The bounding box holds every cell of every vein. */
  lemma {:induction false} BoundingBoxCoversVeins(veins: seq<Vein>, p: Pos)
    requires exists i :: 0 <= i < |veins| && IsAt(veins[i], p)
    ensures BoundingBox(veins).Contains(p)
  {
    var i :| 0 <= i < |veins| && IsAt(veins[i], p);
    var init := veins[..|veins| - 1];
    if i < |veins| - 1 {
      assert init[i] == veins[i];
      BoundingBoxCoversVeins(init, p);
    }
  }

  /** Whether a cell lies on the box's last row. */
  predicate ReachedBottom(s: Scan, p: Pos) {
    p.y == BoundingBox(s.veins).y.end
  }

  predicate AnyAtBottom(s: Scan, f: set<Pos>) {
    exists p :: p in f && ReachedBottom(s, p)
  }

  /** A cell water may enter: neither wet yet nor clay. */
  predicate Free(s: Scan, p: Pos, f: set<Pos>) {
    p !in f && !VeinAt(s, p)
  }

  /** `fillFrom`: the flow's last cell is `end` and `filled` is wet so far.
      At the bottom the cell is added and the flow stops. Otherwise it
      falls into a free cell below; if neither that fall nor anything
      already wet has reached the bottom, it spreads across from the cell
      it ended on (the one below after a fall). Each recursion costs fuel,
      since the source does not stop when the flow starts below the box. */
  function FillFrom(s: Scan, end: Pos, filled: set<Pos>, fuel: nat): (r: Result<set<Pos>>)
    ensures r.Err? ==> r == Err("OutOfFuel")
    ensures r.Ok? ==> filled <= r.value && (end in r.value || AnyAtBottom(s, filled))
    ensures r.Ok? ==> forall p :: p in r.value && p !in filled && p != end ==> !VeinAt(s, p)
    ensures r.Ok? ==> forall p :: p in r.value && p !in filled ==> end.y <= p.y
    ensures r.Ok? && end.y <= BoundingBox(s.veins).y.end ==>
      forall p :: p in r.value && p !in filled ==> p.y <= BoundingBox(s.veins).y.end
    decreases fuel, 0
  {
    if fuel == 0 then Err("OutOfFuel")
    else if ReachedBottom(s, end) then Ok(filled + {end})
    else
      var down := Down(end);
      if Free(s, down, filled) then
        match FillFrom(s, down, filled + {end}, fuel - 1)
        case Err(e) => Err(e)
        case Ok(f) => if AnyAtBottom(s, f) then Ok(f) else FillAcross(s, down, f, fuel - 1)
      else if AnyAtBottom(s, filled) then Ok(filled)
      else FillAcross(s, end, filled, fuel - 1)
  }

  /** `fillAcross`: wets `last` and starts a flow to the left and one to the
      right where the neighbour is free; both start from the same wet set
      and their results are joined. */
  function FillAcross(s: Scan, last: Pos, filled: set<Pos>, fuel: nat): (r: Result<set<Pos>>)
    ensures r.Err? ==> r == Err("OutOfFuel")
    ensures r.Ok? ==> filled + {last} <= r.value
    ensures r.Ok? ==> forall p :: p in r.value && p !in filled && p != last ==> !VeinAt(s, p)
    ensures r.Ok? ==> forall p :: p in r.value && p !in filled ==> last.y <= p.y
    ensures r.Ok? && last.y <= BoundingBox(s.veins).y.end ==>
      forall p :: p in r.value && p !in filled ==> p.y <= BoundingBox(s.veins).y.end
    decreases fuel, 1
  {
    var branchFilled := filled + {last};
    match (if Free(s, Left(last), filled) then FillFrom(s, Left(last), branchFilled, fuel) else Ok({}))
    case Err(e) => Err(e)
    case Ok(left) =>
      match (if Free(s, Right(last), filled) then FillFrom(s, Right(last), branchFilled, fuel) else Ok({}))
      case Err(e) => Err(e)
      case Ok(right) => Ok(branchFilled + left + right)
  }

  const Spring := Pos(500, 0)

  /** Every wet cell, without the spring itself. */
  function Fill(s: Scan, fuel: nat): (r: Result<set<Pos>>)
    ensures r.Err? ==> r == Err("OutOfFuel")
    ensures r.Ok? ==> Spring !in r.value
    ensures r.Ok? ==> forall p :: p in r.value ==> !VeinAt(s, p) && Spring.y <= p.y
    ensures r.Ok? && Spring.y <= BoundingBox(s.veins).y.end ==>
      forall p :: p in r.value ==> p.y <= BoundingBox(s.veins).y.end
  {
    match FillFrom(s, Spring, {}, fuel)
    case Err(e) => Err(e)
    case Ok(f) => Ok(f - {Spring})
  }

  /** Once something wet lies on the bottom row, a flow only falls straight
      down: it never spreads sideways again. */
  lemma {:induction false} NoSpreadAfterBottom(s: Scan, end: Pos, filled: set<Pos>, fuel: nat)
    requires AnyAtBottom(s, filled)
    requires FillFrom(s, end, filled, fuel).Ok?
    ensures forall p :: p in FillFrom(s, end, filled, fuel).value && p !in filled ==> p.x == end.x
    decreases fuel
  {
    if !ReachedBottom(s, end) && Free(s, Down(end), filled) {
      NoSpreadAfterBottom(s, Down(end), filled + {end}, fuel - 1);
    }
  }

  /** A flow that starts on the bottom row wets that cell and stops. */
  lemma StopsAtBottom(s: Scan, end: Pos, filled: set<Pos>, fuel: nat)
    requires fuel > 0 && ReachedBottom(s, end)
    ensures FillFrom(s, end, filled, fuel) == Ok(filled + {end})
  {
  }
}
