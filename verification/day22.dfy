/** The cave below the target: every region's geologic index and erosion
    level follow from the cave depth and the target, the erosion level
    fixes the region type and its risk, and the type decides which two of
    the three tools may be used there. */
module Day22 {

  import opened Wrappers
  import opened Arith
  import opened Plane

  datatype Model = Model(depth: int, target: Pos)

  // ---------------------------------------------------------------------
  // Region types
  // ---------------------------------------------------------------------

  datatype Region = Rocky | Wet | Narrow

  function Risk(t: Region): nat {
    match t
    case Rocky => 0
    case Wet => 1
    case Narrow => 2
  }

  const ErosionModulus := 20183

  /** `Square.type`: the erosion level's remainder by 3, with the Kotlin
      remainder; a negative remainder has no type and the constructor
      throws. */
  function TypeOf(erosion: int): (r: Result<Region>)
    ensures r.Ok? <==> TruncMod(erosion, 3) >= 0
    ensures erosion >= 0 ==> r.Ok?
    ensures r.Ok? ==> Risk(r.value) == TruncMod(erosion, 3)
    ensures r.Err? ==> r == Err("IllegalStateException")
  {
    var k := TruncMod(erosion, 3);
    if k == 0 then Ok(Rocky)
    else if k == 1 then Ok(Wet)
    else if k == 2 then Ok(Narrow)
    else Err("IllegalStateException")
  }

  // ---------------------------------------------------------------------
  // The reference definition of the cave
  // ---------------------------------------------------------------------

  /** The geologic index at `(x, y)`: 0 at the target, `x * 16807` on the
      top row, `y * 48271` on the left column, and otherwise the product of
      the erosion levels to the left and above. With a depth of at least
      zero it is never negative. */
  function GeologicIndex(m: Model, x: nat, y: nat): (r: int)
    ensures m.depth >= 0 ==> r >= 0
    decreases x + y, 0
  {
    if Pos(x, y) == m.target then 0
    else if y == 0 then x * 16807
    else if x == 0 then y * 48271
    else
      var left, above := Erosion(m, x - 1, y), Erosion(m, x, y - 1);
      assert m.depth >= 0 ==> left * above >= 0 by {
        if m.depth >= 0 {
          ProductNonNegative(left, above);
        }
      }
      left * above
  }

  /** The erosion level: geologic index plus depth, Kotlin remainder by
      20183. It has the sign of that sum, so with a depth of at least zero
      it lies in `0..20182` and every region has a type. */
  function Erosion(m: Model, x: nat, y: nat): (r: int)
    ensures -ErosionModulus < r < ErosionModulus
    ensures m.depth >= 0 ==> 0 <= r
    decreases x + y, 1
  {
    TruncMod(GeologicIndex(m, x, y) + m.depth, ErosionModulus)
  }

  lemma ProductNonNegative(a: int, b: int)
    requires a >= 0 && b >= 0
    ensures a * b >= 0
  {
  }

  // ---------------------------------------------------------------------
  // Building the cave
  // ---------------------------------------------------------------------

  /** A square holds its indices and the type its erosion level gives. */
  datatype Square = Square(geologicIndex: int, erosionLevel: int, region: Region)

  /** The square the grid holds at `(x, y)`. */
  predicate IsSquareAt(m: Model, x: nat, y: nat, sq: Square) {
    && sq.geologicIndex == GeologicIndex(m, x, y)
    && sq.erosionLevel == Erosion(m, x, y)
    && TypeOf(sq.erosionLevel) == Ok(sq.region)
  }

  /** Row `y` of a grid `width` squares wide. */
  predicate RowBuilt(m: Model, width: nat, y: nat, row: seq<Square>) {
    |row| == width && forall x :: 0 <= x < width ==> IsSquareAt(m, x, y, row[x])
  }

  /** Some region of the `width` by `height` grid has no type. */
  predicate Untyped(m: Model, width: nat, height: nat) {
    exists x: nat, y: nat :: x < width && y < height && TypeOf(Erosion(m, x, y)).Err?
  }

  datatype Cave = Cave(model: Model, limit: Pos, grid: seq<seq<Square>>)

  /** The `Cave` constructor: a grid `limit.x + 1` squares wide and
      `limit.y + 1` high, filled row by row from the top and each row from
      the left, reading the square to the left from the row being built
      and the one above from the previous row. A negative size fails as
      the array allocation does: the outer array for a negative height,
      and the rows for a negative width only when there is a row to
      allocate. A region without a type fails as the square's constructor
      does. */
  method BuildCave(m: Model, limit: Pos) returns (r: Result<Cave>)
    ensures limit.y < -1 || (limit.y >= 0 && limit.x < -1) ==> r == Err("NegativeArraySizeException")
    ensures limit.y == -1 ==> r == Ok(Cave(m, limit, []))
    ensures limit.x >= -1 && limit.y >= 0 ==> (r.Ok? <==> !Untyped(m, limit.x + 1, limit.y + 1))
    ensures r.Err? && limit.x >= -1 && limit.y >= 0 ==> r == Err("IllegalStateException")
    ensures r.Ok? ==> r.value.model == m && r.value.limit == limit
    ensures r.Ok? ==> |r.value.grid| == limit.y + 1
    ensures r.Ok? && limit.x >= -1 ==> forall y :: 0 <= y < |r.value.grid| ==> RowBuilt(m, limit.x + 1, y, r.value.grid[y])
  {
    if limit.y < -1 || (limit.y >= 0 && limit.x < -1) {
      return Err("NegativeArraySizeException");
    }
    if limit.y == -1 {
      return Ok(Cave(m, limit, []));
    }
    var width := limit.x + 1;
    var height := limit.y + 1;
    var grid: seq<seq<Square>> := [];
    var y := 0;
    while y < height
      invariant 0 <= y <= height && |grid| == y
      invariant forall j :: 0 <= j < y ==> RowBuilt(m, width, j, grid[j])
      invariant !Untyped(m, width, y)
    {
      var row: seq<Square> := [];
      var x := 0;
      while x < width
        invariant 0 <= x <= width && |row| == x
        invariant forall i :: 0 <= i < x ==> IsSquareAt(m, i, y, row[i])
        invariant forall i: nat :: i < x ==> TypeOf(Erosion(m, i, y)).Ok?
      {
        var gi;
        if Pos(x, y) == m.target {
          gi := 0;
        } else if y == 0 {
          gi := x * 16807;
        } else if x == 0 {
          gi := y * 48271;
        } else {
          assert IsSquareAt(m, x, y - 1, grid[y - 1][x]);
          gi := row[x - 1].erosionLevel * grid[y - 1][x].erosionLevel;
        }
        var el := TruncMod(gi + m.depth, ErosionModulus);
        assert gi == GeologicIndex(m, x, y) && el == Erosion(m, x, y);
        var t := TypeOf(el);
        if t.Err? {
          assert TypeOf(Erosion(m, x, y)).Err?;
          return Err("IllegalStateException");
        }
        row := row + [Square(gi, el, t.value)];
        x := x + 1;
      }
      NoUntypedRow(m, width, y);
      grid := grid + [row];
      y := y + 1;
    }
    return Ok(Cave(m, limit, grid));
  }

  /** A typed grid stays typed when a fully typed row is added. */
  lemma NoUntypedRow(m: Model, width: nat, y: nat)
    requires !Untyped(m, width, y)
    requires forall i: nat :: i < width ==> TypeOf(Erosion(m, i, y)).Ok?
    ensures !Untyped(m, width, y + 1)
  {
  }

  /** With a depth of at least zero and a limit inside the quadrant the
      cave is always built. */
  lemma BuildsWithDepth(m: Model, width: nat, height: nat)
    requires m.depth >= 0
    ensures !Untyped(m, width, height)
  {
    forall x: nat, y: nat | x < width && y < height ensures TypeOf(Erosion(m, x, y)).Ok? {
    }
  }

  // ---------------------------------------------------------------------
  // Risk level
  // ---------------------------------------------------------------------

  function RowRisk(row: seq<Square>): nat {
    if row == [] then 0 else RowRisk(row[..|row| - 1]) + Risk(row[|row| - 1].region)
  }

  function GridRisk(grid: seq<seq<Square>>): nat {
    if grid == [] then 0 else GridRisk(grid[..|grid| - 1]) + RowRisk(grid[|grid| - 1])
  }

  /** Every square risks at most 2. */
  lemma {:induction false} RowRiskBound(row: seq<Square>)
    ensures RowRisk(row) <= 2 * |row|
  {
    if row != [] {
      RowRiskBound(row[..|row| - 1]);
    }
  }

  /** So a grid of `height` rows of `width` squares risks at most `2 * width * height`. */
  lemma {:induction false} GridRiskBound(grid: seq<seq<Square>>, width: nat)
    requires forall y :: 0 <= y < |grid| ==> |grid[y]| == width
    ensures GridRisk(grid) <= 2 * width * |grid|
  {
    if grid != [] {
      var n := |grid| - 1;
      GridRiskBound(grid[..n], width);
      RowRiskBound(grid[n]);
      assert 2 * width * (n + 1) == 2 * width * n + 2 * width;
    }
  }

  /** The risk of a row the constructor built is the sum of its erosion
      levels' remainders by 3. */
  lemma {:induction false} RowRiskIsErosion(m: Model, width: nat, y: nat, row: seq<Square>)
    requires RowBuilt(m, width, y, row)
    ensures RowRisk(row) == ErosionRisk(m, width, y)
  {
    if width > 0 {
      var init := row[..width - 1];
      assert RowBuilt(m, width - 1, y, init) by {
        forall x | 0 <= x < width - 1 ensures IsSquareAt(m, x, y, init[x]) {
          assert init[x] == row[x];
        }
      }
      RowRiskIsErosion(m, width - 1, y, init);
      assert IsSquareAt(m, width - 1, y, row[width - 1]);
    }
  }

  /** The sum over the first `width` regions of row `y` of the erosion
      level's remainder by 3. */
  function ErosionRisk(m: Model, width: nat, y: nat): int {
    if width == 0 then 0 else ErosionRisk(m, width - 1, y) + TruncMod(Erosion(m, width - 1, y), 3)
  }

  /** The sum of `ErosionRisk` over rows `0 .. height-1`: the risk of the
      rectangle from the mouth, by the reference definition. */
  function CaveRisk(m: Model, width: nat, height: nat): int {
    if height == 0 then 0 else CaveRisk(m, width, height - 1) + ErosionRisk(m, width, height - 1)
  }

  /** The risk of a grid the constructor built is the reference sum. */
  lemma {:induction false} GridRiskIsErosion(m: Model, width: nat, grid: seq<seq<Square>>)
    requires forall y :: 0 <= y < |grid| ==> RowBuilt(m, width, y, grid[y])
    ensures GridRisk(grid) == CaveRisk(m, width, |grid|)
  {
    if grid != [] {
      var n := |grid| - 1;
      assert forall y :: 0 <= y < n ==> grid[..n][y] == grid[y];
      GridRiskIsErosion(m, width, grid[..n]);
      RowRiskIsErosion(m, width, n, grid[n]);
    }
  }

  /** `riskLevel`: Kotlin's `sum()` of the risks of every square, wrapping
      at 32 bits: it differs from the exact sum by a multiple of 2^32 and
      equals it whenever the sum fits. */
  function RiskLevel(c: Cave): (r: I32)
    ensures (GridRisk(c.grid) - r) % TwoTo32 == 0
    ensures GridRisk(c.grid) < TwoTo31 ==> r == GridRisk(c.grid)
  {
    var x := GridRisk(c.grid);
    DivModUnique(x - Wrap32(x), TwoTo32, (x + TwoTo31) / TwoTo32, 0);
    Wrap32(x)
  }

  /** Below 2^30 squares the sum cannot wrap: the risk level is the exact
      sum, at most twice the number of squares. */
  lemma RiskLevelBound(c: Cave, width: nat)
    requires forall y :: 0 <= y < |c.grid| ==> |c.grid[y]| == width
    requires 2 * width * |c.grid| < TwoTo31
    ensures RiskLevel(c) == GridRisk(c.grid)
    ensures 0 <= RiskLevel(c) <= 2 * width * |c.grid|
  {
    GridRiskBound(c.grid, width);
  }

  /** The risk of the cave between the mouth and the target: the
      reference sum of the erosion levels' remainders by 3 over the
      rectangle, wrapped to 32 bits as Kotlin's `sum()` does, and exact
      below 2^30 regions. */
  method Part1(m: Model) returns (r: Result<I32>)
    ensures m.depth >= 0 && m.target.x >= 0 && m.target.y >= 0 ==> r.Ok?
    ensures m.target.y < -1 || (m.target.y >= 0 && m.target.x < -1) ==> r == Err("NegativeArraySizeException")
    ensures m.target.y == -1 ==> r == Ok(0)
    ensures r.Ok? && m.target.x >= -1 && m.target.y >= 0 ==>
      r.value == Wrap32(CaveRisk(m, m.target.x + 1, m.target.y + 1))
    ensures r.Ok? && m.target.x >= -1 && m.target.y >= 0 && 2 * (m.target.x + 1) * (m.target.y + 1) < TwoTo31 ==>
      r.value == CaveRisk(m, m.target.x + 1, m.target.y + 1) <= 2 * (m.target.x + 1) * (m.target.y + 1)
  {
    if m.depth >= 0 && m.target.x >= 0 && m.target.y >= 0 {
      BuildsWithDepth(m, m.target.x + 1, m.target.y + 1);
    }
    var cave := BuildCave(m, m.target);
    match cave {
      case Err(e) => return Err(e);
      case Ok(c) =>
        if m.target.y == -1 {
          assert c.grid == [] && GridRisk([]) == 0;
          return Ok(RiskLevel(c));
        }
        BuiltRisk(m, m.target.x + 1, c);
        return Ok(RiskLevel(c));
    }
  }

  /** The risk level of a built grid is the wrapped reference sum, and the
      exact one when it cannot wrap. */
  lemma BuiltRisk(m: Model, width: nat, c: Cave)
    requires forall y :: 0 <= y < |c.grid| ==> RowBuilt(m, width, y, c.grid[y])
    ensures RiskLevel(c) == Wrap32(CaveRisk(m, width, |c.grid|))
    ensures 2 * width * |c.grid| < TwoTo31 ==> RiskLevel(c) == CaveRisk(m, width, |c.grid|) <= 2 * width * |c.grid|
  {
    forall y | 0 <= y < |c.grid|
      ensures |c.grid[y]| == width
    {
      assert RowBuilt(m, width, y, c.grid[y]);
    }
    GridRiskIsErosion(m, width, c.grid);
    if 2 * width * |c.grid| < TwoTo31 {
      RiskLevelBound(c, width);
    }
  }

  // ---------------------------------------------------------------------
  // Tools
  // ---------------------------------------------------------------------

  datatype Tool = Neither | Torch | ClimbingGear

  /** `availableTools`: two tools per region; rocky regions forbid neither,
      wet ones the torch, narrow ones the climbing gear. */
  function AvailableTools(t: Region): (r: set<Tool>)
    ensures |r| == 2
    ensures Neither in r <==> t != Rocky
    ensures Torch in r <==> t != Wet
    ensures ClimbingGear in r <==> t != Narrow
  {
    match t
    case Rocky => {ClimbingGear, Torch}
    case Wet => {ClimbingGear, Neither}
    case Narrow => {Torch, Neither}
  }

  /** Two different region types share exactly one tool, so stepping
      between them never needs a tool neither allows. */
  lemma SharedTool(a: Region, b: Region)
    ensures a != b ==> |AvailableTools(a) * AvailableTools(b)| == 1
    ensures a == b ==> AvailableTools(a) * AvailableTools(b) == AvailableTools(a)
  {
    if a != b {
      var both := AvailableTools(a) * AvailableTools(b);
      match (a, b) {
        case (Rocky, Wet) => assert both == {ClimbingGear};
        case (Wet, Rocky) => assert both == {ClimbingGear};
        case (Rocky, Narrow) => assert both == {Torch};
        case (Narrow, Rocky) => assert both == {Torch};
        case (Wet, Narrow) => assert both == {Neither};
        case (Narrow, Wet) => assert both == {Neither};
      }
    }
  }

  // ---------------------------------------------------------------------
  // Climbing states
  // ---------------------------------------------------------------------

  /** A position reached at a time holding a tool, linked to the state it
      was reached from. */
  datatype Climb = Climb(prev: Option<Climb>, pos: Pos, time: I32, tool: Tool)

  /** `move`: one minute to a neighbouring position with the same tool. */
  function Move(s: Climb, p: Pos): (r: Climb)
    ensures r.prev == Some(s) && r.pos == p && r.tool == s.tool
    ensures s.time < TwoTo31 - 1 ==> r.time == s.time + 1
  {
    Climb(Some(s), p, Wrap32(s.time + 1), s.tool)
  }

  /** `changeTool`: seven minutes in place to switch tools. */
  function ChangeTool(s: Climb, t: Tool): (r: Climb)
    ensures r.prev == Some(s) && r.pos == s.pos && r.tool == t
    ensures s.time < TwoTo31 - 7 ==> r.time == s.time + 7
  {
    Climb(Some(s), s.pos, Wrap32(s.time + 7), t)
  }

  /** `reversePath`: the state and every state it was reached from, latest first. */
  function ReversePath(s: Climb): (r: seq<Climb>)
    ensures r != [] && r[0] == s
    decreases s
  {
    match s.prev
    case None => [s]
    case Some(p) => [s] + ReversePath(p)
  }

  /** A step that needs a tool change costs eight minutes and adds two
      states to the path. */
  lemma SwitchAndMove(s: Climb, t: Tool, p: Pos)
    requires s.time < TwoTo31 - 8
    ensures Move(ChangeTool(s, t), p).time == s.time + 8
    ensures Move(ChangeTool(s, t), p).tool == t
    ensures ReversePath(Move(ChangeTool(s, t), p)) == [Move(ChangeTool(s, t), p), ChangeTool(s, t)] + ReversePath(s)
  {
  }

  /** Times are Kotlin `Int`s: moving from the no-path sentinel, whose time
      is the largest `Int`, wraps to the smallest one. */
  lemma SentinelMoveWraps(p: Pos)
    ensures Move(Climb(None, Pos(0, 0), TwoTo31 - 1, Neither), p).time == -TwoTo31
  {
  }
}
