/** Beverage Bandits, the board: directions and neighbours, creatures and
    the cave, the orders that break ties, and parsing the map. */
module Day15 {

  import opened Wrappers
  import opened Plane
  import opened Toolbox

  // ---------------------------------------------------------------------
  // Directions and neighbours
  // ---------------------------------------------------------------------

  /** The directions in the order the source declares them. */
  datatype Dir = Up | Left | Right | Down

  /** `Pos + Dir`, with y growing downwards. */
  function Plus(p: Pos, d: Dir): (q: Pos)
    ensures Manhattan(p, q) == 1
  {
    match d
    case Up => Pos(p.x, p.y - 1)
    case Left => Pos(p.x - 1, p.y)
    case Right => Pos(p.x + 1, p.y)
    case Down => Pos(p.x, p.y + 1)
  }

  /** `neighbours`: the four cells one step away, in the order of the
      directions (the order of the source's insertion-ordered set). */
  function Neighbours(p: Pos): seq<Pos> {
    [Plus(p, Up), Plus(p, Left), Plus(p, Right), Plus(p, Down)]
  }

  /** `isNeighbour`, stated by distance; the lemma below shows it is
      membership in `neighbours`. */
  predicate IsNeighbour(p: Pos, q: Pos) {
    Manhattan(p, q) == 1
  }

  /** The neighbours are exactly the cells at Manhattan distance one, so
      being neighbours is symmetric; listed in the order of the directions
      they are also in reading order, hence distinct. */
  lemma NeighboursAreUnitSteps(p: Pos, q: Pos)
    ensures q in Neighbours(p) <==> IsNeighbour(p, q)
    ensures q in Neighbours(p) <==> p in Neighbours(q)
    ensures var ns := Neighbours(p);
      ReadingLess(ns[0], ns[1]) && ReadingLess(ns[1], ns[2]) && ReadingLess(ns[2], ns[3])
  {
  }

  // ---------------------------------------------------------------------
  // Creatures and the cave
  // ---------------------------------------------------------------------

  datatype Kind = Elf | Goblin

  datatype Creature = Creature(id: int, kind: Kind, pos: Pos, hitPoints: int, attackPower: int)

  const StartHitPoints := 200
  const GoblinAttackPower := 3

  /** `Size(width, height)`. */
  datatype Size = Size(width: int, height: int)

  /** The creature map is kept as its values in iteration order: the source's
      insertion-ordered map, keyed by id. */
  datatype Cave = Cave(size: Size, open: set<Pos>, creatures: seq<Creature>)

  /** A cave as the simulation keeps it: every creature alive and on an open
      cell, no two on one cell, and the ids strictly ascending. */
  predicate Valid(c: Cave) {
    (forall i :: 0 <= i < |c.creatures| ==> Placed(c.open, c.creatures[i])) && Orderly(c.creatures)
  }

  /** Alive and on an open cell. */
  predicate Placed(open: set<Pos>, x: Creature) {
    x.pos in open && x.hitPoints > 0
  }

  /** `a` has the smaller id, and the two stand on different cells. */
  predicate Apart(a: Creature, b: Creature) {
    a.id < b.id && a.pos != b.pos
  }

  /** Ids strictly ascending and cells pairwise distinct. */
  predicate Orderly(cs: seq<Creature>) {
    forall i, j :: 0 <= i < j < |cs| ==> Apart(cs[i], cs[j])
  }

  // ---------------------------------------------------------------------
  // Orders
  // ---------------------------------------------------------------------

  /** `attackOrder`: fewer hit points first, then reading order. */
  predicate AttackBefore(a: Creature, b: Creature) {
    a.hitPoints < b.hitPoints || (a.hitPoints == b.hitPoints && ReadingLess(a.pos, b.pos))
  }

  /** The comparator as the source writes it (overflow not modelled). */
  function AttackCompare(a: Creature, b: Creature): (r: int)
    ensures r < 0 <==> AttackBefore(a, b)
    ensures r > 0 <==> AttackBefore(b, a)
    ensures r == 0 <==> a.hitPoints == b.hitPoints && a.pos == b.pos
  {
    if a.hitPoints - b.hitPoints != 0 then a.hitPoints - b.hitPoints else ReadingCompare(a.pos, b.pos)
  }

  datatype Goal = Goal(start: Pos, end: Pos, distance: int)

  /** `shortestDistance`: shorter first, then the end in reading order. */
  predicate GoalBefore(a: Goal, b: Goal) {
    a.distance < b.distance || (a.distance == b.distance && ReadingLess(a.end, b.end))
  }

  function GoalCompare(a: Goal, b: Goal): (r: int)
    ensures r < 0 <==> GoalBefore(a, b)
    ensures r > 0 <==> GoalBefore(b, a)
    ensures r == 0 <==> a.distance == b.distance && a.end == b.end
  {
    if a.distance - b.distance != 0 then a.distance - b.distance else ReadingCompare(a.end, b.end)
  }

  /** `minWith(attackOrder)`: the first creature no other comes before. */
  function Weakest(cs: seq<Creature>): (r: Option<Creature>)
    ensures r.None? <==> cs == []
    ensures r.Some? ==> r.value in cs && forall c :: c in cs ==> !AttackBefore(c, r.value)
    ensures r.Some? ==> exists k :: 0 <= k < |cs| && cs[k] == r.value && forall j :: 0 <= j < k ==> AttackBefore(r.value, cs[j])
    decreases |cs|
  {
    if cs == [] then None
    else
      var last := cs[|cs| - 1];
      var init := cs[..|cs| - 1];
      match Weakest(init)
      case None => assert cs == [last]; Some(last)
      case Some(m) =>
        if AttackCompare(m, last) > 0 then
          WeakestOvertakes(init, m, last);
          assert cs == init + [last];
          Some(last)
        else
          var k :| 0 <= k < |init| && init[k] == m && forall j :: 0 <= j < k ==> AttackBefore(m, init[j]);
          assert cs == init + [last] && cs[k] == m;
          Some(m)
  }

  /** A later element that comes before the least so far comes before all
      of them. */
  lemma WeakestOvertakes(init: seq<Creature>, m: Creature, last: Creature)
    requires forall x :: x in init ==> !AttackBefore(x, m)
    requires AttackBefore(last, m)
    ensures forall j :: 0 <= j < |init| ==> AttackBefore(last, init[j])
    ensures forall x :: x in init ==> !AttackBefore(x, last)
  {
    forall j | 0 <= j < |init| ensures AttackBefore(last, init[j]) {
      assert init[j] in init;
    }
  }

  /** `minWith(shortestDistance)`: the first goal no other comes before. */
  function Nearest(gs: seq<Goal>): (r: Option<Goal>)
    ensures r.None? <==> gs == []
    ensures r.Some? ==> r.value in gs && forall g :: g in gs ==> !GoalBefore(g, r.value)
    ensures r.Some? ==> exists k :: 0 <= k < |gs| && gs[k] == r.value && forall j :: 0 <= j < k ==> GoalBefore(r.value, gs[j])
    decreases |gs|
  {
    if gs == [] then None
    else
      var last := gs[|gs| - 1];
      var init := gs[..|gs| - 1];
      match Nearest(init)
      case None => assert gs == [last]; Some(last)
      case Some(m) =>
        if GoalCompare(m, last) > 0 then
          NearestOvertakes(init, m, last);
          assert gs == init + [last];
          Some(last)
        else
          var k :| 0 <= k < |init| && init[k] == m && forall j :: 0 <= j < k ==> GoalBefore(m, init[j]);
          assert gs == init + [last] && gs[k] == m;
          Some(m)
  }

  /** A later element that comes before the least so far comes before all
      of them. */
  lemma NearestOvertakes(init: seq<Goal>, m: Goal, last: Goal)
    requires forall x :: x in init ==> !GoalBefore(x, m)
    requires GoalBefore(last, m)
    ensures forall j :: 0 <= j < |init| ==> GoalBefore(last, init[j])
    ensures forall x :: x in init ==> !GoalBefore(x, last)
  {
    forall j | 0 <= j < |init| ensures GoalBefore(last, init[j]) {
      assert init[j] in init;
    }
  }

  // ---------------------------------------------------------------------
  // Parsing
  // ---------------------------------------------------------------------

  /** The cells of one line `y`, left to right. */
  function RowPositions(width: int, y: int): (ps: seq<Pos>)
    ensures |ps| == if width < 0 then 0 else width
    ensures forall i :: 0 <= i < |ps| ==> ps[i] == Pos(i, y)
  {
    if width <= 0 then [] else seq(width, i requires 0 <= i < width => Pos(i, y))
  }

  /** `Size.positions()`: lines `0..height-1`, each `0..width-1`. */
  function Positions(width: int, height: int): seq<Pos>
    decreases height
  {
    if height <= 0 then [] else Positions(width, height - 1) + RowPositions(width, height - 1)
  }

  /** The positions are the cells of the box, each once, in reading order. */
  lemma {:induction false} PositionsInBox(width: int, height: int)
    ensures forall p :: p in Positions(width, height) <==> 0 <= p.x < width && 0 <= p.y < height
    ensures forall i, j :: 0 <= i < j < |Positions(width, height)| ==>
      ReadingLess(Positions(width, height)[i], Positions(width, height)[j])
    decreases height
  {
    if height > 0 {
      PositionsInBox(width, height - 1);
      var a := Positions(width, height - 1);
      var b := RowPositions(width, height - 1);
      var ps := a + b;
      assert Positions(width, height) == ps;
      forall p ensures p in ps <==> 0 <= p.x < width && 0 <= p.y < height {
        if 0 <= p.x < width && p.y == height - 1 {
          assert b[p.x] == p;
        }
      }
      forall i, j | 0 <= i < j < |ps| ensures ReadingLess(ps[i], ps[j]) {
        if j >= |a| && i < |a| {
          assert ps[i] in a;
        }
      }
    }
  }

  datatype Scan = Scan(walls: seq<Pos>, creatures: seq<Creature>)

  /** The fold of `parse` over the cells `ps`: walls are collected, each
      creature gets the next id, and a character other than `.#EG` throws. */
  function ScanCells(rows: seq<seq<char>>, ps: seq<Pos>, elfPower: int): Result<Scan>
    decreases |ps|
  {
    if ps == [] then Ok(Scan([], []))
    else
      match ScanCells(rows, ps[..|ps| - 1], elfPower)
      case Err(e) => Err(e)
      case Ok(scan) =>
        var p := ps[|ps| - 1];
        match CellAt(rows, p)
        case Err(e) => Err(e)
        case Ok(ch) =>
          var id := |scan.creatures|;
          if ch == '.' then Ok(scan)
          else if ch == '#' then Ok(Scan(scan.walls + [p], scan.creatures))
          else if ch == 'E' then Ok(Scan(scan.walls, scan.creatures + [Creature(id, Elf, p, StartHitPoints, elfPower)]))
          else if ch == 'G' then Ok(Scan(scan.walls, scan.creatures + [Creature(id, Goblin, p, StartHitPoints, GoblinAttackPower)]))
          else Err("IllegalArgumentException")
  }

  /** The size as the source computes it: the number of rows as the width
      and the longest row as the height. An empty list has no maximum. */
  function SizeOf(rows: seq<seq<char>>): Result<Size> {
    if rows == [] then Err("NullPointerException") else Ok(Size(|rows|, MaxLength(rows)))
  }

  function CellsOf(s: Size): seq<Pos> {
    Positions(s.width, s.height)
  }

  /** `parse`, on the trimmed lines: the open cells are all cells but the
      walls, and the creatures are those of the scan, keyed by id. */
  function Parse(rows: seq<seq<char>>, elfPower: int): Result<Cave> {
    match SizeOf(rows)
    case Err(e) => Err(e)
    case Ok(size) =>
      var ps := CellsOf(size);
      match ScanCells(rows, ps, elfPower)
      case Err(e) => Err(e)
      case Ok(scan) => Ok(Cave(size, (set p | p in ps) - (set w | w in scan.walls), scan.creatures))
  }

  // ---------------------------------------------------------------------
  // What parsing promises
  // ---------------------------------------------------------------------

  predicate GoodCell(rows: seq<seq<char>>, p: Pos) {
    CellAt(rows, p).Ok? && CellAt(rows, p).value in ".#EG"
  }

  /** The scan fails exactly when some cell is outside the rows or holds a
      character other than `.#EG`. */
  lemma {:induction false} ScanFailsOnBadCell(rows: seq<seq<char>>, ps: seq<Pos>, elfPower: int)
    ensures ScanCells(rows, ps, elfPower).Ok? <==> forall i :: 0 <= i < |ps| ==> GoodCell(rows, ps[i])
    decreases |ps|
  {
    if ps != [] {
      var init := ps[..|ps| - 1];
      ScanFailsOnBadCell(rows, init, elfPower);
      assert forall i :: 0 <= i < |init| ==> init[i] == ps[i];
    }
  }

  /** The walls of a scan are exactly its `#` cells. */
  lemma {:induction false} ScanWalls(rows: seq<seq<char>>, ps: seq<Pos>, elfPower: int)
    requires ScanCells(rows, ps, elfPower).Ok?
    ensures forall w :: w in ScanCells(rows, ps, elfPower).value.walls <==> w in ps && CellAt(rows, w) == Ok('#')
    decreases |ps|
  {
    if ps != [] {
      var init := ps[..|ps| - 1];
      ScanWalls(rows, init, elfPower);
      assert ps == init + [ps[|ps| - 1]];
    }
  }

  /** A creature as `parse` makes it from character `ch` at `p`. */
  predicate Spawned(c: Creature, id: int, p: Pos, ch: char, elfPower: int) {
    (ch == 'E' && c == Creature(id, Elf, p, StartHitPoints, elfPower))
    || (ch == 'G' && c == Creature(id, Goblin, p, StartHitPoints, GoblinAttackPower))
  }

  predicate ScanSound(rows: seq<seq<char>>, ps: seq<Pos>, elfPower: int, cs: seq<Creature>) {
    forall i :: 0 <= i < |cs| ==> (cs[i].pos in ps && CellAt(rows, cs[i].pos).Ok?
      && Spawned(cs[i], i, cs[i].pos, CellAt(rows, cs[i].pos).value, elfPower))
  }

  /** Every creature of a scan is numbered by its place and made from the
      character of its cell. */
  lemma {:induction false} ScanCreaturesSound(rows: seq<seq<char>>, ps: seq<Pos>, elfPower: int)
    requires ScanCells(rows, ps, elfPower).Ok?
    ensures ScanSound(rows, ps, elfPower, ScanCells(rows, ps, elfPower).value.creatures)
    decreases |ps|
  {
    if ps != [] {
      var init := ps[..|ps| - 1];
      ScanCreaturesSound(rows, init, elfPower);
      var cs0 := ScanCells(rows, init, elfPower).value.creatures;
      var cs := ScanCells(rows, ps, elfPower).value.creatures;
      assert ps == init + [ps[|ps| - 1]];
      forall i | 0 <= i < |cs| ensures cs[i].pos in ps && CellAt(rows, cs[i].pos).Ok?
        && Spawned(cs[i], i, cs[i].pos, CellAt(rows, cs[i].pos).value, elfPower)
      {
        if i < |cs0| {
          assert cs[i] == cs0[i];
          assert ScanSound(rows, init, elfPower, cs0);
        }
      }
    }
  }

  /** Every `E` and `G` cell of the scanned cells becomes a creature. */
  lemma {:induction false} ScanCreaturesComplete(rows: seq<seq<char>>, ps: seq<Pos>, elfPower: int, k: int)
    requires ScanCells(rows, ps, elfPower).Ok? && 0 <= k < |ps|
    requires CellAt(rows, ps[k]) == Ok('E') || CellAt(rows, ps[k]) == Ok('G')
    ensures exists c :: c in ScanCells(rows, ps, elfPower).value.creatures && c.pos == ps[k]
    decreases |ps|
  {
    var init := ps[..|ps| - 1];
    var cs0 := ScanCells(rows, init, elfPower).value.creatures;
    var cs := ScanCells(rows, ps, elfPower).value.creatures;
    if k < |ps| - 1 {
      ScanCreaturesComplete(rows, init, elfPower, k);
      var c :| c in cs0 && c.pos == init[k];
      assert c in cs;
    } else {
      assert cs[|cs| - 1].pos == ps[k];
    }
  }

  /** When the cells are in strict reading order, so are the creatures. */
  lemma {:induction false} ScanCreaturesOrdered(rows: seq<seq<char>>, ps: seq<Pos>, elfPower: int)
    requires ScanCells(rows, ps, elfPower).Ok?
    requires forall i, j :: 0 <= i < j < |ps| ==> ReadingLess(ps[i], ps[j])
    ensures var cs := ScanCells(rows, ps, elfPower).value.creatures;
      forall i, j :: 0 <= i < j < |cs| ==> ReadingLess(cs[i].pos, cs[j].pos)
    decreases |ps|
  {
    if ps != [] {
      var init := ps[..|ps| - 1];
      var last := ps[|ps| - 1];
      ScanCreaturesOrdered(rows, init, elfPower);
      ScanCreaturesSound(rows, init, elfPower);
      var cs0 := ScanCells(rows, init, elfPower).value.creatures;
      var cs := ScanCells(rows, ps, elfPower).value.creatures;
      forall i | 0 <= i < |cs0| ensures ReadingLess(cs0[i].pos, last) {
        assert ScanSound(rows, init, elfPower, cs0);
        var k :| 0 <= k < |init| && init[k] == cs0[i].pos;
        assert ps[k] == init[k];
      }
    }
  }

  /** What `parse` returns: it fails exactly on an empty input, a cell
      outside the rows or an unexpected character; the open cells are the
      cells of the box that are not `#`; the creatures are numbered 0, 1, ...
      in reading order, each with 200 hit points, goblins with attack power
      3 and elves with the power given, one for every `E` and `G`. */
  lemma ParseMeaning(rows: seq<seq<char>>, elfPower: int)
    ensures Parse(rows, elfPower).Ok? <==>
      rows != [] && forall i :: 0 <= i < |CellsOf(SizeOf(rows).value)| ==> GoodCell(rows, CellsOf(SizeOf(rows).value)[i])
    ensures Parse(rows, elfPower).Ok? ==> var cave := Parse(rows, elfPower).value; var size := cave.size;
      size == Size(|rows|, MaxLength(rows))
      && (forall p :: p in cave.open <==> 0 <= p.x < size.width && 0 <= p.y < size.height && CellAt(rows, p) != Ok('#'))
      && ScanSound(rows, CellsOf(size), elfPower, cave.creatures)
      && (forall i, j :: 0 <= i < j < |cave.creatures| ==> ReadingLess(cave.creatures[i].pos, cave.creatures[j].pos))
  {
    if rows != [] {
      var size := SizeOf(rows).value;
      var ps := CellsOf(size);
      ScanFailsOnBadCell(rows, ps, elfPower);
      if Parse(rows, elfPower).Ok? {
        PositionsInBox(size.width, size.height);
        ScanWalls(rows, ps, elfPower);
        ScanCreaturesSound(rows, ps, elfPower);
        ScanCreaturesOrdered(rows, ps, elfPower);
      }
    }
  }

  /** Every `E` and `G` of the map becomes a creature of the parsed cave. */
  lemma ParseFindsEveryCreature(rows: seq<seq<char>>, elfPower: int, p: Pos)
    requires Parse(rows, elfPower).Ok?
    requires 0 <= p.x < |rows| && 0 <= p.y < MaxLength(rows)
    requires CellAt(rows, p) == Ok('E') || CellAt(rows, p) == Ok('G')
    ensures exists c :: c in Parse(rows, elfPower).value.creatures && c.pos == p
  {
    var size := SizeOf(rows).value;
    var ps := CellsOf(size);
    PositionsInBox(size.width, size.height);
    var k :| 0 <= k < |ps| && ps[k] == p;
    ScanCreaturesComplete(rows, ps, elfPower, k);
  }

  /** A parsed cave is valid: the creatures are alive, stand on open cells
      (a creature's cell is not a wall), and have ascending ids and distinct
      cells. */
  lemma ParsedCaveIsValid(rows: seq<seq<char>>, elfPower: int)
    requires Parse(rows, elfPower).Ok?
    ensures Valid(Parse(rows, elfPower).value)
  {
    ParseMeaning(rows, elfPower);
    var cave := Parse(rows, elfPower).value;
    var ps := CellsOf(cave.size);
    SpawnedInOrder(rows, ps, elfPower, cave.creatures);
    PositionsInBox(cave.size.width, cave.size.height);
    forall i | 0 <= i < |cave.creatures| ensures Placed(cave.open, cave.creatures[i]) {
      var c := cave.creatures[i];
      assert c.pos in ps && CellAt(rows, c.pos) != Ok('#');
    }
  }

  /** Creatures numbered by their place and standing in strict reading
      order have ascending ids and distinct cells. */
  lemma SpawnedInOrder(rows: seq<seq<char>>, ps: seq<Pos>, elfPower: int, cs: seq<Creature>)
    requires ScanSound(rows, ps, elfPower, cs)
    requires forall i, j :: 0 <= i < j < |cs| ==> ReadingLess(cs[i].pos, cs[j].pos)
    ensures Orderly(cs)
    ensures forall i :: 0 <= i < |cs| ==> cs[i].hitPoints > 0 && CellAt(rows, cs[i].pos) != Ok('#')
  {
    forall i, j | 0 <= i < j < |cs| ensures Apart(cs[i], cs[j]) {
      assert cs[i].id == i && cs[j].id == j;
    }
  }
}
