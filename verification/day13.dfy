/** Mine carts: directions and turns, how a cart's plan changes on each kind
    of track, loading the map, and the two ways a tick handles crashes. */
module Day13 {

  import opened Wrappers
  import opened Plane
  import opened Arith

  // ---------------------------------------------------------------------
  // Directions, turns and plans
  // ---------------------------------------------------------------------

  datatype Dir = Left | Right | Up | Down

  datatype Turn = TurnLeft | Straight | TurnRight

  /** The unit step of a direction, with y growing downwards. */
  function Heading(d: Dir): Pos {
    match d case Up => Pos(0, -1) case Down => Pos(0, 1) case Left => Pos(-1, 0) case Right => Pos(1, 0)
  }

  /** `Dir.turn`: a left turn rotates the heading a quarter turn
      anticlockwise on screen, a right turn a quarter turn clockwise. */
  function TurnBy(d: Dir, t: Turn): (r: Dir)
    ensures t == Straight ==> Heading(r) == Heading(d)
    ensures t == TurnLeft ==> Heading(r) == Pos(Heading(d).y, -Heading(d).x)
    ensures t == TurnRight ==> Heading(r) == Pos(-Heading(d).y, Heading(d).x)
  {
    match t
    case Straight => d
    case TurnLeft => (match d case Up => Left case Left => Down case Down => Right case Right => Up)
    case TurnRight => (match d case Up => Right case Right => Down case Down => Left case Left => Up)
  }

  /** A left turn is undone by a right turn and the other way round, and four
      left turns come back to the start. */
  lemma TurnsCompose(d: Dir)
    ensures TurnBy(TurnBy(d, TurnLeft), TurnRight) == d
    ensures TurnBy(TurnBy(d, TurnRight), TurnLeft) == d
    ensures TurnBy(d, Straight) == d
    ensures TurnBy(TurnBy(TurnBy(TurnBy(d, TurnLeft), TurnLeft), TurnLeft), TurnLeft) == d
    ensures TurnBy(d, TurnLeft) != d && TurnBy(d, TurnRight) != d
  {
  }

  /** A turn's place in the cycle left, straight, right. */
  function TurnIndex(t: Turn): int {
    match t case TurnLeft => 0 case Straight => 1 case TurnRight => 2
  }

  /** `Turn.next`: the turn an intersection will use after this one, the
      next in the cycle left, straight, right. */
  function NextTurn(t: Turn): (r: Turn)
    ensures TurnIndex(r) == (TurnIndex(t) + 1) % 3
  {
    match t
    case TurnLeft => Straight
    case Straight => TurnRight
    case TurnRight => TurnLeft
  }

  /** Intersections cycle left, straight, right: every turn comes back
      after three and never after one. */
  lemma NextTurnCycles(t: Turn)
    ensures NextTurn(t) != t && NextTurn(NextTurn(NextTurn(t))) == t
    ensures NextTurn(TurnRight) == TurnLeft
  {
  }

  datatype Plan = Plan(dir: Dir, turn: Turn)

  /** The direction after a `/` curve. */
  function Slash(d: Dir): Dir {
    match d case Up => Right case Right => Up case Down => Left case Left => Down
  }

  /** The direction after a `\` curve. */
  function Backslash(d: Dir): Dir {
    match d case Up => Left case Left => Up case Down => Right case Right => Down
  }

  /** Both curves swap the vertical and the horizontal and are their own
      inverses. */
  lemma CurvesAreInvolutions(d: Dir)
    ensures Slash(Slash(d)) == d && Backslash(Backslash(d)) == d
    ensures (d == Up || d == Down) <==> (Slash(d) == Left || Slash(d) == Right)
    ensures (d == Up || d == Down) <==> (Backslash(d) == Left || Backslash(d) == Right)
  {
  }

  /** `Plan.adjust`: the plan on leaving a piece of track; a character that
      is not track throws. */
  function Adjust(plan: Plan, t: char): (r: Result<Plan>)
    ensures r.Ok? <==> t in "+/\\-|"
    ensures t == '+' ==> r == Ok(Plan(TurnBy(plan.dir, plan.turn), NextTurn(plan.turn)))
    ensures t == '/' ==> r == Ok(Plan(Slash(plan.dir), plan.turn))
    ensures t == '\\' ==> r == Ok(Plan(Backslash(plan.dir), plan.turn))
    ensures t == '-' || t == '|' ==> r == Ok(plan)
  {
    match t
    case '+' => Ok(Plan(TurnBy(plan.dir, plan.turn), NextTurn(plan.turn)))
    case '/' => Ok(Plan(Slash(plan.dir), plan.turn))
    case '\\' => Ok(Plan(Backslash(plan.dir), plan.turn))
    case '-' => Ok(plan)
    case '|' => Ok(plan)
    case _ => Err("IllegalStateException")
  }

  /** `Pos.apply`: one cell in the plan's direction (y grows downwards). */
  function Apply(p: Pos, plan: Plan): (r: Pos)
    ensures Manhattan(p, r) == 1
    ensures plan.dir == Up ==> r.y < p.y
    ensures plan.dir == Down ==> r.y > p.y
    ensures plan.dir == Left ==> r.x < p.x
    ensures plan.dir == Right ==> r.x > p.x
  {
    match plan.dir
    case Up => Pos(p.x, p.y - 1)
    case Down => Pos(p.x, p.y + 1)
    case Left => Pos(p.x - 1, p.y)
    case Right => Pos(p.x + 1, p.y)
  }

  // ---------------------------------------------------------------------
  // Carts and tracks
  // ---------------------------------------------------------------------

  datatype Cart = Cart(id: int, pos: Pos, plan: Plan, collided: bool)

  type Tracks = seq<seq<char>>

  /** `Cart.move`: adjust the plan to the track under the cart, then step
      one cell in the new direction; the result is never marked collided. */
  function Move(c: Cart, tracks: Tracks): (r: Result<Cart>)
    ensures r.Ok? <==> CellAt(tracks, c.pos).Ok? && Adjust(c.plan, CellAt(tracks, c.pos).value).Ok?
    ensures r.Ok? ==> var plan := Adjust(c.plan, tracks[c.pos.y][c.pos.x]).value;
      r.value == Cart(c.id, Apply(c.pos, plan), plan, false)
    ensures r.Ok? ==> r.value.id == c.id && !r.value.collided && Manhattan(c.pos, r.value.pos) == 1
  {
    match CellAt(tracks, c.pos)
    case Err(e) => Err(e)
    case Ok(t) =>
      match Adjust(c.plan, t)
      case Err(e) => Err(e)
      case Ok(plan) => Ok(Cart(c.id, Apply(c.pos, plan), plan, false))
  }

  // ---------------------------------------------------------------------
  // Loading
  // ---------------------------------------------------------------------

  predicate IsCartGlyph(c: char) {
    c == '^' || c == 'v' || c == '<' || c == '>'
  }

  /** `dirFor`, on the four cart glyphs. */
  function DirFor(c: char): Dir
    requires IsCartGlyph(c)
  {
    match c case '^' => Up case 'v' => Down case '<' => Left case _ => Right
  }

  /** The track under a cart glyph: `-` for a horizontal cart, `|` for a
      vertical one; any other character is kept. */
  function TrackUnder(c: char): (r: char)
    ensures !IsCartGlyph(r)
  {
    if c == '<' || c == '>' then '-' else if c == '^' || c == 'v' then '|' else c
  }

  /** The carts of row `y`, numbered from `firstId` left to right. */
  function RowCarts(row: seq<char>, y: int, firstId: int): seq<Cart> {
    if row == [] then []
    else
      var init := RowCarts(row[..|row| - 1], y, firstId);
      var x := |row| - 1;
      if IsCartGlyph(row[x]) then init + [Cart(firstId + |init|, Pos(x, y), Plan(DirFor(row[x]), TurnLeft), false)]
      else init
  }

  /** The carts of the first rows, numbered from 0 in reading order. */
  function AllCarts(lines: seq<seq<char>>): seq<Cart> {
    if lines == [] then []
    else
      var init := AllCarts(lines[..|lines| - 1]);
      var y := |lines| - 1;
      init + RowCarts(lines[y], y, |init|)
  }

  /** A cart as `load` creates it from glyph `c` at `p`. */
  predicate Fresh(cart: Cart, id: int, p: Pos, c: char) {
    IsCartGlyph(c) && cart == Cart(id, p, Plan(DirFor(c), TurnLeft), false)
  }

  /** Each cart of `r` stands on a cart glyph of `row`, is numbered on from
      `firstId`, heads the way the glyph points and will turn left at its
      first intersection. */
  predicate RowSound(row: seq<char>, y: int, firstId: int, r: seq<Cart>) {
    forall i :: 0 <= i < |r| ==> 0 <= r[i].pos.x < |row| && Fresh(r[i], firstId + i, Pos(r[i].pos.x, y), row[r[i].pos.x])
  }

  predicate LeftToRight(r: seq<Cart>) {
    forall i, j :: 0 <= i < j < |r| ==> r[i].pos.x < r[j].pos.x
  }

  /** The carts of a row are created from its glyphs, left to right. */
  lemma {:induction false} RowCartsSound(row: seq<char>, y: int, firstId: int)
    ensures RowSound(row, y, firstId, RowCarts(row, y, firstId))
    ensures LeftToRight(RowCarts(row, y, firstId))
    decreases |row|
  {
    if row != [] {
      var prefix := row[..|row| - 1];
      RowCartsSound(prefix, y, firstId);
      RowCartsStep(row, y, firstId);
      RowCartsStepOrdered(row, y, firstId);
    }
  }

  /** The carts of a row without its last glyph, and the cart that glyph
      adds, if any. */
  lemma RowCartsUnfold(row: seq<char>, y: int, firstId: int)
    requires row != []
    ensures var init := RowCarts(row[..|row| - 1], y, firstId); var x := |row| - 1;
      RowCarts(row, y, firstId) ==
        if IsCartGlyph(row[x]) then init + [Cart(firstId + |init|, Pos(x, y), Plan(DirFor(row[x]), TurnLeft), false)]
        else init
  {
  }

  /** One more glyph keeps the carts sound... */
  lemma RowCartsStep(row: seq<char>, y: int, firstId: int)
    requires row != []
    requires RowSound(row[..|row| - 1], y, firstId, RowCarts(row[..|row| - 1], y, firstId))
    ensures RowSound(row, y, firstId, RowCarts(row, y, firstId))
  {
    var prefix := row[..|row| - 1];
    var x := |row| - 1;
    var init := RowCarts(prefix, y, firstId);
    RowCartsUnfold(row, y, firstId);
    var r := RowCarts(row, y, firstId);
    forall i | 0 <= i < |r| ensures 0 <= r[i].pos.x < |row| && Fresh(r[i], firstId + i, Pos(r[i].pos.x, y), row[r[i].pos.x]) {
      if i < |init| {
        assert r[i] == init[i];
        assert row[init[i].pos.x] == prefix[init[i].pos.x];
      }
    }
  }

  /** ...and in order. */
  lemma RowCartsStepOrdered(row: seq<char>, y: int, firstId: int)
    requires row != []
    requires var init := RowCarts(row[..|row| - 1], y, firstId);
      RowSound(row[..|row| - 1], y, firstId, init) && LeftToRight(init)
    ensures LeftToRight(RowCarts(row, y, firstId))
  {
    var prefix := row[..|row| - 1];
    var init := RowCarts(prefix, y, firstId);
    RowCartsUnfold(row, y, firstId);
    assert forall i :: 0 <= i < |init| ==> init[i].pos.x < |prefix|;
  }

  /** Each cart of `r` is numbered by its place in `r` and created from the
      glyph of `lines` it stands on. */
  predicate MapSound(lines: seq<seq<char>>, r: seq<Cart>) {
    forall i :: 0 <= i < |r| ==>
      (0 <= r[i].pos.y < |lines| && 0 <= r[i].pos.x < |lines[r[i].pos.y]| &&
       Fresh(r[i], i, r[i].pos, lines[r[i].pos.y][r[i].pos.x]))
  }

  predicate InReadingOrder(r: seq<Cart>) {
    forall i, j :: 0 <= i < j < |r| ==> ReadingLess(r[i].pos, r[j].pos)
  }

  /** The carts of the map are numbered 0, 1, ... and each is created from
      the glyph it stands on. */
  lemma {:induction false} AllCartsSound(lines: seq<seq<char>>)
    ensures MapSound(lines, AllCarts(lines))
    decreases |lines|
  {
    if lines != [] {
      var prefix := lines[..|lines| - 1];
      var last := |lines| - 1;
      AllCartsSound(prefix);
      var init := AllCarts(prefix);
      var row := RowCarts(lines[last], last, |init|);
      RowCartsSound(lines[last], last, |init|);
      var r := init + row;
      assert AllCarts(lines) == r;
      forall i | 0 <= i < |r| ensures 0 <= r[i].pos.y < |lines| && 0 <= r[i].pos.x < |lines[r[i].pos.y]|
        && Fresh(r[i], i, r[i].pos, lines[r[i].pos.y][r[i].pos.x])
      {
        if i < |init| {
          assert MapSound(prefix, init);
          assert r[i] == init[i];
          assert lines[init[i].pos.y] == prefix[init[i].pos.y];
        } else {
          assert RowSound(lines[last], last, |init|, row);
          assert r[i] == row[i - |init|];
        }
      }
    }
  }

  /** The carts of the map are strictly in reading order. */
  lemma {:induction false} AllCartsOrdered(lines: seq<seq<char>>)
    ensures InReadingOrder(AllCarts(lines))
    decreases |lines|
  {
    if lines != [] {
      var prefix := lines[..|lines| - 1];
      var last := |lines| - 1;
      var init := AllCarts(prefix);
      var row := RowCarts(lines[last], last, |init|);
      AllCartsOrdered(prefix);
      AllCartsSound(prefix);
      RowCartsSound(lines[last], last, |init|);
      var r := init + row;
      assert AllCarts(lines) == r;
      forall i, j | 0 <= i < j < |r| ensures ReadingLess(r[i].pos, r[j].pos) {
        if j < |init| {
          assert r[i] == init[i] && r[j] == init[j];
          assert InReadingOrder(init);
        } else if i < |init| {
          assert r[i] == init[i] && r[j] == row[j - |init|];
          assert MapSound(prefix, init);
          assert RowSound(lines[last], last, |init|, row);
        } else {
          assert r[i] == row[i - |init|] && r[j] == row[j - |init|];
          assert LeftToRight(row);
          assert RowSound(lines[last], last, |init|, row);
        }
      }
    }
  }

  datatype Model = Model(tracks: Tracks, carts: seq<Cart>)

  /** `load`: the carts of the map and the map with each cart glyph replaced
      by the track under it. */
  function Load(lines: seq<seq<char>>): (m: Model)
    ensures |m.tracks| == |lines| && forall y :: 0 <= y < |lines| ==> |m.tracks[y]| == |lines[y]|
    ensures forall y, x :: 0 <= y < |lines| && 0 <= x < |lines[y]| ==> !IsCartGlyph(m.tracks[y][x])
    ensures forall y, x :: 0 <= y < |lines| && 0 <= x < |lines[y]| && !IsCartGlyph(lines[y][x]) ==>
      m.tracks[y][x] == lines[y][x]
    ensures m.carts == AllCarts(lines)
  {
    var tracks := seq(|lines|, y requires 0 <= y < |lines| =>
      seq(|lines[y]|, x requires 0 <= x < |lines[y]| => TrackUnder(lines[y][x])));
    Model(tracks, AllCarts(lines))
  }

  /** Every cart glyph of a row becomes a cart of that row. */
  lemma {:induction false} RowCartsComplete(row: seq<char>, y: int, firstId: int, x: int)
    requires 0 <= x < |row| && IsCartGlyph(row[x])
    ensures exists i :: 0 <= i < |RowCarts(row, y, firstId)| && RowCarts(row, y, firstId)[i].pos == Pos(x, y)
    decreases |row|
  {
    var init := RowCarts(row[..|row| - 1], y, firstId);
    if x < |row| - 1 {
      RowCartsComplete(row[..|row| - 1], y, firstId, x);
      var i :| 0 <= i < |init| && init[i].pos == Pos(x, y);
      assert RowCarts(row, y, firstId)[i] == init[i];
    } else {
      assert RowCarts(row, y, firstId)[|init|].pos == Pos(x, y);
    }
  }

  /** Every cart glyph of the map becomes a cart. */
  lemma {:induction false} AllCartsComplete(lines: seq<seq<char>>, x: int, y: int)
    requires 0 <= y < |lines| && 0 <= x < |lines[y]| && IsCartGlyph(lines[y][x])
    ensures exists i :: 0 <= i < |AllCarts(lines)| && AllCarts(lines)[i].pos == Pos(x, y)
    decreases |lines|
  {
    var prefix := lines[..|lines| - 1];
    var init := AllCarts(prefix);
    var last := |lines| - 1;
    var row := RowCarts(lines[last], last, |init|);
    assert AllCarts(lines) == init + row;
    if y < last {
      assert prefix[y] == lines[y];
      AllCartsComplete(prefix, x, y);
      var i :| 0 <= i < |init| && init[i].pos == Pos(x, y);
      assert AllCarts(lines)[i] == init[i];
    } else {
      RowCartsComplete(lines[last], last, |init|, x);
      var i :| 0 <= i < |row| && row[i].pos == Pos(x, y);
      assert AllCarts(lines)[|init| + i] == row[i];
    }
  }

  // ---------------------------------------------------------------------
  // Ticks
  // ---------------------------------------------------------------------

  function CartPos(c: Cart): Pos { c.pos }

  /** `cartsInScanOrder`: the carts sorted by reading order. */
  function ScanOrder(carts: seq<Cart>): (r: seq<Cart>)
    ensures multiset(r) == multiset(carts) && SortedBy(r, CartPos)
  {
    SortBy(carts, CartPos)
  }

  /** `filter { it != c }`. */
  function Without(cs: seq<Cart>, c: Cart): (r: seq<Cart>)
    ensures |r| <= |cs| && c !in r
    ensures forall d :: d in r <==> d in cs && d != c
    ensures c !in cs ==> r == cs
    decreases |cs|
  {
    if cs == [] then []
    else (if cs[0] != c then [cs[0]] else []) + Without(cs[1..], c)
  }

  predicate IdsDistinct(cs: seq<Cart>) {
    forall i, j :: 0 <= i < j < |cs| ==> cs[i].id != cs[j].id
  }

  /** Removing a cart of a list with distinct ids removes exactly one
      element and keeps the ids distinct. */
  lemma {:induction false} WithoutOne(cs: seq<Cart>, c: Cart)
    requires IdsDistinct(cs) && c in cs
    ensures |Without(cs, c)| == |cs| - 1 && IdsDistinct(Without(cs, c))
    ensures forall d :: d in Without(cs, c) ==> d.id != c.id
    decreases |cs|
  {
    HeadIdUnique(cs);
    if cs[0] == c {
      assert Without(cs, c) == cs[1..];
    } else {
      WithoutOne(cs[1..], c);
      var rest := Without(cs[1..], c);
      assert Without(cs, c) == [cs[0]] + rest;
      ConsFresh(cs[0], rest);
    }
  }

  /** In a list with distinct ids no later cart shares the first one's id,
      and the tail's ids are distinct too. */
  lemma HeadIdUnique(cs: seq<Cart>)
    requires IdsDistinct(cs) && cs != []
    ensures IdsDistinct(cs[1..])
    ensures forall d :: d in cs[1..] ==> d.id != cs[0].id
  {
    forall d | d in cs[1..] ensures d.id != cs[0].id {
      var k :| 0 <= k < |cs[1..]| && cs[1..][k] == d;
      assert cs[k + 1].id != cs[0].id;
    }
    forall i, j | 0 <= i < j < |cs| - 1 ensures cs[1..][i].id != cs[1..][j].id {
      assert cs[i + 1].id != cs[j + 1].id;
    }
  }

  /** Putting a cart whose id is new in front keeps the ids distinct. */
  lemma ConsFresh(c: Cart, cs: seq<Cart>)
    requires IdsDistinct(cs) && forall d :: d in cs ==> d.id != c.id
    ensures IdsDistinct([c] + cs)
  {
    forall j | 1 <= j < |cs| + 1 ensures ([c] + cs)[j].id != c.id {
      assert ([c] + cs)[j] == cs[j - 1];
      assert cs[j - 1] in cs;
    }
    forall i, j | 1 <= i < j < |cs| + 1 ensures ([c] + cs)[i].id != ([c] + cs)[j].id {
      assert ([c] + cs)[i] == cs[i - 1] && ([c] + cs)[j] == cs[j - 1];
    }
  }

  /** `load` numbers its carts 0, 1, ..., so their ids are distinct and the
      removal tick may start from any loaded map. */
  lemma LoadIdsDistinct(lines: seq<seq<char>>)
    ensures IdsDistinct(Load(lines).carts)
  {
    var r := AllCarts(lines);
    AllCartsSound(lines);
    forall i, j | 0 <= i < j < |r| ensures r[i].id != r[j].id {
      assert Fresh(r[i], i, r[i].pos, lines[r[i].pos.y][r[i].pos.x]);
      assert Fresh(r[j], j, r[j].pos, lines[r[j].pos.y][r[j].pos.x]);
    }
  }

  /** Appending a cart whose id is new keeps the ids distinct. */
  lemma AppendFresh(cs: seq<Cart>, c: Cart)
    requires IdsDistinct(cs) && forall d :: d in cs ==> d.id != c.id
    ensures IdsDistinct(cs + [c])
  {
    forall i | 0 <= i < |cs| ensures (cs + [c])[i].id != c.id {
      assert cs[i] in cs;
    }
  }

  /** The number of carts marked collided. */
  function Collided(cs: seq<Cart>): nat
    decreases |cs|
  {
    if cs == [] then 0 else (if cs[0].collided then 1 else 0) + Collided(cs[1..])
  }

  lemma {:induction false} CollidedAppend(cs: seq<Cart>, c: Cart)
    ensures Collided(cs + [c]) == Collided(cs) + (if c.collided then 1 else 0)
    decreases |cs|
  {
    if cs == [] {
      assert [c][1..] == [];
    } else {
      assert (cs + [c])[1..] == cs[1..] + [c];
      CollidedAppend(cs[1..], c);
    }
  }

  lemma {:induction false} CollidedWithout(cs: seq<Cart>, c: Cart)
    ensures Collided(Without(cs, c)) <= Collided(cs)
    ensures Collided(cs) > 0 <==> exists d :: d in cs && d.collided
    decreases |cs|
  {
    if cs != [] {
      CollidedWithout(cs[1..], c);
      var rest := Without(cs[1..], c);
      if cs[0] != c {
        assert Without(cs, c) == [cs[0]] + rest;
        assert ([cs[0]] + rest)[1..] == rest;
      } else {
        assert Without(cs, c) == rest;
      }
      if cs[0].collided {
        assert cs[0] in cs;
      }
      if exists d :: d in cs && d.collided {
        var d :| d in cs && d.collided;
        if d != cs[0] {
          assert d in cs[1..];
        }
      }
    }
  }

  /** `checkCollisions`: mark the cart when it shares its cell with another
      cart, unless some cart is already marked. */
  function CheckCollisions(c: Cart, carts: seq<Cart>): (r: Cart)
    ensures r.id == c.id && r.pos == c.pos && r.plan == c.plan
    ensures r.collided <==> c.collided || ((forall d :: d in carts ==> !d.collided) && exists d :: d in carts && d.pos == c.pos)
  {
    if exists d :: d in carts && d.collided then c
    else if forall d :: d in carts ==> d.pos != c.pos then c
    else c.(collided := true)
  }

  /** One step of the fold of `tickDetectingCollisions`: the cart leaves the
      list and its moved form joins the end, marked exactly when no cart is
      marked yet and another cart stands on the cell it lands on. */
  function DetectStep(acc: seq<Cart>, c: Cart, tracks: Tracks): (r: Result<seq<Cart>>)
    ensures r.Ok? <==> Move(c, tracks).Ok?
    ensures r.Ok? ==> var moved := Move(c, tracks).value; var others := Without(acc, c);
      && |r.value| == |others| + 1 && r.value[..|others|] == others
      && r.value[|others|].id == c.id && r.value[|others|].pos == moved.pos && r.value[|others|].plan == moved.plan
      && (r.value[|others|].collided <==>
            (forall d :: d in others ==> !d.collided) && exists d :: d in others && d.pos == moved.pos)
    ensures r.Ok? ==> Collided(acc) <= 1 ==> Collided(r.value) <= 1
  {
    match Move(c, tracks)
    case Err(e) => Err(e)
    case Ok(moved) =>
      var others := Without(acc, c);
      var checked := CheckCollisions(moved, others);
      CollidedWithout(acc, c);
      CollidedWithout(others, c);
      CollidedAppend(others, checked);
      assert (others + [checked])[..|others|] == others;
      Ok(others + [checked])
  }

  /** Every cart of `order` can move. */
  predicate AllMove(order: seq<Cart>, tracks: Tracks) {
    forall k :: 0 <= k < |order| ==> Move(order[k], tracks).Ok?
  }

  function DetectFold(acc: seq<Cart>, order: seq<Cart>, tracks: Tracks): (r: Result<seq<Cart>>)
    ensures r.Ok? <==> AllMove(order, tracks)
    ensures r.Ok? ==> Collided(acc) <= 1 ==> Collided(r.value) <= 1
    decreases |order|
  {
    if order == [] then Ok(acc)
    else
      assert AllMove(order, tracks) <==> Move(order[0], tracks).Ok? && AllMove(order[1..], tracks) by {
        assert forall k :: 0 < k < |order| ==> order[k] == order[1..][k - 1];
      }
      match DetectStep(acc, order[0], tracks)
      case Err(e) => Err(e)
      case Ok(next) => DetectFold(next, order[1..], tracks)
  }

  /** `tickDetectingCollisions`: every cart moves in scan order; the tick
      fails exactly when some cart cannot move (`TickDetectingMeaning` says
      which carts are marked). */
  function TickDetecting(m: Model): (r: Result<Model>)
    ensures r.Ok? <==> AllMove(ScanOrder(m.carts), m.tracks)
    ensures r.Ok? ==> r.value.tracks == m.tracks
    ensures r.Ok? ==> Collided(m.carts) <= 1 ==> Collided(r.value.carts) <= 1
  {
    match DetectFold(m.carts, ScanOrder(m.carts), m.tracks)
    case Err(e) => Err(e)
    case Ok(carts) => Ok(Model(m.tracks, carts))
  }

  /** The carts of the scan order after their moves. */
  ghost function MovesOf(order: seq<Cart>, tracks: Tracks): (moves: seq<Cart>)
    requires AllMove(order, tracks)
    ensures |moves| == |order|
    ensures forall j :: 0 <= j < |order| ==> Move(order[j], tracks) == Ok(moves[j])
  {
    seq(|order|, j requires 0 <= j < |order| => Move(order[j], tracks).value)
  }

  /** `moves` pairs each cart of `order` with a moved cart of the same id. */
  ghost predicate Paired(order: seq<Cart>, moves: seq<Cart>) {
    |moves| == |order| && forall j :: 0 <= j < |order| ==> moves[j].id == order[j].id
  }

  /** Where cart `j` of the scan order stands when cart `k` takes its turn:
      carts before `k` have moved already, the others not yet. */
  function PosWhen(order: seq<Cart>, moves: seq<Cart>, j: int, k: int): Pos
    requires |moves| == |order| && 0 <= j < |order|
  {
    if j < k then moves[j].pos else order[j].pos
  }

  /** Cart `k` of the scan order lands on a cell another cart stands on. */
  ghost predicate LandsOnCart(order: seq<Cart>, moves: seq<Cart>, k: int)
    requires |moves| == |order| && 0 <= k < |order|
  {
    exists j :: 0 <= j < |order| && j != k && PosWhen(order, moves, j, k) == moves[k].pos
  }

  /** The first cart from `k` on to land on another cart, or `|order|` when
      none does. */
  ghost function FirstLanding(order: seq<Cart>, moves: seq<Cart>, k: int): (f: int)
    requires |moves| == |order| && 0 <= k <= |order|
    ensures k <= f <= |order|
    ensures f < |order| ==> LandsOnCart(order, moves, f)
    ensures forall j :: k <= j < f ==> !LandsOnCart(order, moves, j)
    decreases |order| - k
  {
    if k == |order| then k
    else if LandsOnCart(order, moves, k) then k
    else FirstLanding(order, moves, k + 1)
  }

  /** Cart `k` moved, and marked exactly when it is the first of the tick
      to land on another cart. */
  ghost function Mark(order: seq<Cart>, moves: seq<Cart>, k: int): Cart
    requires |moves| == |order| && 0 <= k < |order|
  {
    moves[k].(collided := k == FirstLanding(order, moves, 0))
  }

  /** The reference tick, on the first `k` carts of the scan order: each
      cart moved, in scan order, and marked exactly when it is the first to
      land on another cart. */
  ghost function Marked(order: seq<Cart>, moves: seq<Cart>, k: int): (r: seq<Cart>)
    requires |moves| == |order| && 0 <= k <= |order|
    ensures |r| == k
    ensures forall j :: 0 <= j < k ==> r[j] == Mark(order, moves, j)
    decreases k
  {
    if k == 0 then [] else Marked(order, moves, k - 1) + [Mark(order, moves, k - 1)]
  }

  /** In the reference tick at most one cart is marked, and one is exactly
      when some cart lands on another. */
  lemma MarkedCollisions(order: seq<Cart>, moves: seq<Cart>)
    requires |moves| == |order|
    ensures var mk := Marked(order, moves, |order|);
      (exists d :: d in mk && d.collided) <==> exists k :: 0 <= k < |order| && LandsOnCart(order, moves, k)
    ensures var mk := Marked(order, moves, |order|);
      forall i, j :: 0 <= i < j < |mk| ==> !(mk[i].collided && mk[j].collided)
  {
    var mk := Marked(order, moves, |order|);
    var f := FirstLanding(order, moves, 0);
    if f < |order| {
      assert mk[f] in mk;
    }
    forall d | d in mk && d.collided ensures exists k :: 0 <= k < |order| && LandsOnCart(order, moves, k) {
      var k :| 0 <= k < |mk| && mk[k] == d;
    }
  }

  /** `filter` distributes over concatenation. */
  lemma {:induction false} WithoutConcat(a: seq<Cart>, b: seq<Cart>, c: Cart)
    ensures Without(a + b, c) == Without(a, c) + Without(b, c)
    decreases |a|
  {
    if a == [] {
      assert a + b == b;
    } else {
      var h := if a[0] != c then [a[0]] else [];
      assert (a + b)[0] == a[0] && (a + b)[1..] == a[1..] + b;
      assert Without(a + b, c) == h + Without(a[1..] + b, c);
      assert Without(a, c) == h + Without(a[1..], c);
      WithoutConcat(a[1..], b, c);
      ConcatAssoc(h, Without(a[1..], c), Without(b, c));
    }
  }

  lemma ConcatAssoc(a: seq<Cart>, b: seq<Cart>, c: seq<Cart>)
    ensures a + (b + c) == (a + b) + c
  {
  }

  /** `filter { it != c }` drops every copy of `c` and nothing else. */
  lemma {:induction false} WithoutMultiset(cs: seq<Cart>, c: Cart)
    ensures multiset(Without(cs, c)) == multiset(cs)[c := 0]
    decreases |cs|
  {
    if cs != [] {
      var h := if cs[0] != c then [cs[0]] else [];
      var rest := cs[1..];
      assert Without(cs, c) == h + Without(rest, c);
      WithoutMultiset(rest, c);
      ConsMultiset(cs);
      DropAll(cs[0], multiset(rest), c);
    }
  }

  lemma ConsMultiset(cs: seq<Cart>)
    requires cs != []
    ensures multiset(cs) == multiset{cs[0]} + multiset(cs[1..])
  {
    assert cs == [cs[0]] + cs[1..];
  }

  /** Dropping every copy of `c` after adding one `x`. */
  lemma DropAll(x: Cart, m: multiset<Cart>, c: Cart)
    ensures (multiset{x} + m)[c := 0] == (if x == c then m[c := 0] else multiset{x} + m[c := 0])
  {
  }

  /** Cutting out element `p` takes one copy of it out of the multiset. */
  lemma CutMultiset(b: seq<Cart>, p: int)
    requires 0 <= p < |b|
    ensures multiset(b[..p] + b[p + 1..]) == multiset(b) - multiset{b[p]}
  {
    assert b == b[..p] + [b[p]] + b[p + 1..];
    assert multiset(b) == multiset(b[..p]) + multiset{b[p]} + multiset(b[p + 1..]);
  }

  /** Putting back a cart whose id is new keeps the ids distinct. */
  lemma InsertFresh(b: seq<Cart>, p: int)
    requires 0 <= p < |b| && IdsDistinct(b[..p] + b[p + 1..])
    requires forall d :: d in b[..p] + b[p + 1..] ==> d.id != b[p].id
    ensures IdsDistinct(b)
  {
    var b' := b[..p] + b[p + 1..];
    forall i, j | 0 <= i < j < |b| ensures b[i].id != b[j].id {
      if i == p {
        assert b[j] == b'[j - 1];
      } else if j == p {
        assert b[i] == b'[i];
      } else {
        var i' := if i < p then i else i - 1;
        var j' := if j < p then j else j - 1;
        assert b[i] == b'[i'] && b[j] == b'[j'];
      }
    }
  }

  /** A permutation of carts with distinct ids has distinct ids. */
  lemma {:induction false} PermutedIdsDistinct(a: seq<Cart>, b: seq<Cart>)
    requires multiset(a) == multiset(b) && IdsDistinct(a)
    ensures IdsDistinct(b)
    decreases |a|
  {
    if a != [] {
      var h := a[0];
      HeadIdUnique(a);
      assert h in multiset(b);
      var p :| 0 <= p < |b| && b[p] == h;
      var b' := b[..p] + b[p + 1..];
      CutMultiset(b, p);
      assert a == [h] + a[1..];
      assert multiset(a) == multiset{h} + multiset(a[1..]);
      PermutedIdsDistinct(a[1..], b');
      forall d | d in b' ensures d.id != h.id {
        assert d in multiset(a[1..]);
      }
      InsertFresh(b, p);
    }
  }

  /** What the fold has to work with before cart `k` takes its turn: the
      carts still to move, as a multiset, followed by the reference prefix. */
  ghost predicate DetectState(order: seq<Cart>, moves: seq<Cart>, k: int, pending: seq<Cart>) {
    && Paired(order, moves) && 0 <= k <= |order|
    && IdsDistinct(order) && (forall j :: 0 <= j < |order| ==> !order[j].collided)
    && multiset(pending) == multiset(order[k..])
  }

  /** The carts still to move are exactly the carts of `order` from `k` on. */
  lemma PendingCarts(order: seq<Cart>, moves: seq<Cart>, k: int, pending: seq<Cart>)
    requires DetectState(order, moves, k, pending)
    ensures forall d :: d in pending <==> exists j :: k <= j < |order| && order[j] == d
  {
    forall d ensures d in pending <==> exists j :: k <= j < |order| && order[j] == d {
      assert d in pending <==> d in multiset(order[k..]);
      if d in order[k..] {
        var i :| 0 <= i < |order[k..]| && order[k..][i] == d;
        assert order[k + i] == d;
      }
      if exists j :: k <= j < |order| && order[j] == d {
        var j :| k <= j < |order| && order[j] == d;
        assert order[k..][j - k] == d;
      }
    }
  }

  /** The cart whose turn it is lands on a cart of the fold's list exactly
      when it lands on another cart in the reference. */
  lemma LandsIff(order: seq<Cart>, moves: seq<Cart>, k: int, pending: seq<Cart>)
    requires DetectState(order, moves, k, pending) && k < |order|
    ensures (exists d :: d in Without(pending, order[k]) + Marked(order, moves, k) && d.pos == moves[k].pos) <==>
      LandsOnCart(order, moves, k)
  {
    var c := order[k];
    var p := moves[k].pos;
    var rest := Without(pending, c);
    var mk := Marked(order, moves, k);
    PendingCarts(order, moves, k, pending);
    if exists d: Cart :: d in rest + mk && d.pos == p {
      var d: Cart :| d in rest + mk && d.pos == p;
      if d in rest {
        var j :| k <= j < |order| && order[j] == d;
        assert PosWhen(order, moves, j, k) == p;
      } else {
        var j :| 0 <= j < k && mk[j] == d;
        assert PosWhen(order, moves, j, k) == p;
      }
    }
    if LandsOnCart(order, moves, k) {
      var j :| 0 <= j < |order| && j != k && PosWhen(order, moves, j, k) == p;
      if j < k {
        assert mk[j] in rest + mk;
      } else {
        assert order[j].id != c.id;
        assert order[j] in rest;
        assert order[j] in rest + mk;
      }
    }
  }

  /** No cart of the fold's list is marked yet exactly when no cart before
      `k` landed on another. */
  lemma UnmarkedIff(order: seq<Cart>, moves: seq<Cart>, k: int, pending: seq<Cart>)
    requires DetectState(order, moves, k, pending) && k < |order|
    ensures (forall d :: d in Without(pending, order[k]) + Marked(order, moves, k) ==> !d.collided) <==>
      k <= FirstLanding(order, moves, 0)
  {
    var rest := Without(pending, order[k]);
    var mk := Marked(order, moves, k);
    var f := FirstLanding(order, moves, 0);
    PendingCarts(order, moves, k, pending);
    forall d | d in rest ensures !d.collided {
      var j :| k <= j < |order| && order[j] == d;
    }
    if f < k {
      assert mk[f] in rest + mk && mk[f].collided;
    }
    forall d | d in mk && d.collided ensures f < k {
      var j :| 0 <= j < k && mk[j] == d;
    }
  }

  /** Before cart `k` takes its turn it is not yet among the moved carts,
      and after its turn the state moves on to cart `k + 1`. */
  lemma PendingStep(order: seq<Cart>, moves: seq<Cart>, k: int, pending: seq<Cart>)
    requires DetectState(order, moves, k, pending) && k < |order|
    ensures order[k] !in Marked(order, moves, k)
    ensures DetectState(order, moves, k + 1, Without(pending, order[k]))
  {
    var c := order[k];
    var mk := Marked(order, moves, k);
    forall j | 0 <= j < k ensures mk[j] != c {
      assert mk[j].id == order[j].id;
    }
    WithoutMultiset(pending, c);
    assert order[k..] == [c] + order[k + 1..];
    forall j | k < j < |order| ensures order[j] != c {
      assert order[j].id != order[k].id;
    }
    assert c !in order[k + 1..];
  }

  /** The cart the fold step appends is the reference's cart `k`. */
  lemma StepAppendsMark(order: seq<Cart>, moves: seq<Cart>, tracks: Tracks, k: int, pending: seq<Cart>)
    requires DetectState(order, moves, k, pending) && k < |order| && Move(order[k], tracks) == Ok(moves[k])
    requires order[k] !in Marked(order, moves, k)
    ensures var others := Without(pending, order[k]) + Marked(order, moves, k);
      var r := DetectStep(pending + Marked(order, moves, k), order[k], tracks);
      r.Ok? && |r.value| == |others| + 1 && r.value[..|others|] == others && r.value[|others|] == Mark(order, moves, k)
  {
    WithoutConcat(pending, Marked(order, moves, k), order[k]);
    LandsIff(order, moves, k, pending);
    UnmarkedIff(order, moves, k, pending);
  }

  /** One step of the fold turns the state before cart `k` into the state
      before cart `k + 1`. */
  lemma DetectStepMarks(order: seq<Cart>, moves: seq<Cart>, tracks: Tracks, k: int, pending: seq<Cart>)
    requires DetectState(order, moves, k, pending) && k < |order| && Move(order[k], tracks) == Ok(moves[k])
    ensures DetectStep(pending + Marked(order, moves, k), order[k], tracks) ==
      Ok(Without(pending, order[k]) + Marked(order, moves, k + 1))
    ensures DetectState(order, moves, k + 1, Without(pending, order[k]))
  {
    PendingStep(order, moves, k, pending);
    StepAppendsMark(order, moves, tracks, k, pending);
    var rest := Without(pending, order[k]);
    var mk := Marked(order, moves, k);
    var x := Mark(order, moves, k);
    var r := DetectStep(pending + mk, order[k], tracks).value;
    assert r == (rest + mk) + [x] by {
      assert r == r[..|rest + mk|] + [r[|rest + mk|]];
    }
    assert Marked(order, moves, k + 1) == mk + [x];
    ConcatAssoc(rest, mk, [x]);
  }

  /** The rest of the fold, from the state before cart `k`, ends in the
      reference tick. */
  lemma {:induction false} DetectFrom(order: seq<Cart>, moves: seq<Cart>, tracks: Tracks, k: int, pending: seq<Cart>)
    requires DetectState(order, moves, k, pending)
    requires forall j :: 0 <= j < |order| ==> Move(order[j], tracks) == Ok(moves[j])
    ensures DetectFold(pending + Marked(order, moves, k), order[k..], tracks) == Ok(Marked(order, moves, |order|))
    decreases |order| - k
  {
    if k == |order| {
      assert multiset(pending) == multiset{};
      assert pending + Marked(order, moves, k) == Marked(order, moves, |order|);
    } else {
      DetectStepMarks(order, moves, tracks, k, pending);
      assert order[k..][0] == order[k] && order[k..][1..] == order[k + 1..];
      DetectFrom(order, moves, tracks, k + 1, Without(pending, order[k]));
    }
  }

  /** The scan order of a model with distinct ids and no mark yet is a
      starting state of the fold. */
  lemma DetectStart(m: Model)
    requires IdsDistinct(m.carts) && !HasCollisions(m) && AllMove(ScanOrder(m.carts), m.tracks)
    ensures DetectState(ScanOrder(m.carts), MovesOf(ScanOrder(m.carts), m.tracks), 0, m.carts)
  {
    var order := ScanOrder(m.carts);
    PermutedIdsDistinct(m.carts, order);
    forall j | 0 <= j < |order| ensures !order[j].collided {
      assert order[j] in multiset(m.carts);
    }
    assert order[0..] == order;
  }

  /** `tickDetectingCollisions` from a model with distinct ids and no mark
      yet, when every cart can move, is the reference tick: the carts in
      scan order, each moved one cell under its adjusted plan, and marked
      exactly when it is the first of the tick to land on a cell another
      cart stands on (carts earlier in the order already moved, later ones
      not yet). So some cart is marked exactly when some cart lands on
      another, and no two are. */
  lemma TickDetectingMeaning(m: Model)
    requires IdsDistinct(m.carts) && !HasCollisions(m)
    ensures var order := ScanOrder(m.carts); AllMove(order, m.tracks) ==>
      var moves := MovesOf(order, m.tracks);
      && TickDetecting(m) == Ok(Model(m.tracks, Marked(order, moves, |order|)))
      && (HasCollisions(TickDetecting(m).value) <==> exists k :: 0 <= k < |order| && LandsOnCart(order, moves, k))
  {
    var order := ScanOrder(m.carts);
    if AllMove(order, m.tracks) {
      var moves := MovesOf(order, m.tracks);
      DetectStart(m);
      assert m.carts + Marked(order, moves, 0) == m.carts;
      DetectFrom(order, moves, m.tracks, 0, m.carts);
      assert order[0..] == order;
      MarkedCollisions(order, moves);
    }
  }

  /** `cs[i]` is the first cart of `cs` on cell `p`. */
  predicate FirstOn(cs: seq<Cart>, i: int, p: Pos) {
    0 <= i < |cs| && cs[i].pos == p && forall j :: 0 <= j < i ==> cs[j].pos != p
  }

  /** `collision`: the first other cart on the same cell. */
  function Collision(c: Cart, carts: seq<Cart>): (r: Option<Cart>)
    ensures r.Some? ==> exists i :: FirstOn(carts, i, c.pos) && carts[i] == r.value
    ensures r.None? ==> forall d :: d in carts ==> d.pos != c.pos
    decreases |carts|
  {
    if carts == [] then None
    else if carts[0].pos == c.pos then
      assert FirstOn(carts, 0, c.pos);
      Some(carts[0])
    else
      var r := Collision(c, carts[1..]);
      assert r.Some? ==> exists i :: FirstOn(carts, i, c.pos) && carts[i] == r.value by {
        if r.Some? {
          var i :| FirstOn(carts[1..], i, c.pos) && carts[1..][i] == r.value;
          assert FirstOn(carts, i + 1, c.pos) by {
            forall j | 0 <= j < i + 1 ensures carts[j].pos != c.pos {
              if j > 0 {
                assert carts[j] == carts[1..][j - 1];
              }
            }
          }
        }
      }
      r
  }

  /** No two different carts share a cell. */
  predicate Apart(cs: seq<Cart>) {
    forall d, e :: d in cs && e in cs && d.pos == e.pos ==> d == e
  }

  /** One step of the fold of `tickRemovingCrashedCarts`: a cart removed
      earlier in the tick does not move; otherwise it moves, and it either
      lands on a free cell or is removed together with the first cart it
      lands on. */
  function RemoveStep(acc: seq<Cart>, c: Cart, tracks: Tracks): (r: Result<seq<Cart>>)
    requires IdsDistinct(acc)
    ensures c !in acc ==> r == Ok(acc)
    ensures c in acc ==> (r.Ok? <==> Move(c, tracks).Ok?)
    ensures r.Ok? && c in acc ==> var moved := Move(c, tracks).value; var others := Without(acc, c);
      (forall d :: d in others ==> d.pos != moved.pos) ==> r.value == others + [moved]
    ensures r.Ok? && c in acc ==> var moved := Move(c, tracks).value; var others := Without(acc, c);
      (exists d :: d in others && d.pos == moved.pos) ==>
        exists i :: FirstOn(others, i, moved.pos) && r.value == Without(others, others[i])
    ensures r.Ok? ==> forall d :: d in r.value ==> (d in acc && d != c) || Move(c, tracks) == Ok(d)
    ensures r.Ok? && Apart(acc) ==> Apart(r.value)
    ensures r.Ok? ==> IdsDistinct(r.value)
    ensures r.Ok? ==> |r.value| == |acc| || (c in acc && |r.value| == |acc| - 2)
    ensures r.Ok? && |r.value| < |acc| ==> forall d :: d in r.value ==> d.id != c.id
  {
    if c !in acc then Ok(acc)
    else
      match Move(c, tracks)
      case Err(e) => Err(e)
      case Ok(moved) =>
        var others := Without(acc, c);
        WithoutOne(acc, c);
        match Collision(moved, others)
        case None =>
          AppendFresh(others, moved);
          Ok(others + [moved])
        case Some(crash) =>
          WithoutOne(others, crash);
          Ok(Without(others, crash))
  }

  /** `b` is `a` less an even number. */
  predicate EvenDrop(a: int, b: int) {
    b <= a && (a - b) % 2 == 0
  }

  lemma EvenDropStep(a: int, b: int, c: int)
    requires a == b || a == b + 2
    requires EvenDrop(b, c)
    ensures EvenDrop(a, c)
  {
    if a == b + 2 {
      ModShift(b - c, 2);
    }
  }

  lemma EvenDropTrans(a: int, b: int, c: int)
    requires EvenDrop(a, b) && EvenDrop(b, c)
    ensures EvenDrop(a, c)
  {
    DivModUnique(a - c, 2, (a - b) / 2 + (b - c) / 2, 0);
  }

  /** The fold over `order`: every survivor is a cart of `acc` that was never
      up to move, or the moved form of a cart that was; and crashes leave no
      two carts on one cell. */
  function RemoveFold(acc: seq<Cart>, order: seq<Cart>, tracks: Tracks): (r: Result<seq<Cart>>)
    requires IdsDistinct(acc)
    ensures r.Ok? ==> IdsDistinct(r.value) && EvenDrop(|acc|, |r.value|)
    ensures r.Ok? ==> forall d :: d in r.value ==> (d in acc && d !in order) || exists s :: s in order && Move(s, tracks) == Ok(d)
    ensures r.Ok? && Apart(acc) ==> Apart(r.value)
    decreases |order|
  {
    if order == [] then Ok(acc)
    else
      match RemoveStep(acc, order[0], tracks)
      case Err(e) => Err(e)
      case Ok(next) =>
        var r := RemoveFold(next, order[1..], tracks);
        if r.Ok? then
          EvenDropStep(|acc|, |next|, |r.value|);
          SurvivorsStep(acc, order, next, r.value, tracks);
          r
        else r
  }

  /** A survivor of the rest of the fold came from the step's result, and so
      from `acc` or from the cart that just moved. */
  lemma SurvivorsStep(acc: seq<Cart>, order: seq<Cart>, next: seq<Cart>, r: seq<Cart>, tracks: Tracks)
    requires order != []
    requires forall d :: d in next ==> (d in acc && d != order[0]) || Move(order[0], tracks) == Ok(d)
    requires forall d :: d in r ==> (d in next && d !in order[1..]) || exists s :: s in order[1..] && Move(s, tracks) == Ok(d)
    ensures forall d :: d in r ==> (d in acc && d !in order) || exists s :: s in order && Move(s, tracks) == Ok(d)
  {
    forall d | d in r ensures (d in acc && d !in order) || exists s :: s in order && Move(s, tracks) == Ok(d) {
      if d in next && d !in order[1..] {
        if Move(order[0], tracks) == Ok(d) {
          assert order[0] in order;
        } else {
          assert order == [order[0]] + order[1..];
        }
      } else {
        var s :| s in order[1..] && Move(s, tracks) == Ok(d);
        assert s in order;
      }
    }
  }

  /** `tickRemovingCrashedCarts`: crashes remove carts two at a time. */
  function TickRemoving(m: Model): (r: Result<Model>)
    requires IdsDistinct(m.carts)
    ensures r.Ok? ==> r.value.tracks == m.tracks && IdsDistinct(r.value.carts)
    ensures r.Ok? ==> EvenDrop(|m.carts|, |r.value.carts|)
  {
    match RemoveFold(m.carts, ScanOrder(m.carts), m.tracks)
    case Err(e) => Err(e)
    case Ok(carts) => Ok(Model(m.tracks, carts))
  }

  /** Every cart still present when its turn comes moves, so every survivor
      of a removal tick is a moved cart of the model; and when no two carts
      shared a cell before the tick, none do after: both carts of every
      crash are gone. */
  lemma TickRemovingMeaning(m: Model)
    requires IdsDistinct(m.carts)
    ensures var r := TickRemoving(m);
      r.Ok? ==> forall d :: d in r.value.carts ==> exists s :: s in m.carts && Move(s, m.tracks) == Ok(d)
    ensures var r := TickRemoving(m); r.Ok? && Apart(m.carts) ==> Apart(r.value.carts)
  {
    var order := ScanOrder(m.carts);
    var r := RemoveFold(m.carts, order, m.tracks);
    if r.Ok? {
      SurvivorsMoved(m.carts, order, r.value, m.tracks);
    }
  }

  /** When every cart is up to move, a survivor of the fold is a moved cart. */
  lemma SurvivorsMoved(cs: seq<Cart>, order: seq<Cart>, r: seq<Cart>, tracks: Tracks)
    requires multiset(order) == multiset(cs)
    requires forall d :: d in r ==> (d in cs && d !in order) || exists s :: s in order && Move(s, tracks) == Ok(d)
    ensures forall d :: d in r ==> exists s :: s in cs && Move(s, tracks) == Ok(d)
  {
    forall d | d in r ensures exists s :: s in cs && Move(s, tracks) == Ok(d) {
      assert d in cs ==> d in order by {
        if d in cs {
          assert d in multiset(cs);
        }
      }
      var s :| s in order && Move(s, tracks) == Ok(d);
      assert s in multiset(order);
    }
  }

  /** Loaded carts stand on different cells. */
  lemma LoadApart(lines: seq<seq<char>>)
    ensures Apart(Load(lines).carts)
  {
    var cs := Load(lines).carts;
    AllCartsOrdered(lines);
    forall d, e | d in cs && e in cs && d.pos == e.pos ensures d == e {
      var i :| 0 <= i < |cs| && cs[i] == d;
      var j :| 0 <= j < |cs| && cs[j] == e;
      assert i == j;
    }
  }

  // ---------------------------------------------------------------------
  // The two parts
  // ---------------------------------------------------------------------

  predicate HasCollisions(m: Model) {
    exists c :: c in m.carts && c.collided
  }

  /** The first collided cart of a list. */
  function FirstCollided(cs: seq<Cart>): (r: Option<Cart>)
    ensures r.Some? ==> r.value in cs && r.value.collided
    ensures r.Some? ==> exists i :: 0 <= i < |cs| && cs[i] == r.value && forall j :: 0 <= j < i ==> !cs[j].collided
    ensures r.None? ==> forall c :: c in cs ==> !c.collided
    decreases |cs|
  {
    if cs == [] then None
    else if cs[0].collided then Some(cs[0])
    else
      var r := FirstCollided(cs[1..]);
      assert r.Some? ==> exists i :: 0 <= i < |cs| && cs[i] == r.value && forall j :: 0 <= j < i ==> !cs[j].collided by {
        if r.Some? {
          var i :| 0 <= i < |cs[1..]| && cs[1..][i] == r.value && forall j :: 0 <= j < i ==> !cs[1..][j].collided;
          assert cs[i + 1] == r.value;
          assert forall j :: 0 < j < i + 1 ==> cs[j] == cs[1..][j - 1];
        }
      }
      r
  }

  /** The first collided cart in scan order, when some cart has collided. */
  function FirstMarked(cs: seq<Cart>): (r: Cart)
    requires exists c :: c in cs && c.collided
    ensures r in cs && r.collided
    ensures FirstCollided(ScanOrder(cs)) == Some(r)
    ensures var sorted := ScanOrder(cs);
      exists i :: 0 <= i < |sorted| && sorted[i] == r && forall j :: 0 <= j < i ==> !sorted[j].collided
  {
    var sorted := ScanOrder(cs);
    var c :| c in cs && c.collided;
    assert c in multiset(cs);
    assert c in sorted;
    match FirstCollided(sorted)
    case None => assert false; c
    case Some(first) =>
      assert first in multiset(sorted);
      first
  }

  /** The timeline of `tickDetectingCollisions` up to the first model with
      a collision, within `fuel` ticks; the source loops for ever. */
  function UntilCollision(m: Model, fuel: nat): (r: Result<Model>)
    ensures r.Ok? ==> HasCollisions(r.value) && r.value.tracks == m.tracks
    decreases fuel
  {
    if HasCollisions(m) then Ok(m)
    else if fuel == 0 then Err("OutOfFuel")
    else
      match TickDetecting(m)
      case Err(e) => Err(e)
      case Ok(next) => UntilCollision(next, fuel - 1)
  }

  /** `part1`: where the first collision happens, taking the first marked
      cart in scan order. */
  function Part1(m: Model, fuel: nat): (r: Result<Pos>)
    ensures r.Ok? <==> UntilCollision(m, fuel).Ok?
    ensures r.Ok? ==> exists c :: c in UntilCollision(m, fuel).value.carts && c.collided && c.pos == r.value
  {
    match UntilCollision(m, fuel)
    case Err(e) => Err(e)
    case Ok(end) =>
      var first := FirstMarked(end.carts);
      Ok(first.pos)
  }

  /** The timeline of `tickRemovingCrashedCarts` up to the first model with
      at most one cart, within `fuel` ticks. */
  function UntilOneLeft(m: Model, fuel: nat): (r: Result<Model>)
    requires IdsDistinct(m.carts)
    ensures r.Ok? ==> |r.value.carts| <= 1 && EvenDrop(|m.carts|, |r.value.carts|)
    decreases fuel
  {
    if |m.carts| <= 1 then Ok(m)
    else if fuel == 0 then Err("OutOfFuel")
    else
      match TickRemoving(m)
      case Err(e) => Err(e)
      case Ok(next) =>
        var r := UntilOneLeft(next, fuel - 1);
        if r.Ok? then EvenDropTrans(|m.carts|, |next.carts|, |r.value.carts|); r else r
  }

  lemma OneLeftMeansOdd(n: int)
    requires EvenDrop(n, 1)
    ensures n % 2 == 1
  {
    DivModUnique(n, 2, (n - 1) / 2, 1);
  }

  /** `part2`: the position of the last cart; with an even number of carts
      none is left and `first()` throws. */
  function Part2(m: Model, fuel: nat): (r: Result<Pos>)
    requires IdsDistinct(m.carts)
    ensures |m.carts| % 2 == 0 ==> r.Err?
    ensures r.Ok? ==> UntilOneLeft(m, fuel).Ok? && |UntilOneLeft(m, fuel).value.carts| == 1
    ensures r.Ok? ==> r.value == UntilOneLeft(m, fuel).value.carts[0].pos
  {
    LastCartPos(UntilOneLeft(m, fuel), |m.carts|)
  }

  /** `first().pos` of the model the removal timeline ends in, having
      started from `start` carts. */
  function LastCartPos(end: Result<Model>, start: int): (r: Result<Pos>)
    requires end.Ok? ==> |end.value.carts| <= 1 && EvenDrop(start, |end.value.carts|)
    ensures start % 2 == 0 ==> r.Err?
    ensures r.Ok? ==> end.Ok? && |end.value.carts| == 1 && r.value == end.value.carts[0].pos
  {
    match end
    case Err(e) => Err(e)
    case Ok(last) =>
      if last.carts == [] then Err("NoSuchElementException")
      else
        OneLeftMeansOdd(start);
        Ok(last.carts[0].pos)
  }
}
