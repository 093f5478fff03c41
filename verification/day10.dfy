/** Moving points of light: positions advance linearly with time; the
    message appears at the first moment the bounding box is smallest, and is
    rendered as rows of `#` and `.` over that box. */
module Day10 {

  import opened Plane

  datatype Point = Point(position: Pos, velocity: Pos)

  /** The position reached by `|t|` one-second moves at `v`, forward in time
      for positive `t` and backward for negative `t`. */
  function Drift(pos: Pos, v: Pos, t: int): Pos
    decreases if t < 0 then -t else t
  {
    if t == 0 then pos
    else if t > 0 then Drift(Pos(pos.x + v.x, pos.y + v.y), v, t - 1)
    else Drift(Pos(pos.x - v.x, pos.y - v.y), v, t + 1)
  }

  lemma {:induction false} DriftIsLinear(pos: Pos, v: Pos, t: int)
    ensures Drift(pos, v, t) == Pos(pos.x + v.x * t, pos.y + v.y * t)
    decreases if t < 0 then -t else t
  {
    if t > 0 {
      DriftIsLinear(Pos(pos.x + v.x, pos.y + v.y), v, t - 1);
    } else if t < 0 {
      DriftIsLinear(Pos(pos.x - v.x, pos.y - v.y), v, t + 1);
    }
  }

  /** `integrate(t)`: the position at time `t`, the point's place after `t`
      seconds of moving one velocity step per second. */
  function Integrate(p: Point, t: int): (r: Pos)
    ensures r == Drift(p.position, p.velocity, t)
  {
    DriftIsLinear(p.position, p.velocity, t);
    Pos(p.position.x + p.velocity.x * t, p.position.y + p.velocity.y * t)
  }

  /** Integrating in two legs is integrating once over the total time. */
  lemma IntegrateAdditive(p: Point, t1: int, t2: int)
    ensures Integrate(Point(Integrate(p, t1), p.velocity), t2) == Integrate(p, t1 + t2)
  {
    assert p.velocity.x * (t1 + t2) == p.velocity.x * t1 + p.velocity.x * t2;
    assert p.velocity.y * (t1 + t2) == p.velocity.y * t1 + p.velocity.y * t2;
  }

  /** `boundingBox`: `Box.plus` folded over the positions from the empty box. */
  function BoundingBox(ps: seq<Pos>): (b: Box)
    ensures ps == [] ==> b == EmptyBox
    ensures forall p :: p in ps ==> b.Contains(p)
  {
    if ps == [] then EmptyBox
    else
      var init := ps[..|ps| - 1];
      var last := ps[|ps| - 1];
      assert forall p :: p in ps <==> p in init || p == last;
      AddPos(BoundingBox(init), last)
  }

  /** The bounding box of a non-empty list is tight: each of its four bounds
      is attained by some position. */
  lemma {:induction false} BoundingBoxTight(ps: seq<Pos>)
    requires ps != []
    ensures var b := BoundingBox(ps); !b.x.IsEmpty() && !b.y.IsEmpty()
    ensures var b := BoundingBox(ps); exists p :: p in ps && p.x == b.x.start
    ensures var b := BoundingBox(ps); exists p :: p in ps && p.x == b.x.end
    ensures var b := BoundingBox(ps); exists p :: p in ps && p.y == b.y.start
    ensures var b := BoundingBox(ps); exists p :: p in ps && p.y == b.y.end
  {
    var init := ps[..|ps| - 1];
    var last := ps[|ps| - 1];
    assert forall p :: p in ps <==> p in init || p == last;
    if init != [] {
      BoundingBoxTight(init);
    }
  }

  /** `area`: width times height. */
  function Area(b: Box): int {
    b.Width() * b.Height()
  }

  /** The area of the bounding box at time `t`. */
  function AreaAt(points: seq<Point>, t: int): int {
    Area(BoundingBox(Positions(points, t)))
  }

  function Positions(points: seq<Point>, t: int): (r: seq<Pos>)
    ensures |r| == |points| && forall i :: 0 <= i < |points| ==> r[i] == Integrate(points[i], t)
  {
    seq(|points|, i requires 0 <= i < |points| => Integrate(points[i], t))
  }

  /** The first time in `from..last` at which `f` is least (`minBy` keeps
      the first of equal keys). */
  function FirstSmallest(f: int -> int, from: int, last: int): (t: int)
    requires from <= last
    ensures from <= t <= last
    ensures forall u :: from <= u <= last ==> f(t) <= f(u)
    ensures forall u :: from <= u < t ==> f(u) > f(t)
    decreases last - from
  {
    if from == last then from
    else
      var rest := FirstSmallest(f, from + 1, last);
      if f(from) <= f(rest) then from else rest
  }

  const Horizon := 100000

  // ---------------------------------------------------------------------
  // Rendering
  // ---------------------------------------------------------------------

  /** A `height` by `width` grid of `.`. */
  function Blank(width: nat, height: nat): (rows: seq<seq<char>>)
    ensures |rows| == height && forall i :: 0 <= i < height ==> |rows[i]| == width
    ensures forall i, j :: 0 <= i < height && 0 <= j < width ==> rows[i][j] == '.'
  {
    seq(height, _ => seq(width, _ => '.'))
  }

  /** Writes `#` at each position, offset by the box's corner. */
  function Paint(rows: seq<seq<char>>, b: Box, ps: seq<Pos>): (r: seq<seq<char>>)
    requires forall p :: p in ps ==> b.Contains(p)
    requires |rows| == b.Height() && forall i :: 0 <= i < |rows| ==> |rows[i]| == b.Width()
    ensures |r| == |rows| && forall i :: 0 <= i < |r| ==> |r[i]| == |rows[i]|
    ensures forall i, j :: 0 <= i < |r| && 0 <= j < |r[i]| ==>
      r[i][j] == (if Pos(b.x.start + j, b.y.start + i) in ps then '#' else rows[i][j])
  {
    if ps == [] then rows
    else
      var p := ps[|ps| - 1];
      var init := ps[..|ps| - 1];
      assert forall q :: q in ps <==> q in init || q == p;
      var r := Paint(rows, b, init);
      assert p in ps && b.Contains(p);
      var i, j := p.y - b.y.start, p.x - b.x.start;
      r[i := r[i][j := '#']]
  }

  /** `render`: rows of the bounding box's size with `#` exactly at the positions. */
  function Render(ps: seq<Pos>): (rows: seq<seq<char>>)
    ensures var b := BoundingBox(ps);
      ps != [] ==> |rows| == b.Height() && forall i :: 0 <= i < |rows| ==> |rows[i]| == b.Width()
    ensures var b := BoundingBox(ps);
      ps != [] ==> forall i, j :: 0 <= i < |rows| && 0 <= j < |rows[i]| ==>
        (rows[i][j] == '#' <==> Pos(b.x.start + j, b.y.start + i) in ps)
    ensures ps == [] ==> rows == []
  {
    var b := BoundingBox(ps);
    if ps == [] then []
    else Paint(Blank(b.Width(), b.Height()), b, ps)
  }

  /** The total length of some rows. */
  function TotalLength(rows: seq<seq<char>>): nat {
    if rows == [] then 0 else |rows[0]| + TotalLength(rows[1..])
  }

  /** Lines joined by newlines (`joinToString("\n")`): the rows' characters
      and one separator between each two neighbours. */
  function JoinLines(rows: seq<seq<char>>): (s: string)
    ensures rows == [] ==> s == []
    ensures |rows| == 1 ==> s == rows[0]
    ensures rows != [] ==> |s| == TotalLength(rows) + |rows| - 1
    ensures rows != [] ==> s[..|rows[0]|] == rows[0]
  {
    if rows == [] then [] else if |rows| == 1 then rows[0] else rows[0] + "\n" + JoinLines(rows[1..])
  }

  /** The text cut at every newline (`split("\n")`); always one piece more
      than there are newlines. */
  function SplitLines(s: string): (r: seq<string>)
    ensures |r| >= 1
    decreases |s|
  {
    if s == [] then [[]]
    else
      var rest := SplitLines(s[1..]);
      if s[0] == '\n' then [[]] + rest else [[s[0]] + rest[0]] + rest[1..]
  }

  /** Text without a newline stays in the first piece. */
  lemma {:induction false} SplitAfter(a: string, b: string)
    requires '\n' !in a
    ensures SplitLines(a + b) == [a + SplitLines(b)[0]] + SplitLines(b)[1..]
    decreases |a|
  {
    if a != [] {
      assert (a + b)[0] == a[0] && (a + b)[1..] == a[1..] + b;
      assert a[1..] + b == (a + b)[1..];
      SplitAfter(a[1..], b);
      assert [a[0]] + (a[1..] + SplitLines(b)[0]) == a + SplitLines(b)[0];
    } else {
      var r := SplitLines(b);
      assert a + b == b && a + r[0] == r[0];
      assert r == [r[0]] + r[1..];
    }
  }

  /** Splitting joined rows gives the rows back when no row holds a newline. */
  lemma {:induction false} SplitJoin(rows: seq<seq<char>>)
    requires rows != [] && forall i :: 0 <= i < |rows| ==> '\n' !in rows[i]
    ensures SplitLines(JoinLines(rows)) == rows
    decreases |rows|
  {
    if |rows| == 1 {
      SplitAfter(rows[0], []);
      assert rows[0] + [] == rows[0];
      assert rows == [rows[0]];
    } else {
      var tail := JoinLines(rows[1..]);
      assert JoinLines(rows) == rows[0] + ("\n" + tail);
      SplitAfter(rows[0], "\n" + tail);
      assert ("\n" + tail)[0] == '\n' && ("\n" + tail)[1..] == tail;
      SplitJoin(rows[1..]);
      assert rows[0] + [] == rows[0];
      assert rows == [rows[0]] + rows[1..];
    }
  }

  /** `t` is the earliest time in `1..last` at which the bounding box's area
      is least. */
  ghost predicate FirstLeastArea(points: seq<Point>, t: int, last: int) {
    && 1 <= t <= last
    && (forall u :: 1 <= u <= last ==> AreaAt(points, t) <= AreaAt(points, u))
    && (forall u :: 1 <= u < t ==> AreaAt(points, u) > AreaAt(points, t))
  }

  /** The first time in `1..last` of least area, and the image then. */
  function SolveWithin(points: seq<Point>, last: int): (r: (int, string))
    requires 1 <= last
    ensures FirstLeastArea(points, r.0, last)
    ensures r.1 == JoinLines(Render(Positions(points, r.0)))
  {
    var f := u => AreaAt(points, u);
    var t := FirstSmallest(f, 1, last);
    assert forall u :: f(u) == AreaAt(points, u);
    (t, JoinLines(Render(Positions(points, t))))
  }

  /** `solve`: the search runs over times 1 to 100000. */
  function Solve(points: seq<Point>): (r: (int, string))
    ensures FirstLeastArea(points, r.0, Horizon)
    ensures r.1 == JoinLines(Render(Positions(points, r.0)))
  {
    SolveWithin(points, Horizon)
  }
}
