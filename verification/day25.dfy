/** Constellations of four-dimensional points: a point within distance 3
    of some member of a constellation joins it, and a point that joins
    several constellations merges them into one. */
module Day25 {

  import Plane

  datatype Point = Point(w: int, x: int, y: int, z: int)

  /** `Point.distance`: the Manhattan distance in four dimensions. */
  function Distance(a: Point, b: Point): (r: int)
    ensures r >= 0
    ensures r == 0 <==> a == b
  {
    Plane.Abs(a.w - b.w) + Plane.Abs(a.x - b.x) + Plane.Abs(a.y - b.y) + Plane.Abs(a.z - b.z)
  }

  /** The distance does not depend on the order of the points and is zero
      exactly from a point to itself. */
  lemma DistanceIsMetric(a: Point, b: Point)
    ensures Distance(a, b) >= 0
    ensures Distance(a, b) == Distance(b, a)
    ensures Distance(a, b) == 0 <==> a == b
  {
  }

  datatype Constellation = Constellation(points: set<Point>)

  /** `shouldContain`: some member lies within distance 3 of the point. */
  predicate ShouldContain(c: Constellation, p: Point) {
    exists q :: q in c.points && Distance(q, p) <= 3
  }

  /** A constellation takes in each of its own points. */
  lemma ContainsOwnPoints(c: Constellation, p: Point)
    requires p in c.points
    ensures ShouldContain(c, p)
  {
    DistanceIsMetric(p, p);
  }

  /** `plus` with a point. */
  function AddPoint(c: Constellation, p: Point): (r: Constellation)
    ensures forall q :: q in r.points <==> q in c.points || q == p
  {
    Constellation(c.points + {p})
  }

  /** `plus` with a constellation. */
  function Join(c: Constellation, d: Constellation): (r: Constellation)
    ensures forall q :: q in r.points <==> q in c.points || q in d.points
  {
    Constellation(c.points + d.points)
  }

  /** Every point of every constellation in `cs`. */
  function Union(cs: set<Constellation>): set<Point> {
    set c, q | c in cs && q in c.points :: q
  }

  /** `merge`: the constellations of the list folded into the point's own
      constellation, in list order. */
  function MergeList(cs: seq<Constellation>, p: Point): Constellation {
    if cs == [] then Constellation({p}) else Join(MergeList(cs[..|cs| - 1], p), cs[|cs| - 1])
  }

  /** The merge holds the point and the points of every listed
      constellation, whatever their order. */
  lemma {:induction false} MergeListIsUnion(cs: seq<Constellation>, p: Point)
    ensures MergeList(cs, p).points == {p} + Union(set c | c in cs)
  {
    if cs != [] {
      var init := cs[..|cs| - 1];
      MergeListIsUnion(init, p);
      assert (set c | c in cs) == (set c | c in init) + {cs[|cs| - 1]} by {
        assert cs == init + [cs[|cs| - 1]];
      }
    }
  }

  /** The merge of a set of constellations, which is what any order of
      listing them merges to. */
  function Merge(join: set<Constellation>, p: Point): Constellation {
    Constellation({p} + Union(join))
  }

  /** Two different constellations are more than 3 apart everywhere. */
  ghost predicate Separated(cs: set<Constellation>) {
    forall c, d :: c in cs && d in cs && c != d ==>
      forall q, r :: q in c.points && r in d.points ==> Distance(q, r) > 3
  }

  /** The constellations the point joins (the first half of `partition`). */
  function Joining(cs: set<Constellation>, p: Point): set<Constellation> {
    set c | c in cs && ShouldContain(c, p)
  }

  /** One point of the `part1` fold: the constellations the point joins are
      merged with it, the others stay as they are. */
  function Add(cs: set<Constellation>, p: Point): (r: set<Constellation>)
    ensures Merge(Joining(cs, p), p) in r
    ensures forall c :: c in cs && !ShouldContain(c, p) ==> c in r
    ensures forall c :: c in r ==> c == Merge(Joining(cs, p), p) || (c in cs && !ShouldContain(c, p))
  {
    var join := Joining(cs, p);
    (cs - join) + {Merge(join, p)}
  }

  /** The merged constellation is new: the kept ones do not hold the point. */
  lemma AddCount(cs: set<Constellation>, p: Point)
    ensures |Add(cs, p)| == |cs| - |Joining(cs, p)| + 1
  {
    var join := Joining(cs, p);
    var m := Merge(join, p);
    if m in cs - join {
      ContainsOwnPoints(m, p);
    }
    assert join <= cs;
    assert |cs - join| == |cs| - |join| by {
      assert cs == (cs - join) + join;
    }
  }

  /** Adding a point adds exactly that point to the union. */
  lemma AddUnion(cs: set<Constellation>, p: Point)
    ensures Union(Add(cs, p)) == Union(cs) + {p}
  {
    var join := Joining(cs, p);
    forall q | q in Union(cs) ensures q in Union(Add(cs, p)) {
      var c :| c in cs && q in c.points;
      if c in join {
        assert q in Merge(join, p).points;
      } else {
        assert c in Add(cs, p);
      }
    }
    assert p in Merge(join, p).points;
  }

  /** Adding a point keeps different constellations more than 3 apart. */
  lemma AddSeparated(cs: set<Constellation>, p: Point)
    requires Separated(cs)
    ensures Separated(Add(cs, p))
  {
    var join := Joining(cs, p);
    var m := Merge(join, p);
    forall d, q, r | d in cs - join && q in m.points && r in d.points
      ensures Distance(q, r) > 3 && Distance(r, q) > 3
    {
      DistanceIsMetric(q, r);
      if q != p {
        var c :| c in join && q in c.points;
        assert c != d;
      }
    }
  }

  /** The points of a list. */
  function Seen(input: seq<Point>): set<Point> {
    set q | q in input
  }

  lemma SeenSnoc(input: seq<Point>)
    requires input != []
    ensures Seen(input) == Seen(input[..|input| - 1]) + {input[|input| - 1]}
  {
    assert input == input[..|input| - 1] + [input[|input| - 1]];
  }

  /** The `part1` fold over the input: the constellations cover exactly the
      points seen, no two of them come within distance 3 of each other,
      and there are never more constellations than points. */
  function Constellations(input: seq<Point>): (r: set<Constellation>)
    ensures Union(r) == Seen(input)
    ensures Separated(r)
    ensures |r| <= |input|
  {
    if input == [] then {}
    else
      var n := |input| - 1;
      var before := Constellations(input[..n]);
      AddUnion(before, input[n]);
      AddSeparated(before, input[n]);
      AddCount(before, input[n]);
      SeenSnoc(input);
      Add(before, input[n])
  }

  /** Part 1: the number of constellations; at most the number of points,
      and at least one for some points. */
  function Part1(input: seq<Point>): (r: nat)
    ensures r <= |input|
    ensures input != [] ==> r >= 1
  {
    var cs := Constellations(input);
    assert input != [] ==> input[0] in Union(cs);
    |cs|
  }

  /** One point is one constellation. */
  lemma Single(a: Point)
    ensures Constellations([a]) == {Constellation({a})}
  {
    assert [a][..0] == [];
    assert Joining({}, a) == {};
    assert Union({}) == {};
    assert Merge({}, a) == Constellation({a});
  }

  /** Two points 3 apart form one constellation... */
  lemma NearPointsJoin()
    ensures Part1([Point(0, 0, 0, 0), Point(3, 0, 0, 0)]) == 1
  {
    var a, b := Point(0, 0, 0, 0), Point(3, 0, 0, 0);
    assert [a, b][..1] == [a];
    Single(a);
    assert ShouldContain(Constellation({a}), b) by {
      assert Distance(a, b) == 3;
    }
    assert Joining({Constellation({a})}, b) == {Constellation({a})};
  }

  /** ...and two points 9 apart form two. */
  lemma FarPointsStayApart()
    ensures Part1([Point(0, 0, 0, 0), Point(9, 0, 0, 0)]) == 2
  {
    var a, b := Point(0, 0, 0, 0), Point(9, 0, 0, 0);
    assert [a, b][..1] == [a];
    Single(a);
    assert !ShouldContain(Constellation({a}), b);
    assert Joining({Constellation({a})}, b) == {};
    assert Union({}) == {};
    assert Merge({}, b) == Constellation({b});
    assert Constellation({a}) != Constellation({b}) by {
      assert b !in {a};
    }
  }
}
