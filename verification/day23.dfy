/** Nanobots in three dimensions: the strongest bot is the first one with
    the largest signal radius, and part 1 counts the bots within that
    radius of it. */
module Day23 {

  import opened Wrappers
  import Plane

  datatype Pos = Pos(x: int, y: int, z: int)

  datatype Nanobot = Nanobot(pos: Pos, radius: int)

  /** `Pos.minus`: the Manhattan distance in three dimensions. */
  function Distance(a: Pos, b: Pos): (r: int)
    ensures r >= 0
    ensures r == 0 <==> a == b
  {
    Plane.Abs(a.x - b.x) + Plane.Abs(a.y - b.y) + Plane.Abs(a.z - b.z)
  }

  /** The distance is never negative, does not depend on the order of the
      points, and is zero exactly from a point to itself. */
  lemma DistanceIsMetric(a: Pos, b: Pos)
    ensures Distance(a, b) >= 0
    ensures Distance(a, b) == Distance(b, a)
    ensures Distance(a, b) == 0 <==> a == b
  {
  }

  /** The index of the first bot with the largest radius among `bots[..n+1]`. */
  function FirstStrongest(bots: seq<Nanobot>, n: nat): (r: nat)
    requires n < |bots|
    ensures r <= n
    ensures forall k :: 0 <= k <= n ==> bots[k].radius <= bots[r].radius
    ensures forall k :: 0 <= k < r ==> bots[k].radius < bots[r].radius
  {
    if n == 0 then 0
    else
      var best := FirstStrongest(bots, n - 1);
      if bots[n].radius > bots[best].radius then n else best
  }

  /** `maxBy { radius }!!`: the first bot with the largest radius; an empty
      list makes `!!` throw. */
  function Strongest(bots: seq<Nanobot>): (r: Result<nat>)
    ensures r.Ok? <==> bots != []
    ensures r.Err? ==> r == Err("NullPointerException")
    ensures r.Ok? ==> r.value < |bots|
    ensures r.Ok? ==> forall k :: 0 <= k < |bots| ==> bots[k].radius <= bots[r.value].radius
    ensures r.Ok? ==> forall k :: 0 <= k < r.value ==> bots[k].radius < bots[r.value].radius
  {
    if bots == [] then Err("NullPointerException") else Ok(FirstStrongest(bots, |bots| - 1))
  }

  /** The number of bots within distance `radius` of `p`, bounds included. */
  function CountInRange(bots: seq<Nanobot>, p: Pos, radius: int): (r: nat)
    ensures r <= |bots|
  {
    if bots == [] then 0
    else CountInRange(bots[..|bots| - 1], p, radius) + (if Distance(p, bots[|bots| - 1].pos) <= radius then 1 else 0)
  }

  /** The bots within range, as a set of indices. */
  function InRange(bots: seq<Nanobot>, p: Pos, radius: int): set<nat> {
    set k: nat | k < |bots| && Distance(p, bots[k].pos) <= radius
  }

  /** The count is the number of bots within range. */
  lemma {:induction false} CountIsInRange(bots: seq<Nanobot>, p: Pos, radius: int)
    ensures CountInRange(bots, p, radius) == |InRange(bots, p, radius)|
  {
    if bots != [] {
      var n := |bots| - 1;
      CountIsInRange(bots[..n], p, radius);
      InRangeLast(bots, p, radius);
    }
  }

  /** The bots within range are those of all but the last, and the last
      when it is within range. */
  lemma InRangeLast(bots: seq<Nanobot>, p: Pos, radius: int)
    requires bots != []
    ensures var n := |bots| - 1;
      var below := InRange(bots[..n], p, radius);
      n !in below &&
      InRange(bots, p, radius) == if Distance(p, bots[n].pos) <= radius then below + {n} else below
  {
    var n := |bots| - 1;
    var init := bots[..n];
    var below := InRange(init, p, radius);
    assert forall k :: k in below ==> init[k] == bots[k];
    if Distance(p, bots[n].pos) <= radius {
      assert InRange(bots, p, radius) == below + {n};
    } else {
      assert InRange(bots, p, radius) == below;
    }
  }

  /** Part 1: how many bots lie within the strongest bot's radius of it. */
  function Part1(bots: seq<Nanobot>): (r: Result<nat>)
    ensures r.Ok? <==> bots != []
    ensures r.Err? ==> r == Err("NullPointerException")
    ensures r.Ok? ==> r.value <= |bots|
    ensures r.Ok? ==> var s := bots[Strongest(bots).value];
      r.value == |InRange(bots, s.pos, s.radius)|
  {
    match Strongest(bots)
    case Err(e) => Err(e)
    case Ok(i) =>
      CountIsInRange(bots, bots[i].pos, bots[i].radius);
      Ok(CountInRange(bots, bots[i].pos, bots[i].radius))
  }

  /** A bot with a radius of at least zero is in its own range, so part 1
      counts at least one bot. */
  lemma Part1CountsStrongest(bots: seq<Nanobot>)
    requires bots != []
    requires forall k :: 0 <= k < |bots| ==> bots[k].radius >= 0
    ensures Part1(bots).Ok? && Part1(bots).value >= 1
  {
    var i := Strongest(bots).value;
    DistanceIsMetric(bots[i].pos, bots[i].pos);
    assert i in InRange(bots, bots[i].pos, bots[i].radius);
  }
}
