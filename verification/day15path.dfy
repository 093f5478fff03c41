/** Beverage Bandits, path lengths: the distance `dijkstra` returns. Every
    step costs one, so the search settles cells in rings of equal distance;
    the model grows those rings directly and proves that the first ring
    holding the end is the length of a shortest walk. */
module Day15Path {

  import opened Wrappers
  import opened Plane
  import opened Day15
  import Toolbox

  // ---------------------------------------------------------------------
  // Walks
  // ---------------------------------------------------------------------

  /** Which cells are one step apart. The theory of rings holds for any such
      relation; the cave instantiates it with `IsNeighbour`. */
  type Adjacency = (Pos, Pos) -> bool

  predicate StepsAt(w: seq<Pos>, adj: Adjacency, i: int)
    requires 0 <= i < |w| - 1
  {
    adj(w[i], w[i + 1])
  }

  /** A walk from `start`: every cell after the first is in `allowed` and
      each cell is a neighbour of the one before. Its length is |w| - 1. */
  ghost predicate IsWalk(w: seq<Pos>, start: Pos, allowed: set<Pos>, adj: Adjacency) {
    |w| >= 1 && w[0] == start
    && (forall i :: 1 <= i < |w| ==> w[i] in allowed)
    && (forall i :: 0 <= i < |w| - 1 ==> StepsAt(w, adj, i))
  }

  /** Some walk of length at most `k` leads from `start` to `end`. */
  ghost predicate Connected(start: Pos, end: Pos, allowed: set<Pos>, adj: Adjacency, k: nat) {
    exists w :: IsWalk(w, start, allowed, adj) && w[|w| - 1] == end && |w| <= k + 1
  }

  // ---------------------------------------------------------------------
  // Distance classes
  // ---------------------------------------------------------------------

  /** `p` is at most `k` steps from `start`: it is `start`, or it was within
      `k - 1` steps, or it is an allowed cell next to one that was. */
  ghost predicate Within(start: Pos, allowed: set<Pos>, adj: Adjacency, k: nat, p: Pos) {
    if k == 0 then p == start
    else
      Within(start, allowed, adj, k - 1, p)
      || (p in allowed && exists q :: Within(start, allowed, adj, k - 1, q) && adj(q, p))
  }

  lemma {:induction false} WithinGrows(start: Pos, allowed: set<Pos>, adj: Adjacency, j: nat, k: nat, p: Pos)
    requires j <= k && Within(start, allowed, adj, j, p)
    ensures Within(start, allowed, adj, k, p)
    decreases k - j
  {
    if j < k {
      WithinGrows(start, allowed, adj, j, k - 1, p);
    }
  }

  lemma {:induction false} WithinBounded(start: Pos, allowed: set<Pos>, adj: Adjacency, k: nat, p: Pos)
    requires Within(start, allowed, adj, k, p)
    ensures p in allowed + {start}
  {
    if k > 0 && Within(start, allowed, adj, k - 1, p) {
      WithinBounded(start, allowed, adj, k - 1, p);
    }
  }

  /** Every cell within `k` steps is the end of a walk of length at most `k`. */
  lemma {:induction false} WithinSound(start: Pos, allowed: set<Pos>, adj: Adjacency, k: nat, p: Pos)
    requires Within(start, allowed, adj, k, p)
    ensures Connected(start, p, allowed, adj, k)
  {
    if k == 0 {
      assert IsWalk([start], start, allowed, adj);
    } else if Within(start, allowed, adj, k - 1, p) {
      WithinSound(start, allowed, adj, k - 1, p);
      var w :| IsWalk(w, start, allowed, adj) && w[|w| - 1] == p && |w| <= k;
    } else {
      var q :| Within(start, allowed, adj, k - 1, q) && adj(q, p);
      WithinSound(start, allowed, adj, k - 1, q);
      var w :| IsWalk(w, start, allowed, adj) && w[|w| - 1] == q && |w| <= k;
      var w' := w + [p];
      forall i | 0 <= i < |w'| - 1 ensures StepsAt(w', adj, i) {
        if i < |w| - 1 {
          assert StepsAt(w, adj, i);
        }
      }
      assert IsWalk(w', start, allowed, adj);
    }
  }

  /** The end of every walk of length at most `k` is within `k` steps. */
  lemma {:induction false} WithinComplete(start: Pos, allowed: set<Pos>, adj: Adjacency, w: seq<Pos>, k: nat)
    requires IsWalk(w, start, allowed, adj) && |w| <= k + 1
    ensures Within(start, allowed, adj, k, w[|w| - 1])
    decreases |w|
  {
    if |w| == 1 {
      WithinGrows(start, allowed, adj, 0, k, start);
    } else {
      var v := w[..|w| - 1];
      forall i | 0 <= i < |v| - 1 ensures StepsAt(v, adj, i) {
        assert StepsAt(w, adj, i);
      }
      assert IsWalk(v, start, allowed, adj);
      WithinComplete(start, allowed, adj, v, k - 1);
      assert StepsAt(w, adj, |w| - 2);
    }
  }

  lemma ConnectedIsWithin(start: Pos, end: Pos, allowed: set<Pos>, adj: Adjacency, k: nat)
    ensures Connected(start, end, allowed, adj, k) <==> Within(start, allowed, adj, k, end)
  {
    if Connected(start, end, allowed, adj, k) {
      var w :| IsWalk(w, start, allowed, adj) && w[|w| - 1] == end && |w| <= k + 1;
      WithinComplete(start, allowed, adj, w, k);
    }
    if Within(start, allowed, adj, k, end) {
      WithinSound(start, allowed, adj, k, end);
    }
  }

  /** Taking one more step reaches nothing new. */
  ghost predicate Settled(start: Pos, allowed: set<Pos>, adj: Adjacency, k: nat) {
    forall p :: Within(start, allowed, adj, k + 1, p) ==> Within(start, allowed, adj, k, p)
  }

  /** Once a step reaches nothing new, no later step does. */
  lemma {:induction false} WithinSettles(start: Pos, allowed: set<Pos>, adj: Adjacency, k: nat, j: nat, p: Pos)
    requires Settled(start, allowed, adj, k) && k <= j && Within(start, allowed, adj, j, p)
    ensures Within(start, allowed, adj, k, p)
    decreases j
  {
    if j > k {
      if Within(start, allowed, adj, j - 1, p) {
        WithinSettles(start, allowed, adj, k, j - 1, p);
      } else {
        var q :| Within(start, allowed, adj, j - 1, q) && adj(q, p);
        WithinSettles(start, allowed, adj, k, j - 1, q);
        assert Within(start, allowed, adj, k + 1, p);
      }
    }
  }

  // ---------------------------------------------------------------------
  // Counting: the steps settle within as many rings as there are cells
  // ---------------------------------------------------------------------

  /** The cells within `k` steps, as a set. */
  ghost function Ring(start: Pos, allowed: set<Pos>, adj: Adjacency, k: nat): set<Pos> {
    set p | p in allowed + {start} && Within(start, allowed, adj, k, p)
  }

  lemma GrowsBy<T>(a: set<T>, b: set<T>, n: nat)
    requires a <= b && a != b && |a| >= n
    ensures |b| >= n + 1
  {
    Toolbox.SubsetSize(a, b);
  }

  lemma SizeBound<T>(a: set<T>, b: set<T>, x: T)
    requires a <= b + {x}
    ensures |a| <= |b| + 1
  {
    Toolbox.SubsetSize(a, b + {x});
  }

  /** A step that reaches something new makes the ring strictly larger. */
  lemma RingGrows(start: Pos, allowed: set<Pos>, adj: Adjacency, k: nat)
    requires !Settled(start, allowed, adj, k)
    ensures Ring(start, allowed, adj, k) <= Ring(start, allowed, adj, k + 1)
    ensures Ring(start, allowed, adj, k) != Ring(start, allowed, adj, k + 1)
  {
    forall p | p in Ring(start, allowed, adj, k) ensures p in Ring(start, allowed, adj, k + 1) {
      WithinGrows(start, allowed, adj, k, k + 1, p);
    }
    var p :| Within(start, allowed, adj, k + 1, p) && !Within(start, allowed, adj, k, p);
    WithinBounded(start, allowed, adj, k + 1, p);
    assert p in Ring(start, allowed, adj, k + 1);
  }

  /** While every step reaches something new, ring `n` holds at least n + 1
      cells. */
  lemma {:induction false} GrowingRings(start: Pos, allowed: set<Pos>, adj: Adjacency, n: nat)
    requires forall k: nat :: k < n ==> !Settled(start, allowed, adj, k)
    ensures |Ring(start, allowed, adj, n)| >= n + 1
  {
    if n == 0 {
      assert start in Ring(start, allowed, adj, 0);
    } else {
      GrowingRings(start, allowed, adj, n - 1);
      var a, b := Ring(start, allowed, adj, n - 1), Ring(start, allowed, adj, n);
      assert |a| >= n;
      RingGrows(start, allowed, adj, n - 1);
      GrowsBy(a, b, n);
    }
  }

  /** The number of rings the search grows: one more than there are cells
      to step on, which is enough for the steps to settle. */
  function Rings(allowed: set<Pos>): nat {
    |allowed| + 1
  }

  /** Some step before the last ring the search grows reaches nothing new. */
  lemma RingsSettle(start: Pos, allowed: set<Pos>, adj: Adjacency) returns (m: nat)
    ensures m < Rings(allowed) && Settled(start, allowed, adj, m)
  {
    var n := Rings(allowed);
    if forall k: nat :: k < n ==> !Settled(start, allowed, adj, k) {
      GrowingRings(start, allowed, adj, n);
      SizeBound(Ring(start, allowed, adj, n), allowed, start);
      assert false;
    }
    m :| m < n && Settled(start, allowed, adj, m);
  }

  /** Whatever is reachable at all is within the last ring the search grows. */
  lemma WithinLastRing(start: Pos, allowed: set<Pos>, adj: Adjacency, j: nat, p: Pos)
    requires Within(start, allowed, adj, j, p)
    ensures Within(start, allowed, adj, Rings(allowed), p)
  {
    var n := Rings(allowed);
    if j <= n {
      WithinGrows(start, allowed, adj, j, n, p);
    } else {
      var m := RingsSettle(start, allowed, adj);
      WithinSettles(start, allowed, adj, m, j, p);
      WithinGrows(start, allowed, adj, m, n, p);
    }
  }

  // ---------------------------------------------------------------------
  // Rings as sets: what the search computes
  // ---------------------------------------------------------------------

  /** The cells of `allowed` one step from a cell of `r`. */
  function Frontier(r: set<Pos>, allowed: set<Pos>, adj: Adjacency): set<Pos> {
    set q | q in allowed && exists p :: p in r && adj(p, q)
  }

  /** The cells at most `k` steps from `start`, ring by ring. */
  function Reach(start: Pos, allowed: set<Pos>, adj: Adjacency, k: nat): set<Pos> {
    if k == 0 then {start}
    else
      var r := Reach(start, allowed, adj, k - 1);
      r + Frontier(r, allowed, adj)
  }

  /** Ring `k` holds exactly the cells within `k` steps. */
  lemma {:induction false} ReachIsWithin(start: Pos, allowed: set<Pos>, adj: Adjacency, k: nat)
    ensures forall p :: p in Reach(start, allowed, adj, k) <==> Within(start, allowed, adj, k, p)
  {
    if k > 0 {
      ReachIsWithin(start, allowed, adj, k - 1);
      var r := Reach(start, allowed, adj, k - 1);
      forall p ensures p in Reach(start, allowed, adj, k) <==> Within(start, allowed, adj, k, p) {
        if p in Frontier(r, allowed, adj) {
          var q :| q in r && adj(q, p);
          assert Within(start, allowed, adj, k - 1, q);
        }
        if p in allowed && exists q :: Within(start, allowed, adj, k - 1, q) && adj(q, p) {
          var q :| Within(start, allowed, adj, k - 1, q) && adj(q, p);
          assert q in r;
          assert p in Frontier(r, allowed, adj);
        }
      }
    }
  }

  /** No ring before ring `k` holds `end`. */
  predicate NotBefore(start: Pos, end: Pos, allowed: set<Pos>, adj: Adjacency, k: nat) {
    k == 0 || end !in Reach(start, allowed, adj, k - 1)
  }

  /** Grow the rings from ring `k` until one holds `end`, giving up after
      ring `k + fuel`. */
  function Search(start: Pos, end: Pos, allowed: set<Pos>, adj: Adjacency, k: nat, fuel: nat): (r: Option<nat>)
    requires NotBefore(start, end, allowed, adj, k)
    ensures r.Some? ==> k <= r.value && end in Reach(start, allowed, adj, r.value)
    ensures r.Some? ==> NotBefore(start, end, allowed, adj, r.value)
    ensures r.None? ==> end !in Reach(start, allowed, adj, k + fuel)
    decreases fuel
  {
    if end in Reach(start, allowed, adj, k) then Some(k)
    else if fuel == 0 then None
    else Search(start, end, allowed, adj, k + 1, fuel - 1)
  }

  /** The first ring holding `end`, searched as far as the rings can grow. */
  function ShortestRing(start: Pos, end: Pos, allowed: set<Pos>, adj: Adjacency): Option<nat> {
    Search(start, end, allowed, adj, 0, Rings(allowed))
  }

  /** A ring that is found is the length of a shortest walk. */
  lemma RingFound(start: Pos, end: Pos, allowed: set<Pos>, adj: Adjacency)
    requires ShortestRing(start, end, allowed, adj).Some?
    ensures var d := ShortestRing(start, end, allowed, adj).value;
      Connected(start, end, allowed, adj, d)
      && forall k: nat :: k < d ==> !Connected(start, end, allowed, adj, k)
  {
    var d := ShortestRing(start, end, allowed, adj).value;
    ReachIsWithin(start, allowed, adj, d);
    ConnectedIsWithin(start, end, allowed, adj, d);
    if d > 0 {
      ReachIsWithin(start, allowed, adj, d - 1);
    }
    forall k: nat | k < d ensures !Connected(start, end, allowed, adj, k) {
      ConnectedIsWithin(start, end, allowed, adj, k);
      if Within(start, allowed, adj, k, end) {
        WithinGrows(start, allowed, adj, k, d - 1, end);
      }
    }
  }

  /** No ring is found only when no walk leads to `end`. */
  lemma RingAbsent(start: Pos, end: Pos, allowed: set<Pos>, adj: Adjacency)
    requires ShortestRing(start, end, allowed, adj).None?
    ensures forall k: nat :: !Connected(start, end, allowed, adj, k)
  {
    ReachIsWithin(start, allowed, adj, Rings(allowed));
    forall k: nat ensures !Connected(start, end, allowed, adj, k) {
      ConnectedIsWithin(start, end, allowed, adj, k);
      if Within(start, allowed, adj, k, end) {
        WithinLastRing(start, allowed, adj, k, end);
      }
    }
  }
  /** `dijkstra(start, end, unblocked)`: the walks step between neighbouring
      cells and may step on the unblocked cells and on `end` itself. */
  function Distance(start: Pos, end: Pos, unblocked: set<Pos>): Option<nat> {
    ShortestRing(start, end, unblocked + {end}, IsNeighbour)
  }

  /** The distance is the length of a shortest walk from `start` to `end`
      through the unblocked cells, and there is none when it is absent. */
  lemma DistanceIsShortest(start: Pos, end: Pos, unblocked: set<Pos>)
    ensures var allowed := unblocked + {end}; var d := Distance(start, end, unblocked);
      (d.Some? ==> Connected(start, end, allowed, IsNeighbour, d.value))
      && (d.Some? ==> forall k: nat :: k < d.value ==> !Connected(start, end, allowed, IsNeighbour, k))
      && (d.None? ==> forall k: nat :: !Connected(start, end, allowed, IsNeighbour, k))
  {
    if Distance(start, end, unblocked).Some? {
      RingFound(start, end, unblocked + {end}, IsNeighbour);
    } else {
      RingAbsent(start, end, unblocked + {end}, IsNeighbour);
    }
  }
}
