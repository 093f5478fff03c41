/** The marble game on a doubly linked circle, modelled as the circle's
    values in storage order plus the index of the current node. Clockwise is
    increasing index, wrapping around. */
module Day9 {

  import opened Wrappers
  import Arith

  datatype Circle<T> = Circle(nodes: seq<T>, cur: nat)

  predicate Valid<T>(c: Circle<T>) {
    0 <= c.cur < |c.nodes|
  }

  /** The values read clockwise starting at the current node. */
  function Ring<T>(c: Circle<T>): (r: seq<T>)
    requires Valid(c)
    ensures |r| == |c.nodes| && r[0] == c.nodes[c.cur]
  {
    c.nodes[c.cur..] + c.nodes[..c.cur]
  }

  /** `get(n)`: the value `n` nodes clockwise (anticlockwise for negative `n`). */
  function Get<T>(c: Circle<T>, n: int): T
    requires Valid(c)
  {
    c.nodes[(c.cur + n) % |c.nodes|]
  }

  /** `plus(n)`: the node `n` steps clockwise. */
  function Plus<T>(c: Circle<T>, n: int): (r: Circle<T>)
    requires Valid(c)
    ensures Valid(r) && r.nodes == c.nodes
    ensures forall k :: Get(r, k) == Get(c, n + k)
  {
    var r := Circle(c.nodes, (c.cur + n) % |c.nodes|);
    forall k
      ensures Get(r, k) == Get(c, n + k)
    {
      Arith.ModAdd(c.cur + n, k, |c.nodes|);
    }
    r
  }

  /** `minus(n)`: the node `n` steps anticlockwise. */
  function Minus<T>(c: Circle<T>, n: int): (r: Circle<T>)
    requires Valid(c)
    ensures Valid(r) && r.nodes == c.nodes
    ensures forall k :: Get(r, k) == Get(c, k - n)
  {
    var r := Circle(c.nodes, (c.cur - n) % |c.nodes|);
    forall k
      ensures Get(r, k) == Get(c, k - n)
    {
      Arith.ModAdd(c.cur - n, k, |c.nodes|);
    }
    r
  }

  /** Moving is additive, `plus(0)` stays put and `minus(n)` is `plus(-n)`. */
  lemma PlusMinusLaws<T>(c: Circle<T>, a: int, b: int)
    requires Valid(c)
    ensures Plus(Plus(c, a), b) == Plus(c, a + b)
    ensures Plus(c, 0) == c
    ensures Minus(c, a) == Plus(c, -a)
  {
    Arith.ModAdd(c.cur + a, b, |c.nodes|);
    Arith.DivModUnique(c.cur, |c.nodes|, 0, c.cur);
  }

  lemma RingIndex<T>(c: Circle<T>, k: nat)
    requires Valid(c) && k < |c.nodes|
    ensures Ring(c)[k] == Get(c, k)
  {
    var n := |c.nodes|;
    if c.cur + k < n {
      Arith.DivModUnique(c.cur + k, n, 0, c.cur + k);
    } else {
      Arith.DivModUnique(c.cur + k, n, 1, c.cur + k - n);
    }
  }

  /** `set(n, v)`. */
  function Set<T>(c: Circle<T>, n: int, v: T): (r: Circle<T>)
    requires Valid(c)
    ensures Valid(r) && r.cur == c.cur && |r.nodes| == |c.nodes|
    ensures Get(r, n) == v
  {
    Circle(c.nodes[(c.cur + n) % |c.nodes| := v], c.cur)
  }

  /** `insertClockwise`: a new current node right after the current one. */
  function InsertClockwise<T>(c: Circle<T>, v: T): (r: Circle<T>)
    requires Valid(c)
    ensures Valid(r) && |r.nodes| == |c.nodes| + 1
    ensures Ring(r) == [v] + Ring(c)[1..] + [Ring(c)[0]]
  {
    var r := Circle(c.nodes[..c.cur + 1] + [v] + c.nodes[c.cur + 1..], c.cur + 1);
    assert r.nodes[r.cur..] == [v] + c.nodes[c.cur + 1..];
    assert r.nodes[..r.cur] == c.nodes[..c.cur + 1];
    assert Ring(c)[1..] == c.nodes[c.cur + 1..] + c.nodes[..c.cur];
    assert c.nodes[..c.cur + 1] == c.nodes[..c.cur] + [c.nodes[c.cur]];
    r
  }

  /** `insertAnticlockwise`: a new current node right before the current one. */
  function InsertAnticlockwise<T>(c: Circle<T>, v: T): (r: Circle<T>)
    requires Valid(c)
    ensures Valid(r) && |r.nodes| == |c.nodes| + 1
    ensures Ring(r) == [v] + Ring(c)
  {
    var r := Circle(c.nodes[..c.cur] + [v] + c.nodes[c.cur..], c.cur);
    assert r.nodes[r.cur..] == [v] + c.nodes[c.cur..];
    assert r.nodes[..r.cur] == c.nodes[..c.cur];
    r
  }

  /** `remove`: unlinks the current node and makes its clockwise successor
      current; removing the last node of a circle throws
      `IllegalStateException`. */
  function Remove<T>(c: Circle<T>): (r: Result<Circle<T>>)
    requires Valid(c)
    ensures r.Err? <==> |c.nodes| == 1
    ensures r.Err? ==> r == Err("IllegalStateException")
    ensures r.Ok? ==> Valid(r.value) && Ring(r.value) == Ring(c)[1..]
  {
    if |c.nodes| == 1 then Err("IllegalStateException")
    else
      var r := Circle(c.nodes[..c.cur] + c.nodes[c.cur + 1..], if c.cur == |c.nodes| - 1 then 0 else c.cur);
      if c.cur == |c.nodes| - 1 then
        assert r.nodes == c.nodes[..c.cur];
        assert Ring(r) == r.nodes;
        Ok(r)
      else
        assert r.nodes[r.cur..] == c.nodes[c.cur + 1..];
        assert r.nodes[..r.cur] == c.nodes[..c.cur];
        Ok(r)
  }

  /** `take(n)`: `n` values clockwise from the current node; for negative
      `n`, the `-n` values ending at the current node, in clockwise order. */
  function Take<T>(c: Circle<T>, n: int): (r: seq<T>)
    requires Valid(c)
    ensures n >= 0 ==> |r| == n && forall k :: 0 <= k < n ==> r[k] == Get(c, k)
    ensures n < 0 ==> |r| == -n && forall k :: 0 <= k < -n ==> r[k] == Get(c, k + n + 1)
    decreases if n < 0 then -n else n
  {
    if n == 0 then []
    else if n > 0 then [Get(c, 0)] + Take(Plus(c, 1), n - 1)
    else Take(Plus(c, -1), n + 1) + [Get(c, 0)]
  }

  /** Taking the whole circle (or less) reads the ring. */
  lemma TakeIsRing<T>(c: Circle<T>, n: nat)
    requires Valid(c) && n <= |c.nodes|
    ensures Take(c, n) == Ring(c)[..n]
  {
    forall k | 0 <= k < n
      ensures Take(c, n)[k] == Ring(c)[k]
    {
      RingIndex(c, k);
    }
  }

  // ---------------------------------------------------------------------
  // The game
  // ---------------------------------------------------------------------

  /** The score circle: one zero per player (at least one), the current node
      being the last inserted. */
  function Scores(players: int): (r: Circle<int>)
    ensures Valid(r) && |r.nodes| == (if players < 1 then 1 else players)
    ensures forall k :: 0 <= k < |r.nodes| ==> r.nodes[k] == 0
    decreases players
  {
    if players <= 1 then Circle([0], 0) else InsertClockwise(Scores(players - 1), 0)
  }

  datatype State = State(marbles: Circle<int>, scores: Circle<int>)

  /** One marble: a multiple of 23 scores itself plus the marble 7 nodes
      anticlockwise, which is removed; any other marble is inserted between
      the nodes 1 and 2 clockwise. The player advances either way. */
  function Turn(st: State, marble: int): (r: Result<State>)
    requires Valid(st.marbles) && Valid(st.scores)
    ensures r.Ok? ==> Valid(r.value.marbles) && Valid(r.value.scores)
    ensures r.Ok? ==> |r.value.scores.nodes| == |st.scores.nodes|
    ensures marble % 23 != 0 ==> r.Ok? && |r.value.marbles.nodes| == |st.marbles.nodes| + 1
    ensures marble % 23 != 0 ==> Ring(r.value.marbles) == [marble] + Ring(st.marbles)[2 % |st.marbles.nodes|..] + Ring(st.marbles)[..2 % |st.marbles.nodes|]
    ensures marble % 23 == 0 ==> (r.Ok? <==> |st.marbles.nodes| > 1)
    ensures marble % 23 == 0 && r.Ok? ==> Ring(r.value.marbles) == Ring(Minus(st.marbles, 7))[1..]
    ensures marble % 23 == 0 && r.Ok? ==> Get(r.value.scores, -1) == Get(st.scores, 0) + marble + Get(st.marbles, -7)
    // the turn passes to the next player; no score but the mover's changes
    ensures marble % 23 != 0 ==> Ring(r.value.scores) == Ring(st.scores)[1..] + [Ring(st.scores)[0]]
    ensures marble % 23 == 0 && r.Ok? ==>
      Ring(r.value.scores) == Ring(st.scores)[1..] + [Ring(st.scores)[0] + marble + Get(st.marbles, -7)]
  {
    if marble % 23 == 0 then Score(st, marble) else Ok(Place(st, marble))
  }

  /** A scoring marble: the current player gains the marble and the marble
      7 anticlockwise, which leaves the circle; the turn passes on. */
  function Score(st: State, marble: int): (r: Result<State>)
    requires Valid(st.marbles) && Valid(st.scores)
    ensures r.Ok? <==> |st.marbles.nodes| > 1
    ensures r.Ok? ==> Valid(r.value.marbles) && Valid(r.value.scores)
    ensures r.Ok? ==> |r.value.scores.nodes| == |st.scores.nodes|
    ensures r.Ok? ==> Ring(r.value.marbles) == Ring(Minus(st.marbles, 7))[1..]
    ensures r.Ok? ==> Get(r.value.scores, -1) == Get(st.scores, 0) + marble + Get(st.marbles, -7)
    ensures r.Ok? ==>
      Ring(r.value.scores) == Ring(st.scores)[1..] + [Ring(st.scores)[0] + marble + Get(st.marbles, -7)]
  {
    var gain := marble + Get(st.marbles, -7);
    match Remove(Minus(st.marbles, 7))
    case Err(m) => Err(m)
    case Ok(circle) => Ok(State(circle, Credit(st.scores, gain)))
  }

  /** `player[0] += gain` then `player + 1`: the current player gains and
      the turn passes on. */
  function Credit(player: Circle<int>, gain: int): (r: Circle<int>)
    requires Valid(player)
    ensures Valid(r) && |r.nodes| == |player.nodes|
    ensures Get(r, -1) == Get(player, 0) + gain
    ensures Ring(r) == Ring(player)[1..] + [Ring(player)[0] + gain]
  {
    var scored := Set(player, 0, Get(player, 0) + gain);
    var next := Plus(scored, 1);
    assert Get(next, -1) == Get(scored, 0);
    CreditAndPass(player, gain);
    next
  }

  /** An ordinary marble: inserted between the nodes 1 and 2 clockwise,
      and the turn passes on. */
  function Place(st: State, marble: int): (r: State)
    requires Valid(st.marbles) && Valid(st.scores)
    ensures Valid(r.marbles) && Valid(r.scores)
    ensures |r.scores.nodes| == |st.scores.nodes| && |r.marbles.nodes| == |st.marbles.nodes| + 1
    ensures Ring(r.marbles) == [marble] + Ring(st.marbles)[2 % |st.marbles.nodes|..] + Ring(st.marbles)[..2 % |st.marbles.nodes|]
    ensures Ring(r.scores) == Ring(st.scores)[1..] + [Ring(st.scores)[0]]
  {
    var moved := Plus(st.marbles, 1);
    InsertTwoAhead(st.marbles, marble);
    RingPlusOne(st.scores);
    State(InsertClockwise(moved, marble), Plus(st.scores, 1))
  }

  /** Setting the current node replaces the head of the ring only. */
  lemma RingSetCurrent<T>(c: Circle<T>, v: T)
    requires Valid(c)
    ensures Ring(Set(c, 0, v)) == [v] + Ring(c)[1..]
  {
    Arith.DivModUnique(c.cur, |c.nodes|, 0, c.cur);
    var s := Set(c, 0, v);
    assert s.nodes[s.cur..] == [v] + c.nodes[c.cur + 1..];
    assert s.nodes[..s.cur] == c.nodes[..c.cur];
  }

  /** Crediting the current player and passing the turn leaves the other
      entries of the ring in place. */
  lemma CreditAndPass(c: Circle<int>, gain: int)
    requires Valid(c)
    ensures Ring(Plus(Set(c, 0, Get(c, 0) + gain), 1)) == Ring(c)[1..] + [Ring(c)[0] + gain]
  {
    Arith.DivModUnique(c.cur, |c.nodes|, 0, c.cur);
    var s := Set(c, 0, Get(c, 0) + gain);
    RingSetCurrent(c, Get(c, 0) + gain);
    RingPlusOne(s);
  }

  /** One step clockwise rotates the ring by one. */
  lemma RingPlusOne<T>(c: Circle<T>)
    requires Valid(c)
    ensures Ring(Plus(c, 1)) == Ring(c)[1..] + [Ring(c)[0]]
  {
    var n := |c.nodes|;
    if c.cur + 1 < n {
      Arith.DivModUnique(c.cur + 1, n, 0, c.cur + 1);
      assert c.nodes[..c.cur + 1] == c.nodes[..c.cur] + [c.nodes[c.cur]];
    } else {
      Arith.DivModUnique(c.cur + 1, n, 1, 0);
      assert c.nodes == c.nodes[..c.cur] + [c.nodes[c.cur]];
    }
  }

  /** Inserting after the clockwise neighbour puts the new marble before the
      old marble two steps clockwise. */
  lemma InsertTwoAhead(c: Circle<int>, v: int)
    requires Valid(c)
    ensures var n := |c.nodes|;
      Ring(InsertClockwise(Plus(c, 1), v)) == [v] + Ring(c)[2 % n..] + Ring(c)[..2 % n]
  {
    var ring := Ring(c);
    RingPlusOne(c);
    var ringM := ring[1..] + [ring[0]];
    assert Ring(InsertClockwise(Plus(c, 1), v)) == [v] + ringM[1..] + [ringM[0]];
    RotateTwice(ring, v);
  }

  /** Rotating a non-empty sequence by one twice is rotating it by two. */
  lemma RotateTwice(ring: seq<int>, v: int)
    requires ring != []
    ensures var ringM := ring[1..] + [ring[0]];
      [v] + ringM[1..] + [ringM[0]] == [v] + ring[2 % |ring|..] + ring[..2 % |ring|]
  {
    var n := |ring|;
    var ringM := ring[1..] + [ring[0]];
    if n == 1 {
      assert 2 % n == 0;
      assert ringM == ring;
    } else {
      if n == 2 {
        assert 2 % n == 0;
      } else {
        Arith.DivModUnique(2, n, 0, 2);
      }
      assert ringM[0] == ring[1];
      assert ringM[1..] == ring[2..] + [ring[0]];
      assert ring[..2] == [ring[0], ring[1]];
    }
  }

  /** The circle size after `m` marbles: every marble adds one node except
      each multiple of 23, which removes one. */
  function SizeAfter(m: nat): int {
    1 + m - 2 * (m / 23)
  }

  /** The state after marbles `1..m`. */
  function Play(m: nat, players: int): (r: Result<State>)
    ensures r.Ok?
    ensures Valid(r.value.marbles) && Valid(r.value.scores)
    ensures |r.value.marbles.nodes| == SizeAfter(m)
    ensures |r.value.scores.nodes| == (if players < 1 then 1 else players)
  {
    if m == 0 then Ok(State(Circle([0], 0), Scores(players)))
    else
      var prev := Play(m - 1, players).value;
      assert m % 23 == 0 ==> m / 23 == (m - 1) / 23 + 1;
      assert m % 23 != 0 ==> m / 23 == (m - 1) / 23;
      Turn(prev, m)
  }

  /** `game`: the highest score among `take(players)` of the score circle
      after all marbles; no player at all leaves nothing to take. */
  function Game(marbles: int, players: int): (r: Result<int>)
    ensures r.Err? <==> players == 0
    ensures var scores := Play(if marbles < 0 then 0 else marbles, players).value.scores;
      players > 0 ==> r.Ok? && r.value in Ring(scores) && forall s :: s in Ring(scores) ==> s <= r.value
  {
    var st := Play(if marbles < 0 then 0 else marbles, players).value;
    var taken := Take(st.scores, players);
    if taken == [] then Err("IllegalStateException")
    else if players > 0 then
      TakeIsRing(st.scores, players);
      assert taken == Ring(st.scores);
      Ok(MaxOf(taken))
    else Ok(MaxOf(taken))
  }

  function MaxOf(s: seq<int>): (r: int)
    requires s != []
    ensures r in s && forall x :: x in s ==> x <= r
  {
    if |s| == 1 then s[0]
    else
      var m := MaxOf(s[1..]);
      assert forall x :: x in s ==> x == s[0] || x in s[1..];
      if s[0] > m then s[0] else m
  }
}
