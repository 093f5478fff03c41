/** Beverage Bandits, one round: what each creature decides on its turn,
    how the resulting actions change the creature map, and why a round
    never puts a creature on a wall or on another creature. */
module Day15Turn {

  import opened Wrappers
  import opened Plane
  import opened Day15
  import opened Day15Path

  // ---------------------------------------------------------------------
  // The creature map
  // ---------------------------------------------------------------------

  /** `creatures[id]`. */
  function Lookup(cs: seq<Creature>, id: int): (r: Option<Creature>)
    ensures r.None? <==> forall i :: 0 <= i < |cs| ==> cs[i].id != id
    ensures r.Some? ==> r.value in cs && r.value.id == id
  {
    if cs == [] then None
    else if cs[0].id == id then Some(cs[0])
    else Lookup(cs[1..], id)
  }

  lemma OrderlyTail(cs: seq<Creature>)
    requires Orderly(cs) && cs != []
    ensures Orderly(cs[1..])
  {
    forall i, j | 0 <= i < j < |cs[1..]| ensures Apart(cs[1..][i], cs[1..][j]) {
      assert Apart(cs[i + 1], cs[j + 1]);
    }
  }

  /** In a map with distinct ids, the entry found is the one holding the id. */
  lemma {:induction false} LookupFinds(cs: seq<Creature>, k: int)
    requires Orderly(cs) && 0 <= k < |cs|
    ensures Lookup(cs, cs[k].id) == Some(cs[k])
    decreases |cs|
  {
    if k > 0 {
      assert Apart(cs[0], cs[k]);
      OrderlyTail(cs);
      LookupFinds(cs[1..], k - 1);
    }
  }

  /** `creatures + (c.id to c)` for an id already present: the entry with
      that id takes the new value and keeps its place. */
  function Replace(cs: seq<Creature>, c: Creature): (r: seq<Creature>)
    ensures |r| == |cs|
  {
    seq(|cs|, i requires 0 <= i < |cs| => if cs[i].id == c.id then c else cs[i])
  }

  /** `creatures - id`. */
  function Remove(cs: seq<Creature>, id: int): (r: seq<Creature>)
    ensures forall x :: x in r <==> x in cs && x.id != id
    ensures |r| <= |cs|
  {
    if cs == [] then []
    else if cs[0].id == id then Remove(cs[1..], id)
    else [cs[0]] + Remove(cs[1..], id)
  }

  lemma {:induction false} RemoveKeepsOrderly(cs: seq<Creature>, id: int)
    requires Orderly(cs)
    ensures Orderly(Remove(cs, id))
    decreases |cs|
  {
    if cs != [] {
      RemoveKeepsOrderly(cs[1..], id);
      if cs[0].id != id {
        var rest := Remove(cs[1..], id);
        forall j | 0 <= j < |rest| ensures Apart(cs[0], rest[j]) {
          assert rest[j] in cs[1..];
          var k :| 0 <= k < |cs[1..]| && cs[1..][k] == rest[j];
          assert cs[k + 1] == rest[j];
        }
        var r := [cs[0]] + rest;
        forall i, j | 0 <= i < j < |r| ensures Apart(r[i], r[j]) {
          if i > 0 {
            assert r[i] == rest[i - 1] && r[j] == rest[j - 1];
          }
        }
      }
    }
  }

  /** Replacing an entry by one with the same id and the same cell, or by
      one on a cell nobody else holds, keeps the map orderly and placed. */
  lemma ReplaceKeepsValid(size: Size, open: set<Pos>, cs: seq<Creature>, k: int, c: Creature)
    requires Valid(Cave(size, open, cs)) && 0 <= k < |cs| && c.id == cs[k].id
    requires Placed(open, c)
    requires c.pos == cs[k].pos || forall i :: 0 <= i < |cs| ==> cs[i].pos != c.pos
    ensures Valid(Cave(size, open, Replace(cs, c)))
    ensures Replace(cs, c) == cs[k := c]
  {
    var r := Replace(cs, c);
    forall i | 0 <= i < |cs| ensures r[i] == cs[k := c][i] {
      if i != k {
        assert Apart(cs[i], cs[k]) || Apart(cs[k], cs[i]);
      }
    }
    assert r == cs[k := c];
    forall i, j | 0 <= i < j < |r| ensures Apart(r[i], r[j]) {
      assert Apart(cs[i], cs[j]);
    }
  }

  // ---------------------------------------------------------------------
  // Actions
  // ---------------------------------------------------------------------

  /** The source's `Action`; its `None` is called `Idle` here. */
  datatype Action =
    | Idle
    | Move(id: int, to: Pos)
    | Attack(attacker: int, attacked: int)
    | Multiple(actions: seq<Action>)

  /** `Action.plus`: doing nothing is dropped, and a list of actions is
      extended rather than nested. */
  function Then(a: Action, b: Action): Action {
    if b.Idle? then a
    else match a
      case Idle => b
      case Multiple(acts) => Multiple(acts + [b])
      case _ => Multiple([a, b])
  }

  /** `applyTo`. A move of a creature no longer present does nothing; an
      attack deals the attacker's power (nothing if the attacker is gone)
      and removes the target once its hit points reach zero. */
  function ApplyTo(a: Action, cs: seq<Creature>): seq<Creature>
    decreases a
  {
    match a
    case Idle => cs
    case Move(id, to) =>
      (match Lookup(cs, id)
       case None => cs
       case Some(c) => Replace(cs, c.(pos := to)))
    case Attack(attacker, attacked) =>
      var damage := match Lookup(cs, attacker) case None => 0 case Some(c) => c.attackPower;
      (match Lookup(cs, attacked)
       case None => Remove(cs, attacked)
       case Some(t) =>
         if t.hitPoints - damage <= 0 then Remove(cs, attacked)
         else Replace(cs, t.(hitPoints := t.hitPoints - damage)))
    case Multiple(actions) => ApplyAll(actions, cs)
  }

  /** The fold of `Multiple`, left to right. */
  function ApplyAll(actions: seq<Action>, cs: seq<Creature>): seq<Creature>
    decreases actions
  {
    if actions == [] then cs else ApplyAll(actions[1..], ApplyTo(actions[0], cs))
  }

  lemma {:induction false} ApplyAllSnoc(actions: seq<Action>, b: Action, cs: seq<Creature>)
    ensures ApplyAll(actions + [b], cs) == ApplyTo(b, ApplyAll(actions, cs))
    decreases |actions|
  {
    if actions == [] {
      assert ([] + [b])[1..] == [];
    } else {
      assert (actions + [b])[1..] == actions[1..] + [b];
      ApplyAllSnoc(actions[1..], b, ApplyTo(actions[0], cs));
    }
  }

  /** Combining two actions means doing the first, then the second. */
  lemma ThenApplies(a: Action, b: Action, cs: seq<Creature>)
    ensures ApplyTo(Then(a, b), cs) == ApplyTo(b, ApplyTo(a, cs))
  {
    if !b.Idle? {
      match a
      case Idle =>
      case Multiple(acts) => ApplyAllSnoc(acts, b, cs);
      case _ =>
        var x := ApplyTo(a, cs);
        assert [a, b][0] == a && [a, b][1..] == [b];
        assert ApplyAll([a, b], cs) == ApplyAll([b], x);
        assert ApplyAll([b], x) == ApplyAll([], ApplyTo(b, x)) by {
          assert [b][1..] == [];
        }
    }
  }

  lemma RemoveKeepsValid(size: Size, open: set<Pos>, cs: seq<Creature>, id: int)
    requires Valid(Cave(size, open, cs))
    ensures Valid(Cave(size, open, Remove(cs, id)))
  {
    RemoveKeepsOrderly(cs, id);
    var r := Remove(cs, id);
    forall i | 0 <= i < |r| ensures Placed(open, r[i]) {
      assert r[i] in cs;
    }
  }

  /** An attack never breaks validity: the target either keeps its cell
      with fewer, still positive, hit points or leaves the map. */
  lemma AttackKeepsValid(size: Size, open: set<Pos>, cs: seq<Creature>, attacker: int, attacked: int)
    requires Valid(Cave(size, open, cs))
    ensures Valid(Cave(size, open, ApplyTo(Attack(attacker, attacked), cs)))
  {
    var damage := match Lookup(cs, attacker) case None => 0 case Some(c) => c.attackPower;
    var r := ApplyTo(Attack(attacker, attacked), cs);
    match Lookup(cs, attacked)
    case None =>
      assert r == Remove(cs, attacked);
      RemoveKeepsValid(size, open, cs, attacked);
    case Some(t) =>
      if t.hitPoints - damage <= 0 {
        assert r == Remove(cs, attacked);
        RemoveKeepsValid(size, open, cs, attacked);
      } else {
        var t' := t.(hitPoints := t.hitPoints - damage);
        assert r == Replace(cs, t');
        var k :| 0 <= k < |cs| && cs[k] == t;
        ReplaceKeepsValid(size, open, cs, k, t');
      }
  }

  /** An attack by a creature that is gone, on one that is present, deals
      no damage and changes nothing. */
  lemma HarmlessAttack(size: Size, open: set<Pos>, cs: seq<Creature>, attacker: int, k: int)
    requires Valid(Cave(size, open, cs)) && Lookup(cs, attacker).None? && 0 <= k < |cs|
    ensures ApplyTo(Attack(attacker, cs[k].id), cs) == cs
  {
    LookupFinds(cs, k);
    var t := cs[k];
    assert Placed(open, t);
    assert t.(hitPoints := t.hitPoints - 0) == t;
    ReplaceKeepsValid(size, open, cs, k, t);
    assert cs[k := t] == cs;
  }

  /** A move to an open cell nobody stands on keeps the cave valid. */
  lemma MoveKeepsValid(size: Size, open: set<Pos>, cs: seq<Creature>, id: int, to: Pos)
    requires Valid(Cave(size, open, cs))
    requires to in open && to !in Occupied(cs)
    ensures Valid(Cave(size, open, ApplyTo(Move(id, to), cs)))
  {
    match Lookup(cs, id)
    case None =>
    case Some(c) =>
      var k :| 0 <= k < |cs| && cs[k] == c;
      forall i | 0 <= i < |cs| ensures cs[i].pos != to {
        assert cs[i] in cs;
      }
      ReplaceKeepsValid(size, open, cs, k, c.(pos := to));
  }

  // ---------------------------------------------------------------------
  // A creature's turn
  // ---------------------------------------------------------------------

  /** The cells the creatures stand on. */
  function Occupied(cs: seq<Creature>): (r: set<Pos>)
    ensures forall p :: p in r <==> exists x :: x in cs && x.pos == p
  {
    set x | x in cs :: x.pos
  }

  /** `otherCreatures.filter { it.type != type }`, in map order. */
  function Enemies(kind: Kind, cs: seq<Creature>): (r: seq<Creature>)
    ensures forall x :: x in r <==> x in cs && x.kind != kind
    decreases |cs|
  {
    if cs == [] then []
    else (if cs[0].kind != kind then [cs[0]] else []) + Enemies(kind, cs[1..])
  }

  /** The targets standing next to `p`, in map order. */
  function InRange(targets: seq<Creature>, p: Pos): (r: seq<Creature>)
    ensures forall x :: x in r <==> x in targets && IsNeighbour(x.pos, p)
    decreases |targets|
  {
    if targets == [] then []
    else (if IsNeighbour(targets[0].pos, p) then [targets[0]] else []) + InRange(targets[1..], p)
  }

  /** The neighbours of `p` that are unblocked, in the order of the
      directions. */
  function ValidStarts(p: Pos, unblocked: set<Pos>): (r: seq<Pos>)
    ensures forall q :: q in r <==> IsNeighbour(p, q) && q in unblocked
    ensures InReadingOrder(r)
  {
    NeighboursAreUnitSteps(p, p);
    NeighboursAreUnitSteps(p, Plus(p, Up));
    NeighboursAreUnitSteps(p, Plus(p, Left));
    NeighboursAreUnitSteps(p, Plus(p, Right));
    NeighboursAreUnitSteps(p, Plus(p, Down));
    forall q | IsNeighbour(p, q) ensures q in Neighbours(p) {
      NeighboursAreUnitSteps(p, q);
    }
    assert InReadingOrder(Neighbours(p));
    Keep(Neighbours(p), unblocked)
  }

  /** Strictly increasing in reading order, hence without repeats. */
  ghost predicate InReadingOrder(ps: seq<Pos>) {
    forall i, j :: 0 <= i < j < |ps| ==> ReadingLess(ps[i], ps[j])
  }

  function Keep(ps: seq<Pos>, s: set<Pos>): (r: seq<Pos>)
    ensures forall q :: q in r <==> q in ps && q in s
    ensures InReadingOrder(ps) ==> InReadingOrder(r)
    decreases |ps|
  {
    if ps == [] then []
    else
      var rest := Keep(ps[1..], s);
      assert InReadingOrder(ps) ==> InReadingOrder(ps[1..]) && forall q :: q in rest ==> ReadingLess(ps[0], q) by {
        if InReadingOrder(ps) {
          forall q | q in rest ensures ReadingLess(ps[0], q) {
            var m :| 0 <= m < |ps[1..]| && ps[1..][m] == q;
            assert ps[m + 1] == q;
          }
        }
      }
      (if ps[0] in s then [ps[0]] else []) + rest
  }

  /** The goals towards one target: one per start from which the target
      can be reached at all, with its distance. */
  function GoalsTo(starts: seq<Pos>, end: Pos, unblocked: set<Pos>): (r: seq<Goal>)
    ensures forall g :: g in r <==>
      g.start in starts && g.end == end && Distance(g.start, end, unblocked) == Some(g.distance)
    decreases |starts|
  {
    if starts == [] then []
    else
      (match Distance(starts[0], end, unblocked)
       case None => []
       case Some(d) => [Goal(starts[0], end, d)])
      + GoalsTo(starts[1..], end, unblocked)
  }

  /** `targets.flatMap { ... }`: the goals towards every target in turn. */
  function Goals(targets: seq<Creature>, starts: seq<Pos>, unblocked: set<Pos>): (r: seq<Goal>)
    ensures forall g :: g in r <==>
      (g.start in starts && Distance(g.start, g.end, unblocked) == Some(g.distance)
       && exists t :: t in targets && t.pos == g.end)
    decreases |targets|
  {
    if targets == [] then []
    else
      var here := GoalsTo(starts, targets[0].pos, unblocked);
      var rest := Goals(targets[1..], starts, unblocked);
      assert forall t :: t in targets <==> t == targets[0] || t in targets[1..];
      here + rest
  }

  /** No unblocked neighbour of `p` reaches any target in fewer than `d`
      steps. */
  predicate NoCloser(p: Pos, targets: seq<Creature>, unblocked: set<Pos>, d: nat) {
    forall s, t :: s in ValidStarts(p, unblocked) && t in targets && Distance(s, t.pos, unblocked).Some?
      ==> d <= Distance(s, t.pos, unblocked).value
  }

  /** `moveTowards`: the start of the first goal that no other goal comes
      before in `shortestDistance`, or none when no target can be reached.
      The chosen goal is nearest, then first in reading order of its end;
      among the starts that reach that end as quickly, the step is the
      first in reading order (up, left, right, down). */
  function MoveTowards(p: Pos, targets: seq<Creature>, unblocked: set<Pos>): (r: Option<Pos>)
    ensures r.None? <==> Goals(targets, ValidStarts(p, unblocked), unblocked) == []
    ensures r.Some? ==> IsNeighbour(p, r.value) && r.value in unblocked
    ensures r.Some? ==> exists t :: (t in targets && Distance(r.value, t.pos, unblocked).Some?
      && NoCloser(p, targets, unblocked, Distance(r.value, t.pos, unblocked).value))
    ensures r.Some? ==> exists g :: ChosenGoal(p, targets, unblocked, g) && g.start == r.value
  {
    var goals := Goals(targets, ValidStarts(p, unblocked), unblocked);
    match Nearest(goals)
    case None => None
    case Some(g) =>
      NearestGoalIsClosest(p, targets, unblocked, g);
      FirstStartWins(p, targets, unblocked, g);
      Some(g.start)
  }

  /** `g` is a goal no other goal comes before, and no valid start earlier
      in reading order reaches its end at its distance. */
  ghost predicate ChosenGoal(p: Pos, targets: seq<Creature>, unblocked: set<Pos>, g: Goal) {
    var goals := Goals(targets, ValidStarts(p, unblocked), unblocked);
    && g in goals
    && (forall x :: x in goals ==> !GoalBefore(x, g))
    && (forall q :: q in ValidStarts(p, unblocked) && Distance(q, g.end, unblocked) == Some(g.distance)
          ==> !ReadingLess(q, g.start))
  }

  /** The goal `minWith` picks comes from the first start, in the order of
      `starts`, that reaches its end at its distance. */
  lemma FirstStartWins(p: Pos, targets: seq<Creature>, unblocked: set<Pos>, g: Goal)
    requires var goals := Goals(targets, ValidStarts(p, unblocked), unblocked);
      exists k :: 0 <= k < |goals| && goals[k] == g && forall j :: 0 <= j < k ==> GoalBefore(g, goals[j])
    requires forall x :: x in Goals(targets, ValidStarts(p, unblocked), unblocked) ==> !GoalBefore(x, g)
    ensures ChosenGoal(p, targets, unblocked, g)
  {
    var starts := ValidStarts(p, unblocked);
    var goals := Goals(targets, starts, unblocked);
    var k :| 0 <= k < |goals| && goals[k] == g && forall j :: 0 <= j < k ==> GoalBefore(g, goals[j]);
    forall q | q in starts && Distance(q, g.end, unblocked) == Some(g.distance)
      ensures !ReadingLess(q, g.start)
    {
      NoEarlierStart(targets, starts, unblocked, k, q);
    }
  }

  /** When every goal listed before goal `k` comes after it under
      `GoalBefore`, no start reaching its end at its distance comes before
      its start in reading order. */
  lemma NoEarlierStart(targets: seq<Creature>, starts: seq<Pos>, unblocked: set<Pos>, k: nat, q: Pos)
    requires InReadingOrder(starts)
    requires k < |Goals(targets, starts, unblocked)|
    requires var goals := Goals(targets, starts, unblocked);
      forall j :: 0 <= j < k ==> GoalBefore(goals[k], goals[j])
    requires q in starts
    requires var g := Goals(targets, starts, unblocked)[k];
      Distance(q, g.end, unblocked) == Some(g.distance)
    ensures !ReadingLess(q, Goals(targets, starts, unblocked)[k].start)
  {
    var goals := Goals(targets, starts, unblocked);
    var g := goals[k];
    if ReadingLess(q, g.start) {
      assert g in goals;
      var i :| 0 <= i < |starts| && starts[i] == q;
      var i' :| 0 <= i' < |starts| && starts[i'] == g.start;
      EarlierInReadingOrder(starts, i, i');
      var j := EarlierStartEarlierGoal(targets, starts, unblocked, k, i, i');
      assert false;
    }
  }

  /** In a list in reading order, the earlier position comes first. */
  lemma EarlierInReadingOrder(ps: seq<Pos>, i: nat, i': nat)
    requires InReadingOrder(ps)
    requires i < |ps| && i' < |ps| && ReadingLess(ps[i], ps[i'])
    ensures i < i'
  {
  }

  /** A start listed before the start of goal `k`, reaching the same end
      at the same distance, has its goal listed before goal `k`. */
  lemma EarlierStartEarlierGoal(targets: seq<Creature>, starts: seq<Pos>, unblocked: set<Pos>, k: nat, i: nat, i': nat)
      returns (j: nat)
    requires InReadingOrder(starts)
    requires k < |Goals(targets, starts, unblocked)|
    requires i < i' < |starts| && starts[i'] == Goals(targets, starts, unblocked)[k].start
    requires Distance(starts[i], Goals(targets, starts, unblocked)[k].end, unblocked)
      == Some(Goals(targets, starts, unblocked)[k].distance)
    ensures j < k
    ensures var g := Goals(targets, starts, unblocked)[k];
      Goals(targets, starts, unblocked)[j] == Goal(starts[i], g.end, g.distance)
  {
    var dist := (q, e) => Distance(q, e, unblocked);
    GoalsIsAllGoalsWith(targets, starts, unblocked);
    var g := Goals(targets, starts, unblocked)[k];
    assert dist(starts[i], g.end) == Distance(starts[i], g.end, unblocked);
    j := EarlierStartAllGoalsWith(targets, starts, dist, k, i, i');
  }

  /** One unfolding of `GoalsTo`. */
  lemma GoalsToCons(starts: seq<Pos>, end: Pos, unblocked: set<Pos>)
    requires starts != []
    ensures var d := Distance(starts[0], end, unblocked);
      GoalsTo(starts, end, unblocked)
      == (if d.Some? then [Goal(starts[0], end, d.value)] else []) + GoalsTo(starts[1..], end, unblocked)
  {
  }

  /** `GoalsTo` for an arbitrary distance function. */
  function GoalsWith(starts: seq<Pos>, end: Pos, dist: (Pos, Pos) -> Option<nat>): (r: seq<Goal>)
    ensures forall g :: g in r ==> g.end == end
    decreases |starts|
  {
    if starts == [] then []
    else
      (match dist(starts[0], end)
       case None => []
       case Some(d) => [Goal(starts[0], end, d)])
      + GoalsWith(starts[1..], end, dist)
  }

  /** `Goals` for an arbitrary distance function. */
  function AllGoalsWith(targets: seq<Creature>, starts: seq<Pos>, dist: (Pos, Pos) -> Option<nat>): seq<Goal>
    decreases |targets|
  {
    if targets == [] then []
    else GoalsWith(starts, targets[0].pos, dist) + AllGoalsWith(targets[1..], starts, dist)
  }

  lemma {:induction false} GoalsToIsGoalsWith(starts: seq<Pos>, end: Pos, unblocked: set<Pos>)
    ensures GoalsTo(starts, end, unblocked) == GoalsWith(starts, end, (q, e) => Distance(q, e, unblocked))
    decreases |starts|
  {
    if starts != [] {
      GoalsToIsGoalsWith(starts[1..], end, unblocked);
    }
  }

  lemma {:induction false} GoalsIsAllGoalsWith(targets: seq<Creature>, starts: seq<Pos>, unblocked: set<Pos>)
    ensures Goals(targets, starts, unblocked) == AllGoalsWith(targets, starts, (q, e) => Distance(q, e, unblocked))
    decreases |targets|
  {
    if targets != [] {
      GoalsToIsGoalsWith(starts, targets[0].pos, unblocked);
      GoalsIsAllGoalsWith(targets[1..], starts, unblocked);
    }
  }

  /** In `AllGoalsWith`, a start listed before the start of goal `k`,
      reaching the same end at the same distance, has its goal listed
      before goal `k`. */
  lemma {:induction false} EarlierStartAllGoalsWith(targets: seq<Creature>, starts: seq<Pos>, dist: (Pos, Pos) -> Option<nat>,
      k: nat, i: nat, i': nat)
      returns (j: nat)
    requires InReadingOrder(starts)
    requires k < |AllGoalsWith(targets, starts, dist)|
    requires i < i' < |starts| && starts[i'] == AllGoalsWith(targets, starts, dist)[k].start
    requires dist(starts[i], AllGoalsWith(targets, starts, dist)[k].end) == Some(AllGoalsWith(targets, starts, dist)[k].distance)
    ensures j < k
    ensures var g := AllGoalsWith(targets, starts, dist)[k];
      AllGoalsWith(targets, starts, dist)[j] == Goal(starts[i], g.end, g.distance)
    decreases |targets|
  {
    var here := GoalsWith(starts, targets[0].pos, dist);
    var rest := AllGoalsWith(targets[1..], starts, dist);
    assert AllGoalsWith(targets, starts, dist) == here + rest;
    if k < |here| {
      assert here[k] in here;
      j := EarlierStartGoalWith(starts, targets[0].pos, dist, k, i, i');
    } else {
      var j' := EarlierStartAllGoalsWith(targets[1..], starts, dist, k - |here|, i, i');
      j := j' + |here|;
    }
  }

  /** In `GoalsWith`, a start listed before the start of goal `k`, at the
      same distance, has its goal listed before goal `k`. */
  lemma {:induction false} EarlierStartGoalWith(starts: seq<Pos>, end: Pos, dist: (Pos, Pos) -> Option<nat>, k: nat, i: nat, i': nat)
      returns (j: nat)
    requires InReadingOrder(starts)
    requires k < |GoalsWith(starts, end, dist)|
    requires i < i' < |starts| && starts[i'] == GoalsWith(starts, end, dist)[k].start
    requires dist(starts[i], end) == Some(GoalsWith(starts, end, dist)[k].distance)
    ensures j < k
    ensures GoalsWith(starts, end, dist)[j] == Goal(starts[i], end, GoalsWith(starts, end, dist)[k].distance)
    decreases |starts|
  {
    var gs := GoalsWith(starts, end, dist);
    var tail := GoalsWith(starts[1..], end, dist);
    ReadingOrderTail(starts, i, i');
    match dist(starts[0], end)
    case None =>
      assert gs == tail;
      j := EarlierStartGoalWith(starts[1..], end, dist, k, i - 1, i' - 1);
    case Some(d) =>
      assert gs == [Goal(starts[0], end, d)] + tail;
      if i == 0 {
        j := 0;
      } else {
        var j' := EarlierStartGoalWith(starts[1..], end, dist, k - 1, i - 1, i' - 1);
        j := j' + 1;
      }
  }

  /** Dropping the first of a list in reading order keeps it in reading
      order, and its first element comes before every later one. */
  lemma ReadingOrderTail(starts: seq<Pos>, i: nat, i': nat)
    requires InReadingOrder(starts) && i < i' < |starts|
    ensures InReadingOrder(starts[1..])
    ensures ReadingLess(starts[0], starts[i'])
    ensures starts[1..][i' - 1] == starts[i']
    ensures 0 < i ==> starts[1..][i - 1] == starts[i]
  {
  }

  /** A goal no other goal comes before is at least as close as every
      reachable target from every valid start. */
  lemma NearestGoalIsClosest(p: Pos, targets: seq<Creature>, unblocked: set<Pos>, g: Goal)
    requires var goals := Goals(targets, ValidStarts(p, unblocked), unblocked);
      g in goals && forall x :: x in goals ==> !GoalBefore(x, g)
    ensures NoCloser(p, targets, unblocked, g.distance)
    ensures exists t :: t in targets && t.pos == g.end && Distance(g.start, t.pos, unblocked) == Some(g.distance)
  {
    var starts := ValidStarts(p, unblocked);
    var goals := Goals(targets, starts, unblocked);
    forall s, t | s in starts && t in targets && Distance(s, t.pos, unblocked).Some?
      ensures g.distance <= Distance(s, t.pos, unblocked).value
    {
      ReachableIsGoal(targets, starts, unblocked, s, t);
    }
  }

  /** Every start from which a target can be reached yields a goal. */
  lemma ReachableIsGoal(targets: seq<Creature>, starts: seq<Pos>, unblocked: set<Pos>, s: Pos, t: Creature)
    requires s in starts && t in targets && Distance(s, t.pos, unblocked).Some?
    ensures Goal(s, t.pos, Distance(s, t.pos, unblocked).value) in Goals(targets, starts, unblocked)
  {
  }

  /** Where the creature ends its move: it stays when it can already attack
      or cannot reach any target, and otherwise steps to an unblocked
      neighbour. */
  function Destination(c: Creature, targets: seq<Creature>, unblocked: set<Pos>): (r: Pos)
    ensures r == c.pos || (IsNeighbour(c.pos, r) && r in unblocked)
    ensures InRange(targets, c.pos) != [] ==> r == c.pos
  {
    if InRange(targets, c.pos) != [] then c.pos
    else match MoveTowards(c.pos, targets, unblocked)
      case None => c.pos
      case Some(q) => q
  }

  /** `takeTurn`, with `others` the current creature map (which includes
      the creature itself): move, then attack the weakest target in range. */
  function TakeTurn(c: Creature, open: set<Pos>, others: seq<Creature>): Action {
    var unblocked := open - Occupied(others);
    var targets := Enemies(c.kind, others);
    var to := Destination(c, targets, unblocked);
    var moveAction := if to != c.pos then Move(c.id, to) else Idle;
    var attackAction := match Weakest(InRange(targets, to)) case None => Idle case Some(t) => Attack(c.id, t.id);
    Then(moveAction, attackAction)
  }

  /** What a turn consists of: staying or stepping to an unblocked
      neighbour, where staying is forced when an enemy is already in range;
      then attacking, from the cell reached, the enemy in range that comes
      first in `attackOrder`, and attacking whenever one is in range. */
  lemma TurnChoices(c: Creature, open: set<Pos>, others: seq<Creature>)
    ensures var targets := Enemies(c.kind, others);
      var unblocked := open - Occupied(others);
      var to := Destination(c, targets, unblocked);
      var attack := match Weakest(InRange(targets, to)) case None => Idle case Some(t) => Attack(c.id, t.id);
      TakeTurn(c, open, others) == Then(if to != c.pos then Move(c.id, to) else Idle, attack)
      && (to != c.pos ==> IsNeighbour(c.pos, to) && to in open && to !in Occupied(others))
      && ((exists x :: x in others && x.kind != c.kind && IsNeighbour(x.pos, c.pos)) ==> to == c.pos)
      && (attack.Attack? ==> exists t ::
            (t in others && t.id == attack.attacked && t.kind != c.kind && IsNeighbour(t.pos, to)
             && forall x :: x in others && x.kind != c.kind && IsNeighbour(x.pos, to) ==> !AttackBefore(x, t)))
      && (attack.Idle? ==> forall x :: x in others && x.kind != c.kind ==> !IsNeighbour(x.pos, to))
  {
    var targets := Enemies(c.kind, others);
    var unblocked := open - Occupied(others);
    var to := Destination(c, targets, unblocked);
    if exists x :: x in others && x.kind != c.kind && IsNeighbour(x.pos, c.pos) {
      var x :| x in others && x.kind != c.kind && IsNeighbour(x.pos, c.pos);
      assert x in InRange(targets, c.pos);
    }
  }

  /** A creature's turn, taken in a valid cave, leaves it valid. */
  lemma TurnKeepsValid(size: Size, open: set<Pos>, cs: seq<Creature>, c: Creature)
    requires Valid(Cave(size, open, cs))
    ensures Valid(Cave(size, open, ApplyTo(TakeTurn(c, open, cs), cs)))
  {
    var targets := Enemies(c.kind, cs);
    var unblocked := open - Occupied(cs);
    var to := Destination(c, targets, unblocked);
    var moveAction := if to != c.pos then Move(c.id, to) else Idle;
    var attackAction := match Weakest(InRange(targets, to)) case None => Idle case Some(t) => Attack(c.id, t.id);
    ThenApplies(moveAction, attackAction, cs);
    if to != c.pos {
      MoveKeepsValid(size, open, cs, c.id, to);
    }
    var moved := ApplyTo(moveAction, cs);
    if attackAction.Attack? {
      AttackKeepsValid(size, open, moved, attackAction.attacker, attackAction.attacked);
    }
  }

  /** Actions of a creature that is gone change nothing, as long as any
      attack is aimed at a creature that is present. */
  lemma AbsentActorChangesNothing(size: Size, open: set<Pos>, cs: seq<Creature>, id: int, m: Action, a: Action)
    requires Valid(Cave(size, open, cs)) && Lookup(cs, id).None?
    requires m.Idle? || (m.Move? && m.id == id)
    requires a.Idle? || (a.Attack? && a.attacker == id && exists k :: 0 <= k < |cs| && cs[k].id == a.attacked)
    ensures ApplyTo(Then(m, a), cs) == cs
  {
    ThenApplies(m, a, cs);
    assert ApplyTo(m, cs) == cs;
    if a.Attack? {
      var k :| 0 <= k < |cs| && cs[k].id == a.attacked;
      HarmlessAttack(size, open, cs, id, k);
    }
  }

  /** A creature killed earlier in the round still takes its turn, but its
      actions change nothing: its move finds no entry and its attack deals
      no damage to a target that is alive. */
  lemma DeadCreatureChangesNothing(size: Size, open: set<Pos>, cs: seq<Creature>, c: Creature)
    requires Valid(Cave(size, open, cs)) && Lookup(cs, c.id).None?
    ensures ApplyTo(TakeTurn(c, open, cs), cs) == cs
  {
    var targets := Enemies(c.kind, cs);
    var to := Destination(c, targets, open - Occupied(cs));
    var m := if to != c.pos then Move(c.id, to) else Idle;
    var w := Weakest(InRange(targets, to));
    var a := match w case None => Idle case Some(t) => Attack(c.id, t.id);
    if w.Some? {
      var t := w.value;
      assert t in cs;
      var k :| 0 <= k < |cs| && cs[k] == t;
    }
    AbsentActorChangesNothing(size, open, cs, c.id, m, a);
  }

  // ---------------------------------------------------------------------
  // A round
  // ---------------------------------------------------------------------

  function PosOf(c: Creature): Pos {
    c.pos
  }

  /** The fold of `turn`: each creature of the scan order acts on the map as
      the earlier turns left it. */
  function Round(scan: seq<Creature>, open: set<Pos>, cs: seq<Creature>): seq<Creature>
    decreases |scan|
  {
    if scan == [] then cs else Round(scan[1..], open, ApplyTo(TakeTurn(scan[0], open, cs), cs))
  }

  /** `turn`: the creatures act in reading order of their cells. */
  function Turn(cave: Cave): (r: Cave)
    ensures r.size == cave.size && r.open == cave.open
  {
    cave.(creatures := Round(SortBy(cave.creatures, PosOf), cave.open, cave.creatures))
  }

  lemma {:induction false} RoundKeepsValid(size: Size, open: set<Pos>, scan: seq<Creature>, cs: seq<Creature>)
    requires Valid(Cave(size, open, cs))
    ensures Valid(Cave(size, open, Round(scan, open, cs)))
    decreases |scan|
  {
    if scan != [] {
      TurnKeepsValid(size, open, cs, scan[0]);
      RoundKeepsValid(size, open, scan[1..], ApplyTo(TakeTurn(scan[0], open, cs), cs));
    }
  }

  /** A round keeps the cave valid. */
  lemma TurnKeepsCaveValid(cave: Cave)
    requires Valid(cave)
    ensures Valid(Turn(cave))
  {
    RoundKeepsValid(cave.size, cave.open, SortBy(cave.creatures, PosOf), cave.creatures);
  }

  // ---------------------------------------------------------------------
  // Validation
  // ---------------------------------------------------------------------

  /** `validate`: every creature must stand on an open cell and alone. */
  function Validate(cave: Cave): (r: Result<Cave>)
    ensures r.Ok? ==> r.value == cave
  {
    if Clash(cave.open, cave.creatures, cave.creatures) then Err("IllegalStateException") else Ok(cave)
  }

  /** Some creature of `todo` is off the open cells or shares its cell with
      another creature of `all`. */
  function Clash(open: set<Pos>, todo: seq<Creature>, all: seq<Creature>): bool
    decreases |todo|
  {
    if todo == [] then false
    else
      var c := todo[0];
      c.pos !in open || Count(all, c.pos) != 1 || Clash(open, todo[1..], all)
  }

  /** `creatures.values.filter { it.pos == p }.size`. */
  function Count(cs: seq<Creature>, p: Pos): nat
    decreases |cs|
  {
    if cs == [] then 0 else (if cs[0].pos == p then 1 else 0) + Count(cs[1..], p)
  }

  lemma {:induction false} CountDistinct(cs: seq<Creature>, k: int)
    requires Orderly(cs) && 0 <= k < |cs|
    ensures Count(cs, cs[k].pos) == 1
    decreases |cs|
  {
    if k == 0 {
      NotCounted(cs[1..], cs[0].pos, cs[0]);
    } else {
      assert Orderly(cs[1..]) by {
        forall i, j | 0 <= i < j < |cs[1..]| ensures Apart(cs[1..][i], cs[1..][j]) {
          assert Apart(cs[i + 1], cs[j + 1]);
        }
      }
      assert Apart(cs[0], cs[k]);
      CountDistinct(cs[1..], k - 1);
    }
  }

  lemma {:induction false} NotCounted(cs: seq<Creature>, p: Pos, c: Creature)
    requires forall i :: 0 <= i < |cs| ==> Apart(c, cs[i]) && p == c.pos
    ensures Count(cs, p) == 0
    decreases |cs|
  {
    if cs != [] {
      assert Apart(c, cs[0]);
      NotCounted(cs[1..], p, c);
    }
  }

  lemma {:induction false} NoClash(open: set<Pos>, todo: seq<Creature>, all: seq<Creature>)
    requires Orderly(all) && forall i :: 0 <= i < |todo| ==> todo[i] in all && todo[i].pos in open
    ensures !Clash(open, todo, all)
    decreases |todo|
  {
    if todo != [] {
      var k :| 0 <= k < |all| && all[k] == todo[0];
      CountDistinct(all, k);
      NoClash(open, todo[1..], all);
    }
  }

  /** Validation never fails on a valid cave; in particular it never fails
      after a round that started from a valid cave. */
  lemma ValidatePassesValid(cave: Cave)
    requires Valid(cave)
    ensures Validate(cave) == Ok(cave)
    ensures Validate(Turn(cave)) == Ok(Turn(cave))
  {
    NoClash(cave.open, cave.creatures, cave.creatures);
    TurnKeepsCaveValid(cave);
    var next := Turn(cave);
    NoClash(next.open, next.creatures, next.creatures);
  }

  /** A creature off the open cells makes validation fail. */
  lemma ValidateRejectsWall(cave: Cave, k: int)
    requires 0 <= k < |cave.creatures| && cave.creatures[k].pos !in cave.open
    ensures Validate(cave).Err?
  {
    ClashAt(cave.open, cave.creatures, cave.creatures, k);
  }

  /** Two creatures on one cell make validation fail. */
  lemma ValidateRejectsOverlap(cave: Cave, i: int, j: int)
    requires 0 <= i < j < |cave.creatures| && cave.creatures[i].pos == cave.creatures[j].pos
    ensures Validate(cave).Err?
  {
    CountsTwo(cave.creatures, i, j);
    ClashAt(cave.open, cave.creatures, cave.creatures, i);
  }

  lemma {:induction false} CountsTwo(cs: seq<Creature>, i: int, j: int)
    requires 0 <= i < j < |cs| && cs[i].pos == cs[j].pos
    ensures Count(cs, cs[i].pos) >= 2
    decreases |cs|
  {
    if i > 0 {
      CountsTwo(cs[1..], i - 1, j - 1);
    } else {
      CountsOne(cs[1..], j - 1, cs[0].pos);
    }
  }

  lemma {:induction false} CountsOne(cs: seq<Creature>, j: int, p: Pos)
    requires 0 <= j < |cs| && cs[j].pos == p
    ensures Count(cs, p) >= 1
    decreases |cs|
  {
    if j > 0 {
      CountsOne(cs[1..], j - 1, p);
    }
  }

  lemma {:induction false} ClashAt(open: set<Pos>, todo: seq<Creature>, all: seq<Creature>, k: int)
    requires 0 <= k < |todo| && (todo[k].pos !in open || Count(all, todo[k].pos) != 1)
    ensures Clash(open, todo, all)
    decreases |todo|
  {
    if k > 0 {
      ClashAt(open, todo[1..], all, k - 1);
    }
  }
}
