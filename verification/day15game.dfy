/** Beverage Bandits, the whole combat: rounds until one changes nothing,
    the outcome that part 1 reports, and the search of part 2 for the
    smallest elf attack power with which no elf dies. */
module Day15Game {

  import opened Wrappers
  import opened Arith
  import opened Toolbox
  import opened Plane
  import opened Day15
  import opened Day15Turn

  // ---------------------------------------------------------------------
  // Stepping until nothing changes
  // ---------------------------------------------------------------------

  /** The states after each step from `x`, up to but not including the
      first step that changes nothing; a failing step fails the whole run.
      `fuel` bounds the number of steps, and running out gives `OutOfFuel`. */
  function Settle<T(==)>(step: T -> Result<T>, x: T, fuel: nat): Result<seq<T>>
    decreases fuel
  {
    if fuel == 0 then Err("OutOfFuel")
    else match step(x)
      case Err(e) => Err(e)
      case Ok(next) =>
        if next == x then Ok([])
        else match Settle(step, next, fuel - 1)
          case Err(e) => Err(e)
          case Ok(rest) => Ok([next] + rest)
  }

  /** The state step `i` of `ts` starts from. */
  function Before<T>(x: T, ts: seq<T>, i: nat): T
    requires i <= |ts|
  {
    if i == 0 then x else ts[i - 1]
  }

  /** The state the run ends in. */
  function Final<T>(x: T, ts: seq<T>): T {
    Before(x, ts, |ts|)
  }

  /** `ts` is the history of the run from `x`: each step succeeds and
      changes the state, and one more step succeeds and changes nothing. */
  predicate IsHistory<T(==)>(step: T -> Result<T>, x: T, ts: seq<T>) {
    (forall i :: 0 <= i < |ts| ==> step(Before(x, ts, i)) == Ok(ts[i]) && ts[i] != Before(x, ts, i))
    && step(Final(x, ts)) == Ok(Final(x, ts))
  }

  lemma HistoryCons<T>(step: T -> Result<T>, x: T, next: T, rest: seq<T>)
    ensures IsHistory(step, x, [next] + rest) <==>
      step(x) == Ok(next) && next != x && IsHistory(step, next, rest)
  {
    var ts := [next] + rest;
    assert Final(x, ts) == Final(next, rest);
    if step(x) == Ok(next) && next != x && IsHistory(step, next, rest) {
      forall i | 0 <= i < |ts| ensures step(Before(x, ts, i)) == Ok(ts[i]) && ts[i] != Before(x, ts, i) {
        if i > 0 {
          assert Before(x, ts, i) == Before(next, rest, i - 1) && ts[i] == rest[i - 1];
        }
      }
    }
    if IsHistory(step, x, ts) {
      assert Before(x, ts, 0) == x && ts[0] == next;
      forall i | 0 <= i < |rest| ensures step(Before(next, rest, i)) == Ok(rest[i]) && rest[i] != Before(next, rest, i) {
        assert Before(x, ts, i + 1) == Before(next, rest, i) && ts[i + 1] == rest[i];
      }
    }
  }

  /** The run is the history, whenever the fuel covers it: the recursion
      and the step-by-step description agree. */
  lemma {:induction false} SettleIsHistory<T>(step: T -> Result<T>, x: T, fuel: nat, ts: seq<T>)
    ensures Settle(step, x, fuel) == Ok(ts) <==> IsHistory(step, x, ts) && |ts| < fuel
    decreases fuel
  {
    if fuel > 0 {
      if ts != [] {
        assert ts == [ts[0]] + ts[1..];
        HistoryCons(step, x, ts[0], ts[1..]);
        if step(x).Ok? {
          SettleIsHistory(step, step(x).value, fuel - 1, ts[1..]);
        }
      }
    }
  }

  /** More fuel does not change a run that has ended. */
  lemma {:induction false} SettleFuel<T>(step: T -> Result<T>, x: T, fuel: nat, more: nat)
    requires Settle(step, x, fuel).Ok? && fuel <= more
    ensures Settle(step, x, more) == Settle(step, x, fuel)
    decreases fuel
  {
    var next := step(x).value;
    if next != x {
      SettleFuel(step, next, fuel - 1, more - 1);
    }
  }

  /** A property every step keeps, and under which no step fails, holds
      along the whole run, which then fails only for want of fuel. */
  lemma {:induction false} SettleKeeps<T>(step: T -> Result<T>, inv: T -> bool, x: T, fuel: nat)
    requires inv(x)
    requires forall y :: inv(y) ==> step(y).Ok? && inv(step(y).value)
    ensures Settle(step, x, fuel).Err? ==> Settle(step, x, fuel).msg == "OutOfFuel"
    ensures Settle(step, x, fuel).Ok? ==> forall y :: y in Settle(step, x, fuel).value ==> inv(y)
    decreases fuel
  {
    if fuel > 0 && step(x).value != x {
      SettleKeeps(step, inv, step(x).value, fuel - 1);
    }
  }

  // ---------------------------------------------------------------------
  // The timeline
  // ---------------------------------------------------------------------

  /** `turn().validate()`. */
  function RoundOf(cave: Cave): Result<Cave> {
    Validate(Turn(cave))
  }

  /** `timeline`: the caves after each round, validated, up to but not
      including the first round that changes nothing. The source loops
      without bound; `fuel` bounds the number of rounds. */
  function Timeline(cave: Cave, fuel: nat): Result<seq<Cave>> {
    Settle(RoundOf, cave, fuel)
  }

  // ---------------------------------------------------------------------
  // What survives a round
  // ---------------------------------------------------------------------

  /** Same creature as far as a round can tell: id, kind and attack power
      never change. */
  predicate Same(x: Creature, y: Creature) {
    x.id == y.id && x.kind == y.kind && x.attackPower == y.attackPower
  }

  /** Every creature of `ds` was already one of `cs`. */
  predicate Kept(ds: seq<Creature>, cs: seq<Creature>) {
    forall x :: x in ds ==> exists y :: y in cs && Same(x, y)
  }

  lemma KeptTrans(es: seq<Creature>, ds: seq<Creature>, cs: seq<Creature>)
    requires Kept(es, ds) && Kept(ds, cs)
    ensures Kept(es, cs)
  {
    forall x | x in es ensures exists z :: z in cs && Same(x, z) {
      var y :| y in ds && Same(x, y);
      var z :| z in cs && Same(y, z);
    }
  }

  lemma ReplaceKept(cs: seq<Creature>, c: Creature, y: Creature)
    requires y in cs && Same(c, y)
    ensures Kept(Replace(cs, c), cs)
  {
    var r := Replace(cs, c);
    forall x | x in r ensures exists z :: z in cs && Same(x, z) {
      var i :| 0 <= i < |r| && r[i] == x;
      if cs[i].id != c.id {
        assert x == cs[i] && Same(x, cs[i]);
      }
    }
  }

  /** An action only moves, wounds and removes creatures. */
  lemma ApplyToKept(a: Action, cs: seq<Creature>)
    ensures Kept(ApplyTo(a, cs), cs)
    decreases a, 1
  {
    match a
    case Idle =>
      assert forall x :: x in cs ==> Same(x, x);
    case Move(id, to) =>
      match Lookup(cs, id) {
        case None =>
          assert forall x :: x in cs ==> Same(x, x);
        case Some(c) =>
          ReplaceKept(cs, c.(pos := to), c);
      }
    case Attack(attacker, attacked) =>
      var damage := match Lookup(cs, attacker) case None => 0 case Some(c) => c.attackPower;
      assert forall x :: x in Remove(cs, attacked) ==> x in cs && Same(x, x);
      match Lookup(cs, attacked) {
        case None =>
        case Some(t) =>
          if t.hitPoints - damage > 0 {
            ReplaceKept(cs, t.(hitPoints := t.hitPoints - damage), t);
          }
      }
    case Multiple(actions) =>
      ApplyAllKept(actions, cs);
  }

  lemma {:induction false} ApplyAllKept(actions: seq<Action>, cs: seq<Creature>)
    ensures Kept(ApplyAll(actions, cs), cs)
    decreases actions, 0
  {
    if actions == [] {
      assert forall x :: x in cs ==> Same(x, x);
    } else {
      var next := ApplyTo(actions[0], cs);
      ApplyToKept(actions[0], cs);
      ApplyAllKept(actions[1..], next);
      KeptTrans(ApplyAll(actions[1..], next), next, cs);
    }
  }

  lemma {:induction false} RoundKept(scan: seq<Creature>, open: set<Pos>, cs: seq<Creature>)
    ensures Kept(Round(scan, open, cs), cs)
    decreases |scan|
  {
    if scan == [] {
      assert forall x :: x in cs ==> Same(x, x);
    } else {
      var next := ApplyTo(TakeTurn(scan[0], open, cs), cs);
      ApplyToKept(TakeTurn(scan[0], open, cs), cs);
      RoundKept(scan[1..], open, next);
      KeptTrans(Round(scan[1..], open, next), next, cs);
    }
  }

  /** What a round keeps: validity, and descent from the creatures of
      `start`. */
  predicate Descends(start: Cave, cave: Cave) {
    Valid(cave) && Kept(cave.creatures, start.creatures)
  }

  lemma RoundKeepsDescent(start: Cave, cave: Cave)
    requires Descends(start, cave)
    ensures RoundOf(cave).Ok? && Descends(start, RoundOf(cave).value)
  {
    ValidatePassesValid(cave);
    TurnKeepsCaveValid(cave);
    RoundKept(SortBy(cave.creatures, PosOf), cave.open, cave.creatures);
    KeptTrans(Turn(cave).creatures, cave.creatures, start.creatures);
  }

  /** Along the timeline of a valid cave, validation never fails, every
      cave stays valid, and every creature descends from the first cave's. */
  lemma TimelineKeepsValid(cave: Cave, fuel: nat)
    requires Valid(cave)
    ensures Timeline(cave, fuel).Err? ==> Timeline(cave, fuel).msg == "OutOfFuel"
    ensures Timeline(cave, fuel).Ok? ==> forall c :: c in Timeline(cave, fuel).value ==>
      Valid(c) && Kept(c.creatures, cave.creatures)
  {
    assert forall x :: x in cave.creatures ==> Same(x, x);
    forall y | Descends(cave, y) ensures RoundOf(y).Ok? && Descends(cave, RoundOf(y).value) {
      RoundKeepsDescent(cave, y);
    }
    SettleKeeps(RoundOf, c => Descends(cave, c), cave, fuel);
  }

  // ---------------------------------------------------------------------
  // Part 1
  // ---------------------------------------------------------------------

  function HitPoints(cs: seq<Creature>): (r: seq<int>)
    ensures |r| == |cs| && forall i :: 0 <= i < |cs| ==> r[i] == cs[i].hitPoints
  {
    seq(|cs|, i requires 0 <= i < |cs| => cs[i].hitPoints)
  }

  /** `remainingHitPoints`; the sum of at most a few hundred values of at
      most 200 is far from overflowing. */
  function RemainingHitPoints(cave: Cave): int {
    Sum(HitPoints(cave.creatures))
  }

  lemma {:induction false} SumOfPositives(s: seq<int>)
    requires forall i :: 0 <= i < |s| ==> s[i] > 0
    ensures Sum(s) >= |s|
  {
    if s != [] {
      SumOfPositives(s[1..]);
    }
  }

  /** The creatures of a valid cave are alive, so hit points remain
      exactly when creatures do. */
  lemma RemainingOfValid(cave: Cave)
    requires Valid(cave)
    ensures RemainingHitPoints(cave) >= |cave.creatures|
    ensures RemainingHitPoints(cave) > 0 <==> cave.creatures != []
  {
    var hp := HitPoints(cave.creatures);
    forall i | 0 <= i < |hp| ensures hp[i] > 0 {
      assert Placed(cave.open, cave.creatures[i]);
    }
    SumOfPositives(hp);
  }

  /** `part1Factors`: the number of rounds less one, and the hit points
      left at the end; `last()` of an empty timeline throws. */
  function Part1Factors(cave: Cave, fuel: nat): Result<(int, int)> {
    match Timeline(cave, fuel)
    case Err(e) => Err(e)
    case Ok(ts) =>
      if ts == [] then Err("NoSuchElementException")
      else Ok((|ts| - 1, RemainingHitPoints(ts[|ts| - 1])))
  }

  /** Part 1 in terms of the history of the combat: it fails when the very
      first round changes nothing, and otherwise counts the rounds that
      changed something, less one, with the hit points left in the cave
      the combat ends in. */
  lemma Part1Outcome(cave: Cave, fuel: nat, ts: seq<Cave>)
    requires IsHistory(RoundOf, cave, ts) && |ts| < fuel
    ensures Part1Factors(cave, fuel).Err? <==> ts == []
    ensures ts != [] ==> Part1Factors(cave, fuel) == Ok((|ts| - 1, RemainingHitPoints(Final(cave, ts))))
  {
    SettleIsHistory(RoundOf, cave, fuel, ts);
  }

  /** `part1`: rounds times remaining hit points, an `Int` product that
      wraps to 32 bits and is exact when it fits. */
  function Part1(cave: Cave, fuel: nat): (r: Result<I32>)
    ensures r.Ok? <==> Part1Factors(cave, fuel).Ok?
    ensures r.Ok? ==> var (rounds, remaining) := Part1Factors(cave, fuel).value;
      r.value == Wrap32(rounds * remaining)
      && (-TwoTo31 <= rounds * remaining < TwoTo31 ==> r.value == rounds * remaining)
  {
    match Part1Factors(cave, fuel)
    case Err(e) => Err(e)
    case Ok(f) => Ok(Wrap32(f.0 * f.1))
  }

  // ---------------------------------------------------------------------
  // Part 2
  // ---------------------------------------------------------------------

  function ElfCount(cs: seq<Creature>): (n: nat)
    ensures n <= |cs|
  {
    if cs == [] then 0 else (if cs[0].kind == Elf then 1 else 0) + ElfCount(cs[1..])
  }

  /** `elves`: the number of elves in the cave. */
  function Elves(cave: Cave): nat {
    ElfCount(cave.creatures)
  }

  /** The ids of the elves among `cs`. */
  function ElfIds(cs: seq<Creature>): (r: set<int>)
    ensures forall id :: id in r <==> exists x :: x in cs && x.kind == Elf && x.id == id
  {
    if cs == [] then {}
    else (if cs[0].kind == Elf then {cs[0].id} else {}) + ElfIds(cs[1..])
  }

  /** With distinct ids the elves are counted by their ids; without, the
      ids are never more than the elves. */
  lemma {:induction false} ElfIdsCount(cs: seq<Creature>)
    ensures |ElfIds(cs)| <= ElfCount(cs)
    ensures Orderly(cs) ==> |ElfIds(cs)| == ElfCount(cs)
    decreases |cs|
  {
    if cs != [] {
      ElfIdsCount(cs[1..]);
      if Orderly(cs) {
        OrderlyTail(cs);
        forall x | x in cs[1..] ensures x.id != cs[0].id {
          var k :| 0 <= k < |cs[1..]| && cs[1..][k] == x;
          assert Apart(cs[0], cs[k + 1]);
        }
      }
    }
  }

  /** A map with distinct ids whose creatures all descend from `cs` holds no
      more elves than `cs`. */
  lemma KeptElves(ds: seq<Creature>, cs: seq<Creature>)
    requires Orderly(ds) && Kept(ds, cs)
    ensures ElfCount(ds) <= ElfCount(cs)
  {
    ElfIdsCount(ds);
    ElfIdsCount(cs);
    forall id | id in ElfIds(ds) ensures id in ElfIds(cs) {
      var x :| x in ds && x.kind == Elf && x.id == id;
      var y :| y in cs && Same(x, y);
    }
    SubsetSize(ElfIds(ds), ElfIds(cs));
  }

  /** No round ever adds an elf. */
  lemma TimelineLosesElves(cave: Cave, fuel: nat)
    requires Valid(cave) && Timeline(cave, fuel).Ok?
    ensures var ts := Timeline(cave, fuel).value;
      forall i :: 0 <= i < |ts| ==> Elves(ts[i]) <= Elves(cave)
  {
    TimelineKeepsValid(cave, fuel);
    var ts := Timeline(cave, fuel).value;
    forall i | 0 <= i < |ts| ensures Elves(ts[i]) <= Elves(cave) {
      assert ts[i] in ts;
      KeptElves(ts[i].creatures, cave.creatures);
    }
  }

  /** Two scans of the same cells with different elf powers fail alike and
      make creatures of the same kinds. */
  lemma {:induction false} ScanKinds(rows: seq<seq<char>>, ps: seq<Pos>, p: int, q: int)
    ensures ScanCells(rows, ps, p).Ok? <==> ScanCells(rows, ps, q).Ok?
    ensures ScanCells(rows, ps, p).Ok? ==>
      var a := ScanCells(rows, ps, p).value.creatures;
      var b := ScanCells(rows, ps, q).value.creatures;
      |a| == |b| && forall i :: 0 <= i < |a| ==> a[i].kind == b[i].kind
    decreases |ps|
  {
    if ps != [] {
      ScanKinds(rows, ps[..|ps| - 1], p, q);
    }
  }

  lemma {:induction false} SameKindsSameElves(a: seq<Creature>, b: seq<Creature>)
    requires |a| == |b| && forall i :: 0 <= i < |a| ==> a[i].kind == b[i].kind
    ensures ElfCount(a) == ElfCount(b)
    decreases |a|
  {
    if a != [] {
      SameKindsSameElves(a[1..], b[1..]);
    }
  }

  /** The elf attack power changes neither whether parsing succeeds nor how
      many elves there are, so counting them at power 3 serves every power. */
  lemma ElvesIgnorePower(rows: seq<seq<char>>, p: int, q: int)
    ensures Parse(rows, p).Ok? <==> Parse(rows, q).Ok?
    ensures Parse(rows, p).Ok? ==> Elves(Parse(rows, p).value) == Elves(Parse(rows, q).value)
  {
    if rows != [] {
      var ps := CellsOf(SizeOf(rows).value);
      ScanKinds(rows, ps, p, q);
      if ScanCells(rows, ps, p).Ok? {
        SameKindsSameElves(ScanCells(rows, ps, p).value.creatures, ScanCells(rows, ps, q).value.creatures);
      }
    }
  }

  /** `parse(input, elfAttackPower = power).timeline()`. */
  function Scenario(rows: seq<seq<char>>, power: int, fuel: nat): Result<seq<Cave>> {
    match Parse(rows, power)
    case Err(e) => Err(e)
    case Ok(cave) => Timeline(cave, fuel)
  }

  /** With elf attack power `power` some elf dies: the combat ends with
      fewer than `numElves` elves. */
  predicate Loses(scenario: int -> Result<seq<Cave>>, numElves: int, power: int) {
    var s := scenario(power);
    s.Ok? && s.value != [] && Elves(s.value[|s.value| - 1]) < numElves
  }

  /** `scenarios.dropWhile { it.last().elves() < numElves }.first()`, from
      power `power` on, where `scenario` gives the timeline for each power:
      the first power whose combat ends with at least `numElves` elves,
      with its timeline. `powers` bounds how many powers are tried; running
      out gives `OutOfFuel`. */
  function FirstWin(scenario: int -> Result<seq<Cave>>, numElves: int, power: int, powers: nat): (r: Result<(int, seq<Cave>)>)
    ensures r.Ok? ==> var (won, ts) := r.value;
      power <= won && scenario(won) == Ok(ts) && ts != [] && Elves(ts[|ts| - 1]) >= numElves
    ensures r.Ok? ==> forall q :: power <= q < r.value.0 ==> Loses(scenario, numElves, q)
    decreases powers
  {
    if powers == 0 then Err("OutOfFuel")
    else match scenario(power)
      case Err(e) => Err(e)
      case Ok(ts) =>
        if ts == [] then Err("NoSuchElementException")
        else if Elves(ts[|ts| - 1]) < numElves then FirstWin(scenario, numElves, power + 1, powers - 1)
        else Ok((power, ts))
  }

  /** The search of `part2Factors`: elves are counted at the default power
      3, and powers are tried from 4 on. */
  function Winner(rows: seq<seq<char>>, fuel: nat, powers: nat): Result<(int, seq<Cave>)> {
    match Parse(rows, GoblinAttackPower)
    case Err(e) => Err(e)
    case Ok(start) => FirstWin(Scenarios(rows, fuel), Elves(start), 4, powers)
  }

  /** `part2Factors`: the attack power of the first creature left standing
      in the first combat no elf loses, its rounds less one, and its
      remaining hit points. */
  function Part2Factors(rows: seq<seq<char>>, fuel: nat, powers: nat): Result<(int, int, int)> {
    match Winner(rows, fuel, powers)
    case Err(e) => Err(e)
    case Ok((_, ts)) =>
      var last := ts[|ts| - 1];
      if last.creatures == [] then Err("NoSuchElementException")
      else Ok((last.creatures[0].attackPower, |ts| - 1, RemainingHitPoints(last)))
  }

  /** `parse(input, elfAttackPower = p).timeline()` for every power `p`. */
  function Scenarios(rows: seq<seq<char>>, fuel: nat): int -> Result<seq<Cave>> {
    p => Scenario(rows, p, fuel)
  }

  /** Part 2 finds the weakest elves that win without a loss: from power 4
      up to the power found, every combat ends with an elf dead, and with
      the power found every elf survives; the power reported is that power
      whenever the first creature left is an elf. */
  lemma Part2NoElfDies(rows: seq<seq<char>>, fuel: nat, powers: nat)
    requires Winner(rows, fuel, powers).Ok?
    ensures Parse(rows, GoblinAttackPower).Ok?
    ensures var numElves := Elves(Parse(rows, GoblinAttackPower).value);
      var (won, ts) := Winner(rows, fuel, powers).value;
      && ts != []
      && (forall q :: 4 <= q < won ==> Loses(Scenarios(rows, fuel), numElves, q))
      && Elves(ts[|ts| - 1]) == numElves == Elves(Parse(rows, won).value)
      && (ts[|ts| - 1].creatures != [] && ts[|ts| - 1].creatures[0].kind == Elf ==>
            Part2Factors(rows, fuel, powers) == Ok((won, |ts| - 1, RemainingHitPoints(ts[|ts| - 1]))))
  {
    var numElves := Elves(Parse(rows, GoblinAttackPower).value);
    var (won, ts) := Winner(rows, fuel, powers).value;
    assert Scenarios(rows, fuel)(won) == Scenario(rows, won, fuel);
    ElvesIgnorePower(rows, GoblinAttackPower, won);
    WinnerKeepsEveryElf(rows, fuel, won, ts);
    if ts[|ts| - 1].creatures != [] {
      assert ts[|ts| - 1].creatures[0] in ts[|ts| - 1].creatures;
    }
  }

  /** The combat at power `won` ends with no more elves than it started
      with, and every elf left has attack power `won`. */
  lemma WinnerKeepsEveryElf(rows: seq<seq<char>>, fuel: nat, won: int, ts: seq<Cave>)
    requires Scenario(rows, won, fuel) == Ok(ts) && ts != []
    ensures Parse(rows, won).Ok? && Elves(ts[|ts| - 1]) <= Elves(Parse(rows, won).value)
    ensures forall x :: x in ts[|ts| - 1].creatures && x.kind == Elf ==> x.attackPower == won
  {
    var cave := Parse(rows, won).value;
    ParsedCaveIsValid(rows, won);
    TimelineLosesElves(cave, fuel);
    TimelineKeepsValid(cave, fuel);
    var last := ts[|ts| - 1];
    assert last in ts;
    forall x | x in last.creatures && x.kind == Elf ensures x.attackPower == won {
      var y :| y in cave.creatures && Same(x, y);
      ParsedElvesHavePower(rows, won, y);
    }
  }

  /** Every elf `parse` makes has the attack power it was given. */
  lemma ParsedElvesHavePower(rows: seq<seq<char>>, power: int, y: Creature)
    requires Parse(rows, power).Ok? && y in Parse(rows, power).value.creatures && y.kind == Elf
    ensures y.attackPower == power
  {
    ParseMeaning(rows, power);
    var cs := Parse(rows, power).value.creatures;
    var i :| 0 <= i < |cs| && cs[i] == y;
  }

  /** `part2`: rounds times remaining hit points of the winning combat,
      an `Int` product that wraps to 32 bits and is exact when it fits. */
  function Part2(rows: seq<seq<char>>, fuel: nat, powers: nat): (r: Result<I32>)
    ensures r.Ok? <==> Part2Factors(rows, fuel, powers).Ok?
    ensures r.Ok? ==> var (_, rounds, remaining) := Part2Factors(rows, fuel, powers).value;
      r.value == Wrap32(rounds * remaining)
      && (-TwoTo31 <= rounds * remaining < TwoTo31 ==> r.value == rounds * remaining)
  {
    match Part2Factors(rows, fuel, powers)
    case Err(e) => Err(e)
    case Ok(f) => Ok(Wrap32(f.1 * f.2))
  }
}
