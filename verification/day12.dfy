/** Plant pots: five-pot regions packed into a number, a row of pots with
    its origin and sum, and one generation of the rule automaton. */
module Day12 {

  import opened Wrappers
  import opened Arith
  import opened Toolbox

  // ---------------------------------------------------------------------
  // Regions
  // ---------------------------------------------------------------------

  /** A pattern of pots packed into bits, most significant first. */
  datatype Region = Region(value: int)

  function Pow2(n: nat): (r: nat)
    ensures r >= 1
  {
    if n == 0 then 1 else 2 * Pow2(n - 1)
  }

  function Bit(b: bool): int { if b then 1 else 0 }

  /** The `Region(List<Boolean>)` constructor: the fold `(v shl 1) or bit`
      from the first pot to the last. */
  function Pack(states: seq<bool>): (v: int)
    ensures 0 <= v < Pow2(|states|)
  {
    if states == [] then 0 else 2 * Pack(states[..|states| - 1]) + Bit(states[|states| - 1])
  }

  /** The five bits 16, 8, 4, 2, 1 of a value, as `toString` tests them. */
  function Bits(v: int): (r: seq<bool>)
    ensures |r| == 5
  {
    [BitSet(v, 16), BitSet(v, 8), BitSet(v, 4), BitSet(v, 2), BitSet(v, 1)]
  }

  function Glyph(b: bool): char { if b then '#' else '.' }

  function Glyphs(s: seq<bool>): (r: string)
    ensures |r| == |s| && forall i :: 0 <= i < |s| ==> r[i] == Glyph(s[i])
  {
    seq(|s|, i requires 0 <= i < |s| => Glyph(s[i]))
  }

  /** `Region.toString`. */
  function Render(r: Region): string {
    Glyphs(Bits(r.value))
  }

  lemma PackFive(s: seq<bool>)
    requires |s| == 5
    ensures Pack(s) == 16 * Bit(s[0]) + 8 * Bit(s[1]) + 4 * Bit(s[2]) + 2 * Bit(s[3]) + Bit(s[4])
  {
    assert Pack(s) == 2 * Pack(s[..4]) + Bit(s[4]);
    assert Pack(s[..4]) == 2 * Pack(s[..3]) + Bit(s[3]) by { assert s[..4][..3] == s[..3]; }
    assert Pack(s[..3]) == 2 * Pack(s[..2]) + Bit(s[2]) by { assert s[..3][..2] == s[..2]; }
    assert Pack(s[..2]) == 2 * Pack(s[..1]) + Bit(s[1]) by { assert s[..2][..1] == s[..1]; }
    assert Pack(s[..1]) == Bit(s[0]) by { assert s[..1][..0] == []; }
  }

  /** The binary digits of `v = 16a + 8b + 4c + 2d + e`. */
  lemma FiveDigits(v: int, a: int, b: int, c: int, d: int, e: int)
    requires 0 <= a <= 1 && 0 <= b <= 1 && 0 <= c <= 1 && 0 <= d <= 1 && 0 <= e <= 1
    requires v == 16 * a + 8 * b + 4 * c + 2 * d + e
    ensures BitSet(v, 16) == (a == 1) && BitSet(v, 8) == (b == 1) && BitSet(v, 4) == (c == 1)
    ensures BitSet(v, 2) == (d == 1) && BitSet(v, 1) == (e == 1)
  {
    DivModUnique(v, 16, a, 8 * b + 4 * c + 2 * d + e);
    DivModUnique(a, 2, 0, a);
    DivModUnique(v, 8, 2 * a + b, 4 * c + 2 * d + e);
    DivModUnique(2 * a + b, 2, a, b);
    DivModUnique(v, 4, 4 * a + 2 * b + c, 2 * d + e);
    DivModUnique(4 * a + 2 * b + c, 2, 2 * a + b, c);
    DivModUnique(v, 2, 8 * a + 4 * b + 2 * c + d, e);
    DivModUnique(8 * a + 4 * b + 2 * c + d, 2, 4 * a + 2 * b + c, d);
    DivModUnique(v, 1, v, 0);
    DivModUnique(v, 2, 8 * a + 4 * b + 2 * c + d, e);
  }

  /** Unpacking a packed five-pot pattern gives the pattern back. */
  lemma BitsOfPack(s: seq<bool>)
    requires |s| == 5
    ensures Bits(Pack(s)) == s
  {
    PackFive(s);
    FiveDigits(Pack(s), Bit(s[0]), Bit(s[1]), Bit(s[2]), Bit(s[3]), Bit(s[4]));
    assert Bits(Pack(s)) == [s[0], s[1], s[2], s[3], s[4]];
  }

  /** `toString` of a region built from five pots draws those pots. */
  lemma RenderPack(s: seq<bool>)
    requires |s| == 5
    ensures Render(Region(Pack(s))) == Glyphs(s)
  {
    BitsOfPack(s);
  }

  /** Packing the five bits of a value below 32 gives the value back. */
  lemma PackOfBits(v: int)
    requires 0 <= v < 32
    ensures Pack(Bits(v)) == v
  {
    var a := if v >= 16 then 1 else 0;
    var b := if v - 16 * a >= 8 then 1 else 0;
    var c := if v - 16 * a - 8 * b >= 4 then 1 else 0;
    var d := if v - 16 * a - 8 * b - 4 * c >= 2 then 1 else 0;
    var e := v - 16 * a - 8 * b - 4 * c - 2 * d;
    FiveDigits(v, a, b, c, d, e);
    PackFive(Bits(v));
  }

  // ---------------------------------------------------------------------
  // States
  // ---------------------------------------------------------------------

  /** A row of pots; `plants[i]` is the pot numbered `origin + i`. */
  datatype State = State(plants: seq<bool>, origin: int)

  /** Whether the pot numbered `pot` holds a plant; every pot outside the
      row is empty. */
  predicate PotAt(s: State, pot: int) {
    0 <= pot - s.origin < |s.plants| && s.plants[pot - s.origin]
  }

  /** The sum of the numbers of the planted pots of `plants`, the first
      one numbered `origin`. */
  function PlantSum(plants: seq<bool>, origin: int): int
    decreases |plants|
  {
    if plants == [] then 0 else (if plants[0] then origin else 0) + PlantSum(plants[1..], origin + 1)
  }

  /** The sum of the numbers of the planted pots among `lo .. hi-1`,
      counted pot by pot. */
  ghost function PotsSum(s: State, lo: int, hi: int): int
    decreases hi - lo
  {
    if hi <= lo then 0 else (if PotAt(s, lo) then lo else 0) + PotsSum(s, lo + 1, hi)
  }

  /** The row's plants from index `k` on are the pots from `origin + k` on. */
  lemma {:induction false} PlantSumIsPotsSum(s: State, k: nat)
    requires k <= |s.plants|
    ensures PlantSum(s.plants[k..], s.origin + k) == PotsSum(s, s.origin + k, s.origin + |s.plants|)
    decreases |s.plants| - k
  {
    if k < |s.plants| {
      assert s.plants[k..][1..] == s.plants[k + 1..];
      PlantSumIsPotsSum(s, k + 1);
    }
  }

  /** `State.sum`: the sum of the numbers of the planted pots of the row. */
  function Sum(s: State): (r: int)
    ensures r == PotsSum(s, s.origin, s.origin + |s.plants|)
  {
    PlantSumIsPotsSum(s, 0);
    assert s.plants[0..] == s.plants;
    PlantSum(s.plants, s.origin)
  }

  /** Empty pots contribute nothing, wherever they are. */
  lemma {:induction false} PlantSumNone(plants: seq<bool>, origin: int)
    requires forall i :: 0 <= i < |plants| ==> !plants[i]
    ensures PlantSum(plants, origin) == 0
    decreases |plants|
  {
    if plants != [] {
      PlantSumNone(plants[1..], origin + 1);
    }
  }

  lemma {:induction false} PlantSumConcat(a: seq<bool>, b: seq<bool>, origin: int)
    ensures PlantSum(a + b, origin) == PlantSum(a, origin) + PlantSum(b, origin + |a|)
    decreases |a|
  {
    if a != [] {
      assert (a + b)[1..] == a[1..] + b;
      PlantSumConcat(a[1..], b, origin + 1);
    } else {
      assert a + b == b;
    }
  }

  // ---------------------------------------------------------------------
  // One generation
  // ---------------------------------------------------------------------

  type Rules = map<Region, bool>

  /** `rules.getOrDefault(r, false)`: a pattern without a rule dies out. */
  function Lookup(rules: Rules, r: Region): bool {
    if r in rules then rules[r] else false
  }

  /** The five pots centred on `pot`. */
  function Neighbourhood(s: State, pot: int): (r: seq<bool>)
    ensures |r| == 5 && forall k :: 0 <= k < 5 ==> r[k] == PotAt(s, pot - 2 + k)
  {
    seq(5, k => PotAt(s, pot - 2 + k))
  }

  /** A five-pot rule pattern whose drawing is `pots`. */
  ghost predicate Draws(reg: Region, pots: seq<bool>) {
    0 <= reg.value < 32 && Bits(reg.value) == pots
  }

  /** What the rules put in pot `pot` in the next generation: a plant exactly
      when a rule whose pattern draws the pot's neighbourhood says so. */
  function Next(s: State, rules: Rules, pot: int): (r: bool)
    ensures r <==> exists reg :: reg in rules && Draws(reg, Neighbourhood(s, pot)) && rules[reg]
  {
    var n := Neighbourhood(s, pot);
    var reg := Region(Pack(n));
    BitsOfPack(n);
    assert Draws(reg, n);
    assert forall other :: Draws(other, n) ==> other == reg by {
      forall other | Draws(other, n) ensures other == reg {
        PackOfBits(other.value);
      }
    }
    Lookup(rules, reg)
  }

  const Buffer: seq<bool> := [false, false, false, false]

  /** The rules applied to every five-pot window of the row padded with
      four empty pots on each side. */
  function Output(s: State, rules: Rules): (out: seq<bool>)
    ensures |out| == |s.plants| + 4
  {
    var buffered := Buffer + s.plants + Buffer;
    seq(|buffered| - 4, i requires 0 <= i < |buffered| - 4 => Lookup(rules, Region(Pack(buffered[i..i + 5]))))
  }

  /** Window `i` of the padded row is centred on pot `origin - 2 + i`. */
  lemma OutputIsNext(s: State, rules: Rules, i: int)
    requires 0 <= i < |s.plants| + 4
    ensures Output(s, rules)[i] == Next(s, rules, s.origin - 2 + i)
  {
    var buffered := Buffer + s.plants + Buffer;
    assert forall b :: 0 <= b < |buffered| ==> buffered[b] == (4 <= b < 4 + |s.plants| && s.plants[b - 4]);
    assert buffered[i..i + 5] == Neighbourhood(s, s.origin - 2 + i);
  }

  /** `dropLastWhile { !it }`. */
  function DropTrailing(s: seq<bool>): (r: seq<bool>)
    ensures |r| <= |s| && r == s[..|r|]
    ensures r == [] || r[|r| - 1]
    ensures forall j :: |r| <= j < |s| ==> !s[j]
  {
    if s != [] && !s[|s| - 1] then DropTrailing(s[..|s| - 1]) else s
  }

  /** The `when` of `State.run`: a generation `out` whose first entry is
      pot `origin`, re-based to start at its first or second entry when
      that one is planted; `output[0]` of an empty list throws. */
  function Settle(out: seq<bool>, origin: int): (r: Result<State>)
    requires out == [] || out[|out| - 1]
    ensures r.Err? <==> out == []
    ensures r.Ok? ==> r.value.plants != [] && r.value.plants[|r.value.plants| - 1]
    ensures r.Ok? ==> origin <= r.value.origin <= origin + 2
    ensures r.Ok? ==> r.value.origin + |r.value.plants| == origin + |out|
    ensures r.Ok? ==> forall pot :: origin <= pot < origin + |out| ==> PotAt(r.value, pot) == out[pot - origin]
  {
    if out == [] then Err("IndexOutOfBoundsException")
    else if out[0] then Ok(State(out, origin))
    else if out[1] then Ok(State(out[1..], origin + 1))
    else Ok(State(out[2..], origin + 2))
  }

  /** Re-basing drops only empty pots, so the sum is unchanged. */
  lemma SettleSum(out: seq<bool>, origin: int)
    requires out != [] && out[|out| - 1]
    ensures Sum(Settle(out, origin).value) == PlantSum(out, origin)
  {
    if !out[0] {
      assert PlantSum(out, origin) == PlantSum(out[1..], origin + 1);
      if !out[1] {
        assert out[1..][1..] == out[2..];
        assert PlantSum(out[1..], origin + 1) == PlantSum(out[2..], origin + 2);
      }
    }
  }

  /** `State.run`: the rules applied to the padded row, trailing empty pots
      dropped, then re-based. */
  function Run(s: State, rules: Rules): (r: Result<State>)
    ensures r.Ok? ==> r.value.plants != [] && r.value.plants[|r.value.plants| - 1]
    ensures r.Ok? ==> s.origin - 2 <= r.value.origin <= s.origin
    ensures r.Ok? ==> r.value.origin + |r.value.plants| <= s.origin + |s.plants| + 2
  {
    Settle(DropTrailing(Output(s, rules)), s.origin - 2)
  }

  /** No pot the padded row covers grows a plant. */
  predicate AllDie(s: State, rules: Rules) {
    forall pot :: s.origin - 2 <= pot < s.origin + |s.plants| + 2 ==> !Next(s, rules, pot)
  }

  lemma OutputAllNext(s: State, rules: Rules)
    ensures forall i :: 0 <= i < |s.plants| + 4 ==> Output(s, rules)[i] == Next(s, rules, s.origin - 2 + i)
  {
    forall i | 0 <= i < |s.plants| + 4
      ensures Output(s, rules)[i] == Next(s, rules, s.origin - 2 + i)
    {
      OutputIsNext(s, rules, i);
    }
  }

  /** `run` fails exactly when every plant dies. */
  lemma RunFailsWhenAllDie(s: State, rules: Rules)
    ensures Run(s, rules).Err? <==> AllDie(s, rules)
  {
    var out := Output(s, rules);
    DropTrailingEmpty(out);
    assert Run(s, rules).Err? <==> DropTrailing(out) == [];
    OutputAllNext(s, rules);
    if AllDie(s, rules) {
      forall j | 0 <= j < |out|
        ensures !out[j]
      {
        assert out[j] == Next(s, rules, s.origin - 2 + j);
      }
    } else {
      var pot :| s.origin - 2 <= pot < s.origin + |s.plants| + 2 && Next(s, rules, pot);
      assert out[pot - (s.origin - 2)];
    }
  }

  /** Dropping the trailing empty pots leaves nothing exactly when no pot is planted. */
  lemma DropTrailingEmpty(s: seq<bool>)
    ensures DropTrailing(s) == [] <==> forall j :: 0 <= j < |s| ==> !s[j]
  {
  }

  /** After `run` every pot the padded row covers holds what the rules put
      there. */
  lemma RunMeaning(s: State, rules: Rules, pot: int)
    requires Run(s, rules).Ok?
    requires s.origin - 2 <= pot < s.origin + |s.plants| + 2
    ensures PotAt(Run(s, rules).value, pot) == Next(s, rules, pot)
  {
    var out := Output(s, rules);
    var d := DropTrailing(out);
    var i := pot - (s.origin - 2);
    OutputIsNext(s, rules, i);
    if i >= |d| {
      assert !out[i];
    }
  }

  /** The sum after `run` is the sum of the pots the rules planted. */
  lemma RunSum(s: State, rules: Rules)
    requires Run(s, rules).Ok?
    ensures Sum(Run(s, rules).value) == PlantSum(Output(s, rules), s.origin - 2)
  {
    TrimmedSum(Output(s, rules), s.origin - 2);
  }

  /** Settling the trimmed output keeps the sum of the planted pots. */
  lemma TrimmedSum(out: seq<bool>, origin: int)
    requires DropTrailing(out) != []
    ensures Sum(Settle(DropTrailing(out), origin).value) == PlantSum(out, origin)
  {
    TrimKeepsSum(out, origin);
    SettleSum(DropTrailing(out), origin);
  }

  /** Dropping the trailing empty pots keeps the sum of the planted pots. */
  lemma TrimKeepsSum(out: seq<bool>, origin: int)
    ensures PlantSum(DropTrailing(out), origin) == PlantSum(out, origin)
  {
    var d := DropTrailing(out);
    var rest := out[|d|..];
    assert out == d + rest;
    forall i | 0 <= i < |rest|
      ensures !rest[i]
    {
      assert rest[i] == out[|d| + i];
    }
    PlantSumConcat(d, rest, origin);
    PlantSumNone(rest, origin + |d|);
  }

  // ---------------------------------------------------------------------
  // The game
  // ---------------------------------------------------------------------

  datatype Game = Game(initial: State, rules: Rules)

  /** One generation as a step that may fail. */
  function Generation(rules: Rules): State -> Result<State> {
    s => Run(s, rules)
  }

  /** `n` generations from `s`; the first failing generation ends the run. */
  function Iterate(s: State, rules: Rules, n: int): Result<State> {
    IterateResult(Generation(rules), s, n)
  }

  /** `n` generations and then `m` are `n + m` generations. */
  lemma IterateAdd(s: State, rules: Rules, n: nat, m: nat)
    ensures Iterate(s, rules, n + m) ==
      match Iterate(s, rules, n)
      case Err(e) => Err(e)
      case Ok(t) => Iterate(t, rules, m)
  {
    IterateResultAdd(Generation(rules), s, n, m);
  }

  /** `Game.run`: the sum of the row after the generations. */
  function GameRun(g: Game, iterations: int): (r: Result<int>)
    ensures iterations <= 0 ==> r == Ok(Sum(g.initial))
  {
    match Iterate(g.initial, g.rules, iterations)
    case Err(e) => Err(e)
    case Ok(s) => Ok(Sum(s))
  }

  /** One more generation fails exactly when the last one failed or every
      plant dies in it, and otherwise sums the pots the rules planted. */
  lemma GameRunStep(g: Game, n: nat)
    ensures GameRun(g, n + 1).Err? <==>
      Iterate(g.initial, g.rules, n).Err? || AllDie(Iterate(g.initial, g.rules, n).value, g.rules)
    ensures GameRun(g, n + 1).Ok? ==>
      var s := Iterate(g.initial, g.rules, n).value;
      GameRun(g, n + 1).value == PlantSum(Output(s, g.rules), s.origin - 2)
  {
    IterateAdd(g.initial, g.rules, n, 1);
    var r := Iterate(g.initial, g.rules, n);
    if r.Ok? {
      var s := r.value;
      RunFailsWhenAllDie(s, g.rules);
      if Run(s, g.rules).Ok? {
        RunSum(s, g.rules);
        assert Iterate(Run(s, g.rules).value, g.rules, 0) == Ok(Run(s, g.rules).value);
      }
    }
  }

  /** Generation `n + 1` is the first one in which every plant dies. */
  ghost predicate DiesAt(g: Game, n: nat) {
    Iterate(g.initial, g.rules, n).Ok? && AllDie(Iterate(g.initial, g.rules, n).value, g.rules)
  }

  /** `n` generations fail exactly when one of them leaves no plant. */
  lemma {:induction false} IterateFailsWhenDies(g: Game, n: nat)
    ensures Iterate(g.initial, g.rules, n).Err? <==> exists k :: 0 <= k < n && DiesAt(g, k)
  {
    if n > 0 {
      IterateFailsWhenDies(g, n - 1);
      GameRunStep(g, n - 1);
      if Iterate(g.initial, g.rules, n - 1).Err? {
        var k :| 0 <= k < n - 1 && DiesAt(g, k);
      } else if DiesAt(g, n - 1) {
      } else {
        assert forall k :: 0 <= k < n && DiesAt(g, k) ==> k < n - 1;
      }
    }
  }

  /** `part1`: twenty generations; they fail exactly when one of them leaves
      no plant, and otherwise the answer is the twentieth row's sum. */
  function Part1(g: Game): (r: Result<int>)
    ensures r.Err? <==> exists k :: 0 <= k < 20 && DiesAt(g, k)
    ensures r.Ok? ==> Iterate(g.initial, g.rules, 20).Ok? && r.value == Sum(Iterate(g.initial, g.rules, 20).value)
  {
    IterateFailsWhenDies(g, 20);
    GameRun(g, 20)
  }
}
