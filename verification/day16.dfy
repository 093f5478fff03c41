/** Chronal Classification: samples of the device's operations, counting the
    operations each sample fits, deducing which opcode number is which
    operation by elimination, and running a program with the deduced table. */
module Day16 {

  import opened Wrappers
  import opened Arith
  import opened Device

  datatype Instruction = Instruction(opcode: I32, args: Args)

  datatype Sample = Sample(before: Registers, instruction: Instruction, after: Registers)

  /** `matches`: running the operation on a copy of `before` gives `after`
      (`Registers` equality is same length and same entries). */
  function Matches(s: Sample, op: Op): (r: Result<bool>)
    ensures r.Ok? <==> Run(op, s.before, s.instruction.args).Ok?
    ensures r.Ok? ==> (r.value <==> Run(op, s.before, s.instruction.args).value == s.after)
    ensures r.Err? ==> r == Err(IndexError)
  {
    match Run(op, s.before, s.instruction.args)
    case Err(e) => Err(e)
    case Ok(r) => Ok(r == s.after)
  }

  /** All three arguments index registers of `before`. */
  predicate InRange(s: Sample) {
    var args := s.instruction.args;
    0 <= args.a < |s.before| && 0 <= args.b < |s.before| && 0 <= args.c < |s.before|
  }

  /** Every operation runs on a sample exactly when its arguments are in
      range (`addr` reads `a` and `b` and every operation writes `c`). */
  lemma AllRunIffInRange(s: Sample)
    ensures (forall op :: Matches(s, op).Ok?) <==> InRange(s)
  {
    assert Matches(s, Addr).Ok? ==> ReadsA(Addr) && ReadsB(Addr);
  }

  // ---------------------------------------------------------------------
  // Part 1
  // ---------------------------------------------------------------------

  /** The operations a sample fits, and those it does not. */
  function Fitting(s: Sample): set<Op> {
    set op | op in Ops && Matches(s, op) == Ok(true)
  }

  function Unfitting(s: Sample): set<Op> {
    set op | op in Ops && Matches(s, op) == Ok(false)
  }

  lemma FittingMeaning(s: Sample)
    ensures forall op :: op in Fitting(s) <==> Matches(s, op) == Ok(true)
    ensures forall op :: op in Unfitting(s) <==> Matches(s, op) == Ok(false)
  {
    OpsListsEveryOpOnce();
  }

  /** `test`: how many of the sixteen operations the sample fits; an
      argument outside the registers throws. */
  function Test(s: Sample): (r: Result<nat>)
    ensures r.Ok? <==> InRange(s)
  {
    if InRange(s) then Ok(|Fitting(s)|) else Err(IndexError)
  }

  /** `count { op -> matches(op) }` over a list of operations, evaluated
      in order: the first operation that throws ends the count. */
  function CountMatching(s: Sample, ops: seq<Op>): (r: Result<nat>)
    ensures r.Ok? ==> r.value <= |ops|
    decreases |ops|
  {
    if ops == [] then Ok(0)
    else match Matches(s, ops[0])
      case Err(e) => Err(e)
      case Ok(b) =>
        match CountMatching(s, ops[1..])
        case Err(e) => Err(e)
        case Ok(n) => Ok(n + if b then 1 else 0)
  }

  /** The count fails exactly when some listed operation throws, and then
      with the index error every operation throws. */
  lemma {:induction false} CountMatchingFails(s: Sample, ops: seq<Op>)
    ensures CountMatching(s, ops).Ok? <==> forall i :: 0 <= i < |ops| ==> Matches(s, ops[i]).Ok?
    ensures CountMatching(s, ops).Err? ==> CountMatching(s, ops) == Err(IndexError)
    decreases |ops|
  {
    if ops != [] {
      CountMatchingFails(s, ops[1..]);
      assert forall i :: 1 <= i < |ops| ==> ops[i] == ops[1..][i - 1];
    }
  }

  /** The listed operations that fit. */
  function FittingAmong(s: Sample, ops: seq<Op>): set<Op> {
    set op | op in ops && Matches(s, op) == Ok(true)
  }

  /** Over a list without repeats, a count that succeeds is the number of
      listed operations that fit. */
  lemma {:induction false} CountMatchingIsFitting(s: Sample, ops: seq<Op>)
    requires forall i, j :: 0 <= i < j < |ops| ==> ops[i] != ops[j]
    requires CountMatching(s, ops).Ok?
    ensures CountMatching(s, ops).value == |FittingAmong(s, ops)|
    decreases |ops|
  {
    if ops != [] {
      CountStep(s, ops);
      FittingStep(s, ops);
      CountMatchingIsFitting(s, ops[1..]);
    }
  }

  /** A successful count is the rest's count plus one if the first fits. */
  lemma CountStep(s: Sample, ops: seq<Op>)
    requires ops != [] && CountMatching(s, ops).Ok?
    ensures CountMatching(s, ops[1..]).Ok?
    ensures CountMatching(s, ops).value ==
      CountMatching(s, ops[1..]).value + if Matches(s, ops[0]) == Ok(true) then 1 else 0
  {
  }

  /** Without repeats, the first operation adds one fitting operation if it
      fits and none otherwise. */
  lemma FittingStep(s: Sample, ops: seq<Op>)
    requires ops != [] && forall i, j :: 0 <= i < j < |ops| ==> ops[i] != ops[j]
    ensures forall i, j :: 0 <= i < j < |ops[1..]| ==> ops[1..][i] != ops[1..][j]
    ensures |FittingAmong(s, ops)| == |FittingAmong(s, ops[1..])| + if Matches(s, ops[0]) == Ok(true) then 1 else 0
  {
    var rest := ops[1..];
    assert forall i :: 0 <= i < |rest| ==> rest[i] == ops[i + 1];
    assert ops[0] !in rest by {
      forall i | 0 <= i < |rest| ensures rest[i] != ops[0] {
        assert rest[i] == ops[i + 1];
      }
    }
    var here: set<Op> := if Matches(s, ops[0]) == Ok(true) then {ops[0]} else {};
    assert FittingAmong(s, ops) == here + FittingAmong(s, rest);
    assert here !! FittingAmong(s, rest);
  }

  /** `test` is `count` over any listing of the operations that names each
      once, whatever its order; the source's table is one such listing. */
  lemma TestIsCount(s: Sample, ops: seq<Op>)
    requires forall op :: op in ops
    requires forall i, j :: 0 <= i < j < |ops| ==> ops[i] != ops[j]
    ensures CountMatching(s, ops).Ok? <==> Test(s).Ok?
    ensures Test(s).Ok? ==> CountMatching(s, ops).value == Test(s).value <= |ops|
    ensures Test(s).Err? ==> CountMatching(s, ops) == Test(s)
  {
    CountMatchingFails(s, ops);
    AllRunIffInRange(s);
    if InRange(s) {
      CountMatchingIsFitting(s, ops);
      FittingMeaning(s);
      assert FittingAmong(s, ops) == Fitting(s);
    } else {
      FailsOutOfRange(s);
      assert Addr in ops;
      var i :| 0 <= i < |ops| && ops[i] == Addr;
      assert !Matches(s, ops[i]).Ok?;
    }
  }

  lemma FailsOutOfRange(s: Sample)
    requires !InRange(s)
    ensures !Matches(s, Addr).Ok?
  {
    assert !ReadsA(Addr) || !ReadsB(Addr) || !Run(Addr, s.before, s.instruction.args).Ok?;
  }

  /** `map(f).count { it >= k }`: the first failing element throws. */
  function CountAtLeast<X>(f: X -> Result<nat>, xs: seq<X>, k: nat): (r: Result<nat>)
    ensures r.Ok? <==> forall i :: 0 <= i < |xs| ==> f(xs[i]).Ok?
    ensures r.Ok? ==> r.value <= |xs|
    decreases |xs|
  {
    if xs == [] then Ok(0)
    else match f(xs[0])
      case Err(e) => Err(e)
      case Ok(n) =>
        match CountAtLeast(f, xs[1..], k)
        case Err(e) => Err(e)
        case Ok(m) => Ok(m + if n >= k then 1 else 0)
  }

  /** The count adds up over any split of the list, one element counting
      exactly when its value reaches `k`. */
  lemma {:induction false} CountAtLeastAdds<X>(f: X -> Result<nat>, a: seq<X>, b: seq<X>, k: nat)
    requires CountAtLeast(f, a, k).Ok? && CountAtLeast(f, b, k).Ok?
    ensures CountAtLeast(f, a + b, k).Ok?
    ensures CountAtLeast(f, a + b, k).value == CountAtLeast(f, a, k).value + CountAtLeast(f, b, k).value
    decreases |a|
  {
    if a != [] {
      assert (a + b)[0] == a[0] && (a + b)[1..] == a[1..] + b;
      CountAtLeastAdds(f, a[1..], b, k);
    } else {
      assert a + b == b;
    }
  }

  lemma CountAtLeastOne<X>(f: X -> Result<nat>, x: X, k: nat)
    requires f(x).Ok?
    ensures CountAtLeast(f, [x], k) == Ok(if f(x).value >= k then 1 else 0)
  {
    assert [x][1..] == [];
  }

  /** `part1`: the samples that fit three or more operations; a sample
      whose arguments fall outside its registers throws. */
  function Part1(samples: seq<Sample>): (r: Result<nat>)
    ensures r.Ok? ==> r.value <= |samples|
  {
    CountAtLeast(Test, samples, 3)
  }

  /** Part 1 counts each sample on its own: the count over any split is
      the sum of the counts of the two parts ... */
  lemma Part1Adds(a: seq<Sample>, b: seq<Sample>)
    requires Part1(a).Ok? && Part1(b).Ok?
    ensures Part1(a + b).Ok? && Part1(a + b).value == Part1(a).value + Part1(b).value
  {
    CountAtLeastAdds(Test, a, b, 3);
  }

  /** ... and a single sample counts one exactly when it fits at least
      three operations. */
  lemma Part1One(s: Sample)
    requires Test(s).Ok?
    ensures Part1([s]) == Ok(if Test(s).value >= 3 then 1 else 0)
  {
    CountAtLeastOne(Test, s, 3);
  }

  // ---------------------------------------------------------------------
  // Matching opcodes
  // ---------------------------------------------------------------------

  /** What is known about one opcode: the operations some sample of it
      fitted, and those some sample of it ruled out. */
  datatype Match = Match(possible: set<Op>, notPossible: set<Op>)

  /** `Match.resolve`: the candidates left for the opcode, the operations
      some sample fitted and no sample ruled out. */
  function Resolve(m: Match): (r: set<Op>)
    ensures forall op :: op in r <==> op in m.possible && op !in m.notPossible
    ensures |r| <= |m.possible|
  {
    m.possible - m.notPossible
  }

  predicate Resolved(m: Match) {
    |Resolve(m)| == 1
  }

  const Opcodes := 16

  type Opcode = k: int | 0 <= k < Opcodes

  /** What one sample says about its opcode: the operations it fits and
      those it does not. */
  datatype Observation = Observation(opcode: Opcode, fits: set<Op>, misses: set<Op>)

  /** The inner loop of the pass for one sample: the opcode's entry is
      looked up before any operation runs (`!!` throws for an opcode
      outside 0..15), then every operation runs on the sample. */
  function Observe(s: Sample): (r: Result<Observation>)
    ensures r.Ok? <==> 0 <= s.instruction.opcode < Opcodes && InRange(s)
    ensures !(0 <= s.instruction.opcode < Opcodes) ==> r == Err("NullPointerException")
    ensures r.Ok? ==> r.value.opcode == s.instruction.opcode
  {
    var k := s.instruction.opcode;
    if !(0 <= k < Opcodes) then Err("NullPointerException")
    else if !InRange(s) then Err(IndexError)
    else Ok(Observation(k, Fitting(s), Unfitting(s)))
  }

  /** An observation records exactly the operations the sample fits and
      those it does not. */
  lemma ObserveMeaning(s: Sample, op: Op)
    requires Observe(s).Ok?
    ensures op in Observe(s).value.fits <==> Matches(s, op) == Ok(true)
    ensures op in Observe(s).value.misses <==> Matches(s, op) == Ok(false)
    ensures op in Observe(s).value.fits || op in Observe(s).value.misses
  {
    FittingMeaning(s);
    AllRunIffInRange(s);
  }

  /** One observation's effect: the operations fitted become possible for
      its opcode, the others impossible. */
  function Record(ms: seq<Match>, o: Observation): (r: seq<Match>)
    requires |ms| == Opcodes
    ensures |r| == Opcodes
    ensures forall j :: 0 <= j < Opcodes && j != o.opcode ==> r[j] == ms[j]
    ensures r[o.opcode].possible == ms[o.opcode].possible + o.fits
    ensures r[o.opcode].notPossible == ms[o.opcode].notPossible + o.misses
  {
    ms[o.opcode := Match(ms[o.opcode].possible + o.fits, ms[o.opcode].notPossible + o.misses)]
  }

  /** The pass over all samples, from no knowledge at all; the first sample
      that throws ends it. */
  function RecordAll<S>(observe: S -> Result<Observation>, samples: seq<S>): (r: Result<seq<Match>>)
    ensures r.Ok? ==> |r.value| == Opcodes
    decreases |samples|
  {
    if samples == [] then Ok(seq(Opcodes, _ => Match({}, {})))
    else match RecordAll(observe, samples[..|samples| - 1])
      case Err(e) => Err(e)
      case Ok(ms) =>
        match observe(samples[|samples| - 1])
        case Err(e) => Err(e)
        case Ok(o) => Ok(Record(ms, o))
  }

  /** Some sample of opcode `k` was fitted (`fits`), or not fitted, by `op`. */
  predicate Seen<S>(observe: S -> Result<Observation>, samples: seq<S>, k: int, op: Op, fits: bool) {
    exists i :: 0 <= i < |samples| && observe(samples[i]).Ok? && observe(samples[i]).value.opcode == k
      && op in (if fits then observe(samples[i]).value.fits else observe(samples[i]).value.misses)
  }

  lemma SeenSnoc<S>(observe: S -> Result<Observation>, init: seq<S>, s: S, k: int, op: Op, fits: bool)
    requires observe(s).Ok?
    ensures Seen(observe, init + [s], k, op, fits) <==>
      Seen(observe, init, k, op, fits)
      || (observe(s).value.opcode == k && op in (if fits then observe(s).value.fits else observe(s).value.misses))
  {
    var all := init + [s];
    if Seen(observe, all, k, op, fits) {
      var i :| 0 <= i < |all| && observe(all[i]).Ok? && observe(all[i]).value.opcode == k
        && op in (if fits then observe(all[i]).value.fits else observe(all[i]).value.misses);
      if i < |init| {
        assert all[i] == init[i];
      }
    }
    if Seen(observe, init, k, op, fits) {
      var i :| 0 <= i < |init| && observe(init[i]).Ok? && observe(init[i]).value.opcode == k
        && op in (if fits then observe(init[i]).value.fits else observe(init[i]).value.misses);
      assert all[i] == init[i];
    }
    assert all[|init|] == s;
  }

  /** After the pass, an operation is possible for an opcode exactly when
      some sample of that opcode fitted it, and impossible exactly when some
      sample of that opcode did not; the pass fails exactly when some
      sample throws. */
  lemma {:induction false} RecordAllMeaning<S>(observe: S -> Result<Observation>, samples: seq<S>)
    ensures RecordAll(observe, samples).Ok? <==> forall i :: 0 <= i < |samples| ==> observe(samples[i]).Ok?
    ensures RecordAll(observe, samples).Ok? ==> var ms := RecordAll(observe, samples).value;
      forall k, op :: 0 <= k < Opcodes ==>
        (op in ms[k].possible <==> Seen(observe, samples, k, op, true))
        && (op in ms[k].notPossible <==> Seen(observe, samples, k, op, false))
    decreases |samples|
  {
    if samples != [] {
      var init := samples[..|samples| - 1];
      var s := samples[|samples| - 1];
      RecordAllMeaning(observe, init);
      assert init + [s] == samples;
      assert forall i :: 0 <= i < |init| ==> init[i] == samples[i];
      if RecordAll(observe, samples).Ok? {
        var ms := RecordAll(observe, samples).value;
        forall k, op | 0 <= k < Opcodes
          ensures (op in ms[k].possible <==> Seen(observe, samples, k, op, true))
            && (op in ms[k].notPossible <==> Seen(observe, samples, k, op, false))
        {
          SeenSnoc(observe, init, s, k, op, true);
          SeenSnoc(observe, init, s, k, op, false);
        }
      }
    }
  }

  /** Knowledge only grows: the possible sets stay, the impossible ones
      can only gain. */
  predicate Grows(ms: seq<Match>, ms': seq<Match>) {
    |ms| == |ms'| == Opcodes
    && forall k :: 0 <= k < Opcodes ==> ms'[k].possible == ms[k].possible && ms[k].notPossible <= ms'[k].notPossible
  }

  lemma GrowsTrans(a: seq<Match>, b: seq<Match>, c: seq<Match>)
    requires Grows(a, b) && Grows(b, c)
    ensures Grows(a, c)
  {
  }

  /** Adding the candidates of resolved opcode `k` to every other opcode's
      impossible set. */
  function Exclude(ms: seq<Match>, k: int): (r: seq<Match>)
    requires |ms| == Opcodes && 0 <= k < Opcodes
    ensures Grows(ms, r) && r[k] == ms[k]
    ensures forall j :: 0 <= j < Opcodes && j != k ==> Resolve(ms[k]) <= r[j].notPossible
  {
    seq(Opcodes, j requires 0 <= j < Opcodes =>
      if j == k then ms[j] else ms[j].(notPossible := ms[j].notPossible + Resolve(ms[k])))
  }

  /** The candidates of `k` are ruled out for every other opcode. */
  predicate Separated(ms: seq<Match>, k: int)
    requires |ms| == Opcodes && 0 <= k < Opcodes
  {
    forall j :: 0 <= j < Opcodes && j != k ==> Resolve(ms[k]) <= ms[j].notPossible
  }

  lemma SeparatedStays(ms: seq<Match>, ms': seq<Match>, k: int)
    requires Grows(ms, ms') && 0 <= k < Opcodes && Separated(ms, k)
    ensures Separated(ms', k)
  {
    forall j | 0 <= j < Opcodes && j != k ensures Resolve(ms'[k]) <= ms'[j].notPossible {
      assert Resolve(ms'[k]) <= Resolve(ms[k]);
    }
  }

  /** The fold of one pass of the `while` body over the opcodes `ks`. */
  function ExcludeAll(ms: seq<Match>, ks: seq<int>): (r: seq<Match>)
    requires |ms| == Opcodes && forall i :: 0 <= i < |ks| ==> 0 <= ks[i] < Opcodes
    ensures Grows(ms, r)
    decreases |ks|
  {
    if ks == [] then ms else ExcludeAll(Exclude(ms, ks[0]), ks[1..])
  }

  /** The opcodes resolved when a pass of the loop begins, in key order. */
  function ResolvedFrom(ms: seq<Match>, k: nat): (ks: seq<int>)
    requires |ms| == Opcodes
    ensures forall i :: 0 <= i < |ks| ==> k <= ks[i] < Opcodes && Resolved(ms[ks[i]])
    ensures forall j :: k <= j < Opcodes && Resolved(ms[j]) ==> j in ks
    decreases Opcodes - k
  {
    if k >= Opcodes then []
    else (if Resolved(ms[k]) then [k] else []) + ResolvedFrom(ms, k + 1)
  }

  /** One pass of the `while` loop: each opcode resolved at the start of
      the pass, in turn, rules its candidate out for all others. */
  function Round(ms: seq<Match>): (r: seq<Match>)
    requires |ms| == Opcodes
    ensures Grows(ms, r)
  {
    ExcludeAll(ms, ResolvedFrom(ms, 0))
  }

  lemma {:induction false} ExcludeAllSeparates(ms: seq<Match>, ks: seq<int>)
    requires |ms| == Opcodes && forall i :: 0 <= i < |ks| ==> 0 <= ks[i] < Opcodes
    ensures forall k :: k in ks ==> Separated(ExcludeAll(ms, ks), k)
    decreases |ks|
  {
    if ks != [] {
      var next := Exclude(ms, ks[0]);
      ExcludeAllSeparates(next, ks[1..]);
      SeparatedStays(next, ExcludeAll(next, ks[1..]), ks[0]);
    }
  }

  /** After a pass, an opcode resolved when the pass began shares no
      candidate with any other opcode. */
  lemma RoundSeparates(ms: seq<Match>, k: int, j: int)
    requires |ms| == Opcodes && 0 <= k < Opcodes && 0 <= j < Opcodes && j != k
    requires Resolved(ms[k])
    ensures Resolve(Round(ms)[k]) !! Resolve(Round(ms)[j])
  {
    ExcludeAllSeparates(ms, ResolvedFrom(ms, 0));
    assert Separated(Round(ms), k);
  }

  predicate AllResolved(ms: seq<Match>)
    requires |ms| == Opcodes
  {
    forall k | 0 <= k < Opcodes :: Resolved(ms[k])
  }

  /** The `while` loop: passes until every opcode is resolved. The source
      loops forever when a pass makes no progress; `fuel` bounds the passes
      and running out gives `OutOfFuel`. */
  function Eliminate(ms: seq<Match>, fuel: nat): (r: Result<seq<Match>>)
    requires |ms| == Opcodes
    ensures r.Ok? ==> Grows(ms, r.value) && AllResolved(r.value)
    decreases fuel
  {
    if AllResolved(ms) then Ok(ms)
    else if fuel == 0 then Err("OutOfFuel")
    else
      var next := Round(ms);
      match Eliminate(next, fuel - 1)
      case Err(e) => Err(e)
      case Ok(r) => GrowsTrans(ms, next, r); Ok(r)
  }

  /** A pass that changes nothing while some opcode is unresolved leaves
      the source's loop spinning for ever: no fuel is enough. */
  lemma {:induction false} EliminateStuck(ms: seq<Match>, fuel: nat)
    requires |ms| == Opcodes && Round(ms) == ms && !AllResolved(ms)
    ensures Eliminate(ms, fuel) == Err("OutOfFuel")
    decreases fuel
  {
    if fuel > 0 {
      EliminateStuck(ms, fuel - 1);
    }
  }

  /** `resolve.first()` of a resolved opcode. */
  function Sole(m: Match): (op: Op)
    requires Resolved(m)
    ensures Resolve(m) == {op}
  {
    var s := Resolve(m);
    var x :| x in s;
    assert s == {x} by {
      var t := s - {x};
      assert s == t + {x} && x !in t;
      assert t == {};
    }
    var op :| op in s;
    op
  }

  /** `matchOpcodes`: the table from opcode number to operation. */
  function MatchOpcodes(samples: seq<Sample>, fuel: nat): (r: Result<seq<Op>>)
    ensures r.Ok? ==> |r.value| == Opcodes
  {
    match RecordAll(Observe, samples)
    case Err(e) => Err(e)
    case Ok(ms0) =>
      match Eliminate(ms0, fuel)
      case Err(e) => Err(e)
      case Ok(ms) => Ok(seq(Opcodes, k requires 0 <= k < Opcodes => Sole(ms[k])))
  }

  /** The operation chosen for each opcode fits every sample of that
      opcode, and at least one such sample exists. */
  lemma MatchOpcodesFitsSamples(samples: seq<Sample>, fuel: nat, k: int)
    requires MatchOpcodes(samples, fuel).Ok? && 0 <= k < Opcodes
    ensures var op := MatchOpcodes(samples, fuel).value[k];
      (forall i :: 0 <= i < |samples| && samples[i].instruction.opcode == k ==> Matches(samples[i], op) == Ok(true))
      && exists i :: 0 <= i < |samples| && samples[i].instruction.opcode == k
  {
    RecordAllMeaning(Observe, samples);
    var ms0 := RecordAll(Observe, samples).value;
    var ms := Eliminate(ms0, fuel).value;
    var op := Sole(ms[k]);
    assert MatchOpcodes(samples, fuel).value[k] == op;
    assert op in ms0[k].possible && op !in ms0[k].notPossible;
    assert !Seen(Observe, samples, k, op, false);
    forall i | 0 <= i < |samples| && samples[i].instruction.opcode == k
      ensures Matches(samples[i], op) == Ok(true)
    {
      ObserveMeaning(samples[i], op);
      assert Observe(samples[i]).Ok?;
    }
    assert Seen(Observe, samples, k, op, true);
  }

  // ---------------------------------------------------------------------
  // Part 2
  // ---------------------------------------------------------------------

  /** The fold of `part2`: each instruction runs the operation its opcode
      maps to. */
  function Execute(table: seq<Op>, program: seq<Instruction>, r: Registers): (r': Result<Registers>)
    requires |table| == Opcodes
    ensures r'.Ok? ==> |r'.value| == |r|
    decreases |program|
  {
    if program == [] then Ok(r)
    else
      var k := program[0].opcode;
      if !(0 <= k < Opcodes) then Err("NullPointerException")
      else match Run(table[k], r, program[0].args)
        case Err(e) => Err(e)
        case Ok(r1) => Execute(table, program[1..], r1)
  }

  /** Running two programs one after the other is running their
      concatenation. */
  lemma {:induction false} ExecuteConcat(table: seq<Op>, p: seq<Instruction>, q: seq<Instruction>, r: Registers)
    requires |table| == Opcodes
    ensures Execute(table, p + q, r) ==
      match Execute(table, p, r) case Err(e) => Err(e) case Ok(r1) => Execute(table, q, r1)
    decreases |p|
  {
    if p != [] {
      assert (p + q)[0] == p[0] && (p + q)[1..] == p[1..] + q;
      var k := p[0].opcode;
      if 0 <= k < Opcodes && Run(table[k], r, p[0].args).Ok? {
        ExecuteConcat(table, p[1..], q, Run(table[k], r, p[0].args).value);
      }
    } else {
      assert p + q == q;
    }
  }

  /** `part2`: register 0 after running the program from four zeroed
      registers with the deduced table. */
  function Part2(samples: seq<Sample>, program: seq<Instruction>, fuel: nat): (r: Result<I32>)
    ensures r.Ok? <==>
      MatchOpcodes(samples, fuel).Ok? && Execute(MatchOpcodes(samples, fuel).value, program, [0, 0, 0, 0]).Ok?
    ensures r.Ok? ==>
      r.value == Execute(MatchOpcodes(samples, fuel).value, program, [0, 0, 0, 0]).value[0]
  {
    match MatchOpcodes(samples, fuel)
    case Err(e) => Err(e)
    case Ok(table) =>
      match Execute(table, program, [0, 0, 0, 0])
      case Err(e) => Err(e)
      case Ok(r) => Ok(r[0])
  }
}
