/** The device with its instruction pointer bound to a register: six
    registers, a program of instructions, and a loop that fetches the
    instruction the bound register points at, runs it, and then adds one
    to the bound register, until the pointer leaves the program. The
    same machine appears unchanged in the day 21 puzzle. */
module Day19 {

  import opened Wrappers
  import opened Arith
  import opened Device

  datatype Instruction = Instruction(op: Op, args: Args)

  datatype Program = Program(ipBinding: I32, instructions: seq<Instruction>)

  /** The registers and the index of the register bound to the
      instruction pointer. */
  datatype Machine = Machine(regs: Registers, ipBinding: I32)

  /** Six registers, all zero except register 0. */
  function Start(p: Program, r0: I32): (m: Machine)
    ensures |m.regs| == 6 && m.regs[0] == r0 && m.ipBinding == p.ipBinding
    ensures forall i :: 1 <= i < 6 ==> m.regs[i] == 0
  {
    Machine([r0, 0, 0, 0, 0, 0], p.ipBinding)
  }

  /** The instruction pointer: the bound register's value. */
  function Ip(m: Machine): (r: Result<I32>)
    ensures r.Ok? <==> 0 <= m.ipBinding < |m.regs|
    ensures r.Ok? ==> r.value == m.regs[m.ipBinding]
    ensures r.Err? ==> r == Err(IndexError)
  {
    Get(m.regs, m.ipBinding)
  }

  /** Adds one to the bound register, wrapping at 32 bits. */
  function Step(m: Machine): (r: Result<Machine>)
    ensures r.Ok? <==> Ip(m).Ok?
    ensures r.Err? ==> r == Err(IndexError)
    ensures r.Ok? ==> r.value.ipBinding == m.ipBinding && |r.value.regs| == |m.regs|
    ensures r.Ok? ==> Ip(r.value).Ok? && Ip(r.value).value == Wrap32(Ip(m).value + 1)
    ensures r.Ok? ==> forall i :: 0 <= i < |m.regs| && i != m.ipBinding ==> r.value.regs[i] == m.regs[i]
  {
    if 0 <= m.ipBinding < |m.regs| then
      Ok(m.(regs := m.regs[m.ipBinding := Wrap32(m.regs[m.ipBinding] as int + 1)]))
    else
      Err(IndexError)
  }

  /** Whether the loop stops: the pointer is outside the program. */
  predicate Halted(p: Program, m: Machine) {
    Ip(m).Ok? && !(0 <= Ip(m).value < |p.instructions|)
  }

  /** One pass of the loop: `None` when the pointer has left the
      program, otherwise the machine after the instruction and the step. */
  function Cycle(p: Program, m: Machine): (r: Result<Option<Machine>>)
    ensures r.Ok? && r.value.None? <==> Halted(p, m)
    ensures r.Err? ==> r == Err(IndexError)
    ensures r.Ok? && r.value.Some? ==> Ip(m).Ok? && 0 <= Ip(m).value < |p.instructions|
    ensures r.Ok? && r.value.Some? ==>
      var ins := p.instructions[Ip(m).value];
      var m' := r.value.value;
      && Run(ins.op, m.regs, ins.args).Ok?
      && m'.ipBinding == m.ipBinding && |m'.regs| == |m.regs|
      && (forall i :: 0 <= i < |m.regs| && i != ins.args.c && i != m.ipBinding ==> m'.regs[i] == m.regs[i])
      && Ip(m').value == Wrap32(Run(ins.op, m.regs, ins.args).value[m.ipBinding] as int + 1)
  {
    match Ip(m)
    case Err(e) => Err(e)
    case Ok(ip) =>
      if !(0 <= ip < |p.instructions|) then Ok(None)
      else
        var ins := p.instructions[ip];
        match Run(ins.op, m.regs, ins.args)
        case Err(e) => Err(e)
        case Ok(regs) =>
          match Step(m.(regs := regs))
          case Err(e) => Err(e)
          case Ok(m') => Ok(Some(m'))
  }

  /** A pass that runs an instruction which does not write the bound
      register moves the pointer to the next instruction (a Kotlin list
      holds fewer than 2^31 elements, so this does not wrap). */
  lemma CycleAdvances(p: Program, m: Machine)
    requires |p.instructions| < TwoTo31
    requires Cycle(p, m).Ok? && Cycle(p, m).value.Some?
    requires p.instructions[Ip(m).value].args.c != m.ipBinding
    ensures Ip(Cycle(p, m).value.value).value == Ip(m).value + 1
  {
    var ins := p.instructions[Ip(m).value];
    assert Run(ins.op, m.regs, ins.args).value[m.ipBinding] == m.regs[m.ipBinding];
  }

  /** The `while` loop, with fuel for the programs that never halt. */
  function Execute(p: Program, m: Machine, fuel: nat): (r: Result<Machine>)
    ensures r.Ok? ==> Halted(p, r.value)
    ensures r.Ok? ==> r.value.ipBinding == m.ipBinding && |r.value.regs| == |m.regs|
    ensures r.Err? ==> r == Err(IndexError) || r == Err("OutOfFuel")
    decreases fuel
  {
    match Cycle(p, m)
    case Err(e) => Err(e)
    case Ok(None) => Ok(m)
    case Ok(Some(m')) => if fuel == 0 then Err("OutOfFuel") else Execute(p, m', fuel - 1)
  }

  /** Fuel only decides whether the answer is reached, never what it is. */
  lemma {:induction false} ExecuteMoreFuel(p: Program, m: Machine, fuel: nat, more: nat)
    requires fuel <= more && Execute(p, m, fuel) != Err("OutOfFuel")
    ensures Execute(p, m, more) == Execute(p, m, fuel)
    decreases fuel
  {
    match Cycle(p, m)
    case Err(_) =>
    case Ok(None) =>
    case Ok(Some(m')) =>
      ExecuteMoreFuel(p, m', fuel - 1, more - 1);
  }

  /** A machine that has halted returns as it is. */
  lemma ExecuteHalted(p: Program, m: Machine, fuel: nat)
    requires Halted(p, m)
    ensures Execute(p, m, fuel) == Ok(m)
  {
  }

  /** Running with the pointer bound to a missing register throws at the
      first test of the loop. */
  lemma ExecuteUnbound(p: Program, r0: I32, fuel: nat)
    requires !(0 <= p.ipBinding < 6)
    ensures Execute(p, Start(p, r0), fuel) == Err(IndexError)
  {
  }

  /** Register 0 after the program halts. */
  function Part1(p: Program, fuel: nat): (r: Result<I32>)
    ensures r.Ok? <==> Execute(p, Start(p, 0), fuel).Ok?
    ensures r.Ok? ==> r.value == Execute(p, Start(p, 0), fuel).value.regs[0]
  {
    match Execute(p, Start(p, 0), fuel)
    case Err(e) => Err(e)
    case Ok(m) => Ok(m.regs[0])
  }

  /** `dropLast(1)`: everything but the last instruction (nothing of an
      empty program). */
  function DropLast(p: Program): (q: Program)
    ensures q.ipBinding == p.ipBinding
    ensures |q.instructions| == if |p.instructions| == 0 then 0 else |p.instructions| - 1
    ensures q.instructions <= p.instructions
  {
    if |p.instructions| == 0 then p else p.(instructions := p.instructions[..|p.instructions| - 1])
  }

  /** The exact sum of the divisors of `n` among `1..k`. */
  function SumOfDivisors(n: nat, k: nat): nat {
    if k == 0 then 0 else SumOfDivisors(n, k - 1) + (if n % k == 0 then k else 0)
  }

  /** Kotlin's `sum()` of the filtered range `1..k`: each addition wraps. */
  function WrappedDivisorSum(n: nat, k: nat): I32 {
    if k == 0 then 0 else Wrap32(WrappedDivisorSum(n, k - 1) + (if n % k == 0 then k else 0))
  }

  /** Wrapping the running total at every step is wrapping the exact sum once. */
  lemma {:induction false} WrappedIsExact(n: nat, k: nat)
    ensures WrappedDivisorSum(n, k) == Wrap32(SumOfDivisors(n, k))
  {
    if k > 0 {
      WrappedIsExact(n, k - 1);
      WrapAdd(SumOfDivisors(n, k - 1), if n % k == 0 then k else 0);
    }
  }

  /** The sum of the divisors of `n` (0 for `n <= 0`, whose range is empty). */
  function DivisorSum(n: I32): (r: I32)
    ensures r == if n <= 0 then 0 else Wrap32(SumOfDivisors(n, n))
  {
    if n <= 0 then 0
    else
      WrappedIsExact(n, n);
      WrappedDivisorSum(n, n)
  }

  /** Register 3 after the program without its last instruction halts,
      started with register 0 set to 1; then the sum of its divisors. */
  function Part2(p: Program, fuel: nat): (r: Result<I32>)
    ensures r.Ok? <==> Execute(DropLast(p), Start(p, 1), fuel).Ok?
    ensures r.Ok? ==> r.value == DivisorSum(Execute(DropLast(p), Start(p, 1), fuel).value.regs[3])
  {
    match Execute(DropLast(p), Start(p, 1), fuel)
    case Err(e) => Err(e)
    case Ok(m) => Ok(DivisorSum(m.regs[3]))
  }

  /** 1 divides every number... */
  lemma {:induction false} SumCountsOne(n: nat, k: nat)
    requires 1 <= k
    ensures SumOfDivisors(n, k) >= 1
  {
    if k > 1 {
      SumCountsOne(n, k - 1);
    } else {
      assert n % 1 == 0;
    }
  }

  /** ...and `n` divides itself, so the sum is at least `n + 1` for `n >= 2`. */
  lemma SumCountsOneAndSelf(n: nat)
    requires 1 <= n
    ensures SumOfDivisors(n, n) >= (if n == 1 then 1 else n + 1)
  {
    assert n % n == 0;
    if n > 1 {
      SumCountsOne(n, n - 1);
    }
  }

  /** No divisor lies strictly between `n / 2` and `n`. */
  lemma {:induction false} NoDivisorAboveHalf(n: nat, k: nat)
    requires 1 <= n && n / 2 <= k < n
    ensures SumOfDivisors(n, k) == SumOfDivisors(n, n / 2)
    decreases k
  {
    if k > n / 2 {
      assert n == 1 * k + (n - k) && 0 < n - k < k;
      DivModUnique(n, k, 1, n - k);
      NoDivisorAboveHalf(n, k - 1);
    }
  }

  /** So the sum is `n` plus the sum of the divisors up to `n / 2`. */
  lemma HalfAndSelf(n: nat)
    requires n >= 1
    ensures SumOfDivisors(n, n) == n + SumOfDivisors(n, n / 2)
  {
    NoDivisorAboveHalf(n, n - 1);
  }

  /** A number with no divisor in `2..n-1` has only 1 below itself... */
  lemma {:induction false} PrimeSumBelow(n: nat, k: nat)
    requires 2 <= n && 1 <= k < n
    requires forall d :: 2 <= d < n ==> n % d != 0
    ensures SumOfDivisors(n, k) == 1
  {
    if k > 1 {
      PrimeSumBelow(n, k - 1);
    }
  }

  /** ...so its divisors sum to `n + 1`. */
  lemma PrimeSum(n: nat)
    requires 2 <= n
    requires forall d :: 2 <= d < n ==> n % d != 0
    ensures SumOfDivisors(n, n) == n + 1
  {
    PrimeSumBelow(n, n - 1);
  }
}
