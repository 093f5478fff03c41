/** The wrist device's sixteen operations, shared by the opcode puzzle and
    the instruction-pointer machine: each reads registers or immediates,
    computes with Kotlin `Int` semantics (32-bit wrap-around, bitwise
    `and`/`or`), and writes register `c`. An index outside the registers
    throws, as indexing an `IntArray` does. */
module Device {

  import opened Wrappers
  import opened Arith

  datatype Op =
    | Addr | Addi | Mulr | Muli | Banr | Bani | Borr | Bori
    | Setr | Seti | Gtri | Gtir | Gtrr | Eqri | Eqir | Eqrr

  /** The operations in the order of the source's table. */
  const Ops: seq<Op> := [Addr, Addi, Mulr, Muli, Banr, Bani, Borr, Bori, Setr, Seti, Gtri, Gtir, Gtrr, Eqri, Eqir, Eqrr]

  /** Where an operation sits in the table. */
  function Index(op: Op): (i: nat)
    ensures i < |Ops| && Ops[i] == op
  {
    match op
    case Addr => 0 case Addi => 1 case Mulr => 2 case Muli => 3
    case Banr => 4 case Bani => 5 case Borr => 6 case Bori => 7
    case Setr => 8 case Seti => 9 case Gtri => 10 case Gtir => 11
    case Gtrr => 12 case Eqri => 13 case Eqir => 14 case Eqrr => 15
  }

  /** The table lists each of the sixteen operations exactly once. */
  lemma OpsListsEveryOpOnce()
    ensures |Ops| == 16
    ensures forall op: Op :: op in Ops
    ensures forall i, j :: 0 <= i < j < |Ops| ==> Ops[i] != Ops[j]
  {
    forall op: Op ensures op in Ops {
      assert Ops[Index(op)] == op;
    }
  }

  datatype Args = Args(a: I32, b: I32, c: I32)

  type Registers = seq<I32>

  const IndexError := "ArrayIndexOutOfBoundsException"

  /** `r[i]`. */
  function Get(r: Registers, i: int): (v: Result<I32>)
    ensures v.Ok? <==> 0 <= i < |r|
    ensures v.Ok? ==> v.value == r[i]
  {
    if 0 <= i < |r| then Ok(r[i]) else Err(IndexError)
  }

  /** Whether the operation reads `a`, respectively `b`, as a register
      index (otherwise as an immediate value, or not at all). */
  predicate ReadsA(op: Op) {
    op !in {Seti, Gtir, Eqir}
  }

  predicate ReadsB(op: Op) {
    op in {Addr, Mulr, Banr, Borr, Gtir, Gtrr, Eqir, Eqrr}
  }

  /** The operand in the `r` or `i` position. */
  function Operand(r: Registers, x: I32, register: bool): Result<I32> {
    if register then Get(r, x) else Ok(x)
  }

  /** Kotlin's `Int.and` and `Int.or`: bitwise on the two's-complement bits. */
  function And(x: I32, y: I32): I32 {
    FromBits32(Bits32(x) & Bits32(y))
  }

  function Or(x: I32, y: I32): I32 {
    FromBits32(Bits32(x) | Bits32(y))
  }

  function Flag(b: bool): I32 {
    if b then 1 else 0
  }

  /** The value an operation writes into register `c`. */
  function Value(op: Op, r: Registers, args: Args): (v: Result<I32>)
    ensures v.Ok? <==> (ReadsA(op) ==> 0 <= args.a < |r|) && (ReadsB(op) ==> 0 <= args.b < |r|)
    ensures v.Err? ==> v == Err(IndexError)
    ensures v.Ok? && op in {Gtri, Gtir, Gtrr, Eqri, Eqir, Eqrr} ==> v.value in {0, 1}
    ensures v.Ok? && op == Seti ==> v.value == args.a
    ensures v.Ok? && op == Setr ==> v.value == r[args.a]
  {
    match Operand(r, args.a, ReadsA(op))
    case Err(e) => Err(e)
    case Ok(x) =>
      match Operand(r, args.b, ReadsB(op))
      case Err(e) => Err(e)
      case Ok(y) =>
        Ok(match op
          case Addr => Wrap32(x + y)
          case Addi => Wrap32(x + y)
          case Mulr => Wrap32(x * y)
          case Muli => Wrap32(x * y)
          case Banr => And(x, y)
          case Bani => And(x, y)
          case Borr => Or(x, y)
          case Bori => Or(x, y)
          case Setr => x
          case Seti => x
          case Gtri => Flag(x > y)
          case Gtir => Flag(x > y)
          case Gtrr => Flag(x > y)
          case Eqri => Flag(x == y)
          case Eqir => Flag(x == y)
          case Eqrr => Flag(x == y))
  }

  /** Runs one operation: register `c` takes its value and no other
      register changes. */
  function Run(op: Op, r: Registers, args: Args): (r': Result<Registers>)
    ensures r'.Ok? <==> Value(op, r, args).Ok? && 0 <= args.c < |r|
    ensures r'.Err? ==> r' == Err(IndexError)
    ensures r'.Ok? ==> |r'.value| == |r| && r'.value[args.c] == Value(op, r, args).value
    ensures r'.Ok? ==> forall i :: 0 <= i < |r| && i != args.c ==> r'.value[i] == r[i]
  {
    match Value(op, r, args)
    case Err(e) => Err(e)
    case Ok(v) => if 0 <= args.c < |r| then Ok(r[args.c := v]) else Err(IndexError)
  }

  /** The wrapped sum and product agree with the exact ones modulo 2^32. */
  lemma WrapIsModular(x: int)
    ensures (Wrap32(x) - x) % TwoTo32 == 0
  {
    var q := (x + TwoTo31) / TwoTo32;
    assert x + TwoTo31 == q * TwoTo32 + (x + TwoTo31) % TwoTo32;
    assert Wrap32(x) - x == -q * TwoTo32;
  }

  /** `seti`, `setr`: copying a value into the register that holds it
      changes nothing. */
  lemma CopyIntoSelf(r: Registers, i: I32)
    requires 0 <= i < |r|
    ensures Run(Setr, r, Args(i, 0, i)) == Ok(r)
    ensures Run(Seti, r, Args(r[i], 0, i)) == Ok(r)
  {
    assert r[i := r[i]] == r;
  }
}
