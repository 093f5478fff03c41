/** The recipe scoreboard: two elves combine their current recipes, the
    digits of the sum are appended, and each elf steps forward. */
module Day14 {

  import opened Wrappers

  predicate IsDigit(d: int) {
    0 <= d <= 9
  }

  predicate AllDigits(s: seq<int>) {
    forall i :: 0 <= i < |s| ==> IsDigit(s[i])
  }

  /** The decimal digits of a number below 100, without a leading zero. */
  function Digits(n: int): (ds: seq<int>)
    requires 0 <= n < 100
    ensures 1 <= |ds| <= 2 && AllDigits(ds)
    ensures |ds| == 1 <==> n < 10
    ensures |ds| == 2 ==> ds[0] != 0
  {
    if n < 10 then [n] else [n / 10, n % 10]
  }

  /** The number a sequence of decimal digits spells. */
  function Value(ds: seq<int>): int
    decreases |ds|
  {
    if ds == [] then 0 else 10 * Value(ds[..|ds| - 1]) + ds[|ds| - 1]
  }

  /** Reading the digits back gives the number. */
  lemma DigitsRoundTrip(n: int)
    requires 0 <= n < 100
    ensures Value(Digits(n)) == n
  {
    if n >= 10 {
      var ds := Digits(n);
      assert ds[..1] == [n / 10];
      assert Value([n / 10]) == n / 10 by {
        assert [n / 10][..0] == [];
      }
    } else {
      assert [n][..0] == [];
    }
  }

  datatype Board = Board(scores: seq<int>, elf1: int, elf2: int)

  /** Both elves stand on a recipe and every recipe scores one digit. */
  predicate Valid(b: Board) {
    AllDigits(b.scores) && 0 <= b.elf1 < |b.scores| && 0 <= b.elf2 < |b.scores|
  }

  /** The scoreboard `[3, 7]` with the elves on its two recipes. */
  function Start(): (b: Board)
    ensures Valid(b) && |b.scores| == 2
  {
    Board([3, 7], 0, 1)
  }

  /** One pass of the loop: append the digits of the two current scores'
      sum, then move each elf `1 + score` recipes on, wrapping round the
      new length. */
  function Step(b: Board): (r: Board)
    requires Valid(b)
    ensures Valid(r)
    ensures var sum := b.scores[b.elf1] + b.scores[b.elf2];
      r.scores == b.scores + Digits(sum) && Value(r.scores[|b.scores|..]) == sum
    ensures |b.scores| + 1 <= |r.scores| <= |b.scores| + 2
    ensures r.elf1 == (b.elf1 + 1 + b.scores[b.elf1]) % |r.scores|
    ensures r.elf2 == (b.elf2 + 1 + b.scores[b.elf2]) % |r.scores|
  {
    var sum := b.scores[b.elf1] + b.scores[b.elf2];
    var scores := b.scores + Digits(sum);
    assert scores[|b.scores|..] == Digits(sum);
    DigitsRoundTrip(sum);
    Board(scores, (b.elf1 + 1 + b.scores[b.elf1]) % |scores|, (b.elf2 + 1 + b.scores[b.elf2]) % |scores|)
  }

  /** Steps until the board holds at least `target` recipes. */
  function Grow(b: Board, target: int): (r: Board)
    requires Valid(b)
    ensures Valid(r) && |b.scores| <= |r.scores| && b.scores == r.scores[..|b.scores|]
    ensures |r.scores| >= target
    ensures |b.scores| < target ==> |r.scores| <= target + 1
    decreases target - |b.scores|
  {
    if |b.scores| >= target then b else Grow(Step(b), target)
  }

  function DigitChar(d: int): (c: char)
    requires IsDigit(d)
    ensures '0' <= c <= '9' && c as int - '0' as int == d
  {
    ('0' as int + d) as char
  }

  /** `part1`: the ten scores after the first `make` recipes, as text; a
      negative `make` makes the source index outside its buffer. */
  function Part1(make: int): (r: Result<string>)
    ensures r.Err? <==> make < 0
    ensures r.Ok? ==> |r.value| == 10 && forall i :: 0 <= i < 10 ==> '0' <= r.value[i] <= '9'
    ensures r.Ok? ==> var board := Grow(Start(), make + 10).scores;
      forall i :: 0 <= i < 10 ==> r.value[i] == DigitChar(board[make + i])
  {
    if make < 0 then Err("IndexOutOfBoundsException")
    else Ok(Text(Grow(Start(), make + 10).scores[make..make + 10]))
  }

  /** `joinToString("")` of a run of digits. */
  function Text(ds: seq<int>): (t: string)
    requires AllDigits(ds)
    ensures |t| == |ds| && forall i :: 0 <= i < |ds| ==> t[i] == DigitChar(ds[i])
  {
    seq(|ds|, i requires 0 <= i < |ds| => DigitChar(ds[i]))
  }

  /** The loop of `part1` over the buffer of `make + 20` cells: it never
      writes past `make + 11` cells, so the buffer suffices, and it ends with
      the same board as the step-by-step definition. */
  method Scoreboard(make: nat) returns (board: seq<int>)
    ensures board == Grow(Start(), make + 10).scores
    ensures make + 10 <= |board| <= make + 11 < make + 20
  {
    var b := Start();
    while |b.scores| < make + 10
      invariant Valid(b) && |b.scores| <= make + 11
      invariant Grow(b, make + 10) == Grow(Start(), make + 10)
      decreases make + 10 - |b.scores|
    {
      b := Step(b);
    }
    board := b.scores;
  }

  /** The scoreboard of the puzzle's own example, one step in. */
  lemma FirstStep()
    ensures Step(Start()) == Board([3, 7, 1, 0], 0, 1)
  {
  }
}
