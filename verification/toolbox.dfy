/** The sequence combinators of the shared toolbox: `scanl`, a fold that
    emits every accumulator, and `repeat`, the endless repetition of a
    sequence (modelled by its finite prefixes); the integer sum that
    several puzzles take of a list; and the longest line of a grid. */
module Toolbox {

  import Arith
  import opened Wrappers

  /** Left fold, the reference `scanl` is checked against. */
  function Fold<T, U>(s: seq<T>, acc: U, f: (U, T) -> U): U
    decreases |s|
  {
    if s == [] then acc else Fold(s[1..], f(acc, s[0]), f)
  }

  /** `scanl`: maps each element to the accumulator after absorbing it;
      the initial value itself is not emitted. */
  function Scanl<T, U>(s: seq<T>, acc: U, f: (U, T) -> U): (r: seq<U>)
    ensures |r| == |s|
    decreases |s|
  {
    if s == [] then [] else [f(acc, s[0])] + Scanl(s[1..], f(acc, s[0]), f)
  }

  lemma FoldSnoc<T, U>(s: seq<T>, x: T, acc: U, f: (U, T) -> U)
    ensures Fold(s + [x], acc, f) == f(Fold(s, acc, f), x)
    decreases |s|
  {
    if s != [] {
      assert (s + [x])[1..] == s[1..] + [x];
      FoldSnoc(s[1..], x, f(acc, s[0]), f);
    }
  }

  /** Element k of the scan is the fold of the first k+1 inputs. */
  lemma {:induction false} ScanlElement<T, U>(s: seq<T>, acc: U, f: (U, T) -> U, k: nat)
    requires k < |s|
    ensures Scanl(s, acc, f)[k] == Fold(s[..k + 1], acc, f)
    decreases |s|
  {
    if k > 0 {
      ScanlElement(s[1..], f(acc, s[0]), f, k - 1);
      assert s[..k + 1][1..] == s[1..][..k];
    }
  }

  /** The documented identity `scanl(i, f).last() == fold(i, f)`. */
  lemma ScanlLastIsFold<T, U>(s: seq<T>, acc: U, f: (U, T) -> U)
    requires s != []
    ensures Scanl(s, acc, f)[|s| - 1] == Fold(s, acc, f)
  {
    ScanlElement(s, acc, f, |s| - 1);
    assert s[..|s|] == s;
  }

  /** The first `copies` rounds of `s.repeat()`. */
  function Repeat<T>(s: seq<T>, copies: nat): (r: seq<T>)
    ensures |r| == copies * |s|
  {
    if copies == 0 then [] else s + Repeat(s, copies - 1)
  }

  /** Element k of the repetition is `s[k mod |s|]`. */
  lemma {:induction false} RepeatIndex<T>(s: seq<T>, copies: nat, k: nat)
    requires s != [] && k < copies * |s|
    ensures Repeat(s, copies)[k] == s[k % |s|]
  {
    var n := |s|;
    var rest := Repeat(s, copies - 1);
    assert Repeat(s, copies) == s + rest;
    if k >= n {
      assert (copies - 1) * n == copies * n - n by {
        assert (copies - 1) * n == copies * n - 1 * n;
      }
      assert Repeat(s, copies)[k] == rest[k - n];
      RepeatIndex(s, copies - 1, k - n);
      Arith.ModShift(k - n, n);
    } else {
      Arith.DivModUnique(k, n, 0, k);
      assert Repeat(s, copies)[k] == s[k];
    }
  }

  /** `sum()` of a list of integers. */
  function Sum(s: seq<int>): int {
    if s == [] then 0 else s[0] + Sum(s[1..])
  }

  lemma {:induction false} SumConcat(a: seq<int>, b: seq<int>)
    ensures Sum(a + b) == Sum(a) + Sum(b)
  {
    if a != [] {
      assert (a + b)[1..] == a[1..] + b;
      SumConcat(a[1..], b);
    } else {
      assert a + b == b;
    }
  }

  /** The length of the longest row, for the parsers that size a grid by
      `max()` of the line lengths. */
  function MaxLength<T>(rows: seq<seq<T>>): nat
    requires rows != []
  {
    if |rows| == 1 then |rows[0]|
    else var m := MaxLength(rows[..|rows| - 1]); if |rows[|rows| - 1]| > m then |rows[|rows| - 1]| else m
  }

  /** No row is longer, and some row is that long. */
  lemma {:induction false} MaxLengthIsMax<T>(rows: seq<seq<T>>)
    requires rows != []
    ensures forall y :: 0 <= y < |rows| ==> |rows[y]| <= MaxLength(rows)
    ensures exists y :: 0 <= y < |rows| && |rows[y]| == MaxLength(rows)
  {
    if |rows| > 1 {
      var init := rows[..|rows| - 1];
      MaxLengthIsMax(init);
      assert forall y :: 0 <= y < |init| ==> rows[y] == init[y];
      var y :| 0 <= y < |init| && |init[y]| == MaxLength(init);
      assert |rows[y]| == MaxLength(init);
      var last := |rows| - 1;
      if |rows[last]| > MaxLength(init) {
        assert |rows[last]| == MaxLength(rows);
      } else {
        assert |rows[y]| == MaxLength(rows);
      }
    } else {
      assert |rows[0]| == MaxLength(rows);
    }
  }

  /** `n` applications of `f`. */
  function Iterate<T>(f: T -> T, x: T, n: nat): T {
    if n == 0 then x else f(Iterate(f, x, n - 1))
  }

  lemma {:induction false} IterateAdd<T>(f: T -> T, x: T, n: nat, m: nat)
    ensures Iterate(f, x, n + m) == Iterate(f, Iterate(f, x, n), m)
  {
    if m > 0 {
      IterateAdd(f, x, n, m - 1);
    }
  }

  /** `n` applications of a step that may fail; the first failure ends the
      run (no steps at all for `n <= 0`). */
  function IterateResult<T>(step: T -> Result<T>, x: T, n: int): Result<T>
    decreases n
  {
    if n <= 0 then Ok(x)
    else
      match step(x)
      case Err(e) => Err(e)
      case Ok(y) => IterateResult(step, y, n - 1)
  }

  /** `m` more steps after the outcome `r`, unless `r` failed. */
  function ContinueResult<T>(step: T -> Result<T>, r: Result<T>, m: nat): Result<T> {
    match r
    case Err(e) => Err(e)
    case Ok(y) => IterateResult(step, y, m)
  }

  /** `n` steps and then `m` are `n + m` steps. */
  lemma {:induction false} IterateResultAdd<T>(step: T -> Result<T>, x: T, n: nat, m: nat)
    ensures IterateResult(step, x, n + m) == ContinueResult(step, IterateResult(step, x, n), m)
    decreases n
  {
    if n > 0 && step(x).Ok? {
      IterateResultAdd(step, step(x).value, n - 1, m);
    }
  }

  /** A subset is no larger than its superset, and a proper subset is
      strictly smaller. */
  lemma {:induction false} SubsetSize<T>(a: set<T>, b: set<T>)
    requires a <= b
    ensures |a| <= |b|
    ensures a < b ==> |a| < |b|
    decreases |a|
  {
    if a != {} {
      var x :| x in a;
      SubsetSize(a - {x}, b - {x});
      if a < b {
        var y :| y in b && y !in a;
        assert y in b - {x};
      }
    } else if a < b {
      var y :| y in b;
    }
  }
}
