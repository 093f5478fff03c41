/** Polymer reduction: adjacent units of the same type and opposite
    polarity (the same letter in different case) annihilate; the reduction
    runs as a left fold with a stack. */
module Day5 {

  predicate IsUpper(c: char) {
    'A' <= c <= 'Z'
  }

  /** `Char.toLowerCase` on the ASCII letters. */
  function Lower(c: char): (r: char)
    ensures !IsUpper(r)
    ensures IsUpper(c) ==> 'a' <= r <= 'z' && r as int - c as int == 'a' as int - 'A' as int
    ensures !IsUpper(c) ==> r == c
  {
    if IsUpper(c) then (c as int + 32) as char else c
  }

  /** `reacts`: two units annihilate exactly when one is an upper-case letter
      and the other is its lower-case form. */
  predicate Reacts(x: char, y: char): (r: bool)
    ensures r <==> (IsUpper(x) && y as int == x as int + 32) || (IsUpper(y) && x as int == y as int + 32)
  {
    x != y && Lower(x) == Lower(y)
  }

  /** Reaction is symmetric and irreflexive, and it pairs an upper-case letter
      with its lower-case form and nothing else. */
  lemma ReactsMeaning(x: char, y: char)
    ensures Reacts(x, y) == Reacts(y, x)
    ensures !Reacts(x, x)
    ensures Reacts(x, y) <==> (IsUpper(x) && y as int == x as int + 32) || (IsUpper(y) && x as int == y as int + 32)
  {
  }

  /** One fold step: push `c`, unless it reacts with the top of the stack,
      in which case the top is popped. */
  function Push(stack: seq<char>, c: char): seq<char> {
    if stack == [] || !Reacts(stack[|stack| - 1], c) then stack + [c]
    else stack[..|stack| - 1]
  }

  /** Units `i` and `i + 1` do not react. */
  ghost predicate Calm(s: seq<char>, i: nat)
    requires i + 1 < |s|
  {
    !Reacts(s[i], s[i + 1])
  }

  /** No two adjacent units react. */
  ghost predicate Stable(s: seq<char>) {
    forall i: nat :: i + 1 < |s| ==> Calm(s, i)
  }

  lemma PushStable(stack: seq<char>, c: char)
    requires Stable(stack)
    ensures Stable(Push(stack, c))
  {
    var r := Push(stack, c);
    if stack == [] || !Reacts(stack[|stack| - 1], c) {
      forall i: nat | i + 1 < |r|
        ensures Calm(r, i)
      {
        if i + 1 < |stack| {
          assert Calm(stack, i);
        }
      }
    } else {
      forall i: nat | i + 1 < |r|
        ensures Calm(r, i)
      {
        assert Calm(stack, i);
      }
    }
  }

  /** The stack after folding `Push` over `s`. */
  function Reduce(s: seq<char>): (r: seq<char>)
    ensures |r| <= |s|
    ensures (|s| - |r|) % 2 == 0
    ensures Stable(r)
  {
    if s == [] then []
    else
      var stack := Reduce(s[..|s| - 1]);
      PushStable(stack, s[|s| - 1]);
      Push(stack, s[|s| - 1])
  }

  /** `runReactions`: the length of the fully reacted polymer. */
  function RunReactions(s: seq<char>): (r: nat)
    ensures r <= |s| && (|s| - r) % 2 == 0
  {
    |Reduce(s)|
  }

  /** A polymer with no reacting neighbours is left as it is. */
  lemma {:induction false} ReduceStable(t: seq<char>)
    requires Stable(t)
    ensures Reduce(t) == t
    decreases |t|
  {
    if t != [] {
      var init := t[..|t| - 1];
      assert Stable(init) by {
        forall i: nat | i + 1 < |init|
          ensures Calm(init, i)
        {
          assert Calm(t, i);
        }
      }
      ReduceStable(init);
      if |init| > 0 {
        assert Calm(t, |t| - 2);
      }
      assert init + [t[|t| - 1]] == t;
    }
  }

  /** Reducing again changes nothing. */
  lemma ReduceIdempotent(s: seq<char>)
    ensures Reduce(Reduce(s)) == Reduce(s)
  {
    ReduceStable(Reduce(s));
  }

  /** `removeUnits`: drops every unit of type `c`, keeping the rest in order. */
  function RemoveUnits(s: seq<char>, c: char): (r: seq<char>)
    ensures forall x :: x in r <==> x in s && Lower(x) != c
  {
    if s == [] then []
    else
      (if Lower(s[0]) != c then [s[0]] else []) + RemoveUnits(s[1..], c)
  }

  /** Each unit not of type `c` keeps its multiplicity; units of type `c` are gone. */
  lemma {:induction false} RemoveUnitsCount(s: seq<char>, c: char, x: char)
    ensures multiset(RemoveUnits(s, c))[x] == if Lower(x) == c then 0 else multiset(s)[x]
  {
    if s != [] {
      assert s == [s[0]] + s[1..];
      RemoveUnitsCount(s[1..], c, x);
    }
  }

  /** Order is kept: removal distributes over concatenation. */
  lemma {:induction false} RemoveUnitsConcat(s: seq<char>, t: seq<char>, c: char)
    ensures RemoveUnits(s + t, c) == RemoveUnits(s, c) + RemoveUnits(t, c)
  {
    if s != [] {
      assert (s + t)[1..] == s[1..] + t;
      RemoveUnitsConcat(s[1..], t, c);
    } else {
      assert s + t == t;
    }
  }

  /** The reduced length for the removed unit type `c`. */
  function Improved(s: seq<char>, c: char): nat {
    RunReactions(RemoveUnits(s, c))
  }

  /** The `k`-th lower-case letter. */
  function Letter(k: nat): char
    requires k < 26
  {
    ('a' as int + k) as char
  }

  /** The smallest `Improved(s, Letter(k))` over `k` in `0..n`. */
  function MinImproved(s: seq<char>, n: nat): (r: nat)
    requires n < 26
    ensures exists k :: 0 <= k <= n && r == Improved(s, Letter(k))
    ensures forall k :: 0 <= k <= n ==> r <= Improved(s, Letter(k))
  {
    if n == 0 then Improved(s, Letter(0))
    else
      var m := MinImproved(s, n - 1);
      if Improved(s, Letter(n)) < m then Improved(s, Letter(n)) else m
  }

  /** `part2`: the shortest polymer obtainable by removing one unit type
      'a'..'z'. */
  function Part2(s: seq<char>): (r: nat)
    ensures exists k :: 0 <= k < 26 && r == Improved(s, Letter(k))
    ensures forall k :: 0 <= k < 26 ==> r <= Improved(s, Letter(k))
  {
    MinImproved(s, 25)
  }
}
