/** Step ordering: a topological sort of "before must finish before after"
    instructions, repeatedly emitting an available step, where available
    means every step it waits for has been emitted. Names are modelled as
    single characters, compared by code. */
module Day7 {

  datatype Instruction = Instruction(before: char, after: char)

  ghost predicate Distinct<T>(s: seq<T>) {
    forall i, j :: 0 <= i < j < |s| ==> s[i] != s[j]
  }

  // ---------------------------------------------------------------------
  // Names
  // ---------------------------------------------------------------------

  /** Keeps the first occurrence of every element. */
  function Dedup(s: seq<char>, seen: set<char>): (r: seq<char>)
    ensures forall x :: x in r <==> x in s && x !in seen
    ensures Distinct(r)
  {
    if s == [] then []
    else if s[0] in seen then Dedup(s[1..], seen)
    else [s[0]] + Dedup(s[1..], seen + {s[0]})
  }

  function Befores(input: seq<Instruction>): (r: seq<char>)
    ensures forall x :: x in r <==> exists e :: e in input && e.before == x
  {
    if input == [] then [] else [input[0].before] + Befores(input[1..])
  }

  function Afters(input: seq<Instruction>): (r: seq<char>)
    ensures forall x :: x in r <==> exists e :: e in input && e.after == x
  {
    if input == [] then [] else [input[0].after] + Afters(input[1..])
  }

  ghost predicate Named(input: seq<Instruction>, x: char) {
    exists e :: e in input && (e.before == x || e.after == x)
  }

  /** `allNames`: every name, in order of first appearance (all befores, then all afters). */
  function AllNames(input: seq<Instruction>): (r: seq<char>)
    ensures forall x :: x in r <==> Named(input, x)
    ensures Distinct(r)
  {
    Dedup(Befores(input) + Afters(input), {})
  }

  function Without(s: seq<char>, drop: seq<char>): (r: seq<char>)
    ensures forall x :: x in r <==> x in s && x !in drop
    ensures Distinct(s) ==> Distinct(r)
  {
    if s == [] then []
    else if s[0] in drop then Without(s[1..], drop)
    else [s[0]] + Without(s[1..], drop)
  }

  /** `initials`: the names that are never an `after`, in first-appearance order. */
  function Initials(input: seq<Instruction>): (r: seq<char>)
    ensures forall x :: x in r <==> IsAvailable(input, [], x)
    ensures Distinct(r)
  {
    Without(AllNames(input), Afters(input))
  }

  // ---------------------------------------------------------------------
  // Availability: the reference notion of a step that may run next
  // ---------------------------------------------------------------------

  /** `x` is a step not yet emitted whose every predecessor has been emitted. */
  ghost predicate IsAvailable(input: seq<Instruction>, emitted: seq<char>, x: char) {
    && Named(input, x)
    && x !in emitted
    && forall e :: e in input && e.after == x ==> e.before in emitted
  }

  /** `x` is available and no available step is alphabetically smaller. */
  ghost predicate SmallestAvailable(input: seq<Instruction>, emitted: seq<char>, x: char) {
    IsAvailable(input, emitted, x) && forall y :: IsAvailable(input, emitted, y) ==> x <= y
  }

  /** Every emitted step was available when it was emitted. */
  ghost predicate EmittedWhenAvailable(input: seq<Instruction>, r: seq<char>) {
    forall i :: 0 <= i < |r| ==> IsAvailable(input, r[..i], r[i])
  }

  // ---------------------------------------------------------------------
  // Sorting names
  // ---------------------------------------------------------------------

  ghost predicate Sorted(s: seq<char>) {
    forall i, j :: 0 <= i < j < |s| ==> s[i] <= s[j]
  }

  function Insert(x: char, s: seq<char>): (r: seq<char>)
    requires Sorted(s)
    ensures Sorted(r) && multiset(r) == multiset(s) + multiset{x}
  {
    if s == [] || x <= s[0] then
      BelowHead(x, s);
      ConsSorted(x, s);
      [x] + s
    else
      SortedTail(s);
      var rest := Insert(x, s[1..]);
      BelowHead(s[0], s);
      ConsSorted(s[0], rest);
      assert s == [s[0]] + s[1..];
      assert multiset([s[0]] + rest) == multiset{s[0]} + multiset(rest);
      [s[0]] + rest
  }

  lemma SortedTail(s: seq<char>)
    requires Sorted(s) && s != []
    ensures Sorted(s[1..])
  {
    forall i, j | 0 <= i < j < |s[1..]| ensures s[1..][i] <= s[1..][j] {
      assert s[1..][i] == s[i + 1] && s[1..][j] == s[j + 1];
    }
  }

  /** A value at most the head of a sorted sequence is at most all of it
      but the head, and all of it when it is at most the head itself. */
  lemma BelowHead(lo: char, s: seq<char>)
    requires Sorted(s) && (s == [] || lo <= s[0])
    ensures forall y :: y in multiset(s) ==> lo <= y
    ensures s != [] ==> forall y :: y in multiset(s[1..]) ==> lo <= y
  {
    forall y | y in multiset(s) ensures lo <= y {
      var m :| 0 <= m < |s| && s[m] == y;
    }
    if s != [] {
      forall y | y in multiset(s[1..]) ensures lo <= y {
        var m :| 0 <= m < |s[1..]| && s[1..][m] == y;
        assert s[m + 1] == y;
      }
    }
  }

  /** A sorted sequence stays sorted under a head no larger than any of it. */
  lemma ConsSorted(lo: char, t: seq<char>)
    requires Sorted(t) && forall y :: y in multiset(t) ==> lo <= y
    ensures Sorted([lo] + t)
  {
    forall k | 0 <= k < |t| ensures lo <= t[k] {
      assert t[k] in multiset(t);
    }
    var r := [lo] + t;
    forall i, j | 0 <= i < j < |r| ensures r[i] <= r[j] {
      assert r[j] == t[j - 1];
      if i > 0 {
        assert r[i] == t[i - 1];
      }
    }
  }

  /** `sorted()` on names. */
  function SortNames(s: seq<char>): (r: seq<char>)
    ensures Sorted(r) && multiset(r) == multiset(s)
  {
    if s == [] then []
    else
      assert s == [s[0]] + s[1..];
      Insert(s[0], SortNames(s[1..]))
  }

  // ---------------------------------------------------------------------
  // The recursive sort
  // ---------------------------------------------------------------------

  /** The instructions leaving `n` (`partition(from(n))`, first half). */
  function From(g: seq<Instruction>, n: char): (r: seq<Instruction>)
    ensures forall e :: e in r <==> e in g && e.before == n
    ensures Distinct(g) ==> Distinct(r)
  {
    if g == [] then [] else (if g[0].before == n then [g[0]] else []) + From(g[1..], n)
  }

  /** The instructions not leaving `n` (second half of the partition). */
  function NotFrom(g: seq<Instruction>, n: char): (r: seq<Instruction>)
    ensures forall e :: e in r <==> e in g && e.before != n
    ensures Distinct(g) ==> Distinct(r)
    ensures |r| + |From(g, n)| == |g|
  {
    if g == [] then [] else (if g[0].before != n then [g[0]] else []) + NotFrom(g[1..], n)
  }

  predicate NoneTo(g: seq<Instruction>, x: char) {
    forall e :: e in g ==> e.after != x
  }

  /** The targets of `edges` that have no remaining instruction into them. */
  function Freed(edges: seq<Instruction>, g: seq<Instruction>): (r: seq<char>)
    ensures |r| <= |edges|
    ensures forall x :: x in r <==> NoneTo(g, x) && exists e :: e in edges && e.after == x
  {
    if edges == [] then []
    else (if NoneTo(g, edges[0].after) then [edges[0].after] else []) + Freed(edges[1..], g)
  }

  /** The stack after emitting `stack[0]`: the rest plus the freed steps, sorted. */
  function NextStack(graph: seq<Instruction>, stack: seq<char>): (r: seq<char>)
    requires stack != []
    ensures |r| <= |stack| - 1 + |From(graph, stack[0])|
  {
    var next := Freed(From(graph, stack[0]), NotFrom(graph, stack[0]));
    var r := SortNames(stack[1..] + next);
    assert |r| == |stack| - 1 + |next| by {
      assert |multiset(r)| == |multiset(stack[1..] + next)|;
    }
    r
  }

  /** `sort`: emit the first step of the stack, drop its instructions, push
      the steps this frees, and keep the stack sorted. */
  function SortSteps(graph: seq<Instruction>, stack: seq<char>, result: seq<char>): (r: seq<char>)
    decreases |graph| + |stack|
  {
    if stack == [] then result
    else SortSteps(NotFrom(graph, stack[0]), NextStack(graph, stack), result + [stack[0]])
  }

  lemma {:induction false} SortStepsExtends(graph: seq<Instruction>, stack: seq<char>, result: seq<char>)
    ensures |SortSteps(graph, stack, result)| >= |result|
    ensures SortSteps(graph, stack, result)[..|result|] == result
    ensures stack != [] ==> |SortSteps(graph, stack, result)| > |result| && SortSteps(graph, stack, result)[|result|] == stack[0]
    decreases |graph| + |stack|
  {
    if stack != [] {
      var result' := result + [stack[0]];
      SortStepsExtends(NotFrom(graph, stack[0]), NextStack(graph, stack), result');
      var r := SortSteps(graph, stack, result);
      assert r[..|result'|] == result';
      assert r[..|result|] == r[..|result'|][..|result|];
      assert r[|result|] == r[..|result'|][|result|];
    }
  }

  /** What holds of every call of `SortSteps` made from a topological sort. */
  ghost predicate Invariant(input: seq<Instruction>, graph: seq<Instruction>, stack: seq<char>, result: seq<char>) {
    && Distinct(input)
    && Distinct(graph)
    && (forall e :: e in graph <==> e in input && e.before !in result)
    && Distinct(stack)
    && (forall x :: x in stack <==> IsAvailable(input, result, x))
    && EmittedWhenAvailable(input, result)
  }

  /** A repeated element occurs at least twice in the multiset. */
  lemma RepeatCounts(t: seq<char>, i: nat, j: nat)
    requires i < j < |t| && t[i] == t[j]
    ensures multiset(t)[t[i]] >= 2
  {
    var a := t[..j];
    assert t == a + [t[j]] + t[j + 1..];
    assert t[i] == a[i];
    assert t[i] in multiset(a);
    assert multiset(t) == multiset(a) + multiset{t[j]} + multiset(t[j + 1..]);
  }

  lemma {:induction false} MultiplicityAtMostOne(s: seq<char>, x: char)
    requires Distinct(s)
    ensures multiset(s)[x] <= 1
  {
    if s != [] {
      assert s == [s[0]] + s[1..];
      assert Distinct(s[1..]);
      MultiplicityAtMostOne(s[1..], x);
      assert s[0] == x ==> x !in s[1..];
    }
  }

  lemma DistinctSorted(s: seq<char>, t: seq<char>)
    requires Distinct(s) && multiset(t) == multiset(s)
    ensures Distinct(t)
  {
    forall i, j | 0 <= i < j < |t|
      ensures t[i] != t[j]
    {
      MultiplicityAtMostOne(s, t[i]);
      if t[i] == t[j] {
        RepeatCounts(t, i, j);
        assert false;
      }
    }
  }

  lemma DistinctConcat(a: seq<char>, b: seq<char>)
    requires Distinct(a) && Distinct(b) && forall x :: x in a ==> x !in b
    ensures Distinct(a + b)
  {
    forall i, j | 0 <= i < j < |a + b|
      ensures (a + b)[i] != (a + b)[j]
    {
      if j < |a| {
        assert (a + b)[i] == a[i] && (a + b)[j] == a[j];
      } else if i < |a| {
        assert (a + b)[i] == a[i] && (a + b)[j] == b[j - |a|];
        assert a[i] in a && b[j - |a|] in b;
      } else {
        assert (a + b)[i] == b[i - |a|] && (a + b)[j] == b[j - |a|];
      }
    }
  }

  /** The targets freed by one step are distinct when the instructions are. */
  lemma {:induction false} FreedDistinct(edges: seq<Instruction>, g: seq<Instruction>, n: char)
    requires Distinct(edges) && forall e :: e in edges ==> e.before == n
    ensures Distinct(Freed(edges, g))
  {
    if edges != [] {
      assert Distinct(edges[1..]);
      FreedDistinct(edges[1..], g, n);
      if NoneTo(g, edges[0].after) {
        forall e | e in edges[1..]
          ensures e.after != edges[0].after
        {
          var k :| 0 <= k < |edges[1..]| && edges[1..][k] == e;
          assert edges[k + 1] != edges[0];
        }
        DistinctConcat([edges[0].after], Freed(edges[1..], g));
      }
    }
  }

  lemma StepGraph(input: seq<Instruction>, graph: seq<Instruction>, result: seq<char>, step: char)
    requires Distinct(graph) && forall e :: e in graph <==> e in input && e.before !in result
    ensures Distinct(NotFrom(graph, step))
    ensures forall e :: e in NotFrom(graph, step) <==> e in input && e.before !in result + [step]
  {
    forall e
      ensures e in NotFrom(graph, step) <==> e in input && e.before !in result + [step]
    {
      assert e.before in result + [step] <==> e.before in result || e.before == step;
    }
  }

  /** The steps freed by emitting `stack[0]` were not available before and are now. */
  lemma StepFreed(input: seq<Instruction>, graph: seq<Instruction>, stack: seq<char>, result: seq<char>)
    requires Invariant(input, graph, stack, result) && stack != []
    ensures forall x :: x in Freed(From(graph, stack[0]), NotFrom(graph, stack[0])) ==>
      IsAvailable(input, result + [stack[0]], x) && !IsAvailable(input, result, x)
  {
    var step := stack[0];
    var result' := result + [step];
    var graph' := NotFrom(graph, step);
    var edges := From(graph, step);
    assert IsAvailable(input, result, step);
    StepGraph(input, graph, result, step);
    forall x | x in Freed(edges, graph')
      ensures IsAvailable(input, result', x) && !IsAvailable(input, result, x)
    {
      var e :| e in edges && e.after == x;
      assert e in input && e.before == step;
      assert x !in result by {
        forall i | 0 <= i < |result|
          ensures result[i] != x
        {
          assert IsAvailable(input, result[..i], result[i]);
          assert step !in result[..i];
        }
      }
      forall e' | e' in input && e'.after == x
        ensures e'.before in result'
      {
        assert e'.before !in result' ==> e' in graph';
      }
    }
  }

  lemma SortNamesMembers(t: seq<char>, x: char)
    ensures x in SortNames(t) <==> x in t
  {
    assert x in SortNames(t) <==> x in multiset(SortNames(t));
  }

  lemma AvailableStays(input: seq<Instruction>, result: seq<char>, step: char, x: char)
    requires IsAvailable(input, result, x) && x != step
    ensures IsAvailable(input, result + [step], x)
  {
  }

  /** Every step on the new stack is available. */
  lemma StackSound(input: seq<Instruction>, graph: seq<Instruction>, stack: seq<char>, result: seq<char>, x: char)
    requires Invariant(input, graph, stack, result) && stack != []
    requires x in NextStack(graph, stack)
    ensures IsAvailable(input, result + [stack[0]], x)
  {
    var next := Freed(From(graph, stack[0]), NotFrom(graph, stack[0]));
    SortNamesMembers(stack[1..] + next, x);
    if x in stack[1..] {
      var k :| 0 <= k < |stack[1..]| && stack[1..][k] == x;
      assert stack[k + 1] == x && stack[0] != stack[k + 1];
      AvailableStays(input, result, stack[0], x);
    } else {
      StepFreed(input, graph, stack, result);
    }
  }

  /** Every available step is on the new stack. */
  lemma StackComplete(input: seq<Instruction>, graph: seq<Instruction>, stack: seq<char>, result: seq<char>, x: char)
    requires Invariant(input, graph, stack, result) && stack != []
    requires IsAvailable(input, result + [stack[0]], x)
    ensures x in NextStack(graph, stack)
  {
    var step := stack[0];
    var graph' := NotFrom(graph, step);
    var edges := From(graph, step);
    var next := Freed(edges, graph');
    SortNamesMembers(stack[1..] + next, x);
    if IsAvailable(input, result, x) {
      assert x in stack && x != step;
      assert x in stack[1..];
    } else {
      var e :| e in input && e.after == x && e.before !in result;
      assert e in graph && e.before == step;
      assert e in edges;
      StepGraph(input, graph, result, step);
      assert NoneTo(graph', x);
      assert x in next;
    }
  }

  /** The stack after one step is exactly the steps then available. */
  lemma StepStack(input: seq<Instruction>, graph: seq<Instruction>, stack: seq<char>, result: seq<char>)
    requires Invariant(input, graph, stack, result) && stack != []
    ensures Distinct(NextStack(graph, stack))
    ensures forall x :: x in NextStack(graph, stack) <==> IsAvailable(input, result + [stack[0]], x)
  {
    StepStackDistinct(input, graph, stack, result);
    forall x
      ensures x in NextStack(graph, stack) <==> IsAvailable(input, result + [stack[0]], x)
    {
      if x in NextStack(graph, stack) {
        StackSound(input, graph, stack, result, x);
      }
      if IsAvailable(input, result + [stack[0]], x) {
        StackComplete(input, graph, stack, result, x);
      }
    }
  }

  lemma StepStackDistinct(input: seq<Instruction>, graph: seq<Instruction>, stack: seq<char>, result: seq<char>)
    requires Invariant(input, graph, stack, result) && stack != []
    ensures Distinct(NextStack(graph, stack))
  {
    var step := stack[0];
    var graph' := NotFrom(graph, step);
    var edges := From(graph, step);
    var next := Freed(edges, graph');
    StepFreed(input, graph, stack, result);
    FreedDistinct(edges, graph', step);
    assert Distinct(stack[1..]);
    assert forall x :: x in stack[1..] ==> IsAvailable(input, result, x) by {
      forall x | x in stack[1..]
        ensures IsAvailable(input, result, x)
      {
        assert x in stack;
      }
    }
    DistinctConcat(stack[1..], next);
    DistinctSorted(stack[1..] + next, NextStack(graph, stack));
  }

  lemma StepHistory(input: seq<Instruction>, result: seq<char>, step: char)
    requires EmittedWhenAvailable(input, result) && IsAvailable(input, result, step)
    ensures EmittedWhenAvailable(input, result + [step])
  {
    var result' := result + [step];
    assert result'[..|result|] == result;
    forall i | 0 <= i < |result'|
      ensures IsAvailable(input, result'[..i], result'[i])
    {
      if i < |result| {
        assert result'[..i] == result[..i];
      }
    }
  }

  /** One step of `sort` keeps the invariant. */
  lemma StepKeepsInvariant(input: seq<Instruction>, graph: seq<Instruction>, stack: seq<char>, result: seq<char>)
    requires Invariant(input, graph, stack, result) && stack != []
    ensures Invariant(input, NotFrom(graph, stack[0]), NextStack(graph, stack), result + [stack[0]])
  {
    StepGraph(input, graph, result, stack[0]);
    StepStack(input, graph, stack, result);
    StepHistory(input, result, stack[0]);
  }

  /** `sort` emits every step when it is available, and stops only when no
      step is available any more. */
  lemma {:induction false} SortStepsHistory(input: seq<Instruction>, graph: seq<Instruction>, stack: seq<char>, result: seq<char>)
    requires Invariant(input, graph, stack, result)
    ensures EmittedWhenAvailable(input, SortSteps(graph, stack, result))
    ensures forall x :: !IsAvailable(input, SortSteps(graph, stack, result), x)
    decreases |graph| + |stack|
  {
    if stack != [] {
      StepKeepsInvariant(input, graph, stack, result);
      SortStepsHistory(input, NotFrom(graph, stack[0]), NextStack(graph, stack), result + [stack[0]]);
    } else {
      forall x
        ensures !IsAvailable(input, result, x)
      {
        assert x !in stack;
      }
    }
  }

  /** The head of a sorted stack of exactly the available steps is the smallest one. */
  lemma FirstIsSmallest(input: seq<Instruction>, graph: seq<Instruction>, stack: seq<char>, result: seq<char>)
    requires Invariant(input, graph, stack, result) && stack != [] && Sorted(stack)
    ensures SmallestAvailable(input, result, stack[0])
  {
    forall y | IsAvailable(input, result, y)
      ensures stack[0] <= y
    {
      assert y in stack;
    }
  }

  /** After the first step, every step `sort` emits is the smallest available one. */
  lemma {:induction false} SortStepsSmallest(input: seq<Instruction>, graph: seq<Instruction>, stack: seq<char>, result: seq<char>)
    requires Invariant(input, graph, stack, result)
    ensures var r := SortSteps(graph, stack, result);
      forall i :: |result| < i < |r| ==> SmallestAvailable(input, r[..i], r[i])
    decreases |graph| + |stack|
  {
    if stack != [] {
      var graph' := NotFrom(graph, stack[0]);
      var stack' := NextStack(graph, stack);
      var result' := result + [stack[0]];
      StepKeepsInvariant(input, graph, stack, result);
      SortStepsSmallest(input, graph', stack', result');
      SortStepsExtends(graph', stack', result');
      var r := SortSteps(graph, stack, result);
      assert r == SortSteps(graph', stack', result');
      forall i | |result| < i < |r|
        ensures SmallestAvailable(input, r[..i], r[i])
      {
        if i == |result'| {
          FirstIsSmallest(input, graph', stack', result');
          assert r[..i] == result';
        }
      }
    }
  }

  lemma InitialInvariant(input: seq<Instruction>, stack: seq<char>)
    requires Distinct(input) && Distinct(stack)
    requires forall x :: x in stack <==> IsAvailable(input, [], x)
    ensures Invariant(input, input, stack, [])
  {
  }

  /** What `sort` guarantees when started from the available steps, for
      instructions without repeats: the order respects every instruction,
      is the smallest choice after its first step, ends with nothing left
      available, emits each named step at most once, and emits every named
      step exactly when the instructions have no cycle. */
  lemma OrderSpec(input: seq<Instruction>, stack: seq<char>)
    requires Distinct(stack)
    requires forall x :: x in stack <==> IsAvailable(input, [], x)
    ensures var r := SortSteps(input, stack, []);
      Distinct(input) ==>
      && EmittedWhenAvailable(input, r)
      && (forall i :: 0 < i < |r| ==> SmallestAvailable(input, r[..i], r[i]))
      && (forall x :: !IsAvailable(input, r, x))
      && (Sorted(stack) && |r| > 0 ==> SmallestAvailable(input, [], r[0]))
      && Distinct(r) && (forall x :: x in r ==> x in AllNames(input))
      && (Acyclic(input) <==> forall x :: x in AllNames(input) ==> x in r)
  {
    if Distinct(input) {
      InitialInvariant(input, stack);
      SortStepsHistory(input, input, stack, []);
      SortStepsSmallest(input, input, stack, []);
      SortStepsExtends(input, stack, []);
      if stack != [] && Sorted(stack) {
        FirstIsSmallest(input, input, stack, []);
      }
      OrderComplete(input, SortSteps(input, stack, []));
    }
  }

  /** `topologicalOrder` as written: the initial stack is the initials in
      their order of first appearance, not sorted. */
  function TopologicalOrderAsWritten(input: seq<Instruction>): (r: seq<char>)
    ensures Distinct(input) ==> EmittedWhenAvailable(input, r)
    ensures Distinct(input) ==> forall i :: 0 < i < |r| ==> SmallestAvailable(input, r[..i], r[i])
    ensures Distinct(input) ==> forall x :: !IsAvailable(input, r, x)
    ensures Distinct(input) ==> Distinct(r) && forall x :: x in r ==> x in AllNames(input)
    ensures Distinct(input) ==> (Acyclic(input) <==> forall x :: x in AllNames(input) ==> x in r)
  {
    OrderSpec(input, Initials(input));
    SortSteps(input, Initials(input), [])
  }

  lemma DedupExample()
    ensures Dedup("CBAA", {}) == "CBA"
  {
    assert Dedup("A", {'C', 'B', 'A'}) == [];
    assert Dedup("AA", {'C', 'B'}) == "A";
    assert "BAA"[1..] == "AA" && {'C'} + {'B'} == {'C', 'B'};
    assert Dedup("BAA", {'C'}) == "BA";
    assert "CBAA"[1..] == "BAA" && {} + {'C'} == {'C'};
  }

  lemma WithoutExample()
    ensures Without("CBA", "AA") == "CB"
  {
    assert Without("A", "AA") == [];
    assert "BA"[1..] == "A";
    assert Without("BA", "AA") == "B";
    assert "CBA"[1..] == "BA";
  }

  lemma NamesExample()
    ensures Initials([Instruction('C', 'A'), Instruction('B', 'A')]) == "CB"
  {
    var input := [Instruction('C', 'A'), Instruction('B', 'A')];
    assert input[1..] == [Instruction('B', 'A')];
    assert Befores(input) == "CB";
    assert Afters(input) == "AA";
    assert Befores(input) + Afters(input) == "CBAA";
    DedupExample();
    WithoutExample();
  }

  /** Emitting `a` from two instructions into `z` leaves the other
      instruction and frees nothing. */
  lemma EmitFirstOfTwo(a: char, b: char, z: char)
    requires a != b
    ensures var g := [Instruction(a, z), Instruction(b, z)];
      NotFrom(g, a) == [Instruction(b, z)] && NextStack(g, [a, b]) == [b]
  {
    var g := [Instruction(a, z), Instruction(b, z)];
    assert g[1..] == [Instruction(b, z)];
    assert NotFrom(g, a) == [Instruction(b, z)];
    assert From(g, a) == [Instruction(a, z)];
    assert Freed([Instruction(a, z)], [Instruction(b, z)]) == [];
    assert [b] + [] == [b];
  }

  /** Emitting `b` first is the same with the roles swapped. */
  lemma EmitSecondOfTwo(a: char, b: char, z: char)
    requires a != b
    ensures var g := [Instruction(a, z), Instruction(b, z)];
      NotFrom(g, b) == [Instruction(a, z)] && NextStack(g, [b, a]) == [a]
  {
    var g := [Instruction(a, z), Instruction(b, z)];
    assert g[1..] == [Instruction(b, z)];
    assert NotFrom(g, b) == [Instruction(a, z)];
    assert From(g, b) == [Instruction(b, z)];
    assert Freed([Instruction(b, z)], [Instruction(a, z)]) == [];
    assert [a] + [] == [a];
  }

  /** Emitting the source of the last instruction frees its target. */
  lemma EmitLast(e: Instruction)
    ensures NotFrom([e], e.before) == [] && NextStack([e], [e.before]) == [e.after]
  {
    assert [e][1..] == [];
    assert From([e], e.before) == [e];
    assert Freed([e], []) == [e.after];
    assert [] + [e.after] == [e.after];
  }

  /** With no instruction left, the last step ends the sort. */
  lemma EmitAlone(z: char, result: seq<char>)
    ensures SortSteps([], [z], result) == result + [z]
  {
    assert NextStack([], [z]) == [];
  }

  lemma SnocPair(a: char, b: char)
    ensures [] + [a] == [a] && [a] + [b] == [a, b]
  {
  }

  /** Two steps `a` and `b` before `z`, emitted in the stack's order. */
  lemma TwoIntoOne(a: char, b: char, z: char)
    requires a != b
    ensures SortSteps([Instruction(a, z), Instruction(b, z)], [a, b], []) == [a, b, z]
  {
    var g := [Instruction(a, z), Instruction(b, z)];
    calc {
      SortSteps(g, [a, b], []);
    == { EmitFirstOfTwo(a, b, z); SnocPair(a, b); }
      SortSteps([Instruction(b, z)], [b], [a]);
    == { EmitLast(Instruction(b, z)); SnocPair(a, b); }
      SortSteps([], [z], [a, b]);
    == { EmitAlone(z, [a, b]); }
      [a, b, z];
    }
  }

  /** The same with the stack the other way round. */
  lemma TwoIntoOneSwapped(a: char, b: char, z: char)
    requires a != b
    ensures SortSteps([Instruction(a, z), Instruction(b, z)], [b, a], []) == [b, a, z]
  {
    var g := [Instruction(a, z), Instruction(b, z)];
    calc {
      SortSteps(g, [b, a], []);
    == { EmitSecondOfTwo(a, b, z); SnocPair(b, a); }
      SortSteps([Instruction(a, z)], [a], [b]);
    == { EmitLast(Instruction(a, z)); SnocPair(b, a); }
      SortSteps([], [z], [b, a]);
    == { EmitAlone(z, [b, a]); }
      [b, a, z];
    }
  }

  /** With the two initials `C` and `B` of `A`, the as-written order starts
      with `C` although the smaller `B` is available. */
  lemma InitialStackUnsorted()
    ensures var input := [Instruction('C', 'A'), Instruction('B', 'A')];
      && TopologicalOrderAsWritten(input) == "CBA"
      && IsAvailable(input, [], 'B') && 'B' < 'C'
  {
    var input := [Instruction('C', 'A'), Instruction('B', 'A')];
    NamesExample();
    TwoIntoOne('C', 'B', 'A');
    assert Instruction('B', 'A') in input;
  }

  /** `topologicalOrder` with the initial stack sorted, as the alphabetical
      tie-break intends: every step is the smallest available one, and when
      the order ends nothing is left available. */
  function TopologicalOrder(input: seq<Instruction>): (r: seq<char>)
    ensures Distinct(input) ==> forall i :: 0 <= i < |r| ==> SmallestAvailable(input, r[..i], r[i])
    ensures Distinct(input) ==> forall x :: !IsAvailable(input, r, x)
    ensures Distinct(input) ==> Distinct(r) && forall x :: x in r ==> x in AllNames(input)
    ensures Distinct(input) ==> (Acyclic(input) <==> forall x :: x in AllNames(input) ==> x in r)
  {
    var initials := Initials(input);
    var stack := SortNames(initials);
    DistinctSorted(initials, stack);
    assert forall x :: x in stack <==> x in initials by {
      assert forall x :: x in stack <==> x in multiset(stack);
    }
    OrderSpec(input, stack);
    var r := SortSteps(input, stack, []);
    assert |r| > 0 ==> r[..0] == [];
    r
  }

  /** The corrected order on the same example. */
  lemma SortedInitialsExample()
    ensures TopologicalOrder([Instruction('C', 'A'), Instruction('B', 'A')]) == "BCA"
  {
    NamesExample();
    assert SortNames("B") == "B";
    assert Insert('C', "B") == "BC";
    assert SortNames("CB") == "BC";
    TwoIntoOneSwapped('C', 'B', 'A');
  }

  /** For every instruction, `before` is emitted before `after`. */
  lemma BeforeIsEmittedFirst(input: seq<Instruction>, r: seq<char>, e: Instruction, j: nat)
    requires EmittedWhenAvailable(input, r)
    requires e in input && j < |r| && r[j] == e.after
    ensures exists i :: 0 <= i < j && r[i] == e.before
  {
    assert IsAvailable(input, r[..j], r[j]);
    assert e.before in r[..j];
  }

  /** No step is emitted twice. */
  lemma EmittedOnce(input: seq<Instruction>, r: seq<char>)
    requires EmittedWhenAvailable(input, r)
    ensures Distinct(r)
  {
    forall i, j | 0 <= i < j < |r|
      ensures r[i] != r[j]
    {
      assert IsAvailable(input, r[..j], r[j]);
      assert r[i] in r[..j];
    }
  }

  /** A cycle of instructions: each one's `after` is the next one's `before`. */
  ghost predicate IsCycle(input: seq<Instruction>, c: seq<Instruction>) {
    && |c| > 0
    && (forall k :: 0 <= k < |c| ==> c[k] in input)
    && (forall k :: 0 <= k < |c| - 1 ==> c[k].after == c[k + 1].before)
    && c[|c| - 1].after == c[0].before
  }

  /** Names on a cycle are never emitted. */
  lemma {:induction false} CycleNeverEmitted(input: seq<Instruction>, r: seq<char>, c: seq<Instruction>, i: nat, k: nat)
    requires EmittedWhenAvailable(input, r) && IsCycle(input, c) && i < |r| && k < |c|
    ensures r[i] != c[k].before
    decreases i
  {
    if r[i] == c[k].before {
      var kp := if k == 0 then |c| - 1 else k - 1;
      assert c[kp].after == c[k].before;
      assert IsAvailable(input, r[..i], r[i]);
      assert c[kp].before in r[..i];
      var j :| 0 <= j < i && r[j] == c[kp].before;
      CycleNeverEmitted(input, r, c, j, kp);
      assert false;
    }
  }

  /** A graph without cycles: no instruction chain leads back to its start. */
  ghost predicate Acyclic(input: seq<Instruction>) {
    forall c :: !IsCycle(input, c)
  }

  /** `ps` is a path of instructions whose sources are `ns`, and the last
      name of `ns` is the target of the last instruction. */
  ghost predicate Walk(input: seq<Instruction>, ps: seq<Instruction>, ns: seq<char>) {
    && |ns| == |ps| + 1
    && forall k :: 0 <= k < |ps| ==> ps[k] in input && ps[k].before == ns[k] && ps[k].after == ns[k + 1]
  }

  /** An instruction into the start of a walk extends it backwards. */
  lemma WalkPrepend(input: seq<Instruction>, ps: seq<Instruction>, ns: seq<char>, e: Instruction)
    requires Walk(input, ps, ns) && e in input && e.after == ns[0]
    ensures Walk(input, [e] + ps, [e.before] + ns)
  {
    var ps', ns' := [e] + ps, [e.before] + ns;
    forall k | 0 <= k < |ps'|
      ensures ps'[k] in input && ps'[k].before == ns'[k] && ps'[k].after == ns'[k + 1]
    {
      if k > 0 {
        assert ps'[k] == ps[k - 1] && ns'[k] == ns[k - 1] && ns'[k + 1] == ns[k];
      }
    }
  }

  /** A walk that comes back to its first name holds a cycle. */
  lemma WalkCloses(input: seq<Instruction>, ps: seq<Instruction>, ns: seq<char>, j: nat)
    requires Walk(input, ps, ns) && 0 < j < |ns| && ns[j] == ns[0]
    ensures IsCycle(input, ps[..j])
  {
    var c := ps[..j];
    assert c[j - 1].after == ns[j];
    forall k | 0 <= k < |c| - 1 ensures c[k].after == c[k + 1].before {
      assert c[k] == ps[k] && c[k + 1] == ps[k + 1];
    }
  }

  /** Walking backwards from an unemitted step through unemitted
      predecessors, when nothing is available, closes a cycle. */
  lemma {:induction false} StuckWalk(input: seq<Instruction>, r: seq<char>, ps: seq<Instruction>, ns: seq<char>)
      returns (c: seq<Instruction>)
    requires forall x :: !IsAvailable(input, r, x)
    requires Walk(input, ps, ns)
    requires forall k :: 0 <= k < |ns| ==> Named(input, ns[k]) && ns[k] !in r
    ensures IsCycle(input, c)
    decreases (set x | x in AllNames(input)) - (set x | x in ns)
  {
    var h := ns[0];
    assert !IsAvailable(input, r, h);
    var e :| e in input && e.after == h && e.before !in r;
    WalkPrepend(input, ps, ns, e);
    var ps', ns' := [e] + ps, [e.before] + ns;
    if j :| 0 <= j < |ns| && ns[j] == e.before {
      assert ns'[j + 1] == ns'[0];
      WalkCloses(input, ps', ns', j + 1);
      c := ps'[..j + 1];
    } else {
      assert Named(input, e.before);
      assert forall k :: 0 <= k < |ns'| ==> Named(input, ns'[k]) && ns'[k] !in r by {
        assert forall k :: 0 < k < |ns'| ==> ns'[k] == ns[k - 1];
      }
      assert (set x | x in ns') == (set x | x in ns) + {e.before};
      c := StuckWalk(input, r, ps', ns');
    }
  }

  /** An order that emits steps only when available and stops with nothing
      available emits each step once, only named steps, and every named
      step exactly when there is no cycle. */
  lemma OrderComplete(input: seq<Instruction>, r: seq<char>)
    requires EmittedWhenAvailable(input, r)
    requires forall x :: !IsAvailable(input, r, x)
    ensures Distinct(r) && forall x :: x in r ==> x in AllNames(input)
    ensures Acyclic(input) <==> forall x :: x in AllNames(input) ==> x in r
  {
    EmittedOnce(input, r);
    forall x | x in r ensures x in AllNames(input) {
      var i :| 0 <= i < |r| && r[i] == x;
      assert IsAvailable(input, r[..i], r[i]);
    }
    if Acyclic(input) {
      forall x | x in AllNames(input) ensures x in r {
        if x !in r {
          assert Walk(input, [], [x]);
          var c := StuckWalk(input, r, [], [x]);
          assert false;
        }
      }
    } else {
      var c: seq<Instruction> :| IsCycle(input, c);
      assert c[0] in input;
      if c[0].before in r {
        var i :| 0 <= i < |r| && r[i] == c[0].before;
        CycleNeverEmitted(input, r, c, i, 0);
      }
    }
  }

  lemma RepeatedNames(e: Instruction)
    requires e == Instruction('A', 'B')
    ensures Initials([e, e]) == "A"
  {
    var g := [e, e];
    assert g[1..] == [e] && [e][1..] == [];
    assert Befores([e]) == "A" && Afters([e]) == "B";
    assert Befores(g) + Afters(g) == "AABB";
    assert Dedup("B", {'A', 'B'}) == [];
    assert "BB"[1..] == "B";
    assert Dedup("BB", {'A'}) == "B";
    assert "ABB"[1..] == "BB";
    assert Dedup("ABB", {'A'}) == "B";
    assert "AABB"[1..] == "ABB" && {} + {'A'} == {'A'};
    assert AllNames(g) == "AB";
    assert Without("B", "BB") == [];
    assert "AB"[1..] == "B";
  }

  lemma RepeatedFirstStep(a: char, b: char)
    requires a != b
    ensures var e := Instruction(a, b);
      NotFrom([e, e], a) == [] && NextStack([e, e], [a]) == [b, b]
  {
    RepeatedEdges(Instruction(a, b));
    SortPair(b);
    assert [a][1..] + [b, b] == [b, b];
  }

  /** Both copies of an instruction leave its source and free its target. */
  lemma RepeatedEdges(e: Instruction)
    ensures From([e, e], e.before) == [e, e] && NotFrom([e, e], e.before) == []
    ensures Freed([e, e], []) == [e.after, e.after]
  {
    var g := [e, e];
    assert g[1..] == [e] && [e][1..] == [];
    assert From([e], e.before) == [e];
    assert NotFrom([e], e.before) == [];
    assert Freed([e], []) == [e.after];
  }

  lemma SortPair(b: char)
    ensures SortNames([b, b]) == [b, b]
  {
    assert [b, b][1..] == [b] && [b][1..] == [];
    assert SortNames([b]) == [b] by {
      assert Insert(b, []) == [b];
    }
    assert Insert(b, [b]) == [b, b];
  }

  /** A repeated instruction makes the order repeat its target: emitting
      `A` frees `B` once per copy of "A before B". */
  lemma RepeatedInstructionRepeatsStep()
    ensures TopologicalOrderAsWritten([Instruction('A', 'B'), Instruction('A', 'B')]) == "ABB"
  {
    var e := Instruction('A', 'B');
    AsWrittenSortsInitials([e, e]);
    RepeatedNames(e);
    RepeatedRun('A', 'B');
  }

  /** Sorting from `a` with "a before b" twice emits `a`, then `b` twice. */
  lemma RepeatedRun(a: char, b: char)
    requires a != b
    ensures SortSteps([Instruction(a, b), Instruction(a, b)], [a], []) == [a, b, b]
  {
    RepeatedEmitsFirst(a, b);
    EmitTwiceAfter(a, b);
  }

  lemma EmitTwiceAfter(a: char, b: char)
    ensures SortSteps([], [b, b], [a]) == [a, b, b]
  {
    EmitTwiceAlone(b, [a]);
    assert [a] + [b, b] == [a, b, b];
  }

  lemma RepeatedEmitsFirst(a: char, b: char)
    requires a != b
    ensures SortSteps([Instruction(a, b), Instruction(a, b)], [a], []) == SortSteps([], [b, b], [a])
  {
    RepeatedFirstStep(a, b);
    assert [] + [a] == [a];
  }

  lemma AsWrittenSortsInitials(input: seq<Instruction>)
    ensures TopologicalOrderAsWritten(input) == SortSteps(input, Initials(input), [])
  {
  }

  /** With no instruction left, a step stacked twice is emitted twice. */
  lemma EmitTwiceAlone(z: char, result: seq<char>)
    ensures SortSteps([], [z, z], result) == result + [z, z]
  {
    assert [z, z][1..] == [z];
    assert NextStack([], [z, z]) == [z];
    EmitAlone(z, result + [z]);
    assert result + [z] + [z] == result + [z, z];
  }

  /** `part1`: the order as a string, as written, with the initial stack in
      first-appearance order. */
  function Part1(input: seq<Instruction>): (r: string)
    ensures Distinct(input) ==> EmittedWhenAvailable(input, r)
    ensures Distinct(input) ==> forall i :: 0 < i < |r| ==> SmallestAvailable(input, r[..i], r[i])
    ensures Distinct(input) ==> forall x :: !IsAvailable(input, r, x)
    ensures Distinct(input) ==> Distinct(r) && forall x :: x in r ==> x in AllNames(input)
    ensures Distinct(input) ==> (Acyclic(input) <==> forall x :: x in AllNames(input) ==> x in r)
  {
    TopologicalOrderAsWritten(input)
  }

  /** On "C before A, B before A" the answer is CBA. */
  lemma Part1Example()
    ensures Part1([Instruction('C', 'A'), Instruction('B', 'A')]) == "CBA"
  {
    InitialStackUnsorted();
  }
}
