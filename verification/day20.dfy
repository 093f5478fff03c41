/** The room regex: `^`, then directions, parenthesised groups of
    alternatives separated by `|`, and a closing `$`. The parser keeps
    only the shape (a direction is a `Move`), and the two metrics read
    that shape: the longest path, and a count of the rooms at least a
    given number of doors away. */
module Day20 {

  import opened Wrappers
  import opened Device

  datatype Tree =
    | Move
    | Seq(steps: seq<Tree>)
    | Opt(choices: seq<Tree>)

  // ---------------------------------------------------------------------
  // Parsing
  // ---------------------------------------------------------------------

  predicate IsDirection(c: char) {
    c == 'N' || c == 'S' || c == 'E' || c == 'W'
  }

  predicate Closes(c: char) {
    c == ')' || c == '$'
  }

  /** The node built when a closing character is met. */
  function Close(opts: seq<Tree>, cur: seq<Tree>): Tree {
    if opts == [] then Seq(cur) else Opt(opts + [Seq(cur)])
  }

  /** `parseNode`'s loop at `p`: `opts` are the alternatives finished so
      far and `cur` the steps of the one being read. It answers the
      position of the closing character and the node. */
  function Node(chars: string, p: nat, opts: seq<Tree>, cur: seq<Tree>): (r: Result<(nat, Tree)>)
    ensures r.Ok? ==> p <= r.value.0 < |chars| && Closes(chars[r.value.0])
    ensures r.Err? ==> r.msg == "EOF" || exists i :: p <= i < |chars| && r.msg == UnexpectedChar(chars[i])
    decreases |chars| - p
  {
    if p >= |chars| then Err("EOF")
    else
      var c := chars[p];
      if IsDirection(c) then Node(chars, p + 1, opts, cur + [Move])
      else if c == '(' then
        match Node(chars, p + 1, [], [])
        case Err(e) => Err(e)
        case Ok((q, t)) => Node(chars, q + 1, opts, cur + [t])
      else if c == '|' then Node(chars, p + 1, opts + [Seq(cur)], [])
      else if Closes(c) then Ok((p, Close(opts, cur)))
      else Err(UnexpectedChar(c))
  }

  function UnexpectedChar(c: char): string {
    "unexpected char '" + [c] + "'"
  }

  /** `parseTree`: the regex must start with `^`; the tree is the node read
      after it. */
  function ParseTree(regex: string): (r: Result<Tree>)
    ensures |regex| == 0 ==> r == Err(IndexError)
    ensures |regex| > 0 && regex[0] != '^' ==> r == Err("Missing ^")
  {
    if |regex| == 0 then Err(IndexError)
    else if regex[0] != '^' then Err("Missing ^")
    else
      match Node(regex, 1, [], [])
      case Err(e) => Err(e)
      case Ok((_, t)) => Ok(t)
  }

  /** A regex with no `)` or `$` after the `^` has no tree. */
  lemma NoCloserNoTree(regex: string)
    requires forall i :: 1 <= i < |regex| ==> !Closes(regex[i])
    ensures ParseTree(regex).Err?
  {
    if |regex| > 0 && regex[0] == '^' {
      var r := Node(regex, 1, [], []);
    }
  }

  // ---------------------------------------------------------------------
  // The trees the parser builds, and printing them back
  // ---------------------------------------------------------------------

  /** A node: the steps of one alternative, or two or more alternatives. */
  predicate NodeShaped(t: Tree)
    decreases t, 1
  {
    match t
    case Move => false
    case Seq(ts) => StepsShaped(ts)
    case Opt(cs) => |cs| >= 2 && ChoicesShaped(cs)
  }

  /** Steps are moves and parenthesised nodes. */
  predicate StepsShaped(ts: seq<Tree>)
    decreases ts, 2
  {
    ts == [] || ((ts[0] == Move || NodeShaped(ts[0])) && StepsShaped(ts[1..]))
  }

  /** Alternatives are sequences of steps. */
  predicate ChoicesShaped(cs: seq<Tree>)
    decreases cs, 2
  {
    cs == [] || (cs[0].Seq? && StepsShaped(cs[0].steps) && ChoicesShaped(cs[1..]))
  }

  function PrintNode(t: Tree): string
    decreases t, 1
  {
    match t
    case Move => "N"
    case Seq(ts) => PrintSteps(ts)
    case Opt(cs) => PrintChoices(cs)
  }

  /** The text of one step: `N` for a move, a group for a node. */
  function PrintStep(t: Tree): string
    decreases t, 2
  {
    if t == Move then "N" else "(" + PrintNode(t) + ")"
  }

  function PrintSteps(ts: seq<Tree>): string
    decreases ts, 3
  {
    if ts == [] then ""
    else PrintStep(ts[0]) + PrintSteps(ts[1..])
  }

  function PrintChoices(cs: seq<Tree>): string
    decreases cs, 2
  {
    if cs == [] then ""
    else if |cs| == 1 then PrintNode(cs[0])
    else PrintNode(cs[0]) + "|" + PrintChoices(cs[1..])
  }

  /** A regex for the tree, every move written as `N`. */
  function Regex(t: Tree): string {
    "^" + PrintNode(t) + "$"
  }

  /** `x` is written in `chars` from position `p`. */
  predicate At(chars: string, p: nat, x: string) {
    p + |x| <= |chars| && forall i :: 0 <= i < |x| ==> chars[p + i] == x[i]
  }

  lemma AtSplit(chars: string, p: nat, x: string, y: string)
    requires At(chars, p, x + y)
    ensures At(chars, p, x) && At(chars, p + |x|, y)
  {
    forall i | 0 <= i < |x| ensures chars[p + i] == x[i] {
      assert (x + y)[i] == x[i];
    }
    forall i | 0 <= i < |y| ensures chars[p + |x| + i] == y[i] {
      assert (x + y)[|x| + i] == y[i];
    }
  }

  /** A parenthesised group: the opening character, the contents, the
      closing one. */
  lemma AtGroup(chars: string, p: nat, x: string)
    requires At(chars, p, "(" + x + ")")
    ensures chars[p] == '(' && At(chars, p + 1, x) && chars[p + 1 + |x|] == ')'
  {
    var g := "(" + x + ")";
    assert chars[p] == g[0];
    assert chars[p + 1 + |x|] == g[1 + |x|];
    forall i | 0 <= i < |x| ensures chars[p + 1 + i] == x[i] {
      assert g[1 + i] == x[i];
    }
  }

  /** Reading printed steps appends them to the current alternative. */
  lemma {:induction false} StepsParse(chars: string, p: nat, opts: seq<Tree>, cur: seq<Tree>, ts: seq<Tree>)
    requires StepsShaped(ts) && At(chars, p, PrintSteps(ts))
    requires p + |PrintSteps(ts)| < |chars|
    requires var c := chars[p + |PrintSteps(ts)|]; Closes(c) || c == '|'
    ensures Node(chars, p, opts, cur) == Node(chars, p + |PrintSteps(ts)|, opts, cur + ts)
    decreases ts, 1
  {
    if ts == [] {
      assert cur + ts == cur;
    } else {
      var p' := p + |PrintStep(ts[0])|;
      HeadStepParse(chars, p, opts, cur, ts);
      StepsParse(chars, p', opts, cur + [ts[0]], ts[1..]);
      assert cur + ts == (cur + [ts[0]]) + ts[1..];
    }
  }

  /** Reading the first printed step appends it. */
  lemma HeadStepParse(chars: string, p: nat, opts: seq<Tree>, cur: seq<Tree>, ts: seq<Tree>)
    requires ts != [] && StepsShaped(ts) && At(chars, p, PrintSteps(ts))
    requires p + |PrintSteps(ts)| < |chars|
    ensures var p' := p + |PrintStep(ts[0])|;
      && p' + |PrintSteps(ts[1..])| == p + |PrintSteps(ts)|
      && At(chars, p', PrintSteps(ts[1..]))
      && Node(chars, p, opts, cur) == Node(chars, p', opts, cur + [ts[0]])
    decreases ts, 0
  {
    var head := PrintStep(ts[0]);
    assert PrintSteps(ts) == head + PrintSteps(ts[1..]);
    AtSplit(chars, p, head, PrintSteps(ts[1..]));
    if ts[0] == Move {
      assert chars[p] == head[0];
    } else {
      AtGroup(chars, p, PrintNode(ts[0]));
      NodeParse(chars, p + 1, ts[0]);
    }
  }

  /** Reading a printed node up to its closing character gives the node. */
  lemma {:induction false} NodeParse(chars: string, p: nat, t: Tree)
    requires NodeShaped(t) && At(chars, p, PrintNode(t))
    requires p + |PrintNode(t)| < |chars| && Closes(chars[p + |PrintNode(t)|])
    ensures Node(chars, p, [], []) == Ok((p + |PrintNode(t)|, t))
    decreases t, 1
  {
    match t
    case Seq(ts) =>
      StepsParse(chars, p, [], [], ts);
      assert [] + ts == ts;
    case Opt(cs) =>
      ChoicesParse(chars, p, [], cs);
      assert [] + cs == cs;
  }

  /** Reading printed alternatives adds them to those already read. */
  lemma {:induction false} ChoicesParse(chars: string, p: nat, opts: seq<Tree>, cs: seq<Tree>)
    requires |cs| >= 1 && ChoicesShaped(cs) && At(chars, p, PrintChoices(cs))
    requires p + |PrintChoices(cs)| < |chars| && Closes(chars[p + |PrintChoices(cs)|])
    ensures Node(chars, p, opts, []) ==
      Ok((p + |PrintChoices(cs)|, if opts == [] && |cs| == 1 then cs[0] else Opt(opts + cs)))
    decreases cs, 1
  {
    var s := cs[0].steps;
    assert PrintNode(cs[0]) == PrintSteps(s);
    if |cs| == 1 {
      StepsParse(chars, p, opts, [], s);
      assert [] + s == s;
      assert opts + cs == opts + [Seq(s)];
    } else {
      var q := p + |PrintSteps(s)|;
      FirstChoiceParse(chars, p, opts, cs);
      ChoicesParse(chars, q + 1, opts + [Seq(s)], cs[1..]);
      assert opts + [Seq(s)] + cs[1..] == opts + cs;
    }
  }

  /** Reading the first of several printed alternatives and the `|` after
      it adds that alternative to those already read. */
  lemma FirstChoiceParse(chars: string, p: nat, opts: seq<Tree>, cs: seq<Tree>)
    requires |cs| >= 2 && ChoicesShaped(cs) && At(chars, p, PrintChoices(cs))
    requires p + |PrintChoices(cs)| < |chars|
    ensures var q := p + |PrintSteps(cs[0].steps)|;
      && q + 1 + |PrintChoices(cs[1..])| == p + |PrintChoices(cs)|
      && At(chars, q + 1, PrintChoices(cs[1..]))
      && Node(chars, p, opts, []) == Node(chars, q + 1, opts + [cs[0]], [])
    decreases cs, 0
  {
    var s := cs[0].steps;
    var rest := PrintChoices(cs[1..]);
    var q := p + |PrintSteps(s)|;
    assert PrintNode(cs[0]) == PrintSteps(s);
    assert PrintChoices(cs) == PrintSteps(s) + ("|" + rest);
    AtSplit(chars, p, PrintSteps(s), "|" + rest);
    AtSplit(chars, q, "|", rest);
    assert chars[q] == "|"[0];
    StepsParse(chars, p, opts, [], s);
    assert [] + s == s;
  }

  /** Parsing the printed regex of a node gives the node back. */
  lemma ParsePrinted(t: Tree)
    requires NodeShaped(t)
    ensures ParseTree(Regex(t)) == Ok(t)
  {
    var r := Regex(t);
    assert r == "^" + (PrintNode(t) + "$");
    AtSplit(r, 0, "^", PrintNode(t) + "$");
    AtSplit(r, 1, PrintNode(t), "$");
    assert r[1 + |PrintNode(t)|] == "$"[0];
    NodeParse(r, 1, t);
  }

  /** Two regexes that differ only in which direction letters they use. */
  predicate SameShape(a: string, b: string) {
    |a| == |b| && forall i :: 0 <= i < |a| ==> a[i] == b[i] || (IsDirection(a[i]) && IsDirection(b[i]))
  }

  /** The parser keeps only the shape, so the letters do not matter. */
  lemma {:induction false} NodeIgnoresLetters(a: string, b: string, p: nat, opts: seq<Tree>, cur: seq<Tree>)
    requires SameShape(a, b)
    ensures Node(a, p, opts, cur) == Node(b, p, opts, cur)
    decreases |a| - p
  {
    if p < |a| {
      var c := a[p];
      if IsDirection(c) {
        NodeIgnoresLetters(a, b, p + 1, opts, cur + [Move]);
      } else if c == '(' {
        NodeIgnoresLetters(a, b, p + 1, [], []);
        var inner := Node(a, p + 1, [], []);
        if inner.Ok? {
          NodeIgnoresLetters(a, b, inner.value.0 + 1, opts, cur + [inner.value.1]);
        }
      } else if c == '|' {
        NodeIgnoresLetters(a, b, p + 1, opts + [Seq(cur)], []);
      }
    }
  }

  /** A regex shaped like the printed regex of a node parses to that node. */
  lemma ParseShaped(regex: string, t: Tree)
    requires NodeShaped(t) && SameShape(regex, Regex(t))
    ensures ParseTree(regex) == Ok(t)
  {
    ParsePrinted(t);
    NodeIgnoresLetters(regex, Regex(t), 1, [], []);
  }

  /** What the parser builds is always a node of that shape. */
  lemma {:induction false} ParsedIsShaped(chars: string, p: nat, opts: seq<Tree>, cur: seq<Tree>)
    requires ChoicesShaped(opts) && StepsShaped(cur)
    requires Node(chars, p, opts, cur).Ok?
    ensures NodeShaped(Node(chars, p, opts, cur).value.1)
    decreases |chars| - p
  {
    var c := chars[p];
    if IsDirection(c) {
      StepsSnoc(cur, Move);
      ParsedIsShaped(chars, p + 1, opts, cur + [Move]);
    } else if c == '(' {
      ParsedIsShaped(chars, p + 1, [], []);
      var (q, t) := Node(chars, p + 1, [], []).value;
      StepsSnoc(cur, t);
      ParsedIsShaped(chars, q + 1, opts, cur + [t]);
    } else if c == '|' {
      ChoicesSnoc(opts, Seq(cur));
      ParsedIsShaped(chars, p + 1, opts + [Seq(cur)], []);
    } else {
      ChoicesSnoc(opts, Seq(cur));
    }
  }

  lemma {:induction false} StepsSnoc(ts: seq<Tree>, t: Tree)
    requires StepsShaped(ts) && (t == Move || NodeShaped(t))
    ensures StepsShaped(ts + [t])
  {
    if ts != [] {
      StepsSnoc(ts[1..], t);
      assert (ts + [t])[1..] == ts[1..] + [t];
    }
  }

  lemma {:induction false} ChoicesSnoc(cs: seq<Tree>, t: Tree)
    requires ChoicesShaped(cs) && t.Seq? && StepsShaped(t.steps)
    ensures ChoicesShaped(cs + [t])
  {
    if cs != [] {
      ChoicesSnoc(cs[1..], t);
      assert (cs + [t])[1..] == cs[1..] + [t];
    }
  }

  /** So every parsed regex gives a tree of that shape. */
  lemma ParseTreeShaped(regex: string)
    requires ParseTree(regex).Ok?
    ensures NodeShaped(ParseTree(regex).value)
  {
    ParsedIsShaped(regex, 1, [], []);
  }

  // ---------------------------------------------------------------------
  // Part 1: the longest path
  // ---------------------------------------------------------------------

  /** `hasLoop`: an empty alternative, directly or among the choices. */
  predicate HasLoop(t: Tree)
    decreases t, 1
  {
    match t
    case Move => false
    case Seq(ts) => ts == []
    case Opt(cs) => AnyLoop(cs)
  }

  predicate AnyLoop(cs: seq<Tree>)
    decreases cs, 0
  {
    cs != [] && (HasLoop(cs[0]) || AnyLoop(cs[1..]))
  }

  lemma {:induction false} AnyLoopMeaning(cs: seq<Tree>)
    ensures AnyLoop(cs) <==> exists i :: 0 <= i < |cs| && HasLoop(cs[i])
  {
    if cs != [] {
      AnyLoopMeaning(cs[1..]);
      if AnyLoop(cs[1..]) {
        var i :| 0 <= i < |cs[1..]| && HasLoop(cs[1..][i]);
        assert HasLoop(cs[i + 1]);
      }
      if exists i :: 0 <= i < |cs| && HasLoop(cs[i]) {
        var i :| 0 <= i < |cs| && HasLoop(cs[i]);
        if i > 0 {
          assert HasLoop(cs[1..][i - 1]);
        }
      }
    }
  }

  const NullPointer := "NullPointerException"

  function Add(a: Result<nat>, b: Result<nat>): (r: Result<nat>)
    ensures r.Ok? <==> a.Ok? && b.Ok?
    ensures r.Ok? ==> r.value == a.value + b.value
  {
    match a
    case Err(e) => Err(e)
    case Ok(x) =>
      match b
      case Err(e) => Err(e)
      case Ok(y) => Ok(x + y)
  }

  /** `longestPath`: 0 for a looped node, 1 for a move, the sum over a
      sequence and the largest over the choices, where `max()!!` of no
      choices throws. A parsed tree never reaches that throw, and no path
      is longer than the tree has moves. */
  function LongestPath(t: Tree): (r: Result<nat>)
    ensures HasLoop(t) ==> r == Ok(0)
    ensures (t == Move || NodeShaped(t)) ==> r.Ok?
    ensures r.Ok? ==> r.value <= Moves(t)
    decreases t, 1
  {
    if HasLoop(t) then Ok(0)
    else
      match t
      case Move => Ok(1)
      case Seq(ts) => SumPaths(ts)
      case Opt(cs) => MaxPath(cs)
  }

  /** The path through steps in order: it exists exactly when every step
      has one, and it is at most their moves. */
  function SumPaths(ts: seq<Tree>): (r: Result<nat>)
    ensures r.Ok? <==> forall i :: 0 <= i < |ts| ==> LongestPath(ts[i]).Ok?
    ensures StepsShaped(ts) ==> r.Ok?
    ensures r.Ok? ==> r.value <= MovesOf(ts)
    decreases ts, 0
  {
    if ts == [] then Ok(0)
    else
      assert forall i :: 1 <= i < |ts| ==> ts[i] == ts[1..][i - 1];
      Add(LongestPath(ts[0]), SumPaths(ts[1..]))
  }

  /** `choices.map(longestPath).max()!!`: no choices throw; otherwise the
      largest is one of the choices' paths and no choice's is longer. */
  function MaxPath(cs: seq<Tree>): (r: Result<nat>)
    ensures cs == [] ==> r == Err(NullPointer)
    ensures ChoicesShaped(cs) && cs != [] ==> r.Ok?
    ensures r.Ok? ==> exists i :: 0 <= i < |cs| && LongestPath(cs[i]) == r
    ensures r.Ok? ==> forall i :: 0 <= i < |cs| ==> LongestPath(cs[i]).Ok? && LongestPath(cs[i]).value <= r.value
    ensures r.Ok? ==> r.value <= MovesOf(cs)
    decreases cs, 0
  {
    if cs == [] then Err(NullPointer)
    else if |cs| == 1 then
      assert ChoicesShaped(cs) ==> NodeShaped(cs[0]);
      LongestPath(cs[0])
    else
      assert ChoicesShaped(cs) ==> NodeShaped(cs[0]);
      match LongestPath(cs[0])
      case Err(e) => Err(e)
      case Ok(x) =>
        match MaxPath(cs[1..])
        case Err(e) => Err(e)
        case Ok(y) =>
          assert forall i :: 1 <= i < |cs| ==> cs[i] == cs[1..][i - 1];
          assert exists j :: 0 <= j < |cs| && LongestPath(cs[j]) == Ok(if x >= y then x else y) by {
            if x < y {
              var j :| 0 <= j < |cs[1..]| && LongestPath(cs[1..][j]) == Ok(y);
              assert LongestPath(cs[j + 1]) == Ok(y);
            } else {
              assert LongestPath(cs[0]) == Ok(x);
            }
          }
          Ok(if x >= y then x else y)
  }

  /** The number of moves in a tree. */
  function Moves(t: Tree): nat
    decreases t, 1
  {
    match t
    case Move => 1
    case Seq(ts) => MovesOf(ts)
    case Opt(cs) => MovesOf(cs)
  }

  function MovesOf(ts: seq<Tree>): nat
    decreases ts, 0
  {
    if ts == [] then 0 else Moves(ts[0]) + MovesOf(ts[1..])
  }

  /** Following one sequence with another adds their paths. */
  lemma {:induction false} SumPathsConcat(a: seq<Tree>, b: seq<Tree>)
    ensures SumPaths(a + b) == Add(SumPaths(a), SumPaths(b))
  {
    if a == [] {
      assert a + b == b;
    } else {
      var ab := a + b;
      assert ab[0] == a[0] && ab[1..] == a[1..] + b;
      SumPathsConcat(a[1..], b);
      assert SumPaths(ab) == Add(LongestPath(a[0]), SumPaths(ab[1..]));
      assert SumPaths(a) == Add(LongestPath(a[0]), SumPaths(a[1..]));
      AddAssoc(LongestPath(a[0]), SumPaths(a[1..]), SumPaths(b));
    }
  }

  lemma AddAssoc(x: Result<nat>, y: Result<nat>, z: Result<nat>)
    ensures Add(x, Add(y, z)) == Add(Add(x, y), z)
  {
  }

  /** `part1`: the longest path of the parsed regex, which exists for every
      parsed tree and is at most its number of moves. */
  function Part1(t: Tree): (r: Result<nat>)
    ensures (t == Move || NodeShaped(t)) ==> r.Ok?
    ensures r.Ok? ==> r.value <= Moves(t)
  {
    LongestPath(t)
  }

  // ---------------------------------------------------------------------
  // Part 2
  // ---------------------------------------------------------------------

  /** The number of nodes of a tree. */
  function Size(t: Tree): nat
    decreases t, 1
  {
    match t
    case Move => 1
    case Seq(ts) => 1 + SizeOf(ts)
    case Opt(cs) => 1 + SizeOf(cs)
  }

  function SizeOf(ts: seq<Tree>): nat
    decreases ts, 0
  {
    if ts == [] then 0 else Size(ts[0]) + SizeOf(ts[1..])
  }

  /** `nodesAtDistance`: a move counts when at most one door remains;
      choices add up; in a sequence the step at index `i` is asked for
      `distance - i` when it is a group of choices, the last step counts 1
      otherwise, and the other steps count nothing. */
  function NodesAtDistance(t: Tree, distance: int): (r: nat)
    ensures r <= Size(t)
    decreases t, 1
  {
    match t
    case Move => if distance <= 1 then 1 else 0
    case Opt(cs) => ChoicesAt(cs, distance)
    case Seq(ts) => StepsAt(ts, distance)
  }

  function ChoicesAt(cs: seq<Tree>, distance: int): (r: nat)
    ensures r <= SizeOf(cs)
    decreases cs, 0
  {
    if cs == [] then 0 else NodesAtDistance(cs[0], distance) + ChoicesAt(cs[1..], distance)
  }

  /** The steps from index `i` on, with `distance` already lowered by `i`. */
  function StepsAt(ts: seq<Tree>, distance: int): (r: nat)
    ensures r <= SizeOf(ts)
    decreases ts, 0
  {
    if ts == [] then 0
    else
      (if ts[0].Opt? then NodesAtDistance(ts[0], distance) else if |ts| == 1 then 1 else 0)
      + StepsAt(ts[1..], distance - 1)
  }

  /** Farther never counts more. */
  lemma {:induction false} FartherCountsLess(t: Tree, d: int, e: int)
    requires d <= e
    ensures NodesAtDistance(t, e) <= NodesAtDistance(t, d)
    decreases t, 1
  {
    match t
    case Move =>
    case Opt(cs) => ChoicesFarther(cs, d, e);
    case Seq(ts) => StepsFarther(ts, d, e);
  }

  lemma {:induction false} ChoicesFarther(cs: seq<Tree>, d: int, e: int)
    requires d <= e
    ensures ChoicesAt(cs, e) <= ChoicesAt(cs, d)
    decreases cs, 0
  {
    if cs != [] {
      FartherCountsLess(cs[0], d, e);
      ChoicesFarther(cs[1..], d, e);
    }
  }

  lemma {:induction false} StepsFarther(ts: seq<Tree>, d: int, e: int)
    requires d <= e
    ensures StepsAt(ts, e) <= StepsAt(ts, d)
    decreases ts, 0
  {
    if ts != [] {
      FartherCountsLess(ts[0], d, e);
      StepsFarther(ts[1..], d - 1, e - 1);
    }
  }

  /** `part2`: the count at 1000 doors, never more than the count at any
      shorter distance, and at most one per node of the tree. */
  function Part2(t: Tree): (r: nat)
    ensures forall d :: d <= 1000 ==> r <= NodesAtDistance(t, d)
    ensures r <= Size(t)
  {
    forall d | d <= 1000 ensures NodesAtDistance(t, 1000) <= NodesAtDistance(t, d) {
      FartherCountsLess(t, d, 1000);
    }
    NodesAtDistance(t, 1000)
  }

  // ---------------------------------------------------------------------
  // The source's examples
  // ---------------------------------------------------------------------

  lemma ExampleStraight()
    ensures ParseTree("^WNE$") == Ok(Seq([Move, Move, Move]))
    ensures LongestPath(Seq([Move, Move, Move])) == Ok(3)
  {
    var s := "^WNE$";
    assert s[1] == 'W' && s[2] == 'N' && s[3] == 'E' && s[4] == '$';
    assert [] + [Move] == [Move];
    assert [Move] + [Move] == [Move, Move];
    assert [Move, Move] + [Move] == [Move, Move, Move];
    assert Node(s, 4, [], [Move, Move, Move]) == Ok((4, Seq([Move, Move, Move])));
    assert Node(s, 3, [], [Move, Move]) == Node(s, 4, [], [Move, Move, Move]);
    assert Node(s, 2, [], [Move]) == Node(s, 3, [], [Move, Move]);
    assert Node(s, 1, [], []) == Node(s, 2, [], [Move]);
    assert [Move, Move, Move][1..] == [Move, Move];
    assert [Move, Move][1..] == [Move];
    assert SumPaths([Move]) == Ok(1);
    assert SumPaths([Move, Move]) == Ok(2);
  }

  lemma ExampleGroup()
    ensures ParseTree("^WNE(N|S)$") == Ok(Seq([Move, Move, Move, Opt([Seq([Move]), Seq([Move])])]))
  {
    var g := "^WNE(N|S)$";
    assert g[4] == '(' && g[5] == 'N' && g[6] == '|' && g[7] == 'S' && g[8] == ')' && g[9] == '$';
    assert g[1] == 'W' && g[2] == 'N' && g[3] == 'E';
    var one := Seq([Move]);
    var both := Opt([one, one]);
    assert [] + [Move] == [Move];
    assert [] + [one] == [one];
    assert [one] + [one] == [one, one];
    assert Node(g, 8, [one], [Move]) == Ok((8, both));
    assert Node(g, 7, [one], []) == Node(g, 8, [one], [Move]);
    assert Node(g, 6, [], [Move]) == Node(g, 7, [one], []);
    assert Node(g, 5, [], []) == Node(g, 6, [], [Move]);
    var three := [Move, Move, Move];
    assert [Move] + [Move] == [Move, Move];
    assert [Move, Move] + [Move] == three;
    assert three + [both] == [Move, Move, Move, both];
    assert Node(g, 9, [], three + [both]) == Ok((9, Seq(three + [both])));
    assert Node(g, 4, [], three) == Node(g, 9, [], three + [both]);
    assert Node(g, 3, [], [Move, Move]) == Node(g, 4, [], three);
    assert Node(g, 2, [], [Move]) == Node(g, 3, [], [Move, Move]);
    assert Node(g, 1, [], []) == Node(g, 2, [], [Move]);
  }

  /** Distance 2 counts one room of `^WNES$` and two of `^WNE(N|S)$`. */
  lemma ExampleDistance()
    ensures NodesAtDistance(Seq([Move, Move, Move, Move]), 2) == 1
    ensures NodesAtDistance(Seq([Move, Move, Move, Opt([Seq([Move]), Seq([Move])])]), 2) == 2
  {
    var four := [Move, Move, Move, Move];
    assert four[1..] == [Move, Move, Move];
    assert four[2..] == [Move, Move];
    assert four[3..] == [Move];
    assert StepsAt([Move], -1) == 1;
    assert StepsAt([Move, Move], 0) == 1;
    assert StepsAt([Move, Move, Move], 1) == 1;
    var one := Seq([Move]);
    var both := Opt([one, one]);
    var steps := [Move, Move, Move, both];
    assert steps[1..] == [Move, Move, both];
    assert steps[2..] == [Move, both];
    assert steps[3..] == [both];
    assert [one, one][1..] == [one];
    assert [one][1..] == [] && [Move][1..] == [];
    assert NodesAtDistance(one, -1) == 1;
    assert ChoicesAt([one], -1) == 1;
    assert NodesAtDistance(both, -1) == 2;
    assert StepsAt([both], -1) == 2;
    assert StepsAt([Move, both], 0) == 2;
    assert StepsAt([Move, Move, both], 1) == 2;
  }

  /** A single step has that step's path. */
  lemma OneStepSum(g: Tree, k: nat)
    requires LongestPath(g) == Ok(k)
    ensures SumPaths([g]) == Ok(k)
  {
    var ts := [g];
    assert ts[0] == g && ts[1..] == [];
    assert SumPaths(ts) == Add(LongestPath(g), SumPaths([]));
  }

  /** A move in front of some steps adds one door. */
  lemma MoveThenSum(us: seq<Tree>, k: nat)
    requires us != [] && us[0] == Move && SumPaths(us[1..]) == Ok(k)
    ensures SumPaths(us) == Ok(1 + k)
  {
    assert SumPaths(us) == Add(LongestPath(Move), SumPaths(us[1..]));
  }

  /** A node of some steps has their path and no loop. */
  lemma SeqPath(ts: seq<Tree>, k: nat)
    requires ts != [] && SumPaths(ts) == Ok(k)
    ensures LongestPath(Seq(ts)) == Ok(k) && !HasLoop(Seq(ts))
  {
  }

  /** A choice of two loop-free options takes the longer path. */
  lemma TwoChoicesPath(a: Tree, b: Tree, x: nat, y: nat)
    requires !HasLoop(a) && !HasLoop(b)
    requires LongestPath(a) == Ok(x) && LongestPath(b) == Ok(y)
    ensures LongestPath(Opt([a, b])) == Ok(if x >= y then x else y)
  {
    assert [a, b][1..] == [b];
    assert [b][1..] == [];
    assert !AnyLoop([b]);
    assert !AnyLoop([a, b]);
    assert MaxPath([b]) == Ok(y);
    assert MaxPath([a, b]) == Ok(if x >= y then x else y);
  }

  /** One to five moves then a step add that many doors. */
  lemma OneMoveThenSum(g: Tree, k: nat)
    requires LongestPath(g) == Ok(k)
    ensures SumPaths([Move, g]) == Ok(1 + k)
  {
    MoveThenStep([Move, g], k);
  }

  lemma MoveThenStep(us: seq<Tree>, k: nat)
    requires |us| == 2 && us[0] == Move && LongestPath(us[1]) == Ok(k)
    ensures SumPaths(us) == Ok(1 + k)
  {
    OneStepSum(us[1], k);
    assert us[1..] == [us[1]];
    MoveThenSum(us, k);
  }

  lemma TwoMovesThenSum(g: Tree, k: nat)
    requires LongestPath(g) == Ok(k)
    ensures SumPaths([Move, Move, g]) == Ok(2 + k)
  {
    OneMoveThenSum(g, k);
    assert [Move, Move, g][1..] == [Move, g];
    MoveThenSum([Move, Move, g], 1 + k);
  }

  lemma ThreeMovesThenSum(g: Tree, k: nat)
    requires LongestPath(g) == Ok(k)
    ensures SumPaths([Move, Move, Move, g]) == Ok(3 + k)
  {
    TwoMovesThenSum(g, k);
    assert [Move, Move, Move, g][1..] == [Move, Move, g];
    MoveThenSum([Move, Move, Move, g], 2 + k);
  }

  lemma FourMovesThenSum(g: Tree, k: nat)
    requires LongestPath(g) == Ok(k)
    ensures SumPaths([Move, Move, Move, Move, g]) == Ok(4 + k)
  {
    ThreeMovesThenSum(g, k);
    assert [Move, Move, Move, Move, g][1..] == [Move, Move, Move, g];
    MoveThenSum([Move, Move, Move, Move, g], 3 + k);
  }

  lemma FiveMovesThenSum(g: Tree, k: nat)
    requires LongestPath(g) == Ok(k)
    ensures SumPaths([Move, Move, Move, Move, Move, g]) == Ok(5 + k)
  {
    FourMovesThenSum(g, k);
    assert [Move, Move, Move, Move, Move, g][1..] == [Move, Move, Move, Move, g];
    MoveThenSum([Move, Move, Move, Move, Move, g], 4 + k);
  }

  /** Three moves then a step add three doors. */
  lemma ThreeMovesThenPath(g: Tree, k: nat)
    requires LongestPath(g) == Ok(k)
    ensures LongestPath(Seq([Move, Move, Move, g])) == Ok(3 + k)
  {
    ThreeMovesThenSum(g, k);
    SeqPath([Move, Move, Move, g], 3 + k);
  }

  /** Five moves then a step add five doors. */
  lemma FiveMovesThenPath(g: Tree, k: nat)
    requires LongestPath(g) == Ok(k)
    ensures LongestPath(Seq([Move, Move, Move, Move, Move, g])) == Ok(5 + k)
  {
    FiveMovesThenSum(g, k);
    SeqPath([Move, Move, Move, Move, Move, g], 5 + k);
  }

  /** Plain moves have one door each. */
  lemma MovesOnlyPath()
    ensures LongestPath(Seq([Move])) == Ok(1) && !HasLoop(Seq([Move]))
    ensures LongestPath(Seq([Move, Move])) == Ok(2) && !HasLoop(Seq([Move, Move]))
    ensures LongestPath(Seq([Move, Move, Move, Move])) == Ok(4) && !HasLoop(Seq([Move, Move, Move, Move]))
  {
    OneStepSum(Move, 1);
    SeqPath([Move], 1);
    assert [Move, Move][1..] == [Move];
    MoveThenSum([Move, Move], 1);
    SeqPath([Move, Move], 2);
    assert [Move, Move, Move][1..] == [Move, Move];
    MoveThenSum([Move, Move, Move], 2);
    assert [Move, Move, Move, Move][1..] == [Move, Move, Move];
    MoveThenSum([Move, Move, Move, Move], 3);
    SeqPath([Move, Move, Move, Move], 4);
  }

  /** The group `(NEEE|SSE(EE|N))` of the second example has a longest path of 5. */
  lemma OuterGroupPath()
    ensures LongestPath(Opt([Seq([Move, Move, Move, Move]), Seq([Move, Move, Move, Opt([Seq([Move, Move]), Seq([Move])])])])) == Ok(5)
  {
    var inner := Opt([Seq([Move, Move]), Seq([Move])]);
    MovesOnlyPath();
    TwoChoicesPath(Seq([Move, Move]), Seq([Move]), 2, 1);
    ThreeMovesThenPath(inner, 2);
    TwoChoicesPath(Seq([Move, Move, Move, Move]), Seq([Move, Move, Move, inner]), 4, 5);
  }

  /** The second example's tree, `^ENWWW(NEEE|SSE(EE|N))$`: the longest
      path has 10 doors. */
  lemma ExampleBranches()
    ensures LongestPath(Seq([Move, Move, Move, Move, Move,
      Opt([Seq([Move, Move, Move, Move]), Seq([Move, Move, Move, Opt([Seq([Move, Move]), Seq([Move])])])])])) == Ok(10)
  {
    OuterGroupPath();
    FiveMovesThenPath(Opt([Seq([Move, Move, Move, Move]), Seq([Move, Move, Move, Opt([Seq([Move, Move]), Seq([Move])])])]), 5);
  }

  /** `n` moves print as `n` letters `N` and are well-shaped steps. */
  lemma {:induction false} MovesPrint(n: nat)
    ensures PrintSteps(seq(n, _ => Move)) == seq(n, _ => 'N')
    ensures StepsShaped(seq(n, _ => Move))
  {
    if n > 0 {
      MovesPrint(n - 1);
      assert seq(n, _ => Move)[1..] == seq(n - 1, _ => Move);
      assert seq(n, _ => 'N') == "N" + seq(n - 1, _ => 'N');
    }
  }

  /** A step appended to well-shaped steps prints after them. */
  lemma {:induction false} StepsPrintSnoc(ts: seq<Tree>, t: Tree)
    requires t == Move || NodeShaped(t)
    ensures PrintSteps(ts + [t]) == PrintSteps(ts) + PrintStep(t)
    ensures StepsShaped(ts) ==> StepsShaped(ts + [t])
  {
    if ts == [] {
      assert [] + [t] == [t];
      assert [t][1..] == [];
    } else {
      assert (ts + [t])[1..] == ts[1..] + [t];
      StepsPrintSnoc(ts[1..], t);
    }
  }

  /** The branch `SSE(EE|N)` of the second example, printed and shaped. */
  lemma RightBranchPrinted()
    ensures var inner := Opt([Seq([Move, Move]), Seq([Move])]);
      PrintNode(Seq([Move, Move, Move, inner])) == "NNN(NN|N)" && StepsShaped([Move, Move, Move, inner])
  {
    var inner := Opt([Seq([Move, Move]), Seq([Move])]);
    MovesPrint(1);
    MovesPrint(2);
    assert seq(1, _ => Move) == [Move] && seq(1, _ => 'N') == "N";
    assert seq(2, _ => Move) == [Move, Move] && seq(2, _ => 'N') == "NN";
    TwoChoicesPrinted(Seq([Move, Move]), Seq([Move]));
    MovesThenGroup(3, inner);
    assert seq(3, _ => Move) + [inner] == [Move, Move, Move, inner] && seq(3, _ => 'N') == "NNN";
  }

  /** The group `(NEEE|SSE(EE|N))` of the second example, printed and shaped. */
  lemma OuterGroupPrinted()
    ensures var right := Seq([Move, Move, Move, Opt([Seq([Move, Move]), Seq([Move])])]);
      var outer := Opt([Seq([Move, Move, Move, Move]), right]);
      PrintNode(outer) == "NNNN|NNN(NN|N)" && NodeShaped(outer)
  {
    var right := Seq([Move, Move, Move, Opt([Seq([Move, Move]), Seq([Move])])]);
    var left := Seq([Move, Move, Move, Move]);
    RightBranchPrinted();
    MovesPrint(4);
    assert seq(4, _ => Move) == [Move, Move, Move, Move] && seq(4, _ => 'N') == "NNNN";
    TwoChoicesPrinted(left, right);
  }

  /** A choice of two sequences prints as both, split by a bar. */
  lemma TwoChoicesPrinted(a: Tree, b: Tree)
    requires a.Seq? && b.Seq? && StepsShaped(a.steps) && StepsShaped(b.steps)
    ensures PrintNode(Opt([a, b])) == PrintNode(a) + "|" + PrintNode(b)
    ensures NodeShaped(Opt([a, b]))
  {
    var cs := [a, b];
    assert cs[1..] == [b] && cs[1..][1..] == [];
    assert ChoicesShaped(cs[1..]);
    assert PrintChoices(cs[1..]) == PrintNode(b);
    assert PrintChoices(cs) == PrintNode(a) + "|" + PrintChoices(cs[1..]);
  }

  /** `n` moves and then a group print as `n` letters and the group. */
  lemma MovesThenGroup(n: nat, g: Tree)
    requires NodeShaped(g)
    ensures PrintNode(Seq(seq(n, _ => Move) + [g])) == seq(n, _ => 'N') + "(" + PrintNode(g) + ")"
    ensures NodeShaped(Seq(seq(n, _ => Move) + [g]))
  {
    MovesPrint(n);
    StepsPrintSnoc(seq(n, _ => Move), g);
  }

  /** Five moves then a group print as five letters then that group. */
  lemma FiveThenGroup(g: Tree)
    requires NodeShaped(g)
    ensures PrintNode(Seq([Move, Move, Move, Move, Move, g])) == "NNNNN" + "(" + PrintNode(g) + ")"
    ensures NodeShaped(Seq([Move, Move, Move, Move, Move, g]))
  {
    MovesThenGroup(5, g);
    var five := seq(5, _ => Move);
    assert five == [Move, Move, Move, Move, Move];
    assert five + [g] == [Move, Move, Move, Move, Move, g];
    assert seq(5, _ => 'N') == "NNNNN";
  }

  /** The second example's tree prints with the second example's shape. */
  lemma BranchesPrinted()
    ensures var outer := Opt([Seq([Move, Move, Move, Move]), Seq([Move, Move, Move, Opt([Seq([Move, Move]), Seq([Move])])])]);
      PrintNode(Seq([Move, Move, Move, Move, Move, outer])) == "NNNNN(NNNN|NNN(NN|N))"
  {
    var outer := Opt([Seq([Move, Move, Move, Move]), Seq([Move, Move, Move, Opt([Seq([Move, Move]), Seq([Move])])])]);
    OuterGroupPrinted();
    FiveThenGroup(outer);
  }

  /** ... and is a node the parser can build. */
  lemma BranchesShaped()
    ensures var outer := Opt([Seq([Move, Move, Move, Move]), Seq([Move, Move, Move, Opt([Seq([Move, Move]), Seq([Move])])])]);
      NodeShaped(Seq([Move, Move, Move, Move, Move, outer]))
  {
    var outer := Opt([Seq([Move, Move, Move, Move]), Seq([Move, Move, Move, Opt([Seq([Move, Move]), Seq([Move])])])]);
    OuterGroupPrinted();
    FiveThenGroup(outer);
  }

  /** The second example's regex parses to that tree. */
  lemma ExampleBranchesParse()
    ensures ParseTree("^ENWWW(NEEE|SSE(EE|N))$") == Ok(Seq([Move, Move, Move, Move, Move,
      Opt([Seq([Move, Move, Move, Move]), Seq([Move, Move, Move, Opt([Seq([Move, Move]), Seq([Move])])])])]))
  {
    var outer := Opt([Seq([Move, Move, Move, Move]), Seq([Move, Move, Move, Opt([Seq([Move, Move]), Seq([Move])])])]);
    var t := Seq([Move, Move, Move, Move, Move, outer]);
    BranchesRegex();
    BranchesSameShape();
    BranchesShaped();
    ParseShaped("^ENWWW(NEEE|SSE(EE|N))$", t);
  }

  /** The second example's tree as a regex. */
  lemma BranchesRegex()
    ensures Regex(Seq([Move, Move, Move, Move, Move,
      Opt([Seq([Move, Move, Move, Move]), Seq([Move, Move, Move, Opt([Seq([Move, Move]), Seq([Move])])])])])) == "^NNNNN(NNNN|NNN(NN|N))$"
  {
    var outer := Opt([Seq([Move, Move, Move, Move]), Seq([Move, Move, Move, Opt([Seq([Move, Move]), Seq([Move])])])]);
    BranchesPrinted();
    RegexOfPrinted(Seq([Move, Move, Move, Move, Move, outer]), "NNNNN(NNNN|NNN(NN|N))", "^NNNNN(NNNN|NNN(NN|N))$");
  }

  /** A tree's regex is its printed text between the anchors. */
  lemma RegexOfPrinted(t: Tree, body: string, regex: string)
    requires PrintNode(t) == body && regex == "^" + body + "$"
    ensures Regex(t) == regex
  {
  }

  /** The second example's regex has the shape of that printed tree. */
  lemma BranchesSameShape()
    ensures SameShape("^ENWWW(NEEE|SSE(EE|N))$", "^NNNNN(NNNN|NNN(NN|N))$")
  {
  }

  /** A move in front of more steps only lowers the distance left for them. */
  lemma MoveThenAt(ts: seq<Tree>, d: int)
    requires ts != []
    ensures StepsAt([Move] + ts, d) == StepsAt(ts, d - 1)
  {
    var us := [Move] + ts;
    assert us[1..] == ts;
  }

  /** A single step counts its node when it is a group, and itself otherwise. */
  lemma OneStepAt(g: Tree, d: int)
    ensures StepsAt([g], d) == if g.Opt? then NodesAtDistance(g, d) else 1
  {
    assert [g][1..] == [];
  }

  /** A choice of two options counts both. */
  lemma TwoChoicesAt(a: Tree, b: Tree, d: int)
    ensures ChoicesAt([a, b], d) == NodesAtDistance(a, d) + NodesAtDistance(b, d)
  {
    assert [a, b][1..] == [b];
    assert [b][1..] == [];
  }

  /** Three moves before a group only lower the distance left for it. */
  lemma ThreeMovesThenGroupAt(g: Tree, d: int)
    requires g.Opt?
    ensures NodesAtDistance(Seq([Move, Move, Move, g]), d) == NodesAtDistance(g, d - 3)
  {
    assert [Move] + [g] == [Move, g];
    MoveThenAt([g], d - 2);
    assert [Move] + [Move, g] == [Move, Move, g];
    MoveThenAt([Move, g], d - 1);
    assert [Move] + [Move, Move, g] == [Move, Move, Move, g];
    MoveThenAt([Move, Move, g], d);
    OneStepAt(g, d - 3);
  }

  /** Five moves before a group only lower the distance left for it. */
  lemma FiveMovesThenGroupAt(g: Tree, d: int)
    requires g.Opt?
    ensures NodesAtDistance(Seq([Move, Move, Move, Move, Move, g]), d) == NodesAtDistance(g, d - 5)
  {
    assert [Move] + [Move, Move, g] == [Move, Move, Move, g];
    MoveThenAt([Move, Move, g], d - 2);
    assert [Move] + [Move, Move, Move, g] == [Move, Move, Move, Move, g];
    MoveThenAt([Move, Move, Move, g], d - 1);
    assert [Move] + [Move, Move, Move, Move, g] == [Move, Move, Move, Move, Move, g];
    MoveThenAt([Move, Move, Move, Move, g], d);
    ThreeMovesThenGroupAt(g, d - 2);
  }

  /** Plain moves count their last room at any distance. */
  lemma MovesOnlyAt(d: int)
    ensures NodesAtDistance(Seq([Move]), d) == 1
    ensures NodesAtDistance(Seq([Move, Move]), d) == 1
    ensures NodesAtDistance(Seq([Move, Move, Move, Move]), d) == 1
  {
    OneStepAt(Move, d);
    OneStepAt(Move, d - 1);
    OneStepAt(Move, d - 3);
    assert [Move] + [Move] == [Move, Move];
    MoveThenAt([Move], d);
    assert [Move] + [Move, Move] == [Move, Move, Move];
    assert [Move] + [Move, Move, Move] == [Move, Move, Move, Move];
    MoveThenAt([Move], d - 2);
    MoveThenAt([Move, Move], d - 1);
    MoveThenAt([Move, Move, Move], d);
  }

  /** The group `(EE|N)` counts both its rooms. */
  lemma InnerGroupAt(d: int)
    ensures NodesAtDistance(Opt([Seq([Move, Move]), Seq([Move])]), d) == 2
  {
    MovesOnlyAt(d);
    TwoChoicesAt(Seq([Move, Move]), Seq([Move]), d);
  }

  /** The group `(NEEE|SSE(EE|N))` counts 3 rooms at least 8 doors into it. */
  lemma OuterGroupAt(d: int)
    ensures NodesAtDistance(Opt([Seq([Move, Move, Move, Move]), Seq([Move, Move, Move, Opt([Seq([Move, Move]), Seq([Move])])])]), d) == 3
  {
    var inner := Opt([Seq([Move, Move]), Seq([Move])]);
    InnerGroupAt(d - 3);
    ThreeMovesThenGroupAt(inner, d);
    MovesOnlyAt(d);
    TwoChoicesAt(Seq([Move, Move, Move, Move]), Seq([Move, Move, Move, inner]), d);
  }

  /** Three rooms of the same tree are at least 3 doors away. */
  lemma ExampleBranchesDistance()
    ensures NodesAtDistance(Seq([Move, Move, Move, Move, Move,
      Opt([Seq([Move, Move, Move, Move]), Seq([Move, Move, Move, Opt([Seq([Move, Move]), Seq([Move])])])])]), 3) == 3
  {
    OuterGroupAt(-2);
    FiveMovesThenGroupAt(Opt([Seq([Move, Move, Move, Move]), Seq([Move, Move, Move, Opt([Seq([Move, Move]), Seq([Move])])])]), 3);
  }
}
