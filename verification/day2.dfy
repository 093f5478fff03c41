/** Box-ID helpers: the character multiplicities of an ID, the positional
    difference and common letters of two IDs, and all unordered pairs of a list. */
module Day2 {

  /** The set of multiplicities of the characters occurring in `s`. */
  function RepeatCounts(s: string): (r: set<nat>)
    ensures forall n :: n in r ==> n >= 1
    ensures r == {} <==> s == []
  {
    var r := set c | c in multiset(s) :: multiset(s)[c];
    assert s != [] ==> s[0] in multiset(s) && multiset(s)[s[0]] in r;
    r
  }

  lemma RepeatCountsOfSingleLetters(s: string, c: char)
    requires |s| > 0 && forall i :: 0 <= i < |s| ==> s[i] == c
    ensures RepeatCounts(s) == {|s|}
  {
    var m := multiset(s);
    assert forall d :: d in m ==> d == c;
    assert s[0] in m;
    MultisetOfConstant(s, c);
  }

  lemma {:induction false} MultisetOfConstant(s: string, c: char)
    requires forall i :: 0 <= i < |s| ==> s[i] == c
    ensures multiset(s)[c] == |s|
  {
    if s != [] {
      assert s == [s[0]] + s[1..];
      MultisetOfConstant(s[1..], c);
    }
  }

  /** Number of positions of the zipped prefix where the IDs differ. */
  function Difference(a: string, b: string): nat
    decreases |a|
  {
    if a == [] || b == [] then 0
    else (if a[0] == b[0] then 0 else 1) + Difference(a[1..], b[1..])
  }

  /** The characters equal at the same index, in order. */
  function Common(a: string, b: string): string
    decreases |a|
  {
    if a == [] || b == [] then []
    else (if a[0] == b[0] then [a[0]] else []) + Common(a[1..], b[1..])
  }

  function Min(a: nat, b: nat): nat {
    if a < b then a else b
  }

  lemma {:induction false} DifferenceSymmetric(a: string, b: string)
    ensures Difference(a, b) == Difference(b, a)
    decreases |a|
  {
    if a != [] && b != [] {
      DifferenceSymmetric(a[1..], b[1..]);
    }
  }

  lemma {:induction false} DifferenceToSelf(a: string)
    ensures Difference(a, a) == 0
    ensures Common(a, a) == a
    decreases |a|
  {
    if a != [] {
      DifferenceToSelf(a[1..]);
    }
  }

  /** Every index of the zipped prefix either agrees (and is kept by `Common`)
      or differs (and is counted by `Difference`). */
  lemma {:induction false} CommonPlusDifference(a: string, b: string)
    ensures |Common(a, b)| + Difference(a, b) == Min(|a|, |b|)
    decreases |a|
  {
    if a != [] && b != [] {
      CommonPlusDifference(a[1..], b[1..]);
    }
  }

  /** `Common` keeps exactly the agreeing characters, in order: it is a
      subsequence of `a` of the agreeing letters. */
  lemma {:induction false} CommonIsAgreeing(a: string, b: string, k: nat)
    requires k < |Common(a, b)|
    ensures exists i :: 0 <= i < |a| && i < |b| && a[i] == b[i] && Common(a, b)[k] == a[i]
    decreases |a|
  {
    if a[0] == b[0] && k == 0 {
      assert a[0] == b[0] && Common(a, b)[0] == a[0];
    } else {
      var k' := if a[0] == b[0] then k - 1 else k;
      assert Common(a, b)[k] == Common(a[1..], b[1..])[k'];
      CommonIsAgreeing(a[1..], b[1..], k');
      var i :| 0 <= i < |a[1..]| && i < |b[1..]| && a[1..][i] == b[1..][i] && Common(a[1..], b[1..])[k'] == a[1..][i];
      assert a[i + 1] == b[i + 1] && Common(a, b)[k] == a[i + 1];
    }
  }

  /** Every pair `(xs[i], xs[j])` with `i < j`: each head with every later
      element, followed by the pairs of the tail. */
  function Pairs<T>(xs: seq<T>): (r: seq<(T, T)>)
    ensures |r| == |xs| * (|xs| - 1) / 2
    decreases |xs|
  {
    if xs == [] then []
    else
      var tail := Pairs(xs[1..]);
      var n := |xs|;
      assert n * (n - 1) / 2 == (n - 1) + (n - 1) * (n - 2) / 2 by {
        assert n * (n - 1) == 2 * (n - 1) + (n - 1) * (n - 2);
      }
      seq(|xs| - 1, k requires 0 <= k < |xs| - 1 => (xs[0], xs[k + 1])) + tail
  }

  lemma {:induction false} PairsComplete<T>(xs: seq<T>, i: nat, j: nat)
    requires i < j < |xs|
    ensures (xs[i], xs[j]) in Pairs(xs)
    decreases |xs|
  {
    var heads := seq(|xs| - 1, k requires 0 <= k < |xs| - 1 => (xs[0], xs[k + 1]));
    assert Pairs(xs) == heads + Pairs(xs[1..]);
    if i == 0 {
      assert heads[j - 1] == (xs[i], xs[j]);
    } else {
      PairsComplete(xs[1..], i - 1, j - 1);
    }
  }

  lemma {:induction false} PairsSound<T>(xs: seq<T>, k: nat)
    requires k < |Pairs(xs)|
    ensures exists i, j :: 0 <= i < j < |xs| && Pairs(xs)[k] == (xs[i], xs[j])
    decreases |xs|
  {
    var heads := seq(|xs| - 1, m requires 0 <= m < |xs| - 1 => (xs[0], xs[m + 1]));
    assert Pairs(xs) == heads + Pairs(xs[1..]);
    if k < |heads| {
      assert Pairs(xs)[k] == (xs[0], xs[k + 1]);
    } else {
      PairsSound(xs[1..], k - |heads|);
      var i, j :| 0 <= i < j < |xs[1..]| && Pairs(xs[1..])[k - |heads|] == (xs[1..][i], xs[1..][j]);
      assert Pairs(xs)[k] == (xs[i + 1], xs[j + 1]);
    }
  }
}
