/**
  Parent tables seen as partial functions from a token to its parent token. The table may be
  arbitrary, cyclic ones included. The bounded walks of the folder code are justified here by
  counting: a walk longer than the table has keys repeats a token.
*/
module ParentGraph {
  import opened Text

  type Parents = map<string, string>

  /** The token `k` parents above `t`, if the walk gets that far. */
  function Up(m: Parents, t: string, k: nat): Option<string>
    decreases k
  {
    if k == 0 then Some(t)
    else if t in m then Up(m, m[t], k - 1)
    else None
  }

  /** `a` is `t` or one of its ancestors. */
  ghost predicate Reaches(m: Parents, t: string, a: string) {
    exists k: nat :: Up(m, t, k) == Some(a)
  }

  /** `t` is a proper ancestor of itself. */
  ghost predicate OnCycle(m: Parents, t: string) {
    exists k: nat :: k >= 1 && Up(m, t, k) == Some(t)
  }

  ghost predicate Acyclic(m: Parents) {
    forall t :: t in m ==> !OnCycle(m, t)
  }

  // ---------- composing walks ----------

  lemma {:induction false} UpAdd(m: Parents, t: string, i: nat, j: nat)
    ensures Up(m, t, i + j) == match Up(m, t, i) case None => None case Some(x) => Up(m, x, j)
    decreases i
  {
    if i > 0 && t in m {
      UpAdd(m, m[t], i - 1, j);
    }
  }

  lemma UpStep(m: Parents, t: string, k: nat)
    ensures Up(m, t, k + 1) == match Up(m, t, k) case None => None case Some(x) => if x in m then Some(m[x]) else None
  {
    UpAdd(m, t, k, 1);
    match Up(m, t, k)
    case None =>
    case Some(x) =>
      if x in m { assert Up(m, x, 1) == Up(m, m[x], 0); }
  }

  lemma UpPrefix(m: Parents, t: string, i: nat, k: nat)
    requires i < k && Up(m, t, k).Some?
    ensures Up(m, t, i).Some? && Up(m, t, i).value in m
  {
    UpAdd(m, t, i, k - i);
  }

  lemma UpPastEnd(m: Parents, t: string, i: nat, k: nat)
    requires i <= k && Up(m, t, i).None?
    ensures Up(m, t, k).None?
  {
    UpAdd(m, t, i, k - i);
  }

  // ---------- counting ----------

  lemma {:induction false} DistinctFits<T(!new)>(s: seq<T>, universe: set<T>)
    requires Distinct(s) && forall x :: x in s ==> x in universe
    ensures |s| <= |universe|
  {
    if s != [] {
      var x := s[|s| - 1];
      var rest := s[..|s| - 1];
      forall y | y in rest ensures y in universe - {x} {
        var i :| 0 <= i < |rest| && rest[i] == y;
        assert s[i] == y;
      }
      DistinctFits(rest, universe - {x});
    }
  }

  ghost function Orbit(m: Parents, t: string, k: nat): (o: seq<string>)
    requires Up(m, t, k).Some?
    ensures |o| == k && forall i :: 0 <= i < k ==> Up(m, t, i) == Some(o[i]) && o[i] in m
    decreases k
  {
    if k == 0 then []
    else
      UpPrefix(m, t, k - 1, k);
      Orbit(m, t, k - 1) + [Up(m, t, k - 1).value]
  }

  /** A walk longer than the table visits some token twice. */
  lemma LongWalkRepeats(m: Parents, t: string, k: nat) returns (i: nat, j: nat)
    requires Up(m, t, k).Some? && k > |m.Keys|
    ensures i < j < k && Up(m, t, i) == Up(m, t, j)
  {
    var o := Orbit(m, t, k);
    if Distinct(o) {
      DistinctFits(o, m.Keys);
    }
    i, j :| 0 <= i < j < |o| && o[i] == o[j];
  }

  /** Every token an ancestor walk finds, it finds within as many steps as the table has keys. */
  lemma {:induction false} ReachWithin(m: Parents, t: string, a: string, k: nat) returns (n: nat)
    requires Up(m, t, k) == Some(a)
    ensures n <= |m.Keys| && n <= k && Up(m, t, n) == Some(a)
    decreases k
  {
    n := k;
    if k > |m.Keys| {
      var i, j := LongWalkRepeats(m, t, k);
      UpAdd(m, t, i, k - j);
      UpAdd(m, t, j, k - j);
      n := ReachWithin(m, t, a, i + (k - j));
    }
  }

  /** A cycle through `t` closes within as many steps as the table has keys. */
  lemma {:induction false} CycleWithin(m: Parents, t: string) returns (n: nat)
    requires OnCycle(m, t)
    ensures 1 <= n <= |m.Keys| && Up(m, t, n) == Some(t)
  {
    var k: nat :| k >= 1 && Up(m, t, k) == Some(t);
    assert t in m;
    UpAdd(m, t, 1, k - 1);
    assert Up(m, t, 1) == Some(m[t]);
    n := k;
    while n > |m.Keys|
      invariant n >= 1 && Up(m, t, n) == Some(t)
      decreases n
    {
      var i, j := LongWalkRepeats(m, t, n);
      UpAdd(m, t, i, n - j);
      UpAdd(m, t, j, n - j);
      n := i + (n - j);
    }
  }

  lemma {:induction false} SubtableWalk(m: Parents, n: Parents, t: string, k: nat)
    requires forall x :: x in m ==> x in n && n[x] == m[x]
    requires Up(m, t, k).Some?
    ensures Up(n, t, k) == Up(m, t, k)
    decreases k
  {
    if k > 0 {
      SubtableWalk(m, n, m[t], k - 1);
    }
  }

  // ---------- acyclic tables ----------

  lemma RepeatIsCycle(m: Parents, t: string, i: nat, j: nat)
    requires i < j && Up(m, t, i).Some? && Up(m, t, i) == Up(m, t, j)
    ensures OnCycle(m, Up(m, t, i).value) && Up(m, t, i).value in m
  {
    UpPrefix(m, t, i, j);
    UpAdd(m, t, i, j - i);
    assert Up(m, Up(m, t, i).value, j - i) == Some(Up(m, t, i).value);
  }

  /** On an acyclic table every walk ends within as many steps as the table has keys. */
  lemma AcyclicWalkEnds(m: Parents, t: string)
    requires Acyclic(m)
    ensures Up(m, t, |m.Keys| + 1).None?
  {
    var k := |m.Keys| + 1;
    if Up(m, t, k).Some? {
      var i, j := LongWalkRepeats(m, t, k);
      UpPrefix(m, t, i, k);
      RepeatIsCycle(m, t, i, j);
    }
  }

  lemma {:induction false} WalkHasEnd(m: Parents, t: string, bound: nat) returns (d: nat)
    requires Up(m, t, bound).None?
    ensures d < bound && Up(m, t, d).Some? && Up(m, t, d + 1).None?
  {
    assert bound > 0;
    if Up(m, t, bound - 1).None? {
      d := WalkHasEnd(m, t, bound - 1);
    } else {
      d := bound - 1;
    }
  }

  /** The number of proper ancestors of `t`. */
  ghost function Depth(m: Parents, t: string): (d: nat)
    requires Acyclic(m)
    ensures d <= |m.Keys| && Up(m, t, d).Some? && Up(m, t, d + 1).None?
  {
    AcyclicWalkEnds(m, t);
    assert exists d: nat :: d <= |m.Keys| && Up(m, t, d).Some? && Up(m, t, d + 1).None? by {
      var d := WalkHasEnd(m, t, |m.Keys| + 1);
    }
    var d: nat :| d <= |m.Keys| && Up(m, t, d).Some? && Up(m, t, d + 1).None?;
    d
  }

  lemma DepthUnique(m: Parents, t: string, d: nat)
    requires Acyclic(m) && Up(m, t, d).Some? && Up(m, t, d + 1).None?
    ensures Depth(m, t) == d
  {
    var e := Depth(m, t);
    if e < d { UpPastEnd(m, t, e + 1, d); }
    if d < e { UpPastEnd(m, t, d + 1, e); }
  }

  lemma DepthOfChild(m: Parents, t: string)
    requires Acyclic(m)
    ensures t in m ==> Depth(m, t) == Depth(m, m[t]) + 1
    ensures t !in m ==> Depth(m, t) == 0
  {
    if t in m {
      var d := Depth(m, m[t]);
      assert Up(m, t, d + 1) == Up(m, m[t], d);
      assert Up(m, t, d + 2) == Up(m, m[t], d + 1);
      DepthUnique(m, t, d + 1);
    } else {
      DepthUnique(m, t, 0);
    }
  }

  lemma {:induction false} DepthOfAncestor(m: Parents, t: string, k: nat)
    requires Acyclic(m) && Up(m, t, k).Some?
    ensures k <= Depth(m, t) && Depth(m, Up(m, t, k).value) == Depth(m, t) - k
    decreases k
  {
    DepthOfChild(m, t);
    if k > 0 {
      DepthOfAncestor(m, m[t], k - 1);
    }
  }
}
