/**
  Cycle breaking. The declared parents of an arbitrary, possibly corrupt table are repaired so
  that they form a forest.
*/
module FolderRepair {
  import opened Text
  import opened ParentGraph
  import opened FolderTable

  /** The parent a row names, if it names another row of the table. */
  function Declared(fs: seq<Folder>, f: Folder): Option<string> {
    match f.parent
    case Some(p) => if p != "" && p != f.token && p in Tokens(fs) then Some(p) else None
    case None => None
  }

  function DeclaredOf(fs: seq<Folder>, t: string): Option<string> {
    match Find(fs, t) case Some(f) => Declared(fs, f) case None => None
  }

  function DeclaredParents(fs: seq<Folder>): Parents {
    map t | t in Tokens(fs) && DeclaredOf(fs, t).Some? :: DeclaredOf(fs, t).value
  }

  function ParentOf(m: Parents, t: string): Option<string> {
    if t in m then Some(m[t]) else None
  }

  /** The declared parents without those of the rows that lie on a cycle. */
  ghost function RepairedParents(fs: seq<Folder>): Parents {
    var m := DeclaredParents(fs);
    map t | t in m && !OnCycle(m, t) :: m[t]
  }

  lemma DeclaredOfRow(fs: seq<Folder>, f: Folder)
    requires DistinctTokens(fs) && f in fs
    ensures ParentOf(DeclaredParents(fs), f.token) == Declared(fs, f)
  {
    FindDistinct(fs, f);
  }

  /** The rows of a table as a dictionary keyed by token. */
  ghost predicate Indexes(byToken: map<string, Folder>, fs: seq<Folder>) {
    byToken.Keys == Tokens(fs) && forall t :: t in byToken ==> byToken[t] in fs && byToken[t].token == t
  }

  function IndexByToken(fs: seq<Folder>): (m: map<string, Folder>)
    requires DistinctTokens(fs)
    ensures Indexes(m, fs)
  {
    assert forall f, g :: f in fs && g in fs && f.token == g.token ==> f == g by {
      forall f, g | f in fs && g in fs && f.token == g.token ensures f == g {
        SameTokenSameRow(fs, f, g);
      }
    }
    map f | f in fs :: f.token := f
  }

  /** `m` gives every row its declared parent. */
  ghost predicate Describes(m: Parents, fs: seq<Folder>) {
    && m.Keys <= Tokens(fs)
    && (forall f {:trigger ParentOf(m, f.token)} :: f in fs ==> ParentOf(m, f.token) == Declared(fs, f))
  }

  lemma DeclaredDescribes(fs: seq<Folder>)
    requires DistinctTokens(fs)
    ensures Describes(DeclaredParents(fs), fs)
  {
    forall f | f in fs ensures ParentOf(DeclaredParents(fs), f.token) == Declared(fs, f) {
      DeclaredOfRow(fs, f);
    }
  }

  lemma DeclaredNamesRow(fs: seq<Folder>, f: Folder)
    ensures Declared(fs, f).Some? ==> Declared(fs, f).value in Tokens(fs)
  {
  }

  /** The bounded walk up from one row: it meets its start again exactly when the row lies on a cycle. */
  method WalkFindsCycle(folders: seq<Folder>, byToken: map<string, Folder>, f: Folder, ghost m: Parents)
    returns (cyclic: bool)
    requires Indexes(byToken, folders) && Describes(m, folders) && f in folders
    ensures cyclic <==> OnCycle(m, f.token)
  {
    var cursor := Declared(folders, f);
    var steps := 0;
    cyclic := false;
    DeclaredNamesRow(folders, f);
    assert ParentOf(m, f.token) == cursor;
    UpStep(m, f.token, 0);
    while cursor.Some?
      invariant 0 <= steps <= |folders|
      invariant cursor == Up(m, f.token, steps + 1)
      invariant cursor.Some? ==> cursor.value in byToken
      invariant forall k: nat :: 1 <= k <= steps ==> Up(m, f.token, k) != Some(f.token)
      decreases |folders| - steps
    {
      var p := cursor.value;
      if p == f.token {
        cyclic := true;
        break;
      }
      steps := steps + 1;
      if steps > |folders| {
        break;
      }
      DeclaredNamesRow(folders, byToken[p]);
      UpStep(m, f.token, steps);
      cursor := Declared(folders, byToken[p]);
      assert ParentOf(m, byToken[p].token) == cursor;
    }
    WalkDecidesCycle(folders, m, f.token, steps, cyclic);
  }

  /**
    The parents the directory uses. A row loses its parent exactly when it lies on a cycle of
    declared parents: giving up after as many steps as there are rows hides no cycle.
  */
  method EffectiveParents(folders: seq<Folder>) returns (out: map<string, Option<string>>)
    requires DistinctTokens(folders)
    ensures out.Keys == Tokens(folders)
    ensures forall t :: t in out ==> out[t] == ParentOf(RepairedParents(folders), t)
  {
    var byToken := IndexByToken(folders);
    ghost var m := DeclaredParents(folders);
    DeclaredDescribes(folders);
    out := map[];
    for i := 0 to |folders|
      invariant RepairsUpTo(out, folders, m, i)
    {
      hide RepairsUpTo, OnCycle, Declared, Indexes;
      var f := folders[i];
      var parent := Declared(folders, f);
      var cyclic := WalkFindsCycle(folders, byToken, f, m);
      assert ParentOf(m, f.token) == parent;
      RepairsNext(out, folders, m, i);
      out := out[f.token := if cyclic then None else parent];
    }
    RepairsAll(out, folders);
  }

  ghost predicate RepairsUpTo(out: map<string, Option<string>>, fs: seq<Folder>, m: Parents, n: nat)
    requires n <= |fs|
  {
    && (forall j :: 0 <= j < n ==> fs[j].token in out)
    && (forall t :: t in out ==> (exists j :: 0 <= j < n && fs[j].token == t)
                                 && out[t] == if OnCycle(m, t) then None else ParentOf(m, t))
  }

  lemma RepairsNext(out: map<string, Option<string>>, fs: seq<Folder>, m: Parents, i: nat)
    requires i < |fs| && RepairsUpTo(out, fs, m, i)
    ensures var t := fs[i].token;
            RepairsUpTo(out[t := if OnCycle(m, t) then None else ParentOf(m, t)], fs, m, i + 1)
  {
    hide OnCycle, ParentOf;
  }

  lemma RepairsAll(out: map<string, Option<string>>, fs: seq<Folder>)
    requires RepairsUpTo(out, fs, DeclaredParents(fs), |fs|)
    ensures out.Keys == Tokens(fs)
    ensures forall t :: t in out ==> out[t] == ParentOf(RepairedParents(fs), t)
  {
  }

  /** What one bounded walk has seen settles whether its start lies on a cycle. */
  lemma WalkDecidesCycle(fs: seq<Folder>, m: Parents, t: string, steps: nat, cyclic: bool)
    requires m.Keys <= Tokens(fs)
    requires cyclic ==> Up(m, t, steps + 1) == Some(t)
    requires !cyclic ==> forall k: nat :: 1 <= k <= steps ==> Up(m, t, k) != Some(t)
    requires !cyclic ==> steps >= |fs| || Up(m, t, steps + 1).None?
    ensures cyclic <==> OnCycle(m, t)
  {
    TokensCount(fs);
    CardinalityOfSubset(m.Keys, Tokens(fs));
    if !cyclic && OnCycle(m, t) {
      var n := CycleWithin(m, t);
      if steps < n { UpPastEnd(m, t, steps + 1, n); }
    }
  }

  /** No row lies on a cycle after the repair, however corrupt the table. */
  lemma RepairedIsAcyclic(fs: seq<Folder>)
    ensures Acyclic(RepairedParents(fs))
  {
    var m, r := DeclaredParents(fs), RepairedParents(fs);
    forall t | t in r ensures !OnCycle(r, t) {
      if OnCycle(r, t) {
        var k: nat :| k >= 1 && Up(r, t, k) == Some(t);
        SubtableWalk(r, m, t, k);
      }
    }
  }

  /** A repaired parent is a row of the table. */
  lemma StepsStayInTable(fs: seq<Folder>, t: string)
    requires t in RepairedParents(fs)
    ensures t in Tokens(fs) && RepairedParents(fs)[t] in Tokens(fs)
  {
  }

  /** A walk of `d` steps visits `d + 1` different rows. */
  lemma UpPrefixInTokens(fs: seq<Folder>, t: string, d: nat)
    requires t in Tokens(fs) && Acyclic(RepairedParents(fs))
    requires Up(RepairedParents(fs), t, d).Some?
    ensures d < |fs|
  {
    hide RepairedParents, Tokens;
    var r := RepairedParents(fs);
    var end := Up(r, t, d).value;
    var visited := Orbit(r, t, d) + [end];
    forall x | x in visited ensures x in Tokens(fs) {
      if x in Orbit(r, t, d) {
        StepsStayInTable(fs, x);
      } else if d > 0 {
        UpStep(r, t, d - 1);
        StepsStayInTable(fs, Up(r, t, d - 1).value);
      }
    }
    forall i: nat, j: nat | i < j < |visited| ensures visited[i] != visited[j] {
      assert Up(r, t, j) == Some(visited[j]) && Up(r, t, i) == Some(visited[i]);
      if visited[i] == visited[j] { RepeatIsCycle(r, t, i, j); }
    }
    DistinctFits(visited, Tokens(fs));
    TokensCount(fs);
  }

  /** From every row the repaired parents lead to a root, in fewer steps than there are rows. */
  lemma RepairedReachesRoot(fs: seq<Folder>, t: string)
    requires t in Tokens(fs)
    ensures Acyclic(RepairedParents(fs)) && Depth(RepairedParents(fs), t) < |fs|
  {
    hide RepairedParents, Tokens, Acyclic;
    RepairedIsAcyclic(fs);
    UpPrefixInTokens(fs, t, Depth(RepairedParents(fs), t));
  }

  /** The whole result of the repair. */
  lemma RepairedIsForest(fs: seq<Folder>)
    ensures Acyclic(RepairedParents(fs))
    ensures forall t :: t in RepairedParents(fs) ==> t in Tokens(fs) && RepairedParents(fs)[t] in Tokens(fs)
    ensures forall t :: t in Tokens(fs) ==> Depth(RepairedParents(fs), t) < |fs|
  {
    hide RepairedParents, Tokens, Acyclic;
    RepairedIsAcyclic(fs);
    forall t | t in RepairedParents(fs) ensures t in Tokens(fs) && RepairedParents(fs)[t] in Tokens(fs) {
      StepsStayInTable(fs, t);
    }
    forall t | t in Tokens(fs) ensures Depth(RepairedParents(fs), t) < |fs| {
      RepairedReachesRoot(fs, t);
    }
  }
}
