/**
  One write on the table as it is when the server has answered, which need not be the table that
  was checked: exactly which writes keep the forest, the names, and the parents that are rows.
*/
module FolderWrites {
  import opened Text
  import opened ParentGraph
  import opened FolderTable
  import opened FolderRepair
  import opened FolderOps

  // ---------- parents as they are named ----------

  /** The parent a row names, whether or not there is such a row. */
  function NamedParentOf(fs: seq<Folder>, t: string): Option<string> {
    match Find(fs, t)
    case Some(f) => if f.parent != Some(t) then f.parent else None
    case None => None
  }

  function NamedParents(fs: seq<Folder>): Parents {
    map t | t in Tokens(fs) && NamedParentOf(fs, t).Some? :: NamedParentOf(fs, t).value
  }

  /** No row names `token` as its parent. */
  ghost predicate NamedByNone(fs: seq<Folder>, token: string) {
    forall f :: f in fs ==> f.parent != Some(token)
  }

  lemma SameParents(a: Parents, b: Parents)
    requires forall t :: ParentOf(a, t) == ParentOf(b, t)
    ensures a == b
  {
    forall t ensures t in a <==> t in b
      ensures t in a ==> a[t] == b[t]
    {
      assert ParentOf(a, t) == ParentOf(b, t);
    }
  }

  lemma FollowNamed(fs: seq<Folder>, t: string)
    ensures ParentOf(NamedParents(fs), t) == NamedParentOf(fs, t)
  {
  }

  /** A walk by named parents that ends at a row is a walk by the parents the guards see. */
  lemma {:induction false} NamedWalkIsLive(fs: seq<Folder>, x: string, t: string, k: nat)
    requires Up(NamedParents(fs), x, k) == Some(t) && t in Tokens(fs)
    ensures Up(LiveParents(fs), x, k) == Some(t)
    decreases k
  {
    if k > 0 {
      var y := NamedParents(fs)[x];
      NamedWalkIsLive(fs, y, t, k - 1);
      assert y in Tokens(fs);
      assert LiveParents(fs)[x] == y;
    }
  }

  lemma LiveIsNamed(fs: seq<Folder>)
    ensures forall x :: x in LiveParents(fs) ==> x in NamedParents(fs) && NamedParents(fs)[x] == LiveParents(fs)[x]
  {
    hide Tokens;
  }

  lemma NamedReachesIff(fs: seq<Folder>, x: string, t: string)
    requires t in Tokens(fs)
    ensures Reaches(NamedParents(fs), x, t) <==> Reaches(LiveParents(fs), x, t)
  {
    hide NamedParents, LiveParents;
    if Reaches(NamedParents(fs), x, t) {
      var k: nat :| Up(NamedParents(fs), x, k) == Some(t);
      NamedWalkIsLive(fs, x, t, k);
    }
    if Reaches(LiveParents(fs), x, t) {
      var k: nat :| Up(LiveParents(fs), x, k) == Some(t);
      LiveIsNamed(fs);
      SubtableWalk(LiveParents(fs), NamedParents(fs), x, k);
    }
  }

  /** Dangling parents are on no cycle: both readings of the table are acyclic together. */
  lemma NamedAcyclicIff(fs: seq<Folder>)
    ensures Acyclic(NamedParents(fs)) <==> Acyclic(LiveParents(fs))
  {
    LiveIsNamed(fs);
    if Acyclic(NamedParents(fs)) { SubtableKeepsAcyclic(LiveParents(fs), NamedParents(fs)); }
    if Acyclic(LiveParents(fs)) {
      forall t | t in NamedParents(fs) ensures !OnCycle(NamedParents(fs), t) {
        if OnCycle(NamedParents(fs), t) {
          var k: nat :| k >= 1 && Up(NamedParents(fs), t, k) == Some(t);
          NamedWalkIsLive(fs, t, t, k);
          assert OnCycle(LiveParents(fs), t) && t in LiveParents(fs);
        }
      }
    }
  }

  // ---------- one write, on the table as it is then ----------

  /** Tokens that the operations write are not empty. */
  predicate Writable(w: Write) {
    w.Put? ==> w.row.token != ""
  }

  lemma NamedAfterPut(fs: seq<Folder>, f: Folder)
    requires DistinctTokens(fs)
    ensures NamedParents(Upsert(fs, f)) ==
      if f.parent.Some? && f.parent.value != f.token then NamedParents(fs)[f.token := f.parent.value]
      else NamedParents(fs) - {f.token}
  {
    hide NamedParents, Upsert;
    UpsertRows(fs, f);
    var after := Upsert(fs, f);
    var goal := if f.parent.Some? && f.parent.value != f.token then NamedParents(fs)[f.token := f.parent.value]
                else NamedParents(fs) - {f.token};
    forall t ensures ParentOf(NamedParents(after), t) == ParentOf(goal, t) {
      FollowNamed(after, t);
      FollowNamed(fs, t);
      if t == f.token {
        FindDistinct(after, f);
      } else if t in Tokens(fs) {
        FindDistinct(after, Find(fs, t).value);
      }
    }
    SameParents(NamedParents(after), goal);
  }

  /** A row as it is after a removal. */
  function Cleared(f: Folder, t: string): Folder {
    if f.parent == Some(t) then f.(parent := None) else f
  }

  /** What removal does to the first row. */
  function Kept(f: Folder, t: string): seq<Folder> {
    if f.token == t then [] else [Cleared(f, t)]
  }

  lemma {:induction false} MemberAfterRemove(fs: seq<Folder>, t: string, g: Folder)
    ensures g in DeleteRow(fs, t) <==> exists h :: h in fs && h.token != t && g == Cleared(h, t)
  {
    if fs != [] {
      MemberAfterRemove(fs[1..], t, g);
      assert DeleteRow(fs, t) == Kept(fs[0], t) + DeleteRow(fs[1..], t);
      assert forall h :: h in fs <==> h == fs[0] || h in fs[1..];
    }
  }

  lemma {:induction false} DistinctAfterRemove(fs: seq<Folder>, t: string)
    requires DistinctTokens(fs)
    ensures DistinctTokens(DeleteRow(fs, t))
  {
    if fs != [] {
      DistinctAfterRemove(fs[1..], t);
      TokensAfterRemove(fs[1..], t);
      FirstTokenIsNew(fs);
      var kept, r := Kept(fs[0], t), DeleteRow(fs[1..], t);
      assert DeleteRow(fs, t) == kept + r;
      forall i | 0 <= i < |r| ensures r[i].token != fs[0].token {
        assert r[i] in r && r[i].token in Tokens(r);
      }
    }
  }

  lemma FirstTokenIsNew(fs: seq<Folder>)
    requires DistinctTokens(fs) && fs != []
    ensures fs[0].token !in Tokens(fs[1..])
  {
    forall f | f in fs[1..] ensures f.token != fs[0].token {
      var i :| 0 <= i < |fs[1..]| && fs[1..][i] == f;
      assert fs[i + 1] == f;
    }
  }

  lemma {:induction false} TokensAfterRemove(fs: seq<Folder>, t: string)
    ensures Tokens(DeleteRow(fs, t)) == Tokens(fs) - {t}
  {
    if fs != [] {
      TokensAfterRemove(fs[1..], t);
      assert fs == [fs[0]] + fs[1..];
      assert Tokens(fs) == {fs[0].token} + Tokens(fs[1..]);
      var kept := Kept(fs[0], t);
      assert DeleteRow(fs, t) == kept + DeleteRow(fs[1..], t);
      assert Tokens(DeleteRow(fs, t)) == Tokens(kept) + Tokens(DeleteRow(fs[1..], t));
    }
  }

  lemma NothingNamesTheRemoved(fs: seq<Folder>, t: string)
    ensures t !in Tokens(DeleteRow(fs, t)) && NamedByNone(DeleteRow(fs, t), t)
  {
    hide DeleteRow, Tokens;
    TokensAfterRemove(fs, t);
    forall g | g in DeleteRow(fs, t) ensures g.parent != Some(t) { MemberAfterRemove(fs, t, g); }
  }

  /** The named parent that the removal of `t` leaves a row. */
  function ParentLeft(fs: seq<Folder>, t: string, x: string): Option<string> {
    var p := ParentOf(NamedParents(fs), x);
    if x == t || p == Some(t) then None else p
  }

  lemma NamedAfterRemove(fs: seq<Folder>, t: string)
    requires DistinctTokens(fs)
    ensures forall x :: ParentOf(NamedParents(DeleteRow(fs, t)), x) == ParentLeft(fs, t, x)
  {
    hide NamedParents, DeleteRow;
    var after := DeleteRow(fs, t);
    TokensAfterRemove(fs, t);
    DistinctAfterRemove(fs, t);
    forall x ensures ParentOf(NamedParents(after), x) == ParentLeft(fs, t, x) {
      FollowNamed(after, x);
      FollowNamed(fs, x);
      if x in Tokens(fs) && x != t {
        var h := Find(fs, x).value;
        MemberAfterRemove(fs, t, Cleared(h, t));
        FindDistinct(after, Cleared(h, t));
      }
    }
  }

  /** The guard against cycles as it would have to be made at the write. */
  ghost predicate ForestSafe(fs: seq<Folder>, w: Write) {
    w.Put? && w.row.parent.Some? && w.row.parent.value != w.row.token ==>
      !Reaches(NamedParents(fs), w.row.parent.value, w.row.token)
  }

  lemma {:induction false} UnnamedIsUnreachable(m: Parents, x: string, t: string, k: nat)
    requires x != t && forall y :: y in m ==> m[y] != t
    ensures Up(m, x, k) != Some(t)
    decreases k
  {
    if k > 0 && x in m { UnnamedIsUnreachable(m, m[x], t, k - 1); }
  }

  /** For a row in the table, or new to it, that is the guard the program has, made at the write. */
  lemma GuardIsForestSafe(fs: seq<Folder>, f: Folder)
    requires f.token in Tokens(fs) || NamedByNone(fs, f.token)
    requires f.parent != Some(f.token)
    ensures ForestSafe(fs, Put(f)) <==> (f.parent.Some? ==> !Reaches(LiveParents(fs), f.parent.value, f.token))
  {
    hide Tokens, EffectiveParent;
    if f.parent.None? {
    } else if f.token in Tokens(fs) {
      hide NamedParents, LiveParents;
      NamedReachesIff(fs, f.parent.value, f.token);
    } else {
      forall k: nat ensures Up(NamedParents(fs), f.parent.value, k) != Some(f.token) {
        UnnamedIsUnreachable(NamedParents(fs), f.parent.value, f.token, k);
      }
      forall k: nat ensures Up(LiveParents(fs), f.parent.value, k) != Some(f.token) {
        LiveIsNamed(fs);
        UnnamedIsUnreachable(LiveParents(fs), f.parent.value, f.token, k);
      }
    }
  }

  lemma TokensAfterWrite(fs: seq<Folder>, w: Write)
    requires DistinctTokens(fs)
    ensures DistinctTokens(Written(fs, w))
    ensures Tokens(Written(fs, w)) == if w.Put? then Tokens(fs) + {w.row.token} else Tokens(fs) - {w.token}
  {
    hide Upsert, DeleteRow;
    match w
    case Put(f) => UpsertRows(fs, f);
    case Remove(t) =>
      TokensAfterRemove(fs, t);
      DistinctAfterRemove(fs, t);
  }

  /**
    A write keeps a forest a forest if and only if the row's new parent is not below the row in the
    table as it is at the write; a removal always does.
  */
  lemma WriteKeepsForestIff(fs: seq<Folder>, w: Write)
    requires Structured(fs)
    ensures Structured(Written(fs, w)) <==> Writable(w) && ForestSafe(fs, w)
  {
    hide NamedParents, LiveParents, Upsert, DeleteRow, Acyclic, Reaches, DistinctTokens, Tokens;
    var after := Written(fs, w);
    TokensAfterWrite(fs, w);
    NamedAcyclicIff(fs);
    NamedAcyclicIff(after);
    match w {
      case Put(f) =>
        NamedAfterPut(fs, f);
        if f.parent.Some? && f.parent.value != f.token {
          EdgeKeepsAcyclicIff(NamedParents(fs), f.token, f.parent.value);
        } else {
          SubtableKeepsAcyclic(NamedParents(after), NamedParents(fs));
        }
      case Remove(t) =>
        NamedAfterRemove(fs, t);
        FewerParentsStayAcyclic(NamedParents(after), NamedParents(fs));
    }
  }

  lemma FewerParentsStayAcyclic(m: Parents, n: Parents)
    requires Acyclic(n) && forall x :: ParentOf(m, x).Some? ==> ParentOf(m, x) == ParentOf(n, x)
    ensures Acyclic(m)
  {
    forall x | x in m ensures x in n && n[x] == m[x] {
      assert ParentOf(m, x).Some?;
    }
    SubtableKeepsAcyclic(m, n);
  }

  /** Every row a write leaves names a row as its parent if and only if the written row does. */
  lemma WriteKeepsParentsIff(fs: seq<Folder>, w: Write)
    requires NoDangling(fs) && DistinctTokens(fs)
    ensures NoDangling(Written(fs, w)) <==> ParentPresent(fs, w)
  {
    hide Upsert, DeleteRow, Tokens, DistinctTokens;
    TokensAfterWrite(fs, w);
    match w {
      case Put(f) =>
        UpsertRows(fs, f);
        assert f in Upsert(fs, f);
      case Remove(t) =>
        forall g | g in DeleteRow(fs, t) && g.parent.Some? ensures g.parent.value in Tokens(fs) - {t} {
          MemberAfterRemove(fs, t, g);
        }
    }
  }

  /** The parent that is written is a row by then. */
  predicate ParentPresent(fs: seq<Folder>, w: Write) {
    w.Put? && w.row.parent.Some? ==> w.row.parent.value in Tokens(fs) + {w.row.token}
  }

  // ---------- names at the write ----------

  /** Where a written row will stand: below its parent if there is one by then, else at the top. */
  function LandingParent(fs: seq<Folder>, f: Folder): Option<string> {
    if f.parent.Some? && f.parent.value != f.token && f.parent.value in Tokens(fs) then f.parent else None
  }

  /**
    The sibling check as it would have to be made at the write: under the trimmed name, at the place
    where the row will stand, and among the rows that stand there by then.
  */
  ghost predicate PutClashes(fs: seq<Folder>, f: Folder) {
    || (LandingParent(fs, f).None? && FoldedName(f) in SystemNames())
    || exists g :: g in fs && g.token != f.token && !(f.token !in Tokens(fs) && g.parent == Some(f.token))
                   && EffectiveParent(fs, g) == LandingParent(fs, f) && FoldedName(g) == FoldedName(f)
  }

  /** A folder whose parent is removed rises to the top, where its name may be taken. */
  ghost predicate RisesIntoClash(fs: seq<Folder>, t: string, g: Folder) {
    || FoldedName(g) in SystemNames()
    || exists h :: h in fs && h.token != t && EffectiveParent(fs, h) == None && FoldedName(h) == FoldedName(g)
  }

  ghost predicate RemovalClashes(fs: seq<Folder>, t: string) {
    t in Tokens(fs) && exists g :: g in fs && g.token != t && g.parent == Some(t) && RisesIntoClash(fs, t, g)
  }

  ghost predicate Clashes(fs: seq<Folder>, w: Write) {
    match w case Put(f) => PutClashes(fs, f) case Remove(t) => RemovalClashes(fs, t)
  }

  /** Where another row stands once `f` is written: below `f` if it was left waiting for it. */
  function PlaceBeside(fs: seq<Folder>, f: Folder, g: Folder): Option<string> {
    if f.token !in Tokens(fs) && g.parent == Some(f.token) then Some(f.token) else EffectiveParent(fs, g)
  }

  lemma PlacesAfterPut(fs: seq<Folder>, f: Folder)
    requires DistinctTokens(fs)
    ensures LandingParent(fs, f) != Some(f.token)
    ensures EffectiveParent(Upsert(fs, f), f) == LandingParent(fs, f)
    ensures forall g :: g in fs && g.token != f.token ==> EffectiveParent(Upsert(fs, f), g) == PlaceBeside(fs, f, g)
  {
    hide Tokens, Upsert;
    UpsertRows(fs, f);
  }

  lemma WaitingRowsAreAtTheTop(fs: seq<Folder>, f: Folder, g: Folder)
    ensures PlaceBeside(fs, f, g) != EffectiveParent(fs, g) ==>
      EffectiveParent(fs, g) == None && PlaceBeside(fs, f, g) == Some(f.token) && f.token !in Tokens(fs)
    ensures f.token !in Tokens(fs) ==> EffectiveParent(fs, g) != Some(f.token)
  {
  }

  lemma ClashBreaksNames(fs: seq<Folder>, f: Folder)
    requires DistinctTokens(fs) && PutClashes(fs, f)
    ensures !WellNamed(Upsert(fs, f))
  {
    hide Upsert, EffectiveParent, Tokens, SystemNames, FoldedName, LandingParent, DistinctTokens;
    var after := Upsert(fs, f);
    UpsertRows(fs, f);
    PlacesAfterPut(fs, f);
    assert f in after;
    if g :| g in fs && g.token != f.token && !(f.token !in Tokens(fs) && g.parent == Some(f.token))
            && EffectiveParent(fs, g) == LandingParent(fs, f) && FoldedName(g) == FoldedName(f) {
      assert g in after;
      assert EffectiveParent(after, g) == EffectiveParent(after, f);
    }
  }

  lemma OthersStillDiffer(fs: seq<Folder>, f: Folder, g: Folder, h: Folder)
    requires SiblingsDiffer(fs) && g in fs && h in fs && g.token != h.token
    ensures PlaceBeside(fs, f, g) == PlaceBeside(fs, f, h) ==> FoldedName(g) != FoldedName(h)
  {
    hide EffectiveParent, Tokens, FoldedName, PlaceBeside;
    WaitingRowsAreAtTheTop(fs, f, g);
    WaitingRowsAreAtTheTop(fs, f, h);
  }

  lemma NoClashWithOther(fs: seq<Folder>, f: Folder, g: Folder)
    requires !PutClashes(fs, f) && g in fs && g.token != f.token && LandingParent(fs, f) != Some(f.token)
    ensures PlaceBeside(fs, f, g) == LandingParent(fs, f) ==> FoldedName(g) != FoldedName(f)
  {
    hide EffectiveParent, Tokens, FoldedName, LandingParent, SystemNames;
  }

  lemma NoClashKeepsNames(fs: seq<Folder>, f: Folder)
    requires DistinctTokens(fs) && WellNamed(fs) && !PutClashes(fs, f)
    ensures WellNamed(Upsert(fs, f))
  {
    hide Upsert, EffectiveParent, Tokens, SystemNames, FoldedName, LandingParent, DistinctTokens, PlaceBeside;
    var after := Upsert(fs, f);
    UpsertRows(fs, f);
    PlacesAfterPut(fs, f);
    forall g, h | g in after && h in after && g.token != h.token
                  && EffectiveParent(after, g) == EffectiveParent(after, h)
      ensures FoldedName(g) != FoldedName(h)
    {
      if g == f { NoClashWithOther(fs, f, h); }
      else if h == f { NoClashWithOther(fs, f, g); }
      else { OthersStillDiffer(fs, f, g, h); }
    }
    forall g | g in after && EffectiveParent(after, g).None? ensures FoldedName(g) !in SystemNames() {
      if g != f { WaitingRowsAreAtTheTop(fs, f, g); }
    }
  }

  /** The row a removal turns each other row into, and where it stands then. */
  lemma PlaceAfterRemove(fs: seq<Folder>, t: string, h: Folder)
    requires h.token != t
    ensures EffectiveParent(DeleteRow(fs, t), Cleared(h, t)) ==
      if EffectiveParent(fs, h) == Some(t) then None else EffectiveParent(fs, h)
    ensures FoldedName(Cleared(h, t)) == FoldedName(h) && Cleared(h, t).token == h.token
  {
    hide DeleteRow, Tokens;
    TokensAfterRemove(fs, t);
  }

  lemma RisesFrom(fs: seq<Folder>, t: string, h: Folder)
    requires h.token != t
    ensures EffectiveParent(fs, h) == Some(t) <==> t in Tokens(fs) && h.parent == Some(t)
  {
  }

  lemma RemovalClashBreaksNames(fs: seq<Folder>, t: string)
    requires DistinctTokens(fs) && RemovalClashes(fs, t)
    ensures !WellNamed(DeleteRow(fs, t))
  {
    hide DeleteRow, EffectiveParent, Tokens, SystemNames, FoldedName, Cleared, DistinctTokens;
    var after := DeleteRow(fs, t);
    var g :| g in fs && g.token != t && g.parent == Some(t) && RisesIntoClash(fs, t, g);
    RisesFrom(fs, t, g);
    PlaceAfterRemove(fs, t, g);
    MemberAfterRemove(fs, t, Cleared(g, t));
    if h :| h in fs && h.token != t && EffectiveParent(fs, h) == None && FoldedName(h) == FoldedName(g) {
      if h.token == g.token { SameTokenSameRow(fs, g, h); }
      PlaceAfterRemove(fs, t, h);
      MemberAfterRemove(fs, t, Cleared(h, t));
    }
  }

  lemma TwoAfterRemove(fs: seq<Folder>, t: string, g: Folder, h: Folder)
    requires SiblingsDiffer(fs) && !RemovalClashes(fs, t)
    requires g in fs && h in fs && g.token != t && h.token != t && g.token != h.token
    ensures EffectiveParent(DeleteRow(fs, t), Cleared(g, t)) == EffectiveParent(DeleteRow(fs, t), Cleared(h, t)) ==>
      FoldedName(g) != FoldedName(h)
  {
    hide DeleteRow, EffectiveParent, Tokens, SystemNames, FoldedName, Cleared;
    PlaceAfterRemove(fs, t, g);
    PlaceAfterRemove(fs, t, h);
    RisesFrom(fs, t, g);
    RisesFrom(fs, t, h);
    assert RisesIntoClash(fs, t, g) <== EffectiveParent(fs, h).None? && FoldedName(g) == FoldedName(h);
    assert RisesIntoClash(fs, t, h) <== EffectiveParent(fs, g).None? && FoldedName(g) == FoldedName(h);
  }

  lemma NoRemovalClashKeepsNames(fs: seq<Folder>, t: string)
    requires WellNamed(fs) && !RemovalClashes(fs, t)
    ensures WellNamed(DeleteRow(fs, t))
  {
    hide DeleteRow, EffectiveParent, Tokens, SystemNames, FoldedName, Cleared;
    var after := DeleteRow(fs, t);
    forall a, b | a in after && b in after && a.token != b.token
                  && EffectiveParent(after, a) == EffectiveParent(after, b)
      ensures FoldedName(a) != FoldedName(b)
    {
      MemberAfterRemove(fs, t, a);
      MemberAfterRemove(fs, t, b);
      var g :| g in fs && g.token != t && a == Cleared(g, t);
      var h :| h in fs && h.token != t && b == Cleared(h, t);
      PlaceAfterRemove(fs, t, g);
      PlaceAfterRemove(fs, t, h);
      TwoAfterRemove(fs, t, g, h);
    }
    forall a | a in after && EffectiveParent(after, a).None? ensures FoldedName(a) !in SystemNames() {
      MemberAfterRemove(fs, t, a);
      var g :| g in fs && g.token != t && a == Cleared(g, t);
      PlaceAfterRemove(fs, t, g);
      RisesFrom(fs, t, g);
      assert FoldedName(g) in SystemNames() ==> RisesIntoClash(fs, t, g);
    }
  }

  /** A write of a row keeps sibling names apart if and only if the check, made at the write, would find no clash. */
  lemma WriteKeepsNamesApartIff(fs: seq<Folder>, w: Write)
    requires DistinctTokens(fs) && WellNamed(fs)
    ensures WellNamed(Written(fs, w)) <==> !Clashes(fs, w)
  {
    hide WellNamed, PutClashes, RemovalClashes, DistinctTokens;
    match w {
      case Put(f) =>
        if PutClashes(fs, f) { ClashBreaksNames(fs, f); } else { NoClashKeepsNames(fs, f); }
      case Remove(t) =>
        if RemovalClashes(fs, t) { RemovalClashBreaksNames(fs, t); } else { NoRemovalClashKeepsNames(fs, t); }
    }
  }

  /** For a row in the table, or new to it, that condition is the program's own check, of the trimmed name. */
  lemma ClashIsTheCheckAtTheWrite(fs: seq<Folder>, f: Folder)
    requires f.token in Tokens(fs) || NamedByNone(fs, f.token)
    ensures PutClashes(fs, f) <==> SiblingConflict(fs, LandingParent(fs, f), Trim(f.name, IsSpace), Some(f.token))
  {
    hide Tokens, LandingParent, EffectiveParent, Lower, Trim, SystemMailboxNamed, SystemNames;
    SystemMailboxNamedIff(Trim(f.name, IsSpace));
  }

  /** A removal that the guard would still allow at the write moves no folder to the top. */
  lemma ChildlessRemovalIsHarmless(fs: seq<Folder>, t: string)
    ensures RemovalClashes(fs, t) ==> HasChildren(fs, t)
  {
    hide RisesIntoClash, EffectiveParent, Tokens;
    if RemovalClashes(fs, t) {
      var g :| g in fs && g.token != t && g.parent == Some(t) && RisesIntoClash(fs, t, g);
      RisesFrom(fs, t, g);
    }
  }
}
