/**
  Runs of folder operations that do not overlap: each writes the table it has checked. The forest
  is kept; the names are kept exactly when the names that updates keep pass the trimmed check. On
  such tables the guards and the displayed tree see the same parents.
*/
module FolderRuns {
  import opened Text
  import opened ParentGraph
  import opened FolderTable
  import opened FolderRepair
  import opened FolderTree
  import opened FolderTreeFacts
  import opened FolderOps
  import opened FolderWrites

  // ---------- writing one row ----------

  /** A row that may be written: it is in the table or new to it, and its parent is a row not below it. */
  ghost predicate Placeable(fs: seq<Folder>, f: Folder) {
    && f.token != "" && (f.token in Tokens(fs) || NamedByNone(fs, f.token))
    && (f.parent.Some? ==> f.parent.value in Tokens(fs) && !Reaches(LiveParents(fs), f.parent.value, f.token))
  }

  lemma LandsWhereAsked(fs: seq<Folder>, f: Folder)
    requires Placeable(fs, f)
    ensures LandingParent(fs, f) == f.parent && f.parent != Some(f.token)
  {
    if f.parent.Some? { assert Up(LiveParents(fs), f.parent.value, 0) == f.parent; }
  }

  /** Writing a placeable row keeps the forest, and no parent is left dangling that was not before. */
  lemma WriteKeepsStructure(fs: seq<Folder>, f: Folder)
    requires Structured(fs) && Placeable(fs, f)
    ensures Structured(Upsert(fs, f)) && (NoDangling(fs) ==> NoDangling(Upsert(fs, f)))
  {
    hide LiveParents, NamedParents, Upsert, NamedByNone, Tokens, DistinctTokens, Acyclic, Reaches;
    LandsWhereAsked(fs, f);
    GuardIsForestSafe(fs, f);
    WriteKeepsForestIff(fs, Put(f));
    if NoDangling(fs) { WriteKeepsParentsIff(fs, Put(f)); }
  }

  /**
    Names stay distinct exactly when the sibling check would pass for the trimmed name. The
    program checks the name as it is stored, which is the same thing for trimmed names only.
  */
  lemma WriteKeepsNamesIff(fs: seq<Folder>, f: Folder)
    requires Structured(fs) && Placeable(fs, f) && WellNamed(fs)
    ensures WellNamed(Upsert(fs, f)) <==> !SiblingConflict(fs, f.parent, Trim(f.name, IsSpace), Some(f.token))
  {
    hide LiveParents, WellNamed, Upsert, NamedByNone, Tokens, SiblingConflict, PutClashes, Trim;
    LandsWhereAsked(fs, f);
    WriteKeepsNamesApartIff(fs, Put(f));
    ClashIsTheCheckAtTheWrite(fs, f);
  }

  // ---------- create ----------

  lemma CleanNameIsTrimmed(name: string)
    ensures CleanName(name).Ok? ==> Trim(CleanName(name).value, IsSpace) == CleanName(name).value
  {
    TrimIsTrimmed(name, IsSpace);
    TrimFixed(Trim(name, IsSpace), IsSpace);
  }

  lemma ConflictIgnoresFreshToken(fs: seq<Folder>, parent: Option<string>, name: string, token: string)
    requires token !in Tokens(fs)
    ensures SiblingConflict(fs, parent, name, None) <==> SiblingConflict(fs, parent, name, Some(token))
  {
    hide EffectiveParent, FoldedName;
  }

  lemma FreshIsUnreachable(fs: seq<Folder>, p: string, token: string)
    requires token !in Tokens(fs) && p in Tokens(fs)
    ensures !Reaches(LiveParents(fs), p, token)
  {
    var m := LiveParents(fs);
    if Reaches(m, p, token) {
      var k: nat :| Up(m, p, k) == Some(token);
      WalkStaysInTable(fs, p, k);
    }
  }

  lemma {:induction false} WalkStaysInTable(fs: seq<Folder>, p: string, k: nat)
    requires p in Tokens(fs) && Up(LiveParents(fs), p, k).Some?
    ensures Up(LiveParents(fs), p, k).value in Tokens(fs)
    decreases k
  {
    if k > 0 {
      WalkStaysInTable(fs, LiveParents(fs)[p], k - 1);
    }
  }

  /** A generated token is not empty, and neither a row's token nor named as a parent. */
  ghost predicate FreshToken(fs: seq<Folder>, token: string) {
    token != "" && token !in Tokens(fs) && NamedByNone(fs, token)
  }

  /** Creating a folder keeps the forest and, on a well-named table, the names, whatever the other rows are called. */
  lemma CreateKeepsTable(
      fs: seq<Folder>, name: string, parent: Option<string>, token: string, serverId: string, serverAccepts: bool)
    requires Structured(fs) && FreshToken(fs, token)
    ensures var after := CreateOutcome(fs, name, parent, token, serverId, serverAccepts).0;
            && Structured(after) && (NoDangling(fs) ==> NoDangling(after)) && (WellNamed(fs) ==> WellNamed(after))
  {
    hide LiveParents, EffectiveParent, Upsert, Reaches, CleanName, SiblingConflict, WellNamed, Tokens, Acyclic,
      DistinctTokens, NoDangling, NamedByNone;
    CleanNameIsTrimmed(name);
    if CreateOutcome(fs, name, parent, token, serverId, serverAccepts).1.Ok? {
      var clean := CleanName(name).value;
      var f := Folder(token, serverId, clean, parent, 0, None);
      if parent.Some? { FreshIsUnreachable(fs, parent.value, token); }
      WriteKeepsStructure(fs, f);
      ConflictIgnoresFreshToken(fs, parent, clean, token);
      if WellNamed(fs) { WriteKeepsNamesIff(fs, f); }
    }
  }

  // ---------- update ----------

  /** The row an update writes: it may be written, and it passed the sibling check under its own name. */
  lemma UpdatedRow(
      fs: seq<Folder>, token: string, newName: Option<string>, newParent: Option<Option<string>>, serverAccepts: bool)
    returns (f: Folder)
    requires Structured(fs) && UpdateOutcome(fs, token, newName, newParent, serverAccepts).0 != fs
    ensures UpdateOutcome(fs, token, newName, newParent, serverAccepts).0 == Upsert(fs, f)
    ensures Placeable(fs, f) && !SiblingConflict(fs, f.parent, f.name, Some(f.token))
    ensures newName.Some? ==> CleanName(newName.value).Ok? && f.name == CleanName(newName.value).value
    ensures newName.None? ==> Find(fs, token).Some? && f.token == token && f.name == Find(fs, token).value.name
    ensures f.parent == TargetParent(fs, token, newParent)
  {
    hide LiveParents, Upsert, Reaches, CleanName, SiblingConflict, Acyclic, DistinctTokens, NamedByNone;
    var stored := Find(fs, token).value;
    var name := if newName.Some? then CleanName(newName.value).value else stored.name;
    f := stored.(name := name, parent := TargetParent(fs, token, newParent));
  }

  /** The parent an update asks for: the given one, or the one the row has. */
  function TargetParent(fs: seq<Folder>, token: string, newParent: Option<Option<string>>): Option<string> {
    if newParent.Some? then newParent.value
    else match Find(fs, token) case Some(stored) => EffectiveParent(fs, stored) case None => None
  }

  /** The sibling check as it should be made: a name that is kept is compared trimmed, as a new one is. */
  predicate TrimmedCheckPasses(
    fs: seq<Folder>, token: string, newName: Option<string>, newParent: Option<Option<string>>)
  {
    newName.None? && Find(fs, token).Some? ==>
      !SiblingConflict(fs, TargetParent(fs, token, newParent), Trim(Find(fs, token).value.name, IsSpace), Some(token))
  }

  /** Renaming and moving keep a forest a forest, whatever its names and dangling parents. */
  lemma UpdateKeepsStructure(
      fs: seq<Folder>, token: string, newName: Option<string>, newParent: Option<Option<string>>, serverAccepts: bool)
    requires Structured(fs)
    ensures var after := UpdateOutcome(fs, token, newName, newParent, serverAccepts).0;
            Structured(after) && (NoDangling(fs) ==> NoDangling(after))
  {
    hide UpdateOutcome, SiblingConflict, NoDangling, Structured, Placeable, Upsert;
    if UpdateOutcome(fs, token, newName, newParent, serverAccepts).0 != fs {
      var f := UpdatedRow(fs, token, newName, newParent, serverAccepts);
      WriteKeepsStructure(fs, f);
    }
  }

  /**
    An update of a well-named table leaves it well named if and only if it writes nothing, or gives
    a new name, or keeps a name that passes the sibling check when trimmed.
  */
  lemma UpdateKeepsNamesIff(
      fs: seq<Folder>, token: string, newName: Option<string>, newParent: Option<Option<string>>, serverAccepts: bool)
    requires Structured(fs) && WellNamed(fs)
    ensures var after := UpdateOutcome(fs, token, newName, newParent, serverAccepts).0;
            WellNamed(after) <==> after == fs || TrimmedCheckPasses(fs, token, newName, newParent)
  {
    hide UpdateOutcome, SiblingConflict, Structured, Placeable, Upsert, WellNamed, Find, TargetParent, CleanName, Trim;
    if newName.Some? { CleanNameIsTrimmed(newName.value); }
    if UpdateOutcome(fs, token, newName, newParent, serverAccepts).0 != fs {
      var f := UpdatedRow(fs, token, newName, newParent, serverAccepts);
      WriteKeepsNamesIff(fs, f);
    }
  }

  /** The check the program makes is that check unless the row's stored name has blank ends. */
  lemma TrimmedNameIsSafe(
      fs: seq<Folder>, token: string, newName: Option<string>, newParent: Option<Option<string>>, serverAccepts: bool)
    requires Structured(fs)
    requires newName.None? && Find(fs, token).Some? ==> Trimmed(Find(fs, token).value.name, IsSpace)
    ensures UpdateOutcome(fs, token, newName, newParent, serverAccepts).0 == fs
         || TrimmedCheckPasses(fs, token, newName, newParent)
  {
    hide UpdateOutcome, SiblingConflict, Structured, Placeable, Upsert, Find, TargetParent, CleanName, Trim;
    if UpdateOutcome(fs, token, newName, newParent, serverAccepts).0 != fs {
      var f := UpdatedRow(fs, token, newName, newParent, serverAccepts);
      TrimFixed(f.name, IsSpace);
    }
  }

  // ---------- delete ----------

  /** Deleting keeps the forest and the names, and leaves no row that names the deleted one. */
  lemma DeleteKeepsTable(fs: seq<Folder>, token: string, serverAccepts: bool)
    requires Structured(fs)
    ensures var (after, r) := DeleteOutcome(fs, token, serverAccepts);
            && Structured(after) && (NoDangling(fs) ==> NoDangling(after)) && (WellNamed(fs) ==> WellNamed(after))
            && (r.Ok? ==> token !in Tokens(after) && NamedByNone(after, token))
  {
    hide LiveParents, HasChildren, Tokens, Acyclic, DistinctTokens, WellNamed, NoDangling, RemovalClashes, DeleteRow;
    if DeleteOutcome(fs, token, serverAccepts).1.Ok? {
      var w := Remove(token);
      WriteKeepsForestIff(fs, w);
      if NoDangling(fs) { WriteKeepsParentsIff(fs, w); }
      ChildlessRemovalIsHarmless(fs, token);
      if WellNamed(fs) { WriteKeepsNamesApartIff(fs, w); }
      NothingNamesTheRemoved(fs, token);
    }
  }

  // ---------- whole runs ----------

  datatype Command =
    | Create(name: string, parent: Option<string>, token: string, serverId: string, accepted: bool)
    | Update(target: string, newName: Option<string>, newParent: Option<Option<string>>, accepted: bool)
    | Delete(target: string, accepted: bool)

  ghost function Apply(fs: seq<Folder>, c: Command): seq<Folder> {
    match c
    case Create(name, parent, token, serverId, accepted) => CreateOutcome(fs, name, parent, token, serverId, accepted).0
    case Update(target, newName, newParent, accepted) => UpdateOutcome(fs, target, newName, newParent, accepted).0
    case Delete(target, accepted) => DeleteOutcome(fs, target, accepted).0
  }

  ghost function Run(fs: seq<Folder>, cs: seq<Command>): seq<Folder>
    decreases |cs|
  {
    if cs == [] then fs else Run(Apply(fs, cs[0]), cs[1..])
  }

  /** Each generated token is fresh when it is used. */
  ghost predicate FreshRun(fs: seq<Folder>, cs: seq<Command>)
    decreases |cs|
  {
    cs != [] ==> (cs[0].Create? ==> FreshToken(fs, cs[0].token)) && FreshRun(Apply(fs, cs[0]), cs[1..])
  }

  /** The table is well named before, during and after the run. */
  ghost predicate StaysWellNamed(fs: seq<Folder>, cs: seq<Command>)
    decreases |cs|
  {
    WellNamed(fs) && (cs != [] ==> StaysWellNamed(Apply(fs, cs[0]), cs[1..]))
  }

  /** Each update that writes and keeps its row's name passes the sibling check under the trimmed name. */
  ghost predicate KeptNamesPass(fs: seq<Folder>, cs: seq<Command>)
    decreases |cs|
  {
    cs != [] ==>
      && (cs[0].Update? ==>
            Apply(fs, cs[0]) == fs || TrimmedCheckPasses(fs, cs[0].target, cs[0].newName, cs[0].newParent))
      && KeptNamesPass(Apply(fs, cs[0]), cs[1..])
  }

  /** Each update that keeps its row's name finds that name stored without blank ends. */
  ghost predicate KeptNamesTrimmed(fs: seq<Folder>, cs: seq<Command>)
    decreases |cs|
  {
    cs != [] ==>
      && (cs[0].Update? && cs[0].newName.None? && Find(fs, cs[0].target).Some? ==>
            Trimmed(Find(fs, cs[0].target).value.name, IsSpace))
      && KeptNamesTrimmed(Apply(fs, cs[0]), cs[1..])
  }

  lemma ApplyKeepsStructure(fs: seq<Folder>, c: Command)
    requires Structured(fs) && (c.Create? ==> FreshToken(fs, c.token))
    ensures Structured(Apply(fs, c)) && (NoDangling(fs) ==> NoDangling(Apply(fs, c)))
  {
    hide Structured, NoDangling, CreateOutcome, UpdateOutcome, DeleteOutcome, FreshToken;
    match c {
      case Create(name, parent, token, serverId, accepted) =>
        CreateKeepsTable(fs, name, parent, token, serverId, accepted);
      case Update(target, newName, newParent, accepted) =>
        UpdateKeepsStructure(fs, target, newName, newParent, accepted);
      case Delete(target, accepted) => DeleteKeepsTable(fs, target, accepted);
    }
  }

  lemma ApplyKeepsNamesIff(fs: seq<Folder>, c: Command)
    requires Structured(fs) && WellNamed(fs) && (c.Create? ==> FreshToken(fs, c.token))
    ensures WellNamed(Apply(fs, c)) <==>
      (c.Update? ==> Apply(fs, c) == fs || TrimmedCheckPasses(fs, c.target, c.newName, c.newParent))
  {
    hide Structured, WellNamed, CreateOutcome, UpdateOutcome, DeleteOutcome, FreshToken, TrimmedCheckPasses;
    match c {
      case Create(name, parent, token, serverId, accepted) =>
        CreateKeepsTable(fs, name, parent, token, serverId, accepted);
      case Update(target, newName, newParent, accepted) =>
        UpdateKeepsNamesIff(fs, target, newName, newParent, accepted);
      case Delete(target, accepted) => DeleteKeepsTable(fs, target, accepted);
    }
  }

  /** Every run, whatever is refused, keeps the table a forest, whatever its names and dangling parents. */
  lemma {:induction false} RunKeepsStructure(fs: seq<Folder>, cs: seq<Command>)
    requires Structured(fs) && FreshRun(fs, cs)
    ensures Structured(Run(fs, cs)) && (NoDangling(fs) ==> NoDangling(Run(fs, cs)))
    decreases |cs|
  {
    hide Structured, NoDangling, Apply;
    if cs != [] {
      ApplyKeepsStructure(fs, cs[0]);
      RunKeepsStructure(Apply(fs, cs[0]), cs[1..]);
    }
  }

  /**
    A run keeps sibling names distinct and system names free throughout if and only if each of its
    updates that keeps a stored name passes the sibling check under the trimmed name.
  */
  lemma {:induction false} RunKeepsNamesIff(fs: seq<Folder>, cs: seq<Command>)
    requires Structured(fs) && WellNamed(fs) && FreshRun(fs, cs)
    ensures StaysWellNamed(fs, cs) <==> KeptNamesPass(fs, cs)
    decreases |cs|
  {
    hide Structured, WellNamed, Apply, TrimmedCheckPasses;
    if cs != [] {
      ApplyKeepsStructure(fs, cs[0]);
      ApplyKeepsNamesIff(fs, cs[0]);
      if WellNamed(Apply(fs, cs[0])) {
        RunKeepsNamesIff(Apply(fs, cs[0]), cs[1..]);
      } else {
        assert !StaysWellNamed(Apply(fs, cs[0]), cs[1..]);
      }
    }
  }

  /** Stored names with blank ends do no harm in rows that no update keeps the name of. */
  lemma {:induction false} RunKeepsNames(fs: seq<Folder>, cs: seq<Command>)
    requires Structured(fs) && WellNamed(fs) && FreshRun(fs, cs) && KeptNamesTrimmed(fs, cs)
    ensures StaysWellNamed(fs, cs)
    decreases |cs|
  {
    hide Structured, WellNamed, TrimmedCheckPasses, UpdateOutcome, CreateOutcome, DeleteOutcome;
    if cs != [] {
      ApplyKeepsStructure(fs, cs[0]);
      ApplyKeepsNamesIff(fs, cs[0]);
      if cs[0].Update? {
        TrimmedNameIsSafe(fs, cs[0].target, cs[0].newName, cs[0].newParent, cs[0].accepted);
      }
      RunKeepsNames(Apply(fs, cs[0]), cs[1..]);
    }
  }

  // ---------- the guards and the display agree ----------

  lemma {:induction false} DedupKeepsAll(fs: seq<Folder>)
    requires DistinctTokens(fs) && "" !in Tokens(fs)
    ensures Dedup(fs) == fs
  {
    hide Tokens, DistinctTokens;
    if fs != [] {
      NoEmptyToken(fs);
      PrefixDistinct(fs);
      LastTokenIsNew(fs);
      DedupKeepsNewLast(fs);
      hide Dedup;
      DedupKeepsAll(fs[..|fs| - 1]);
      assert fs == fs[..|fs| - 1] + [fs[|fs| - 1]];
    }
  }

  lemma NoEmptyToken(fs: seq<Folder>)
    requires fs != [] && "" !in Tokens(fs)
    ensures "" !in Tokens(fs[..|fs| - 1]) && fs[|fs| - 1].token != ""
  {
    assert fs[|fs| - 1] in fs;
    assert forall f :: f in fs[..|fs| - 1] ==> f in fs;
  }

  lemma DeclaredIsLive(fs: seq<Folder>)
    requires "" !in Tokens(fs)
    ensures DeclaredParents(fs) == LiveParents(fs)
  {
    forall t ensures DeclaredOf(fs, t) == LiveParentOf(fs, t) {
      hide Tokens;
    }
  }

  lemma RepairOfAcyclic(fs: seq<Folder>)
    requires Acyclic(DeclaredParents(fs))
    ensures RepairedParents(fs) == DeclaredParents(fs)
  {
    hide DeclaredParents, OnCycle;
  }

  /** On a sound table the display repairs nothing: it uses the parents the guards use. */
  lemma ParentsCoincide(fs: seq<Folder>)
    requires DistinctTokens(fs) && "" !in Tokens(fs) && Acyclic(LiveParents(fs))
    ensures ForestOf(fs).folders == fs && ForestOf(fs).up == LiveParents(fs)
  {
    hide DeclaredParents, LiveParents, RepairedParents, Tokens, Acyclic;
    DedupKeepsAll(fs);
    DeclaredIsLive(fs);
    RepairOfAcyclic(fs);
  }

  /** Deletion is refused for exactly the folders that are shown with subfolders. */
  lemma DeleteRefusedIffShownWithChildren(fs: seq<Folder>, i: nat)
    requires DistinctTokens(fs) && "" !in Tokens(fs) && Acyclic(LiveParents(fs)) && i < |TreeOf(fs)|
    ensures HasChildren(fs, TreeOf(fs)[i].token) <==> TreeOf(fs)[i].hasChildren
  {
    hide Whole, EffectiveParent, LiveParents, Kids, Tokens, RepairedParents;
    ForestOfIsValid(fs);
    ParentsCoincide(fs);
    var F := ForestOf(fs);
    var t := TreeOf(fs)[i].token;
    var kids := Kids(F, Some(t));
    KidsFacts(F, Some(t));
    forall f | f in fs ensures EffectiveParent(fs, f) == ParentOf(F.up, f.token)
      && EffectiveParent(fs, f) != Some(f.token) {
      LiveParentOfRow(fs, f);
      NotOwnParent(fs, f);
    }
    assert TreeOf(fs)[i].hasChildren <==> kids != [];
    if kids != [] {
      assert kids[0] in kids;
    }
  }

  lemma NotOwnParent(fs: seq<Folder>, f: Folder)
    ensures EffectiveParent(fs, f) != Some(f.token)
  {
  }

  // ---------- where the sibling check falls short ----------

  function TableWithUntrimmedName(): seq<Folder> {
    [Folder("p", "1", "Work", None, 0, None), Folder("q", "2", " Work", Some("p"), 0, None)]
  }

  lemma UntrimmedTableIsSound()
    ensures Structured(TableWithUntrimmedName()) && WellNamed(TableWithUntrimmedName())
    ensures LiveParents(TableWithUntrimmedName()) == map["q" := "p"]
  {
    var fs := TableWithUntrimmedName();
    UntrimmedTableParents();
    hide LiveParents, Find;
    EdgeKeepsAcyclic(map[], "q", "p") by {
      assert forall k: nat :: k > 0 ==> Up(map[], "p", k) == None;
    }
    assert map[]["q" := "p"] == map["q" := "p"];
    assert FoldedName(fs[0]) == "work" by { assert Trim("Work", IsSpace) == "Work"; }
    assert "work" !in SystemNames();
  }

  lemma UntrimmedTableParents()
    ensures var fs := TableWithUntrimmedName();
            Tokens(fs) == {"p", "q"} && EffectiveParent(fs, fs[0]) == None && EffectiveParent(fs, fs[1]) == Some("p")
    ensures LiveParents(TableWithUntrimmedName()) == map["q" := "p"]
  {
    var fs := TableWithUntrimmedName();
    assert Tokens(fs) == {"p", "q"} by { assert fs[0] in fs && fs[1] in fs; }
    assert EffectiveParent(fs, fs[0]) == None && EffectiveParent(fs, fs[1]) == Some("p");
    hide Tokens, EffectiveParent;
    assert Find(fs, "p") == Some(fs[0]);
    assert Find(fs, "q") == Some(fs[1]);
    assert LiveParents(fs) == map["q" := "p"];
  }

  /** The check of the stored name passes; the check of the trimmed name would not. */
  lemma CheckMissesBlank()
    ensures Trim(" Work", IsSpace) == "Work"
    ensures !SiblingConflict(TableWithUntrimmedName(), None, " Work", Some("q"))
    ensures SiblingConflict(TableWithUntrimmedName(), None, "Work", Some("q"))
  {
    var fs := TableWithUntrimmedName();
    assert fs[0] in fs;
    assert EffectiveParent(fs, fs[0]) == None;
    assert Trim("Work", IsSpace) == "Work";
    assert TrimStart(" Work", IsSpace) == "Work" by { assert " Work"[1..] == "Work"; }
    assert Lower("Work") == "work" && Lower(" Work") == " work";
    SystemMailboxNamedIff(" Work");
  }

  lemma MoveToTop(fs: seq<Folder>, f: Folder)
    requires Find(fs, f.token) == Some(f) && EffectiveParent(fs, f).Some?
    requires !SiblingConflict(fs, None, f.name, Some(f.token))
    ensures UpdateOutcome(fs, f.token, None, Some(None), true) == (Upsert(fs, f.(parent := None)), Ok(()))
  {
    hide SiblingConflict, Upsert, EffectiveParent;
  }

  /**
    Names that arrive by synchronisation are stored untrimmed. Moving such a folder compares its
    name with the blanks left on, and two siblings of the same name result.
  */
  lemma UntrimmedNameSlipsThrough()
    ensures Structured(TableWithUntrimmedName()) && WellNamed(TableWithUntrimmedName())
    ensures var (after, r) := UpdateOutcome(TableWithUntrimmedName(), "q", None, Some(None), true);
      r == Ok(()) && !WellNamed(after)
  {
    hide SiblingConflict, Upsert, LiveParents, WellNamed, Trim, Lower, UpdateOutcome, Acyclic;
    var fs := TableWithUntrimmedName();
    var f := fs[1];
    UntrimmedTableIsSound();
    assert Find(fs, "q") == Some(f);
    assert EffectiveParent(fs, f) == Some("p");
    CheckMissesBlank();
    MoveToTop(fs, f);
    ClashIsTheCheckAtTheWrite(fs, f.(parent := None));
    ClashBreaksNames(fs, f.(parent := None));
  }
}
