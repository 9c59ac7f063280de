/**
  The stored folders as the object that create, update and delete work on.
*/
module FolderStorage {
  import opened Text
  import opened ParentGraph
  import opened FolderTable
  import opened FolderOps
  import opened FolderWrites
  import opened FolderRuns
  import opened FolderRaces
  import opened FolderRefusals

  /** Each property of the table is kept exactly when the write is safe for it on the table it changes. */
  ghost predicate KeptExactly(before: seq<Folder>, w: Write, after: seq<Folder>) {
    && (Structured(before) ==> (Structured(after) <==> KeepsForest(before, w)))
    && (Named(before) ==> (Named(after) <==> KeepsNames(before, w)))
    && (Parented(before) ==> (Parented(after) <==> ParentPresent(before, w)))
  }

  lemma WriteIsKeptExactly(fs: seq<Folder>, w: Write)
    ensures KeptExactly(fs, w, Written(fs, w))
  {
    hide Structured, WellNamed, NoDangling, DistinctTokens, Clashes, ParentPresent, ForestSafe, Written, Tokens;
    if DistinctTokens(fs) { TokensAfterWrite(fs, w); }
    if Structured(fs) { WriteKeepsForestIff(fs, w); }
    if Named(fs) { WriteKeepsNamesApartIff(fs, w); }
    if Parented(fs) { WriteKeepsParentsIff(fs, w); }
  }

  /** `after` has the row `f`, and otherwise exactly the rows of `before` with other tokens. */
  ghost predicate ReplacesRow(before: seq<Folder>, f: Folder, after: seq<Folder>) {
    && (forall g :: g in after <==> g == f || (g in before && g.token != f.token))
    && |after| == |before| + if exists g :: g in before && g.token == f.token then 0 else 1
  }

  /** `f` is the row of that token as it was read, with the name and parent asked for and nothing else changed. */
  ghost predicate Revises(
    read: seq<Folder>, token: string, newName: Option<string>, newParent: Option<Option<string>>, f: Folder)
  {
    exists g :: g in read && g.token == f.token == token
      && f.serverId == g.serverId && f.sortOrder == g.sortOrder && f.createdAt == g.createdAt
      && f.name == (if newName.Some? then Trim(newName.value, IsSpace) else g.name)
      && (if newParent.Some? then f.parent == newParent.value else StandsUnder(read, g, f.parent))
  }

  lemma UpsertReplaces(fs: seq<Folder>, f: Folder)
    ensures DistinctTokens(fs) ==> ReplacesRow(fs, f, Upsert(fs, f))
  {
    UpsertCount(fs, f);
    if DistinctTokens(fs) { UpsertRows(fs, f); }
  }

  /** The row an update writes, from the row it read. */
  lemma UpdateRevises(read: seq<Folder>, g: Folder, newName: Option<string>, newParent: Option<Option<string>>,
      name: string, parent: Option<string>)
    requires g in read && (if newName.Some? then CleanName(newName.value) == Ok(name) else name == g.name)
    requires parent == if newParent.Some? then newParent.value else EffectiveParent(read, g)
    ensures Revises(read, g.token, newName, newParent, g.(name := name, parent := parent))
  {
    hide StandsUnder, EffectiveParent, CleanName;
    PlaceIff(read, g, parent);
    if newName.Some? { CleanNameIs(newName.value); }
  }

  lemma RowsLeft(fs: seq<Folder>, t: string)
    ensures forall g :: g in DeleteRow(fs, t) <==>
      (g.token != t && g.parent != Some(t) && (g in fs || (g.parent.None? && g.(parent := Some(t)) in fs)))
  {
    hide DeleteRow;
    forall g ensures g in DeleteRow(fs, t) <==>
      (g.token != t && g.parent != Some(t) && (g in fs || (g.parent.None? && g.(parent := Some(t)) in fs)))
    {
      MemberAfterRemove(fs, t, g);
      assert g.parent.None? ==> Cleared(g.(parent := Some(t)), t) == g;
      assert g.parent != Some(t) ==> Cleared(g, t) == g;
    }
  }

  lemma CleanNameIs(name: string)
    ensures CleanName(name).Ok? ==> CleanName(name).value == Trim(name, IsSpace)
  {
  }

  lemma {:induction false} UpsertCount(fs: seq<Folder>, f: Folder)
    ensures |Upsert(fs, f)| == |fs| + if exists g :: g in fs && g.token == f.token then 0 else 1
  {
    if fs != [] {
      assert forall g :: g in fs <==> g == fs[0] || g in fs[1..];
      if fs[0].token != f.token { UpsertCount(fs[1..], f); }
    }
  }

  /**
    The local folder store. An operation that passes its check waits for the server; `meanwhile` is
    the table as other operations and synchronisation have left it by the time the server answers.
  */
  class FolderStore {
    var rows: seq<Folder>

    constructor (initial: seq<Folder>)
      ensures rows == initial
    {
      rows := initial;
    }

    method Create(name: string, parent: Option<string>, token: string, serverId: string, serverAccepts: bool,
                  meanwhile: seq<Folder>)
      returns (r: Result<string>)
      modifies this
      ensures match CreateCheck(old(rows), name, parent, token, serverId)
              case Err(e) => r == Err(e) && rows == old(rows)
              case Ok(w) =>
                if serverAccepts then r == Ok(token) && rows == Written(meanwhile, w) && KeptExactly(meanwhile, w, rows)
                else r == Err(Server) && rows == meanwhile
      ensures r.Ok? && DistinctTokens(meanwhile) ==>
        ReplacesRow(meanwhile, Folder(token, serverId, Trim(name, IsSpace), parent, 0, None), rows)
      ensures meanwhile == old(rows) ==>
        (rows, r) == CreateOutcome(old(rows), name, parent, token, serverId, serverAccepts)
      ensures meanwhile == old(rows) && Structured(old(rows)) && FreshToken(old(rows), token) ==>
        && Structured(rows) && (NoDangling(old(rows)) ==> NoDangling(rows))
        && (WellNamed(old(rows)) ==> WellNamed(rows))
    {
      hide SiblingConflict, EffectiveParent, Structured, WellNamed, NoDangling, FreshToken, DistinctTokens, KeptExactly,
        ReplacesRow, Upsert;
      if Structured(rows) && FreshToken(rows, token) {
        CreateKeepsTable(rows, name, parent, token, serverId, serverAccepts);
      }
      var clean := CleanName(name);
      if clean.Err? {
        return Err(clean.error);
      }
      if parent.Some? && parent.value !in Tokens(rows) {
        return Err(ParentNotFound);
      }
      if SiblingConflict(rows, parent, clean.value, None) {
        return Err(AlreadyExists);
      }
      rows := meanwhile;
      if !serverAccepts {
        return Err(Server);
      }
      var row := Folder(token, serverId, clean.value, parent, 0, None);
      UpsertReplaces(rows, row);
      WriteIsKeptExactly(rows, Put(row));
      rows := Upsert(rows, row);
      return Ok(token);
    }

    method Update(token: string, newName: Option<string>, newParent: Option<Option<string>>, serverAccepts: bool,
                  meanwhile: seq<Folder>)
      returns (r: Result<()>)
      modifies this
      ensures match UpdateCheck(old(rows), token, newName, newParent)
              case Err(e) => r == Err(e) && rows == old(rows)
              case Ok(None) => r == Ok(()) && rows == old(rows)
              case Ok(Some(w)) =>
                if serverAccepts then r == Ok(()) && rows == Written(meanwhile, w) && KeptExactly(meanwhile, w, rows)
                else r == Err(Server) && rows == meanwhile
      ensures r.Ok? && DistinctTokens(meanwhile) && UpdateCheck(old(rows), token, newName, newParent) != Ok(None) ==>
        exists f :: Revises(old(rows), token, newName, newParent, f) && ReplacesRow(meanwhile, f, rows)
      ensures meanwhile == old(rows) ==> (rows, r) == UpdateOutcome(old(rows), token, newName, newParent, serverAccepts)
      ensures meanwhile == old(rows) && Structured(old(rows)) ==>
        Structured(rows) && (NoDangling(old(rows)) ==> NoDangling(rows))
      ensures meanwhile == old(rows) && Structured(old(rows)) && WellNamed(old(rows)) ==>
        (WellNamed(rows) <==> rows == old(rows) || TrimmedCheckPasses(old(rows), token, newName, newParent))
    {
      hide LiveParents, Reaches, SiblingConflict, EffectiveParent, CleanName, Upsert, Structured, WellNamed, NoDangling,
        TrimmedCheckPasses, KeptExactly, ReplacesRow, Revises, DistinctTokens;
      if Structured(rows) {
        UpdateKeepsStructure(rows, token, newName, newParent, serverAccepts);
        if WellNamed(rows) { UpdateKeepsNamesIff(rows, token, newName, newParent, serverAccepts); }
      }
      var found := Find(rows, token);
      if found.None? {
        return Err(NotFound);
      }
      var stored := found.value;
      var name := stored.name;
      if newName.Some? {
        var clean := CleanName(newName.value);
        if clean.Err? {
          return Err(clean.error);
        }
        name := clean.value;
      }
      var current := EffectiveParent(rows, stored);
      var parent := if newParent.Some? then newParent.value else current;
      if parent.Some? {
        if parent.value !in Tokens(rows) {
          return Err(ParentNotFound);
        }
        var cyclic := CreatesCycle(rows, token, parent);
        if cyclic {
          return Err(Cycle);
        }
      }
      if name == stored.name && parent == current {
        return Ok(());
      }
      if SiblingConflict(rows, parent, name, Some(token)) {
        return Err(AlreadyExists);
      }
      rows := meanwhile;
      if !serverAccepts {
        return Err(Server);
      }
      var row := stored.(name := name, parent := parent);
      UpsertReplaces(rows, row);
      UpdateRevises(old(rows), stored, newName, newParent, name, parent);
      WriteIsKeptExactly(rows, Put(row));
      rows := Upsert(rows, row);
      return Ok(());
    }

    method Delete(token: string, serverAccepts: bool, meanwhile: seq<Folder>) returns (r: Result<()>)
      modifies this
      ensures match DeleteCheck(old(rows), token)
              case Err(e) => r == Err(e) && rows == old(rows)
              case Ok(w) =>
                if serverAccepts then r == Ok(()) && rows == Written(meanwhile, w) && KeptExactly(meanwhile, w, rows)
                else r == Err(Server) && rows == meanwhile
      ensures r.Ok? ==> token !in Tokens(rows) && NamedByNone(rows, token)
      ensures r.Ok? ==> forall g :: g in rows <==>
        (g.token != token && g.parent != Some(token)
          && (g in meanwhile || (g.parent.None? && g.(parent := Some(token)) in meanwhile)))
      ensures meanwhile == old(rows) ==> (rows, r) == DeleteOutcome(old(rows), token, serverAccepts)
      ensures meanwhile == old(rows) && Structured(old(rows)) ==>
        && Structured(rows) && (NoDangling(old(rows)) ==> NoDangling(rows))
        && (WellNamed(old(rows)) ==> WellNamed(rows))
    {
      hide EffectiveParent, Structured, WellNamed, NoDangling, NamedByNone, KeptExactly;
      if Structured(rows) { DeleteKeepsTable(rows, token, serverAccepts); }
      if token !in Tokens(rows) {
        return Err(NotFound);
      }
      if HasChildren(rows, token) {
        return Err(HasSubfolders);
      }
      rows := meanwhile;
      if !serverAccepts {
        return Err(Server);
      }
      WriteIsKeptExactly(rows, Remove(token));
      NothingNamesTheRemoved(rows, token);
      RowsLeft(rows, token);
      rows := DeleteRow(rows, token);
      return Ok(());
    }
  }
}
