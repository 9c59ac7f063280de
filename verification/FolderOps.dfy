/**
  Creating, renaming, moving and deleting folders: what each operation checks in the table it
  reads, and what it writes once the server has answered.
*/
module FolderOps {
  import opened Text
  import opened ParentGraph
  import opened FolderTable
  import opened FolderRepair

  datatype FolderOpError =
    | Invalid | AlreadyExists | NotFound | ParentNotFound | HasSubfolders | Cycle | Server

  datatype Result<+T> = Ok(value: T) | Err(error: FolderOpError)

  const MAX_NAME_CHARS: nat := 100

  /** The parent of a row as the guards see it. */
  function EffectiveParent(fs: seq<Folder>, f: Folder): Option<string> {
    match f.parent
    case Some(p) => if p != f.token && p in Tokens(fs) then Some(p) else None
    case None => None
  }

  function LiveParentOf(fs: seq<Folder>, t: string): Option<string> {
    match Find(fs, t) case Some(f) => EffectiveParent(fs, f) case None => None
  }

  function LiveParents(fs: seq<Folder>): Parents {
    map t | t in Tokens(fs) && LiveParentOf(fs, t).Some? :: LiveParentOf(fs, t).value
  }

  function CleanName(name: string): Result<string> {
    var trimmed := Trim(name, IsSpace);
    if trimmed == [] || |trimmed| > MAX_NAME_CHARS || (exists c :: c in trimmed && IsControl(c)) then Err(Invalid)
    else Ok(trimmed)
  }

  /** A name as siblings are compared by: trimmed, without case. */
  function FoldedName(f: Folder): string {
    Lower(Trim(f.name, IsSpace))
  }

  predicate SiblingConflict(fs: seq<Folder>, parent: Option<string>, name: string, except: Option<string>) {
    || (parent.None? && SystemMailboxNamed(name).Some?)
    || exists f ::
         f in fs && Some(f.token) != except && EffectiveParent(fs, f) == parent && FoldedName(f) == Lower(name)
  }

  predicate HasChildren(fs: seq<Folder>, t: string) {
    exists f :: f in fs && f.token != t && EffectiveParent(fs, f) == Some(t)
  }

  lemma LiveParentOfRow(fs: seq<Folder>, f: Folder)
    requires DistinctTokens(fs) && f in fs
    ensures ParentOf(LiveParents(fs), f.token) == EffectiveParent(fs, f)
  {
    FindDistinct(fs, f);
  }

  // ---------- the walk with a memory ----------

  lemma {:induction false} RepeatedWalkFindsNothingNew(m: Parents, p: string, a: string, i: nat, j: nat, k: nat)
    requires i < j && Up(m, p, i).Some? && Up(m, p, i) == Up(m, p, j)
    requires forall n: nat :: n < j ==> Up(m, p, n) != Some(a)
    ensures Up(m, p, k) != Some(a)
    decreases k
  {
    if k >= j {
      UpAdd(m, p, j, k - j);
      UpAdd(m, p, i, k - j);
      RepeatedWalkFindsNothingNew(m, p, a, i, j, i + (k - j));
    }
  }

  /** The walk that remembers what it has seen decides exactly whether `token` is above the new parent, on any table. */
  method CreatesCycle(folders: seq<Folder>, token: string, newParent: Option<string>) returns (r: bool)
    ensures r <==> newParent.Some? && Reaches(LiveParents(folders), newParent.value, token)
  {
    hide LiveParents, LiveParentOf, Tokens, EffectiveParent;
    if newParent.None? {
      return false;
    }
    ghost var m := LiveParents(folders);
    ghost var p := newParent.value;
    var cursor := newParent;
    var seen := {};
    ghost var steps: nat := 0;
    ghost var reachable := m.Values + {p};
    while cursor.Some?
      invariant cursor == Up(m, p, steps)
      invariant forall k: nat :: k < steps ==> Up(m, p, k) != Some(token)
      invariant forall x :: x in seen <==> exists k: nat :: k < steps && Up(m, p, k) == Some(x)
      invariant cursor.Some? ==> cursor.value in reachable
      decreases reachable - seen
    {
      var current := cursor.value;
      if current == token {
        return true;
      }
      if current in seen {
        ghost var i: nat :| i < steps && Up(m, p, i) == Some(current);
        forall k: nat ensures Up(m, p, k) != Some(token) {
          RepeatedWalkFindsNothingNew(m, p, token, i, steps, k);
        }
        return false;
      }
      seen := seen + {current};
      UpStep(m, p, steps);
      steps := steps + 1;
      FollowLive(folders, current);
      cursor := LiveParentOf(folders, current);
    }
    forall k: nat | k >= steps ensures Up(m, p, k).None? {
      UpPastEnd(m, p, steps, k);
    }
    return false;
  }

  lemma FollowLive(fs: seq<Folder>, t: string)
    ensures ParentOf(LiveParents(fs), t) == LiveParentOf(fs, t)
  {
  }

  // ---------- adding an edge keeps a forest a forest ----------

  /** A walk in a table with one changed edge either uses only old edges or meets the changed row. */
  lemma {:induction false} WalkAvoids(m: Parents, t: string, p: string, x: string, k: nat) returns (j: nat)
    requires Up(m[t := p], x, k).Some?
    ensures Up(m, x, k) == Up(m[t := p], x, k) || (j < k && Up(m[t := p], x, j) == Some(t))
    decreases k
  {
    j := 0;
    if k > 0 && x != t {
      var i := WalkAvoids(m, t, p, m[x], k - 1);
      j := i + 1;
    }
  }

  lemma {:induction false} FirstVisit(m: Parents, t: string, p: string, x: string, k: nat)
    requires Up(m[t := p], x, k) == Some(t)
    ensures Reaches(m, x, t)
    decreases k
  {
    if x == t {
      assert Up(m, x, 0) == Some(t);
    } else {
      FirstVisit(m, t, p, m[x], k - 1);
      var j: nat :| Up(m, m[x], j) == Some(t);
      assert Up(m, x, j + 1) == Some(t);
    }
  }

  /** Hanging `t` below a row that is not below `t` closes no cycle. */
  lemma EdgeKeepsAcyclic(m: Parents, t: string, p: string)
    requires Acyclic(m) && !Reaches(m, p, t)
    ensures Acyclic(m[t := p])
  {
    var n := m[t := p];
    forall x | x in n ensures !OnCycle(n, x) {
      if OnCycle(n, x) {
        var k: nat :| k >= 1 && Up(n, x, k) == Some(x);
        var j := WalkAvoids(m, t, p, x, k);
        if Up(m, x, k) == Some(x) {
          assert OnCycle(m, x);
        } else {
          UpAdd(n, x, k, j);
          UpAdd(n, x, j, k);
          FirstVisit(m, t, p, p, k - 1);
        }
      }
    }
  }

  lemma {:induction false} ArrivesAnyway(m: Parents, t: string, p: string, x: string, k: nat) returns (j: nat)
    requires Up(m, x, k) == Some(t)
    ensures Up(m[t := p], x, j) == Some(t)
    decreases k
  {
    j := 0;
    if x != t {
      var i := ArrivesAnyway(m, t, p, m[x], k - 1);
      j := i + 1;
    }
  }

  /** Hanging `t` below a row is safe only if that row is not below `t`. */
  lemma EdgeKeepsAcyclicIff(m: Parents, t: string, p: string)
    requires Acyclic(m)
    ensures Acyclic(m[t := p]) <==> !Reaches(m, p, t)
  {
    if Reaches(m, p, t) {
      var k: nat :| Up(m, p, k) == Some(t);
      var j := ArrivesAnyway(m, t, p, p, k);
      assert Up(m[t := p], t, j + 1) == Some(t);
      assert OnCycle(m[t := p], t);
    } else {
      EdgeKeepsAcyclic(m, t, p);
    }
  }

  lemma SubtableKeepsAcyclic(m: Parents, n: Parents)
    requires Acyclic(n) && forall x :: x in m ==> x in n && n[x] == m[x]
    ensures Acyclic(m)
  {
    forall x | x in m ensures !OnCycle(m, x) {
      if OnCycle(m, x) {
        var k: nat :| k >= 1 && Up(m, x, k) == Some(x);
        SubtableWalk(m, n, x, k);
      }
    }
  }

  // ---------- the table after each operation ----------

  /** Writes a row: in place of the row with its token, or at the end. */
  function Upsert(fs: seq<Folder>, f: Folder): (r: seq<Folder>) {
    if fs == [] then [f]
    else if fs[0].token == f.token then [f] + fs[1..]
    else [fs[0]] + Upsert(fs[1..], f)
  }

  lemma {:induction false} UpsertRows(fs: seq<Folder>, f: Folder)
    requires DistinctTokens(fs)
    ensures forall g :: g in Upsert(fs, f) <==> g == f || (g in fs && g.token != f.token)
    ensures Tokens(Upsert(fs, f)) == Tokens(fs) + {f.token}
    ensures DistinctTokens(Upsert(fs, f))
  {
    if fs != [] {
      var rest := fs[1..];
      assert forall g :: g in fs <==> g == fs[0] || g in rest;
      forall g | g in rest ensures g.token != fs[0].token {
        var i :| 0 <= i < |rest| && rest[i] == g;
        assert fs[i + 1] == g;
      }
      if fs[0].token != f.token {
        UpsertRows(rest, f);
        var r := Upsert(rest, f);
        forall i | 0 <= i < |r| ensures r[i].token != fs[0].token {
          assert r[i] in r;
        }
      }
    }
  }

  /** Removes a row and clears the parent of every row that named it. */
  function DeleteRow(fs: seq<Folder>, t: string): seq<Folder> {
    if fs == [] then []
    else
      (if fs[0].token == t then []
       else [if fs[0].parent == Some(t) then fs[0].(parent := None) else fs[0]]) + DeleteRow(fs[1..], t)
  }

  // ---------- check, then write ----------

  /** What an operation writes once the server has answered. */
  datatype Write = Put(row: Folder) | Remove(token: string)

  function Written(fs: seq<Folder>, w: Write): seq<Folder> {
    match w case Put(row) => Upsert(fs, row) case Remove(token) => DeleteRow(fs, token)
  }

  /** The part of create before the server is asked: a refusal, or the row to write. */
  ghost function CreateCheck(fs: seq<Folder>, name: string, parent: Option<string>, token: string,
                             serverId: string): Result<Write>
  {
    var clean := CleanName(name);
    if clean.Err? then Err(clean.error)
    else if parent.Some? && parent.value !in Tokens(fs) then Err(ParentNotFound)
    else if SiblingConflict(fs, parent, clean.value, None) then Err(AlreadyExists)
    else Ok(Put(Folder(token, serverId, clean.value, parent, 0, None)))
  }

  /** The same for update, which may also find nothing to do. */
  ghost function UpdateCheck(fs: seq<Folder>, token: string, newName: Option<string>,
                             newParent: Option<Option<string>>): Result<Option<Write>>
  {
    match Find(fs, token)
    case None => Err(NotFound)
    case Some(stored) =>
      var name := if newName.Some? then CleanName(newName.value) else Ok(stored.name);
      var current := EffectiveParent(fs, stored);
      var parent := if newParent.Some? then newParent.value else current;
      if name.Err? then Err(name.error)
      else if parent.Some? && parent.value !in Tokens(fs) then Err(ParentNotFound)
      else if parent.Some? && Reaches(LiveParents(fs), parent.value, token) then Err(Cycle)
      else if name.value == stored.name && parent == current then Ok(None)
      else if SiblingConflict(fs, parent, name.value, Some(token)) then Err(AlreadyExists)
      else Ok(Some(Put(stored.(name := name.value, parent := parent))))
  }

  ghost function DeleteCheck(fs: seq<Folder>, token: string): Result<Write> {
    if token !in Tokens(fs) then Err(NotFound)
    else if HasChildren(fs, token) then Err(HasSubfolders)
    else Ok(Remove(token))
  }

  // ---------- the operations, undisturbed ----------

  ghost function CreateOutcome(fs: seq<Folder>, name: string, parent: Option<string>, token: string, serverId: string,
                               serverAccepts: bool): (seq<Folder>, Result<string>)
  {
    match CreateCheck(fs, name, parent, token, serverId)
    case Err(e) => (fs, Err(e))
    case Ok(w) => if serverAccepts then (Written(fs, w), Ok(token)) else (fs, Err(Server))
  }

  ghost function UpdateOutcome(fs: seq<Folder>, token: string, newName: Option<string>,
                               newParent: Option<Option<string>>,
                               serverAccepts: bool): (seq<Folder>, Result<()>)
  {
    match UpdateCheck(fs, token, newName, newParent)
    case Err(e) => (fs, Err(e))
    case Ok(None) => (fs, Ok(()))
    case Ok(Some(w)) => if serverAccepts then (Written(fs, w), Ok(())) else (fs, Err(Server))
  }

  ghost function DeleteOutcome(fs: seq<Folder>, token: string, serverAccepts: bool): (seq<Folder>, Result<()>) {
    match DeleteCheck(fs, token)
    case Err(e) => (fs, Err(e))
    case Ok(w) => if serverAccepts then (Written(fs, w), Ok(())) else (fs, Err(Server))
  }

  // ---------- the invariant ----------

  /** Every parent a row names is a row. Synchronised tables need not have this. */
  ghost predicate NoDangling(fs: seq<Folder>) {
    forall f :: f in fs && f.parent.Some? ==> f.parent.value in Tokens(fs)
  }

  /** Siblings have different names, ignoring case and blank ends. */
  ghost predicate SiblingsDiffer(fs: seq<Folder>) {
    forall f, g :: f in fs && g in fs && f.token != g.token && EffectiveParent(fs, f) == EffectiveParent(fs, g) ==>
      FoldedName(f) != FoldedName(g)
  }

  /** No top-level folder has the name of a system mailbox. */
  ghost predicate NoSystemNames(fs: seq<Folder>) {
    forall f :: f in fs && EffectiveParent(fs, f).None? ==> FoldedName(f) !in SystemNames()
  }

  /** The rows form a forest under the parents the guards see. */
  ghost predicate Structured(fs: seq<Folder>) {
    DistinctTokens(fs) && Acyclic(LiveParents(fs)) && "" !in Tokens(fs)
  }

  ghost predicate WellNamed(fs: seq<Folder>) {
    SiblingsDiffer(fs) && NoSystemNames(fs)
  }

}
