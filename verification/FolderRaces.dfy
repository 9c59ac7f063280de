/**
  Folder operations that overlap. Each reads the table and checks it, waits for the server, and
  writes the table as it is by then. Any number of operations may wait at once, and synchronisation
  may put another table in place meanwhile.
*/
module FolderRaces {
  import opened Text
  import opened ParentGraph
  import opened FolderTable
  import opened FolderOps
  import opened FolderWrites
  import opened FolderRuns

  /** An operation that waits for the server, with the table it read. */
  datatype Pending = Pending(command: Command, read: seq<Folder>)

  datatype State = State(rows: seq<Folder>, waiting: map<nat, Pending>)

  /** An operation reads and checks; the server answers it and it writes; synchronisation replaces the table. */
  datatype Event = Read(id: nat, command: Command) | Answer(id: nat) | Replace(rows: seq<Folder>)

  /** What the check lets an operation write, given the table it read. */
  ghost function Decide(read: seq<Folder>, c: Command): Option<Write> {
    match c
    case Create(name, parent, token, serverId, _) =>
      (match CreateCheck(read, name, parent, token, serverId) case Ok(w) => Some(w) case Err(_) => None)
    case Update(target, newName, newParent, _) =>
      (match UpdateCheck(read, target, newName, newParent) case Ok(w) => w case Err(_) => None)
    case Delete(target, _) => (match DeleteCheck(read, target) case Ok(w) => Some(w) case Err(_) => None)
  }

  /** The write of an operation when its answer comes: none if the server refuses. */
  ghost function WriteOf(p: Pending): Option<Write> {
    if p.command.accepted then Decide(p.read, p.command) else None
  }

  /** The write that an answer brings. */
  ghost function Arriving(s: State, id: nat): Option<Write> {
    if id in s.waiting then WriteOf(s.waiting[id]) else None
  }

  ghost function Next(s: State, e: Event): State {
    match e
    case Read(id, c) => if Decide(s.rows, c).Some? then s.(waiting := s.waiting[id := Pending(c, s.rows)]) else s
    case Answer(id) =>
      State(match Arriving(s, id) case Some(w) => Written(s.rows, w) case None => s.rows, s.waiting - {id})
    case Replace(rows) => s.(rows := rows)
  }

  ghost function Final(s: State, es: seq<Event>): seq<Folder>
    decreases |es|
  {
    if es == [] then s.rows else Final(Next(s, es[0]), es[1..])
  }

  /** `good` holds of the table before, during and after the run. */
  ghost predicate Always(good: seq<Folder> -> bool, s: State, es: seq<Event>)
    decreases |es|
  {
    good(s.rows) && (es != [] ==> Always(good, Next(s, es[0]), es[1..]))
  }

  /** Each write is safe for the table it changes, and each table that synchronisation brings is good. */
  ghost predicate EachChange(
      good: seq<Folder> -> bool, safe: (seq<Folder>, Write) -> bool, s: State, es: seq<Event>)
    decreases |es|
  {
    es != [] ==>
      && ChangeIs(good, safe, s, es[0])
      && EachChange(good, safe, Next(s, es[0]), es[1..])
  }

  ghost predicate ChangeIs(good: seq<Folder> -> bool, safe: (seq<Folder>, Write) -> bool, s: State, e: Event) {
    match e
    case Read(_, _) => true
    case Answer(id) => Arriving(s, id).Some? ==> safe(s.rows, Arriving(s, id).value)
    case Replace(rows) => good(rows)
  }

  /** What holds of one write exactly when it is safe, holds throughout a run exactly when each change is. */
  lemma {:induction false} AlwaysIff(
      good: seq<Folder> -> bool, safe: (seq<Folder>, Write) -> bool, s: State, es: seq<Event>)
    requires good(s.rows)
    requires forall fs, w :: good(fs) ==> (good(Written(fs, w)) <==> safe(fs, w))
    ensures Always(good, s, es) <==> EachChange(good, safe, s, es)
    decreases |es|
  {
    hide Written, Arriving, Decide;
    if es != [] {
      var after := Next(s, es[0]);
      assert good(after.rows) <==> ChangeIs(good, safe, s, es[0]);
      if good(after.rows) {
        AlwaysIff(good, safe, after, es[1..]);
      }
    }
  }

  ghost predicate KeepsForest(fs: seq<Folder>, w: Write) {
    Writable(w) && ForestSafe(fs, w)
  }

  /**
    However operations overlap, the table stays a forest throughout if and only if each row is written
    below no row that is below it by then, and each table that synchronisation brings is a forest.
  */
  lemma RunKeepsForestIff(s: State, es: seq<Event>)
    requires Structured(s.rows)
    ensures Always(Structured, s, es) <==> EachChange(Structured, KeepsForest, s, es)
  {
    hide Structured, ForestSafe, Written;
    forall fs, w | Structured(fs) ensures Structured(Written(fs, w)) <==> KeepsForest(fs, w) {
      WriteKeepsForestIff(fs, w);
    }
    AlwaysIff(Structured, KeepsForest, s, es);
  }

  ghost predicate Named(fs: seq<Folder>) {
    DistinctTokens(fs) && WellNamed(fs)
  }

  ghost predicate KeepsNames(fs: seq<Folder>, w: Write) {
    !Clashes(fs, w)
  }

  /**
    Sibling names stay distinct, and system names free, throughout if and only if no write meets its
    name where its row comes to stand by then, and each table that synchronisation brings is well named.
  */
  lemma RunKeepsNamesApartIff(s: State, es: seq<Event>)
    requires Named(s.rows)
    ensures Always(Named, s, es) <==> EachChange(Named, KeepsNames, s, es)
  {
    hide WellNamed, Clashes, Written, DistinctTokens, Tokens;
    forall fs, w | Named(fs) ensures Named(Written(fs, w)) <==> KeepsNames(fs, w) {
      TokensAfterWrite(fs, w);
      WriteKeepsNamesApartIff(fs, w);
    }
    AlwaysIff(Named, KeepsNames, s, es);
  }

  ghost predicate Parented(fs: seq<Folder>) {
    DistinctTokens(fs) && NoDangling(fs)
  }

  /** No parent is ever left dangling if and only if each row is written below a row that is there by then. */
  lemma RunKeepsParentsIff(s: State, es: seq<Event>)
    requires Parented(s.rows)
    ensures Always(Parented, s, es) <==> EachChange(Parented, ParentPresent, s, es)
  {
    hide NoDangling, ParentPresent, Written, DistinctTokens, Tokens;
    forall fs, w | Parented(fs) ensures Parented(Written(fs, w)) <==> ParentPresent(fs, w) {
      TokensAfterWrite(fs, w);
      WriteKeepsParentsIff(fs, w);
    }
    AlwaysIff(Parented, ParentPresent, s, es);
  }

  // ---------- operations that find the table as they read it ----------

  ghost predicate EachStep(fits: (State, Event) -> bool, s: State, es: seq<Event>)
    decreases |es|
  {
    es != [] ==> fits(s, es[0]) && EachStep(fits, Next(s, es[0]), es[1..])
  }

  /** An operation that the server accepts finds the table it read. */
  ghost predicate Untouched(s: State, e: Event) {
    match e
    case Read(_, _) => true
    case Answer(id) => Arriving(s, id).Some? ==> s.waiting[id].read == s.rows
    case Replace(rows) => rows == s.rows
  }

  /** The operations of a run, in the order of their answers. */
  ghost function Answered(s: State, es: seq<Event>): seq<Command>
    decreases |es|
  {
    if es == [] then []
    else
      (if es[0].Answer? && Arriving(s, es[0].id).Some? then [s.waiting[es[0].id].command] else [])
      + Answered(Next(s, es[0]), es[1..])
  }

  lemma ApplyIsDecision(fs: seq<Folder>, c: Command)
    ensures Apply(fs, c) == match WriteOf(Pending(c, fs)) case Some(w) => Written(fs, w) case None => fs
  {
    hide CreateCheck, UpdateCheck, DeleteCheck, Written;
  }

  /** Such a run comes to what the same operations do one after the other, each at its answer. */
  lemma {:induction false} UntouchedRunIsSerial(s: State, es: seq<Event>)
    requires EachStep(Untouched, s, es)
    ensures Final(s, es) == Run(s.rows, Answered(s, es))
    ensures Always(WellNamed, s, es) <==> StaysWellNamed(s.rows, Answered(s, es))
    decreases |es|
  {
    hide WellNamed, Written, Decide, Apply;
    if es != [] {
      var after := Next(s, es[0]);
      UntouchedRunIsSerial(after, es[1..]);
      if es[0].Answer? && Arriving(s, es[0].id).Some? {
        var c := s.waiting[es[0].id].command;
        ApplyIsDecision(s.rows, c);
        assert Answered(s, es)[0] == c && Answered(s, es)[1..] == Answered(after, es[1..]);
      } else {
        assert Answered(s, es) == Answered(after, es[1..]) && after.rows == s.rows;
      }
    }
  }

  // ---------- a cycle needs two moves ----------

  /** The folders a table tells of: its rows, and those that rows name as parents. */
  function Known(fs: seq<Folder>): set<string> {
    Tokens(fs) + NamedParents(fs).Values
  }

  /** No other folder known at the read has been given another parent since. */
  ghost predicate OthersStayed(read: seq<Folder>, rows: seq<Folder>, t: string) {
    forall x :: x in Known(read) && x != t && x in NamedParents(rows) ==>
      x in NamedParents(read) && NamedParents(read)[x] == NamedParents(rows)[x]
  }

  lemma {:induction false} WalkOfOldLinks(m: Parents, n: Parents, known: set<string>, t: string, p: string, k: nat)
    requires Up(n, p, k) == Some(t) && p in known && m.Values <= known
    requires forall x :: x in known && x != t && x in n ==> x in m && m[x] == n[x]
    ensures Reaches(m, p, t)
    decreases k
  {
    if p == t {
      assert Up(m, p, 0) == Some(t);
    } else {
      assert m[p] == n[p] && m[p] in m.Values;
      WalkOfOldLinks(m, n, known, t, m[p], k - 1);
      var j: nat :| Up(m, m[p], j) == Some(t);
      assert Up(m, p, j + 1) == Some(t);
    }
  }

  ghost predicate Sound(p: Pending) {
    Structured(p.read) && (p.command.Create? ==> FreshToken(p.read, p.command.token))
  }

  lemma CheckedIsSafe(p: Pending, w: Write)
    requires Sound(p) && WriteOf(p) == Some(w)
    ensures KeepsForest(p.read, w)
    ensures w.Put? && w.row.parent.Some? ==> w.row.parent.value in Tokens(p.read)
  {
    ApplyIsDecision(p.read, p.command) by { hide *; }
    ApplyKeepsStructure(p.read, p.command) by { hide Apply; }
    WriteKeepsForestIff(p.read, w) by { hide *; }
    hide Structured, KeepsForest, Written, Apply, Reaches, LiveParents, SiblingConflict, HasChildren, EffectiveParent,
      CleanName;
  }

  /**
    A write that closes a cycle has been overtaken: since its check, another folder that the checked
    table told of was given another parent. New folders, new names, removals and moves to the top do no harm.
  */
  lemma CycleNeedsAnotherMove(p: Pending, w: Write, rows: seq<Folder>)
    requires Sound(p) && WriteOf(p) == Some(w) && !KeepsForest(rows, w)
    ensures w.Put? && !OthersStayed(p.read, rows, w.row.token)
  {
    hide Sound, WriteOf, NamedParents, Tokens;
    CheckedIsSafe(p, w);
    var (t, parent) := (w.row.token, w.row.parent.value);
    if OthersStayed(p.read, rows, t) {
      var k: nat :| Up(NamedParents(rows), parent, k) == Some(t);
      WalkOfOldLinks(NamedParents(p.read), NamedParents(rows), Known(p.read), t, parent, k);
    }
  }

  ghost predicate MovesApart(s: State, e: Event) {
    match e
    case Read(_, c) => c.Create? ==> FreshToken(s.rows, c.token)
    case Answer(id) =>
      var w := Arriving(s, id);
      w.Some? && w.value.Put? ==> OthersStayed(s.waiting[id].read, s.rows, w.value.row.token)
    case Replace(rows) => Structured(rows)
  }

  ghost predicate ReadsAreSound(s: State) {
    forall id :: id in s.waiting ==> Sound(s.waiting[id])
  }

  lemma SafeArrival(s: State, id: nat)
    requires Structured(s.rows) && ReadsAreSound(s) && MovesApart(s, Answer(id)) && Arriving(s, id).Some?
    ensures Structured(Written(s.rows, Arriving(s, id).value))
  {
    hide Structured, Written, Decide, WriteOf, OthersStayed, FreshToken, ForestSafe, Sound;
    var p, w := s.waiting[id], Arriving(s, id).value;
    WriteKeepsForestIff(s.rows, w);
    if !KeepsForest(s.rows, w) { CycleNeedsAnotherMove(p, w, s.rows); }
  }

  lemma MovesApartStep(s: State, e: Event)
    requires Structured(s.rows) && ReadsAreSound(s) && MovesApart(s, e)
    ensures Structured(Next(s, e).rows) && ReadsAreSound(Next(s, e))
  {
    hide Structured, Written, Decide, WriteOf, OthersStayed, FreshToken;
    if e.Answer? && Arriving(s, e.id).Some? { SafeArrival(s, e.id); }
  }

  /** Runs in which no move overtakes another keep the forest, however else their operations overlap. */
  lemma {:induction false} MovesApartKeepTheForest(s: State, es: seq<Event>)
    requires Structured(s.rows) && ReadsAreSound(s) && EachStep(MovesApart, s, es)
    ensures Always(Structured, s, es)
    decreases |es|
  {
    hide Structured, MovesApart, ReadsAreSound, Next;
    if es != [] {
      MovesApartStep(s, es[0]);
      MovesApartKeepTheForest(Next(s, es[0]), es[1..]);
    }
  }

  // ---------- a clash needs a newcomer ----------

  /** Another folder has come to where the row is to stand, under its name, since the read. */
  ghost predicate RivalSince(read: seq<Folder>, rows: seq<Folder>, f: Folder) {
    exists g :: g in rows && g.token != f.token && EffectiveParent(rows, g) == f.parent
             && FoldedName(g) == FoldedName(f) && !StoodThere(read, g, f)
  }

  predicate StoodThere(read: seq<Folder>, g: Folder, f: Folder) {
    exists h ::
      h in read && h.token == g.token && EffectiveParent(read, h) == f.parent && FoldedName(h) == FoldedName(f)
  }

  /**
    A row that passed the check under its trimmed name meets that name at the write only if its
    parent has gone or a rival has come since; a removal lifts folders only if the folder has children by then.
  */
  lemma ClashNeedsANewcomer(p: Pending, w: Write, rows: seq<Folder>)
    requires WriteOf(p) == Some(w) && Clashes(rows, w)
    requires w.Put? ==> !SiblingConflict(p.read, w.row.parent, Trim(w.row.name, IsSpace), Some(w.row.token))
    ensures w.Put? ==> LandingParent(rows, w.row) != w.row.parent || RivalSince(p.read, rows, w.row)
    ensures w.Remove? ==> HasChildren(rows, w.token)
  {
    hide WriteOf, Decide, EffectiveParent, LandingParent, Trim, Lower, SystemNames, SystemMailboxNamed, RisesIntoClash;
    match w {
      case Put(f) =>
        SystemMailboxNamedIff(Trim(f.name, IsSpace));
        if LandingParent(rows, f) == f.parent {
          var g :| g in rows && g.token != f.token && EffectiveParent(rows, g) == f.parent
                   && FoldedName(g) == FoldedName(f);
          assert !StoodThere(p.read, g, f);
        }
      case Remove(t) =>
        ChildlessRemovalIsHarmless(rows, t);
    }
  }

  // ---------- what overlapping operations can do ----------

  ghost function Start(fs: seq<Folder>): State {
    State(fs, map[])
  }

  /** Two operations that read the same table, written in this order. */
  function Overlap(c: Command, d: Command): seq<Event> {
    [Read(0, c), Read(1, d), Answer(0), Answer(1)]
  }

  lemma OverlapWrites(fs: seq<Folder>, c: Command, d: Command, v: Write, w: Write)
    requires WriteOf(Pending(c, fs)) == Some(v) && WriteOf(Pending(d, fs)) == Some(w)
    ensures Final(Start(fs), Overlap(c, d)) == Written(Written(fs, v), w)
  {
    hide Decide, Written;
    var s0 := Start(fs);
    var s1 := Next(s0, Read(0, c));
    var s2 := Next(s1, Read(1, d));
    var s3 := Next(s2, Answer(0));
    var s4 := Next(s3, Answer(1));
    assert s2.waiting == map[0 := Pending(c, fs), 1 := Pending(d, fs)];
    assert s3.rows == Written(fs, v) && s3.waiting[1] == Pending(d, fs);
    var es := Overlap(c, d);
    assert es[1..] == [Read(1, d), Answer(0), Answer(1)];
    assert es[1..][1..] == [Answer(0), Answer(1)];
    assert es[1..][1..][1..] == [Answer(1)];
    assert Final(s3, [Answer(1)]) == Final(s4, []);
    assert Final(s2, [Answer(0), Answer(1)]) == Final(s3, [Answer(1)]);
  }

  /** Every create that passes its check can be doubled: both are written, and two siblings share the name. */
  lemma EveryCreateCanBeDoubled(
      fs: seq<Folder>, name: string, parent: Option<string>, a: string, b: string, ids: (string, string))
    requires Structured(fs) && FreshToken(fs, a) && FreshToken(fs, b) && a != b
    requires CreateCheck(fs, name, parent, a, ids.0).Ok?
    ensures var after :=
              Final(Start(fs), Overlap(Create(name, parent, a, ids.0, true), Create(name, parent, b, ids.1, true)));
            Structured(after) && !WellNamed(after)
  {
    hide SiblingConflict, CleanName, Final, WellNamed, LiveParents, Upsert, Acyclic, Reaches, EffectiveParent, Overlap;
    var clean := CleanName(name).value;
    var f, g := Folder(a, ids.0, clean, parent, 0, None), Folder(b, ids.1, clean, parent, 0, None);
    OverlapWrites(fs, Create(name, parent, a, ids.0, true), Create(name, parent, b, ids.1, true), Put(f), Put(g));
    if parent.Some? {
      FreshIsUnreachable(fs, parent.value, a);
      FreshIsUnreachable(fs, parent.value, b);
    }
    WriteKeepsStructure(fs, f);
    UpsertRows(fs, f);
    var once := Upsert(fs, f);
    if parent.Some? { FreshIsUnreachable(once, parent.value, b); }
    WriteKeepsStructure(once, g);
    LandsWhereAsked(fs, f);
    LandsWhereAsked(once, g);
    PlacesAfterPut(fs, f);
    assert f in once;
    assert PutClashes(once, g);
    ClashBreaksNames(once, g);
  }

  /** Every two moves below each other that pass their checks close a cycle when they overlap. */
  lemma OpposedMovesCloseACycle(fs: seq<Folder>, a: string, b: string)
    requires Structured(fs) && a != b
    requires Decide(fs, Update(a, None, Some(Some(b)), true)).Some?
    requires Decide(fs, Update(b, None, Some(Some(a)), true)).Some?
    ensures var (c, d) := (Update(a, None, Some(Some(b)), true), Update(b, None, Some(Some(a)), true));
            !Structured(Final(Start(fs), Overlap(c, d)))
  {
    hide SiblingConflict, Final, LiveParents, Upsert, Acyclic, NamedParents, EffectiveParent, Overlap;
    var c, d := Update(a, None, Some(Some(b)), true), Update(b, None, Some(Some(a)), true);
    var f, g := Find(fs, a).value.(parent := Some(b)), Find(fs, b).value.(parent := Some(a));
    OverlapWrites(fs, c, d, Put(f), Put(g));
    ApplyIsDecision(fs, c);
    ApplyKeepsStructure(fs, c);
    var once := Upsert(fs, f);
    NamedAfterPut(fs, f);
    var m := NamedParents(once);
    assert Up(m, a, 1) == Up(m, m[a], 0) == Some(b);
    assert Reaches(m, a, b);
    WriteKeepsForestIff(once, Put(g));
  }

  /** Every create below a folder that can be deleted leaves its parent dangling if the delete is written first. */
  lemma CreateBelowDeletedDangles(fs: seq<Folder>, t: string, name: string, token: string, id: string)
    requires Structured(fs) && FreshToken(fs, token)
    requires DeleteCheck(fs, t).Ok? && CreateCheck(fs, name, Some(t), token, id).Ok?
    ensures !NoDangling(Final(Start(fs), Overlap(Delete(t, true), Create(name, Some(t), token, id, true))))
  {
    hide SiblingConflict, CleanName, Final, LiveParents, Upsert, DeleteRow, Acyclic, EffectiveParent, Overlap, Tokens;
    var f := Folder(token, id, CleanName(name).value, Some(t), 0, None);
    OverlapWrites(fs, Delete(t, true), Create(name, Some(t), token, id, true), Remove(t), Put(f));
    TokensAfterWrite(fs, Remove(t));
    UpsertRows(DeleteRow(fs, t), f);
  }

  function TwoFolders(): seq<Folder> {
    [Folder("a", "1", "A", None, 0, None), Folder("b", "2", "B", None, 0, None)]
  }

  lemma TwoFoldersAtTheTop()
    ensures var fs := TwoFolders();
            && Tokens(fs) == {"a", "b"} && Find(fs, "a") == Some(fs[0]) && Find(fs, "b") == Some(fs[1])
            && EffectiveParent(fs, fs[0]) == None && EffectiveParent(fs, fs[1]) == None
    ensures LiveParents(TwoFolders()) == map[]
  {
    var fs := TwoFolders();
    assert Tokens(fs) == {"a", "b"} by { assert fs[0] in fs && fs[1] in fs; }
    hide Tokens;
    assert EffectiveParent(fs, fs[0]) == None && EffectiveParent(fs, fs[1]) == None;
    hide EffectiveParent;
    assert Find(fs, "b") == Find(fs[1..], "b");
    forall t ensures LiveParentOf(fs, t) == None { }
    assert LiveParents(fs) == map[];
  }

  lemma TwoFoldersAreSound()
    ensures Structured(TwoFolders()) && WellNamed(TwoFolders()) && NoDangling(TwoFolders())
  {
    var fs := TwoFolders();
    TwoFoldersAtTheTop();
    hide Tokens, EffectiveParent, Find, LiveParents, Trim, Lower;
    assert FoldedName(fs[0]) == "a" by { OneLetter('A'); }
    assert FoldedName(fs[1]) == "b" by { OneLetter('B'); }
  }

  lemma OneLetter(c: char)
    requires 'A' <= c <= 'Z'
    ensures Trim([c], IsSpace) == [c] && Lower([c]) == [(c as int + 32) as char]
  {
  }

  lemma WorkIsFree()
    ensures CleanName("Work") == Ok("Work") && !SiblingConflict(TwoFolders(), None, "Work", None)
  {
    assert Trim("Work", IsSpace) == "Work" && Lower("Work") == "work";
    OneLetter('A');
    OneLetter('B');
    SystemMailboxNamedIff("Work");
  }

  /** Each check passes on that table, so each of the three overlaps can happen there. */
  lemma TwoFoldersPassTheChecks()
    ensures CreateCheck(TwoFolders(), "Work", None, "x", "3").Ok?
    ensures CreateCheck(TwoFolders(), "Work", Some("a"), "x", "3").Ok?
    ensures DeleteCheck(TwoFolders(), "a").Ok?
    ensures Decide(TwoFolders(), Update("a", None, Some(Some("b")), true)).Some?
    ensures Decide(TwoFolders(), Update("b", None, Some(Some("a")), true)).Some?
  {
    var fs := TwoFolders();
    TwoFoldersAtTheTop();
    WorkIsFree();
    hide Tokens, LiveParents, Find, EffectiveParent, WellNamed, NoDangling, SystemMailboxNamed, CleanName, FoldedName;
  }

  /**
    On a sound table of two folders at the top, overlaps of two operations that the server accepts
    leave two siblings of one name, a cycle, and a dangling parent.
  */
  lemma OverlapsBreakASoundTable()
    ensures var fs := TwoFolders(); Structured(fs) && WellNamed(fs) && NoDangling(fs)
    ensures var (c, d) := (Create("Work", None, "x", "3", true), Create("Work", None, "y", "4", true));
            !WellNamed(Final(Start(TwoFolders()), Overlap(c, d)))
    ensures var (c, d) := (Update("a", None, Some(Some("b")), true), Update("b", None, Some(Some("a")), true));
            !Structured(Final(Start(TwoFolders()), Overlap(c, d)))
    ensures var (c, d) := (Delete("a", true), Create("Work", Some("a"), "x", "3", true));
            !NoDangling(Final(Start(TwoFolders()), Overlap(c, d)))
  {
    hide CreateCheck, Decide, DeleteCheck, Structured, WellNamed, NoDangling, Final, Overlap, Start;
    var fs := TwoFolders();
    TwoFoldersAtTheTop();
    TwoFoldersAreSound();
    TwoFoldersPassTheChecks();
    EveryCreateCanBeDoubled(fs, "Work", None, "x", "y", ("3", "4"));
    OpposedMovesCloseACycle(fs, "a", "b");
    CreateBelowDeletedDangles(fs, "a", "Work", "x", "3");
  }
}
