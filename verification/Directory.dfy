/**
  The mailbox directory: system mailboxes followed by the folder tree, name resolution, and the
  bounded descendant check.
*/
module Directory {
  import opened Text
  import opened ParentGraph
  import opened FolderTable
  import opened FolderRepair
  import opened FolderTree
  import opened FolderTreeFacts
  import opened FolderPaths

  datatype MailboxEntry = MailboxEntry(
    path: string,
    tag: string,
    specialUse: string,
    hasChildren: bool,
    folder: Option<FolderNode>
  )

  const LABEL_PREFIX: string := "folder:"

  function FolderLabel(token: string): string {
    LABEL_PREFIX + token
  }

  function SystemEntry(m: SystemMailbox): MailboxEntry {
    MailboxEntry(m.name, m.tag, m.specialUse, false, None)
  }

  function CustomEntry(n: FolderNode): MailboxEntry {
    MailboxEntry(n.path, FolderLabel(n.token), "", n.hasChildren, Some(n))
  }

  function EntriesOf(nodes: seq<FolderNode>): (r: seq<MailboxEntry>)
    ensures |r| == |SYSTEM_MAILBOXES| + |nodes|
    ensures forall i :: 0 <= i < |SYSTEM_MAILBOXES| ==> r[i] == SystemEntry(SYSTEM_MAILBOXES[i])
    ensures forall i :: 0 <= i < |nodes| ==> r[|SYSTEM_MAILBOXES| + i] == CustomEntry(nodes[i])
  {
    seq(|SYSTEM_MAILBOXES|, i requires 0 <= i < |SYSTEM_MAILBOXES| => SystemEntry(SYSTEM_MAILBOXES[i]))
    + seq(|nodes|, i requires 0 <= i < |nodes| => CustomEntry(nodes[i]))
  }

  ghost function DirectoryOf(fs: seq<Folder>): (r: seq<MailboxEntry>)
    ensures |r| == |SYSTEM_MAILBOXES| + |TreeOf(fs)|
    ensures forall i :: 0 <= i < |SYSTEM_MAILBOXES| ==> r[i] == SystemEntry(SYSTEM_MAILBOXES[i])
    ensures forall i :: 0 <= i < |TreeOf(fs)| ==> r[|SYSTEM_MAILBOXES| + i] == CustomEntry(TreeOf(fs)[i])
  {
    EntriesOf(TreeOf(fs))
  }

  method BuildDirectory(folders: seq<Folder>) returns (entries: seq<MailboxEntry>)
    ensures entries == DirectoryOf(folders)
  {
    hide TreeOf, EntriesOf;
    entries := [];
    for i := 0 to |SYSTEM_MAILBOXES|
      invariant |entries| == i && forall j :: 0 <= j < i ==> entries[j] == SystemEntry(SYSTEM_MAILBOXES[j])
    {
      entries := entries + [SystemEntry(SYSTEM_MAILBOXES[i])];
    }
    var tree := BuildTree(folders);
    for i := 0 to |tree|
      invariant |entries| == |SYSTEM_MAILBOXES| + i
      invariant forall j :: 0 <= j < |SYSTEM_MAILBOXES| ==> entries[j] == SystemEntry(SYSTEM_MAILBOXES[j])
      invariant forall j :: 0 <= j < i ==> entries[|SYSTEM_MAILBOXES| + j] == CustomEntry(tree[j])
    {
      entries := entries + [CustomEntry(tree[i])];
    }
    assert forall k :: |SYSTEM_MAILBOXES| <= k < |entries| ==> entries[k] == CustomEntry(tree[k - |SYSTEM_MAILBOXES|]);
  }

  // ---------- name resolution ----------

  function FirstWith(s: seq<MailboxEntry>, p: MailboxEntry -> bool): (r: Option<MailboxEntry>)
    ensures r.Some? ==> r.value in s && p(r.value)
    ensures r.None? ==> forall e :: e in s ==> !p(e)
  {
    if s == [] then None else if p(s[0]) then Some(s[0]) else FirstWith(s[1..], p)
  }

  function KeepWith(s: seq<MailboxEntry>, p: MailboxEntry -> bool): (r: seq<MailboxEntry>)
    ensures forall e :: e in r <==> e in s && p(e)
    ensures |r| <= |s|
  {
    if s == [] then []
    else (if p(s[0]) then [s[0]] else []) + KeepWith(s[1..], p)
  }

  predicate IsCustom(e: MailboxEntry) {
    e.folder.Some?
  }

  /** A mailbox name as typed, without blank ends and trailing separators. */
  function Query(name: string): string {
    TrimEnd(Trim(name, IsSpace), IsSeparator)
  }

  /** The entry with this path or else, ignoring case, the only one with it. */
  function FindByPath(custom: seq<MailboxEntry>, wanted: string): Option<MailboxEntry> {
    var exact := FirstWith(custom, (e: MailboxEntry) => e.path == wanted);
    if exact.Some? then exact
    else
      var matches := KeepWith(custom, (e: MailboxEntry) => Lower(e.path) == Lower(wanted));
      if |matches| == 1 then Some(matches[0]) else None
  }

  function Resolve(entries: seq<MailboxEntry>, name: string): Option<MailboxEntry> {
    var wanted := Query(name);
    match SystemMailboxNamed(wanted)
    case Some(m) => FirstWith(entries, (e: MailboxEntry) => e.tag == m.tag)
    case None =>
      if wanted == [] then None else FindByPath(KeepWith(entries, IsCustom), wanted)
  }

  lemma EntryCases(fs: seq<Folder>, e: MailboxEntry)
    requires e in DirectoryOf(fs)
    ensures e.folder.None? ==> exists i :: 0 <= i < |SYSTEM_MAILBOXES| && e == SystemEntry(SYSTEM_MAILBOXES[i])
    ensures e.folder.Some? ==> exists i :: 0 <= i < |TreeOf(fs)| && e == CustomEntry(TreeOf(fs)[i])
  {
    hide TreeOf;
    var i :| 0 <= i < |DirectoryOf(fs)| && DirectoryOf(fs)[i] == e;
    if i >= |SYSTEM_MAILBOXES| {
      assert e == CustomEntry(TreeOf(fs)[i - |SYSTEM_MAILBOXES|]);
    }
  }

  /** What is known of a custom entry's path. */
  lemma CustomPathFacts(fs: seq<Folder>, e: MailboxEntry)
    requires e in DirectoryOf(fs) && e.folder.Some?
    ensures ValidForest(ForestOf(fs)) && e.folder.value.token in Tokens(ForestOf(fs).folders)
    ensures e.path == PathOf(ForestOf(fs), e.folder.value.token)
    ensures Lower(e.path) !in SystemNames()
    ensures e.path != [] && Trimmed(e.path, IsSpace) && Trimmed(e.path, IsSeparator)
  {
    hide TreeOf, PathOf, ForestOf, SystemNames;
    EntryCases(fs, e);
    var i :| 0 <= i < |TreeOf(fs)| && e == CustomEntry(TreeOf(fs)[i]);
    TreePaths(fs, i);
    RootPath(ForestOf(fs), e.folder.value.token);
    PathIsClean(ForestOf(fs), e.folder.value.token);
    LowerKeepsSeparator(e.path);
    NoSystemNameHasSeparator(Lower(e.path));
  }

  lemma NoSystemNameHasSeparator(n: string)
    ensures n in SystemNames() ==> SEPARATOR !in n
  {
  }

  /** Entries of a directory are told apart by their paths, even ignoring case. */
  lemma EntryPathsDiffer(fs: seq<Folder>, a: MailboxEntry, b: MailboxEntry)
    requires a in DirectoryOf(fs) && b in DirectoryOf(fs) && Lower(a.path) == Lower(b.path)
    ensures a == b
  {
    hide TreeOf, PathOf, ForestOf, SystemNames;
    EntryCases(fs, a);
    EntryCases(fs, b);
    SystemNamesAreLowered();
    if a.folder.Some? { CustomPathFacts(fs, a); }
    if b.folder.Some? { CustomPathFacts(fs, b); }
    if a.folder.Some? && b.folder.Some? {
      PathsDiffer(ForestOf(fs), a.folder.value.token, b.folder.value.token);
      var i :| 0 <= i < |TreeOf(fs)| && a == CustomEntry(TreeOf(fs)[i]);
      var j :| 0 <= j < |TreeOf(fs)| && b == CustomEntry(TreeOf(fs)[j]);
      ShownOnce(fs, i, j);
    }
  }

  lemma LabelIsNotSystemTag(token: string, m: SystemMailbox)
    requires m in SYSTEM_MAILBOXES
    ensures FolderLabel(token) != m.tag
  {
    assert FolderLabel(token)[0] == 'f';
    assert m.tag[0] != 'f';
  }

  lemma SystemTagsDiffer(fs: seq<Folder>, m: SystemMailbox, e: MailboxEntry)
    requires m in SYSTEM_MAILBOXES && e in DirectoryOf(fs) && e.tag == m.tag
    ensures e == SystemEntry(m)
  {
    hide TreeOf, FolderLabel;
    EntryCases(fs, e);
    if e.folder.Some? {
      LabelIsNotSystemTag(e.folder.value.token, m);
    }
  }

  ghost predicate NoRepeats(s: seq<MailboxEntry>) {
    forall i, j :: 0 <= i < j < |s| ==> s[i] != s[j]
  }

  lemma {:induction false} KeepHasNoRepeats(s: seq<MailboxEntry>, p: MailboxEntry -> bool)
    requires NoRepeats(s)
    ensures NoRepeats(KeepWith(s, p))
  {
    if s != [] {
      KeepHasNoRepeats(s[1..], p);
      var rest := KeepWith(s[1..], p);
      forall j | 0 <= j < |rest| ensures rest[j] != s[0] {
        assert rest[j] in rest;
        var i :| 0 <= i < |s[1..]| && s[1..][i] == rest[j];
        assert s[i + 1] == rest[j];
      }
    }
  }

  /** When exactly one entry qualifies, it is the whole selection. */
  lemma KeepSingle(s: seq<MailboxEntry>, p: MailboxEntry -> bool, e: MailboxEntry)
    requires NoRepeats(s) && e in s && p(e) && forall x :: x in s && p(x) ==> x == e
    ensures KeepWith(s, p) == [e]
  {
    KeepHasNoRepeats(s, p);
    OnlyOne(KeepWith(s, p), e);
  }

  lemma OnlyOne(r: seq<MailboxEntry>, e: MailboxEntry)
    requires NoRepeats(r) && e in r && forall x :: x in r ==> x == e
    ensures r == [e]
  {
    forall i | 0 <= i < |r| ensures r[i] == e {
      assert r[i] in r;
    }
    if |r| >= 2 { RepeatedPair(r); }
  }

  lemma RepeatedPair(r: seq<MailboxEntry>)
    requires |r| >= 2 && r[0] == r[1]
    ensures !NoRepeats(r)
  {
  }

  lemma SystemEntriesDiffer(i: nat, j: nat)
    requires i < j < |SYSTEM_MAILBOXES|
    ensures SystemEntry(SYSTEM_MAILBOXES[i]) != SystemEntry(SYSTEM_MAILBOXES[j])
  {
    SystemNamesAreLowered();
  }

  lemma DirectoryHasNoRepeats(fs: seq<Folder>)
    ensures NoRepeats(DirectoryOf(fs))
  {
    hide TreeOf, FolderLabel, SYSTEM_MAILBOXES, DirectoryOf;
    var d := DirectoryOf(fs);
    var k := |SYSTEM_MAILBOXES|;
    forall i, j | 0 <= i < j < |d| ensures d[i] != d[j] {
      if j < k {
        SystemEntriesDiffer(i, j);
      } else {
        assert d[j] == CustomEntry(TreeOf(fs)[j - k]);
        if i >= k {
          assert d[i] == CustomEntry(TreeOf(fs)[i - k]);
          ShownOnce(fs, i - k, j - k);
        }
      }
    }
  }

  lemma {:induction false} SystemEntryOf(fs: seq<Folder>, m: SystemMailbox)
    requires m in SYSTEM_MAILBOXES
    ensures SystemEntry(m) in DirectoryOf(fs)
  {
    hide TreeOf;
    var i :| 0 <= i < |SYSTEM_MAILBOXES| && SYSTEM_MAILBOXES[i] == m;
    assert DirectoryOf(fs)[i] == SystemEntry(m);
  }

  /** For a name that is no system mailbox, the custom entries with that path decide. */
  lemma ResolveCustom(fs: seq<Folder>, name: string, e: MailboxEntry)
    requires SystemMailboxNamed(Query(name)).None?
    requires e in DirectoryOf(fs) && Lower(e.path) == Lower(Query(name))
    ensures Resolve(DirectoryOf(fs), name) == Some(e)
  {
    hide TreeOf, DirectoryOf, Query, SystemMailboxNamed, SystemNames, FindByPath, Lower, NoRepeats;
    var d, wanted := DirectoryOf(fs), Query(name);
    SystemMailboxNamedIff(wanted);
    EntryIsCustom(fs, e);
    CustomPathFacts(fs, e);
    forall x | x in d && Lower(x.path) == Lower(wanted) ensures x == e { EntryPathsDiffer(fs, x, e); }
    DirectoryHasNoRepeats(fs);
    KeepHasNoRepeats(d, IsCustom);
    OnlyOneIsFound(KeepWith(d, IsCustom), wanted, e);
    assert wanted != [] by { assert |Lower(e.path)| == |e.path| && |Lower(wanted)| == |wanted|; }
  }

  lemma OnlyOneIsFound(custom: seq<MailboxEntry>, wanted: string, e: MailboxEntry)
    requires NoRepeats(custom) && e in custom && Lower(e.path) == Lower(wanted)
    requires forall x :: x in custom && Lower(x.path) == Lower(wanted) ==> x == e
    ensures FindByPath(custom, wanted) == Some(e)
  {
    hide Lower, NoRepeats;
    KeepSingle(custom, (x: MailboxEntry) => Lower(x.path) == Lower(wanted), e);
  }

  lemma EntryIsCustom(fs: seq<Folder>, e: MailboxEntry)
    requires e in DirectoryOf(fs) && Lower(e.path) !in SystemNames()
    ensures e.folder.Some?
  {
    hide TreeOf, SystemNames;
    EntryCases(fs, e);
    SystemNamesAreLowered();
  }

  /** An entry that resolution returns has the path that was asked for, ignoring case. */
  lemma ResolvedHasPath(fs: seq<Folder>, name: string)
    ensures var r := Resolve(DirectoryOf(fs), name);
      r.Some? ==> r.value in DirectoryOf(fs) && Lower(r.value.path) == Lower(Query(name))
  {
    hide TreeOf, DirectoryOf, Query, SystemMailboxNamed;
    var d, wanted := DirectoryOf(fs), Query(name);
    var r := Resolve(d, name);
    if r.Some? && SystemMailboxNamed(wanted).Some? {
      var m := SystemMailboxNamed(wanted).value;
      NamedSystemMailbox(wanted);
      SystemTagsDiffer(fs, m, r.value);
    }
  }

  lemma NamedSystemMailbox(name: string)
    requires SystemMailboxNamed(name).Some?
    ensures SystemMailboxNamed(name).value in SYSTEM_MAILBOXES
      && Lower(SystemMailboxNamed(name).value.name) == Lower(name)
  {
  }

  /**
    Resolution is exact: a name resolves to an entry precisely when the entry's path is the
    name, ignoring case, blank ends and trailing separators. In particular two matches never
    occur, every entry is found under any casing of its path, and no folder hides a system mailbox.
  */
  lemma ResolveIff(fs: seq<Folder>, name: string, e: MailboxEntry)
    ensures Resolve(DirectoryOf(fs), name) == Some(e) <==>
      e in DirectoryOf(fs) && Lower(e.path) == Lower(Query(name))
  {
    hide TreeOf, DirectoryOf, Query, SystemMailboxNamed, SystemNames, Resolve;
    var d, wanted := DirectoryOf(fs), Query(name);
    ResolvedHasPath(fs, name);
    if e in d && Lower(e.path) == Lower(wanted) {
      if SystemMailboxNamed(wanted).Some? {
        ResolveSystem(fs, name);
        EntryPathsDiffer(fs, e, SystemEntry(SystemMailboxNamed(wanted).value));
      } else {
        ResolveCustom(fs, name, e);
      }
    }
  }

  lemma ResolveSystem(fs: seq<Folder>, name: string)
    requires SystemMailboxNamed(Query(name)).Some?
    ensures var m := SystemMailboxNamed(Query(name)).value;
      SystemEntry(m) in DirectoryOf(fs) && Lower(m.name) == Lower(Query(name))
      && Resolve(DirectoryOf(fs), name) == Some(SystemEntry(m))
  {
    hide TreeOf, DirectoryOf, Query, SystemMailboxNamed;
    var m := SystemMailboxNamed(Query(name)).value;
    NamedSystemMailbox(Query(name));
    SystemEntryOf(fs, m);
    var r := Resolve(DirectoryOf(fs), name);
    SystemTagsDiffer(fs, m, r.value);
  }

  lemma LowerTrimmed(s: string, t: string)
    requires Lower(s) == Lower(t) && Trimmed(t, IsSpace) && Trimmed(t, IsSeparator)
    ensures Query(s) == s
  {
    if s != [] {
      assert Lower(s)[0] == Lower(t)[0] && Lower(s)[|s| - 1] == Lower(t)[|t| - 1];
      assert Trimmed(s, IsSpace) && Trimmed(s, IsSeparator);
    }
    TrimFixed(s, IsSpace);
  }

  /** Every mailbox is found under any casing of its own path. */
  lemma EveryCasingResolves(fs: seq<Folder>, e: MailboxEntry, name: string)
    requires e in DirectoryOf(fs) && Lower(name) == Lower(e.path)
    ensures Resolve(DirectoryOf(fs), name) == Some(e)
  {
    hide TreeOf, DirectoryOf, Resolve, Query;
    if e.folder.Some? {
      CustomPathFacts(fs, e);
    } else {
      EntryCases(fs, e);
    }
    LowerTrimmed(name, e.path);
    ResolveIff(fs, name, e);
  }

  ghost predicate All(s: string, p: char -> bool) {
    forall c :: c in s ==> p(c)
  }

  lemma {:induction false} TrimStartPadded(l: string, m: string, p: char -> bool)
    requires All(l, p) && m != [] && !p(m[0])
    ensures TrimStart(l + m, p) == m
  {
    if l == [] {
      assert l + m == m;
    } else {
      assert (l + m)[1..] == l[1..] + m;
      TrimStartPadded(l[1..], m, p);
    }
  }

  lemma {:induction false} TrimEndPadded(m: string, r: string, p: char -> bool)
    requires All(r, p) && m != [] && !p(m[|m| - 1])
    ensures TrimEnd(m + r, p) == m
  {
    if r == [] {
      assert m + r == m;
    } else {
      assert (m + r)[..|m + r| - 1] == m + r[..|r| - 1];
      TrimEndPadded(m, r[..|r| - 1], p);
    }
  }

  /** Blanks around a name and separators behind it are dropped. */
  lemma QueryOfPadded(l: string, s: string, sl: string, r: string)
    requires All(l, IsSpace) && All(sl, IsSeparator) && All(r, IsSpace)
    requires s != [] && Trimmed(s, IsSpace) && Trimmed(s, IsSeparator)
    ensures Query(l + s + sl + r) == s
  {
    var m := s + sl;
    assert sl != [] ==> sl[|sl| - 1] in sl;
    assert l + s + sl + r == l + (m + r);
    TrimStartPadded(l, m + r, IsSpace);
    TrimEndPadded(m, r, IsSpace);
    TrimEndPadded(s, sl, IsSeparator);
  }

  lemma TrimPieces(s: string, p: char -> bool) returns (l: string, r: string)
    ensures s == l + Trim(s, p) + r && All(l, p) && All(r, p)
  {
    var i := TrimStartSplits(s, p);
    var m := s[i..];
    var j := TrimEndSplits(m, p);
    l, r := s[..i], m[j..];
    assert s == l + m && m == m[..j] + r;
    forall c | c in r ensures p(c) {
      var k :| 0 <= k < |r| && r[k] == c;
      assert m[j + k] == c;
    }
  }

  lemma QuerySplits(typed: string) returns (l: string, sl: string, r: string)
    ensures typed == l + Query(typed) + sl + r && All(l, IsSpace) && All(sl, IsSeparator) && All(r, IsSpace)
  {
    hide IsSpace, IsSeparator, All;
    l, r := TrimPieces(typed, IsSpace);
    var m := Trim(typed, IsSpace);
    hide Trim;
    sl := EndPieces(m, IsSeparator);
    assert m == Query(typed) + sl;
    assert l + (Query(typed) + sl) + r == l + Query(typed) + sl + r;
  }

  lemma EndPieces(s: string, p: char -> bool) returns (r: string)
    ensures s == TrimEnd(s, p) + r && All(r, p)
  {
    var j := TrimEndSplits(s, p);
    r := s[j..];
    forall c | c in r ensures p(c) {
      var k :| 0 <= k < |r| && r[k] == c;
      assert s[j + k] == c;
    }
  }

  lemma CleanTwin(s: string, t: string)
    requires Lower(s) == Lower(t) && t != [] && Trimmed(t, IsSpace) && Trimmed(t, IsSeparator)
    ensures s != [] && Trimmed(s, IsSpace) && Trimmed(s, IsSeparator)
  {
    assert Lower(s)[0] == Lower(t)[0] && Lower(s)[|s| - 1] == Lower(t)[|t| - 1];
  }

  /**
    What can be typed for a mailbox: its path in any casing, with blanks around it and separators
    behind it. Nothing else resolves to it.
  */
  lemma TypedNameResolvesIff(fs: seq<Folder>, typed: string, e: MailboxEntry)
    ensures Resolve(DirectoryOf(fs), typed) == Some(e) <==>
      e in DirectoryOf(fs)
      && exists l, s, sl, r :: typed == l + s + sl + r && All(l, IsSpace) && All(sl, IsSeparator) && All(r, IsSpace)
                               && Lower(s) == Lower(e.path)
  {
    hide TreeOf, DirectoryOf, Resolve, Query, All, IsSpace, IsSeparator;
    ResolveIff(fs, typed, e);
    if e in DirectoryOf(fs) {
      PathIsTyped(fs, e);
      var a, b, c := QuerySplits(typed);
      if l, s, sl, r :| typed == l + s + sl + r && All(l, IsSpace) && All(sl, IsSeparator) && All(r, IsSpace)
                        && Lower(s) == Lower(e.path) {
        CleanTwin(s, e.path);
        QueryOfPadded(l, s, sl, r);
      }
    }
  }

  lemma PathIsTyped(fs: seq<Folder>, e: MailboxEntry)
    requires e in DirectoryOf(fs)
    ensures e.path != [] && Trimmed(e.path, IsSpace) && Trimmed(e.path, IsSeparator)
  {
    hide TreeOf, DirectoryOf;
    if e.folder.Some? {
      CustomPathFacts(fs, e);
    } else {
      EntryCases(fs, e);
    }
  }

  /** The directory lists the six system mailboxes, then one entry for each node of the tree, in order. */
  lemma DirectoryLists(fs: seq<Folder>, i: nat)
    ensures |DirectoryOf(fs)| == 6 + |TreeOf(fs)|
    ensures DirectoryOf(fs)[..6] == [
      MailboxEntry("INBOX", "inbox", "", false, None), MailboxEntry("Sent", "sent", "\\Sent", false, None),
      MailboxEntry("Drafts", "drafts", "\\Drafts", false, None), MailboxEntry("Trash", "trash", "\\Trash", false, None),
      MailboxEntry("Junk", "spam", "\\Junk", false, None), MailboxEntry("Archive", "archive", "\\Archive", false, None)]
    ensures i < |TreeOf(fs)| ==>
      var n := TreeOf(fs)[i];
      DirectoryOf(fs)[6 + i] == MailboxEntry(n.path, "folder:" + n.token, "", n.hasChildren, Some(n))
  {
    hide TreeOf, DirectoryOf;
    assert forall k :: 0 <= k < 6 ==> DirectoryOf(fs)[..6][k] == DirectoryOf(fs)[k] == SystemEntry(SYSTEM_MAILBOXES[k]);
    if i < |TreeOf(fs)| { assert DirectoryOf(fs)[6 + i] == CustomEntry(TreeOf(fs)[i]); }
  }

  // ---------- the descendant check ----------

  function NodesByToken(entries: seq<MailboxEntry>): map<string, FolderNode> {
    if entries == [] then map[]
    else
      var rest := NodesByToken(entries[..|entries| - 1]);
      match entries[|entries| - 1].folder
      case None => rest
      case Some(n) => rest[n.token := n]
  }

  function NodeParents(entries: seq<MailboxEntry>): Parents {
    var nodes := NodesByToken(entries);
    map t | t in nodes && nodes[t].parent.Some? :: nodes[t].parent.value
  }

  /** The bounded walk decides exactly whether `ancestor` is `candidate` or above it, on any list of entries. */
  method IsDescendant(entries: seq<MailboxEntry>, candidate: string, ancestor: string) returns (r: bool)
    ensures r <==> Reaches(NodeParents(entries), candidate, ancestor)
  {
    var nodes := NodesByToken(entries);
    ghost var up := NodeParents(entries);
    var cursor := Some(candidate);
    var steps := 0;
    while cursor.Some?
      invariant 0 <= steps <= |nodes| && cursor == Up(up, candidate, steps)
      invariant forall k: nat :: k < steps ==> Up(up, candidate, k) != Some(ancestor)
      decreases |nodes| - steps
    {
      var t := cursor.value;
      if t == ancestor {
        return true;
      }
      steps := steps + 1;
      UpStep(up, candidate, steps - 1);
      if steps > |nodes| {
        NoReachWithin(up, |nodes|, candidate, ancestor) by {
          CardinalityOfSubset(up.Keys, nodes.Keys);
        }
        return false;
      }
      cursor := if t in nodes then nodes[t].parent else None;
    }
    forall k: nat | k >= steps ensures Up(up, candidate, k).None? {
      UpPastEnd(up, candidate, steps, k);
    }
    return false;
  }

  lemma NoReachWithin(m: Parents, bound: nat, t: string, a: string)
    requires |m.Keys| <= bound && forall k: nat :: k <= bound ==> Up(m, t, k) != Some(a)
    ensures !Reaches(m, t, a)
  {
    if Reaches(m, t, a) {
      var k: nat :| Up(m, t, k) == Some(a);
      var n := ReachWithin(m, t, a, k);
    }
  }

  lemma {:induction false} NodesByTokenOf(entries: seq<MailboxEntry>, t: string)
    ensures t in NodesByToken(entries) ==>
      NodesByToken(entries)[t].token == t && exists e :: e in entries && e.folder == Some(NodesByToken(entries)[t])
    ensures (exists e :: e in entries && e.folder.Some? && e.folder.value.token == t) ==> t in NodesByToken(entries)
  {
    if entries != [] {
      var rest, last := entries[..|entries| - 1], entries[|entries| - 1];
      assert forall e :: e in entries <==> e in rest || e == last;
      NodesByTokenOf(rest, t);
    }
  }

  /** The parent a built directory records for a token is the repaired one. */
  lemma RecordedParent(fs: seq<Folder>, t: string)
    ensures ParentOf(NodeParents(DirectoryOf(fs)), t) == ParentOf(ForestOf(fs).up, t)
  {
    hide TreeOf, ForestOf, FolderLabel, SYSTEM_MAILBOXES, DirectoryOf;
    var d := DirectoryOf(fs);
    NodesByTokenOf(d, t);
    if t in NodesByToken(d) {
      var e :| e in d && e.folder == Some(NodesByToken(d)[t]);
      EntryCases(fs, e);
      var i :| 0 <= i < |TreeOf(fs)| && e == CustomEntry(TreeOf(fs)[i]);
      NodeParent(fs, i);
    } else {
      UnlistedIsRoot(fs, t);
    }
  }

  lemma NodeParent(fs: seq<Folder>, i: nat)
    requires i < |TreeOf(fs)|
    ensures TreeOf(fs)[i].parent == ParentOf(ForestOf(fs).up, TreeOf(fs)[i].token)
  {
    hide Whole, ForestOf, Kids;
    ForestOfIsValid(fs);
  }

  lemma UnlistedIsRoot(fs: seq<Folder>, t: string)
    requires t !in NodesByToken(DirectoryOf(fs))
    ensures t !in ForestOf(fs).up
  {
    hide TreeOf, FolderLabel, SYSTEM_MAILBOXES, DirectoryOf, RepairedParents, Tokens;
    RepairedIsForest(Dedup(fs));
    if t in ForestOf(fs).up {
      DedupTokens(fs, t);
      ShownIsListed(fs, t);
    }
  }

  lemma ShownIsListed(fs: seq<Folder>, t: string)
    requires t in Tokens(fs) && t != ""
    ensures t in NodesByToken(DirectoryOf(fs))
  {
    hide TreeOf, FolderLabel, SYSTEM_MAILBOXES, DirectoryOf, Tokens;
    var i := EveryFolderIsShown(fs, t);
    assert DirectoryOf(fs)[|SYSTEM_MAILBOXES| + i] == CustomEntry(TreeOf(fs)[i]);
    NodesByTokenOf(DirectoryOf(fs), t);
  }

  lemma DedupTokens(fs: seq<Folder>, t: string)
    requires t in Tokens(Dedup(fs))
    ensures t != "" && t in Tokens(fs)
  {
  }

  /** In a built directory the descendant check follows the repaired parents. */
  lemma DirectoryParents(fs: seq<Folder>)
    ensures NodeParents(DirectoryOf(fs)) == ForestOf(fs).up
  {
    hide TreeOf, ForestOf, DirectoryOf, NodeParents;
    var m, n := NodeParents(DirectoryOf(fs)), ForestOf(fs).up;
    forall t ensures t in m <==> t in n
      ensures t in m ==> m[t] == n[t]
    {
      RecordedParent(fs, t);
    }
  }
}
