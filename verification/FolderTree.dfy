/**
  The folder tree. `Preorder` is the recursive reading of a forest; `BuildTree` is the loop with
  an explicit stack that the program runs, and it produces the same list.
*/
module FolderTree {
  import opened Text
  import opened ParentGraph
  import opened FolderTable
  import opened FolderRepair

  datatype FolderNode = FolderNode(
    token: string,
    serverId: string,
    name: string,
    parent: Option<string>,
    path: string,
    hasChildren: bool,
    position: nat
  )

  /** A row waiting to be shown, with the path it is shown under. */
  datatype Entry = Entry(folder: Folder, path: string)

  datatype Forest = Forest(folders: seq<Folder>, up: Parents)

  ghost predicate ValidForest(F: Forest) {
    && DistinctTokens(F.folders)
    && Acyclic(F.up)
    && (forall t :: t in F.up ==> F.up[t] in Tokens(F.folders))
  }

  // ---------- children of a node ----------

  /** The rows below `p`, in table order. */
  ghost function ChildrenOf(fs: seq<Folder>, up: Parents, p: Option<string>): seq<Folder> {
    if fs == [] then []
    else
      ChildrenOf(fs[..|fs| - 1], up, p)
      + if ParentOf(up, fs[|fs| - 1].token) == p then [fs[|fs| - 1]] else []
  }

  lemma {:induction false} ChildrenOfMembers(fs: seq<Folder>, up: Parents, p: Option<string>)
    ensures forall f :: f in ChildrenOf(fs, up, p) <==> f in fs && ParentOf(up, f.token) == p
  {
    if fs != [] {
      ChildrenOfMembers(fs[..|fs| - 1], up, p);
      assert forall f :: f in fs <==> f in fs[..|fs| - 1] || f == fs[|fs| - 1];
    }
  }

  lemma {:induction false} ChildrenOfDistinct(fs: seq<Folder>, up: Parents, p: Option<string>)
    requires DistinctTokens(fs)
    ensures DistinctTokens(ChildrenOf(fs, up, p))
  {
    if fs != [] {
      var rest := fs[..|fs| - 1];
      ChildrenOfDistinct(rest, up, p);
      ChildrenOfMembers(rest, up, p);
      var c := ChildrenOf(rest, up, p);
      forall i | 0 <= i < |c| ensures c[i].token != fs[|fs| - 1].token {
        assert c[i] in rest;
      }
    }
  }

  /** The rows below `p`, in sibling order. */
  ghost function Kids(F: Forest, p: Option<string>): seq<Folder> {
    SortSiblings(ChildrenOf(F.folders, F.up, p))
  }

  lemma KidsFacts(F: Forest, p: Option<string>)
    requires ValidForest(F)
    ensures forall f :: f in Kids(F, p) <==> f in F.folders && ParentOf(F.up, f.token) == p
    ensures InSiblingOrder(Kids(F, p)) && DistinctTokens(Kids(F, p))
  {
    var c := ChildrenOf(F.folders, F.up, p);
    ChildrenOfMembers(F.folders, F.up, p);
    ChildrenOfDistinct(F.folders, F.up, p);
    SortOrders(c);
    MembersOfPermutation(Kids(F, p), c);
    var kids := Kids(F, p);
    forall i, j | 0 <= i < j < |kids| ensures kids[i].token != kids[j].token {
      if kids[i].token == kids[j].token {
        assert kids[i] in kids && kids[j] in kids;
        SameTokenSameRow(F.folders, kids[i], kids[j]);
        SiblingOrderIsStrictAndTotal(kids[i], kids[j], kids[i]);
      }
    }
  }

  function JoinPath(prefix: Option<string>, segment: string): string {
    match prefix case None => segment case Some(p) => p + [SEPARATOR] + segment
  }

  /** Names a top-level folder must not be shown under: those of the system mailboxes. */
  function TakenNames(p: Option<string>): set<string> {
    if p.None? then SystemNames() else {}
  }

  ghost function KidEntries(F: Forest, p: Option<string>, prefix: Option<string>): (r: seq<Entry>)
    ensures |r| == |Kids(F, p)|
    ensures forall i :: 0 <= i < |r| ==>
      r[i] == Entry(Kids(F, p)[i], JoinPath(prefix, Segments(Kids(F, p), TakenNames(p))[i]))
  {
    var kids := Kids(F, p);
    var segments := Segments(kids, TakenNames(p));
    seq(|kids|, i requires 0 <= i < |kids| => Entry(kids[i], JoinPath(prefix, segments[i])))
  }

  // ---------- recursive preorder ----------

  ghost predicate AtDepth(F: Forest, d: nat, entries: seq<Entry>)
    requires ValidForest(F)
  {
    forall e :: e in entries ==> e.folder in F.folders && Depth(F.up, e.folder.token) == d
  }

  ghost function Below(F: Forest, e: Entry): seq<Entry> {
    KidEntries(F, Some(e.folder.token), Some(e.path))
  }

  lemma KidsAtDepth(F: Forest, d: nat, e: Entry)
    requires ValidForest(F) && AtDepth(F, d, [e])
    ensures AtDepth(F, d + 1, Below(F, e))
  {
    assert e in [e];
    var p := Some(e.folder.token);
    KidsFacts(F, p);
    forall c | c in Below(F, e) ensures c.folder in F.folders && Depth(F.up, c.folder.token) == d + 1 {
      var i :| 0 <= i < |Below(F, e)| && Below(F, e)[i] == c;
      assert c.folder == Kids(F, p)[i];
      assert c.folder in Kids(F, p);
      DepthOfChild(F.up, c.folder.token);
    }
  }

  lemma RootsAtDepth(F: Forest)
    requires ValidForest(F)
    ensures AtDepth(F, 0, KidEntries(F, None, None))
  {
    KidsFacts(F, None);
    var roots := KidEntries(F, None, None);
    forall c | c in roots ensures c.folder in F.folders && Depth(F.up, c.folder.token) == 0 {
      var i :| 0 <= i < |roots| && roots[i] == c;
      assert c.folder in Kids(F, None);
      DepthOfChild(F.up, c.folder.token);
    }
  }

  lemma DepthBound(F: Forest, d: nat, entries: seq<Entry>)
    requires ValidForest(F) && AtDepth(F, d, entries) && entries != []
    ensures d <= |F.up.Keys|
  {
    assert entries[0] in entries;
  }

  /** Each entry followed by everything below it. */
  ghost function Preorder(F: Forest, d: nat, entries: seq<Entry>): seq<Entry>
    requires ValidForest(F) && AtDepth(F, d, entries)
    decreases |F.up.Keys| + 1 - d, |entries|
  {
    if entries == [] then []
    else
      var e := entries[0];
      DepthBound(F, d, entries);
      KidsAtDepth(F, d, e);
      [e] + Preorder(F, d + 1, Below(F, e)) + Preorder(F, d, entries[1..])
  }

  ghost function Whole(F: Forest): seq<Entry>
    requires ValidForest(F)
  {
    RootsAtDepth(F);
    Preorder(F, 0, KidEntries(F, None, None))
  }

  ghost function NodeOf(F: Forest, e: Entry, position: nat): FolderNode {
    FolderNode(e.folder.token, e.folder.serverId, e.folder.name, ParentOf(F.up, e.folder.token), e.path,
               Kids(F, Some(e.folder.token)) != [], position)
  }

  ghost function Nodes(F: Forest, entries: seq<Entry>): (r: seq<FolderNode>)
    ensures |r| == |entries| && forall i :: 0 <= i < |r| ==> r[i] == NodeOf(F, entries[i], i)
  {
    seq(|entries|, i requires 0 <= i < |entries| => NodeOf(F, entries[i], i))
  }

  // ---------- rows without repeated or empty tokens ----------

  function Dedup(fs: seq<Folder>): (r: seq<Folder>)
    ensures forall f :: f in r ==> f in fs && f.token != ""
    ensures forall t :: t != "" ==> (t in Tokens(r) <==> t in Tokens(fs))
    ensures DistinctTokens(r)
  {
    if fs == [] then []
    else
      var rest := Dedup(fs[..|fs| - 1]);
      var f := fs[|fs| - 1];
      assert forall g :: g in fs <==> g in fs[..|fs| - 1] || g == f;
      assert Tokens(fs) == Tokens(fs[..|fs| - 1]) + {f.token};
      if f.token != "" && f.token !in Tokens(rest) then
        assert Tokens(rest + [f]) == Tokens(rest) + {f.token};
        assert forall i :: 0 <= i < |rest| ==> rest[i] in rest;
        rest + [f]
      else rest
  }

  /** A kept row is the first one with its token. */
  lemma {:induction false} DedupKeepsFirst(fs: seq<Folder>, i: nat)
    requires i < |fs| && fs[i].token != "" && forall j :: 0 <= j < i ==> fs[j].token != fs[i].token
    ensures fs[i] in Dedup(fs)
  {
    if i < |fs| - 1 {
      DedupKeepsFirst(fs[..|fs| - 1], i);
    } else {
      var rest := Dedup(fs[..i]);
      assert fs[i].token !in Tokens(rest);
    }
  }

  ghost function ForestOf(fs: seq<Folder>): Forest {
    Forest(Dedup(fs), RepairedParents(Dedup(fs)))
  }

  lemma ForestOfIsValid(fs: seq<Folder>)
    ensures ValidForest(ForestOf(fs))
  {
    RepairedIsForest(Dedup(fs));
  }

  /** The tree shown for a table: the recursive preorder of its repaired forest. */
  ghost function TreeOf(fs: seq<Folder>): seq<FolderNode> {
    ForestOfIsValid(fs);
    Nodes(ForestOf(fs), Whole(ForestOf(fs)))
  }

  // ---------- the explicit stack ----------

  function Reversed<T>(s: seq<T>): (r: seq<T>)
    ensures |r| == |s| && forall i :: 0 <= i < |s| ==> r[i] == s[|s| - 1 - i]
  {
    if s == [] then [] else Reversed(s[1..]) + [s[0]]
  }

  ghost predicate InForest(F: Forest, stack: seq<Entry>) {
    forall e :: e in stack ==> e.folder in F.folders
  }

  /** What remains to be shown when the stack holds these entries, the top one last. */
  ghost function Pending(F: Forest, stack: seq<Entry>): seq<Entry>
    requires ValidForest(F) && InForest(F, stack)
  {
    if stack == [] then []
    else
      var e := stack[|stack| - 1];
      assert e in stack;
      Preorder(F, Depth(F.up, e.folder.token), [e]) + Pending(F, stack[..|stack| - 1])
  }

  lemma PreorderOne(F: Forest, d: nat, e: Entry)
    requires ValidForest(F) && AtDepth(F, d, [e])
    ensures AtDepth(F, d + 1, Below(F, e))
    ensures Preorder(F, d, [e]) == [e] + Preorder(F, d + 1, Below(F, e))
  {
    hide ValidForest, KidEntries, Depth, Below, Kids;
    DepthBound(F, d, [e]);
    KidsAtDepth(F, d, e);
    assert [e][1..] == [];
    assert AtDepth(F, d, []);
    assert Preorder(F, d, []) == [];
  }

  lemma PreorderCons(F: Forest, d: nat, entries: seq<Entry>)
    requires ValidForest(F) && AtDepth(F, d, entries) && entries != []
    ensures AtDepth(F, d, [entries[0]]) && AtDepth(F, d, entries[1..])
    ensures Preorder(F, d, entries) == Preorder(F, d, [entries[0]]) + Preorder(F, d, entries[1..])
  {
    hide ValidForest, KidEntries, Depth, Below;
    assert entries[0] in entries;
    DepthBound(F, d, entries);
    PreorderOne(F, d, entries[0]);
  }

  lemma ConcatAssoc<T>(a: seq<T>, b: seq<T>, c: seq<T>)
    ensures (a + b) + c == a + (b + c)
  {
  }

  lemma PendingPush(F: Forest, d: nat, stack: seq<Entry>, e: Entry)
    requires ValidForest(F) && InForest(F, stack) && AtDepth(F, d, [e])
    ensures InForest(F, stack + [e])
    ensures Pending(F, stack + [e]) == Preorder(F, d, [e]) + Pending(F, stack)
  {
    assert e in [e];
    var pushed := stack + [e];
    assert pushed[..|pushed| - 1] == stack && pushed[|pushed| - 1] == e;
  }

  lemma {:induction false} PendingOfPushed(F: Forest, d: nat, stack: seq<Entry>, entries: seq<Entry>)
    requires ValidForest(F) && InForest(F, stack) && AtDepth(F, d, entries)
    ensures InForest(F, stack + Reversed(entries))
    ensures Pending(F, stack + Reversed(entries)) == Preorder(F, d, entries) + Pending(F, stack)
    decreases |entries|
  {
    hide ValidForest, Depth, Below, KidEntries;
    if entries == [] {
      assert stack + Reversed(entries) == stack;
    } else {
      PreorderCons(F, d, entries);
      PendingOfPushed(F, d, stack, entries[1..]);
      var rest := stack + Reversed(entries[1..]);
      PendingPush(F, d, rest, entries[0]);
      assert stack + Reversed(entries) == rest + [entries[0]];
      ConcatAssoc(Preorder(F, d, [entries[0]]), Preorder(F, d, entries[1..]), Pending(F, stack));
    }
  }

  lemma RestInForest(F: Forest, rest: seq<Entry>, e: Entry)
    requires ValidForest(F) && InForest(F, rest + [e])
    ensures InForest(F, rest) && AtDepth(F, Depth(F.up, e.folder.token), [e])
  {
    hide ValidForest, Depth;
    assert (rest + [e])[|rest|] == e;
    assert forall x :: x in rest ==> x in rest + [e];
  }

  /** Popping an entry and pushing what is below it shows exactly that entry next. */
  lemma PendingStep(F: Forest, stack: seq<Entry>)
    requires ValidForest(F) && InForest(F, stack) && stack != []
    ensures var e := stack[|stack| - 1]; var rest := stack[..|stack| - 1] + Reversed(Below(F, e));
      InForest(F, rest) && Pending(F, stack) == [e] + Pending(F, rest)
  {
    hide Depth, Below, KidEntries, Preorder, Kids;
    var e, rest := stack[|stack| - 1], stack[..|stack| - 1];
    assert stack == rest + [e];
    assert e in stack;
    hide InForest, AtDepth;
    var d := Depth(F.up, e.folder.token);
    RestInForest(F, rest, e);
    PendingPush(F, d, rest, e);
    PreorderOne(F, d, e);
    hide Pending;
    PendingOfPushed(F, d + 1, rest, Below(F, e));
    ConcatAssoc([e], Preorder(F, d + 1, Below(F, e)), Pending(F, rest));
  }

  lemma PendingNone(F: Forest)
    requires ValidForest(F)
    ensures Pending(F, []) == []
  {
  }

  lemma PendingRoots(F: Forest)
    requires ValidForest(F)
    ensures var stack := [] + Reversed(KidEntries(F, None, None)); InForest(F, stack) && Pending(F, stack) == Whole(F)
  {
    RootsAtDepth(F);
    PendingOfPushed(F, 0, [], KidEntries(F, None, None));
  }

  /** `children` holds the sorted rows below every parent that has any. */
  ghost predicate Groups(children: map<Option<string>, seq<Folder>>, F: Forest) {
    forall p {:trigger Kids(F, p)} :: Kids(F, p) == if p in children then children[p] else []
  }

  /** The lower-case names of the system mailboxes. */
  method ReserveSystemNames() returns (used: set<string>)
    ensures used == SystemNames()
  {
    used := {};
    var i := 0;
    while i < |SYSTEM_MAILBOXES|
      invariant 0 <= i <= |SYSTEM_MAILBOXES|
      invariant forall n :: n in used <==> exists j :: 0 <= j < i && Lower(SYSTEM_MAILBOXES[j].name) == n
    {
      used := used + {Lower(SYSTEM_MAILBOXES[i].name)};
      i := i + 1;
    }
    SystemNamesAreLowered();
  }

  lemma SegmentsNext(list: seq<Folder>, used: set<string>, segments: seq<string>, i: nat)
    requires i < |list| == |segments| && segments[i..] == Segments(list[i..], used)
    ensures segments[i] == Unique(DisplaySegment(list[i].name), used)
    ensures segments[i + 1..] == Segments(list[i + 1..], used + {Lower(segments[i])})
  {
    hide DisplaySegment, Unique, Lower;
    assert list[i..][0] == list[i] && list[i..][1..] == list[i + 1..];
    assert segments[i..][0] == segments[i] && segments[i..][1..] == segments[i + 1..];
  }

  /** Names the siblings one by one. */
  method NameSiblings(list: seq<Folder>, prefix: Option<string>, taken: set<string>) returns (named: seq<Entry>)
    ensures |named| == |list|
    ensures forall j :: 0 <= j < |list| ==> named[j] == Entry(list[j], JoinPath(prefix, Segments(list, taken)[j]))
  {
    hide Segments, DisplaySegment, Unique, Lower, JoinPath;
    ghost var segments := Segments(list, taken);
    var used := taken;
    assert segments[0..] == segments && list[0..] == list;
    named := [];
    for i := 0 to |list|
      invariant |named| == i
      invariant forall j :: 0 <= j < i ==> named[j] == Entry(list[j], JoinPath(prefix, segments[j]))
      invariant segments[i..] == Segments(list[i..], used)
    {
      var segment;
      SegmentsNext(list, used, segments, i);
      segment, used := UniqueSegment(DisplaySegment(list[i].name), used);
      named := named + [Entry(list[i], JoinPath(prefix, segment))];
    }
  }

  /** Pushes the last entry first, so that the first one ends on top. */
  method PushReversed(named: seq<Entry>, stack: seq<Entry>) returns (pushed: seq<Entry>)
    ensures pushed == stack + Reversed(named)
  {
    pushed := stack;
    for i := 0 to |named|
      invariant pushed == stack + Reversed(named)[..i]
    {
      pushed := pushed + [named[|named| - 1 - i]];
    }
  }

  method PushChildren(ghost F: Forest, children: map<Option<string>, seq<Folder>>,
                      parent: Option<string>, prefix: Option<string>, stack: seq<Entry>)
    returns (pushed: seq<Entry>)
    requires Groups(children, F)
    ensures pushed == stack + Reversed(KidEntries(F, parent, prefix))
  {
    hide Segments, SystemNames, Reversed, Kids;
    assert Kids(F, parent) == if parent in children then children[parent] else [];
    var named := [];
    if parent in children {
      var used := {};
      if parent.None? {
        used := ReserveSystemNames();
      }
      named := NameSiblings(children[parent], prefix, used);
    }
    assert named == KidEntries(F, parent, prefix);
    pushed := PushReversed(named, stack);
  }

  lemma ChildrenOfNext(fs: seq<Folder>, up: Parents, p: Option<string>, i: nat)
    requires i < |fs|
    ensures ChildrenOf(fs[..i + 1], up, p) ==
      ChildrenOf(fs[..i], up, p) + if ParentOf(up, fs[i].token) == p then [fs[i]] else []
  {
    assert fs[..i + 1][..i] == fs[..i];
  }

  /** Groups the rows by parent and sorts each group. */
  method GroupByParent(unique: seq<Folder>, parents: map<string, Option<string>>, ghost F: Forest)
    returns (children: map<Option<string>, seq<Folder>>)
    requires F.folders == unique && parents.Keys == Tokens(unique)
    requires forall t :: t in parents ==> parents[t] == ParentOf(F.up, t)
    ensures Groups(children, F)
  {
    hide ParentOf;
    var groups: map<Option<string>, seq<Folder>> := map[];
    for i := 0 to |unique|
      invariant Grouped(groups, unique[..i], F.up)
    {
      hide Grouped;
      var f := unique[i];
      assert f.token in parents;
      var parent := parents[f.token];
      GroupedNext(groups, unique, F.up, i);
      groups := groups[parent := (if parent in groups then groups[parent] else []) + [f]];
    }
    children := map p | p in groups :: SortSiblings(groups[p]);
    assert unique[..|unique|] == unique;
    SortedGroups(groups, children, F);
  }

  /** `groups` holds the rows below every parent, in table order. */
  ghost predicate Grouped(groups: map<Option<string>, seq<Folder>>, fs: seq<Folder>, up: Parents) {
    forall p {:trigger ChildrenOf(fs, up, p)} :: ChildrenOf(fs, up, p) == if p in groups then groups[p] else []
  }

  lemma GroupedNext(groups: map<Option<string>, seq<Folder>>, fs: seq<Folder>, up: Parents, i: nat)
    requires i < |fs| && Grouped(groups, fs[..i], up)
    ensures var parent := ParentOf(up, fs[i].token);
            Grouped(groups[parent := (if parent in groups then groups[parent] else []) + [fs[i]]], fs[..i + 1], up)
  {
    hide ChildrenOf, ParentOf;
    var parent := ParentOf(up, fs[i].token);
    var more := groups[parent := (if parent in groups then groups[parent] else []) + [fs[i]]];
    forall p ensures ChildrenOf(fs[..i + 1], up, p) == if p in more then more[p] else [] {
      ChildrenOfNext(fs, up, p, i);
      assert ChildrenOf(fs[..i], up, p) == if p in groups then groups[p] else [];
    }
  }

  lemma SortedGroups(groups: map<Option<string>, seq<Folder>>, children: map<Option<string>, seq<Folder>>, F: Forest)
    requires Grouped(groups, F.folders, F.up) && children.Keys == groups.Keys
    requires forall p :: p in groups ==> children[p] == SortSiblings(groups[p])
    ensures Groups(children, F)
  {
    hide ChildrenOf;
    forall p ensures Kids(F, p) == if p in children then children[p] else [] {
      assert ChildrenOf(F.folders, F.up, p) == if p in groups then groups[p] else [];
    }
  }

  /** The first row of each non-empty token, in table order. */
  method DropRepeats(folders: seq<Folder>) returns (unique: seq<Folder>)
    ensures unique == Dedup(folders)
  {
    unique := [];
    var seen := {};
    for i := 0 to |folders|
      invariant unique == Dedup(folders[..i]) && seen == Tokens(unique)
    {
      var f := folders[i];
      assert folders[..i + 1][..i] == folders[..i];
      if f.token != "" && f.token !in seen {
        seen := seen + {f.token};
        unique := unique + [f];
      }
    }
    assert folders[..|folders|] == folders;
  }

  lemma NodesSnoc(F: Forest, shown: seq<Entry>, e: Entry)
    ensures Nodes(F, shown + [e]) == Nodes(F, shown) + [NodeOf(F, e, |shown|)]
  {
    hide Kids;
  }

  lemma ChildrenFlag(children: map<Option<string>, seq<Folder>>, F: Forest, token: string)
    requires Groups(children, F)
    ensures (Some(token) in children && children[Some(token)] != []) <==> Kids(F, Some(token)) != []
  {
    hide Kids;
    assert Kids(F, Some(token)) == if Some(token) in children then children[Some(token)] else [];
  }

  lemma TopInForest(F: Forest, stack: seq<Entry>)
    requires InForest(F, stack) && stack != []
    ensures stack[|stack| - 1].folder in F.folders
  {
    assert stack[|stack| - 1] in stack;
  }

  lemma ShownNext(shown: seq<Entry>, e: Entry, rest: seq<Entry>)
    ensures shown + ([e] + rest) == (shown + [e]) + rest
  {
  }

  /** The list the program shows is the recursive preorder of the repaired table, for every table. */
  method BuildTree(folders: seq<Folder>) returns (out: seq<FolderNode>)
    ensures out == TreeOf(folders)
  {
    hide ValidForest, Depth, KidEntries, Pending, Preorder, Kids, RepairedParents, AtDepth, Dedup, Whole, Nodes,
      InForest, Groups, Reversed, DistinctTokens;
    var unique := DropRepeats(folders);
    var parents := EffectiveParents(unique);
    ghost var F := ForestOf(folders);
    ForestOfIsValid(folders);
    var children := GroupByParent(unique, parents, F);
    out := [];
    ghost var shown: seq<Entry> := [];
    assert Nodes(F, shown) == [];
    PendingRoots(F);
    var stack := PushChildren(F, children, None, None, []);
    while stack != []
      invariant InForest(F, stack)
      invariant out == Nodes(F, shown)
      invariant shown + Pending(F, stack) == Whole(F)
      decreases |Pending(F, stack)|
    {
      PendingStep(F, stack);
      var e := stack[|stack| - 1];
      var token := e.folder.token;
      TopInForest(F, stack);
      NodesSnoc(F, shown, e);
      ChildrenFlag(children, F, token);
      var hasChildren := Some(token) in children && children[Some(token)] != [];
      out := out + [FolderNode(token, e.folder.serverId, e.folder.name, parents[token], e.path, hasChildren, |out|)];
      ShownNext(shown, e, Pending(F, stack[..|stack| - 1] + Reversed(Below(F, e))));
      shown := shown + [e];
      stack := PushChildren(F, children, Some(token), Some(e.path), stack[..|stack| - 1]);
    }
    PendingNone(F);
  }
}
