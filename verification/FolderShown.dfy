/**
  The displayed tree in the table's own terms: which row a node shows, which parents are kept, in
  what order siblings stand, and under which name each is shown.
*/
module FolderShown {
  import opened Text
  import opened ParentGraph
  import opened FolderTable
  import opened FolderRepair
  import opened FolderTree
  import opened FolderTreeFacts
  import opened FolderPaths
  import opened ShownNames

  // ---------- the row of a node ----------

  /** A node carries the token, server identifier and name of the first row with its token. */
  lemma NodeShowsRow(fs: seq<Folder>, i: nat) returns (k: nat)
    requires i < |TreeOf(fs)|
    ensures k < |fs| && fs[k] in Dedup(fs) && forall j :: 0 <= j < k ==> fs[j].token != fs[k].token
    ensures var n := TreeOf(fs)[i]; n.token == fs[k].token && n.serverId == fs[k].serverId && n.name == fs[k].name
  {
    hide Whole, RepairedParents, Kids, Dedup, PathOf;
    ForestOfIsValid(fs);
    WholeHasPaths(ForestOf(fs));
    var e := Whole(ForestOf(fs))[i];
    assert e in Whole(ForestOf(fs));
    k := FirstRow(fs, e.folder.token);
    DedupKeepsFirst(fs, k);
    SameTokenSameRow(Dedup(fs), fs[k], e.folder);
  }

  lemma FirstRow(fs: seq<Folder>, t: string) returns (k: nat)
    requires t in Tokens(Dedup(fs))
    ensures k < |fs| && fs[k].token == t != "" && forall j :: 0 <= j < k ==> fs[j].token != t
  {
    assert t in Tokens(fs) by { var f :| f in Dedup(fs) && f.token == t; }
    var f :| f in fs && f.token == t;
    k :| 0 <= k < |fs| && fs[k] == f;
    while exists j :: 0 <= j < k && fs[j].token == t
      invariant k < |fs| && fs[k].token == t
      decreases k
    {
      var j :| 0 <= j < k && fs[j].token == t;
      k := j;
    }
  }

  // ---------- which parents are kept ----------

  /** Rows each of which names the next as its parent. */
  ghost predicate Chain(rows: seq<Folder>, c: seq<Folder>) {
    && (forall k :: 0 <= k < |c| ==> c[k] in rows)
    && (forall k :: 0 <= k < |c| - 1 ==> c[k].parent == Some(c[k + 1].token))
  }

  /** A chain of parents leads from the row back to itself. */
  ghost predicate InCircle(rows: seq<Folder>, f: Folder) {
    exists c :: Chain(rows, c) && |c| >= 2 && c[0] == f && c[|c| - 1] == f
  }

  lemma TokenNamesRow(fs: seq<Folder>, f: Folder, g: Folder)
    requires DistinctTokens(fs) && f in fs && g in fs
    ensures f.token == g.token ==> f == g
  {
    FindDistinct(fs, f);
    FindDistinct(fs, g);
  }

  lemma {:induction false} WalkOfChain(fs: seq<Folder>, c: seq<Folder>)
    requires DistinctTokens(fs) && "" !in Tokens(fs) && Chain(fs, c) && c != []
    requires c[|c| - 1].parent != Some(c[|c| - 1].token)
    ensures Up(DeclaredParents(fs), c[0].token, |c| - 1) == Some(c[|c| - 1].token)
    decreases |c|
  {
    hide DeclaredParents, Tokens;
    if |c| > 1 {
      var rest := c[1..];
      WalkOfChain(fs, rest);
      DeclaredOfRow(fs, c[0]);
      TokenIn(fs, c[1]);
      TokenNamesRow(fs, c[0], c[1]);
    }
  }

  lemma {:induction false} ChainOfWalk(fs: seq<Folder>, f: Folder, g: Folder, k: nat) returns (c: seq<Folder>)
    requires DistinctTokens(fs) && f in fs && g in fs && Up(DeclaredParents(fs), f.token, k) == Some(g.token)
    ensures Chain(fs, c) && |c| == k + 1 && c[0] == f && c[k] == g
    decreases k
  {
    hide DeclaredParents, Tokens;
    if k == 0 {
      SameTokenSameRow(fs, f, g);
      c := [f];
    } else {
      DeclaredOfRow(fs, f);
      DeclaredNamesRow(fs, f);
      var h := RowOf(fs, f.parent.value);
      var rest := ChainOfWalk(fs, h, g, k - 1);
      c := [f] + rest;
    }
  }

  /**
    A node has the parent its row names exactly when that is another row with a token, and no chain
    of parents leads from the row back to itself. Otherwise it stands at the top.
  */
  lemma ParentIsKeptIff(fs: seq<Folder>, i: nat, f: Folder)
    requires i < |TreeOf(fs)| && f in Dedup(fs) && f.token == TreeOf(fs)[i].token
    ensures TreeOf(fs)[i].parent ==
      if f.parent.Some? && f.parent.value in Tokens(Dedup(fs)) && !InCircle(Dedup(fs), f) then f.parent else None
  {
    hide Whole, RepairedParents, DeclaredParents, Kids, Dedup, Tokens, PathOf;
    ForestOfIsValid(fs);
    var rows := Dedup(fs);
    assert TreeOf(fs)[i].parent == ParentOf(RepairedParents(rows), f.token);
    NoEmptyTokenLeft(fs);
    CircleIsCycle(rows, f);
    RepairedOfRow(rows, f);
    DeclaredOfRow(rows, f);
    if f.parent == Some(f.token) {
      assert Chain(rows, [f, f]);
      assert InCircle(rows, f);
    }
  }

  lemma NoEmptyTokenLeft(fs: seq<Folder>)
    ensures "" !in Tokens(Dedup(fs))
  {
  }

  lemma RepairedOfRow(fs: seq<Folder>, f: Folder)
    ensures ParentOf(RepairedParents(fs), f.token) ==
      if OnCycle(DeclaredParents(fs), f.token) then None else ParentOf(DeclaredParents(fs), f.token)
  {
    hide OnCycle, DeclaredParents;
  }

  lemma CircleIsCycle(fs: seq<Folder>, f: Folder)
    requires DistinctTokens(fs) && "" !in Tokens(fs) && f in fs
    ensures f.parent != Some(f.token) ==> (InCircle(fs, f) <==> OnCycle(DeclaredParents(fs), f.token))
  {
    hide DeclaredParents, Tokens;
    var m := DeclaredParents(fs);
    if f.parent != Some(f.token) && InCircle(fs, f) {
      var c :| Chain(fs, c) && |c| >= 2 && c[0] == f && c[|c| - 1] == f;
      WalkOfChain(fs, c);
    }
    if OnCycle(m, f.token) {
      var k: nat :| k >= 1 && Up(m, f.token, k) == Some(f.token);
      var c := ChainOfWalk(fs, f, f, k);
    }
  }

  // ---------- the order of siblings ----------

  /** `a` comes before `b` in the dictionary: a proper prefix, or a smaller character at the first difference. */
  ghost predicate Earlier(a: string, b: string) {
    exists k: nat :: k <= |a| && k < |b| && a[..k] == b[..k] && (k == |a| || (k < |a| && a[k] < b[k]))
  }

  lemma {:induction false} CompareTextIff(a: string, b: string)
    ensures CompareText(a, b) == Less <==> Earlier(a, b)
  {
    if a == [] {
      if b != [] { assert a[..0] == b[..0]; }
    } else if b != [] {
      CompareTextIff(a[1..], b[1..]);
      if a[0] == b[0] {
        EarlierTail(a, b);
      } else if a[0] < b[0] {
        assert a[..0] == b[..0] && a[0] < b[0];
      } else {
        forall k: nat | 0 < k <= |a| && k < |b| ensures a[..k] != b[..k] {
          assert a[..k][0] != b[..k][0];
        }
      }
    }
  }

  lemma EarlierTail(a: string, b: string)
    requires a != [] && b != [] && a[0] == b[0]
    ensures Earlier(a, b) <==> Earlier(a[1..], b[1..])
  {
    if Earlier(a, b) {
      var k: nat :| k <= |a| && k < |b| && a[..k] == b[..k] && (k == |a| || (k < |a| && a[k] < b[k]));
      assert k > 0;
      assert a[1..][..k - 1] == a[..k][1..] && b[1..][..k - 1] == b[..k][1..];
      assert k < |a| ==> a[1..][k - 1] == a[k] && b[1..][k - 1] == b[k];
    }
    if Earlier(a[1..], b[1..]) {
      var x, y := a[1..], b[1..];
      var k: nat :| k <= |x| && k < |y| && x[..k] == y[..k] && (k == |x| || (k < |x| && x[k] < y[k]));
      assert a[..k + 1] == [a[0]] + x[..k] && b[..k + 1] == [b[0]] + y[..k];
      assert k < |x| ==> a[k + 1] == x[k] && b[k + 1] == y[k];
    }
  }

  /** One row before another: by sort order, then by creation time with missing ones last, then by token. */
  ghost predicate RanksBefore(f: Folder, g: Folder) {
    || f.sortOrder < g.sortOrder
    || (f.sortOrder == g.sortOrder
        && (if f.createdAt == g.createdAt then Earlier(f.token, g.token)
            else f.createdAt.Some? && (g.createdAt.None? || Earlier(f.createdAt.value, g.createdAt.value))))
  }

  lemma SiblingOrderIff(f: Folder, g: Folder)
    ensures SiblingOrder(f, g) == Less <==> RanksBefore(f, g)
  {
    CompareTextIff(f.token, g.token);
    if f.createdAt.Some? && g.createdAt.Some? {
      CompareTextIff(f.createdAt.value, g.createdAt.value);
      CompareTextEqual(f.createdAt.value, g.createdAt.value);
    }
  }

  /** Entries with the same parent stand in the order of their rows. */
  ghost predicate SiblingsOrdered(up: Parents, s: seq<Entry>) {
    forall i, j :: 0 <= i < j < |s| && ParentOf(up, s[i].folder.token) == ParentOf(up, s[j].folder.token) ==>
      SiblingOrder(s[i].folder, s[j].folder) == Less
  }

  lemma OrderedConcat(up: Parents, a: seq<Entry>, b: seq<Entry>)
    requires SiblingsOrdered(up, a) && SiblingsOrdered(up, b)
    requires forall x, y :: x in a && y in b && ParentOf(up, x.folder.token) == ParentOf(up, y.folder.token) ==>
      SiblingOrder(x.folder, y.folder) == Less
    ensures SiblingsOrdered(up, a + b)
  {
    hide SiblingOrder, ParentOf;
  }

  lemma KidEntriesOrdered(F: Forest, p: Option<string>, prefix: Option<string>)
    requires ValidForest(F)
    ensures var s := KidEntries(F, p, prefix);
            forall i, j :: 0 <= i < j < |s| ==> SiblingOrder(s[i].folder, s[j].folder) == Less
  {
    hide Kids, SiblingOrder;
    KidsFacts(F, p);
  }

  /** Siblings are anchored alike at every depth above their own. */
  lemma SiblingsShareAnchor(up: Parents, d: nat, x: string, y: string)
    requires Acyclic(up) && ParentOf(up, x) == ParentOf(up, y) && d < Depth(up, x)
    ensures Anchor(up, d, x) == Anchor(up, d, y) && Depth(up, x) == Depth(up, y)
  {
    DepthOfChild(up, x);
    DepthOfChild(up, y);
    UpStart(up, x, Depth(up, x) - d);
    UpStart(up, y, Depth(up, y) - d);
  }

  lemma UpStart(up: Parents, x: string, k: nat)
    requires k > 0
    ensures Up(up, x, k) == if x in up then Up(up, up[x], k - 1) else None
  {
  }

  ghost predicate OrderedEntries(entries: seq<Entry>) {
    forall i, j :: 0 <= i < j < |entries| ==> SiblingOrder(entries[i].folder, entries[j].folder) == Less
  }

  /** Of what is shown from two different entries, only the entries themselves can be siblings. */
  lemma SiblingsAcross(F: Forest, d: nat, e: Entry, rest: seq<Entry>, x: string, y: string)
    requires ValidForest(F) && AtDepth(F, d, [e]) && AtDepth(F, d, rest) && DistinctEntries([e] + rest)
    requires x in EntryTokens(Preorder(F, d, [e])) && y in EntryTokens(Preorder(F, d, rest))
    requires ParentOf(F.up, x) == ParentOf(F.up, y)
    ensures x == e.folder.token && y in EntryTokens(rest)
  {
    hide Anchor, Depth, Below, ParentOf, DistinctTokens, Preorder, EntryTokens, Acyclic;
    PartAnchors(F, d, e, rest, x);
    PartAnchors(F, d, e, rest, y);
    PreorderTokens(F, d, rest, y);
    AnchorFacts(F.up, d, x);
    AnchorFacts(F.up, d, y);
    if d < Depth(F.up, x) {
      SiblingsShareAnchor(F.up, d, x, y);
    } else {
      SameParentSameDepth(F.up, x, y);
    }
  }

  lemma SameParentSameDepth(up: Parents, x: string, y: string)
    requires Acyclic(up) && ParentOf(up, x) == ParentOf(up, y)
    ensures Depth(up, x) == Depth(up, y)
  {
    DepthOfChild(up, x);
    DepthOfChild(up, y);
  }

  lemma {:induction false} PreorderShowsRows(F: Forest, d: nat, entries: seq<Entry>, e: Entry)
    requires ValidForest(F) && AtDepth(F, d, entries) && e in Preorder(F, d, entries)
    ensures e.folder in F.folders
    decreases |F.up.Keys| + 1 - d, |entries|
  {
    hide Below, Depth, KidEntries;
    var first := entries[0];
    DepthBound(F, d, entries);
    KidsAtDepth(F, d, first);
    if e in Preorder(F, d + 1, Below(F, first)) {
      PreorderShowsRows(F, d + 1, Below(F, first), e);
    } else if e in Preorder(F, d, entries[1..]) {
      PreorderShowsRows(F, d, entries[1..], e);
    } else {
      assert first in entries;
    }
  }

  lemma EntryRow(F: Forest, s: seq<Entry>, f: Folder) returns (e: Entry)
    requires DistinctTokens(F.folders) && f in F.folders && f.token in EntryTokens(s)
    requires forall x :: x in s ==> x.folder in F.folders
    ensures e in s && e.folder == f
  {
    e :| e in s && e.folder.token == f.token;
    SameTokenSameRow(F.folders, e.folder, f);
  }

  /** In a preorder of ordered siblings, siblings of every family stand in order. */
  lemma {:induction false} PreorderOrdered(F: Forest, d: nat, entries: seq<Entry>)
    requires ValidForest(F) && AtDepth(F, d, entries) && DistinctEntries(entries) && OrderedEntries(entries)
    ensures SiblingsOrdered(F.up, Preorder(F, d, entries))
    decreases |F.up.Keys| + 1 - d, |entries|
  {
    hide Anchor, Depth, Below, Tokens, EntryTokens, Preorder, DistinctEntries, SiblingOrder, ValidForest;
    if entries == [] {
      PreorderOfNone(F, d);
    } else {
      var e, rest := entries[0], entries[1..];
      assert entries == [e] + rest;
      FirstNotAmongRest(e, rest);
      PreorderCons(F, d, entries);
      PreorderOne(F, d, e);
      DepthBound(F, d, entries);
      BelowDistinct(F, e);
      BelowOrdered(F, e);
      PreorderOrdered(F, d + 1, Below(F, e));
      PreorderOrdered(F, d, rest);
      hide SiblingsOrdered, OrderedEntries, AtDepth;
      NoSiblingBelow(F, d, e);
      SiblingsAcrossOrdered(F, d, e, rest);
      OrderedConcat(F.up, Preorder(F, d, [e]), Preorder(F, d, rest));
    }
  }

  lemma BelowOrdered(F: Forest, e: Entry)
    requires ValidForest(F)
    ensures OrderedEntries(Below(F, e))
  {
    hide Kids, SiblingOrder;
    KidsFacts(F, Some(e.folder.token));
  }

  lemma NoSiblingBelow(F: Forest, d: nat, e: Entry)
    requires ValidForest(F) && AtDepth(F, d, [e]) && AtDepth(F, d + 1, Below(F, e))
    requires SiblingsOrdered(F.up, Preorder(F, d + 1, Below(F, e)))
    ensures SiblingsOrdered(F.up, Preorder(F, d, [e]))
  {
    hide Anchor, Depth, Below, EntryTokens, Preorder, SiblingOrder, SiblingsOrdered;
    var below := Preorder(F, d + 1, Below(F, e));
    PreorderOne(F, d, e);
    SingleDistinct(e);
    assert [e] + [] == [e];
    PreorderOfNone(F, d);
    EntryIsRow(F, d, e);
    forall y | y in below ensures ParentOf(F.up, e.folder.token) != ParentOf(F.up, y.folder.token) {
      InBelow(below, y);
      PartAnchors(F, d, e, [], y.folder.token);
      if ParentOf(F.up, e.folder.token) == ParentOf(F.up, y.folder.token) {
        SameParentSameDepth(F.up, e.folder.token, y.folder.token);
      }
    }
    OneIsOrdered(F.up, e);
    OrderedConcat(F.up, [e], below);
  }

  lemma OneIsOrdered(up: Parents, e: Entry)
    ensures SiblingsOrdered(up, [e])
  {
  }

  lemma InBelow(s: seq<Entry>, e: Entry)
    requires e in s
    ensures e.folder.token in EntryTokens(s)
  {
  }

  lemma SiblingsAcrossOrdered(F: Forest, d: nat, e: Entry, rest: seq<Entry>)
    requires ValidForest(F) && AtDepth(F, d, [e]) && AtDepth(F, d, rest) && DistinctEntries([e] + rest)
    requires OrderedEntries([e] + rest)
    ensures forall x, y :: x in Preorder(F, d, [e]) && y in Preorder(F, d, rest)
                           && ParentOf(F.up, x.folder.token) == ParentOf(F.up, y.folder.token) ==>
      SiblingOrder(x.folder, y.folder) == Less
  {
    hide Anchor, Depth, Below, EntryTokens, Preorder, SiblingOrder, ParentOf, DistinctEntries;
    forall x, y | x in Preorder(F, d, [e]) && y in Preorder(F, d, rest)
                  && ParentOf(F.up, x.folder.token) == ParentOf(F.up, y.folder.token)
      ensures SiblingOrder(x.folder, y.folder) == Less
    {
      InBelow(Preorder(F, d, [e]), x);
      InBelow(Preorder(F, d, rest), y);
      SiblingsAcross(F, d, e, rest, x.folder.token, y.folder.token);
      PreorderShowsRows(F, d, [e], x);
      PreorderShowsRows(F, d, rest, y);
      assert e in [e];
      SameTokenSameRow(F.folders, x.folder, e.folder);
      var g := EntryRow(F, rest, y.folder);
      FirstBeforeRest(e, rest, g);
    }
  }

  lemma FirstBeforeRest(e: Entry, rest: seq<Entry>, g: Entry)
    requires OrderedEntries([e] + rest) && g in rest
    ensures SiblingOrder(e.folder, g.folder) == Less
  {
    hide SiblingOrder;
    var i :| 0 <= i < |rest| && rest[i] == g;
    assert ([e] + rest)[0] == e && ([e] + rest)[i + 1] == g;
  }

  /** Of two siblings the one whose row ranks before the other's is listed first. */
  lemma SiblingsInOrder(fs: seq<Folder>, i: nat, j: nat, f: Folder, g: Folder)
    requires i < j < |TreeOf(fs)| && TreeOf(fs)[i].parent == TreeOf(fs)[j].parent
    requires f in Dedup(fs) && f.token == TreeOf(fs)[i].token
    requires g in Dedup(fs) && g.token == TreeOf(fs)[j].token
    ensures RanksBefore(f, g)
  {
    hide Whole, RepairedParents, Kids, Dedup, SiblingOrder, RanksBefore;
    ForestOfIsValid(fs);
    var F := ForestOf(fs);
    var s := Whole(F);
    WholeOrdered(F);
    assert s[i] in s && s[j] in s;
    WholeShowsRows(F);
    SameTokenSameRow(F.folders, s[i].folder, f);
    SameTokenSameRow(F.folders, s[j].folder, g);
    SiblingOrderIff(f, g);
  }

  lemma WholeOrdered(F: Forest)
    requires ValidForest(F)
    ensures SiblingsOrdered(F.up, Whole(F))
  {
    hide Kids, SiblingOrder, Preorder;
    RootsAtDepth(F);
    KidEntriesDistinct(F, None, None);
    KidEntriesOrdered(F, None, None);
    PreorderOrdered(F, 0, KidEntries(F, None, None));
  }

  lemma WholeShowsRows(F: Forest)
    requires ValidForest(F)
    ensures forall e :: e in Whole(F) ==> e.folder in F.folders
  {
    hide Kids, Preorder;
    RootsAtDepth(F);
    forall e | e in Whole(F) ensures e.folder in F.folders {
      PreorderShowsRows(F, 0, KidEntries(F, None, None), e);
    }
  }

  // ---------- the name a node is shown under ----------

  /** The lower-case names taken when the turn of the `i`-th sibling comes. */
  ghost function TakenAt(list: seq<Folder>, used: set<string>, i: nat): set<string>
    requires i <= |list|
  {
    used + set k | 0 <= k < i :: Lower(Segments(list, used)[k])
  }

  lemma {:induction false} SegmentAt(list: seq<Folder>, used: set<string>, i: nat)
    requires i < |list|
    ensures Segments(list, used)[i] == Unique(DisplaySegment(list[i].name), TakenAt(list, used, i))
  {
    hide DisplaySegment, Unique, Lower;
    if i == 0 {
      assert TakenAt(list, used, 0) == used;
    } else {
      var s := Unique(DisplaySegment(list[0].name), used);
      SegmentAt(list[1..], used + {Lower(s)}, i - 1);
      TakenAtNext(list, used, s, i);
    }
  }

  lemma TakenAtNext(list: seq<Folder>, used: set<string>, s: string, i: nat)
    requires 0 < i <= |list| && Segments(list, used) == [s] + Segments(list[1..], used + {Lower(s)})
    ensures TakenAt(list[1..], used + {Lower(s)}, i - 1) == TakenAt(list, used, i)
  {
    hide Lower, Segments;
    var q := Segments(list[1..], used + {Lower(s)});
    LoweredCons(s, q, i);
    assert |[s] + q| == |list|;
    assert (set k | 0 <= k < i :: Lower(Segments(list, used)[k])) == (set k | 0 <= k < i :: Lower(([s] + q)[k]));
  }

  lemma LoweredCons(s: string, q: seq<string>, i: nat)
    requires 0 < i <= |q| + 1
    ensures (set k | 0 <= k < i :: Lower(([s] + q)[k])) == {Lower(s)} + (set k | 0 <= k < i - 1 :: Lower(q[k]))
  {
    hide Lower;
    var a, b := set k | 0 <= k < i :: Lower(([s] + q)[k]), set k | 0 <= k < i - 1 :: Lower(q[k]);
    assert ([s] + q)[0] == s;
    forall x | x in b ensures x in a {
      var k :| 0 <= k < i - 1 && x == Lower(q[k]);
      assert ([s] + q)[k + 1] == q[k];
    }
    forall x | x in a ensures x in {Lower(s)} + b {
      var k :| 0 <= k < i && x == Lower(([s] + q)[k]);
      assert k > 0 ==> ([s] + q)[k] == q[k - 1];
    }
  }

  /** A name, or with a number behind it: "name (2)", "name (3)", ... */
  function Numbered(name: string, k: nat): string {
    if k == 0 then name else name + " (" + Decimal(k + 1) + ")"
  }

  /** The text before the last segment of a node's path: its parent's path and a separator, if it has a parent. */
  ghost predicate IsPrefix(tree: seq<FolderNode>, i: nat, prefix: string)
    requires i < |tree|
  {
    match tree[i].parent
    case None => prefix == ""
    case Some(p) => exists j :: 0 <= j < i && tree[j].token == p && prefix == tree[j].path + "/"
  }

  /** An earlier sibling or, at the top, a system mailbox has this name, ignoring case. */
  ghost predicate NameTaken(tree: seq<FolderNode>, i: nat, prefix: string, name: string)
    requires i < |tree|
  {
    || (tree[i].parent.None? && Lower(name) in {"inbox", "sent", "drafts", "trash", "junk", "archive"})
    || exists j :: 0 <= j < i && tree[j].parent == tree[i].parent && Lower(tree[j].path) == Lower(prefix + name)
  }

  ghost function PrefixText(F: Forest, p: Option<string>): string
    requires ValidForest(F) && (p.Some? ==> p.value in Tokens(F.folders))
  {
    match p case None => "" case Some(t) => PathOf(F, t) + "/"
  }

  /** What is known of the `i`-th node: its row, its place in the forest and its path. */
  lemma NodeIsRow(fs: seq<Folder>, i: nat)
    requires i < |TreeOf(fs)|
    ensures var F, n := ForestOf(fs), TreeOf(fs)[i];
      && ValidForest(F) && n.token in Tokens(F.folders) && n.parent == ParentOf(F.up, n.token)
      && (n.parent.Some? ==> n.parent.value in Tokens(F.folders))
      && n.path == PathOf(F, n.token) == PrefixText(F, n.parent) + SegmentOf(F, n.token)
    ensures forall f :: f in ForestOf(fs).folders && f.token == TreeOf(fs)[i].token ==> f.name == TreeOf(fs)[i].name
  {
    hide Whole, RepairedParents, Kids, Dedup, SegmentOf;
    ForestOfIsValid(fs);
    var F := ForestOf(fs);
    TreePaths(fs, i);
    WholeShowsRows(F);
    var e := Whole(F)[i];
    assert e in Whole(F);
    forall f | f in F.folders && f.token == e.folder.token ensures f == e.folder {
      SameTokenSameRow(F.folders, f, e.folder);
    }
  }

  lemma PrefixHolds(fs: seq<Folder>, i: nat)
    requires i < |TreeOf(fs)| && ValidForest(ForestOf(fs))
    requires TreeOf(fs)[i].parent.Some? ==> TreeOf(fs)[i].parent.value in Tokens(ForestOf(fs).folders)
    ensures IsPrefix(TreeOf(fs), i, PrefixText(ForestOf(fs), TreeOf(fs)[i].parent))
  {
    hide TreeOf, ForestOf, PathOf, ValidForest, Tokens;
    if TreeOf(fs)[i].parent.Some? {
      var j := ParentsComeFirst(fs, i);
      TreePaths(fs, j);
    }
  }

  /** The names taken before the turn of `t`. */
  ghost function TakenBefore(F: Forest, t: string): set<string>
    requires ValidForest(F) && t in Tokens(F.folders)
  {
    TakenAt(Siblings(F, t), TakenNames(ParentOf(F.up, t)), Rank(F, t))
  }

  lemma ChosenNumber(F: Forest, f: Folder) returns (k: nat)
    requires ValidForest(F) && f in F.folders && f.token in Tokens(F.folders)
    ensures SegmentOf(F, f.token) == Numbered(DisplaySegment(f.name), k)
    ensures Lower(SegmentOf(F, f.token)) !in TakenBefore(F, f.token)
    ensures forall c: nat :: c < k ==> Lower(Numbered(DisplaySegment(f.name), c)) in TakenBefore(F, f.token)
  {
    hide Kids, DisplaySegment, ParentOf, Lower, TakenNames;
    var t := f.token;
    var list, r, taken := Siblings(F, t), Rank(F, t), TakenBefore(F, t);
    KidsFacts(F, ParentOf(F.up, t));
    assert list[r] in list;
    SameTokenSameRow(F.folders, list[r], f);
    SegmentAt(list, TakenNames(ParentOf(F.up, t)), r);
    hide Segments, TakenBefore, ValidForest;
    k := FirstFree(DisplaySegment(f.name), taken, 0);
    CandidateIsNumbered(DisplaySegment(f.name), k);
    forall c: nat | c < k ensures Lower(Numbered(DisplaySegment(f.name), c)) in taken {
      CandidateIsNumbered(DisplaySegment(f.name), c);
    }
  }

  lemma CandidateIsNumbered(name: string, k: nat)
    ensures Candidate(name, k) == Numbered(name, k)
  {
  }

  lemma SameLowerTail(prefix: string, a: string, b: string)
    ensures Lower(a) == Lower(b) ==> Lower(prefix + a) == Lower(prefix + b)
  {
    assert Lower(prefix + a) == Lower(prefix) + Lower(a);
    assert Lower(prefix + b) == Lower(prefix) + Lower(b);
  }

  /** A sibling of smaller rank is listed before. */
  lemma RankedFirst(fs: seq<Folder>, i: nat, r: nat) returns (j: nat)
    requires i < |TreeOf(fs)| && ValidForest(ForestOf(fs)) && TreeOf(fs)[i].token in Tokens(ForestOf(fs).folders)
    requires r < Rank(ForestOf(fs), TreeOf(fs)[i].token)
    ensures j < i && TreeOf(fs)[j].parent == TreeOf(fs)[i].parent
    ensures TreeOf(fs)[j].token == Siblings(ForestOf(fs), TreeOf(fs)[i].token)[r].token
  {
    hide Whole, RepairedParents, Kids, Dedup, SiblingOrder, EntryTokens;
    var F, tree := ForestOf(fs), TreeOf(fs);
    var t := tree[i].token;
    var list := Siblings(F, t);
    KidsFacts(F, ParentOf(F.up, t));
    assert list[r] in list;
    TokenIn(F.folders, list[r]);
    WholeFacts(F, list[r].token);
    j := EntryWithToken(Whole(F), list[r].token);
    WholeOrdered(F);
    WholeShowsRows(F);
    var s := Whole(F);
    assert s[i] in s && s[j] in s;
    SameTokenSameRow(F.folders, s[j].folder, list[r]);
    SameTokenSameRow(F.folders, s[i].folder, list[Rank(F, t)]) by { assert list[Rank(F, t)] in list; }
    SiblingOrderIsStrictAndTotal(list[r], list[Rank(F, t)], list[r]);
    NotAfter(F, s, i, j);
  }

  lemma NotAfter(F: Forest, s: seq<Entry>, i: nat, j: nat)
    requires SiblingsOrdered(F.up, s) && i < |s| && j < |s|
    requires ParentOf(F.up, s[i].folder.token) == ParentOf(F.up, s[j].folder.token)
    requires SiblingOrder(s[i].folder, s[j].folder) == Greater
    requires SiblingOrder(s[j].folder, s[i].folder) == Less
    ensures j < i
  {
    hide SiblingOrder, ParentOf;
  }

  lemma EarlierIsTaken(fs: seq<Folder>, i: nat, name: string)
    requires i < |TreeOf(fs)| && ValidForest(ForestOf(fs)) && TreeOf(fs)[i].token in Tokens(ForestOf(fs).folders)
    requires TreeOf(fs)[i].parent.Some? ==> TreeOf(fs)[i].parent.value in Tokens(ForestOf(fs).folders)
    requires Lower(name) in TakenBefore(ForestOf(fs), TreeOf(fs)[i].token)
    ensures NameTaken(TreeOf(fs), i, PrefixText(ForestOf(fs), TreeOf(fs)[i].parent), name)
  {
    hide TreeOf, ForestOf, PathOf, ValidForest, Tokens, Segments, Kids, Rank, Lower;
    NodeIsRow(fs, i);
    var F, tree := ForestOf(fs), TreeOf(fs);
    var t := tree[i].token;
    var prefix := PrefixText(F, tree[i].parent);
    if Lower(name) !in TakenNames(ParentOf(F.up, t)) {
      var r :| 0 <= r < Rank(F, t) && Lower(name) == Lower(Segments(Siblings(F, t), TakenNames(ParentOf(F.up, t)))[r]);
      var j := RankedFirst(fs, i, r);
      NodeIsRow(fs, j);
      SegmentOfSibling(F, t, tree[j].token, r);
      SameLowerTail(prefix, name, SegmentOf(F, tree[j].token));
    }
  }

  lemma SegmentOfSibling(F: Forest, t: string, u: string, r: nat)
    requires ValidForest(F) && t in Tokens(F.folders) && u in Tokens(F.folders)
    requires ParentOf(F.up, u) == ParentOf(F.up, t) && r < |Siblings(F, t)| && Siblings(F, t)[r].token == u
    ensures SegmentOf(F, u) == Segments(Siblings(F, t), TakenNames(ParentOf(F.up, t)))[r]
  {
    hide Kids, Segments;
    KidsFacts(F, ParentOf(F.up, t));
  }

  lemma ChosenIsFree(fs: seq<Folder>, i: nat, name: string)
    requires i < |TreeOf(fs)| && ValidForest(ForestOf(fs)) && TreeOf(fs)[i].token in Tokens(ForestOf(fs).folders)
    requires TreeOf(fs)[i].parent.Some? ==> TreeOf(fs)[i].parent.value in Tokens(ForestOf(fs).folders)
    requires name == SegmentOf(ForestOf(fs), TreeOf(fs)[i].token)
    requires Lower(name) !in TakenBefore(ForestOf(fs), TreeOf(fs)[i].token)
    ensures !NameTaken(TreeOf(fs), i, PrefixText(ForestOf(fs), TreeOf(fs)[i].parent), name)
  {
    hide TreeOf, ForestOf, PathOf, ValidForest, Tokens, Segments, Kids, Rank, Lower, SegmentOf;
    NodeIsRow(fs, i);
    var F, tree := ForestOf(fs), TreeOf(fs);
    var prefix := PrefixText(F, tree[i].parent);
    forall j | 0 <= j < i && tree[j].parent == tree[i].parent ensures Lower(tree[j].path) != Lower(prefix + name) {
      NodeIsRow(fs, j);
      if Lower(tree[j].path) == Lower(tree[i].path) {
        PathsDiffer(F, tree[j].token, tree[i].token);
        ShownOnce(fs, i, j);
      }
    }
  }

  /**
    Each node is shown below its parent's path under its display name, or the first numbered form of
    it that no earlier sibling and no system mailbox has.
  */
  lemma NameIsFirstFree(fs: seq<Folder>, i: nat) returns (prefix: string, k: nat)
    requires i < |TreeOf(fs)|
    ensures IsPrefix(TreeOf(fs), i, prefix)
    ensures var shown := DisplaySegment(TreeOf(fs)[i].name);
      && TreeOf(fs)[i].path == prefix + Numbered(shown, k)
      && !NameTaken(TreeOf(fs), i, prefix, Numbered(shown, k))
      && forall c: nat :: c < k ==> NameTaken(TreeOf(fs), i, prefix, Numbered(shown, c))
  {
    hide TreeOf, ForestOf, PathOf, ValidForest, Tokens, Segments, Kids, Rank, Lower, SegmentOf, DisplaySegment,
      NameTaken, Numbered, TakenBefore, IsPrefix, PrefixText;
    NodeIsRow(fs, i);
    var F, tree := ForestOf(fs), TreeOf(fs);
    var f := RowOf(F.folders, tree[i].token);
    prefix := PrefixText(F, tree[i].parent);
    PrefixHolds(fs, i);
    k := ChosenNumber(F, f);
    forall c: nat | c < k ensures NameTaken(tree, i, prefix, Numbered(DisplaySegment(tree[i].name), c)) {
      EarlierIsTaken(fs, i, Numbered(DisplaySegment(tree[i].name), c));
    }
    ChosenIsFree(fs, i, Numbered(DisplaySegment(tree[i].name), k));
  }

  /** A name without separators, control characters and blank ends is shown as it is, unless it is taken. */
  lemma CleanNameIsKeptIff(fs: seq<Folder>, i: nat) returns (prefix: string, k: nat)
    requires i < |TreeOf(fs)|
    requires var name := TreeOf(fs)[i].name;
      && name != [] && Visible(name[0]) && Visible(name[|name| - 1])
      && forall c :: c in name ==> !IsControl(c) && c != '/'
    ensures IsPrefix(TreeOf(fs), i, prefix)
    ensures var n := TreeOf(fs)[i];
      && n.path == (if k == 0 then prefix + n.name else prefix + n.name + " (" + Decimal(k + 1) + ")")
      && (k == 0 <==> !NameTaken(TreeOf(fs), i, prefix, n.name))
  {
    hide TreeOf, DisplaySegment, NameTaken, IsPrefix, Visible;
    CleanNameIsShown(TreeOf(fs)[i].name);
    prefix, k := NameIsFirstFree(fs, i);
    NumberedForms(TreeOf(fs)[i].name, k, prefix);
  }

  lemma NumberedForms(name: string, k: nat, prefix: string)
    ensures Numbered(name, 0) == name
    ensures k > 0 ==> prefix + Numbered(name, k) == prefix + name + " (" + Decimal(k + 1) + ")"
  {
    assert k > 0 ==> prefix + (name + " (" + Decimal(k + 1) + ")") == prefix + name + " (" + Decimal(k + 1) + ")";
  }

  /** The rows that are shown: the first of each token that is not empty. */
  lemma ShownRowsIff(fs: seq<Folder>, f: Folder)
    ensures f in Dedup(fs) <==>
      exists k :: 0 <= k < |fs| && fs[k] == f && f.token != "" && forall j :: 0 <= j < k ==> fs[j].token != f.token
  {
    hide Dedup;
    if f in Dedup(fs) {
      TokenIn(Dedup(fs), f);
      var k := FirstRow(fs, f.token);
      DedupKeepsFirst(fs, k);
      SameTokenSameRow(Dedup(fs), f, fs[k]);
    }
    if k :| 0 <= k < |fs| && fs[k] == f && f.token != "" && forall j :: 0 <= j < k ==> fs[j].token != f.token {
      DedupKeepsFirst(fs, k);
    }
  }
}
