/**
  What the displayed tree guarantees: every folder once, parents first, subtrees contiguous,
  flags that agree with the list itself, and no dependence on the order of the table.
*/
module FolderTreeFacts {
  import opened Text
  import opened ParentGraph
  import opened FolderTable
  import opened FolderRepair
  import opened FolderTree

  function EntryTokens(entries: seq<Entry>): set<string> {
    set e | e in entries :: e.folder.token
  }

  ghost predicate DistinctEntries(entries: seq<Entry>) {
    forall i, j :: 0 <= i < j < |entries| ==> entries[i].folder.token != entries[j].folder.token
  }

  lemma EntryTokensConcat(a: seq<Entry>, b: seq<Entry>)
    ensures EntryTokens(a + b) == EntryTokens(a) + EntryTokens(b)
  {
    assert forall e :: e in a + b <==> e in a || e in b;
  }

  lemma DistinctConcat(a: seq<Entry>, b: seq<Entry>)
    requires DistinctEntries(a) && DistinctEntries(b) && EntryTokens(a) !! EntryTokens(b)
    ensures DistinctEntries(a + b)
  {
    forall i, j | 0 <= i < |a| && 0 <= j < |b| ensures a[i].folder.token != b[j].folder.token {
      assert a[i].folder.token in EntryTokens(a) && b[j].folder.token in EntryTokens(b);
    }
  }

  /** The ancestor of `t` (or `t` itself) that is `d` steps below the root. */
  ghost function Anchor(up: Parents, d: nat, t: string): Option<string>
    requires Acyclic(up)
  {
    if d <= Depth(up, t) then Up(up, t, Depth(up, t) - d) else None
  }

  lemma AnchorFacts(up: Parents, d: nat, t: string)
    requires Acyclic(up)
    ensures Anchor(up, d, t).Some? <==> d <= Depth(up, t)
    ensures Anchor(up, d, t).Some? ==> Depth(up, Anchor(up, d, t).value) == d && Reaches(up, t, Anchor(up, d, t).value)
    ensures Depth(up, t) == d ==> Anchor(up, d, t) == Some(t)
    ensures d < Depth(up, t) ==>
      Anchor(up, d + 1, t).Some? && Anchor(up, d, t) == ParentOf(up, Anchor(up, d + 1, t).value)
  {
    var e := Depth(up, t);
    if d <= e {
      if d > 0 { UpPrefix(up, t, e - d, e); }
      DepthOfAncestor(up, t, e - d);
    }
    if d < e {
      if d + 1 < e { UpPrefix(up, t, e - d - 1, e); }
      UpStep(up, t, e - d - 1);
    }
  }

  /** An ancestor at depth `d` or more lies below the same anchor. */
  lemma AnchorThrough(up: Parents, d: nat, t: string, a: string)
    requires Acyclic(up) && Reaches(up, t, a) && d <= Depth(up, a)
    ensures Anchor(up, d, t) == Anchor(up, d, a)
    ensures Depth(up, a) <= Depth(up, t)
  {
    var k: nat :| Up(up, t, k) == Some(a);
    DepthOfAncestor(up, t, k);
    UpAdd(up, t, k, Depth(up, a) - d);
  }

  lemma KidEntryTokens(F: Forest, p: Option<string>, prefix: Option<string>, x: string)
    ensures x in EntryTokens(KidEntries(F, p, prefix)) <==> exists f :: f in Kids(F, p) && f.token == x
  {
    hide Kids, Segments, TakenNames;
    var kids, below := Kids(F, p), KidEntries(F, p, prefix);
    if x in EntryTokens(below) {
      var c :| c in below && c.folder.token == x;
      var i :| 0 <= i < |below| && below[i] == c;
      assert kids[i] in kids;
    }
    if f :| f in kids && f.token == x {
      var i :| 0 <= i < |kids| && kids[i] == f;
      assert below[i] in below;
    }
  }

  lemma BelowTokens(F: Forest, e: Entry, x: string)
    requires ValidForest(F)
    ensures x in EntryTokens(Below(F, e)) <==> x in Tokens(F.folders) && ParentOf(F.up, x) == Some(e.folder.token)
  {
    hide Kids, KidEntries, ValidForest, EntryTokens, ParentOf;
    KidsFacts(F, Some(e.folder.token));
    KidEntryTokens(F, Some(e.folder.token), Some(e.path), x);
  }

  lemma KidEntriesDistinct(F: Forest, p: Option<string>, prefix: Option<string>)
    requires ValidForest(F)
    ensures DistinctEntries(KidEntries(F, p, prefix))
  {
    KidsFacts(F, p);
  }

  lemma BelowDistinct(F: Forest, e: Entry)
    requires ValidForest(F)
    ensures DistinctEntries(Below(F, e))
  {
    KidEntriesDistinct(F, Some(e.folder.token), Some(e.path));
  }

  lemma AnchorsAreRows(F: Forest, d: nat, x: string)
    requires ValidForest(F) && x in Tokens(F.folders)
    ensures Anchor(F.up, d, x).Some? ==> Anchor(F.up, d, x).value in Tokens(F.folders)
  {
    var e := Depth(F.up, x);
    if d < e {
      AnchorFacts(F.up, d, x);
    }
  }

  /** One step of `PreorderTokens`: what lies below `e` is what is anchored at `e`. */
  lemma AnchoredAt(F: Forest, d: nat, e: Entry, x: string)
    requires ValidForest(F) && AtDepth(F, d, [e]) && x in Tokens(F.folders)
    ensures Anchor(F.up, d, x) == Some(e.folder.token) <==>
      x == e.folder.token
      || (Anchor(F.up, d + 1, x).Some? && Anchor(F.up, d + 1, x).value in EntryTokens(Below(F, e)))
  {
    hide Anchor, Depth, Below, EntryTokens;
    assert e in [e];
    AnchorFacts(F.up, d, x);
    AnchorFacts(F.up, d + 1, x);
    AnchorsAreRows(F, d + 1, x);
    if Anchor(F.up, d + 1, x).Some? {
      BelowTokens(F, e, Anchor(F.up, d + 1, x).value);
    }
  }

  lemma EntryIsRow(F: Forest, d: nat, e: Entry)
    requires ValidForest(F) && AtDepth(F, d, [e])
    ensures e.folder.token in Tokens(F.folders) && Depth(F.up, e.folder.token) == d
  {
    assert e in [e];
  }

  /** The rows shown from a list of siblings are exactly those below one of them. */
  lemma {:induction false} PreorderTokens(F: Forest, d: nat, entries: seq<Entry>, x: string)
    requires ValidForest(F) && AtDepth(F, d, entries)
    ensures x in EntryTokens(Preorder(F, d, entries)) <==>
      x in Tokens(F.folders) && Anchor(F.up, d, x).Some? && Anchor(F.up, d, x).value in EntryTokens(entries)
    decreases |F.up.Keys| + 1 - d, |entries|
  {
    hide Anchor, Depth, Below, ValidForest, Tokens;
    if entries != [] {
      var e := entries[0];
      PreorderCons(F, d, entries);
      PreorderOne(F, d, e);
      DepthBound(F, d, entries);
      EntryTokensConcat(Preorder(F, d, [e]), Preorder(F, d, entries[1..]));
      EntryTokensConcat([e], Preorder(F, d + 1, Below(F, e)));
      assert entries == [e] + entries[1..];
      EntryTokensConcat([e], entries[1..]);
      PreorderTokens(F, d, entries[1..], x);
      PreorderTokens(F, d + 1, Below(F, e), x);
      assert EntryTokens([e]) == {e.folder.token};
      EntryIsRow(F, d, e);
      if x in Tokens(F.folders) {
        AnchoredAt(F, d, e, x);
      }
    }
  }

  lemma FirstNotAmongRest(e: Entry, rest: seq<Entry>)
    requires DistinctEntries([e] + rest)
    ensures e.folder.token !in EntryTokens(rest) && DistinctEntries(rest)
  {
    var all := [e] + rest;
    forall c | c in rest ensures c.folder.token != e.folder.token {
      var i :| 0 <= i < |rest| && rest[i] == c;
      assert all[0] == e && all[i + 1] == c;
    }
    assert rest == all[1..];
  }

  /** Where the anchors of a preorder's parts lie. */
  lemma PartAnchors(F: Forest, d: nat, e: Entry, rest: seq<Entry>, x: string)
    requires ValidForest(F) && AtDepth(F, d, [e]) && AtDepth(F, d, rest) && DistinctEntries([e] + rest)
    ensures AtDepth(F, d + 1, Below(F, e))
    ensures x in EntryTokens(Preorder(F, d, [e])) ==> Anchor(F.up, d, x) == Some(e.folder.token)
    ensures x in EntryTokens(Preorder(F, d + 1, Below(F, e))) ==>
      Anchor(F.up, d, x) == Some(e.folder.token) && Depth(F.up, x) > d
    ensures x in EntryTokens(Preorder(F, d, rest)) ==>
      Anchor(F.up, d, x).Some? && Anchor(F.up, d, x) != Some(e.folder.token)
  {
    hide Anchor, Depth, Below, Acyclic, DistinctTokens, Tokens;
    PreorderOne(F, d, e);
    PreorderTokens(F, d, [e], x);
    PreorderTokens(F, d, rest, x);
    PreorderTokens(F, d + 1, Below(F, e), x);
    EntryTokensConcat([e], Preorder(F, d + 1, Below(F, e)));
    AnchorFacts(F.up, d + 1, x);
    FirstNotAmongRest(e, rest);
  }

  lemma PreorderOfNone(F: Forest, d: nat)
    requires ValidForest(F)
    ensures AtDepth(F, d, []) && Preorder(F, d, []) == [] && DistinctEntries([])
  {
  }

  /** No row is shown twice. */
  lemma {:induction false} PreorderDistinct(F: Forest, d: nat, entries: seq<Entry>)
    requires ValidForest(F) && AtDepth(F, d, entries) && DistinctEntries(entries)
    ensures DistinctEntries(Preorder(F, d, entries))
    decreases |F.up.Keys| + 1 - d, |entries|
  {
    hide Anchor, Depth, Below, ValidForest, Tokens, EntryTokens, Preorder, AtDepth, DistinctEntries;
    if entries == [] {
      PreorderOfNone(F, d);
    } else {
      var e := entries[0];
      assert entries == [e] + entries[1..];
      FirstNotAmongRest(e, entries[1..]);
      SingleDistinct(e);
      PreorderCons(F, d, entries);
      PreorderOne(F, d, e);
      DepthBound(F, d, entries);
      var below, first, rest := Preorder(F, d + 1, Below(F, e)), Preorder(F, d, [e]), Preorder(F, d, entries[1..]);
      BelowDistinct(F, e);
      PreorderDistinct(F, d + 1, Below(F, e));
      PreorderDistinct(F, d, entries[1..]);
      EntryIsRow(F, d, e);
      PartsAreDisjoint(F, d, e, entries[1..]);
      DistinctConcat([e], below);
      DistinctConcat(first, rest);
    }
  }

  lemma SingleDistinct(e: Entry)
    ensures DistinctEntries([e]) && EntryTokens([e]) == {e.folder.token}
  {
  }

  lemma PartsAreDisjoint(F: Forest, d: nat, e: Entry, rest: seq<Entry>)
    requires ValidForest(F) && AtDepth(F, d, [e]) && AtDepth(F, d, rest) && DistinctEntries([e] + rest)
    ensures AtDepth(F, d + 1, Below(F, e))
    ensures EntryTokens([e]) !! EntryTokens(Preorder(F, d + 1, Below(F, e)))
    ensures EntryTokens(Preorder(F, d, [e])) !! EntryTokens(Preorder(F, d, rest))
  {
    hide Anchor, Depth, Below, EntryTokens, Preorder, AtDepth, DistinctEntries;
    SingleDistinct(e);
    EntryIsRow(F, d, e);
    PreorderOne(F, d, e);
    forall x
      ensures !(x in EntryTokens([e]) && x in EntryTokens(Preorder(F, d + 1, Below(F, e))))
      ensures !(x in EntryTokens(Preorder(F, d, [e])) && x in EntryTokens(Preorder(F, d, rest)))
    {
      PartAnchors(F, d, e, rest, x);
    }
  }

  // ---------- subtrees are contiguous ----------

  /** The `n` entries from the `i`-th on are exactly those that descend from the `i`-th. */
  ghost predicate BlockAt(up: Parents, s: seq<Entry>, i: nat, n: nat)
    requires i < |s|
  {
    && 1 <= n && i + n <= |s|
    && forall j :: 0 <= j < |s| ==> (Reaches(up, s[j].folder.token, s[i].folder.token) <==> i <= j < i + n)
  }

  lemma InTokens(s: seq<Entry>, j: nat)
    requires j < |s|
    ensures s[j].folder.token in EntryTokens(s)
  {
    assert s[j] in s;
  }

  /** Entries under different anchors are unrelated. */
  lemma UnrelatedAcross(up: Parents, d: nat, x: string, y: string)
    requires Acyclic(up) && Anchor(up, d, y).Some? && Anchor(up, d, x) != Anchor(up, d, y)
    ensures !Reaches(up, x, y)
  {
    if Reaches(up, x, y) { AnchorThrough(up, d, x, y); }
  }

  /** A block of the middle part is a block of the whole when nothing outside the middle descends from it. */
  lemma BlockInContext(up: Parents, a: seq<Entry>, m: seq<Entry>, b: seq<Entry>, i: nat, n: nat)
    requires i < |m| && BlockAt(up, m, i, n)
    requires forall j :: 0 <= j < |a| ==> !Reaches(up, a[j].folder.token, m[i].folder.token)
    requires forall j :: 0 <= j < |b| ==> !Reaches(up, b[j].folder.token, m[i].folder.token)
    ensures BlockAt(up, a + m + b, |a| + i, n)
  {
    hide Reaches;
    var s := a + m + b;
    forall j | 0 <= j < |s|
      ensures Reaches(up, s[j].folder.token, s[|a| + i].folder.token) <==> |a| + i <= j < |a| + i + n
    {
      if j < |a| {
        assert s[j] == a[j];
      } else if j < |a| + |m| {
        assert s[j] == m[j - |a|];
      } else {
        assert s[j] == b[j - |a| - |m|];
      }
    }
  }

  lemma BlockOfFirst(F: Forest, d: nat, e: Entry, rest: seq<Entry>)
    requires ValidForest(F) && AtDepth(F, d, [e]) && AtDepth(F, d, rest) && DistinctEntries([e] + rest)
    ensures Preorder(F, d, [e]) != [] && Preorder(F, d, [e])[0] == e
    ensures BlockAt(F.up, Preorder(F, d, [e]) + Preorder(F, d, rest), 0, |Preorder(F, d, [e])|)
  {
    hide Anchor, Depth, Below, Acyclic, DistinctTokens, Tokens, Reaches, EntryTokens, Preorder, AtDepth,
      DistinctEntries;
    PreorderOne(F, d, e);
    EntryIsRow(F, d, e);
    var first, after := Preorder(F, d, [e]), Preorder(F, d, rest);
    var s := first + after;
    forall j | 0 <= j < |s| ensures Reaches(F.up, s[j].folder.token, e.folder.token) <==> j < |first| {
      PartAnchors(F, d, e, rest, s[j].folder.token);
      AnchorFacts(F.up, d, s[j].folder.token);
      AnchorFacts(F.up, d, e.folder.token);
      if j < |first| {
        InTokens(first, j);
      } else {
        InTokens(after, j - |first|);
        UnrelatedAcross(F.up, d, s[j].folder.token, e.folder.token);
      }
    }
  }

  lemma BlockInsideFirst(F: Forest, d: nat, e: Entry, rest: seq<Entry>, i: nat, n: nat)
    requires ValidForest(F) && AtDepth(F, d, [e]) && AtDepth(F, d, rest) && DistinctEntries([e] + rest)
    requires AtDepth(F, d + 1, Below(F, e))
    requires i < |Preorder(F, d + 1, Below(F, e))| && BlockAt(F.up, Preorder(F, d + 1, Below(F, e)), i, n)
    ensures i + 1 < |Preorder(F, d, [e])| && BlockAt(F.up, Preorder(F, d, [e]) + Preorder(F, d, rest), i + 1, n)
  {
    hide Anchor, Depth, Below, Acyclic, DistinctTokens, Tokens, Reaches, EntryTokens, Preorder, AtDepth,
      DistinctEntries, BlockAt;
    PreorderOne(F, d, e);
    EntryIsRow(F, d, e);
    var below, after := Preorder(F, d + 1, Below(F, e)), Preorder(F, d, rest);
    var y := below[i].folder.token;
    InTokens(below, i);
    PartAnchors(F, d, e, rest, y);
    if Reaches(F.up, e.folder.token, y) {
      AnchorFacts(F.up, d, y);
      AnchorThrough(F.up, d, e.folder.token, y);
    }
    forall j | 0 <= j < |after| ensures !Reaches(F.up, after[j].folder.token, y) {
      InTokens(after, j);
      PartAnchors(F, d, e, rest, after[j].folder.token);
      UnrelatedAcross(F.up, d, after[j].folder.token, y);
    }
    BlockInContext(F.up, [e], below, after, i, n);
  }

  lemma BlockInsideRest(F: Forest, d: nat, e: Entry, rest: seq<Entry>, i: nat, n: nat)
    requires ValidForest(F) && AtDepth(F, d, [e]) && AtDepth(F, d, rest) && DistinctEntries([e] + rest)
    requires i < |Preorder(F, d, rest)| && BlockAt(F.up, Preorder(F, d, rest), i, n)
    ensures BlockAt(F.up, Preorder(F, d, [e]) + Preorder(F, d, rest), |Preorder(F, d, [e])| + i, n)
  {
    hide Anchor, Depth, Below, Acyclic, DistinctTokens, Tokens, Reaches, EntryTokens, Preorder, AtDepth,
      DistinctEntries, BlockAt;
    var first, after := Preorder(F, d, [e]), Preorder(F, d, rest);
    var y := after[i].folder.token;
    InTokens(after, i);
    PartAnchors(F, d, e, rest, y);
    forall j | 0 <= j < |first| ensures !Reaches(F.up, first[j].folder.token, y) {
      InTokens(first, j);
      PartAnchors(F, d, e, rest, first[j].folder.token);
      UnrelatedAcross(F.up, d, first[j].folder.token, y);
    }
    BlockInContext(F.up, first, after, [], i, n);
    assert first + after + [] == first + after;
  }

  /** In a preorder, whatever descends from an entry forms one block that starts with it. */
  lemma {:induction false} PreorderBlocks(F: Forest, d: nat, entries: seq<Entry>, i: nat) returns (n: nat)
    requires ValidForest(F) && AtDepth(F, d, entries) && DistinctEntries(entries)
    requires i < |Preorder(F, d, entries)|
    ensures BlockAt(F.up, Preorder(F, d, entries), i, n)
    decreases |F.up.Keys| + 1 - d, |entries|
  {
    hide Anchor, Depth, Below, ValidForest, Reaches, EntryTokens, AtDepth, DistinctEntries, BlockAt;
    var e := entries[0];
    assert entries == [e] + entries[1..];
    FirstNotAmongRest(e, entries[1..]);
    PreorderCons(F, d, entries);
    PreorderOne(F, d, e);
    DepthBound(F, d, entries);
    var first := Preorder(F, d, [e]);
    if i == 0 {
      BlockOfFirst(F, d, e, entries[1..]);
      n := |first|;
    } else if i < |first| {
      BelowDistinct(F, e);
      n := PreorderBlocks(F, d + 1, Below(F, e), i - 1);
      BlockInsideFirst(F, d, e, entries[1..], i - 1, n);
    } else {
      n := PreorderBlocks(F, d, entries[1..], i - |first|);
      BlockInsideRest(F, d, e, entries[1..], i - |first|, n);
    }
  }

  // ---------- the displayed list ----------

  lemma WholeFacts(F: Forest, x: string)
    requires ValidForest(F)
    ensures DistinctEntries(Whole(F))
    ensures x in EntryTokens(Whole(F)) <==> x in Tokens(F.folders)
  {
    hide Preorder, Depth, ValidForest, EntryTokens, KidEntries;
    var roots := KidEntries(F, None, None);
    RootsAtDepth(F);
    KidEntriesDistinct(F, None, None);
    PreorderDistinct(F, 0, roots);
    PreorderTokens(F, 0, roots, x);
    if x in Tokens(F.folders) { AnchoredAtRoot(F, x); }
  }

  lemma AnchoredAtRoot(F: Forest, x: string)
    requires ValidForest(F) && x in Tokens(F.folders)
    ensures Anchor(F.up, 0, x).Some? && Anchor(F.up, 0, x).value in EntryTokens(KidEntries(F, None, None))
  {
    hide Depth, Kids, EntryTokens, KidEntries, Anchor;
    AnchorFacts(F.up, 0, x);
    AnchorsAreRows(F, 0, x);
    var r := Anchor(F.up, 0, x).value;
    KidsFacts(F, None);
    KidEntryTokens(F, None, None, r);
    DepthOfChild(F.up, r);
    var f :| f in F.folders && f.token == r;
    assert f in Kids(F, None);
  }

  /** Every row with a token is shown. */
  lemma EveryFolderIsShown(fs: seq<Folder>, t: string) returns (i: nat)
    requires t in Tokens(fs) && t != ""
    ensures i < |TreeOf(fs)| && TreeOf(fs)[i].token == t
  {
    hide Whole, EntryTokens, RepairedParents, Tokens, Dedup;
    ForestOfIsValid(fs);
    var F := ForestOf(fs);
    WholeFacts(F, t);
    i := EntryWithToken(Whole(F), t);
  }

  lemma EntryWithToken(s: seq<Entry>, t: string) returns (i: nat)
    requires t in EntryTokens(s)
    ensures i < |s| && s[i].folder.token == t
  {
    var e :| e in s && e.folder.token == t;
    i :| 0 <= i < |s| && s[i] == e;
  }

  /** Nothing is shown twice, and only rows of the table are shown. */
  lemma ShownOnce(fs: seq<Folder>, i: nat, j: nat)
    requires i < |TreeOf(fs)| && j < |TreeOf(fs)|
    ensures TreeOf(fs)[i].token == TreeOf(fs)[j].token ==> i == j
    ensures TreeOf(fs)[i].token in Tokens(fs) && TreeOf(fs)[i].token != "" && TreeOf(fs)[i].position == i
  {
    hide Whole, EntryTokens, RepairedParents, Kids;
    ForestOfIsValid(fs);
    var F := ForestOf(fs);
    var t := TreeOf(fs)[i].token;
    WholeFacts(F, t);
    InTokens(Whole(F), i);
  }

  /** The nodes that descend from a node, itself included, are one block of the list that starts with it. */
  lemma SubtreesAreContiguous(fs: seq<Folder>, i: nat) returns (n: nat)
    requires i < |TreeOf(fs)|
    ensures 1 <= n && i + n <= |TreeOf(fs)|
    ensures forall j :: 0 <= j < |TreeOf(fs)| ==>
      (Reaches(ForestOf(fs).up, TreeOf(fs)[j].token, TreeOf(fs)[i].token) <==> i <= j < i + n)
  {
    hide Preorder, RepairedParents, Kids, Reaches, Dedup;
    ForestOfIsValid(fs);
    var F := ForestOf(fs);
    var roots := KidEntries(F, None, None);
    RootsAtDepth(F);
    KidEntriesDistinct(F, None, None);
    n := PreorderBlocks(F, 0, roots, i);
  }

  /** A node's parent is shown before it. */
  lemma ParentsComeFirst(fs: seq<Folder>, i: nat) returns (j: nat)
    requires i < |TreeOf(fs)| && TreeOf(fs)[i].parent.Some?
    ensures j < i && TreeOf(fs)[j].token == TreeOf(fs)[i].parent.value
  {
    hide Whole, RepairedParents, Kids, Dedup, Tokens;
    ForestOfIsValid(fs);
    var F := ForestOf(fs);
    var t, p := TreeOf(fs)[i].token, TreeOf(fs)[i].parent.value;
    WholeFacts(F, p);
    j := EntryWithToken(Whole(F), p);
    var n := SubtreesAreContiguous(fs, j);
    UpStep(F.up, t, 0);
    assert Reaches(F.up, t, p);
    DepthOfChild(F.up, t);
  }

  /** The child flag and the parent tokens agree within the list. */
  lemma FlagsAgree(fs: seq<Folder>, i: nat)
    requires i < |TreeOf(fs)|
    ensures TreeOf(fs)[i].hasChildren
      <==> exists k :: 0 <= k < |TreeOf(fs)| && TreeOf(fs)[k].parent == Some(TreeOf(fs)[i].token)
  {
    hide Whole, RepairedParents, Kids, Dedup, Tokens, EntryTokens;
    ForestOfIsValid(fs);
    var F := ForestOf(fs);
    var T := TreeOf(fs);
    var p := Some(T[i].token);
    KidsFacts(F, p);
    var kids := Kids(F, p);
    if kids != [] {
      var f := kids[0];
      assert f in kids;
      TokenIn(F.folders, f);
      WholeFacts(F, f.token);
      var k := EntryWithToken(Whole(F), f.token);
      assert T[k].parent == p;
    }
    if k :| 0 <= k < |T| && T[k].parent == p {
      InTokens(Whole(F), k);
      WholeFacts(F, T[k].token);
      var f := RowOf(F.folders, T[k].token);
      assert f in kids;
    }
  }

  lemma TokenIn(fs: seq<Folder>, f: Folder)
    requires f in fs
    ensures f.token in Tokens(fs)
  {
  }

  lemma RowOf(fs: seq<Folder>, t: string) returns (f: Folder)
    requires t in Tokens(fs)
    ensures f in fs && f.token == t
  {
    f :| f in fs && f.token == t;
  }

  // ---------- the order of the table does not matter ----------

  lemma {:induction false} ChildrenOfPermutation(a: seq<Folder>, up: Parents, p: Option<string>, f: Folder)
    ensures multiset(ChildrenOf(a, up, p))[f] == if ParentOf(up, f.token) == p then multiset(a)[f] else 0
  {
    hide ParentOf;
    if a != [] {
      var rest := a[..|a| - 1];
      ChildrenOfPermutation(rest, up, p, f);
      assert a == rest + [a[|a| - 1]];
    }
  }

  lemma KidsOfPermutation(F: Forest, G: Forest, p: Option<string>)
    requires ValidForest(F) && ValidForest(G) && F.up == G.up && multiset(F.folders) == multiset(G.folders)
    ensures Kids(F, p) == Kids(G, p)
  {
    hide ValidForest, DistinctTokens, ParentOf, InSiblingOrder;
    var a, b := ChildrenOf(F.folders, F.up, p), ChildrenOf(G.folders, G.up, p);
    forall f ensures multiset(a)[f] == multiset(b)[f] {
      ChildrenOfPermutation(F.folders, F.up, p, f);
      ChildrenOfPermutation(G.folders, G.up, p, f);
    }
    assert multiset(a) == multiset(b);
    KidsFacts(F, p);
    KidsFacts(G, p);
    OrderedListUnique(Kids(F, p), Kids(G, p));
  }

  lemma {:induction false} PreorderOfPermutation(F: Forest, G: Forest, d: nat, entries: seq<Entry>)
    requires ValidForest(F) && ValidForest(G) && F.up == G.up && multiset(F.folders) == multiset(G.folders)
    requires AtDepth(F, d, entries)
    ensures AtDepth(G, d, entries) && Preorder(F, d, entries) == Preorder(G, d, entries)
    decreases |F.up.Keys| + 1 - d, |entries|
  {
    hide ValidForest, Depth, Kids, KidEntries, AtDepth, Preorder, Below;
    AtDepthOfPermutation(F, G, d, entries);
    if entries == [] {
      EmptyPreorder(F, G, d, entries);
    } else {
      var e := entries[0];
      PreorderCons(F, d, entries);
      PreorderOne(F, d, e);
      DepthBound(F, d, entries);
      SameBelow(F, G, e);
      PreorderOfPermutation(F, G, d + 1, Below(F, e));
      PreorderOfPermutation(F, G, d, entries[1..]);
      PreorderCons(G, d, entries);
      PreorderOne(G, d, e);
    }
  }

  lemma AtDepthOfPermutation(F: Forest, G: Forest, d: nat, entries: seq<Entry>)
    requires ValidForest(F) && ValidForest(G) && F.up == G.up && multiset(F.folders) == multiset(G.folders)
    requires AtDepth(F, d, entries)
    ensures AtDepth(G, d, entries)
  {
    hide ValidForest, Depth;
    MembersOfPermutation(F.folders, G.folders);
  }

  lemma EmptyPreorder(F: Forest, G: Forest, d: nat, entries: seq<Entry>)
    requires ValidForest(F) && ValidForest(G) && entries == [] && AtDepth(F, d, entries) && AtDepth(G, d, entries)
    ensures Preorder(F, d, entries) == Preorder(G, d, entries)
  {
    hide ValidForest, AtDepth;
  }

  lemma SameBelow(F: Forest, G: Forest, e: Entry)
    requires ValidForest(F) && ValidForest(G) && F.up == G.up && multiset(F.folders) == multiset(G.folders)
    ensures Below(F, e) == Below(G, e)
  {
    hide ValidForest, KidEntries, Kids;
    KidsOfPermutation(F, G, Some(e.folder.token));
    SameKidEntries(F, G, Some(e.folder.token), Some(e.path));
  }

  lemma SameKidEntries(F: Forest, G: Forest, p: Option<string>, prefix: Option<string>)
    requires Kids(F, p) == Kids(G, p)
    ensures KidEntries(F, p, prefix) == KidEntries(G, p, prefix)
  {
    hide Kids;
  }

  lemma TokensOfPermutation(a: seq<Folder>, b: seq<Folder>)
    requires multiset(a) == multiset(b) && DistinctTokens(a)
    ensures DistinctTokens(b) && Tokens(a) == Tokens(b)
  {
    MembersOfPermutation(a, b);
    forall i, j | 0 <= i < j < |b| ensures b[i].token != b[j].token {
      if b[i].token == b[j].token {
        SameTokenSameRow(a, b[i], b[j]);
        assert b == b[..i] + [b[i]] + b[i + 1..j] + [b[j]] + b[j + 1..];
        assert multiset(b)[b[i]] >= 2;
        SingleCopy(a, b[i]);
      }
    }
  }

  lemma LastTokenIsNew(fs: seq<Folder>)
    requires DistinctTokens(fs) && fs != []
    ensures fs[|fs| - 1].token !in Tokens(fs[..|fs| - 1])
  {
    forall f | f in fs[..|fs| - 1] ensures f.token != fs[|fs| - 1].token {
      var i :| 0 <= i < |fs| - 1 && fs[i] == f;
    }
  }

  lemma {:induction false} SingleCopy(a: seq<Folder>, f: Folder)
    requires DistinctTokens(a)
    ensures multiset(a)[f] <= 1
  {
    if a != [] {
      var rest := a[..|a| - 1];
      SingleCopy(rest, f);
      assert a == rest + [a[|a| - 1]];
      LastTokenIsNew(a);
    }
  }

  lemma CopiesSnoc(fs: seq<Folder>, last: Folder, f: Folder)
    ensures multiset(fs + [last])[f] == multiset(fs)[f] + if f == last then 1 else 0
  {
  }

  lemma {:induction false} DedupOfDistinct(fs: seq<Folder>, f: Folder)
    requires DistinctTokens(fs)
    ensures multiset(Dedup(fs))[f] == if f.token == "" then 0 else multiset(fs)[f]
  {
    if fs != [] {
      hide Tokens, DistinctTokens, Dedup;
      var rest, last := fs[..|fs| - 1], fs[|fs| - 1];
      PrefixDistinct(fs);
      DedupOfDistinct(rest, f);
      LastTokenIsNew(fs);
      DedupKeepsNewLast(fs);
      assert fs == rest + [last];
      CopiesSnoc(rest, last, f);
      CopiesSnoc(Dedup(rest), last, f);
      assert Dedup(rest) + [] == Dedup(rest);
    } else {
      assert Dedup(fs) == [];
    }
  }

  lemma PrefixDistinct(fs: seq<Folder>)
    requires DistinctTokens(fs) && fs != []
    ensures DistinctTokens(fs[..|fs| - 1])
  {
  }

  lemma DedupKeepsNewLast(fs: seq<Folder>)
    requires fs != [] && fs[|fs| - 1].token !in Tokens(fs[..|fs| - 1])
    ensures Dedup(fs) == Dedup(fs[..|fs| - 1]) + if fs[|fs| - 1].token == "" then [] else [fs[|fs| - 1]]
  {
    hide Tokens, DistinctTokens;
  }

  lemma RepairOfPermutation(a: seq<Folder>, b: seq<Folder>)
    requires multiset(a) == multiset(b) && DistinctTokens(a)
    ensures RepairedParents(a) == RepairedParents(b)
  {
    TokensOfPermutation(a, b);
    MembersOfPermutation(a, b);
    forall t | t in Tokens(a) ensures DeclaredOf(a, t) == DeclaredOf(b, t) {
      SameTokenSameRow(a, Find(a, t).value, Find(b, t).value);
    }
    assert DeclaredParents(a) == DeclaredParents(b);
  }

  /** Tables with the same rows in any order are shown as the same tree. */
  lemma TreeIgnoresTableOrder(a: seq<Folder>, b: seq<Folder>)
    requires multiset(a) == multiset(b) && DistinctTokens(a)
    ensures TreeOf(a) == TreeOf(b)
  {
    hide RepairedParents, Kids, Preorder, Dedup, KidEntries, ValidForest, DistinctTokens;
    TokensOfPermutation(a, b);
    forall f ensures multiset(Dedup(a))[f] == multiset(Dedup(b))[f] {
      DedupOfDistinct(a, f);
      DedupOfDistinct(b, f);
    }
    assert multiset(Dedup(a)) == multiset(Dedup(b));
    RepairOfPermutation(Dedup(a), Dedup(b));
    ForestOfIsValid(a);
    ForestOfIsValid(b);
    var F, G := ForestOf(a), ForestOf(b);
    RootsAtDepth(F);
    KidsOfPermutation(F, G, None);
    SameKidEntries(F, G, None, None);
    PreorderOfPermutation(F, G, 0, KidEntries(F, None, None));
    var s := Whole(F);
    forall i | 0 <= i < |s| ensures TreeOf(a)[i] == TreeOf(b)[i] {
      KidsOfPermutation(F, G, Some(s[i].folder.token));
    }
  }
}
