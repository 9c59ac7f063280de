/**
  Paths of the displayed tree. Different folders have paths that differ even when case is
  ignored, and no folder's path is the name of a system mailbox.
*/
module FolderPaths {
  import opened Text
  import opened ParentGraph
  import opened FolderTable
  import opened FolderRepair
  import opened FolderTree
  import opened FolderTreeFacts

  ghost function Siblings(F: Forest, t: string): seq<Folder> {
    Kids(F, ParentOf(F.up, t))
  }

  /** Where `t` stands among its siblings. */
  ghost function Rank(F: Forest, t: string): (i: nat)
    requires ValidForest(F) && t in Tokens(F.folders)
    ensures i < |Siblings(F, t)| && Siblings(F, t)[i].token == t
  {
    assert exists i: nat :: i < |Siblings(F, t)| && Siblings(F, t)[i].token == t by {
      hide Kids, ParentOf;
      KidsFacts(F, ParentOf(F.up, t));
      var f := RowOf(F.folders, t);
      assert f in Siblings(F, t);
      var i :| 0 <= i < |Siblings(F, t)| && Siblings(F, t)[i] == f;
    }
    var i: nat :| i < |Siblings(F, t)| && Siblings(F, t)[i].token == t;
    i
  }

  /** The last segment of the path of `t`. */
  ghost function SegmentOf(F: Forest, t: string): string
    requires ValidForest(F) && t in Tokens(F.folders)
  {
    Segments(Siblings(F, t), TakenNames(ParentOf(F.up, t)))[Rank(F, t)]
  }

  /** The path of `t`: the segments from the root down. */
  ghost function PathOf(F: Forest, t: string): string
    requires ValidForest(F) && t in Tokens(F.folders)
    decreases Depth(F.up, t)
  {
    DepthOfChild(F.up, t);
    match ParentOf(F.up, t)
    case None => SegmentOf(F, t)
    case Some(p) => PathOf(F, p) + [SEPARATOR] + SegmentOf(F, t)
  }

  lemma SegmentFacts(F: Forest, t: string)
    requires ValidForest(F) && t in Tokens(F.folders)
    ensures IsSegment(SegmentOf(F, t))
    ensures t !in F.up ==> Lower(SegmentOf(F, t)) !in SystemNames()
  {
    hide ValidForest, Kids, Segments, IsSegment;
    SegmentsAreDistinct(Siblings(F, t), TakenNames(ParentOf(F.up, t)));
  }

  lemma SiblingSegmentsDiffer(F: Forest, s: string, t: string)
    requires ValidForest(F) && s in Tokens(F.folders) && t in Tokens(F.folders)
    requires ParentOf(F.up, s) == ParentOf(F.up, t) && Lower(SegmentOf(F, s)) == Lower(SegmentOf(F, t))
    ensures s == t
  {
    hide ValidForest, Kids, Segments, IsSegment;
    SegmentsAreDistinct(Siblings(F, t), TakenNames(ParentOf(F.up, t)));
  }

  lemma LowerKeepsSeparator(s: string)
    ensures SEPARATOR in Lower(s) <==> SEPARATOR in s
  {
    if SEPARATOR in s {
      var i :| 0 <= i < |s| && s[i] == SEPARATOR;
      assert Lower(s)[i] == SEPARATOR;
    }
    if SEPARATOR in Lower(s) {
      var i :| 0 <= i < |s| && Lower(s)[i] == SEPARATOR;
      assert s[i] == SEPARATOR;
    }
  }

  lemma RootPath(F: Forest, t: string)
    requires ValidForest(F) && t in Tokens(F.folders)
    ensures SEPARATOR in PathOf(F, t) <==> t in F.up
    ensures t !in F.up ==> Lower(PathOf(F, t)) !in SystemNames()
  {
    hide ValidForest, SegmentOf;
    SegmentFacts(F, t);
  }

  /** Two folders whose paths agree when case is ignored are the same folder. */
  lemma {:induction false} PathsDiffer(F: Forest, s: string, t: string)
    requires ValidForest(F) && s in Tokens(F.folders) && t in Tokens(F.folders)
    requires Lower(PathOf(F, s)) == Lower(PathOf(F, t))
    ensures s == t
    decreases Depth(F.up, s)
  {
    hide ValidForest, SegmentOf, IsSegment, Depth, Tokens;
    RootPath(F, s);
    RootPath(F, t);
    LowerKeepsSeparator(PathOf(F, s));
    LowerKeepsSeparator(PathOf(F, t));
    if s in F.up {
      StepUp(F, s);
      StepUp(F, t);
      var (a, x) := (PathOf(F, F.up[s]), SegmentOf(F, s));
      var (b, y) := (PathOf(F, F.up[t]), SegmentOf(F, t));
      LastSplitUnique(Lower(a), Lower(x), Lower(b), Lower(y), SEPARATOR);
      PathsDiffer(F, F.up[s], F.up[t]);
    } else {
      assert PathOf(F, s) == SegmentOf(F, s) && PathOf(F, t) == SegmentOf(F, t);
    }
    SiblingSegmentsDiffer(F, s, t);
  }

  lemma StepUp(F: Forest, t: string)
    requires ValidForest(F) && t in Tokens(F.folders) && t in F.up
    ensures F.up[t] in Tokens(F.folders) && Depth(F.up, t) == Depth(F.up, F.up[t]) + 1
    ensures PathOf(F, t) == PathOf(F, F.up[t]) + [SEPARATOR] + SegmentOf(F, t)
    ensures Lower(PathOf(F, t)) == Lower(PathOf(F, F.up[t])) + [SEPARATOR] + Lower(SegmentOf(F, t))
    ensures SEPARATOR !in Lower(SegmentOf(F, t))
  {
    hide SegmentOf, Tokens, Depth;
    DepthOfChild(F.up, t);
    SegmentFacts(F, t);
    LowerKeepsSeparator(SegmentOf(F, t));
    assert Lower([SEPARATOR]) == [SEPARATOR];
  }

  /** Paths are clean: not empty, no blank at either end, no separator at either end. */
  lemma {:induction false} PathIsClean(F: Forest, t: string)
    requires ValidForest(F) && t in Tokens(F.folders)
    ensures PathOf(F, t) != [] && Trimmed(PathOf(F, t), IsSpace) && Trimmed(PathOf(F, t), IsSeparator)
    decreases Depth(F.up, t)
  {
    hide ValidForest, SegmentOf, Depth, Tokens;
    SegmentFacts(F, t);
    var s := SegmentOf(F, t);
    assert s[0] in s && s[|s| - 1] in s;
    if t in F.up {
      StepUp(F, t);
      PathIsClean(F, F.up[t]);
    }
  }

  // ---------- the paths shown are these ----------

  ghost predicate HavePaths(F: Forest, entries: seq<Entry>)
    requires ValidForest(F)
  {
    forall e :: e in entries ==> e.folder in F.folders && e.path == PathOf(F, e.folder.token)
  }

  ghost function PrefixOf(F: Forest, p: Option<string>): Option<string>
    requires ValidForest(F) && (p.Some? ==> p.value in Tokens(F.folders))
  {
    match p case None => None case Some(t) => Some(PathOf(F, t))
  }

  lemma KidEntriesHavePaths(F: Forest, p: Option<string>)
    requires ValidForest(F) && (p.Some? ==> p.value in Tokens(F.folders))
    ensures HavePaths(F, KidEntries(F, p, PrefixOf(F, p)))
  {
    hide ValidForest, Kids, Segments;
    KidsFacts(F, p);
    var kids, entries := Kids(F, p), KidEntries(F, p, PrefixOf(F, p));
    forall e | e in entries ensures e.folder in F.folders && e.path == PathOf(F, e.folder.token) {
      var i :| 0 <= i < |entries| && entries[i] == e;
      assert kids[i] == e.folder && kids[i] in kids;
      var t := e.folder.token;
      TokenIn(F.folders, e.folder);
      assert Siblings(F, t) == kids;
      assert Rank(F, t) == i;
    }
  }

  lemma {:induction false} PreorderHasPaths(F: Forest, d: nat, entries: seq<Entry>)
    requires ValidForest(F) && AtDepth(F, d, entries) && HavePaths(F, entries)
    ensures HavePaths(F, Preorder(F, d, entries))
    decreases |F.up.Keys| + 1 - d, |entries|
  {
    hide ValidForest, Depth, Kids, KidEntries, PathOf, Tokens;
    if entries != [] {
      var e := entries[0];
      assert e in entries;
      BelowHasPaths(F, e);
      PreorderCons(F, d, entries);
      PreorderOne(F, d, e);
      DepthBound(F, d, entries);
      hide Below, AtDepth, HavePaths;
      SplitPaths(F, entries);
      PreorderHasPaths(F, d + 1, Below(F, e));
      PreorderHasPaths(F, d, entries[1..]);
      hide Preorder;
      JoinPaths(F, [e], Preorder(F, d + 1, Below(F, e)));
      JoinPaths(F, Preorder(F, d, [e]), Preorder(F, d, entries[1..]));
    }
  }

  lemma BelowHasPaths(F: Forest, e: Entry)
    requires ValidForest(F) && e.folder in F.folders && e.path == PathOf(F, e.folder.token)
    ensures HavePaths(F, Below(F, e))
  {
    hide ValidForest, KidEntries, PathOf, Tokens, HavePaths;
    TokenIn(F.folders, e.folder);
    KidEntriesHavePaths(F, Some(e.folder.token));
  }

  lemma SplitPaths(F: Forest, entries: seq<Entry>)
    requires ValidForest(F) && HavePaths(F, entries) && entries != []
    ensures HavePaths(F, [entries[0]]) && HavePaths(F, entries[1..])
  {
    hide ValidForest, PathOf;
    assert entries[0] in entries;
  }

  lemma JoinPaths(F: Forest, a: seq<Entry>, b: seq<Entry>)
    requires ValidForest(F) && HavePaths(F, a) && HavePaths(F, b)
    ensures HavePaths(F, a + b)
  {
    hide ValidForest, PathOf;
  }

  lemma WholeHasPaths(F: Forest)
    requires ValidForest(F)
    ensures HavePaths(F, Whole(F))
  {
    hide Kids, KidEntries, PathOf;
    RootsAtDepth(F);
    KidEntriesHavePaths(F, None);
    PreorderHasPaths(F, 0, KidEntries(F, None, None));
  }

  /** Each node is shown under its own path. */
  lemma TreePaths(fs: seq<Folder>, i: nat)
    requires i < |TreeOf(fs)|
    ensures ValidForest(ForestOf(fs)) && TreeOf(fs)[i].token in Tokens(ForestOf(fs).folders)
    ensures TreeOf(fs)[i].path == PathOf(ForestOf(fs), TreeOf(fs)[i].token)
  {
    hide Whole, Kids, PathOf, RepairedParents, Dedup;
    ForestOfIsValid(fs);
    var F := ForestOf(fs);
    WholeHasPaths(F);
    var e := Whole(F)[i];
    assert e in Whole(F);
    TokenIn(F.folders, e.folder);
  }
}
