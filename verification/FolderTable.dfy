/**
  The stored folder table: its rows, the built-in mailboxes, the order of siblings, and the
  names siblings are shown under.
*/
module FolderTable {
  import opened Text
  import opened ParentGraph

  datatype Folder = Folder(
    token: string,
    serverId: string,
    name: string,
    parent: Option<string>,
    sortOrder: int,
    createdAt: Option<string>
  )

  datatype SystemMailbox = SystemMailbox(name: string, tag: string, specialUse: string)

  const SYSTEM_MAILBOXES: seq<SystemMailbox> := [
    SystemMailbox("INBOX", "inbox", ""),
    SystemMailbox("Sent", "sent", "\\Sent"),
    SystemMailbox("Drafts", "drafts", "\\Drafts"),
    SystemMailbox("Trash", "trash", "\\Trash"),
    SystemMailbox("Junk", "spam", "\\Junk"),
    SystemMailbox("Archive", "archive", "\\Archive")
  ]

  function SystemNames(): set<string> {
    {"inbox", "sent", "drafts", "trash", "junk", "archive"}
  }

  lemma SystemNamesAreLowered()
    ensures forall i :: 0 <= i < |SYSTEM_MAILBOXES| ==> Lower(SYSTEM_MAILBOXES[i].name) in SystemNames()
    ensures forall n :: n in SystemNames() ==>
      exists i :: 0 <= i < |SYSTEM_MAILBOXES| && Lower(SYSTEM_MAILBOXES[i].name) == n
    ensures forall i, j :: 0 <= i < j < |SYSTEM_MAILBOXES| ==>
      Lower(SYSTEM_MAILBOXES[i].name) != Lower(SYSTEM_MAILBOXES[j].name)
  {
    assert Lower(SYSTEM_MAILBOXES[0].name) == "inbox";
    assert Lower(SYSTEM_MAILBOXES[1].name) == "sent";
    assert Lower(SYSTEM_MAILBOXES[2].name) == "drafts";
    assert Lower(SYSTEM_MAILBOXES[3].name) == "trash";
    assert Lower(SYSTEM_MAILBOXES[4].name) == "junk";
    assert Lower(SYSTEM_MAILBOXES[5].name) == "archive";
  }

  function FindSystem(name: string, from: nat): (r: Option<SystemMailbox>)
    requires from <= |SYSTEM_MAILBOXES|
    ensures r.Some? ==> r.value in SYSTEM_MAILBOXES && Lower(r.value.name) == Lower(name)
    ensures r.None? ==> forall i :: from <= i < |SYSTEM_MAILBOXES| ==> Lower(SYSTEM_MAILBOXES[i].name) != Lower(name)
    decreases |SYSTEM_MAILBOXES| - from
  {
    if from == |SYSTEM_MAILBOXES| then None
    else if Lower(SYSTEM_MAILBOXES[from].name) == Lower(name) then Some(SYSTEM_MAILBOXES[from])
    else FindSystem(name, from + 1)
  }

  /** The built-in mailbox of this name, compared without case. */
  function SystemMailboxNamed(name: string): Option<SystemMailbox> {
    FindSystem(name, 0)
  }

  lemma SystemMailboxNamedIff(name: string)
    ensures SystemMailboxNamed(name).Some? <==> Lower(name) in SystemNames()
  {
    SystemNamesAreLowered();
  }

  // ---------- rows by token ----------

  function Tokens(fs: seq<Folder>): set<string> {
    set f | f in fs :: f.token
  }

  ghost predicate DistinctTokens(fs: seq<Folder>) {
    forall i, j :: 0 <= i < j < |fs| ==> fs[i].token != fs[j].token
  }

  /** The first row with this token. */
  function Find(fs: seq<Folder>, t: string): (r: Option<Folder>)
    ensures r.Some? <==> t in Tokens(fs)
    ensures r.Some? ==> r.value in fs && r.value.token == t
  {
    if fs == [] then None
    else if fs[0].token == t then Some(fs[0])
    else
      var rest := Find(fs[1..], t);
      assert forall f :: f in fs <==> f == fs[0] || f in fs[1..];
      assert Tokens(fs) == {fs[0].token} + Tokens(fs[1..]);
      rest
  }

  lemma FindDistinct(fs: seq<Folder>, f: Folder)
    requires DistinctTokens(fs) && f in fs
    ensures Find(fs, f.token) == Some(f)
  {
    var g := Find(fs, f.token).value;
    var i :| 0 <= i < |fs| && fs[i] == f;
    var j :| 0 <= j < |fs| && fs[j] == g;
  }

  lemma SameTokenSameRow(fs: seq<Folder>, f: Folder, g: Folder)
    requires DistinctTokens(fs) && f in fs && g in fs && f.token == g.token
    ensures f == g
  {
    FindDistinct(fs, f);
    FindDistinct(fs, g);
  }

  lemma {:induction false} TokensCount(fs: seq<Folder>)
    ensures |Tokens(fs)| <= |fs|
  {
    if fs != [] {
      var rest := fs[..|fs| - 1];
      TokensCount(rest);
      assert forall f :: f in fs <==> f in rest || f == fs[|fs| - 1];
      assert Tokens(fs) == Tokens(rest) + {fs[|fs| - 1].token};
    }
  }

  // ---------- the order of siblings ----------

  function CompareCreated(a: Option<string>, b: Option<string>): Ordering {
    match (a, b)
    case (Some(x), Some(y)) => CompareText(x, y)
    case (Some(_), None) => Less
    case (None, Some(_)) => Greater
    case (None, None) => Equal
  }

  function SiblingOrder(a: Folder, b: Folder): Ordering {
    Then(CompareInt(a.sortOrder, b.sortOrder),
         Then(CompareCreated(a.createdAt, b.createdAt), CompareText(a.token, b.token)))
  }

  lemma CreatedLaws(a: Option<string>, b: Option<string>, c: Option<string>)
    ensures CompareCreated(a, b) == Equal <==> a == b
    ensures CompareCreated(b, a) == Reverse(CompareCreated(a, b))
    ensures CompareCreated(a, b) == Less && CompareCreated(b, c) == Less ==> CompareCreated(a, c) == Less
  {
    if a.Some? && b.Some? {
      CompareTextEqual(a.value, b.value);
      CompareTextReverse(a.value, b.value);
      if c.Some? && CompareText(a.value, b.value) == Less && CompareText(b.value, c.value) == Less {
        CompareTextTransitive(a.value, b.value, c.value);
      }
    }
  }

  /** Siblings with different tokens are strictly and totally ordered. */
  lemma SiblingOrderIsStrictAndTotal(a: Folder, b: Folder, c: Folder)
    ensures a.token != b.token ==> SiblingOrder(a, b) != Equal
    ensures SiblingOrder(b, a) == Reverse(SiblingOrder(a, b))
    ensures SiblingOrder(a, b) == Less && SiblingOrder(b, c) == Less ==> SiblingOrder(a, c) == Less
  {
    CompareTextEqual(a.token, b.token);
    CompareTextReverse(a.token, b.token);
    CreatedLaws(a.createdAt, b.createdAt, c.createdAt);
    CreatedLaws(b.createdAt, c.createdAt, a.createdAt);
    if CompareText(a.token, b.token) == Less && CompareText(b.token, c.token) == Less {
      CompareTextTransitive(a.token, b.token, c.token);
    }
  }

  ghost predicate InSiblingOrder(list: seq<Folder>) {
    forall i, j :: 0 <= i < j < |list| ==> SiblingOrder(list[i], list[j]) == Less
  }

  function InsertSibling(f: Folder, list: seq<Folder>): (r: seq<Folder>)
    ensures multiset(r) == multiset{f} + multiset(list)
  {
    if list == [] || SiblingOrder(f, list[0]) != Greater then [f] + list
    else
      assert list == [list[0]] + list[1..];
      [list[0]] + InsertSibling(f, list[1..])
  }

  function SortSiblings(list: seq<Folder>): (r: seq<Folder>)
    ensures multiset(r) == multiset(list)
  {
    if list == [] then []
    else
      assert list == [list[0]] + list[1..];
      InsertSibling(list[0], SortSiblings(list[1..]))
  }

  lemma MembersOfPermutation(a: seq<Folder>, b: seq<Folder>)
    requires multiset(a) == multiset(b)
    ensures forall f :: f in a <==> f in b
    ensures |a| == |b|
  {
    forall f ensures f in a <==> f in b {
      assert f in a <==> f in multiset(a);
      assert f in b <==> f in multiset(b);
    }
    assert |a| == |multiset(a)| && |b| == |multiset(b)|;
  }

  ghost predicate Precedes(f: Folder, list: seq<Folder>) {
    forall g :: g in list ==> SiblingOrder(f, g) == Less
  }

  lemma PrecedesFirst(f: Folder, list: seq<Folder>)
    requires InSiblingOrder(list) && list != [] && SiblingOrder(f, list[0]) == Less
    ensures Precedes(f, list)
  {
    forall g | g in list ensures SiblingOrder(f, g) == Less {
      var i :| 0 <= i < |list| && list[i] == g;
      SiblingOrderIsStrictAndTotal(f, list[0], g);
    }
  }

  lemma ConsKeepsOrder(f: Folder, list: seq<Folder>)
    requires InSiblingOrder(list) && Precedes(f, list)
    ensures InSiblingOrder([f] + list)
  {
  }

  lemma {:induction false} InsertKeepsOrder(f: Folder, list: seq<Folder>)
    requires InSiblingOrder(list) && forall g :: g in list ==> g.token != f.token
    ensures InSiblingOrder(InsertSibling(f, list))
  {
    if list != [] {
      SiblingOrderIsStrictAndTotal(f, list[0], f);
      if SiblingOrder(f, list[0]) == Greater {
        InsertKeepsOrder(f, list[1..]);
        var tail := InsertSibling(f, list[1..]);
        MembersOfPermutation(tail, [f] + list[1..]);
        ConsKeepsOrder(list[0], tail);
      } else {
        PrecedesFirst(f, list);
        ConsKeepsOrder(f, list);
      }
    }
  }

  lemma {:induction false} SortOrders(list: seq<Folder>)
    requires DistinctTokens(list)
    ensures InSiblingOrder(SortSiblings(list))
  {
    if list != [] {
      var rest := SortSiblings(list[1..]);
      SortOrders(list[1..]);
      MembersOfPermutation(rest, list[1..]);
      InsertKeepsOrder(list[0], rest);
    }
  }

  lemma FirstIsLeast(list: seq<Folder>, f: Folder)
    requires InSiblingOrder(list) && f in list
    ensures f == list[0] || SiblingOrder(list[0], f) == Less
  {
    var i :| 0 <= i < |list| && list[i] == f;
  }

  lemma SameFirst(a: seq<Folder>, b: seq<Folder>)
    requires InSiblingOrder(a) && InSiblingOrder(b) && a != [] && b != []
    requires a[0] in b && b[0] in a
    ensures a[0] == b[0]
  {
    FirstIsLeast(a, b[0]);
    FirstIsLeast(b, a[0]);
    SiblingOrderIsStrictAndTotal(a[0], b[0], a[0]);
  }

  lemma TailMultiset(a: seq<Folder>)
    requires a != []
    ensures multiset(a[1..]) == multiset(a) - multiset{a[0]}
  {
    assert a == [a[0]] + a[1..];
  }

  /** Two ordered lists of the same rows are the same list. */
  lemma {:induction false} OrderedListUnique(a: seq<Folder>, b: seq<Folder>)
    requires InSiblingOrder(a) && InSiblingOrder(b) && multiset(a) == multiset(b)
    ensures a == b
  {
    MembersOfPermutation(a, b);
    if a != [] {
      SameFirst(a, b);
      TailMultiset(a);
      TailMultiset(b);
      OrderedListUnique(a[1..], b[1..]);
      assert a == [a[0]] + a[1..] && b == [b[0]] + b[1..];
    }
  }

  // ---------- shown names ----------

  const SLASH_SUBSTITUTE: char := '\U{2215}'
  const UNNAMED_FOLDER: string := "Untitled"

  predicate Printable(c: char) {
    !IsControl(c)
  }

  function ReplaceSeparator(s: string): (r: string)
    ensures |r| == |s| && SEPARATOR !in r
  {
    seq(|s|, i requires 0 <= i < |s| => if s[i] == SEPARATOR then SLASH_SUBSTITUTE else s[i])
  }

  function DisplaySegment(name: string): string {
    var trimmed := Trim(ReplaceSeparator(Filter(name, Printable)), IsSpace);
    if trimmed == [] then UNNAMED_FOLDER else trimmed
  }

  /** Fit to be one segment of a path: not empty, free of separators, no blank ends. */
  ghost predicate IsSegment(s: string) {
    s != [] && SEPARATOR !in s && Trimmed(s, IsSpace)
  }

  lemma DisplaySegmentIsSegment(name: string)
    ensures IsSegment(DisplaySegment(name))
  {
    var s := ReplaceSeparator(Filter(name, Printable));
    TrimIsTrimmed(s, IsSpace);
    TrimKeepsCharacters(s, IsSpace);
  }

  /** The `i`-th name tried for a sibling: the plain name, then "name (2)", "name (3)", ... */
  function Candidate(base: string, i: nat): string {
    if i == 0 then base else base + " (" + Decimal(i + 1) + ")"
  }

  lemma CandidateIsSegment(base: string, i: nat)
    requires IsSegment(base)
    ensures IsSegment(Candidate(base, i))
  {
    var c := Candidate(base, i);
    if i > 0 {
      assert c[0] == base[0] && c[|c| - 1] == ')';
    }
  }

  lemma LowerDecimal(n: nat)
    ensures Lower(Decimal(n)) == Decimal(n)
  {
    var d := Decimal(n);
    forall i | 0 <= i < |d| ensures LowerChar(d[i]) == d[i] {
      assert d[i] in d;
    }
  }

  lemma CandidatesDiffer(base: string, i: nat, j: nat)
    requires i != j
    ensures Lower(Candidate(base, i)) != Lower(Candidate(base, j))
  {
    if i == 0 || j == 0 {
      assert |Candidate(base, i)| != |Candidate(base, j)|;
    } else {
      var a, b := Candidate(base, i), Candidate(base, j);
      if Lower(a) == Lower(b) {
        var k := |base| + 2;
        LowerDecimal(i + 1);
        LowerDecimal(j + 1);
        assert a == base + " (" + Decimal(i + 1) + ")" && b == base + " (" + Decimal(j + 1) + ")";
        assert a[k..|a| - 1] == Decimal(i + 1) && b[k..|b| - 1] == Decimal(j + 1);
        assert Lower(a)[k..|a| - 1] == Lower(Decimal(i + 1)) && Lower(b)[k..|b| - 1] == Lower(Decimal(j + 1));
        DecimalInjective(i + 1, j + 1);
      }
    }
  }

  lemma TakenCandidatesFit(base: string, used: set<string>, k: nat)
    requires forall i: nat :: i < k ==> Lower(Candidate(base, i)) in used
    ensures k <= |used|
  {
    var s := seq(k, i requires 0 <= i < k => Lower(Candidate(base, i)));
    forall i, j | 0 <= i < j < |s| ensures s[i] != s[j] {
      CandidatesDiffer(base, i, j);
    }
    DistinctFits(s, used);
  }

  /** The first candidate from the `k`-th on whose lower-case form is free. */
  ghost function FirstFree(base: string, used: set<string>, k: nat): (n: nat)
    requires forall i: nat :: i < k ==> Lower(Candidate(base, i)) in used
    ensures k <= n && Lower(Candidate(base, n)) !in used
    ensures forall i: nat :: i < n ==> Lower(Candidate(base, i)) in used
    decreases |used| + 1 - k
  {
    TakenCandidatesFit(base, used, k);
    if Lower(Candidate(base, k)) in used then FirstFree(base, used, k + 1) else k
  }

  ghost function Unique(base: string, used: set<string>): string {
    Candidate(base, FirstFree(base, used, 0))
  }

  /** The search loop stops at the first free candidate and records it as taken. */
  method UniqueSegment(base: string, used: set<string>) returns (candidate: string, taken: set<string>)
    ensures candidate == Unique(base, used)
    ensures Lower(candidate) !in used && taken == used + {Lower(candidate)}
  {
    candidate := base;
    var n := 2;
    ghost var goal := FirstFree(base, used, 0);
    while Lower(candidate) in used
      invariant 2 <= n && n - 2 <= goal && candidate == Candidate(base, n - 2)
      decreases goal + 2 - n
    {
      candidate := base + " (" + Decimal(n) + ")";
      n := n + 1;
    }
    assert n - 2 == goal;
    taken := used + {Lower(candidate)};
  }

  /** The segments a list of siblings gets, in order. */
  ghost function Segments(list: seq<Folder>, used: set<string>): (r: seq<string>)
    ensures |r| == |list|
  {
    if list == [] then []
    else
      var s := Unique(DisplaySegment(list[0].name), used);
      [s] + Segments(list[1..], used + {Lower(s)})
  }

  lemma UniqueIsFreeSegment(name: string, used: set<string>)
    ensures IsSegment(Unique(DisplaySegment(name), used)) && Lower(Unique(DisplaySegment(name), used)) !in used
  {
    hide DisplaySegment, IsSegment, Candidate, Lower;
    DisplaySegmentIsSegment(name);
    CandidateIsSegment(DisplaySegment(name), FirstFree(DisplaySegment(name), used, 0));
  }

  /** Each sibling gets a well-formed segment that no taken name equals, ignoring case. */
  lemma {:induction false} SegmentIsFree(list: seq<Folder>, used: set<string>, i: nat)
    requires i < |list|
    ensures IsSegment(Segments(list, used)[i]) && Lower(Segments(list, used)[i]) !in used
  {
    hide DisplaySegment, IsSegment, Unique, Lower;
    UniqueIsFreeSegment(list[0].name, used);
    if i > 0 {
      var s := Unique(DisplaySegment(list[0].name), used);
      SegmentIsFree(list[1..], used + {Lower(s)}, i - 1);
      assert Segments(list, used)[i] == Segments(list[1..], used + {Lower(s)})[i - 1];
    }
  }

  /** Two siblings never get the same segment, ignoring case. */
  lemma {:induction false} SegmentsDiffer(list: seq<Folder>, used: set<string>, i: nat, j: nat)
    requires i < j < |list|
    ensures Lower(Segments(list, used)[i]) != Lower(Segments(list, used)[j])
  {
    hide DisplaySegment, IsSegment, Unique, Lower;
    var s := Unique(DisplaySegment(list[0].name), used);
    var rest := Segments(list[1..], used + {Lower(s)});
    assert Segments(list, used) == [s] + rest;
    if i == 0 {
      SegmentIsFree(list[1..], used + {Lower(s)}, j - 1);
    } else {
      SegmentsDiffer(list[1..], used + {Lower(s)}, i - 1, j - 1);
    }
  }

  /** The segments of a whole list of siblings. */
  lemma SegmentsAreDistinct(list: seq<Folder>, used: set<string>)
    ensures forall i :: 0 <= i < |list| ==>
      IsSegment(Segments(list, used)[i]) && Lower(Segments(list, used)[i]) !in used
    ensures forall i, j :: 0 <= i < j < |list| ==> Lower(Segments(list, used)[i]) != Lower(Segments(list, used)[j])
  {
    hide Segments, IsSegment, Lower;
    forall i | 0 <= i < |list| ensures IsSegment(Segments(list, used)[i]) && Lower(Segments(list, used)[i]) !in used {
      SegmentIsFree(list, used, i);
    }
    forall i, j | 0 <= i < j < |list| ensures Lower(Segments(list, used)[i]) != Lower(Segments(list, used)[j]) {
      SegmentsDiffer(list, used, i, j);
    }
  }
}
