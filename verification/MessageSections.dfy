/**
  Recorded sections: their numbers are distinct, their ranges nest as their numbers do, and in
  the full text each range holds exactly the header or body of the child it names.
*/
module MessageSections {
  import opened Text
  import opened Base64Lines
  import opened MessageDoc

  // ---------- section numbers ----------

  /** `s` is the section `base` or a section inside it. */
  ghost predicate Under(s: string, base: string) {
    s == base || (|base| < |s| && s[..|base|] == base && s[|base|] == '.')
  }

  /** The text every child section of `section` starts with, before its number. */
  function SectionStem(section: string): string {
    if section == "" then "" else section + "."
  }

  lemma ChildSectionParts(section: string, number: nat)
    ensures ChildSection(section, number) == SectionStem(section) + Decimal(number)
    ensures section != "" ==> Under(ChildSection(section, number), section) && ChildSection(section, number) != section
  {
  }

  lemma UnderTransitive(s: string, mid: string, base: string)
    requires Under(s, mid) && Under(mid, base)
    ensures Under(s, base)
  {
    if s != mid && mid != base {
      assert s[..|base|] == mid[..|base|];
    }
  }

  lemma ShorterNumberClash(stem: string, a: string, b: string, s: string)
    requires Under(s, stem + a) && Under(s, stem + b) && |a| < |b|
    ensures '.' in b
  {
    var k := |stem| + |a|;
    assert s[k] == '.';
    assert s[..|stem + b|] == stem + b;
    assert b[|a|] == s[k];
  }

  /** Sections inside differently numbered children are different. */
  lemma NumbersSeparate(section: string, i: nat, j: nat, s: string)
    requires i != j && Under(s, ChildSection(section, i))
    ensures !Under(s, ChildSection(section, j))
  {
    var stem := SectionStem(section);
    var a, b := Decimal(i), Decimal(j);
    ChildSectionParts(section, i);
    ChildSectionParts(section, j);
    if Under(s, stem + b) {
      if |a| < |b| { ShorterNumberClash(stem, a, b, s); }
      if |b| < |a| { ShorterNumberClash(stem, b, a, s); }
      if |a| == |b| { SameNumber(stem, a, b, s); DecimalInjective(i, j); }
    }
  }

  lemma SameNumber(stem: string, a: string, b: string, s: string)
    requires Under(s, stem + a) && Under(s, stem + b) && |a| == |b|
    ensures a == b
  {
    assert s[..|stem + a|] == stem + a && s[..|stem + b|] == stem + b;
    assert a == (stem + a)[|stem|..] && b == (stem + b)[|stem|..];
  }

  // ---------- ranges ----------

  ghost predicate Within(p: Part, start: nat, end: nat) {
    start <= p.headerStart <= p.headerEnd == p.bodyStart <= p.bodyEnd <= end
  }

  lemma ChildrenDocLength(m: Mode, t: TextPart, boundary: string, cs: seq<Child>)
    requires cs != []
    ensures DocLen(ChildrenDoc(m, t, boundary, cs))
      == |Opening(boundary)| + DocLen(ChildDoc(m, t, cs[0])) + |CRLF| + DocLen(ChildrenDoc(m, t, boundary, cs[1..]))
  {
    var head, body, rest := [Lit(Opening(boundary))], ChildDoc(m, t, cs[0]), ChildrenDoc(m, t, boundary, cs[1..]);
    assert ChildrenDoc(m, t, boundary, cs) == head + (body + ([Lit(CRLF)] + rest));
    DocLenConcat(head, body + ([Lit(CRLF)] + rest));
    DocLenConcat(body, [Lit(CRLF)] + rest);
    DocLenConcat([Lit(CRLF)], rest);
  }

  lemma RelatedLength(m: Mode, t: TextPart, boundary: string, cs: seq<Child>)
    ensures DocLen(BodyDoc(m, t, Related(boundary, cs)))
      == DocLen(ChildrenDoc(m, t, boundary, cs)) + |Closing(boundary)|
  {
    DocLenConcat(ChildrenDoc(m, t, boundary, cs), [Lit(Closing(boundary))]);
  }

  /** A child's sections lie inside the child's range and carry numbers inside the child's. */
  lemma {:induction false} PartsLieInside(m: Mode, t: TextPart, section: string, start: nat, c: Child, i: nat)
    requires section != "" && i < |PartsOf(m, t, section, start, c)|
    ensures var p := PartsOf(m, t, section, start, c)[i];
      Within(p, start, start + DocLen(ChildDoc(m, t, c))) && Under(p.section, section)
    ensures var ps := PartsOf(m, t, section, start, c); ps[|ps| - 1] == PartAt(m, t, section, start, c)
    ensures i < |PartsOf(m, t, section, start, c)| - 1 ==>
      var p := PartsOf(m, t, section, start, c)[i]; start + |Header(c)| <= p.headerStart && p.section != section
    decreases c, 0
  {
    hide BodyDoc, ChildrenDoc, DocLen, ChildDoc, Header, Under;
    ChildDocLen(m, t, c);
    assert Under(section, section) by { SectionUnderItself(section); }
    if c.Related? && i < |PartsOf(m, t, section, start, c)| - 1 {
      RelatedLength(m, t, c.boundary, c.children);
      ChildrenLieInside(m, t, section, c.boundary, 1, start + |Header(c)|, c.children, i);
    }
  }

  lemma SectionUnderItself(section: string)
    ensures Under(section, section)
  {
  }

  lemma {:induction false} ChildrenLieInside(m: Mode, t: TextPart, section: string, boundary: string, number: nat,
      start: nat, cs: seq<Child>, i: nat)
    requires i < |ChildrenParts(m, t, section, boundary, number, start, cs)|
    ensures var p := ChildrenParts(m, t, section, boundary, number, start, cs)[i];
      && Within(p, start, start + DocLen(ChildrenDoc(m, t, boundary, cs)))
      && (section != "" ==> Under(p.section, section) && p.section != section)
      && exists k: nat :: k >= number && Under(p.section, ChildSection(section, k))
    decreases cs, 0
  {
    hide BodyDoc, ChildrenDoc, DocLen, ChildDoc, Header, Under, PartsOf;
    var at := start + |Opening(boundary)|;
    var name := ChildSection(section, number);
    var first := PartsOf(m, t, name, at, cs[0]);
    ChildrenDocLength(m, t, boundary, cs);
    if i < |first| {
      PartsLieInside(m, t, name, at, cs[0], i);
      InsideChild(first[i].section, section, number);
    } else {
      ChildrenLieInside(m, t, section, boundary, number + 1,
        at + DocLen(ChildDoc(m, t, cs[0])) + |CRLF|, cs[1..], i - |first|);
    }
  }

  lemma InsideChild(s: string, section: string, number: nat)
    requires Under(s, ChildSection(section, number))
    ensures section != "" ==> Under(s, section) && s != section
  {
    ChildSectionParts(section, number);
    if section != "" {
      UnderTransitive(s, ChildSection(section, number), section);
    }
  }

  /** Of two sections, either the first ends before the second starts, or it lies in the second's body. */
  ghost predicate Apart(p: Part, q: Part) {
    p.bodyEnd <= q.headerStart && !Under(p.section, q.section) && !Under(q.section, p.section)
  }

  ghost predicate Inside(p: Part, q: Part) {
    q.headerEnd <= p.headerStart && p.bodyEnd <= q.bodyEnd && Under(p.section, q.section) && p.section != q.section
  }

  lemma {:induction false} PartsNest(m: Mode, t: TextPart, section: string, start: nat, c: Child, i: nat, j: nat)
    requires section != "" && i < j < |PartsOf(m, t, section, start, c)|
    ensures var ps := PartsOf(m, t, section, start, c); Apart(ps[i], ps[j]) || Inside(ps[i], ps[j])
    decreases c, 0
  {
    hide BodyDoc, ChildrenDoc, DocLen, ChildDoc, Header, Under;
    var ps := PartsOf(m, t, section, start, c);
    if j == |ps| - 1 {
      PartsLieInside(m, t, section, start, c, i);
      PartsLieInside(m, t, section, start, c, j);
      ChildDocLen(m, t, c);
    } else {
      ChildrenNest(m, t, section, c.boundary, 1, start + |Header(c)|, c.children, i, j);
    }
  }

  /** Sections of different children are apart. */
  lemma NumberedApart(section: string, number: nat, k: nat, p: string, q: string)
    requires number < k && Under(p, ChildSection(section, number)) && Under(q, ChildSection(section, k))
    ensures !Under(p, q) && !Under(q, p)
  {
    if Under(p, q) {
      UnderTransitive(p, q, ChildSection(section, k));
      NumbersSeparate(section, k, number, p);
    }
    if Under(q, p) {
      UnderTransitive(q, p, ChildSection(section, number));
      NumbersSeparate(section, number, k, q);
    }
  }

  /** The sections of a list of children nest exactly as their numbers do, in every mode. */
  lemma {:induction false} ChildrenNest(m: Mode, t: TextPart, section: string, boundary: string, number: nat,
      start: nat, cs: seq<Child>, i: nat, j: nat)
    requires i < j < |ChildrenParts(m, t, section, boundary, number, start, cs)|
    ensures var ps := ChildrenParts(m, t, section, boundary, number, start, cs);
            Apart(ps[i], ps[j]) || Inside(ps[i], ps[j])
    decreases cs, 0
  {
    hide BodyDoc, ChildrenDoc, DocLen, ChildDoc, Header, Under, PartsOf, ChildSection, Apart, Inside, Within;
    var at := start + |Opening(boundary)|;
    var name := ChildSection(section, number);
    var first := PartsOf(m, t, name, at, cs[0]);
    var next := at + DocLen(ChildDoc(m, t, cs[0])) + |CRLF|;
    var rest := ChildrenParts(m, t, section, boundary, number + 1, next, cs[1..]);
    NameNotEmpty(section, number);
    if j < |first| {
      PartsNest(m, t, name, at, cs[0], i, j);
    } else if i >= |first| {
      ChildrenNest(m, t, section, boundary, number + 1, next, cs[1..], i - |first|, j - |first|);
    } else {
      PartsLieInside(m, t, name, at, cs[0], i);
      ChildrenLieInside(m, t, section, boundary, number + 1, next, cs[1..], j - |first|);
      var p, q := first[i], rest[j - |first|];
      var k: nat :| k >= number + 1 && Under(q.section, ChildSection(section, k));
      NumberedApart(section, number, k, p.section, q.section);
      ApartByRange(p, q, at, at + DocLen(ChildDoc(m, t, cs[0])),
        next, next + DocLen(ChildrenDoc(m, t, boundary, cs[1..])));
    }
  }

  lemma NameNotEmpty(section: string, number: nat)
    ensures ChildSection(section, number) != ""
  {
  }

  lemma ApartByRange(p: Part, q: Part, a: nat, b: nat, c: nat, d: nat)
    requires Within(p, a, b) && Within(q, c, d) && b <= c
    requires !Under(p.section, q.section) && !Under(q.section, p.section)
    ensures Apart(p, q)
  {
  }

  /** No section number is recorded twice. */
  lemma SectionsAreUnique(m: Mode, t: TextPart, section: string, boundary: string, start: nat, cs: seq<Child>, i: nat,
      j: nat)
    requires i < j < |ChildrenParts(m, t, section, boundary, 1, start, cs)|
    ensures var ps := ChildrenParts(m, t, section, boundary, 1, start, cs); ps[i].section != ps[j].section
  {
    hide ChildrenParts;
    ChildrenNest(m, t, section, boundary, 1, start, cs, i, j);
  }

  // ---------- the full text ----------

  /** The body of a child as a plain recursive printer writes it. */
  function PrintBody(t: TextPart, c: Child): string
    requires t.body.Some?
    decreases c, 0
  {
    match c
    case Text(_) => WrittenText(t)
    case Attached(a, _) => Body(a.data)
    case Related(b, cs) => PrintChildren(t, b, cs) + Closing(b)
  }

  function PrintChildren(t: TextPart, boundary: string, cs: seq<Child>): string
    requires t.body.Some?
    decreases cs, 0
  {
    if cs == [] then ""
    else Opening(boundary) + (Header(cs[0]) + PrintBody(t, cs[0])) + CRLF + PrintChildren(t, boundary, cs[1..])
  }

  /** The child a section number such as "1.2" stands for. */
  function Locate(cs: seq<Child>, path: seq<nat>): Option<Child>
    requires path != []
    decreases |path|
  {
    if !(1 <= path[0] <= |cs|) then None
    else if |path| == 1 then Some(cs[path[0] - 1])
    else if cs[path[0] - 1].Related? then Locate(cs[path[0] - 1].children, path[1..])
    else None
  }

  function SectionName(prefix: string, path: seq<nat>): string
    decreases |path|
  {
    if path == [] then prefix else SectionName(ChildSection(prefix, path[0]), path[1..])
  }

  lemma {:induction false} FullLength(t: TextPart, c: Child)
    requires t.body.Some?
    ensures DocLen(BodyDoc(FULL, t, c)) == |PrintBody(t, c)|
    ensures DocLen(ChildDoc(FULL, t, c)) == |Header(c)| + |PrintBody(t, c)|
    decreases c, 0
  {
    hide Body, Header;
    ChildDocLen(FULL, t, c);
    match c
    case Text(_) =>
      DocLenConcat([TextDoc(t)[0]], [TextDoc(t)[1]]);
      assert TextDoc(t) == [TextDoc(t)[0]] + [TextDoc(t)[1]];
    case Attached(_, _) =>
    case Related(b, cs) =>
      RelatedLength(FULL, t, b, cs);
      FullChildrenLength(t, b, cs);
  }

  lemma {:induction false} FullChildrenLength(t: TextPart, boundary: string, cs: seq<Child>)
    requires t.body.Some?
    ensures DocLen(ChildrenDoc(FULL, t, boundary, cs)) == |PrintChildren(t, boundary, cs)|
    decreases cs, 0
  {
    if cs != [] {
      ChildrenDocLength(FULL, t, boundary, cs);
      FullLength(t, cs[0]);
      FullChildrenLength(t, boundary, cs[1..]);
    }
  }

  /** The range of a section holds the header and the body of the child it names. */
  ghost predicate Holds(whole: string, t: TextPart, p: Part, c: Child)
    requires t.body.Some?
  {
    && p.headerStart <= p.headerEnd == p.bodyStart <= p.bodyEnd <= |whole|
    && whole[p.headerStart..p.headerEnd] == Header(c)
    && whole[p.bodyStart..p.bodyEnd] == PrintBody(t, c)
  }

  ghost predicate StandsAt(whole: string, start: nat, piece: string) {
    start + |piece| <= |whole| && whole[start..start + |piece|] == piece
  }

  lemma PieceStands(whole: string, start: nat, a: string, b: string)
    requires StandsAt(whole, start, a + b)
    ensures StandsAt(whole, start, a) && StandsAt(whole, start + |a|, b)
  {
    var s := whole[start..start + |a + b|];
    assert whole[start..start + |a|] == s[..|a|];
    assert whole[start + |a|..start + |a| + |b|] == s[|a|..];
  }

  /**
    In the full text, the range recorded under a section number is that of the child with that
    number, at any depth.
  */
  lemma {:induction false} SectionHoldsChild(whole: string, t: TextPart, section: string, boundary: string,
      number: nat, start: nat,
                                             cs: seq<Child>, path: seq<nat>) returns (p: Part)
    requires t.body.Some? && StandsAt(whole, start, PrintChildren(t, boundary, cs))
    requires path != [] && path[0] >= number
    requires Locate(cs, [path[0] - number + 1] + path[1..]).Some?
    ensures p in ChildrenParts(FULL, t, section, boundary, number, start, cs)
    ensures p.section == SectionName(section, path)
    ensures Holds(whole, t, p, Locate(cs, [path[0] - number + 1] + path[1..]).value)
    decreases |path|, |cs|
  {
    hide PrintBody, Header, BodyDoc, ChildDoc, Holds, ChildSection;
    var at := start + |Opening(boundary)|;
    var c := cs[0];
    var local := [path[0] - number + 1] + path[1..];
    assert local[1..] == path[1..];
    FullLength(t, c);
    FirstChildStands(whole, t, boundary, start, cs);
    hide StandsAt, Opening;
    var name := ChildSection(section, number);
    if path[0] > number {
      var next := at + DocLen(ChildDoc(FULL, t, c)) + |CRLF|;
      var shifted := [path[0] - (number + 1) + 1] + path[1..];
      assert shifted[1..] == path[1..];
      LocateShift(cs, local, shifted);
      p := SectionHoldsChild(whole, t, section, boundary, number + 1, next, cs[1..], path);
    } else if |path| == 1 {
      p := PartAt(FULL, t, name, at, c);
      HeldAt(whole, t, name, at, c);
      OwnPartRecorded(FULL, t, name, at, c);
      assert path[1..] == [];
    } else {
      p := SectionInsideRelated(whole, t, name, at, c, path[1..]);
    }
  }

  /** Where the first child's header and body, and the rest of the list, stand. */
  lemma FirstChildStands(whole: string, t: TextPart, boundary: string, start: nat, cs: seq<Child>)
    requires t.body.Some? && cs != [] && StandsAt(whole, start, PrintChildren(t, boundary, cs))
    ensures var at := start + |Opening(boundary)|;
            && StandsAt(whole, at, Header(cs[0]) + PrintBody(t, cs[0]))
            && StandsAt(whole, at, Header(cs[0]))
            && StandsAt(whole, at + |Header(cs[0])|, PrintBody(t, cs[0]))
            && StandsAt(whole, at + |Header(cs[0])| + |PrintBody(t, cs[0])| + |CRLF|,
                        PrintChildren(t, boundary, cs[1..]))
  {
    hide PrintBody, Header, StandsAt, Opening;
    var c := cs[0];
    var at := start + |Opening(boundary)|;
    var child := Header(c) + PrintBody(t, c);
    var after := CRLF + PrintChildren(t, boundary, cs[1..]);
    assert PrintChildren(t, boundary, cs) == Opening(boundary) + (child + after);
    hide PrintChildren;
    PieceStands(whole, start, Opening(boundary), child + after);
    PieceStands(whole, at, child, after);
    PieceStands(whole, at + |child|, CRLF, PrintChildren(t, boundary, cs[1..]));
    PieceStands(whole, at, Header(c), PrintBody(t, c));
  }

  lemma LocateShift(cs: seq<Child>, local: seq<nat>, shifted: seq<nat>)
    requires local != [] && shifted != [] && local[0] == shifted[0] + 1 && local[1..] == shifted[1..] && shifted[0] >= 1
    requires cs != []
    ensures Locate(cs, local) == Locate(cs[1..], shifted)
  {
  }

  lemma OwnPartRecorded(m: Mode, t: TextPart, section: string, start: nat, c: Child)
    ensures PartAt(m, t, section, start, c) in PartsOf(m, t, section, start, c)
  {
  }

  lemma HeldAt(whole: string, t: TextPart, section: string, start: nat, c: Child)
    requires t.body.Some? && StandsAt(whole, start, Header(c)) && StandsAt(whole, start + |Header(c)|, PrintBody(t, c))
    ensures Holds(whole, t, PartAt(FULL, t, section, start, c), c)
  {
    hide Header, PrintBody;
    FullLength(t, c);
  }

  lemma SectionInsideRelated(whole: string, t: TextPart, name: string, at: nat, c: Child, path: seq<nat>)
    returns (p: Part)
    requires t.body.Some? && path != [] && c.Related? && Locate(c.children, path).Some?
    requires StandsAt(whole, at + |Header(c)|, PrintBody(t, c))
    ensures p in PartsOf(FULL, t, name, at, c) && p.section == SectionName(name, path)
    ensures Holds(whole, t, p, Locate(c.children, path).value)
    decreases |path|, |c.children| + 1
  {
    hide Header, Holds, ChildrenParts, ChildSection;
    assert [path[0] - 1 + 1] + path[1..] == path;
    PieceStands(whole, at + |Header(c)|, PrintChildren(t, c.boundary, c.children), Closing(c.boundary));
    p := SectionHoldsChild(whole, t, name, c.boundary, 1, at + |Header(c)|, c.children, path);
  }
}
