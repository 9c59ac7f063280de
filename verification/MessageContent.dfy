/**
  What a full rendering contains, in the message's own terms: every attachment once, under its own
  section and with its own header and bytes, and one text with its notes.
*/
module MessageContent {
  import opened Text
  import opened Base64Lines
  import opened MessageDoc
  import opened MessageRender
  import opened MessageSections
  import opened MessageAgreement
  import opened MessageQueries

  // ---------- the kind of the text ----------

  predicate StandsIn(s: string, sub: string, i: nat) {
    i + |sub| <= |s| && s[i..i + |sub|] == sub
  }

  ghost predicate Occurs(s: string, sub: string) {
    exists i: nat :: StandsIn(s, sub, i)
  }

  lemma StandsInTail(s: string, sub: string, i: nat)
    requires s != []
    ensures StandsIn(s[1..], sub, i) <==> StandsIn(s, sub, i + 1)
  {
    if i + 1 + |sub| <= |s| { assert s[1..][i..i + |sub|] == s[i + 1..i + 1 + |sub|]; }
  }

  lemma {:induction false} ContainsIff(s: string, sub: string)
    ensures Contains(s, sub) <==> Occurs(s, sub)
  {
    hide StandsIn;
    AtTheStart(s, sub);
    if s != [] {
      var t := s[1..];
      ContainsIff(t, sub);
      if i: nat :| StandsIn(t, sub, i) {
        StandsInTail(s, sub, i);
        Fits(s, sub, i + 1);
      }
      if i: nat :| StandsIn(s, sub, i) {
        Fits(s, sub, i);
        if i > 0 { StandsInTail(s, sub, i - 1); }
      }
    }
  }

  lemma AtTheStart(s: string, sub: string)
    ensures StandsIn(s, sub, 0) <==> |sub| <= |s| && s[..|sub|] == sub
    ensures s == [] ==> forall i: nat :: StandsIn(s, sub, i) ==> i == 0
  {
  }

  lemma Fits(s: string, sub: string, i: nat)
    requires StandsIn(s, sub, i)
    ensures |sub| <= |s|
  {
  }

  /** The stored flag, or else one of these texts in the body. */
  ghost predicate IsHtml(msg: Message) {
    match msg.metaIsHtml
    case Some(flag) => flag
    case None =>
      msg.body.Some?
      && exists m :: m in {"</", "<html", "<body", "<div", "<p ", "<!DOCTYPE"} && Occurs(msg.body.value, m)
  }

  lemma DetectHtmlIff(msg: Message)
    ensures DetectHtml(msg) <==> IsHtml(msg)
  {
    hide Contains, Occurs;
    var body := BodyOr(msg.body);
    ContainsIff(body, "</");
    ContainsIff(body, "<html");
    ContainsIff(body, "<body");
    ContainsIff(body, "<div");
    ContainsIff(body, "<p ");
    ContainsIff(body, "<!DOCTYPE");
    if msg.body.None? { EmptyBodyIsPlain(); }
  }

  /** Shown inside an HTML text: flagged, and with a content identifier that is not blank. */
  ghost predicate IsInline(msg: Message, a: Attachment) {
    IsHtml(msg) && a.isInline && a.contentId.Some? && exists c :: c in a.contentId.value && !IsSpace(c)
  }

  lemma TrimBlankIff(s: string)
    ensures Trim(s, IsSpace) != [] <==> exists c :: c in s && !IsSpace(c)
  {
    var a := TrimStartSplits(s, IsSpace);
    var b := TrimEndSplits(s[a..], IsSpace);
    assert a < |s| ==> s[a..][0] == s[a];
    if b > 0 { assert s[a..][b - 1] == s[a + b - 1]; }
  }

  lemma ShownInlineIff(msg: Message, a: Attachment)
    ensures ShownInline(a, DetectHtml(msg)) <==> IsInline(msg, a)
  {
    hide DetectHtml, IsHtml, Trim;
    DetectHtmlIff(msg);
    if a.contentId.Some? { TrimBlankIff(a.contentId.value); }
  }

  // ---------- where the attachments go ----------

  /** How many of the first `n` attachments are shown inline, or are not. */
  ghost function CountKind(msg: Message, atts: seq<Attachment>, n: nat, inline: bool): nat
    requires n <= |atts|
  {
    if n == 0 then 0
    else CountKind(msg, atts, n - 1, inline) + if IsInline(msg, atts[n - 1]) == inline then 1 else 0
  }

  lemma SelectSnoc(msg: Message, atts: seq<Attachment>, n: nat, inline: bool)
    requires 0 < n <= |atts|
    ensures Select(atts[..n], DetectHtml(msg), inline) == Select(atts[..n - 1], DetectHtml(msg), inline)
      + if IsInline(msg, atts[n - 1]) == inline then [atts[n - 1]] else []
  {
    hide ShownInline, DetectHtml, IsInline;
    ShownInlineIff(msg, atts[n - 1]);
    assert atts[..n][..n - 1] == atts[..n - 1];
  }

  lemma {:induction false} SelectCount(msg: Message, atts: seq<Attachment>, n: nat, inline: bool)
    requires n <= |atts|
    ensures |Select(atts[..n], DetectHtml(msg), inline)| == CountKind(msg, atts, n, inline)
  {
    if n > 0 {
      hide Select, DetectHtml, IsInline;
      SelectCount(msg, atts, n - 1, inline);
      SelectSnoc(msg, atts, n, inline);
    }
  }

  /** An attachment stands among those of its kind where the number of those before it says. */
  lemma {:induction false} SelectAt(msg: Message, atts: seq<Attachment>, n: nat, i: nat)
    requires i < n <= |atts|
    ensures var inline := IsInline(msg, atts[i]);
      var s, k := Select(atts[..n], DetectHtml(msg), inline), CountKind(msg, atts, i, inline);
      k < |s| && s[k] == atts[i]
  {
    hide Select, DetectHtml, IsInline, CountKind;
    var inline := IsInline(msg, atts[i]);
    SelectSnoc(msg, atts, n, inline);
    if i < n - 1 {
      SelectAt(msg, atts, n - 1, i);
    } else {
      SelectCount(msg, atts, i, inline);
    }
  }

  lemma {:induction false} AttachAllAt(atts: seq<Attachment>, inline: bool)
    ensures |AttachAll(atts, inline)| == |atts|
    ensures forall k :: 0 <= k < |atts| ==> AttachAll(atts, inline)[k] == Attached(atts[k], inline)
  {
    if atts != [] { AttachAllAt(atts[1..], inline); }
  }

  ghost predicate SomeAre(msg: Message, atts: seq<Attachment>, inline: bool) {
    exists i :: 0 <= i < |atts| && IsInline(msg, atts[i]) == inline
  }

  lemma {:induction false} CountIsZeroIff(msg: Message, atts: seq<Attachment>, n: nat, inline: bool)
    requires n <= |atts|
    ensures CountKind(msg, atts, n, inline) == 0 <==> forall i :: 0 <= i < n ==> IsInline(msg, atts[i]) != inline
  {
    hide IsInline;
    if n > 0 { CountIsZeroIff(msg, atts, n - 1, inline); }
  }

  /** Inline and regular attachments together: the inline ones go with the text into an inner multipart. */
  ghost predicate Nested(msg: Message, atts: seq<Attachment>) {
    SomeAre(msg, atts, true) && SomeAre(msg, atts, false)
  }

  /** The section number of an attachment: after the text, among those of its kind. */
  ghost function PathTo(msg: Message, atts: seq<Attachment>, i: nat): (p: seq<nat>)
    requires i < |atts|
    ensures 1 <= |p| <= 2
  {
    var inline := IsInline(msg, atts[i]);
    var number := 2 + CountKind(msg, atts, i, inline);
    if Nested(msg, atts) && inline then [1, number] else [number]
  }

  ghost function TextPath(msg: Message, atts: seq<Attachment>): (p: seq<nat>)
    ensures 1 <= |p| <= 2
  {
    if Nested(msg, atts) then [1, 1] else [1]
  }

  /** The section number as a client writes it. */
  ghost function SectionText(path: seq<nat>): string
    requires 1 <= |path| <= 2
  {
    if |path| == 1 then Decimal(path[0]) else Decimal(path[0]) + "." + Decimal(path[1])
  }

  lemma SectionTextIs(path: seq<nat>)
    requires 1 <= |path| <= 2
    ensures SectionName("", path) == SectionText(path)
  {
    hide Decimal;
    if |path| == 2 {
      var one := ChildSection("", path[0]);
      assert path[1..][0] == path[1] && path[1..][1..] == [];
      assert SectionName("", path) == SectionName(one, path[1..]);
      assert SectionName(one, path[1..]) == SectionName(ChildSection(one, path[1]), []);
    } else {
      assert path[1..] == [];
    }
  }

  /** How the parts are arranged. */
  lemma ArrangementIs(msg: Message, atts: seq<Attachment>)
    requires atts != []
    ensures var html := DetectHtml(msg);
      var inl, reg := Select(atts, html, true), Select(atts, html, false);
      var text := Text(TextHeader(html));
      && (inl == [] <==> !SomeAre(msg, atts, true)) && (reg == [] <==> !SomeAre(msg, atts, false))
      && ArrangementOf(msg, atts).children ==
           if Nested(msg, atts)
           then [Related(msg.innerBoundary, [text] + AttachAll(inl, true))] + AttachAll(reg, false)
           else [text] + if SomeAre(msg, atts, true) then AttachAll(inl, true) else AttachAll(reg, false)
  {
    hide Select, AttachAll, IsInline, DetectHtml, CountKind;
    assert atts[..|atts|] == atts;
    SelectCount(msg, atts, |atts|, true);
    SelectCount(msg, atts, |atts|, false);
    CountIsZeroIff(msg, atts, |atts|, true);
    CountIsZeroIff(msg, atts, |atts|, false);
    assert SomeAre(msg, atts, IsInline(msg, atts[0]));
  }

  lemma LocateAmong(head: Child, tail: seq<Child>, k: nat)
    requires k < |tail|
    ensures Locate([head] + tail, [2 + k]) == Some(tail[k])
  {
    assert ([head] + tail)[k + 1] == tail[k];
  }

  lemma LocateInside(head: Child, tail: seq<Child>, k: nat)
    requires head.Related? && k < |head.children|
    ensures Locate([head] + tail, [1, 1 + k]) == Some(head.children[k])
  {
    assert [1, 1 + k][1..] == [1 + k];
  }

  /** The attachments of one kind, as children, have the `i`-th where the number of those before it says. */
  lemma AttachedAt(msg: Message, atts: seq<Attachment>, i: nat)
    requires i < |atts|
    ensures var inline := IsInline(msg, atts[i]);
      var same, k := AttachAll(Select(atts, DetectHtml(msg), inline), inline), CountKind(msg, atts, i, inline);
      k < |same| && same[k] == Attached(atts[i], inline)
  {
    hide Select, AttachAll, IsInline, DetectHtml, CountKind;
    assert atts[..|atts|] == atts;
    SelectAt(msg, atts, |atts|, i);
    AttachAllAt(Select(atts, DetectHtml(msg), IsInline(msg, atts[i])), IsInline(msg, atts[i]));
  }

  /** Each attachment is the child that its section number stands for. */
  lemma LocateAttachment(msg: Message, atts: seq<Attachment>, i: nat)
    requires i < |atts|
    ensures Locate(ArrangementOf(msg, atts).children, PathTo(msg, atts, i))
         == Some(Attached(atts[i], IsInline(msg, atts[i])))
  {
    hide Select, AttachAll, IsInline, DetectHtml, CountKind, ArrangementOf, Locate;
    var inline, html := IsInline(msg, atts[i]), DetectHtml(msg);
    var k := CountKind(msg, atts, i, inline);
    ArrangementIs(msg, atts);
    assert SomeAre(msg, atts, inline);
    AttachedAt(msg, atts, i);
    var text := Text(TextHeader(html));
    var inl, reg := AttachAll(Select(atts, html, true), true), AttachAll(Select(atts, html, false), false);
    hide SomeAre, TextHeader;
    if Nested(msg, atts) && inline {
      LocateInside(Related(msg.innerBoundary, [text] + inl), reg, k + 1);
    } else if Nested(msg, atts) {
      LocateAmong(Related(msg.innerBoundary, [text] + inl), reg, k);
    } else {
      LocateAmong(text, if inline then inl else reg, k);
    }
  }

  lemma LocateText(msg: Message, atts: seq<Attachment>)
    requires atts != []
    ensures Locate(ArrangementOf(msg, atts).children, TextPath(msg, atts)) == Some(Text(TextHeader(DetectHtml(msg))))
  {
    hide Select, AttachAll, IsInline, DetectHtml, CountKind, ArrangementOf;
    ArrangementIs(msg, atts);
  }

  // ---------- attachments are there, each once ----------

  ghost function AttachmentLines(a: Attachment, inline: bool): string {
    "Content-Type: " + a.texts.contentType + "; " + a.texts.nameParam + "\r\n"
    + "Content-Transfer-Encoding: base64" + "\r\n"
    + "Content-Disposition: " + (if inline then "inline" else "attachment") + "; " + a.texts.filenameParams
    + "; size=" + Decimal(if a.data != [] then |a.data| else if a.size > 0 then a.size else 0) + "\r\n"
    + a.texts.contentIdLine + "\r\n"
  }

  lemma AttachmentHeaderIs(a: Attachment, inline: bool)
    ensures Header(Attached(a, inline)) == AttachmentLines(a, inline)
  {
    hide Decimal;
  }

  /**
    Every attachment is in the full rendering, under the number of its place among those of its kind,
    with its own header, its disposition and its own bytes.
  */
  lemma AttachmentIsThere(msg: Message, atts: seq<Attachment>, i: nat)
    requires i < |atts|
    ensures var r, section := RenderedOf(msg, atts, FULL), SectionText(PathTo(msg, atts, i));
      && r.PartHeader(section) == Some(AttachmentLines(atts[i], IsInline(msg, atts[i])))
      && r.PartBody(section) == Some(Body(atts[i].data))
      && Decode(Unwrap(r.PartBody(section).value)) == atts[i].data
  {
    hide RenderedOf, Locate, ArrangementOf, PathTo, SectionText, IsInline, Body, AttachmentLines, SectionName,
      TextPartOf, Header, Decode, Unwrap;
    LocateAttachment(msg, atts, i);
    SectionLookup(msg, atts, PathTo(msg, atts, i));
    SectionTextIs(PathTo(msg, atts, i));
    AttachmentHeaderIs(atts[i], IsInline(msg, atts[i]));
    BodyPresent(msg);
    AttachedBody(TextPartOf(msg, FULL), atts[i], IsInline(msg, atts[i]));
    BodyDecodes(atts[i].data);
  }

  lemma AttachedBody(t: TextPart, a: Attachment, inline: bool)
    requires t.body.Some?
    ensures PrintBody(t, Attached(a, inline)) == Body(a.data)
  {
  }

  // ---------- order and number ----------

  /** Where the `k`-th of a list of children begins. */
  ghost function StartOf(m: Mode, t: TextPart, boundary: string, start: nat, cs: seq<Child>, k: nat): nat
    requires k < |cs|
  {
    if k == 0 then start + |Opening(boundary)|
    else StartOf(m, t, boundary, start, cs, k - 1) + DocLen(ChildDoc(m, t, cs[k - 1])) + |CRLF| + |Opening(boundary)|
  }

  lemma {:induction false} StartOfTail(m: Mode, t: TextPart, boundary: string, start: nat, cs: seq<Child>, k: nat)
    requires 0 < k < |cs|
    ensures StartOf(m, t, boundary, start, cs, k) ==
      StartOf(m, t, boundary, start + |Opening(boundary)| + DocLen(ChildDoc(m, t, cs[0])) + |CRLF|, cs[1..], k - 1)
  {
    hide DocLen, ChildDoc, Opening;
    if k > 1 { StartOfTail(m, t, boundary, start, cs, k - 1); }
  }

  lemma {:induction false} StartsIncrease(m: Mode, t: TextPart, boundary: string, start: nat, cs: seq<Child>, j: nat,
      k: nat)
    requires j < k < |cs|
    ensures StartOf(m, t, boundary, start, cs, j) + DocLen(ChildDoc(m, t, cs[j])) <=
      StartOf(m, t, boundary, start, cs, k)
  {
    hide DocLen, ChildDoc, Opening;
    if j < k - 1 { StartsIncrease(m, t, boundary, start, cs, j, k - 1); }
  }

  /** The sections recorded for the `k`-th child are among those of the list. */
  lemma {:induction false} PartsOfChild(m: Mode, t: TextPart, section: string, boundary: string, number: nat,
      start: nat, cs: seq<Child>, k: nat, p: Part)
    requires k < |cs|
    requires p in PartsOf(m, t, ChildSection(section, number + k), StartOf(m, t, boundary, start, cs, k), cs[k])
    ensures p in ChildrenParts(m, t, section, boundary, number, start, cs)
    decreases k
  {
    hide DocLen, ChildDoc, Opening, PartsOf, ChildSection;
    if k > 0 {
      StartOfTail(m, t, boundary, start, cs, k);
      PartsOfChild(m, t, section, boundary, number + 1,
        start + |Opening(boundary)| + DocLen(ChildDoc(m, t, cs[0])) + |CRLF|, cs[1..], k - 1, p);
    }
  }

  /** A path of one or two numbers that leads to a child. */
  predicate PathFits(cs: seq<Child>, path: seq<nat>) {
    && 1 <= |path| <= 2 && 1 <= path[0] <= |cs|
    && (|path| == 2 ==> cs[path[0] - 1].Related? && 1 <= path[1] <= |cs[path[0] - 1].children|)
  }

  lemma LocatedFits(cs: seq<Child>, path: seq<nat>)
    requires 1 <= |path| <= 2 && Locate(cs, path).Some?
    ensures PathFits(cs, path)
  {
    if |path| == 2 { assert path[1..] == [path[1]]; }
  }

  /** The section recorded at a path of one or two numbers. */
  ghost function PartAtPath(m: Mode, t: TextPart, boundary: string, start: nat, cs: seq<Child>, path: seq<nat>): Part
    requires PathFits(cs, path)
  {
    var k := path[0] - 1;
    var at := StartOf(m, t, boundary, start, cs, k);
    if |path| == 1 then PartAt(m, t, Decimal(path[0]), at, cs[k])
    else
      var c := cs[k];
      PartAt(m, t, Decimal(path[0]) + "." + Decimal(path[1]),
             StartOf(m, t, c.boundary, at + |Header(c)|, c.children, path[1] - 1), c.children[path[1] - 1])
  }

  lemma PartAtPathIsRecorded(m: Mode, t: TextPart, boundary: string, start: nat, cs: seq<Child>, path: seq<nat>)
    requires PathFits(cs, path)
    ensures PartAtPath(m, t, boundary, start, cs, path) in ChildrenParts(m, t, "", boundary, 1, start, cs)
    ensures PartAtPath(m, t, boundary, start, cs, path).section == SectionText(path)
  {
    hide DocLen, ChildDoc, Opening, ChildrenParts, Header, BodyDoc, Decimal;
    var k := path[0] - 1;
    var at, c := StartOf(m, t, boundary, start, cs, k), cs[k];
    var p := PartAtPath(m, t, boundary, start, cs, path);
    if |path| == 1 {
      OwnPartRecorded(m, t, Decimal(path[0]), at, c);
    } else {
      var inner, j := at + |Header(c)|, path[1] - 1;
      OwnPartRecorded(m, t, Decimal(path[0]) + "." + Decimal(path[1]), StartOf(m, t, c.boundary, inner, c.children, j),
        c.children[j]);
      PartsOfChild(m, t, Decimal(path[0]), c.boundary, 1, inner, c.children, j, p);
    }
    PartsOfChild(m, t, "", boundary, 1, start, cs, k, p);
  }

  /** One path comes before another without leading into it. */
  predicate PathBefore(p: seq<nat>, q: seq<nat>)
    requires 1 <= |p| <= 2 && 1 <= |q| <= 2
  {
    p[0] < q[0] || (p[0] == q[0] && |p| == 2 && |q| == 2 && p[1] < q[1])
  }

  lemma PathPartInside(m: Mode, t: TextPart, boundary: string, start: nat, cs: seq<Child>, path: seq<nat>)
    requires PathFits(cs, path)
    ensures var p, at := PartAtPath(m, t, boundary, start, cs, path), StartOf(m, t, boundary, start, cs, path[0] - 1);
            at <= p.headerStart <= p.bodyEnd <= at + DocLen(ChildDoc(m, t, cs[path[0] - 1]))
  {
    hide DocLen, ChildDoc, Opening, ChildrenParts, Header, BodyDoc, Decimal;
    var k := path[0] - 1;
    var at, c := StartOf(m, t, boundary, start, cs, k), cs[k];
    ChildDocLen(m, t, c);
    if |path| == 2 {
      var inner, j := at + |Header(c)|, path[1] - 1;
      var p := PartAtPath(m, t, boundary, start, cs, path);
      OwnPartRecorded(m, t, p.section, p.headerStart, c.children[j]);
      PartsOfChild(m, t, Decimal(path[0]), c.boundary, 1, inner, c.children, j, p);
      var ps := ChildrenParts(m, t, Decimal(path[0]), c.boundary, 1, inner, c.children);
      var i :| 0 <= i < |ps| && ps[i] == p;
      ChildrenLieInside(m, t, Decimal(path[0]), c.boundary, 1, inner, c.children, i);
      RelatedLength(m, t, c.boundary, c.children);
    }
  }

  lemma InnerOrder(m: Mode, t: TextPart, boundary: string, start: nat, cs: seq<Child>, p: seq<nat>, q: seq<nat>)
    requires PathFits(cs, p) && PathFits(cs, q) && |p| == |q| == 2 && p[0] == q[0] && p[1] < q[1]
    ensures PartAtPath(m, t, boundary, start, cs, p).bodyEnd <= PartAtPath(m, t, boundary, start, cs, q).headerStart
  {
    hide DocLen, ChildDoc, Opening, Header, BodyDoc, Decimal, StartOf;
    var c := cs[p[0] - 1];
    var inner := StartOf(m, t, boundary, start, cs, p[0] - 1) + |Header(c)|;
    StartsIncrease(m, t, c.boundary, inner, c.children, p[1] - 1, q[1] - 1);
    ChildDocLen(m, t, c.children[p[1] - 1]);
  }

  /** Sections stand in the order of their numbers. */
  lemma PathOrder(m: Mode, t: TextPart, boundary: string, start: nat, cs: seq<Child>, p: seq<nat>, q: seq<nat>)
    requires PathFits(cs, p) && PathFits(cs, q) && PathBefore(p, q)
    ensures PartAtPath(m, t, boundary, start, cs, p).bodyEnd <= PartAtPath(m, t, boundary, start, cs, q).headerStart
  {
    hide DocLen, ChildDoc, StartOf, PartAtPath;
    if p[0] < q[0] {
      PathPartInside(m, t, boundary, start, cs, p);
      PathPartInside(m, t, boundary, start, cs, q);
      StartsIncrease(m, t, boundary, start, cs, p[0] - 1, q[0] - 1);
    } else {
      InnerOrder(m, t, boundary, start, cs, p, q);
    }
  }

  lemma {:induction false} CountGrows(msg: Message, atts: seq<Attachment>, i: nat, j: nat, inline: bool)
    requires i < j <= |atts| && IsInline(msg, atts[i]) == inline
    ensures CountKind(msg, atts, i, inline) < CountKind(msg, atts, j, inline)
  {
    hide IsInline;
    if i < j - 1 { CountGrows(msg, atts, i, j - 1, inline); }
  }

  /** The part of a rendering at a path that leads to a child. */
  lemma FoundAt(msg: Message, atts: seq<Attachment>, m: Mode, path: seq<nat>)
    requires atts != [] && PathFits(ArrangementOf(msg, atts).children, path)
    ensures RenderedOf(msg, atts, m).FindPart(SectionText(path)) ==
      Some(PartAtPath(m, TextPartOf(msg, m), msg.outerBoundary, |MessageHeader(msg, atts)|,
                      ArrangementOf(msg, atts).children, path))
  {
    hide ArrangementOf, MessageHeader, TextPartOf, ChildrenParts, PartAtPath, SectionText, MessageDocOf,
      MessageStructureOf;
    var cs := ArrangementOf(msg, atts).children;
    var t, start := TextPartOf(msg, m), |MessageHeader(msg, atts)|;
    PartAtPathIsRecorded(m, t, msg.outerBoundary, start, cs, path);
    var p := PartAtPath(m, t, msg.outerBoundary, start, cs, path);
    var r := RenderedOf(msg, atts, m);
    assert r.parts == MessagePartsOf(msg, atts, m) && p in r.parts;
    FullPartsAreUnique(msg, atts, m, p, r.FindPart(SectionText(path)).value);
  }

  /** The `i`-th attachment belongs before the `j`-th: earlier of the same kind, or inline and the other not. */
  ghost predicate Precedes(msg: Message, atts: seq<Attachment>, i: nat, j: nat)
    requires i < |atts| && j < |atts|
  {
    if IsInline(msg, atts[i]) == IsInline(msg, atts[j]) then i < j else IsInline(msg, atts[i])
  }

  lemma PathsInOrder(msg: Message, atts: seq<Attachment>, i: nat, j: nat)
    requires i < |atts| && j < |atts| && Precedes(msg, atts, i, j)
    ensures PathBefore(PathTo(msg, atts, i), PathTo(msg, atts, j))
    ensures PathBefore(TextPath(msg, atts), PathTo(msg, atts, j))
  {
    hide IsInline;
    if IsInline(msg, atts[i]) == IsInline(msg, atts[j]) { CountGrows(msg, atts, i, j, IsInline(msg, atts[i])); }
    assert SomeAre(msg, atts, IsInline(msg, atts[i])) && SomeAre(msg, atts, IsInline(msg, atts[j]));
  }

  lemma AttachmentFits(msg: Message, atts: seq<Attachment>, i: nat)
    requires i < |atts|
    ensures PathFits(ArrangementOf(msg, atts).children, PathTo(msg, atts, i))
    ensures PathFits(ArrangementOf(msg, atts).children, TextPath(msg, atts))
    ensures PathBefore(TextPath(msg, atts), PathTo(msg, atts, i))
  {
    hide ArrangementOf, Locate, IsInline, CountKind;
    LocateAttachment(msg, atts, i);
    LocateText(msg, atts);
    LocatedFits(ArrangementOf(msg, atts).children, PathTo(msg, atts, i));
    LocatedFits(ArrangementOf(msg, atts).children, TextPath(msg, atts));
    assert SomeAre(msg, atts, IsInline(msg, atts[i]));
  }

  /** Attachments stand in their given order, inline ones before the others, each in a range of its own. */
  lemma AttachmentsInOrder(msg: Message, atts: seq<Attachment>, i: nat, j: nat)
    requires i < |atts| && j < |atts| && Precedes(msg, atts, i, j)
    ensures var r := RenderedOf(msg, atts, FULL);
      var (s, t) := (SectionText(PathTo(msg, atts, i)), SectionText(PathTo(msg, atts, j)));
      && s != t && r.FindPart(s).Some? && r.FindPart(t).Some?
      && r.FindPart(s).value.headerStart < r.FindPart(s).value.bodyEnd <= r.FindPart(t).value.headerStart
  {
    hide RenderedOf, ArrangementOf, PathTo, SectionText, IsInline, TextPartOf, PathFits, PathBefore, MessageHeader;
    PartHasHeader(msg, atts, i);
    AttachmentFits(msg, atts, i);
    AttachmentFits(msg, atts, j);
    PathsInOrder(msg, atts, i, j);
    FoundAt(msg, atts, FULL, PathTo(msg, atts, i));
    FoundAt(msg, atts, FULL, PathTo(msg, atts, j));
    PathOrder(FULL, TextPartOf(msg, FULL), msg.outerBoundary, |MessageHeader(msg, atts)|,
      ArrangementOf(msg, atts).children, PathTo(msg, atts, i), PathTo(msg, atts, j));
  }

  lemma PartHasHeader(msg: Message, atts: seq<Attachment>, i: nat)
    requires i < |atts|
    ensures var r, s := RenderedOf(msg, atts, FULL), SectionText(PathTo(msg, atts, i));
            r.FindPart(s).Some? && r.FindPart(s).value.headerStart < r.FindPart(s).value.bodyEnd
  {
    hide RenderedOf, PathTo, SectionText, IsInline, AttachmentLines, MessagePartsOf, MessageDocOf, DocLen, Body, Decode,
      Unwrap, FirstPart;
    AttachmentIsThere(msg, atts, i);
    LinesNotEmpty(atts[i], IsInline(msg, atts[i]));
    var r := RenderedOf(msg, atts, FULL);
    var p := r.FindPart(SectionText(PathTo(msg, atts, i))).value;
    PartsOfRendering(msg, atts);
    MessagePartsWithin(msg, atts, FULL, p);
  }

  lemma PartsOfRendering(msg: Message, atts: seq<Attachment>)
    ensures RenderedOf(msg, atts, FULL).parts == MessagePartsOf(msg, atts, FULL)
  {
  }

  lemma LinesNotEmpty(a: Attachment, inline: bool)
    ensures AttachmentLines(a, inline) != ""
  {
    hide Decimal;
    assert AttachmentLines(a, inline)[0] == 'C';
  }

  lemma OnePart(m: Mode, t: TextPart, section: string, start: nat, c: Child)
    requires !c.Related?
    ensures |PartsOf(m, t, section, start, c)| == 1
  {
  }

  lemma {:induction false} FlatParts(m: Mode, t: TextPart, section: string, boundary: string, number: nat, start: nat,
      cs: seq<Child>)
    requires forall i :: 0 <= i < |cs| ==> !cs[i].Related?
    ensures |ChildrenParts(m, t, section, boundary, number, start, cs)| == |cs|
    decreases |cs|
  {
    hide DocLen, ChildDoc, Opening, ChildSection, PartsOf;
    if cs != [] {
      var at := start + |Opening(boundary)|;
      OnePart(m, t, ChildSection(section, number), at, cs[0]);
      FlatParts(m, t, section, boundary, number + 1, at + DocLen(ChildDoc(m, t, cs[0])) + |CRLF|, cs[1..]);
    }
  }

  lemma {:induction false} KindsAddUp(msg: Message, atts: seq<Attachment>, n: nat)
    requires n <= |atts|
    ensures CountKind(msg, atts, n, true) + CountKind(msg, atts, n, false) == n
  {
    hide IsInline;
    if n > 0 { KindsAddUp(msg, atts, n - 1); }
  }

  lemma NestedParts(m: Mode, t: TextPart, boundary: string, start: nat, head: Child, tail: seq<Child>)
    requires head.Related? && forall i :: 0 <= i < |head.children| ==> !head.children[i].Related?
    requires forall i :: 0 <= i < |tail| ==> !tail[i].Related?
    ensures |ChildrenParts(m, t, "", boundary, 1, start, [head] + tail)| == 1 + |head.children| + |tail|
  {
    hide DocLen, ChildDoc, Opening, ChildSection, Header, BodyDoc;
    var at := start + |Opening(boundary)|;
    assert ([head] + tail)[1..] == tail;
    FlatParts(m, t, ChildSection("", 1), head.boundary, 1, at + |Header(head)|, head.children);
    FlatParts(m, t, "", boundary, 2, at + DocLen(ChildDoc(m, t, head)) + |CRLF|, tail);
  }

  /** There is nothing else: one section for each attachment, one for the text, and one for an inner multipart. */
  lemma NothingElse(msg: Message, atts: seq<Attachment>)
    ensures |RenderedOf(msg, atts, FULL).parts| == |atts| + 1 + if Nested(msg, atts) then 1 else 0
  {
    hide Select, AttachAll, DetectHtml, ArrangementOf, TextPartOf, CountKind, ChildrenParts, SomeAre, MessageHeader,
      MessageDocOf, MessageStructureOf;
    PartsOfRendering(msg, atts);
    var t, start, html := TextPartOf(msg, FULL), |MessageHeader(msg, atts)|, DetectHtml(msg);
    if atts != [] {
      ArrangementIs(msg, atts);
      KindsAddUp(msg, atts, |atts|);
      assert atts[..|atts|] == atts;
      SelectCount(msg, atts, |atts|, true);
      SelectCount(msg, atts, |atts|, false);
      AttachAllAt(Select(atts, html, true), true);
      AttachAllAt(Select(atts, html, false), false);
      var text, inl, reg :=
        Text(TextHeader(html)), AttachAll(Select(atts, html, true), true), AttachAll(Select(atts, html, false), false);
      if Nested(msg, atts) {
        NestedParts(FULL, t, msg.outerBoundary, start, Related(msg.innerBoundary, [text] + inl), reg);
      } else if SomeAre(msg, atts, true) {
        FlatParts(FULL, t, "", msg.outerBoundary, 1, start, [text] + inl);
      } else {
        FlatParts(FULL, t, "", msg.outerBoundary, 1, start, [text] + reg);
      }
    } else {
      NotNested(msg);
    }
  }

  lemma NotNested(msg: Message)
    ensures !Nested(msg, [])
  {
  }
}
