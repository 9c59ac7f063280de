/**
  What a client can ask of a rendering: section lookups, and whether the bytes of a section are
  there. Also the concrete situations in which the cheap renderings are used.
*/
module MessageQueries {
  import opened Text
  import opened LineEndings
  import opened MessageDoc
  import opened MessageWriter
  import opened MessageRender
  import opened MessageSections
  import opened MessageAgreement

  lemma FullPartsAreUnique(msg: Message, atts: seq<Attachment>, m: Mode, p: Part, q: Part)
    requires p in MessagePartsOf(msg, atts, m) && q in MessagePartsOf(msg, atts, m) && p.section == q.section
    ensures p == q
  {
    hide ArrangementOf, MessageHeader, TextPartOf, ChildrenParts, SingleHeader, Header, BodyDoc;
    var ps := MessagePartsOf(msg, atts, m);
    var i :| 0 <= i < |ps| && ps[i] == p;
    var j :| 0 <= j < |ps| && ps[j] == q;
    if atts != [] {
      var cs := ArrangementOf(msg, atts).children;
      var t, start := TextPartOf(msg, m), |MessageHeader(msg, atts)|;
      if i < j { SectionsAreUnique(m, t, "", msg.outerBoundary, start, cs, i, j); }
      if j < i { SectionsAreUnique(m, t, "", msg.outerBoundary, start, cs, j, i); }
    }
  }

  lemma SliceStands(whole: string, t: TextPart, p: Part, c: Child)
    requires t.body.Some? && Holds(whole, t, p, c)
    ensures p.headerStart <= p.headerEnd == p.bodyStart <= p.bodyEnd <= |whole|
    ensures whole[p.headerStart..p.headerEnd] == Header(c) && whole[p.bodyStart..p.bodyEnd] == PrintBody(t, c)
  {
  }

  /**
    Asking a full rendering of a multipart message for a section number returns the header and
    body of the child with that number, however deeply it is nested.
  */
  lemma SectionLookup(msg: Message, atts: seq<Attachment>, path: seq<nat>)
    requires atts != [] && path != [] && Locate(ArrangementOf(msg, atts).children, path).Some?
    ensures var r := RenderedOf(msg, atts, FULL); var c := Locate(ArrangementOf(msg, atts).children, path).value;
      && r.PartHeader(SectionName("", path)) == Some(Header(c))
      && r.PartBody(SectionName("", path)) == Some(PrintBody(TextPartOf(msg, FULL), c))
  {
    hide ArrangementOf, MessageHeader, TextPartOf, ChildrenParts, PrintChildren, PrintBody, Header, Holds,
      MessageDocOf, Emit,
      MessageStructureOf, Locate;
    var t := TextPartOf(msg, FULL);
    BodyPresent(msg);
    var cs := ArrangementOf(msg, atts).children;
    var r := RenderedOf(msg, atts, FULL);
    FullRenderingPrints(msg, atts);
    var start := |MessageHeader(msg, atts)|;
    ChildrenStand(msg, atts);
    LocateStartsAtOne(cs, path);
    assert [path[0] - 1 + 1] + path[1..] == path;
    var p := SectionHoldsChild(r.text, t, "", msg.outerBoundary, 1, start, cs, path);
    FullPartsAreUnique(msg, atts, FULL, p, r.FindPart(SectionName("", path)).value);
    SliceStands(r.text, t, p, Locate(cs, path).value);
  }

  lemma LocateStartsAtOne(cs: seq<Child>, path: seq<nat>)
    requires path != [] && Locate(cs, path).Some?
    ensures path[0] >= 1
  {
  }

  lemma ChildrenStand(msg: Message, atts: seq<Attachment>)
    requires atts != []
    ensures TextPartOf(msg, FULL).body.Some?
    ensures StandsAt(PrintMessage(msg, atts), |MessageHeader(msg, atts)|,
                     PrintChildren(TextPartOf(msg, FULL), msg.outerBoundary, ArrangementOf(msg, atts).children))
  {
    hide ArrangementOf, MessageHeader, PrintChildren;
    var t := TextPartOf(msg, FULL);
    var h, a, b := MessageHeader(msg, atts), PrintChildren(t, msg.outerBoundary, ArrangementOf(msg, atts).children),
      Closing(msg.outerBoundary);
    assert PrintMessage(msg, atts) == h + (a + b);
    WholeStands(h + (a + b));
    PieceStands(PrintMessage(msg, atts), 0, h, a + b);
    PieceStands(PrintMessage(msg, atts), |h|, a, b);
  }

  lemma WholeStands(s: string)
    ensures StandsAt(s, 0, s)
  {
  }

  lemma SinglePart(msg: Message)
    ensures var r, t := RenderedOf(msg, [], FULL), TextPartOf(msg, FULL);
      && r.text == SingleHeader(msg) + WrittenText(t)
      && r.parts == [PartAt(FULL, t, "1", 0, Text(SingleHeader(msg)))]
  {
    hide SingleHeader, WrittenText, TextPartOf;
    FullRenderingPrints(msg, []);
    var t := TextPartOf(msg, FULL);
    BodyPresent(msg);
    TextPrintsItself(t, SingleHeader(msg));
    var c := Text(SingleHeader(msg));
    assert PartsOf(FULL, t, "1", 0, c) == [PartAt(FULL, t, "1", 0, c)];
  }

  /** Without attachments, section 1 is the whole message. */
  lemma SinglePartLookup(msg: Message)
    ensures var r := RenderedOf(msg, [], FULL);
      && r.PartHeader("1") == Some(SingleHeader(msg))
      && r.PartBody("1") == Some(WrittenText(TextPartOf(msg, FULL)))
  {
    hide RenderedOf, SingleHeader, WrittenText, TextPartOf;
    SinglePart(msg);
    BodyPresent(msg);
    FullLength(TextPartOf(msg, FULL), Text(SingleHeader(msg)));
    var r := RenderedOf(msg, [], FULL);
    assert r.text[|SingleHeader(msg)|..|r.text|] == WrittenText(TextPartOf(msg, FULL));
  }

  lemma MessagePartsWithin(msg: Message, atts: seq<Attachment>, m: Mode, p: Part)
    requires p in MessagePartsOf(msg, atts, m)
    ensures Within(p, 0, DocLen(MessageDocOf(msg, atts, m)))
  {
    hide ArrangementOf, MessageHeader, TextPartOf, ChildrenParts, SingleHeader, Header, BodyDoc, ChildrenDoc, PartsOf,
      DocLen, ChildDoc;
    var t := TextPartOf(msg, m);
    var ps := MessagePartsOf(msg, atts, m);
    var i :| 0 <= i < |ps| && ps[i] == p;
    if atts == [] {
      PartsLieInside(m, t, "1", 0, Text(SingleHeader(msg)), i);
    } else {
      var b, cs := msg.outerBoundary, ArrangementOf(msg, atts).children;
      var h := MessageHeader(msg, atts);
      ChildrenLieInside(m, t, "", b, 1, |h|, cs, i);
      DocLenConcat([Lit(h)], ChildrenDoc(m, t, b, cs) + [Lit(Closing(b))]);
      DocLenConcat(ChildrenDoc(m, t, b, cs), [Lit(Closing(b))]);
      SingleLength(h);
    }
  }

  lemma SingleLength(s: string)
    ensures DocLen([Lit(s)]) == |s|
  {
  }

  /**
    A partial rendering claims to have the bytes of a section exactly when a lookup returns
    them, and what it returns is what the full rendering returns.
  */
  lemma PresentSectionsAreExact(m: Mode, small: Message, full: Message, sa: seq<Attachment>, fa: seq<Attachment>,
      section: string)
    requires m.materialize && SameMessage(small, full) && Suits(m, small, full) && AllAdvertise(sa, fa)
    requires RenderedOf(small, sa, m).FindPart(section).Some?
    ensures var r, whole := RenderedOf(small, sa, m), RenderedOf(full, fa, FULL);
      && (r.HasPartBody(section) <==> r.PartBody(section).Some?)
      && (r.HasPartBody(section) ==> r.PartBody(section) == whole.PartBody(section))
      && (r.HasPartHeader(section) <==> r.PartHeader(section).Some?)
      && (r.HasPartHeader(section) ==> r.PartHeader(section) == whole.PartHeader(section))
  {
    LayoutAgrees(m, small, full, sa, fa);
    hide MessageDocOf, MessageHeader, MessagePartsOf, MessageStructureOf, ArrangementOf, SameMessage, Suits,
      AllAdvertise, Emit;
    var r, whole := RenderedOf(small, sa, m), RenderedOf(full, fa, FULL);
    var p := r.FindPart(section).value;
    MessagePartsWithin(full, fa, FULL, p);
    FullSize(full, fa);
    SliceOfPrefix(whole.text, |r.text|, p.bodyStart, p.bodyEnd);
    SliceOfPrefix(whole.text, |r.text|, p.headerStart, p.headerEnd);
  }

  lemma SliceOfPrefix(s: string, n: nat, a: nat, b: nat)
    requires n <= |s|
    ensures a <= b <= n ==> s[..n][a..b] == s[a..b]
  {
  }

  lemma FullSize(full: Message, fa: seq<Attachment>)
    ensures RenderedOf(full, fa, FULL).size == DocLen(MessageDocOf(full, fa, FULL))
  {
    hide MessageDocOf;
    MessageBytes(full, fa);
    SelfShape(MessageDocOf(full, fa, FULL));
    EmitIsSound(FULL, NOTHING, MessageDocOf(full, fa, FULL));
  }

  // ---------- the situations the program meets ----------

  ghost predicate AdvertisedSizes(fa: seq<Attachment>) {
    forall i :: 0 <= i < |fa| ==> fa[i].size == |fa[i].data|
  }

  function WithoutData(fa: seq<Attachment>): (r: seq<Attachment>)
    ensures |r| == |fa| && forall i :: 0 <= i < |fa| ==> r[i] == fa[i].(data := [])
  {
    seq(|fa|, i requires 0 <= i < |fa| => fa[i].(data := []))
  }

  /** Layout rendering never looks at attachment data. */
  lemma LayoutRendering(msg: Message, fa: seq<Attachment>)
    requires AdvertisedSizes(fa)
    ensures var r, whole := RenderedOf(msg, WithoutData(fa), ModeOf(msg, true, false)), RenderedOf(msg, fa, FULL);
      && r.size == whole.size && r.headerEnd == whole.headerEnd && r.parts == whole.parts
      && r.bodystructure == whole.bodystructure
      && r.text <= whole.text && |r.text| == if r.missingFrom.Some? then r.missingFrom.value else whole.size
  {
    hide RenderedOf;
    SameAsItself(msg);
    LayoutAgrees(ModeOf(msg, true, false), msg, msg, WithoutData(fa), fa);
    FullRenderingPrints(msg, fa);
  }

  /** An on-demand message has the same size, ranges and structure before and after its attachments are downloaded. */
  lemma BeforeAndAfterDownload(stored: Message, fa: seq<Attachment>)
    requires AdvertisedSizes(fa) && stored.attachmentsState == ATTACHMENTS_STORED
    ensures var before := stored.(attachmentsState := ATTACHMENTS_ON_DEMAND);
      var r := RenderedOf(before, WithoutData(fa), ModeOf(before, true, true));
      var whole := RenderedOf(stored, fa, ModeOf(stored, true, true));
      && r.size == whole.size && r.headerEnd == whole.headerEnd && r.parts == whole.parts
      && r.bodystructure == whole.bodystructure
      && whole.missingFrom.None? && r.text <= whole.text
      && |r.text| == if r.missingFrom.Some? then r.missingFrom.value else whole.size
  {
    hide RenderedOf, SameMessage;
    var before := stored.(attachmentsState := ATTACHMENTS_ON_DEMAND);
    SameExceptState(stored);
    LayoutAgrees(ModeOf(before, true, true), before, stored, WithoutData(fa), fa);
    FullRenderingPrints(stored, fa);
  }

  lemma SameAsItself(msg: Message)
    ensures SameMessage(msg, msg)
  {
  }

  lemma SameExceptState(stored: Message)
    requires stored.attachmentsState == ATTACHMENTS_STORED
    ensures SameMessage(stored.(attachmentsState := ATTACHMENTS_ON_DEMAND), stored)
  {
    hide LooksLikeHtml, Contains;
  }

  /** No status note depends on the body. */
  predicate NoteIsFixed(msg: Message) {
    || (msg.attachmentsState != ATTACHMENTS_PENDING && msg.attachmentsState != ATTACHMENTS_FAILED)
    || msg.listed == 0 || !Contains(BodyOr(msg.body), LEGACY_NOTE_PREFIX)
  }

  /**
    The size computed from the stored metadata alone, with neither body nor attachment data, is
    exact when the stored size is the normalised body length, the metadata says whether the body
    is HTML, and no earlier note is part of the body.
  */
  lemma SizeFromMetadata(full: Message, fa: seq<Attachment>)
    requires AdvertisedSizes(fa) && full.size == |ToCrlf(BodyOr(full.body))| && full.metaIsHtml.Some?
      && NoteIsFixed(full)
    ensures SizeWithoutBody(full, fa) == |RenderedOf(full, fa, FULL).text|
  {
    hide LooksLikeHtml, Contains, RenderedOf;
    SizeAloneIsExact(full.attachmentsState == ATTACHMENTS_ON_DEMAND, full.(body := None), full, WithoutData(fa), fa);
  }

  /** The size as announced before the body and the attachments are at hand. */
  ghost function SizeWithoutBody(full: Message, fa: seq<Attachment>): nat {
    RenderedOf(full.(body := None), WithoutData(fa), ModeOf(full, false, true)).size
  }

  // ---------- how long the two forms of a note are ----------

  lemma {:induction false} ReplaceGrows(s: string, c: char, sub: string)
    requires sub != ""
    ensures |ReplaceChar(s, c, sub)| >= |s|
  {
    if s != [] { ReplaceGrows(s[1..], c, sub); }
  }

  lemma HtmlNoteIsLonger(note: string)
    ensures |NoteSuffix(note, true)| >= |NoteSuffix(note, false)| + 5
  {
    var a := ReplaceChar(note, '&', "&amp;");
    var b := ReplaceChar(a, '<', "&lt;");
    var c := ReplaceChar(b, '>', "&gt;");
    hide ReplaceChar;
    ReplaceGrows(note, '&', "&amp;");
    ReplaceGrows(a, '<', "&lt;");
    ReplaceGrows(b, '>', "&gt;");
    ReplaceGrows(c, '"', "&quot;");
  }

  lemma {:induction false} HtmlNotesAreLonger(notes: seq<string>)
    ensures |NotesSuffix(notes, true)| >= |NotesSuffix(notes, false)| + 5 * |notes|
  {
    hide NoteSuffix;
    if notes != [] {
      HtmlNoteIsLonger(notes[0]);
      HtmlNotesAreLonger(notes[1..]);
    }
  }

  lemma {:induction false} NotesConcat(a: seq<string>, b: seq<string>, isHtml: bool)
    ensures NotesSuffix(a + b, isHtml) == NotesSuffix(a, isHtml) + NotesSuffix(b, isHtml)
  {
    hide NoteSuffix;
    if a == [] {
      assert a + b == b;
    } else {
      assert (a + b)[1..] == a[1..] + b;
      NotesConcat(a[1..], b, isHtml);
    }
  }

  // ---------- how the text part's length enters the message's ----------

  lemma {:induction false} OtherPartsPrintAlike(s: TextPart, t: TextPart, c: Child)
    requires s.body.Some? && t.body.Some? && NoText(c)
    ensures PrintBody(s, c) == PrintBody(t, c)
    decreases c, 0
  {
    if c.Related? { OtherListsPrintAlike(s, t, c.boundary, c.children); }
  }

  lemma {:induction false} OtherListsPrintAlike(s: TextPart, t: TextPart, boundary: string, cs: seq<Child>)
    requires s.body.Some? && t.body.Some? && NoTexts(cs)
    ensures PrintChildren(s, boundary, cs) == PrintChildren(t, boundary, cs)
    decreases cs, 0
  {
    if cs != [] {
      OtherPartsPrintAlike(s, t, cs[0]);
      OtherListsPrintAlike(s, t, boundary, cs[1..]);
    }
  }

  /** Besides the first child, two lists of children print to the same length. */
  lemma FirstChildShift(s: TextPart, t: TextPart, boundary: string, c: Child, d: Child, rest: seq<Child>)
    requires s.body.Some? && t.body.Some? && NoTexts(rest)
    ensures |PrintChildren(s, boundary, [c] + rest)| - |Header(c)| - |PrintBody(s, c)|
         == |PrintChildren(t, boundary, [d] + rest)| - |Header(d)| - |PrintBody(t, d)|
  {
    hide PrintBody, Header, Opening;
    assert ([c] + rest)[1..] == rest && ([d] + rest)[1..] == rest;
    OtherListsPrintAlike(s, t, boundary, rest);
  }

  /** No attachment is shown inline, whichever kind of text the body is. */
  ghost predicate NoneInline(atts: seq<Attachment>) {
    forall i :: 0 <= i < |atts| ==> !ShownInline(atts[i], true)
  }

  lemma {:induction false} NoneSelected(atts: seq<Attachment>, isHtml: bool)
    requires NoneInline(atts)
    ensures Select(atts, isHtml, true) == [] && Select(atts, isHtml, false) == atts
  {
    if atts != [] {
      var n := |atts| - 1;
      NoneSelected(atts[..n], isHtml);
      assert !ShownInline(atts[n], true);
      assert atts == atts[..n] + [atts[n]];
    }
  }

  function TextOf(msg: Message): TextPart {
    TextPartOf(msg, FULL)
  }

  /** The arranged children of two messages that differ in their text part alone. */
  lemma ChildrenShift(a: Message, b: Message, atts: seq<Attachment>)
    requires a.innerBoundary == b.innerBoundary && a.outerBoundary == b.outerBoundary
    requires DetectHtml(a) == DetectHtml(b) || NoneInline(atts)
    requires TextOf(a).body.Some? && TextOf(b).body.Some?
    ensures ArrangementOf(a, atts).lowerSubtype == ArrangementOf(b, atts).lowerSubtype
    ensures |PrintChildren(TextOf(a), a.outerBoundary, ArrangementOf(a, atts).children)|
            - |TextHeader(DetectHtml(a))| - |WrittenText(TextOf(a))|
         == |PrintChildren(TextOf(b), b.outerBoundary, ArrangementOf(b, atts).children)|
            - |TextHeader(DetectHtml(b))| - |WrittenText(TextOf(b))|
  {
    hide DetectHtml, TextHeader, WrittenText, TextPartOf, PrintChildren, Select, AttachAll, NoTexts;
    var g, h := DetectHtml(a), DetectHtml(b);
    if NoneInline(atts) {
      NoneSelected(atts, g);
      NoneSelected(atts, h);
    }
    var inl, reg := AttachAll(Select(atts, g, true), true), AttachAll(Select(atts, g, false), false);
    AttachmentsHaveNoText(Select(atts, g, true), true);
    AttachmentsHaveNoText(Select(atts, g, false), false);
    var c, d := Text(TextHeader(g)), Text(TextHeader(h));
    if Select(atts, g, true) == [] {
      FirstChildShift(TextOf(a), TextOf(b), a.outerBoundary, c, d, reg);
    } else if Select(atts, g, false) == [] {
      FirstChildShift(TextOf(a), TextOf(b), a.outerBoundary, c, d, inl);
    } else {
      FirstChildShift(TextOf(a), TextOf(b), a.innerBoundary, c, d, inl);
      RelatedShift(TextOf(a), TextOf(b), a.innerBoundary, [c] + inl, [d] + inl);
      FirstChildShift(TextOf(a), TextOf(b), a.outerBoundary,
        Related(a.innerBoundary, [c] + inl), Related(a.innerBoundary, [d] + inl), reg);
    }
  }

  lemma RelatedShift(s: TextPart, t: TextPart, boundary: string, cs: seq<Child>, ds: seq<Child>)
    requires s.body.Some? && t.body.Some?
    ensures Header(Related(boundary, cs)) == Header(Related(boundary, ds))
    ensures |PrintBody(s, Related(boundary, cs))| - |PrintBody(t, Related(boundary, ds))|
         == |PrintChildren(s, boundary, cs)| - |PrintChildren(t, boundary, ds)|
  {
    hide PrintChildren;
  }

  /** Two messages that differ in their text part alone differ in length by its header and text. */
  lemma TextPartSetsLength(a: Message, b: Message, atts: seq<Attachment>)
    requires a.topHeader == b.topHeader && a.innerBoundary == b.innerBoundary && a.outerBoundary == b.outerBoundary
    requires DetectHtml(a) == DetectHtml(b) || NoneInline(atts)
    ensures |PrintMessage(a, atts)| - |TextHeader(DetectHtml(a))| - |WrittenText(TextOf(a))|
         == |PrintMessage(b, atts)| - |TextHeader(DetectHtml(b))| - |WrittenText(TextOf(b))|
  {
    hide DetectHtml, TextHeader, WrittenText, PrintChildren, ArrangementOf, NoneInline;
    BodyPresent(a);
    BodyPresent(b);
    hide TextPartOf;
    if atts != [] { ChildrenShift(a, b, atts); }
  }

  /** A rendering depends on the HTML flag and the notes through the text part alone. */
  lemma SameTextSameRendering(a: Message, b: Message, atts: seq<Attachment>, m: Mode)
    requires a.topHeader == b.topHeader && a.innerBoundary == b.innerBoundary && a.outerBoundary == b.outerBoundary
    requires DetectHtml(a) == DetectHtml(b) && TextPartOf(a, m) == TextPartOf(b, m)
    ensures RenderedOf(a, atts, m) == RenderedOf(b, atts, m)
  {
    hide DetectHtml, TextPartOf, Emit, Select;
  }

  // ---------- exactly when the announced size is right ----------

  lemma HeadersDiffer()
    ensures |TextHeader(true)| + 1 == |TextHeader(false)|
  {
  }

  lemma WrittenLength(msg: Message)
    ensures |WrittenText(TextOf(msg))| == |ToCrlf(BodyOr(msg.body))|
      + |NotesSuffix(msg.trust, DetectHtml(msg))| + |NotesSuffix(StatusNotes(msg), DetectHtml(msg))|
  {
    hide ToCrlf, NotesSuffix, StatusNotes, DetectHtml;
  }

  lemma NoNotes()
    ensures NotesSuffix([], true) == "" && NotesSuffix([], false) == ""
  {
  }

  /** A note always has a length. */
  lemma NoteHasLength(note: string, isHtml: bool)
    ensures |NotesSuffix([note], isHtml)| > 0
  {
  }

  /** A body that is not there is taken for plain text without an earlier note. */
  lemma EmptyBodyIsPlain()
    ensures !LooksLikeHtml("") && !Contains("", LEGACY_NOTE_PREFIX)
  {
  }

  function WithoutBody(msg: Message): Message {
    msg.(body := None)
  }

  /** What a text part adds to the body: its header and the notes below it. */
  function Overhead(msg: Message): nat {
    |TextHeader(DetectHtml(msg))| + |NotesSuffix(msg.trust, DetectHtml(msg))|
    + |NotesSuffix(StatusNotes(msg), DetectHtml(msg))|
  }

  /** A message with its body that is taken for the kind, and carries the notes, that it has without it. */
  function AsAnnounced(full: Message): Message {
    var small := WithoutBody(full);
    var guess := full.(metaIsHtml := Some(DetectHtml(small)));
    if NoteIsFixed(full) then guess
    else guess.(attachmentsState := ATTACHMENTS_STORED, trust := full.trust + StatusNotes(small))
  }

  lemma AnnouncedText(full: Message, m: Mode)
    ensures TextPartOf(AsAnnounced(full).(body := None), m) == TextPartOf(WithoutBody(full), m)
    ensures Overhead(AsAnnounced(full)) == Overhead(WithoutBody(full))
    ensures NoteIsFixed(AsAnnounced(full))
  {
    hide LooksLikeHtml, Contains, NotesSuffix;
    EmptyBodyIsPlain();
    var small := WithoutBody(full);
    NotesConcat(full.trust, StatusNotes(small), DetectHtml(small));
    NoNotes();
  }

  /**
    Unless an attachment is shown inline and the kind of text is guessed wrong, the size computed
    without the body is exact if and only if the header and the notes of the text part are as long as
    they would be without the body.
  */
  lemma SizeIsExactIffOverheadAgrees(full: Message, fa: seq<Attachment>)
    requires AdvertisedSizes(fa) && full.size == |ToCrlf(BodyOr(full.body))|
    requires NoneInline(fa) || DetectHtml(full) == DetectHtml(WithoutBody(full))
    ensures SizeWithoutBody(full, fa) == |RenderedOf(full, fa, FULL).text|
        <==> Overhead(full) == Overhead(WithoutBody(full))
  {
    var announced := AsAnnounced(full);
    AnnouncedText(full, ModeOf(full, false, true));
    AnnouncedMode(full);
    hide RenderedOf, PrintMessage, ToCrlf, LooksLikeHtml, NoneInline, NotesSuffix, NoteIsFixed, StatusNotes,
      WrittenText, TextHeader, TextPartOf;
    SizeFromMetadata(announced, fa);
    SameTextSameRendering(WithoutBody(full), announced.(body := None), WithoutData(fa), ModeOf(full, false, true));
    FullRenderingPrints(full, fa);
    FullRenderingPrints(announced, fa);
    TextPartSetsLength(full, announced, fa);
    WrittenLength(full);
    WrittenLength(announced);
  }

  lemma AnnouncedMode(full: Message)
    ensures ModeOf(AsAnnounced(full), false, true) == ModeOf(full, false, true)
    ensures DetectHtml(AsAnnounced(full)) == DetectHtml(WithoutBody(full))
  {
    hide LooksLikeHtml, Contains, StatusNotes;
  }

  /**
    When no attachment is shown inline and no earlier note is in the body, the size computed without
    the body is exact if and only if the metadata carries the HTML flag or the body does not look
    like HTML: without the flag, the kind of text is guessed from a body that is not there.
  */
  lemma SizeIsExactIff(full: Message, fa: seq<Attachment>)
    requires AdvertisedSizes(fa) && full.size == |ToCrlf(BodyOr(full.body))| && NoteIsFixed(full) && NoneInline(fa)
    ensures SizeWithoutBody(full, fa) == |RenderedOf(full, fa, FULL).text|
        <==> full.metaIsHtml.Some? || !LooksLikeHtml(BodyOr(full.body))
  {
    hide RenderedOf, ToCrlf, LooksLikeHtml, Contains, NoneInline, NotesSuffix, TextHeader, SizeWithoutBody;
    EmptyBodyIsPlain();
    SizeIsExactIffOverheadAgrees(full, fa);
    HeadersDiffer();
    HtmlNotesAreLonger(full.trust);
    HtmlNotesAreLonger(StatusNotes(full));
    NoNotes();
    assert StatusNotes(WithoutBody(full)) == StatusNotes(full);
  }

  /**
    With the HTML flag, for attachments of every kind: the size computed without the body is exact if
    and only if no status note depends on the body. An earlier note in the body suppresses the
    status note once the body is there.
  */
  lemma SizeWithFlagIsExactIff(full: Message, fa: seq<Attachment>)
    requires AdvertisedSizes(fa) && full.size == |ToCrlf(BodyOr(full.body))| && full.metaIsHtml.Some?
    ensures SizeWithoutBody(full, fa) == |RenderedOf(full, fa, FULL).text| <==> NoteIsFixed(full)
  {
    hide RenderedOf, ToCrlf, LooksLikeHtml, Contains, NotesSuffix, TextHeader, SizeWithoutBody;
    EmptyBodyIsPlain();
    SizeIsExactIffOverheadAgrees(full, fa);
    NoNotes();
    NoteHasLength(full.pending, full.metaIsHtml.value);
    NoteHasLength(full.failed, full.metaIsHtml.value);
  }

  // ---------- a message whose announced size is wrong ----------

  function UnflaggedHtmlMessage(): Message {
    Message("", None, Some("<div"), 4, ATTACHMENTS_STORED, 0, [], "", "", "", "")
  }

  lemma UnflaggedIsHtmlOnlyWithBody()
    ensures LooksLikeHtml(BodyOr(UnflaggedHtmlMessage().body))
    ensures UnflaggedHtmlMessage().size == |ToCrlf(BodyOr(UnflaggedHtmlMessage().body))|
  {
    assert "<div"[..4] == "<div";
    assert Contains("<div", "<div");
    assert "<div"[1..] == "div" && "div"[1..] == "iv" && "iv"[1..] == "v" && "v"[1..] == "";
  }

  /** Without the flag the size can be wrong. */
  lemma SizeNeedsTheHtmlFlag()
    ensures SizeWithoutBody(UnflaggedHtmlMessage(), []) != |RenderedOf(UnflaggedHtmlMessage(), [], FULL).text|
  {
    hide RenderedOf, ToCrlf, LooksLikeHtml, SizeWithoutBody;
    UnflaggedIsHtmlOnlyWithBody();
    SizeIsExactIff(UnflaggedHtmlMessage(), []);
  }
}
