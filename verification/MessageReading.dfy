/**
  How a full rendering reads: the whole text, the text part with its notes, the description of the
  structure, and what a reader that splits a multipart at its boundary gets back.
*/
module MessageReading {
  import opened Text
  import opened LineEndings
  import opened Base64Lines
  import opened MessageDoc
  import opened MessageRender
  import opened MessageSections
  import opened MessageAgreement
  import opened MessageQueries
  import opened MessageContent

  // ---------- notes ----------

  function EscapeChar(c: char): string {
    if c == '&' then "&amp;" else if c == '<' then "&lt;" else if c == '>' then "&gt;"
    else if c == '"' then "&quot;" else [c]
  }

  /** Each character on its own: no replacement is replaced again. */
  function Escaped(s: string): string {
    if s == "" then "" else EscapeChar(s[0]) + Escaped(s[1..])
  }

  lemma EscapeConcat(a: string, b: string)
    ensures EscapeHtml(a + b) == EscapeHtml(a) + EscapeHtml(b)
  {
    ReplaceConcat(a, b, '&', "&amp;");
    var (a1, b1) := (ReplaceChar(a, '&', "&amp;"), ReplaceChar(b, '&', "&amp;"));
    ReplaceConcat(a1, b1, '<', "&lt;");
    var (a2, b2) := (ReplaceChar(a1, '<', "&lt;"), ReplaceChar(b1, '<', "&lt;"));
    ReplaceConcat(a2, b2, '>', "&gt;");
    ReplaceConcat(ReplaceChar(a2, '>', "&gt;"), ReplaceChar(b2, '>', "&gt;"), '"', "&quot;");
  }

  lemma {:induction false} ReplaceNone(s: string, c: char, sub: string)
    requires c !in s
    ensures ReplaceChar(s, c, sub) == s
  {
    if s != "" { ReplaceNone(s[1..], c, sub); }
  }

  lemma EscapeOne(c: char)
    ensures EscapeHtml([c]) == EscapeChar(c)
  {
    hide ReplaceChar;
    ReplaceOne(c, '&', "&amp;");
    ReplaceOne(c, '<', "&lt;");
    ReplaceOne(c, '>', "&gt;");
    ReplaceOne(c, '"', "&quot;");
    NotReplacedAgain();
  }

  /** No replacement contains a character that is replaced after it. */
  lemma NotReplacedAgain()
    ensures ReplaceChar("&amp;", '<', "&lt;") == "&amp;" && ReplaceChar("&amp;", '>', "&gt;") == "&amp;"
    ensures ReplaceChar("&lt;", '>', "&gt;") == "&lt;"
    ensures ReplaceChar("&amp;", '"', "&quot;") == "&amp;" && ReplaceChar("&lt;", '"', "&quot;") == "&lt;"
    ensures ReplaceChar("&gt;", '"', "&quot;") == "&gt;"
  {
    hide ReplaceChar;
    ReplaceNone("&amp;", '<', "&lt;");
    ReplaceNone("&amp;", '>', "&gt;");
    ReplaceNone("&lt;", '>', "&gt;");
    ReplaceNone("&amp;", '"', "&quot;");
    ReplaceNone("&lt;", '"', "&quot;");
    ReplaceNone("&gt;", '"', "&quot;");
  }

  lemma ReplaceOne(c: char, d: char, sub: string)
    ensures ReplaceChar([c], d, sub) == if c == d then sub else [c]
  {
    assert [c][1..] == "";
    assert ReplaceChar("", d, sub) == "";
  }

  lemma {:induction false} EscapeIsByCharacter(s: string)
    ensures EscapeHtml(s) == Escaped(s)
  {
    hide EscapeHtml, EscapeChar;
    if s == "" {
      EscapeNothing();
    } else {
      assert s == [s[0]] + s[1..];
      EscapeConcat([s[0]], s[1..]);
      EscapeOne(s[0]);
      EscapeIsByCharacter(s[1..]);
    }
  }

  lemma EscapeNothing()
    ensures EscapeHtml("") == ""
  {
  }

  function NoteText(note: string, html: bool): string {
    if html then "\r\n<p>" + Escaped(note) + "</p>" else "\r\n\r\n" + note
  }

  function NoteTexts(notes: seq<string>, html: bool): string {
    if notes == [] then "" else NoteTexts(notes[..|notes| - 1], html) + NoteText(notes[|notes| - 1], html)
  }

  lemma {:induction false} NotesRead(notes: seq<string>, html: bool)
    ensures NotesSuffix(notes, html) == NoteTexts(notes, html)
  {
    hide NoteSuffix, NoteText;
    if notes != [] {
      var n := |notes| - 1;
      NotesRead(notes[..n], html);
      assert notes == notes[..n] + [notes[n]];
      NotesConcat(notes[..n], [notes[n]], html);
      assert NotesSuffix([notes[n]], html) == NoteSuffix(notes[n], html) + NotesSuffix([], html);
      NoteReads(notes[n], html);
    }
  }

  lemma NoteReads(note: string, html: bool)
    ensures NoteSuffix(note, html) == NoteText(note, html)
  {
    EscapeIsByCharacter(note);
  }

  /** A note on missing attachments: only while they are being downloaded or could not be, and not twice. */
  ghost function StatusNote(msg: Message): seq<string> {
    if msg.listed == 0 || (msg.body.Some? && Occurs(msg.body.value, "[This message has ")) then []
    else if msg.attachmentsState == 1 then [msg.pending]
    else if msg.attachmentsState == 3 then [msg.failed]
    else []
  }

  lemma StatusNoteReads(msg: Message)
    ensures StatusNotes(msg) == StatusNote(msg)
  {
    hide Contains, Occurs;
    if msg.body.Some? { ContainsIff(msg.body.value, "[This message has "); }
  }

  /** The text of a message: its body with CRLF line ends, then its notes. */
  ghost function TextOfMessage(msg: Message): string {
    ToCrlf(if msg.body.Some? then msg.body.value else "")
    + NoteTexts(msg.trust, IsHtml(msg)) + NoteTexts(StatusNote(msg), IsHtml(msg))
  }

  ghost function TypeLines(msg: Message): string {
    (if IsHtml(msg) then "Content-Type: text/html; charset=utf-8\r\n"
     else "Content-Type: text/plain; charset=utf-8\r\n")
    + "Content-Transfer-Encoding: 8bit\r\n\r\n"
  }

  lemma TextReads(msg: Message)
    ensures TextPartOf(msg, FULL).body.Some?
    ensures WrittenText(TextPartOf(msg, FULL)) == TextOfMessage(msg)
    ensures TextHeader(DetectHtml(msg)) == TypeLines(msg)
    ensures TextPartOf(msg, FULL).isHtml == IsHtml(msg)
  {
    hide IsHtml, ToCrlf, NotesSuffix, NoteTexts, StatusNote, StatusNotes, DetectHtml;
    DetectHtmlIff(msg);
    NotesRead(msg.trust, DetectHtml(msg));
    NotesRead(StatusNotes(msg), DetectHtml(msg));
    StatusNoteReads(msg);
    ThreeTexts(ToCrlf(BodyOr(msg.body)), NoteTexts(msg.trust, IsHtml(msg)), NoteTexts(StatusNote(msg), IsHtml(msg)));
  }

  lemma ThreeTexts(a: string, b: string, c: string)
    ensures a + (b + c) == a + b + c
  {
  }

  /** The text is in the full rendering, under the first section number. */
  lemma TextIsThere(msg: Message, atts: seq<Attachment>)
    ensures var r := RenderedOf(msg, atts, FULL);
      var section := if atts == [] then "1" else SectionText(TextPath(msg, atts));
      && r.PartBody(section) == Some(TextOfMessage(msg))
      && r.PartHeader(section) == Some((if atts == [] then msg.topHeader else "") + TypeLines(msg))
  {
    hide RenderedOf, Locate, ArrangementOf, TextPath, SectionText, IsHtml, SectionName, TextPartOf, TextHeader,
      TypeLines, TextOfMessage, WrittenText;
    TextReads(msg);
    if atts == [] {
      SinglePartLookup(msg);
    } else {
      LocateText(msg, atts);
      SectionLookup(msg, atts, TextPath(msg, atts));
      SectionTextIs(TextPath(msg, atts));
      TextPrints(TextPartOf(msg, FULL), TypeLines(msg));
    }
  }

  lemma TextPrints(t: TextPart, header: string)
    requires t.body.Some?
    ensures PrintBody(t, Text(header)) == WrittenText(t) && Header(Text(header)) == "" + header
  {
  }

  // ---------- the whole text ----------

  /** A multipart body as section 5.1 of RFC 2046 has it. */
  function Multipart(boundary: string, parts: seq<string>): string {
    if parts == [] then "--" + boundary + "--\r\n"
    else "--" + boundary + "\r\n" + parts[0] + "\r\n" + Multipart(boundary, parts[1..])
  }

  lemma {:induction false} PrintsMultipart(t: TextPart, boundary: string, cs: seq<Child>, parts: seq<string>)
    requires t.body.Some? && |cs| == |parts|
    requires forall i :: 0 <= i < |cs| ==> parts[i] == Header(cs[i]) + PrintBody(t, cs[i])
    ensures PrintChildren(t, boundary, cs) + Closing(boundary) == Multipart(boundary, parts)
    decreases |cs|
  {
    hide Header, PrintBody;
    if cs != [] {
      PrintsMultipart(t, boundary, cs[1..], parts[1..]);
    }
  }

  /** The attachments that are inline, or those that are not, in order, each with its header. */
  ghost function AttachmentTextsOf(msg: Message, atts: seq<Attachment>, inline: bool): seq<string> {
    if atts == [] then []
    else
      AttachmentTextsOf(msg, atts[..|atts| - 1], inline)
      + var a := atts[|atts| - 1];
        if IsInline(msg, a) == inline then [AttachmentLines(a, inline) + Body(a.data)] else []
  }

  lemma {:induction false} AttachmentsPrint(msg: Message, atts: seq<Attachment>, inline: bool, t: TextPart)
    requires t.body.Some?
    ensures var (cs, parts) :=
        (AttachAll(Select(atts, DetectHtml(msg), inline), inline), AttachmentTextsOf(msg, atts, inline));
      |cs| == |parts| && forall i :: 0 <= i < |cs| ==> parts[i] == Header(cs[i]) + PrintBody(t, cs[i])
  {
    hide IsInline, DetectHtml, AttachmentLines, Body, Header, ShownInline, AttachAll;
    if atts == [] {
      AttachAllAt([], inline);
    } else {
      var a, rest := atts[|atts| - 1], atts[..|atts| - 1];
      AttachmentsPrint(msg, rest, inline, t);
      ShownInlineIff(msg, a);
      AttachmentHeaderIs(a, inline);
      AttachAllAt(Select(rest, DetectHtml(msg), inline), inline);
      AttachAllAt(Select(atts, DetectHtml(msg), inline), inline);
    }
  }

  /** The parts of a multipart message: the text with the inline attachments, then the others. */
  ghost function PartTexts(msg: Message, atts: seq<Attachment>): seq<string> {
    var text := TypeLines(msg) + TextOfMessage(msg);
    var inl, reg := AttachmentTextsOf(msg, atts, true), AttachmentTextsOf(msg, atts, false);
    if Nested(msg, atts) then
      ["Content-Type: multipart/related; boundary=\"" + msg.innerBoundary + "\"" + "\r\n" + "\r\n"
       + Multipart(msg.innerBoundary, [text] + inl)] + reg
    else [text] + if SomeAre(msg, atts, true) then inl else reg
  }

  lemma FirstPartPrints(head: Child, tail: seq<Child>, first: string, rest: seq<string>, t: TextPart)
    requires t.body.Some? && |tail| == |rest| && first == Header(head) + PrintBody(t, head)
    requires forall i :: 0 <= i < |tail| ==> rest[i] == Header(tail[i]) + PrintBody(t, tail[i])
    ensures var (cs, parts) := ([head] + tail, [first] + rest);
      |cs| == |parts| && forall i :: 0 <= i < |cs| ==> parts[i] == Header(cs[i]) + PrintBody(t, cs[i])
  {
    hide Header, PrintBody;
  }

  lemma ChildrenPrint(msg: Message, atts: seq<Attachment>)
    requires atts != []
    ensures var t, cs, parts := TextPartOf(msg, FULL), ArrangementOf(msg, atts).children, PartTexts(msg, atts);
      t.body.Some? && |cs| == |parts| && forall i :: 0 <= i < |cs| ==> parts[i] == Header(cs[i]) + PrintBody(t, cs[i])
  {
    hide Select, AttachAll, DetectHtml, ArrangementOf, TextPartOf, Header, PrintBody, TypeLines, TextOfMessage,
      TextHeader, AttachmentTextsOf, SomeAre, Multipart;
    TextReads(msg);
    ArrangementIs(msg, atts);
    var t := TextPartOf(msg, FULL);
    AttachmentsPrint(msg, atts, true, t);
    AttachmentsPrint(msg, atts, false, t);
    var text := Text(TextHeader(DetectHtml(msg)));
    TextPrints(t, TypeLines(msg));
    var inl := AttachAll(Select(atts, DetectHtml(msg), true), true);
    var reg := AttachAll(Select(atts, DetectHtml(msg), false), false);
    var (inlTexts, regTexts) := (AttachmentTextsOf(msg, atts, true), AttachmentTextsOf(msg, atts, false));
    var first := TypeLines(msg) + TextOfMessage(msg);
    FirstPartPrints(text, inl, first, inlTexts, t);
    hide IsHtml, WrittenText;
    if Nested(msg, atts) {
      PrintsMultipart(t, msg.innerBoundary, [text] + inl, [first] + inlTexts);
      RelatedPrints(t, msg.innerBoundary, [text] + inl);
      FirstPartPrints(Related(msg.innerBoundary, [text] + inl), reg,
        "Content-Type: multipart/related; boundary=\"" + msg.innerBoundary + "\"" + "\r\n" + "\r\n"
        + Multipart(msg.innerBoundary, [first] + inlTexts), regTexts, t);
    } else {
      FirstPartPrints(text, reg, first, regTexts, t);
    }
  }

  lemma RelatedPrints(t: TextPart, boundary: string, cs: seq<Child>)
    requires t.body.Some?
    ensures PrintBody(t, Related(boundary, cs)) == PrintChildren(t, boundary, cs) + Closing(boundary)
    ensures Header(Related(boundary, cs)) ==
      "Content-Type: multipart/related; boundary=\"" + boundary + "\"" + "\r\n" + "\r\n"
  {
  }

  /** The whole text of a full rendering. */
  lemma MessageReads(msg: Message, atts: seq<Attachment>)
    ensures RenderedOf(msg, atts, FULL).text ==
      if atts == [] then msg.topHeader + TypeLines(msg) + TextOfMessage(msg)
      else msg.topHeader + "Content-Type: multipart/"
           + (if SomeAre(msg, atts, true) && !SomeAre(msg, atts, false) then "related" else "mixed")
           + "; boundary=\"" + msg.outerBoundary + "\"\r\n\r\n" + Multipart(msg.outerBoundary, PartTexts(msg, atts))
  {
    hide RenderedOf, ArrangementOf, TextPartOf, TypeLines, TextOfMessage, PartTexts, Multipart, DetectHtml, TextHeader,
      PrintChildren, Closing, WrittenText, SomeAre;
    FullRenderingPrints(msg, atts);
    TextReads(msg);
    if atts == [] {
      assert SingleHeader(msg) == msg.topHeader + TypeLines(msg);
    } else {
      ChildrenPrint(msg, atts);
      SubtypeIs(msg, atts);
      var t, cs := TextPartOf(msg, FULL), ArrangementOf(msg, atts).children;
      PrintsMultipart(t, msg.outerBoundary, cs, PartTexts(msg, atts));
      ThreeTexts(MessageHeader(msg, atts), PrintChildren(t, msg.outerBoundary, cs), Closing(msg.outerBoundary));
    }
  }

  lemma SubtypeIs(msg: Message, atts: seq<Attachment>)
    requires atts != []
    ensures var a := ArrangementOf(msg, atts);
      if SomeAre(msg, atts, true) && !SomeAre(msg, atts, false)
      then a.lowerSubtype == "related" && a.subtype == "RELATED"
      else a.lowerSubtype == "mixed" && a.subtype == "MIXED"
  {
    hide Select, AttachAll, DetectHtml, SomeAre;
    ArrangementIs(msg, atts);
    var html := DetectHtml(msg);
    assert ArrangementOf(msg, atts) == Arrange(msg, html, Select(atts, html, true), Select(atts, html, false));
  }

  // ---------- the described structure ----------

  lemma {:induction false} LinesCounted(s: string)
    ensures LineCount(s) == multiset(s)['\n']
  {
    if s != "" {
      LinesCounted(s[1..]);
      assert s == [s[0]] + s[1..];
    }
  }

  /** A text part: its kind, its size in bytes and its number of lines. */
  ghost function TextDescription(msg: Message): string {
    var text := TextOfMessage(msg);
    "(\"TEXT\" \"" + (if IsHtml(msg) then "HTML" else "PLAIN") + "\" (\"CHARSET\" \"UTF-8\") NIL NIL \"8BIT\" "
    + Decimal(|text|) + " " + Decimal(multiset(text)['\n']) + ")"
  }

  ghost function AttachmentDescription(a: Attachment, inline: bool): string {
    "(" + a.texts.quotedType + " " + a.texts.quotedSubtype + " (\"NAME\" " + a.texts.quotedName + ") "
    + a.texts.quotedContentId + " NIL \"BASE64\" " + Decimal(|Body(a.data)|) + " NIL ("
    + (if inline then "\"INLINE\"" else "\"ATTACHMENT\"") + " (\"FILENAME\" " + a.texts.quotedName + ")) NIL)"
  }

  /** The inline attachments, or the others, described in order. */
  ghost function Descriptions(msg: Message, atts: seq<Attachment>, inline: bool): string {
    if atts == [] then ""
    else
      Descriptions(msg, atts[..|atts| - 1], inline)
      + var a := atts[|atts| - 1]; if IsInline(msg, a) == inline then AttachmentDescription(a, inline) else ""
  }

  function Grouped(parts: string, subtype: string, boundary: string): string {
    "(" + parts + " \"" + subtype + "\" (\"BOUNDARY\" \"" + boundary + "\") NIL NIL)"
  }

  lemma {:induction false} StructuresConcat(m: Mode, t: TextPart, a: seq<Child>, b: seq<Child>)
    ensures StructuresOf(m, t, a + b) == StructuresOf(m, t, a) + StructuresOf(m, t, b)
  {
    hide StructureOf;
    if a == [] {
      assert a + b == b;
    } else {
      assert (a + b)[1..] == a[1..] + b;
      StructuresConcat(m, t, a[1..], b);
    }
  }

  lemma {:induction false} AttachAllConcat(a: seq<Attachment>, b: seq<Attachment>, inline: bool)
    ensures AttachAll(a + b, inline) == AttachAll(a, inline) + AttachAll(b, inline)
  {
    if a == [] {
      assert a + b == b;
    } else {
      assert (a + b)[1..] == a[1..] + b;
      AttachAllConcat(a[1..], b, inline);
    }
  }

  lemma OneStructure(t: TextPart, a: Attachment, inline: bool)
    ensures StructuresOf(FULL, t, AttachAll([a], inline)) == AttachmentDescription(a, inline)
  {
    hide Decimal, Body;
    assert AttachAll([a], inline) == [Attached(a, inline)];
    var c := Attached(a, inline);
    assert [c][1..] == [];
    assert StructuresOf(FULL, t, [c]) == StructureOf(FULL, t, c) + StructuresOf(FULL, t, []);
  }

  lemma {:induction false} AttachmentsDescribed(msg: Message, atts: seq<Attachment>, inline: bool, t: TextPart)
    ensures StructuresOf(FULL, t, AttachAll(Select(atts, DetectHtml(msg), inline), inline))
         == Descriptions(msg, atts, inline)
  {
    hide IsInline, DetectHtml, AttachmentDescription, ShownInline, StructuresOf, AttachAll;
    if atts == [] {
      NothingDescribed(t, inline);
    } else {
      var a, rest := atts[|atts| - 1], atts[..|atts| - 1];
      var front := Select(rest, DetectHtml(msg), inline);
      AttachmentsDescribed(msg, rest, inline, t);
      ShownInlineIff(msg, a);
      if IsInline(msg, a) == inline {
        AttachAllConcat(front, [a], inline);
        StructuresConcat(FULL, t, AttachAll(front, inline), AttachAll([a], inline));
        OneStructure(t, a, inline);
      } else {
        assert front + [] == front;
      }
    }
  }

  lemma NothingDescribed(t: TextPart, inline: bool)
    ensures StructuresOf(FULL, t, AttachAll([], inline)) == ""
  {
  }

  lemma TextDescribed(msg: Message, header: string)
    ensures StructureOf(FULL, TextPartOf(msg, FULL), Text(header)) == TextDescription(msg)
  {
    hide TextPartOf, IsHtml, TextOfMessage, Decimal, WrittenText;
    TextReads(msg);
    LinesCounted(TextOfMessage(msg));
  }

  lemma FirstDescribed(t: TextPart, head: Child, tail: seq<Child>)
    ensures StructuresOf(FULL, t, [head] + tail) == StructureOf(FULL, t, head) + StructuresOf(FULL, t, tail)
  {
    assert ([head] + tail)[1..] == tail;
  }

  /**
    The structure a full rendering describes: the text with its kind, size and lines, and every
    attachment in its place with the size of its encoded bytes.
  */
  lemma StructureReads(msg: Message, atts: seq<Attachment>)
    ensures RenderedOf(msg, atts, FULL).bodystructure ==
      var text, inl, reg := TextDescription(msg), Descriptions(msg, atts, true), Descriptions(msg, atts, false);
      if atts == [] then text
      else if Nested(msg, atts) then
        Grouped(Grouped(text + inl, "RELATED", msg.innerBoundary) + reg, "MIXED", msg.outerBoundary)
      else if SomeAre(msg, atts, true) then Grouped(text + inl, "RELATED", msg.outerBoundary)
      else Grouped(text + reg, "MIXED", msg.outerBoundary)
  {
    hide ArrangementOf, TextPartOf, TextDescription, Descriptions, DetectHtml, TextHeader, SomeAre, StructuresOf,
      AttachAll, Select, MessageDocOf, MessagePartsOf, MessageHeader;
    var t, html := TextPartOf(msg, FULL), DetectHtml(msg);
    TextDescribed(msg, SingleHeader(msg));
    TextDescribed(msg, TextHeader(html));
    if atts != [] {
      ArrangementIs(msg, atts);
      SubtypeIs(msg, atts);
      AttachmentsDescribed(msg, atts, true, t);
      AttachmentsDescribed(msg, atts, false, t);
      var text := Text(TextHeader(html));
      var inl, reg := AttachAll(Select(atts, html, true), true), AttachAll(Select(atts, html, false), false);
      FirstDescribed(t, text, inl);
      FirstDescribed(t, text, reg);
      FirstDescribed(t, Related(msg.innerBoundary, [text] + inl), reg);
      RelatedDescribed(t, msg.innerBoundary, [text] + inl);
    }
  }

  lemma RelatedDescribed(t: TextPart, boundary: string, cs: seq<Child>)
    ensures StructureOf(FULL, t, Related(boundary, cs)) == Grouped(StructuresOf(FULL, t, cs), "RELATED", boundary)
  {
  }

  // ---------- reading back at the boundary ----------

  /** The boundary does not occur in the text. */
  ghost predicate FreeOf(s: string, boundary: string) {
    !Occurs(s, "--" + boundary)
  }

  lemma InTheMiddle(s: string, piece: string, i: nat, k: nat)
    requires StandsIn(s, piece, i) && i <= k < i + |piece|
    ensures s[k] in piece
  {
    assert s[i..i + |piece|][k - i] == s[k];
  }

  lemma NotBefore(p: string, rest: string, delimiter: string, i: nat)
    requires !Occurs(p, delimiter) && '\r' !in delimiter && '\n' !in delimiter && |delimiter| > 0
    requires i < |p| + 2
    ensures !StandsIn(p + "\r\n" + rest, delimiter, i)
  {
    var s := p + "\r\n" + rest;
    if StandsIn(s, delimiter, i) {
      if i + |delimiter| <= |p| {
        assert s[i..i + |delimiter|] == p[i..i + |delimiter|];
        assert StandsIn(p, delimiter, i);
      } else {
        InTheMiddle(s, delimiter, i, if i <= |p| then |p| else |p| + 1);
      }
    }
  }

  /** The first delimiter after a part ends it. */
  lemma SamePart(boundary: string, p: string, x: string, q: string, y: string)
    requires FreeOf(p, boundary) && FreeOf(q, boundary) && '\r' !in boundary && '\n' !in boundary
    requires StandsIn(x, "--" + boundary, 0) && StandsIn(y, "--" + boundary, 0)
    requires p + "\r\n" + x == q + "\r\n" + y
    ensures p == q && x == y
  {
    var d := "--" + boundary;
    var s := p + "\r\n" + x;
    assert s[|p| + 2..] == x && s[|q| + 2..] == y;
    StandsLater(p, x, d);
    StandsLater(q, y, d);
    if |p| < |q| { NotBefore(q, y, d, |p| + 2); }
    if |q| < |p| { NotBefore(p, x, d, |q| + 2); }
    assert p == s[..|p|] && q == s[..|q|];
  }

  lemma StandsLater(p: string, x: string, d: string)
    requires StandsIn(x, d, 0)
    ensures StandsIn(p + "\r\n" + x, d, |p| + 2)
  {
    assert (p + "\r\n" + x)[|p| + 2..|p| + 2 + |d|] == x[..|d|];
  }

  lemma MultipartStarts(boundary: string, parts: seq<string>)
    ensures StandsIn(Multipart(boundary, parts), "--" + boundary, 0)
    ensures |Multipart(boundary, parts)| >= |boundary| + 4
    ensures Multipart(boundary, parts)[|boundary| + 2] == if parts == [] then '-' else '\r'
  {
    var d := "--" + boundary;
    if parts == [] {
      assert Multipart(boundary, parts) == d + "--\r\n";
    } else {
      assert Multipart(boundary, parts) == d + ("\r\n" + parts[0] + "\r\n" + Multipart(boundary, parts[1..]));
    }
  }

  lemma MultipartCons(boundary: string, parts: seq<string>)
    requires parts != []
    ensures var opening := "--" + boundary + "\r\n";
      && |Multipart(boundary, parts)| >= |opening|
      && Multipart(boundary, parts)[|opening|..] == parts[0] + "\r\n" + Multipart(boundary, parts[1..])
  {
    var opening := "--" + boundary + "\r\n";
    assert Multipart(boundary, parts) == opening + (parts[0] + "\r\n" + Multipart(boundary, parts[1..]));
  }

  /**
    A multipart has only one reading in parts that do not contain its boundary: whoever splits it
    there gets the parts back.
  */
  lemma {:induction false} BoundaryReadsBack(boundary: string, ps: seq<string>, qs: seq<string>)
    requires '\r' !in boundary && '\n' !in boundary
    requires forall i :: 0 <= i < |ps| ==> FreeOf(ps[i], boundary)
    requires forall i :: 0 <= i < |qs| ==> FreeOf(qs[i], boundary)
    requires Multipart(boundary, ps) == Multipart(boundary, qs)
    ensures ps == qs
    decreases |ps|
  {
    hide FreeOf, StandsIn, Multipart;
    MultipartStarts(boundary, ps);
    MultipartStarts(boundary, qs);
    if ps != [] {
      MultipartStarts(boundary, ps[1..]);
      MultipartStarts(boundary, qs[1..]);
      MultipartCons(boundary, ps);
      MultipartCons(boundary, qs);
      SamePart(boundary, ps[0], Multipart(boundary, ps[1..]), qs[0], Multipart(boundary, qs[1..]));
      BoundaryReadsBack(boundary, ps[1..], qs[1..]);
      assert ps == [ps[0]] + ps[1..] && qs == [qs[0]] + qs[1..];
    }
  }

  /** Whoever splits the body of a full multipart rendering at its boundary gets its parts back. */
  lemma MessageSplitsBack(msg: Message, atts: seq<Attachment>, found: seq<string>)
    requires atts != [] && '\r' !in msg.outerBoundary && '\n' !in msg.outerBoundary
    requires forall i :: 0 <= i < |PartTexts(msg, atts)| ==> FreeOf(PartTexts(msg, atts)[i], msg.outerBoundary)
    requires forall i :: 0 <= i < |found| ==> FreeOf(found[i], msg.outerBoundary)
    requires var r := RenderedOf(msg, atts, FULL);
             r.headerEnd <= |r.text| && r.text[r.headerEnd..] == Multipart(msg.outerBoundary, found)
    ensures found == PartTexts(msg, atts)
  {
    hide ArrangementOf, TextPartOf, PartTexts, Multipart, PrintChildren, Closing, WrittenText, MessageHeader, FreeOf,
      MessageDocOf, MessagePartsOf, MessageStructureOf;
    FullRenderingPrints(msg, atts);
    ChildrenPrint(msg, atts);
    var t, cs := TextPartOf(msg, FULL), ArrangementOf(msg, atts).children;
    PrintsMultipart(t, msg.outerBoundary, cs, PartTexts(msg, atts));
    var h := MessageHeader(msg, atts);
    ThreeTexts(h, PrintChildren(t, msg.outerBoundary, cs), Closing(msg.outerBoundary));
    var body := Multipart(msg.outerBoundary, PartTexts(msg, atts));
    assert (h + body)[|h|..] == body;
    BoundaryReadsBack(msg.outerBoundary, found, PartTexts(msg, atts));
  }
}
