/**
  Rendering a cached message. `Render` is the program's entry point; `RenderedOf` is what it
  yields, in terms of documents.
*/
module MessageRender {
  import opened Text
  import opened MessageDoc
  import opened MessageWriter

  datatype Message = Message(
    topHeader: string,
    metaIsHtml: Option<bool>,
    body: Option<string>,
    size: int,
    attachmentsState: int,
    listed: nat,
    trust: seq<string>,
    pending: string,
    failed: string,
    outerBoundary: string,
    innerBoundary: string
  )

  const ATTACHMENTS_PENDING: int := 1
  const ATTACHMENTS_STORED: int := 2
  const ATTACHMENTS_FAILED: int := 3
  const ATTACHMENTS_ON_DEMAND: int := 4

  const LEGACY_NOTE_PREFIX: string := "[This message has "

  predicate Contains(s: string, sub: string) {
    |sub| <= |s| && (s[..|sub|] == sub || (s != [] && Contains(s[1..], sub)))
  }

  predicate LooksLikeHtml(body: string) {
    || Contains(body, "</") || Contains(body, "<html") || Contains(body, "<body")
    || Contains(body, "<div") || Contains(body, "<p ") || Contains(body, "<!DOCTYPE")
  }

  function BodyOr(body: Option<string>): string {
    if body.Some? then body.value else ""
  }

  predicate DetectHtml(msg: Message) {
    if msg.metaIsHtml.Some? then msg.metaIsHtml.value else LooksLikeHtml(BodyOr(msg.body))
  }

  function EscapeHtml(s: string): string {
    ReplaceChar(ReplaceChar(ReplaceChar(ReplaceChar(s, '&', "&amp;"), '<', "&lt;"), '>', "&gt;"), '"', "&quot;")
  }

  /** A note below the body, as it reads in HTML and in plain text. */
  function NoteSuffix(note: string, isHtml: bool): string {
    if isHtml then "\r\n<p>" + EscapeHtml(note) + "</p>" else "\r\n\r\n" + note
  }

  function NotesSuffix(notes: seq<string>, isHtml: bool): string {
    if notes == [] then "" else NoteSuffix(notes[0], isHtml) + NotesSuffix(notes[1..], isHtml)
  }

  /** The note on missing attachments, if there is one. */
  function StatusNotes(msg: Message): seq<string> {
    if msg.attachmentsState != ATTACHMENTS_PENDING && msg.attachmentsState != ATTACHMENTS_FAILED then []
    else if msg.body.Some? && Contains(msg.body.value, LEGACY_NOTE_PREFIX) then []
    else if msg.listed == 0 then []
    else [if msg.attachmentsState == ATTACHMENTS_PENDING then msg.pending else msg.failed]
  }

  function TextPartOf(msg: Message, m: Mode): TextPart {
    var isHtml := DetectHtml(msg);
    TextPart(if m.materialize then Some(BodyOr(msg.body)) else msg.body,
             if msg.size < 0 then 0 else msg.size,
             NotesSuffix(msg.trust, isHtml) + NotesSuffix(StatusNotes(msg), isHtml),
             isHtml)
  }

  function ModeOf(msg: Message, materialize: bool, attachmentData: bool): Mode {
    Mode(materialize, attachmentData, msg.attachmentsState == ATTACHMENTS_ON_DEMAND)
  }

  // ---------- arranging the parts ----------

  function TextContentType(isHtml: bool): string {
    if isHtml then "Content-Type: text/html; charset=utf-8\r\n" else "Content-Type: text/plain; charset=utf-8\r\n"
  }

  function TextHeader(isHtml: bool): string {
    TextContentType(isHtml) + "Content-Transfer-Encoding: 8bit\r\n\r\n"
  }

  predicate ShownInline(a: Attachment, isHtml: bool) {
    isHtml && a.isInline && a.contentId.Some? && Trim(a.contentId.value, IsSpace) != []
  }

  function Select(atts: seq<Attachment>, isHtml: bool, inline: bool): seq<Attachment> {
    if atts == [] then []
    else
      Select(atts[..|atts| - 1], isHtml, inline)
      + if ShownInline(atts[|atts| - 1], isHtml) == inline then [atts[|atts| - 1]] else []
  }

  function AttachAll(atts: seq<Attachment>, inline: bool): seq<Child> {
    if atts == [] then [] else [Attached(atts[0], inline)] + AttachAll(atts[1..], inline)
  }

  datatype Arrangement = Arrangement(subtype: string, lowerSubtype: string, children: seq<Child>)

  function Arrange(msg: Message, isHtml: bool, inline: seq<Attachment>, regular: seq<Attachment>): Arrangement {
    var text := Text(TextHeader(isHtml));
    if inline == [] then Arrangement("MIXED", "mixed", [text] + AttachAll(regular, false))
    else if regular == [] then Arrangement("RELATED", "related", [text] + AttachAll(inline, true))
    else Arrangement("MIXED", "mixed",
                     [Related(msg.innerBoundary, [text] + AttachAll(inline, true))] + AttachAll(regular, false))
  }

  function ArrangementOf(msg: Message, atts: seq<Attachment>): Arrangement {
    var isHtml := DetectHtml(msg);
    Arrange(msg, isHtml, Select(atts, isHtml, true), Select(atts, isHtml, false))
  }

  function SingleHeader(msg: Message): string {
    msg.topHeader + TextHeader(DetectHtml(msg))
  }

  function MultipartHeader(msg: Message, lowerSubtype: string): string {
    msg.topHeader + "Content-Type: multipart/" + lowerSubtype + "; boundary=\"" + msg.outerBoundary + "\"\r\n\r\n"
  }

  function MessageHeader(msg: Message, atts: seq<Attachment>): string {
    if atts == [] then SingleHeader(msg) else MultipartHeader(msg, ArrangementOf(msg, atts).lowerSubtype)
  }

  // ---------- the result ----------

  datatype Rendered = Rendered(
    text: string,
    size: nat,
    headerEnd: nat,
    parts: seq<Part>,
    bodystructure: string,
    missingFrom: Option<nat>
  )
  {
    function FindPart(section: string): (r: Option<Part>)
      ensures r.Some? ==> r.value in parts && r.value.section == section
      ensures r.None? ==> forall p :: p in parts ==> p.section != section
    {
      FirstPart(parts, section)
    }

    /** A range of the text, if all of it is there. */
    function Slice(start: nat, end: nat): Option<string> {
      if start <= end <= |text| then Some(text[start..end]) else None
    }

    function PartBody(section: string): Option<string> {
      match FindPart(section) case None => None case Some(p) => Slice(p.bodyStart, p.bodyEnd)
    }

    function PartHeader(section: string): Option<string> {
      match FindPart(section) case None => None case Some(p) => Slice(p.headerStart, p.headerEnd)
    }

    predicate HasBytes(end: nat) {
      missingFrom.None? || end <= missingFrom.value
    }

    predicate HasPartBody(section: string) {
      match FindPart(section) case None => true case Some(p) => HasBytes(p.bodyEnd)
    }

    predicate HasPartHeader(section: string) {
      match FindPart(section) case None => true case Some(p) => HasBytes(p.headerEnd)
    }
  }

  function FirstPart(parts: seq<Part>, section: string): (r: Option<Part>)
    ensures r.Some? ==> r.value in parts && r.value.section == section
    ensures r.None? ==> forall p :: p in parts ==> p.section != section
  {
    if parts == [] then None else if parts[0].section == section then Some(parts[0]) else FirstPart(parts[1..], section)
  }

  ghost function MessageDocOf(msg: Message, atts: seq<Attachment>, m: Mode): seq<Chunk> {
    var t := TextPartOf(msg, m);
    if atts == [] then ChildDoc(m, t, Text(SingleHeader(msg)))
    else MultipartDoc(m, t, msg.outerBoundary, MessageHeader(msg, atts), ArrangementOf(msg, atts).children)
  }

  ghost function MessagePartsOf(msg: Message, atts: seq<Attachment>, m: Mode): seq<Part> {
    var t := TextPartOf(msg, m);
    if atts == [] then PartsOf(m, t, "1", 0, Text(SingleHeader(msg)))
    else ChildrenParts(m, t, "", msg.outerBoundary, 1, |MessageHeader(msg, atts)|, ArrangementOf(msg, atts).children)
  }

  ghost function MessageStructureOf(msg: Message, atts: seq<Attachment>, m: Mode): string {
    var t := TextPartOf(msg, m);
    if atts == [] then StructureOf(m, t, Text(SingleHeader(msg)))
    else
      var a := ArrangementOf(msg, atts);
      MultipartStructure(StructuresOf(m, t, a.children), a.subtype, msg.outerBoundary)
  }

  const NOTHING: Written := Written("", 0, None)

  ghost function RenderedOf(msg: Message, atts: seq<Attachment>, m: Mode): Rendered {
    var w := Emit(m, NOTHING, MessageDocOf(msg, atts, m));
    Rendered(w.buf, w.len, |MessageHeader(msg, atts)|, MessagePartsOf(msg, atts, m),
             MessageStructureOf(msg, atts, m), w.gap)
  }

  lemma {:induction false} AttachmentsHaveNoText(atts: seq<Attachment>, inline: bool)
    ensures NoTexts(AttachAll(atts, inline))
  {
    if atts != [] {
      AttachmentsHaveNoText(atts[1..], inline);
      var cs := AttachAll(atts, inline);
      assert cs[1..] == AttachAll(atts[1..], inline);
    }
  }

  lemma TextLeads(head: Child, tail: seq<Child>)
    requires TextFirst(head) && NoTexts(tail)
    ensures TextsFirst([head] + tail)
  {
    assert ([head] + tail)[1..] == tail;
  }

  /** However the parts are arranged, the text comes first. */
  lemma ArrangementStartsWithText(msg: Message, isHtml: bool, inline: seq<Attachment>, regular: seq<Attachment>)
    ensures TextsFirst(Arrange(msg, isHtml, inline, regular).children)
  {
    hide AttachAll, NoTexts, TextsFirst;
    var text := Text(TextHeader(isHtml));
    AttachmentsHaveNoText(inline, true);
    AttachmentsHaveNoText(regular, false);
    TextLeads(text, AttachAll(inline, true));
    TextLeads(text, AttachAll(regular, false));
    var inner := Related(msg.innerBoundary, [text] + AttachAll(inline, true));
    assert TextFirst(inner);
    TextLeads(inner, AttachAll(regular, false));
  }

  method Render(msg: Message, attachments: seq<Attachment>, materialize: bool, attachmentData: bool)
    returns (r: Rendered)
    ensures r == RenderedOf(msg, attachments, ModeOf(msg, materialize, attachmentData))
  {
    hide Emit, ChildrenDoc, ChildrenParts, StructuresOf, Arrange, DetectHtml, StructureOf, PartsOf, Select;
    var isHtml := DetectHtml(msg);
    var mode := ModeOf(msg, materialize, attachmentData);
    var text := TextPartOf(msg, mode);
    var out := new Out(mode);
    var ctx := new Ctx(out, text);
    if attachments == [] {
      var top := SingleHeader(msg);
      var structure := ctx.WriteTextPart("1", top);
      return Rendered(out.buf, out.len, |top|, ctx.parts, structure, out.gap);
    }
    var inline, regular := Divide(attachments, isHtml);
    ArrangementStartsWithText(msg, isHtml, inline, regular);
    var a := Arrange(msg, isHtml, inline, regular);
    var top := MultipartHeader(msg, a.lowerSubtype);
    var structure := ctx.WriteMultipart("", a.subtype, msg.outerBoundary, top, a.children);
    r := Rendered(out.buf, out.len, |top|, ctx.parts, structure, out.gap);
  }

  method Divide(attachments: seq<Attachment>, isHtml: bool) returns (inline: seq<Attachment>, regular: seq<Attachment>)
    ensures inline == Select(attachments, isHtml, true) && regular == Select(attachments, isHtml, false)
  {
    inline, regular := [], [];
    for i := 0 to |attachments|
      invariant inline == Select(attachments[..i], isHtml, true)
      invariant regular == Select(attachments[..i], isHtml, false)
    {
      assert attachments[..i + 1][..i] == attachments[..i];
      if ShownInline(attachments[i], isHtml) {
        inline := inline + [attachments[i]];
      } else {
        regular := regular + [attachments[i]];
      }
    }
    assert attachments[..|attachments|] == attachments;
  }
}
