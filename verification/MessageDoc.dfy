/**
  A rendered message as a document: the chunks each mode writes, the ranges it records for each
  IMAP section, and the structure it describes. Texts are sequences of bytes. Header values,
  notes and boundaries are opaque strings.
*/
module MessageDoc {
  import opened Text
  import opened LineEndings
  import opened Base64Lines

  // ---------- messages ----------

  /** The parts of an attachment's header and structure that do not depend on its data. */
  datatype AttachmentTexts = AttachmentTexts(
    contentType: string,
    nameParam: string,
    filenameParams: string,
    contentIdLine: string,
    quotedType: string,
    quotedSubtype: string,
    quotedName: string,
    quotedContentId: string
  )

  datatype Attachment = Attachment(
    texts: AttachmentTexts,
    contentId: Option<string>,
    isInline: bool,
    size: int,
    data: seq<Byte>
  )

  datatype TextPart = TextPart(body: Option<string>, lenHint: nat, suffix: string, isHtml: bool)

  datatype Child =
    | Text(header: string)
    | Attached(attachment: Attachment, inline: bool)
    | Related(boundary: string, children: seq<Child>)

  /** What a run of the writer is asked for. */
  datatype Mode = Mode(materialize: bool, attachmentData: bool, onDemand: bool)

  const FULL: Mode := Mode(true, true, false)

  function RawSize(a: Attachment): nat {
    if a.data == [] then (if a.size < 0 then 0 else a.size) else |a.data|
  }

  const CRLF: string := "\r\n"

  function AttachmentHeader(a: Attachment, inline: bool): string {
    "Content-Type: " + a.texts.contentType + "; " + a.texts.nameParam + CRLF
    + "Content-Transfer-Encoding: base64" + CRLF
    + "Content-Disposition: " + (if inline then "inline" else "attachment") + "; " + a.texts.filenameParams
    + "; size=" + Decimal(RawSize(a)) + CRLF
    + a.texts.contentIdLine + CRLF
  }

  function RelatedHeader(boundary: string): string {
    "Content-Type: multipart/related; boundary=\"" + boundary + "\"" + CRLF + CRLF
  }

  function Header(c: Child): string {
    match c
    case Text(h) => h
    case Attached(a, inline) => AttachmentHeader(a, inline)
    case Related(b, _) => RelatedHeader(b)
  }

  function Opening(boundary: string): string {
    "--" + boundary + CRLF
  }

  function Closing(boundary: string): string {
    "--" + boundary + "--" + CRLF
  }

  // ---------- documents ----------

  /** A piece of output: bytes, or bytes that are only counted. */
  datatype Chunk = Lit(bytes: string) | Hole(len: nat)

  function ChunkLen(c: Chunk): nat {
    match c case Lit(s) => |s| case Hole(n) => n
  }

  function DocLen(doc: seq<Chunk>): nat {
    if doc == [] then 0 else ChunkLen(doc[0]) + DocLen(doc[1..])
  }

  function AttachmentChunk(m: Mode, a: Attachment): Chunk {
    if m.materialize && m.attachmentData && !(m.onDemand && a.data == []) then Lit(Body(a.data))
    else Hole(EncodedLen(RawSize(a)))
  }

  function TextDoc(t: TextPart): seq<Chunk> {
    [if t.body.Some? then Lit(ToCrlf(t.body.value)) else Hole(t.lenHint), Lit(t.suffix)]
  }

  function BodyDoc(m: Mode, t: TextPart, c: Child): seq<Chunk>
    decreases c, 0
  {
    match c
    case Text(_) => TextDoc(t)
    case Attached(a, _) => [AttachmentChunk(m, a)]
    case Related(b, cs) => ChildrenDoc(m, t, b, cs) + [Lit(Closing(b))]
  }

  function ChildrenDoc(m: Mode, t: TextPart, boundary: string, cs: seq<Child>): seq<Chunk>
    decreases cs, 0
  {
    if cs == [] then []
    else
      [Lit(Opening(boundary)), Lit(Header(cs[0]))] + BodyDoc(m, t, cs[0]) + [Lit(CRLF)]
      + ChildrenDoc(m, t, boundary, cs[1..])
  }

  function ChildDoc(m: Mode, t: TextPart, c: Child): seq<Chunk> {
    [Lit(Header(c))] + BodyDoc(m, t, c)
  }

  lemma ChildDocLen(m: Mode, t: TextPart, c: Child)
    ensures DocLen(ChildDoc(m, t, c)) == |Header(c)| + DocLen(BodyDoc(m, t, c))
  {
    assert ChildDoc(m, t, c)[1..] == BodyDoc(m, t, c);
  }

  lemma {:induction false} DocLenConcat(a: seq<Chunk>, b: seq<Chunk>)
    ensures DocLen(a + b) == DocLen(a) + DocLen(b)
  {
    if a == [] {
      assert a + b == b;
    } else {
      assert (a + b)[1..] == a[1..] + b;
      DocLenConcat(a[1..], b);
    }
  }

  // ---------- recorded sections ----------

  datatype Part = Part(section: string, headerStart: nat, headerEnd: nat, bodyStart: nat, bodyEnd: nat)

  /** Section numbers of RFC 3501, section 6.4.5: "2", or "1.2" inside section 1. */
  function ChildSection(section: string, number: nat): string {
    if section == "" then Decimal(number) else section + "." + Decimal(number)
  }

  function PartAt(m: Mode, t: TextPart, section: string, start: nat, c: Child): Part {
    var headerEnd := start + |Header(c)|;
    Part(section, start, headerEnd, headerEnd, headerEnd + DocLen(BodyDoc(m, t, c)))
  }

  /** The sections recorded for a child written at `start`, inner ones first. */
  function PartsOf(m: Mode, t: TextPart, section: string, start: nat, c: Child): seq<Part>
    decreases c, 0
  {
    (match c
     case Related(b, cs) => ChildrenParts(m, t, section, b, 1, start + |Header(c)|, cs)
     case _ => [])
    + [PartAt(m, t, section, start, c)]
  }

  function ChildrenParts(m: Mode, t: TextPart, section: string, boundary: string, number: nat, start: nat,
      cs: seq<Child>): seq<Part>
    decreases cs, 0
  {
    if cs == [] then []
    else
      var at := start + |Opening(boundary)|;
      PartsOf(m, t, ChildSection(section, number), at, cs[0])
      + ChildrenParts(m, t, section, boundary, number + 1, at + DocLen(ChildDoc(m, t, cs[0])) + |CRLF|, cs[1..])
  }

  // ---------- described structure ----------

  function LineCount(s: string): nat {
    if s == [] then 0 else (if s[0] == '\n' then 1 else 0) + LineCount(s[1..])
  }

  function TextStructure(isHtml: bool, written: string): string {
    "(\"TEXT\" \"" + (if isHtml then "HTML" else "PLAIN") + "\" (\"CHARSET\" \"UTF-8\") NIL NIL \"8BIT\" "
    + Decimal(|written|) + " " + Decimal(LineCount(written)) + ")"
  }

  function AttachmentStructure(a: Attachment, inline: bool, encodedSize: nat): string {
    "(" + a.texts.quotedType + " " + a.texts.quotedSubtype + " (\"NAME\" " + a.texts.quotedName + ") "
    + a.texts.quotedContentId + " NIL \"BASE64\" " + Decimal(encodedSize) + " NIL ("
    + (if inline then "\"INLINE\"" else "\"ATTACHMENT\"") + " (\"FILENAME\" " + a.texts.quotedName + ")) NIL)"
  }

  function MultipartStructure(parts: string, subtype: string, boundary: string): string {
    "(" + parts + " \"" + subtype + "\" (\"BOUNDARY\" \"" + boundary + "\") NIL NIL)"
  }

  /** The written text of a message's text part. */
  function WrittenText(t: TextPart): string
    requires t.body.Some?
  {
    ToCrlf(t.body.value) + t.suffix
  }

  function StructureOf(m: Mode, t: TextPart, c: Child): string
    decreases c, 0
  {
    match c
    case Text(_) => if m.materialize && t.body.Some? then TextStructure(t.isHtml, WrittenText(t)) else ""
    case Attached(a, inline) => AttachmentStructure(a, inline, ChunkLen(AttachmentChunk(m, a)))
    case Related(b, cs) => MultipartStructure(StructuresOf(m, t, cs), "RELATED", b)
  }

  function StructuresOf(m: Mode, t: TextPart, cs: seq<Child>): string
    decreases cs, 0
  {
    if cs == [] then "" else StructureOf(m, t, cs[0]) + StructuresOf(m, t, cs[1..])
  }

  // ---------- where text may stand ----------

  ghost predicate NoText(c: Child)
    decreases c, 0
  {
    match c
    case Text(_) => false
    case Attached(_, _) => true
    case Related(_, cs) => NoTexts(cs)
  }

  ghost predicate NoTexts(cs: seq<Child>)
    decreases cs, 0
  {
    cs != [] ==> NoText(cs[0]) && NoTexts(cs[1..])
  }

  /** Text comes before every attachment. */
  ghost predicate TextFirst(c: Child)
    decreases c, 0
  {
    c.Related? ==> TextsFirst(c.children)
  }

  ghost predicate TextsFirst(cs: seq<Child>)
    decreases cs, 0
  {
    cs != [] ==> TextFirst(cs[0]) && NoTexts(cs[1..])
  }
}
