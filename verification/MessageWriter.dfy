/**
  The writer. One set of methods serves three modes: the full text, the size alone, and the
  layout, which stops emitting bytes at the first attachment whose data is missing but keeps
  counting. Each method is tied to the document of `MessageDoc`.
*/
module MessageWriter {
  import opened Text
  import opened LineEndings
  import opened Base64Lines
  import opened MessageDoc

  datatype Written = Written(buf: string, len: nat, gap: Option<nat>)

  /** Writing one chunk: bytes reach the buffer only before the first gap. */
  function EmitOne(m: Mode, w: Written, c: Chunk): Written {
    match c
    case Lit(s) => Written(if m.materialize && w.gap.None? then w.buf + s else w.buf, w.len + |s|, w.gap)
    case Hole(n) => Written(w.buf, w.len + n, if m.materialize && w.gap.None? then Some(w.len) else w.gap)
  }

  function Emit(m: Mode, w: Written, doc: seq<Chunk>): Written
    decreases |doc|
  {
    if doc == [] then w else Emit(m, EmitOne(m, w, doc[0]), doc[1..])
  }

  lemma {:induction false} EmitConcat(m: Mode, w: Written, a: seq<Chunk>, b: seq<Chunk>)
    ensures Emit(m, w, a + b) == Emit(m, Emit(m, w, a), b)
    decreases |a|
  {
    if a == [] {
      assert a + b == b;
    } else {
      assert (a + b)[1..] == a[1..] + b;
      EmitConcat(m, EmitOne(m, w, a[0]), a[1..], b);
    }
  }

  lemma EmitSingle(m: Mode, w: Written, c: Chunk)
    ensures Emit(m, w, [c]) == EmitOne(m, w, c)
  {
  }

  /** What comes before the first bytes that are only counted. */
  function BytesBeforeHole(doc: seq<Chunk>): string {
    if doc == [] || doc[0].Hole? then "" else doc[0].bytes + BytesBeforeHole(doc[1..])
  }

  /** In a mode that writes, the buffer is the document up to its first hole, and the gap is where that hole is. */
  lemma {:induction false} BufferEndsAtTheGap(m: Mode, w: Written, doc: seq<Chunk>)
    requires m.materialize && w.gap.None?
    ensures Emit(m, w, doc).buf == w.buf + BytesBeforeHole(doc)
    ensures Emit(m, w, doc).gap ==
      if exists i :: 0 <= i < |doc| && doc[i].Hole? then Some(w.len + |BytesBeforeHole(doc)|) else None
    decreases |doc|
  {
    if doc == [] {
      assert w.buf + "" == w.buf;
    } else if doc[0].Lit? {
      BufferEndsAtTheGap(m, EmitOne(m, w, doc[0]), doc[1..]);
      assert w.buf + doc[0].bytes + BytesBeforeHole(doc[1..]) == w.buf + (doc[0].bytes + BytesBeforeHole(doc[1..]));
      if i :| 0 <= i < |doc| && doc[i].Hole? { assert doc[1..][i - 1].Hole?; }
    } else {
      NothingAfterTheGap(m, EmitOne(m, w, doc[0]), doc[1..]);
      assert w.buf + "" == w.buf;
    }
  }

  lemma {:induction false} NothingAfterTheGap(m: Mode, w: Written, doc: seq<Chunk>)
    requires w.gap.Some?
    ensures Emit(m, w, doc).buf == w.buf && Emit(m, w, doc).gap == w.gap
    decreases |doc|
  {
    if doc != [] { NothingAfterTheGap(m, EmitOne(m, w, doc[0]), doc[1..]); }
  }

  /** The buffer is as long as what was written before the gap, and a gap needs a reason. */
  ghost predicate Sound(m: Mode, w: Written) {
    && (w.gap.Some? ==> m.materialize && (!m.attachmentData || m.onDemand) && w.gap.value <= w.len)
    && (m.materialize ==> |w.buf| == if w.gap.Some? then w.gap.value else w.len)
    && (!m.materialize ==> w.buf == "")
  }

  /** Chunks that this mode can produce. */
  ghost predicate Produces(m: Mode, doc: seq<Chunk>) {
    m.materialize && m.attachmentData && !m.onDemand ==> forall i :: 0 <= i < |doc| ==> doc[i].Lit?
  }

  lemma {:induction false} EmitIsSound(m: Mode, w: Written, doc: seq<Chunk>)
    requires Sound(m, w) && Produces(m, doc)
    ensures Sound(m, Emit(m, w, doc))
    ensures Emit(m, w, doc).len == w.len + DocLen(doc)
    ensures w.gap.Some? ==> Emit(m, w, doc).gap == w.gap && Emit(m, w, doc).buf == w.buf
    decreases |doc|
  {
    if doc != [] {
      EmitIsSound(m, EmitOne(m, w, doc[0]), doc[1..]);
    }
  }

  class Out {
    var buf: string
    var len: nat
    const mode: Mode
    var gap: Option<nat>

    ghost function State(): Written
      reads this
    {
      Written(buf, len, gap)
    }

    constructor (m: Mode)
      ensures mode == m && State() == Written("", 0, None)
    {
      buf, len, mode, gap := "", 0, m, None;
    }

    /** Counted always, kept only before the first gap; so the buffer stays in step with the counter. */
    method Push(s: string)
      modifies this
      ensures State() == EmitOne(mode, old(State()), Lit(s))
      ensures Sound(mode, old(State())) ==> Sound(mode, State())
      ensures mode.materialize && gap.None? ==> buf == old(buf) + s
      ensures !mode.materialize || gap.Some? ==> buf == old(buf)
    {
      if mode.materialize && gap.None? {
        buf := buf + s;
      }
      len := len + |s|;
    }

    method PushBase64(a: Attachment)
      requires Sound(mode, State())
      modifies this
      ensures State() == EmitOne(mode, old(State()), AttachmentChunk(mode, a))
    {
      var sizeHint := RawSize(a);
      if mode.materialize && (!mode.attachmentData || (mode.onDemand && a.data == [])) {
        if gap.None? {
          gap := Some(len);
        }
        len := len + EncodedLen(sizeHint);
      } else if mode.materialize && gap.None? {
        var lines, n := WriteLines(Encode(a.data));
        buf := buf + lines;
        len := len + n;
      } else {
        BodyLength(a.data);
        len := len + EncodedLen(sizeHint);
      }
    }

    method WriteText(t: TextPart)
      requires mode.materialize ==> t.body.Some?
      modifies this
      ensures State() == Emit(mode, old(State()), TextDoc(t))
    {
      ghost var before := State();
      match t.body {
        case Some(b) =>
          if mode.materialize {
            var converted := Convert(b);
            Push(converted);
          } else {
            var n := NormalizedLen(b);
            len := len + n;
          }
        case None => len := len + t.lenHint;
      }
      assert State() == EmitOne(mode, before, TextDoc(t)[0]);
      Push(t.suffix);
      assert Emit(mode, before, TextDoc(t)) == Emit(mode, State(), []) by {
        assert TextDoc(t)[1..] == [Lit(t.suffix)];
        EmitSingle(mode, EmitOne(mode, before, TextDoc(t)[0]), Lit(t.suffix));
      }
    }
  }

  // ---------- the recursive writer ----------

  ghost function MultipartDoc(m: Mode, t: TextPart, boundary: string, header: string, cs: seq<Child>): seq<Chunk> {
    [Lit(header)] + (ChildrenDoc(m, t, boundary, cs) + [Lit(Closing(boundary))])
  }

  ghost function MultipartParts(m: Mode, t: TextPart, section: string, boundary: string, header: string, start: nat,
      cs: seq<Child>): seq<Part> {
    var headerEnd := start + |header|;
    ChildrenParts(m, t, section, boundary, 1, headerEnd, cs)
    + if section == "" then []
      else [Part(section, start, headerEnd, headerEnd, start + DocLen(MultipartDoc(m, t, boundary, header, cs)))]
  }

  /** Text may still be written: nothing before it was left out. */
  ghost predicate Ready(m: Mode, t: TextPart, w: Written) {
    Sound(m, w) && (m.materialize ==> t.body.Some?)
  }

  lemma {:induction false} BodyProduces(m: Mode, t: TextPart, c: Child)
    requires m.materialize ==> t.body.Some?
    ensures Produces(m, BodyDoc(m, t, c))
    decreases c, 0
  {
    match c
    case Text(_) =>
    case Attached(_, _) =>
    case Related(b, cs) => ChildrenProduce(m, t, b, cs);
  }

  lemma {:induction false} ChildrenProduce(m: Mode, t: TextPart, boundary: string, cs: seq<Child>)
    requires m.materialize ==> t.body.Some?
    ensures Produces(m, ChildrenDoc(m, t, boundary, cs))
    decreases cs, 0
  {
    if cs != [] {
      BodyProduces(m, t, cs[0]);
      ChildrenProduce(m, t, boundary, cs[1..]);
    }
  }

  lemma ChildProduces(m: Mode, t: TextPart, c: Child)
    requires m.materialize ==> t.body.Some?
    ensures Produces(m, ChildDoc(m, t, c))
  {
    BodyProduces(m, t, c);
  }

  /** One child and its separators, as the loop writes them. */
  lemma EmitChild(m: Mode, w: Written, t: TextPart, boundary: string, cs: seq<Child>, tail: seq<Chunk>)
    requires cs != []
    ensures var begun := EmitOne(m, w, Lit(Opening(boundary)));
      var after := EmitOne(m, Emit(m, begun, ChildDoc(m, t, cs[0])), Lit(CRLF));
      Emit(m, w, ChildrenDoc(m, t, boundary, cs) + tail) == Emit(m, after, ChildrenDoc(m, t, boundary, cs[1..]) + tail)
  {
    var c := cs[0];
    var rest := ChildrenDoc(m, t, boundary, cs[1..]) + tail;
    var whole := ChildrenDoc(m, t, boundary, cs) + tail;
    assert whole == [Lit(Opening(boundary))] + (ChildDoc(m, t, c) + ([Lit(CRLF)] + rest));
    EmitConcat(m, w, [Lit(Opening(boundary))], ChildDoc(m, t, c) + ([Lit(CRLF)] + rest));
    EmitSingle(m, w, Lit(Opening(boundary)));
    var begun := EmitOne(m, w, Lit(Opening(boundary)));
    EmitConcat(m, begun, ChildDoc(m, t, c), [Lit(CRLF)] + rest);
    var body := Emit(m, begun, ChildDoc(m, t, c));
    EmitConcat(m, body, [Lit(CRLF)], rest);
    EmitSingle(m, body, Lit(CRLF));
  }

  lemma EmitHeader(m: Mode, w: Written, header: string, doc: seq<Chunk>)
    ensures Emit(m, w, [Lit(header)] + doc) == Emit(m, EmitOne(m, w, Lit(header)), doc)
  {
    EmitConcat(m, w, [Lit(header)], doc);
    EmitSingle(m, w, Lit(header));
  }

  /** What the loop has done and what it still has to do add up to the whole. */
  ghost predicate Progress(m: Mode, t: TextPart, section: string, boundary: string, cs: seq<Child>, number: nat,
                           w: Written, parts: seq<Part>, structures: string,
                           goal: Written, goalParts: seq<Part>, goalStructures: string) {
    && Sound(m, w)
    && Emit(m, w, ChildrenDoc(m, t, boundary, cs) + [Lit(Closing(boundary))]) == goal
    && parts + ChildrenParts(m, t, section, boundary, number, w.len, cs) == goalParts
    && structures + StructuresOf(m, t, cs) == goalStructures
    && TextsFirst(cs)
    && (m.materialize && w.gap.Some? ==> NoTexts(cs))
  }

  lemma NoTextIsFirst(c: Child)
    requires NoText(c)
    ensures TextFirst(c)
    decreases c, 0
  {
    if c.Related? { NoTextsAreFirst(c.children); }
  }

  lemma NoTextsAreFirst(cs: seq<Child>)
    requires NoTexts(cs)
    ensures TextsFirst(cs)
    decreases cs, 0
  {
    if cs != [] { NoTextIsFirst(cs[0]); }
  }

  /** After one child, the loop's account still adds up. */
  lemma ProgressStep(m: Mode, t: TextPart, section: string, boundary: string, cs: seq<Child>, number: nat,
                     w: Written, parts: seq<Part>, structures: string,
                     goal: Written, goalParts: seq<Part>, goalStructures: string)
    requires cs != [] && (m.materialize ==> t.body.Some?)
    requires Progress(m, t, section, boundary, cs, number, w, parts, structures, goal, goalParts, goalStructures)
    ensures var begun := EmitOne(m, w, Lit(Opening(boundary)));
      var after := EmitOne(m, Emit(m, begun, ChildDoc(m, t, cs[0])), Lit(CRLF));
      && Sound(m, begun) && (m.materialize && begun.gap.Some? ==> NoText(cs[0])) && TextFirst(cs[0])
      && Progress(m, t, section, boundary, cs[1..], number + 1, after,
                  parts + PartsOf(m, t, ChildSection(section, number), begun.len, cs[0]),
                  structures + StructureOf(m, t, cs[0]), goal, goalParts, goalStructures)
  {
    hide Emit, ChildrenDoc, BodyDoc, NoTexts, NoText, TextsFirst, StructureOf, PartsOf, StructuresOf, ChildrenParts,
      ChildDoc;
    var c := cs[0];
    var begun := EmitOne(m, w, Lit(Opening(boundary)));
    EmitChild(m, w, t, boundary, cs, [Lit(Closing(boundary))]);
    ChildProduces(m, t, c);
    EmitIsSound(m, begun, ChildDoc(m, t, c));
    FirstChildPlaced(cs);
    PartsStep(m, t, section, boundary, number, w.len, cs, parts);
    StructuresStep(m, t, cs, structures);
  }

  lemma FirstChildPlaced(cs: seq<Child>)
    requires cs != [] && TextsFirst(cs)
    ensures TextFirst(cs[0]) && NoTexts(cs[1..]) && TextsFirst(cs[1..])
    ensures NoTexts(cs) ==> NoText(cs[0])
  {
    NoTextsAreFirst(cs[1..]);
  }

  lemma PartsStep(m: Mode, t: TextPart, section: string, boundary: string, number: nat, start: nat, cs: seq<Child>,
      parts: seq<Part>)
    requires cs != []
    ensures var at := start + |Opening(boundary)|;
      parts + ChildrenParts(m, t, section, boundary, number, start, cs)
      == (parts + PartsOf(m, t, ChildSection(section, number), at, cs[0]))
         + ChildrenParts(m, t, section, boundary, number + 1, at + DocLen(ChildDoc(m, t, cs[0])) + |CRLF|, cs[1..])
  {
    hide PartsOf, ChildDoc, DocLen;
  }

  lemma StructuresStep(m: Mode, t: TextPart, cs: seq<Child>, structures: string)
    requires cs != []
    ensures structures + StructuresOf(m, t, cs) == (structures + StructureOf(m, t, cs[0])) + StructuresOf(m, t, cs[1..])
  {
    hide StructureOf;
  }

  class Ctx {
    const out: Out
    const text: TextPart
    var parts: seq<Part>

    constructor (o: Out, t: TextPart)
      ensures out == o && text == t && parts == []
    {
      out, text, parts := o, t, [];
    }

    method WriteTextPart(section: string, header: string) returns (structure: string)
      requires Ready(out.mode, text, out.State()) && (out.mode.materialize ==> out.gap.None?)
      modifies this, out
      ensures out.State() == Emit(out.mode, old(out.State()), ChildDoc(out.mode, text, Text(header)))
      ensures parts == old(parts) + PartsOf(out.mode, text, section, old(out.len), Text(header))
      ensures structure == StructureOf(out.mode, text, Text(header))
    {
      hide Emit, EmitOne, Sound, TextDoc, DocLen, Produces, WrittenText, TextStructure;
      ghost var before := out.State();
      EmitHeader(out.mode, before, header, TextDoc(text));
      var headerStart := out.len;
      out.Push(header);
      var headerEnd := out.len;
      out.WriteText(text);
      var bodyEnd := out.len;
      HeaderKeepsSound(out.mode, before, header);
      BodyProduces(out.mode, text, Text(header));
      EmitIsSound(out.mode, EmitOne(out.mode, before, Lit(header)), TextDoc(text));
      parts := parts + [Part(section, headerStart, headerEnd, headerEnd, bodyEnd)];
      if out.mode.materialize {
        TextLands(out.mode, EmitOne(out.mode, before, Lit(header)), text);
        assert out.buf[headerEnd..bodyEnd] == WrittenText(text);
        structure := TextStructure(text.isHtml, out.buf[headerEnd..bodyEnd]);
      } else {
        structure := "";
      }
    }

    method WriteAttachment(section: string, a: Attachment, inline: bool) returns (structure: string)
      requires Ready(out.mode, text, out.State())
      modifies this, out
      ensures out.State() == Emit(out.mode, old(out.State()), ChildDoc(out.mode, text, Attached(a, inline)))
      ensures parts == old(parts) + PartsOf(out.mode, text, section, old(out.len), Attached(a, inline))
      ensures structure == StructureOf(out.mode, text, Attached(a, inline))
    {
      hide AttachmentHeader, AttachmentStructure, AttachmentChunk, Emit, EmitOne, Sound;
      ghost var before := out.State();
      EmitHeader(out.mode, before, AttachmentHeader(a, inline), [AttachmentChunk(out.mode, a)]);
      var headerStart := out.len;
      out.Push(AttachmentHeader(a, inline));
      var headerEnd := out.len;
      EmitSingle(out.mode, out.State(), AttachmentChunk(out.mode, a));
      HeaderKeepsSound(out.mode, before, AttachmentHeader(a, inline));
      ChunkAddsLength(out.mode, out.State(), AttachmentChunk(out.mode, a));
      out.PushBase64(a);
      assert DocLen([AttachmentChunk(out.mode, a)]) == ChunkLen(AttachmentChunk(out.mode, a));
      var bodyEnd := out.len;
      parts := parts + [Part(section, headerStart, headerEnd, headerEnd, bodyEnd)];
      structure := AttachmentStructure(a, inline, bodyEnd - headerEnd);
    }

    /** One child of a multipart, whatever its kind. */
    method WriteChild(section: string, child: Child) returns (structure: string)
      requires section != "" && Ready(out.mode, text, out.State()) && TextFirst(child)
      requires out.mode.materialize && out.gap.Some? ==> NoText(child)
      modifies this, out
      ensures out.State() == Emit(out.mode, old(out.State()), ChildDoc(out.mode, text, child))
      ensures parts == old(parts) + PartsOf(out.mode, text, section, old(out.len), child)
      ensures structure == StructureOf(out.mode, text, child)
      decreases child, 0
    {
      hide Emit, ChildDoc, PartsOf, Sound;
      match child {
        case Text(h) =>
          structure := WriteTextPart(section, h);
        case Attached(a, inline) =>
          structure := WriteAttachment(section, a, inline);
        case Related(innerBoundary, innerChildren) =>
          RelatedIsMultipart(out.mode, text, section, out.len, innerBoundary, innerChildren);
          structure := WriteMultipart(section, "RELATED", innerBoundary, RelatedHeader(innerBoundary), innerChildren);
      }
    }

    method WriteMultipart(section: string, subtype: string, boundary: string, header: string, children: seq<Child>)
      returns (structure: string)
      requires Ready(out.mode, text, out.State()) && TextsFirst(children)
      requires out.mode.materialize && out.gap.Some? ==> NoTexts(children)
      modifies this, out
      ensures out.State() == Emit(out.mode, old(out.State()), MultipartDoc(out.mode, text, boundary, header, children))
      ensures parts == old(parts) + MultipartParts(out.mode, text, section, boundary, header, old(out.len), children)
      ensures structure == MultipartStructure(StructuresOf(out.mode, text, children), subtype, boundary)
      decreases children, 0
    {
      hide Emit, EmitOne, ChildrenParts, StructuresOf, TextsFirst, NoTexts, ChildrenDoc, Sound, Progress, PartsOf,
        StructureOf, ChildDoc, NoText, TextFirst;
      ghost var m, before := out.mode, out.State();
      ghost var doc := ChildrenDoc(m, text, boundary, children) + [Lit(Closing(boundary))];
      EmitHeader(m, before, header, doc);
      HeaderKeepsSound(m, before, header);
      var headerStart := out.len;
      out.Push(header);
      var headerEnd := out.len;
      ghost var goal := Emit(m, out.State(), doc);
      ghost var goalParts := parts + ChildrenParts(m, text, section, boundary, 1, headerEnd, children);
      ghost var goalStructures := StructuresOf(m, text, children);
      var structures := "";
      var idx := 0;
      assert children[0..] == children;
      ProgressStart(m, text, section, boundary, children, out.State(), parts, goal, goalParts, goalStructures);
      while idx < |children|
        invariant 0 <= idx <= |children|
        invariant Progress(m, text, section, boundary, children[idx..], idx + 1,
                           out.State(), parts, structures, goal, goalParts, goalStructures)
        decreases |children| - idx
      {
        var child := children[idx];
        assert children[idx..][0] == child && children[idx..][1..] == children[idx + 1..];
        var childSection := ChildSection(section, idx + 1);
        ProgressStep(m, text, section, boundary, children[idx..], idx + 1,
          out.State(), parts, structures, goal, goalParts, goalStructures);
        out.Push(Opening(boundary));
        var structureOfChild := WriteChild(childSection, child);
        structures := structures + structureOfChild;
        out.Push(CRLF);
        idx := idx + 1;
      }
      assert children[idx..] == [];
      ProgressEnd(m, text, section, boundary, idx + 1, out.State(), parts, structures, goal, goalParts, goalStructures);
      out.Push(Closing(boundary));
      var bodyEnd := out.len;
      MultipartLength(m, before, text, boundary, header, children);
      if section != "" {
        parts := parts + [Part(section, headerStart, headerEnd, headerEnd, bodyEnd)];
      }
      structure := MultipartStructure(structures, subtype, boundary);
    }
  }

  lemma HeaderKeepsSound(m: Mode, w: Written, header: string)
    requires Sound(m, w)
    ensures Sound(m, EmitOne(m, w, Lit(header))) && EmitOne(m, w, Lit(header)).gap == w.gap
    ensures EmitOne(m, w, Lit(header)).len == w.len + |header|
  {
  }

  lemma ChunkAddsLength(m: Mode, w: Written, c: Chunk)
    ensures EmitOne(m, w, c).len == w.len + ChunkLen(c)
  {
  }

  lemma ProgressStart(m: Mode, t: TextPart, section: string, boundary: string, cs: seq<Child>, w: Written,
      parts: seq<Part>,
                      goal: Written, goalParts: seq<Part>, goalStructures: string)
    requires Sound(m, w) && TextsFirst(cs) && (m.materialize && w.gap.Some? ==> NoTexts(cs))
    requires goal == Emit(m, w, ChildrenDoc(m, t, boundary, cs) + [Lit(Closing(boundary))])
    requires goalParts == parts + ChildrenParts(m, t, section, boundary, 1, w.len, cs)
    requires goalStructures == StructuresOf(m, t, cs)
    ensures Progress(m, t, section, boundary, cs, 1, w, parts, "", goal, goalParts, goalStructures)
  {
  }

  lemma ProgressEnd(m: Mode, t: TextPart, section: string, boundary: string, number: nat, w: Written, parts: seq<Part>,
      structures: string,
                    goal: Written, goalParts: seq<Part>, goalStructures: string)
    requires Progress(m, t, section, boundary, [], number, w, parts, structures, goal, goalParts, goalStructures)
    ensures EmitOne(m, w, Lit(Closing(boundary))) == goal && parts == goalParts && structures == goalStructures
  {
    EmitSingle(m, w, Lit(Closing(boundary)));
    assert ChildrenDoc(m, t, boundary, []) + [Lit(Closing(boundary))] == [Lit(Closing(boundary))];
    assert parts + [] == parts && structures + "" == structures;
  }

  lemma MultipartLength(m: Mode, w: Written, t: TextPart, boundary: string, header: string, cs: seq<Child>)
    requires Ready(m, t, w)
    ensures Emit(m, w, MultipartDoc(m, t, boundary, header, cs)).len
      == w.len + DocLen(MultipartDoc(m, t, boundary, header, cs))
  {
    ChildrenProduce(m, t, boundary, cs);
    EmitIsSound(m, w, MultipartDoc(m, t, boundary, header, cs));
  }

  lemma RelatedIsMultipart(m: Mode, t: TextPart, section: string, start: nat, boundary: string, cs: seq<Child>)
    requires section != ""
    ensures ChildDoc(m, t, Related(boundary, cs)) == MultipartDoc(m, t, boundary, RelatedHeader(boundary), cs)
    ensures PartsOf(m, t, section, start, Related(boundary, cs))
      == MultipartParts(m, t, section, boundary, RelatedHeader(boundary), start, cs)
    ensures TextFirst(Related(boundary, cs)) <==> TextsFirst(cs)
    ensures NoText(Related(boundary, cs)) <==> NoTexts(cs)
  {
    ChildDocLen(m, t, Related(boundary, cs));
  }

  /** The text part stands in the buffer where its range says. */
  lemma TextLands(m: Mode, w: Written, t: TextPart)
    requires m.materialize && Sound(m, w) && w.gap.None? && t.body.Some?
    ensures Emit(m, w, TextDoc(t)).buf == w.buf + WrittenText(t) && |w.buf| == w.len
    ensures DocLen(TextDoc(t)) == |WrittenText(t)|
  {
    hide ToCrlf, Emit, DocLen;
    var body, suffix := Lit(ToCrlf(t.body.value)), Lit(t.suffix);
    assert TextDoc(t) == [body] + [suffix];
    EmitConcat(m, w, [body], [suffix]);
    EmitSingle(m, w, body);
    EmitSingle(m, EmitOne(m, w, body), suffix);
    DocLenConcat([body], [suffix]);
    OneChunkLen(body);
    OneChunkLen(suffix);
    assert w.buf + body.bytes + suffix.bytes == w.buf + (body.bytes + suffix.bytes);
  }

  lemma OneChunkLen(c: Chunk)
    ensures DocLen([c]) == ChunkLen(c)
  {
    assert [c][1..] == [];
  }
}
