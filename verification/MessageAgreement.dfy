/**
  The cheap renderings agree with the full one: a layout or an on-demand rendering has the same
  size, ranges and structure and a prefix of the text, and the size alone can be computed
  without the body or any attachment data.
*/
module MessageAgreement {
  import opened LineEndings
  import opened Base64Lines
  import opened MessageDoc
  import opened MessageWriter
  import opened MessageRender
  import opened MessageSections

  // ---------- what the full rendering yields ----------

  ghost predicate AllLit(doc: seq<Chunk>) {
    forall i :: 0 <= i < |doc| ==> doc[i].Lit?
  }

  function Bytes(doc: seq<Chunk>): string {
    if doc == [] then "" else (if doc[0].Lit? then doc[0].bytes else "") + Bytes(doc[1..])
  }

  lemma {:induction false} BytesConcat(a: seq<Chunk>, b: seq<Chunk>)
    ensures Bytes(a + b) == Bytes(a) + Bytes(b)
  {
    if a == [] {
      assert a + b == b;
    } else {
      assert (a + b)[1..] == a[1..] + b;
      BytesConcat(a[1..], b);
    }
  }

  lemma {:induction false} BytesLength(doc: seq<Chunk>)
    requires AllLit(doc)
    ensures |Bytes(doc)| == DocLen(doc)
  {
    if doc != [] { BytesLength(doc[1..]); }
  }

  lemma {:induction false} FullBytes(t: TextPart, c: Child)
    requires t.body.Some?
    ensures Bytes(BodyDoc(FULL, t, c)) == PrintBody(t, c)
    decreases c, 0
  {
    hide Body;
    match c
    case Text(_) => assert TextDoc(t)[1..] == [TextDoc(t)[1]]; assert Bytes([TextDoc(t)[1]]) == t.suffix;
    case Attached(a, _) => assert Bytes([Lit(Body(a.data))]) == Body(a.data);
    case Related(b, cs) =>
      FullChildrenBytes(t, b, cs);
      BytesConcat(ChildrenDoc(FULL, t, b, cs), [Lit(Closing(b))]);
      assert Bytes([Lit(Closing(b))]) == Closing(b);
  }

  lemma {:induction false} FullChildrenBytes(t: TextPart, boundary: string, cs: seq<Child>)
    requires t.body.Some?
    ensures Bytes(ChildrenDoc(FULL, t, boundary, cs)) == PrintChildren(t, boundary, cs)
    decreases cs, 0
  {
    hide Header, Opening, BodyDoc, PrintBody;
    if cs != [] {
      FullBytes(t, cs[0]);
      FullChildrenBytes(t, boundary, cs[1..]);
      var opening, header, crlf := [Lit(Opening(boundary))], [Lit(Header(cs[0]))], [Lit(CRLF)];
      var body, rest := BodyDoc(FULL, t, cs[0]), ChildrenDoc(FULL, t, boundary, cs[1..]);
      assert ChildrenDoc(FULL, t, boundary, cs) == opening + (header + (body + (crlf + rest)));
      hide Bytes, ChildrenDoc;
      BytesConcat(opening, header + (body + (crlf + rest)));
      BytesConcat(header, body + (crlf + rest));
      BytesConcat(body, crlf + rest);
      BytesConcat(crlf, rest);
      BytesOfOne(Opening(boundary));
      BytesOfOne(Header(cs[0]));
      BytesOfOne(CRLF);
    }
  }

  lemma BytesOfOne(s: string)
    ensures Bytes([Lit(s)]) == s
  {
    assert [Lit(s)][1..] == [];
  }

  /** The document printed as a whole, header first. */
  function PrintMessage(msg: Message, atts: seq<Attachment>): string {
    var t := TextPartOf(msg, FULL);
    MessageHeader(msg, atts)
    + if atts == [] then WrittenText(t)
      else PrintChildren(t, msg.outerBoundary, ArrangementOf(msg, atts).children) + Closing(msg.outerBoundary)
  }

  lemma MessageBytes(msg: Message, atts: seq<Attachment>)
    ensures Bytes(MessageDocOf(msg, atts, FULL)) == PrintMessage(msg, atts)
    ensures AllLit(MessageDocOf(msg, atts, FULL))
  {
    hide PrintBody, PrintChildren, ArrangementOf, ChildrenDoc, MultipartHeader, SingleHeader;
    var t := TextPartOf(msg, FULL);
    var header := [Lit(MessageHeader(msg, atts))];
    assert Bytes(header) == MessageHeader(msg, atts);
    if atts == [] {
      FullBytes(t, Text(SingleHeader(msg)));
      assert PrintBody(t, Text(SingleHeader(msg))) == WrittenText(t) by { TextPrintsItself(t, SingleHeader(msg)); }
      assert MessageDocOf(msg, atts, FULL) == header + BodyDoc(FULL, t, Text(SingleHeader(msg)));
      BytesConcat(header, BodyDoc(FULL, t, Text(SingleHeader(msg))));
    } else {
      var b, cs := msg.outerBoundary, ArrangementOf(msg, atts).children;
      var closing := [Lit(Closing(b))];
      FullChildrenBytes(t, b, cs);
      ChildrenProduce(FULL, t, b, cs);
      BytesConcat(header, ChildrenDoc(FULL, t, b, cs) + closing);
      BytesConcat(ChildrenDoc(FULL, t, b, cs), closing);
      assert Bytes(closing) == Closing(b);
    }
  }

  lemma TextPrintsItself(t: TextPart, h: string)
    requires t.body.Some?
    ensures PrintBody(t, Text(h)) == WrittenText(t)
  {
  }

  // ---------- two documents of the same shape ----------

  /** `small` leaves some bytes of `full` uncounted for, but counts them. */
  ghost predicate Shape(small: seq<Chunk>, full: seq<Chunk>) {
    && |small| == |full|
    && (forall i :: 0 <= i < |full| ==> full[i].Lit? && ChunkLen(small[i]) == ChunkLen(full[i]))
    && (forall i :: 0 <= i < |full| && small[i].Lit? ==> small[i] == full[i])
  }

  lemma {:induction false} ShapeLength(small: seq<Chunk>, full: seq<Chunk>)
    requires Shape(small, full)
    ensures DocLen(small) == DocLen(full)
  {
    if full != [] { ShapeLength(small[1..], full[1..]); }
  }

  /** Writing the smaller document yields a prefix of the full text. */
  lemma {:induction false} EmitFollows(m: Mode, w: Written, small: seq<Chunk>, full: seq<Chunk>, before: string)
    requires Shape(small, full) && m.materialize && Sound(m, w) && Produces(m, small)
    requires w.len == |before| && w.buf == before[..|w.buf|]
    ensures Emit(m, w, small).len == |before + Bytes(full)|
    ensures |Emit(m, w, small).buf| <= |before + Bytes(full)|
    ensures Emit(m, w, small).buf == (before + Bytes(full))[..|Emit(m, w, small).buf|]
    decreases |full|
  {
    if full == [] {
      assert before + Bytes(full) == before;
    } else {
      hide EmitOne, Sound;
      var next := EmitOne(m, w, small[0]);
      var more := before + full[0].bytes;
      assert before + Bytes(full) == more + Bytes(full[1..]);
      OneFollows(m, w, small[0], full[0], before);
      EmitFollows(m, next, small[1..], full[1..], more);
    }
  }

  lemma OneFollows(m: Mode, w: Written, small: Chunk, full: Chunk, before: string)
    requires full.Lit? && Shape([small], [full]) && m.materialize && Sound(m, w) && Produces(m, [small])
    requires w.len == |before| && w.buf == before[..|w.buf|]
    ensures var next, more := EmitOne(m, w, small), before + full.bytes;
            Sound(m, next) && next.len == |more| && |next.buf| <= |more| && next.buf == more[..|next.buf|]
  {
    EmitIsSound(m, w, [small]);
    EmitSingle(m, w, small);
  }

  // ---------- advertised attachments ----------

  /** The same attachment with its data possibly not downloaded; the advertised size is the real one. */
  ghost predicate Advertises(small: Attachment, full: Attachment) {
    && full.size == |full.data|
    && (small == full || small == full.(data := []))
  }

  ghost predicate AllAdvertise(small: seq<Attachment>, full: seq<Attachment>) {
    |small| == |full| && forall i :: 0 <= i < |full| ==> Advertises(small[i], full[i])
  }

  ghost predicate ChildAdvertises(small: Child, full: Child)
    decreases full, 0
  {
    match (small, full)
    case (Text(h), Text(g)) => h == g
    case (Attached(a, i), Attached(b, j)) => i == j && Advertises(a, b)
    case (Related(b, cs), Related(d, ds)) => b == d && ChildrenAdvertise(cs, ds)
    case _ => false
  }

  ghost predicate ChildrenAdvertise(small: seq<Child>, full: seq<Child>)
    decreases full, 0
  {
    |small| == |full| && (full != [] ==> ChildAdvertises(small[0], full[0]) && ChildrenAdvertise(small[1..], full[1..]))
  }

  /** Modes in which missing attachment data is counted rather than written as nothing. */
  predicate Lazy(m: Mode) {
    !m.materialize || !m.attachmentData || m.onDemand
  }

  /** The same text part, or only its size. */
  ghost predicate TextAgrees(small: TextPart, full: TextPart) {
    && full.body.Some? && small.suffix == full.suffix && small.isHtml == full.isHtml
    && (small.body == full.body || (small.body.None? && small.lenHint == |ToCrlf(full.body.value)|))
  }

  lemma SameHeader(small: Child, full: Child)
    requires ChildAdvertises(small, full)
    ensures Header(small) == Header(full)
  {
    if full.Attached? {
      assert RawSize(small.attachment) == RawSize(full.attachment);
    }
  }

  lemma AttachmentShape(m: Mode, small: Attachment, full: Attachment)
    requires Lazy(m) && Advertises(small, full)
    ensures Shape([AttachmentChunk(m, small)], [AttachmentChunk(FULL, full)])
  {
    hide Body;
    BodyLength(full.data);
  }

  lemma ShapeConcat(a: seq<Chunk>, b: seq<Chunk>, c: seq<Chunk>, d: seq<Chunk>)
    requires Shape(a, c) && Shape(b, d)
    ensures Shape(a + b, c + d)
  {
  }

  lemma {:induction false} BodyShape(m: Mode, s: TextPart, t: TextPart, small: Child, full: Child)
    requires Lazy(m) && TextAgrees(s, t) && ChildAdvertises(small, full)
    ensures Shape(BodyDoc(m, s, small), BodyDoc(FULL, t, full))
    decreases full, 0
  {
    hide Advertises, AttachmentChunk, Shape;
    match full
    case Text(_) => TextShape(s, t);
    case Attached(a, _) => AttachmentShape(m, small.attachment, a);
    case Related(b, cs) =>
      ChildrenShape(m, s, t, b, small.children, cs);
      LitShape(Closing(b));
      ShapeConcat(ChildrenDoc(m, s, b, small.children), [Lit(Closing(b))], ChildrenDoc(FULL, t, b, cs),
        [Lit(Closing(b))]);
  }

  lemma TextShape(s: TextPart, t: TextPart)
    requires TextAgrees(s, t)
    ensures Shape(TextDoc(s), TextDoc(t))
  {
  }

  lemma LitShape(s: string)
    ensures Shape([Lit(s)], [Lit(s)])
  {
  }

  lemma {:induction false} ChildrenShape(m: Mode, s: TextPart, t: TextPart, boundary: string, small: seq<Child>,
      full: seq<Child>)
    requires Lazy(m) && TextAgrees(s, t) && ChildrenAdvertise(small, full)
    ensures Shape(ChildrenDoc(m, s, boundary, small), ChildrenDoc(FULL, t, boundary, full))
    decreases full, 0
  {
    hide Shape, ChildAdvertises, Header, BodyDoc, TextAgrees;
    if full == [] {
      EmptyShape();
    } else {
      BodyShape(m, s, t, small[0], full[0]);
      SameHeader(small[0], full[0]);
      ChildrenShape(m, s, t, boundary, small[1..], full[1..]);
      LitShape(Opening(boundary));
      LitShape(Header(full[0]));
      LitShape(CRLF);
      var o, h, e := [Lit(Opening(boundary))], [Lit(Header(full[0]))], [Lit(CRLF)];
      var a, b := BodyDoc(m, s, small[0]), ChildrenDoc(m, s, boundary, small[1..]);
      var c, d := BodyDoc(FULL, t, full[0]), ChildrenDoc(FULL, t, boundary, full[1..]);
      ShapeConcat(o, h, o, h);
      ShapeConcat(o + h, a, o + h, c);
      ShapeConcat(o + h + a, e, o + h + c, e);
      ShapeConcat(o + h + a + e, b, o + h + c + e, d);
      assert ChildrenDoc(m, s, boundary, small) == o + h + a + e + b;
      assert ChildrenDoc(FULL, t, boundary, full) == o + h + c + e + d;
    }
  }

  lemma EmptyShape()
    ensures Shape([], [])
  {
  }

  lemma {:induction false} SameParts(m: Mode, s: TextPart, t: TextPart, section: string, start: nat, small: Child,
      full: Child)
    requires Lazy(m) && TextAgrees(s, t) && ChildAdvertises(small, full)
    ensures PartsOf(m, s, section, start, small) == PartsOf(FULL, t, section, start, full)
    ensures DocLen(ChildDoc(m, s, small)) == DocLen(ChildDoc(FULL, t, full))
    decreases full, 0
  {
    hide BodyDoc, Header, Shape, TextAgrees, ChildDoc, ChildrenParts, ChildrenAdvertise, DocLen;
    SameHeader(small, full);
    BodyShape(m, s, t, small, full);
    ShapeLength(BodyDoc(m, s, small), BodyDoc(FULL, t, full));
    ChildDocLen(m, s, small);
    ChildDocLen(FULL, t, full);
    if full.Related? {
      SameChildrenParts(m, s, t, section, full.boundary, 1, start + |Header(full)|, small.children, full.children);
    }
  }

  lemma {:induction false} SameChildrenParts(m: Mode, s: TextPart, t: TextPart, section: string, boundary: string,
      number: nat, start: nat,
                                             small: seq<Child>, full: seq<Child>)
    requires Lazy(m) && TextAgrees(s, t) && ChildrenAdvertise(small, full)
    ensures ChildrenParts(m, s, section, boundary, number, start, small)
      == ChildrenParts(FULL, t, section, boundary, number, start, full)
    decreases full, 0
  {
    hide PartsOf, ChildDoc, TextAgrees, ChildAdvertises;
    if full != [] {
      var at := start + |Opening(boundary)|;
      SameParts(m, s, t, ChildSection(section, number), at, small[0], full[0]);
      SameChildrenParts(m, s, t, section, boundary, number + 1,
        at + DocLen(ChildDoc(FULL, t, full[0])) + |CRLF|, small[1..], full[1..]);
    }
  }

  lemma {:induction false} SameStructure(m: Mode, t: TextPart, small: Child, full: Child)
    requires Lazy(m) && m.materialize && t.body.Some? && ChildAdvertises(small, full)
    ensures StructureOf(m, t, small) == StructureOf(FULL, t, full)
    decreases full, 0
  {
    hide AttachmentChunk, TextStructure, MultipartStructure;
    match full
    case Text(_) =>
    case Attached(a, _) =>
      AttachmentShape(m, small.attachment, a);
      assert ChunkLen([AttachmentChunk(m, small.attachment)][0]) == ChunkLen([AttachmentChunk(FULL, a)][0]);
    case Related(_, cs) => SameStructures(m, t, small.children, cs);
  }

  lemma {:induction false} SameStructures(m: Mode, t: TextPart, small: seq<Child>, full: seq<Child>)
    requires Lazy(m) && m.materialize && t.body.Some? && ChildrenAdvertise(small, full)
    ensures StructuresOf(m, t, small) == StructuresOf(FULL, t, full)
    decreases full, 0
  {
    if full != [] {
      SameStructure(m, t, small[0], full[0]);
      SameStructures(m, t, small[1..], full[1..]);
    }
  }

  // ---------- arrangements agree ----------

  lemma {:induction false} SelectAgrees(small: seq<Attachment>, full: seq<Attachment>, isHtml: bool, inline: bool)
    requires AllAdvertise(small, full)
    ensures AllAdvertise(Select(small, isHtml, inline), Select(full, isHtml, inline))
  {
    if full != [] {
      var n := |full| - 1;
      SelectAgrees(small[..n], full[..n], isHtml, inline);
      assert Advertises(small[n], full[n]);
      assert ShownInline(small[n], isHtml) == ShownInline(full[n], isHtml);
      hide ShownInline, Advertises;
      var a, b := Select(small[..n], isHtml, inline), Select(full[..n], isHtml, inline);
      if ShownInline(full[n], isHtml) == inline {
        AdvertiseSnoc(a, small[n], b, full[n]);
      } else {
        assert a + [] == a && b + [] == b;
      }
    }
  }

  lemma AdvertiseSnoc(a: seq<Attachment>, x: Attachment, b: seq<Attachment>, y: Attachment)
    requires AllAdvertise(a, b) && Advertises(x, y)
    ensures AllAdvertise(a + [x], b + [y])
  {
    hide Advertises;
  }

  lemma {:induction false} AttachAgrees(small: seq<Attachment>, full: seq<Attachment>, inline: bool)
    requires AllAdvertise(small, full)
    ensures ChildrenAdvertise(AttachAll(small, inline), AttachAll(full, inline))
  {
    if full != [] {
      AttachAgrees(small[1..], full[1..], inline);
      var cs, ds := AttachAll(small, inline), AttachAll(full, inline);
      assert cs[1..] == AttachAll(small[1..], inline) && ds[1..] == AttachAll(full[1..], inline);
    }
  }

  lemma ConsAgrees(a: Child, b: Child, cs: seq<Child>, ds: seq<Child>)
    requires ChildAdvertises(a, b) && ChildrenAdvertise(cs, ds)
    ensures ChildrenAdvertise([a] + cs, [b] + ds)
  {
    assert ([a] + cs)[1..] == cs && ([b] + ds)[1..] == ds;
  }

  lemma ArrangeAgrees(p: Message, q: Message, isHtml: bool, si: seq<Attachment>, sr: seq<Attachment>,
      fi: seq<Attachment>, fr: seq<Attachment>)
    requires p.innerBoundary == q.innerBoundary && AllAdvertise(si, fi) && AllAdvertise(sr, fr)
    ensures var a, b := Arrange(p, isHtml, si, sr), Arrange(q, isHtml, fi, fr);
      a.subtype == b.subtype && a.lowerSubtype == b.lowerSubtype && ChildrenAdvertise(a.children, b.children)
  {
    hide AttachAll, ChildrenAdvertise;
    AttachAgrees(si, fi, true);
    AttachAgrees(sr, fr, false);
    var text := Text(TextHeader(isHtml));
    ConsAgrees(text, text, AttachAll(si, true), AttachAll(fi, true));
    ConsAgrees(text, text, AttachAll(sr, false), AttachAll(fr, false));
    ConsAgrees(
      Related(p.innerBoundary, [text] + AttachAll(si, true)), Related(q.innerBoundary, [text] + AttachAll(fi, true)),
               AttachAll(sr, false), AttachAll(fr, false)) by {
      RelatedAgrees(p.innerBoundary, [text] + AttachAll(si, true), [text] + AttachAll(fi, true));
    }
  }

  lemma RelatedAgrees(boundary: string, cs: seq<Child>, ds: seq<Child>)
    requires ChildrenAdvertise(cs, ds)
    ensures ChildAdvertises(Related(boundary, cs), Related(boundary, ds))
  {
  }

  // ---------- messages ----------

  /** The same message; the smaller one may lack the body, and then says how long it is. */
  ghost predicate SameMessage(small: Message, full: Message) {
    && small.topHeader == full.topHeader && small.trust == full.trust
    && small.outerBoundary == full.outerBoundary && small.innerBoundary == full.innerBoundary
    && DetectHtml(small) == DetectHtml(full)
    && StatusNotes(small) == StatusNotes(full)
    && (small.body == full.body || (small.body.None? && small.size == |ToCrlf(BodyOr(full.body))|))
  }

  /** The smaller rendering's mode keeps the body, or counts it. */
  ghost predicate Suits(m: Mode, small: Message, full: Message) {
    Lazy(m) && (m.materialize ==> BodyOr(small.body) == BodyOr(full.body))
    && (!m.materialize && small.body.None? ==> small.size == |ToCrlf(BodyOr(full.body))|)
  }

  lemma TextPartsAgree(m: Mode, small: Message, full: Message)
    requires SameMessage(small, full) && Suits(m, small, full)
    ensures TextAgrees(TextPartOf(small, m), TextPartOf(full, FULL))
    ensures m.materialize ==> TextPartOf(small, m).body == TextPartOf(full, FULL).body
  {
    hide DetectHtml, StatusNotes;
  }

  lemma MessagesArrangeAlike(small: Message, full: Message, sa: seq<Attachment>, fa: seq<Attachment>)
    requires SameMessage(small, full) && AllAdvertise(sa, fa)
    ensures MessageHeader(small, sa) == MessageHeader(full, fa)
    ensures ArrangementOf(small, sa).subtype == ArrangementOf(full, fa).subtype
    ensures ChildrenAdvertise(ArrangementOf(small, sa).children, ArrangementOf(full, fa).children)
  {
    hide DetectHtml, StatusNotes, Select, Arrange, ChildrenAdvertise, Advertises;
    var isHtml := DetectHtml(full);
    SelectAgrees(sa, fa, isHtml, true);
    SelectAgrees(sa, fa, isHtml, false);
    ArrangeAgrees(small, full, isHtml, Select(sa, isHtml, true), Select(sa, isHtml, false), Select(fa, isHtml, true),
      Select(fa, isHtml, false));
  }

  lemma MessageShape(m: Mode, small: Message, full: Message, sa: seq<Attachment>, fa: seq<Attachment>)
    requires SameMessage(small, full) && Suits(m, small, full) && AllAdvertise(sa, fa)
    ensures Shape(MessageDocOf(small, sa, m), MessageDocOf(full, fa, FULL))
    ensures MessagePartsOf(small, sa, m) == MessagePartsOf(full, fa, FULL)
    ensures m.materialize ==> MessageStructureOf(small, sa, m) == MessageStructureOf(full, fa, FULL)
  {
    hide SameMessage, Shape, TextPartOf, ArrangementOf, ChildrenDoc, ChildrenParts, StructuresOf, TextAgrees,
      ChildrenAdvertise, Advertises, SingleHeader, MultipartHeader, BodyDoc;
    TextPartsAgree(m, small, full);
    MessagesArrangeAlike(small, full, sa, fa);
    var s, t := TextPartOf(small, m), TextPartOf(full, FULL);
    BodyPresent(full);
    LitShape(MessageHeader(full, fa));
    if fa == [] {
      var c := Text(SingleHeader(full));
      TextAdvertises(SingleHeader(full));
      BodyShape(m, s, t, c, c);
      ShapeConcat([Lit(Header(c))], BodyDoc(m, s, c), [Lit(Header(c))], BodyDoc(FULL, t, c));
      SameParts(m, s, t, "1", 0, c, c);
      if m.materialize {
        SameTextPart(m, s, t);
        SameStructure(m, t, c, c);
        SameStructureText(m, s, t, c);
      }
    } else {
      var b := full.outerBoundary;
      BoundaryKept(small, full);
      var cs, ds := ArrangementOf(small, sa).children, ArrangementOf(full, fa).children;
      ChildrenShape(m, s, t, b, cs, ds);
      LitShape(Closing(b));
      ShapeConcat(ChildrenDoc(m, s, b, cs), [Lit(Closing(b))], ChildrenDoc(FULL, t, b, ds), [Lit(Closing(b))]);
      ShapeConcat([Lit(MessageHeader(full, fa))], ChildrenDoc(m, s, b, cs) + [Lit(Closing(b))],
                  [Lit(MessageHeader(full, fa))], ChildrenDoc(FULL, t, b, ds) + [Lit(Closing(b))]);
      SameChildrenParts(m, s, t, "", b, 1, |MessageHeader(full, fa)|, cs, ds);
      if m.materialize {
        SameTextPart(m, s, t);
        SameStructures(m, t, cs, ds);
        SameStructuresText(m, s, t, cs);
      }
    }
  }

  lemma BodyPresent(full: Message)
    ensures TextPartOf(full, FULL).body.Some?
  {
  }

  lemma BoundaryKept(small: Message, full: Message)
    requires SameMessage(small, full)
    ensures small.outerBoundary == full.outerBoundary
  {
  }

  lemma TextAdvertises(h: string)
    ensures ChildAdvertises(Text(h), Text(h))
  {
  }

  lemma SameTextPart(m: Mode, s: TextPart, t: TextPart)
    requires TextAgrees(s, t) && m.materialize && s.body == t.body
    ensures s == t.(lenHint := s.lenHint)
  {
  }

  lemma {:induction false} SameStructureText(m: Mode, s: TextPart, t: TextPart, c: Child)
    requires s == t.(lenHint := s.lenHint)
    ensures StructureOf(m, s, c) == StructureOf(m, t, c)
    decreases c, 0
  {
    if c.Related? { SameStructuresText(m, s, t, c.children); }
  }

  lemma {:induction false} SameStructuresText(m: Mode, s: TextPart, t: TextPart, cs: seq<Child>)
    requires s == t.(lenHint := s.lenHint)
    ensures StructuresOf(m, s, cs) == StructuresOf(m, t, cs)
    decreases cs, 0
  {
    if cs != [] {
      SameStructureText(m, s, t, cs[0]);
      SameStructuresText(m, s, t, cs[1..]);
    }
  }

  // ---------- the main results ----------

  /** The full rendering is the printed message, and its size is its length. */
  lemma FullRenderingPrints(msg: Message, atts: seq<Attachment>)
    ensures var r := RenderedOf(msg, atts, FULL);
      r.text == PrintMessage(msg, atts) && r.size == |r.text| && r.missingFrom.None?
      && r.headerEnd <= |r.text| && r.text[..r.headerEnd] == MessageHeader(msg, atts)
  {
    hide MessageDocOf, MessageHeader, ArrangementOf, PrintChildren, WrittenText, Emit, EmitOne, Bytes, DocLen, Shape,
      Produces;
    var doc := MessageDocOf(msg, atts, FULL);
    MessageBytes(msg, atts);
    SelfShape(doc);
    EmitFollows(FULL, NOTHING, doc, doc, "");
    EmitIsSound(FULL, NOTHING, doc);
    BytesLength(doc);
    assert "" + Bytes(doc) == Bytes(doc);
  }

  lemma SelfShape(doc: seq<Chunk>)
    requires AllLit(doc)
    ensures Shape(doc, doc) && Produces(FULL, doc)
  {
  }

  /**
    A rendering that leaves attachment data out, because only the layout is wanted or because
    the data has not been downloaded, agrees with the full one on everything it reports. Its
    text is the full text up to the first missing byte.
  */
  lemma LayoutAgrees(m: Mode, small: Message, full: Message, sa: seq<Attachment>, fa: seq<Attachment>)
    requires m.materialize && SameMessage(small, full) && Suits(m, small, full) && AllAdvertise(sa, fa)
    ensures var r, whole := RenderedOf(small, sa, m), RenderedOf(full, fa, FULL);
      && r.size == whole.size && r.headerEnd == whole.headerEnd && r.parts == whole.parts
      && r.bodystructure == whole.bodystructure
      && |r.text| == (if r.missingFrom.Some? then r.missingFrom.value else whole.size) <= |whole.text|
      && r.text == whole.text[..|r.text|]
  {
    hide MessageDocOf, MessageHeader, MessagePartsOf, MessageStructureOf, ArrangementOf, PrintMessage, SameMessage,
      Suits, AllAdvertise, Shape, Emit, DocLen, Bytes, Produces, EmitOne;
    var d, whole := MessageDocOf(small, sa, m), MessageDocOf(full, fa, FULL);
    MessageShape(m, small, full, sa, fa);
    SameHeaders(small, full, sa, fa);
    MessageProduces(m, small, sa);
    FullRenderingPrints(full, fa);
    MessageBytes(full, fa);
    EmitFollows(m, NOTHING, d, whole, "");
    EmitIsSound(m, NOTHING, d);
    assert "" + Bytes(whole) == Bytes(whole);
  }

  lemma SameHeaders(small: Message, full: Message, sa: seq<Attachment>, fa: seq<Attachment>)
    requires SameMessage(small, full) && AllAdvertise(sa, fa)
    ensures MessageHeader(small, sa) == MessageHeader(full, fa)
  {
    MessagesArrangeAlike(small, full, sa, fa);
  }

  lemma MessageProduces(m: Mode, msg: Message, atts: seq<Attachment>)
    requires m.materialize
    ensures Produces(m, MessageDocOf(msg, atts, m))
  {
    hide ArrangementOf, ChildrenDoc, BodyDoc, DetectHtml, MessageHeader, SingleHeader;
    var t := TextPartOf(msg, m);
    if atts == [] {
      ChildProduces(m, t, Text(SingleHeader(msg)));
    } else {
      ChildrenProduce(m, t, msg.outerBoundary, ArrangementOf(msg, atts).children);
    }
  }

  /** The size alone, computed without the body and without attachment data, is the length of the full text. */
  lemma SizeAloneIsExact(onDemand: bool, small: Message, full: Message, sa: seq<Attachment>, fa: seq<Attachment>)
    requires SameMessage(small, full) && AllAdvertise(sa, fa)
    requires small.body.None? ==> small.size == |ToCrlf(BodyOr(full.body))|
    ensures RenderedOf(small, sa, Mode(false, true, onDemand)).size == |RenderedOf(full, fa, FULL).text|
  {
    hide MessageDocOf, MessageHeader, MessagePartsOf, MessageStructureOf, ArrangementOf, PrintMessage, SameMessage,
      AllAdvertise, Shape;
    var m := Mode(false, true, onDemand);
    MessageShape(m, small, full, sa, fa);
    ShapeLength(MessageDocOf(small, sa, m), MessageDocOf(full, fa, FULL));
    FullRenderingPrints(full, fa);
    MessageBytes(full, fa);
    SelfShape(MessageDocOf(full, fa, FULL));
    EmitIsSound(m, NOTHING, MessageDocOf(small, sa, m));
    EmitIsSound(FULL, NOTHING, MessageDocOf(full, fa, FULL));
  }
}
