/**
  Where the text of a rendering ends when attachment data is left out: exactly at the first byte of
  the first attachment whose data is missing.
*/
module MessageGaps {
  import opened Text
  import opened MessageDoc
  import opened MessageWriter
  import opened MessageRender
  import opened MessageContent

  /** An attachment whose data is not wanted, or is not there and is not taken to be empty. */
  predicate Missing(m: Mode, a: Attachment) {
    !m.attachmentData || (m.onDemand && a.data == [])
  }

  /** How far the first hole of a document is from its start. */
  function FirstHole(doc: seq<Chunk>): Option<nat> {
    if doc == [] then None
    else if doc[0].Hole? then Some(0)
    else match FirstHole(doc[1..]) case Some(n) => Some(|doc[0].bytes| + n) case None => None
  }

  function Shifted(o: Option<nat>, offset: nat): Option<nat> {
    match o case Some(n) => Some(n + offset) case None => None
  }

  lemma {:induction false} FirstHoleConcat(a: seq<Chunk>, b: seq<Chunk>)
    ensures FirstHole(a + b) == if FirstHole(a).Some? then FirstHole(a) else Shifted(FirstHole(b), DocLen(a))
  {
    if a == [] {
      assert a + b == b;
    } else {
      assert (a + b)[1..] == a[1..] + b;
      FirstHoleConcat(a[1..], b);
    }
  }

  lemma {:induction false} GapIsFirstHole(m: Mode, doc: seq<Chunk>, w: Written)
    requires m.materialize && w.gap.None?
    ensures Emit(m, w, doc).gap == Shifted(FirstHole(doc), w.len)
    decreases |doc|
  {
    if doc != [] {
      if doc[0].Lit? {
        GapIsFirstHole(m, doc[1..], EmitOne(m, w, doc[0]));
      } else {
        NothingAfterTheGap(m, EmitOne(m, w, doc[0]), doc[1..]);
      }
    }
  }

  /** Whether, and how far from its start, a child lacks data. */
  ghost function HoleOf(m: Mode, t: TextPart, c: Child): Option<nat> {
    FirstHole(ChildDoc(m, t, c))
  }

  lemma OneChunk(c: Chunk)
    ensures FirstHole([c]) == if c.Hole? then Some(0) else None
  {
    assert [c][1..] == [];
    assert FirstHole([]) == None;
  }

  lemma AfterHeader(m: Mode, t: TextPart, c: Child)
    ensures HoleOf(m, t, c) == Shifted(FirstHole(BodyDoc(m, t, c)), |Header(c)|)
  {
    hide Header, BodyDoc;
    FirstHoleConcat([Lit(Header(c))], BodyDoc(m, t, c));
    OneChunk(Lit(Header(c)));
    assert [Lit(Header(c))][1..] == [];
  }

  lemma ChunkIsHole(m: Mode, a: Attachment)
    requires m.materialize
    ensures AttachmentChunk(m, a).Hole? <==> Missing(m, a)
  {
  }

  lemma HoleOfAttachment(m: Mode, t: TextPart, a: Attachment, inline: bool)
    requires m.materialize
    ensures HoleOf(m, t, Attached(a, inline)) ==
      if Missing(m, a) then Some(|Header(Attached(a, inline))|) else None
  {
    hide AttachmentHeader;
    var c := Attached(a, inline);
    hide AttachmentChunk;
    AfterHeader(m, t, c);
    OneChunk(AttachmentChunk(m, a));
    ChunkIsHole(m, a);
  }

  lemma HoleOfText(m: Mode, t: TextPart, header: string)
    requires t.body.Some?
    ensures HoleOf(m, t, Text(header)) == None
  {
    var c := Text(header);
    AfterHeader(m, t, c);
    FirstHoleConcat([TextDoc(t)[0]], [TextDoc(t)[1]]);
    OneChunk(TextDoc(t)[0]);
    OneChunk(TextDoc(t)[1]);
    assert TextDoc(t) == [TextDoc(t)[0]] + [TextDoc(t)[1]];
  }

  lemma HoleOfRelated(m: Mode, t: TextPart, boundary: string, cs: seq<Child>)
    ensures HoleOf(m, t, Related(boundary, cs))
         == Shifted(FirstHole(ChildrenDoc(m, t, boundary, cs)), |Header(Related(boundary, cs))|)
  {
    hide ChildrenDoc;
    var c := Related(boundary, cs);
    var inner := ChildrenDoc(m, t, boundary, cs);
    AfterHeader(m, t, c);
    FirstHoleConcat(inner, [Lit(Closing(boundary))]);
    OneChunk(Lit(Closing(boundary)));
  }

  lemma HoleOfFirst(m: Mode, t: TextPart, boundary: string, cs: seq<Child>)
    requires cs != []
    ensures FirstHole(ChildrenDoc(m, t, boundary, cs)) ==
      if HoleOf(m, t, cs[0]).Some? then Shifted(HoleOf(m, t, cs[0]), |Opening(boundary)|)
      else Shifted(FirstHole(ChildrenDoc(m, t, boundary, cs[1..])),
                   |Opening(boundary)| + DocLen(ChildDoc(m, t, cs[0])) + |CRLF|)
  {
    hide Header, BodyDoc, Opening;
    var head, child, rest := [Lit(Opening(boundary))], ChildDoc(m, t, cs[0]), ChildrenDoc(m, t, boundary, cs[1..]);
    assert ChildrenDoc(m, t, boundary, cs) == head + (child + ([Lit(CRLF)] + rest));
    hide ChildrenDoc, ChildDoc;
    FirstHoleConcat(head, child + ([Lit(CRLF)] + rest));
    FirstHoleConcat(child, [Lit(CRLF)] + rest);
    FirstHoleConcat([Lit(CRLF)], rest);
    OneChunk(Lit(Opening(boundary)));
    OneChunk(Lit(CRLF));
    assert head[1..] == [] && [Lit(CRLF)][1..] == [];
  }

  /** The first child that lacks data decides. */
  lemma {:induction false} HoleOfChildren(m: Mode, t: TextPart, boundary: string, start: nat, cs: seq<Child>, k: nat)
    requires k <= |cs| && forall j :: 0 <= j < k ==> HoleOf(m, t, cs[j]).None?
    ensures k == |cs| ==> FirstHole(ChildrenDoc(m, t, boundary, cs)) == None
    ensures k < |cs| && HoleOf(m, t, cs[k]).Some? ==>
      Shifted(FirstHole(ChildrenDoc(m, t, boundary, cs)), start)
        == Some(StartOf(m, t, boundary, start, cs, k) + HoleOf(m, t, cs[k]).value)
    decreases k
  {
    hide ChildrenDoc, ChildDoc, Opening, HoleOf, DocLen;
    if cs == [] {
      NoChildren(m, t, boundary);
    } else {
      HoleOfFirst(m, t, boundary, cs);
      if k > 0 {
        var next := start + |Opening(boundary)| + DocLen(ChildDoc(m, t, cs[0])) + |CRLF|;
        HoleOfChildren(m, t, boundary, next, cs[1..], k - 1);
        if k < |cs| { StartOfTail(m, t, boundary, start, cs, k); }
      }
    }
  }

  lemma NoChildren(m: Mode, t: TextPart, boundary: string)
    ensures FirstHole(ChildrenDoc(m, t, boundary, [])) == None
  {
  }

  // ---------- the attachments of a message ----------

  /** The attachment at a place among those of its kind. */
  lemma {:induction false} AtCount(msg: Message, atts: seq<Attachment>, n: nat, inline: bool, pos: nat) returns (j: nat)
    requires n <= |atts| && pos < CountKind(msg, atts, n, inline)
    ensures j < n && IsInline(msg, atts[j]) == inline && CountKind(msg, atts, j, inline) == pos
  {
    hide IsInline;
    if pos < CountKind(msg, atts, n - 1, inline) {
      j := AtCount(msg, atts, n - 1, inline, pos);
    } else {
      j := n - 1;
    }
  }

  lemma SmallerCountIsEarlier(msg: Message, atts: seq<Attachment>, j: nat, i: nat, inline: bool)
    requires i < |atts| && j < |atts| && IsInline(msg, atts[j]) == IsInline(msg, atts[i]) == inline
    requires CountKind(msg, atts, j, inline) < CountKind(msg, atts, i, inline)
    ensures Precedes(msg, atts, j, i)
  {
    hide IsInline;
    if i < j { CountGrows(msg, atts, i, j, inline); }
  }

  /** The attachments of one kind behind the text: none of the first `k` lacks data. */
  ghost predicate NoneBefore(m: Mode, msg: Message, atts: seq<Attachment>, inline: bool, k: nat) {
    forall j :: 0 <= j < |atts| && IsInline(msg, atts[j]) == inline && CountKind(msg, atts, j, inline) < k ==>
      !Missing(m, atts[j])
  }

  lemma HolesBehindText(m: Mode, msg: Message, atts: seq<Attachment>, inline: bool, k: nat, t: TextPart, head: Child)
    requires m.materialize && NoneBefore(m, msg, atts, inline, k) && k <= CountKind(msg, atts, |atts|, inline)
    requires HoleOf(m, t, head) == None
    ensures var cs := [head] + AttachAll(Select(atts, DetectHtml(msg), inline), inline);
      && |cs| == 1 + CountKind(msg, atts, |atts|, inline)
      && forall j :: 0 <= j < k + 1 ==> HoleOf(m, t, cs[j]).None?
  {
    hide IsInline, Select, AttachAll, CountKind, HoleOf, DetectHtml, Missing, Header;
    var sel := Select(atts, DetectHtml(msg), inline);
    assert atts[..|atts|] == atts;
    SelectCount(msg, atts, |atts|, inline);
    AttachAllAt(sel, inline);
    var cs := [head] + AttachAll(sel, inline);
    forall j | 1 <= j < k + 1 ensures HoleOf(m, t, cs[j]).None? {
      var i := AtCount(msg, atts, |atts|, inline, j - 1);
      AttachedAt(msg, atts, i);
      HoleOfAttachment(m, t, atts[i], inline);
    }
  }

  lemma GapOfMessage(m: Mode, msg: Message, atts: seq<Attachment>)
    requires m.materialize && atts != []
    ensures RenderedOf(msg, atts, m).missingFrom ==
      Shifted(FirstHole(ChildrenDoc(m, TextPartOf(msg, m), msg.outerBoundary, ArrangementOf(msg, atts).children)),
              |MessageHeader(msg, atts)|)
  {
    hide ArrangementOf, TextPartOf, MessageHeader, ChildrenDoc, Emit, MessagePartsOf, MessageStructureOf;
    var t, b, cs, h :=
      TextPartOf(msg, m), msg.outerBoundary, ArrangementOf(msg, atts).children, MessageHeader(msg, atts);
    var doc, inner := MessageDocOf(msg, atts, m), ChildrenDoc(m, t, b, cs);
    assert doc == [Lit(h)] + (inner + [Lit(Closing(b))]);
    GapIsFirstHole(m, doc, NOTHING);
    FirstHoleConcat([Lit(h)], inner + [Lit(Closing(b))]);
    FirstHoleConcat(inner, [Lit(Closing(b))]);
    OneChunk(Lit(h));
    OneChunk(Lit(Closing(b)));
    assert [Lit(h)][1..] == [];
  }

  /** The first missing attachment of a list behind the text, and where its bytes would begin. */
  lemma FirstMissingIn(m: Mode, msg: Message, atts: seq<Attachment>, i: nat, t: TextPart, boundary: string, start: nat,
      head: Child)
    requires m.materialize && i < |atts| && Missing(m, atts[i]) && HoleOf(m, t, head) == None
    requires NoneBefore(m, msg, atts, IsInline(msg, atts[i]), CountKind(msg, atts, i, IsInline(msg, atts[i])))
    ensures var inline := IsInline(msg, atts[i]);
      var cs := [head] + AttachAll(Select(atts, DetectHtml(msg), inline), inline);
      var k := CountKind(msg, atts, i, inline) + 1;
      k < |cs| && cs[k] == Attached(atts[i], inline)
      && Shifted(FirstHole(ChildrenDoc(m, t, boundary, cs)), start)
           == Some(StartOf(m, t, boundary, start, cs, k) + |Header(cs[k])|)
  {
    hide IsInline, Select, AttachAll, CountKind, HoleOf, DetectHtml, Missing, Header, ChildrenDoc, StartOf;
    var inline := IsInline(msg, atts[i]);
    var n := CountKind(msg, atts, i, inline);
    CountGrows(msg, atts, i, |atts|, inline);
    HolesBehindText(m, msg, atts, inline, n, t, head);
    AttachedAt(msg, atts, i);
    HoleOfAttachment(m, t, atts[i], inline);
    HoleOfChildren(m, t, boundary, start, [head] + AttachAll(Select(atts, DetectHtml(msg), inline), inline), n + 1);
  }

  lemma NoneMissingIn(m: Mode, msg: Message, atts: seq<Attachment>, inline: bool, t: TextPart, boundary: string,
      head: Child)
    requires m.materialize && HoleOf(m, t, head) == None
    requires forall j :: 0 <= j < |atts| && IsInline(msg, atts[j]) == inline ==> !Missing(m, atts[j])
    ensures FirstHole(ChildrenDoc(m, t, boundary, [head] + AttachAll(Select(atts, DetectHtml(msg), inline), inline)))
         == None
  {
    hide IsInline, Select, AttachAll, CountKind, HoleOf, DetectHtml, Missing, ChildrenDoc;
    HolesBehindText(m, msg, atts, inline, CountKind(msg, atts, |atts|, inline), t, head);
    var cs := [head] + AttachAll(Select(atts, DetectHtml(msg), inline), inline);
    HoleOfChildren(m, t, boundary, 0, cs, |cs|);
  }

  lemma TextHasNoHole(m: Mode, msg: Message, header: string)
    requires m.materialize
    ensures HoleOf(m, TextPartOf(msg, m), Text(header)) == None
  {
    hide HoleOf;
    HoleOfText(m, TextPartOf(msg, m), header);
  }

  /** The attachment `i` lacks data and none before it does. */
  ghost predicate FirstMissing(m: Mode, msg: Message, atts: seq<Attachment>, i: nat) {
    && i < |atts| && Missing(m, atts[i])
    && forall j :: 0 <= j < |atts| && Precedes(msg, atts, j, i) ==> !Missing(m, atts[j])
  }

  lemma EarlierHaveData(m: Mode, msg: Message, atts: seq<Attachment>, i: nat)
    requires FirstMissing(m, msg, atts, i)
    ensures NoneBefore(m, msg, atts, IsInline(msg, atts[i]), CountKind(msg, atts, i, IsInline(msg, atts[i])))
    ensures !IsInline(msg, atts[i]) ==>
      forall j :: 0 <= j < |atts| && IsInline(msg, atts[j]) ==> !Missing(m, atts[j])
  {
    hide IsInline, CountKind, Missing;
    var inline := IsInline(msg, atts[i]);
    forall j | 0 <= j < |atts| && IsInline(msg, atts[j]) == inline
               && CountKind(msg, atts, j, inline) < CountKind(msg, atts, i, inline)
      ensures !Missing(m, atts[j])
    {
      SmallerCountIsEarlier(msg, atts, j, i, inline);
    }
  }

  lemma InRange(m: Mode, msg: Message, atts: seq<Attachment>, i: nat)
    requires FirstMissing(m, msg, atts, i)
    ensures i < |atts| && Missing(m, atts[i])
  {
  }

  /** Where the bytes at a path begin: one level deep, or two. */
  lemma BytesAtPath(m: Mode, t: TextPart, boundary: string, start: nat, cs: seq<Child>, path: seq<nat>)
    requires PathFits(cs, path)
    ensures var k := path[0] - 1; var at := StartOf(m, t, boundary, start, cs, k);
      PartAtPath(m, t, boundary, start, cs, path).bodyStart ==
        if |path| == 1 then at + |Header(cs[k])|
        else StartOf(m, t, cs[k].boundary, at + |Header(cs[k])|, cs[k].children, path[1] - 1)
             + |Header(cs[k].children[path[1] - 1])|
  {
    hide StartOf, Header, BodyDoc, DocLen;
  }

  lemma FlatGap(m: Mode, msg: Message, atts: seq<Attachment>, i: nat, t: TextPart, head: Child, start: nat)
    requires m.materialize && FirstMissing(m, msg, atts, i) && HoleOf(m, t, head) == None
    requires IsInline(msg, atts[i]) ==> !Nested(msg, atts)
    ensures var inline := IsInline(msg, atts[i]);
      var cs := [head] + AttachAll(Select(atts, DetectHtml(msg), inline), inline);
      PathFits(cs, PathTo(msg, atts, i))
      && Shifted(FirstHole(ChildrenDoc(m, t, msg.outerBoundary, cs)), start)
           == Some(PartAtPath(m, t, msg.outerBoundary, start, cs, PathTo(msg, atts, i)).bodyStart)
  {
    hide IsInline, Select, AttachAll, CountKind, HoleOf, DetectHtml, Missing, Header, ChildrenDoc, StartOf, PartAtPath,
      FirstMissing, NoneBefore;
    InRange(m, msg, atts, i);
    EarlierHaveData(m, msg, atts, i);
    FirstMissingIn(m, msg, atts, i, t, msg.outerBoundary, start, head);
    var inline := IsInline(msg, atts[i]);
    var cs := [head] + AttachAll(Select(atts, DetectHtml(msg), inline), inline);
    BytesAtPath(m, t, msg.outerBoundary, start, cs, PathTo(msg, atts, i));
  }

  lemma NestedInlineGap(m: Mode, msg: Message, atts: seq<Attachment>, i: nat, t: TextPart, text: Child, start: nat,
      reg: seq<Child>)
    requires m.materialize && FirstMissing(m, msg, atts, i) && HoleOf(m, t, text) == None
    requires IsInline(msg, atts[i]) && Nested(msg, atts)
    ensures var inner := [text] + AttachAll(Select(atts, DetectHtml(msg), true), true);
      var cs := [Related(msg.innerBoundary, inner)] + reg;
      PathFits(cs, PathTo(msg, atts, i))
      && Shifted(FirstHole(ChildrenDoc(m, t, msg.outerBoundary, cs)), start)
           == Some(PartAtPath(m, t, msg.outerBoundary, start, cs, PathTo(msg, atts, i)).bodyStart)
  {
    hide IsInline, Select, AttachAll, CountKind, HoleOf, DetectHtml, Missing, Header, ChildrenDoc, StartOf, PartAtPath,
      FirstMissing, NoneBefore, Nested;
    InRange(m, msg, atts, i);
    EarlierHaveData(m, msg, atts, i);
    var inner := [text] + AttachAll(Select(atts, DetectHtml(msg), true), true);
    var head := Related(msg.innerBoundary, inner);
    var cs := [head] + reg;
    var at := StartOf(m, t, msg.outerBoundary, start, cs, 0);
    FirstMissingIn(m, msg, atts, i, t, msg.innerBoundary, at + |Header(head)|, text);
    HoleOfRelated(m, t, msg.innerBoundary, inner);
    HoleOfChildren(m, t, msg.outerBoundary, start, cs, 0);
    BytesAtPath(m, t, msg.outerBoundary, start, cs, PathTo(msg, atts, i));
  }

  /** The text ends exactly where the bytes of the first attachment without data would begin. */
  lemma GapIsFirstMissing(m: Mode, msg: Message, atts: seq<Attachment>, i: nat)
    requires m.materialize && FirstMissing(m, msg, atts, i)
    ensures var r, s := RenderedOf(msg, atts, m), SectionText(PathTo(msg, atts, i));
            r.FindPart(s).Some? && r.missingFrom == Some(r.FindPart(s).value.bodyStart)
  {
    hide RenderedOf, ArrangementOf, IsInline, Select, AttachAll, CountKind, HoleOf, DetectHtml, Missing, PartAtPath,
      ChildrenDoc, TextPartOf, MessageHeader, SectionText, FirstMissing, NoneBefore, Header, BodyDoc, DocLen, PathTo;
    InRange(m, msg, atts, i);
    var inline, html, t := IsInline(msg, atts[i]), DetectHtml(msg), TextPartOf(msg, m);
    var start := |MessageHeader(msg, atts)|;
    ArrangementIs(msg, atts);
    EarlierHaveData(m, msg, atts, i);
    TextHasNoHole(m, msg, TextHeader(html));
    GapOfMessage(m, msg, atts);
    AttachmentFits(msg, atts, i);
    FoundAt(msg, atts, m, PathTo(msg, atts, i));
    assert SomeAre(msg, atts, inline);
    var text := Text(TextHeader(html));
    var reg := AttachAll(Select(atts, html, false), false);
    if Nested(msg, atts) && inline {
      NestedInlineGap(m, msg, atts, i, t, text, start, reg);
    } else if Nested(msg, atts) {
      var inner := [text] + AttachAll(Select(atts, html, true), true);
      NoneMissingIn(m, msg, atts, true, t, msg.innerBoundary, text);
      HoleOfRelated(m, t, msg.innerBoundary, inner);
      FlatGap(m, msg, atts, i, t, Related(msg.innerBoundary, inner), start);
    } else {
      FlatGap(m, msg, atts, i, t, text, start);
    }
  }

  lemma EarliestMissing(m: Mode, msg: Message, atts: seq<Attachment>, k: nat) returns (i: nat)
    requires k < |atts| && Missing(m, atts[k])
    ensures FirstMissing(m, msg, atts, i)
    decreases !IsInline(msg, atts[k]), k
  {
    hide IsInline, Missing;
    i := k;
    if j :| 0 <= j < |atts| && Precedes(msg, atts, j, k) && Missing(m, atts[j]) {
      i := EarliestMissing(m, msg, atts, j);
    }
  }

  /** The whole text is there exactly when no attachment lacks its data. */
  lemma CompleteIff(m: Mode, msg: Message, atts: seq<Attachment>)
    requires m.materialize
    ensures RenderedOf(msg, atts, m).missingFrom.None? <==> forall i :: 0 <= i < |atts| ==> !Missing(m, atts[i])
  {
    hide RenderedOf, ArrangementOf, IsInline, Select, AttachAll, CountKind, HoleOf, DetectHtml, Missing, ChildrenDoc,
      TextPartOf, MessageHeader, FirstMissing;
    if k :| 0 <= k < |atts| && Missing(m, atts[k]) {
      var i := EarliestMissing(m, msg, atts, k);
      GapIsFirstMissing(m, msg, atts, i);
    } else if atts == [] {
      SingleIsComplete(m, msg);
    } else {
      var html, t := DetectHtml(msg), TextPartOf(msg, m);
      ArrangementIs(msg, atts);
      TextHasNoHole(m, msg, TextHeader(html));
      GapOfMessage(m, msg, atts);
      var text := Text(TextHeader(html));
      NoneMissingIn(m, msg, atts, true, t, msg.outerBoundary, text);
      NoneMissingIn(m, msg, atts, false, t, msg.outerBoundary, text);
      var inner := [text] + AttachAll(Select(atts, html, true), true);
      NoneMissingIn(m, msg, atts, true, t, msg.innerBoundary, text);
      HoleOfRelated(m, t, msg.innerBoundary, inner);
      NoneMissingIn(m, msg, atts, false, t, msg.outerBoundary, Related(msg.innerBoundary, inner));
    }
  }

  lemma SingleIsComplete(m: Mode, msg: Message)
    requires m.materialize
    ensures RenderedOf(msg, [], m).missingFrom == None
  {
    hide SingleHeader, TextPartOf, Emit, MessagePartsOf, MessageStructureOf;
    var doc := MessageDocOf(msg, [], m);
    TextHasNoHole(m, msg, SingleHeader(msg));
    GapIsFirstHole(m, doc, NOTHING);
  }
}
