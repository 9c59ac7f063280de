/**
  Address lists (section 3.4 of RFC 5322): the formatter, the splitter and the parser, and how
  they undo each other.
*/
module Address {
  import opened Text

  // ---------- formatting ----------

  predicate KeptInHeader(c: char) {
    c != '\r' && c != '\n' && c != '\0'
  }

  function Clean(s: string): string {
    Trim(Filter(s, KeptInHeader), IsSpace)
  }

  predicate IsNameSpecial(c: char) {
    c in ['(', ')', '<', '>', '[', ']', ':', ';', '@', '\\', ',', '.', '"']
  }

  predicate NeedsQuotes(name: string) {
    exists i :: 0 <= i < |name| && IsNameSpecial(name[i])
  }

  function Quoted(name: string): string {
    "\"" + ReplaceChar(ReplaceChar(name, '\\', "\\\\"), '"', "\\\"") + "\""
  }

  function FormatMailbox(name: string, email: string): string {
    var n, e := Clean(name), Clean(email);
    if e == "" then ""
    else if n == "" || Lower(n) == Lower(e) then e
    else if NeedsQuotes(n) then Quoted(n) + " <" + e + ">"
    else n + " <" + e + ">"
  }

  // ---------- splitting ----------

  datatype Scan = Scan(out: seq<string>, current: string, inQuotes: bool, escaped: bool, depth: nat)

  const START: Scan := Scan([], "", false, false, 0)

  function Flush(s: Scan): seq<string> {
    var part := Trim(s.current, IsSpace);
    if part == "" then s.out else s.out + [part]
  }

  function Step(s: Scan, c: char): Scan {
    if s.escaped then s.(current := s.current + [c], escaped := false)
    else if c == '\\' && s.inQuotes then s.(current := s.current + [c], escaped := true)
    else if c == '"' then s.(current := s.current + [c], inQuotes := !s.inQuotes)
    else if c == '<' && !s.inQuotes then s.(current := s.current + [c], depth := s.depth + 1)
    else if c == '>' && !s.inQuotes then
      s.(current := s.current + [c], depth := if s.depth == 0 then 0 else s.depth - 1)
    else if (c == ',' || c == ';') && !s.inQuotes && s.depth == 0 then s.(out := Flush(s), current := "")
    else s.(current := s.current + [c])
  }

  function ScanAll(s: Scan, text: string): Scan
    decreases |text|
  {
    if text == [] then s else ScanAll(Step(s, text[0]), text[1..])
  }

  function Split(text: string): seq<string> {
    Flush(ScanAll(START, text))
  }

  lemma {:induction false} ScanConcat(s: Scan, a: string, b: string)
    ensures ScanAll(s, a + b) == ScanAll(ScanAll(s, a), b)
    decreases |a|
  {
    if a == [] {
      assert a + b == b;
    } else {
      assert (a + b)[1..] == a[1..] + b;
      ScanConcat(Step(s, a[0]), a[1..], b);
    }
  }

  method SplitAddressList(s: string) returns (out: seq<string>)
    ensures out == Split(s)
  {
    out := [];
    var current, inQuotes, escaped, depth := "", false, false, 0;
    for i := 0 to |s|
      invariant 0 <= depth
      invariant ScanAll(Scan(out, current, inQuotes, escaped, depth), s[i..]) == ScanAll(START, s)
    {
      var c := s[i];
      assert s[i..][1..] == s[i + 1..];
      if escaped {
        current := current + [c];
        escaped := false;
      } else if c == '\\' && inQuotes {
        current := current + [c];
        escaped := true;
      } else if c == '"' {
        inQuotes := !inQuotes;
        current := current + [c];
      } else if c == '<' && !inQuotes {
        depth := depth + 1;
        current := current + [c];
      } else if c == '>' && !inQuotes {
        depth := if depth == 0 then 0 else depth - 1;
        current := current + [c];
      } else if (c == ',' || c == ';') && !inQuotes && depth == 0 {
        var part := Trim(current, IsSpace);
        if part != "" {
          out := out + [part];
        }
        current := "";
      } else {
        current := current + [c];
      }
    }
    var part := Trim(current, IsSpace);
    if part != "" {
      out := out + [part];
    }
  }

  // ---------- parsing ----------

  predicate IsQuote(c: char) {
    c == '"'
  }

  predicate IsAngleOrQuote(c: char) {
    c == '<' || c == '>' || c == '"'
  }

  function Unescape(s: string, escaped: bool): string {
    if s == [] then []
    else if escaped then [s[0]] + Unescape(s[1..], false)
    else if s[0] == '\\' then Unescape(s[1..], true)
    else [s[0]] + Unescape(s[1..], false)
  }

  function InnerName(trimmed: string): string {
    if |trimmed| >= 2 && trimmed[0] == '"' && trimmed[|trimmed| - 1] == '"' then trimmed[1..|trimmed| - 1] else trimmed
  }

  function Unquoted(raw: string): string {
    Trim(Trim(Trim(Unescape(InnerName(Trim(raw, IsSpace)), false), IsSpace), IsQuote), IsSpace)
  }

  lemma UnescapeStep(out: string, inner: string, i: nat, escaped: bool)
    requires i < |inner|
    ensures out + Unescape(inner[i..], escaped) ==
      if !escaped && inner[i] == '\\' then out + Unescape(inner[i + 1..], true)
      else (out + [inner[i]]) + Unescape(inner[i + 1..], false)
  {
    assert inner[i..][1..] == inner[i + 1..];
    assert out + ([inner[i]] + Unescape(inner[i + 1..], false)) == (out + [inner[i]]) + Unescape(inner[i + 1..], false);
  }

  method UnquoteName(raw: string) returns (name: string)
    ensures name == Unquoted(raw)
  {
    hide Trim, InnerName;
    var inner := InnerName(Trim(raw, IsSpace));
    var out, escaped := "", false;
    assert inner[0..] == inner && "" + Unescape(inner, false) == Unescape(inner, false);
    for i := 0 to |inner|
      invariant out + Unescape(inner[i..], escaped) == Unescape(inner, false)
    {
      hide Unescape;
      UnescapeStep(out, inner, i, escaped);
      var c := inner[i];
      if escaped {
        out := out + [c];
        escaped := false;
      } else if c == '\\' {
        escaped := true;
      } else {
        out := out + [c];
      }
    }
    assert out + Unescape([], escaped) == out;
    name := Trim(Trim(Trim(out, IsSpace), IsQuote), IsSpace);
  }

  function LastIndex(s: string, c: char): (r: Option<nat>)
    ensures r.Some? ==> r.value < |s| && s[r.value] == c && c !in s[r.value + 1..]
    ensures r.None? ==> c !in s
  {
    if s == [] then None
    else if s[|s| - 1] == c then Some(|s| - 1)
    else
      var r := LastIndex(s[..|s| - 1], c);
      assert s == s[..|s| - 1] + [s[|s| - 1]];
      assert r.Some? ==> s[r.value + 1..] == s[..|s| - 1][r.value + 1..] + [s[|s| - 1]];
      r
  }

  function ParseMailbox(addr: string): (string, string) {
    var trimmed := Trim(addr, IsSpace);
    var left, right := LastIndex(trimmed, '<'), LastIndex(trimmed, '>');
    if left.Some? && right.Some? && right.value > left.value then
      (Unquoted(trimmed[..left.value]), Trim(trimmed[left.value + 1..right.value], IsSpace))
    else ("", Trim(Trim(trimmed, IsAngleOrQuote), IsSpace))
  }

  // ---------- one mailbox ----------

  ghost predicate CleanText(s: string) {
    Clean(s) == s
  }

  predicate IsListSyntax(c: char) {
    c == '"' || c == ',' || c == ';' || c == '<' || c == '>'
  }

  /** An address that needs no quoting of its own. */
  ghost predicate GoodEmail(e: string) {
    e != "" && CleanText(e) && forall i :: 0 <= i < |e| ==> !IsListSyntax(e[i])
  }

  /** A name the parser returns as it was given to the formatter. */
  ghost predicate Recoverable(name: string, email: string) {
    name == "" || (Lower(name) != Lower(email) && name[0] != '"' && name[|name| - 1] != '"')
  }

  lemma CleanIsTrimmed(s: string)
    requires CleanText(s)
    ensures Trimmed(s, IsSpace)
  {
    TrimIsTrimmed(Filter(s, KeptInHeader), IsSpace);
  }

  lemma TrimKeeps(s: string, p: char -> bool)
    requires Trimmed(s, p)
    ensures Trim(s, p) == s
  {
    TrimFixed(s, p);
  }

  lemma TrimShortens(s: string, p: char -> bool)
    ensures |Trim(s, p)| <= |s| && (|Trim(s, p)| == |s| ==> Trim(s, p) == s)
  {
    var i := TrimStartSplits(s, p);
    var j := TrimEndSplits(s[i..], p);
  }

  lemma LastIndexOf(a: string, c: char, b: string)
    requires c !in b
    ensures LastIndex(a + [c] + b, c) == Some(|a|)
  {
    var s := a + [c] + b;
    var r := LastIndex(s, c);
    assert s[|a|] == c;
    if r.Some? {
      LastOccurrence(a, c, b, r.value);
    }
  }

  lemma LastOccurrence(a: string, c: char, b: string, k: nat)
    requires c !in b && k < |a + [c] + b| && (a + [c] + b)[k] == c && c !in (a + [c] + b)[k + 1..]
    ensures k == |a|
  {
    OccursAfter(a + [c] + b, c, k, |a|);
    PastTheMiddle(a, c, b, k);
  }

  lemma PastTheMiddle(a: string, c: char, b: string, k: nat)
    requires k < |a + [c] + b|
    ensures k > |a| ==> (a + [c] + b)[k] in b
  {
    assert k > |a| ==> (a + [c] + b)[k] == b[k - |a| - 1];
  }

  lemma OccursAfter(s: string, c: char, k: nat, j: nat)
    requires k < j < |s| ==> s[j] == c
    ensures k < j < |s| ==> c in s[k + 1..]
  {
    assert k < j < |s| ==> s[j] == s[k + 1..][j - k - 1];
  }

  /** Quoting is character by character: a backslash before each quote and backslash. */
  function EscapeChar(c: char): string {
    if c == '\\' || c == '"' then ['\\', c] else [c]
  }

  function EscapeName(s: string): string {
    if s == [] then [] else EscapeChar(s[0]) + EscapeName(s[1..])
  }

  lemma {:induction false} QuotingEscapes(name: string)
    ensures ReplaceChar(ReplaceChar(name, '\\', "\\\\"), '"', "\\\"") == EscapeName(name)
  {
    if name != [] {
      QuotingEscapes(name[1..]);
      var head := if name[0] == '\\' then "\\\\" else [name[0]];
      ReplaceConcat(head, ReplaceChar(name[1..], '\\', "\\\\"), '"', "\\\"");
      assert "\\\\"[1..] == "\\";
      assert ReplaceChar("\\", '"', "\\\"") == "\\";
      assert ReplaceChar("\\\\", '"', "\\\"") == "\\\\";
      assert ReplaceChar([name[0]], '"', "\\\"") == if name[0] == '"' then "\\\"" else [name[0]];
    }
  }

  lemma {:induction false} UnescapeEscape(name: string)
    ensures Unescape(EscapeName(name), false) == name
  {
    if name != [] {
      UnescapeEscape(name[1..]);
      var e := EscapeName(name);
      if name[0] == '\\' || name[0] == '"' {
        assert e[1..][1..] == EscapeName(name[1..]);
      } else {
        assert e[1..] == EscapeName(name[1..]);
      }
    }
  }

  lemma {:induction false} UnescapePlain(name: string)
    requires '\\' !in name
    ensures Unescape(name, false) == name
  {
    if name != [] { UnescapePlain(name[1..]); }
  }

  lemma TrimTrailingBlank(q: string)
    requires q != "" && Trimmed(q, IsSpace)
    ensures Trim(q + " ", IsSpace) == q
  {
    var s := q + " ";
    assert s[0] == q[0] && IsSpace(s[|s| - 1]);
    assert s[..|s| - 1] == q;
    assert TrimEnd(s, IsSpace) == TrimEnd(q, IsSpace);
  }

  /** A quoted name comes back without its outer quotes. */
  lemma UnquoteQuoted(name: string)
    requires name != "" && Trimmed(name, IsSpace)
    ensures Unquoted(Quoted(name) + " ") == name <==> Trimmed(name, IsQuote)
  {
    QuotingEscapes(name);
    UnescapeEscape(name);
    var q := Quoted(name);
    TrimTrailingBlank(q);
    assert InnerName(q) == EscapeName(name);
    TrimKeeps(name, IsSpace);
    TrimFixed(name, IsQuote);
    TrimShortens(name, IsQuote);
    TrimShortens(Trim(name, IsQuote), IsSpace);
  }

  lemma UnquotePlain(name: string)
    requires name != "" && Trimmed(name, IsSpace) && !NeedsQuotes(name)
    ensures Unquoted(name + " ") == name && Trimmed(name, IsQuote)
  {
    PlainCharacters(name);
    TrimTrailingBlank(name);
    UnescapePlain(name);
    TrimKeeps(name, IsSpace);
    TrimKeeps(name, IsQuote);
  }

  lemma PlainCharacters(name: string)
    requires !NeedsQuotes(name)
    ensures '\\' !in name && '"' !in name && forall i :: 0 <= i < |name| ==> !IsListSyntax(name[i])
  {
    forall i | 0 <= i < |name| ensures !IsNameSpecial(name[i]) {
    }
  }

  /** Reading back "shown <address>". */
  lemma ParseAngled(shown: string, email: string)
    requires shown != "" && !IsSpace(shown[0]) && GoodEmail(email)
    ensures ParseMailbox(shown + " <" + email + ">") == (Unquoted(shown + " "), email)
  {
    hide Unquoted, Clean;
    var text := shown + " <" + email + ">";
    TrimKeeps(text, IsSpace);
    assert '<' !in email + ">" && '>' !in "" by {
      assert forall i :: 0 <= i < |email| ==> !IsListSyntax(email[i]);
    }
    assert text == (shown + " ") + ['<'] + (email + ">");
    LastIndexOf(shown + " ", '<', email + ">");
    assert text == (shown + " <" + email) + ['>'] + "";
    LastIndexOf(shown + " <" + email, '>', "");
    CleanIsTrimmed(email);
    TrimKeeps(email, IsSpace);
    assert text[..|shown| + 1] == shown + " ";
    assert text[|shown| + 2..|text| - 1] == email;
  }

  lemma ParseBare(email: string)
    requires GoodEmail(email)
    ensures ParseMailbox(email) == ("", email)
  {
    hide Clean;
    CleanIsTrimmed(email);
    TrimKeeps(email, IsSpace);
    assert '<' !in email by { assert forall i :: 0 <= i < |email| ==> !IsListSyntax(email[i]); }
    TrimKeeps(email, IsAngleOrQuote);
  }

  /**
    Formatting and parsing one mailbox: the name and address come back exactly when the name is
    empty, or differs from the address ignoring case and neither starts nor ends with a quote.
  */
  lemma MailboxRoundTripIff(name: string, email: string)
    requires CleanText(name) && GoodEmail(email)
    ensures ParseMailbox(FormatMailbox(name, email)) == (name, email) <==> Recoverable(name, email)
  {
    hide Clean, ParseMailbox, Unquoted, Quoted, Lower;
    CleanIsTrimmed(name);
    if name == "" || Lower(name) == Lower(email) {
      ParseBare(email);
    } else if NeedsQuotes(name) {
      QuotedStart(name);
      ParseAngled(Quoted(name), email);
      UnquoteQuoted(name);
    } else {
      ParseAngled(name, email);
      UnquotePlain(name);
    }
  }

  lemma ShortTextIsClean(s: string)
    requires Trimmed(s, IsSpace) && forall c :: c in s ==> KeptInHeader(c)
    ensures CleanText(s)
  {
    hide Filter, Trim;
    FilterAll(s, KeptInHeader);
    TrimKeeps(s, IsSpace);
  }

  lemma PlainAddress()
    ensures GoodEmail("a@x")
  {
    hide CleanText;
    ShortTextIsClean("a@x");
  }

  /** A name that does not come back: it ends with a quote. */
  lemma QuoteAtTheEndIsLost()
    ensures ParseMailbox(FormatMailbox("A\"", "a@x")) != ("A\"", "a@x")
  {
    hide ParseMailbox, FormatMailbox, CleanText, GoodEmail, Lower;
    ShortTextIsClean("A\"");
    PlainAddress();
    MailboxRoundTripIff("A\"", "a@x");
  }

  /** Another: it is the address in a different casing. */
  lemma AddressAsNameIsLost()
    ensures ParseMailbox(FormatMailbox("A@x", "a@x")) != ("A@x", "a@x")
  {
    hide ParseMailbox, FormatMailbox, CleanText, GoodEmail;
    ShortTextIsClean("A@x");
    PlainAddress();
    assert Lower("A@x") == Lower("a@x");
    MailboxRoundTripIff("A@x", "a@x");
  }

  /** Cleaning an already clean text changes nothing. */
  lemma CleanIdempotent(s: string)
    ensures CleanText(Clean(s))
  {
    var kept := Filter(s, KeptInHeader);
    TrimKeepsCharacters(kept, IsSpace);
    FilterAll(Trim(kept, IsSpace), KeptInHeader);
    TrimIsTrimmed(kept, IsSpace);
    TrimKeeps(Trim(kept, IsSpace), IsSpace);
  }

  /** The same for names and addresses as they arrive: what comes back is their cleaned form. */
  lemma AnyMailboxRoundTripIff(name: string, email: string)
    requires GoodEmail(Clean(email))
    ensures ParseMailbox(FormatMailbox(name, email)) == (Clean(name), Clean(email))
        <==> Recoverable(Clean(name), Clean(email))
  {
    hide Clean, ParseMailbox, Quoted, Lower, GoodEmail, Recoverable;
    CleanIdempotent(name);
    CleanIdempotent(email);
    assert FormatMailbox(name, email) == FormatMailbox(Clean(name), Clean(email));
    MailboxRoundTripIff(Clean(name), Clean(email));
  }

  lemma {:induction false} ReplacementOnly(s: string, c: char, sub: string)
    ensures forall x :: x in ReplaceChar(s, c, sub) ==> x in s || x in sub
  {
    if s != [] { ReplacementOnly(s[1..], c, sub); }
  }

  /** Whatever the name and address are, a formatted mailbox cannot break the header line it stands in. */
  lemma FormattedStaysOnOneLine(name: string, email: string)
    ensures forall c :: c in FormatMailbox(name, email) ==> KeptInHeader(c)
  {
    hide Lower;
    var n, e := Clean(name), Clean(email);
    TrimKeepsCharacters(Filter(name, KeptInHeader), IsSpace);
    TrimKeepsCharacters(Filter(email, KeptInHeader), IsSpace);
    ReplacementOnly(n, '\\', "\\\\");
    ReplacementOnly(ReplaceChar(n, '\\', "\\\\"), '"', "\\\"");
  }

  lemma QuotedStart(name: string)
    ensures Quoted(name) != "" && Quoted(name)[0] == '"'
  {
  }

  // ---------- lists ----------

  function Join(parts: seq<string>): string {
    if parts == [] then ""
    else if |parts| == 1 then parts[0]
    else parts[0] + ", " + Join(parts[1..])
  }

  ghost predicate Neutral(s: Scan) {
    !s.inQuotes && !s.escaped && s.depth == 0
  }

  /** The scan has read `text` and kept all of it. */
  function Push(s: Scan, text: string): Scan {
    s.(current := s.current + text)
  }

  lemma PushTwice(s: Scan, a: string, b: string)
    ensures Push(Push(s, a), b) == Push(s, a + b)
  {
    assert s.current + a + b == s.current + (a + b);
  }

  lemma ScanOne(s: Scan, c: char)
    ensures ScanAll(s, [c]) == Step(s, c)
  {
    hide Step;
    assert [c][1..] == [];
    assert ScanAll(Step(s, c), []) == Step(s, c);
  }

  lemma ScanTwoParts(s: Scan, a: string, b: string, s1: Scan, s2: Scan)
    requires ScanAll(s, a) == s1 && ScanAll(s1, b) == s2
    ensures ScanAll(s, a + b) == s2
  {
    ScanConcat(s, a, b);
  }

  lemma {:induction false} ScanPlain(s: Scan, text: string)
    requires !s.inQuotes && !s.escaped && forall i :: 0 <= i < |text| ==> !IsListSyntax(text[i])
    ensures ScanAll(s, text) == Push(s, text)
    decreases |text|
  {
    hide Flush;
    if text == [] {
      assert s.current + text == s.current;
    } else {
      ScanPlain(Step(s, text[0]), text[1..]);
      PushTwice(s, [text[0]], text[1..]);
      assert [text[0]] + text[1..] == text;
    }
  }

  /** One name character, escaped when it must be, is kept and leaves the scan inside the quotes. */
  lemma ScanNameChar(s: Scan, c: char)
    requires s.inQuotes && !s.escaped
    ensures ScanAll(s, EscapeChar(c)) == Push(s, EscapeChar(c))
  {
    hide Flush, ScanAll;
    if c == '\\' || c == '"' {
      var s1 := Push(s, "\\").(escaped := true);
      ScanOne(s, '\\');
      ScanOne(s1, c);
      assert EscapeChar(c) == ['\\'] + [c];
      PushTwice(s, ['\\'], [c]);
      ScanTwoParts(s, ['\\'], [c], s1, Push(s, EscapeChar(c)));
    } else {
      ScanOne(s, c);
    }
  }

  lemma {:induction false} ScanEscaped(s: Scan, name: string)
    requires s.inQuotes && !s.escaped
    ensures ScanAll(s, EscapeName(name)) == Push(s, EscapeName(name))
    decreases |name|
  {
    hide Step, EscapeChar;
    if name == [] {
      assert s.current + EscapeName(name) == s.current;
    } else {
      hide ScanAll;
      var c, rest := EscapeChar(name[0]), EscapeName(name[1..]);
      ScanNameChar(s, name[0]);
      ScanEscaped(Push(s, c), name[1..]);
      PushTwice(s, c, rest);
      ScanTwoParts(s, c, rest, Push(s, c), Push(s, c + rest));
    }
  }

  lemma ScanAngled(s: Scan, email: string)
    requires Neutral(s) && forall i :: 0 <= i < |email| ==> !IsListSyntax(email[i])
    ensures ScanAll(s, " <" + email + ">") == Push(s, " <" + email + ">")
  {
    hide Flush, ScanAll;
    var open := Push(s, " <").(depth := 1);
    ScanOne(s, ' ');
    ScanOne(Push(s, " "), '<');
    PushTwice(s, " ", "<");
    assert " " + "<" == " <";
    ScanTwoParts(s, " ", "<", Push(s, " "), open);
    ScanPlain(open, email);
    PushTwice(s, " <", email);
    var read := Push(s, " <" + email).(depth := 1);
    ScanTwoParts(s, " <", email, open, read);
    ScanOne(read, '>');
    PushTwice(s, " <" + email, ">");
    ScanTwoParts(s, " <" + email, ">", read, Push(s, " <" + email + ">"));
  }

  lemma ScanQuoted(s: Scan, name: string)
    requires Neutral(s)
    ensures ScanAll(s, Quoted(name)) == Push(s, Quoted(name))
  {
    hide Flush, ScanAll, EscapeName, ReplaceChar;
    QuotingEscapes(name);
    var e := EscapeName(name);
    var open := Push(s, "\"").(inQuotes := true);
    ScanOne(s, '"');
    ScanEscaped(open, name);
    PushTwice(s, "\"", e);
    var read := Push(s, "\"" + e).(inQuotes := true);
    ScanTwoParts(s, "\"", e, open, read);
    ScanOne(read, '"');
    PushTwice(s, "\"" + e, "\"");
    ScanTwoParts(s, "\"" + e, "\"", read, Push(s, Quoted(name)));
  }

  /** The splitter passes over a formatted mailbox whatever its name contains. */
  lemma ScanFormatted(s: Scan, name: string, email: string)
    requires Neutral(s) && CleanText(name) && GoodEmail(email)
    ensures ScanAll(s, FormatMailbox(name, email)) == Push(s, FormatMailbox(name, email))
  {
    hide Clean, Quoted, Lower, ScanAll, NeedsQuotes;
    if name == "" || Lower(name) == Lower(email) {
      ScanPlain(s, email);
    } else {
      var shown := if NeedsQuotes(name) then Quoted(name) else name;
      var tail := " <" + email + ">";
      if NeedsQuotes(name) {
        ScanQuoted(s, name);
      } else {
        PlainCharacters(name);
        ScanPlain(s, name);
      }
      ScanAngled(Push(s, shown), email);
      PushTwice(s, shown, tail);
      ScanTwoParts(s, shown, tail, Push(s, shown), Push(s, shown + tail));
      assert FormatMailbox(name, email) == shown + tail;
    }
  }

  lemma FormattedIsTrimmed(name: string, email: string)
    requires CleanText(name) && GoodEmail(email)
    ensures FormatMailbox(name, email) != "" && Trimmed(FormatMailbox(name, email), IsSpace)
  {
    hide Clean, Quoted, Lower;
    CleanIsTrimmed(name);
    CleanIsTrimmed(email);
    QuotedStart(name);
  }

  function FormatAll(entries: seq<(string, string)>): seq<string> {
    if entries == [] then [] else [FormatMailbox(entries[0].0, entries[0].1)] + FormatAll(entries[1..])
  }

  function ParseAll(parts: seq<string>): seq<(string, string)> {
    if parts == [] then [] else [ParseMailbox(parts[0])] + ParseAll(parts[1..])
  }

  ghost predicate Formattable(entries: seq<(string, string)>) {
    forall i :: 0 <= i < |entries| ==> CleanText(entries[i].0) && GoodEmail(entries[i].1)
  }

  lemma FlushAfterBlank(s: Scan, f: string)
    requires (s.current == "" || s.current == " ") && f != "" && Trimmed(f, IsSpace)
    ensures Flush(Push(s, f)) == s.out + [f]
  {
    TrimKeeps(f, IsSpace);
    if s.current == " " {
      assert (" " + f)[0] == ' ' && IsSpace(' ');
      assert (" " + f)[1..] == f;
      assert TrimStart(" " + f, IsSpace) == TrimStart(f, IsSpace);
    } else {
      assert "" + f == f;
    }
  }

  lemma BlankTrims(s: string)
    requires s == "" || s == " "
    ensures Trim(s, IsSpace) == ""
  {
    if s == " " {
      assert IsSpace(s[0]);
      assert s[1..] == "";
      assert TrimStart(s[1..], IsSpace) == "";
    }
  }

  /** After one mailbox, the separator delivers it and leaves a blank to start the next one. */
  lemma ScanDelimiter(s: Scan, f: string)
    requires Neutral(s) && (s.current == "" || s.current == " ") && f != "" && Trimmed(f, IsSpace)
    ensures ScanAll(Push(s, f), ", ") == Scan(s.out + [f], " ", false, false, 0)
  {
    hide Flush, ScanAll;
    FlushAfterBlank(s, f);
    var next := Scan(s.out + [f], "", false, false, 0);
    ScanOne(Push(s, f), ',');
    ScanOne(next, ' ');
    assert "," + " " == ", ";
    ScanTwoParts(Push(s, f), ",", " ", next, Scan(s.out + [f], " ", false, false, 0));
  }

  lemma {:induction false} SplitFrom(s: Scan, entries: seq<(string, string)>)
    requires Neutral(s) && (s.current == "" || s.current == " ") && Formattable(entries)
    ensures Flush(ScanAll(s, Join(FormatAll(entries)))) == s.out + FormatAll(entries)
    decreases |entries|, 1
  {
    hide FormatMailbox, CleanText, GoodEmail, Step, Trim;
    if entries == [] {
      BlankTrims(s.current);
      assert s.out + [] == s.out;
    } else {
      var f, rest := FormatMailbox(entries[0].0, entries[0].1), FormatAll(entries[1..]);
      ScanFormatted(s, entries[0].0, entries[0].1);
      FormattedIsTrimmed(entries[0].0, entries[0].1);
      assert FormatAll(entries)[1..] == rest;
      if |entries| == 1 {
        FlushAfterBlank(s, f);
        assert Join(FormatAll(entries)) == f;
      } else {
        SplitRest(s, f, entries);
      }
    }
  }

  lemma JoinCons(f: string, rest: seq<string>)
    requires rest != []
    ensures Join([f] + rest) == f + ", " + Join(rest)
  {
    assert ([f] + rest)[1..] == rest;
  }

  lemma {:induction false} SplitRest(s: Scan, f: string, entries: seq<(string, string)>)
    requires Neutral(s) && (s.current == "" || s.current == " ") && Formattable(entries) && |entries| > 1
    requires f == FormatMailbox(entries[0].0, entries[0].1) && f != "" && Trimmed(f, IsSpace)
    requires ScanAll(s, f) == Push(s, f)
    ensures Flush(ScanAll(s, Join(FormatAll(entries)))) == s.out + FormatAll(entries)
    decreases |entries|, 0
  {
    hide FormatMailbox, CleanText, GoodEmail, Step, Flush, ScanAll, Join, Trimmed;
    var rest := FormatAll(entries[1..]);
    assert FormatAll(entries) == [f] + rest && rest != [];
    JoinCons(f, rest);
    var next := Scan(s.out + [f], " ", false, false, 0);
    ScanDelimiter(s, f);
    ScanTwoParts(s, f, ", ", Push(s, f), next);
    ScanTwoParts(s, f + ", ", Join(rest), next, ScanAll(next, Join(rest)));
    SplitFrom(next, entries[1..]);
    assert s.out + FormatAll(entries) == (s.out + [f]) + rest;
  }

  /** Splitting the joined list gives the mailboxes back one by one, whatever their names contain. */
  lemma SplitJoin(entries: seq<(string, string)>)
    requires Formattable(entries)
    ensures Split(Join(FormatAll(entries))) == FormatAll(entries)
  {
    SplitFrom(START, entries);
    assert [] + FormatAll(entries) == FormatAll(entries);
  }

  lemma {:induction false} ParseFormatAll(entries: seq<(string, string)>)
    requires Formattable(entries)
    ensures |ParseAll(FormatAll(entries))| == |entries|
    ensures forall i :: 0 <= i < |entries| ==>
      (ParseAll(FormatAll(entries))[i] == entries[i] <==> Recoverable(entries[i].0, entries[i].1))
  {
    hide FormatMailbox, ParseMailbox, CleanText, GoodEmail, Recoverable;
    if entries != [] {
      MailboxRoundTripIff(entries[0].0, entries[0].1);
      ParseFormatAll(entries[1..]);
      assert FormatAll(entries)[1..] == FormatAll(entries[1..]);
    }
  }

  /** A list survives formatting, joining, splitting and parsing exactly when each of its names is recoverable. */
  lemma ListRoundTripIff(entries: seq<(string, string)>)
    requires Formattable(entries)
    ensures ParseAll(Split(Join(FormatAll(entries)))) == entries <==>
      forall i :: 0 <= i < |entries| ==> Recoverable(entries[i].0, entries[i].1)
  {
    hide FormatAll, ParseAll, Split, Recoverable, Formattable;
    SplitJoin(entries);
    ParseFormatAll(entries);
  }

  // ---------- stored values ----------

  /** The shapes addresses are stored in. */
  datatype Value = Words(text: string) | Items(items: seq<Value>) | Mailbox(name: string, email: string) | Other

  function NonEmpty(parts: seq<string>): seq<string> {
    if parts == [] then [] else (if parts[0] == "" then [] else [parts[0]]) + NonEmpty(parts[1..])
  }

  function Reformat(parts: seq<string>): seq<string> {
    if parts == [] then []
    else
      var (name, email) := ParseMailbox(parts[0]);
      [FormatMailbox(name, email)] + Reformat(parts[1..])
  }

  function ValueEntries(v: Value): seq<string>
    decreases v, 0
  {
    match v
    case Words(s) => NonEmpty(Reformat(Split(s)))
    case Items(items) => ItemEntries(items)
    case Mailbox(name, email) => NonEmpty([FormatMailbox(name, email)])
    case Other => []
  }

  function ItemEntries(items: seq<Value>): seq<string>
    decreases items, 0
  {
    if items == [] then [] else ValueEntries(items[0]) + ItemEntries(items[1..])
  }

  function AddressText(v: Value): Option<string> {
    var entries := ValueEntries(v);
    if entries == [] then None else Some(Join(entries))
  }

  function JmapEntries(parts: seq<string>): seq<(Option<string>, string)> {
    if parts == [] then []
    else
      var (name, email) := ParseMailbox(parts[0]);
      (if email == "" then [] else [(if name == "" then None else Some(name), email)]) + JmapEntries(parts[1..])
  }

  function JmapAddresses(text: Option<string>): Option<seq<(Option<string>, string)>> {
    match text
    case None => None
    case Some(s) => var list := JmapEntries(Split(s)); if list == [] then None else Some(list)
  }

  function AsItems(entries: seq<(string, string)>): seq<Value> {
    if entries == [] then [] else [Mailbox(entries[0].0, entries[0].1)] + AsItems(entries[1..])
  }

  function AsJmap(entries: seq<(string, string)>): seq<(Option<string>, string)> {
    if entries == [] then []
    else [(if entries[0].0 == "" then None else Some(entries[0].0), entries[0].1)] + AsJmap(entries[1..])
  }

  ghost predicate AllRecoverable(entries: seq<(string, string)>) {
    Formattable(entries) && forall i :: 0 <= i < |entries| ==> Recoverable(entries[i].0, entries[i].1)
  }

  lemma {:induction false} ItemsFormat(entries: seq<(string, string)>)
    requires Formattable(entries)
    ensures ItemEntries(AsItems(entries)) == FormatAll(entries)
  {
    hide FormatMailbox, Clean;
    if entries != [] {
      FormattedIsTrimmed(entries[0].0, entries[0].1);
      ItemsFormat(entries[1..]);
      assert AsItems(entries)[1..] == AsItems(entries[1..]);
      var f := FormatMailbox(entries[0].0, entries[0].1);
      assert [f][1..] == [] && NonEmpty([f]) == [f];
    }
  }

  lemma {:induction false} JmapOfFormatted(entries: seq<(string, string)>)
    requires AllRecoverable(entries)
    ensures JmapEntries(FormatAll(entries)) == AsJmap(entries)
  {
    hide FormatMailbox, ParseMailbox, Clean;
    if entries != [] {
      MailboxRoundTripIff(entries[0].0, entries[0].1);
      JmapOfFormatted(entries[1..]);
      assert FormatAll(entries)[1..] == FormatAll(entries[1..]);
    }
  }

  /** Stored mailboxes reach a JMAP client unchanged through the header text. */
  lemma StoredAddressesReachJmap(entries: seq<(string, string)>)
    requires AllRecoverable(entries) && entries != []
    ensures JmapAddresses(AddressText(Items(AsItems(entries)))) == Some(AsJmap(entries))
  {
    hide FormatMailbox, ParseMailbox, Clean, JmapEntries, Split;
    ItemsFormat(entries);
    SplitJoin(entries);
    JmapOfFormatted(entries);
  }

  lemma {:induction false} ReformatFormatted(entries: seq<(string, string)>)
    requires AllRecoverable(entries)
    ensures NonEmpty(Reformat(FormatAll(entries))) == FormatAll(entries)
  {
    hide FormatMailbox, ParseMailbox, Clean;
    if entries != [] {
      MailboxRoundTripIff(entries[0].0, entries[0].1);
      FormattedIsTrimmed(entries[0].0, entries[0].1);
      ReformatFormatted(entries[1..]);
      assert FormatAll(entries)[1..] == FormatAll(entries[1..]);
      assert Reformat(FormatAll(entries))[1..] == Reformat(FormatAll(entries[1..]));
    }
  }

  /** Header text that the formatter produced is left as it is when it is read and formatted again. */
  lemma NormalisedTextIsStable(entries: seq<(string, string)>)
    requires AllRecoverable(entries) && entries != []
    ensures AddressText(Words(Join(FormatAll(entries)))) == Some(Join(FormatAll(entries)))
  {
    hide FormatMailbox, ParseMailbox, Clean, Split;
    SplitJoin(entries);
    ReformatFormatted(entries);
  }
}
