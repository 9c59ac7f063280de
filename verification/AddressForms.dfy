/**
  Address lists in the terms of their syntax: what a formatted mailbox looks like, what any
  well-formed list splits into, and what the parser makes of each form of a mailbox.
*/
module AddressForms {
  import opened Text
  import opened Address

  // ---------- what is formatted ----------

  /** A character that a name cannot have outside quotes. */
  predicate Special(c: char) {
    c in "()<>[]:;@\\,.\""
  }

  /** The name between quotes, with a backslash before each quote and backslash. */
  function QuotedForm(name: string): string {
    "\"" + EscapeName(name) + "\""
  }

  /** Text that goes into a header as it is: no line breaks, no NUL, no blank ends. */
  lemma CleanTextIff(s: string)
    ensures CleanText(s) <==> Trimmed(s, IsSpace) && '\r' !in s && '\n' !in s && '\0' !in s
  {
    if CleanText(s) {
      CleanIsTrimmed(s);
      TrimKeepsCharacters(Filter(s, KeptInHeader), IsSpace);
    }
    if Trimmed(s, IsSpace) && '\r' !in s && '\n' !in s && '\0' !in s {
      FilterAll(s, KeptInHeader);
      TrimFixed(s, IsSpace);
    }
  }

  /** The four forms of a formatted mailbox, for a name and an address without blank ends and line breaks. */
  lemma FormattedReads(name: string, email: string)
    requires CleanText(name) && CleanText(email)
    ensures FormatMailbox(name, email) ==
      if email == "" then ""
      else if name == "" || Lower(name) == Lower(email) then email
      else if exists i :: 0 <= i < |name| && Special(name[i]) then QuotedForm(name) + " <" + email + ">"
      else name + " <" + email + ">"
  {
    hide Clean, Lower;
    QuotingEscapes(name);
    forall c ensures Special(c) <==> IsNameSpecial(c) { }
  }

  // ---------- well-formed lists ----------

  /** A piece of a list entry: one plain character, a quoted text, or a text in angle brackets. */
  datatype Token = Bare(c: char) | InQuotes(name: string) | InAngles(text: string)

  function Written(t: Token): string {
    match t
    case Bare(c) => [c]
    case InQuotes(name) => QuotedForm(name)
    case InAngles(text) => "<" + text + ">"
  }

  /** A plain character is no list syntax, except a stray closing bracket; brackets hold delimiters at most. */
  predicate WellFormed(t: Token) {
    match t
    case Bare(c) => !IsListSyntax(c) || c == '>'
    case InQuotes(_) => true
    case InAngles(text) => forall i :: 0 <= i < |text| ==> text[i] != '"' && text[i] != '<' && text[i] != '>'
  }

  function EntryText(entry: seq<Token>): string {
    if entry == [] then "" else Written(entry[0]) + EntryText(entry[1..])
  }

  predicate WellFormedEntry(entry: seq<Token>) {
    forall i :: 0 <= i < |entry| ==> WellFormed(entry[i])
  }

  /** Entries with a comma or a semicolon between each two. */
  function ListText(entries: seq<seq<Token>>, delimiters: string): string
    requires |entries| == |delimiters| + 1
  {
    EntryText(entries[0])
    + if delimiters == "" then "" else [delimiters[0]] + ListText(entries[1..], delimiters[1..])
  }

  /** The entries that are not blank, without their blank ends. */
  function Parts(entries: seq<seq<Token>>): seq<string> {
    if entries == [] then []
    else (if Trim(EntryText(entries[0]), IsSpace) == "" then [] else [Trim(EntryText(entries[0]), IsSpace)])
         + Parts(entries[1..])
  }

  lemma {:induction false} ScanInAngles(s: Scan, text: string)
    requires !s.inQuotes && !s.escaped && s.depth == 1
    requires forall i :: 0 <= i < |text| ==> text[i] != '"' && text[i] != '<' && text[i] != '>'
    ensures ScanAll(s, text) == Push(s, text)
    decreases |text|
  {
    if text == "" {
      assert s.current + "" == s.current;
    } else {
      var c := text[0];
      assert Step(s, c) == Push(s, [c]);
      ScanInAngles(Push(s, [c]), text[1..]);
      PushTwice(s, [c], text[1..]);
      assert text == [c] + text[1..];
    }
  }

  /** Between entries, each piece is read as a whole. */
  lemma ScanToken(s: Scan, t: Token)
    requires Neutral(s) && WellFormed(t)
    ensures ScanAll(s, Written(t)) == Push(s, Written(t))
  {
    match t
    case Bare(c) =>
      ScanOne(s, c);
    case InQuotes(name) =>
      hide ScanAll;
      ScanQuoted(s, name);
      QuotingEscapes(name);
    case InAngles(text) =>
      hide ScanAll;
      var s1 := Push(s, "<").(depth := 1);
      ScanOne(s, '<');
      ScanInAngles(s1, text);
      ScanTwoParts(s, "<", text, s1, Push(s1, text));
      ScanOne(Push(s1, text), '>');
      ScanTwoParts(s, "<" + text, ">", Push(s1, text), Push(s, "<" + text + ">")) by {
        assert s.current + "<" + text + ">" == s.current + ("<" + text + ">");
      }
  }

  lemma {:induction false} ScanEntry(s: Scan, entry: seq<Token>)
    requires Neutral(s) && WellFormedEntry(entry)
    ensures ScanAll(s, EntryText(entry)) == Push(s, EntryText(entry))
    decreases |entry|
  {
    hide ScanAll, WellFormed, Written;
    if entry == [] {
      ScanNothing(s);
    } else {
      var (a, b) := (Written(entry[0]), EntryText(entry[1..]));
      ScanToken(s, entry[0]);
      ScanEntry(Push(s, a), entry[1..]);
      PushTwice(s, a, b);
      ScanTwoParts(s, a, b, Push(s, a), Push(s, a + b));
    }
  }

  lemma ScanNothing(s: Scan)
    ensures ScanAll(s, "") == Push(s, "")
  {
    assert s.current + "" == s.current;
  }

  lemma {:induction false} SplitRemaining(s: Scan, entries: seq<seq<Token>>, delimiters: string)
    requires |entries| == |delimiters| + 1 && Neutral(s) && s.current == ""
    requires forall i :: 0 <= i < |entries| ==> WellFormedEntry(entries[i])
    requires forall i :: 0 <= i < |delimiters| ==> delimiters[i] == ',' || delimiters[i] == ';'
    ensures Flush(ScanAll(s, ListText(entries, delimiters))) == s.out + Parts(entries)
    decreases |delimiters|
  {
    hide ScanAll, WellFormedEntry, EntryText, Trim;
    var first := EntryText(entries[0]);
    ScanEntry(s, entries[0]);
    assert "" + first == first;
    if delimiters == "" {
      assert entries[1..] == [] && Parts([]) == [];
      assert first + "" == first;
    } else {
      var c, rest := delimiters[0], ListText(entries[1..], delimiters[1..]);
      var next := Scan(Flush(Push(s, first)), "", false, false, 0);
      ScanOne(Push(s, first), c);
      assert Step(Push(s, first), c) == next;
      ScanTwoParts(s, first, [c], Push(s, first), next);
      SplitRemaining(next, entries[1..], delimiters[1..]);
      ScanTwoParts(s, first + [c], rest, next, ScanAll(next, rest));
      assert ListText(entries, delimiters) == first + [c] + rest;
    }
  }

  /**
    A list whose entries are made of plain characters, quoted texts and bracketed addresses splits
    at exactly its commas and semicolons; delimiters inside quotes and brackets do not count.
  */
  lemma WellFormedListSplits(entries: seq<seq<Token>>, delimiters: string)
    requires |entries| == |delimiters| + 1
    requires forall i :: 0 <= i < |entries| ==> WellFormedEntry(entries[i])
    requires forall i :: 0 <= i < |delimiters| ==> delimiters[i] == ',' || delimiters[i] == ';'
    ensures Split(ListText(entries, delimiters)) == Parts(entries)
  {
    hide WellFormedEntry, ListText, Parts, ScanAll, Flush;
    SplitRemaining(START, entries, delimiters);
    assert [] + Parts(entries) == Parts(entries);
  }

  // ---------- what is parsed ----------

  /** Where the brackets of "name<email>tail" stand. */
  lemma BracketsStand(name: string, email: string, tail: string)
    requires '<' !in email && '>' !in email && '<' !in tail && '>' !in tail
    ensures var s := name + "<" + email + ">" + tail;
      && LastIndex(s, '<') == Some(|name|) && LastIndex(s, '>') == Some(|name| + 1 + |email|)
      && s[..|name|] == name && s[|name| + 1..|name| + 1 + |email|] == email
  {
    hide LastIndex;
    var s := name + "<" + email + ">" + tail;
    assert s == name + ['<'] + (email + ">" + tail);
    LastIndexOf(name, '<', email + ">" + tail);
    assert s == (name + "<" + email) + ['>'] + tail;
    LastIndexOf(name + "<" + email, '>', tail);
  }

  lemma NoBlankEnds(name: string, email: string, tail: string)
    requires name == "" || !IsSpace(name[0])
    requires tail != "" ==> !IsSpace(tail[|tail| - 1])
    ensures var s := name + "<" + email + ">" + tail; Trim(s, IsSpace) == s
  {
    var s := name + "<" + email + ">" + tail;
    assert s[0] == (if name == "" then '<' else name[0]);
    assert s[|s| - 1] == (if tail == "" then '>' else tail[|tail| - 1]);
    TrimKeeps(s, IsSpace);
  }

  /** A display name before a bracketed address; whatever follows the address is dropped. */
  lemma NamedMailboxReads(name: string, email: string, tail: string)
    requires name == "" || !IsSpace(name[0])
    requires tail != "" ==> !IsSpace(tail[|tail| - 1])
    requires '<' !in email && '>' !in email && '<' !in tail && '>' !in tail
    ensures ParseMailbox(name + "<" + email + ">" + tail) == (Unquoted(name), Trim(email, IsSpace))
  {
    hide Unquoted, Trim, LastIndex, IsSpace;
    NoBlankEnds(name, email, tail);
    BracketsStand(name, email, tail);
  }

  /** An address alone, with or without brackets, has no name. */
  lemma BareMailboxReads(email: string)
    requires email != "" && forall i :: 0 <= i < |email| ==> !IsAngleOrQuote(email[i])
    requires Trimmed(email, IsSpace)
    ensures ParseMailbox(email) == ("", email) && ParseMailbox("<" + email + ">") == ("", email)
  {
    hide Trim, LastIndex, IsSpace, Unquoted;
    assert '<' !in email && '>' !in email;
    TrimKeeps(email, IsSpace);
    TrimKeeps(email, IsAngleOrQuote);
    NamedMailboxReads("", email, "");
    assert "" + "<" + email + ">" + "" == "<" + email + ">";
    NothingUnquoted();
  }

  lemma NothingUnquoted()
    ensures Unquoted("") == ""
  {
  }

  // ---------- stored values without addresses ----------

  /** Nothing in the value is an address. */
  ghost predicate HoldsNoAddress(v: Value)
    decreases v
  {
    match v
    case Words(text) => forall i :: 0 <= i < |Split(text)| ==> Clean(ParseMailbox(Split(text)[i]).1) == ""
    case Items(items) => forall i :: 0 <= i < |items| ==> HoldsNoAddress(items[i])
    case Mailbox(_, email) => Clean(email) == ""
    case Other => true
  }

  lemma EmptyFormIff(name: string, email: string)
    ensures FormatMailbox(name, email) == "" <==> Clean(email) == ""
  {
    hide Clean, Quoted;
  }

  lemma {:induction false} ReformatIsEmptyIff(parts: seq<string>)
    ensures NonEmpty(Reformat(parts)) == [] <==>
      forall i :: 0 <= i < |parts| ==> Clean(ParseMailbox(parts[i]).1) == ""
    ensures "" !in NonEmpty(Reformat(parts))
  {
    hide FormatMailbox, ParseMailbox, Clean;
    if parts != [] {
      var (name, email) := ParseMailbox(parts[0]);
      EmptyFormIff(name, email);
      ReformatIsEmptyIff(parts[1..]);
      assert Reformat(parts)[1..] == Reformat(parts[1..]);
      assert forall i :: 1 <= i < |parts| ==> parts[i] == parts[1..][i - 1];
    }
  }

  lemma {:induction false} EntriesOf(v: Value)
    ensures ValueEntries(v) == [] <==> HoldsNoAddress(v)
    ensures "" !in ValueEntries(v)
    decreases v, 0
  {
    hide FormatMailbox, ParseMailbox, Clean, Split;
    match v
    case Words(text) => ReformatIsEmptyIff(Split(text));
    case Items(items) => EntriesOfItems(items);
    case Mailbox(name, email) =>
      EmptyFormIff(name, email);
      assert [FormatMailbox(name, email)][1..] == [] && NonEmpty([]) == [];
    case Other =>
  }

  lemma {:induction false} EntriesOfItems(items: seq<Value>)
    ensures ItemEntries(items) == [] <==> forall i :: 0 <= i < |items| ==> HoldsNoAddress(items[i])
    ensures "" !in ItemEntries(items)
    decreases items, 0
  {
    hide HoldsNoAddress, ValueEntries;
    if items != [] {
      EntriesOf(items[0]);
      EntriesOfItems(items[1..]);
      assert forall i :: 1 <= i < |items| ==> items[i] == items[1..][i - 1];
    }
  }

  /** A stored value has an address text exactly when it holds an address, and the text is never empty. */
  lemma AddressTextIff(v: Value)
    ensures AddressText(v).Some? <==> !HoldsNoAddress(v)
    ensures AddressText(v) != Some("")
  {
    hide ValueEntries, HoldsNoAddress;
    EntriesOf(v);
    var entries := ValueEntries(v);
    if entries != [] { assert entries[0] in entries; }
  }

  /** What a JMAP client gets for one part of an address list: nothing without an address, no name for an empty one. */
  lemma {:induction false} JmapEntriesAre(parts: seq<string>, e: (Option<string>, string))
    ensures e in JmapEntries(parts) <==>
      exists i :: 0 <= i < |parts| && e.1 != "" && e.0 != Some("")
        && ParseMailbox(parts[i]) == (if e.0.Some? then e.0.value else "", e.1)
    ensures |JmapEntries(parts)| <= |parts|
    ensures JmapEntries(parts) == [] <==> forall i :: 0 <= i < |parts| ==> ParseMailbox(parts[i]).1 == ""
  {
    hide ParseMailbox;
    if parts != [] {
      JmapEntriesAre(parts[1..], e);
      assert forall i :: 1 <= i < |parts| ==> parts[i] == parts[1..][i - 1];
    }
  }

  /** A header without any address is no list at all for a JMAP client. */
  lemma JmapListIff(text: Option<string>)
    ensures JmapAddresses(text).Some? <==>
      text.Some? && exists i :: 0 <= i < |Split(text.value)| && ParseMailbox(Split(text.value)[i]).1 != ""
    ensures JmapAddresses(text) != Some([])
  {
    hide ParseMailbox, Split;
    if text.Some? { JmapEntriesAre(Split(text.value), (None, "")); }
  }
}
