/**
  What a folder is called in the tree: which characters of its stored name are shown, and when a
  number is added. The numeral itself is read back here as well.
*/
module ShownNames {
  import opened Text
  import opened FolderTable

  // ---------- characters ----------

  /** The white space of Unicode, code point by code point. */
  lemma SpacesAre(c: char)
    ensures IsSpace(c) <==> c as int in {
      9, 10, 11, 12, 13, 32, 133, 160, 5760, 8192, 8193, 8194, 8195, 8196, 8197, 8198, 8199, 8200, 8201, 8202,
      8232, 8233, 8239, 8287, 12288}
  {
  }

  /** Lower case: the 26 capital letters become the small ones, and nothing else changes. */
  lemma LowerIs(s: string, i: nat)
    requires i < |s|
    ensures 'A' <= s[i] <= 'Z' ==> Lower(s)[i] as int - 'a' as int == s[i] as int - 'A' as int
    ensures !('A' <= s[i] <= 'Z') ==> Lower(s)[i] == s[i]
  {
  }

  // ---------- numerals ----------

  function Power(k: nat): nat {
    if k == 0 then 1 else 10 * Power(k - 1)
  }

  /** The value of a row of digits, read from its last digit. */
  function Reading(s: string): int {
    if s == [] then 0 else 10 * Reading(s[..|s| - 1]) + (s[|s| - 1] as int - '0' as int)
  }

  /** Numerals are the usual ones: digits that read as the number, without a leading zero. */
  lemma {:induction false} DecimalReads(n: nat)
    ensures Reading(Decimal(n)) == n
    ensures n > 0 ==> Decimal(n)[0] != '0'
  {
    var s := Decimal(n);
    if n >= 10 {
      assert s[..|s| - 1] == Decimal(n / 10);
      DecimalReads(n / 10);
    } else {
      assert s[..0] == [];
    }
  }

  // ---------- the characters that are shown ----------

  predicate Visible(c: char) {
    !IsControl(c) && !IsSpace(c)
  }

  ghost predicate Increasing(ks: seq<nat>) {
    forall i, j :: 0 <= i < j < |ks| ==> ks[i] < ks[j]
  }

  /** The positions, counted from `base`, of the characters of `s` that satisfy `p`. */
  function Positions(s: string, p: char -> bool, base: nat): seq<nat> {
    if s == [] then [] else (if p(s[0]) then [base] else []) + Positions(s[1..], p, base + 1)
  }

  lemma {:induction false} PositionsAre(s: string, p: char -> bool, base: nat)
    ensures forall k :: k in Positions(s, p, base) <==> base <= k < base + |s| && p(s[k - base])
    ensures Increasing(Positions(s, p, base))
  {
    if s != [] {
      var tail := Positions(s[1..], p, base + 1);
      PositionsAre(s[1..], p, base + 1);
      forall k ensures k in Positions(s, p, base) <==> base <= k < base + |s| && p(s[k - base]) {
        if base < k < base + |s| { assert s[1..][k - base - 1] == s[k - base]; }
      }
      forall j | 0 <= j < |tail| ensures tail[j] > base {
        assert tail[j] in tail;
      }
    }
  }

  lemma {:induction false} PositionsCount(s: string, p: char -> bool, base: nat)
    ensures |Filter(s, p)| == |Positions(s, p, base)|
  {
    if s != [] { PositionsCount(s[1..], p, base + 1); }
  }

  lemma {:induction false} FilterAt(s: string, p: char -> bool, base: nat, j: nat)
    requires j < |Positions(s, p, base)|
    ensures var k := Positions(s, p, base)[j];
            j < |Filter(s, p)| && base <= k < base + |s| && Filter(s, p)[j] == s[k - base]
    decreases |s|
  {
    PositionsCount(s, p, base);
    PositionsCount(s[1..], p, base + 1);
    if !p(s[0]) {
      FilterAt(s[1..], p, base + 1, j);
    } else if j > 0 {
      FilterAt(s[1..], p, base + 1, j - 1);
    }
  }

  /** What a character of a name is shown as. */
  function Shown(c: char): char {
    if c == '/' then '\U{2215}' else c
  }

  ghost predicate Unnamed(name: string) {
    forall c :: c in name ==> !Visible(c)
  }

  /** Names of control characters and blanks alone are shown as "Untitled". */
  lemma UnnamedIsUntitled(name: string)
    requires Unnamed(name)
    ensures DisplaySegment(name) == "Untitled"
  {
    var s := ReplaceSeparator(Filter(name, Printable));
    var i := TrimStartSplits(s, IsSpace);
    if i < |s| {
      assert Filter(name, Printable)[i] in Filter(name, Printable);
    }
    assert TrimStart(s, IsSpace) == [];
  }

  lemma TrimIsSlice(s: string) returns (a: nat, b: nat)
    ensures a <= b <= |s| && Trim(s, IsSpace) == s[a..b]
    ensures forall i :: 0 <= i < |s| && !IsSpace(s[i]) ==> a <= i < b
    ensures a < b ==> !IsSpace(s[a]) && !IsSpace(s[b - 1])
  {
    a := TrimStartSplits(s, IsSpace);
    var k := TrimEndSplits(s[a..], IsSpace);
    b := a + k;
    assert s[a..][..k] == s[a..b];
    forall i | 0 <= i < |s| && !IsSpace(s[i]) ensures a <= i < b {
      assert a <= i;
      assert s[a..][i - a] == s[i];
    }
    if k > 0 { assert s[a..][k - 1] == s[b - 1] && s[a..][0] == s[a]; }
  }

  /** The name without control characters and separators, before its ends are trimmed. */
  lemma CleanedAt(name: string, j: nat)
    ensures |ReplaceSeparator(Filter(name, Printable))| == |Positions(name, Printable, 0)|
    ensures j < |Positions(name, Printable, 0)| ==>
      var k := Positions(name, Printable, 0)[j];
      k < |name| && ReplaceSeparator(Filter(name, Printable))[j] == Shown(name[k])
  {
    PositionsCount(name, Printable, 0);
    if j < |Positions(name, Printable, 0)| { FilterAt(name, Printable, 0, j); }
  }

  /** A stretch of the printable positions covers every printable position between its ends. */
  lemma StretchCovers(js: seq<nat>, a: nat, b: nat, i: nat)
    requires Increasing(js) && a < b <= |js|
    ensures i in js[a..b] <==> i in js && js[a] <= i <= js[b - 1]
  {
    if i in js && js[a] <= i <= js[b - 1] {
      var j :| 0 <= j < |js| && js[j] == i;
      assert a <= j < b;
      assert js[a..b][j - a] == i;
    }
    if i in js[a..b] {
      var j :| 0 <= j < b - a && js[a..b][j] == i;
      assert js[a + j] == i;
    }
  }

  /** `s` shows the characters of `name` at the positions `js`. */
  ghost predicate Spells(name: string, s: string, js: seq<nat>) {
    |s| == |js| && forall j :: 0 <= j < |js| ==> js[j] < |name| && s[j] == Shown(name[js[j]])
  }

  lemma PrintablePositions(name: string, i: nat)
    ensures i in Positions(name, Printable, 0) <==> i < |name| && !IsControl(name[i])
  {
    hide IsControl, Positions;
    PositionsAre(name, Printable, 0);
    if i < |name| { assert name[i - 0] == name[i]; }
  }

  lemma CleanedSpells(name: string)
    ensures Spells(name, ReplaceSeparator(Filter(name, Printable)), Positions(name, Printable, 0))
    ensures Increasing(Positions(name, Printable, 0))
    ensures forall i: nat :: i in Positions(name, Printable, 0) <==> i < |name| && !IsControl(name[i])
  {
    hide ReplaceSeparator, Filter, Positions, IsControl, Shown, Increasing;
    CleanedAt(name, 0);
    forall j | 0 <= j < |Positions(name, Printable, 0)|
      ensures var k := Positions(name, Printable, 0)[j];
              k < |name| && ReplaceSeparator(Filter(name, Printable))[j] == Shown(name[k])
    {
      CleanedAt(name, j);
    }
    PositionsIncrease(name);
    forall i: nat ensures i in Positions(name, Printable, 0) <==> i < |name| && !IsControl(name[i]) {
      PrintablePositions(name, i);
    }
  }

  lemma PositionsIncrease(name: string)
    ensures Increasing(Positions(name, Printable, 0))
  {
    PositionsAre(name, Printable, 0);
  }

  lemma VisibleInStretch(name: string, s: string, js: seq<nat>, a: nat, b: nat, i: nat)
    requires Spells(name, s, js) && i < |name| && Visible(name[i]) && i in js
    requires forall j :: 0 <= j < |s| && !IsSpace(s[j]) ==> a <= j < b
    ensures exists j :: a <= j < b && j < |js| && js[j] == i
  {
    var j :| 0 <= j < |js| && js[j] == i;
    assert !IsSpace(s[j]);
  }

  /** `ks` are the positions from the first visible character to the last, without those of control characters. */
  ghost predicate FirstToLast(name: string, ks: seq<nat>) {
    && ks != [] && Increasing(ks)
    && (forall i: nat :: i < |name| ==> (i in ks <==> ks[0] <= i <= ks[|ks| - 1] && !IsControl(name[i])))
    && (forall i: nat :: i < |name| && Visible(name[i]) ==> ks[0] <= i <= ks[|ks| - 1])
    && ks[0] < |name| && ks[|ks| - 1] < |name| && Visible(name[ks[0]]) && Visible(name[ks[|ks| - 1]])
  }

  lemma StretchIsFirstToLast(name: string, s: string, js: seq<nat>, a: nat, b: nat)
    requires Spells(name, s, js) && Increasing(js) && a < b <= |s| && !IsSpace(s[a]) && !IsSpace(s[b - 1])
    requires forall i: nat :: i in js <==> i < |name| && !IsControl(name[i])
    requires forall j :: 0 <= j < |s| && !IsSpace(s[j]) ==> a <= j < b
    ensures FirstToLast(name, js[a..b])
  {
    hide IsSpace, IsControl, Shown, Visible, Spells, Increasing;
    StretchSpells(name, s, js, a, b);
    SpelledLength(name, s, js);
    var ks := js[a..b];
    assert ks[0] == js[a] && ks[|ks| - 1] == js[b - 1];
    assert js[a] in js && js[b - 1] in js;
    forall i: nat | i < |name| ensures i in ks <==> ks[0] <= i <= ks[|ks| - 1] && !IsControl(name[i]) {
      StretchCovers(js, a, b, i);
    }
    forall i: nat | i < |name| && Visible(name[i]) ensures ks[0] <= i <= ks[|ks| - 1] {
      VisibleIsPrintable(name[i]);
      VisibleInStretch(name, s, js, a, b, i);
      InStretch(js, a, b, i);
    }
  }

  lemma VisibleIsPrintable(c: char)
    ensures Visible(c) ==> !IsControl(c)
  {
  }

  lemma InStretch(js: seq<nat>, a: nat, b: nat, i: nat)
    requires Increasing(js) && a < b <= |js| && exists j :: a <= j < b && js[j] == i
    ensures js[a] <= i <= js[b - 1]
  {
  }

  /**
    Any other name is shown by its characters from the first visible one to the last, in order,
    without control characters and with a substitute for the separator.
  */
  lemma ShownCharacters(name: string) returns (ks: seq<nat>)
    requires !Unnamed(name)
    ensures FirstToLast(name, ks) && Spells(name, DisplaySegment(name), ks)
  {
    var s, js := ReplaceSeparator(Filter(name, Printable)), Positions(name, Printable, 0);
    hide ReplaceSeparator, Filter, Positions, IsSpace, IsControl, Trim, Shown, Spells, FirstToLast, Increasing;
    CleanedSpells(name);
    var a, b := TrimIsSlice(s);
    var v: nat :| v < |name| && Visible(name[v]);
    VisibleInStretch(name, s, js, a, b, v);
    assert Trim(s, IsSpace) == s[a..b] != [];
    SpelledLength(name, s, js);
    ks := js[a..b];
    StretchSpells(name, s, js, a, b);
    StretchIsFirstToLast(name, s, js, a, b);
  }

  lemma SpelledLength(name: string, s: string, js: seq<nat>)
    requires Spells(name, s, js)
    ensures |s| == |js|
  {
  }

  lemma StretchSpells(name: string, s: string, js: seq<nat>, a: nat, b: nat)
    requires Spells(name, s, js) && Increasing(js) && a < b <= |s| && !IsSpace(s[a]) && !IsSpace(s[b - 1])
    requires forall i: nat :: i in js <==> i < |name| && !IsControl(name[i])
    ensures Spells(name, s[a..b], js[a..b]) && Increasing(js[a..b])
    ensures Visible(name[js[a]]) && Visible(name[js[b - 1]])
  {
    hide IsSpace, IsControl;
    assert js[a] in js && js[b - 1] in js;
    SubstituteIsVisible();
  }

  lemma SubstituteIsVisible()
    ensures !IsSpace(Shown('/')) && !IsControl(Shown('/')) && Visible('/')
  {
  }

  /** A name without separators, control characters and blank ends is shown as it is. */
  lemma CleanNameIsShown(name: string)
    requires name != [] && Visible(name[0]) && Visible(name[|name| - 1])
    requires forall c :: c in name ==> !IsControl(c) && c != '/'
    ensures DisplaySegment(name) == name
  {
    FilterAll(name, Printable);
    assert forall i :: 0 <= i < |name| ==> name[i] in name;
    assert ReplaceSeparator(name) == name;
    TrimFixed(name, IsSpace);
  }
}
