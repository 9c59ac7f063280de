/**
  CRLF normalisation of message bodies. Texts are sequences of bytes; CR and LF never occur
  inside a longer UTF-8 character, so working on bytes and on characters is the same.
*/
module LineEndings {

  function ToCrlf(s: string): string {
    if s == [] then []
    else if s[0] == '\r' then "\r\n" + ToCrlf(if |s| > 1 && s[1] == '\n' then s[2..] else s[1..])
    else if s[0] == '\n' then "\r\n" + ToCrlf(s[1..])
    else [s[0]] + ToCrlf(s[1..])
  }

  /** A line feed without its carriage return, or the other way round. */
  predicate BareAt(s: string, i: nat)
    requires i < |s|
  {
    || (s[i] == '\n' && (i == 0 || s[i - 1] != '\r'))
    || (s[i] == '\r' && (i + 1 == |s| || s[i + 1] != '\n'))
  }

  ghost predicate CrlfOnly(s: string) {
    forall i :: 0 <= i < |s| ==> !BareAt(s, i)
  }

  function BareFrom(s: string, i: nat): nat
    requires i <= |s|
    decreases |s| - i
  {
    if i == |s| then 0 else (if BareAt(s, i) then 1 else 0) + BareFrom(s, i + 1)
  }

  /** Each bare line break grows by one byte. */
  lemma {:induction false} LengthFrom(s: string, i: nat)
    requires i <= |s|
    requires 0 < i < |s| ==> s[i - 1] != '\r' || s[i] != '\n'
    ensures |ToCrlf(s[i..])| == |s| - i + BareFrom(s, i)
    decreases |s| - i
  {
    if i < |s| {
      var t := s[i..];
      assert t[0] == s[i] && t[1..] == s[i + 1..];
      if s[i] == '\r' && i + 1 < |s| && s[i + 1] == '\n' {
        assert t[2..] == s[i + 2..];
        LengthFrom(s, i + 2);
      } else {
        LengthFrom(s, i + 1);
      }
    }
  }

  /** Counting without converting. */
  method NormalizedLen(s: string) returns (len: nat)
    ensures len == |ToCrlf(s)|
  {
    len := |s|;
    for i := 0 to |s|
      invariant len + BareFrom(s, i) == |s| + BareFrom(s, 0)
    {
      if s[i] == '\n' && (i == 0 || s[i - 1] != '\r') {
        len := len + 1;
      } else if s[i] == '\r' && (i + 1 == |s| || s[i + 1] != '\n') {
        len := len + 1;
      }
    }
    LengthFrom(s, 0);
    assert s[0..] == s;
  }

  lemma {:induction false} NoBareLeft(s: string, i: nat)
    requires i <= |s|
    ensures BareFrom(s, i) == 0 <==> forall j :: i <= j < |s| ==> !BareAt(s, j)
    decreases |s| - i
  {
    if i < |s| { NoBareLeft(s, i + 1); }
  }

  lemma {:induction false} CleanFrom(s: string, i: nat)
    requires i <= |s| && CrlfOnly(s)
    requires 0 < i < |s| ==> s[i - 1] != '\r' || s[i] != '\n'
    ensures ToCrlf(s[i..]) == s[i..]
    decreases |s| - i
  {
    if i < |s| {
      var t := s[i..];
      assert !BareAt(s, i);
      assert t[0] == s[i] && t[1..] == s[i + 1..];
      if s[i] == '\r' {
        assert t[2..] == s[i + 2..] && t == "\r\n" + s[i + 2..];
        CleanFrom(s, i + 2);
      } else {
        assert t == [s[i]] + s[i + 1..];
        CleanFrom(s, i + 1);
      }
    }
  }

  /**
    The shortcut is taken exactly when there is nothing to convert: equal length, no bare line
    break, and conversion being the identity are the same thing.
  */
  lemma ShortcutIsExact(s: string)
    ensures |ToCrlf(s)| == |s| <==> CrlfOnly(s)
    ensures ToCrlf(s) == s <==> CrlfOnly(s)
  {
    LengthFrom(s, 0);
    NoBareLeft(s, 0);
    assert s[0..] == s;
    if CrlfOnly(s) { CleanFrom(s, 0); }
  }

  lemma CrlfOnlyConcat(a: string, b: string)
    requires CrlfOnly(a) && CrlfOnly(b)
    ensures CrlfOnly(a + b)
  {
    var s := a + b;
    forall i | 0 <= i < |s| ensures !BareAt(s, i) {
      if i < |a| {
        assert !BareAt(a, i);
      } else {
        assert !BareAt(b, i - |a|);
      }
    }
  }

  /** The result of conversion has no bare line break. */
  lemma {:induction false} ConvertedIsClean(s: string)
    ensures CrlfOnly(ToCrlf(s))
  {
    if s != [] {
      if s[0] == '\r' {
        ConvertedIsClean(if |s| > 1 && s[1] == '\n' then s[2..] else s[1..]);
        CrlfOnlyConcat("\r\n", ToCrlf(if |s| > 1 && s[1] == '\n' then s[2..] else s[1..]));
      } else if s[0] == '\n' {
        ConvertedIsClean(s[1..]);
        CrlfOnlyConcat("\r\n", ToCrlf(s[1..]));
      } else {
        ConvertedIsClean(s[1..]);
        CrlfOnlyConcat([s[0]], ToCrlf(s[1..]));
      }
    }
  }

  /** Converting twice is converting once. */
  lemma ConversionIsIdempotent(s: string)
    ensures ToCrlf(ToCrlf(s)) == ToCrlf(s)
  {
    ConvertedIsClean(s);
    ShortcutIsExact(ToCrlf(s));
  }

  /** The lines of a text; CR, LF and CRLF each end one. */
  function Lines(s: string): (r: seq<string>)
    ensures r != []
  {
    if s == "" then [""]
    else if s[0] == '\r' && |s| > 1 && s[1] == '\n' then [""] + Lines(s[2..])
    else if s[0] == '\r' || s[0] == '\n' then [""] + Lines(s[1..])
    else
      var rest := Lines(s[1..]);
      [[s[0]] + rest[0]] + rest[1..]
  }

  lemma LinesAfterBreak(s: string)
    ensures Lines("\r\n" + s) == [""] + Lines(s)
  {
    assert ("\r\n" + s)[2..] == s;
  }

  /** Conversion changes line ends only: the lines are the same. */
  lemma {:induction false} ConversionKeepsLines(s: string)
    ensures Lines(ToCrlf(s)) == Lines(s)
  {
    if s != "" {
      if s[0] == '\r' {
        var rest := if |s| > 1 && s[1] == '\n' then s[2..] else s[1..];
        ConversionKeepsLines(rest);
        LinesAfterBreak(ToCrlf(rest));
      } else if s[0] == '\n' {
        ConversionKeepsLines(s[1..]);
        LinesAfterBreak(ToCrlf(s[1..]));
      } else {
        ConversionKeepsLines(s[1..]);
        assert ([s[0]] + ToCrlf(s[1..]))[1..] == ToCrlf(s[1..]);
      }
    }
  }

  /** How far the conversion loop reads at once, and what it writes. */
  lemma ToCrlfStep(s: string, i: nat)
    requires i < |s|
    ensures s[i] == '\r' && i + 1 < |s| && s[i + 1] == '\n' ==> ToCrlf(s[i..]) == "\r\n" + ToCrlf(s[i + 2..])
    ensures s[i] == '\r' && !(i + 1 < |s| && s[i + 1] == '\n') ==> ToCrlf(s[i..]) == "\r\n" + ToCrlf(s[i + 1..])
    ensures s[i] == '\n' ==> ToCrlf(s[i..]) == "\r\n" + ToCrlf(s[i + 1..])
    ensures s[i] != '\r' && s[i] != '\n' ==> ToCrlf(s[i..]) == [s[i]] + ToCrlf(s[i + 1..])
  {
    var t := s[i..];
    assert t[1..] == s[i + 1..];
    if i + 1 < |s| { assert t[2..] == s[i + 2..]; }
  }

  /** The conversion loop, with its shortcut for clean text. */
  method Convert(s: string) returns (out: string)
    ensures out == ToCrlf(s)
  {
    hide *;
    var len := NormalizedLen(s);
    ShortcutIsExact(s);
    if len == |s| {
      return s;
    }
    out := "";
    var i := 0;
    assert s[0..] == s && "" + ToCrlf(s) == ToCrlf(s);
    while i < |s|
      invariant 0 <= i <= |s|
      invariant out + ToCrlf(s[i..]) == ToCrlf(s)
    {
      ToCrlfStep(s, i);
      ghost var before, rest := out, ToCrlf(s[i..]);
      if s[i] == '\r' {
        if i + 1 < |s| && s[i + 1] == '\n' {
          i := i + 1;
        }
        out := out + "\r\n";
      } else if s[i] == '\n' {
        out := out + "\r\n";
      } else {
        out := out + [s[i]];
      }
      i := i + 1;
      assert rest == out[|before|..] + ToCrlf(s[i..]);
      assert before + rest == out + ToCrlf(s[i..]);
    }
    NothingToConvert(s[i..]);
  }

  lemma NothingToConvert(s: string)
    requires s == ""
    ensures ToCrlf(s) == ""
  {
  }
}
