/**
  Vocabulary shared by the other modules: optional values, case folding, trimming, decimal
  numerals, the ordering of strings, and the size of a subset.
*/
module Text {

  datatype Option<+T> = None | Some(value: T)

  const SEPARATOR: char := '/'

  // ---------- case folding ----------

  function LowerChar(c: char): char {
    if 'A' <= c <= 'Z' then (c as int + 32) as char else c
  }

  function Lower(s: string): (r: string)
    ensures |r| == |s|
    ensures forall i :: 0 <= i < |s| ==> r[i] == LowerChar(s[i])
  {
    seq(|s|, i requires 0 <= i < |s| => LowerChar(s[i]))
  }

  // ---------- character classes ----------

  /** The code points of the Unicode property White_Space. */
  predicate IsSpace(c: char) {
    var n := c as int;
    || 9 <= n <= 13 || n == 0x20 || n == 0x85 || n == 0xA0 || n == 0x1680
    || 0x2000 <= n <= 0x200A || n == 0x2028 || n == 0x2029 || n == 0x202F || n == 0x205F || n == 0x3000
  }

  /** The code points of the Unicode category Cc. */
  predicate IsControl(c: char) {
    c as int < 0x20 || 0x7F <= c as int <= 0x9F
  }

  predicate IsSeparator(c: char) {
    c == SEPARATOR
  }

  // ---------- trimming ----------

  function TrimStart(s: string, p: char -> bool): string {
    if s != [] && p(s[0]) then TrimStart(s[1..], p) else s
  }

  function TrimEnd(s: string, p: char -> bool): string {
    if s != [] && p(s[|s| - 1]) then TrimEnd(s[..|s| - 1], p) else s
  }

  function Trim(s: string, p: char -> bool): string {
    TrimEnd(TrimStart(s, p), p)
  }

  /** Neither end of the text satisfies `p`. */
  predicate Trimmed(s: string, p: char -> bool) {
    s != [] ==> !p(s[0]) && !p(s[|s| - 1])
  }

  lemma {:induction false} TrimStartSplits(s: string, p: char -> bool) returns (k: nat)
    ensures k <= |s| && TrimStart(s, p) == s[k..]
    ensures forall i :: 0 <= i < k ==> p(s[i])
    ensures k < |s| ==> !p(s[k])
  {
    k := 0;
    if s != [] && p(s[0]) {
      var j := TrimStartSplits(s[1..], p);
      k := j + 1;
      assert s[1..][j..] == s[k..];
      forall i | 0 <= i < k ensures p(s[i]) {
        if i > 0 { assert p(s[1..][i - 1]); }
      }
      if k < |s| { assert s[k] == s[1..][j]; }
    }
  }

  lemma {:induction false} TrimEndSplits(s: string, p: char -> bool) returns (k: nat)
    ensures k <= |s| && TrimEnd(s, p) == s[..k]
    ensures forall i :: k <= i < |s| ==> p(s[i])
    ensures k > 0 ==> !p(s[k - 1])
  {
    k := |s|;
    if s != [] && p(s[|s| - 1]) {
      k := TrimEndSplits(s[..|s| - 1], p);
      assert s[..|s| - 1][..k] == s[..k];
    }
  }

  /** Trimming removes every matching end character. */
  lemma TrimIsTrimmed(s: string, p: char -> bool)
    ensures Trimmed(Trim(s, p), p)
  {
    var i := TrimStartSplits(s, p);
    var j := TrimEndSplits(s[i..], p);
  }

  /** Trimming is the identity exactly on trimmed text. */
  lemma TrimFixed(s: string, p: char -> bool)
    ensures Trim(s, p) == s <==> Trimmed(s, p)
  {
    if Trimmed(s, p) {
      assert TrimStart(s, p) == s;
    } else {
      TrimIsTrimmed(s, p);
    }
  }

  lemma TrimKeepsCharacters(s: string, p: char -> bool)
    ensures forall c :: c in Trim(s, p) ==> c in s
  {
    var i := TrimStartSplits(s, p);
    var j := TrimEndSplits(s[i..], p);
  }

  // ---------- character-wise rewriting ----------

  function Filter(s: string, p: char -> bool): (r: string)
    ensures forall c :: c in r <==> c in s && p(c)
  {
    if s == [] then []
    else (if p(s[0]) then [s[0]] else []) + Filter(s[1..], p)
  }

  lemma {:induction false} FilterAll(s: string, p: char -> bool)
    requires forall c :: c in s ==> p(c)
    ensures Filter(s, p) == s
  {
    if s != [] {
      FilterAll(s[1..], p);
    }
  }

  function ReplaceChar(s: string, c: char, sub: string): string {
    if s == [] then [] else (if s[0] == c then sub else [s[0]]) + ReplaceChar(s[1..], c, sub)
  }

  lemma {:induction false} ReplaceConcat(a: string, b: string, c: char, sub: string)
    ensures ReplaceChar(a + b, c, sub) == ReplaceChar(a, c, sub) + ReplaceChar(b, c, sub)
  {
    if a == "" {
      assert a + b == b;
    } else {
      assert (a + b)[1..] == a[1..] + b;
      ReplaceConcat(a[1..], b, c, sub);
    }
  }

  // ---------- membership of one separator: splitting at the last one ----------

  lemma EarlierSeparatorInTail(a: string, x: string, b: string, y: string, sep: char)
    requires a + [sep] + x == b + [sep] + y
    requires |a| < |b|
    ensures sep in x
  {
    assert (b + [sep] + y)[|b|] == sep;
    assert (a + [sep] + x)[|b|] == x[|b| - |a| - 1];
  }

  /** A text has at most one reading as `a`, a separator, and a separator-free tail. */
  lemma LastSplitUnique(a: string, x: string, b: string, y: string, sep: char)
    requires sep !in x && sep !in y
    requires a + [sep] + x == b + [sep] + y
    ensures a == b && x == y
  {
    if |a| < |b| { EarlierSeparatorInTail(a, x, b, y, sep); }
    if |b| < |a| { EarlierSeparatorInTail(b, y, a, x, sep); }
    var s := a + [sep] + x;
    assert a == s[..|a|] && b == s[..|b|];
    assert x == s[|a| + 1..] && y == s[|b| + 1..];
  }

  // ---------- decimal numerals ----------

  function Digit(d: nat): char
    requires d < 10
  {
    ('0' as int + d) as char
  }

  function Decimal(n: nat): (r: string)
    ensures r != []
    ensures forall c :: c in r ==> '0' <= c <= '9'
  {
    if n < 10 then [Digit(n)] else Decimal(n / 10) + [Digit(n % 10)]
  }

  lemma {:induction false} DecimalInjective(m: nat, n: nat)
    requires Decimal(m) == Decimal(n)
    ensures m == n
  {
    var s, t := Decimal(m), Decimal(n);
    assert s[|s| - 1] == Digit(m % 10) && t[|t| - 1] == Digit(n % 10);
    if m >= 10 && n >= 10 {
      assert s[..|s| - 1] == Decimal(m / 10) && t[..|t| - 1] == Decimal(n / 10);
      DecimalInjective(m / 10, n / 10);
    }
  }

  // ---------- ordering of strings ----------

  datatype Ordering = Less | Equal | Greater

  function Reverse(o: Ordering): Ordering {
    match o case Less => Greater case Equal => Equal case Greater => Less
  }

  function Then(first: Ordering, second: Ordering): Ordering {
    if first == Equal then second else first
  }

  function CompareInt(a: int, b: int): Ordering {
    if a < b then Less else if a == b then Equal else Greater
  }

  function CompareText(a: string, b: string): Ordering {
    if a == [] && b == [] then Equal
    else if a == [] then Less
    else if b == [] then Greater
    else Then(CompareInt(a[0] as int, b[0] as int), CompareText(a[1..], b[1..]))
  }

  lemma {:induction false} CompareTextEqual(a: string, b: string)
    ensures CompareText(a, b) == Equal <==> a == b
  {
    if a != [] && b != [] {
      CompareTextEqual(a[1..], b[1..]);
      if a[0] == b[0] && a[1..] == b[1..] {
        assert a == [a[0]] + a[1..] && b == [b[0]] + b[1..];
      }
    }
  }

  lemma {:induction false} CompareTextReverse(a: string, b: string)
    ensures CompareText(b, a) == Reverse(CompareText(a, b))
  {
    if a != [] && b != [] {
      CompareTextReverse(a[1..], b[1..]);
    }
  }

  lemma {:induction false} CompareTextTransitive(a: string, b: string, c: string)
    requires CompareText(a, b) == Less && CompareText(b, c) == Less
    ensures CompareText(a, c) == Less
  {
    if a != [] && b != [] && c != [] {
      if a[0] == b[0] == c[0] {
        CompareTextTransitive(a[1..], b[1..], c[1..]);
      }
    }
  }

  // ---------- lists without repeats, finite sets ----------

  ghost predicate Distinct<T(!new)>(s: seq<T>) {
    forall i, j :: 0 <= i < j < |s| ==> s[i] != s[j]
  }

  lemma {:induction false} CardinalityOfSubset<T>(a: set<T>, b: set<T>)
    requires a <= b
    ensures |a| <= |b|
  {
    if a != {} {
      var x :| x in a;
      CardinalityOfSubset(a - {x}, b - {x});
    }
  }
}
