/**
  Base64 bodies wrapped at 76 columns (section 6.8 of RFC 2045): the length formula, and the
  way back to the data.
*/
module Base64Lines {

  type Byte = x: int | 0 <= x < 256

  const LINE: nat := 76

  function CeilDiv(n: nat, d: nat): nat
    requires d > 0
  {
    (n + d - 1) / d
  }

  /** The size of the wrapped encoding of `rawLen` bytes, without encoding them. */
  function EncodedLen(rawLen: nat): nat {
    if rawLen == 0 then 0
    else
      var b64 := CeilDiv(rawLen, 3) * 4;
      b64 + CeilDiv(b64, LINE) * 2
  }

  function Sextet(v: nat): (c: char)
    requires v < 64
    ensures SextetValue(c) == v && c != '=' && c != '\r' && c != '\n'
  {
    if v < 26 then ('A' as int + v) as char
    else if v < 52 then ('a' as int + (v - 26)) as char
    else if v < 62 then ('0' as int + (v - 52)) as char
    else if v == 62 then '+'
    else '/'
  }

  function SextetValue(c: char): nat {
    if 'A' <= c <= 'Z' then c as int - 'A' as int
    else if 'a' <= c <= 'z' then c as int - 'a' as int + 26
    else if '0' <= c <= '9' then c as int - '0' as int + 52
    else if c == '+' then 62
    else 63
  }

  /** The standard encoding with padding. */
  function Encode(data: seq<Byte>): (r: string)
    ensures |r| == CeilDiv(|data|, 3) * 4
    ensures '\r' !in r && '\n' !in r
  {
    if data == [] then []
    else if |data| == 1 then [Sextet(data[0] / 4), Sextet(data[0] % 4 * 16), '=', '=']
    else if |data| == 2 then
      [Sextet(data[0] / 4), Sextet(data[0] % 4 * 16 + data[1] / 16), Sextet(data[1] % 16 * 4), '=']
    else
      [Sextet(data[0] / 4), Sextet(data[0] % 4 * 16 + data[1] / 16),
       Sextet(data[1] % 16 * 4 + data[2] / 64), Sextet(data[2] % 64)] + Encode(data[3..])
  }

  function Decode(s: string): seq<int> {
    if |s| < 4 then []
    else
      var (a, b, c, d) := (SextetValue(s[0]), SextetValue(s[1]), SextetValue(s[2]), SextetValue(s[3]));
      if s[2] == '=' then [a * 4 + b / 16]
      else if s[3] == '=' then [a * 4 + b / 16, b % 16 * 16 + c / 4]
      else [a * 4 + b / 16, b % 16 * 16 + c / 4, c % 4 * 64 + d] + Decode(s[4..])
  }

  lemma Regroup(a: Byte, b: Byte)
    ensures a / 4 * 4 + (a % 4 * 16 + b / 16) / 16 == a
    ensures (a % 4 * 16 + b / 16) % 16 == b / 16
    ensures a / 4 * 4 + (a % 4 * 16) / 16 == a
  {
  }

  lemma RegroupTail(b: Byte, c: Byte)
    ensures b / 16 * 16 + (b % 16 * 4 + c / 64) / 4 == b
    ensures (b % 16 * 4 + c / 64) % 4 * 64 + c % 64 == c
    ensures b / 16 * 16 + (b % 16 * 4) / 4 == b
  {
  }

  lemma {:induction false} DecodeEncode(data: seq<Byte>)
    ensures Decode(Encode(data)) == data
  {
    hide Sextet, SextetValue, CeilDiv;
    if |data| >= 3 {
      var e := Encode(data);
      DecodeEncode(data[3..]);
      Regroup(data[0], data[1]);
      RegroupTail(data[1], data[2]);
      assert e[4..] == Encode(data[3..]);
      assert data == [data[0], data[1], data[2]] + data[3..];
    } else if |data| == 2 {
      Regroup(data[0], data[1]);
      RegroupTail(data[1], 0);
      assert data == [data[0], data[1]];
    } else if |data| == 1 {
      Regroup(data[0], 0);
      assert data == [data[0]];
    }
  }

  function Min(a: nat, b: nat): nat {
    if a < b then a else b
  }

  /** Lines of at most 76 characters, each ended by CRLF. */
  function Wrap(s: string): string {
    if s == [] then []
    else s[..Min(LINE, |s|)] + "\r\n" + Wrap(s[Min(LINE, |s|)..])
  }

  lemma {:induction false} WrapLength(s: string)
    ensures |Wrap(s)| == |s| + CeilDiv(|s|, LINE) * 2
  {
    if |s| > LINE {
      WrapLength(s[LINE..]);
      assert CeilDiv(|s|, LINE) == CeilDiv(|s| - LINE, LINE) + 1;
    } else if s != [] {
      assert s[|s|..] == [];
    }
  }

  function Unwrap(s: string): string {
    if s == [] then []
    else (if s[0] == '\r' || s[0] == '\n' then [] else [s[0]]) + Unwrap(s[1..])
  }

  lemma {:induction false} UnwrapConcat(a: string, b: string)
    ensures Unwrap(a + b) == Unwrap(a) + Unwrap(b)
  {
    if a == [] {
      assert a + b == b;
    } else {
      assert (a + b)[1..] == a[1..] + b;
      UnwrapConcat(a[1..], b);
    }
  }

  lemma {:induction false} UnwrapPlain(s: string)
    requires '\r' !in s && '\n' !in s
    ensures Unwrap(s) == s
  {
    if s != [] {
      UnwrapPlain(s[1..]);
    }
  }

  lemma {:induction false} UnwrapWrap(s: string)
    requires '\r' !in s && '\n' !in s
    ensures Unwrap(Wrap(s)) == s
  {
    if s != [] {
      var k := Min(LINE, |s|);
      UnwrapConcat(s[..k] + "\r\n", Wrap(s[k..]));
      UnwrapConcat(s[..k], "\r\n");
      UnwrapPlain(s[..k]);
      UnwrapWrap(s[k..]);
      assert Unwrap("\r\n") == "" by { assert "\r\n"[1..] == "\n"; }
    }
  }

  /** The written body of an attachment. */
  function Body(data: seq<Byte>): string {
    Wrap(Encode(data))
  }

  /** The body has exactly the announced length, for every number of bytes. */
  lemma BodyLength(data: seq<Byte>)
    ensures |Body(data)| == EncodedLen(|data|)
  {
    WrapLength(Encode(data));
  }

  /** Taking out the line breaks and decoding gives the data back. */
  lemma BodyDecodes(data: seq<Byte>)
    ensures Decode(Unwrap(Body(data))) == data
  {
    UnwrapWrap(Encode(data));
    DecodeEncode(data);
  }

  // ---------- the encoding in its own terms ----------

  /** The alphabet of section 4 of RFC 4648: 'A' to 'Z', 'a' to 'z', '0' to '9', '+' and '/', in this order. */
  lemma AlphabetIs(v: nat)
    requires v < 64
    ensures 'A' <= Sextet(v) <= 'Z' <==> v < 26
    ensures 'a' <= Sextet(v) <= 'z' <==> 26 <= v < 52
    ensures '0' <= Sextet(v) <= '9' <==> 52 <= v < 62
    ensures v !in {25, 51, 61, 62, 63} ==> Sextet(v + 1) as int == Sextet(v) as int + 1
    ensures Sextet(62) == '+' && Sextet(63) == '/'
  {
  }

  function ByteAt(data: seq<Byte>, i: nat): int {
    if i < |data| then data[i] else 0
  }

  /** Three bytes as one number; bytes past the end count as zero. */
  function GroupValue(data: seq<Byte>, k: nat): int {
    ByteAt(data, 3 * k) * 65536 + ByteAt(data, 3 * k + 1) * 256 + ByteAt(data, 3 * k + 2)
  }

  lemma Quotients(n: int, q: int, r: int)
    ensures n == q * 64 + r && 0 <= r < 64 ==> n / 64 == q && n % 64 == r
    ensures n == q * 4096 + r && 0 <= r < 4096 ==> n / 4096 == q && n % 4096 == r
    ensures n == q * 262144 + r && 0 <= r < 262144 ==> n / 262144 == q && n % 262144 == r
  {
  }

  lemma Quotient64(n: int, q: int, r: int)
    requires n == q * 64 + r && 0 <= r < 64
    ensures n / 64 == q && n % 64 == r
  {
  }

  lemma HighDigits(a: Byte, b: Byte, c: Byte)
    ensures var n := a * 65536 + b * 256 + c;
      0 <= n < 16777216 && n / 262144 == a / 4 && n / 4096 == a * 16 + b / 16 && n / 64 == a * 1024 + b * 4 + c / 64
  {
    var n := a * 65536 + b * 256 + c;
    Quotients(n, a / 4, a % 4 * 65536 + b * 256 + c);
    Quotients(n, a * 16 + b / 16, b % 16 * 256 + c);
    Quotients(n, a * 1024 + b * 4 + c / 64, c % 64);
  }

  lemma LowDigits(a: Byte, b: Byte, c: Byte)
    ensures (a * 16 + b / 16) % 64 == a % 4 * 16 + b / 16
    ensures (a * 1024 + b * 4 + c / 64) % 64 == b % 16 * 4 + c / 64
    ensures (a * 65536 + b * 256 + c) % 64 == c % 64
  {
    Quotient64(a * 16 + b / 16, a / 4, a % 4 * 16 + b / 16);
    Quotient64(a * 1024 + b * 4 + c / 64, a * 16 + b / 16, b % 16 * 4 + c / 64);
    Quotient64(a * 65536 + b * 256 + c, a * 1024 + b * 4 + c / 64, c % 64);
  }

  lemma FourDigits(a: Byte, b: Byte, c: Byte)
    ensures var n := a * 65536 + b * 256 + c;
      && 0 <= n < 16777216
      && n / 262144 == a / 4 && n / 4096 % 64 == a % 4 * 16 + b / 16
      && n / 64 % 64 == b % 16 * 4 + c / 64 && n % 64 == c % 64
  {
    HighDigits(a, b, c);
    LowDigits(a, b, c);
  }

  /** Each three bytes are written as the four digits of their number in base 64, with "=" for missing bytes. */
  lemma {:induction false} EncodedDigits(data: seq<Byte>, k: nat)
    requires 3 * k < |data|
    ensures var e, n := Encode(data), GroupValue(data, k);
      && 4 * k + 3 < |e| && 0 <= n < 16777216
      && e[4 * k] == Sextet(n / 262144) && e[4 * k + 1] == Sextet(n / 4096 % 64)
      && e[4 * k + 2] == (if 3 * k + 1 < |data| then Sextet(n / 64 % 64) else '=')
      && e[4 * k + 3] == (if 3 * k + 2 < |data| then Sextet(n % 64) else '=')
    decreases k
  {
    hide Sextet, CeilDiv, GroupValue, Encode;
    if k > 0 {
      EncodedDigits(data[3..], k - 1);
      GroupTail(data, k);
    } else {
      FirstGroup(data);
    }
  }

  lemma FirstGroup(data: seq<Byte>)
    requires data != []
    ensures var e, n := Encode(data), GroupValue(data, 0);
      && |e| >= 4 && 0 <= n < 16777216
      && e[0] == Sextet(n / 262144) && e[1] == Sextet(n / 4096 % 64)
      && e[2] == (if 1 < |data| then Sextet(n / 64 % 64) else '=')
      && e[3] == (if 2 < |data| then Sextet(n % 64) else '=')
  {
    var a, b, c := ByteAt(data, 0), ByteAt(data, 1), ByteAt(data, 2);
    FirstFour(data);
    FourDigits(a, b, c);
    hide Sextet, Encode;
    assert GroupValue(data, 0) == a * 65536 + b * 256 + c;
  }

  lemma FirstFour(data: seq<Byte>)
    requires data != []
    ensures var a, b, c := ByteAt(data, 0), ByteAt(data, 1), ByteAt(data, 2);
      var e := Encode(data);
      && 0 <= a < 256 && 0 <= b < 256 && 0 <= c < 256 && |e| >= 4
      && e[0] == Sextet(a / 4) && e[1] == Sextet(a % 4 * 16 + b / 16)
      && e[2] == (if 1 < |data| then Sextet(b % 16 * 4 + c / 64) else '=')
      && e[3] == (if 2 < |data| then Sextet(c % 64) else '=')
  {
    hide Sextet, CeilDiv;
  }

  lemma GroupTail(data: seq<Byte>, k: nat)
    requires k > 0 && |data| >= 3
    ensures GroupValue(data, k) == GroupValue(data[3..], k - 1)
    ensures |Encode(data)| >= 4 && Encode(data)[4..] == Encode(data[3..])
  {
    hide Sextet, CeilDiv;
  }

  /** Where a character of the encoding stands in the wrapped text: two line-end characters behind each full line. */
  lemma {:induction false} WrappedAt(s: string, i: nat)
    requires i < |s|
    ensures i + i / 76 * 2 < |Wrap(s)| && Wrap(s)[i + i / 76 * 2] == s[i]
  {
    if i >= 76 {
      assert s[Min(LINE, |s|)..][i - 76] == s[i];
      WrappedAt(s[76..], i - 76);
      assert (i - 76) / 76 == i / 76 - 1;
    }
  }

  /** Every line, the last one too, ends with CRLF. */
  lemma {:induction false} LinesEnd(s: string, k: nat)
    requires 76 * k < |s|
    ensures var end := Min(76 * (k + 1), |s|) + 2 * k;
            end + 2 <= |Wrap(s)| && Wrap(s)[end] == '\r' && Wrap(s)[end + 1] == '\n'
    decreases k
  {
    if k > 0 {
      var rest := s[Min(LINE, |s|)..];
      LinesEnd(rest, k - 1);
      assert Min(76 * (k + 1), |s|) == 76 + Min(76 * k, |rest|);
    }
  }

  /** One line of the wrapped text. */
  lemma WrapLine(written: string, encoded: string, i: nat)
    requires i < |encoded|
    ensures var end := Min(i + LINE, |encoded|);
            written + Wrap(encoded[i..]) == (written + encoded[i..end] + "\r\n") + Wrap(encoded[end..])
  {
    var end := Min(i + LINE, |encoded|);
    var line, rest := encoded[i..][..end - i], encoded[i..][end - i..];
    assert line == encoded[i..end] && rest == encoded[end..];
    assert Wrap(encoded[i..]) == line + "\r\n" + Wrap(rest);
    ThreeParts(written, line, "\r\n", Wrap(rest));
  }

  lemma ThreeParts(a: string, b: string, c: string, d: string)
    ensures a + (b + c + d) == (a + b + c) + d
  {
  }

  /** The writing loop, one line at a time. */
  method WriteLines(encoded: string) returns (written: string, len: nat)
    ensures written == Wrap(encoded) && len == |written|
  {
    written, len := "", 0;
    var i := 0;
    assert encoded[0..] == encoded;
    while i < |encoded|
      invariant 0 <= i <= |encoded|
      invariant written + Wrap(encoded[i..]) == Wrap(encoded) && len == |written|
    {
      hide Wrap;
      WrapLine(written, encoded, i);
      var end := Min(i + LINE, |encoded|);
      written := written + encoded[i..end] + "\r\n";
      len := len + (end - i + 2);
      i := end;
    }
  }
}
