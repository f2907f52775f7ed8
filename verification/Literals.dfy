/**
 String constants. The transpiler escapes a Python string with five whole-string replacements
 and puts it between quotes, next to its length. Here the text is read back as C reads a string
 literal (sections 6.4.4.4 and 6.4.5 of C11, without trigraphs and universal character names).
 */
module Literals {
  import opened Wrappers

  // ---- Emission ----

  // str.replace for a pattern of one character.
  function Replace(s: string, c: char, rep: string): string {
    if s == "" then "" else (if s[0] == c then rep else [s[0]]) + Replace(s[1..], c, rep)
  }

  function Escape(s: string): string {
    Replace(Replace(Replace(Replace(Replace(s, '\\', "\\\\"), '"', "\\\""), '\n', "\\n"), '\r', "\\r"), '\t', "\\t")
  }

  // What becomes of one character.
  function EscapedChar(c: char): string {
    if c == '\\' then "\\\\"
    else if c == '"' then "\\\""
    else if c == '\n' then "\\n"
    else if c == '\r' then "\\r"
    else if c == '\t' then "\\t"
    else [c]
  }

  function EscapedChars(s: string): string {
    if s == "" then "" else EscapedChar(s[0]) + EscapedChars(s[1..])
  }

  lemma {:induction false} ReplaceConcat(s: string, t: string, c: char, rep: string)
    ensures Replace(s + t, c, rep) == Replace(s, c, rep) + Replace(t, c, rep)
    decreases |s|
  {
    if s == "" {
      assert s + t == t;
    } else {
      ReplaceConcat(s[1..], t, c, rep);
      var first := if s[0] == c then rep else [s[0]];
      assert (s + t)[1..] == s[1..] + t;
      assert Replace(s + t, c, rep) == first + Replace(s[1..] + t, c, rep);
    }
  }

  lemma EscapeConcat(s: string, t: string)
    ensures Escape(s + t) == Escape(s) + Escape(t)
  {
    var s1, t1 := Replace(s, '\\', "\\\\"), Replace(t, '\\', "\\\\");
    var s2, t2 := Replace(s1, '"', "\\\""), Replace(t1, '"', "\\\"");
    var s3, t3 := Replace(s2, '\n', "\\n"), Replace(t2, '\n', "\\n");
    var s4, t4 := Replace(s3, '\r', "\\r"), Replace(t3, '\r', "\\r");
    ReplaceConcat(s, t, '\\', "\\\\");
    ReplaceConcat(s1, t1, '"', "\\\"");
    ReplaceConcat(s2, t2, '\n', "\\n");
    ReplaceConcat(s3, t3, '\r', "\\r");
    ReplaceConcat(s4, t4, '\t', "\\t");
  }

  lemma ReplaceOne(a: char, c: char, rep: string)
    ensures Replace([a], c, rep) == if a == c then rep else [a]
  {
  }

  lemma ReplaceTwo(a: char, b: char, c: char, rep: string)
    requires a != c && b != c
    ensures Replace([a, b], c, rep) == [a, b]
  {
    ReplaceOne(b, c, rep);
    assert [a, b][1..] == [b];
  }

  // No replacement touches what an earlier one has put in.
  lemma EscapeOne(a: char)
    ensures Escape([a]) == EscapedChar(a)
  {
    ReplaceOne(a, '\\', "\\\\");
    if a == '\\' {
      ReplaceTwo('\\', '\\', '"', "\\\"");
      ReplaceTwo('\\', '\\', '\n', "\\n");
      ReplaceTwo('\\', '\\', '\r', "\\r");
      ReplaceTwo('\\', '\\', '\t', "\\t");
    } else {
      ReplaceOne(a, '"', "\\\"");
      if a == '"' {
        ReplaceTwo('\\', '"', '\n', "\\n");
        ReplaceTwo('\\', '"', '\r', "\\r");
        ReplaceTwo('\\', '"', '\t', "\\t");
      } else {
        ReplaceOne(a, '\n', "\\n");
        if a == '\n' {
          ReplaceTwo('\\', 'n', '\r', "\\r");
          ReplaceTwo('\\', 'n', '\t', "\\t");
        } else {
          ReplaceOne(a, '\r', "\\r");
          if a == '\r' {
            ReplaceTwo('\\', 'r', '\t', "\\t");
          } else {
            ReplaceOne(a, '\t', "\\t");
          }
        }
      }
    }
  }

  // Five passes over the whole string are one pass over its characters.
  lemma {:induction false} EscapeIsCharMap(s: string)
    ensures Escape(s) == EscapedChars(s)
    decreases |s|
  {
    if s != "" {
      EscapeIsCharMap(s[1..]);
      EscapeConcat([s[0]], s[1..]);
      EscapeOne(s[0]);
      assert [s[0]] + s[1..] == s;
    }
  }

  // ---- Reading a C string literal ----

  // UTF-8, the encoding of the emitted file.
  function Utf8(c: char): (r: seq<int>)
    ensures 1 <= |r| <= 4 && (|r| == 1 <==> c as int < 0x80) && forall i :: 0 <= i < |r| ==> 0 <= r[i] < 256
  {
    var n := c as int;
    if n < 0x80 then [n]
    else if n < 0x800 then [0xC0 + n / 0x40, Tail(n)]
    else if n < 0x1_0000 then [0xE0 + n / 0x1000, Tail(n / 0x40), Tail(n)]
    else [0xF0 + n / 0x4_0000, Tail(n / 0x1000), Tail(n / 0x40), Tail(n)]
  }

  function Tail(n: int): (r: int)
    ensures 0x80 <= r < 0xC0
  {
    0x80 + n % 0x40
  }

  function Encoded(s: string): seq<int> {
    if s == "" then [] else Utf8(s[0]) + Encoded(s[1..])
  }

  // ---- Decoding UTF-8 ----

  // How many bytes follow the first one (section 3 of RFC 3629); -1 for a byte that is no first one.
  function Following(b: int): int {
    if 0 <= b < 0x80 then 0
    else if 0xC0 <= b < 0xE0 then 1
    else if 0xE0 <= b < 0xF0 then 2
    else if 0xF0 <= b < 0xF8 then 3
    else -1
  }

  // The bits of the first byte that belong to the number.
  function LeadBits(b: int): int {
    if b < 0x80 then b else if b < 0xE0 then b - 0xC0 else if b < 0xF0 then b - 0xE0 else b - 0xF0
  }

  // Each following byte adds six bits.
  function SixBits(v: int, bytes: seq<int>): Option<int>
    decreases |bytes|
  {
    if bytes == [] then Some(v)
    else if 0x80 <= bytes[0] < 0xC0 then SixBits(v * 64 + (bytes[0] - 0x80), bytes[1..])
    else None
  }

  function Decode(bytes: seq<int>): Option<seq<int>>
    decreases |bytes|
  {
    if bytes == [] then Some([]) else
    var n := Following(bytes[0]);
    if n < 0 || |bytes| < 1 + n then None
    else
      match (SixBits(LeadBits(bytes[0]), bytes[1..1 + n]), Decode(bytes[1 + n..]))
      case (Some(c), Some(cs)) => Some([c] + cs)
      case _ => None
  }

  function Codes(s: string): seq<int> {
    seq(|s|, i requires 0 <= i < |s| => s[i] as int)
  }

  // The last six bits of m, in the byte for them, are put back.
  lemma ReadTail(m: nat, rest: seq<int>)
    ensures SixBits(m / 0x40, [Tail(m)] + rest) == SixBits(m, rest)
  {
    assert ([Tail(m)] + rest)[1..] == rest;
  }

  // The bytes of a character are the shortest ones that make up its number.
  lemma Utf8Decodes(c: char)
    ensures var u, n := Utf8(c), c as int;
            && Following(u[0]) == |u| - 1 && SixBits(LeadBits(u[0]), u[1..]) == Some(n)
            && |u| == if n < 0x80 then 1 else if n < 0x800 then 2 else if n < 0x1_0000 then 3 else 4
  {
    var u, n := Utf8(c), c as int;
    ReadTail(n, []);
    if 0x80 <= n < 0x800 {
      assert u[1..] == [Tail(n)] + [];
    } else if 0x800 <= n < 0x1_0000 {
      assert n / 0x1000 == n / 0x40 / 0x40;
      ReadTail(n / 0x40, [Tail(n)]);
      assert u[1..] == [Tail(n / 0x40)] + [Tail(n)] && [Tail(n)] == [Tail(n)] + [];
    } else if 0x1_0000 <= n {
      FourBytes(u, n);
    }
  }

  lemma FourBytes(u: seq<int>, n: int)
    requires 0 <= n && u == [0xF0 + n / 0x4_0000, Tail(n / 0x1000), Tail(n / 0x40), Tail(n)]
    ensures SixBits(n / 0x4_0000, u[1..]) == Some(n)
  {
    assert n / 0x4_0000 == n / 0x1000 / 0x40 && n / 0x1000 == n / 0x40 / 0x40;
    ReadTail(n / 0x1000, [Tail(n / 0x40), Tail(n)]);
    ReadTail(n / 0x40, [Tail(n)]);
    ReadTail(n, []);
    assert u[1..] == [Tail(n / 0x1000)] + [Tail(n / 0x40), Tail(n)];
    assert [Tail(n / 0x40), Tail(n)] == [Tail(n / 0x40)] + [Tail(n)] && [Tail(n)] == [Tail(n)] + [];
  }

  lemma DecodeFirst(u: seq<int>, c: int, rest: seq<int>, cs: seq<int>)
    requires u != [] && Following(u[0]) == |u| - 1 && SixBits(LeadBits(u[0]), u[1..]) == Some(c)
    requires Decode(rest) == Some(cs)
    ensures Decode(u + rest) == Some([c] + cs)
  {
    assert (u + rest)[1..|u|] == u[1..] && (u + rest)[|u|..] == rest;
  }

  // The UTF-8 form of a string decodes to its characters.
  lemma {:induction false} EncodedDecodes(s: string)
    ensures Decode(Encoded(s)) == Some(Codes(s))
    decreases |s|
  {
    if s == "" {
      assert Codes(s) == [];
    } else {
      EncodedDecodes(s[1..]);
      Utf8Decodes(s[0]);
      DecodeFirst(Utf8(s[0]), s[0] as int, Encoded(s[1..]), Codes(s[1..]));
      assert Codes(s) == [s[0] as int] + Codes(s[1..]);
    }
  }

  // ---- The literal ----

  // The bytes of a literal and the text behind its closing quote.
  datatype Literal = Literal(bytes: seq<int>, rest: string)

  // From behind the opening quote; None where the text is not a string literal. The standard
  // leaves it to the compiler whether a source file can have a NUL there.
  function ReadLiteral(src: string, nul: bool): (r: Option<Literal>)
    ensures r.Some? ==> |r.value.rest| < |src|
    decreases |src|
  {
    if src == "" || src[0] == '\n' || (src[0] == '\0' && !nul) then None
    else if src[0] == '"' then Some(Literal([], src[1..]))
    else if src[0] == '\\' then
      match ReadEscape(src[1..])
      case None => None
      case Some(e) => Behind(e.bytes, ReadLiteral(e.rest, nul))
    else Behind(Utf8(src[0]), ReadLiteral(src[1..], nul))
  }

  function Behind(bytes: seq<int>, r: Option<Literal>): Option<Literal> {
    match r
    case None => None
    case Some(l) => Some(Literal(bytes + l.bytes, l.rest))
  }

  // One escape sequence, from behind its backslash.
  function ReadEscape(src: string): (r: Option<Literal>)
    ensures r.Some? ==> |r.value.rest| < |src|
  {
    if src == "" then None
    else if SimpleEscape(src[0]).Some? then Some(Literal([SimpleEscape(src[0]).value], src[1..]))
    else if Digit(src[0]) < 8 then
      var n := DigitRun(src, 8, 3);
      AsByte(Number(src[..n], 8), src[n..])
    else if src[0] == 'x' && DigitRun(src[1..], 16, |src|) > 0 then
      var n := DigitRun(src[1..], 16, |src|);
      AsByte(Number(src[1..1 + n], 16), src[1 + n..])
    else None
  }

  function AsByte(n: int, rest: string): Option<Literal> {
    if n < 256 then Some(Literal([n], rest)) else None
  }

  function SimpleEscape(c: char): Option<int> {
    match c
    case '\'' => Some(39)
    case '"' => Some(34)
    case '?' => Some(63)
    case '\\' => Some(92)
    case 'a' => Some(7)
    case 'b' => Some(8)
    case 'f' => Some(12)
    case 'n' => Some(10)
    case 'r' => Some(13)
    case 't' => Some(9)
    case 'v' => Some(11)
    case _ => None
  }

  function Digit(c: char): int {
    if '0' <= c <= '9' then c as int - '0' as int
    else if 'a' <= c <= 'f' then c as int - 'a' as int + 10
    else if 'A' <= c <= 'F' then c as int - 'A' as int + 10
    else 99
  }

  function DigitRun(s: string, base: int, most: nat): (n: int)
    ensures 0 <= n <= |s|
    ensures s != "" && most > 0 && Digit(s[0]) < base ==> n > 0
  {
    if s == "" || most == 0 || Digit(s[0]) >= base then 0 else 1 + DigitRun(s[1..], base, most - 1)
  }

  function Number(s: string, base: int): int {
    if s == "" then 0 else Number(s[..|s| - 1], base) * base + Digit(s[|s| - 1])
  }

  // One escaped character is read back as that character, unless it is a NUL that is refused.
  lemma ReadOne(c: char, rest: string, nul: bool)
    ensures ReadLiteral(EscapedChar(c) + rest, nul) ==
            if c == '\0' && !nul then None else Behind(Utf8(c), ReadLiteral(rest, nul))
  {
    if |EscapedChar(c)| == 2 {
      var e := EscapedPair(c);
      ReadEscaped(e, rest, nul);
    } else {
      ReadPlain(c, rest, nul);
    }
  }

  lemma EscapedPair(c: char) returns (e: char)
    requires |EscapedChar(c)| == 2
    ensures EscapedChar(c) == ['\\', e] && SimpleEscape(e) == Some(c as int) && Utf8(c) == [c as int] && c != '\0'
  {
    e := EscapedChar(c)[1];
  }

  lemma ReadEscaped(e: char, rest: string, nul: bool)
    requires SimpleEscape(e).Some?
    ensures ReadLiteral(['\\', e] + rest, nul) == Behind([SimpleEscape(e).value], ReadLiteral(rest, nul))
  {
    var src := ['\\', e] + rest;
    assert src[1..] == [e] + rest && src[1..][1..] == rest;
  }

  lemma ReadPlain(c: char, rest: string, nul: bool)
    requires c != '\\' && c != '"' && c != '\n'
    ensures ReadLiteral([c] + rest, nul) == if c == '\0' && !nul then None else Behind(Utf8(c), ReadLiteral(rest, nul))
  {
    assert ([c] + rest)[1..] == rest;
  }

  lemma ReadQuote(tail: string, nul: bool)
    ensures ReadLiteral("\"" + tail, nul) == Some(Literal([], tail))
  {
    assert ("\"" + tail)[1..] == tail;
  }

  lemma Regroup(a: string, b: string, c: string, d: string)
    ensures a + b + c + d == a + (b + c + d)
  {
  }

  lemma {:induction false} ReadChars(v: string, tail: string, nul: bool)
    ensures ReadLiteral(EscapedChars(v) + "\"" + tail, nul) ==
            if '\0' in v && !nul then None else Some(Literal(Encoded(v), tail))
    decreases |v|
  {
    if v == "" {
      ReadQuote(tail, nul);
      assert EscapedChars(v) + "\"" == "\"";
    } else {
      var first, rest := EscapedChar(v[0]), EscapedChars(v[1..]);
      ReadChars(v[1..], tail, nul);
      ReadOne(v[0], rest + "\"" + tail, nul);
      Regroup(first, rest, "\"", tail);
      assert EscapedChars(v) == first + rest;
      assert v == [v[0]] + v[1..];
    }
  }

  // A C compiler reads the emitted literal as the UTF-8 form of the Python string and stops at
  // the quote the transpiler put behind it, whatever comes next.
  lemma LiteralRoundTrip(v: string, tail: string, nul: bool)
    ensures ReadLiteral(Escape(v) + "\"" + tail, nul) ==
            if '\0' in v && !nul then None else Some(Literal(Encoded(v), tail))
  {
    EscapeIsCharMap(v);
    ReadChars(v, tail, nul);
  }

  // The escapes of one character.
  lemma EscapeOfOne(c: char, rest: string)
    requires c in "'\"?\\abfnrtv"
    ensures ReadEscape([c] + rest) == Some(Literal([match c
                                                    case 'a' => 7
                                                    case 'b' => 8
                                                    case 't' => 9
                                                    case 'n' => 10
                                                    case 'v' => 11
                                                    case 'f' => 12
                                                    case 'r' => 13
                                                    case _ => c as int], rest))
  {
    assert ([c] + rest)[1..] == rest;
  }

  // What cannot be in a literal.
  lemma NotInLiterals(rest: string, nul: bool)
    ensures ReadLiteral("\n" + rest, nul) == None && ReadLiteral("\0" + rest, false) == None
    ensures ReadLiteral("", nul) == None && ReadEscape("\n" + rest) == None
  {
  }

  // Escapes that the transpiler never writes: three octal digits, or hexadecimal ones up to the next
  // character that is none.
  lemma OctalEscape(a: char, b: char, c: char, rest: string)
    requires '0' <= a <= '7' && '0' <= b <= '7' && '0' <= c <= '7'
    ensures var n := 64 * (a as int - 48) + 8 * (b as int - 48) + (c as int - 48);
            ReadEscape([a, b, c] + rest) == if n < 256 then Some(Literal([n], rest)) else None
  {
    var s := [a, b, c] + rest;
    assert s[1..] == [b, c] + rest && ([b, c] + rest)[1..] == [c] + rest && ([c] + rest)[1..] == rest;
    assert DigitRun([c] + rest, 8, 1) == 1;
    assert DigitRun([b, c] + rest, 8, 2) == 2;
    assert DigitRun(s, 8, 3) == 3 && s[..3] == [a, b, c] && s[3..] == rest;
    ThreeDigits(a, b, c, 8);
  }

  // Fewer digits end at the first character that is none.
  lemma ShortOctalEscape(a: char, rest: string)
    requires '0' <= a <= '7' && (rest == "" || rest[0] < '0' || rest[0] > '7')
    ensures ReadEscape([a] + rest) == Some(Literal([a as int - 48], rest))
  {
    var s := [a] + rest;
    assert s[1..] == rest && DigitRun(s, 8, 3) == 1 && s[..1] == [a];
    assert [a][..0] == "" && Number([a], 8) == Digit(a);
  }

  lemma ThreeDigits(a: char, b: char, c: char, base: int)
    ensures Number([a, b], base) == Digit(a) * base + Digit(b)
    ensures Number([a, b, c], base) == Number([a, b], base) * base + Digit(c)
  {
    assert [a, b, c][..2] == [a, b] && [a, b][..1] == [a];
    assert Number([a], base) == Digit(a);
  }

  lemma HexEscape(a: char, b: char, rest: string)
    requires Digit(a) < 16 && Digit(b) < 16 && (rest == "" || Digit(rest[0]) >= 16)
    ensures ReadEscape(['x', a, b] + rest) == Some(Literal([16 * Digit(a) + Digit(b)], rest))
    ensures Digit('9') == 9 && Digit('a') == 10 && Digit('f') == 15 && Digit('A') == 10 && Digit('F') == 15
  {
    var s := ['x', a, b] + rest;
    assert s[1..] == [a, b] + rest && ([a, b] + rest)[1..] == [b] + rest && ([b] + rest)[1..] == rest;
    assert DigitRun(rest, 16, |s| - 2) == 0;
    assert DigitRun([b] + rest, 16, |s| - 1) == 1;
    assert DigitRun(s[1..], 16, |s|) == 2 && s[1..3] == [a, b] && s[3..] == rest;
    ThreeDigits(a, b, b, 16);
  }

  // Decoded, these bytes are the characters of the Python string.
  lemma LiteralDecodes(v: string, tail: string, nul: bool)
    ensures var r := ReadLiteral(Escape(v) + "\"" + tail, nul);
            && (r == None <==> '\0' in v && !nul)
            && (r.Some? ==> Decode(r.value.bytes) == Some(Codes(v)) && r.value.rest == tail)
  {
    LiteralRoundTrip(v, tail, nul);
    EncodedDecodes(v);
  }

  // ---- The length next to the literal ----

  predicate IsAscii(s: string) {
    forall i :: 0 <= i < |s| ==> s[i] as int < 0x80
  }

  lemma {:induction false} EncodedLength(s: string)
    ensures |s| <= |Encoded(s)| && (|Encoded(s)| == |s| <==> IsAscii(s))
    decreases |s|
  {
    if s != "" {
      EncodedLength(s[1..]);
      assert s == [s[0]] + s[1..];
      assert forall i :: 0 <= i < |s[1..]| ==> s[1..][i] == s[i + 1];
    }
  }

  // str_new keeps len bytes of the literal, and the transpiler passes the number of characters.
  function StoredBytes(v: string): seq<int> {
    EncodedLength(v);
    Encoded(v)[..|v|]
  }

  // Those are the first bytes.
  lemma StoredIsPrefix(v: string)
    ensures |StoredBytes(v)| == |v| <= |Encoded(v)|
    ensures forall i :: 0 <= i < |v| ==> StoredBytes(v)[i] == Encoded(v)[i]
  {
    EncodedLength(v);
  }

  // The stored string is the whole Python string exactly when that is ASCII.
  lemma StoredIsWhole(v: string)
    ensures StoredBytes(v) == Encoded(v) <==> IsAscii(v)
  {
    EncodedLength(v);
  }

  lemma {:induction false} AsciiIsItself(v: string)
    requires IsAscii(v)
    ensures |Encoded(v)| == |v| && forall i :: 0 <= i < |v| ==> Encoded(v)[i] == v[i] as int
    decreases |v|
  {
    if v != "" {
      assert forall i :: 0 <= i < |v[1..]| ==> v[1..][i] == v[i + 1];
      AsciiIsItself(v[1..]);
    }
  }
}
