/** PHP `json_encode` applied to a string with the default flags, as used to
    embed a redirect URL in an inline script, together with the matching
    decoder that shows no information is lost. */
module Json {
  import opened Wrappers
  import Strings

  const HexDigits: string := "0123456789abcdef"

  function HexChar(d: nat): (c: char)
    requires d < 16
    ensures c as int < 128
  {
    HexDigits[d]
  }

  /** The value of a hexadecimal digit in either case. */
  function HexValue(c: char): Option<nat>
  {
    if '0' <= c <= '9' then Some(c as int - '0' as int)
    else if 'a' <= c <= 'f' then Some(c as int - 'a' as int + 10)
    else if 'A' <= c <= 'F' then Some(c as int - 'A' as int + 10)
    else None
  }

  /** Four lower-case hexadecimal digits for a 16-bit code unit. */
  function Hex4(n: nat): (h: string)
    requires n < 0x1_0000
    ensures |h| == 4 && Strings.IsAscii(h)
  {
    [HexChar(n / 16 / 16 / 16), HexChar(n / 16 / 16 % 16), HexChar(n / 16 % 16), HexChar(n % 16)]
  }

  /** Reads four hexadecimal digits. */
  function ParseHex4(h: string): Option<nat>
    requires |h| == 4
  {
    match (HexValue(h[0]), HexValue(h[1]), HexValue(h[2]), HexValue(h[3]))
    case (Some(a), Some(b), Some(c), Some(d)) => Some(a * 4096 + b * 256 + c * 16 + d)
    case _ => None
  }

  lemma HexRoundTrip(d: nat)
    requires d < 16
    ensures HexValue(HexChar(d)) == Some(d)
  {
  }

  lemma Hex4RoundTrip(n: nat)
    requires n < 0x1_0000
    ensures ParseHex4(Hex4(n)) == Some(n)
  {
    var a, b, c, d := n / 16 / 16 / 16, n / 16 / 16 % 16, n / 16 % 16, n % 16;
    Hex4Digits(n);
    Hex4Value(n);
    ParseDigits(Hex4(n), a, b, c, d);
  }

  /** The four digits of `Hex4(n)` read back as the base-16 digits of `n`. */
  lemma Hex4Digits(n: nat)
    requires n < 0x1_0000
    ensures var h := Hex4(n);
            && HexValue(h[0]) == Some(n / 16 / 16 / 16) && HexValue(h[1]) == Some(n / 16 / 16 % 16)
            && HexValue(h[2]) == Some(n / 16 % 16) && HexValue(h[3]) == Some(n % 16)
  {
    HexRoundTrip(n / 16 / 16 / 16);
    HexRoundTrip(n / 16 / 16 % 16);
    HexRoundTrip(n / 16 % 16);
    HexRoundTrip(n % 16);
  }

  /** A 16-bit number is the sum of its base-16 digits. */
  lemma Hex4Value(n: nat)
    requires n < 0x1_0000
    ensures n == (n / 16 / 16 / 16) * 4096 + (n / 16 / 16 % 16) * 256 + (n / 16 % 16) * 16 + n % 16
  {
  }
  /** Four digits with known values parse to their base-16 number. */
  lemma ParseDigits(h: string, a: nat, b: nat, c: nat, d: nat)
    requires |h| == 4
    requires HexValue(h[0]) == Some(a) && HexValue(h[1]) == Some(b)
    requires HexValue(h[2]) == Some(c) && HexValue(h[3]) == Some(d)
    ensures ParseHex4(h) == Some(a * 4096 + b * 256 + c * 16 + d)
  {
  }

  /** The JSON escape of one character with PHP's default flags: the quote,
      the backslash and the slash are backslash-escaped, the five control
      characters with short escapes use them, other control characters and
      all non-ASCII characters become `\u` escapes (a surrogate pair above
      U+FFFF). */
  function EscapeChar(c: char): (e: string)
    ensures |e| > 0 && Strings.IsAscii(e)
  {
    if c == '"' then "\\\""
    else if c == '\\' then "\\\\"
    else if c == '/' then "\\/"
    else if c == 8 as char then "\\b"
    else if c == 12 as char then "\\f"
    else if c == '\n' then "\\n"
    else if c == '\r' then "\\r"
    else if c == '\t' then "\\t"
    else if c as int < 0x20 || 0x80 <= c as int < 0x1_0000 then
      Strings.AsciiAppend("\\u", Hex4(c as int));
      "\\u" + Hex4(c as int)
    else if c as int < 0x80 then [c]
    else
      var hi := "\\u" + Hex4(HighSurrogate(c));
      var lo := "\\u" + Hex4(LowSurrogate(c));
      Strings.AsciiAppend("\\u", Hex4(HighSurrogate(c)));
      Strings.AsciiAppend("\\u", Hex4(LowSurrogate(c)));
      Strings.AsciiAppend(hi, lo);
      assert hi + lo == "\\u" + Hex4(HighSurrogate(c)) + "\\u" + Hex4(LowSurrogate(c));
      "\\u" + Hex4(HighSurrogate(c)) + "\\u" + Hex4(LowSurrogate(c))
  }

  /** The UTF-16 surrogate pair of a character above U+FFFF. */
  function HighSurrogate(c: char): (hi: nat)
    requires c as int >= 0x1_0000
    ensures 0xD800 <= hi < 0xDC00
  {
    0xD800 + (c as int - 0x1_0000) / 0x400
  }

  function LowSurrogate(c: char): (lo: nat)
    requires c as int >= 0x1_0000
    ensures 0xDC00 <= lo < 0xE000
  {
    0xDC00 + (c as int - 0x1_0000) % 0x400
  }

  /** Recombining the surrogate pair gives the character back. */
  lemma SurrogatesRecombine(c: char)
    requires c as int >= 0x1_0000
    ensures (HighSurrogate(c) - 0xD800) * 0x400 + (LowSurrogate(c) - 0xDC00) + 0x1_0000 == c as int
  {
  }

  /** The escaped body of a JSON string literal. */
  function Escape(s: string): (e: string)
    ensures Strings.IsAscii(e)
    ensures |e| >= |s|
  {
    if |s| == 0 then "" else EscapeChar(s[0]) + Escape(s[1..])
  }

  /** PHP `json_encode($s)` for a string: a quoted, ASCII-only literal. */
  function Encode(s: string): (j: string)
    ensures |j| >= 2 && j[0] == '"' && j[|j| - 1] == '"'
    ensures Strings.IsAscii(j)
  {
    "\"" + Escape(s) + "\""
  }

  /** Reads a `\u` escape: the code unit, or a surrogate pair combined into
      one character, and the number of characters consumed. */
  function UnescapeUnicode(e: string): (r: Option<(char, nat)>)
    requires |e| >= 6 && e[0] == '\\' && e[1] == 'u'
    ensures r.Some? ==> 6 <= r.value.1 <= |e|
  {
    match ParseHex4(e[2..6])
    case None => None
    case Some(hi) =>
      if 0xD800 <= hi < 0xDC00 then
        if |e| >= 12 && e[6] == '\\' && e[7] == 'u' then
          match ParseHex4(e[8..12])
          case Some(lo) =>
            if 0xDC00 <= lo < 0xE000 then
              Some((((hi - 0xD800) * 0x400 + (lo - 0xDC00) + 0x1_0000) as char, 12))
            else None
          case None => None
        else None
      else if 0xDC00 <= hi < 0xE000 then None
      else Some((hi as char, 6))
  }

  /** The character a two-character escape `\d` stands for. */
  function ShortUnescape(d: char): Option<char>
  {
    if d == '"' then Some('"')
    else if d == '\\' then Some('\\')
    else if d == '/' then Some('/')
    else if d == 'b' then Some(8 as char)
    else if d == 'f' then Some(12 as char)
    else if d == 'n' then Some('\n')
    else if d == 'r' then Some('\r')
    else if d == 't' then Some('\t')
    else None
  }

  /** `c` placed in front of a decoded text, propagating a decoding error. */
  function Prepend(c: char, rest: Option<string>): Option<string>
  {
    match rest
    case Some(r) => Some([c] + r)
    case None => None
  }

  /** Decodes the body of a JSON string literal; `None` on a malformed
      escape. */
  function Unescape(e: string): Option<string>
    decreases |e|
  {
    if |e| == 0 then Some("")
    else if e[0] != '\\' then Prepend(e[0], Unescape(e[1..]))
    else if |e| >= 2 && ShortUnescape(e[1]).Some? then Prepend(ShortUnescape(e[1]).value, Unescape(e[2..]))
    else if |e| >= 6 && e[1] == 'u' then
      match UnescapeUnicode(e)
      case Some((c, n)) => Prepend(c, Unescape(e[n..]))
      case None => None
    else None
  }

  predicate HasShortEscape(c: char)
  {
    c == '"' || c == '\\' || c == '/' || c == 8 as char || c == 12 as char
    || c == '\n' || c == '\r' || c == '\t'
  }

  lemma UnescapeShort(c: char, rest: string)
    requires HasShortEscape(c)
    ensures Unescape(EscapeChar(c) + rest) == Prepend(c, Unescape(rest))
  {
    var e := EscapeChar(c) + rest;
    assert e[2..] == rest;
  }

  /** A `\u` escape of a code unit outside the surrogate range decodes to
      that character. */
  lemma UnicodeBmp(e: string, c: char)
    requires |e| >= 6 && e[0] == '\\' && e[1] == 'u'
    requires c as int < 0x1_0000 && e[2..6] == Hex4(c as int)
    ensures UnescapeUnicode(e) == Some((c, 6))
  {
    Hex4RoundTrip(c as int);
  }

  /** A `\u` escape of a surrogate pair decodes to the character it encodes. */
  lemma UnicodePair(e: string, hi: nat, lo: nat)
    requires 0xD800 <= hi < 0xDC00 && 0xDC00 <= lo < 0xE000
    requires |e| >= 12 && e[0] == '\\' && e[1] == 'u' && e[6] == '\\' && e[7] == 'u'
    requires e[2..6] == Hex4(hi) && e[8..12] == Hex4(lo)
    ensures (hi - 0xD800) * 0x400 + (lo - 0xDC00) + 0x1_0000 < 0x11_0000
    ensures UnescapeUnicode(e) == Some((((hi - 0xD800) * 0x400 + (lo - 0xDC00) + 0x1_0000) as char, 12))
  {
    Hex4RoundTrip(hi);
    Hex4RoundTrip(lo);
  }

  /** Decoding when the text starts with a `\u` escape consuming `n`
      characters. */
  lemma UnescapeAtUnicode(e: string, c: char, n: nat)
    requires |e| >= 6 && e[0] == '\\' && e[1] == 'u'
    requires UnescapeUnicode(e) == Some((c, n))
    ensures Unescape(e) == Prepend(c, Unescape(e[n..]))
  {
  }

  lemma UnescapeBmp(c: char, rest: string)
    requires !HasShortEscape(c)
    requires c as int < 0x20 || 0x80 <= c as int < 0x1_0000
    ensures Unescape(EscapeChar(c) + rest) == Prepend(c, Unescape(rest))
  {
    var h := Hex4(c as int);
    assert EscapeChar(c) == "\\u" + h;
    var e := "\\u" + h + rest;
    assert e == EscapeChar(c) + rest;
    assert e[2..6] == h;
    UnicodeBmp(e, c);
    assert e[6..] == rest;
    UnescapeAtUnicode(e, c, 6);
  }

  lemma UnescapePlain(c: char, rest: string)
    requires !HasShortEscape(c)
    requires 0x20 <= c as int < 0x80
    ensures Unescape(EscapeChar(c) + rest) == Prepend(c, Unescape(rest))
  {
    var e := EscapeChar(c) + rest;
    assert e[0] == c && e[1..] == rest;
  }

  lemma UnescapeAstral(c: char, rest: string)
    requires 0x1_0000 <= c as int
    ensures Unescape(EscapeChar(c) + rest) == Prepend(c, Unescape(rest))
  {
    var hi := HighSurrogate(c);
    var lo := LowSurrogate(c);
    EscapeAstral(c);
    var e := EscapeChar(c) + rest;
    PairLayout(hi, lo, rest);
    AstralPair(e, c);
    UnescapeAtUnicode(e, c, 12);
  }

  /** An escape that starts with the surrogate pair of `c` reads back as `c`
      and twelve characters. */
  lemma AstralPair(e: string, c: char)
    requires 0x1_0000 <= c as int
    requires |e| >= 12 && e[0] == '\\' && e[1] == 'u' && e[6] == '\\' && e[7] == 'u'
    requires e[2..6] == Hex4(HighSurrogate(c)) && e[8..12] == Hex4(LowSurrogate(c))
    ensures UnescapeUnicode(e) == Some((c, 12))
  {
    var hi, lo := HighSurrogate(c), LowSurrogate(c);
    assert ((hi - 0xD800) * 0x400 + (lo - 0xDC00) + 0x1_0000) as char == c by {
      SurrogatesRecombine(c);
    }
    UnicodePair(e, hi, lo);
  }

  /** A character above U+FFFF escapes as its surrogate pair. */
  lemma EscapeAstral(c: char)
    requires 0x1_0000 <= c as int
    ensures EscapeChar(c) == "\\u" + Hex4(HighSurrogate(c)) + "\\u" + Hex4(LowSurrogate(c))
  {
  }

  /** Where the parts of an escaped surrogate pair sit. */
  lemma PairLayout(hi: nat, lo: nat, rest: string)
    requires hi < 0x1_0000 && lo < 0x1_0000
    ensures var e := "\\u" + Hex4(hi) + "\\u" + Hex4(lo) + rest;
            |e| >= 12 && e[0] == '\\' && e[1] == 'u' && e[6] == '\\' && e[7] == 'u'
            && e[2..6] == Hex4(hi) && e[8..12] == Hex4(lo) && e[12..] == rest
  {
  }

  /** Decoding the escape of one character in front of any text yields that
      character in front of the decoded text. */
  lemma UnescapeChar(c: char, rest: string)
    ensures Unescape(EscapeChar(c) + rest) == Prepend(c, Unescape(rest))
  {
    if HasShortEscape(c) {
      UnescapeShort(c, rest);
    } else if c as int < 0x20 || 0x80 <= c as int < 0x1_0000 {
      UnescapeBmp(c, rest);
    } else if c as int < 0x80 {
      UnescapePlain(c, rest);
    } else {
      UnescapeAstral(c, rest);
    }
  }

  /** Decoding an escaped string gives the string back. */
  lemma {:induction false} EscapeRoundTrip(s: string)
    ensures Unescape(Escape(s)) == Some(s)
  {
    if |s| > 0 {
      EscapeRoundTrip(s[1..]);
      UnescapeChar(s[0], Escape(s[1..]));
      assert [s[0]] + s[1..] == s;
    }
  }

  /** `Encode` is injective: different strings never share an encoding. */
  lemma EncodeInjective(s: string, t: string)
    requires Encode(s) == Encode(t)
    ensures s == t
  {
    var js := Encode(s);
    assert Escape(s) == js[1..|js| - 1];
    assert Escape(t) == js[1..|js| - 1];
    EscapeRoundTrip(s);
    EscapeRoundTrip(t);
  }
}
