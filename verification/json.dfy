/**
 * `json_encode` of a PHP string with the default flags (slashes escaped,
 * non-ASCII written as lower-case `\u` escapes, astral characters as
 * surrogate pairs), and the matching decoder of a JSON string literal.
 */
module Json {
  import opened Wrappers

  function HexDigit(n: nat): char
    requires n < 16
  {
    if n < 10 then ('0' as int + n) as char else ('a' as int + n - 10) as char
  }

  function HexDigitValue(c: char): (r: Option<nat>)
    ensures r.Some? ==> r.value < 16
  {
    if '0' <= c <= '9' then Some(c as int - '0' as int)
    else if 'a' <= c <= 'f' then Some(c as int - 'a' as int + 10)
    else if 'A' <= c <= 'F' then Some(c as int - 'A' as int + 10)
    else None
  }

  /** Four lower-case hex digits of a 16-bit code unit. */
  function Hex4(n: nat): (s: string)
    requires n < 0x10000
    ensures |s| == 4
  {
    var q := n / 16;
    var qq := q / 16;
    [HexDigit(qq / 16), HexDigit(qq % 16), HexDigit(q % 16), HexDigit(n % 16)]
  }

  /** The code unit written by four hex digits of either case. */
  function Hex4Value(s: string): (r: Option<nat>)
    requires |s| == 4
    ensures r.Some? ==> r.value < 0x10000
  {
    match (HexDigitValue(s[0]), HexDigitValue(s[1]), HexDigitValue(s[2]), HexDigitValue(s[3]))
    case (Some(a), Some(b), Some(c), Some(d)) => Some(a * 0x1000 + b * 0x100 + c * 0x10 + d)
    case _ => None
  }

  lemma Hex4RoundTrip(n: nat)
    requires n < 0x10000
    ensures Hex4Value(Hex4(n)) == Some(n)
  {
    var q := n / 16;
    var qq := q / 16;
    var a, b, c, d := qq / 16, qq % 16, q % 16, n % 16;
    HexDigitRoundTrip(a);
    HexDigitRoundTrip(b);
    HexDigitRoundTrip(c);
    HexDigitRoundTrip(d);
    assert n == q * 16 + d;
    assert q == qq * 16 + c;
    assert qq == a * 16 + b;
  }

  lemma HexDigitRoundTrip(d: nat)
    requires d < 16
    ensures HexDigitValue(HexDigit(d)) == Some(d)
  {
  }

  /** The escape `json_encode` writes for one character. */
  function EscapeChar(c: char): (e: string)
    ensures |e| >= 1
  {
    if c == '"' then "\\\""
    else if c == '\\' then "\\\\"
    else if c == '/' then "\\/"
    else if c == 8 as char then "\\b"
    else if c == 12 as char then "\\f"
    else if c == '\n' then "\\n"
    else if c == '\r' then "\\r"
    else if c == '\t' then "\\t"
    else if c as int < 0x20 || 0x80 <= c as int < 0x10000 then "\\u" + Hex4(c as int)
    else if c as int < 0x80 then [c]
    else
      "\\u" + Hex4(HighSurrogate(c as int)) + "\\u" + Hex4(LowSurrogate(c as int))
  }

  function Escape(s: string): string
    decreases |s|
  {
    if |s| == 0 then "" else EscapeChar(s[0]) + Escape(s[1..])
  }

  /** `json_encode($s)` for a string: the escaped text between double quotes. */
  function EncodeString(s: string): (r: string)
    ensures |r| >= |s| + 2 && r[0] == '"' && r[|r| - 1] == '"'
  {
    EscapedLength(s);
    "\"" + Escape(s) + "\""
  }

  lemma {:induction false} EscapedLength(s: string)
    ensures |Escape(s)| >= |s|
    decreases |s|
  {
    if |s| > 0 {
      EscapedLength(s[1..]);
    }
  }

  function Prepend(c: char, rest: Option<string>): Option<string> {
    match rest
    case None => None
    case Some(r) => Some([c] + r)
  }

  /** The character a two-character escape `\x` stands for. */
  function ShortEscape(c: char): Option<char> {
    if c == '"' then Some('"')
    else if c == '\\' then Some('\\')
    else if c == '/' then Some('/')
    else if c == 'b' then Some(8 as char)
    else if c == 'f' then Some(12 as char)
    else if c == 'n' then Some('\n')
    else if c == 'r' then Some('\r')
    else if c == 't' then Some('\t')
    else None
  }

  /** Decodes the body of a JSON string literal; None for text no JSON string body can be. */
  function Unescape(t: string): Option<string>
    decreases |t|
  {
    if |t| == 0 then Some("")
    else if t[0] == '\\' then
      if |t| < 2 then None
      else if t[1] == 'u' then
        if |t| < 6 then None
        else
          match Hex4Value(t[2..6])
          case None => None
          case Some(v) =>
            if 0xD800 <= v < 0xDC00 then
              if |t| < 12 || t[6..8] != "\\u" then None
              else
                match Hex4Value(t[8..12])
                case None => None
                case Some(w) =>
                  if 0xDC00 <= w < 0xE000 then
                    Prepend((0x10000 + (v - 0xD800) * 0x400 + (w - 0xDC00)) as char, Unescape(t[12..]))
                  else None
            else if 0xDC00 <= v < 0xE000 then None
            else Prepend(v as char, Unescape(t[6..]))
      else
        match ShortEscape(t[1])
        case None => None
        case Some(c) => Prepend(c, Unescape(t[2..]))
    else if t[0] == '"' || t[0] as int < 0x20 then None
    else Prepend(t[0], Unescape(t[1..]))
  }

  /** Decodes a JSON string literal. */
  function DecodeString(t: string): Option<string> {
    if |t| >= 2 && t[0] == '"' && t[|t| - 1] == '"' then Unescape(t[1..|t| - 1]) else None
  }

  predicate HasShortEscape(c: char) {
    c == '"' || c == '\\' || c == '/' || c == 8 as char || c == 12 as char
    || c == '\n' || c == '\r' || c == '\t'
  }

  lemma UnescapeShortEscape(c: char, rest: string)
    requires HasShortEscape(c)
    ensures Unescape(EscapeChar(c) + rest) == Prepend(c, Unescape(rest))
  {
    var t := EscapeChar(c) + rest;
    assert |EscapeChar(c)| == 2 && EscapeChar(c)[0] == '\\';
    assert t[2..] == rest;
  }

  lemma UnescapeUnitEscape(c: char, rest: string)
    requires !HasShortEscape(c)
    requires c as int < 0x20 || 0x80 <= c as int < 0x10000
    ensures Unescape(EscapeChar(c) + rest) == Prepend(c, Unescape(rest))
  {
    var n := c as int;
    var t := EscapeChar(c) + rest;
    assert EscapeChar(c) == "\\u" + Hex4(n);
    assert t[2..6] == Hex4(n);
    assert t[6..] == rest;
    Hex4RoundTrip(n);
  }

  /** The high and low surrogates json_encode writes for an astral code point. */
  function HighSurrogate(n: int): int { 0xD800 + (n - 0x10000) / 0x400 }
  function LowSurrogate(n: int): int { 0xDC00 + (n - 0x10000) % 0x400 }

  /** The two halves of a surrogate pair lie in their ranges and join back into the code point. */
  lemma SurrogatesJoin(n: int)
    requires 0x10000 <= n < 0x110000
    ensures 0xD800 <= HighSurrogate(n) < 0xDC00 && 0xDC00 <= LowSurrogate(n) < 0xE000
    ensures 0x10000 + (HighSurrogate(n) - 0xD800) * 0x400 + (LowSurrogate(n) - 0xDC00) == n
  {
  }

  /** The shape of a surrogate-pair escape followed by more text. */
  lemma PairEscapeText(c: char, rest: string)
    requires 0x10000 <= c as int
    ensures var t := EscapeChar(c) + rest;
      && |t| >= 12 && t[0] == '\\' && t[1] == 'u'
      && t[2..6] == Hex4(HighSurrogate(c as int))
      && t[6..8] == "\\u"
      && t[8..12] == Hex4(LowSurrogate(c as int))
      && t[12..] == rest
  {
    var hi, lo := HighSurrogate(c as int), LowSurrogate(c as int);
    var t := EscapeChar(c) + rest;
    assert EscapeChar(c) == "\\u" + Hex4(hi) + "\\u" + Hex4(lo);
    assert t == "\\u" + Hex4(hi) + "\\u" + Hex4(lo) + rest;
  }

  lemma UnescapePairEscape(c: char, rest: string)
    requires 0x10000 <= c as int
    ensures Unescape(EscapeChar(c) + rest) == Prepend(c, Unescape(rest))
  {
    var n := c as int;
    var hi, lo := HighSurrogate(n), LowSurrogate(n);
    SurrogatesJoin(n);
    PairEscapeText(c, rest);
    Hex4RoundTrip(hi);
    Hex4RoundTrip(lo);
  }

  /** The decoder reads exactly one escaped character off the front. */
  lemma UnescapeEscapeChar(c: char, rest: string)
    ensures Unescape(EscapeChar(c) + rest) == Prepend(c, Unescape(rest))
  {
    var n := c as int;
    if HasShortEscape(c) {
      UnescapeShortEscape(c, rest);
    } else if n < 0x20 || 0x80 <= n < 0x10000 {
      UnescapeUnitEscape(c, rest);
    } else if n < 0x80 {
      var t := EscapeChar(c) + rest;
      assert t[1..] == rest;
    } else {
      UnescapePairEscape(c, rest);
    }
  }

  /** Decoding an escaped text gives the text back. */
  lemma {:induction false} UnescapeEscape(s: string)
    ensures Unescape(Escape(s)) == Some(s)
    decreases |s|
  {
    if |s| > 0 {
      UnescapeEscape(s[1..]);
      UnescapeEscapeChar(s[0], Escape(s[1..]));
      assert [s[0]] + s[1..] == s;
    }
  }

  /** `json_decode(json_encode($s)) === $s` for every string. */
  lemma DecodeEncode(s: string)
    ensures DecodeString(EncodeString(s)) == Some(s)
  {
    var r := EncodeString(s);
    assert r[1..|r| - 1] == Escape(s);
    UnescapeEscape(s);
  }

  /** A character `json_encode` writes as itself: printable ASCII other than `"`, `\` and `/`. */
  predicate PlainChar(c: char) {
    0x20 <= c as int < 0x80 && c != '"' && c != '\\' && c != '/'
  }

  /** Text made of plain characters is written unchanged between the quotes. */
  lemma {:induction false} EscapePlain(s: string)
    requires forall i :: 0 <= i < |s| ==> PlainChar(s[i])
    ensures Escape(s) == s
    decreases |s|
  {
    if |s| > 0 {
      EscapePlain(s[1..]);
      assert [s[0]] + s[1..] == s;
    }
  }
}
