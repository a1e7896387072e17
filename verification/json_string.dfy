/**
 * The JSON text of a single string or null (RFC 8259): how JavaScript's
 * `JSON.stringify` writes one (QuoteJSONString, section 25.5.2 of ECMA-262) and
 * how Python's `json.loads` reads one back (strict mode, the default).
 */
module JsonString {
  import opened Wrappers
  import Seqs

  /** The JSON values this model distinguishes. */
  datatype Json = JNull | JString(s: string)

  const Backspace: char := 8 as char
  const FormFeed: char := 0xC as char

  /** A lower-case hexadecimal digit, as ECMA-262 writes `\u` escapes. */
  function LowerHexDigit(v: int): (c: char)
    requires 0 <= v < 16
    ensures HexValue(c) == Some(v)
  {
    if v < 10 then ('0' as int + v) as char else ('a' as int + v - 10) as char
  }

  /** The escaped form of one character inside a JSON string literal. */
  function QuoteChar(c: char): (t: string)
    ensures t != [] && (t[0] == '\\' <==> (c < ' ' || c == '"' || c == '\\'))
  {
    if c == '"' then "\\\""
    else if c == '\\' then "\\\\"
    else if c == Backspace then "\\b"
    else if c == '\t' then "\\t"
    else if c == '\n' then "\\n"
    else if c == FormFeed then "\\f"
    else if c == '\r' then "\\r"
    else if c < ' ' then "\\u00" + [LowerHexDigit(c as int / 16), LowerHexDigit(c as int % 16)]
    else [c]
  }

  function Quote(s: string): string
    decreases |s|
  {
    if s == [] then [] else QuoteChar(s[0]) + Quote(s[1..])
  }

  /** `JSON.stringify` of null or of a string. */
  function Stringify(v: Option<string>): (t: string)
    ensures t != []
  {
    match v
    case None => "null"
    case Some(s) => "\"" + Quote(s) + "\""
  }

  /** JSON's insignificant whitespace (section 2 of RFC 8259). */
  predicate IsWhitespace(c: char) { c == ' ' || c == '\t' || c == '\n' || c == '\r' }

  function SkipWhitespace(s: string): (r: string)
    ensures |r| <= |s| && r == s[|s| - |r|..]
    ensures r == [] || !IsWhitespace(r[0])
    decreases |s|
  {
    if s != [] && IsWhitespace(s[0]) then SkipWhitespace(s[1..]) else s
  }

  /** The value of a hexadecimal digit of either case. */
  function HexValue(c: char): (r: Option<int>)
    ensures r.Some? ==> 0 <= r.value < 16
  {
    if '0' <= c <= '9' then Some(c as int - '0' as int)
    else if 'a' <= c <= 'f' then Some(c as int - 'a' as int + 10)
    else if 'A' <= c <= 'F' then Some(c as int - 'A' as int + 10)
    else None
  }

  /** Four hexadecimal digits, most significant first. */
  function Hex4(s: string): (r: Option<int>)
    requires |s| == 4
    ensures r.Some? ==> 0 <= r.value < 0x1_0000
  {
    match (HexValue(s[0]), HexValue(s[1]), HexValue(s[2]), HexValue(s[3]))
    case (Some(a), Some(b), Some(c), Some(d)) => Some(((a * 16 + b) * 16 + c) * 16 + d)
    case _ => None
  }

  /** The character an escape sequence stands for, given the text after its
      backslash, and how many characters of that text it takes. A high
      surrogate followed by an escaped low surrogate is one character; a
      surrogate on its own has no `char` and reads as None. */
  function Unescape(s: string): (r: Option<(char, nat)>)
    ensures r.Some? ==> 1 <= r.value.1 <= |s|
  {
    if s == [] then None
    else if s[0] == '"' || s[0] == '\\' || s[0] == '/' then Some((s[0], 1))
    else if s[0] == 'b' then Some((Backspace, 1))
    else if s[0] == 'f' then Some((FormFeed, 1))
    else if s[0] == 'n' then Some(('\n', 1))
    else if s[0] == 'r' then Some(('\r', 1))
    else if s[0] == 't' then Some(('\t', 1))
    else if s[0] == 'u' && |s| >= 5 then
      match Hex4(s[1..5])
      case None => None
      case Some(u) =>
        if 0xD800 <= u < 0xDC00 && |s| >= 11 && s[5] == '\\' && s[6] == 'u' then
          match Hex4(s[7..11])
          case None => None
          case Some(l) =>
            if 0xDC00 <= l < 0xE000 then Some(((0x1_0000 + (u - 0xD800) * 0x400 + (l - 0xDC00)) as char, 11))
            else None
        else if 0xD800 <= u < 0xE000 then None
        else Some((u as char, 5))
    else None
  }

  /** The body of a string literal up to its closing quote: the decoded
      characters and what follows the quote. Raw control characters are
      refused, as in strict mode. */
  function ScanString(s: string): (r: Option<(string, string)>)
    ensures r.Some? ==> |r.value.1| < |s|
    decreases |s|
  {
    if s == [] then None
    else if s[0] == '"' then Some(([], s[1..]))
    else if s[0] < ' ' then None
    else if s[0] == '\\' then
      match Unescape(s[1..])
      case None => None
      case Some((c, k)) =>
        match ScanString(s[1 + k..])
        case None => None
        case Some((t, rest)) => Some(([c] + t, rest))
    else
      match ScanString(s[1..])
      case None => None
      case Some((t, rest)) => Some(([s[0]] + t, rest))
  }

  /** `json.loads` of a document holding null or a string; None where Python
      raises (JSONDecodeError, or a value this model does not represent). */
  function Loads(s: string): Option<Json>
  {
    var t := SkipWhitespace(s);
    if |t| >= 4 && t[..4] == "null" then
      if SkipWhitespace(t[4..]) == [] then Some(JNull) else None
    else if t != [] && t[0] == '"' then
      match ScanString(t[1..])
      case None => None
      case Some((str, rest)) => if SkipWhitespace(rest) == [] then Some(JString(str)) else None
    else None
  }

  /** One quoted character is read back ahead of whatever follows it. */
  lemma ScanQuoteChar(c: char, t: string)
    ensures ScanString(QuoteChar(c) + t)
      == match ScanString(t) case None => None case Some((u, rest)) => Some(([c] + u, rest))
  {
    if c < ' ' && c != Backspace && c != '\t' && c != '\n' && c != FormFeed && c != '\r' {
      ScanUnicodeEscape(c, t);
    } else if c == '"' || c == '\\' || c < ' ' {
      ScanShortEscape(c, t);
    } else {
      var s := QuoteChar(c) + t;
      assert s[1..] == t;
    }
  }

  /** A control character without a short escape, written `\u00XX`. */
  lemma ScanUnicodeEscape(c: char, t: string)
    requires c < ' ' && c != Backspace && c != '\t' && c != '\n' && c != FormFeed && c != '\r'
    ensures ScanString(QuoteChar(c) + t)
      == match ScanString(t) case None => None case Some((u, rest)) => Some(([c] + u, rest))
  {
    var s := QuoteChar(c) + t;
    var (h, l) := (c as int / 16, c as int % 16);
    assert s == ['\\', 'u', '0', '0', LowerHexDigit(h), LowerHexDigit(l)] + t;
    assert s[1..] == ['u', '0', '0', LowerHexDigit(h), LowerHexDigit(l)] + t;
    assert s[1..][1..5] == ['0', '0', LowerHexDigit(h), LowerHexDigit(l)];
    assert Hex4(s[1..][1..5]) == Some(c as int);
    assert Unescape(s[1..]) == Some((c, 5));
    assert s[6..] == t;
  }

  /** A quote, a backslash or a control character with a two-character escape. */
  lemma ScanShortEscape(c: char, t: string)
    requires c == '"' || c == '\\' || c == Backspace || c == '\t' || c == '\n' || c == FormFeed || c == '\r'
    ensures ScanString(QuoteChar(c) + t)
      == match ScanString(t) case None => None case Some((u, rest)) => Some(([c] + u, rest))
  {
    var s := QuoteChar(c) + t;
    assert s[1..][0] == s[1];
    assert s[2..] == t;
  }

  lemma {:induction false} ScanQuote(s: string, rest: string)
    ensures ScanString(Quote(s) + "\"" + rest) == Some((s, rest))
    decreases |s|
  {
    if s == [] {
      assert Quote(s) + "\"" + rest == ['"'] + rest;
    } else {
      assert Quote(s) == QuoteChar(s[0]) + Quote(s[1..]);
      Seqs.AppendAssoc4(QuoteChar(s[0]), Quote(s[1..]), "\"", rest);
      ScanQuoteChar(s[0], Quote(s[1..]) + "\"" + rest);
      ScanQuote(s[1..], rest);
      assert [s[0]] + s[1..] == s;
    }
  }

  /** A document that is one string literal and nothing else loads as that string. */
  lemma LoadsLiteral(t: string, str: string)
    requires t != [] && t[0] == '"' && ScanString(t[1..]) == Some((str, []))
    ensures Loads(t) == Some(JString(str))
  {
    assert SkipWhitespace(t) == t;
    assert !(|t| >= 4 && t[..4] == "null") by { if |t| >= 4 { assert t[..4][0] == '"'; } }
  }

  /** `JSON.stringify` of a string loads as that string. */
  lemma LoadsQuoted(s: string)
    ensures Loads(Stringify(Some(s))) == Some(JString(s))
  {
    var t := Stringify(Some(s));
    assert t[1..] == Quote(s) + "\"" + [];
    ScanQuote(s, []);
    LoadsLiteral(t, s);
  }

  /** What `JSON.stringify` writes, `json.loads` reads back as the same value. */
  lemma LoadsStringify(v: Option<string>)
    ensures Loads(Stringify(v)) == Some(match v case None => JNull case Some(s) => JString(s))
  {
    if v.Some? {
      LoadsQuoted(v.value);
    }
  }
}
