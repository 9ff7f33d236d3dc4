/** The part of `JSON.stringify` the snippet needs: string literals as
    section 7 of RFC 8259 writes them (with the escape choices ECMAScript's
    QuoteJSONString makes), and an object of string-valued members printed
    with a two-space indent. */
module Json {
  import opened Text
  import opened Wrappers

  predicate IsControl(c: char) { c < ' ' }

  /** A string that a JSON string literal carries verbatim. */
  predicate IsPlain(s: string) {
    forall c :: c in s ==> c != '"' && c != '\\' && !IsControl(c)
  }

  function HexDigit(d: nat): (c: char)
    requires d < 16
  {
    if d < 10 then DigitChar(d) else ('a' as int + d - 10) as char
  }

  /** One character inside a string literal: the quote and the backslash are
      escaped, the five controls with a short form use it, the other controls
      become `\u00xx` with lower-case hex digits, and everything else is
      copied. */
  function EscapeChar(c: char): (e: string)
    ensures |e| >= 1
    ensures e == [c] <==> c != '"' && c != '\\' && !IsControl(c)
    ensures forall x :: x in e ==> !IsControl(x)
  {
    if c == '"' then "\\\""
    else if c == '\\' then "\\\\"
    else if c == '\U{0008}' then "\\b"
    else if c == '\U{000C}' then "\\f"
    else if c == '\n' then "\\n"
    else if c == '\r' then "\\r"
    else if c == '\t' then "\\t"
    else if IsControl(c) then "\\u00" + [HexDigit(c as int / 16), HexDigit(c as int % 16)]
    else [c]
  }

  function Escape(s: string): (e: string)
    ensures forall x :: x in e ==> !IsControl(x)
    ensures |e| >= |s|
  {
    if s == [] then [] else EscapeChar(s[0]) + Escape(s[1..])
  }

  /** A JSON string literal. */
  function Quote(s: string): (q: string)
    ensures |q| >= 2 && q[0] == '"' && q[|q| - 1] == '"'
  {
    "\"" + Escape(s) + "\""
  }

  lemma {:induction false} EscapePlain(s: string)
    requires IsPlain(s)
    ensures Escape(s) == s
    decreases |s|
  {
    if s != [] {
      assert s == [s[0]] + s[1..];
      assert s[0] in s;
      EscapePlain(s[1..]);
    }
  }

  // ---------------------------------------------------------------------
  // Decoding, as a JSON reader does it.

  /** The character a two-character escape `\x` stands for. */
  function ShortEscape(x: char): Option<char> {
    match x
    case '"' => Some('"')
    case '\\' => Some('\\')
    case '/' => Some('/')
    case 'b' => Some('\U{0008}')
    case 'f' => Some('\U{000C}')
    case 'n' => Some('\n')
    case 'r' => Some('\r')
    case 't' => Some('\t')
    case _ => None
  }

  function HexValue(c: char): Option<nat> {
    if IsDigit(c) then Some(DigitValue(c))
    else if 'a' <= c <= 'f' then Some(c as int - 'a' as int + 10)
    else if 'A' <= c <= 'F' then Some(c as int - 'A' as int + 10)
    else None
  }

  function Cons(c: char, rest: Option<string>): Option<string> {
    match rest
    case Some(s) => Some([c] + s)
    case None => None
  }

  /** The characters a string literal's body stands for, or None when the
      body is malformed. Escapes of surrogate halves (`\ud800` to `\udfff`)
      are rejected: a surrogate is not a character of this model. */
  function Unescape(t: string): (r: Option<string>)
    decreases |t|
  {
    if t == [] then Some([])
    else if t[0] == '"' || IsControl(t[0]) then None
    else if t[0] != '\\' then Cons(t[0], Unescape(t[1..]))
    else if |t| >= 2 && ShortEscape(t[1]).Some? then Cons(ShortEscape(t[1]).value, Unescape(t[2..]))
    else if |t| >= 6 && t[1] == 'u'
      && HexValue(t[2]).Some? && HexValue(t[3]).Some? && HexValue(t[4]).Some? && HexValue(t[5]).Some? then
      var v := 4096 * HexValue(t[2]).value + 256 * HexValue(t[3]).value
        + 16 * HexValue(t[4]).value + HexValue(t[5]).value;
      if 0xD800 <= v < 0xE000 then None else Cons(v as char, Unescape(t[6..]))
    else None
  }

  lemma HexDigitValue(d: nat)
    requires d < 16
    ensures HexValue(HexDigit(d)) == Some(d)
  {
  }

  lemma UnescapeShortEscape(x: char, c: char, rest: string)
    requires ShortEscape(x) == Some(c)
    ensures Unescape(['\\', x] + rest) == Cons(c, Unescape(rest))
  {
    assert (['\\', x] + rest)[2..] == rest;
  }

  lemma UnescapeHexEscape(hi: nat, lo: nat, rest: string)
    requires hi < 2 && lo < 16
    ensures Unescape(['\\', 'u', '0', '0', HexDigit(hi), HexDigit(lo)] + rest)
      == Cons((16 * hi + lo) as char, Unescape(rest))
  {
    var t := ['\\', 'u', '0', '0', HexDigit(hi), HexDigit(lo)] + rest;
    HexDigitValue(hi);
    HexDigitValue(lo);
    assert t[1] == 'u' && t[2] == '0' && t[3] == '0' && t[4] == HexDigit(hi) && t[5] == HexDigit(lo);
    assert t[6..] == rest;
  }

  lemma UnescapeControl(c: char, rest: string)
    requires IsControl(c)
    ensures Unescape(EscapeChar(c) + rest) == Cons(c, Unescape(rest))
  {
    var hi, lo := c as int / 16, c as int % 16;
    if c == '\U{0008}' || c == '\U{000C}' || c == '\n' || c == '\r' || c == '\t' {
      UnescapeShortEscape(EscapeChar(c)[1], c, rest);
    } else {
      assert EscapeChar(c) == ['\\', 'u', '0', '0', HexDigit(hi), HexDigit(lo)];
      UnescapeHexEscape(hi, lo, rest);
    }
  }

  lemma UnescapeEscapedChar(c: char, rest: string)
    ensures Unescape(EscapeChar(c) + rest) == Cons(c, Unescape(rest))
  {
    if c == '"' || c == '\\' {
      UnescapeShortEscape(EscapeChar(c)[1], c, rest);
    } else if IsControl(c) {
      UnescapeControl(c, rest);
    } else {
      var t := EscapeChar(c) + rest;
      assert t[0] == c && t[1..] == rest;
    }
  }

  /** Reading back an escaped string gives the original string. */
  lemma {:induction false} UnescapeEscape(s: string)
    ensures Unescape(Escape(s)) == Some(s)
    decreases |s|
  {
    if s != [] {
      UnescapeEscape(s[1..]);
      UnescapeEscapedChar(s[0], Escape(s[1..]));
      assert [s[0]] + s[1..] == s;
    }
  }

  /** Escaping loses nothing: different strings have different literals. */
  lemma QuoteInjective(s: string, t: string)
    requires Quote(s) == Quote(t)
    ensures s == t
  {
    assert Escape(s) == Quote(s)[1..|Quote(s)| - 1];
    assert Escape(t) == Quote(t)[1..|Quote(t)| - 1];
    UnescapeEscape(s);
    UnescapeEscape(t);
  }

  // ---------------------------------------------------------------------
  // Objects.

  /** Lines joined with `",\n"`, the separator of an indented object. */
  function JoinLines(lines: seq<string>): string {
    if lines == [] then ""
    else if |lines| == 1 then lines[0]
    else lines[0] + ",\n" + JoinLines(lines[1..])
  }

  /** One member line at indent level one. */
  function MemberLine(member: (string, string)): string {
    "  " + Quote(member.0) + ": " + Quote(member.1)
  }

  /** `JSON.stringify(object, null, 2)` for an object whose properties are
      all strings, listed in insertion order. */
  function StringifyObject(members: seq<(string, string)>): (text: string)
    ensures |text| >= 2 && text[0] == '{' && text[|text| - 1] == '}'
  {
    if members == [] then "{}"
    else "{\n" + JoinLines(seq(|members|, i requires 0 <= i < |members| => MemberLine(members[i]))) + "\n}"
  }
}
