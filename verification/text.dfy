/** Character classes and string primitives of ECMAScript that the blog's
    post pipeline relies on: ASCII case mapping, the `\s` whitespace class,
    `String.prototype.trim`, `String.prototype.substring` and the decimal
    rendering of a non-negative integer Number. */
module Text {

  predicate IsAsciiUpper(c: char) { 'A' <= c <= 'Z' }

  predicate IsAsciiLower(c: char) { 'a' <= c <= 'z' }

  predicate IsAsciiLetter(c: char) { IsAsciiUpper(c) || IsAsciiLower(c) }

  predicate IsDigit(c: char) { '0' <= c <= '9' }

  /** ECMAScript WhiteSpace and LineTerminator code points: exactly the set
      matched by the regular-expression class `\s` and removed by `trim`.
      U+FEFF (the byte-order mark) belongs to it. */
  predicate IsWhitespace(c: char) {
    || c == '\t' || c == '\n' || c == '\U{000B}' || c == '\U{000C}' || c == '\r'
    || c == ' ' || c == '\U{00A0}' || c == '\U{1680}'
    || ('\U{2000}' <= c <= '\U{200A}')
    || c == '\U{2028}' || c == '\U{2029}' || c == '\U{202F}' || c == '\U{205F}'
    || c == '\U{3000}' || c == '\U{FEFF}'
  }

  /** `toLowerCase` restricted to ASCII: other characters are left alone. */
  function LowerChar(c: char): (d: char)
    ensures !IsAsciiUpper(d)
    ensures IsAsciiLetter(c) <==> IsAsciiLetter(d)
    ensures IsWhitespace(c) <==> IsWhitespace(d)
    ensures !IsAsciiUpper(c) ==> d == c
    ensures IsAsciiUpper(c) ==> IsAsciiLower(d) && d as int - 'a' as int == c as int - 'A' as int
  {
    if IsAsciiUpper(c) then (c as int + 32) as char else c
  }

  function Lower(s: string): (r: string)
    ensures |r| == |s|
    ensures forall i :: 0 <= i < |s| ==> r[i] == LowerChar(s[i])
  {
    seq(|s|, i requires 0 <= i < |s| => LowerChar(s[i]))
  }

  predicate NoUpper(s: string) { forall c :: c in s ==> !IsAsciiUpper(c) }

  predicate NoWhitespace(s: string) { forall c :: c in s ==> !IsWhitespace(c) }

  lemma LowerFixesLowercase(s: string)
    requires NoUpper(s)
    ensures Lower(s) == s
  {
  }

  /** Every character of a lowercased string is free of ASCII capitals. */
  lemma LowerHasNoUpper(text: string, c: char)
    requires c in Lower(text)
    ensures !IsAsciiUpper(c)
  {
    var i :| 0 <= i < |Lower(text)| && Lower(text)[i] == c;
    assert c == LowerChar(text[i]);
  }

  /** Drops the leading whitespace run. */
  function TrimStart(s: string): (r: string)
    ensures |r| <= |s| && r == s[|s| - |r|..]
    ensures forall i :: 0 <= i < |s| - |r| ==> IsWhitespace(s[i])
    ensures r == [] || !IsWhitespace(r[0])
  {
    if s != [] && IsWhitespace(s[0]) then TrimStart(s[1..]) else s
  }

  /** Trimming the start of a whitespace run followed by a non-whitespace
      character (or nothing) leaves exactly what follows the run. */
  lemma {:induction false} TrimStartRun(ws: string, v: string)
    requires forall i :: 0 <= i < |ws| ==> IsWhitespace(ws[i])
    requires v == [] || !IsWhitespace(v[0])
    ensures TrimStart(ws + v) == v
    decreases |ws|
  {
    if ws == [] {
      assert ws + v == v;
    } else {
      assert (ws + v)[0] == ws[0];
      assert (ws + v)[1..] == ws[1..] + v;
      TrimStartRun(ws[1..], v);
    }
  }

  /** Drops the trailing whitespace run. */
  function TrimEnd(s: string): (r: string)
    ensures |r| <= |s| && r == s[..|r|]
    ensures forall i :: |r| <= i < |s| ==> IsWhitespace(s[i])
    ensures r == [] || !IsWhitespace(r[|r| - 1])
  {
    if s != [] && IsWhitespace(s[|s| - 1]) then TrimEnd(s[..|s| - 1]) else s
  }

  /** `r` is `s` without its first `k` characters and without a trailing
      part, where both removed parts are all whitespace. */
  predicate TrimsTo(s: string, r: string, k: nat) {
    k + |r| <= |s| && r == s[k..k + |r|]
    && (forall i :: 0 <= i < k ==> IsWhitespace(s[i]))
    && (forall i :: k + |r| <= i < |s| ==> IsWhitespace(s[i]))
  }

  /** `String.prototype.trim`: the slice between the leading and the
      trailing whitespace runs. */
  function Trim(s: string): (r: string)
    ensures r == [] || (!IsWhitespace(r[0]) && !IsWhitespace(r[|r| - 1]))
    ensures exists k: nat :: TrimsTo(s, r, k)
  {
    var t := TrimStart(s);
    var r := TrimEnd(t);
    assert TrimsTo(s, r, |s| - |t|);
    r
  }

  /** The trimmed string is the only whitespace-bounded slice that leaves
      nothing but whitespace on either side. */
  lemma TrimUnique(s: string, r: string, k: nat)
    requires TrimsTo(s, r, k)
    requires r == [] || (!IsWhitespace(r[0]) && !IsWhitespace(r[|r| - 1]))
    ensures r == Trim(s)
  {
    var t := Trim(s);
    var j: nat :| TrimsTo(s, t, j);
    if r != [] && t != [] {
      assert r[0] == s[k] && t[0] == s[j];
      assert k == j;
      assert r[|r| - 1] == s[k + |r| - 1] && t[|t| - 1] == s[j + |t| - 1];
      assert |r| == |t|;
    }
  }

  lemma TrimKeepsInterior(s: string)
    ensures forall c :: c in Trim(s) ==> c in s
  {
    var t := TrimStart(s);
    var r := TrimEnd(t);
    var lo := |s| - |t|;
    assert r == s[lo..lo + |r|];
    forall c | c in r ensures c in s {
      SliceMember(s, lo, lo + |r|, c);
    }
  }

  lemma SliceMember(s: string, lo: nat, hi: nat, c: char)
    requires lo <= hi <= |s| && c in s[lo..hi]
    ensures c in s
  {
    var i :| 0 <= i < hi - lo && s[lo..hi][i] == c;
    assert s[lo + i] == c;
  }

  lemma TrimFixesUnpadded(s: string)
    requires s == [] || (!IsWhitespace(s[0]) && !IsWhitespace(s[|s| - 1]))
    ensures Trim(s) == s
  {
  }

  /** A string of whitespace alone trims to nothing. */
  lemma TrimAllWhitespace(s: string)
    requires forall c :: c in s ==> IsWhitespace(c)
    ensures Trim(s) == []
  {
  }

  /** `String.prototype.substring(start, end)`: both bounds are clamped to
      `[0, |s|]` and swapped when they arrive in the wrong order. */
  function Substring(s: string, start: int, end: int): (r: string)
    ensures 0 <= start <= end <= |s| ==> r == s[start..end]
    ensures |r| <= |s|
  {
    var a := if start < 0 then 0 else if start > |s| then |s| else start;
    var b := if end < 0 then 0 else if end > |s| then |s| else end;
    if a <= b then s[a..b] else s[b..a]
  }

  lemma SubstringKeepsMembers(s: string, start: int, end: int)
    ensures forall c :: c in Substring(s, start, end) ==> c in s
  {
    var a := if start < 0 then 0 else if start > |s| then |s| else start;
    var b := if end < 0 then 0 else if end > |s| then |s| else end;
    var lo, hi := if a <= b then a else b, if a <= b then b else a;
    assert Substring(s, start, end) == s[lo..hi];
    forall c | c in s[lo..hi] ensures c in s {
      SliceMember(s, lo, hi, c);
    }
  }

  function DigitChar(d: nat): (c: char)
    requires d < 10
    ensures IsDigit(c)
  {
    ('0' as int + d) as char
  }

  function DigitValue(c: char): (d: nat)
    requires IsDigit(c)
    ensures d < 10 && DigitChar(d) == c
  {
    c as int - '0' as int
  }

  predicate AllDigits(s: string) { forall c :: c in s ==> IsDigit(c) }

  /** The decimal rendering that a template literal gives a non-negative
      integer Number (no sign, no leading zeros, no exponent). */
  function Decimal(n: nat): (r: string)
    ensures |r| >= 1 && AllDigits(r)
    ensures |r| > 1 ==> r[0] != '0'
  {
    if n < 10 then [DigitChar(n)] else Decimal(n / 10) + [DigitChar(n % 10)]
  }

  /** Reads a string of decimal digits back as a number. */
  function ParseDecimal(s: string): (n: nat)
    requires AllDigits(s)
  {
    if s == [] then 0 else 10 * ParseDecimal(s[..|s| - 1]) + DigitValue(s[|s| - 1])
  }

  lemma {:induction false} ParseDecimalInverts(n: nat)
    ensures ParseDecimal(Decimal(n)) == n
    decreases n
  {
    if n >= 10 {
      var d := Decimal(n);
      assert d[..|d| - 1] == Decimal(n / 10);
      ParseDecimalInverts(n / 10);
    }
  }

  lemma DecimalInjective(m: nat, n: nat)
    requires Decimal(m) == Decimal(n)
    ensures m == n
  {
    ParseDecimalInverts(m);
    ParseDecimalInverts(n);
  }
}
