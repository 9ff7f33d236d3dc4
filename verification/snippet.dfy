/** The snippet serializer: the post is printed with `JSON.stringify(post,
    null, 2)`, the quotes around each key are removed, every remaining double
    quote becomes a single quote, and the outer braces are re-wrapped on
    lines of their own. */
module Snippet {
  import opened Text
  import opened Json
  import opened Posts
  import opened Wrappers

  /** The keys in the order the post's object literal inserts them, which
      is not the order the `Post` interface declares its fields in. */
  const MemberKeys: seq<string> := ["id", "title", "excerpt", "content", "imageUrl", "date"]

  /** The members of the post object, in insertion order: every field
      appears under its own name, so a reader looking keys up gets the post
      back. */
  function PostMembers(p: Post): (ms: seq<(string, string)>)
    ensures |ms| == |MemberKeys|
    ensures forall i :: 0 <= i < |ms| ==> ms[i].0 == MemberKeys[i] && IsKey(ms[i].0)
    ensures PlainMembers(ms) <==> IsPlainPost(p)
    ensures PostOfMembers(ms) == Some(p)
  {
    var ms := [ ("id", p.id), ("title", p.title), ("excerpt", p.excerpt),
                ("content", p.content), ("imageUrl", p.imageUrl), ("date", p.date) ];
    MembersKeyed(p, ms);
    MembersRoundTrip(p, ms);
    ms
  }

  /** The value of the first member named `key`. */
  function Lookup(ms: seq<(string, string)>, key: string): (r: Option<string>)
    ensures r.Some? ==> (key, r.value) in ms
    ensures r.None? <==> forall i :: 0 <= i < |ms| ==> ms[i].0 != key
  {
    if ms == [] then None
    else if ms[0].0 == key then Some(ms[0].1)
    else Lookup(ms[1..], key)
  }

  /** Reads a post back from its members by name, whatever their order. */
  function PostOfMembers(ms: seq<(string, string)>): Option<Post> {
    var id, title, date := Lookup(ms, "id"), Lookup(ms, "title"), Lookup(ms, "date");
    var imageUrl, excerpt, content := Lookup(ms, "imageUrl"), Lookup(ms, "excerpt"), Lookup(ms, "content");
    if id.Some? && title.Some? && date.Some? && imageUrl.Some? && excerpt.Some? && content.Some?
    then Some(Post(id.value, title.value, date.value, imageUrl.value, excerpt.value, content.value))
    else None
  }

  /** The lookup finds the earliest member carrying the key. */
  lemma {:induction false} LookupFirst(ms: seq<(string, string)>, key: string, i: nat)
    requires i < |ms| && ms[i].0 == key
    requires forall j :: 0 <= j < i ==> ms[j].0 != key
    ensures Lookup(ms, key) == Some(ms[i].1)
    decreases i
  {
    if i > 0 {
      assert ms[0].0 != key;
      forall j | 0 <= j < i - 1 ensures ms[1..][j].0 != key {
        assert ms[1..][j] == ms[j + 1];
      }
      LookupFirst(ms[1..], key, i - 1);
      assert ms[1..][i - 1] == ms[i];
    }
  }

  /** No two keys of the post object coincide. */
  lemma MemberKeysDistinct()
    ensures forall i, j :: 0 <= i < j < |MemberKeys| ==> MemberKeys[i] != MemberKeys[j]
  {
    assert "excerpt"[0] != "content"[0];
  }

  lemma MembersKeyed(p: Post, ms: seq<(string, string)>)
    requires ms == [ ("id", p.id), ("title", p.title), ("excerpt", p.excerpt),
                     ("content", p.content), ("imageUrl", p.imageUrl), ("date", p.date) ]
    ensures |ms| == |MemberKeys|
    ensures forall i :: 0 <= i < |ms| ==> ms[i].0 == MemberKeys[i] && IsKey(ms[i].0)
    ensures PlainMembers(ms) <==> IsPlainPost(p)
  {
    forall i | 0 <= i < |ms| ensures ms[i].0 == MemberKeys[i] && IsKey(ms[i].0) {
    }
    if PlainMembers(ms) {
      assert IsPlain(ms[0].1) && IsPlain(ms[1].1) && IsPlain(ms[2].1);
      assert IsPlain(ms[3].1) && IsPlain(ms[4].1) && IsPlain(ms[5].1);
    }
  }

  lemma MembersRoundTrip(p: Post, ms: seq<(string, string)>)
    requires |ms| == |MemberKeys| && forall i :: 0 <= i < |ms| ==> ms[i].0 == MemberKeys[i]
    requires ms[0].1 == p.id && ms[1].1 == p.title && ms[2].1 == p.excerpt
    requires ms[3].1 == p.content && ms[4].1 == p.imageUrl && ms[5].1 == p.date
    ensures PostOfMembers(ms) == Some(p)
  {
    MemberKeysDistinct();
    LookupFirst(ms, "id", 0);
    LookupFirst(ms, "title", 1);
    LookupFirst(ms, "excerpt", 2);
    LookupFirst(ms, "content", 3);
    LookupFirst(ms, "imageUrl", 4);
    LookupFirst(ms, "date", 5);
  }

  // ---------------------------------------------------------------------
  // The key pattern `/"([^"]+)":/g`, replaced by `$1:`.

  /** Length of the leading run without a double quote. */
  function QuoteFreePrefix(s: string): (n: nat)
    ensures n <= |s|
    ensures n < |s| ==> s[n] == '"'
  {
    if s == [] || s[0] == '"' then 0 else 1 + QuoteFreePrefix(s[1..])
  }

  /** Whether a double quote followed by `t` starts a match: `[^"]+` is
      greedy and cannot stop before a non-quote character, so the only
      candidate is the whole quote-free run, which must then be followed by
      `":`. */
  predicate KeyMatchAfterQuote(t: string) {
    var n := QuoteFreePrefix(t);
    1 <= n && n + 1 < |t| && t[n + 1] == ':'
  }

  /** The global replace: scan from the left; at a match, emit the captured
      name and a colon and resume after the match, otherwise copy one
      character. */
  function StripKeyQuotes(s: string): (r: string)
    ensures |r| <= |s|
    ensures s != [] && s[0] != '"' ==> r != [] && r[0] == s[0]
    ensures s != [] && s[|s| - 1] != ':' ==> r != [] && r[|r| - 1] == s[|s| - 1]
    decreases |s|
  {
    if s == [] then []
    else if s[0] == '"' && KeyMatchAfterQuote(s[1..]) then
      var n := QuoteFreePrefix(s[1..]);
      s[1..n + 1] + ":" + StripKeyQuotes(s[n + 3..])
    else
      [s[0]] + StripKeyQuotes(s[1..])
  }

  /** `/"/g` replaced by a single quote. */
  function QuotesToApostrophes(s: string): (r: string)
    ensures |r| == |s|
    ensures '"' !in r
    ensures forall i :: 0 <= i < |s| && s[i] != '"' ==> r[i] == s[i]
  {
    if s == [] then []
    else [if s[0] == '"' then '\'' else s[0]] + QuotesToApostrophes(s[1..])
  }

  /** The text the form shows for a post. */
  function SnippetOf(p: Post): (snippet: string)
    ensures '"' !in snippet
    ensures |snippet| >= 4 && snippet[..2] == "{\n" && snippet[|snippet| - 2..] == "\n}"
  {
    var json := StringifyObject(PostMembers(p));
    var postString := QuotesToApostrophes(StripKeyQuotes(json));
    var inner := Substring(postString, 1, |postString| - 1);
    SubstringKeepsMembers(postString, 1, |postString| - 1);
    Rewrapped(inner);
    "{\n" + inner + "\n}"
  }

  lemma Rewrapped(inner: string)
    requires '"' !in inner
    ensures var w := "{\n" + inner + "\n}";
      '"' !in w && |w| >= 4 && w[..2] == "{\n" && w[|w| - 2..] == "\n}"
  {
    var w := "{\n" + inner + "\n}";
    assert w[..2] == "{\n";
    assert w[|w| - 2..] == "\n}";
  }

  // ---------------------------------------------------------------------
  // Every snippet is its JSON text up to quote marks.

  predicate IsQuoteMark(c: char) { c == '"' || c == '\'' }

  function DropQuoteMarks(s: string): string {
    if s == [] then [] else (if IsQuoteMark(s[0]) then [] else [s[0]]) + DropQuoteMarks(s[1..])
  }

  lemma {:induction false} DropQuoteMarksAppend(a: string, b: string)
    ensures DropQuoteMarks(a + b) == DropQuoteMarks(a) + DropQuoteMarks(b)
    decreases |a|
  {
    if a == [] {
      assert a + b == b;
    } else {
      assert (a + b)[0] == a[0] && (a + b)[1..] == a[1..] + b;
      DropQuoteMarksAppend(a[1..], b);
    }
  }

  lemma DropQuoteMarksKeyPattern(name: string)
    ensures DropQuoteMarks(['"'] + name + ['"', ':']) == DropQuoteMarks(name) + ":"
  {
    DropQuoteMarksAppend(['"'] + name, ['"', ':']);
    DropQuoteMarksAppend(['"'], name);
    assert ['"'][1..] == [];
    assert ['"', ':'][1..] == [':'] && [':'][1..] == [];
  }

  /** The key replace deletes double quotes and nothing else. */
  lemma {:induction false} StripKeepsAllButQuotes(s: string)
    ensures DropQuoteMarks(StripKeyQuotes(s)) == DropQuoteMarks(s)
    decreases |s|
  {
    if s == [] {
    } else if s[0] == '"' && KeyMatchAfterQuote(s[1..]) {
      var n := QuoteFreePrefix(s[1..]);
      var name, rest := s[1..n + 1], s[n + 3..];
      assert s[n + 1] == '"' && s[n + 2] == ':';
      assert s == (['"'] + name + ['"', ':']) + rest;
      assert StripKeyQuotes(s) == name + ":" + StripKeyQuotes(rest);
      StripKeepsAllButQuotes(rest);
      DropQuoteMarksAppend(['"'] + name + ['"', ':'], rest);
      DropQuoteMarksKeyPattern(name);
      DropQuoteMarksAppend(name + ":", StripKeyQuotes(rest));
      DropQuoteMarksAppend(name, ":");
      assert DropQuoteMarks(":") == ":" by {
        assert ":"[1..] == [];
      }
    } else {
      StripKeepsAllButQuotes(s[1..]);
      assert StripKeyQuotes(s) == [s[0]] + StripKeyQuotes(s[1..]);
      DropQuoteMarksAppend([s[0]], StripKeyQuotes(s[1..]));
      DropQuoteMarksAppend([s[0]], s[1..]);
      assert s == [s[0]] + s[1..];
    }
  }

  lemma {:induction false} ApostrophesKeepAllButQuotes(s: string)
    ensures DropQuoteMarks(QuotesToApostrophes(s)) == DropQuoteMarks(s)
    decreases |s|
  {
    if s != [] {
      ApostrophesKeepAllButQuotes(s[1..]);
    }
  }

  lemma DropQuoteMarksSingle(c: char)
    requires !IsQuoteMark(c)
    ensures DropQuoteMarks([c]) == [c]
  {
    assert [c][1..] == [];
  }

  lemma DropQuoteMarksBraced(s: string)
    requires |s| >= 2 && !IsQuoteMark(s[0]) && !IsQuoteMark(s[|s| - 1])
    ensures DropQuoteMarks(s) == [s[0]] + DropQuoteMarks(s[1..|s| - 1]) + [s[|s| - 1]]
  {
    var first, mid, last := [s[0]], s[1..|s| - 1], [s[|s| - 1]];
    BracedShape(s);
    DropQuoteMarksAppend(first + mid, last);
    DropQuoteMarksAppend(first, mid);
    DropQuoteMarksSingle(s[0]);
    DropQuoteMarksSingle(s[|s| - 1]);
  }

  lemma BracedShape(s: string)
    requires |s| >= 2
    ensures s == [s[0]] + s[1..|s| - 1] + [s[|s| - 1]]
  {
  }

  lemma DropQuoteMarksWrapped(x: string)
    ensures DropQuoteMarks("{\n" + x + "\n}") == "{\n" + DropQuoteMarks(x) + "\n}"
  {
    DropQuoteMarksAppend("{\n" + x, "\n}");
    DropQuoteMarksAppend("{\n", x);
  }

  /** Whatever the fields hold, the snippet differs from the post's JSON
      text (without its outer braces) only in quote marks: the transforms
      neither add, drop nor reorder any other character. */
  lemma SnippetMatchesJsonUpToQuotes(p: Post)
    ensures var json := StringifyObject(PostMembers(p));
      DropQuoteMarks(SnippetOf(p)) == "{\n" + DropQuoteMarks(json[1..|json| - 1]) + "\n}"
  {
    var json := StringifyObject(PostMembers(p));
    var stripped := StripKeyQuotes(json);
    var postString := QuotesToApostrophes(stripped);
    var inner := Substring(postString, 1, |postString| - 1);
    var mid := json[1..|json| - 1];
    StripKeepsAllButQuotes(json);
    ApostrophesKeepAllButQuotes(stripped);
    assert |postString| >= 2 && postString[0] == '{' && postString[|postString| - 1] == '}';
    assert inner == postString[1..|postString| - 1];
    DropQuoteMarksBraced(postString);
    DropQuoteMarksBraced(json);
    var dp, dj := DropQuoteMarks(postString), DropQuoteMarks(json);
    assert DropQuoteMarks(inner) == dp[1..|dp| - 1];
    assert DropQuoteMarks(mid) == dj[1..|dj| - 1];
    DropQuoteMarksWrapped(inner);
  }

  // ---------------------------------------------------------------------
  // The layout for fields without quotes, backslashes or controls.

  /** A property name the key replace handles as intended. */
  predicate IsKey(k: string) {
    |k| > 0 && forall c :: c in k ==> IsAsciiLetter(c)
  }

  predicate IsPlainPost(p: Post) {
    IsPlain(p.id) && IsPlain(p.title) && IsPlain(p.excerpt)
    && IsPlain(p.content) && IsPlain(p.imageUrl) && IsPlain(p.date)
  }

  /** The snippet as a reader expects it: a blank line after `{`, one
      `key: 'value'` line per field in insertion order, a blank line before
      `}`. */
  function SnippetLayout(p: Post): string {
    "{\n\n"
    + JoinLines([ PlainLine(("id", p.id)), PlainLine(("title", p.title)),
                  PlainLine(("excerpt", p.excerpt)), PlainLine(("content", p.content)),
                  PlainLine(("imageUrl", p.imageUrl)), PlainLine(("date", p.date)) ])
    + "\n\n}"
  }

  function MemberLines(ms: seq<(string, string)>): seq<string> {
    seq(|ms|, i requires 0 <= i < |ms| => MemberLine(ms[i]))
  }

  /** A member line once the key replace has run. */
  function KeyLine(m: (string, string)): string {
    "  " + m.0 + ": " + Quote(m.1)
  }

  /** A line of the reader's layout: the key bare, the value between single
      quotes. */
  function PlainLine(m: (string, string)): string {
    "  " + m.0 + ": '" + m.1 + "'"
  }

  function KeyLines(ms: seq<(string, string)>): seq<string> {
    seq(|ms|, i requires 0 <= i < |ms| => KeyLine(ms[i]))
  }

  function PlainLines(ms: seq<(string, string)>): seq<string> {
    seq(|ms|, i requires 0 <= i < |ms| => PlainLine(ms[i]))
  }

  predicate PlainMembers(ms: seq<(string, string)>) {
    forall i :: 0 <= i < |ms| ==> IsKey(ms[i].0) && IsPlain(ms[i].1)
  }

  lemma KeyIsPlain(k: string)
    requires IsKey(k)
    ensures IsPlain(k) && Quote(k) == "\"" + k + "\""
  {
    EscapePlain(k);
  }

  lemma {:induction false} QuoteFreePrefixAppend(x: string, y: string)
    requires '"' !in x
    ensures QuoteFreePrefix(x + y) == |x| + QuoteFreePrefix(y)
    decreases |x|
  {
    if x == [] {
      assert x + y == y;
    } else {
      assert x[0] in x;
      assert (x + y)[0] == x[0] && (x + y)[1..] == x[1..] + y;
      QuoteFreePrefixAppend(x[1..], y);
    }
  }

  lemma {:induction false} StripQuoteFree(x: string, rest: string)
    requires '"' !in x
    ensures StripKeyQuotes(x + rest) == x + StripKeyQuotes(rest)
    decreases |x|
  {
    if x == [] {
      assert x + rest == rest;
    } else {
      var s := x + rest;
      assert x[0] in x;
      assert s[0] == x[0] && s[1..] == x[1..] + rest;
      StripCopies(s);
      StripQuoteFree(x[1..], rest);
      var r := StripKeyQuotes(rest);
      assert [x[0]] + (x[1..] + r) == x + r;
    }
  }

  lemma StripKey(k: string, rest: string)
    requires IsKey(k)
    ensures StripKeyQuotes("\"" + k + "\":" + rest) == k + ":" + StripKeyQuotes(rest)
  {
    assert '"' !in k;
    var after := "\":" + rest;
    var t := k + after;
    assert "\"" + k + "\":" + rest == "\"" + t;
    StripKeySteps(k, rest, after, t, "\"" + t);
  }

  lemma StripKeySteps(k: string, rest: string, after: string, t: string, s: string)
    requires |k| > 0 && '"' !in k
    requires after == "\":" + rest && t == k + after && s == "\"" + t
    ensures StripKeyQuotes(s) == k + ":" + StripKeyQuotes(rest)
  {
    QuoteFreePrefixAppend(k, after);
    assert QuoteFreePrefix(after) == 0;
    assert s[0] == '"' && s[1..] == t;
    assert t[|k| + 1] == ':';
    assert s[1..|k| + 1] == k;
    assert s[|k| + 3..] == rest;
  }

  /** What may follow a closing value quote without the key pattern firing
      on the value's quotes. */
  predicate SafeAfterValue(after: string) {
    (after == [] || after[0] != ':') && !KeyMatchAfterQuote(after)
  }

  /** One step of the scan that copies a character. */
  lemma StripCopies(s: string)
    requires s != [] && !(s[0] == '"' && KeyMatchAfterQuote(s[1..]))
    ensures StripKeyQuotes(s) == [s[0]] + StripKeyQuotes(s[1..])
  {
  }

  lemma StripClosingQuote(after: string)
    requires SafeAfterValue(after)
    ensures StripKeyQuotes("\"" + after) == "\"" + StripKeyQuotes(after)
  {
    var s := "\"" + after;
    assert s[0] == '"' && s[1..] == after;
    StripCopies(s);
  }

  lemma NoMatchAtValueOpen(v: string, after: string)
    requires IsPlain(v) && SafeAfterValue(after)
    ensures !KeyMatchAfterQuote(v + ("\"" + after))
  {
    var t := v + ("\"" + after);
    assert '"' !in v;
    QuoteFreePrefixAppend(v, "\"" + after);
    assert QuoteFreePrefix("\"" + after) == 0;
    assert |t| > |v| + 1 ==> t[|v| + 1] == after[0];
  }

  lemma StripValue(v: string, after: string)
    requires IsPlain(v) && SafeAfterValue(after)
    ensures StripKeyQuotes("\"" + (v + ("\"" + after))) == "\"" + (v + ("\"" + StripKeyQuotes(after)))
  {
    var tail := "\"" + after;
    var t := v + tail;
    var s := "\"" + t;
    assert s[0] == '"' && s[1..] == t;
    NoMatchAtValueOpen(v, after);
    StripCopies(s);
    assert '"' !in v;
    StripQuoteFree(v, tail);
    StripClosingQuote(after);
  }

  lemma StripMemberLine(m: (string, string), after: string)
    requires IsKey(m.0) && IsPlain(m.1) && SafeAfterValue(after)
    ensures StripKeyQuotes(MemberLine(m) + after) == KeyLine(m) + StripKeyQuotes(after)
  {
    var k, v := m.0, m.1;
    KeyIsPlain(k);
    EscapePlain(v);
    var valuePart := "\"" + (v + ("\"" + after));
    var spaced := " " + valuePart;
    var keyPart := "\"" + k + "\":" + spaced;
    var line := "  " + keyPart;
    MemberLineShape(k, v, after, line);
    StripMemberLineSteps(k, v, after, valuePart, spaced, keyPart, line);
    KeyLineShape(k, v, StripKeyQuotes(after));
  }

  lemma MemberLineShape(k: string, v: string, after: string, line: string)
    requires IsPlain(k) && IsPlain(v)
    requires line == "  " + ("\"" + k + "\":" + (" " + ("\"" + (v + ("\"" + after)))))
    ensures MemberLine((k, v)) + after == line
  {
    EscapePlain(k);
    EscapePlain(v);
  }

  lemma KeyLineShape(k: string, v: string, r: string)
    requires IsPlain(v)
    ensures "  " + (k + ":" + (" " + ("\"" + (v + ("\"" + r))))) == KeyLine((k, v)) + r
  {
    EscapePlain(v);
  }

  lemma StripMemberLineSteps(k: string, v: string, after: string,
                             valuePart: string, spaced: string, keyPart: string, line: string)
    requires IsKey(k) && IsPlain(v) && SafeAfterValue(after)
    requires valuePart == "\"" + (v + ("\"" + after)) && spaced == " " + valuePart
    requires keyPart == "\"" + k + "\":" + spaced && line == "  " + keyPart
    ensures StripKeyQuotes(line) == "  " + (k + ":" + (" " + ("\"" + (v + ("\"" + StripKeyQuotes(after))))))
  {
    StripQuoteFree("  ", keyPart);
    StripKey(k, spaced);
    StripQuoteFree(" ", valuePart);
    StripValue(v, after);
  }

  /** The member lines followed by the closing brace, nested to the right
      so that the scan can be followed line by line. */
  function Closed(lines: seq<string>): string
    requires |lines| > 0
    decreases |lines|, 1
  {
    lines[0] + ClosedRest(lines)
  }

  function ClosedRest(lines: seq<string>): string
    requires |lines| > 0
    decreases |lines|, 0
  {
    if |lines| == 1 then "\n}" else ",\n" + Closed(lines[1..])
  }

  lemma {:induction false} ClosedIsJoined(lines: seq<string>)
    requires |lines| > 0
    ensures Closed(lines) == JoinLines(lines) + "\n}"
    decreases |lines|
  {
    if |lines| > 1 {
      ClosedIsJoined(lines[1..]);
    }
  }

  lemma QuoteFreePrefixAt(s: string, n: nat)
    requires n < |s| && s[n] == '"'
    requires forall i :: 0 <= i < n ==> s[i] != '"'
    ensures QuoteFreePrefix(s) == n
  {
    if n > 0 {
      QuoteFreePrefixAt(s[1..], n - 1);
    }
  }

  lemma SafeAfterSeparator(m: (string, string), tail: string)
    requires IsKey(m.0)
    ensures SafeAfterValue(",\n" + (MemberLine(m) + tail))
  {
    var k := m.0;
    KeyIsPlain(k);
    var after := ",\n" + (MemberLine(m) + tail);
    assert after[..6] == ",\n  \"" + [k[0]] by {
      assert MemberLine(m)[..4] == "  \"" + [k[0]];
    }
    assert after[0] == ',' && after[1] == '\n' && after[2] == ' ' && after[3] == ' ';
    assert after[4] == '"' && after[5] == k[0];
    QuoteFreePrefixAt(after, 4);
    assert k[0] in k;
  }

  /** The key replace over the member lines and the closing brace. */
  lemma {:induction false} StripMembers(ms: seq<(string, string)>)
    requires |ms| > 0 && PlainMembers(ms)
    ensures StripKeyQuotes(Closed(MemberLines(ms))) == Closed(KeyLines(ms))
    decreases |ms|
  {
    if |ms| == 1 {
      StripLastMember(ms);
    } else {
      StripMembers(ms[1..]);
      StripNextMember(ms);
    }
  }

  lemma StripLastMember(ms: seq<(string, string)>)
    requires |ms| == 1 && PlainMembers(ms)
    ensures StripKeyQuotes(Closed(MemberLines(ms))) == Closed(KeyLines(ms))
  {
    assert SafeAfterValue("\n}");
    StripMemberLine(ms[0], "\n}");
    assert StripKeyQuotes("\n}") == "\n}";
  }

  /** One line of the scan: the first member is unquoted and the scan goes
      on behind the separator. */
  lemma StripNextMember(ms: seq<(string, string)>)
    requires |ms| > 1 && PlainMembers(ms)
    requires StripKeyQuotes(Closed(MemberLines(ms[1..]))) == Closed(KeyLines(ms[1..]))
    ensures StripKeyQuotes(Closed(MemberLines(ms))) == Closed(KeyLines(ms))
  {
    ClosedLinesShape(ms);
    var next := Closed(MemberLines(ms[1..]));
    SafeAfterSeparator(ms[1], ClosedRest(MemberLines(ms[1..])));
    StripMemberLine(ms[0], ",\n" + next);
    StripQuoteFree(",\n", next);
  }

  lemma ClosedLinesShape(ms: seq<(string, string)>)
    requires |ms| > 1
    ensures Closed(MemberLines(ms)) == MemberLine(ms[0]) + (",\n" + Closed(MemberLines(ms[1..])))
    ensures Closed(MemberLines(ms[1..])) == MemberLine(ms[1]) + ClosedRest(MemberLines(ms[1..]))
    ensures Closed(KeyLines(ms)) == KeyLine(ms[0]) + (",\n" + Closed(KeyLines(ms[1..])))
  {
    var lines, keys := MemberLines(ms), KeyLines(ms);
    assert lines[1..] == MemberLines(ms[1..]);
    assert keys[1..] == KeyLines(ms[1..]);
  }

  lemma {:induction false} ApostrophesAppend(a: string, b: string)
    ensures QuotesToApostrophes(a + b) == QuotesToApostrophes(a) + QuotesToApostrophes(b)
    decreases |a|
  {
    if a == [] {
      assert a + b == b;
    } else {
      assert (a + b)[0] == a[0] && (a + b)[1..] == a[1..] + b;
      ApostrophesAppend(a[1..], b);
    }
  }

  lemma {:induction false} ApostrophesQuoteFree(s: string)
    requires '"' !in s
    ensures QuotesToApostrophes(s) == s
    decreases |s|
  {
    if s != [] {
      assert s[0] in s;
      ApostrophesQuoteFree(s[1..]);
      assert s == [s[0]] + s[1..];
    }
  }

  lemma ApostrophesQuoted(head: string, v: string)
    requires '"' !in head && '"' !in v
    ensures QuotesToApostrophes(head + ("\"" + (v + "\""))) == head + ("'" + (v + "'"))
  {
    ApostrophesAppend(head, "\"" + (v + "\""));
    ApostrophesAppend("\"", v + "\"");
    ApostrophesAppend(v, "\"");
    ApostrophesQuoteFree(head);
    ApostrophesQuoteFree(v);
  }

  lemma ApostrophesKeyLine(m: (string, string))
    requires IsKey(m.0) && IsPlain(m.1)
    ensures QuotesToApostrophes(KeyLine(m)) == PlainLine(m)
  {
    var k, v := m.0, m.1;
    var head := "  " + k + ": ";
    assert '"' !in head && '"' !in v;
    KeyLineNested(k, v, head);
    ApostrophesQuoted(head, v);
    PlainLineNested(k, v, head);
  }

  lemma KeyLineNested(k: string, v: string, head: string)
    requires IsPlain(v) && head == "  " + k + ": "
    ensures KeyLine((k, v)) == head + ("\"" + (v + "\""))
  {
    EscapePlain(v);
  }

  lemma PlainLineNested(k: string, v: string, head: string)
    requires head == "  " + k + ": "
    ensures PlainLine((k, v)) == head + ("'" + (v + "'"))
  {
  }

  lemma {:induction false} ApostrophesKeyLines(ms: seq<(string, string)>)
    requires |ms| > 0 && PlainMembers(ms)
    ensures QuotesToApostrophes(Closed(KeyLines(ms))) == Closed(PlainLines(ms))
    decreases |ms|
  {
    if |ms| == 1 {
      ApostrophesLastLine(ms);
    } else {
      ApostrophesKeyLines(ms[1..]);
      ApostrophesNextLine(ms);
    }
  }

  lemma ApostrophesLastLine(ms: seq<(string, string)>)
    requires |ms| == 1 && PlainMembers(ms)
    ensures QuotesToApostrophes(Closed(KeyLines(ms))) == Closed(PlainLines(ms))
  {
    var kl := KeyLines(ms);
    ApostrophesKeyLine(ms[0]);
    ApostrophesAppend(kl[0], ClosedRest(kl));
    ApostrophesQuoteFree("\n}");
  }

  lemma ApostrophesNextLine(ms: seq<(string, string)>)
    requires |ms| > 1 && PlainMembers(ms)
    requires QuotesToApostrophes(Closed(KeyLines(ms[1..]))) == Closed(PlainLines(ms[1..]))
    ensures QuotesToApostrophes(Closed(KeyLines(ms))) == Closed(PlainLines(ms))
  {
    var kl := KeyLines(ms);
    ApostrophesKeyLine(ms[0]);
    ApostrophesAppend(kl[0], ClosedRest(kl));
    assert kl[1..] == KeyLines(ms[1..]);
    assert PlainLines(ms)[1..] == PlainLines(ms[1..]);
    ApostrophesAppend(",\n", Closed(kl[1..]));
    ApostrophesQuoteFree(",\n");
  }

  lemma PostLinesLayout(p: Post)
    ensures "{\n\n" + JoinLines(PlainLines(PostMembers(p))) + "\n\n}" == SnippetLayout(p)
  {
    var ms := PostMembers(p);
    PostPlainLines(p, ms);
  }

  lemma PostPlainLines(p: Post, ms: seq<(string, string)>)
    requires ms == [ ("id", p.id), ("title", p.title), ("excerpt", p.excerpt),
                     ("content", p.content), ("imageUrl", p.imageUrl), ("date", p.date) ]
    ensures PlainLines(ms) ==
      [ PlainLine(("id", p.id)), PlainLine(("title", p.title)),
        PlainLine(("excerpt", p.excerpt)), PlainLine(("content", p.content)),
        PlainLine(("imageUrl", p.imageUrl)), PlainLine(("date", p.date)) ]
  {
  }

  lemma WrappedInner(body: string)
    ensures var postString := "{\n" + (body + "\n}");
      "{\n" + Substring(postString, 1, |postString| - 1) + "\n}" == "{\n\n" + body + "\n\n}"
  {
    var postString := "{\n" + (body + "\n}");
    assert postString[1..|postString| - 1] == "\n" + body + "\n";
  }

  lemma StripObject(ms: seq<(string, string)>)
    requires |ms| > 0 && PlainMembers(ms)
    ensures StripKeyQuotes(StringifyObject(ms)) == "{\n" + Closed(KeyLines(ms))
  {
    var lines := MemberLines(ms);
    ClosedIsJoined(lines);
    assert StringifyObject(ms) == "{\n" + Closed(lines);
    StripQuoteFree("{\n", Closed(lines));
    StripMembers(ms);
  }

  lemma ApostrophesObject(ms: seq<(string, string)>)
    requires |ms| > 0 && PlainMembers(ms)
    ensures QuotesToApostrophes("{\n" + Closed(KeyLines(ms))) == "{\n" + (JoinLines(PlainLines(ms)) + "\n}")
  {
    ApostrophesAppend("{\n", Closed(KeyLines(ms)));
    ApostrophesQuoteFree("{\n");
    ApostrophesKeyLines(ms);
    ClosedIsJoined(PlainLines(ms));
  }

  /** For fields without double quotes, backslashes or control characters,
      the snippet is exactly the reader's layout: every field appears
      verbatim, between single quotes, in insertion order. */
  lemma SnippetOfPlainPost(p: Post)
    requires IsPlainPost(p)
    ensures SnippetOf(p) == SnippetLayout(p)
  {
    var ms := PostMembers(p);
    assert PlainMembers(ms);
    StripObject(ms);
    ApostrophesObject(ms);
    WrappedInner(JoinLines(PlainLines(ms)));
    PostLinesLayout(p);
  }
}
