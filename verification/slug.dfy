/** The post-identifier slug generator: a four-stage rewrite of the title.
      1. lowercase, then trim;
      2. replace each whitespace run with a hyphen;
      3. delete every character outside the allowed alphabet;
      4. replace each run of hyphens with a single hyphen. */
module Slug {
  import opened Text

  /** The four Arabic-script blocks the third stage keeps:
      U+0600–06FF, U+0750–077F, U+FB50–FDFF and U+FE70–FEFF. */
  predicate InArabicBlocks(c: char) {
    || ('\U{0600}' <= c <= '\U{06FF}')
    || ('\U{0750}' <= c <= '\U{077F}')
    || ('\U{FB50}' <= c <= '\U{FDFF}')
    || ('\U{FE70}' <= c <= '\U{FEFF}')
  }

  /** The character class of the third stage: ASCII letters and digits,
      the hyphen, and the Arabic-script blocks. */
  predicate Allowed(c: char) {
    IsAsciiLetter(c) || IsDigit(c) || c == '-' || InArabicBlocks(c)
  }

  /** What a slug is made of. U+FEFF lies in an allowed block but is
      whitespace, so the second stage has already replaced it. */
  predicate IsSlugChar(c: char) {
    IsAsciiLower(c) || IsDigit(c) || c == '-' || (InArabicBlocks(c) && c != '\U{FEFF}')
  }

  predicate NoDoubleHyphen(s: string) {
    forall i :: 0 < i < |s| ==> !(s[i - 1] == '-' && s[i] == '-')
  }

  /** Stage 2: every maximal whitespace run becomes one hyphen. A global
      regular-expression replace scans left to right and its greedy `\s+`
      always swallows a whole run, so matches are exactly the maximal runs. */
  function HyphenateWhitespace(s: string): (r: string)
    ensures NoWhitespace(r)
    ensures forall c :: c in r ==> c == '-' || c in s
    ensures forall c :: c in s ==> if IsWhitespace(c) then '-' in r else c in r
    decreases |s|
  {
    if s == [] then []
    else if IsWhitespace(s[0]) then
      var rest := TrimStart(s);
      assert s == s[..|s| - |rest|] + rest;
      ['-'] + HyphenateWhitespace(rest)
    else
      assert s == [s[0]] + s[1..];
      [s[0]] + HyphenateWhitespace(s[1..])
  }

  /** Stage 3: keeps exactly the allowed characters, in order. */
  function RemoveDisallowed(s: string): (r: string)
    ensures forall c :: c in r <==> c in s && Allowed(c)
  {
    if s == [] then []
    else
      assert s == [s[0]] + s[1..];
      (if Allowed(s[0]) then [s[0]] else []) + RemoveDisallowed(s[1..])
  }

  /** Drops the leading hyphen run. */
  function SkipHyphens(s: string): (r: string)
    ensures |r| <= |s| && r == s[|s| - |r|..]
    ensures forall i :: 0 <= i < |s| - |r| ==> s[i] == '-'
    ensures r == [] || r[0] != '-'
  {
    if s != [] && s[0] == '-' then SkipHyphens(s[1..]) else s
  }

  /** Stage 4: `/--+/g` replaced by one hyphen. A lone hyphen is left as it
      is, so this is the same as turning every maximal hyphen run into one
      hyphen. */
  function CollapseHyphens(s: string): (r: string)
    ensures forall c :: c in r <==> c in s
    ensures NoDoubleHyphen(r)
    ensures s != [] ==> r != [] && r[0] == s[0]
    decreases |s|
  {
    if s == [] then []
    else if s[0] == '-' then
      var rest := SkipHyphens(s);
      assert s == s[..|s| - |rest|] + rest;
      ['-'] + CollapseHyphens(rest)
    else
      assert s == [s[0]] + s[1..];
      [s[0]] + CollapseHyphens(s[1..])
  }

  /** `slugify` of the post-creation form. */
  function Slugify(text: string): (slug: string)
    ensures forall c :: c in slug ==> IsSlugChar(c)
    ensures NoWhitespace(slug) && NoUpper(slug)
    ensures NoDoubleHyphen(slug)
  {
    var trimmed := Trim(Lower(text));
    var spaced := HyphenateWhitespace(trimmed);
    var kept := RemoveDisallowed(spaced);
    StagesKeepSlugChars(text, trimmed, spaced, kept);
    SlugCharsOnly(kept, CollapseHyphens(kept));
    CollapseHyphens(kept)
  }

  /** Slug characters are neither whitespace nor capitals. */
  lemma SlugCharsOnly(kept: string, slug: string)
    requires forall c :: c in kept ==> IsSlugChar(c)
    requires forall c :: c in slug <==> c in kept
    ensures forall c :: c in slug ==> IsSlugChar(c)
    ensures NoWhitespace(slug) && NoUpper(slug)
  {
    forall c | c in slug ensures IsSlugChar(c) && !IsWhitespace(c) && !IsAsciiUpper(c) {
      assert c in kept;
    }
  }

  /** After the third stage only slug characters are left: the first stage
      removed the capitals, the second the whitespace (U+FEFF included), and
      the third everything outside the alphabet. */
  lemma StagesKeepSlugChars(text: string, trimmed: string, spaced: string, kept: string)
    requires trimmed == Trim(Lower(text))
    requires spaced == HyphenateWhitespace(trimmed) && kept == RemoveDisallowed(spaced)
    ensures forall c :: c in kept ==> IsSlugChar(c)
  {
    TrimKeepsInterior(Lower(text));
    forall c | c in kept ensures IsSlugChar(c) {
      assert Allowed(c) && c in spaced;
      assert !IsWhitespace(c);
      if c != '-' {
        assert c in Lower(text);
        LowerHasNoUpper(text, c);
      }
    }
  }

  // ---------------------------------------------------------------------
  // No allowed character is lost or reordered.

  /** The characters that survive every stage as themselves. */
  predicate IsKept(c: char) {
    Allowed(c) && c != '-' && !IsWhitespace(c)
  }

  function KeptChars(s: string): (r: string)
    ensures forall c :: c in r ==> IsKept(c)
  {
    if s == [] then []
    else (if IsKept(s[0]) then [s[0]] else []) + KeptChars(s[1..])
  }

  function RemoveHyphens(s: string): (r: string)
    ensures '-' !in r
  {
    if s == [] then []
    else (if s[0] != '-' then [s[0]] else []) + RemoveHyphens(s[1..])
  }

  lemma {:induction false} KeptCharsAppend(a: string, b: string)
    ensures KeptChars(a + b) == KeptChars(a) + KeptChars(b)
    decreases |a|
  {
    if a != [] {
      var head := if IsKept(a[0]) then [a[0]] else [];
      assert (a + b)[0] == a[0] && (a + b)[1..] == a[1..] + b;
      KeptCharsAppend(a[1..], b);
      calc {
        KeptChars(a + b);
        head + KeptChars(a[1..] + b);
        head + (KeptChars(a[1..]) + KeptChars(b));
        (head + KeptChars(a[1..])) + KeptChars(b);
      }
    } else {
      assert a + b == b;
    }
  }

  lemma {:induction false} KeptCharsTrimStart(s: string)
    ensures KeptChars(TrimStart(s)) == KeptChars(s)
    decreases |s|
  {
    if s != [] && IsWhitespace(s[0]) {
      KeptCharsTrimStart(s[1..]);
    }
  }

  lemma {:induction false} KeptCharsTrimEnd(s: string)
    ensures KeptChars(TrimEnd(s)) == KeptChars(s)
    decreases |s|
  {
    if s != [] && IsWhitespace(s[|s| - 1]) {
      var init := s[..|s| - 1];
      assert s == init + [s[|s| - 1]];
      KeptCharsAppend(init, [s[|s| - 1]]);
      KeptCharsTrimEnd(init);
    }
  }

  lemma {:induction false} KeptCharsHyphenate(s: string)
    ensures KeptChars(HyphenateWhitespace(s)) == KeptChars(s)
    decreases |s|
  {
    if s == [] {
    } else if IsWhitespace(s[0]) {
      KeptCharsHyphenate(TrimStart(s));
      KeptCharsTrimStart(s);
    } else {
      KeptCharsHyphenate(s[1..]);
    }
  }

  lemma {:induction false} RemoveHyphensOfFiltered(s: string)
    requires NoWhitespace(s)
    ensures RemoveHyphens(RemoveDisallowed(s)) == KeptChars(s)
    decreases |s|
  {
    if s != [] {
      assert s == [s[0]] + s[1..];
      RemoveHyphensOfFiltered(s[1..]);
      if Allowed(s[0]) {
        var rest := RemoveDisallowed(s[1..]);
        assert RemoveDisallowed(s) == [s[0]] + rest;
        assert ([s[0]] + rest)[0] == s[0] && ([s[0]] + rest)[1..] == rest;
        assert !IsWhitespace(s[0]);
        if s[0] == '-' {
          assert RemoveHyphens([s[0]] + rest) == RemoveHyphens(rest);
        } else {
          assert RemoveHyphens([s[0]] + rest) == [s[0]] + RemoveHyphens(rest);
        }
      } else {
        assert RemoveDisallowed(s) == [] + RemoveDisallowed(s[1..]) == RemoveDisallowed(s[1..]);
      }
    }
  }

  lemma {:induction false} RemoveHyphensSkip(s: string)
    ensures RemoveHyphens(SkipHyphens(s)) == RemoveHyphens(s)
    decreases |s|
  {
    if s != [] && s[0] == '-' {
      RemoveHyphensSkip(s[1..]);
    }
  }

  lemma {:induction false} RemoveHyphensCollapse(s: string)
    ensures RemoveHyphens(CollapseHyphens(s)) == RemoveHyphens(s)
    decreases |s|
  {
    if s == [] {
    } else if s[0] == '-' {
      RemoveHyphensCollapse(SkipHyphens(s));
      RemoveHyphensSkip(s);
    } else {
      RemoveHyphensCollapse(s[1..]);
    }
  }

  /** Deleting the hyphens from a slug leaves exactly the allowed,
      non-hyphen, non-whitespace characters of the lowercased title, in
      their original order. */
  lemma SlugKeepsCharacters(text: string)
    ensures RemoveHyphens(Slugify(text)) == KeptChars(Lower(text))
  {
    var lowered := Lower(text);
    var spaced := HyphenateWhitespace(Trim(lowered));
    RemoveHyphensCollapse(RemoveDisallowed(spaced));
    RemoveHyphensOfFiltered(spaced);
    KeptCharsHyphenate(Trim(lowered));
    KeptCharsTrimEnd(TrimStart(lowered));
    KeptCharsTrimStart(lowered);
  }

  // ---------------------------------------------------------------------
  // Idempotence.

  lemma {:induction false} HyphenateFixes(s: string)
    requires NoWhitespace(s)
    ensures HyphenateWhitespace(s) == s
    decreases |s|
  {
    if s != [] {
      HyphenateFixes(s[1..]);
    }
  }

  lemma {:induction false} RemoveDisallowedFixes(s: string)
    requires forall c :: c in s ==> Allowed(c)
    ensures RemoveDisallowed(s) == s
    decreases |s|
  {
    if s != [] {
      RemoveDisallowedFixes(s[1..]);
    }
  }

  lemma {:induction false} CollapseFixes(s: string)
    requires NoDoubleHyphen(s)
    ensures CollapseHyphens(s) == s
    decreases |s|
  {
    if s != [] {
      assert NoDoubleHyphen(s[1..]) by {
        forall i | 0 < i < |s| - 1 ensures !(s[1..][i - 1] == '-' && s[1..][i] == '-') {
          assert s[1..][i - 1] == s[i] && s[1..][i] == s[i + 1];
        }
      }
      if s[0] == '-' {
        assert |s| > 1 ==> s[1] != '-';
        assert SkipHyphens(s) == s[1..];
      }
      CollapseFixes(s[1..]);
    }
  }

  /** A string made of slug characters without a doubled hyphen is its own
      slug. */
  lemma SlugifyFixesSlugs(s: string)
    requires forall c :: c in s ==> IsSlugChar(c)
    requires NoDoubleHyphen(s)
    ensures Slugify(s) == s
  {
    SlugCharsOnly(s, s);
    LowerFixesLowercase(s);
    if s != [] {
      assert s[0] in s && s[|s| - 1] in s;
    }
    TrimFixesUnpadded(s);
    assert Trim(Lower(s)) == s;
    HyphenateFixes(s);
    RemoveDisallowedFixes(s);
    CollapseFixes(s);
  }

  /** Slugifying a slug changes nothing. */
  lemma SlugifyIdempotent(text: string)
    ensures Slugify(Slugify(text)) == Slugify(text)
  {
    SlugifyFixesSlugs(Slugify(text));
  }

  // ---------------------------------------------------------------------
  // Where the hyphens go.

  /** A whitespace-free prefix passes through the second stage unchanged. */
  lemma {:induction false} HyphenateKeepsPrefix(u: string, v: string)
    requires NoWhitespace(u)
    ensures HyphenateWhitespace(u + v) == u + HyphenateWhitespace(v)
    decreases |u|
  {
    if u == [] {
      assert u + v == v;
    } else {
      NoWhitespaceSplit(u);
      HyphenateKeepsPrefix(u[1..], v);
      HyphenatePrefixStep(u, v);
    }
  }

  lemma HyphenatePrefixStep(u: string, v: string)
    requires u != [] && !IsWhitespace(u[0])
    requires HyphenateWhitespace(u[1..] + v) == u[1..] + HyphenateWhitespace(v)
    ensures HyphenateWhitespace(u + v) == u + HyphenateWhitespace(v)
  {
    HyphenateSteps(u, v);
    ConsSplit(u, HyphenateWhitespace(v));
  }

  lemma NoWhitespaceSplit(u: string)
    requires NoWhitespace(u) && u != []
    ensures !IsWhitespace(u[0]) && NoWhitespace(u[1..])
  {
    assert u[0] in u;
    forall x | x in u[1..] ensures !IsWhitespace(x) {
      assert x in u;
    }
  }

  lemma HyphenateSteps(u: string, v: string)
    requires u != [] && !IsWhitespace(u[0])
    ensures HyphenateWhitespace(u + v) == [u[0]] + HyphenateWhitespace(u[1..] + v)
  {
    var w := u + v;
    assert w[0] == u[0];
    assert w[1..] == u[1..] + v;
  }

  /** Splitting off the first character of a left operand. */
  lemma ConsSplit(u: string, x: string)
    requires u != []
    ensures [u[0]] + (u[1..] + x) == u + x
  {
    assert u == [u[0]] + u[1..];
  }

  /** A whole whitespace run becomes one hyphen, in place: what precedes it
      is kept and what follows it is processed on its own. */
  lemma HyphenateRun(u: string, ws: string, v: string)
    requires NoWhitespace(u)
    requires ws != [] && forall i :: 0 <= i < |ws| ==> IsWhitespace(ws[i])
    requires v == [] || !IsWhitespace(v[0])
    ensures HyphenateWhitespace(u + (ws + v)) == u + ("-" + HyphenateWhitespace(v))
  {
    HyphenateKeepsPrefix(u, ws + v);
    assert (ws + v)[0] == ws[0];
    TrimStartRun(ws, v);
  }

  /** Stage 3 works character by character: it distributes over
      concatenation. */
  lemma {:induction false} RemoveDisallowedAppend(a: string, b: string)
    ensures RemoveDisallowed(a + b) == RemoveDisallowed(a) + RemoveDisallowed(b)
    decreases |a|
  {
    if a == [] {
      assert a + b == b;
    } else {
      assert (a + b)[0] == a[0];
      assert (a + b)[1..] == a[1..] + b;
      RemoveDisallowedAppend(a[1..], b);
    }
  }

  /** A single character is kept exactly when it is allowed. */
  lemma RemoveDisallowedChar(c: char)
    ensures RemoveDisallowed([c]) == if Allowed(c) then [c] else []
  {
    assert [c][1..] == [];
  }

  /** A hyphen-free prefix passes through the fourth stage unchanged. */
  lemma {:induction false} CollapseKeepsPrefix(u: string, v: string)
    requires '-' !in u
    ensures CollapseHyphens(u + v) == u + CollapseHyphens(v)
    decreases |u|
  {
    if u == [] {
      assert u + v == v;
    } else {
      assert u[0] in u;
      assert (u + v)[0] == u[0];
      assert (u + v)[1..] == u[1..] + v;
      assert '-' !in u[1..];
      CollapseKeepsPrefix(u[1..], v);
      assert u == [u[0]] + u[1..];
    }
  }

  /** Dropping a hyphen run followed by another character (or nothing)
      leaves exactly what follows the run. */
  lemma {:induction false} SkipHyphensRun(hs: string, v: string)
    requires forall i :: 0 <= i < |hs| ==> hs[i] == '-'
    requires v == [] || v[0] != '-'
    ensures SkipHyphens(hs + v) == v
    decreases |hs|
  {
    if hs == [] {
      assert hs + v == v;
    } else {
      assert (hs + v)[0] == hs[0];
      assert (hs + v)[1..] == hs[1..] + v;
      SkipHyphensRun(hs[1..], v);
    }
  }

  /** A whole hyphen run becomes one hyphen, in place. */
  lemma CollapseRun(u: string, hs: string, v: string)
    requires '-' !in u
    requires hs != [] && forall i :: 0 <= i < |hs| ==> hs[i] == '-'
    requires v == [] || v[0] != '-'
    ensures CollapseHyphens(u + (hs + v)) == u + ("-" + CollapseHyphens(v))
  {
    CollapseKeepsPrefix(u, hs + v);
    assert (hs + v)[0] == hs[0];
    SkipHyphensRun(hs, v);
  }

  /** A word of slug characters other than the hyphen. */
  predicate IsWord(w: string) {
    w != [] && forall c :: c in w ==> IsSlugChar(c) && c != '-'
  }

  /** Two words separated by any whitespace run are joined by exactly one
      hyphen. */
  lemma SlugifyTwoWords(a: string, ws: string, b: string)
    requires IsWord(a) && IsWord(b)
    requires ws != [] && forall i :: 0 <= i < |ws| ==> IsWhitespace(ws[i])
    ensures Slugify(a + (ws + b)) == a + ("-" + b)
  {
    var text := a + (ws + b);
    var joined := a + ("-" + b);
    TwoWordsUnpadded(a, ws, b, text);
    TwoWordsHyphenated(a, ws, b, joined);
    TwoWordsKept(a, b, joined);
  }

  /** The first stage leaves the two words and the run as they are. */
  lemma TwoWordsUnpadded(a: string, ws: string, b: string, text: string)
    requires IsWord(a) && IsWord(b)
    requires forall i :: 0 <= i < |ws| ==> IsWhitespace(ws[i])
    requires text == a + (ws + b)
    ensures Trim(Lower(text)) == text
  {
    assert NoUpper(text) by {
      forall c | c in text ensures !IsAsciiUpper(c) {
        if c in ws {
          var i :| 0 <= i < |ws| && ws[i] == c;
        }
      }
    }
    LowerFixesLowercase(text);
    assert text[0] == a[0] && a[0] in a;
    assert text[|text| - 1] == b[|b| - 1] && b[|b| - 1] in b;
    TrimFixesUnpadded(text);
  }

  /** The second stage puts one hyphen between the words. */
  lemma TwoWordsHyphenated(a: string, ws: string, b: string, joined: string)
    requires IsWord(a) && IsWord(b)
    requires ws != [] && forall i :: 0 <= i < |ws| ==> IsWhitespace(ws[i])
    requires joined == a + ("-" + b)
    ensures HyphenateWhitespace(a + (ws + b)) == joined
  {
    assert NoWhitespace(a) && NoWhitespace(b);
    assert b[0] in b;
    HyphenateRun(a, ws, b);
    HyphenateFixes(b);
  }

  /** The joined words pass the third and fourth stages unchanged. */
  lemma TwoWordsKept(a: string, b: string, joined: string)
    requires IsWord(a) && IsWord(b) && joined == a + ("-" + b)
    ensures CollapseHyphens(RemoveDisallowed(joined)) == joined
  {
    TwoWordsAllowed(a, b, joined);
    RemoveDisallowedFixes(joined);
    TwoWordsSingleHyphen(a, b, joined);
    CollapseFixes(joined);
  }

  lemma TwoWordsAllowed(a: string, b: string, joined: string)
    requires IsWord(a) && IsWord(b) && joined == a + ("-" + b)
    ensures forall c :: c in joined ==> Allowed(c)
  {
    assert forall c :: c in joined ==> c == '-' || c in a || c in b;
  }

  lemma TwoWordsSingleHyphen(a: string, b: string, joined: string)
    requires IsWord(a) && IsWord(b) && joined == a + ("-" + b)
    ensures NoDoubleHyphen(joined)
  {
    forall i | 0 < i < |joined| ensures !(joined[i - 1] == '-' && joined[i] == '-') {
      if i < |a| {
        assert joined[i] == a[i] && a[i] in a;
      } else if i == |a| {
        assert joined[i - 1] == a[i - 1] && a[i - 1] in a;
      } else {
        assert joined[i] == b[i - |a| - 1] && b[i - |a| - 1] in b;
      }
    }
  }

  // ---------------------------------------------------------------------
  // When the slug is empty.

  /** The slug is empty exactly when the trimmed, lowercased title holds no
      whitespace (which would become a hyphen) and no allowed character. */
  lemma SlugEmptyIff(text: string)
    ensures Slugify(text) == [] <==>
      forall c :: c in Trim(Lower(text)) ==> !IsWhitespace(c) && !Allowed(c)
  {
    var trimmed := Trim(Lower(text));
    var spaced := HyphenateWhitespace(trimmed);
    var filtered := RemoveDisallowed(spaced);
    assert Slugify(text) == CollapseHyphens(filtered);
    assert Slugify(text) == [] <==> filtered == [];
    HyphenateProducesAllowed(trimmed);
    assert filtered == [] <==> forall c :: c in spaced ==> !Allowed(c) by {
      if filtered != [] {
        assert filtered[0] in filtered;
      }
    }
  }

  /** The second stage produces an allowed character exactly when its input
      holds whitespace or an allowed character. */
  lemma HyphenateProducesAllowed(s: string)
    ensures (exists c :: c in HyphenateWhitespace(s) && Allowed(c)) <==>
      (exists c :: c in s && (IsWhitespace(c) || Allowed(c)))
  {
    var r := HyphenateWhitespace(s);
    if exists c :: c in r && Allowed(c) {
      var c :| c in r && Allowed(c);
      if c == '-' && c !in s {
        if forall w :: w in s ==> !IsWhitespace(w) {
          HyphenateFixes(s);
          assert false;
        }
      }
    }
    if exists c :: c in s && (IsWhitespace(c) || Allowed(c)) {
      var c :| c in s && (IsWhitespace(c) || Allowed(c));
      if IsWhitespace(c) {
        assert '-' in r && Allowed('-');
      } else {
        assert c in r;
      }
    }
  }

  /** A title with no allowed character and no whitespace has an empty
      slug. */
  lemma NothingAllowedGivesEmptySlug(text: string)
    requires forall c :: c in text ==> !Allowed(c) && !IsWhitespace(c)
    ensures Slugify(text) == []
  {
    LowerFixesLowercase(text);
    TrimKeepsInterior(text);
    SlugEmptyIff(text);
  }

  lemma PunctuationSlug()
    ensures Slugify("!!!") == []
  {
    NothingAllowedGivesEmptySlug("!!!");
  }

  /** U+FEFF lies in an allowed block, yet a title made of it alone has an
      empty slug: `trim` removes it before the third stage runs. */
  lemma ByteOrderMarkSlug()
    ensures Allowed('\U{FEFF}')
    ensures Slugify("\U{FEFF}") == []
  {
    SlugEmptyIff("\U{FEFF}");
    assert Trim(Lower("\U{FEFF}")) == [];
  }
}
