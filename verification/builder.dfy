/** The post record builder of the creation form: the identifier is the
    slug of the title (or of "untitled" when the title is empty) followed by
    a hyphen and the creation instant in milliseconds; a missing image falls
    back to a picsum.photos placeholder seeded by the identifier. The clock
    readings arrive as parameters. */
module PostBuilder {
  import opened Text
  import opened Wrappers
  import opened Slug
  import opened Posts

  const Untitled: string := "untitled"
  const PlaceholderPrefix: string := "https://picsum.photos/seed/"
  const PlaceholderSuffix: string := "/400/300"

  /** `title || 'untitled'`: only the empty string is falsy. */
  function SlugSource(title: string): (source: string)
    ensures source != []
    ensures title != [] ==> source == title
  {
    if title == [] then Untitled else title
  }

  /** The identifier of a post created at instant `now`. */
  function NewId(title: string, now: nat): (id: string)
    ensures forall c :: c in id ==> IsSlugChar(c)
  {
    var slug := Slugify(SlugSource(title));
    var digits := Decimal(now);
    assert forall c :: c in digits ==> IsSlugChar(c);
    slug + "-" + digits
  }

  /** The image used when the form leaves the URL empty: the identifier is
      the seed, recoverable from the URL. */
  function PlaceholderImage(id: string): (url: string)
    ensures |url| == |PlaceholderPrefix| + |id| + |PlaceholderSuffix|
    ensures PlaceholderSeed(url) == Some(id)
  {
    var url := PlaceholderPrefix + id + PlaceholderSuffix;
    PlaceholderParts(id, url);
    url
  }

  /** The seed of a placeholder URL: what lies between the fixed prefix and
      the fixed suffix. */
  function PlaceholderSeed(url: string): Option<string> {
    var lo, hi := |PlaceholderPrefix|, |url| - |PlaceholderSuffix|;
    if lo <= hi && url[..lo] == PlaceholderPrefix && url[hi..] == PlaceholderSuffix
    then Some(url[lo..hi])
    else None
  }

  lemma PlaceholderParts(id: string, url: string)
    requires url == PlaceholderPrefix + id + PlaceholderSuffix
    ensures PlaceholderSeed(url) == Some(id)
  {
    var lo, hi := |PlaceholderPrefix|, |url| - |PlaceholderSuffix|;
    assert url[..lo] == PlaceholderPrefix;
    assert url[hi..] == PlaceholderSuffix;
    assert url[lo..hi] == id;
  }

  /** Distinct identifiers give distinct placeholder images. */
  lemma PlaceholderInjective(id1: string, id2: string)
    ensures PlaceholderImage(id1) == PlaceholderImage(id2) <==> id1 == id2
  {
  }

  /** The record `handleSubmit` builds. `isoDate` is the reading of
      `new Date().toISOString()`, taken as given. */
  function BuildPost(title: string, excerpt: string, content: string, imageUrl: string,
                     now: nat, isoDate: string): (p: Post)
    ensures p.id == NewId(title, now)
    ensures p.title == title && p.excerpt == excerpt && p.content == content
    ensures p.date == isoDate
    ensures p.imageUrl != []
    ensures imageUrl != [] ==> p.imageUrl == imageUrl
    ensures imageUrl == [] ==> p.imageUrl == PlaceholderImage(p.id)
  {
    var id := NewId(title, now);
    Post(
      id := id,
      title := title,
      date := isoDate,
      imageUrl := if imageUrl != [] then imageUrl else PlaceholderImage(id),
      excerpt := excerpt,
      content := content
    )
  }

  // ---------------------------------------------------------------------
  // Reading an identifier back.

  /** Position of the last hyphen. */
  function LastHyphen(s: string): (r: Option<nat>)
    ensures r.Some? ==>
      r.value < |s| && s[r.value] == '-' && forall j :: r.value < j < |s| ==> s[j] != '-'
    ensures r.None? ==> forall j :: 0 <= j < |s| ==> s[j] != '-'
  {
    if s == [] then None
    else if s[|s| - 1] == '-' then Some(|s| - 1)
    else LastHyphen(s[..|s| - 1])
  }

  /** Splits an identifier into its slug and its instant. */
  function ParseId(id: string): Option<(string, nat)> {
    match LastHyphen(id)
    case None => None
    case Some(i) =>
      var digits := id[i + 1..];
      if digits != [] && AllDigits(digits) then Some((id[..i], ParseDecimal(digits))) else None
  }

  lemma LastHyphenIs(s: string, i: nat)
    requires i < |s| && s[i] == '-' && forall j :: i < j < |s| ==> s[j] != '-'
    ensures LastHyphen(s) == Some(i)
  {
  }

  /** The split happens at the hyphen in front of the digits, whatever
      hyphens the slug holds. */
  lemma ParseJoined(slug: string, digits: string)
    requires digits != [] && AllDigits(digits)
    ensures ParseId(slug + "-" + digits) == Some((slug, ParseDecimal(digits)))
  {
    var id := slug + "-" + digits;
    forall j | |slug| < j < |id| ensures id[j] != '-' {
      assert id[j] == digits[j - |slug| - 1];
      assert digits[j - |slug| - 1] in digits;
    }
    LastHyphenIs(id, |slug|);
    assert id[|slug| + 1..] == digits;
    assert id[..|slug|] == slug;
  }

  /** An identifier gives back the slug and the instant it was made from. */
  lemma ParseNewId(title: string, now: nat)
    ensures ParseId(NewId(title, now)) == Some((Slugify(SlugSource(title)), now))
  {
    ParseJoined(Slugify(SlugSource(title)), Decimal(now));
    ParseDecimalInverts(now);
  }

  /** Two identifiers are equal only when both the slugs and the instants
      are. */
  lemma NewIdInjective(title1: string, now1: nat, title2: string, now2: nat)
    requires NewId(title1, now1) == NewId(title2, now2)
    ensures now1 == now2
    ensures Slugify(SlugSource(title1)) == Slugify(SlugSource(title2))
  {
    ParseNewId(title1, now1);
    ParseNewId(title2, now2);
  }

  /** The same title submitted at two different instants gets two different
      identifiers; the converse (same title, same millisecond) collides. */
  lemma DistinctInstantsDistinctIds(title: string, now1: nat, now2: nat)
    ensures NewId(title, now1) == NewId(title, now2) <==> now1 == now2
  {
    if NewId(title, now1) == NewId(title, now2) {
      NewIdInjective(title, now1, title, now2);
    }
  }

  // ---------------------------------------------------------------------
  // Titles that give no slug.

  lemma UntitledSlug()
    ensures Slugify(Untitled) == Untitled
  {
    assert forall c :: c in Untitled ==> IsAsciiLower(c);
    SlugifyFixesSlugs(Untitled);
  }

  /** An empty title yields `untitled-<instant>`. */
  lemma EmptyTitleId(title: string, now: nat)
    requires title == []
    ensures NewId(title, now) == Untitled + "-" + Decimal(now)
  {
    UntitledSlug();
    assert SlugSource(title) == Untitled;
  }

  /** A title of whitespace only is not empty, so no fallback applies, and
      its slug is empty: the identifier is `-<instant>`. */
  lemma BlankTitleId(title: string, now: nat)
    requires title != [] && forall c :: c in title ==> IsWhitespace(c)
    ensures NewId(title, now) == "-" + Decimal(now)
  {
    var lowered := Lower(title);
    forall c | c in lowered ensures IsWhitespace(c) {
      var i :| 0 <= i < |lowered| && lowered[i] == c;
      assert title[i] in title;
    }
    TrimAllWhitespace(lowered);
    assert Slugify(title) == [];
  }
}
