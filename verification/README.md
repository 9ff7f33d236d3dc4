# Post snippet generator of a Persian React blog, in Dafny

The blog is a React single-page app. Its one piece of real logic is the
"create post" form. From a title, an excerpt, content and an optional image
URL, the form builds a `Post` record and prints it as a JavaScript object
literal, ready to paste into the site's data file. The identifier is the
title's slug, a hyphen and the creation instant. The post page looks a post
up by that identifier.

This project models that pipeline as pure functions over `string`
(`seq<char>`) and proves properties of it:

- `Text` — the ECMAScript primitives the pipeline uses: ASCII lowercasing,
  the `\s` whitespace class (which includes U+FEFF), `trim`, `substring`,
  and the decimal rendering of `Date.now()`.
- `Slug` — the four-stage `slugify`.
- `Json` — string literals as section 7 of RFC 8259 writes them. It uses the
  escape choices of ECMAScript's `JSON.stringify`, a decoder for them, and
  the two-space indented object printer.
- `Posts` — the `Post` record.
- `PostBuilder` — identifier and record construction, with the clock
  readings passed in as parameters.
- `Snippet` — the key-unquoting and quote-swapping rewrite that turns the
  JSON text into the pasted snippet.
- `CreatePost` — the form's required-field gate in front of the submit
  handler.
- `PostLookup` — `posts.find(p => p.id === postId)` and the not-found page.

Strings are sequences of Unicode scalar values, while JavaScript strings are
UTF-16 code units. No supplementary character is allowed by `slugify` or
counts as whitespace, so removing one as a unit is the same as removing its
two surrogate halves. Lone surrogates cannot be represented.

Three edge behaviours of the code:

- **Image fallback.** `imageUrl || …` tests only for the empty string, so
  the placeholder replaces the empty URL and nothing else. Whitespace-only
  URLs are kept away by the URL field's own validation, which is not part
  of this model (see "Left out").
- **Required fields.** These are enforced by the HTML `required` attribute,
  which rejects only empty values. A title made only of whitespace is
  accepted, and `BlankTitleId` gives its identifier, `-<instant>`.
- **Empty slugs.** A title can hold an allowed character and still give an
  empty slug. U+FEFF lies in an allowed block but is whitespace, so
  `Slugify("\u{FEFF}")` is empty (`ByteOrderMarkSlug`). The exact condition
  is `SlugEmptyIff`.

## Model

| member | source | states |
|---|---|---|
| Text.LowerChar | components/CreatePostModal.tsx:12 | an ASCII capital becomes the lower-case letter at the same alphabet position; every other character is unchanged; whitespace status is kept |
| Text.Lower | components/CreatePostModal.tsx:12 | lowercasing keeps the length and maps each character on its own, in place |
| Text.LowerFixesLowercase | components/CreatePostModal.tsx:12 | a string without ASCII capitals is unchanged by lowercasing |
| Text.TrimStart | components/CreatePostModal.tsx:13 | the result is a suffix of the input, everything dropped is whitespace, and the result does not start with whitespace |
| Text.TrimEnd | components/CreatePostModal.tsx:13 | the result is a prefix of the input, everything dropped is whitespace, and the result does not end with whitespace |
| Text.Trim | components/CreatePostModal.tsx:13 | the result is a contiguous slice of the input with only whitespace before and after it, and it neither starts nor ends with whitespace |
| Text.TrimUnique | components/CreatePostModal.tsx:13 | any slice with only whitespace around it and no whitespace at its ends is the trim, so the trim is fully determined |
| Text.TrimStartRun | components/CreatePostModal.tsx:13 | trimming the start of a whitespace run followed by a non-whitespace character leaves exactly what follows the run |
| Text.TrimKeepsInterior | components/CreatePostModal.tsx:13 | trimming introduces no character |
| Text.TrimFixesUnpadded | components/CreatePostModal.tsx:13 | a string that neither starts nor ends with whitespace is its own trim |
| Text.Substring | components/CreatePostModal.tsx:56 | with in-range ordered bounds `substring` is the slice between them, and it is never longer than the string |
| Text.Decimal | components/CreatePostModal.tsx:42 | the rendering of the instant is a non-empty digit string without a leading zero |
| Text.ParseDecimalInverts | components/CreatePostModal.tsx:42 | reading the decimal rendering back gives the number |
| Text.DecimalInjective | components/CreatePostModal.tsx:42 | distinct instants render differently |
| Slug.HyphenateWhitespace | components/CreatePostModal.tsx:14 | the result holds no whitespace, holds nothing but hyphens and input characters, and keeps every non-whitespace character; an input with whitespace gives a result with a hyphen |
| Slug.HyphenateKeepsPrefix | components/CreatePostModal.tsx:14 | a whitespace-free prefix passes through the whitespace stage unchanged |
| Slug.HyphenateRun | components/CreatePostModal.tsx:14 | a whole whitespace run becomes exactly one hyphen, at the run's position, with the text before it kept |
| Slug.RemoveDisallowed | components/CreatePostModal.tsx:15 | a character is in the result exactly when it is in the input and inside the allowed alphabet |
| Slug.RemoveDisallowedAppend | components/CreatePostModal.tsx:15 | the filtering stage distributes over concatenation, so it keeps the order of what it keeps |
| Slug.RemoveDisallowedChar | components/CreatePostModal.tsx:15 | a single character is kept exactly when it is allowed, and deleted otherwise |
| Slug.CollapseHyphens | components/CreatePostModal.tsx:16 | the same characters remain, no two hyphens are adjacent, and the first character is kept |
| Slug.CollapseKeepsPrefix | components/CreatePostModal.tsx:16 | a hyphen-free prefix passes through the collapsing stage unchanged |
| Slug.SkipHyphensRun | components/CreatePostModal.tsx:16 | skipping a hyphen run followed by another character leaves exactly what follows the run |
| Slug.CollapseRun | components/CreatePostModal.tsx:16 | a whole hyphen run becomes exactly one hyphen, at the run's position, with the text before it kept |
| Slug.Slugify | components/CreatePostModal.tsx:9-16 | every slug character is an ASCII lower-case letter, a digit, a hyphen or an Arabic-block character other than U+FEFF; no whitespace, no capital, no doubled hyphen |
| Slug.SlugifyTwoWords | components/CreatePostModal.tsx:9-16 | two non-empty words of lower-case slug characters, separated by any non-empty whitespace run, slugify to the words joined by a single hyphen |
| Slug.SlugKeepsCharacters | components/CreatePostModal.tsx:12-16 | deleting the hyphens from a slug gives the lowercased title filtered to allowed, non-hyphen, non-whitespace characters, in order |
| Slug.SlugifyFixesSlugs | components/CreatePostModal.tsx:9-16 | a string of slug characters without a doubled hyphen is its own slug |
| Slug.SlugifyIdempotent | components/CreatePostModal.tsx:9-16 | slugifying a slug changes nothing |
| Slug.HyphenateFixes | components/CreatePostModal.tsx:14 | the whitespace stage leaves whitespace-free text unchanged |
| Slug.RemoveDisallowedFixes | components/CreatePostModal.tsx:15 | the filtering stage leaves allowed-only text unchanged |
| Slug.CollapseFixes | components/CreatePostModal.tsx:16 | the collapsing stage leaves text without doubled hyphens unchanged |
| Slug.SlugEmptyIff | components/CreatePostModal.tsx:12-16 | the slug is empty exactly when the trimmed, lowercased title holds neither whitespace nor an allowed character |
| Slug.NothingAllowedGivesEmptySlug | components/CreatePostModal.tsx:13-15 | a title without whitespace and without allowed characters has an empty slug |
| Slug.PunctuationSlug | components/CreatePostModal.tsx:15 | `"!!!"` has an empty slug |
| Slug.ByteOrderMarkSlug | components/CreatePostModal.tsx:13-15 | U+FEFF is inside an allowed block, yet a title made of it alone has an empty slug |
| Json.Escape | components/CreatePostModal.tsx:52 | the escaped text holds no control character and is never shorter than the input; `UnescapeEscape` reads it back |
| Json.EscapeChar | components/CreatePostModal.tsx:52 | a character is written as itself exactly when it is neither a quote, a backslash nor a control character; the escape holds no control character |
| Json.Quote | components/CreatePostModal.tsx:52 | a string literal is delimited by double quotes |
| Json.EscapePlain | components/CreatePostModal.tsx:52 | a string free of quotes, backslashes and controls is written verbatim |
| Json.UnescapeEscape | components/CreatePostModal.tsx:52 | a JSON reader decodes every escaped field back to the original text |
| Json.QuoteInjective | components/CreatePostModal.tsx:52 | distinct field values give distinct string literals |
| Json.StringifyObject | components/CreatePostModal.tsx:52 | the object text starts with `{` and ends with `}` |
| Snippet.PostMembers | components/CreatePostModal.tsx:43-50 | the six members carry the keys id, title, excerpt, content, imageUrl, date in that insertion order, each key is a letter string, the members are plain exactly when the post is, and looking the keys up gives the post back |
| Snippet.StripKeyQuotes | components/CreatePostModal.tsx:53 | the key rewrite never lengthens the text and keeps a first character that is not a quote and a last character that is not a colon |
| Snippet.QuotesToApostrophes | components/CreatePostModal.tsx:54 | same length, no double quote left, every other character in place |
| Snippet.SnippetOf | components/CreatePostModal.tsx:52-56 | the snippet contains no double quote and is wrapped in `{\n` and `\n}` |
| Snippet.StripKeepsAllButQuotes | components/CreatePostModal.tsx:53 | the key rewrite deletes nothing but quote marks |
| Snippet.SnippetMatchesJsonUpToQuotes | components/CreatePostModal.tsx:52-56 | ignoring quote marks, the snippet is the JSON text between its braces, re-wrapped in `{\n` and `\n}` |
| Snippet.StripMemberLine | components/CreatePostModal.tsx:53 | on a member line with a letter key and a plain value, the rewrite unquotes exactly the key |
| Snippet.StripMembers | components/CreatePostModal.tsx:53 | on the joined member lines the rewrite unquotes every key and nothing else |
| Snippet.SnippetOfPlainPost | components/CreatePostModal.tsx:43-56 | for fields free of quotes, backslashes and controls, the snippet is a blank line, six `key: 'value'` lines in the order id, title, excerpt, content, imageUrl, date, joined by `",\n"`, and a blank line |
| PostBuilder.SlugSource | components/CreatePostModal.tsx:42 | the fallback applies only to the empty title, and what gets slugified is never empty |
| PostBuilder.NewId | components/CreatePostModal.tsx:42 | every identifier character is a slug character, so no identifier holds whitespace or `/` |
| PostBuilder.PlaceholderImage | components/CreatePostModal.tsx:48 | the placeholder URL has the fixed prefix and suffix, and the identifier can be read back from between them |
| PostBuilder.PlaceholderInjective | components/CreatePostModal.tsx:48 | distinct identifiers give distinct placeholder URLs |
| PostBuilder.BuildPost | components/CreatePostModal.tsx:42-50 | title, excerpt and content are copied, the date is the clock reading, the id is the generated one, a non-empty image URL is kept verbatim and an empty one becomes the picsum.photos placeholder seeded by the id |
| PostBuilder.ParseNewId | components/CreatePostModal.tsx:42 | splitting an identifier at its last hyphen gives back the slug and the instant |
| PostBuilder.ParseJoined | components/CreatePostModal.tsx:42 | the last hyphen of slug-hyphen-digits is the one before the digits, whatever hyphens the slug holds |
| PostBuilder.NewIdInjective | components/CreatePostModal.tsx:42 | equal identifiers have equal instants and equal slugs |
| PostBuilder.DistinctInstantsDistinctIds | components/CreatePostModal.tsx:42 | one title gives equal identifiers exactly at the same instant |
| PostBuilder.UntitledSlug | components/CreatePostModal.tsx:42 | the fallback literal is its own slug |
| PostBuilder.EmptyTitleId | components/CreatePostModal.tsx:42 | an empty title gives `untitled-<instant>` |
| PostBuilder.BlankTitleId | components/CreatePostModal.tsx:42 | a non-empty whitespace-only title gives `-<instant>` |
| CreatePost.Validate | components/CreatePostModal.tsx:95-124 | the form passes exactly when title, excerpt and content are all non-empty, and otherwise reports the first empty one in document order |
| CreatePost.Submit | components/CreatePostModal.tsx:40-56 | submission fails exactly when a required field is empty, and otherwise yields the snippet of the built post, which holds no double quote |
| CreatePost.PostOfPlain | components/CreatePostModal.tsx:42-50 | plain user input and date give a plain record: the id and the placeholder URL add no quote, backslash or control |
| CreatePost.SubmitPlainForm | components/CreatePostModal.tsx:40-56 | a valid form with plain input shows the six-line `key: 'value'` layout |
| PostLookup.FindById | components/PostDetail.tsx:12 | a found post is in the list and carries the requested id; nothing is found exactly when no post has that id |
| PostLookup.FindReturnsFirstMatch | components/PostDetail.tsx:12 | the lookup returns the earliest post with the id, even when later posts share it |
| PostLookup.FindIgnoresLaterPosts | components/PostDetail.tsx:12 | posts appended after a match do not change the result |
| PostLookup.PostDetail | components/PostDetail.tsx:11-14 | the article shown is in the list and carries the route id; the not-found page appears exactly when the parameter is absent or no post has that id |
| PostLookup.MissingParameterNotFound | components/PostDetail.tsx:11-14 | an absent route parameter gives the not-found page |
| PostLookup.DetailShowsFirstMatch | components/PostDetail.tsx:11-14 | the page shows the earliest post carrying the requested id |

## Left out

- The render parts of both components, the icons, `PostCard` and `App`: these are presentation only. The `Post` record mirrors `types.ts`, lines 2-9.
- The clipboard write and the two-second "copied" timer (components/CreatePostModal.tsx:60-67): an asynchronous browser API and a timer.
- `Date.now()` and `new Date().toISOString()`: both are clock reads. They arrive as a `nat` and an uninterpreted string. A negative `Date.now()` is not modelled.
- Locale date formatting on the post page (`fa-IR`): an Intl library call.
- Routing, `useParams` and scrolling: library glue. The route parameter enters as an `Option<string>`.
- The post list in `App.tsx`: `data/posts.ts` is not part of this model. The lookup takes the list as a parameter. The lookup cannot change the list because Dafny sequences are values.
- The `type="url"` field's own handling (components/CreatePostModal.tsx:130): the browser strips ASCII whitespace from its value and blocks submission of an invalid URL. The browser's URL parser is not modelled, so the model accepts any string there, including one made only of whitespace.
- Text.LowerChar: only ASCII capitals are lowered; the full Unicode case mapping is a large table that is not modelled. Some non-ASCII capitals lower to allowed ASCII letters: the Kelvin sign U+212A lowers to `k`, and U+0130 lowers to `i` followed by U+0307. So the model gives `Slugify("\u{212A}") == ""` where the code gives `"k"`, and the two differ on titles holding such characters.
- Json.StringifyObject: handles objects of string members only, which is all the `Post` record needs. Other JSON values are not modelled.
- Json.Unescape: rejects `\u` escapes of surrogate halves, because a lone surrogate is not a character here.
- Snippet.SnippetOf: no "snippet parses back to the post" round trip is stated, because the code does not provide one. The key pattern can rewrite `\"x\":` inside a value, and single quotes in values are never escaped. `SnippetMatchesJsonUpToQuotes` states what holds for every post.
- Snippet.StripKeyQuotes: the contract states only length and end characters. The exact rewrite is stated by `StripMembers` for member lines with plain values.
