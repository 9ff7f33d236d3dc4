/** The submit handler of the post-creation form. The browser runs the
    handler only when the three fields marked `required` (title, excerpt,
    content) are non-empty; the image URL is optional. A successful submit
    yields the snippet text the modal then shows. */
module CreatePost {
  import opened Text
  import opened Wrappers
  import opened Json
  import opened Posts
  import opened PostBuilder
  import opened Snippet
  import opened Slug

  /** The four controlled inputs of the form. */
  datatype Form = Form(title: string, excerpt: string, content: string, imageUrl: string)

  /** The first required field, in document order, that blocks submission. */
  datatype FormError = MissingTitle | MissingExcerpt | MissingContent

  function Validate(form: Form): (r: Option<FormError>)
    ensures r.None? <==> form.title != [] && form.excerpt != [] && form.content != []
    ensures r == Some(MissingTitle) <==> form.title == []
    ensures r == Some(MissingExcerpt) <==> form.title != [] && form.excerpt == []
    ensures r == Some(MissingContent) <==> form.title != [] && form.excerpt != [] && form.content == []
  {
    if form.title == [] then Some(MissingTitle)
    else if form.excerpt == [] then Some(MissingExcerpt)
    else if form.content == [] then Some(MissingContent)
    else None
  }

  /** The record a valid form produces at instant `now`. */
  function PostOf(form: Form, now: nat, isoDate: string): Post {
    BuildPost(form.title, form.excerpt, form.content, form.imageUrl, now, isoDate)
  }

  /** Submitting the form: the generated snippet, or the field that stops
      the browser from running the handler. */
  function Submit(form: Form, now: nat, isoDate: string): (r: Result<string, FormError>)
    ensures r.Failure? <==> Validate(form).Some?
    ensures r.Failure? ==> Some(r.error) == Validate(form)
    ensures r.Success? ==> r.value == SnippetOf(PostOf(form, now, isoDate))
    ensures r.Success? ==> '"' !in r.value
  {
    match Validate(form)
    case Some(error) => Failure(error)
    case None => Success(SnippetOf(PostOf(form, now, isoDate)))
  }

  lemma SlugCharsArePlain(s: string)
    requires forall c :: c in s ==> IsSlugChar(c)
    ensures IsPlain(s)
  {
  }

  /** The built record is plain whenever what the user typed and the date
      are: the identifier is made of slug characters and the placeholder
      image adds only URL characters. */
  lemma PostOfPlain(form: Form, now: nat, isoDate: string)
    requires IsPlain(form.title) && IsPlain(form.excerpt) && IsPlain(form.content)
    requires IsPlain(form.imageUrl) && IsPlain(isoDate)
    ensures IsPlainPost(PostOf(form, now, isoDate))
  {
    var p := PostOf(form, now, isoDate);
    SlugCharsArePlain(p.id);
    PlaceholderPlain(p.id);
  }

  lemma PlaceholderPlain(id: string)
    requires IsPlain(id)
    ensures IsPlain(PlaceholderImage(id))
  {
    assert IsPlain(PlaceholderPrefix) && IsPlain(PlaceholderSuffix);
  }

  /** For plain input, a successful submit shows one `key: 'value'` line per
      field, in insertion order, between blank lines. */
  lemma SubmitPlainForm(form: Form, now: nat, isoDate: string)
    requires Validate(form).None?
    requires IsPlain(form.title) && IsPlain(form.excerpt) && IsPlain(form.content)
    requires IsPlain(form.imageUrl) && IsPlain(isoDate)
    ensures Submit(form, now, isoDate) == Success(SnippetLayout(PostOf(form, now, isoDate)))
  {
    PostOfPlain(form, now, isoDate);
    SnippetOfPlainPost(PostOf(form, now, isoDate));
  }
}
