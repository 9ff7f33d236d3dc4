/** The post page: `Array.prototype.find` over the post list with the
    route's `postId`, and the not-found page when nothing matches. */
module PostLookup {
  import opened Wrappers
  import opened Posts

  /** The first post, in list order, whose id is `id`. */
  function FindById(posts: seq<Post>, id: string): (r: Option<Post>)
    ensures r.Some? ==> r.value in posts && r.value.id == id
    ensures r.None? <==> forall i :: 0 <= i < |posts| ==> posts[i].id != id
  {
    if posts == [] then None
    else if posts[0].id == id then Some(posts[0])
    else FindById(posts[1..], id)
  }

  /** `i` is the earliest position holding a post with id `id`. */
  predicate IsFirstMatch(posts: seq<Post>, id: string, i: nat) {
    i < |posts| && posts[i].id == id && forall j :: 0 <= j < i ==> posts[j].id != id
  }

  /** The lookup returns the post at the earliest matching position, even
      when later posts share its id. */
  lemma {:induction false} FindReturnsFirstMatch(posts: seq<Post>, id: string, i: nat)
    requires IsFirstMatch(posts, id, i)
    ensures FindById(posts, id) == Some(posts[i])
    decreases i
  {
    if i > 0 {
      assert posts[0].id != id;
      assert IsFirstMatch(posts[1..], id, i - 1) by {
        forall j | 0 <= j < i - 1 ensures posts[1..][j].id != id {
          assert posts[1..][j] == posts[j + 1];
        }
      }
      FindReturnsFirstMatch(posts[1..], id, i - 1);
      assert posts[1..][i - 1] == posts[i];
    }
  }

  /** Posts appended after a match never change what the lookup returns. */
  lemma {:induction false} FindIgnoresLaterPosts(posts: seq<Post>, later: seq<Post>, id: string)
    requires FindById(posts, id).Some?
    ensures FindById(posts + later, id) == FindById(posts, id)
    decreases |posts|
  {
    assert posts != [];
    assert (posts + later)[0] == posts[0];
    if posts[0].id != id {
      assert (posts + later)[1..] == posts[1..] + later;
      FindIgnoresLaterPosts(posts[1..], later, id);
    }
  }

  /** What the post route renders. */
  datatype Page = Article(post: Post) | NotFound

  /** The page for route parameter `postId`; `None` stands for an absent
      parameter, which no post id (always a string) equals. */
  function PostDetail(posts: seq<Post>, postId: Option<string>): (page: Page)
    ensures page.Article? ==> page.post in posts && postId == Some(page.post.id)
    ensures page.NotFound? <==>
      postId.None? || forall i :: 0 <= i < |posts| ==> posts[i].id != postId.value
  {
    match postId
    case None => NotFound
    case Some(id) =>
      match FindById(posts, id)
      case None => NotFound
      case Some(post) => Article(post)
  }

  /** An absent route parameter always gives the not-found page. */
  lemma MissingParameterNotFound(posts: seq<Post>)
    ensures PostDetail(posts, None) == NotFound
  {
  }

  /** A page is shown for the earliest post carrying the requested id. */
  lemma DetailShowsFirstMatch(posts: seq<Post>, id: string, i: nat)
    requires IsFirstMatch(posts, id, i)
    ensures PostDetail(posts, Some(id)) == Article(posts[i])
  {
    FindReturnsFirstMatch(posts, id, i);
  }
}
