/** The blog's only entity. */
module Posts {

  /** A post: six string fields, in the order the `Post` interface declares
      them. `date` is an ISO-8601 timestamp kept as text. */
  datatype Post = Post(
    id: string,
    title: string,
    date: string,
    imageUrl: string,
    excerpt: string,
    content: string
  )
}
