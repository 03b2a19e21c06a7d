/** Data shapes shared by the blog components: the load-state union, the
    paginated envelope the blog endpoints return, blogs with their reaction
    counters, and comments. */
module Models {

  datatype Option<+T> = None | Some(value: T)

  /** The three-way status a fetch goes through. Exactly one variant is
      active, and a whole new value replaces the old one on every emission. */
  datatype LoadState<+T> = Loading | Success(data: T) | Error(error: string)

  /** The envelope of a page of results. */
  datatype PaginatedResult<+T> = PaginatedResult(
    items: seq<T>,
    pageNumber: int,
    pageSize: int,
    totalCount: int,
    totalPages: int)

  /** One value pushed into a component's page-request stream. */
  datatype PageRequest = PageRequest(page: int, size: int)

  /** A user's reaction to a blog (Liked = 0, Disliked = 1, Null = 2 on the wire). */
  datatype ReactionType = Liked | Disliked | Null

  datatype Blog = Blog(
    id: int,
    title: string,
    description: string,
    blogVisibility: int,
    categoryId: int,
    categoryName: string,
    authorId: int,
    authorName: string,
    createdAt: string,
    lastUpdatedAt: Option<string>,
    likeCounts: int,
    dislikeCounts: int,
    userReaction: ReactionType)

  type BlogPage = PaginatedResult<Blog>

  /** A comment; `parentCommentId` is None for a top-level comment. Ids are
      positive when the server assigned them and negative for a comment that
      is still being posted. */
  datatype Comment = Comment(
    id: int,
    blogId: int,
    content: string,
    userId: int,
    userName: string,
    parentCommentId: Option<int>,
    createdAt: string,
    lastUpdatedAt: Option<string>,
    isOptimistic: Option<bool>)
}
