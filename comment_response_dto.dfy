/** `CommentResponseDto`: the comment view the API returns, with its two
    entity constructors. */
module CommentResponse {
  import opened Common
  import opened UserEntity
  import opened CommentEntity

  datatype CommentResponseDto = CommentResponseDto(
    id: Id,
    content: string,
    authorUsername: string,
    createdAt: Option<Instant>,
    updatedAt: Option<Instant>,
    likeCount: int,
    likedByCurrentUser: bool)

  /** `new CommentResponseDto(comment, likedByCurrentUser, likeCount)`:
      the count is the one passed in. `author` is `comment.getAuthor()`. */
  function WithLikeCount(id: Id, c: Comment, author: User, liked: bool, likeCount: int): (d: CommentResponseDto)
    ensures d.likeCount == likeCount
    ensures d.id == id && d.content == c.content && d.likedByCurrentUser == liked
    ensures d.authorUsername == author.username
    ensures d.createdAt == c.createdAt && d.updatedAt == c.updatedAt
  {
    CommentResponseDto(id, c.content, author.username, c.createdAt, c.updatedAt, likeCount, liked)
  }

  /** `new CommentResponseDto(comment, likedByCurrentUser)`: the count is
      the entity's, or 0 when that is `null`. Otherwise it builds what the
      three-argument constructor builds. */
  function FromComment(id: Id, c: Comment, author: User, liked: bool): (d: CommentResponseDto)
    ensures c.likeCount.None? ==> d.likeCount == 0
    ensures c.likeCount.Some? ==> d.likeCount == c.likeCount.value
    ensures d == WithLikeCount(id, c, author, liked, d.likeCount)
  {
    CommentResponseDto(id, c.content, author.username, c.createdAt, c.updatedAt,
      if c.likeCount.Some? then c.likeCount.value else 0, liked)
  }
}
