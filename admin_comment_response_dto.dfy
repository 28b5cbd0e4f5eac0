/** `AdminCommentResponseDto`: the comment row of the admin listing. */
module AdminCommentResponse {
  import opened Common
  import opened UserEntity
  import opened PostEntity
  import opened CommentEntity

  datatype AdminCommentResponseDto = AdminCommentResponseDto(
    id: Id,
    content: string,
    authorUsername: string,
    createdAt: Option<Instant>,
    postId: Option<Id>,
    postTitle: string)

  const DeletedPost: string := "삭제된 게시글"

  /** `fromEntity(comment)`; `author` and `post` are `comment.getAuthor()`
      and `comment.getPost()`, `None` when `null`. */
  function FromEntity(id: Id, c: Comment, author: Option<User>, post: Option<Post>): (d: AdminCommentResponseDto)
    ensures d.authorUsername == (if author.Some? then author.value.username else WithdrawnUser)
    ensures d.postId == (if post.Some? then Some(c.post) else None)
    ensures d.postTitle == (if post.Some? then post.value.title else DeletedPost)
    ensures d.id == id && d.content == c.content && d.createdAt == c.createdAt
  {
    AdminCommentResponseDto(
      id, c.content,
      if author.Some? then author.value.username else WithdrawnUser,
      c.createdAt,
      if post.Some? then Some(c.post) else None,
      if post.Some? then post.value.title else DeletedPost)
  }
}
