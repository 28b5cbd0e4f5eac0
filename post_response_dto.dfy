/** `PostResponseDto`: the post view the API returns. Fields a builder
    call leaves unset are `null` (`None`) or `false`. */
module PostResponse {
  import opened Common
  import opened UserEntity
  import opened PostEntity

  datatype PostResponseDto = PostResponseDto(
    id: Id,
    title: string,
    content: Option<string>,
    authorUsername: string,
    createdAt: Option<Instant>,
    updatedAt: Option<Instant>,
    viewCount: int,
    likeCount: int,
    likedByCurrentUser: bool,
    commentCount: int,
    deleted: bool)

  /** `fromEntityForAdmin(post, likeCount, commentCount)`; `author` is
      `post.getAuthor()`, `None` when it is `null`. */
  function FromEntityForAdmin(id: Id, p: Post, author: Option<User>, likeCount: int, commentCount: int): (d: PostResponseDto)
    ensures d.authorUsername == (if author.Some? then author.value.username else WithdrawnUser)
    ensures d.likeCount == likeCount && d.commentCount == commentCount
    ensures d.deleted == p.deleted && !d.likedByCurrentUser
    ensures d.id == id && d.title == p.title && d.content == Some(p.content)
    ensures d.createdAt == p.createdAt && d.updatedAt == p.updatedAt && d.viewCount == p.viewCount
  {
    PostResponseDto(
      id, p.title, Some(p.content),
      if author.Some? then author.value.username else WithdrawnUser,
      p.createdAt, p.updatedAt, p.viewCount, likeCount, false, commentCount, p.deleted)
  }
}
