/** A row of the `comment` table (`Comment`): its field defaults and its two
    JPA lifecycle hooks. The `likes` collection is the set of comment-likes
    whose `comment` is this row (see `Db`). */
module CommentEntity {
  import opened Common
  import opened UserEntity

  /** Post, author, content and `createdAt` are required. The like counter
      is a nullable `Integer`: `None` is a row whose column holds `NULL`. */
  datatype Comment = Comment(
    post: Id,
    author: Id,
    content: string,
    createdAt: Option<Instant>,
    updatedAt: Option<Instant>,
    likeCount: Option<int>)

  /** `new Comment()` followed by the four setters of `createComment`: the
      counter starts at zero. */
  function NewComment(post: Id, author: Id, content: string): (c: Comment)
    ensures c.post == post && c.author == author && c.content == content
    ensures c.likeCount == Some(0)
    ensures c.createdAt.None? && c.updatedAt.None?
  {
    Comment(post, author, content, None, None, Some(0))
  }

  /** `@PrePersist`: stamps `createdAt` and nothing else. */
  function PrePersist(c: Comment, now: Instant): (d: Comment)
    ensures d.createdAt == Some(now)
    ensures d.(createdAt := c.createdAt) == c
  {
    c.(createdAt := Some(now))
  }

  /** `@PreUpdate`: stamps `updatedAt` and nothing else. */
  function PreUpdate(c: Comment, now: Instant): (d: Comment)
    ensures d.updatedAt == Some(now)
    ensures d.(updatedAt := c.updatedAt) == c
  {
    c.(updatedAt := Some(now))
  }

  /** The dirty check Hibernate runs on a managed row loaded as `loaded` and
      changed in place to `changed`: the update hook runs only when the row
      differs from its loaded state. Whatever happens, the row keeps every
      value the code set. Only `updatedAt` can differ from what the code
      set, and only on a dirty row, which always ends up stamped `now`. */
  function Flush(loaded: Comment, changed: Comment, now: Instant): (d: Comment)
    ensures d.(updatedAt := changed.updatedAt) == changed
    ensures changed != loaded ==> d.updatedAt == Some(now)
    ensures d.updatedAt != changed.updatedAt ==> changed != loaded
  {
    if changed == loaded then loaded else PreUpdate(changed, now)
  }

  /** A flushed row that has not changed since is clean: flushing it again,
      at any later time, stamps nothing. */
  lemma FlushSettles(loaded: Comment, changed: Comment, now: Instant, later: Instant)
    ensures var c := Flush(loaded, changed, now); Flush(c, c, later) == c
  {
  }
}
