/** A row of the `post` table (`Post`): its field defaults and its two JPA
    lifecycle hooks. The `likes` collection is the set of post-likes whose
    `post` is this row (see `Db`). */
module PostEntity {
  import opened Common
  import opened UserEntity

  /** Title, content and author are required (`nullable = false`); so is
      `createdAt`, which the persist hook fills in. */
  datatype Post = Post(
    title: string,
    content: string,
    author: Id,
    createdAt: Option<Instant>,
    updatedAt: Option<Instant>,
    viewCount: int,
    likeCount: int,
    deleted: bool)

  /** `new Post()` followed by the three setters of `createPost`: the field
      initialisers give zero views, zero likes and `deleted = false`. */
  function NewPost(title: string, content: string, author: Id): (p: Post)
    ensures p.viewCount == 0 && p.likeCount == 0 && !p.deleted
    ensures p.title == title && p.content == content && p.author == author
    ensures p.createdAt.None? && p.updatedAt.None?
  {
    Post(title, content, author, None, None, 0, 0, false)
  }

  /** `@PrePersist`: stamps `createdAt` and clears `deleted`, whatever it held. */
  function PrePersist(p: Post, now: Instant): (q: Post)
    ensures q.createdAt == Some(now) && !q.deleted
    ensures q.(createdAt := p.createdAt, deleted := p.deleted) == p
  {
    p.(createdAt := Some(now), deleted := false)
  }

  /** `@PreUpdate`: stamps `updatedAt` and touches nothing else. */
  function PreUpdate(p: Post, now: Instant): (q: Post)
    ensures q.updatedAt == Some(now)
    ensures q.(updatedAt := p.updatedAt) == p
  {
    p.(updatedAt := Some(now))
  }

  /** The dirty check Hibernate runs on a managed row loaded as `loaded` and
      changed in place to `changed`: the update hook runs only when the row
      differs from its loaded state. Whatever happens, the row keeps every
      value the code set. Only `updatedAt` can differ from what the code
      set, and only on a dirty row, which always ends up stamped `now`. */
  function Flush(loaded: Post, changed: Post, now: Instant): (q: Post)
    ensures q.(updatedAt := changed.updatedAt) == changed
    ensures changed != loaded ==> q.updatedAt == Some(now)
    ensures q.updatedAt != changed.updatedAt ==> changed != loaded
  {
    if changed == loaded then loaded else PreUpdate(changed, now)
  }

  /** A flushed row that has not changed since is clean: flushing it again,
      at any later time, stamps nothing. */
  lemma FlushSettles(loaded: Post, changed: Post, now: Instant, later: Instant)
    ensures var p := Flush(loaded, changed, now); Flush(p, p, later) == p
  {
  }
}
