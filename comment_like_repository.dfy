/** `CommentLikeRepository`: derived queries over `comment_likes` and its
    writes, including the table's unique constraint on (comment, user). */
module CommentLikeRepository {
  import opened Common
  import opened Exceptions
  import opened UserEntity
  import opened CommentLikeEntity
  import opened Db
  import opened Persistence

  /** `findByCommentAndUser(comment, user)` */
  function FindByCommentAndUser(b: Board, comment: Id, user: Id): (r: Option<CommentLike>)
    ensures r.Some? <==> exists l :: l in b.commentLikes && l.comment == comment && l.user == user
    ensures r.Some? ==> r.value in b.commentLikes && r.value.comment == comment && r.value.user == user
  {
    if CommentLike(comment, user) in b.commentLikes then Some(CommentLike(comment, user)) else None
  }

  /** `existsByCommentAndUser(comment, user)` */
  predicate ExistsByCommentAndUser(b: Board, comment: Id, user: Id) {
    CommentLike(comment, user) in b.commentLikes
  }

  /** The existence query answers yes exactly when the finder finds a row. */
  lemma ExistsIffFound(b: Board, comment: Id, user: Id)
    ensures ExistsByCommentAndUser(b, comment, user) <==> FindByCommentAndUser(b, comment, user).Some?
  {
  }

  /** The message of the exception the driver raises for a second row with
      the same (comment, user). The wording is a placeholder: the real text
      depends on the database and its driver. */
  const UniqueViolation: string := "unique constraint (comment_id, user_id) violated"

  /** The database after inserting `like`: a row for a pair that already has
      one violates the unique constraint and nothing is inserted. */
  function Inserted(b: Board, like: CommentLike): (r: Tx<()>)
    ensures like in b.commentLikes <==> r.result.Err?
    ensures r.result.Err? ==> r.board == b && r.result.error.DataIntegrityViolation?
    ensures r.result.Ok? ==> r.board == b.(commentLikes := b.commentLikes + {like})
  {
    if like in b.commentLikes then Tx(b, Err(DataIntegrityViolation(UniqueViolation)))
    else Tx(b.(commentLikes := b.commentLikes + {like}), Ok(()))
  }

  /** `save(new CommentLike(comment, user))` */
  method Save(store: Store, like: CommentLike) returns (r: Result<()>)
    modifies store
    ensures Tx(store.Snapshot(), r) == Inserted(old(store.Snapshot()), like)
  {
    if like in store.commentLikes {
      return Err(DataIntegrityViolation(UniqueViolation));
    }
    store.commentLikes := store.commentLikes + {like};
    return Ok(());
  }

  /** Inserting a like that was not there grows its comment's row count by
      exactly one; inserting a duplicate leaves every count as it was. */
  lemma {:induction false} InsertCountsOne(b: Board, like: CommentLike, comment: Id)
    ensures |CommentLikesOf(Inserted(b, like).board.commentLikes, comment)|
         == |CommentLikesOf(b.commentLikes, comment)| + (if like !in b.commentLikes && like.comment == comment then 1 else 0)
  {
    if like !in b.commentLikes {
      CommentLikesOfInsert(b.commentLikes, like, comment);
    }
  }

  /** `delete(like)` */
  method Delete(store: Store, like: CommentLike)
    modifies store
    ensures store.Snapshot() == old(store.Snapshot()).(commentLikes := old(store.commentLikes) - {like})
  {
    store.commentLikes := store.commentLikes - {like};
  }

  /** The database after `deleteByUser(user)`. */
  function DeletedByUser(b: Board, user: Id): (r: Board)
    ensures forall l :: l in r.commentLikes <==> l in b.commentLikes && l.user != user
    ensures r.(commentLikes := b.commentLikes) == b
  {
    b.(commentLikes := set l | l in b.commentLikes && l.user != user)
  }

  /** `deleteByUser(user)` */
  method DeleteByUser(store: Store, user: Id)
    modifies store
    ensures store.Snapshot() == DeletedByUser(old(store.Snapshot()), user)
  {
    store.commentLikes := set l | l in store.commentLikes && l.user != user;
  }

  /** After the derived delete no like by that user remains, and the likes of
      every other user are exactly the ones there were. */
  lemma DeleteByUserRemovesExactly(b: Board, user: Id)
    ensures forall c :: !ExistsByCommentAndUser(DeletedByUser(b, user), c, user)
    ensures forall c, u | u != user :: ExistsByCommentAndUser(DeletedByUser(b, user), c, u) <==> ExistsByCommentAndUser(b, c, u)
  {
  }

  /** Removing a user's likes keeps the database's constraints. */
  lemma DeleteByUserKeepsValid(b: Board, user: Id)
    requires Valid(b)
    ensures Valid(DeletedByUser(b, user))
  {
  }
}
