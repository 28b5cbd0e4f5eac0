/** A row of `comment_likes` (`CommentLike`): one user's like of one
    comment. The table's unique constraint on `(comment_id, user_id)` makes
    a row equal to its key, so the table is a set of these values. */
module CommentLikeEntity {
  import opened UserEntity

  /** Both references are required (`nullable = false`). */
  datatype CommentLike = CommentLike(comment: Id, user: Id)
}
