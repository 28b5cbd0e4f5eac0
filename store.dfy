/** The persistence context the services write through: one mutable store
    holding every table. Repositories and services change its fields in
    place; `Snapshot` reads the whole database out as a `Db.Board` value, which
    is what their contracts talk about. */
module Persistence {
  import opened UserEntity
  import opened PostEntity
  import opened CommentEntity
  import opened CommentLikeEntity
  import opened Db

  class Store {
    var users: map<Id, User>
    var posts: map<Id, Post>
    var comments: map<Id, Comment>
    var postLikes: set<PostLike>
    var commentLikes: set<CommentLike>
    var nextUserId: Id
    var nextPostId: Id
    var nextCommentId: Id

    function Snapshot(): Board
      reads this
    {
      Board(users, posts, comments, postLikes, commentLikes, nextUserId, nextPostId, nextCommentId)
    }

    /** An empty schema. */
    constructor()
      ensures Snapshot() == Empty
    {
      users, posts, comments := map[], map[], map[];
      postLikes, commentLikes := {}, {};
      nextUserId, nextPostId, nextCommentId := 1, 1, 1;
    }

    /** Rolls a transaction back: every table returns to the state `b` it had
        when the transaction began. */
    method Rollback(b: Board)
      modifies this
      ensures Snapshot() == b
    {
      users, posts, comments := b.users, b.posts, b.comments;
      postLikes, commentLikes := b.postLikes, b.commentLikes;
      nextUserId, nextPostId, nextCommentId := b.nextUserId, b.nextPostId, b.nextCommentId;
    }
  }
}
