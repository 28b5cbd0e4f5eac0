/** The database the services work on, as one value: the three entity tables
    keyed by their generated ids, the two like tables, and the identity
    counters that hand out the next id of each entity table.

    The foreign keys and cascades the entities declare are stated here as
    `Valid`, and the services' bookkeeping promise (a stored like counter
    equals the number of like rows) as `CountersConsistent`. */
module Db {
  import opened Common
  import opened Exceptions
  import opened UserEntity
  import opened PostEntity
  import opened CommentEntity
  import opened CommentLikeEntity

  /** A row of `post_like`: one user's like of one post. The entity class is
      not part of this model; its shape (a required post and a required user)
      follows from the repository's derived queries and from `Post.likes`.
      Nothing in the code inserts a second row for a pair that already has
      one, so the table is a set of pairs. */
  datatype PostLike = PostLike(post: Id, user: Id)

  datatype Board = Board(
    users: map<Id, User>,
    posts: map<Id, Post>,
    comments: map<Id, Comment>,
    postLikes: set<PostLike>,
    commentLikes: set<CommentLike>,
    nextUserId: Id,
    nextPostId: Id,
    nextCommentId: Id)

  /** A fresh schema: empty tables, identity columns starting at 1. */
  const Empty: Board := Board(map[], map[], map[], {}, {}, 1, 1, 1)

  /** The outcome of one transaction: the database after commit (or, on an
      exception, after rollback) and what the call returned or threw. */
  datatype Tx<+T> = Tx(board: Board, result: Result<T>)

  // ---------------------------------------------------------------------
  // Constraints

  /** Generated ids are positive and below the next value of their identity
      column. */
  predicate IdsIssued(b: Board) {
    && 0 < b.nextUserId && 0 < b.nextPostId && 0 < b.nextCommentId
    && (forall id | id in b.users :: 0 < id < b.nextUserId)
    && (forall id | id in b.posts :: 0 < id < b.nextPostId)
    && (forall id | id in b.comments :: 0 < id < b.nextCommentId)
  }

  /** Every `nullable = false` reference points at an existing row. */
  predicate ReferencesResolve(b: Board) {
    && (forall id | id in b.posts :: b.posts[id].author in b.users)
    && (forall id | id in b.comments :: b.comments[id].post in b.posts && b.comments[id].author in b.users)
    && (forall l | l in b.postLikes :: l.post in b.posts && l.user in b.users)
    && (forall l | l in b.commentLikes :: l.comment in b.comments && l.user in b.users)
  }

  /** `users.username` is `unique = true`. */
  predicate UsernamesUnique(b: Board) {
    forall a, c | a in b.users && c in b.users :: b.users[a].username == b.users[c].username ==> a == c
  }

  /** The database constraints. */
  predicate Valid(b: Board) {
    IdsIssued(b) && ReferencesResolve(b) && UsernamesUnique(b)
  }

  // ---------------------------------------------------------------------
  // Like rows per target

  /** The rows of `post_like` for one post (`post.getLikes()`). */
  function PostLikesOf(likes: set<PostLike>, post: Id): set<PostLike> {
    set l | l in likes && l.post == post
  }

  /** The rows of `comment_likes` for one comment (`comment.getLikes()`). */
  function CommentLikesOf(likes: set<CommentLike>, comment: Id): set<CommentLike> {
    set l | l in likes && l.comment == comment
  }

  /** Every stored like counter equals the number of like rows of its target
      (a comment's counter is not `NULL`). */
  predicate CountersConsistent(b: Board) {
    && (forall id | id in b.posts :: b.posts[id].likeCount == |PostLikesOf(b.postLikes, id)|)
    && (forall id | id in b.comments :: b.comments[id].likeCount == Some(|CommentLikesOf(b.commentLikes, id)|))
  }

  lemma EmptyIsValid()
    ensures Valid(Empty) && CountersConsistent(Empty)
  {
  }

  /** Inserting a new post-like row adds one to its post's count and leaves
      every other post's count alone. */
  lemma {:induction false} PostLikesOfInsert(likes: set<PostLike>, l: PostLike, post: Id)
    requires l !in likes
    ensures |PostLikesOf(likes + {l}, post)| == |PostLikesOf(likes, post)| + (if l.post == post then 1 else 0)
  {
    if l.post == post {
      assert PostLikesOf(likes + {l}, post) == PostLikesOf(likes, post) + {l};
    } else {
      assert PostLikesOf(likes + {l}, post) == PostLikesOf(likes, post);
    }
  }

  /** Deleting an existing post-like row takes one from its post's count and
      leaves every other post's count alone. */
  lemma {:induction false} PostLikesOfDelete(likes: set<PostLike>, l: PostLike, post: Id)
    requires l in likes
    ensures |PostLikesOf(likes - {l}, post)| == |PostLikesOf(likes, post)| - (if l.post == post then 1 else 0)
  {
    if l.post == post {
      assert PostLikesOf(likes - {l}, post) == PostLikesOf(likes, post) - {l};
    } else {
      assert PostLikesOf(likes - {l}, post) == PostLikesOf(likes, post);
    }
  }

  lemma {:induction false} CommentLikesOfInsert(likes: set<CommentLike>, l: CommentLike, comment: Id)
    requires l !in likes
    ensures |CommentLikesOf(likes + {l}, comment)| == |CommentLikesOf(likes, comment)| + (if l.comment == comment then 1 else 0)
  {
    if l.comment == comment {
      assert CommentLikesOf(likes + {l}, comment) == CommentLikesOf(likes, comment) + {l};
    } else {
      assert CommentLikesOf(likes + {l}, comment) == CommentLikesOf(likes, comment);
    }
  }

  lemma {:induction false} CommentLikesOfDelete(likes: set<CommentLike>, l: CommentLike, comment: Id)
    requires l in likes
    ensures |CommentLikesOf(likes - {l}, comment)| == |CommentLikesOf(likes, comment)| - (if l.comment == comment then 1 else 0)
  {
    if l.comment == comment {
      assert CommentLikesOf(likes - {l}, comment) == CommentLikesOf(likes, comment) - {l};
    } else {
      assert CommentLikesOf(likes - {l}, comment) == CommentLikesOf(likes, comment);
    }
  }

  // ---------------------------------------------------------------------
  // Users (the `UserRepository` queries the services use)

  /** `userRepository.findByUsername(name)`: the one user with that name. */
  function FindUserByUsername(b: Board, name: string): (r: Option<Id>)
    requires UsernamesUnique(b)
    ensures r.Some? <==> exists id :: id in b.users && b.users[id].username == name
    ensures r.Some? ==> r.value in b.users && b.users[r.value].username == name
  {
    if exists id :: id in b.users && b.users[id].username == name then
      var id :| id in b.users && b.users[id].username == name; Some(id)
    else None
  }
}
