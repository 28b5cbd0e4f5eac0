/** `CommentService`: listing, writing, editing, deleting and liking
    comments, and the administrator's listing and delete.

    As in `PostService`, each operation is a function from the database
    before to a `Tx`, and a method performs it step by step on a `Store`.
    A comment's like counter is a nullable `Integer`: where the service
    unboxes it, a `NULL` counter throws `NullPointerException` and the
    transaction rolls back. */
module CommentService {
  import opened Common
  import opened Exceptions
  import opened UserEntity
  import opened CommentEntity
  import opened CommentLikeEntity
  import opened Db
  import opened Persistence
  import opened CommentResponse
  import opened AdminCommentResponse
  import PostRepository
  import CommentRepository
  import CommentLikeRepository

  /** `new ResourceNotFoundException("게시글을 찾을 수 없습니다. (ID: " + postId + ")")` */
  function PostNotFound(postId: Id): Exception {
    ResourceNotFound("게시글을 찾을 수 없습니다. (ID: " + IntToString(postId) + ")")
  }

  /** `new ResourceNotFoundException("댓글을 찾을 수 없습니다. (ID: " + id + ")")` */
  function CommentNotFound(id: Id): Exception {
    ResourceNotFound("댓글을 찾을 수 없습니다. (ID: " + IntToString(id) + ")")
  }

  const NotAuthorToUpdate: string := "이 댓글을 수정할 권한이 없습니다."
  const NotAuthorToDelete: string := "이 댓글을 삭제할 권한이 없습니다."

  // ---------------------------------------------------------------------
  // Listings (read-only transactions)

  /** `getCommentsByPostId(postId, currentUser)`; `currentUser` is `None`
      for an anonymous request. */
  function GetCommentsByPostId(b: Board, postId: Id, currentUser: Option<Id>): map<Id, CommentResponseDto>
    requires Valid(b)
  {
    map id | id in CommentRepository.FindByPostId(b, postId) ::
      var c := b.comments[id];
      var liked := currentUser.Some? && CommentLikeRepository.ExistsByCommentAndUser(b, id, currentUser.value);
      WithLikeCount(id, c, b.users[c.author], liked, if c.likeCount.Some? then c.likeCount.value else 0)
  }

  /** The listing holds exactly the post's comments. Nobody is reported as
      liking a comment on an anonymous request; otherwise the flag says
      whether that user has a like row. A `NULL` counter is shown as 0, and
      with consistent counters every shown count is the number of like
      rows. */
  lemma {:induction false} GetCommentsByPostIdContents(b: Board, postId: Id, currentUser: Option<Id>)
    requires Valid(b)
    ensures var r := GetCommentsByPostId(b, postId, currentUser);
      && (forall id :: id in r <==> id in b.comments && b.comments[id].post == postId)
      && (forall id | id in r ::
        && r[id].likedByCurrentUser == (currentUser.Some? && CommentLike(id, currentUser.value) in b.commentLikes)
        && (b.comments[id].likeCount.None? ==> r[id].likeCount == 0)
        && (CountersConsistent(b) ==> r[id].likeCount == |CommentLikesOf(b.commentLikes, id)|)
        && r[id] == FromComment(id, b.comments[id], b.users[b.comments[id].author], r[id].likedByCurrentUser))
  {
  }

  /** The comment count a post reply carries (`countByPostId`) is the
      number of entries the post's comment listing shows, whoever asks. */
  lemma {:induction false} CommentCountIsListingSize(b: Board, postId: Id, currentUser: Option<Id>)
    requires Valid(b)
    ensures CommentRepository.CountByPostId(b, postId) == |GetCommentsByPostId(b, postId, currentUser).Keys|
  {
    assert GetCommentsByPostId(b, postId, currentUser).Keys == CommentRepository.FindByPostId(b, postId);
  }

  /** `getAllCommentsForAdmin(pageable, search)`, all pages at once. */
  function GetAllCommentsForAdmin(b: Board, search: Option<string>): map<Id, AdminCommentResponseDto> {
    var ids := if HasText(search) then CommentRepository.SearchForAdmin(b, search.value)
               else CommentRepository.FindAllForAdmin(b);
    map id | id in ids ::
      FromEntity(id, b.comments[id], Some(b.users[b.comments[id].author]), Some(b.posts[b.comments[id].post]))
  }

  /** With no search text (`null`, empty or only white space) the admin
      listing holds every comment; otherwise every comment whose content
      contains the search text, ignoring case. Author and post always
      resolve, so neither fallback text appears. */
  lemma {:induction false} GetAllCommentsForAdminContents(b: Board, search: Option<string>)
    requires Valid(b)
    ensures var r := GetAllCommentsForAdmin(b, search);
      && (!HasText(search) ==> r.Keys == b.comments.Keys)
      && (HasText(search) ==>
          forall id :: id in r <==> id in b.comments && CommentRepository.Matches(b.comments[id], search.value))
      && (forall id | id in r ::
          && r[id].authorUsername == b.users[b.comments[id].author].username
          && r[id].postId == Some(b.comments[id].post)
          && r[id].postTitle == b.posts[b.comments[id].post].title)
  {
    CommentRepository.AdminQueries(b, if search.Some? then search.value else "");
  }

  // ---------------------------------------------------------------------
  // Writing

  /** `createComment(postId, request, author)`: the unfiltered `findById`
      accepts a soft-deleted post. Returns the saved entity and its id. */
  function CreateCommentSpec(b: Board, postId: Id, content: string, author: Id, now: Instant): Tx<(Id, Comment)> {
    match PostRepository.FindById(b, postId)
    case None => Tx(b, Err(PostNotFound(postId)))
    case Some(_) =>
      var (id, a) := CommentRepository.Persisted(b, NewComment(postId, author, content), now);
      Tx(a, Ok((id, a.comments[id])))
  }

  method CreateComment(store: Store, postId: Id, content: string, author: Id, now: Instant) returns (r: Result<(Id, Comment)>)
    modifies store
    ensures Tx(store.Snapshot(), r) == CreateCommentSpec(old(store.Snapshot()), postId, content, author, now)
  {
    var post := PostRepository.FindById(store.Snapshot(), postId);
    if post.None? {
      return Err(PostNotFound(postId));
    }
    var comment := NewComment(postId, author, content);
    var id := CommentRepository.Insert(store, comment, now);
    r := Ok((id, store.comments[id]));
  }

  /** Creating a comment fails not-found exactly when the post has no row,
      soft-deleted posts included, and then changes nothing. Otherwise the
      new comment is stored under a fresh id with the caller as author, the
      given content and a zero counter, and the constraints and counters
      still hold. */
  lemma {:induction false} CreateCommentAdds(b: Board, postId: Id, content: string, author: Id, now: Instant)
    requires Valid(b) && CountersConsistent(b) && author in b.users
    ensures var t := CreateCommentSpec(b, postId, content, author, now);
      && (t.result.Err? <==> postId !in b.posts)
      && (t.result.Err? ==> t.board == b && t.result.error == PostNotFound(postId))
      && (t.result.Ok? ==>
          var (id, c) := t.result.value;
          && id !in b.comments && t.board.comments == b.comments[id := c]
          && c == Comment(postId, author, content, Some(now), None, Some(0))
          && Valid(t.board) && CountersConsistent(t.board))
  {
    if postId in b.posts {
      CommentRepository.PersistKeepsInvariants(b, NewComment(postId, author, content), now);
    }
  }

  /** `updateComment(id, request, currentUser)`. `existsByCommentAndUser`
      after `save` makes Hibernate flush the edited entity first (flush mode
      AUTO), so the response carries the `updatedAt` that dirty check
      stamped. */
  function UpdateCommentSpec(b: Board, id: Id, content: string, currentUser: Id, now: Instant): Tx<CommentResponseDto>
    requires currentUser in b.users
  {
    match CommentRepository.FindById(b, id)
    case None => Tx(b, Err(CommentNotFound(id)))
    case Some(c) =>
      if c.author != currentUser then Tx(b, Err(AccessDenied(NotAuthorToUpdate)))
      else
        var edited := Flush(c, c.(content := content), now);
        var a := b.(comments := b.comments[id := edited]);
        var liked := CommentLikeRepository.ExistsByCommentAndUser(a, id, currentUser);
        if edited.likeCount.None? then Tx(b, Err(NullPointer))
        else Tx(a, Ok(WithLikeCount(id, edited, b.users[currentUser], liked, edited.likeCount.value)))
  }

  method UpdateComment(store: Store, id: Id, content: string, currentUser: Id, now: Instant) returns (r: Result<CommentResponseDto>)
    requires currentUser in store.users
    modifies store
    ensures Tx(store.Snapshot(), r) == UpdateCommentSpec(old(store.Snapshot()), id, content, currentUser, now)
  {
    var before := store.Snapshot();
    var found := CommentRepository.FindById(store.Snapshot(), id);
    if found.None? {
      return Err(CommentNotFound(id));
    }
    var comment := found.value;
    if comment.author != currentUser {
      return Err(AccessDenied(NotAuthorToUpdate));
    }
    CommentRepository.Save(store, id, comment, comment.(content := content), now);
    var edited := store.comments[id];
    var liked := CommentLikeRepository.ExistsByCommentAndUser(store.Snapshot(), id, currentUser);
    if edited.likeCount.None? {
      store.Rollback(before);
      return Err(NullPointer);
    }
    r := Ok(WithLikeCount(id, edited, store.users[currentUser], liked, edited.likeCount.value));
  }

  /** Only the author can edit a comment. A missing comment fails not-found
      and someone else's is refused with access denied; both change
      nothing. The author's edit replaces the content (stamping `updatedAt`
      if that changed it) and touches nothing else, and with consistent
      counters it always succeeds; the response shows the new content and
      the stored `updatedAt`. */
  lemma {:induction false} UpdateCommentAuthorOnly(b: Board, id: Id, content: string, currentUser: Id, now: Instant)
    requires Valid(b) && CountersConsistent(b) && currentUser in b.users
    ensures var t := UpdateCommentSpec(b, id, content, currentUser, now);
      && (id !in b.comments ==> t == Tx(b, Err(CommentNotFound(id))))
      && (id in b.comments && b.comments[id].author != currentUser ==> t == Tx(b, Err(AccessDenied(NotAuthorToUpdate))))
      && (id in b.comments && b.comments[id].author == currentUser ==>
          && t.result.Ok?
          && t.board.(comments := b.comments) == b
          && t.board.comments.Keys == b.comments.Keys
          && (forall k | k in b.comments && k != id :: t.board.comments[k] == b.comments[k])
          && t.board.comments[id].(updatedAt := b.comments[id].updatedAt) == b.comments[id].(content := content)
          && t.result.value.content == content
          && t.result.value.updatedAt == t.board.comments[id].updatedAt
          && (content != b.comments[id].content ==> t.result.value.updatedAt == Some(now))
          && Valid(t.board) && CountersConsistent(t.board))
  {
  }

  /** `deleteComment(id, currentUser)` */
  function DeleteCommentSpec(b: Board, id: Id, currentUser: Id): Tx<()> {
    match CommentRepository.FindById(b, id)
    case None => Tx(b, Err(CommentNotFound(id)))
    case Some(c) =>
      if c.author != currentUser then Tx(b, Err(AccessDenied(NotAuthorToDelete)))
      else Tx(CommentRepository.CommentsDeleted(b, {id}), Ok(()))
  }

  method DeleteComment(store: Store, id: Id, currentUser: Id) returns (r: Result<()>)
    modifies store
    ensures Tx(store.Snapshot(), r) == DeleteCommentSpec(old(store.Snapshot()), id, currentUser)
  {
    var found := CommentRepository.FindById(store.Snapshot(), id);
    if found.None? {
      return Err(CommentNotFound(id));
    }
    if found.value.author != currentUser {
      return Err(AccessDenied(NotAuthorToDelete));
    }
    CommentRepository.Delete(store, id);
    return Ok(());
  }

  /** `deleteCommentAsAdmin(commentId)`: no ownership check. */
  function DeleteCommentAsAdminSpec(b: Board, id: Id): Tx<()> {
    match CommentRepository.FindById(b, id)
    case None => Tx(b, Err(CommentNotFound(id)))
    case Some(_) => Tx(CommentRepository.CommentsDeleted(b, {id}), Ok(()))
  }

  method DeleteCommentAsAdmin(store: Store, id: Id) returns (r: Result<()>)
    modifies store
    ensures Tx(store.Snapshot(), r) == DeleteCommentAsAdminSpec(old(store.Snapshot()), id)
  {
    var found := CommentRepository.FindById(store.Snapshot(), id);
    if found.None? {
      return Err(CommentNotFound(id));
    }
    CommentRepository.Delete(store, id);
    return Ok(());
  }

  /** The author's delete and the admin delete remove the comment and its
      likes and nothing else; the author's delete refuses anyone else with
      access denied and the admin delete refuses no one. Both fail
      not-found only for a missing id, and a failure changes nothing. */
  lemma {:induction false} DeleteCommentRules(b: Board, id: Id, currentUser: Id)
    requires Valid(b) && CountersConsistent(b)
    ensures var t := DeleteCommentSpec(b, id, currentUser);
      && (id !in b.comments ==> t == Tx(b, Err(CommentNotFound(id))))
      && (id in b.comments && b.comments[id].author != currentUser ==> t == Tx(b, Err(AccessDenied(NotAuthorToDelete))))
      && (id in b.comments && b.comments[id].author == currentUser ==> t == DeleteCommentAsAdminSpec(b, id))
    ensures var t := DeleteCommentAsAdminSpec(b, id);
      && (t.result.Err? <==> id !in b.comments)
      && (t.result.Err? ==> t.board == b && t.result.error == CommentNotFound(id))
      && (t.result.Ok? ==>
          && t.board.comments == b.comments - {id}
          && CommentLikesOf(t.board.commentLikes, id) == {}
          && (forall k | k != id :: CommentLikesOf(t.board.commentLikes, k) == CommentLikesOf(b.commentLikes, k))
          && Valid(t.board) && CountersConsistent(t.board))
  {
    if id in b.comments {
      CommentRepository.CommentsDeletedKeepsInvariants(b, {id});
    }
  }

  // ---------------------------------------------------------------------
  // Liking

  /** `toggleCommentLike(commentId, currentUser)`. The like row is deleted or
      inserted before the counter is unboxed, so a `NULL` counter rolls the
      row change back. The response reports the stored counter and the
      `updatedAt` stamped by the flush before `existsByCommentAndUser`. */
  function ToggleCommentLikeSpec(b: Board, commentId: Id, user: Id, now: Instant): Tx<CommentResponseDto>
    requires Valid(b)
  {
    match CommentRepository.FindById(b, commentId)
    case None => Tx(b, Err(CommentNotFound(commentId)))
    case Some(c) =>
      if c.likeCount.None? then Tx(b, Err(NullPointer))
      else
        var existing := CommentLikeRepository.FindByCommentAndUser(b, commentId, user);
        var likes := if existing.Some? then b.commentLikes - {existing.value}
                     else b.commentLikes + {CommentLike(commentId, user)};
        var n := c.likeCount.value;
        var changed := Flush(c, c.(likeCount := Some(if existing.Some? then Max(0, n - 1) else n + 1)), now);
        var a := b.(commentLikes := likes, comments := b.comments[commentId := changed]);
        var liked := CommentLikeRepository.ExistsByCommentAndUser(a, commentId, user);
        Tx(a, Ok(WithLikeCount(commentId, changed, b.users[c.author], liked, changed.likeCount.value)))
  }

  method ToggleCommentLike(store: Store, commentId: Id, user: Id, now: Instant) returns (r: Result<CommentResponseDto>)
    requires Valid(store.Snapshot())
    modifies store
    ensures Tx(store.Snapshot(), r) == ToggleCommentLikeSpec(old(store.Snapshot()), commentId, user, now)
  {
    var before := store.Snapshot();
    var found := CommentRepository.FindById(store.Snapshot(), commentId);
    if found.None? {
      return Err(CommentNotFound(commentId));
    }
    var comment := found.value;
    var author := store.users[comment.author];
    var existing := CommentLikeRepository.FindByCommentAndUser(store.Snapshot(), commentId, user);
    var changed;
    if existing.Some? {
      CommentLikeRepository.Delete(store, existing.value);
      if comment.likeCount.None? {
        store.Rollback(before);
        return Err(NullPointer);
      }
      changed := comment.(likeCount := Some(Max(0, comment.likeCount.value - 1)));
    } else {
      var saved := CommentLikeRepository.Save(store, CommentLike(commentId, user));
      if comment.likeCount.None? {
        store.Rollback(before);
        return Err(NullPointer);
      }
      changed := comment.(likeCount := Some(comment.likeCount.value + 1));
    }
    CommentRepository.Save(store, commentId, comment, changed, now);
    changed := store.comments[commentId];
    var liked := CommentLikeRepository.ExistsByCommentAndUser(store.Snapshot(), commentId, user);
    r := Ok(WithLikeCount(commentId, changed, author, liked, changed.likeCount.value));
  }

  /** An unknown comment fails not-found, and a `NULL` counter fails with a
      null pointer; both change nothing. Otherwise a user who had liked the
      comment loses exactly that like and the counter drops to
      `max(0, n - 1)`, and a user who had not gains exactly one like and the
      counter grows by one. The liked flag reports whether this call added
      the like, the count is the stored counter, and `updatedAt` is the
      stored one, stamped whenever the counter moved. */
  lemma {:induction false} ToggleCommentLikeEffect(b: Board, commentId: Id, user: Id, now: Instant)
    requires Valid(b)
    ensures var t := ToggleCommentLikeSpec(b, commentId, user, now);
      && (commentId !in b.comments ==> t == Tx(b, Err(CommentNotFound(commentId))))
      && (commentId in b.comments && b.comments[commentId].likeCount.None? ==> t == Tx(b, Err(NullPointer)))
      && (commentId in b.comments && b.comments[commentId].likeCount.Some? ==>
        var c := b.comments[commentId];
        var n := c.likeCount.value;
        var had := CommentLike(commentId, user) in b.commentLikes;
        && t.result.Ok?
        && t.board.commentLikes
           == (if had then b.commentLikes - {CommentLike(commentId, user)} else b.commentLikes + {CommentLike(commentId, user)})
        && t.board.comments[commentId].likeCount == Some(if had then Max(0, n - 1) else n + 1)
        && t.board.comments[commentId].(likeCount := c.likeCount, updatedAt := c.updatedAt) == c
        && t.board.(comments := b.comments, commentLikes := b.commentLikes) == b
        && t.board.comments == b.comments[commentId := t.board.comments[commentId]]
        && t.result.value.likedByCurrentUser == !had
        && t.result.value.likeCount == t.board.comments[commentId].likeCount.value
        && t.result.value.updatedAt == t.board.comments[commentId].updatedAt
        && (t.board.comments[commentId].likeCount != c.likeCount ==> t.result.value.updatedAt == Some(now)))
  {
  }

  /** With consistent counters a toggle by an existing user never meets a
      `NULL` counter, and every counter still matches its like rows after
      it. */
  lemma {:induction false} ToggleCommentLikeKeepsInvariants(b: Board, commentId: Id, user: Id, now: Instant)
    requires Valid(b) && CountersConsistent(b) && user in b.users
    ensures commentId in b.comments ==> ToggleCommentLikeSpec(b, commentId, user, now).result.Ok?
    ensures Valid(ToggleCommentLikeSpec(b, commentId, user, now).board)
    ensures CountersConsistent(ToggleCommentLikeSpec(b, commentId, user, now).board)
  {
    var t := ToggleCommentLikeSpec(b, commentId, user, now);
    if commentId in b.comments {
      var a := t.board;
      var l := CommentLike(commentId, user);
      forall id | id in a.comments ensures a.comments[id].likeCount == Some(|CommentLikesOf(a.commentLikes, id)|) {
        if l in b.commentLikes {
          CommentLikesOfDelete(b.commentLikes, l, id);
          if id == commentId {
            assert l in CommentLikesOf(b.commentLikes, commentId);
          }
        } else {
          CommentLikesOfInsert(b.commentLikes, l, id);
        }
      }
    }
  }

  /** Toggling twice, with consistent counters, gives back the like rows and
      the counter the comment had, and the second response reports the liked
      state the user had before. */
  lemma {:induction false} ToggleCommentLikeTwice(b: Board, commentId: Id, user: Id, now1: Instant, now2: Instant)
    requires Valid(b) && CountersConsistent(b) && user in b.users && commentId in b.comments
    ensures var t1 := ToggleCommentLikeSpec(b, commentId, user, now1);
      && Valid(t1.board)
      && var t2 := ToggleCommentLikeSpec(t1.board, commentId, user, now2);
      && t2.board.commentLikes == b.commentLikes
      && t2.board.comments[commentId].likeCount == b.comments[commentId].likeCount
      && t2.result.Ok? && t2.result.value.likedByCurrentUser == (CommentLike(commentId, user) in b.commentLikes)
  {
    var l := CommentLike(commentId, user);
    ToggleCommentLikeKeepsInvariants(b, commentId, user, now1);
    ToggleCommentLikeEffect(b, commentId, user, now1);
    var t1 := ToggleCommentLikeSpec(b, commentId, user, now1);
    ToggleCommentLikeEffect(t1.board, commentId, user, now2);
    if l in b.commentLikes {
      assert l in CommentLikesOf(b.commentLikes, commentId);
      assert b.commentLikes - {l} + {l} == b.commentLikes;
    } else {
      assert b.commentLikes + {l} - {l} == b.commentLikes;
    }
  }
}
