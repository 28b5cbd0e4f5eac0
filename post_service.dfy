/** `PostService`: listing, viewing, writing and liking posts, and the
    administrator's soft-delete, restore and hard-delete.

    Every operation is one transaction. Its meaning is a function from the
    database before to a `Tx` (the database after commit or rollback, and
    the result or exception); the method of the same name performs it on a
    `Store` step by step, as the service does, and is proved to agree with
    that function. The users a controller passes in (`User author`,
    `User currentUser`) are rows it loaded, so they are ids of existing
    users. */
module PostService {
  import opened Common
  import opened Exceptions
  import opened UserEntity
  import opened PostEntity
  import opened Db
  import opened Persistence
  import opened PostResponse
  import PostRepository
  import PostLikeRepository
  import CommentRepository

  /** `new EntityNotFoundException("게시글을 찾을 수 없습니다: " + id)` */
  function PostNotFound(id: Id): Exception {
    EntityNotFound("게시글을 찾을 수 없습니다: " + IntToString(id))
  }

  const NotAuthorToUpdate: string := "게시글 수정 권한이 없습니다."
  const NotAuthorToDelete: string := "게시글 삭제 권한이 없습니다."

  // ---------------------------------------------------------------------
  // Listings (read-only transactions)

  /** The posts `getAllPosts` selects: the search when a keyword with text
      was given, otherwise every active post. The keyword is passed on
      untrimmed. */
  function ListedPosts(b: Board, keyword: Option<string>): set<Id> {
    if HasText(keyword) then PostRepository.SearchWithAuthor(b, keyword.value)
    else PostRepository.FindAllWithAuthor(b)
  }

  /** The summary `getAllPosts` builds for one post: no content, no update
      time, and live counts of like rows and comments. */
  function Summary(b: Board, id: Id): PostResponseDto
    requires id in b.posts && b.posts[id].author in b.users
  {
    var p := b.posts[id];
    PostResponseDto(id, p.title, None, b.users[p.author].username, p.createdAt, None, p.viewCount,
      PostLikeRepository.CountByPost(b, id), false, CommentRepository.CountByPostId(b, id), false)
  }

  /** `getAllPosts(pageable, searchKeyword)`, all pages at once. */
  function GetAllPosts(b: Board, keyword: Option<string>): map<Id, PostResponseDto> {
    map id | id in ListedPosts(b, keyword) :: Summary(b, id)
  }

  /** The public listing shows exactly the active posts (that match the
      keyword, when one with text is given), and each summary's like count is
      the number of like rows, which the stored counter equals. */
  lemma {:induction false} GetAllPostsContents(b: Board, keyword: Option<string>)
    requires Valid(b) && CountersConsistent(b)
    ensures forall id :: (id in GetAllPosts(b, keyword) <==>
      id in b.posts && !b.posts[id].deleted
      && (HasText(keyword) ==> PostRepository.Matches(b.posts[id], keyword.value)))
    ensures forall id | id in GetAllPosts(b, keyword) ::
      GetAllPosts(b, keyword)[id].likeCount == b.posts[id].likeCount
      && GetAllPosts(b, keyword)[id].commentCount == |CommentRepository.FindByPostId(b, id)|
  {
    PostRepository.ActiveListing(b);
  }

  /** `getAllPostsForAdmin(pageable, searchKeyword)`, all pages at once. */
  function GetAllPostsForAdmin(b: Board, keyword: Option<string>): map<Id, PostResponseDto> {
    var ids := if HasText(keyword) then PostRepository.SearchForAdmin(b, keyword.value)
               else PostRepository.FindAllForAdmin(b);
    map id | id in ids :: FromEntityForAdmin(id, b.posts[id], Some(b.users[b.posts[id].author]),
      PostLikeRepository.CountByPost(b, id), CommentRepository.CountByPostId(b, id))
  }

  /** The admin listing shows every post, soft-deleted ones included and
      flagged, under its author's own name (the fallback for a missing
      author never applies, because the author row exists). On an active
      post it agrees with the public summary in everything but the fields
      the summary leaves out. */
  lemma {:induction false} GetAllPostsForAdminContents(b: Board, keyword: Option<string>)
    requires Valid(b)
    ensures forall id :: (id in GetAllPostsForAdmin(b, keyword) <==>
      id in b.posts && (HasText(keyword) ==> PostRepository.Matches(b.posts[id], keyword.value)))
    ensures forall id | id in GetAllPostsForAdmin(b, keyword) ::
      GetAllPostsForAdmin(b, keyword)[id].deleted == b.posts[id].deleted
      && GetAllPostsForAdmin(b, keyword)[id].authorUsername == b.users[b.posts[id].author].username
    ensures forall id | id in GetAllPosts(b, keyword) ::
      id in GetAllPostsForAdmin(b, keyword)
      && GetAllPostsForAdmin(b, keyword)[id]
         == GetAllPosts(b, keyword)[id].(content := Some(b.posts[id].content), updatedAt := b.posts[id].updatedAt)
  {
    PostRepository.AdminListing(b, if keyword.Some? then keyword.value else "");
    PostRepository.ActiveListing(b);
  }

  // ---------------------------------------------------------------------
  // Viewing

  /** `getPostById(id, currentUser)`: an active post gets one more view.
      `save` on the managed post writes nothing yet, but the derived queries
      that follow make Hibernate flush first (flush mode AUTO). That dirty
      check runs `@PreUpdate` on the entity, so the response, built from the
      same entity afterwards, carries the new `updatedAt`. */
  function GetPostByIdSpec(b: Board, id: Id, currentUser: Option<Id>, now: Instant): Tx<PostResponseDto> {
    match PostRepository.FindByIdWithAuthor(b, id)
    case None => Tx(b, Err(PostNotFound(id)))
    case Some(p) =>
      var viewed := Flush(p, p.(viewCount := p.viewCount + 1), now);
      var a := b.(posts := b.posts[id := viewed]);
      var liked := currentUser.Some? && PostLikeRepository.ExistsByPostAndUser(a, id, currentUser.value);
      Tx(a, Ok(PostResponseDto(id, viewed.title, Some(viewed.content), b.users[p.author].username,
        viewed.createdAt, viewed.updatedAt, viewed.viewCount,
        PostLikeRepository.CountByPost(a, id), liked, CommentRepository.CountByPostId(a, id), false)))
  }

  method GetPostById(store: Store, id: Id, currentUser: Option<Id>, now: Instant) returns (r: Result<PostResponseDto>)
    modifies store
    ensures Tx(store.Snapshot(), r) == GetPostByIdSpec(old(store.Snapshot()), id, currentUser, now)
  {
    var found := PostRepository.FindByIdWithAuthor(store.Snapshot(), id);
    if found.None? {
      return Err(PostNotFound(id));
    }
    var post := found.value;
    var authorName := store.users[post.author].username;
    PostRepository.Save(store, id, post, post.(viewCount := post.viewCount + 1), now);
    var viewed := store.posts[id];
    var liked := currentUser.Some? && PostLikeRepository.ExistsByPostAndUser(store.Snapshot(), id, currentUser.value);
    var likeCount := PostLikeRepository.CountByPost(store.Snapshot(), id);
    var commentCount := CommentRepository.CountByPostId(store.Snapshot(), id);
    r := Ok(PostResponseDto(id, viewed.title, Some(viewed.content), authorName, viewed.createdAt,
      viewed.updatedAt, viewed.viewCount, likeCount, liked, commentCount, false));
  }

  /** Viewing succeeds exactly for an existing, active post. Then that post's
      view count grows by one and its `updatedAt` becomes the transaction's
      time; nothing else in the database changes, and the response reports
      the new view count, the new `updatedAt`, the live like count and
      whether the viewer liked it. A missing or soft-deleted post fails
      not-found and changes nothing. */
  lemma {:induction false} GetPostByIdCountsView(b: Board, id: Id, currentUser: Option<Id>, now: Instant)
    requires Valid(b) && CountersConsistent(b)
    ensures var t := GetPostByIdSpec(b, id, currentUser, now);
      && (t.result.Ok? <==> id in b.posts && !b.posts[id].deleted)
      && (t.result.Err? ==> t.board == b && t.result.error == PostNotFound(id))
      && (t.result.Ok? ==>
        && t.board == b.(posts := b.posts[id := b.posts[id].(viewCount := b.posts[id].viewCount + 1, updatedAt := Some(now))])
        && t.result.value.viewCount == b.posts[id].viewCount + 1
        && t.result.value.updatedAt == Some(now)
        && t.result.value.likeCount == b.posts[id].likeCount
        && t.result.value.likedByCurrentUser == (currentUser.Some? && PostLike(id, currentUser.value) in b.postLikes))
  {
    PostRepository.FindByIdWithAuthorIff(b, id);
  }

  /** Viewing keeps the constraints and the counters. */
  lemma GetPostByIdKeepsInvariants(b: Board, id: Id, currentUser: Option<Id>, now: Instant)
    requires Valid(b) && CountersConsistent(b)
    ensures Valid(GetPostByIdSpec(b, id, currentUser, now).board)
    ensures CountersConsistent(GetPostByIdSpec(b, id, currentUser, now).board)
  {
  }

  /** `getPostByIdNoViewCount(id)`: a read-only transaction. */
  function GetPostByIdNoViewCount(b: Board, id: Id): Result<PostResponseDto> {
    match PostRepository.FindByIdWithAuthor(b, id)
    case None => Err(PostNotFound(id))
    case Some(p) =>
      Ok(PostResponseDto(id, p.title, Some(p.content), b.users[p.author].username, p.createdAt, p.updatedAt,
        p.viewCount, PostLikeRepository.CountByPost(b, id), false, CommentRepository.CountByPostId(b, id), false))
  }

  /** The view without counting fails exactly when the counting view does,
      and otherwise reports the same post with one view fewer, the stored
      `updatedAt` and no liked flag: it is the counting view minus its side
      effect. */
  lemma {:induction false} NoViewCountIsViewWithoutEffect(b: Board, id: Id, currentUser: Option<Id>, now: Instant)
    ensures var t := GetPostByIdSpec(b, id, currentUser, now);
      && (GetPostByIdNoViewCount(b, id).Ok? <==> t.result.Ok?)
      && (t.result.Err? ==> GetPostByIdNoViewCount(b, id) == t.result)
      && (t.result.Ok? ==>
          GetPostByIdNoViewCount(b, id).value
          == t.result.value.(viewCount := t.result.value.viewCount - 1, likedByCurrentUser := false,
                             updatedAt := b.posts[id].updatedAt))
  {
    var t := GetPostByIdSpec(b, id, currentUser, now);
    if t.result.Ok? {
      var a := t.board;
      assert a.postLikes == b.postLikes && a.comments == b.comments;
    }
  }

  // ---------------------------------------------------------------------
  // Writing

  /** `createPost(request, author)`: persists a new post and reports it with
      zero likes and zero comments. */
  function CreatePostSpec(b: Board, title: string, content: string, author: Id, now: Instant): Tx<PostResponseDto>
    requires author in b.users
  {
    var (id, a) := PostRepository.Persisted(b, NewPost(title, content, author), now);
    var p := a.posts[id];
    Tx(a, Ok(PostResponseDto(id, p.title, Some(p.content), b.users[author].username, p.createdAt, None,
      p.viewCount, 0, false, 0, false)))
  }

  method CreatePost(store: Store, title: string, content: string, author: Id, now: Instant) returns (r: Result<PostResponseDto>)
    requires author in store.users
    modifies store
    ensures Tx(store.Snapshot(), r) == CreatePostSpec(old(store.Snapshot()), title, content, author, now)
  {
    var post := NewPost(title, content, author);
    var authorName := store.users[author].username;
    var id := PostRepository.Insert(store, post, now);
    post := store.posts[id];
    r := Ok(PostResponseDto(id, post.title, Some(post.content), authorName, post.createdAt, None,
      post.viewCount, 0, false, 0, false));
  }

  /** A created post is stored under a fresh id, active, by its author, with
      the given title and content, no views and no likes; no existing post
      changes, and the constraints and counters still hold. */
  lemma {:induction false} CreatePostAdds(b: Board, title: string, content: string, author: Id, now: Instant)
    requires Valid(b) && CountersConsistent(b) && author in b.users
    ensures var t := CreatePostSpec(b, title, content, author, now);
      && t.result.Ok?
      && var id := t.result.value.id;
      && id !in b.posts && t.board.posts == b.posts[id := t.board.posts[id]]
      && t.board.posts[id] == Post(title, content, author, Some(now), None, 0, 0, false)
      && t.result.value.likeCount == 0 && t.result.value.commentCount == 0
      && t.result.value.authorUsername == b.users[author].username
      && Valid(t.board) && CountersConsistent(t.board)
  {
    PostRepository.PersistKeepsInvariants(b, NewPost(title, content, author), now);
  }

  /** `updatePost(id, request, currentUser)`. As in `getPostById`, the count
      queries after `save` flush the edited entity first, so the response
      carries the `updatedAt` the dirty check stamped (none, when the edit
      changed nothing). */
  function UpdatePostSpec(b: Board, id: Id, title: string, content: string, currentUser: Id, now: Instant): Tx<PostResponseDto>
    requires currentUser in b.users
  {
    match PostRepository.FindByIdWithAuthor(b, id)
    case None => Tx(b, Err(PostNotFound(id)))
    case Some(p) =>
      if p.author != currentUser then Tx(b, Err(IllegalArgument(NotAuthorToUpdate)))
      else
        var edited := Flush(p, p.(title := title, content := content), now);
        var a := b.(posts := b.posts[id := edited]);
        Tx(a, Ok(PostResponseDto(id, edited.title, Some(edited.content), b.users[currentUser].username,
          edited.createdAt, edited.updatedAt, edited.viewCount,
          PostLikeRepository.CountByPost(a, id), false, CommentRepository.CountByPostId(a, id), false)))
  }

  method UpdatePost(store: Store, id: Id, title: string, content: string, currentUser: Id, now: Instant) returns (r: Result<PostResponseDto>)
    requires currentUser in store.users
    modifies store
    ensures Tx(store.Snapshot(), r) == UpdatePostSpec(old(store.Snapshot()), id, title, content, currentUser, now)
  {
    var found := PostRepository.FindByIdWithAuthor(store.Snapshot(), id);
    if found.None? {
      return Err(PostNotFound(id));
    }
    var post := found.value;
    if post.author != currentUser {
      return Err(IllegalArgument(NotAuthorToUpdate));
    }
    PostRepository.Save(store, id, post, post.(title := title, content := content), now);
    var edited := store.posts[id];
    var likeCount := PostLikeRepository.CountByPost(store.Snapshot(), id);
    var commentCount := CommentRepository.CountByPostId(store.Snapshot(), id);
    r := Ok(PostResponseDto(id, edited.title, Some(edited.content), store.users[currentUser].username,
      edited.createdAt, edited.updatedAt, edited.viewCount, likeCount, false, commentCount, false));
  }

  /** Only the author can edit an active post. A missing or soft-deleted post
      fails not-found, someone else's fails with an illegal argument, and
      both leave the database as it was. The author's edit replaces title and
      content (and stamps `updatedAt` if that changed anything) and touches
      nothing else; the response shows the new title, content and
      `updatedAt`. */
  lemma {:induction false} UpdatePostAuthorOnly(b: Board, id: Id, title: string, content: string, currentUser: Id, now: Instant)
    requires Valid(b) && CountersConsistent(b) && currentUser in b.users
    ensures var t := UpdatePostSpec(b, id, title, content, currentUser, now);
      && (!(id in b.posts && !b.posts[id].deleted) ==> t == Tx(b, Err(PostNotFound(id))))
      && (id in b.posts && !b.posts[id].deleted && b.posts[id].author != currentUser
          ==> t == Tx(b, Err(IllegalArgument(NotAuthorToUpdate))))
      && (id in b.posts && !b.posts[id].deleted && b.posts[id].author == currentUser ==>
          && t.result.Ok?
          && t.board.(posts := b.posts) == b
          && t.board.posts.Keys == b.posts.Keys
          && (forall k | k in b.posts && k != id :: t.board.posts[k] == b.posts[k])
          && t.board.posts[id].(updatedAt := b.posts[id].updatedAt)
             == b.posts[id].(title := title, content := content)
          && t.result.value.title == title && t.result.value.content == Some(content)
          && t.result.value.updatedAt == t.board.posts[id].updatedAt
          && ((title, content) != (b.posts[id].title, b.posts[id].content) ==> t.result.value.updatedAt == Some(now))
          && Valid(t.board) && CountersConsistent(t.board))
  {
    PostRepository.FindByIdWithAuthorIff(b, id);
  }

  /** The database after `deletePost(id, currentUser)`. */
  function DeletePostSpec(b: Board, id: Id, currentUser: Id): Tx<()> {
    match PostRepository.FindByIdWithAuthor(b, id)
    case None => Tx(b, Err(PostNotFound(id)))
    case Some(p) =>
      if p.author != currentUser then Tx(b, Err(IllegalArgument(NotAuthorToDelete)))
      else Tx(PostRepository.SoftDeleted(b, id), Ok(()))
  }

  method DeletePost(store: Store, id: Id, currentUser: Id) returns (r: Result<()>)
    modifies store
    ensures Tx(store.Snapshot(), r) == DeletePostSpec(old(store.Snapshot()), id, currentUser)
  {
    var found := PostRepository.FindByIdWithAuthor(store.Snapshot(), id);
    if found.None? {
      return Err(PostNotFound(id));
    }
    if found.value.author != currentUser {
      return Err(IllegalArgument(NotAuthorToDelete));
    }
    PostRepository.SoftDeleteById(store, id);
    return Ok(());
  }

  /** Only the author can delete, and deleting only soft-deletes: the row,
      its likes and its comments stay. Deleting a post that is already
      soft-deleted fails not-found, so a second delete is refused. */
  lemma {:induction false} DeletePostSoftDeletes(b: Board, id: Id, currentUser: Id)
    requires Valid(b)
    ensures var t := DeletePostSpec(b, id, currentUser);
      && (t.result.Ok? <==> id in b.posts && !b.posts[id].deleted && b.posts[id].author == currentUser)
      && (t.result.Err? ==> t.board == b)
      && (id in b.posts && !b.posts[id].deleted && b.posts[id].author != currentUser
          ==> t.result == Err(IllegalArgument(NotAuthorToDelete)))
      && (t.result.Ok? ==>
          && t.board == b.(posts := b.posts[id := b.posts[id].(deleted := true)])
          && DeletePostSpec(t.board, id, currentUser) == Tx(t.board, Err(PostNotFound(id))))
  {
    PostRepository.FindByIdWithAuthorIff(b, id);
    var t := DeletePostSpec(b, id, currentUser);
    if t.result.Ok? {
      PostRepository.FindByIdWithAuthorIff(t.board, id);
    }
  }

  // ---------------------------------------------------------------------
  // Liking

  /** `togglePostLike(postId, user)`. The lookup is the unfiltered
      `findById`, so a soft-deleted post can be liked. The response reports
      the stored counter, not a count of rows, and the `updatedAt` that the
      flush before `countByPostId` stamped. */
  function TogglePostLikeSpec(b: Board, postId: Id, user: Id, now: Instant): Tx<PostResponseDto>
    requires Valid(b)
  {
    match PostRepository.FindById(b, postId)
    case None => Tx(b, Err(PostNotFound(postId)))
    case Some(p) =>
      var existing := PostLikeRepository.FindByPostAndUser(b, postId, user);
      var likes := if existing.Some? then b.postLikes - {existing.value} else b.postLikes + {PostLike(postId, user)};
      var changed := Flush(p, if existing.Some? then p.(likeCount := Max(0, p.likeCount - 1)) else p.(likeCount := p.likeCount + 1), now);
      var a := b.(postLikes := likes, posts := b.posts[postId := changed]);
      Tx(a, Ok(PostResponseDto(postId, changed.title, Some(changed.content), b.users[p.author].username,
        changed.createdAt, changed.updatedAt, changed.viewCount, changed.likeCount,
        PostLikeRepository.ExistsByPostAndUser(a, postId, user),
        CommentRepository.CountByPostId(a, postId), false)))
  }

  method TogglePostLike(store: Store, postId: Id, user: Id, now: Instant) returns (r: Result<PostResponseDto>)
    requires Valid(store.Snapshot())
    modifies store
    ensures Tx(store.Snapshot(), r) == TogglePostLikeSpec(old(store.Snapshot()), postId, user, now)
  {
    var found := PostRepository.FindById(store.Snapshot(), postId);
    if found.None? {
      return Err(PostNotFound(postId));
    }
    var post := found.value;
    var authorName := store.users[post.author].username;
    var existing := PostLikeRepository.FindByPostAndUser(store.Snapshot(), postId, user);
    var changed;
    if existing.Some? {
      PostLikeRepository.Delete(store, existing.value);
      changed := post.(likeCount := Max(0, post.likeCount - 1));
    } else {
      PostLikeRepository.Save(store, PostLike(postId, user));
      changed := post.(likeCount := post.likeCount + 1);
    }
    PostRepository.Save(store, postId, post, changed, now);
    changed := store.posts[postId];
    var commentCount := CommentRepository.CountByPostId(store.Snapshot(), postId);
    var liked := PostLikeRepository.ExistsByPostAndUser(store.Snapshot(), postId, user);
    r := Ok(PostResponseDto(postId, changed.title, Some(changed.content), authorName, changed.createdAt,
      changed.updatedAt, changed.viewCount, changed.likeCount, liked, commentCount, false));
  }

  /** An unknown post id fails not-found and changes nothing. Otherwise,
      soft-deleted or not: a user who had liked the post loses exactly that
      like and the counter drops to `max(0, n - 1)`; a user who had not gains
      exactly one like and the counter grows by one. The liked flag reports
      whether this call added the like, the count is the stored counter, and
      apart from the counter and `updatedAt` the post is unchanged. The
      response's `updatedAt` is the stored one, stamped whenever the counter
      moved. */
  lemma {:induction false} TogglePostLikeEffect(b: Board, postId: Id, user: Id, now: Instant)
    requires Valid(b)
    ensures var t := TogglePostLikeSpec(b, postId, user, now);
      && (postId !in b.posts ==> t == Tx(b, Err(PostNotFound(postId))))
      && (postId in b.posts ==>
        var p := b.posts[postId];
        var had := PostLike(postId, user) in b.postLikes;
        && t.result.Ok?
        && t.board.postLikes == (if had then b.postLikes - {PostLike(postId, user)} else b.postLikes + {PostLike(postId, user)})
        && t.board.posts[postId].likeCount == (if had then Max(0, p.likeCount - 1) else p.likeCount + 1)
        && t.board.posts[postId].(likeCount := p.likeCount, updatedAt := p.updatedAt) == p
        && t.board.(posts := b.posts, postLikes := b.postLikes) == b
        && t.board.posts == b.posts[postId := t.board.posts[postId]]
        && t.result.value.likedByCurrentUser == !had
        && t.result.value.likeCount == t.board.posts[postId].likeCount
        && t.result.value.updatedAt == t.board.posts[postId].updatedAt
        && (t.board.posts[postId].likeCount != p.likeCount ==> t.result.value.updatedAt == Some(now)))
  {
  }

  /** When every counter matched its like rows before a toggle, every
      counter still does after it, and the constraints still hold for a
      liking user that exists. */
  lemma {:induction false} TogglePostLikeKeepsInvariants(b: Board, postId: Id, user: Id, now: Instant)
    requires Valid(b) && CountersConsistent(b) && user in b.users
    ensures Valid(TogglePostLikeSpec(b, postId, user, now).board)
    ensures CountersConsistent(TogglePostLikeSpec(b, postId, user, now).board)
  {
    var t := TogglePostLikeSpec(b, postId, user, now);
    if postId in b.posts {
      var a := t.board;
      var l := PostLike(postId, user);
      var n := |PostLikesOf(b.postLikes, postId)|;
      forall id | id in a.posts ensures a.posts[id].likeCount == |PostLikesOf(a.postLikes, id)| {
        if l in b.postLikes {
          PostLikesOfDelete(b.postLikes, l, id);
          if id == postId {
            assert l in PostLikesOf(b.postLikes, postId);
            assert n > 0;
          }
        } else {
          PostLikesOfInsert(b.postLikes, l, id);
        }
      }
    }
  }

  /** Toggling twice, with consistent counters, gives back the like rows and
      the counter the post had, and the second response reports the liked
      state the user had before. */
  lemma {:induction false} TogglePostLikeTwice(b: Board, postId: Id, user: Id, now1: Instant, now2: Instant)
    requires Valid(b) && CountersConsistent(b) && user in b.users && postId in b.posts
    ensures var t1 := TogglePostLikeSpec(b, postId, user, now1);
      && Valid(t1.board)
      && var t2 := TogglePostLikeSpec(t1.board, postId, user, now2);
      && t2.board.postLikes == b.postLikes
      && t2.board.posts[postId].likeCount == b.posts[postId].likeCount
      && t2.result.Ok? && t2.result.value.likedByCurrentUser == (PostLike(postId, user) in b.postLikes)
  {
    var l := PostLike(postId, user);
    TogglePostLikeKeepsInvariants(b, postId, user, now1);
    TogglePostLikeEffect(b, postId, user, now1);
    var t1 := TogglePostLikeSpec(b, postId, user, now1);
    TogglePostLikeEffect(t1.board, postId, user, now2);
    var n := b.posts[postId].likeCount;
    if l in b.postLikes {
      assert l in PostLikesOf(b.postLikes, postId);
      assert n > 0;
      assert b.postLikes - {l} + {l} == b.postLikes;
    } else {
      assert n >= 0;
      assert b.postLikes + {l} - {l} == b.postLikes;
    }
  }

  // ---------------------------------------------------------------------
  // Administration

  /** `softDeletePostByAdmin(postId)` */
  function SoftDeleteByAdminSpec(b: Board, postId: Id): Tx<()> {
    if !PostRepository.ExistsById(b, postId) then Tx(b, Err(PostNotFound(postId)))
    else Tx(PostRepository.SoftDeleted(b, postId), Ok(()))
  }

  method SoftDeletePostByAdmin(store: Store, postId: Id) returns (r: Result<()>)
    modifies store
    ensures Tx(store.Snapshot(), r) == SoftDeleteByAdminSpec(old(store.Snapshot()), postId)
  {
    if !PostRepository.ExistsById(store.Snapshot(), postId) {
      return Err(PostNotFound(postId));
    }
    PostRepository.SoftDeleteById(store, postId);
    return Ok(());
  }

  /** `restorePostByAdmin(postId)` */
  function RestoreByAdminSpec(b: Board, postId: Id): Tx<()> {
    if !PostRepository.ExistsById(b, postId) then Tx(b, Err(PostNotFound(postId)))
    else Tx(PostRepository.Restored(b, postId), Ok(()))
  }

  method RestorePostByAdmin(store: Store, postId: Id) returns (r: Result<()>)
    modifies store
    ensures Tx(store.Snapshot(), r) == RestoreByAdminSpec(old(store.Snapshot()), postId)
  {
    if !PostRepository.ExistsById(store.Snapshot(), postId) {
      return Err(PostNotFound(postId));
    }
    PostRepository.RestoreById(store, postId);
    return Ok(());
  }

  /** `hardDeletePostByAdmin(postId)` */
  function HardDeleteByAdminSpec(b: Board, postId: Id): Tx<()> {
    if !PostRepository.ExistsById(b, postId) then Tx(b, Err(PostNotFound(postId)))
    else PostRepository.PostsDeleted(b, {postId})
  }

  method HardDeletePostByAdmin(store: Store, postId: Id) returns (r: Result<()>)
    modifies store
    ensures Tx(store.Snapshot(), r) == HardDeleteByAdminSpec(old(store.Snapshot()), postId)
  {
    if !PostRepository.ExistsById(store.Snapshot(), postId) {
      return Err(PostNotFound(postId));
    }
    r := PostRepository.DeleteById(store, postId);
  }

  /** The three admin operations fail not-found exactly for an id with no
      row (a soft-deleted post has one) and then change nothing. Soft-delete
      and restore are idempotent, and restoring right after soft-deleting an
      active post gives back the database as it was. */
  lemma {:induction false} AdminOperations(b: Board, postId: Id)
    ensures SoftDeleteByAdminSpec(b, postId).result.Err? <==> postId !in b.posts
    ensures RestoreByAdminSpec(b, postId).result.Err? <==> postId !in b.posts
    ensures postId !in b.posts ==>
      SoftDeleteByAdminSpec(b, postId) == RestoreByAdminSpec(b, postId)
      == HardDeleteByAdminSpec(b, postId) == Tx(b, Err(PostNotFound(postId)))
    ensures var s := SoftDeleteByAdminSpec(b, postId).board;
      SoftDeleteByAdminSpec(s, postId).board == s
    ensures var r := RestoreByAdminSpec(b, postId).board;
      RestoreByAdminSpec(r, postId).board == r
    ensures postId in b.posts && !b.posts[postId].deleted ==>
      RestoreByAdminSpec(SoftDeleteByAdminSpec(b, postId).board, postId).board == b
  {
    PostRepository.SoftDeleteRestoreLaws(b, postId);
  }

  /** A hard delete removes the row, its likes and its comments, unless a
      like on one of its comments makes the database refuse; either way the
      constraints and the counters still hold. */
  lemma {:induction false} HardDeleteRemoves(b: Board, postId: Id)
    requires Valid(b) && CountersConsistent(b) && postId in b.posts
    ensures var t := HardDeleteByAdminSpec(b, postId);
      && (t.result.Ok? <==> !exists l :: l in b.commentLikes && l.comment in CommentRepository.FindByPostId(b, postId))
      && (t.result.Ok? ==>
          && postId !in t.board.posts
          && t.board.posts.Keys == b.posts.Keys - {postId}
          && PostLikesOf(t.board.postLikes, postId) == {}
          && CommentRepository.FindByPostId(t.board, postId) == {}
          && PostLikeRepository.CountByPost(t.board, postId) == 0
          && CommentRepository.CountByPostId(t.board, postId) == 0)
      && Valid(t.board) && CountersConsistent(t.board)
  {
    assert PostRepository.CommentsOfPosts(b, {postId}) == CommentRepository.FindByPostId(b, postId);
    PostRepository.PostsDeletedKeepsInvariants(b, {postId});
  }
}
