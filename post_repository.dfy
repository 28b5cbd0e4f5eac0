/** `PostRepository`: the JPQL listing, lookup and search queries over
    `post`, the two bulk updates that flip `deleted`, and the row writes the
    services go through (`save`, `deleteById`, `deleteByAuthor`). */
module PostRepository {
  import opened Common
  import opened Exceptions
  import opened UserEntity
  import opened PostEntity
  import opened Db
  import opened Persistence

  // ---------------------------------------------------------------------
  // Queries. `JOIN FETCH p.author` is an inner join: a post is fetched only
  // together with an existing author row. The count queries have no join.

  /** `LOWER(p.title) LIKE LOWER('%' || k || '%') OR LOWER(p.content) LIKE ...` */
  predicate Matches(p: Post, keyword: string) {
    Contains(Lower(p.title), Lower(keyword)) || Contains(Lower(p.content), Lower(keyword))
  }

  /** `findAllWithAuthor`: active posts. */
  function FindAllWithAuthor(b: Board): set<Id> {
    set id | id in b.posts && !b.posts[id].deleted && b.posts[id].author in b.users
  }

  /** The count query of `findAllWithAuthor`. */
  function CountAllWithAuthor(b: Board): nat {
    |set id | id in b.posts && !b.posts[id].deleted|
  }

  /** `findByIdWithAuthor(id)`: the post, when it exists and is active. */
  function FindByIdWithAuthor(b: Board, id: Id): (r: Option<Post>)
    ensures r.Some? <==> id in b.posts && !b.posts[id].deleted && b.posts[id].author in b.users
    ensures r.Some? ==> r.value == b.posts[id]
  {
    if id in b.posts && !b.posts[id].deleted && b.posts[id].author in b.users then Some(b.posts[id]) else None
  }

  /** `findByTitleContainingIgnoreCaseOrContentContainingIgnoreCaseWithAuthor` */
  function SearchWithAuthor(b: Board, keyword: string): set<Id> {
    set id | id in b.posts && !b.posts[id].deleted && b.posts[id].author in b.users && Matches(b.posts[id], keyword)
  }

  /** Its count query. */
  function CountSearch(b: Board, keyword: string): nat {
    |set id | id in b.posts && !b.posts[id].deleted && Matches(b.posts[id], keyword)|
  }

  /** `findAllForAdmin`: every post, soft-deleted ones included. */
  function FindAllForAdmin(b: Board): set<Id> {
    set id | id in b.posts && b.posts[id].author in b.users
  }

  /** `findByTitleContainingIgnoreCaseOrContentContainingIgnoreCaseForAdmin` */
  function SearchForAdmin(b: Board, keyword: string): set<Id> {
    set id | id in b.posts && b.posts[id].author in b.users && Matches(b.posts[id], keyword)
  }

  /** `findById(id)` (inherited from `JpaRepository`): no filter on `deleted`. */
  function FindById(b: Board, id: Id): (r: Option<Post>)
    ensures r.Some? <==> id in b.posts
    ensures r.Some? ==> r.value == b.posts[id]
  {
    if id in b.posts then Some(b.posts[id]) else None
  }

  /** `existsById(id)` */
  predicate ExistsById(b: Board, id: Id) {
    id in b.posts
  }

  /** The public listing is exactly the posts that are not soft-deleted, and
      its count query counts that same set. */
  lemma {:induction false} ActiveListing(b: Board)
    requires Valid(b)
    ensures forall id :: id in FindAllWithAuthor(b) <==> id in b.posts && !b.posts[id].deleted
    ensures CountAllWithAuthor(b) == |FindAllWithAuthor(b)|
  {
    forall id | id in b.posts ensures b.posts[id].author in b.users {
      assert ReferencesResolve(b);
    }
    assert (set id | id in b.posts && !b.posts[id].deleted) == FindAllWithAuthor(b);
  }

  /** The single-post lookup finds a post exactly when it exists and is not
      soft-deleted, and then it is the stored row. */
  lemma FindByIdWithAuthorIff(b: Board, id: Id)
    requires Valid(b)
    ensures FindByIdWithAuthor(b, id).Some? <==> id in b.posts && !b.posts[id].deleted
    ensures FindByIdWithAuthor(b, id).Some? ==> FindByIdWithAuthor(b, id) == FindById(b, id)
  {
  }

  /** The public search is the admin search restricted to active posts, and
      its count query counts the posts it returns. */
  lemma {:induction false} SearchIsActiveAdminSearch(b: Board, keyword: string)
    requires Valid(b)
    ensures SearchWithAuthor(b, keyword) == SearchForAdmin(b, keyword) * FindAllWithAuthor(b)
    ensures CountSearch(b, keyword) == |SearchWithAuthor(b, keyword)|
  {
    forall id | id in b.posts ensures b.posts[id].author in b.users {
      assert ReferencesResolve(b);
    }
    assert (set id | id in b.posts && !b.posts[id].deleted && Matches(b.posts[id], keyword)) == SearchWithAuthor(b, keyword);
  }

  /** The admin listing is every post; the admin search, every post that
      matches. */
  lemma AdminListing(b: Board, keyword: string)
    requires Valid(b)
    ensures FindAllForAdmin(b) == b.posts.Keys
    ensures forall id :: id in SearchForAdmin(b, keyword) <==> id in b.posts && Matches(b.posts[id], keyword)
  {
    forall id | id in b.posts ensures b.posts[id].author in b.users {
      assert ReferencesResolve(b);
    }
  }

  /** An empty keyword matches every post. */
  lemma EmptyKeywordMatches(p: Post)
    ensures Matches(p, "")
  {
    assert IsPrefix(Lower(""), Lower(p.title));
  }

  /** The match ignores ASCII case: searching for a keyword or for its
      upper-cased form selects the same posts. */
  lemma {:induction false} MatchIgnoresCase(p: Post, keyword: string)
    ensures Matches(p, keyword) <==> Matches(p, Upper(keyword))
  {
    assert Lower(Upper(keyword)) == Lower(keyword) by {
      forall i | 0 <= i < |keyword| ensures Lower(Upper(keyword))[i] == Lower(keyword)[i] {
        var c := keyword[i];
        assert Upper(keyword)[i] == AsciiUpper(c);
      }
    }
  }

  // ---------------------------------------------------------------------
  // Writes

  /** The database after `save(newPost)` on a transient post: the persist
      hook runs and the row gets the next identity value. */
  function Persisted(b: Board, p: Post, now: Instant): (r: (Id, Board))
    ensures r.0 == b.nextPostId && (IdsIssued(b) ==> r.0 !in b.posts)
    ensures r.1.posts == b.posts[r.0 := PrePersist(p, now)]
    ensures r.1 == b.(posts := r.1.posts, nextPostId := b.nextPostId + 1)
  {
    (b.nextPostId, b.(posts := b.posts[b.nextPostId := PrePersist(p, now)], nextPostId := b.nextPostId + 1))
  }

  /** `save(post)` on a transient post. */
  method Insert(store: Store, p: Post, now: Instant) returns (id: Id)
    modifies store
    ensures (id, store.Snapshot()) == Persisted(old(store.Snapshot()), p, now)
  {
    id := store.nextPostId;
    store.posts := store.posts[id := PrePersist(p, now)];
    store.nextPostId := store.nextPostId + 1;
  }

  /** Persisting a post by an existing author keeps the constraints and the
      counters: the new id is unused and no like row can name it yet. */
  lemma {:induction false} PersistKeepsInvariants(b: Board, p: Post, now: Instant)
    requires Valid(b) && CountersConsistent(b) && p.author in b.users && p.likeCount == 0
    ensures Valid(Persisted(b, p, now).1) && CountersConsistent(Persisted(b, p, now).1)
  {
    var id := b.nextPostId;
    assert PostLikesOf(b.postLikes, id) == {} by {
      forall l | l in b.postLikes ensures l.post != id { }
    }
  }

  /** `save(post)` on a managed post loaded as `loaded` and changed in
      place to `changed`: at commit the row is written through the update
      hook if it differs from what was loaded. */
  method Save(store: Store, id: Id, loaded: Post, changed: Post, now: Instant)
    modifies store
    ensures store.Snapshot() == old(store.Snapshot()).(posts := old(store.posts)[id := Flush(loaded, changed, now)])
  {
    store.posts := store.posts[id := Flush(loaded, changed, now)];
  }

  /** The database after `softDeleteById(id)`: a bulk update, so no hook. */
  function SoftDeleted(b: Board, id: Id): (r: Board)
    ensures r.posts.Keys == b.posts.Keys
    ensures id in b.posts ==> r.posts[id] == b.posts[id].(deleted := true)
    ensures forall k | k in b.posts && k != id :: r.posts[k] == b.posts[k]
    ensures r.(posts := b.posts) == b
  {
    if id in b.posts then b.(posts := b.posts[id := b.posts[id].(deleted := true)]) else b
  }

  /** The database after `restoreById(id)`. */
  function Restored(b: Board, id: Id): (r: Board)
    ensures r.posts.Keys == b.posts.Keys
    ensures id in b.posts ==> r.posts[id] == b.posts[id].(deleted := false)
    ensures forall k | k in b.posts && k != id :: r.posts[k] == b.posts[k]
    ensures r.(posts := b.posts) == b
  {
    if id in b.posts then b.(posts := b.posts[id := b.posts[id].(deleted := false)]) else b
  }

  /** `softDeleteById(id)` */
  method SoftDeleteById(store: Store, id: Id)
    modifies store
    ensures store.Snapshot() == SoftDeleted(old(store.Snapshot()), id)
  {
    if id in store.posts {
      store.posts := store.posts[id := store.posts[id].(deleted := true)];
    }
  }

  /** `restoreById(id)` */
  method RestoreById(store: Store, id: Id)
    modifies store
    ensures store.Snapshot() == Restored(old(store.Snapshot()), id)
  {
    if id in store.posts {
      store.posts := store.posts[id := store.posts[id].(deleted := false)];
    }
  }

  /** Both bulk updates are idempotent, and each undoes the other on a post
      that was in the state the other one leaves. */
  lemma {:induction false} SoftDeleteRestoreLaws(b: Board, id: Id)
    ensures SoftDeleted(SoftDeleted(b, id), id) == SoftDeleted(b, id)
    ensures Restored(Restored(b, id), id) == Restored(b, id)
    ensures id in b.posts && !b.posts[id].deleted ==> Restored(SoftDeleted(b, id), id) == b
    ensures id in b.posts && b.posts[id].deleted ==> SoftDeleted(Restored(b, id), id) == b
  {
    if id in b.posts {
      var p := b.posts[id];
      if !p.deleted {
        assert p.(deleted := true).(deleted := false) == p;
        assert b.posts[id := p] == b.posts;
      } else {
        assert p.(deleted := false).(deleted := true) == p;
        assert b.posts[id := p] == b.posts;
      }
    }
  }

  /** Neither bulk update touches a reference or a counter. */
  lemma FlagUpdatesKeepInvariants(b: Board, id: Id)
    requires Valid(b) && CountersConsistent(b)
    ensures Valid(SoftDeleted(b, id)) && CountersConsistent(SoftDeleted(b, id))
    ensures Valid(Restored(b, id)) && CountersConsistent(Restored(b, id))
  {
  }

  /** The comments whose post is in `ids`. */
  function CommentsOfPosts(b: Board, ids: set<Id>): set<Id> {
    set c | c in b.comments && b.comments[c].post in ids
  }

  /** The database after removing the posts `ids` with `em.remove`:
      - `Post.likes` (cascade ALL, orphan removal) deletes their post-likes;
      - `comment.post_id` is `ON DELETE CASCADE`, so the database deletes
        their comments;
      - `comment_likes.comment_id` declares no `ON DELETE`, and the model
        assumes the database then refuses: a like on one of those comments
        makes the delete fail, and the transaction rolls back. */
  function PostsDeleted(b: Board, ids: set<Id>): (r: Tx<()>)
    ensures r.result.Err? <==> exists l :: l in b.commentLikes && l.comment in CommentsOfPosts(b, ids)
    ensures r.result.Err? ==> r.board == b && r.result.error.DataIntegrityViolation?
    ensures r.result.Ok? ==>
      && r.board.posts.Keys == b.posts.Keys - ids
      && (forall k | k in r.board.posts :: r.board.posts[k] == b.posts[k])
      && r.board.comments.Keys == b.comments.Keys - CommentsOfPosts(b, ids)
      && (forall k | k in r.board.comments :: r.board.comments[k] == b.comments[k])
      && (forall l :: l in r.board.postLikes <==> l in b.postLikes && l.post !in ids)
      && r.board.(posts := b.posts, comments := b.comments, postLikes := b.postLikes) == b
  {
    var doomed := CommentsOfPosts(b, ids);
    if exists l :: l in b.commentLikes && l.comment in doomed then
      Tx(b, Err(DataIntegrityViolation(ForeignKeyViolation)))
    else
      Tx(b.(posts := map k | k in b.posts && k !in ids :: b.posts[k],
            comments := map k | k in b.comments && k !in doomed :: b.comments[k],
            postLikes := set l | l in b.postLikes && l.post !in ids), Ok(()))
  }

  /** Writes a successful multi-post removal into the store. */
  method RemovePosts(store: Store, ids: set<Id>) returns (r: Result<()>)
    modifies store
    ensures Tx(store.Snapshot(), r) == PostsDeleted(old(store.Snapshot()), ids)
  {
    var doomed := set c | c in store.comments && store.comments[c].post in ids;
    if exists l :: l in store.commentLikes && l.comment in doomed {
      return Err(DataIntegrityViolation(ForeignKeyViolation));
    }
    store.postLikes := set l | l in store.postLikes && l.post !in ids;
    store.comments := map k | k in store.comments && k !in doomed :: store.comments[k];
    store.posts := map k | k in store.posts && k !in ids :: store.posts[k];
    return Ok(());
  }

  /** `deleteById(id)` */
  method DeleteById(store: Store, id: Id) returns (r: Result<()>)
    modifies store
    ensures Tx(store.Snapshot(), r) == PostsDeleted(old(store.Snapshot()), {id})
  {
    r := RemovePosts(store, {id});
  }

  /** The posts written by `author`. */
  function PostsBy(b: Board, author: Id): set<Id> {
    set id | id in b.posts && b.posts[id].author == author
  }

  /** `deleteByAuthor(author)`: every post of that author, removed the same
      way as `deleteById`. */
  method DeleteByAuthor(store: Store, author: Id) returns (r: Result<()>)
    modifies store
    ensures Tx(store.Snapshot(), r) == PostsDeleted(old(store.Snapshot()), PostsBy(old(store.Snapshot()), author))
  {
    var ids := set id | id in store.posts && store.posts[id].author == author;
    r := RemovePosts(store, ids);
  }

  /** After `deleteByAuthor` succeeds, the author has no post left and every
      other author's posts are exactly the ones there were. */
  lemma DeleteByAuthorRemovesExactly(b: Board, author: Id)
    requires PostsDeleted(b, PostsBy(b, author)).result.Ok?
    ensures PostsBy(PostsDeleted(b, PostsBy(b, author)).board, author) == {}
    ensures forall id :: (id in PostsDeleted(b, PostsBy(b, author)).board.posts
      <==> id in b.posts && b.posts[id].author != author)
  {
  }

  /** A successful removal keeps the constraints and the counters: the rows
      that named a removed post went with it, and no surviving post or
      comment lost a like row. */
  lemma {:induction false} PostsDeletedKeepsInvariants(b: Board, ids: set<Id>)
    requires Valid(b) && CountersConsistent(b)
    ensures Valid(PostsDeleted(b, ids).board) && CountersConsistent(PostsDeleted(b, ids).board)
  {
    var r := PostsDeleted(b, ids);
    if r.result.Ok? {
      var a := r.board;
      forall id | id in a.posts ensures PostLikesOf(a.postLikes, id) == PostLikesOf(b.postLikes, id) { }
      forall id | id in a.comments ensures CommentLikesOf(a.commentLikes, id) == CommentLikesOf(b.commentLikes, id) { }
      assert forall l | l in a.commentLikes :: l.comment in a.comments;
    }
  }
}
