/** `CommentRepository`: the per-post and admin queries over `comment` and
    the row writes the services go through. */
module CommentRepository {
  import opened Common
  import opened UserEntity
  import opened CommentEntity
  import opened Db
  import opened Persistence

  /** `findByPostId(postId)` */
  function FindByPostId(b: Board, postId: Id): set<Id> {
    set id | id in b.comments && b.comments[id].post == postId
  }

  /** `countByPostId(postId)`: the size of that same selection. */
  function CountByPostId(b: Board, postId: Id): nat {
    |FindByPostId(b, postId)|
  }

  /** `findAllForAdmin`: `JOIN FETCH c.author JOIN FETCH c.post` is an inner
      join. */
  function FindAllForAdmin(b: Board): set<Id> {
    set id | id in b.comments && b.comments[id].author in b.users && b.comments[id].post in b.posts
  }

  /** Its count query, without the joins. */
  function CountAllForAdmin(b: Board): nat {
    |b.comments.Keys|
  }

  /** `LOWER(c.content) LIKE LOWER('%' || search || '%')` */
  predicate Matches(c: Comment, search: string) {
    Contains(Lower(c.content), Lower(search))
  }

  /** `findByContentContainingIgnoreCaseForAdmin(search)` */
  function SearchForAdmin(b: Board, search: string): set<Id> {
    set id | id in b.comments && b.comments[id].author in b.users && b.comments[id].post in b.posts
      && Matches(b.comments[id], search)
  }

  /** Its count query. */
  function CountSearchForAdmin(b: Board, search: string): nat {
    |set id | id in b.comments && Matches(b.comments[id], search)|
  }

  /** `findById(id)` (inherited from `JpaRepository`). */
  function FindById(b: Board, id: Id): (r: Option<Comment>)
    ensures r.Some? <==> id in b.comments
    ensures r.Some? ==> r.value == b.comments[id]
  {
    if id in b.comments then Some(b.comments[id]) else None
  }

  /** The admin listing returns every comment and the admin search every
      comment whose content matches; both count queries count what is
      returned. */
  lemma {:induction false} AdminQueries(b: Board, search: string)
    requires Valid(b)
    ensures FindAllForAdmin(b) == b.comments.Keys
    ensures CountAllForAdmin(b) == |FindAllForAdmin(b)|
    ensures forall id :: id in SearchForAdmin(b, search) <==> id in b.comments && Matches(b.comments[id], search)
    ensures CountSearchForAdmin(b, search) == |SearchForAdmin(b, search)|
  {
    forall id | id in b.comments ensures b.comments[id].author in b.users && b.comments[id].post in b.posts {
      assert ReferencesResolve(b);
    }
    assert (set id | id in b.comments && Matches(b.comments[id], search)) == SearchForAdmin(b, search);
  }

  /** The listings of distinct posts are disjoint, and every stored comment
      appears in the listing of its own post. */
  lemma PerPostListing(b: Board, p: Id, q: Id, id: Id)
    ensures p != q ==> FindByPostId(b, p) !! FindByPostId(b, q)
    ensures id in b.comments ==> id in FindByPostId(b, b.comments[id].post)
  {
  }

  // ---------------------------------------------------------------------
  // Writes

  /** The database after `save(newComment)` on a transient comment. */
  function Persisted(b: Board, c: Comment, now: Instant): (r: (Id, Board))
    ensures r.0 == b.nextCommentId && (IdsIssued(b) ==> r.0 !in b.comments)
    ensures r.1.comments == b.comments[r.0 := PrePersist(c, now)]
    ensures r.1 == b.(comments := r.1.comments, nextCommentId := b.nextCommentId + 1)
  {
    (b.nextCommentId, b.(comments := b.comments[b.nextCommentId := PrePersist(c, now)], nextCommentId := b.nextCommentId + 1))
  }

  /** `save(comment)` on a transient comment. */
  method Insert(store: Store, c: Comment, now: Instant) returns (id: Id)
    modifies store
    ensures (id, store.Snapshot()) == Persisted(old(store.Snapshot()), c, now)
  {
    id := store.nextCommentId;
    store.comments := store.comments[id := PrePersist(c, now)];
    store.nextCommentId := store.nextCommentId + 1;
  }

  /** Persisting a comment on an existing post by an existing author, with
      its counter at zero, keeps the constraints and the counters. */
  lemma {:induction false} PersistKeepsInvariants(b: Board, c: Comment, now: Instant)
    requires Valid(b) && CountersConsistent(b)
    requires c.post in b.posts && c.author in b.users && c.likeCount == Some(0)
    ensures Valid(Persisted(b, c, now).1) && CountersConsistent(Persisted(b, c, now).1)
  {
    var id := b.nextCommentId;
    assert CommentLikesOf(b.commentLikes, id) == {} by {
      forall l | l in b.commentLikes ensures l.comment != id { }
    }
  }

  /** Persisting a comment raises the comment count of its own post by one
      and leaves every other post's count alone. */
  lemma {:induction false} CountByPostIdAfterPersist(b: Board, c: Comment, now: Instant, postId: Id)
    requires IdsIssued(b)
    ensures CountByPostId(Persisted(b, c, now).1, postId) == CountByPostId(b, postId) + (if c.post == postId then 1 else 0)
  {
    var r := Persisted(b, c, now);
    assert r.1.comments == b.comments[r.0 := PrePersist(c, now)];
    SelectionAfterInsert(b.comments, r.1.comments, r.0, PrePersist(c, now), postId);
  }

  lemma {:induction false} SelectionAfterInsert(m: map<Id, Comment>, m': map<Id, Comment>, id: Id, c: Comment, postId: Id)
    requires id !in m && m' == m[id := c]
    ensures |set k | k in m' && m'[k].post == postId|
         == |set k | k in m && m[k].post == postId| + (if c.post == postId then 1 else 0)
  {
    var after := set k | k in m' && m'[k].post == postId;
    var before := set k | k in m && m[k].post == postId;
    if c.post == postId {
      assert after == before + {id};
    } else {
      assert after == before;
    }
  }

  /** `save(comment)` on a managed comment loaded as `loaded` and changed in
      place to `changed`. */
  method Save(store: Store, id: Id, loaded: Comment, changed: Comment, now: Instant)
    modifies store
    ensures store.Snapshot() == old(store.Snapshot()).(comments := old(store.comments)[id := Flush(loaded, changed, now)])
  {
    store.comments := store.comments[id := Flush(loaded, changed, now)];
  }

  /** The database after `em.remove` of the comments `ids`: `Comment.likes`
      (cascade ALL, orphan removal) takes their likes with them. Nothing else
      references a comment, so the removal always succeeds. */
  function CommentsDeleted(b: Board, ids: set<Id>): (r: Board)
    ensures r.comments.Keys == b.comments.Keys - ids
    ensures forall k | k in r.comments :: r.comments[k] == b.comments[k]
    ensures forall l :: l in r.commentLikes <==> l in b.commentLikes && l.comment !in ids
    ensures r.(comments := b.comments, commentLikes := b.commentLikes) == b
  {
    b.(comments := map k | k in b.comments && k !in ids :: b.comments[k],
       commentLikes := set l | l in b.commentLikes && l.comment !in ids)
  }

  /** `delete(comment)` */
  method Delete(store: Store, id: Id)
    modifies store
    ensures store.Snapshot() == CommentsDeleted(old(store.Snapshot()), {id})
  {
    store.commentLikes := set l | l in store.commentLikes && l.comment != id;
    store.comments := map k | k in store.comments && k != id :: store.comments[k];
  }

  /** The comments written by `author`. */
  function CommentsBy(b: Board, author: Id): set<Id> {
    set id | id in b.comments && b.comments[id].author == author
  }

  /** `deleteByAuthor(author)` */
  method DeleteByAuthor(store: Store, author: Id)
    modifies store
    ensures store.Snapshot() == CommentsDeleted(old(store.Snapshot()), CommentsBy(old(store.Snapshot()), author))
  {
    var ids := set id | id in store.comments && store.comments[id].author == author;
    store.commentLikes := set l | l in store.commentLikes && l.comment !in ids;
    store.comments := map k | k in store.comments && k !in ids :: store.comments[k];
  }

  /** After `deleteByAuthor` the author has no comment left, and every other
      author's comments are exactly the ones there were. */
  lemma DeleteByAuthorRemovesExactly(b: Board, author: Id)
    ensures CommentsBy(CommentsDeleted(b, CommentsBy(b, author)), author) == {}
    ensures forall id :: (id in CommentsDeleted(b, CommentsBy(b, author)).comments
      <==> id in b.comments && b.comments[id].author != author)
  {
  }

  /** Removing comments keeps the constraints and the counters. */
  lemma {:induction false} CommentsDeletedKeepsInvariants(b: Board, ids: set<Id>)
    requires Valid(b) && CountersConsistent(b)
    ensures Valid(CommentsDeleted(b, ids)) && CountersConsistent(CommentsDeleted(b, ids))
  {
    var a := CommentsDeleted(b, ids);
    forall id | id in a.comments ensures CommentLikesOf(a.commentLikes, id) == CommentLikesOf(b.commentLikes, id) { }
  }
}
