/** `PostLikeRepository`: derived queries over `post_like` and its writes. */
module PostLikeRepository {
  import opened Common
  import opened UserEntity
  import opened Db
  import opened Persistence

  /** `findByPostAndUser(post, user)` */
  function FindByPostAndUser(b: Board, post: Id, user: Id): (r: Option<PostLike>)
    ensures r.Some? <==> exists l :: l in b.postLikes && l.post == post && l.user == user
    ensures r.Some? ==> r.value in b.postLikes && r.value.post == post && r.value.user == user
  {
    if PostLike(post, user) in b.postLikes then Some(PostLike(post, user)) else None
  }

  /** `existsByPostAndUser(post, user)` */
  predicate ExistsByPostAndUser(b: Board, post: Id, user: Id) {
    PostLike(post, user) in b.postLikes
  }

  /** The existence query answers yes exactly when the finder finds a row. */
  lemma ExistsIffFound(b: Board, post: Id, user: Id)
    ensures ExistsByPostAndUser(b, post, user) <==> FindByPostAndUser(b, post, user).Some?
  {
  }

  /** `countByPost(post)`: the number of `post_like` rows of that post. */
  function CountByPost(b: Board, post: Id): nat {
    |PostLikesOf(b.postLikes, post)|
  }

  /** While the counters are consistent, the query answers the post's stored
      `likeCount`, so a reply built from either reports the same number. */
  lemma CountByPostIsStoredCounter(b: Board, post: Id)
    requires CountersConsistent(b) && post in b.posts
    ensures CountByPost(b, post) == b.posts[post].likeCount
  {
  }

  /** Saving a new like raises the count of its own post by one, deleting an
      existing like lowers it by one, and no other post's count moves. */
  lemma {:induction false} CountByPostAfterWrite(b: Board, like: PostLike, post: Id)
    ensures like !in b.postLikes ==>
      CountByPost(b.(postLikes := b.postLikes + {like}), post) == CountByPost(b, post) + (if like.post == post then 1 else 0)
    ensures like in b.postLikes ==>
      CountByPost(b.(postLikes := b.postLikes - {like}), post) == CountByPost(b, post) - (if like.post == post then 1 else 0)
  {
    if like in b.postLikes {
      PostLikesOfDelete(b.postLikes, like, post);
    } else {
      PostLikesOfInsert(b.postLikes, like, post);
    }
  }

  /** A user's existing like is one of the rows the count counts, so the
      count is positive. */
  lemma {:induction false} CountPositiveWhenLiked(b: Board, post: Id, user: Id)
    requires ExistsByPostAndUser(b, post, user)
    ensures CountByPost(b, post) > 0
  {
    assert PostLike(post, user) in PostLikesOf(b.postLikes, post);
  }

  /** `save(new PostLike(post, user))` */
  method Save(store: Store, like: PostLike)
    modifies store
    ensures store.Snapshot() == old(store.Snapshot()).(postLikes := old(store.postLikes) + {like})
  {
    store.postLikes := store.postLikes + {like};
  }

  /** `delete(like)` */
  method Delete(store: Store, like: PostLike)
    modifies store
    ensures store.Snapshot() == old(store.Snapshot()).(postLikes := old(store.postLikes) - {like})
  {
    store.postLikes := store.postLikes - {like};
  }

  /** The database after `deleteByUser(user)`: that user's likes are gone.
      The derived delete removes the rows one by one and touches no post. */
  function DeletedByUser(b: Board, user: Id): (r: Board)
    ensures forall l :: l in r.postLikes <==> l in b.postLikes && l.user != user
    ensures r.(postLikes := b.postLikes) == b
  {
    b.(postLikes := set l | l in b.postLikes && l.user != user)
  }

  /** `deleteByUser(user)` */
  method DeleteByUser(store: Store, user: Id)
    modifies store
    ensures store.Snapshot() == DeletedByUser(old(store.Snapshot()), user)
  {
    store.postLikes := set l | l in store.postLikes && l.user != user;
  }

  /** Removing a user's likes keeps the database's constraints. */
  lemma DeleteByUserKeepsValid(b: Board, user: Id)
    requires Valid(b)
    ensures Valid(DeletedByUser(b, user))
  {
  }

  /** The derived delete does not adjust `Post.likeCount`: when the counters
      were consistent and the user had liked a post, that post's counter no
      longer matches its rows afterwards. */
  lemma {:induction false} DeleteByUserLeavesCounterStale(b: Board, user: Id, post: Id)
    requires Valid(b) && CountersConsistent(b) && ExistsByPostAndUser(b, post, user)
    ensures post in DeletedByUser(b, user).posts
    ensures !CountersConsistent(DeletedByUser(b, user))
  {
    var r := DeletedByUser(b, user);
    var l := PostLike(post, user);
    assert post in b.posts;
    assert PostLikesOf(r.postLikes, post) <= PostLikesOf(b.postLikes, post) - {l};
    assert |PostLikesOf(r.postLikes, post)| < |PostLikesOf(b.postLikes, post)| by {
      SubsetCard(PostLikesOf(r.postLikes, post), PostLikesOf(b.postLikes, post) - {l});
    }
  }

  lemma SubsetCard<T>(a: set<T>, c: set<T>)
    requires a <= c
    ensures |a| <= |c|
  {
    if a != {} {
      var x :| x in a;
      SubsetCard(a - {x}, c - {x});
    }
  }
}
