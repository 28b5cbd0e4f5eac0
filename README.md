# freeboard — a verified model of the forum's core

freeboard is a Spring Boot bulletin board. Users register, log in with a JWT,
write posts, comment on them and like both. Administrators soft-delete,
restore and hard-delete posts, delete comments, and change user roles. This
project models that core in Dafny and proves what it promises.

**Database.**
- The whole database is one value, `Db.Board`. It holds the `users`, `posts` and `comments` tables and the `post_like` and `comment_likes` rows. It also holds one identity counter per table.
- `Db.Valid` states the constraints:
  - every row id was issued by its counter;
  - every foreign key resolves;
  - usernames are unique.
- `Db.CountersConsistent` states that each stored like counter equals its number of like rows.
- `Persistence.Store` is the mutable persistence context that the repositories and services update in place. A failed transaction is rolled back to its starting snapshot.

**Each service operation** (`PostService`, `CommentService`, `UserService`, `AuthController.Register`) has three parts:
- a specification function `…Spec(board, …)` that returns the new board and the result, or the exception;
- a `method` over the store whose `ensures` ties the store and result to that function;
- lemmas stating what the operation means: who may do it, what changes, what stays put, which invariants hold, and which pairs of operations undo each other.

**JPA and the database, made explicit.**
- The JPA lifecycle hooks (`@PrePersist`, `@PreUpdate`) and Hibernate's dirty check are written out. A service that saves a managed entity and then runs a query sees the stamp the automatic flush before that query set, so its response carries the new `updatedAt`.
- So are the foreign-key behaviours. `comment.post_id` and `comment.user_id` are `ON DELETE CASCADE` (their `@OnDelete`). The other foreign keys declare no `ON DELETE`, and the model assumes the database then refuses the delete (see "## Left out").
- So are the query semantics of the custom repository queries.

**The web layer.**
- The request-authorisation chain (`SecurityConfig`) is a first-match list of rules over path segments.
- The `GlobalExceptionHandler` maps each exception to a status and an `ErrorResponse` body.
- Bean Validation on the request DTOs is modelled.
- The browser-side logic is modelled: date formatting and the two pagination renderers, plus the client-side checks of the post and sign-up forms, which are compared with the server's validation.

**Where the code and the project's documentation disagree, the model follows the code:**
- `EntityNotFoundException` and `IllegalArgumentException` have no handler of their own, so they answer 500 with the server-error prefix. In particular, a non-author editing or deleting a post gets 500, while a non-author editing or deleting a comment gets 403 (`AccessDeniedException`).
- A duplicate username at `/api/auth/register` answers 400, not 409. The controller catches the service's `IllegalArgumentException` itself.
- `deleteUser` deletes only the user row. The database cascades it to the user's comments. Under the foreign-key assumption below, the database refuses the delete while the user still has posts or likes.
- Soft-deleted posts can still be liked (`findById`) and commented on. Only viewing, editing and author deletion use the active-only lookup.
- Viewing a post (a view-count increment) and toggling a like are updates of the `Post` row, so they stamp `updatedAt`.
- The administrator's comment delete does not check ownership.
- In `SecurityConfig`, three rules can never decide a request, because earlier, broader rules match first (`SecurityConfig.ShadowedRules`).

## Model

| member | source | states |
|---|---|---|
| UserEntity.ValueOf | src/main/java/com/example/freeboard/service/UserService.java:87-91 | Only the exact names `USER` and `ADMIN` give a role (case-sensitive), and the role found has that name; any other name is the exception `valueOf` throws. |
| UserEntity.Authorities | src/main/java/com/example/freeboard/entity/User.java:46-51 | A user has a single authority: `ROLE_` followed by the role's name. |
| UserEntity.HasRoleIff | src/main/java/com/example/freeboard/entity/User.java:46-51 | The authority check `hasRole(r)` holds exactly for users whose stored role is `r`. |
| UserEntity.Flags | src/main/java/com/example/freeboard/entity/User.java:63-81 | No account is ever expired, locked, credential-expired or disabled. |
| UserEntity.SetEncodedPassword | src/main/java/com/example/freeboard/entity/User.java:86-88 | The stored password becomes the encoder's output for the raw password; username, role and creation time are unchanged. |
| PostEntity.NewPost | src/main/java/com/example/freeboard/entity/Post.java:23-45 | A new post has the given title, content and author, zero views, zero likes, is not deleted and has no timestamps yet. |
| PostEntity.PrePersist | src/main/java/com/example/freeboard/entity/Post.java:47-51 | The insert hook sets `createdAt` to now and forces `deleted` to false, and changes nothing else. |
| PostEntity.PreUpdate | src/main/java/com/example/freeboard/entity/Post.java:53-56 | The update hook sets `updatedAt` to now and changes nothing else. |
| PostEntity.Flush | src/main/java/com/example/freeboard/entity/Post.java:53-56 | The dirty check keeps every value the code set. Only `updatedAt` can differ from it, only on a changed row, and a changed row is always stamped with the flush time. |
| PostEntity.FlushSettles | src/main/java/com/example/freeboard/entity/Post.java:53-56 | A flushed post that has not changed since is clean: a second flush at any later time stamps nothing. |
| CommentEntity.NewComment | src/main/java/com/example/freeboard/entity/Comment.java:27-45 | A new comment has the given post, author and content, a like counter of 0 and no timestamps yet. |
| CommentEntity.PrePersist | src/main/java/com/example/freeboard/entity/Comment.java:50-53 | The insert hook sets `createdAt` to now and nothing else. |
| CommentEntity.PreUpdate | src/main/java/com/example/freeboard/entity/Comment.java:55-58 | The update hook sets `updatedAt` to now and nothing else. |
| CommentEntity.Flush | src/main/java/com/example/freeboard/entity/Comment.java:55-58 | The dirty check keeps every value the code set. Only `updatedAt` can differ from it, only on a changed row, and a changed row is always stamped with the flush time. |
| CommentEntity.FlushSettles | src/main/java/com/example/freeboard/entity/Comment.java:55-58 | A flushed comment that has not changed since is clean: a second flush at any later time stamps nothing. |
| Db.EmptyIsValid | src/main/java/com/example/freeboard/entity/Post.java:29-31 | The empty schema satisfies every constraint and every counter matches its like rows. |
| Db.PostLikesOfInsert | src/main/java/com/example/freeboard/entity/Post.java:41-42 | Inserting a new post-like adds one to its own post's like rows and none to any other post's. |
| Db.PostLikesOfDelete | src/main/java/com/example/freeboard/entity/Post.java:41-42 | Deleting an existing post-like removes one from its own post's like rows and none from any other post's. |
| Db.CommentLikesOfInsert | src/main/java/com/example/freeboard/entity/Comment.java:47-48 | Inserting a new comment-like adds one to its own comment's like rows and none to any other comment's. |
| Db.CommentLikesOfDelete | src/main/java/com/example/freeboard/entity/Comment.java:47-48 | Deleting an existing comment-like removes one from its own comment's like rows and none from any other comment's. |
| Db.FindUserByUsername | src/main/java/com/example/freeboard/service/UserService.java:48-50 | Finds a user exactly when some user has that username, and then returns that user's id. |
| Persistence.Store.constructor | src/main/java/com/example/freeboard/entity/Post.java:23-45 | A new store holds the empty schema. |
| Persistence.Store.Rollback | src/main/java/com/example/freeboard/service/CommentService.java:67-88 | A rollback returns every table and identity counter to the state the transaction started from. |
| PostLikeRepository.FindByPostAndUser | src/main/java/com/example/freeboard/repository/PostLikeRepository.java:16 | Finds a row exactly when this user has liked this post, and returns that row. |
| PostLikeRepository.ExistsIffFound | src/main/java/com/example/freeboard/repository/PostLikeRepository.java:16-18 | The existence query is true exactly when the finder finds a row. |
| PostLikeRepository.CountByPostIsStoredCounter | src/main/java/com/example/freeboard/repository/PostLikeRepository.java:20 | While the counters are consistent, `countByPost` answers the post's stored `likeCount`. |
| PostLikeRepository.CountByPostAfterWrite | src/main/java/com/example/freeboard/repository/PostLikeRepository.java:20 | Saving a new like raises its own post's count by one, and deleting an existing like lowers it by one. No other post's count moves. |
| PostLikeRepository.CountPositiveWhenLiked | src/main/java/com/example/freeboard/repository/PostLikeRepository.java:18-20 | If a like by some user exists, the post's count is positive. |
| PostLikeRepository.Save | src/main/java/com/example/freeboard/service/PostService.java:174-177 | Saving a like adds exactly that row. |
| PostLikeRepository.Delete | src/main/java/com/example/freeboard/service/PostService.java:170-171 | Deleting a like removes exactly that row. |
| PostLikeRepository.DeletedByUser | src/main/java/com/example/freeboard/repository/PostLikeRepository.java:23-25 | After the derived delete, exactly the other users' likes remain, and no other table changes. |
| PostLikeRepository.DeleteByUser | src/main/java/com/example/freeboard/repository/PostLikeRepository.java:23-25 | The store afterwards is the derived-delete result. |
| PostLikeRepository.DeleteByUserKeepsValid | src/main/java/com/example/freeboard/repository/PostLikeRepository.java:23-25 | The derived delete keeps the database constraints. |
| PostLikeRepository.DeleteByUserLeavesCounterStale | src/main/java/com/example/freeboard/repository/PostLikeRepository.java:23-25 | The derived delete does not adjust `likeCount`, so a post the user had liked keeps a stale counter. |
| CommentLikeRepository.FindByCommentAndUser | src/main/java/com/example/freeboard/repository/CommentLikeRepository.java:17 | Finds a row exactly when this user has liked this comment, and returns that row. |
| CommentLikeRepository.ExistsIffFound | src/main/java/com/example/freeboard/repository/CommentLikeRepository.java:17-20 | The existence query is true exactly when the finder finds a row. |
| CommentLikeRepository.Inserted | src/main/java/com/example/freeboard/entity/CommentLike.java:15 | Inserting a duplicate (comment, user) pair breaks the unique constraint and changes nothing; any other pair is added. |
| CommentLikeRepository.Save | src/main/java/com/example/freeboard/service/CommentService.java:78-81 | Saving a like behaves as the constrained insert does. |
| CommentLikeRepository.InsertCountsOne | src/main/java/com/example/freeboard/entity/CommentLike.java:15 | An insert adds at most one to a comment's like rows: one for a new like on that comment, none otherwise. |
| CommentLikeRepository.Delete | src/main/java/com/example/freeboard/service/CommentService.java:74-75 | Deleting a like removes exactly that row. |
| CommentLikeRepository.DeletedByUser | src/main/java/com/example/freeboard/repository/CommentLikeRepository.java:23-25 | After the derived delete, exactly the other users' comment likes remain. |
| CommentLikeRepository.DeleteByUser | src/main/java/com/example/freeboard/repository/CommentLikeRepository.java:23-25 | The store afterwards is the derived-delete result. |
| CommentLikeRepository.DeleteByUserRemovesExactly | src/main/java/com/example/freeboard/repository/CommentLikeRepository.java:23-25 | Afterwards that user has no likes left, and every other user's likes are exactly as before. |
| CommentLikeRepository.DeleteByUserKeepsValid | src/main/java/com/example/freeboard/repository/CommentLikeRepository.java:23-25 | The derived delete keeps the database constraints. |
| PostRepository.FindByIdWithAuthor | src/main/java/com/example/freeboard/repository/PostRepository.java:26-27 | Finds a post exactly when it exists and is not soft-deleted, and returns the stored row. |
| PostRepository.FindById | src/main/java/com/example/freeboard/service/PostService.java:165-166 | The inherited `findById` finds any existing post, soft-deleted ones included. |
| PostRepository.ActiveListing | src/main/java/com/example/freeboard/repository/PostRepository.java:21-23 | The public listing is exactly the posts that are not soft-deleted, and its count query counts the same set. |
| PostRepository.FindByIdWithAuthorIff | src/main/java/com/example/freeboard/repository/PostRepository.java:26-27 | The single-post lookup succeeds exactly for an active post, and then returns the stored row. |
| PostRepository.SearchIsActiveAdminSearch | src/main/java/com/example/freeboard/repository/PostRepository.java:30-40 | The public search is the admin search restricted to active posts, and its count query counts what it returns. |
| PostRepository.AdminListing | src/main/java/com/example/freeboard/repository/PostRepository.java:35-40 | The admin listing holds every post; the admin search holds every post that matches. |
| PostRepository.EmptyKeywordMatches | src/main/java/com/example/freeboard/repository/PostRepository.java:30 | An empty keyword matches every post. |
| PostRepository.MatchIgnoresCase | src/main/java/com/example/freeboard/repository/PostRepository.java:30 | A keyword and its upper-cased form select the same posts. |
| PostRepository.Persisted | src/main/java/com/example/freeboard/service/PostService.java:112 | Saving a new post runs the insert hook, stores the post under the next identity value and advances that counter. |
| PostRepository.Insert | src/main/java/com/example/freeboard/service/PostService.java:112 | The store afterwards is the insert result, and the returned id is the new row's. |
| PostRepository.PersistKeepsInvariants | src/main/java/com/example/freeboard/service/PostService.java:106-123 | Inserting a post by an existing author keeps the constraints and the counters. |
| PostRepository.Save | src/main/java/com/example/freeboard/service/PostService.java:62 | Saving a managed post stores the flushed row, so the update hook runs only if the row changed. |
| PostRepository.SoftDeleted | src/main/java/com/example/freeboard/repository/PostRepository.java:42-44 | The bulk soft delete sets `deleted` on that post only, without running the update hook. |
| PostRepository.Restored | src/main/java/com/example/freeboard/repository/PostRepository.java:46-48 | The bulk restore clears `deleted` on that post only, without running the update hook. |
| PostRepository.SoftDeleteById | src/main/java/com/example/freeboard/repository/PostRepository.java:42-44 | The store afterwards is the soft-delete result. |
| PostRepository.RestoreById | src/main/java/com/example/freeboard/repository/PostRepository.java:46-48 | The store afterwards is the restore result. |
| PostRepository.SoftDeleteRestoreLaws | src/main/java/com/example/freeboard/repository/PostRepository.java:42-48 | Both bulk updates are idempotent, and each undoes the other. |
| PostRepository.FlagUpdatesKeepInvariants | src/main/java/com/example/freeboard/repository/PostRepository.java:42-48 | Neither bulk update breaks a constraint or a counter. |
| PostRepository.PostsDeleted | src/main/java/com/example/freeboard/entity/Comment.java:27-31 | A hard delete removes the posts, their likes and their comments. It fails with a data-integrity violation and changes nothing when a like on one of those comments blocks it. |
| PostRepository.RemovePosts | src/main/java/com/example/freeboard/service/PostService.java:235 | Writes the removal of those posts, their likes and their comments into the store. |
| PostRepository.DeleteById | src/main/java/com/example/freeboard/service/PostService.java:230-236 | The store and the result are those of the hard delete of that one post. |
| PostRepository.DeleteByAuthor | src/main/java/com/example/freeboard/repository/PostRepository.java:51-53 | The store and the result are those of the hard delete of every post by that author. |
| PostRepository.DeleteByAuthorRemovesExactly | src/main/java/com/example/freeboard/repository/PostRepository.java:51-53 | On success the author has no post left, and every other author's posts are exactly as before. |
| PostRepository.PostsDeletedKeepsInvariants | src/main/java/com/example/freeboard/repository/PostRepository.java:51-53 | A hard delete keeps the constraints and the counters. |
| CommentRepository.FindById | src/main/java/com/example/freeboard/service/CommentService.java:69-70 | Finds a comment exactly when its row exists. |
| CommentRepository.AdminQueries | src/main/java/com/example/freeboard/repository/CommentRepository.java:24-30 | Under the constraints, the admin listing is every comment and the admin search every matching comment (the inner joins drop nothing), and each count query counts what its query returns. |
| CommentRepository.PerPostListing | src/main/java/com/example/freeboard/repository/CommentRepository.java:19 | The listings of two different posts are disjoint, and every stored comment appears in the listing of its own post. |
| CommentRepository.Persisted | src/main/java/com/example/freeboard/service/CommentService.java:64 | Saving a new comment runs the insert hook and stores it under the next identity value. |
| CommentRepository.Insert | src/main/java/com/example/freeboard/service/CommentService.java:64 | The store afterwards is the insert result, and the returned id is the new row's. |
| CommentRepository.PersistKeepsInvariants | src/main/java/com/example/freeboard/service/CommentService.java:54-65 | Inserting a comment on an existing post, by an existing author, with a zero counter, keeps the constraints and the counters. |
| CommentRepository.CountByPostIdAfterPersist | src/main/java/com/example/freeboard/repository/CommentRepository.java:21 | Persisting a comment raises `countByPostId` of its own post by one and leaves every other post's count alone. |
| CommentRepository.Save | src/main/java/com/example/freeboard/service/CommentService.java:99 | Saving a managed comment stores the flushed row. |
| CommentRepository.CommentsDeleted | src/main/java/com/example/freeboard/entity/Comment.java:47-48 | Deleting comments removes them and their likes, and changes nothing else. |
| CommentRepository.Delete | src/main/java/com/example/freeboard/service/CommentService.java:113 | The store afterwards is the removal of that comment. |
| CommentRepository.DeleteByAuthor | src/main/java/com/example/freeboard/repository/CommentRepository.java:34-35 | The store afterwards is the removal of every comment by that author. |
| CommentRepository.DeleteByAuthorRemovesExactly | src/main/java/com/example/freeboard/repository/CommentRepository.java:34-35 | Afterwards the author has no comment left, and every other author's comments are exactly as before. |
| CommentRepository.CommentsDeletedKeepsInvariants | src/main/java/com/example/freeboard/repository/CommentRepository.java:34-35 | Removing comments keeps the constraints and the counters. |
| PostResponse.FromEntityForAdmin | src/main/java/com/example/freeboard/dto/PostResponseDto.java:27-41 | The author's name is used, or "탈퇴한 사용자" when there is no author. The counts are the ones passed in, the deleted flag is the post's, and the liked flag is false. |
| CommentResponse.WithLikeCount | src/main/java/com/example/freeboard/dto/CommentResponseDto.java:26-34 | The DTO carries the given count and liked flag, plus the comment's content, author name and timestamps. |
| CommentResponse.FromComment | src/main/java/com/example/freeboard/dto/CommentResponseDto.java:37-45 | The count is the entity's counter, or 0 when it is NULL; otherwise the DTO equals the three-argument constructor's. |
| AdminCommentResponse.FromEntity | src/main/java/com/example/freeboard/dto/AdminCommentResponseDto.java:19-28 | Falls back to "탈퇴한 사용자" without an author. Without a post it falls back to "삭제된 게시글" and a null post id. |
| PostService.GetAllPostsContents | src/main/java/com/example/freeboard/service/PostService.java:34-55 | The public listing is exactly the active posts (those matching a keyword with text, when one is given). Each like count is the number of like rows. |
| PostService.GetAllPostsForAdminContents | src/main/java/com/example/freeboard/service/PostService.java:199-212 | The admin listing holds every post, soft-deleted ones flagged, under its author's name. On an active post it agrees with the public summary. |
| PostService.GetPostById | src/main/java/com/example/freeboard/service/PostService.java:57-84 | Rewrites the store in place so that the new store and the result equal `GetPostByIdSpec` of the old store, including every error path. `PostService.GetPostByIdCountsView` says what that means. |
| PostService.GetPostByIdCountsView | src/main/java/com/example/freeboard/service/PostService.java:57-84 | Viewing succeeds exactly for an active post. The view count then grows by one and `updatedAt` is stamped, and nothing else changes. The reply reports the new count, the new `updatedAt` (the automatic flush before the count queries has run the hook), the like count and the viewer's like. Otherwise viewing fails not-found and changes nothing. |
| PostService.GetPostByIdKeepsInvariants | src/main/java/com/example/freeboard/service/PostService.java:57-84 | Viewing keeps the constraints and the counters. |
| PostService.NoViewCountIsViewWithoutEffect | src/main/java/com/example/freeboard/service/PostService.java:87-104 | The non-counting view fails exactly when the counting view does. Otherwise it reports the same post with one view fewer, the stored `updatedAt` and no liked flag. |
| PostService.CreatePost | src/main/java/com/example/freeboard/service/PostService.java:106-123 | Rewrites the store in place so that the new store and the result equal `CreatePostSpec` of the old store, including every error path. `PostService.CreatePostAdds` says what that means. |
| PostService.CreatePostAdds | src/main/java/com/example/freeboard/service/PostService.java:106-123 | The new post gets a fresh id and is active, with the given title, content and author and zero views and likes. No other post changes, and the invariants hold. |
| PostService.UpdatePost | src/main/java/com/example/freeboard/service/PostService.java:125-150 | Rewrites the store in place so that the new store and the result equal `UpdatePostSpec` of the old store, including every error path. `PostService.UpdatePostAuthorOnly` says what that means. |
| PostService.UpdatePostAuthorOnly | src/main/java/com/example/freeboard/service/PostService.java:125-150 | A missing or soft-deleted post fails not-found, and a non-author's edit fails with an illegal argument; neither changes anything. The author's edit replaces title and content only. The reply shows them with the stored `updatedAt`, which is the new stamp whenever the edit changed something. |
| PostService.DeletePost | src/main/java/com/example/freeboard/service/PostService.java:152-161 | Rewrites the store in place so that the new store and the result equal `DeletePostSpec` of the old store, including every error path. `PostService.DeletePostSoftDeletes` says what that means. |
| PostService.DeletePostSoftDeletes | src/main/java/com/example/freeboard/service/PostService.java:152-161 | Only the author can delete, and deleting only soft-deletes. Rows, likes and comments stay, and a second delete fails not-found. |
| PostService.TogglePostLike | src/main/java/com/example/freeboard/service/PostService.java:163-196 | Rewrites the store in place so that the new store and the result equal `TogglePostLikeSpec` of the old store, including every error path. `PostService.TogglePostLikeEffect` says what that means. |
| PostService.TogglePostLikeEffect | src/main/java/com/example/freeboard/service/PostService.java:163-196 | An existing like is removed and the counter drops to max(0, n-1); a missing like is added and the counter grows by one. The flag reports which happened, and an unknown post fails not-found. The reply's `updatedAt` is the stored one, stamped whenever the counter moved. |
| PostService.TogglePostLikeKeepsInvariants | src/main/java/com/example/freeboard/service/PostService.java:163-196 | A toggle keeps every counter equal to its like rows, and keeps the constraints. |
| PostService.TogglePostLikeTwice | src/main/java/com/example/freeboard/service/PostService.java:163-196 | Toggling twice restores the like rows and the counter, and the second reply shows the original liked state. |
| PostService.SoftDeletePostByAdmin | src/main/java/com/example/freeboard/service/PostService.java:214-220 | Rewrites the store in place so that the new store and the result equal `SoftDeleteByAdminSpec` of the old store, including every error path. `PostService.AdminOperations` says what that means. |
| PostService.RestorePostByAdmin | src/main/java/com/example/freeboard/service/PostService.java:222-228 | Rewrites the store in place so that the new store and the result equal `RestoreByAdminSpec` of the old store, including every error path. `PostService.AdminOperations` says what that means. |
| PostService.HardDeletePostByAdmin | src/main/java/com/example/freeboard/service/PostService.java:230-236 | Rewrites the store in place so that the new store and the result equal `HardDeleteByAdminSpec` of the old store, including every error path. `PostService.HardDeleteRemoves` says what that means. |
| PostService.AdminOperations | src/main/java/com/example/freeboard/service/PostService.java:214-236 | The admin operations fail not-found exactly for an id with no row. Soft delete and restore are idempotent, and a restore after a soft delete gives the database back. |
| PostService.HardDeleteRemoves | src/main/java/com/example/freeboard/service/PostService.java:230-236 | A hard delete removes the post, its likes and its comments unless a comment's like blocks it, and then both count queries answer 0 for that post. Either way the invariants hold. |
| CommentService.GetCommentsByPostIdContents | src/main/java/com/example/freeboard/service/CommentService.java:40-52 | The listing is exactly the post's comments. Anonymous viewers are never shown as liking, a NULL counter shows as 0, and consistent counters show the number of like rows. |
| CommentService.CommentCountIsListingSize | src/main/java/com/example/freeboard/repository/CommentRepository.java:19-21 | The comment count a post reply carries equals the number of entries in that post's comment listing, whoever asks. |
| CommentService.GetAllCommentsForAdminContents | src/main/java/com/example/freeboard/service/CommentService.java:124-133 | With no search text, the admin listing holds every comment; with text, every comment that contains it, ignoring case. No fallback name appears. |
| CommentService.CreateComment | src/main/java/com/example/freeboard/service/CommentService.java:54-65 | Rewrites the store in place so that the new store and the result equal `CreateCommentSpec` of the old store, including every error path. `CommentService.CreateCommentAdds` says what that means. |
| CommentService.CreateCommentAdds | src/main/java/com/example/freeboard/service/CommentService.java:54-65 | Creating fails not-found only for a post with no row; soft-deleted posts accept comments. On success a fresh comment with a zero counter is added and the invariants hold. |
| CommentService.UpdateComment | src/main/java/com/example/freeboard/service/CommentService.java:90-103 | Rewrites the store in place so that the new store and the result equal `UpdateCommentSpec` of the old store, including every error path. A NULL counter makes it roll back to the starting state. `CommentService.UpdateCommentAuthorOnly` says what that means. |
| CommentService.UpdateCommentAuthorOnly | src/main/java/com/example/freeboard/service/CommentService.java:90-103 | A missing comment fails not-found and a non-author's edit gets access denied; neither changes anything. The author's edit replaces only the content. The reply shows it with the stored `updatedAt`, which is the new stamp whenever the content changed. |
| CommentService.DeleteComment | src/main/java/com/example/freeboard/service/CommentService.java:105-114 | Rewrites the store in place so that the new store and the result equal `DeleteCommentSpec` of the old store, including every error path. `CommentService.DeleteCommentRules` says what that means. |
| CommentService.DeleteCommentAsAdmin | src/main/java/com/example/freeboard/service/CommentService.java:116-122 | Rewrites the store in place so that the new store and the result equal `DeleteCommentAsAdminSpec` of the old store, including every error path. `CommentService.DeleteCommentRules` says what that means. |
| CommentService.DeleteCommentRules | src/main/java/com/example/freeboard/service/CommentService.java:105-122 | Both deletes remove the comment and its likes. Only the author's delete checks ownership, not-found means a missing id, and a failure changes nothing. |
| CommentService.ToggleCommentLike | src/main/java/com/example/freeboard/service/CommentService.java:67-88 | Rewrites the store in place so that the new store and the result equal `ToggleCommentLikeSpec` of the old store, including every error path. A NULL counter makes it roll back to the starting state. `CommentService.ToggleCommentLikeEffect` says what that means. |
| CommentService.ToggleCommentLikeEffect | src/main/java/com/example/freeboard/service/CommentService.java:67-88 | An unknown comment fails not-found and a NULL counter fails with a null pointer. Otherwise an existing like is removed and the counter drops to max(0, n-1), or a new like is added and the counter grows by one. The reply's `updatedAt` is the stored one, stamped whenever the counter moved. |
| CommentService.ToggleCommentLikeKeepsInvariants | src/main/java/com/example/freeboard/service/CommentService.java:67-88 | With consistent counters a toggle never meets NULL, and it keeps every counter equal to its like rows. |
| CommentService.ToggleCommentLikeTwice | src/main/java/com/example/freeboard/service/CommentService.java:67-88 | Toggling twice restores the like rows and the counter, and the second reply shows the original liked state. |
| UserService.RegisterUser | src/main/java/com/example/freeboard/service/UserService.java:33-45 | Rewrites the store in place so that the new store and the result equal `RegisterUserSpec` of the old store, including every error path. `UserService.RegisterUserRules` says what that means. |
| UserService.RegisterUserRules | src/main/java/com/example/freeboard/service/UserService.java:33-45 | A taken username is refused with an illegal argument. A free one adds exactly one USER with the encoded password under a fresh id, and the invariants hold. |
| UserService.ChangePassword | src/main/java/com/example/freeboard/service/UserService.java:52-58 | Rewrites the store in place so that the new store and the result equal `ChangePasswordSpec` of the old store, including every error path. `UserService.ChangePasswordRules` says what that means. |
| UserService.ChangePasswordRules | src/main/java/com/example/freeboard/service/UserService.java:52-58 | An unknown username fails with an illegal argument. Otherwise only that user's password changes, to the encoded new one. |
| UserService.DeleteUser | src/main/java/com/example/freeboard/service/UserService.java:66-71 | Rewrites the store in place so that the new store and the result equal `DeleteUserSpec` of the old store, including every error path. `UserService.DeleteUserRules` says what that means. |
| UserService.DeleteUserRules | src/main/java/com/example/freeboard/service/UserService.java:66-71 | An unknown id fails not-found. Posts or likes, or likes on the user's comments, make the database refuse with `DataIntegrityViolation(ForeignKeyViolation)` and leave the store as it was. Otherwise the user and their comments go, nothing else changes, and the invariants hold. |
| UserService.UpdateUserRole | src/main/java/com/example/freeboard/service/UserService.java:81-97 | Rewrites the store in place so that the new store and the result equal `UpdateUserRoleSpec` of the old store, including every error path. `UserService.UpdateUserRoleRules` says what that means. |
| UserService.UpdateUserRoleRules | src/main/java/com/example/freeboard/service/UserService.java:81-97 | An unknown id fails not-found; a name that is not a role, in any case, fails naming it. Otherwise only that user's role changes, to the upper-cased name. |
| UserService.LowerCaseAdminAccepted | src/main/java/com/example/freeboard/service/UserService.java:87-96 | "admin" makes a user an administrator. |
| SecurityConfig.FirstMatch | src/main/java/com/example/freeboard/security/SecurityConfig.java:57-91 | Returns the first matching rule from the given index on, or nothing when no rule there matches. |
| SecurityConfig.StaticResourcesPermitted | src/main/java/com/example/freeboard/security/SecurityConfig.java:59-67 | For any method, the root, `*.html`, `/css/**`, `/js/**`, `/img/**`, `/static/**` and `/favicon.ico` are open to anyone. |
| SecurityConfig.AuthEndpointsPermitted | src/main/java/com/example/freeboard/security/SecurityConfig.java:70 | Every request under `/api/auth` is open to anyone. |
| SecurityConfig.PublicReads | src/main/java/com/example/freeboard/security/SecurityConfig.java:71 | Every GET of `/api/posts` or anything under it is open to anyone. |
| SecurityConfig.AdminArea | src/main/java/com/example/freeboard/security/SecurityConfig.java:75 | Every request under `/api/admin` needs ROLE_ADMIN, which exactly the administrators hold. |
| SecurityConfig.PostWritesAuthenticated | src/main/java/com/example/freeboard/security/SecurityConfig.java:79-82 | Creating or liking a post, and any PUT or DELETE under `/api/posts`, needs an authenticated caller. |
| SecurityConfig.CommentWritesAuthenticated | src/main/java/com/example/freeboard/security/SecurityConfig.java:85-88 | Creating, liking, editing and deleting comments needs an authenticated caller. |
| SecurityConfig.ShadowedRules | src/main/java/com/example/freeboard/security/SecurityConfig.java:72 | The comment-read rule and the comment edit and delete rules (lines 87-88) never decide a request, because broader rules before them always match first. |
| SecurityConfig.FallbackAuthenticated | src/main/java/com/example/freeboard/security/SecurityConfig.java:91 | A request that no rule matches needs an authenticated caller. |
| AuthController.RegisterOutcome | src/main/java/com/example/freeboard/controller/AuthController.java:43-56 | Success answers 201. An IllegalArgumentException answers 400 with its own message. Any other exception answers 500 with the fixed message. |
| AuthController.Register | src/main/java/com/example/freeboard/controller/AuthController.java:41-57 | Rewrites the store in place so that the new store and the result equal `RegisterSpec` of the old store, including every error path. `AuthController.RegisterRules` says what that means. |
| AuthController.RegisterRules | src/main/java/com/example/freeboard/controller/AuthController.java:41-57 | An invalid body never reaches the service. A taken username answers 400 with the service's message, not 409. A free one answers 201 and adds a user. |
| AuthController.LoginRole | src/main/java/com/example/freeboard/controller/AuthController.java:80-88 | An authority without the `ROLE_` prefix passes through unchanged. |
| AuthController.LoginRoleStripsPrefix | src/main/java/com/example/freeboard/controller/AuthController.java:80-88 | The role reported for `ROLE_x` is `x`; with no authority it is `USER`. |
| AuthController.LoginRules | src/main/java/com/example/freeboard/controller/AuthController.java:64-95 | Login succeeds exactly for a known user whose password matches. It then reports that username, the role name and token type "Bearer"; every failure is the same bad-credentials error. |
| AuthController.MeRules | src/main/java/com/example/freeboard/controller/AuthController.java:103-118 | An anonymous call fails with a null pointer. An unknown name answers 404. Otherwise the reply holds the user's id, name, role name and creation time. |
| ErrorResponses.ReasonPhrase | src/main/java/com/example/freeboard/exception/ErrorResponse.java:24 | A reason phrase exists exactly for the statuses the application uses, and it is never empty. |
| ErrorResponses.NewErrorResponse | src/main/java/com/example/freeboard/exception/ErrorResponse.java:21-27 | The four-argument constructor copies timestamp, status, message and path, sets `error` to the reason phrase and leaves `errors` null. |
| ErrorResponses.NewErrorResponseWithErrors | src/main/java/com/example/freeboard/exception/ErrorResponse.java:29-32 | The five-argument constructor equals the four-argument one plus the given errors map. |
| ErrorResponses.JsonFields | src/main/java/com/example/freeboard/exception/ErrorResponse.java:12 | The serialised body has the five fixed keys, and `errors` only when it is not null. |
| GlobalExceptionHandler.CollectFieldErrors | src/main/java/com/example/freeboard/exception/GlobalExceptionHandler.java:83-85 | The forEach loop builds the same map as the recursive definition. |
| GlobalExceptionHandler.FieldErrorMapLastWins | src/main/java/com/example/freeboard/exception/GlobalExceptionHandler.java:83-85 | The map's keys are exactly the rejected fields, and each holds the message of that field's last error. |
| GlobalExceptionHandler.Handle | src/main/java/com/example/freeboard/exception/GlobalExceptionHandler.java:21-108 | The response status equals the body's status, and `error` is its reason phrase. Timestamp and path are the clock and `uri=...`; `errors` is present exactly for a validation failure. |
| GlobalExceptionHandler.HandlerStatuses | src/main/java/com/example/freeboard/exception/GlobalExceptionHandler.java:21-108 | Statuses are 400, 401, 403, 404, 409 and 500. 404 and 409 carry the raw message. 500 covers EntityNotFound, IllegalArgument, IllegalState, NullPointer and the rest, with the server-error prefix. |
| GlobalExceptionHandler.ValidationFailureBody | src/main/java/com/example/freeboard/exception/GlobalExceptionHandler.java:81-95 | A validation failure answers 400 with "유효성 검사 실패" and each rejected field's last message. |
| GlobalExceptionHandler.HandledJsonFields | src/main/java/com/example/freeboard/exception/GlobalExceptionHandler.java:81-95 | Only a validation failure's body carries an `errors` key. |
| RequestValidation.FieldViolations | src/main/java/com/example/freeboard/dto/PostCreateRequest.java:11-16 | A field gets the blank error exactly when it is null or Java-blank, and the size error exactly when its length is out of bounds. |
| RequestValidation.PostCreateAccepted | src/main/java/com/example/freeboard/dto/PostCreateRequest.java:11-16 | A post request passes exactly when title and content are present, not blank, and within 255 and 65535 characters. |
| RequestValidation.PostCreateMissingTitle | src/main/java/com/example/freeboard/dto/PostCreateRequest.java:11 | A null or whitespace-only title is reported as required. |
| RequestValidation.RegisterAccepted | src/main/java/com/example/freeboard/dto/RegisterRequest.java:11-16 | A registration passes exactly when the username is non-blank with 2 to 20 characters and the password is non-blank with at least 2. |
| RequestValidation.RegisterUsernameExamples | src/main/java/com/example/freeboard/dto/RegisterRequest.java:11-12 | A one-character username breaks only the size rule, and two spaces break only the blank rule. |
| RequestValidation.CommentUpdateAccepted | src/main/java/com/example/freeboard/dto/CommentUpdateRequest.java:11-12 | A comment edit passes exactly when its content is present, not blank, and at most 1000 characters. |
| RequestValidation.Validated | src/main/java/com/example/freeboard/controller/AuthController.java:42 | A body reaches the handler exactly when it has no violations; otherwise the violations are carried in a validation exception. |
| Utils.FormatDateTimeLayout | src/main/resources/static/js/utils.js:10-15 | For a four-digit year the result is `YYYY-MM-DD HH:MM`. Each field reads back as the year, the month counted from 1, the day, the hour and the minute. |
| Utils.FormatDateTimeEmpty | src/main/resources/static/js/utils.js:9 | The result is empty exactly for a falsy date. |
| Utils.TwoDigitsReadBack | src/main/resources/static/js/utils.js:11-14 | Zero-padding a number below 100 gives two digits that read back as the number. |
| Utils.RenderPagination | src/main/resources/static/js/utils.js:41-100 | The loop leaves exactly the elements of the pagination specification in the container. |
| Utils.WindowShape | src/main/resources/static/js/utils.js:45-51 | The window holds min(5, totalPages) consecutive real pages, including the current page whenever it is one. |
| Utils.PaginationShape | src/main/resources/static/js/utils.js:71-99 | Previous is disabled exactly on the first page and otherwise loads the page before; next likewise on the last page. The current page is a span, and every other page links to itself with the keyword. |
| Utils.FewPagesEmpty | src/main/resources/static/js/utils.js:42-43 | With at most one page the container is left empty. |
| MainPagination.RenderPagination | src/main/resources/static/js/main.js:852-885 | A missing container is left alone. Otherwise the loop leaves exactly the specified buttons. |
| MainPagination.ButtonsShape | src/main/resources/static/js/main.js:859-884 | Previous exists exactly when not on the first page and loads the page before. Every page gets a button labelled from 1, only the current one active. Next exists exactly when not on the last page and loads the page after. |
| MainPagination.FewPages | src/main/resources/static/js/main.js:857 | With at most one page there are no buttons; otherwise between totalPages and totalPages+2. |
| WritePost.PostForm.constructor | src/main/resources/static/js/write-post.js:17-23 | The form is in edit mode exactly when the URL has a non-empty `id`. |
| WritePost.PostForm.Submit | src/main/resources/static/js/write-post.js:71-111 | Sets the title and content errors from the checks and clears the general error. Sends only when neither check failed: PUT `/api/posts/{id}` in edit mode, otherwise POST `/api/posts`. |
| WritePost.ClientAccepts | src/main/resources/static/js/write-post.js:84-98 | The browser's checks pass exactly when title and content are not blank in JavaScript's sense and within 255 and 65535 characters. |
| WritePost.ClientAcceptedImpliesServerAccepted | src/main/resources/static/js/write-post.js:84-98 | Without stray control characters, whatever the browser sends passes the server's validation of `PostCreateRequest`. |
| WritePost.BlankMismatch | src/main/resources/static/js/write-post.js:84 | A lone control character passes the browser but fails the server; a lone no-break space fails the browser but passes the server. |
| RegisterForm.SignUpForm.constructor | src/main/resources/static/js/register.js:9-13 | All messages start empty. |
| RegisterForm.SignUpForm.Submit | src/main/resources/static/js/register.js:15-46 | Each error is set from its own check, so several can show at once. The body is sent exactly when no check failed. |
| RegisterForm.AllChecksRun | src/main/resources/static/js/register.js:30-42 | An input with a bad-length username, a too-short password and a mismatched confirmation gets all three messages at once. |
| RegisterForm.ClientAgainstServer | src/main/resources/static/js/register.js:31-37 | The length messages equal the server's, and what passes the browser meets the server's size rules. The browser does not check for blank values, so two spaces pass it and fail the server. |

## Left out

- JWT issuing and parsing, and the authentication filter: the access token is a parameter of `AuthController.Login`, and the filter-level 401/403 entry points are not modelled.
- BCrypt hashing and matching: the encoder and the matcher are function parameters.
- HTTP binding of `PostController`, `CommentController`, `AdminController` and `UserController`: their service calls are modelled, not their request mapping or response wrapping.
- Pageable paging and sorting: listings are modelled as sets of rows, with no page slicing and no ordering.
- SQL `LIKE` wildcards inside the keyword (`%`, `_`): the keyword is matched as a literal substring.
- Upper and lower case are mapped on ASCII letters only; Java's full Unicode case mapping is not modelled.
- Concurrency: transactions run one at a time, so the lost-update race on `viewCount` and `likeCount` is not modelled.
- Clock readings are opaque `Instant` parameters, one per transaction. The stamp the automatic flush sets before a query and the stamp the commit sets are both that one `now`. When the automatic flush does not write the row (its query reads other tables), the commit runs `@PreUpdate` again, and the stored `updatedAt` can be a little later than the one in the response.
- Foreign keys without `ON DELETE` are assumed to make the database refuse the delete. This covers `post.user_id` (Post.java:29-31), `post_like.user_id`, and `comment_likes.comment_id` and `comment_likes.user_id` (CommentLike.java:21-27). The schema is not part of this model; another database setup could cascade or set NULL instead. `UserService.DeleteUser`, `PostRepository.PostsDeleted` and the lemmas about them rest on this assumption.
- The message of the `DataIntegrityViolationException` for a refused delete (`ForeignKeyViolation` in `Exceptions`) and for a duplicate comment like (`UniqueViolation` in `CommentLikeRepository`) are placeholders. The driver's real text depends on the database.
- Integer widths: ids, counters and lengths are unbounded, so `int`/`Long` overflow is not modelled.
- String lengths count characters, not UTF-16 code units.
- Post counters (`viewCount`, `likeCount`) are non-null; only `Comment.likeCount` may be NULL, as its column allows.
- Bean Validation promises no order for violations. The model fixes one order: fields in declaration order, and for each field the blank rule before the size rule. `GlobalExceptionHandler.FieldErrorMapLastWins` therefore pins down a field's message only relative to that order.
- Identity values: a rollback restores the counters too, while a real database would not reuse the values it handed out.
- A four-step user deletion (likes, comments, posts, user) is described in the project's documentation but is absent from the code; `UserService.DeleteUser` models the code.
- `PostLikeRepository.DeleteByUser`, `CommentLikeRepository.DeleteByUser`: the derived deletes do not adjust the stored like counters, which the model proves rather than repairs.
- Helpful NullPointerException messages are not modelled: the message of a NullPointerException is "null".
- `AuthController.LoginRules` uses the default English "Bad credentials"; locale-specific messages are not modelled.
- `ErrorResponses.ReasonPhrase` covers only the statuses the application emits (200, 201, 400, 401, 403, 404, 409, 500).
- The DOM, `fetch`, alerts, redirects and the handling of server replies in the browser scripts are not modelled; only the values the scripts compute and send are.
- The page-load author check in write-post.js (fetching the post and comparing usernames) is not modelled.
- `PostLike.java`, `PostUpdateRequest.java`, `CommentCreateRequest.java`, `AuthRequest.java`, `UserDto.java`/`UserMapper` and `UserRole.java` are not part of this model beyond the fields the modelled operations use.
