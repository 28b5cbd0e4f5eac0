/** `UserService`: registration, password change, account deletion and the
    administrator's role change. The password encoder is a function
    parameter; the clock reading is a parameter `now`. */
module UserService {
  import opened Common
  import opened Exceptions
  import opened UserEntity
  import opened Db
  import opened Persistence
  import CommentRepository

  const UsernameTaken: string := "이미 존재하는 사용자 이름입니다."
  const UnknownUsername: string := "사용자를 찾을 수 없습니다."

  /** `new ResourceNotFoundException("사용자를 찾을 수 없습니다. (ID: " + userId + ")")` */
  function UserNotFound(userId: Id): Exception {
    ResourceNotFound("사용자를 찾을 수 없습니다. (ID: " + IntToString(userId) + ")")
  }

  /** `new IllegalArgumentException("유효하지 않은 역할 이름입니다: " + newRoleName)` */
  function InvalidRoleName(name: string): Exception {
    IllegalArgument("유효하지 않은 역할 이름입니다: " + name)
  }

  // ---------------------------------------------------------------------
  // Registration

  /** `registerUser(request)`: returns the saved row and its id. */
  function RegisterUserSpec(b: Board, username: string, password: string, encode: string -> string, now: Instant): Tx<(Id, User)>
    requires UsernamesUnique(b)
  {
    if FindUserByUsername(b, username).Some? then Tx(b, Err(IllegalArgument(UsernameTaken)))
    else
      var u := User(username, encode(password), USER, Some(now));
      var id := b.nextUserId;
      Tx(b.(users := b.users[id := u], nextUserId := id + 1), Ok((id, u)))
  }

  method RegisterUser(store: Store, username: string, password: string, encode: string -> string, now: Instant) returns (r: Result<(Id, User)>)
    requires UsernamesUnique(store.Snapshot())
    modifies store
    ensures Tx(store.Snapshot(), r) == RegisterUserSpec(old(store.Snapshot()), username, password, encode, now)
  {
    if FindUserByUsername(store.Snapshot(), username).Some? {
      return Err(IllegalArgument(UsernameTaken));
    }
    var user := User(username, encode(password), USER, Some(now));
    var id := store.nextUserId;
    store.users := store.users[id := user];
    store.nextUserId := id + 1;
    r := Ok((id, user));
  }

  /** A taken username is refused with an illegal argument and adds no user.
      A free one adds exactly one user under a fresh id, with that username,
      role USER, and the encoder's output as password; the constraints and
      counters still hold. */
  lemma {:induction false} RegisterUserRules(b: Board, username: string, password: string, encode: string -> string, now: Instant)
    requires Valid(b) && CountersConsistent(b)
    ensures var t := RegisterUserSpec(b, username, password, encode, now);
      && (t.result.Err? <==> exists id :: id in b.users && b.users[id].username == username)
      && (t.result.Err? ==> t.board == b && t.result.error == IllegalArgument(UsernameTaken))
      && (t.result.Ok? ==>
          var (id, u) := t.result.value;
          && id !in b.users && t.board.users == b.users[id := u]
          && u.username == username && u.role == USER && u.password == encode(password)
          && t.board.(users := b.users, nextUserId := b.nextUserId) == b
          && Valid(t.board) && CountersConsistent(t.board))
  {
  }

  // ---------------------------------------------------------------------
  // Password

  /** `changePassword(username, newPassword)` */
  function ChangePasswordSpec(b: Board, username: string, newPassword: string, encode: string -> string): Tx<()>
    requires UsernamesUnique(b)
  {
    match FindUserByUsername(b, username)
    case None => Tx(b, Err(IllegalArgument(UnknownUsername)))
    case Some(id) => Tx(b.(users := b.users[id := SetEncodedPassword(b.users[id], newPassword, encode)]), Ok(()))
  }

  method ChangePassword(store: Store, username: string, newPassword: string, encode: string -> string) returns (r: Result<()>)
    requires UsernamesUnique(store.Snapshot())
    modifies store
    ensures Tx(store.Snapshot(), r) == ChangePasswordSpec(old(store.Snapshot()), username, newPassword, encode)
  {
    var found := FindUserByUsername(store.Snapshot(), username);
    if found.None? {
      return Err(IllegalArgument(UnknownUsername));
    }
    var id := found.value;
    var user := store.users[id];
    user := user.(password := encode(newPassword));
    store.users := store.users[id := user];
    return Ok(());
  }

  /** An unknown username is refused with an illegal argument. Otherwise
      exactly that user's password becomes the encoder's output. */
  lemma {:induction false} ChangePasswordRules(b: Board, username: string, newPassword: string, encode: string -> string)
    requires Valid(b)
    ensures var t := ChangePasswordSpec(b, username, newPassword, encode);
      && (t.result.Err? <==> !exists id :: id in b.users && b.users[id].username == username)
      && (t.result.Err? ==> t.board == b && t.result.error == IllegalArgument(UnknownUsername))
      && (t.result.Ok? ==>
          && t.board.users.Keys == b.users.Keys
          && (forall id | id in b.users ::
              t.board.users[id] == (if b.users[id].username == username
                                    then b.users[id].(password := encode(newPassword)) else b.users[id]))
          && t.board.(users := b.users) == b
          && Valid(t.board))
  {
  }

  // ---------------------------------------------------------------------
  // Deletion

  /** Rows that make the database refuse to delete user `id`, under the
      assumed schema: `comment.user_id` cascades (its `@OnDelete`), and the
      foreign keys `post.user_id`, `post_like.user_id`,
      `comment_likes.user_id` and `comment_likes.comment_id` declare no
      `ON DELETE`, so the database refuses. A like on one of the user's
      comments therefore blocks too. */
  predicate DeletionBlocked(b: Board, id: Id) {
    || (exists p :: p in b.posts && b.posts[p].author == id)
    || (exists l :: l in b.postLikes && l.user == id)
    || (exists l :: l in b.commentLikes && l.user == id)
    || (exists l :: l in b.commentLikes && l.comment in CommentRepository.CommentsBy(b, id))
  }

  /** `deleteUser(userId)`: only the `users` row is deleted by the service;
      the database removes the user's comments with it or refuses. */
  function DeleteUserSpec(b: Board, userId: Id): Tx<()> {
    if userId !in b.users then Tx(b, Err(UserNotFound(userId)))
    else if DeletionBlocked(b, userId) then Tx(b, Err(DataIntegrityViolation(ForeignKeyViolation)))
    else
      var doomed := CommentRepository.CommentsBy(b, userId);
      Tx(b.(users := b.users - {userId}, comments := map k | k in b.comments && k !in doomed :: b.comments[k]), Ok(()))
  }

  method DeleteUser(store: Store, userId: Id) returns (r: Result<()>)
    modifies store
    ensures Tx(store.Snapshot(), r) == DeleteUserSpec(old(store.Snapshot()), userId)
  {
    if userId !in store.users {
      return Err(UserNotFound(userId));
    }
    if DeletionBlocked(store.Snapshot(), userId) {
      return Err(DataIntegrityViolation(ForeignKeyViolation));
    }
    var doomed := CommentRepository.CommentsBy(store.Snapshot(), userId);
    store.comments := map k | k in store.comments && k !in doomed :: store.comments[k];
    store.users := store.users - {userId};
    return Ok(());
  }

  /** An unknown id fails not-found. A user who still has posts or likes, or
      whose comments carry likes, cannot be deleted, and nothing changes.
      Otherwise exactly that user row and that user's comments go; no post
      and no like row is touched, and the constraints and counters still
      hold. */
  lemma {:induction false} DeleteUserRules(b: Board, userId: Id)
    requires Valid(b) && CountersConsistent(b)
    ensures var t := DeleteUserSpec(b, userId);
      && (userId !in b.users ==> t == Tx(b, Err(UserNotFound(userId))))
      && (userId in b.users && DeletionBlocked(b, userId) ==> t == Tx(b, Err(DataIntegrityViolation(ForeignKeyViolation))))
      && (t.result.Ok? <==> userId in b.users && !DeletionBlocked(b, userId))
      && (t.result.Ok? ==>
          && t.board.users == b.users - {userId}
          && t.board.comments.Keys == b.comments.Keys - CommentRepository.CommentsBy(b, userId)
          && t.board.posts == b.posts && t.board.postLikes == b.postLikes && t.board.commentLikes == b.commentLikes
          && Valid(t.board) && CountersConsistent(t.board))
  {
    var t := DeleteUserSpec(b, userId);
    if t.result.Ok? {
      var a := t.board;
      forall id | id in a.comments ensures CommentLikesOf(a.commentLikes, id) == CommentLikesOf(b.commentLikes, id) { }
      assert forall p | p in a.posts :: a.posts[p].author in a.users;
      assert forall l | l in a.commentLikes :: l.comment in a.comments;
    }
  }

  // ---------------------------------------------------------------------
  // Role

  /** `updateUserRole(userId, newRoleName)`: returns the saved row, which
      `UserDto.fromEntity` then copies. */
  function UpdateUserRoleSpec(b: Board, userId: Id, newRoleName: string): Tx<(Id, User)> {
    if userId !in b.users then Tx(b, Err(UserNotFound(userId)))
    else match ValueOf(Upper(newRoleName))
      case None => Tx(b, Err(InvalidRoleName(newRoleName)))
      case Some(role) =>
        var u := b.users[userId].(role := role);
        Tx(b.(users := b.users[userId := u]), Ok((userId, u)))
  }

  method UpdateUserRole(store: Store, userId: Id, newRoleName: string) returns (r: Result<(Id, User)>)
    modifies store
    ensures Tx(store.Snapshot(), r) == UpdateUserRoleSpec(old(store.Snapshot()), userId, newRoleName)
  {
    if userId !in store.users {
      return Err(UserNotFound(userId));
    }
    var user := store.users[userId];
    var newRole := ValueOf(Upper(newRoleName));
    if newRole.None? {
      return Err(InvalidRoleName(newRoleName));
    }
    user := user.(role := newRole.value);
    store.users := store.users[userId := user];
    r := Ok((userId, user));
  }

  /** An unknown id fails not-found; a name that is not a role in any case
      fails with an illegal argument naming it; both leave every role as it
      was. A role name in any mix of cases is accepted, and then only the
      role field of that one user changes. */
  lemma {:induction false} UpdateUserRoleRules(b: Board, userId: Id, newRoleName: string)
    requires Valid(b) && CountersConsistent(b)
    ensures var t := UpdateUserRoleSpec(b, userId, newRoleName);
      && (userId !in b.users ==> t == Tx(b, Err(UserNotFound(userId))))
      && (userId in b.users && Upper(newRoleName) != "USER" && Upper(newRoleName) != "ADMIN"
          ==> t == Tx(b, Err(InvalidRoleName(newRoleName))))
      && (t.result.Ok? <==> userId in b.users && (Upper(newRoleName) == "USER" || Upper(newRoleName) == "ADMIN"))
      && (t.result.Ok? ==>
          && RoleName(t.board.users[userId].role) == Upper(newRoleName)
          && t.board.users == b.users[userId := b.users[userId].(role := t.board.users[userId].role)]
          && t.board.(users := b.users) == b
          && Valid(t.board) && CountersConsistent(t.board))
  {
  }

  /** For instance, "admin" makes a user an administrator. */
  lemma LowerCaseAdminAccepted(b: Board, userId: Id)
    requires userId in b.users
    ensures UpdateUserRoleSpec(b, userId, "admin").result.Ok?
    ensures UpdateUserRoleSpec(b, userId, "admin").board.users[userId].role == ADMIN
  {
    assert Upper("admin") == "ADMIN";
  }
}
