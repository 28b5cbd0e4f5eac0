/** `AuthController` under `/api/auth`: registration, login and the current
    user's details.

    Login goes through Spring Security's DAO authentication provider: the
    user is loaded by name, the raw password is checked against the stored
    hash with the password encoder (`matches`), and an unknown name and a
    wrong password fail alike with bad credentials. The signed token is a
    parameter. */
module AuthController {
  import opened Common
  import opened Exceptions
  import opened UserEntity
  import opened Db
  import opened Persistence
  import opened RequestValidation
  import UserService

  /** A `ResponseEntity<String>`. */
  datatype TextResponse = TextResponse(status: int, body: string)

  const Registered: string := "회원가입이 성공적으로 완료되었습니다!"
  const RegistrationFailed: string := "회원가입 중 예상치 못한 오류가 발생했습니다."

  /** The `try`/`catch` around `userService.registerUser`. */
  function RegisterOutcome<T>(r: Result<T>): (resp: TextResponse)
    ensures resp.status in {201, 400, 500}
    ensures resp.status == 201 <==> r.Ok?
    ensures resp.status == 400 <==> r.Err? && r.error.IllegalArgument?
    ensures resp.status == 400 ==> resp.body == r.error.message
  {
    match r
    case Ok(_) => TextResponse(201, Registered)
    case Err(IllegalArgument(message)) => TextResponse(400, message)
    case Err(_) => TextResponse(500, RegistrationFailed)
  }

  /** `POST /api/auth/register`: `@Valid` first, whose failure escapes to
      the exception handler; then the service call and its outcome. */
  function RegisterSpec(b: Board, req: RegisterRequest, encode: string -> string, now: Instant): Tx<TextResponse>
    requires UsernamesUnique(b)
  {
    match Validated(req, RegisterViolations(req))
    case Err(e) => Tx(b, Err(e))
    case Ok(_) =>
      var t := UserService.RegisterUserSpec(b, req.username.value, req.password.value, encode, now);
      Tx(t.board, Ok(RegisterOutcome(t.result)))
  }

  method Register(store: Store, req: RegisterRequest, encode: string -> string, now: Instant) returns (r: Result<TextResponse>)
    requires UsernamesUnique(store.Snapshot())
    modifies store
    ensures Tx(store.Snapshot(), r) == RegisterSpec(old(store.Snapshot()), req, encode, now)
  {
    var violations := RegisterViolations(req);
    if violations != [] {
      return Err(MethodArgumentNotValid(violations));
    }
    var outcome := UserService.RegisterUser(store, req.username.value, req.password.value, encode, now);
    r := Ok(RegisterOutcome(outcome));
  }

  /** An invalid body never reaches the service. A valid one with a taken
      username answers 400 with the service's message, not 409; a valid one
      with a free username answers 201 and adds the user. */
  lemma {:induction false} RegisterRules(b: Board, req: RegisterRequest, encode: string -> string, now: Instant)
    requires Valid(b) && CountersConsistent(b)
    ensures var t := RegisterSpec(b, req, encode, now);
      && (RegisterViolations(req) != [] ==> t == Tx(b, Err(MethodArgumentNotValid(RegisterViolations(req)))))
      && (RegisterViolations(req) == [] ==> t.result.Ok? && t.result.value.status in {201, 400})
      && (RegisterViolations(req) == [] && (exists id :: id in b.users && b.users[id].username == req.username.value)
          ==> t == Tx(b, Ok(TextResponse(400, UserService.UsernameTaken))))
      && (RegisterViolations(req) == [] && (forall id | id in b.users :: b.users[id].username != req.username.value)
          ==> && t.result == Ok(TextResponse(201, Registered))
              && |t.board.users| == |b.users| + 1 && Valid(t.board) && CountersConsistent(t.board))
  {
    if RegisterViolations(req) == [] {
      UserService.RegisterUserRules(b, req.username.value, req.password.value, encode, now);
      var t := UserService.RegisterUserSpec(b, req.username.value, req.password.value, encode, now);
      if t.result.Ok? {
        assert t.result.value.0 !in b.users;
      }
    }
  }

  // ---------------------------------------------------------------------
  // Login

  /** The response of a successful login. */
  datatype JwtAuthenticationResponse = JwtAuthenticationResponse(accessToken: string, tokenType: string, username: string, role: string)

  const TokenType: string := "Bearer"
  const DefaultAuthority: string := "ROLE_USER"
  const BadCredentials: string := "Bad credentials"

  /** The first authority, or `ROLE_USER` when there is none, without its
      `ROLE_` prefix. */
  function LoginRole(authorities: seq<string>): (role: string)
    ensures |authorities| > 0 && !IsPrefix(AuthorityPrefix, authorities[0]) ==> role == authorities[0]
  {
    var first := if |authorities| > 0 then authorities[0] else DefaultAuthority;
    if IsPrefix(AuthorityPrefix, first) then first[|AuthorityPrefix|..] else first
  }

  /** Stripping undoes the prefixing: the role reported for an authority
      `ROLE_x` is `x`, so with no authority it is `USER`. */
  lemma LoginRoleStripsPrefix(name: string, rest: seq<string>)
    ensures LoginRole([AuthorityPrefix + name] + rest) == name
    ensures LoginRole([]) == RoleName(USER)
  {
    assert IsPrefix(AuthorityPrefix, AuthorityPrefix + name);
    assert (AuthorityPrefix + name)[|AuthorityPrefix|..] == name;
    assert IsPrefix(AuthorityPrefix, DefaultAuthority);
    assert DefaultAuthority[|AuthorityPrefix|..] == "USER";
  }

  /** `POST /api/auth/login`. */
  function Login(b: Board, username: string, password: string, matches: (string, string) -> bool, token: string)
    : (r: Result<JwtAuthenticationResponse>)
    requires UsernamesUnique(b)
  {
    match FindUserByUsername(b, username)
    case None => Err(AuthenticationFailed(BadCredentials))
    case Some(id) =>
      var u := b.users[id];
      if !matches(password, u.password) then Err(AuthenticationFailed(BadCredentials))
      else Ok(JwtAuthenticationResponse(token, TokenType, u.username, LoginRole(Authorities(u))))
  }

  /** Login succeeds exactly for a known username whose stored hash matches
      the password, and then reports that user's name and role name as the
      frontend expects it (`USER` or `ADMIN`). Both kinds of failure look
      the same. */
  lemma LoginRules(b: Board, username: string, password: string, matches: (string, string) -> bool, token: string)
    requires Valid(b)
    ensures var r := Login(b, username, password, matches, token);
      && (r.Ok? <==> exists id :: id in b.users && b.users[id].username == username && matches(password, b.users[id].password))
      && (r.Err? ==> r.error == AuthenticationFailed(BadCredentials))
      && (r.Ok? ==> r.value.username == username && r.value.tokenType == TokenType && r.value.accessToken == token
                    && exists id :: id in b.users && b.users[id].username == username && r.value.role == RoleName(b.users[id].role))
  {
    var r := Login(b, username, password, matches, token);
    if r.Ok? {
      var id := FindUserByUsername(b, username).value;
      LoginRoleStripsPrefix(RoleName(b.users[id].role), []);
      assert Authorities(b.users[id]) == [AuthorityPrefix + RoleName(b.users[id].role)] + [];
    }
  }

  // ---------------------------------------------------------------------
  // Current user

  /** `UserDto.fromEntity` */
  datatype UserDto = UserDto(id: Id, username: string, role: string, createdAt: Option<Instant>)

  /** The answer of `GET /api/auth/me`: 200 with the user, or 404 with no
      body. */
  datatype MeResponse = MeFound(user: UserDto) | MeNotFound

  /** `GET /api/auth/me` for the caller's authentication (`None` when
      anonymous: the path is open to anyone, and `authentication.getName()`
      then throws). */
  function Me(b: Board, principal: Option<string>): Result<MeResponse>
    requires UsernamesUnique(b)
  {
    match principal
    case None => Err(NullPointer)
    case Some(name) =>
      match FindUserByUsername(b, name)
      case None => Ok(MeNotFound)
      case Some(id) =>
        var u := b.users[id];
        Ok(MeFound(UserDto(id, u.username, RoleName(u.role), u.createdAt)))
  }

  /** An anonymous call fails with a null dereference. A caller whose name
      is no longer a user gets 404. Otherwise the reply is that user's row:
      id, name, role name and creation time. */
  lemma MeRules(b: Board, principal: Option<string>)
    requires Valid(b)
    ensures principal.None? ==> Me(b, principal) == Err(NullPointer)
    ensures principal.Some? ==>
      && Me(b, principal).Ok?
      && (Me(b, principal).value == MeNotFound <==> forall id | id in b.users :: b.users[id].username != principal.value)
      && (Me(b, principal).value.MeFound? ==>
          var d := Me(b, principal).value.user;
          d.id in b.users && b.users[d.id].username == principal.value == d.username
          && d.role == RoleName(b.users[d.id].role) && d.createdAt == b.users[d.id].createdAt)
  {
  }
}
