/** The `users` table row (`User`) and its Spring Security face: the role
    enumeration, the authority string the role becomes, and the account
    flags. */
module UserEntity {
  import opened Common

  type Id = int

  /** A clock reading (`LocalDateTime.now()`); the model never looks inside. */
  type Instant = int

  /** `UserRole` */
  datatype Role = USER | ADMIN

  /** `Enum.name()` */
  function RoleName(r: Role): string {
    match r
    case USER => "USER"
    case ADMIN => "ADMIN"
  }

  /** `UserRole.valueOf(name)`: an exact, case-sensitive match of a constant's
      name; `None` stands for the `IllegalArgumentException` it throws. */
  function ValueOf(name: string): (r: Option<Role>)
    ensures r.Some? <==> name == "USER" || name == "ADMIN"
    ensures r.Some? ==> RoleName(r.value) == name
  {
    if name == "USER" then Some(USER)
    else if name == "ADMIN" then Some(ADMIN)
    else None
  }

  /** A row of `users`. The username is unique and never null; the role is
      never null; `createdAt` cannot be updated once inserted. */
  datatype User = User(username: string, password: string, role: Role, createdAt: Option<Instant>)

  const AuthorityPrefix: string := "ROLE_"

  /** `getAuthorities()`: the single authority `"ROLE_" + role.name()`. */
  function Authorities(u: User): (a: seq<string>)
    ensures |a| == 1 && IsPrefix(AuthorityPrefix, a[0])
    ensures a[0][|AuthorityPrefix|..] == RoleName(u.role)
  {
    [AuthorityPrefix + RoleName(u.role)]
  }

  /** `hasRole(r)` checks for the authority `"ROLE_" + r`. */
  predicate HasRole(u: User, r: Role) {
    AuthorityPrefix + RoleName(r) in Authorities(u)
  }

  /** A user holds exactly the role stored in its row, and no other. */
  lemma HasRoleIff(u: User, r: Role)
    ensures HasRole(u, r) <==> u.role == r
  {
    assert Authorities(u) == [AuthorityPrefix + RoleName(u.role)];
    if u.role != r {
      assert (AuthorityPrefix + RoleName(r))[5] != (AuthorityPrefix + RoleName(u.role))[5];
    }
  }

  /** The four `UserDetails` account flags. */
  datatype AccountFlags = AccountFlags(nonExpired: bool, nonLocked: bool, credentialsNonExpired: bool, enabled: bool)

  /** `isAccountNonExpired`, `isAccountNonLocked`, `isCredentialsNonExpired`
      and `isEnabled`: no account is ever expired, locked or disabled. */
  function Flags(u: User): (f: AccountFlags)
    ensures f.nonExpired && f.nonLocked && f.credentialsNonExpired && f.enabled
  {
    AccountFlags(true, true, true, true)
  }

  /** `setEncodedPassword(raw, encoder)`: the stored password is the
      encoder's output, and nothing else of the row changes. */
  function SetEncodedPassword(u: User, raw: string, encode: string -> string): (v: User)
    ensures v.password == encode(raw)
    ensures v.username == u.username && v.role == u.role && v.createdAt == u.createdAt
  {
    u.(password := encode(raw))
  }
}
