/** `SecurityConfig.securityFilterChain`: the ordered table of request
    matchers and the access each grants. The first rule whose method and
    path pattern match a request decides; `anyRequest().authenticated()`
    closes the table.

    A request path is its list of segments (`/api/posts/7` is
    `["api", "posts", "7"]`, the root `/` is `[]`). In a pattern a segment
    is a literal, `*` (any one segment), or `*.html` (any one segment ending
    in `.html`); a trailing `/**` matches any number of further segments,
    none included. */
module SecurityConfig {
  import opened Common
  import opened UserEntity

  datatype HttpMethod = GET | POST | PUT | DELETE | PATCH | HEAD | OPTIONS

  datatype Segment = Lit(name: string) | Star | StarSuffix(suffix: string)

  datatype Pattern = Pattern(segments: seq<Segment>, anyRest: bool)

  /** `permitAll()`, `authenticated()`, `hasRole(role)` */
  datatype Access = PermitAll | Authenticated | RequiresRole(role: Role)

  /** `requestMatchers([method,] patterns...).<access>`; `method` is `None`
      when the matcher names no method. */
  datatype Rule = Rule(method: Option<HttpMethod>, patterns: seq<Pattern>, access: Access)

  predicate IsSuffix(suffix: string, s: string) {
    |suffix| <= |s| && s[|s| - |suffix|..] == suffix
  }

  predicate SegmentMatches(p: Segment, s: string) {
    match p
    case Lit(name) => s == name
    case Star => true
    case StarSuffix(suffix) => IsSuffix(suffix, s)
  }

  predicate PatternMatches(p: Pattern, path: seq<string>) {
    && (if p.anyRest then |p.segments| <= |path| else |p.segments| == |path|)
    && forall i :: 0 <= i < |p.segments| ==> SegmentMatches(p.segments[i], path[i])
  }

  predicate RuleMatches(r: Rule, m: HttpMethod, path: seq<string>) {
    (r.method.None? || r.method.value == m) && exists p :: p in r.patterns && PatternMatches(p, path)
  }

  function Lits(names: seq<string>): seq<Segment> {
    seq(|names|, i requires 0 <= i < |names| => Lit(names[i]))
  }

  /** A pattern of literal segments, e.g. `/api/posts`. */
  function Exact(names: seq<string>): Pattern {
    Pattern(Lits(names), false)
  }

  /** A pattern of literal segments followed by `/**`. */
  function Under(names: seq<string>): Pattern {
    Pattern(Lits(names), true)
  }

  /** The table, in the order it is declared. */
  function Rules(): seq<Rule> {
    [
      // 0: HTML pages and static resources
      Rule(None, [Exact([]), Pattern([StarSuffix(".html")], false), Under(["css"]), Under(["js"]),
                  Under(["img"]), Exact(["favicon.ico"]), Under(["static"])], PermitAll),
      // 1: sign-up and login
      Rule(None, [Under(["api", "auth"])], PermitAll),
      // 2: reading posts
      Rule(Some(GET), [Exact(["api", "posts"]), Under(["api", "posts"])], PermitAll),
      // 3: reading a post's comments
      Rule(Some(GET), [Pattern([Lit("api"), Lit("posts"), Star, Lit("comments")], false)], PermitAll),
      // 4: the admin API
      Rule(None, [Under(["api", "admin"])], RequiresRole(ADMIN)),
      // 5-8: writing posts
      Rule(Some(POST), [Exact(["api", "posts"])], Authenticated),
      Rule(Some(POST), [Pattern([Lit("api"), Lit("posts"), Star, Lit("like")], false)], Authenticated),
      Rule(Some(PUT), [Under(["api", "posts"])], Authenticated),
      Rule(Some(DELETE), [Under(["api", "posts"])], Authenticated),
      // 9-12: writing comments
      Rule(Some(POST), [Pattern([Lit("api"), Lit("posts"), Star, Lit("comments")], false)], Authenticated),
      Rule(Some(POST), [Pattern([Lit("api"), Lit("posts"), Star, Lit("comments"), Star, Lit("like")], false)], Authenticated),
      Rule(Some(PUT), [Pattern([Lit("api"), Lit("posts"), Star, Lit("comments")], true)], Authenticated),
      Rule(Some(DELETE), [Pattern([Lit("api"), Lit("posts"), Star, Lit("comments")], true)], Authenticated)
    ]
  }

  /** The index of the first rule of `rules` from `from` on that matches. */
  function FirstMatch(rules: seq<Rule>, from: nat, m: HttpMethod, path: seq<string>): (r: Option<nat>)
    requires from <= |rules|
    ensures r.Some? ==> from <= r.value < |rules| && RuleMatches(rules[r.value], m, path)
    ensures r.Some? ==> forall j :: from <= j < r.value ==> !RuleMatches(rules[j], m, path)
    ensures r.None? ==> forall j :: from <= j < |rules| ==> !RuleMatches(rules[j], m, path)
    decreases |rules| - from
  {
    if from == |rules| then None
    else if RuleMatches(rules[from], m, path) then Some(from)
    else FirstMatch(rules, from + 1, m, path)
  }

  /** The access the filter chain demands of a request. */
  function Decide(m: HttpMethod, path: seq<string>): Access {
    match FirstMatch(Rules(), 0, m, path)
    case Some(i) => Rules()[i].access
    case None => Authenticated
  }

  /** Whether a request with that access rule goes through for the caller's
      authentication (`None` when anonymous). `hasRole("ADMIN")` checks the
      authority `ROLE_ADMIN`. */
  predicate Permits(a: Access, caller: Option<User>) {
    match a
    case PermitAll => true
    case Authenticated => caller.Some?
    case RequiresRole(r) => caller.Some? && AuthorityPrefix + RoleName(r) in Authorities(caller.value)
  }

  // ---------------------------------------------------------------------
  // Properties of the table

  /** When a rule matches and no earlier one does, that rule decides. */
  lemma {:induction false} DecidedBy(i: nat, m: HttpMethod, path: seq<string>)
    requires i < |Rules()| && RuleMatches(Rules()[i], m, path)
    requires forall j :: 0 <= j < i ==> !RuleMatches(Rules()[j], m, path)
    ensures Decide(m, path) == Rules()[i].access
  {
    var r := FirstMatch(Rules(), 0, m, path);
    assert r.Some? && r.value == i;
  }

  lemma LitsMatch(names: seq<string>, path: seq<string>)
    requires |names| <= |path| && path[..|names|] == names
    ensures forall k :: 0 <= k < |names| ==> SegmentMatches(Lits(names)[k], path[k])
  {
    forall k | 0 <= k < |names| ensures SegmentMatches(Lits(names)[k], path[k]) {
      assert path[k] == path[..|names|][k];
    }
  }

  /** The root, every top-level `.html` page and everything under `/css`,
      `/js`, `/img` and `/static`, and `/favicon.ico`, are open to anyone,
      whatever the method. */
  lemma {:induction false} StaticResourcesPermitted(m: HttpMethod, page: string, dir: string, rest: seq<string>)
    requires IsSuffix(".html", page)
    requires dir in {"css", "js", "img", "static"}
    ensures Decide(m, []) == PermitAll
    ensures Decide(m, [page]) == PermitAll
    ensures Decide(m, [dir] + rest) == PermitAll
    ensures Decide(m, ["favicon.ico"]) == PermitAll
  {
    var r := Rules()[0];
    assert PatternMatches(r.patterns[0], []);
    DecidedBy(0, m, []);
    assert PatternMatches(r.patterns[1], [page]);
    DecidedBy(0, m, [page]);
    var i := if dir == "css" then 2 else if dir == "js" then 3 else if dir == "img" then 4 else 6;
    assert r.patterns[i] == Under([dir]);
    LitsMatch([dir], [dir] + rest);
    assert PatternMatches(r.patterns[i], [dir] + rest);
    DecidedBy(0, m, [dir] + rest);
    LitsMatch(["favicon.ico"], ["favicon.ico"]);
    assert PatternMatches(r.patterns[5], ["favicon.ico"]);
    DecidedBy(0, m, ["favicon.ico"]);
  }

  /** No pattern of the static-resource rule matches a path that starts with
      `api` and has at least two segments. */
  lemma {:induction false} ApiPathNotStatic(m: HttpMethod, path: seq<string>)
    requires |path| >= 2 && path[0] == "api"
    ensures !RuleMatches(Rules()[0], m, path)
  {
    var ps := Rules()[0].patterns;
    forall p | p in ps ensures !PatternMatches(p, path) {
      if p.anyRest { assert SegmentMatches(p.segments[0], path[0]) ==> false; }
    }
  }

  /** Every request under `/api/auth` is open to anyone. */
  lemma {:induction false} AuthEndpointsPermitted(m: HttpMethod, rest: seq<string>)
    ensures Decide(m, ["api", "auth"] + rest) == PermitAll
  {
    var path := ["api", "auth"] + rest;
    ApiPathNotStatic(m, path);
    LitsMatch(["api", "auth"], path);
    assert PatternMatches(Rules()[1].patterns[0], path);
    DecidedBy(1, m, path);
  }

  /** Every GET of `/api/posts` or of anything under it is open to anyone. */
  lemma {:induction false} PublicReads(rest: seq<string>)
    ensures Decide(GET, ["api", "posts"] + rest) == PermitAll
  {
    var path := ["api", "posts"] + rest;
    ApiPathNotStatic(GET, path);
    assert !PatternMatches(Rules()[1].patterns[0], path) by {
      assert path[1] != "auth";
      assert !SegmentMatches(Rules()[1].patterns[0].segments[1], path[1]);
    }
    LitsMatch(["api", "posts"], path);
    assert PatternMatches(Rules()[2].patterns[1], path);
    DecidedBy(2, GET, path);
  }

  /** Any request under `/api/admin` needs the authority `ROLE_ADMIN`, which
      exactly the administrators hold. */
  lemma {:induction false} AdminArea(m: HttpMethod, rest: seq<string>, caller: Option<User>)
    ensures Decide(m, ["api", "admin"] + rest) == RequiresRole(ADMIN)
    ensures Permits(Decide(m, ["api", "admin"] + rest), caller) <==> caller.Some? && caller.value.role == ADMIN
  {
    var path := ["api", "admin"] + rest;
    ApiPathNotStatic(m, path);
    forall j | 1 <= j < 4 ensures !RuleMatches(Rules()[j], m, path) {
      forall p | p in Rules()[j].patterns ensures !PatternMatches(p, path) {
        assert !SegmentMatches(p.segments[1], path[1]);
      }
    }
    LitsMatch(["api", "admin"], path);
    assert PatternMatches(Rules()[4].patterns[0], path);
    DecidedBy(4, m, path);
    if caller.Some? { HasRoleIff(caller.value, ADMIN); }
  }

  /** The rules before the post-writing ones let only GET requests on
      `/api/posts...` through. */
  lemma {:induction false} NonGetPostsPathSkipsReads(m: HttpMethod, path: seq<string>)
    requires m != GET && |path| >= 2 && path[0] == "api" && path[1] == "posts"
    ensures forall j :: 0 <= j < 5 ==> !RuleMatches(Rules()[j], m, path)
  {
    ApiPathNotStatic(m, path);
    forall j | j == 1 || j == 4 ensures !RuleMatches(Rules()[j], m, path) {
      forall p | p in Rules()[j].patterns ensures !PatternMatches(p, path) {
        assert !SegmentMatches(p.segments[1], path[1]);
      }
    }
  }

  /** Writing posts needs an authenticated caller: `POST /api/posts`,
      `POST /api/posts/{id}/like`, and every PUT or DELETE under
      `/api/posts`. */
  lemma {:induction false} PostWritesAuthenticated(id: string, rest: seq<string>)
    ensures Decide(POST, ["api", "posts"]) == Authenticated
    ensures Decide(POST, ["api", "posts", id, "like"]) == Authenticated
    ensures Decide(PUT, ["api", "posts"] + rest) == Authenticated
    ensures Decide(DELETE, ["api", "posts"] + rest) == Authenticated
  {
    NonGetPostsPathSkipsReads(POST, ["api", "posts"]);
    LitsMatch(["api", "posts"], ["api", "posts"]);
    assert PatternMatches(Rules()[5].patterns[0], ["api", "posts"]);
    DecidedBy(5, POST, ["api", "posts"]);

    var like := ["api", "posts", id, "like"];
    NonGetPostsPathSkipsReads(POST, like);
    assert !PatternMatches(Rules()[5].patterns[0], like);
    assert PatternMatches(Rules()[6].patterns[0], like);
    DecidedBy(6, POST, like);

    var path := ["api", "posts"] + rest;
    LitsMatch(["api", "posts"], path);
    NonGetPostsPathSkipsReads(PUT, path);
    assert PatternMatches(Rules()[7].patterns[0], path);
    DecidedBy(7, PUT, path);
    NonGetPostsPathSkipsReads(DELETE, path);
    assert PatternMatches(Rules()[8].patterns[0], path);
    DecidedBy(8, DELETE, path);
  }

  /** Writing comments needs an authenticated caller: creating, liking,
      editing and deleting. */
  lemma {:induction false} CommentWritesAuthenticated(postId: string, commentId: string, rest: seq<string>)
    ensures Decide(POST, ["api", "posts", postId, "comments"]) == Authenticated
    ensures Decide(POST, ["api", "posts", postId, "comments", commentId, "like"]) == Authenticated
    ensures Decide(PUT, ["api", "posts", postId, "comments"] + rest) == Authenticated
    ensures Decide(DELETE, ["api", "posts", postId, "comments"] + rest) == Authenticated
  {
    var create := ["api", "posts", postId, "comments"];
    NonGetPostsPathSkipsReads(POST, create);
    forall j | 5 <= j < 9 ensures !RuleMatches(Rules()[j], POST, create) { }
    assert PatternMatches(Rules()[9].patterns[0], create);
    DecidedBy(9, POST, create);

    var like := ["api", "posts", postId, "comments", commentId, "like"];
    NonGetPostsPathSkipsReads(POST, like);
    forall j | 5 <= j < 10 ensures !RuleMatches(Rules()[j], POST, like) { }
    assert PatternMatches(Rules()[10].patterns[0], like);
    DecidedBy(10, POST, like);

    PostWritesAuthenticated(postId, [postId, "comments"] + rest);
    assert ["api", "posts"] + ([postId, "comments"] + rest) == ["api", "posts", postId, "comments"] + rest;
  }

  /** The rule for `GET /api/posts/*/comments` and the comment edit and
      delete rules are never the rule that decides: the broader
      `/api/posts/**` rules before them already match every request they
      match. */
  lemma {:induction false} ShadowedRules(m: HttpMethod, path: seq<string>)
    ensures FirstMatch(Rules(), 0, m, path) != Some(3)
    ensures FirstMatch(Rules(), 0, m, path) != Some(11)
    ensures FirstMatch(Rules(), 0, m, path) != Some(12)
  {
    var r := FirstMatch(Rules(), 0, m, path);
    if r == Some(3) || r == Some(11) || r == Some(12) {
      var i := r.value;
      assert RuleMatches(Rules()[i], m, path);
      var p :| p in Rules()[i].patterns && PatternMatches(p, path);
      assert path[..2] == ["api", "posts"];
      LitsMatch(["api", "posts"], path);
      var k := if i == 3 then 2 else if i == 11 then 7 else 8;
      assert PatternMatches(Rules()[k].patterns[if i == 3 then 1 else 0], path);
      assert RuleMatches(Rules()[k], m, path);
      assert false;
    }
  }

  /** A request no rule matches needs an authenticated caller; e.g. the
      user-account API. */
  lemma {:induction false} FallbackAuthenticated(m: HttpMethod, path: seq<string>)
    requires forall j :: 0 <= j < |Rules()| ==> !RuleMatches(Rules()[j], m, path)
    ensures Decide(m, path) == Authenticated
  {
    assert FirstMatch(Rules(), 0, m, path).None?;
  }
}
