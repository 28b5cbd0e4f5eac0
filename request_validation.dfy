/** Bean Validation of the request bodies `PostCreateRequest`,
    `RegisterRequest` and `CommentUpdateRequest`. A `null` JSON field is
    `None`. `@NotBlank` rejects `null` and strings whose Java `trim()` is
    empty; `@Size` accepts `null` and otherwise bounds the length. The
    violations come out field by field in declaration order, `@NotBlank`
    before `@Size`. */
module RequestValidation {
  import opened Common
  import opened Exceptions

  /** `@NotBlank` */
  predicate NotBlank(v: Option<string>) {
    v.Some? && !JavaBlank(v.value)
  }

  /** `@Size(min, max)`; an absent `max` is unbounded. */
  predicate SizeWithin(v: Option<string>, min: nat, max: Option<nat>) {
    v.None? || (min <= |v.value| && (max.None? || |v.value| <= max.value))
  }

  /** The violations of one field carrying `@NotBlank` and `@Size`. */
  function FieldViolations(field: string, v: Option<string>, blankMessage: string,
                           min: nat, max: Option<nat>, sizeMessage: string): (r: seq<FieldError>)
    ensures |r| <= 2 && forall e | e in r :: e.field == field
    ensures FieldError(field, blankMessage) in r <== !NotBlank(v)
    ensures FieldError(field, sizeMessage) in r <== !SizeWithin(v, min, max)
    ensures blankMessage != sizeMessage ==>
      && (FieldError(field, blankMessage) in r <==> !NotBlank(v))
      && (FieldError(field, sizeMessage) in r <==> !SizeWithin(v, min, max))
    ensures r == [] <==> NotBlank(v) && SizeWithin(v, min, max)
  {
    (if NotBlank(v) then [] else [FieldError(field, blankMessage)])
    + (if SizeWithin(v, min, max) then [] else [FieldError(field, sizeMessage)])
  }

  // ---------------------------------------------------------------------
  // PostCreateRequest

  const TitleRequired: string := "제목은 필수입니다."
  const TitleTooLong: string := "제목은 최대 255자까지 가능합니다."
  const ContentRequired: string := "내용은 필수입니다."
  const ContentTooLong: string := "내용은 최대 65535자까지 가능합니다."
  const MaxTitleLength: nat := 255
  const MaxContentLength: nat := 65535

  datatype PostCreateRequest = PostCreateRequest(title: Option<string>, content: Option<string>)

  function PostCreateViolations(req: PostCreateRequest): seq<FieldError> {
    FieldViolations("title", req.title, TitleRequired, 0, Some(MaxTitleLength), TitleTooLong)
    + FieldViolations("content", req.content, ContentRequired, 0, Some(MaxContentLength), ContentTooLong)
  }

  /** A post request passes exactly when both fields are present, not blank,
      and within their column sizes. */
  lemma PostCreateAccepted(req: PostCreateRequest)
    ensures PostCreateViolations(req) == [] <==>
      && req.title.Some? && !JavaBlank(req.title.value) && |req.title.value| <= MaxTitleLength
      && req.content.Some? && !JavaBlank(req.content.value) && |req.content.value| <= MaxContentLength
  {
  }

  /** A missing title is reported once, as required, and a whitespace-only
      one the same way. */
  lemma PostCreateMissingTitle(content: Option<string>)
    ensures PostCreateViolations(PostCreateRequest(None, content))[0] == FieldError("title", TitleRequired)
    ensures PostCreateViolations(PostCreateRequest(Some(" \t"), content))[0] == FieldError("title", TitleRequired)
    ensures forall e | e in PostCreateViolations(PostCreateRequest(None, content)) && e.field == "title" :: e.message == TitleRequired
  {
    assert JavaTrim(" \t") == [] by { assert AllStripped(" \t", IsJavaTrimmed); TrimEmptyIff(" \t", IsJavaTrimmed); }
  }

  // ---------------------------------------------------------------------
  // RegisterRequest

  const UsernameRequired: string := "사용자 이름은 필수입니다."
  const UsernameLength: string := "사용자 이름은 2자 이상 20자 이하여야 합니다."
  const PasswordRequired: string := "비밀번호는 필수입니다."
  const PasswordLength: string := "비밀번호는 2자 이상이어야 합니다."
  const MinUsernameLength: nat := 2
  const MaxUsernameLength: nat := 20
  const MinPasswordLength: nat := 2

  datatype RegisterRequest = RegisterRequest(username: Option<string>, password: Option<string>)

  function RegisterViolations(req: RegisterRequest): seq<FieldError> {
    FieldViolations("username", req.username, UsernameRequired, MinUsernameLength, Some(MaxUsernameLength), UsernameLength)
    + FieldViolations("password", req.password, PasswordRequired, MinPasswordLength, None, PasswordLength)
  }

  /** A registration passes exactly when the username is 2 to 20 characters
      and not blank, and the password at least 2 and not blank. */
  lemma RegisterAccepted(req: RegisterRequest)
    ensures RegisterViolations(req) == [] <==>
      && req.username.Some? && !JavaBlank(req.username.value)
      && MinUsernameLength <= |req.username.value| <= MaxUsernameLength
      && req.password.Some? && !JavaBlank(req.password.value) && MinPasswordLength <= |req.password.value|
  {
  }

  /** A one-character username breaks only the size rule; a two-space one
      only the blank rule. */
  lemma RegisterUsernameExamples(password: Option<string>)
    ensures var v := RegisterViolations(RegisterRequest(Some("a"), password));
      FieldError("username", UsernameLength) in v && FieldError("username", UsernameRequired) !in v
    ensures var v := RegisterViolations(RegisterRequest(Some("  "), password));
      FieldError("username", UsernameRequired) in v && FieldError("username", UsernameLength) !in v
  {
    assert JavaTrim("a") == "a" by { TrimEmptyIff("a", IsJavaTrimmed); assert TrimStart("a", IsJavaTrimmed) == "a"; }
    assert JavaTrim("  ") == [] by { assert AllStripped("  ", IsJavaTrimmed); TrimEmptyIff("  ", IsJavaTrimmed); }
    var v := RegisterViolations(RegisterRequest(Some("a"), password));
    assert v[0] == FieldError("username", UsernameLength);
    var w := RegisterViolations(RegisterRequest(Some("  "), password));
    assert w[0] == FieldError("username", UsernameRequired);
  }

  // ---------------------------------------------------------------------
  // CommentUpdateRequest

  const CommentRequired: string := "댓글 내용은 필수입니다."
  const CommentTooLong: string := "댓글 내용은 최대 1000자까지 가능합니다."
  const MaxCommentLength: nat := 1000

  datatype CommentUpdateRequest = CommentUpdateRequest(content: Option<string>)

  function CommentUpdateViolations(req: CommentUpdateRequest): seq<FieldError> {
    FieldViolations("content", req.content, CommentRequired, 0, Some(MaxCommentLength), CommentTooLong)
  }

  /** A comment edit passes exactly when its content is present, not blank
      and at most 1000 characters. */
  lemma CommentUpdateAccepted(req: CommentUpdateRequest)
    ensures CommentUpdateViolations(req) == [] <==>
      req.content.Some? && !JavaBlank(req.content.value) && |req.content.value| <= MaxCommentLength
  {
  }

  /** What `@Valid` does with a body: the handler method runs only when
      there are no violations; otherwise `MethodArgumentNotValidException`
      carries them. */
  function Validated<T>(body: T, violations: seq<FieldError>): (r: Result<T>)
    ensures r.Ok? <==> violations == []
    ensures r.Ok? ==> r.value == body
    ensures r.Err? ==> r.error == MethodArgumentNotValid(violations)
  {
    if violations == [] then Ok(body) else Err(MethodArgumentNotValid(violations))
  }
}
