/** `GlobalExceptionHandler`: the status and `ErrorResponse` body each kind
    of exception escaping a controller becomes. Spring picks the handler of
    the closest exception type; the kinds without a handler of their own
    fall to the `Exception` handler. The clock reading is `now`; the path is
    `request.getDescription(false)`, i.e. `"uri="` and the request URI. */
module GlobalExceptionHandler {
  import opened Common
  import opened Exceptions
  import opened UserEntity
  import opened ErrorResponses

  const ValidationFailed: string := "유효성 검사 실패"
  const AccessDeniedPrefix: string := "접근 권한이 없습니다: "
  const AuthenticationFailedPrefix: string := "인증 실패: "
  const ServerErrorPrefix: string := "서버 오류가 발생했습니다: "

  /** `request.getDescription(false)` */
  function Description(uri: string): string {
    "uri=" + uri
  }

  /** Java's rendering of `getMessage()` in a string concatenation: a `null`
      message prints as `null`. */
  function MessageText(e: Exception): string {
    match e
    case DataIntegrityViolation(m) => m
    case ResourceNotFound(m) => m
    case DuplicateUsername(m) => m
    case AccessDenied(m) => m
    case AuthenticationFailed(m) => m
    case MethodArgumentNotValid(_) => "null"
    case EntityNotFound(m) => m
    case IllegalArgument(m) => m
    case IllegalState(m) => m
    case NullPointer => "null"
    case Unexpected(m) => m
  }

  /** `errors.put(error.getField(), error.getDefaultMessage())` over the
      field errors in order. */
  function FieldErrorMap(fieldErrors: seq<FieldError>): map<string, string>
    decreases |fieldErrors|
  {
    if |fieldErrors| == 0 then map[]
    else
      var last := fieldErrors[|fieldErrors| - 1];
      FieldErrorMap(fieldErrors[..|fieldErrors| - 1])[last.field := last.message]
  }

  /** The loop of `handleValidationExceptions`. */
  method CollectFieldErrors(fieldErrors: seq<FieldError>) returns (errors: map<string, string>)
    ensures errors == FieldErrorMap(fieldErrors)
  {
    errors := map[];
    var i := 0;
    while i < |fieldErrors|
      invariant 0 <= i <= |fieldErrors|
      invariant errors == FieldErrorMap(fieldErrors[..i])
    {
      assert fieldErrors[..i + 1][..i] == fieldErrors[..i];
      errors := errors[fieldErrors[i].field := fieldErrors[i].message];
      i := i + 1;
    }
    assert fieldErrors[..i] == fieldErrors;
  }

  /** The map holds exactly the rejected fields, and each field carries the
      message of its last error. */
  lemma {:induction false} FieldErrorMapLastWins(fieldErrors: seq<FieldError>)
    ensures forall f :: f in FieldErrorMap(fieldErrors) <==> exists i :: 0 <= i < |fieldErrors| && fieldErrors[i].field == f
    ensures forall i :: 0 <= i < |fieldErrors| &&
                        (forall j :: i < j < |fieldErrors| ==> fieldErrors[j].field != fieldErrors[i].field)
                        ==> FieldErrorMap(fieldErrors)[fieldErrors[i].field] == fieldErrors[i].message
    decreases |fieldErrors|
  {
    if |fieldErrors| > 0 {
      var n := |fieldErrors| - 1;
      var front := fieldErrors[..n];
      FieldErrorMapLastWins(front);
      forall f ensures f in FieldErrorMap(fieldErrors) <==> exists i :: 0 <= i < |fieldErrors| && fieldErrors[i].field == f {
        if f in FieldErrorMap(front) {
          var i :| 0 <= i < |front| && front[i].field == f;
          assert fieldErrors[i].field == f;
        }
        if exists i :: 0 <= i < |fieldErrors| && fieldErrors[i].field == f {
          var i :| 0 <= i < |fieldErrors| && fieldErrors[i].field == f;
          if i < n { assert front[i].field == f; }
        }
      }
      forall i | 0 <= i < |fieldErrors| &&
                 (forall j :: i < j < |fieldErrors| ==> fieldErrors[j].field != fieldErrors[i].field)
        ensures FieldErrorMap(fieldErrors)[fieldErrors[i].field] == fieldErrors[i].message
      {
        if i < n {
          assert front[i] == fieldErrors[i];
          assert forall j :: i < j < |front| ==> front[j] == fieldErrors[j];
        }
      }
    }
  }

  /** The response: its status and its body. */
  datatype Handled = Handled(status: int, body: ErrorResponse)

  /** The status of the handler Spring selects for the exception. */
  function StatusOf(e: Exception): int {
    match e
    case DataIntegrityViolation(_) => 409
    case ResourceNotFound(_) => 404
    case DuplicateUsername(_) => 409
    case AccessDenied(_) => 403
    case AuthenticationFailed(_) => 401
    case MethodArgumentNotValid(_) => 400
    case _ => 500
  }

  /** The message of the body the selected handler builds. */
  function MessageOf(e: Exception): string {
    match e
    case AccessDenied(m) => AccessDeniedPrefix + m
    case AuthenticationFailed(m) => AuthenticationFailedPrefix + m
    case MethodArgumentNotValid(_) => ValidationFailed
    case _ => if StatusOf(e) == 500 then ServerErrorPrefix + MessageText(e) else MessageText(e)
  }

  /** The response of the selected handler. */
  function Handle(e: Exception, now: Instant, uri: string): (r: Handled)
    ensures r.status == r.body.status == StatusOf(e)
    ensures r.body.error == ReasonPhrase(StatusOf(e)).value
    ensures r.body.timestamp == now && r.body.path == Description(uri)
    ensures r.body.message == MessageOf(e)
    ensures r.body.errors.Some? <==> e.MethodArgumentNotValid?
    ensures e.MethodArgumentNotValid? ==> r.body.errors.value == FieldErrorMap(e.fieldErrors)
  {
    var status := StatusOf(e);
    var body := match e
      case MethodArgumentNotValid(fieldErrors) =>
        NewErrorResponseWithErrors(now, status, ValidationFailed, Description(uri), FieldErrorMap(fieldErrors)).value
      case _ => NewErrorResponse(now, status, MessageOf(e), Description(uri)).value;
    Handled(status, body)
  }

  // ---------------------------------------------------------------------
  // Properties

  /** Every status a handler answers with is a client or server error, and
      the ones that carry the exception's own message verbatim are exactly
      409 and 404. */
  lemma HandlerStatuses(e: Exception, now: Instant, uri: string)
    ensures var r := Handle(e, now, uri);
      && r.status in {400, 401, 403, 404, 409, 500}
      && (r.status in {404, 409} <==> e.DataIntegrityViolation? || e.ResourceNotFound? || e.DuplicateUsername?)
      && (r.status in {404, 409} ==> r.body.message == MessageText(e))
      && (r.status == 500 <==> e.EntityNotFound? || e.IllegalArgument? || e.IllegalState? || e.NullPointer? || e.Unexpected?)
      && (r.status == 500 ==> r.body.message == ServerErrorPrefix + MessageText(e))
  {
  }

  /** A validation failure answers 400 with the fixed message and each
      rejected field's last message. */
  lemma ValidationFailureBody(fieldErrors: seq<FieldError>, now: Instant, uri: string)
    ensures var r := Handle(MethodArgumentNotValid(fieldErrors), now, uri);
      && r.status == 400 && r.body.message == ValidationFailed
      && r.body.errors.value.Keys == (set i | 0 <= i < |fieldErrors| :: fieldErrors[i].field)
      && (forall i :: 0 <= i < |fieldErrors| &&
                      (forall j :: i < j < |fieldErrors| ==> fieldErrors[j].field != fieldErrors[i].field)
                      ==> r.body.errors.value[fieldErrors[i].field] == fieldErrors[i].message)
  {
    FieldErrorMapLastWins(fieldErrors);
  }

  /** Only a validation failure's body carries the `errors` key. */
  lemma HandledJsonFields(e: Exception, now: Instant, uri: string)
    ensures "errors" in JsonFields(Handle(e, now, uri).body) <==> e.MethodArgumentNotValid?
  {
  }
}
