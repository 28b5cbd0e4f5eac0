/** `ErrorResponse`: the JSON body of every error the exception handler
    returns. The `error` field is the reason phrase of the status; `errors`
    is present only for validation failures (`null` fields are left out of
    the JSON). */
module ErrorResponses {
  import opened Common
  import opened UserEntity

  /** `HttpStatus.valueOf(status).getReasonPhrase()` for the statuses the
      application produces; `valueOf` throws for a code it does not know. */
  function ReasonPhrase(status: int): (r: Option<string>)
    ensures r.Some? <==> status in {200, 201, 400, 401, 403, 404, 409, 500}
    ensures r.Some? ==> |r.value| > 0
  {
    match status
    case 200 => Some("OK")
    case 201 => Some("Created")
    case 400 => Some("Bad Request")
    case 401 => Some("Unauthorized")
    case 403 => Some("Forbidden")
    case 404 => Some("Not Found")
    case 409 => Some("Conflict")
    case 500 => Some("Internal Server Error")
    case _ => None
  }

  datatype ErrorResponse = ErrorResponse(
    timestamp: Instant,
    status: int,
    error: string,
    message: string,
    path: string,
    errors: Option<map<string, string>>)

  /** The four-argument constructor. */
  function NewErrorResponse(timestamp: Instant, status: int, message: string, path: string): (r: Option<ErrorResponse>)
    ensures r.Some? <==> ReasonPhrase(status).Some?
    ensures r.Some? ==> r.value.status == status && r.value.error == ReasonPhrase(status).value
    ensures r.Some? ==> r.value.timestamp == timestamp && r.value.message == message && r.value.path == path
    ensures r.Some? ==> r.value.errors.None?
  {
    match ReasonPhrase(status)
    case None => None
    case Some(phrase) => Some(ErrorResponse(timestamp, status, phrase, message, path, None))
  }

  /** The five-argument constructor: the four-argument one, then `errors`. */
  function NewErrorResponseWithErrors(timestamp: Instant, status: int, message: string, path: string,
                                      errors: map<string, string>): (r: Option<ErrorResponse>)
    ensures r.Some? <==> NewErrorResponse(timestamp, status, message, path).Some?
    ensures r.Some? ==> r.value == NewErrorResponse(timestamp, status, message, path).value.(errors := Some(errors))
  {
    match NewErrorResponse(timestamp, status, message, path)
    case None => None
    case Some(e) => Some(e.(errors := Some(errors)))
  }

  /** The JSON keys of the serialised body: a `null` field is left out, and
      only `errors` can be `null`. */
  function JsonFields(e: ErrorResponse): (r: set<string>)
    ensures "errors" in r <==> e.errors.Some?
    ensures r - {"errors"} == {"timestamp", "status", "error", "message", "path"}
  {
    {"timestamp", "status", "error", "message", "path"} + (if e.errors.Some? then {"errors"} else {})
  }
}
