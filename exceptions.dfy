/** The exceptions the services and the framework raise, as one closed set of
    kinds, and the `Result` a service call produces instead of throwing. */
module Exceptions {

  /** One entry of a binding result: the rejected field and the constraint's
      message. */
  datatype FieldError = FieldError(field: string, message: string)

  datatype Exception =
    /** `org.springframework.dao.DataIntegrityViolationException`: the
        database refused a write (a foreign key or unique constraint). */
    | DataIntegrityViolation(message: string)
    /** `ResourceNotFoundException` */
    | ResourceNotFound(message: string)
    /** `DuplicateUsernameException` */
    | DuplicateUsername(message: string)
    /** `org.springframework.security.access.AccessDeniedException` */
    | AccessDenied(message: string)
    /** `org.springframework.security.core.AuthenticationException` */
    | AuthenticationFailed(message: string)
    /** `MethodArgumentNotValidException`, with the binding result's field
        errors in order. */
    | MethodArgumentNotValid(fieldErrors: seq<FieldError>)
    /** `jakarta.persistence.EntityNotFoundException` */
    | EntityNotFound(message: string)
    /** `IllegalArgumentException` */
    | IllegalArgument(message: string)
    /** `IllegalStateException` */
    | IllegalState(message: string)
    /** `NullPointerException` (unboxing a `null` counter) */
    | NullPointer
    /** Any other exception. */
    | Unexpected(message: string)

  /** The message of the `DataIntegrityViolationException` raised when the
      database refuses a delete because a foreign key still points at the
      row. The driver's real text depends on the database and is not
      modelled; this placeholder only lets a refusal be told apart from
      other failures. */
  const ForeignKeyViolation: string := "foreign key constraint violated"

  /** What a service call returns: a value, or the exception it throws. */
  datatype Result<+T> = Ok(value: T) | Err(error: Exception)
}
