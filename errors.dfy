/**
 * The application's exception types and the global handler that turns each
 * into an HTTP response (exception/GlobalExceptionHandler.java).
 */
module Errors {

  /** One constructor per exception class the handler distinguishes. */
  datatype ErrorKind =
    | ResourceNotFound
    | BadRequest
    | Unauthorized
    | EventFull
    | RegistrationClosed
    | DuplicateRegistration
    /** Any other exception (a plain RuntimeException, a constraint violation). */
    | Generic

  /** A thrown exception: its class and its message. */
  datatype Error = Error(kind: ErrorKind, message: string)

  /** The outcome of a service call: a value, or the exception it threw. */
  datatype Result<+T> = Ok(value: T) | Err(error: Error) {
    predicate FailsWith(k: ErrorKind) {
      Err? && error.kind == k
    }
  }

  /** The error body the handler writes (its timestamp is left out). */
  datatype ErrorResponse = ErrorResponse(status: int, error: string, message: string, path: string)

  /** The HTTP status the handler chooses for each exception class. */
  function StatusCode(k: ErrorKind): (code: int)
    ensures code == 404 <==> k == ResourceNotFound
    ensures code == 400 <==> k == BadRequest
    ensures code == 403 <==> k == Unauthorized
    ensures code == 409 <==> k in {EventFull, RegistrationClosed, DuplicateRegistration}
    ensures code == 500 <==> k == Generic
    ensures code != 401
  {
    match k
    case ResourceNotFound => 404
    case BadRequest => 400
    case Unauthorized => 403
    case EventFull => 409
    case RegistrationClosed => 409
    case DuplicateRegistration => 409
    case Generic => 500
  }

  /** The reason phrase the handler puts in the body's `error` field. */
  function ErrorTitle(k: ErrorKind): string {
    match k
    case ResourceNotFound => "Not Found"
    case BadRequest => "Bad Request"
    case Unauthorized => "Forbidden"
    case EventFull => "Event Full"
    case RegistrationClosed => "Registration Closed"
    case DuplicateRegistration => "Duplicate Registration"
    case Generic => "Internal Server Error"
  }

  /** The response for an exception thrown while serving `path`. */
  function HandleError(e: Error, path: string): (r: ErrorResponse)
    ensures r.status == StatusCode(e.kind) && r.message == e.message && r.path == path
    ensures r.error == ErrorTitle(e.kind)
  {
    ErrorResponse(StatusCode(e.kind), ErrorTitle(e.kind), e.message, path)
  }

  /** The three conflict exceptions share one status but keep distinct titles. */
  lemma ConflictsDistinguishedByTitle(a: ErrorKind, b: ErrorKind)
    requires StatusCode(a) == 409 && StatusCode(b) == 409 && a != b
    ensures ErrorTitle(a) != ErrorTitle(b)
  {
  }

  // ---------------------------------------------------------------------
  // Bean-validation failures: a map from field name to message.
  // ---------------------------------------------------------------------

  datatype FieldError = FieldError(field: string, message: string)

  /** The map that results from putting every error in order: a later error overwrites an earlier one. */
  function FieldErrorMap(errors: seq<FieldError>): map<string, string>
  {
    if errors == [] then map[]
    else
      var last := errors[|errors| - 1];
      FieldErrorMap(errors[..|errors| - 1])[last.field := last.message]
  }

  /** handleValidationExceptions: fills a HashMap in a forEach loop; the response status is 400. */
  method HandleValidationErrors(errors: seq<FieldError>) returns (status: int, body: map<string, string>)
    ensures status == StatusCode(BadRequest)
    ensures body == FieldErrorMap(errors)
  {
    body := map[];
    for i := 0 to |errors|
      invariant body == FieldErrorMap(errors[..i])
    {
      assert errors[..i + 1][..i] == errors[..i];
      body := body[errors[i].field := errors[i].message];
    }
    assert errors[..|errors|] == errors;
    status := 400;
  }

  /** Exactly the fields that have at least one error appear in the map. */
  lemma {:induction false} FieldErrorMapKeys(errors: seq<FieldError>, f: string)
    ensures f in FieldErrorMap(errors) <==> exists i :: 0 <= i < |errors| && errors[i].field == f
  {
    if errors != [] {
      var init := errors[..|errors| - 1];
      FieldErrorMapKeys(init, f);
      if f in FieldErrorMap(init) {
        var i :| 0 <= i < |init| && init[i].field == f;
        assert errors[i].field == f;
      }
      if exists i :: 0 <= i < |errors| && errors[i].field == f {
        var i :| 0 <= i < |errors| && errors[i].field == f;
        if i < |errors| - 1 {
          assert init[i].field == f;
        }
      }
    }
  }

  /** The message kept for a field is the one of its last error. */
  lemma {:induction false} FieldErrorMapLastWins(errors: seq<FieldError>, i: int)
    requires 0 <= i < |errors|
    requires forall j :: i < j < |errors| ==> errors[j].field != errors[i].field
    ensures errors[i].field in FieldErrorMap(errors)
    ensures FieldErrorMap(errors)[errors[i].field] == errors[i].message
  {
    if i < |errors| - 1 {
      var init := errors[..|errors| - 1];
      FieldErrorMapLastWins(init, i);
    }
  }
}
