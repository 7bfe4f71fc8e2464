/** API error responses: the error-code to HTTP-status table, the wrapped
    error record handlers return, and the central error handler that turns
    an error into either a rendered error page or a JSON body. */
module Errors {
  import opened Common

  // Validation errors
  const ErrValidationFailed: string := "VALIDATION_FAILED"
  const ErrRequiredFieldMissing: string := "REQUIRED_FIELD_MISSING"
  const ErrInvalidInput: string := "INVALID_INPUT"
  const ErrInvalidPagination: string := "INVALID_PAGINATION"
  // Authentication errors
  const ErrAuthenticationFailed: string := "AUTHENTICATION_FAILED"
  const ErrInvalidCredentials: string := "INVALID_CREDENTIALS"
  // Authorization errors
  const ErrUnauthorized: string := "UNAUTHORIZED"
  const ErrForbidden: string := "FORBIDDEN"
  // Not found
  const ErrResourceNotFound: string := "RESOURCE_NOT_FOUND"
  // Server errors
  const ErrOperationFailed: string := "OPERATION_FAILED"
  const ErrInternalError: string := "INTERNAL_ERROR"

  const StatusOK: int := 200
  const StatusCreated: int := 201
  const StatusBadRequest: int := 400
  const StatusUnauthorized: int := 401
  const StatusForbidden: int := 403
  const StatusNotFound: int := 404
  const StatusInternalServerError: int := 500

  const ValidationCodes: set<string> :=
    {ErrValidationFailed, ErrRequiredFieldMissing, ErrInvalidInput, ErrInvalidPagination}
  const AuthenticationCodes: set<string> := {ErrAuthenticationFailed, ErrInvalidCredentials}
  const AuthorizationCodes: set<string> := {ErrUnauthorized, ErrForbidden}
  const ServerCodes: set<string> := {ErrOperationFailed, ErrInternalError}

  /** errorCodeToHTTPStatus. */
  const ErrorCodeToHttpStatus: map<string, int> := map[
    ErrValidationFailed := StatusBadRequest,
    ErrRequiredFieldMissing := StatusBadRequest,
    ErrInvalidInput := StatusBadRequest,
    ErrInvalidPagination := StatusBadRequest,
    ErrAuthenticationFailed := StatusUnauthorized,
    ErrInvalidCredentials := StatusUnauthorized,
    ErrUnauthorized := StatusForbidden,
    ErrForbidden := StatusForbidden,
    ErrResourceNotFound := StatusNotFound,
    ErrOperationFailed := StatusInternalServerError,
    ErrInternalError := StatusInternalServerError]

  /** The status of an error code: its category's status, and 500 for a
      code the table does not know. */
  function StatusOf(errorCode: string): (code: int)
    ensures errorCode in ValidationCodes ==> code == StatusBadRequest
    ensures errorCode in AuthenticationCodes ==> code == StatusUnauthorized
    ensures errorCode in AuthorizationCodes ==> code == StatusForbidden
    ensures errorCode == ErrResourceNotFound ==> code == StatusNotFound
    ensures errorCode in ServerCodes ==> code == StatusInternalServerError
    ensures (errorCode !in ValidationCodes + AuthenticationCodes + AuthorizationCodes + ServerCodes
             && errorCode != ErrResourceNotFound) ==> code == StatusInternalServerError
  {
    if errorCode in ErrorCodeToHttpStatus then ErrorCodeToHttpStatus[errorCode]
    else StatusInternalServerError
  }

  /** HTTPError without the caller's file and line. The wrapped error and
      the details are carried by their text; None stands for nil. */
  datatype HttpError = HttpError(code: int, msg: string, err: Option<string>, errorCode: string, details: Option<string>)

  /** wrapError: the status comes from the table, everything else is kept. */
  function WrapError(errorCode: string, msg: string, err: Option<string>, details: Option<string>): (he: HttpError)
    ensures he.code == StatusOf(errorCode)
    ensures he.msg == msg && he.err == err && he.errorCode == errorCode && he.details == details
  {
    HttpError(StatusOf(errorCode), msg, err, errorCode, details)
  }

  /** A handler's reply: the error it returns, or the JSON it sends. */
  datatype Reply<T> = Failed(he: HttpError) | Sent(status: int, body: T)

  /** The error reaching the handler: one of ours, or any other error. */
  datatype HandlerError = Wrapped(he: HttpError) | Plain(text: string)

  datatype Response =
    | NotWritten
    | ErrorPage(status: int, message: string)
    | Json(status: int, body: map<string, string>)

  /** The message given to any error that is not an HTTPError. */
  const GenericMessage: string := "error processing the request"

  /** ErrorHandler: nothing once the response is committed; otherwise the
      status, message, code and details of an HTTPError (or 500, the generic
      message and INTERNAL_ERROR for any other error), rendered as a page
      under a "/view" path and as JSON elsewhere. */
  method ErrorHandler(committed: bool, err: HandlerError, path: string) returns (resp: Response)
    ensures committed <==> resp.NotWritten?
    ensures !committed ==> (resp.ErrorPage? <==> Contains(path, "/view"))
    ensures resp.ErrorPage? ==>
      (err.Wrapped? ==> resp.status == err.he.code && resp.message == err.he.msg)
      && (err.Plain? ==> resp.status == StatusInternalServerError && resp.message == GenericMessage)
    ensures resp.Json? ==>
      && resp.body.Keys <= {"error", "code", "details"}
      && "error" in resp.body && "code" in resp.body
      && (err.Wrapped? ==>
           && resp.status == err.he.code && resp.body["error"] == err.he.msg
           && resp.body["code"] == err.he.errorCode
           && ("details" in resp.body <==> err.he.details.Some?)
           && (err.he.details.Some? ==> resp.body["details"] == err.he.details.value))
      && (err.Plain? ==>
           && resp.status == StatusInternalServerError && resp.body["error"] == GenericMessage
           && resp.body["code"] == ErrInternalError && "details" !in resp.body)
  {
    if committed {
      return NotWritten;
    }
    var code := StatusInternalServerError;
    var msg := GenericMessage;
    var errorCode := ErrInternalError;
    var details: Option<string> := None;
    if err.Wrapped? {
      code := err.he.code;
      msg := err.he.msg;
      errorCode := err.he.errorCode;
      details := err.he.details;
    }
    if Contains(path, "/view") {
      resp := ErrorPage(code, msg);
    } else {
      var body := map["error" := msg, "code" := errorCode];
      if details.Some? {
        body := body["details" := details.value];
      }
      resp := Json(code, body);
    }
  }
}
