/** The application's error type, its HTTP rendering and the conversion from
    database errors (backend/src/error.rs), plus the result shapes the store
    and the handlers return. */
module Errors {

  import opened Http

  /** The database errors the model produces: `fetch_one` finding zero rows,
      and a statement the database refuses (with the server's message). */
  datatype DbError = RowNotFound | Rejected(message: string)

  /** `sqlx::Error`'s `Display`. */
  function DbErrorText(e: DbError): string {
    match e
    case RowNotFound => "no rows returned by a query that expected to return at least one row"
    case Rejected(message) => "error returned from database: " + message
  }

  datatype AppError =
    | Database(err: DbError)
    | MissingCredentials
    | InvalidPassword
    | UserDoesNotExist
    | UserAlreadyExists
    | InvalidToken
    | InternalServerError
    | NASAError
    | InvalidDateRange
    | Any(reason: string)

  /** `Result<T, AppError>`. */
  datatype AppResult<T> = Ok(value: T) | Err(error: AppError)

  /** What a request handler does: return a result, or panic (an `unwrap` or
      `expect` that fails), which aborts the request with no response. A
      panic carries the text the code gives it; where `Result::expect` would
      append `: ` and the error's debug form, that suffix is left out. */
  datatype Outcome<T> = Returned(result: AppResult<T>) | Panicked(message: string)

  predicate IsCredentialError(e: AppError) {
    e.MissingCredentials? || e.UserDoesNotExist? || e.UserAlreadyExists? || e.InvalidToken? || e.InvalidPassword?
  }

  predicate IsServerError(e: AppError) {
    e.Any? || e.InternalServerError? || e.NASAError?
  }

  /** The status chosen for each variant. */
  function Status(e: AppError): (status: nat)
    ensures status == SERVICE_UNAVAILABLE <==> e.Database?
    ensures status == UNAUTHORIZED <==> IsCredentialError(e)
    ensures status == INTERNAL_SERVER_ERROR <==> IsServerError(e)
    ensures status == BAD_REQUEST <==> e.InvalidDateRange?
  {
    match e
    case Database(_) => SERVICE_UNAVAILABLE
    case Any(_) | InternalServerError | NASAError => INTERNAL_SERVER_ERROR
    case MissingCredentials | UserDoesNotExist | UserAlreadyExists | InvalidToken | InvalidPassword => UNAUTHORIZED
    case InvalidDateRange => BAD_REQUEST
  }

  /** The message chosen for each variant; a database error is shown as its own text. */
  function Message(e: AppError): (message: string)
    ensures e.Database? ==> message == DbErrorText(e.err)
  {
    match e
    case Database(err) => DbErrorText(err)
    case Any(reason) => "Internal server error! " + reason
    case MissingCredentials => "Your credentials were missing or otherwise incorrect"
    case UserDoesNotExist => "Your account does not exist!"
    case UserAlreadyExists => "There is already an account with that email address in the system"
    case InvalidToken => "Invalid Token"
    case InvalidPassword => "Invalid Password"
    case InternalServerError => "Something terrible happened"
    case NASAError => "Something terrible happened with NASA"
    case InvalidDateRange => "You used a value outside the legal date-range for NASA"
  }

  /** `impl IntoResponse for AppError`: the status groups the variants into
      store failures, credential failures, server failures and a bad request,
      and the body is a JSON object whose only key is "error". */
  function IntoResponse(e: AppError): (r: Response)
    ensures r.status == SERVICE_UNAVAILABLE <==> e.Database?
    ensures r.status == UNAUTHORIZED <==> IsCredentialError(e)
    ensures r.status == INTERNAL_SERVER_ERROR <==> IsServerError(e)
    ensures r.status == BAD_REQUEST <==> e.InvalidDateRange?
    ensures r.body.Json? && r.body.fields.Keys == {"error"}
    ensures e.Database? ==> r.body.fields["error"] == DbErrorText(e.err)
    ensures r.headers == map[CONTENT_TYPE := APPLICATION_JSON]
  {
    Response(Status(e), map[CONTENT_TYPE := APPLICATION_JSON], Json(map["error" := Message(e)]))
  }

  /** `impl From<sqlx::Error> for AppError`, used by every `?` on a query:
      each database error becomes `Database` and is answered with 503 and its
      own text. */
  function FromSqlx(e: DbError): (r: AppError)
    ensures r.Database? && r.err == e
    ensures IntoResponse(r).status == SERVICE_UNAVAILABLE
    ensures IntoResponse(r).body.fields["error"] == DbErrorText(e)
  {
    Database(e)
  }
}
