/**
 * The back end's error type and how each variant is rendered as an HTTP
 * response: four client-visible statuses, everything else an internal error.
 */
module AppErrors {

  /** The causes an `InvalidAuth` error can carry, with their display messages. */
  datatype InvalidAuthError = Base64 | Encryption | Utf8 | MissingRefreshToken

  /**
   * The database driver's errors, reduced to the one variant the back end inspects;
   * each carries the driver's display text.
   */
  datatype SqlxError = RowNotFound(description: string) | OtherSqlx(description: string)

  datatype AppError =
    | InvalidAuth(auth: InvalidAuthError)
    | GithubAuth(message: string)
    | AuthFailed(cause: string)
    | Database(db: SqlxError)
    | SessionConflict
    | NotFound
    | Unauthorized
    | ProjectExists
    | Other(cause: string)

  /** Response body: nothing, a JSON `{"error": ..}` object (debug builds) or plain text (release builds). */
  datatype Body = Empty | JsonError(error: string) | Text(text: string)

  datatype HttpResponse = HttpResponse(status: nat, body: Body)

  /** The text the release build sends with every internal error. */
  const GenericMessage: string := "Something went wrong"

  function InvalidAuthMessage(e: InvalidAuthError): string
  {
    match e
    case Base64 => "invalid base64"
    case Encryption => "invalid aes encryption"
    case Utf8 => "invalid utf-8"
    case MissingRefreshToken => "missing refresh token"
  }

  /** The message an internal error carries into the debug-build body. */
  function ErrorMessage(e: AppError): string
  {
    match e
    case InvalidAuth(a) => InvalidAuthMessage(a)
    case Database(d) => d.description
    case GithubAuth(m) => "Github auth failed: " + m
    case AuthFailed(c) => c
    case Other(c) => c
    case _ => ""
  }

  /** Whether an error is one of the four with a dedicated client status. */
  predicate IsClientError(e: AppError)
  {
    e.NotFound? || e.Unauthorized? || e.SessionConflict? || e.ProjectExists?
  }

  /**
   * `into_response`: the four client errors get 404, 401, 409 and 422 and an empty
   * body; every other variant gets 500, with its message in debug builds and a
   * fixed text otherwise.
   */
  function IntoResponse(e: AppError, debugAssertions: bool): (r: HttpResponse)
    ensures e.NotFound? <==> r.status == 404
    ensures e.Unauthorized? <==> r.status == 401
    ensures e.SessionConflict? <==> r.status == 409
    ensures e.ProjectExists? <==> r.status == 422
    ensures !IsClientError(e) <==> r.status == 500
    ensures IsClientError(e) <==> r.body == Empty
    ensures !IsClientError(e) && debugAssertions ==> r.body == JsonError(ErrorMessage(e))
    ensures !IsClientError(e) && !debugAssertions ==> r.body == Text(GenericMessage)
  {
    match e
    case NotFound => HttpResponse(404, Empty)
    case Unauthorized => HttpResponse(401, Empty)
    case SessionConflict => HttpResponse(409, Empty)
    case ProjectExists => HttpResponse(422, Empty)
    case _ => HttpResponse(500, if debugAssertions then JsonError(ErrorMessage(e)) else Text(GenericMessage))
  }

  /** `From<sqlx::Error>`: a missing row becomes `NotFound`, anything else a database error. */
  function FromSqlx(err: SqlxError): (e: AppError)
    ensures err.RowNotFound? <==> e == NotFound
    ensures !err.RowNotFound? <==> e == Database(err)
    ensures IntoResponse(e, false).status == (if err.RowNotFound? then 404 else 500)
  {
    match err
    case RowNotFound(_) => NotFound
    case _ => Database(err)
  }

  /** `From<InvalidAuthError>`. */
  function FromInvalidAuth(err: InvalidAuthError): (e: AppError)
    ensures e == InvalidAuth(err) && IntoResponse(e, false).status == 500
  {
    InvalidAuth(err)
  }

  /** `AppError::auth_failed`: wraps the cause; it surfaces as an internal error carrying that cause. */
  function AuthFailedFrom(cause: string): (e: AppError)
    ensures e.AuthFailed? && e.cause == cause
    ensures IntoResponse(e, true) == HttpResponse(500, JsonError(cause))
  {
    AuthFailed(cause)
  }

  /** `AppError::other`: wraps the cause; it surfaces as an internal error carrying that cause. */
  function OtherFrom(cause: string): (e: AppError)
    ensures e.Other? && e.cause == cause
    ensures IntoResponse(e, true) == HttpResponse(500, JsonError(cause))
  {
    Other(cause)
  }
}
