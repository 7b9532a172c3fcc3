/** The exception handlers (app/core/handlers.py): each error kind of the
    service is answered with one status code, with `str(exc)` as the detail
    and, for invalid credentials only, a `WWW-Authenticate: Bearer` header. */
module Handlers {
  import opened Errors

  const HTTP_400_BAD_REQUEST := 400
  const HTTP_401_UNAUTHORIZED := 401
  const HTTP_403_FORBIDDEN := 403
  const HTTP_409_CONFLICT := 409

  datatype ErrorReply = ErrorReply(status: int, detail: string, wwwAuthenticate: bool)

  /** The six handlers as one total table. */
  function HandleError(e: AuthError): (r: ErrorReply)
    ensures r.detail == e.Detail()
    ensures r.wwwAuthenticate <==> e.InvalidCredentials?
    ensures r.status == HTTP_401_UNAUTHORIZED <==> e.InvalidCredentials? || e.IsTokenError()
    ensures r.status == HTTP_403_FORBIDDEN <==> e.InactiveUser? || e.InsufficientPermissions?
    ensures r.status == HTTP_409_CONFLICT <==> e.UserAlreadyExists?
  {
    match e
    case UserAlreadyExists(_) => ErrorReply(HTTP_409_CONFLICT, e.Detail(), false)
    case InvalidCredentials(_) => ErrorReply(HTTP_401_UNAUTHORIZED, e.Detail(), true)
    case InactiveUser => ErrorReply(HTTP_403_FORBIDDEN, e.Detail(), false)
    case InsufficientPermissions(_) => ErrorReply(HTTP_403_FORBIDDEN, e.Detail(), false)
    case TokenExpired => ErrorReply(HTTP_401_UNAUTHORIZED, e.Detail(), false)
    case InvalidToken(_) => ErrorReply(HTTP_401_UNAUTHORIZED, e.Detail(), false)
  }

  /** Expired and invalid tokens cannot be told apart by status or header,
      only by the detail; an inactive account and a missing role share 403. */
  lemma StatusesShared(message: string, other: string)
    ensures HandleError(TokenExpired).status == HandleError(InvalidToken(message)).status
    ensures !HandleError(TokenExpired).wwwAuthenticate && !HandleError(InvalidToken(message)).wwwAuthenticate
    ensures HandleError(InactiveUser).status == HandleError(InsufficientPermissions(other)).status
    ensures HandleError(InvalidToken(message)).status == HandleError(InvalidCredentials(other)).status
  {
  }
}
