/** The error taxonomy of the service. `TokenExpiredError` and
    `InvalidTokenError` come from app/core/exceptions.py; the four other kinds
    are imported by the service and the dependencies but never defined, so
    they are given here as constructors of the same datatype. Each constructor
    keeps the message the raising site passes, because the exception
    handlers answer with `str(exc)` as the detail. */
module Errors {

  datatype AuthError =
    | UserAlreadyExists(field: string)
    | InvalidCredentials(message: string)
    | InactiveUser
    | InsufficientPermissions(message: string)
    | TokenExpired
    | InvalidToken(message: string)
  {
    /** `str(exc)`: the single constructor argument, or "" when the exception
        was raised without one. */
    function Detail(): string {
      match this
      case UserAlreadyExists(field) => field
      case InvalidCredentials(message) => message
      case InactiveUser => ""
      case InsufficientPermissions(message) => message
      case TokenExpired => ""
      case InvalidToken(message) => message
    }

    /** The two subclasses of `TokenError`, the only kinds the token codec raises. */
    predicate IsTokenError() {
      TokenExpired? || InvalidToken?
    }
  }
}
