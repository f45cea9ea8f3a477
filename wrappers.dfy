/** Option and Result, used for nullable values and for thrown exceptions. */
module Wrappers {

  datatype Option<+T> = None | Some(value: T) {
    function GetOr(default: T): T {
      match this
      case Some(v) => v
      case None => default
    }
  }

  datatype Result<+R, +E> = Ok(value: R) | Err(error: E)
}

/** The exceptions the auth layer throws, as Nest turns them into HTTP responses. */
module HttpErrors {

  datatype HttpError =
    | BadRequest(message: string)     // BadRequestException(message)
    | Unauthorized(message: string)   // UnauthorizedException(message)
    | InternalServerError             // an uncaught repository error

  const EmailInUse := "Email already in use"
  const RegistrationFailed := "Registration failed"
  const InvalidCredentials := "Invalid credentials"
  const GoogleAuthFailed := "Google authentication failed"
  const InvalidToken := "Invalid token"
  /** The message of the exception passport raises when it rejects a request itself. */
  const PassportUnauthorized := "Unauthorized"
}
