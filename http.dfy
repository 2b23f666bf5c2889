/** Values crossing the HTTP boundary: an optional value, and the outcome of a
    handler, which is either a value or an HTTP status with the reason the
    handler gave (the message of the `ApiError` it raised). */
module Http {

  datatype Option<+T> = None | Some(value: T) {
    function GetOr(default: T): T {
      match this
      case Some(v) => v
      case None => default
    }
  }

  /** Why a handler stopped: one constructor per distinct message in the controllers. */
  datatype Reason =
    // registerUser
    | MissingFields | UserExists | AvatarMissing | AvatarUploadFailed | SchemaRejected | EmailFailed
    // verifyOTP
    | UserNotFound | AlreadyVerified | InvalidOtp
    // loginUser and generateAccessAndRefreshToken
    | IdentifierRequired | UserDoesNotExist | NotVerified | BadCredentials | TokenGenerationFailed
    // verifyJwt; `TokenRejected` stands for the message of an error thrown while
    // verifying the token or casting its id
    | Unauthorized | InvalidAccessToken | TokenRejected
    // book controller
    | CategoryDoesNotExist | DuplicateBook | NoImages | ImageUploadFailed | InvalidBookId | BookNotFound
    // category controller
    | CategoryExists | NotAdmin | InvalidCategoryId | CategoryNotUpdated | CategoryNotDeleted
    // authorAndAdmin
    | RoleForbidden

  datatype Result<+T> = Ok(value: T) | Err(status: int, reason: Reason)

  datatype Unit = Unit
}
