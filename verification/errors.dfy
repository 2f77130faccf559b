/**
 * The Go `error` values that flow through the core, one constructor per
 * error the code creates or tests for, and the result of an operation
 * that returns a value and an error.
 */
module Errors {
  import opened ObjectIds

  datatype Error =
    | NoDocuments                     // mongo.ErrNoDocuments
    | DuplicateKey(detail: string)    // a write error the unique index raised (mongo.IsDuplicateKeyError)
    | StoreFailure(detail: string)    // any other driver or server failure
    | InvalidIdFormat(cause: HexError)  // "invalid user ID format: %w"
    | PasswordTooLong                 // bcrypt.ErrPasswordTooLong
    | TokenMalformed(detail: string)  // jwt.ParseWithClaims refused the token's form or signature
    | InvalidClaims(expired: bool, notYetValid: bool)  // jwt.ErrTokenInvalidClaims wrapping the validator's errors
    | InvalidKey                      // jwt.ErrInvalidKey
    | TokenExpired                    // jwt.ErrTokenExpired
    | TokenNotValidYet                // jwt.ErrTokenNotValidYet
    | SigningFailed(detail: string)   // token.SignedString failed
    | Message(text: string)           // an error built with fmt.Errorf

  /** The message the guard and the handlers refuse a request without a valid identity with. */
  const Unauthorized: string := "Unauthorized"

  /** A value and an error as Go returns them: the value is meaningful only without error. */
  datatype Result<+T> = Ok(value: T) | Fail(err: Error)

  function HexErrorText(h: HexError): string {
    match h
    case WrongLength => "the provided hex string is not a valid ObjectID"
    case InvalidByte => "encoding/hex: invalid byte"
  }

  /** `err.Error()`. */
  function Text(e: Error): string {
    match e
    case NoDocuments => "mongo: no documents in result"
    case DuplicateKey(d) => d
    case StoreFailure(d) => d
    case InvalidIdFormat(h) => "invalid user ID format: " + HexErrorText(h)
    case PasswordTooLong => "bcrypt: password length exceeds 72 bytes"
    case TokenMalformed(d) => d
    case InvalidClaims(expired, notYetValid) =>
      "token has invalid claims: " +
      (if expired && notYetValid then "token is expired\ntoken is not valid yet"
       else if expired then "token is expired"
       else "token is not valid yet")
    case InvalidKey => "key is invalid"
    case TokenExpired => "token is expired"
    case TokenNotValidYet => "token is not valid yet"
    case SigningFailed(d) => d
    case Message(t) => t
  }
}
