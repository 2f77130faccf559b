# User service core of backend-challenge, in Dafny

A model of the core of a small Go CRUD backend for user accounts. Users register, log in, read their own record, list users, change their name and email, and delete their account over HTTP. Records live in a MongoDB collection `users`.

The model covers six pieces:

- **`UserRepository`** — the repository (`internal/repository/user_repository.go`).
  - Each call is a function on an ordered table of `User` documents.
  - Two unique indexes guard the table: the implicit one on `_id` and the `email` index created at start-up.
  - `ObjectIDFromHex` parsing, the `_id` the driver generates for a document without one, and BSON's millisecond time resolution are modelled.
  - `UserStore` is the repository object: a class whose write methods change its table in place and keep both indexes (`Valid`).
- **`UserService`** — the service (`internal/service/user_service.go`).
  - Each operation takes the repository as the answers it gives to each call, which is how the tests mock it.
  - It returns its result together with the repository calls it made, in order.
  - bcrypt is a `Hasher` with the two properties the service relies on (`IsBcrypt`).
  - `jwt.GenerateJwt` is the minting function.
  - `GetUserList`'s append loop is a method proved against `ListResponseOf`.
- **`Jwt`** — the claims `GenerateJwt` signs and the checks `ValidateJwt` makes.
  - `ParseWithClaims` first decodes the token and checks its signature, then applies the golang-jwt v5 default validator at its own clock read (`parsedAt`): `exp` must be after it and `nbf` not after it.
  - The core's own expiry, issued-at and not-before checks follow, at the core's later clock read (`now`).
  - When both reads give a single instant, only the issued-at check can still fire (`ExplicitExpiryUnreachable`). When the expiry falls between the two reads, the core's expiry check fires (`ExpiryBetweenClockReads`).
  - Dates are kept at the whole-second resolution of `NumericDate`.
  - Signing, and decoding with signature verification, are an abstract `Signer` whose tokens decode back to their claims (`IsSigner`).
- **`JwtMiddleware`** — the bearer-header guard, with its reversed prefix test modelled as written.
- **`Json`** — `JoinErrors`, a loop-based method proved against the reference `JoinedErrors`.
- **`UserController`** — the six handlers. Each makes at most one service call and maps its outcome to a 200 or 400 reply. The steps before that call differ by handler:
  - `GetMe` and `UserDelete` only check the caller's id from the context (401).
  - `UserListGet` decodes the body and defaults page and limit.
  - `UserRegister` and `UserLogin` decode, validate and lower-case the email.
  - `UserUpdate` decodes, checks the caller's id (401), validates and lower-cases the email.

`UserFlows` runs the service against the table semantics:
- `Serves(repo, users, …)` says a repository answers every call from the table `users`.
- `Commit` applies an operation's write calls to the table.
- The lemmas there chain operations: register then get, register then login then an authenticated request, update then get, delete then get. They also prove that no sequence of writes breaks the unique indexes.

Where the code and its design notes disagree, the model follows the code:
- **Middleware prefix test.** The middleware calls `strings.HasPrefix("Bearer ", header)`, the reverse of the intended test. A header without the `Bearer ` prefix is therefore validated as a bare token (`BearerPrefixOptional`), and the empty-token check can never fire (`EmptyTokenUnreachable`).
- **Caller identity.** The identity passed on is the `UserId` claim, not `sub`. The two are equal on every token `GenerateJwt` makes.
- **Login on a zero record.** `LoginUser` answers a zero record with an empty response and no error.
- **Delete on a zero record.** `DeleteUser` has no zero-record check; it deletes by the nil id (`DeleteZeroRecord`).
- **Register ignores token errors.** `RegisterUser` ignores the error of `GenerateJwt` and answers with an empty token.
- **Unwrapped errors.** Storage errors are passed through unwrapped.
- **Where the email is lower-cased.** Lower-casing happens in the handlers, after validation, not in the service.

## Model

| member | source | states |
|---|---|---|
| Go.Wrap64 | internal/service/user_service.go:59 | Go's 64-bit `int` arithmetic: in-range results are kept, others wrap modulo 2^64 |
| Go.Utf8Width | internal/service/user_service.go:83 | a character takes 1 to 4 bytes in UTF-8, and exactly 1 iff it is ASCII |
| Go.ByteLength | internal/service/user_service.go:83 | `len` of a string counts UTF-8 bytes: between one and four per character, equal to the character count iff ASCII |
| Go.TrimPrefix | internal/core/middleware/jwt_middleware.go:22 | removes exactly one leading prefix when present, and otherwise returns the string unchanged |
| Go.Join | internal/core/util/json/json.go:45-57 | `strings.Join` of no elements is "", and of one element is that element |
| ObjectIds.HexDigit | internal/service/user_service.go:52 | `Hex` writes nibbles as lower-case hexadecimal digits |
| ObjectIds.DigitValue | internal/repository/user_repository.go:35 | a hexadecimal digit's value is below 16 and inverts `HexDigit` on lower-case digits |
| ObjectIds.EncodeHex | internal/service/user_service.go:52 | two lower-case hex digits per byte |
| ObjectIds.DecodeHex | internal/repository/user_repository.go:35 | decoding halves the length |
| ObjectIds.Hex | internal/service/user_service.go:52 | `ObjectID.Hex()` is 24 lower-case hexadecimal digits, a form `ObjectIDFromHex` accepts |
| ObjectIds.ObjectIdFromHex | internal/repository/user_repository.go:35-39 | accepts exactly 24 hexadecimal digits in either case; the wrong-length error is raised iff the byte length is not 24 |
| ObjectIds.DecodeEncodeHex | internal/repository/user_repository.go:35 | hex decoding inverts hex encoding on every byte string |
| ObjectIds.HexRoundTrip | internal/repository/user_repository.go:35-41 | every id parses back from its `Hex()` form |
| ObjectIds.HexInjective | internal/service/user_service.go:52 | distinct ids have distinct hexadecimal forms |
| UserRepository.ToBsonTime | internal/repository/user_repository.go:99 | a stored time is truncated to a whole millisecond, at most 1 ms earlier |
| UserRepository.FindFirst | internal/repository/user_repository.go:43 | `FindOne` returns the first document in natural order that matches the filter, or none when nothing matches |
| UserRepository.LookupById | internal/repository/user_repository.go:33-49 | a malformed id fails with the format error; otherwise the result is the document with that `_id` iff one is stored, else `ErrNoDocuments` |
| UserRepository.LookupByEmail | internal/repository/user_repository.go:81-91 | finds a stored document with exactly that email iff there is one, else `ErrNoDocuments` |
| UserRepository.Page | internal/repository/user_repository.go:51-70 | a negative skip is refused; otherwise a contiguous run of the table from `offset`, at most `limit` long (no bound when 0), ending at the table's end when shorter |
| UserRepository.Insert | internal/repository/user_repository.go:72-79 | succeeds iff neither the document's `_id` nor its email is already stored; success appends the stored document and returns the input; failure is a duplicate key with the table unchanged |
| UserRepository.InsertConsistent | internal/core/db/mongo.go:64-69 | an insert keeps `_id` and email unique |
| UserRepository.Overwrite | internal/repository/user_repository.go:93-109 | returns the input on success; no matching `_id` is a success that changes nothing; a duplicate key changes nothing; records with other ids are untouched |
| UserRepository.OverwriteConsistent | internal/repository/user_repository.go:94-102 | on success the matching record gets the new name, email, password and update time and keeps its id and creation time; refused iff another record holds the email; the update keeps both indexes |
| UserRepository.Remove | internal/repository/user_repository.go:111-126 | a malformed id fails with the format error and deletes nothing; a parsed id always succeeds, removing one record when it is stored and none otherwise |
| UserRepository.RemoveAtFacts | internal/repository/user_repository.go:120 | dropping one position of a consistent table keeps it consistent and leaves exactly the records with other ids |
| UserRepository.RemoveConsistent | internal/repository/user_repository.go:111-126 | a delete leaves exactly the records with other ids and keeps both indexes |
| UserRepository.LookupByIdFinds | internal/repository/user_repository.go:33-49 | every stored record is found by the `Hex()` of its id |
| UserRepository.LookupByEmailFinds | internal/repository/user_repository.go:81-91 | every stored record is found by its email |
| UserRepository.UserStore.constructor | internal/repository/user_repository.go:27-31 | a new repository holds the collection's existing documents, on which both indexes hold |
| UserRepository.UserStore.GetUserById | internal/repository/user_repository.go:33-49 | answers by `LookupById` on the held table |
| UserRepository.UserStore.GetUserList | internal/repository/user_repository.go:51-70 | answers by `Page` on the held table |
| UserRepository.UserStore.GetUserByEmail | internal/repository/user_repository.go:81-91 | answers by `LookupByEmail` on the held table |
| UserRepository.UserStore.SaveUser | internal/repository/user_repository.go:72-79 | the table and reply become those of `Insert`, and both indexes still hold |
| UserRepository.UserStore.UpdateUser | internal/repository/user_repository.go:93-109 | the table and reply become those of `Overwrite`, and both indexes still hold |
| UserRepository.UserStore.DeleteUser | internal/repository/user_repository.go:111-126 | the table and reply become those of `Remove`, and both indexes still hold |
| UserService.GetUserByID | internal/service/user_service.go:37-56 | one lookup; `ErrNoDocuments` or a zero record gives "user with id … not found"; other errors pass through; success iff a non-zero record was found, with its hex id, name and email |
| UserService.Offset | internal/service/user_service.go:59 | the skip is `(page - 1) * limit`, non-negative whenever it fits in 64 bits |
| UserService.ListResponseOf | internal/service/user_service.go:67-79 | one item per listed user, in order, with hex id, name and email; the page echoed; a nil slice exactly when no user was listed |
| UserService.ListResponseGrows | internal/service/user_service.go:68-74 | one more loop turn appends the next user's item, allocating the slice on the first |
| UserService.GetUserList | internal/service/user_service.go:58-80 | one list call with the computed offset and the limit; a repository error passes through; otherwise the result is `ListResponseOf` the listed users |
| UserService.RegisterUser | internal/service/user_service.go:82-110 | a hashing error returns before any call; otherwise one save of the new record (new id, name, email, hash, both times now); duplicate key becomes "email … is already registered"; other errors pass through; success carries the saved record's id, name and email, with an empty token if minting failed |
| UserService.LoginUser | internal/service/user_service.go:112-145 | one lookup by email; an unknown email or a wrong password gives "invalid email or password"; a zero record gives an empty response and no error; a token error passes through; success carries the record's id, name, email and token |
| UserService.UpdateUser | internal/service/user_service.go:147-181 | lookup first; a second call, an update, happens iff a non-zero record was found; it writes that record with only name and email replaced; duplicate key becomes "email … is already exists"; success carries the updated record's id, name and email |
| UserService.DeleteUser | internal/service/user_service.go:183-200 | lookup first; `ErrNoDocuments` gives not found and other errors pass through; any fetched record, zero or not, is deleted by its hex id and the delete's outcome is the result |
| UserService.LoginFailuresIndistinguishable | internal/service/user_service.go:114-131 | an unknown email and a wrong password produce identical results |
| UserService.RegisterHashing | internal/service/user_service.go:83-95 | under bcrypt, registration makes no call iff the password exceeds 72 bytes, and then fails with the bcrypt error; a stored hash verifies against the plaintext |
| UserService.DeleteZeroRecord | internal/service/user_service.go:184-194 | a zero record read back still leads to a delete call, for the nil id |
| Jwt.NumericDate | internal/core/util/jwt/jwt.go:28-30 | a claim date is the time truncated to a whole second |
| Jwt.NumericDateMonotone | internal/core/util/jwt/jwt.go:28-30 | truncation to seconds keeps the order of times |
| Jwt.Lifetime | internal/core/util/jwt/jwt.go:28 | the token lifetime is `expireIn` milliseconds, in nanoseconds, exact when it fits in 64 bits |
| Jwt.NewClaims | internal/core/util/jwt/jwt.go:23-31 | user id and subject are the user id; issuer from config; issued-at equals not-before and lies within a second before now; expiry lies within a second before now plus the lifetime |
| Jwt.GenerateJwt | internal/core/util/jwt/jwt.go:20-40 | fails iff signing fails; a signed token is non-empty and parses, valid, to exactly the new claims |
| Jwt.ValidateJwt | internal/core/util/jwt/jwt.go:42-74 | a decoding or signature error passes through; an expiry not after the library's clock read, or a not-before after it, is refused as invalid claims naming both; then an invalid token gives `ErrInvalidKey`; accepted iff decoded, valid, passing the library at its read and the core's three checks at the core's read; `ErrTokenExpired` exactly when the expiry is before the core's read; `ErrTokenNotValidYet` exactly when the expiry is not before it and issued-at or not-before is after it; a missing date panics exactly when the checks reach it |
| Jwt.SingleInstantWindow | internal/core/util/jwt/jwt.go:45-71 | at a single instant, the library's and the core's checks together accept exactly the tokens with all three dates whose window holds that instant |
| Jwt.ExplicitExpiryUnreachable | internal/core/util/jwt/jwt.go:60-71 | at a single instant, on a decoded token the core's own expiry check never fires, and a not-yet-valid refusal is always the issued-at check |
| Jwt.ExpiryBetweenClockReads | internal/core/util/jwt/jwt.go:59-63 | a valid token whose expiry lies strictly between the library's read and the core's read is refused with the bare `ErrTokenExpired` |
| Jwt.FreshTokenAccepted | internal/core/util/jwt/jwt.go:42-74 | a token minted at `t` is accepted when the library reads the clock from `t` up to, but excluding, its expiry and the core reads it from `t` up to and including its expiry, with the claims it was minted with |
| Jwt.StaleTokenExpired | internal/core/util/jwt/jwt.go:45-51 | when the library reads the clock at or after the expiry, the token is refused by the library as expired, wrapped as invalid claims |
| JwtMiddleware.Guard | internal/core/middleware/jwt_middleware.go:13-39 | every refusal is 401 "Unauthorized"; the first check refuses exactly the headers the reversed prefix test flags; the request proceeds, with the token's user id, iff the header passes and the stripped token validates; a missing date aborts |
| JwtMiddleware.MalformedExactlyPrefixes | internal/core/middleware/jwt_middleware.go:16 | the first check refuses exactly the eight prefixes of "Bearer " |
| JwtMiddleware.EmptyTokenUnreachable | internal/core/middleware/jwt_middleware.go:22-27 | the empty-token refusal never happens |
| JwtMiddleware.BearerPrefixOptional | internal/core/middleware/jwt_middleware.go:16-22 | a token that is not a prefix of "Bearer " is treated alike with or without the prefix |
| JwtMiddleware.StrictGuard | internal/core/middleware/jwt_middleware.go:16 | the intended guard: refuses every header not starting with "Bearer ", refuses "Bearer " alone as an empty token, and proceeds iff the token after the prefix validates |
| JwtMiddleware.StrictGuardAgrees | internal/core/middleware/jwt_middleware.go:16-38 | on headers of the form "Bearer <token>" the intended guard and the guard as written decide alike |
| JwtMiddleware.BareTokenProceeds | internal/core/middleware/jwt_middleware.go:16 | a bare valid token without the prefix proceeds as written and is refused by the intended guard |
| JwtMiddleware.IssuedTokenProceeds | internal/core/middleware/jwt_middleware.go:22-38 | a minted token sent as a bearer header while both clock reads of the validation fall in its lifetime proceeds with its user id, under both guards |
| Json.DropLeadingEmpty | internal/core/util/json/json.go:50-55 | what `JoinErrors` keeps starts with a non-empty message and is no longer than the input |
| Json.DropLeadingEmptySuffix | internal/core/util/json/json.go:50-55 | only a leading run of empty messages is dropped; the rest is kept unchanged |
| Json.JoinAppend | internal/core/util/json/json.go:50-55 | joining one more element appends the separator and the element |
| Json.JoinStartsWithFirst | internal/core/util/json/json.go:50-55 | a join begins with its first element |
| Json.DropLeadingEmptyAppend | internal/core/util/json/json.go:50-55 | how one more message changes what is kept |
| Json.JoinedErrorsStep | internal/core/util/json/json.go:50-55 | one more message extends the joined text exactly as one loop turn does: a separator only when something was written |
| Json.JoinErrors | internal/core/util/json/json.go:45-57 | the loop computes `JoinedErrors` of its input |
| Json.JoinedErrorsEmpty | internal/core/util/json/json.go:46-48 | no messages give "" |
| Json.JoinedErrorsSingle | internal/core/util/json/json.go:50-55 | a single message comes back unchanged |
| Json.JoinedErrorsNoEmpty | internal/core/util/json/json.go:45-57 | without empty messages the result is `strings.Join` with "; ", of the total length plus two per separator |
| Json.JoinLength | internal/core/util/json/json.go:50-55 | the length of a join is the elements' total length plus one separator between each neighbour pair |
| Json.JoinedErrorsStart | internal/core/util/json/json.go:45-57 | the result is empty iff every message is empty, and otherwise begins with the first non-empty message |
| Json.LeadingEmptyDiffersFromJoin | internal/core/util/json/json.go:50-55 | a leading empty message adds no separator, unlike `strings.Join` |
| UserController.ServiceReply | internal/controller/user_controller.go:38-43 | a service error becomes a 400 reply with its text; a value becomes the success payload |
| UserController.NormalizeList | internal/controller/user_controller.go:55-58 | page and limit are at least 1 afterwards; a valid request is kept; otherwise both reset to page 1, limit 20 |
| UserController.NormalizeListIdempotent | internal/controller/user_controller.go:55-58 | defaulting twice is defaulting once |
| UserController.GetMe | internal/controller/user_controller.go:32-45 | a missing or empty context user id gives 401 and no service call; otherwise one lookup of that id, its outcome replied |
| UserController.UserListGet | internal/controller/user_controller.go:47-66 | an undecodable body gives 400 "Invalid request body" and no call; otherwise one list call with the normalised request, its outcome replied |
| UserController.ValidationReply | internal/controller/user_controller.go:78-83 | a refused request gets 400 "Validation failed: " followed by the joined messages |
| UserController.UserRegister | internal/controller/user_controller.go:68-97 | decode error, then validation error, each with no call; otherwise one register call with the email lower-cased, its outcome replied; every error reply is a 400 |
| UserController.UserLogin | internal/controller/user_controller.go:99-128 | decode error, then validation error, each with no call; otherwise one login call with the email lower-cased, its outcome replied; every error reply is a 400 |
| UserController.UserUpdate | internal/controller/user_controller.go:130-164 | decode error first, then 401, then validation error, each with no call; otherwise one update of the caller's id with the email lower-cased; every error reply is a 400 or the 401 made before any call |
| UserController.UserDelete | internal/controller/user_controller.go:166-181 | 401 with no call when unauthenticated; otherwise one delete of the caller's id, replying 400 with the error text or "User deleted successfully" |
| UserController.ErrorRepliesAre400Or401 | internal/controller/user_controller.go:32-66 | for `GetMe`, `UserListGet` and `UserDelete`, every error reply is a 400, or a 401 "Unauthorized" made before any service call |
| UserFlows.StoreRepositoryServes | internal/repository/user_repository.go:14-21 | the repository built on a table answers every call of the interface from that table |
| UserFlows.ReadOperationsOnlyRead | internal/service/user_service.go:37-145 | `GetUserByID` and `LoginUser` make no write call |
| UserFlows.ServiceWritesLast | internal/service/user_service.go:82-200 | register, update and delete make at most one write, as their last call |
| UserFlows.CommitConsistent | internal/core/db/mongo.go:64-69 | no sequence of inserts, updates and deletes breaks the unique indexes |
| UserFlows.CommitLastWrite | internal/service/user_service.go:147-200 | when the only write is last, the table ends as that write alone leaves it |
| UserFlows.CommitLookup | internal/service/user_service.go:148-160 | a lookup alone leaves the table as it is |
| UserFlows.CommitSave | internal/service/user_service.go:95 | a save alone leaves what `Insert` leaves |
| UserFlows.CommitUpdate | internal/service/user_service.go:148-166 | a lookup then an update leaves what `Overwrite` leaves |
| UserFlows.CommitDelete | internal/service/user_service.go:184-194 | a lookup then a delete leaves what `Remove` leaves |
| UserFlows.GetFound | internal/service/user_service.go:47-55 | a found non-zero record is answered with its hex id, name and email |
| UserFlows.RegisterHashed | internal/service/user_service.go:87-109 | with a hash, registration is one save of the new record and replies from the saved record or with the duplicate error |
| UserFlows.LoginFound | internal/service/user_service.go:129-144 | a found non-zero record with a matching password and a minted token logs in |
| UserFlows.UpdateFound | internal/service/user_service.go:163-180 | a found non-zero record is written back with the new name and email, and the reply follows the write |
| UserFlows.DeleteFound | internal/service/user_service.go:194-199 | a found record is deleted by its hex id and the delete's outcome is the result |
| UserFlows.StoreRegister | internal/service/user_service.go:82-110 | against a table, a hashed registration is one insert, replying the new id, name and email or the duplicate error |
| UserFlows.StoreDelete | internal/service/user_service.go:183-200 | against a table, deleting a found record is one `Remove` by its hex id |
| UserFlows.StoreUpdate | internal/service/user_service.go:147-181 | against a table, updating a found non-zero record is one `Overwrite` with the new name and email |
| UserFlows.RegisterNew | internal/service/user_service.go:82-110 | registering a new email succeeds with the new id, name and email, appends exactly the stored record and keeps the indexes |
| UserFlows.GetStored | internal/service/user_service.go:37-56 | every stored non-zero record is returned by `GetUserByID` on its hex id |
| UserFlows.RegisterThenGet | internal/service/user_service.go:82-110 | after registering, `GetUserByID` on the new id returns the registered name and email |
| UserFlows.RegisterTaken | internal/service/user_service.go:95-100 | registering a stored email fails with "already registered" and stores nothing |
| UserFlows.RegisterTooLong | internal/service/user_service.go:83-86 | a password over 72 bytes fails with the bcrypt error and stores nothing |
| UserFlows.LoginStored | internal/service/user_service.go:112-145 | a stored user logging in with the password its hash verifies gets a token for its id |
| UserFlows.RegisterThenLogin | internal/service/user_service.go:112-145 | after registering, logging in with the same email and password succeeds for the new id |
| UserFlows.RegisterLoginSession | internal/core/middleware/jwt_middleware.go:22-38 | register, log in, and a request bearing the login token while both clock reads of the validation fall in its lifetime proceeds as the new user |
| UserFlows.UpdateMissing | internal/service/user_service.go:148-153 | updating an unstored id answers not found and writes nothing |
| UserFlows.DeleteMissing | internal/service/user_service.go:184-189 | deleting an unstored id answers not found and writes nothing |
| UserFlows.UpdateMalformedId | internal/service/user_service.go:148-156 | updating a malformed id fails with the format error and writes nothing |
| UserFlows.DeleteMalformedId | internal/service/user_service.go:184-192 | deleting a malformed id fails with the format error and writes nothing |
| UserFlows.DeleteStored | internal/service/user_service.go:183-200 | deleting a stored user succeeds and leaves what `Remove` leaves |
| UserFlows.DeleteThenGet | internal/service/user_service.go:183-200 | after deleting a stored user, exactly the others remain and a lookup of its id answers not found |
| UserFlows.UpdateStoredCalls | internal/service/user_service.go:147-166 | updating a stored non-zero user reads it and writes back the record with only name and email changed |
| UserFlows.UpdateEmailTaken | internal/service/user_service.go:166-172 | changing to an email another user holds fails with "already exists" and leaves the table unchanged |
| UserFlows.UpdateThenGet | internal/service/user_service.go:147-181 | changing to a free non-empty email succeeds, keeps the indexes, and a later lookup returns the new name and email |

## Left out

- Logging (`log.Println`) and `context.Context` cancellation are not modelled.
- Driver and network failures are not generated. They appear only as a failed answer of an abstract repository (`StoreFailure`), which the service passes through.
- `time.Now()` is a parameter:
  - `RegisterUser` uses one instant for both record times;
  - `GenerateJwt` uses one instant for all three claim dates;
  - the repository's `UpdateUser` takes the instant it writes into `updated_at`;
  - `ValidateJwt` takes two instants, the library validator's read inside `ParseWithClaims` (`parsedAt`) and the core's own read at `internal/core/util/jwt/jwt.go:59` (`now`), with no order imposed between them.
- `Jwt.ExplicitExpiryUnreachable` is stated only for a single instant (`parsedAt == now`). Then the library has already refused every token whose expiry is not after that instant, so the core's own expiry check cannot fire. With two reads it can (`Jwt.ExpiryBetweenClockReads`), and a clock that steps back between the reads can also fire the not-before check; either way the token is refused, only with a different error.
- Natural order is taken to be insertion order. MongoDB does not guarantee any order for an unsorted `Find` or `FindOne`; the model fixes this one. `UserRepository.Page`, `UserRepository.FindFirst` and the order of `GetUserList`'s items rest on that choice.
- `bson.NewObjectID()` in the service and the `_id` the driver generates for a document without one are parameters (`newId`, `freshId`).
- bcrypt's salt, cost and hash format are not modelled. The `Hasher` is abstract, and `IsBcrypt` states the only two facts the service relies on: the 72-byte limit, and that a hash verifies against its plaintext.
- HMAC-SHA256 signing, signature verification and the compact token serialisation are not modelled; they are the abstract `Signer`. Of the library's claim validation, only the default `exp` and `nbf` checks are modelled, with no leeway. They come after the signature check, as in current v5 releases; v5.0.0 checked the claims first, which changes only which error a token failing both checks reports. Because of these checks, `FreshTokenAccepted`, `IssuedTokenProceeds` and `RegisterLoginSession` promise acceptance only when the library's read is strictly before the expiry instant, and `StaleTokenExpired` reports the library's wrapped error when that read is at the expiry instant or later.
- The request validator is reduced to the list of messages it produced for a request (`violations`). Its tags and messages are not modelled.
- JSON decoding is reduced to its outcome (`Decoded`). Response encoding, and the 500 reply when encoding fails, are not modelled.
- `strings.ToLower` is a function parameter, not modelled character by character.
- The text of `hex.InvalidByteError` is simplified to a fixed message, and the duplicate-key error text omits the index name and key.
- The Go zero values returned alongside an error (`dto.…Response{}`, `entity.User{}`) are not modelled. An error outcome carries only the error.
- Concurrent requests are not modelled. Each service operation is answered from the table as it was when the operation began, which is exact because each operation writes at most once, last (`ServiceWritesLast`).
- `UserRepository.UserStore.constructor` assumes that both unique indexes hold on the documents already in the collection. The start-up code does not guarantee this. If the collection already holds duplicate emails, creating the index fails with a duplicate-key error, which `internal/core/db/mongo.go:75-76` only logs. The server then runs without the email index, and the model does not cover that case.
- Configuration loading, `main`, the server health handler, the logging middleware, the background user counter and database start-up are not part of this model. The exception is the unique email index from database start-up, which is the `email` half of `Consistent`.
- `UserFlows.UpdateThenGet` assumes a non-empty new email, as the validator's `required` tag guarantees. Without it, the written record could coincide with the zero record.
- `UserFlows.CommitLastWrite` is stated for any call list; the flow lemmas use the fixed-list lemmas `CommitLookup`, `CommitSave`, `CommitUpdate` and `CommitDelete` instead.

## Findings

| source | as written | input that shows it | evidently intended | confidence | as-written member | corrected member |
|---|---|---|---|---|---|---|
| internal/core/middleware/jwt_middleware.go:16 | `strings.HasPrefix("Bearer ", authHeader)` asks whether the header is a prefix of "Bearer " | the header `t0k3n`, a bare valid token, passes the header check and the request proceeds; the empty-token check on line 23 can never fire | `strings.HasPrefix(authHeader, "Bearer ")`, refusing every header without the prefix | high (not executed) | JwtMiddleware.BareTokenProceeds | JwtMiddleware.StrictGuard |
