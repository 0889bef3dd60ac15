# Auth bookkeeping of todo-api, in Dafny

This project models the authentication core of a small Express/MongoDB todo
API. That core is:

- the refresh-token store and the issue/verify functions for access and
  refresh JSON Web Tokens;
- the three auth routes (`POST /auth/login`, `POST /auth/refresh-token`,
  `POST /auth/register`);
- the user controller over the user collection;
- the field rules of the user schema;
- the application error classes and the global error handler.

Everything is immutable data and pure functions:

- **Collections.** The user collection and the refresh-token collection are
  sequences in insertion order.
- **Database failures.** A failure is an input: the error a round-trip raises
  (`Option<Thrown>`), or a `WriteFault` for the token write.
- **bcrypt.** `hash` and `compare` are function parameters.
- **The JWT library.** It is a `Codec` of two predicates: `signs` (signing
  returns) and `accepts` (verification returns at an instant).
- **Tokens.** They are symbolic: claims, secret, issue second and expiry
  second.
- **Time.** It is an integer number of milliseconds, passed in.

Modules follow the source layout:

| module | source |
|---|---|
| `Errors` | `AppError` and its five subclasses |
| `ErrorHandler` | `globalErrorHandler` |
| `UserSchema` | the field rules and role enum of `UserModel` |
| `UserController` | `createUser`, `findUserByIdentifier`, `deleteUser`, `findUserById` |
| `RefreshTokenController` | `createRefreshToken`, `findRefreshToken` |
| `Jwt` | the four functions of the JWT middleware |
| `LoginRoute`, `RefreshRoute`, `RegisterRoute` | the three handlers |
| `Sessions` | properties that span several operations |

`Text`, `Users`, `TokenTypes`, `Http` and `Wrappers` hold shared definitions.

Some choices follow the code where a plainer reading would differ:

- **Trimming.** The schema's `trim: true` setters trim stored username, email,
  name and last name. They also trim the query values of the
  `{$or: [{username}, {email}]}` lookups. So the store and its lookups compare
  trimmed strings.
- **Password length.** `createUser` hands the schema the bcrypt hash. The
  six-character password rule therefore applies to the hash, never to the
  plaintext (`Sessions.PasswordLengthIsNotChecked`).
- **Ignored write result.** `generateRefreshToken` ignores the boolean
  `createRefreshToken` returns. A login can therefore answer 201 with a refresh
  token that was never stored; the login contract does not depend on the write
  outcome.
- **Refused logins still write.** Both tokens are generated before either is
  checked. A login refused with 401 "Failed to generate tokens." may still have
  replaced the user's stored refresh token
  (`Sessions.RefusedLoginStillStoresRefreshToken`).
- **Validation errors render as 500.** A schema validation error is forwarded
  unchanged by the register route. It carries no status code, so the handler
  renders it as 500 "error" (`Sessions.RejectedRegistrationIsServerError`).

## Model

| member | source | states |
|---|---|---|
| Errors.ClassNameIdentifiesClass | src/errors/AppError.ts:30-31 | each error class has its own `name`, and none of them is named "ValidationError" |
| Errors.StatusFor | src/errors/AppError.ts:36-38 | the status is "fail" exactly when the code's decimal form starts with the digit 4, and "error" otherwise |
| Errors.ClientAndServerCodes | src/errors/AppError.ts:11-12 | every 4xx code gives "fail" and every 5xx code gives "error" |
| Errors.NewAppErrorWith | src/errors/AppError.ts:23-46 | the constructor keeps message, code and operational flag unchanged and derives the status from the code |
| Errors.NewAppError | src/errors/AppError.ts:23-27 | the operational flag defaults to true |
| Errors.BadRequestError | src/errors/BadRequestError.ts:25-28 | message "BadRequest: " + argument, code 400, status "fail", operational |
| Errors.UnauthorizedError | src/errors/UnauthorizedError.ts:26-29 | message unchanged, code 401, status "fail", operational |
| Errors.RateLimitError | src/errors/RateLimitError.ts:25-28 | fixed message, code 429, status "fail" |
| Errors.ServerFailedErrorWith | src/errors/ServerFailedError.ts:24-29 | a custom message is kept, code 500, status "error" |
| Errors.ServerFailedError | src/errors/ServerFailedError.ts:25 | the default message is "Server failed error." |
| Errors.DatabaseNotFoundErrorWith | src/errors/DatabaseNotFoundError.ts:28-39 | message "Not Found: " + argument; a caller's 4xx code gives "fail" and a 5xx code "error" |
| Errors.DatabaseNotFoundError | src/errors/DatabaseNotFoundError.ts:30-31 | the code defaults to 500 with status "error", and the error is operational |
| ErrorHandler.GlobalErrorHandler | src/middlewares/error.ts:19-26 | code is the error's code or 500 when it is 0, status is the error's status or "error" when empty, message verbatim; for a constructed error the status is "fail" exactly when the code leads with 4 |
| Text.Trim | src/database/models/UserModel.ts:19 | the result has no white space at either end |
| Text.TrimCutsWhiteSpace | src/database/models/UserModel.ts:19 | trimming removes only white space, and only from the two ends |
| Text.TrimTrimmed | src/database/models/UserModel.ts:19 | a string without white space at its ends is left as it is |
| Text.TrimTwice | src/database/models/UserModel.ts:19 | trimming is idempotent |
| Text.FirstDigitIsLeadingDigit | src/errors/AppError.ts:36 | the decimal string of n starts with digit d exactly when d·10^k ≤ n < (d+1)·10^k for some k |
| UserSchema.EmailRuleMatchesPattern | src/database/models/UserModel.ts:100-101 | the computable email check holds exactly when the value has the shape local@domain.tld with no white space or '@' in any of the three parts |
| UserSchema.LastNameFollowsNameRule | src/database/models/UserModel.ts:29-49 | the last-name rule (`ValidLastName`) accepts exactly an absent last name or one that passes the first name's rule (`ValidName`: trimmed, 3 to 50 characters, letters and white space only) |
| UserSchema.StoredNameEndsWithLetters | src/database/models/UserModel.ts:8-25 | a name that passes `NameRule` after trimming begins and ends with a letter |
| UserSchema.UsernameRuleIsTrimStable | src/database/models/UserModel.ts:52-72 | a value passing `UsernameRule` (3 to 30 letters, digits or underscores) is its own trim |
| UserSchema.EmailRuleIsTrimStable | src/database/models/UserModel.ts:93-104 | a value passing `EmailRule` contains no white space and is its own trim |
| UserSchema.DefaultLastNameIsValid | src/database/models/UserModel.ts:29-48 | the default last name "undefined" passes the last-name rule |
| UserSchema.CastRole | src/database/models/UserModel.ts:136-140 | an absent role becomes DEFAULT; a given role is accepted exactly when it is "DEFAULT" or "ADMIN" |
| UserSchema.UsernameIsNeverEmail | src/database/models/UserModel.ts:67-68 | no string passes both the username rule and the email rule |
| UserSchema.RawUsernameIsNeverEmail | src/database/models/UserModel.ts:93-101 | the same holds for raw values, which are trimmed before either rule |
| UserController.AtMostOneMatch | src/controllers/UserController.ts:91-96 | in a well-formed store at most one user matches an identifier by username or email |
| UserController.FindUserByIdentifier | src/controllers/UserController.ts:83-111 | a database error is rethrown; otherwise the result matches the trimmed identifier by username or email, is absent only when nobody matches, and is the only match in a well-formed store |
| UserController.DocumentValidIffAccepted | src/controllers/UserController.ts:51-58 | the saved document passes the schema exactly when the raw input and the hash pass their rules |
| UserController.CreateUser | src/controllers/UserController.ts:25-72 | a taken username or email gives the "already registered" BadRequestError; other refusals are the validation error; success appends exactly one user with the hash as password, trimmed fields, the default last name when none is given, and the cast role |
| UserController.NotDuplicateMeansNotFound | src/controllers/UserController.ts:31-36 | when the existence check (`Duplicate`, each field against its own key) passes in a store of valid users, neither the new valid username nor the new valid email is found by the login lookup |
| UserController.CreateUserPreservesWellFormed | src/controllers/UserController.ts:31-43 | with a fresh id, a successful creation keeps ids, usernames and emails unique and every user valid |
| UserController.DeleteUser | src/controllers/UserController.ts:124-152 | a "Not Found" error exactly when nobody matches; otherwise the result is the store with exactly one matching user taken out, the others kept in their order |
| UserController.DeleteUserRemovesOnlyTheMatch | src/controllers/UserController.ts:140-145 | in a well-formed store the users after deletion are exactly those that do not match |
| UserController.DeleteUserPreservesWellFormed | src/controllers/UserController.ts:124-152 | deletion keeps the store well formed |
| UserController.FindUserById | src/controllers/UserController.ts:164-189 | the result has the requested id; it is absent only when nobody has that id or the lookup failed |
| RefreshTokenController.CreateRefreshToken | src/controllers/RefreshTokenController.ts:13-40 | true exactly when the record was saved, and then it is the user's only record; a failure before the delete changes nothing, one after it leaves the user without records; other users' records never change; one record per user is preserved |
| RefreshTokenController.FindRefreshToken | src/controllers/RefreshTokenController.ts:48-65 | the result is a stored record holding exactly that token; it is absent only when no record holds it or the read failed |
| RefreshTokenController.WithoutUserContents | src/controllers/RefreshTokenController.ts:19-22 | `WithoutUser`, the `deleteMany` by user id, keeps exactly the records of other users |
| RefreshTokenController.ReplacedTokenIsGone | src/controllers/RefreshTokenController.ts:19-32 | after two creations for one user with different tokens, the first token is no longer found |
| RefreshTokenController.CreateKeepsTokensOwned | src/controllers/RefreshTokenController.ts:25-29 | if every stored token names its record's owner, that still holds after a creation |
| RefreshTokenController.OnlyCurrentTokenFound | src/controllers/RefreshTokenController.ts:54-56 | when a user's only record is d, no other token naming that user is found |
| Jwt.Sign | src/middlewares/jsonwebtoken.ts:26-32 | a signed token carries the given claims and secret, its iat is the second containing now, and its exp lies the lifetime after iat |
| Jwt.GenerateAccessToken | src/middlewares/jsonwebtoken.ts:18-39 | a token exactly when signing succeeds, carrying the user's id, username and role under the access secret, issued now and expiring after the access lifetime |
| Jwt.GenerateRefreshToken | src/middlewares/jsonwebtoken.ts:48-80 | the same under the refresh secret; when saved, the user's only record is (id, token, now + lifetime·1000); the token is returned whatever the write did |
| Jwt.VerifyAccessToken | src/middlewares/jsonwebtoken.ts:88-98 | the decoded payload exactly when the access secret verifies the token |
| Jwt.VerifyRefreshToken | src/middlewares/jsonwebtoken.ts:106-128 | the decoded payload exactly when the refresh secret verifies, the read succeeds, and the first record with that token has expiresAt ≥ now |
| Jwt.AccessTokenRoundTrip | src/middlewares/jsonwebtoken.ts:18-39 | a freshly issued access token verifies to the issuing user's id, username and role |
| Jwt.AccessTokenIsNotARefreshToken | src/middlewares/jsonwebtoken.ts:109-112 | with distinct secrets an access token is never accepted as a refresh token |
| Jwt.RefreshTokenIsNotAnAccessToken | src/middlewares/jsonwebtoken.ts:90-93 | with distinct secrets a refresh token is never accepted as an access token |
| Jwt.StoreExpiryNotBeforeTokenExpiry | src/middlewares/jsonwebtoken.ts:65-67 | while the token's exp second has not passed, its stored expiry has not passed either |
| Jwt.RefreshTokenRoundTrip | src/middlewares/jsonwebtoken.ts:106-128 | a saved refresh token verifies to its own payload at any instant before its exp second |
| Jwt.ReissueRevokes | src/middlewares/jsonwebtoken.ts:69-73 | issuing a user a refresh token in a new second makes every earlier refresh token of theirs fail verification |
| LoginRoute.Login | src/routes/auth/login.ts:25-90 | a missing field gives 400 with no lookup; a database error is forwarded; an unknown identifier gives 400 "User not found."; a reply is 201 with both tokens of a matching user whose password checked; the store changes only after a password check; every refusal is one of the route's four errors |
| LoginRoute.IssueTokens | src/routes/auth/login.ts:68-85 | 201 with both tokens exactly when both sign, otherwise 401 "Failed to generate tokens."; the store is the refresh generator's in both cases |
| RefreshRoute.RefreshAccessToken | src/routes/auth/refresh_token.ts:24-82 | missing token gives 400; failed verification gives 401; unknown user gives 400; a failed access-token signing for a found user gives 401 "Failed to generate access token."; in a well-formed store the reply is 201 exactly when all checks pass, with a new access token for the stored user and no refresh token |
| RegisterRoute.Register | src/routes/auth/register.ts:24-68 | missing username, password, name or email gives 400 "All fields are required." with no store change; 201 exactly when creation succeeds; a duplicate gives the "already registered" BadRequestError and a schema rejection forwards the ValidationError unchanged; other thrown errors become ServerFailedError |
| Sessions.LoginSucceedsIff | src/routes/auth/login.ts:45-85 | in a well-formed store login succeeds for the matching user exactly when the password checks and both tokens sign |
| Sessions.WrongPasswordChangesNothing | src/routes/auth/login.ts:60-66 | a wrong password gives 400 and leaves the token store unchanged |
| Sessions.RegisteredUserCanLogin | src/routes/auth/register.ts:40-50 | after a successful registration the user can log in by username and by email |
| Sessions.LoginThenRefresh | src/routes/auth/refresh_token.ts:39-78 | a saved login's refresh token buys an access token for the same claims until its exp second |
| Sessions.NewerLoginRevokesOlder | src/controllers/RefreshTokenController.ts:19-32 | a later login in another second makes the earlier refresh token fail with 401 |
| Sessions.SameSecondLoginsShareToken | src/middlewares/jsonwebtoken.ts:57-63 | two logins in the same second reply with identical tokens |
| Sessions.DeletedUserCannotRefresh | src/routes/auth/refresh_token.ts:57-60 | a token naming a deleted user never buys an access token |
| Sessions.LoginRefusalsAreClientErrors | src/routes/auth/login.ts:33-78 | without database faults every refused login renders as 400 or 401 with status "fail" |
| Sessions.RefreshRefusalsAreClientErrors | src/routes/auth/refresh_token.ts:33-72 | every refused refresh renders as 400 or 401 with status "fail" |
| Sessions.RejectedRegistrationIsServerError | src/routes/auth/register.ts:54-60 | a registration the schema rejects renders as 500 "error" |
| Sessions.RegisteredUsersAreDefault | src/routes/auth/register.ts:40-48 | registration never grants the admin role |
| Sessions.RefusedLoginStillStoresRefreshToken | src/routes/auth/login.ts:68-78 | a login refused because the access token failed has still replaced the user's stored refresh token |
| Sessions.PasswordLengthIsNotChecked | src/controllers/UserController.ts:46-55 | the plaintext password's length plays no part in registration: `PasswordRule` (at least six characters, untrimmed) is applied to the hash |

## Left out

- Database connection plumbing (connect, disconnect, the connection flag, and
  their two errors). This is I/O. A failed disconnect is not modelled either.
- Concurrency. The delete-then-insert of `createRefreshToken` can race under
  concurrent logins; the model is sequential.
- bcrypt internals. `hash` may fail; `compare` is an arbitrary predicate.
  Lemmas that need them to agree say so (`CompareAgrees`).
- The JWT library's internals: the signature algorithm, clock skew, and the
  encoding of `iat`/`exp`. Sign and verify stay abstract. Lemmas that need
  verification to respect secrets or expiry state it as a hypothesis
  (`SecretBound`, `AcceptsFresh`).
- `Number(...)` on configuration strings. Lifetimes are natural numbers.
  The reply's `expires_in` is the configured lifetime.
- The rate and speed limiters. They are option objects for libraries not
  part of this model.
- The avatar URL field and the created/updated timestamps. No modelled flow
  uses them.
- The text of a schema validation error. The error is named
  `ValidationError`, and its message is a fixed placeholder.
- Status codes of 10^21 or more. JavaScript prints those in exponent form;
  the model uses plain decimal digits.
- Express wiring. Only the body of `globalErrorHandler` is modelled. Its
  three-parameter signature is not an Express error-handler signature, so
  whether Express calls it for errors is outside the model.
- Request bodies whose fields are not strings. A body field is an optional
  string; "falsy" means absent or empty.
- Separate clock reads. The source reads the clock once for `jwt.sign`'s
  `iat` and again for the stored `expiresAt`, and once for `jwt.verify` and
  again for the store's expiry comparison. Each request here uses a single
  instant `now` for all of them.
- The refresh route's store. It only reads the token store, so its function
  returns no new store.
- LoginRoute.Login: its own contract gives only the "reply implies a matching
  user, a checked password and both tokens" direction. The converse holds for a
  store with unique usernames and emails, and is stated and proved as
  `Sessions.LoginSucceedsIff`.
- RefreshRoute.RefreshAccessToken: the "201 exactly when all checks pass"
  direction is stated for a store whose ids are unique. With duplicate ids,
  the lookup's choice of the first match decides.
