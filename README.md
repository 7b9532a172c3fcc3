# Auth core of a FastAPI user-account service, in Dafny

This project models the token, authentication and authorization logic of a
user-account service. Users register with a username, an e-mail and a
password, log in for a short-lived access token and a longer-lived refresh
token, exchange the refresh token for new tokens, and reach protected routes
through a gate. The gate checks the token, then that the account exists, then
that it is active, then that its role is allowed.

One module per source file:

- `Jwt` (jwt.dfy) models the JSON Web Token library. It is symbolic. A
  token is either `Signed(algorithm, claims, key)` or `Unparsable(text)`.
  Decoding checks the key and the algorithm first and only then looks at the
  `exp` claim.
- `Passwords` (passwords.dfy) models the PBKDF2 hasher as an injective
  symbolic hash of (salt, password).
- `Config` and `Errors` hold the settings and the error kinds.
  `app/core/config.py` lacks the token settings, and four of the six error
  kinds are never defined (see below).
- `Security` issues and verifies the access and refresh tokens.
- `Models` and `Crud` hold the user table and its operations. `UserStore`
  is a class with `rows: seq<User>` and `nextId`. Its invariant is the pair
  of unique constraints (username, e-mail) plus distinct ids. The lookups
  and `AuthenticateUser` are functions of the rows. `CreateUser` is a method
  that changes the store.
- `AuthService` holds the service's register, login and refresh.
- `AuthEndpoints` holds the HTTP routes. They are a second implementation of
  the same three workflows, and lemmas compare them with the service.
- `Dependencies` is the authorization gate.
- `Schemas` holds the roles, the password validator and the field
  constraints.
- `Handlers` maps each error kind to an HTTP status.

Things the model passes in as parameters:

- The clock is a parameter `now`, in whole seconds.
- The library's expiry comparison is a parameter `rule`. `ExpiredAtExp`
  means `now >= exp` and `ExpiredAfterExp` means `now > exp`. Every lemma
  holds for both.
- The hasher's random salt is a parameter `salt`.

Where the repository is inconsistent, the model follows the code:

- `app/core/config.py` defines none of the signing secret, the algorithm or
  the two lifetimes. They are constants whose values the model leaves
  unknown, except that both lifetimes are positive.
- Four of the six error kinds are imported but never defined. They are
  constructors of `Errors.AuthError`. Each keeps its message, because the
  handlers answer with `str(exc)`.
- The mapped `User` class has no `is_active` column. But `create_user`, the
  services and the test fixtures all read and write the flag, so it is a
  field of the record here.
- The service hands the old refresh token back, but the route the tests
  call issues a new one. Both are modelled, and
  `AuthEndpoints.RefreshRouteComparedWithService` and
  `AuthEndpoints.RefreshRouteRotates` state the difference.
- A duplicate registration is answered 400 by the route, but 409 by the
  handler of the service's error. The model keeps both.

## Model

| member | source | states |
|---|---|---|
| Jwt.Encode | app/core/security.py:19 | the token carries the claims unchanged; only a verifier with the signing key gets a payload back, and with that key it gets the claims while `exp` is absent or not reached |
| Jwt.Decode | app/core/security.py:23 | a payload comes back only for a parsable token signed with the verifier's key and an allowed algorithm; any other token is rejected, never reported as expired |
| Jwt.RoundTrip | app/core/security.py:19-23 | decoding an encoded token with its own key and algorithm gives back its claims before `exp`, and reports expiry afterwards |
| Jwt.OtherKeyRejected | app/core/security.py:23-32 | a token signed under another key is rejected at every instant |
| Passwords.GetPasswordHash | app/core/security.py:12-13 | the hash records the salt it was made with |
| Passwords.VerifyPassword | app/core/security.py:9-10 | a hash accepts exactly the password it was derived from, whatever its salt |
| Passwords.HashedPasswordVerifies | app/core/security.py:9-13 | a password verifies against its own hash |
| Passwords.OtherPasswordRejected | app/core/security.py:9-10 | no other password verifies against that hash |
| Security.Lifetime | app/core/security.py:17 | a missing or zero delta falls back to the default minutes; any other delta, negative ones included, is used as given |
| Security.CreateToken | app/core/security.py:15-19 | the token is signed with the secret and the algorithm; it keeps every caller claim except `exp` and `type`, which are set to now + lifetime and the tag |
| Security.CreateAccessToken | app/core/security.py:34-35 | an access token has type "access" and expires at now + the delta, or the access default |
| Security.CreateRefreshToken | app/core/security.py:40-41 | a refresh token has type "refresh" and expires at now + the delta, or the refresh default |
| Security.VerifyToken | app/core/security.py:21-32 | it succeeds iff the token decodes, has `sub`, and has the expected type; it then returns the claims; `TokenExpired` exactly when the decoder reports expiry; every failure is a token error |
| Security.VerifyAccessToken | app/core/security.py:37-38 | only a signed token of type "access" passes |
| Security.VerifyRefreshToken | app/core/security.py:43-44 | only a signed token of type "refresh" passes |
| Security.IssuedTokenVerifies | app/core/security.py:15-28 | round trip: a fresh token checked with its own type before expiry verifies with the issued `sub` and `type` |
| Security.ExpiredBeatsWrongType | app/core/security.py:21-30 | after expiry an issued token fails with `TokenExpired` whatever type is expected |
| Security.TokenTypesNotInterchangeable | app/core/security.py:26-44 | before expiry an access token fails refresh verification, and a refresh token fails access verification, with the type-mismatch `InvalidToken` |
| Security.TokenTypesNeverCross | app/core/security.py:34-44 | at no instant does either kind pass the other kind's verification |
| Security.MissingSubjectRejected | app/core/security.py:24-25 | a decodable token without `sub` fails with `InvalidToken("Token missing 'sub' claim")` |
| Security.ForgedOrMalformedRejected | app/core/security.py:23-32 | a token under another key, or unparsable text, fails with the bare `InvalidToken`, even once expired |
| Models.UniqueKeys | app/db/models/models.py:9-11 | distinct rows differ in id, username and e-mail, so a username identifies at most one row |
| Crud.GetUserByUsername | app/db/crud.py:7-9 | returns a stored row with exactly that username, or none iff no row has it |
| Crud.GetUserByEmail | app/db/crud.py:11-13 | returns a stored row with exactly that e-mail, or none iff no row has it |
| Crud.GetUserBySubject | app/api/dependencies.py:25-29 | a payload's `sub` finds a row only when it is the string of that row's username |
| Crud.LookupsFindTheUniqueRow | app/db/crud.py:7-13 | under the unique constraints, each lookup returns the one row holding the key |
| Crud.AuthenticateUser | app/db/crud.py:28-34 | returns a user iff a row with that username has a hash the password verifies against, and returns that stored row |
| Crud.AuthenticateIgnoresActiveFlag | app/db/crud.py:28-34 | an inactive user with the right password is returned |
| Crud.AuthenticateRejectsUnknownUser | app/db/crud.py:29-31 | an unknown username gives none |
| Crud.AuthenticateRejectsWrongPassword | app/db/crud.py:32-33 | a wrong password for a known username gives none |
| Crud.UserStore.CreateUser | app/db/crud.py:15-26 | appends exactly one row: next id, the request's username and e-mail, the password's hash, role "user" whatever was requested, active. The unique index refuses a taken key and leaves the store unchanged. The store invariant is kept |
| AuthService.RegistrationConflict | app/services/auth_service.py:16-21 | `UserAlreadyExists("username")` iff the username is taken; `("email")` iff only the e-mail is taken; none iff both are free |
| AuthService.RegisterUser | app/services/auth_service.py:12-23 | fails with the first conflict and leaves the store unchanged, or adds exactly one active "user" row holding the password's hash |
| AuthService.RegisterTwice | app/services/auth_service.py:16-21 | registering a stored username again fails naming the username; reusing only the e-mail fails naming the e-mail |
| AuthService.LoginTokens | app/services/auth_service.py:33-49 | the pair's `token_type` is "bearer" |
| AuthService.LoginUser | app/services/auth_service.py:26-49 | `InvalidCredentials` iff no row with that username accepts the password; `InactiveUser` iff one does but is inactive; otherwise the login token pair |
| AuthService.RefreshAccessToken | app/services/auth_service.py:52-74 | token errors pass through; a falsy `sub` is `InvalidToken("Invalid refresh token")`; a vanished user is `InvalidCredentials("User not found")`; an inactive one is `InactiveUser`; success hands back the same refresh token and a new access token for the subject |
| AuthService.LoginTokensVerify | app/services/auth_service.py:33-49 | each token of a login verifies as its own type with `sub = username` until its lifetime ends, and is refused as the other type |
| AuthService.LoginHidesWhichCredentialFailed | app/services/auth_service.py:27-29 | an unknown username and a wrong password give the identical error |
| AuthService.InactiveUserLogin | app/services/auth_service.py:27-31 | an inactive user gets `InactiveUser` only with the right password, and `InvalidCredentials` otherwise |
| AuthService.RefreshAfterLogin | app/services/auth_service.py:52-74 | a login's refresh token, used before expiry for an active user, yields a new access token and the same refresh token |
| AuthService.RefreshForMissingOrInactiveUser | app/services/auth_service.py:58-62 | a login's refresh token for a deleted user gives `InvalidCredentials("User not found")`, and for a deactivated one `InactiveUser` |
| AuthService.RefreshRejectsAccessToken | app/services/auth_service.py:53 | a login's access token never refreshes; the failure is a token error |
| Dependencies.GetCurrentUser | app/api/dependencies.py:20-32 | token errors pass through unchanged; a null `sub` gives `InvalidCredentials("Could not validate credentials")`; no stored user gives `InvalidCredentials("User not found")`; it succeeds iff a verified token's `sub` names a stored row, and under the unique constraints returns exactly that row |
| Dependencies.GetCurrentActiveUser | app/api/dependencies.py:35-40 | the same user iff active, otherwise `InactiveUser` |
| Dependencies.Join | app/api/dependencies.py:44 | `", ".join`: empty for no values; otherwise the values' lengths plus two per separator, starting with the first value; `JoinNamesEveryValue` proves it contains every value |
| Dependencies.JoinNamesEveryValue | app/api/dependencies.py:44 | every joined value occurs in the joined string |
| Dependencies.InsufficientRoleMessage | app/api/dependencies.py:44-52 | the message starts with "Operation requires one of the following roles: ", names every allowed role, and with one role is that sentence plus the role's value |
| Dependencies.RoleChecker | app/api/dependencies.py:46-53 | passes the same user iff its role string equals the value of any allowed role; otherwise `InsufficientPermissions` naming the roles |
| Dependencies.RequireRole | app/api/dependencies.py:43-55 | the returned checker admits a user iff its stored role parses to a role in the list |
| Dependencies.Authorize | app/api/dependencies.py:20-53 | succeeds iff the token resolves a user who is active and has an allowed role; an earlier failure is returned unchanged; an inactive user gets `InactiveUser` |
| Dependencies.RoleListsCombineWithOr | app/api/v1/endpoints/moderator.py:14 | a moderator passes `[ADMIN, MODERATOR]` and is refused by the admin dashboard's `[ADMIN]` with "…roles: admin"; an admin passes both; a plain user passes neither |
| Dependencies.ActiveCheckPrecedesRoleCheck | app/api/dependencies.py:46-53 | an inactive user gets `InactiveUser` even with an allowed role; an active user without one gets `InsufficientPermissions` |
| Dependencies.LoginTokenAuthenticates | app/api/dependencies.py:24-32 | a login's access token resolves its user until it expires; the refresh token of the same login never does |
| Dependencies.TokenOfDeletedUserRejected | app/api/dependencies.py:29-31 | an access token that outlived its account gives `InvalidCredentials("User not found")` |
| Handlers.HandleError | app/core/handlers.py:5-45 | the detail is `str(exc)`; 401 iff invalid credentials or a token error; 403 iff inactive or insufficient permissions; 409 iff already exists; the `WWW-Authenticate` header only for invalid credentials |
| Handlers.StatusesShared | app/core/handlers.py:20-45 | expired and invalid tokens share 401 without the header; inactive and insufficient permissions share 403 |
| AuthEndpoints.ToUserResponse | app/api/v1/endpoints/auth.py:35 | the response copies id, username, e-mail, role and active flag and has no password; it fails iff the stored role is not a role name |
| AuthEndpoints.RegisterRejection | app/api/v1/endpoints/auth.py:22-33 | 400 "Username already registered" iff the username is taken; 400 "Email already registered" iff only the e-mail is |
| AuthEndpoints.RegisterUser | app/api/v1/endpoints/auth.py:17-35 | a rejection leaves the store unchanged; otherwise 201 with the new active "user" and exactly that row added |
| AuthEndpoints.LoginUser | app/api/v1/endpoints/auth.py:37-64 | 401 with the bearer challenge iff no row accepts the credentials; 403 iff the matching account is inactive; otherwise 200 with a "bearer" pair |
| AuthEndpoints.RefreshToken | app/api/v1/endpoints/auth.py:66-100 | every failure is 401 without the header; token errors, a falsy `sub`, and a missing or inactive user each have their own detail ("Invalid or expired refresh token", "Invalid refresh token", "User not found or inactive"); success iff an active user holds the subject, with a new access token and a new refresh token at default lifetimes |
| AuthEndpoints.RegisterRouteDiffersFromService | app/api/v1/endpoints/auth.py:22-33 | the route rejects exactly when the service does, but answers 400 with a sentence where the service's error is answered 409 with the field name |
| AuthEndpoints.LoginRouteAgreesWithService | app/api/v1/endpoints/auth.py:42-64 | route and service succeed together with the identical token pair; on failure the route's status and header equal the handler's answer to the service error |
| AuthEndpoints.RefreshRouteComparedWithService | app/api/v1/endpoints/auth.py:72-100 | both succeed on the same inputs with the same access token; the service returns the input refresh token; an inactive user is 403 via the service but 401 via the route |
| AuthEndpoints.RefreshRouteRotates | app/api/v1/endpoints/auth.py:93-100 | refreshing later returns a different refresh token that lives longer; the old one is not revoked and still works until it expires |
| Schemas.ParseRole | app/schemas/user.py:6-9 | only "admin", "user" and "moderator" name a role, and a parsed role's value is the string |
| Schemas.ParseRoleInvertsValue | app/schemas/user.py:6-9 | the three role values are distinct, so each role is recovered from its value |
| Schemas.ValidatePassword | app/schemas/user.py:19-28 | accepted iff it has a digit, an upper-case and a lower-case letter; it is then returned unchanged; otherwise the first missing class, in that order, names the error |
| Schemas.ValidUsername | app/schemas/user.py:12 | admitted iff 3..50 characters long and matching `^[a-zA-Z0-9_.-]+$`, read as its one-or-more grammar; an admitted username never holds '@' or a space |
| Schemas.PatternIsCharacterClass | app/schemas/user.py:12 | the pattern's grammar matches exactly the non-empty strings of class characters |
| Schemas.PasswordLengthIsASeparateGate | app/schemas/user.py:17-28 | the composition rules alone need only three characters ("Ab1" passes them) and the 8..128 length constraint refuses such a password |
| Schemas.AdmitsUserCreate | app/schemas/user.py:11-28 | a payload is admitted iff its username is valid, its password is 8..128 characters with a digit, an upper-case and a lower-case letter; the validator then returns the password unchanged |
| Schemas.FixturePasswordsChecked | app/schemas/user.py:21-28 | "Test1234" and "Admin1234" pass; "password", "test1234" and "TEST1234" fail on digit, upper and lower respectively |
| Schemas.FixtureUserCreateAdmitted | app/schemas/user.py:11-17 | the test payloads satisfy the 3..50 `[a-zA-Z0-9_.-]` username and 8..128 password constraints; the role defaults to USER; "ab" and "bad user" are refused |
| Schemas.TokenTypeDefaultsToBearer | app/schemas/user.py:50-53 | `token_type` defaults to "bearer" |

## Left out

- The JWT wire format, base64 and HMAC are not modelled. A signature is the key carried inside the symbolic token, and a forger who does not know the key cannot build one.
- The decoder's checks of other registered claims (`nbf`, `iat`, `aud`, `iss`) are not modelled. Tokens issued here never carry them.
- The decoder's exact expiry comparison is not modelled. It is the parameter `rule`.
- Sub-second time is not modelled. `exp` and `now` are whole seconds. The source truncates the expiry when encoding it.
- Both tokens of one request are stamped with the same `now`. The source reads the clock once per token.
- PBKDF2 itself is not modelled: no iteration count, no one-wayness, no constant-time comparison. Only "the right password verifies and no other does" is kept.
- `verify_password` on a malformed stored hash is not modelled. The hash type has no malformed values, because every stored hash comes from `get_password_hash`.
- The password validator uses ASCII character classes. Python's Unicode `isdigit`, `isupper` and `islower` accept more characters.
- `EmailStr` validation is not modelled, because it is done by a library.
- Pydantic's request validation and its 422 answers are not modelled. `Schemas.AdmitsUserCreate` states the constraints, but no route applies them.
- A `sub` that is a number is treated as naming no user. Against a real database that lookup would fail with a type error instead.
- Crud.AuthenticateUser, AuthService.LoginUser, AuthService.RefreshAccessToken, AuthEndpoints.LoginUser, AuthEndpoints.RefreshToken: these require the store's unique constraints (`UniqueKeys`). The database's unique index guarantees them. Without them `scalar_one_or_none` raises an error, and that error is not modelled.
- The register race (two concurrent check-then-insert calls) is not modelled. The store's unique index appears as `CreateUser` refusing a taken key.
- The database session (`commit`, `refresh`, rollback), the engine, the app wiring and settings loading are not modelled. The store lives in memory. `app/main.py` registers neither the routers nor the exception handlers. The handler table is modelled as the source defines it.
- `created_at` and `updated_at` are not modelled, because no decision reads them.
- Account self-deletion is not modelled. The tests describe it, but no route or service for it exists in the source.
- The admin, moderator and `/users/me` routes only return dictionaries and are not modelled. Their role lists appear in `Dependencies.RoleListsCombineWithOr`.
