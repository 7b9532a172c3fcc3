/** The authentication service (app/services/auth_service.py): registration,
    login and refresh as ordered chains of checks that raise the precise
    error kinds of `Errors`. Login and refresh only read the store and are
    functions of its rows; registration writes it. */
module AuthService {
  import opened Wrappers
  import opened Errors
  import opened Config
  import opened Jwt
  import opened Passwords
  import opened Security
  import opened Models
  import opened Crud
  import Schemas

  /** The claims every issued token starts from: `{"sub": username}`. */
  function SubjectClaims(username: string): (c: Claims)
    ensures c.Keys == {"sub"} && c["sub"] == Text(username)
  {
    map["sub" := Text(username)]
  }

  /** The uniqueness pre-check of `register_user`: the username is checked
      first, so when both keys are taken the error names the username. */
  function RegistrationConflict(rows: seq<User>, userCreate: Schemas.UserCreate): (e: Option<AuthError>)
    ensures e == Some(UserAlreadyExists("username")) <==> exists u :: u in rows && u.username == userCreate.username
    ensures e == Some(UserAlreadyExists("email")) <==>
      (forall u :: u in rows ==> u.username != userCreate.username)
      && exists u :: u in rows && u.email == userCreate.email
    ensures e.None? <==> forall u :: u in rows ==> u.username != userCreate.username && u.email != userCreate.email
  {
    if GetUserByUsername(rows, userCreate.username).Some? then Some(UserAlreadyExists("username"))
    else if GetUserByEmail(rows, userCreate.email).Some? then Some(UserAlreadyExists("email"))
    else None
  }

  /** `register_user`: fails with the first conflict and leaves the store
      as it was, or adds exactly one user, active, with role "user" and the
      hash of the requested password. */
  method RegisterUser(store: UserStore, userCreate: Schemas.UserCreate, salt: string) returns (r: Result<User, AuthError>)
    requires store.Valid()
    modifies store
    ensures store.Valid()
    ensures r.Failure? <==> RegistrationConflict(old(store.rows), userCreate).Some?
    ensures r.Failure? ==>
      r.error == RegistrationConflict(old(store.rows), userCreate).value
      && store.rows == old(store.rows) && store.nextId == old(store.nextId)
    ensures r.Success? ==>
      && store.rows == old(store.rows) + [r.value]
      && r.value.username == userCreate.username && r.value.email == userCreate.email
      && r.value.role == Schemas.UserRole.User.Value() && r.value.isActive
      && r.value.hashedPassword == GetPasswordHash(userCreate.password, salt)
  {
    var existingUser := GetUserByUsername(store.rows, userCreate.username);
    if existingUser.Some? {
      return Failure(UserAlreadyExists("username"));
    }
    var existingEmail := GetUserByEmail(store.rows, userCreate.email);
    if existingEmail.Some? {
      return Failure(UserAlreadyExists("email"));
    }
    var created := store.CreateUser(userCreate, salt);
    r := Success(created.value);
  }

  /** The pair issued by `login_user`: both tokens for the same subject,
      each with the configured lifetime passed explicitly. */
  function LoginTokens(username: string, now: int): (t: Schemas.Token)
    ensures t.tokenType == "bearer"
  {
    Schemas.Token(
      CreateAccessToken(SubjectClaims(username), now, Some(Minutes(ACCESS_TOKEN_EXPIRE_MINUTES))),
      CreateRefreshToken(SubjectClaims(username), now, Some(Minutes(REFRESH_TOKEN_EXPIRE_MINUTES))),
      "bearer")
  }

  /** `login_user`: wrong credentials of either kind give the same
      `InvalidCredentials`; an inactive account is reported only to a
      caller who knew its password. */
  function LoginUser(rows: seq<User>, username: string, password: string, now: int): (r: Result<Schemas.Token, AuthError>)
    requires UniqueKeys(rows)
    ensures r == Failure(InvalidCredentials("")) <==>
      forall u :: u in rows && u.username == username ==> !VerifyPassword(password, u.hashedPassword)
    ensures r == Failure(InactiveUser) <==>
      exists u :: u in rows && u.username == username && VerifyPassword(password, u.hashedPassword) && !u.isActive
    ensures r.Success? <==>
      exists u :: u in rows && u.username == username && VerifyPassword(password, u.hashedPassword) && u.isActive
    ensures r.Success? ==> r.value == LoginTokens(username, now)
  {
    match AuthenticateUser(rows, username, password)
    case None => Failure(InvalidCredentials(""))
    case Some(user) =>
      if !user.isActive then Failure(InactiveUser)
      else Success(LoginTokens(user.username, now))
  }

  /** `refresh_access_token`: token errors pass through unchanged; a falsy
      subject is an invalid token; a vanished user is `InvalidCredentials`
      and a deactivated one `InactiveUser`. On success only the access token
      is new: the refresh token handed in is handed back. */
  function RefreshAccessToken(rows: seq<User>, refreshToken: Token, now: int, rule: ExpiryRule): (r: Result<Schemas.Token, AuthError>)
    requires UniqueKeys(rows)
    ensures VerifyRefreshToken(refreshToken, now, rule).Failure? ==>
      r == Failure(VerifyRefreshToken(refreshToken, now, rule).error)
    ensures VerifyRefreshToken(refreshToken, now, rule).Success? && !TruthyClaim(refreshToken.claims, "sub") ==>
      r == Failure(InvalidToken("Invalid refresh token"))
    ensures r == Failure(InvalidCredentials("User not found")) <==>
      && VerifyRefreshToken(refreshToken, now, rule).Success? && TruthyClaim(refreshToken.claims, "sub")
      && forall u :: u in rows ==> refreshToken.claims["sub"] != Text(u.username)
    ensures r == Failure(InactiveUser) <==>
      && VerifyRefreshToken(refreshToken, now, rule).Success? && TruthyClaim(refreshToken.claims, "sub")
      && exists u :: u in rows && refreshToken.claims["sub"] == Text(u.username) && !u.isActive
    ensures r.Success? <==>
      && VerifyRefreshToken(refreshToken, now, rule).Success? && TruthyClaim(refreshToken.claims, "sub")
      && exists u :: u in rows && refreshToken.claims["sub"] == Text(u.username) && u.isActive
    ensures r.Success? ==>
      && r.value.refreshToken == refreshToken
      && r.value.accessToken == CreateAccessToken(SubjectClaims(refreshToken.claims["sub"].s), now, Some(Minutes(ACCESS_TOKEN_EXPIRE_MINUTES)))
      && r.value.tokenType == "bearer"
  {
    var payload :- VerifyRefreshToken(refreshToken, now, rule);
    if !TruthyClaim(payload, "sub") then Failure(InvalidToken("Invalid refresh token"))
    else match GetUserBySubject(rows, payload["sub"])
      case None => Failure(InvalidCredentials("User not found"))
      case Some(user) =>
        assert forall u :: u in rows && payload["sub"] == Text(u.username) ==> u == user by {
          forall u | u in rows && payload["sub"] == Text(u.username) ensures u == user {
            LookupsFindTheUniqueRow(rows, u);
          }
        }
        if !user.isActive then Failure(InactiveUser)
        else Success(Schemas.Token(
          CreateAccessToken(SubjectClaims(user.username), now, Some(Minutes(ACCESS_TOKEN_EXPIRE_MINUTES))),
          refreshToken,
          "bearer"))
  }

  /** A second registration with a username that the first one stored is
      refused with `UserAlreadyExists("username")`, whatever its e-mail, and
      one that reuses only the e-mail is refused naming the e-mail. */
  method RegisterTwice(store: UserStore, first: Schemas.UserCreate, second: Schemas.UserCreate, salt: string)
    returns (r1: Result<User, AuthError>, r2: Result<User, AuthError>)
    requires store.Valid()
    modifies store
    ensures store.Valid()
    ensures r1.Success? && second.username == first.username ==> r2 == Failure(UserAlreadyExists("username"))
    ensures (&& r1.Success? && second.username != first.username && second.email == first.email
             && (forall u :: u in old(store.rows) ==> u.username != second.username)) ==>
      r2 == Failure(UserAlreadyExists("email"))
  {
    r1 := RegisterUser(store, first, salt);
    r2 := RegisterUser(store, second, salt);
  }

  /** Both tokens of a successful login carry the user's name. Before its
      lifetime runs out each verifies as its own type, and it is refused as
      the other type with `InvalidToken`. */
  lemma LoginTokensVerify(username: string, issuedAt: int, now: int, rule: ExpiryRule)
    ensures var pair := LoginTokens(username, issuedAt);
      now < issuedAt + Minutes(ACCESS_TOKEN_EXPIRE_MINUTES) ==>
        && VerifyAccessToken(pair.accessToken, now, rule).Success?
        && VerifyAccessToken(pair.accessToken, now, rule).value["sub"] == Text(username)
        && VerifyRefreshToken(pair.accessToken, now, rule).Failure?
        && VerifyRefreshToken(pair.accessToken, now, rule).error.InvalidToken?
    ensures var pair := LoginTokens(username, issuedAt);
      now < issuedAt + Minutes(REFRESH_TOKEN_EXPIRE_MINUTES) ==>
        && VerifyRefreshToken(pair.refreshToken, now, rule).Success?
        && VerifyRefreshToken(pair.refreshToken, now, rule).value["sub"] == Text(username)
        && VerifyAccessToken(pair.refreshToken, now, rule).Failure?
        && VerifyAccessToken(pair.refreshToken, now, rule).error.InvalidToken?
  {
    var data := SubjectClaims(username);
    if now < issuedAt + Minutes(ACCESS_TOKEN_EXPIRE_MINUTES) {
      IssuedTokenVerifies(data, Some(Minutes(ACCESS_TOKEN_EXPIRE_MINUTES)), ACCESS, ACCESS_TOKEN_EXPIRE_MINUTES, issuedAt, now, rule);
      TokenTypesNotInterchangeable(data, Some(Minutes(ACCESS_TOKEN_EXPIRE_MINUTES)), issuedAt, now, rule);
    }
    if now < issuedAt + Minutes(REFRESH_TOKEN_EXPIRE_MINUTES) {
      IssuedTokenVerifies(data, Some(Minutes(REFRESH_TOKEN_EXPIRE_MINUTES)), REFRESH, REFRESH_TOKEN_EXPIRE_MINUTES, issuedAt, now, rule);
      TokenTypesNotInterchangeable(data, Some(Minutes(REFRESH_TOKEN_EXPIRE_MINUTES)), issuedAt, now, rule);
    }
  }

  /** An unknown username and a wrong password for a known one give the
      very same error, so a caller cannot tell which it was. */
  lemma LoginHidesWhichCredentialFailed(rows: seq<User>, u: User, unknown: string, password: string, salt: string, wrong: string, now: int)
    requires UniqueKeys(rows) && u in rows
    requires u.hashedPassword == GetPasswordHash(password, salt) && wrong != password
    requires forall v :: v in rows ==> v.username != unknown
    ensures LoginUser(rows, unknown, password, now) == LoginUser(rows, u.username, wrong, now) == Failure(InvalidCredentials(""))
  {
    AuthenticateRejectsUnknownUser(rows, unknown, password);
    AuthenticateRejectsWrongPassword(rows, u, salt, password, wrong);
  }

  /** A deactivated user who gives the right password gets `InactiveUser`;
      with a wrong password the account's state is not revealed. */
  lemma InactiveUserLogin(rows: seq<User>, u: User, password: string, salt: string, wrong: string, now: int)
    requires UniqueKeys(rows) && u in rows && !u.isActive
    requires u.hashedPassword == GetPasswordHash(password, salt) && wrong != password
    ensures LoginUser(rows, u.username, password, now) == Failure(InactiveUser)
    ensures LoginUser(rows, u.username, wrong, now) == Failure(InvalidCredentials(""))
  {
    AuthenticateIgnoresActiveFlag(rows, u, salt, password);
    AuthenticateRejectsWrongPassword(rows, u, salt, password, wrong);
  }

  /** The refresh token of a login, presented before it expires while its
      user is still stored and active, yields a new access token for that
      user and the same refresh token back. */
  lemma RefreshAfterLogin(rows: seq<User>, u: User, issuedAt: int, now: int, rule: ExpiryRule)
    requires UniqueKeys(rows) && u in rows && u.isActive && u.username != ""
    requires now < issuedAt + Minutes(REFRESH_TOKEN_EXPIRE_MINUTES)
    ensures var refresh := LoginTokens(u.username, issuedAt).refreshToken;
      RefreshAccessToken(rows, refresh, now, rule) == Success(Schemas.Token(
        CreateAccessToken(SubjectClaims(u.username), now, Some(Minutes(ACCESS_TOKEN_EXPIRE_MINUTES))),
        refresh,
        "bearer"))
  {
    LoginTokensVerify(u.username, issuedAt, now, rule);
    LookupsFindTheUniqueRow(rows, u);
  }

  /** A refresh token that outlived its user's account is answered with
      `InvalidCredentials("User not found")`, and one whose user was
      deactivated with `InactiveUser`. */
  lemma RefreshForMissingOrInactiveUser(rows: seq<User>, username: string, issuedAt: int, now: int, rule: ExpiryRule)
    requires UniqueKeys(rows) && username != ""
    requires now < issuedAt + Minutes(REFRESH_TOKEN_EXPIRE_MINUTES)
    ensures var refresh := LoginTokens(username, issuedAt).refreshToken;
      (forall u :: u in rows ==> u.username != username) ==>
        RefreshAccessToken(rows, refresh, now, rule) == Failure(InvalidCredentials("User not found"))
    ensures var refresh := LoginTokens(username, issuedAt).refreshToken;
      (exists u :: u in rows && u.username == username && !u.isActive) ==>
        RefreshAccessToken(rows, refresh, now, rule) == Failure(InactiveUser)
  {
    LoginTokensVerify(username, issuedAt, now, rule);
    if u :| u in rows && u.username == username && !u.isActive {
      LookupsFindTheUniqueRow(rows, u);
    }
  }

  /** The access token of a login can never be used to refresh: before its
      expiry it is refused for its type, afterwards as expired. */
  lemma RefreshRejectsAccessToken(rows: seq<User>, username: string, issuedAt: int, now: int, rule: ExpiryRule)
    requires UniqueKeys(rows)
    ensures RefreshAccessToken(rows, LoginTokens(username, issuedAt).accessToken, now, rule).Failure?
    ensures RefreshAccessToken(rows, LoginTokens(username, issuedAt).accessToken, now, rule).error.IsTokenError()
  {
  }
}
