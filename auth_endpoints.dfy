/** The HTTP auth routes (app/api/v1/endpoints/auth.py): a second
    implementation of register, login and refresh that answers with status
    codes directly instead of raising the service's error kinds. Lemmas at
    the end compare each route with the service of `AuthService` as its
    errors would be answered by `Handlers`. */
module AuthEndpoints {
  import opened Wrappers
  import opened Errors
  import opened Config
  import opened Jwt
  import opened Passwords
  import opened Security
  import opened Models
  import opened Crud
  import opened Handlers
  import Schemas
  import AuthService

  const HTTP_200_OK := 200
  const HTTP_201_CREATED := 201

  /** What a route produces: a body with its status, or an `HTTPException`. */
  datatype Response<T> =
    | Ok(status: int, body: T)
    | HttpException(status: int, detail: string, wwwAuthenticate: bool)

  /** `UserResponse.model_validate(user)`: fails when the stored role is not
      one of the three role names. */
  function ToUserResponse(user: User): (r: Option<Schemas.UserResponse>)
    ensures r.Some? <==> Schemas.ParseRole(user.role).Some?
    ensures r.Some? ==>
      r.value.id == user.id && r.value.username == user.username && r.value.email == user.email
      && r.value.role.Value() == user.role && r.value.isActive == user.isActive
  {
    match Schemas.ParseRole(user.role)
    case None => None
    case Some(role) => Some(Schemas.UserResponse(user.id, user.username, user.email, role, user.isActive))
  }

  /** The duplicate checks of `register_user`: 400 for a taken username,
      checked first, then 400 for a taken e-mail. */
  function RegisterRejection(rows: seq<User>, userCreate: Schemas.UserCreate): (r: Option<Response<Schemas.UserResponse>>)
    ensures r == Some(HttpException(HTTP_400_BAD_REQUEST, "Username already registered", false)) <==>
      exists u :: u in rows && u.username == userCreate.username
    ensures r == Some(HttpException(HTTP_400_BAD_REQUEST, "Email already registered", false)) <==>
      (forall u :: u in rows ==> u.username != userCreate.username)
      && exists u :: u in rows && u.email == userCreate.email
    ensures r.None? <==> forall u :: u in rows ==> u.username != userCreate.username && u.email != userCreate.email
  {
    if GetUserByUsername(rows, userCreate.username).Some? then
      Some(HttpException(HTTP_400_BAD_REQUEST, "Username already registered", false))
    else if GetUserByEmail(rows, userCreate.email).Some? then
      Some(HttpException(HTTP_400_BAD_REQUEST, "Email already registered", false))
    else None
  }

  /** `POST /auth/register`: on a duplicate the store is unchanged; otherwise
      one active user with role "user" is added and echoed back with 201,
      without its password. */
  method RegisterUser(store: UserStore, userCreate: Schemas.UserCreate, salt: string) returns (r: Response<Schemas.UserResponse>)
    requires store.Valid()
    modifies store
    ensures store.Valid()
    ensures r.HttpException? <==> RegisterRejection(old(store.rows), userCreate).Some?
    ensures r.HttpException? ==>
      Some(r) == RegisterRejection(old(store.rows), userCreate)
      && store.rows == old(store.rows) && store.nextId == old(store.nextId)
    ensures r.Ok? ==>
      && r.status == HTTP_201_CREATED
      && r.body == Schemas.UserResponse(old(store.nextId), userCreate.username, userCreate.email, Schemas.UserRole.User, true)
      && store.rows == old(store.rows) + [User(old(store.nextId), userCreate.username, userCreate.email,
                                               "user", GetPasswordHash(userCreate.password, salt), true)]
  {
    var rejection := RegisterRejection(store.rows, userCreate);
    if rejection.Some? {
      return rejection.value;
    }
    var created := store.CreateUser(userCreate, salt);
    var response := ToUserResponse(created.value);
    r := Ok(HTTP_201_CREATED, response.value);
  }

  /** `POST /auth/login`: 401 with the bearer challenge for an unknown user
      or a wrong password, 403 for an inactive account with the right
      password, otherwise the token pair with the configured lifetimes. */
  function LoginUser(rows: seq<User>, username: string, password: string, now: int): (r: Response<Schemas.Token>)
    requires UniqueKeys(rows)
    ensures r == HttpException(HTTP_401_UNAUTHORIZED, "Incorrect username or password", true) <==>
      forall u :: u in rows && u.username == username ==> !VerifyPassword(password, u.hashedPassword)
    ensures r == HttpException(HTTP_403_FORBIDDEN, "User account is inactive", false) <==>
      exists u :: u in rows && u.username == username && VerifyPassword(password, u.hashedPassword) && !u.isActive
    ensures r.Ok? ==> r.status == HTTP_200_OK && r.body.tokenType == "bearer"
  {
    match AuthenticateUser(rows, username, password)
    case None => HttpException(HTTP_401_UNAUTHORIZED, "Incorrect username or password", true)
    case Some(user) =>
      if !user.isActive then HttpException(HTTP_403_FORBIDDEN, "User account is inactive", false)
      else
        var accessToken := CreateAccessToken(AuthService.SubjectClaims(user.username), now, Some(Minutes(ACCESS_TOKEN_EXPIRE_MINUTES)));
        var refreshToken := CreateRefreshToken(AuthService.SubjectClaims(user.username), now, Some(Minutes(REFRESH_TOKEN_EXPIRE_MINUTES)));
        Ok(HTTP_200_OK, Schemas.Token(accessToken, refreshToken, "bearer"))
  }

  /** `POST /auth/refresh`: every failure is 401 without a challenge header:
      a token error, a falsy subject, and a missing or inactive user alike.
      On success both tokens are new, each with its default lifetime. */
  function RefreshToken(rows: seq<User>, refreshToken: Token, now: int, rule: ExpiryRule): (r: Response<Schemas.Token>)
    requires UniqueKeys(rows)
    ensures r.HttpException? ==> r.status == HTTP_401_UNAUTHORIZED && !r.wwwAuthenticate
    ensures VerifyRefreshToken(refreshToken, now, rule).Failure? ==>
      r == HttpException(HTTP_401_UNAUTHORIZED, "Invalid or expired refresh token", false)
    ensures VerifyRefreshToken(refreshToken, now, rule).Success? && !TruthyClaim(refreshToken.claims, "sub") ==>
      r == HttpException(HTTP_401_UNAUTHORIZED, "Invalid refresh token", false)
    ensures (&& VerifyRefreshToken(refreshToken, now, rule).Success? && TruthyClaim(refreshToken.claims, "sub")
             && !(exists u :: u in rows && refreshToken.claims["sub"] == Text(u.username) && u.isActive)) ==>
      r == HttpException(HTTP_401_UNAUTHORIZED, "User not found or inactive", false)
    ensures r.Ok? <==>
      && VerifyRefreshToken(refreshToken, now, rule).Success?
      && TruthyClaim(refreshToken.claims, "sub")
      && exists u :: u in rows && refreshToken.claims["sub"] == Text(u.username) && u.isActive
    ensures r.Ok? ==>
      && r.status == HTTP_200_OK && r.body.tokenType == "bearer"
      && r.body.accessToken == CreateAccessToken(AuthService.SubjectClaims(refreshToken.claims["sub"].s), now)
      && r.body.refreshToken == CreateRefreshToken(AuthService.SubjectClaims(refreshToken.claims["sub"].s), now)
  {
    match VerifyRefreshToken(refreshToken, now, rule)
    case Failure(_) => HttpException(HTTP_401_UNAUTHORIZED, "Invalid or expired refresh token", false)
    case Success(payload) =>
      if !TruthyClaim(payload, "sub") then HttpException(HTTP_401_UNAUTHORIZED, "Invalid refresh token", false)
      else match GetUserBySubject(rows, payload["sub"])
        case None => HttpException(HTTP_401_UNAUTHORIZED, "User not found or inactive", false)
        case Some(user) =>
          if !user.isActive then
            assert forall u :: u in rows && payload["sub"] == Text(u.username) ==> u == user by {
              forall u | u in rows && payload["sub"] == Text(u.username) ensures u == user {
                LookupsFindTheUniqueRow(rows, u);
              }
            }
            HttpException(HTTP_401_UNAUTHORIZED, "User not found or inactive", false)
          else Ok(HTTP_200_OK, Schemas.Token(
            CreateAccessToken(AuthService.SubjectClaims(user.username), now),
            CreateRefreshToken(AuthService.SubjectClaims(user.username), now),
            "bearer"))
  }

  /** Registration: the route rejects exactly when the service would, but
      with 400 and a sentence, where the service's `UserAlreadyExists` is
      answered 409 with the bare field name. */
  lemma RegisterRouteDiffersFromService(rows: seq<User>, userCreate: Schemas.UserCreate)
    ensures RegisterRejection(rows, userCreate).Some? <==> AuthService.RegistrationConflict(rows, userCreate).Some?
    ensures AuthService.RegistrationConflict(rows, userCreate) == Some(UserAlreadyExists("username")) ==>
      && RegisterRejection(rows, userCreate) == Some(HttpException(HTTP_400_BAD_REQUEST, "Username already registered", false))
      && HandleError(UserAlreadyExists("username")) == ErrorReply(HTTP_409_CONFLICT, "username", false)
    ensures AuthService.RegistrationConflict(rows, userCreate) == Some(UserAlreadyExists("email")) ==>
      && RegisterRejection(rows, userCreate) == Some(HttpException(HTTP_400_BAD_REQUEST, "Email already registered", false))
      && HandleError(UserAlreadyExists("email")) == ErrorReply(HTTP_409_CONFLICT, "email", false)
  {
  }

  /** Login: the route and the service agree. Both succeed together with the
      very same token pair, and a service error, answered by its handler,
      has the route's status and challenge header. */
  lemma LoginRouteAgreesWithService(rows: seq<User>, username: string, password: string, now: int)
    requires UniqueKeys(rows)
    ensures AuthService.LoginUser(rows, username, password, now).Success? <==> LoginUser(rows, username, password, now).Ok?
    ensures AuthService.LoginUser(rows, username, password, now).Success? ==>
      LoginUser(rows, username, password, now).body == AuthService.LoginUser(rows, username, password, now).value
    ensures AuthService.LoginUser(rows, username, password, now).Failure? ==>
      var reply := HandleError(AuthService.LoginUser(rows, username, password, now).error);
      LoginUser(rows, username, password, now).status == reply.status
      && LoginUser(rows, username, password, now).wwwAuthenticate == reply.wwwAuthenticate
  {
  }

  /** Refresh: the route and the service succeed on the same inputs and mint
      the same access token, but the route answers every failure with 401,
      including the inactive user that the service's handler answers with
      403, and it replaces the refresh token where the service hands the
      old one back. */
  lemma RefreshRouteComparedWithService(rows: seq<User>, refreshToken: Token, now: int, rule: ExpiryRule)
    requires UniqueKeys(rows)
    ensures AuthService.RefreshAccessToken(rows, refreshToken, now, rule).Success? <==> RefreshToken(rows, refreshToken, now, rule).Ok?
    ensures AuthService.RefreshAccessToken(rows, refreshToken, now, rule).Success? ==>
      && RefreshToken(rows, refreshToken, now, rule).body.accessToken
         == AuthService.RefreshAccessToken(rows, refreshToken, now, rule).value.accessToken
      && AuthService.RefreshAccessToken(rows, refreshToken, now, rule).value.refreshToken == refreshToken
    ensures AuthService.RefreshAccessToken(rows, refreshToken, now, rule) == Failure(InactiveUser) ==>
      && HandleError(InactiveUser).status == HTTP_403_FORBIDDEN
      && RefreshToken(rows, refreshToken, now, rule) == HttpException(HTTP_401_UNAUTHORIZED, "User not found or inactive", false)
  {
  }

  /** Rotation: refreshing at a later instant with the refresh token of a
      login returns a different refresh token that lives longer, while the
      old one is not revoked and still works until its own expiry. */
  lemma RefreshRouteRotates(rows: seq<User>, u: User, issuedAt: int, now: int, later: int, rule: ExpiryRule)
    requires UniqueKeys(rows) && u in rows && u.isActive && u.username != ""
    requires issuedAt < now <= later < issuedAt + Minutes(REFRESH_TOKEN_EXPIRE_MINUTES)
    ensures var previous := AuthService.LoginTokens(u.username, issuedAt).refreshToken;
      var r := RefreshToken(rows, previous, now, rule);
      && r.Ok?
      && r.body.refreshToken != previous
      && ExpiryOf(r.body.refreshToken) == now + Minutes(REFRESH_TOKEN_EXPIRE_MINUTES) > ExpiryOf(previous)
      && RefreshToken(rows, previous, later, rule).Ok?
  {
    AuthService.LoginTokensVerify(u.username, issuedAt, now, rule);
    AuthService.LoginTokensVerify(u.username, issuedAt, later, rule);
    LookupsFindTheUniqueRow(rows, u);
  }
}
