/** The authorization gate (app/api/dependencies.py): resolve the caller
    from a bearer access token, require the account to be active, then
    require one of a list of roles. The three compose strictly in that
    order, so a later check never hides an earlier check's error. */
module Dependencies {
  import opened Wrappers
  import opened Errors
  import opened Config
  import opened Jwt
  import opened Security
  import opened Models
  import opened Crud
  import Schemas
  import AuthService

  /** `get_current_user`: token errors pass through unchanged; a `null`
      subject and a subject with no stored user are both
      `InvalidCredentials`, with different messages. */
  function GetCurrentUser(rows: seq<User>, token: Token, now: int, rule: ExpiryRule): (r: Result<User, AuthError>)
    ensures VerifyAccessToken(token, now, rule).Failure? ==>
      r == Failure(VerifyAccessToken(token, now, rule).error)
    ensures VerifyAccessToken(token, now, rule).Success? && token.claims["sub"] == Null ==>
      r == Failure(InvalidCredentials("Could not validate credentials"))
    ensures (&& VerifyAccessToken(token, now, rule).Success? && token.claims["sub"] != Null
             && (forall u :: u in rows ==> token.claims["sub"] != Text(u.username))) ==>
      r == Failure(InvalidCredentials("User not found"))
    ensures r.Success? ==>
      && VerifyAccessToken(token, now, rule).Success?
      && r.value in rows && token.claims["sub"] == Text(r.value.username)
    ensures VerifyAccessToken(token, now, rule).Success? && (exists u :: u in rows && token.claims["sub"] == Text(u.username)) ==>
      r.Success?
    ensures UniqueKeys(rows) && VerifyAccessToken(token, now, rule).Success? ==>
      forall u :: u in rows && token.claims["sub"] == Text(u.username) ==> r == Success(u)
  {
    var payload :- VerifyAccessToken(token, now, rule);
    var username := payload["sub"];
    if username == Null then Failure(InvalidCredentials("Could not validate credentials"))
    else match GetUserBySubject(rows, username)
      case None => Failure(InvalidCredentials("User not found"))
      case Some(user) => Success(user)
  }

  /** `get_current_active_user`: the same user, or `InactiveUser`. */
  function GetCurrentActiveUser(currentUser: User): (r: Result<User, AuthError>)
    ensures r.Success? <==> currentUser.isActive
    ensures r.Success? ==> r.value == currentUser
    ensures r.Failure? ==> r.error == InactiveUser
  {
    if !currentUser.isActive then Failure(InactiveUser) else Success(currentUser)
  }

  /** `[role.value for role in allowed_roles]`. */
  function RoleValues(allowedRoles: seq<Schemas.UserRole>): (values: seq<string>)
    ensures |values| == |allowedRoles|
    ensures forall i :: 0 <= i < |allowedRoles| ==> values[i] == allowedRoles[i].Value()
  {
    seq(|allowedRoles|, i requires 0 <= i < |allowedRoles| => allowedRoles[i].Value())
  }

  /** `", ".join(values)`: the values in order with ", " between them, so
      the result starts with the first value and contains every one. */
  function Join(values: seq<string>): (s: string)
    ensures |values| == 0 ==> s == ""
    ensures |values| > 0 ==> |s| == TotalLength(values) + 2 * (|values| - 1)
    ensures |values| > 0 ==> |values[0]| <= |s| && s[..|values[0]|] == values[0]
  {
    if |values| == 0 then ""
    else if |values| == 1 then values[0]
    else values[0] + ", " + Join(values[1..])
  }

  /** Sum of the lengths of the values. */
  function TotalLength(values: seq<string>): nat {
    if |values| == 0 then 0 else |values[0]| + TotalLength(values[1..])
  }

  predicate OccursAt(s: string, part: string, k: int) {
    0 <= k && k + |part| <= |s| && s[k..k + |part|] == part
  }

  /** `part in s` for strings. */
  predicate Contains(s: string, part: string) {
    exists k :: 0 <= k <= |s| && OccursAt(s, part, k)
  }

  /** A part of `s` is a part of anything that ends with `s`. */
  lemma ContainsAfterPrefix(prefix: string, s: string, part: string)
    requires Contains(s, part)
    ensures Contains(prefix + s, part)
  {
    var k :| 0 <= k <= |s| && OccursAt(s, part, k);
    var shifted := |prefix| + k;
    assert (prefix + s)[shifted..shifted + |part|] == s[k..k + |part|];
    assert OccursAt(prefix + s, part, shifted);
  }

  /** The joined string names every value. */
  lemma {:induction false} JoinNamesEveryValue(values: seq<string>)
    ensures forall i :: 0 <= i < |values| ==> Contains(Join(values), values[i])
  {
    if |values| == 1 {
      assert OccursAt(Join(values), values[0], 0);
    } else if |values| > 1 {
      JoinNamesEveryValue(values[1..]);
      forall i | 0 <= i < |values| ensures Contains(Join(values), values[i]) {
        if i == 0 {
          assert OccursAt(Join(values), values[0], 0);
        } else {
          assert values[i] == values[1..][i - 1];
          ContainsAfterPrefix(values[0] + ", ", Join(values[1..]), values[i]);
        }
      }
    }
  }

  const ROLE_MESSAGE_PREFIX := "Operation requires one of the following roles: "

  /** The message of `role_checker`: the fixed sentence followed by the
      role names, so it names every allowed role, and with a single role it
      is the sentence and that role's value. */
  function InsufficientRoleMessage(allowedRoles: seq<Schemas.UserRole>): (m: string)
    ensures |ROLE_MESSAGE_PREFIX| <= |m| && m[..|ROLE_MESSAGE_PREFIX|] == ROLE_MESSAGE_PREFIX
    ensures forall role :: role in allowedRoles ==> Contains(m, role.Value())
    ensures |allowedRoles| == 1 ==> m == ROLE_MESSAGE_PREFIX + allowedRoles[0].Value()
  {
    var values := RoleValues(allowedRoles);
    JoinNamesEveryValue(values);
    forall role | role in allowedRoles ensures Contains(ROLE_MESSAGE_PREFIX + Join(values), role.Value()) {
      var i :| 0 <= i < |allowedRoles| && allowedRoles[i] == role;
      ContainsAfterPrefix(ROLE_MESSAGE_PREFIX, Join(values), values[i]);
    }
    ROLE_MESSAGE_PREFIX + Join(values)
  }

  /** The body of the `role_checker` closure: the user passes when its role
      string equals the value of any one of the allowed roles. */
  function RoleChecker(allowedRoles: seq<Schemas.UserRole>, currentUser: User): (r: Result<User, AuthError>)
    ensures r.Success? <==> exists role :: role in allowedRoles && role.Value() == currentUser.role
    ensures r.Success? ==> r.value == currentUser
    ensures r.Failure? ==> r.error == InsufficientPermissions(InsufficientRoleMessage(allowedRoles))
  {
    var values := RoleValues(allowedRoles);
    if currentUser.role !in values then
      Failure(InsufficientPermissions(InsufficientRoleMessage(allowedRoles)))
    else
      assert exists i :: 0 <= i < |values| && values[i] == currentUser.role;
      Success(currentUser)
  }

  /** `require_role`: the checker it returns admits exactly the users whose
      stored role names one of the allowed roles. */
  function RequireRole(allowedRoles: seq<Schemas.UserRole>): (checker: User -> Result<User, AuthError>)
    ensures forall u :: checker(u).Success? <==>
      Schemas.ParseRole(u.role).Some? && Schemas.ParseRole(u.role).value in allowedRoles
    ensures forall u :: checker(u).Success? ==> checker(u).value == u
  {
    forall role: Schemas.UserRole ensures Schemas.ParseRole(role.Value()) == Some(role) {
      Schemas.ParseRoleInvertsValue(role);
    }
    u => RoleChecker(allowedRoles, u)
  }

  /** A route guarded by `require_role(allowed_roles)`: the token resolves
      the user, the user must be active, the role must be allowed. */
  function Authorize(rows: seq<User>, token: Token, now: int, rule: ExpiryRule, allowedRoles: seq<Schemas.UserRole>): (r: Result<User, AuthError>)
    ensures r.Success? <==>
      && GetCurrentUser(rows, token, now, rule).Success?
      && GetCurrentUser(rows, token, now, rule).value.isActive
      && RequireRole(allowedRoles)(GetCurrentUser(rows, token, now, rule).value).Success?
    ensures GetCurrentUser(rows, token, now, rule).Failure? ==> r == GetCurrentUser(rows, token, now, rule)
    ensures GetCurrentUser(rows, token, now, rule).Success? && !GetCurrentUser(rows, token, now, rule).value.isActive ==>
      r == Failure(InactiveUser)
    ensures r.Success? ==> r == GetCurrentUser(rows, token, now, rule)
  {
    var currentUser :- GetCurrentUser(rows, token, now, rule);
    var activeUser :- GetCurrentActiveUser(currentUser);
    RequireRole(allowedRoles)(activeUser)
  }

  /** The role lists of the admin dashboard and of the moderator panel. */
  const ADMIN_ONLY: seq<Schemas.UserRole> := [Schemas.UserRole.Admin]
  const ADMIN_OR_MODERATOR: seq<Schemas.UserRole> := [Schemas.UserRole.Admin, Schemas.UserRole.Moderator]

  /** Roles combine with OR: a moderator passes the moderator panel's list
      and is refused by the admin-only list, whose message names "admin";
      a plain user passes neither. */
  lemma RoleListsCombineWithOr(u: User)
    ensures u.role == "moderator" ==> RequireRole(ADMIN_OR_MODERATOR)(u) == Success(u)
    ensures u.role == "moderator" ==>
      RequireRole(ADMIN_ONLY)(u) == Failure(InsufficientPermissions("Operation requires one of the following roles: admin"))
    ensures u.role == "admin" ==> RequireRole(ADMIN_ONLY)(u).Success? && RequireRole(ADMIN_OR_MODERATOR)(u).Success?
    ensures u.role == "user" ==> RequireRole(ADMIN_ONLY)(u).Failure? && RequireRole(ADMIN_OR_MODERATOR)(u).Failure?
  {
    assert "moderator" != "admin" by { assert "moderator"[0] != "admin"[0]; }
    assert "user" != "admin" by { assert "user"[0] != "admin"[0]; }
    assert "user" != "moderator" by { assert "user"[0] != "moderator"[0]; }
    assert RoleValues(ADMIN_ONLY) == ["admin"];
    assert InsufficientRoleMessage(ADMIN_ONLY) == "Operation requires one of the following roles: admin";
  }

  /** The active check comes before the role check: an inactive user gets
      `InactiveUser` even when its role is allowed, and an active user with
      a role outside the list gets `InsufficientPermissions`. */
  lemma ActiveCheckPrecedesRoleCheck(rows: seq<User>, token: Token, now: int, rule: ExpiryRule, allowedRoles: seq<Schemas.UserRole>)
    requires GetCurrentUser(rows, token, now, rule).Success?
    ensures var u := GetCurrentUser(rows, token, now, rule).value;
      !u.isActive ==> Authorize(rows, token, now, rule, allowedRoles) == Failure(InactiveUser)
    ensures var u := GetCurrentUser(rows, token, now, rule).value;
      u.isActive && (forall role :: role in allowedRoles ==> role.Value() != u.role) ==>
        Authorize(rows, token, now, rule, allowedRoles) == Failure(InsufficientPermissions(InsufficientRoleMessage(allowedRoles)))
  {
  }

  /** The access token of a successful login identifies its user until the
      token expires; the refresh token of the same login is never accepted
      as a bearer token. */
  lemma LoginTokenAuthenticates(rows: seq<User>, u: User, issuedAt: int, now: int, rule: ExpiryRule)
    requires UniqueKeys(rows) && u in rows
    requires now < issuedAt + Minutes(ACCESS_TOKEN_EXPIRE_MINUTES)
    ensures GetCurrentUser(rows, AuthService.LoginTokens(u.username, issuedAt).accessToken, now, rule) == Success(u)
    ensures GetCurrentUser(rows, AuthService.LoginTokens(u.username, issuedAt).refreshToken, now, rule).Failure?
  {
    AuthService.LoginTokensVerify(u.username, issuedAt, now, rule);
    LookupsFindTheUniqueRow(rows, u);
  }

  /** An access token that outlived its user's account is answered with
      `InvalidCredentials("User not found")`. */
  lemma TokenOfDeletedUserRejected(rows: seq<User>, username: string, issuedAt: int, now: int, rule: ExpiryRule)
    requires forall u :: u in rows ==> u.username != username
    requires now < issuedAt + Minutes(ACCESS_TOKEN_EXPIRE_MINUTES)
    ensures GetCurrentUser(rows, AuthService.LoginTokens(username, issuedAt).accessToken, now, rule)
      == Failure(InvalidCredentials("User not found"))
  {
    AuthService.LoginTokensVerify(username, issuedAt, now, rule);
  }
}
