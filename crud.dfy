/** The user store (app/db/crud.py). The table is a sequence of rows kept
    by `UserStore`; the two lookups and `authenticate_user` only read it and
    are functions of the rows, `create_user` appends to it. */
module Crud {
  import opened Wrappers
  import opened Passwords
  import opened Models
  import Schemas
  import Jwt

  /** `get_user_by_username`: the row whose username equals the argument
      exactly (case-sensitively), if there is one. */
  function GetUserByUsername(rows: seq<User>, username: string): (r: Option<User>)
    ensures r.Some? ==> r.value in rows && r.value.username == username
    ensures r.None? <==> forall u :: u in rows ==> u.username != username
  {
    if rows == [] then None
    else if rows[0].username == username then Some(rows[0])
    else GetUserByUsername(rows[1..], username)
  }

  /** `get_user_by_email`: the row whose e-mail equals the argument exactly,
      if there is one. */
  function GetUserByEmail(rows: seq<User>, email: string): (r: Option<User>)
    ensures r.Some? ==> r.value in rows && r.value.email == email
    ensures r.None? <==> forall u :: u in rows ==> u.email != email
  {
    if rows == [] then None
    else if rows[0].email == email then Some(rows[0])
    else GetUserByEmail(rows[1..], email)
  }

  /** `get_user_by_username` called with the `sub` value of a verified
      payload: only a string can equal a stored username. */
  function GetUserBySubject(rows: seq<User>, sub: Jwt.Claim): (r: Option<User>)
    ensures r.Some? ==> r.value in rows && sub == Jwt.Text(r.value.username)
    ensures r.None? <==> forall u :: u in rows ==> sub != Jwt.Text(u.username)
  {
    if sub.Text? then GetUserByUsername(rows, sub.s) else None
  }

  /** Under the unique constraints (`scalar_one_or_none` finds at most one
      row) each lookup returns the one row holding its key. */
  lemma LookupsFindTheUniqueRow(rows: seq<User>, u: User)
    requires UniqueKeys(rows) && u in rows
    ensures GetUserByUsername(rows, u.username) == Some(u)
    ensures GetUserByEmail(rows, u.email) == Some(u)
  {
    var v := GetUserByUsername(rows, u.username).value;
    var i, j :| 0 <= i < |rows| && 0 <= j < |rows| && rows[i] == u && rows[j] == v;
    assert i == j;
    var w := GetUserByEmail(rows, u.email).value;
    var k :| 0 <= k < |rows| && rows[k] == w;
    assert i == k;
  }

  /** `authenticate_user`: the stored user when the username exists and the
      password verifies against its hash, otherwise nothing. The active flag
      is not consulted. */
  function AuthenticateUser(rows: seq<User>, username: string, password: string): (r: Option<User>)
    requires UniqueKeys(rows)
    ensures r.Some? <==> exists u :: u in rows && u.username == username && VerifyPassword(password, u.hashedPassword)
    ensures r.Some? ==> r.value in rows && r.value.username == username
  {
    match GetUserByUsername(rows, username)
    case None => None
    case Some(user) =>
      if !VerifyPassword(password, user.hashedPassword) then None
      else
        assert forall u :: u in rows && u.username == username ==> u == user by {
          forall u | u in rows && u.username == username ensures u == user {
            LookupsFindTheUniqueRow(rows, u);
          }
        }
        Some(user)
  }

  /** An inactive user who gives the right password is still authenticated:
      deciding what inactivity means is left to the callers. */
  lemma AuthenticateIgnoresActiveFlag(rows: seq<User>, u: User, salt: string, password: string)
    requires UniqueKeys(rows) && u in rows && !u.isActive
    requires u.hashedPassword == GetPasswordHash(password, salt)
    ensures AuthenticateUser(rows, u.username, password) == Some(u)
  {
    LookupsFindTheUniqueRow(rows, u);
  }

  /** An unknown username is answered with nothing. */
  lemma AuthenticateRejectsUnknownUser(rows: seq<User>, username: string, password: string)
    requires UniqueKeys(rows)
    requires forall v :: v in rows ==> v.username != username
    ensures AuthenticateUser(rows, username, password).None?
  {
  }

  /** A known username with a password other than the one it was hashed
      from is answered with nothing too. */
  lemma AuthenticateRejectsWrongPassword(rows: seq<User>, u: User, salt: string, password: string, wrong: string)
    requires UniqueKeys(rows) && u in rows
    requires u.hashedPassword == GetPasswordHash(password, salt) && wrong != password
    ensures AuthenticateUser(rows, u.username, wrong).None?
  {
    LookupsFindTheUniqueRow(rows, u);
  }

  /** The `auth_users` table: its rows and the next value of the
      auto-incremented primary key. */
  class UserStore {
    var rows: seq<User>
    var nextId: nat

    ghost predicate Valid()
      reads this
    {
      UniqueKeys(rows) && forall i :: 0 <= i < |rows| ==> rows[i].id < nextId
    }

    constructor ()
      ensures Valid() && rows == []
    {
      rows := [];
      nextId := 1;
    }

    /** `create_user`: inserts one row with the hashed password, `role =
        "user"` whatever role the request carried, and `is_active = True`.
        When the username or the e-mail is already stored the unique index
        refuses the insert and nothing changes. */
    method CreateUser(userCreate: Schemas.UserCreate, salt: string) returns (created: Option<User>)
      requires Valid()
      modifies this
      ensures Valid()
      ensures created.None? <==>
        GetUserByUsername(old(rows), userCreate.username).Some? || GetUserByEmail(old(rows), userCreate.email).Some?
      ensures created.None? ==> rows == old(rows) && nextId == old(nextId)
      ensures created.Some? ==>
        && created.value == User(old(nextId), userCreate.username, userCreate.email, "user",
                                 GetPasswordHash(userCreate.password, salt), true)
        && rows == old(rows) + [created.value]
        && nextId == old(nextId) + 1
    {
      if GetUserByUsername(rows, userCreate.username).Some? || GetUserByEmail(rows, userCreate.email).Some? {
        created := None;
        return;
      }
      var user := User(nextId, userCreate.username, userCreate.email, "user",
                       GetPasswordHash(userCreate.password, salt), true);
      rows := rows + [user];
      nextId := nextId + 1;
      created := Some(user);
    }
  }
}
