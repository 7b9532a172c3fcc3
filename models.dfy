/** The `auth_users` table (app/db/models/models.py). `is_active` is not a
    column of the mapped class, but the store operations, the services and
    the test fixtures all read and write it, so it is part of the record
    here. The server-side timestamps play no part in any decision. */
module Models {
  import opened Passwords

  datatype User = User(id: nat, username: string, email: string, role: string, hashedPassword: PasswordHash, isActive: bool)

  /** The two `unique=True` columns and the primary key: a username, an
      e-mail or an id identifies at most one row. */
  predicate UniqueKeys(rows: seq<User>): (ok: bool)
    ensures ok <==> forall i, j :: 0 <= i < |rows| && 0 <= j < |rows| && i != j ==>
      rows[i].username != rows[j].username
      && rows[i].email != rows[j].email
      && rows[i].id != rows[j].id
    ensures ok ==> forall a, b :: a in rows && b in rows && a.username == b.username ==> a == b
  {
    forall i, j :: 0 <= i < j < |rows| ==>
      rows[i].username != rows[j].username
      && rows[i].email != rows[j].email
      && rows[i].id != rows[j].id
  }
}
