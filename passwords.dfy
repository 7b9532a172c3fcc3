/** Password hashing (`get_password_hash`, `verify_password`), delegated by
    the source to a PBKDF2-SHA256 library. The hash is modelled as a symbolic
    value built from a random salt and the password: distinct inputs give
    distinct hashes (collision resistance), and only the password it was made
    from verifies against it. The random salt is a parameter. */
module Passwords {

  datatype PasswordHash = Pbkdf2Sha256(salt: string, derivedFrom: string)

  function GetPasswordHash(password: string, salt: string): (h: PasswordHash)
    ensures h.salt == salt
  {
    Pbkdf2Sha256(salt, password)
  }

  /** `verify_password`: a hash accepts exactly the password it was derived
      from, whatever its salt. */
  predicate VerifyPassword(plain: string, hashed: PasswordHash): (ok: bool)
    ensures ok <==> plain == hashed.derivedFrom
  {
    hashed == GetPasswordHash(plain, hashed.salt)
  }

  /** A password verifies against its own hash, whatever the salt. */
  lemma HashedPasswordVerifies(password: string, salt: string)
    ensures VerifyPassword(password, GetPasswordHash(password, salt))
  {
  }

  /** No other password verifies against it. */
  lemma OtherPasswordRejected(password: string, other: string, salt: string)
    requires other != password
    ensures !VerifyPassword(other, GetPasswordHash(password, salt))
  {
  }
}
