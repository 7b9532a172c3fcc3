/** Request and response schemas (app/schemas/user.py): the role enumeration,
    the registration payload with its field constraints and password
    validator, and the token pair returned by login and refresh. Character
    classes are the ASCII ones; Python's Unicode-wide `isdigit`, `isupper`
    and `islower` are not modelled. */
module Schemas {
  import opened Wrappers
  import Jwt

  datatype UserRole = Admin | User | Moderator {
    /** The string stored in the `role` column and compared by the role gate. */
    function Value(): string {
      match this
      case Admin => "admin"
      case User => "user"
      case Moderator => "moderator"
    }
  }

  /** The enumeration read back from a stored role string. */
  function ParseRole(s: string): (r: Option<UserRole>)
    ensures r.Some? ==> r.value.Value() == s
    ensures r.None? ==> s != "admin" && s != "user" && s != "moderator"
  {
    if s == "admin" then Some(Admin)
    else if s == "user" then Some(User)
    else if s == "moderator" then Some(Moderator)
    else None
  }

  /** The three role names are distinct, so each role is recovered from its
      name. */
  lemma ParseRoleInvertsValue(role: UserRole)
    ensures ParseRole(role.Value()) == Some(role)
  {
    match role
    case Admin =>
    case User =>
      assert "user" != "admin" by { assert "user"[0] != "admin"[0]; }
    case Moderator =>
      assert "moderator" != "admin" by { assert "moderator"[0] != "admin"[0]; }
      assert "moderator" != "user" by { assert "moderator"[0] != "user"[0]; }
  }

  /** `UserCreate`; `role` defaults to `USER` as in `UserBase`. */
  datatype UserCreate = UserCreate(username: string, email: string, password: string, role: UserRole := UserRole.User)

  /** `Token`; `token_type` defaults to "bearer". */
  datatype Token = Token(accessToken: Jwt.Token, refreshToken: Jwt.Token, tokenType: string := "bearer")

  /** `UserResponse`: what registration answers with; no password field. */
  datatype UserResponse = UserResponse(id: nat, username: string, email: string, role: UserRole, isActive: bool)

  predicate IsDigit(c: char) { '0' <= c <= '9' }
  predicate IsUpper(c: char) { 'A' <= c <= 'Z' }
  predicate IsLower(c: char) { 'a' <= c <= 'z' }

  predicate HasDigit(v: string) { exists i :: 0 <= i < |v| && IsDigit(v[i]) }
  predicate HasUpper(v: string) { exists i :: 0 <= i < |v| && IsUpper(v[i]) }
  predicate HasLower(v: string) { exists i :: 0 <= i < |v| && IsLower(v[i]) }

  const NO_DIGIT := "Password must contain at least one digit."
  const NO_UPPER := "Password must contain at least one uppercase letter."
  const NO_LOWER := "Password must contain at least one lowercase letter."

  /** `UserCreate.validate_password`: the three composition rules in order;
      the first one broken names the error, and an accepted password is
      returned unchanged. */
  function ValidatePassword(v: string): (r: Result<string, string>)
    ensures r.Success? <==> HasDigit(v) && HasUpper(v) && HasLower(v)
    ensures r.Success? ==> r.value == v
    ensures !HasDigit(v) ==> r == Failure(NO_DIGIT)
    ensures HasDigit(v) && !HasUpper(v) ==> r == Failure(NO_UPPER)
    ensures HasDigit(v) && HasUpper(v) && !HasLower(v) ==> r == Failure(NO_LOWER)
  {
    if !HasDigit(v) then Failure(NO_DIGIT)
    else if !HasUpper(v) then Failure(NO_UPPER)
    else if !HasLower(v) then Failure(NO_LOWER)
    else Success(v)
  }

  /** The character class `[a-zA-Z0-9_.-]` of the username pattern. */
  predicate IsUsernameChar(c: char) {
    IsLower(c) || IsUpper(c) || IsDigit(c) || c == '_' || c == '.' || c == '-'
  }

  /** The regular expression `^[a-zA-Z0-9_.-]+$` read as its grammar: one
      pattern character, then either the end or another match. */
  predicate MatchesUsernamePattern(s: string) {
    |s| >= 1 && IsUsernameChar(s[0]) && (|s| == 1 || MatchesUsernamePattern(s[1..]))
  }

  /** A string matches the pattern iff it is non-empty and every character
      belongs to the class. */
  lemma {:induction false} PatternIsCharacterClass(s: string)
    ensures MatchesUsernamePattern(s) <==> |s| >= 1 && forall i :: 0 <= i < |s| ==> IsUsernameChar(s[i])
    decreases |s|
  {
    if |s| > 1 {
      PatternIsCharacterClass(s[1..]);
      assert forall i :: 1 <= i < |s| ==> s[i] == s[1..][i - 1];
    }
  }

  /** `min_length=3, max_length=50, pattern="^[a-zA-Z0-9_.-]+$"`: a
      username is admitted iff its length is in bounds and it matches the
      pattern; in particular it never holds '@' or a space. */
  predicate ValidUsername(s: string): (ok: bool)
    ensures ok <==> 3 <= |s| <= 50 && MatchesUsernamePattern(s)
    ensures ok ==> '@' !in s && ' ' !in s
  {
    PatternIsCharacterClass(s);
    3 <= |s| <= 50 && forall i :: 0 <= i < |s| ==> IsUsernameChar(s[i])
  }

  /** `min_length=8, max_length=128`. */
  predicate ValidPasswordLength(s: string) {
    8 <= |s| <= 128
  }

  /** The composition rules need a digit, an upper-case and a lower-case
      letter, three distinct characters, so alone they admit passwords of
      three characters; the length constraint is a separate gate that
      refuses those. */
  lemma PasswordLengthIsASeparateGate(v: string)
    ensures ValidatePassword(v).Success? ==> |v| >= 3
    ensures ValidatePassword("Ab1").Success? && !ValidPasswordLength("Ab1")
  {
    if ValidatePassword(v).Success? {
      var d :| 0 <= d < |v| && IsDigit(v[d]);
      var u :| 0 <= u < |v| && IsUpper(v[u]);
      var l :| 0 <= l < |v| && IsLower(v[l]);
      assert d != u && d != l && u != l;
    }
    assert IsUpper("Ab1"[0]) && IsLower("Ab1"[1]) && IsDigit("Ab1"[2]);
  }

  /** A registration payload that the schema admits (the e-mail format check
      is a library's and is not modelled). The password validator runs after
      the length constraint. */
  predicate AdmitsUserCreate(uc: UserCreate): (ok: bool)
    ensures ok <==> && ValidUsername(uc.username)
                    && 8 <= |uc.password| <= 128
                    && HasDigit(uc.password) && HasUpper(uc.password) && HasLower(uc.password)
    ensures ok ==> ValidatePassword(uc.password) == Success(uc.password)
  {
    ValidUsername(uc.username) && ValidPasswordLength(uc.password) && ValidatePassword(uc.password).Success?
  }

  /** The fixture credentials of the tests are admitted, and a password is
      rejected for the first rule it breaks. */
  lemma FixturePasswordsChecked()
    ensures ValidatePassword("Test1234") == Success("Test1234")
    ensures ValidatePassword("Admin1234") == Success("Admin1234")
    ensures ValidatePassword("password") == Failure(NO_DIGIT)
    ensures ValidatePassword("test1234") == Failure(NO_UPPER)
    ensures ValidatePassword("TEST1234") == Failure(NO_LOWER)
  {
    assert IsDigit("Test1234"[4]) && IsUpper("Test1234"[0]) && IsLower("Test1234"[1]);
    assert IsDigit("Admin1234"[5]) && IsUpper("Admin1234"[0]) && IsLower("Admin1234"[1]);
    assert IsDigit("test1234"[4]);
    assert IsDigit("TEST1234"[4]) && IsUpper("TEST1234"[0]);
  }

  /** The fixture and test usernames satisfy the username constraint, and a
      payload built from them is admitted with the default role. */
  lemma FixtureUserCreateAdmitted()
    ensures AdmitsUserCreate(UserCreate("testuser", "test@example.com", "Test1234"))
    ensures AdmitsUserCreate(UserCreate("newuser", "new@example.com", "Test1234"))
    ensures UserCreate("newuser", "new@example.com", "Test1234").role == UserRole.User
    ensures !ValidUsername("ab") && !ValidUsername("bad user")
  {
    FixturePasswordsChecked();
    assert !IsUsernameChar("bad user"[3]);
  }

  /** A token pair built without a type says "bearer". */
  lemma TokenTypeDefaultsToBearer(accessToken: Jwt.Token, refreshToken: Jwt.Token)
    ensures Token(accessToken, refreshToken).tokenType == "bearer"
  {
  }
}
