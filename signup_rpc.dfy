/**
 * `auth.signup` (`registerUser`): validate the email, then the password,
 * refuse a taken email, then a taken username, then insert one new,
 * unverified user with a salted password hash under a fresh ULID-like id.
 */
module SignupRpc {
  import opened Wrappers
  import opened Text
  import opened AuthUtils
  import opened Schema
  import opened Database

  datatype RegisterUserParams = RegisterUserParams(email: string, username: string, password: string)

  datatype RegisterUserResponse = RegisterUserResponse(success: bool, message: string)

  const InvalidEmailMessage := "Invalid email format"
  const PasswordFailedPrefix := "Password validation failed: "
  const EmailExistsMessage := "Email already exists"
  const UsernameExistsMessage := "Username already exists"
  const RegisteredMessage := "User registered successfully"
  const RegistrationFailedMessage := "Registration failed. Please try again."

  function Refused(message: string): RegisterUserResponse
  {
    RegisterUserResponse(false, message)
  }

  /** Both validators accept the parameters. */
  predicate PassesValidation(params: RegisterUserParams)
  {
    IsValidEmail(params.email) && PasswordErrors(params.password) == []
  }

  /**
   * The row `registerUser` inserts: id from `generateULID()`, the password as
   * `hashPassword` stores it, `emailVerified = false`; no avatar, token or
   * last login, and both timestamps from the clock.
   */
  function NewUserRow(params: RegisterUserParams, saltBytes: seq<Byte>, digest: Digest,
                      nowMs: nat, randomText: string): (u: User)
    requires |saltBytes| == 16
    ensures u.email == params.email && u.username == params.username
    ensures !u.emailVerified && u.emailVerificationToken.None? && u.avatar.None? && u.lastLoginAt.None?
    ensures |u.id| == 30 && u.createdAt == u.updatedAt == nowMs
    ensures u.password.Some? && |u.password.value| > 32 && u.password.value[..32] == HexEncode(saltBytes) && u.password.value[32] == ':'
  {
    User(GenerateUlid(nowMs, randomText), params.email, params.username, None,
         Some(HashPassword(params.password, saltBytes, digest)),
         false, None, None, nowMs, nowMs)
  }

  /**
   * The handler. `saltBytes` are the bytes `randomBytes(16)` returned,
   * `digest` is SHA-256 in hex, `nowMs` the clock and `randomText` the text
   * of `Math.random().toString(36)`.
   */
  method RegisterUser(db: Db, params: RegisterUserParams, saltBytes: seq<Byte>, digest: Digest,
                      nowMs: nat, randomText: string)
    returns (r: RegisterUserResponse)
    requires db.Valid() && |saltBytes| == 16 && DigestShaped(digest)
    modifies db
    ensures db.Valid() && db.flows == old(db.flows)
    ensures !r.success ==> db.users == old(db.users)
    ensures !IsValidEmail(params.email) ==> r == Refused(InvalidEmailMessage)
    ensures IsValidEmail(params.email) && PasswordErrors(params.password) != [] ==>
              r == Refused(PasswordFailedPrefix + Join(PasswordErrors(params.password), ", "))
    ensures PassesValidation(params) && UserWithEmail(old(db.users), params.email).Some? ==>
              r == Refused(EmailExistsMessage)
    ensures PassesValidation(params) && UserWithEmail(old(db.users), params.email).None?
            && UserWithUsername(old(db.users), params.username).Some? ==>
              r == Refused(UsernameExistsMessage)
    ensures PassesValidation(params) && UserWithEmail(old(db.users), params.email).None?
            && UserWithUsername(old(db.users), params.username).None? ==>
              var row := NewUserRow(params, saltBytes, digest, nowMs, randomText);
              if UserInsertError(old(db.users), row).None?
              then r == RegisterUserResponse(true, RegisteredMessage) && db.users == old(db.users) + [StoredUser(row)]
              else r == Refused(RegistrationFailedMessage)
    ensures r.success ==>
              && |db.users| == |old(db.users)| + 1
              && db.users[..|old(db.users)|] == old(db.users)
              && var u := db.users[|old(db.users)|];
              && u.email == params.email && u.username == VarcharStored(params.username, UsernameWidth)
              && !u.emailVerified && u.emailVerificationToken == None
              && |u.id| == 30 && u.password == NewUserRow(params, saltBytes, digest, nowMs, randomText).password
  {
    if !IsValidEmail(params.email) {
      return Refused(InvalidEmailMessage);
    }

    var isValid, errors := ValidatePassword(params.password);
    if !isValid {
      return Refused(PasswordFailedPrefix + Join(errors, ", "));
    }

    var existingEmail := UserWithEmail(db.users, params.email);
    if existingEmail.Some? {
      return Refused(EmailExistsMessage);
    }

    var existingUsername := UserWithUsername(db.users, params.username);
    if existingUsername.Some? {
      return Refused(UsernameExistsMessage);
    }

    var row := NewUserRow(params, saltBytes, digest, nowMs, randomText);
    var err := db.InsertUser(row);
    if err.Some? {
      // the catch branch: any driver error becomes the generic message
      return Refused(RegistrationFailedMessage);
    }
    StoredNewUser(params, saltBytes, digest, nowMs, randomText);
    r := RegisterUserResponse(true, RegisteredMessage);
  }

  /** The password stored for a new user verifies the password it registered with. */
  lemma RegisteredPasswordVerifies(params: RegisterUserParams, saltBytes: seq<Byte>, digest: Digest,
                                   nowMs: nat, randomText: string)
    requires |saltBytes| == 16 && DigestShaped(digest)
    ensures var u := NewUserRow(params, saltBytes, digest, nowMs, randomText);
            u.password.Some? && VerifyPassword(params.password, u.password.value, digest)
  {
    HashThenVerify(params.password, saltBytes, digest);
  }

  /**
   * Once validation passes and neither the email nor the username is taken,
   * the insert fails only on an id collision, an email wider than its column,
   * a username that runs past its column with something other than spaces,
   * or a username whose cut-down form is already taken. A username that fits
   * leaves only the first two.
   */
  lemma RegisterInsertOutcome(users: seq<User>, params: RegisterUserParams, saltBytes: seq<Byte>,
                              digest: Digest, nowMs: nat, randomText: string)
    requires UsersValid(users) && |saltBytes| == 16 && DigestShaped(digest) && IsValidEmail(params.email)
    requires UserWithEmail(users, params.email).None? && UserWithUsername(users, params.username).None?
    ensures var row := NewUserRow(params, saltBytes, digest, nowMs, randomText);
            var cut := VarcharStored(params.username, UsernameWidth);
            UserInsertError(users, row).None?
            <==> && UserWithId(users, row.id).None?
                 && |params.email| <= EmailWidth
                 && VarcharAccepts(params.username, UsernameWidth)
                 && forall i :: 0 <= i < |users| ==> users[i].username != cut
    ensures |params.username| <= UsernameWidth ==>
              (UserInsertError(users, NewUserRow(params, saltBytes, digest, nowMs, randomText)).None?
               <==> UserWithId(users, NewUserRow(params, saltBytes, digest, nowMs, randomText).id).None?
                    && |params.email| <= EmailWidth)
  {
    var row := NewUserRow(params, saltBytes, digest, nowMs, randomText);
    var v := StoredUser(row);
    DigestHasNoColon(digest, params.password + HexEncode(saltBytes));
    assert |row.password.value| == 97;
    EmailStoredAsGiven(params.email);
    assert forall i :: 0 <= i < |users| ==> users[i].email != row.email && users[i].username != row.username;
    assert v.id == row.id && v.password == row.password;
    if |params.email| <= EmailWidth {
      assert v.email == row.email;
    }
    if UserWithId(users, row.id).Some? {
      var k := UserWithId(users, row.id).value;
      assert UsersClash(users[k], v);
    }
  }

  /**
   * The new row as stored, once every value can be assigned: only the
   * username can be cut; the id, the valid email and the password fit.
   */
  lemma StoredNewUser(params: RegisterUserParams, saltBytes: seq<Byte>, digest: Digest,
                      nowMs: nat, randomText: string)
    requires |saltBytes| == 16 && DigestShaped(digest) && IsValidEmail(params.email)
    requires UserAccepted(NewUserRow(params, saltBytes, digest, nowMs, randomText))
    ensures var row := NewUserRow(params, saltBytes, digest, nowMs, randomText);
            StoredUser(row) == row.(username := VarcharStored(params.username, UsernameWidth))
  {
    var row := NewUserRow(params, saltBytes, digest, nowMs, randomText);
    EmailStoredAsGiven(params.email);
    assert |digest(params.password + HexEncode(saltBytes))| == 64;
    assert |row.password.value| == 97;
  }

  /** A valid email has no spaces, so it can be assigned to its column exactly when it fits. */
  lemma EmailStoredAsGiven(email: string)
    requires IsValidEmail(email)
    ensures VarcharAccepts(email, EmailWidth) <==> |email| <= EmailWidth
  {
    ValidEmailShape(email);
    if |email| > EmailWidth {
      assert !IsWhitespace(email[EmailWidth]);
    }
  }
}
