/**
 * `auth.signin` (`loginUser`): find the user by email, falling back to the
 * username; refuse an unknown user and a wrong password with one and the
 * same message; refuse an unverified user; otherwise stamp `lastLoginAt`
 * and hand out a fresh random token.
 */
module SigninRpc {
  import opened Wrappers
  import opened Text
  import opened AuthUtils
  import opened Schema
  import opened Database

  datatype LoginUserParams = LoginUserParams(email: string, password: string, username: Option<string>)

  datatype LoginUserResponse = LoginUserResponse(
    success: bool, message: string, token: string, userId: string, isNewUser: bool)

  const InvalidCredentialsMessage := "Invalid email or password"
  const VerifyFirstMessage :=
    "Please verify your email before signing in. A new verification email has been sent."
  const LoginSucceededMessage := "Login successful"

  /** Every failure has an empty token and user id and `isNewUser = false`. */
  function LoginRefused(message: string): LoginUserResponse
  {
    LoginUserResponse(false, message, "", "", false)
  }

  /** `user.password && verifyPassword(password, user.password)` */
  predicate PasswordAccepted(u: User, password: string, digest: Digest)
  {
    u.password.Some? && u.password.value != "" && VerifyPassword(password, u.password.value, digest)
  }

  /**
   * For a row whose password `hashPassword` stored, signin accepts the
   * registered password, and accepts another one only on a salted-digest
   * collision.
   */
  lemma HashedPasswordAccepted(u: User, password: string, other: string, saltBytes: seq<Byte>, digest: Digest)
    requires |saltBytes| == 16 && DigestShaped(digest)
    requires u.password == Some(HashPassword(password, saltBytes, digest))
    ensures PasswordAccepted(u, password, digest)
    ensures PasswordAccepted(u, other, digest)
            <==> digest(other + HexEncode(saltBytes)) == digest(password + HexEncode(saltBytes))
  {
    HashThenVerify(password, saltBytes, digest);
    HashRejectsOtherPassword(password, other, saltBytes, digest);
  }

  /**
   * The row `loginUser` ends up with: looked up by email when the email is
   * filled; looked up by username only when that found nothing and the
   * username is filled.
   */
  function FindLoginUser(users: seq<User>, params: LoginUserParams): (found: Option<nat>)
    ensures found.Some? ==> found.value < |users|
    ensures found.Some? ==>
              || (IsFilled(params.email) && users[found.value].email == params.email)
              || (params.username.Some? && IsFilled(params.username.value)
                  && users[found.value].username == params.username.value)
    ensures IsFilled(params.email) && UserWithEmail(users, params.email).Some? ==>
              found.Some? && users[found.value].email == params.email
    ensures found.None? <==>
              && (!IsFilled(params.email) || forall i :: 0 <= i < |users| ==> users[i].email != params.email)
              && (params.username.None? || !IsFilled(params.username.value)
                  || forall i :: 0 <= i < |users| ==> users[i].username != params.username.value)
  {
    var byEmail := if IsFilled(params.email) then UserWithEmail(users, params.email) else None;
    if byEmail.Some? then byEmail
    else if params.username.Some? && IsFilled(params.username.value) then UserWithUsername(users, params.username.value)
    else None
  }

  /**
   * The handler. `tokenBytes` are the bytes `randomBytes(32)` returned,
   * `digest` is SHA-256 in hex and `now` the clock. Re-sending the
   * verification email to an unverified user is a side effect on the mail
   * server only and leaves the tables alone.
   */
  method LoginUser(db: Db, params: LoginUserParams, tokenBytes: seq<Byte>, digest: Digest, now: int)
    returns (r: LoginUserResponse)
    requires db.Valid() && |tokenBytes| == 32
    modifies db
    ensures db.Valid() && db.flows == old(db.flows)
    ensures !r.isNewUser
    ensures !r.success ==> r.token == "" && r.userId == "" && db.users == old(db.users)
    ensures FindLoginUser(old(db.users), params).None? ==> r == LoginRefused(InvalidCredentialsMessage)
    ensures var found := FindLoginUser(old(db.users), params);
            found.Some? && !PasswordAccepted(old(db.users)[found.value], params.password, digest) ==>
              r == LoginRefused(InvalidCredentialsMessage)
    ensures var found := FindLoginUser(old(db.users), params);
            found.Some? && PasswordAccepted(old(db.users)[found.value], params.password, digest)
            && !old(db.users)[found.value].emailVerified ==>
              r == LoginRefused(VerifyFirstMessage)
    ensures var found := FindLoginUser(old(db.users), params);
            r.success <==>
              found.Some? && PasswordAccepted(old(db.users)[found.value], params.password, digest)
              && old(db.users)[found.value].emailVerified
    ensures r.success ==>
              var u := old(db.users)[FindLoginUser(old(db.users), params).value];
              && r == LoginUserResponse(true, LoginSucceededMessage, GenerateToken(32, tokenBytes), u.id, false)
              && db.users == UpdateUsersById(old(db.users), u.id, SetLastLogin, now)
              && |r.token| == 64 && IsHexString(r.token)
  {
    var user: Option<nat> := None;
    if IsFilled(params.email) {
      user := UserWithEmail(db.users, params.email);
    }
    if user.None? && params.username.Some? && IsFilled(params.username.value) {
      user := UserWithUsername(db.users, params.username.value);
    }

    if user.None? {
      return LoginRefused(InvalidCredentialsMessage);
    }
    var u := db.users[user.value];

    if u.password.None? || u.password.value == "" || !VerifyPassword(params.password, u.password.value, digest) {
      return LoginRefused(InvalidCredentialsMessage);
    }

    if !u.emailVerified {
      return LoginRefused(VerifyFirstMessage);
    }

    db.UpdateUsers(u.id, SetLastLogin, now);
    var token := GenerateToken(32, tokenBytes);
    r := LoginUserResponse(true, LoginSucceededMessage, token, u.id, false);
  }

  /**
   * A successful login changes exactly one row, the user's, and in it only
   * `lastLoginAt` and `updatedAt`, both set to the clock.
   */
  lemma LoginTouchesOnlyLastLogin(users: seq<User>, k: nat, now: int)
    requires UsersValid(users) && k < |users|
    ensures var after := UpdateUsersById(users, users[k].id, SetLastLogin, now);
            && |after| == |users|
            && after[k] == users[k].(lastLoginAt := Some(now), updatedAt := now)
            && forall j :: 0 <= j < |users| && j != k ==> after[j] == users[j]
  {
    var after := UpdateUsersById(users, users[k].id, SetLastLogin, now);
    forall j | 0 <= j < |users| && j != k
      ensures after[j] == users[j]
    {
      assert !UsersClash(users[j], users[k]) by {
        if j < k { assert !UsersClash(users[j], users[k]); } else { assert !UsersClash(users[k], users[j]); }
      }
    }
  }
}
