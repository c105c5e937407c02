/**
 * `auth.verifyEmail`: find the first user holding the given verification
 * token, mark that user's email verified and clear the token.
 */
module VerifyEmailRpc {
  import opened Wrappers
  import opened Schema
  import opened Database

  datatype VerifyEmailParams = VerifyEmailParams(token: string)

  datatype VerifyEmailResponse = VerifyEmailResponse(success: bool, message: string)

  const InvalidTokenMessage := "Invalid or expired verification token"
  const VerifiedMessage := "Email verified successfully"

  /** The handler; `now` is the clock reading `$onUpdate` stores in `updatedAt`. */
  method VerifyEmail(db: Db, params: VerifyEmailParams, now: int) returns (r: VerifyEmailResponse)
    requires db.Valid()
    modifies db
    ensures db.Valid() && db.flows == old(db.flows)
    ensures UserWithToken(old(db.users), params.token).None? ==>
              r == VerifyEmailResponse(false, InvalidTokenMessage) && db.users == old(db.users)
    ensures UserWithToken(old(db.users), params.token).Some? ==>
              var k := UserWithToken(old(db.users), params.token).value;
              && r == VerifyEmailResponse(true, VerifiedMessage)
              && db.users == UpdateUsersById(old(db.users), old(db.users)[k].id, MarkEmailVerified, now)
  {
    var user := UserWithToken(db.users, params.token);
    if user.None? {
      return VerifyEmailResponse(false, InvalidTokenMessage);
    }
    db.UpdateUsers(db.users[user.value].id, MarkEmailVerified, now);
    r := VerifyEmailResponse(true, VerifiedMessage);
  }

  /**
   * Verification changes exactly one row, the token holder's: it becomes
   * verified, loses its token and gets a fresh `updatedAt`; every other
   * column and every other row keeps its value.
   */
  lemma VerifyTouchesOnlyHolder(users: seq<User>, token: string, now: int)
    requires UsersValid(users) && UserWithToken(users, token).Some?
    ensures var k := UserWithToken(users, token).value;
            var after := UpdateUsersById(users, users[k].id, MarkEmailVerified, now);
            && |after| == |users|
            && after[k] == users[k].(emailVerified := true, emailVerificationToken := None, updatedAt := now)
            && forall j :: 0 <= j < |users| && j != k ==> after[j] == users[j]
  {
    var k := UserWithToken(users, token).value;
    forall j | 0 <= j < |users| && j != k
      ensures users[j].id != users[k].id
    {
      if j < k { assert !UsersClash(users[j], users[k]); } else { assert !UsersClash(users[k], users[j]); }
    }
  }

  /**
   * A token held by a single user is used up: after the verification no
   * user holds it, so a second call with it finds nobody.
   */
  lemma TokenIsSingleUse(users: seq<User>, token: string, now: int)
    requires UserWithToken(users, token).Some?
    requires forall i, j ::
               (0 <= i < |users| && 0 <= j < |users|
                && users[i].emailVerificationToken == Some(token) && users[j].emailVerificationToken == Some(token))
               ==> i == j
    ensures var k := UserWithToken(users, token).value;
            UserWithToken(UpdateUsersById(users, users[k].id, MarkEmailVerified, now), token).None?
  {
    var k := UserWithToken(users, token).value;
    var after := UpdateUsersById(users, users[k].id, MarkEmailVerified, now);
    forall j | 0 <= j < |after|
      ensures after[j].emailVerificationToken != Some(token)
    {
      if users[j].id != users[k].id {
        assert j != k;
      }
    }
  }
}
