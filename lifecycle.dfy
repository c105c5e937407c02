/**
 * How the account handlers fit together over the life of one user.
 */
module AccountLifecycle {
  import opened Wrappers
  import opened Schema

  /**
   * `registerUser` stores no verification token, and `verifyEmail` can only
   * reach a row through its token: whatever token it is given, the new row
   * stays unverified, so `loginUser` keeps refusing it.
   */
  lemma NewUserNeverVerified(users: seq<User>, row: User, token: string, now: int)
    requires UsersValid(users + [row])
    requires row.emailVerificationToken.None? && !row.emailVerified
    ensures var all := users + [row];
            var k := UserWithToken(all, token);
            k.Some? ==> !UpdateUsersById(all, all[k.value].id, MarkEmailVerified, now)[|users|].emailVerified
  {
    var all := users + [row];
    var k := UserWithToken(all, token);
    if k.Some? {
      assert all[|users|] == row;
      assert k.value < |users|;
      assert !UsersClash(all[k.value], all[|users|]);
    }
  }
}
