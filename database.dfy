/**
 * The database handle the handlers obtain from `getDrizzle()`: the two
 * tables as mutable fields, and the four statements the handlers issue.
 * Each statement either applies in full, storing each varchar value as its
 * column keeps it (cut to the width when only spaces are dropped), or raises
 * the error Postgres would raise and leaves the tables as they were.
 */
module Database {
  import opened Wrappers
  import opened JsonValues
  import opened Schema

  class Db {
    var users: seq<User>
    var flows: seq<Flow>

    /** Both tables satisfy their declared constraints. */
    predicate Valid()
      reads this
    {
      UsersValid(users) && FlowsValid(flows, users)
    }

    constructor ()
      ensures Valid() && users == [] && flows == []
    {
      users := [];
      flows := [];
    }

    /** `db.insert(Users).values(u)`: on success the table holds the row as stored. */
    method InsertUser(u: User) returns (err: Option<DbError>)
      requires Valid()
      modifies this
      ensures Valid()
      ensures err == UserInsertError(old(users), u)
      ensures users == if err.None? then old(users) + [StoredUser(u)] else old(users)
      ensures flows == old(flows)
    {
      err := UserInsertError(users, u);
      if err.None? {
        FlowsValidMoreUsers(flows, users, StoredUser(u));
        users := users + [StoredUser(u)];
      }
    }

    /** `db.update(Users).set(patch).where(eq(Users.id, id))` */
    method UpdateUsers(id: string, patch: UserPatch, now: int)
      requires Valid()
      modifies this
      ensures Valid()
      ensures users == UpdateUsersById(old(users), id, patch, now)
      ensures flows == old(flows)
    {
      UpdateUsersKeepsValid(users, flows, id, patch, now);
      users := UpdateUsersById(users, id, patch, now);
    }

    /** `db.insert(Flows).values(f)`: on success the table holds the row as stored. */
    method InsertFlow(f: Flow) returns (err: Option<DbError>)
      requires Valid()
      modifies this
      ensures Valid()
      ensures err == FlowInsertError(old(flows), old(users), f)
      ensures flows == if err.None? then old(flows) + [StoredFlow(f)] else old(flows)
      ensures users == old(users)
    {
      err := FlowInsertError(flows, users, f);
      if err.None? {
        flows := flows + [StoredFlow(f)];
      }
    }

    /** `db.update(Flows).set({ flow: payload }).where(eq(Flows.id, id))` */
    method UpdateFlows(id: string, payload: Json, now: int) returns (err: Option<DbError>)
      requires Valid()
      modifies this
      ensures Valid()
      ensures err == FlowUpdateError(old(flows), id, payload)
      ensures flows == if err.None? then UpdateFlowsById(old(flows), id, payload, now) else old(flows)
      ensures users == old(users)
    {
      err := FlowUpdateError(flows, id, payload);
      if err.None? {
        UpdateFlowsKeepsValid(flows, users, id, payload, now);
        flows := UpdateFlowsById(flows, id, payload, now);
      }
    }
  }
}
