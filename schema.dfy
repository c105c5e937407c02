/**
 * The two tables of the database, their rows and the constraints Postgres
 * enforces on them (varchar widths, primary keys, unique columns, the
 * foreign key from a flow to its owner, NOT NULL), together with the
 * query-builder operations the handlers use, over plain sequences of rows:
 * `select … where col = v limit 1` is a matching row (here the first), and
 * `update … set … where id = v` rewrites every matching row.
 */
module Schema {
  import opened Wrappers
  import opened JsonValues

  /**
   * A row of `users`. `emailVerificationToken` is a column the handlers read
   * and write although the table declaration does not list it; timestamps
   * are clock readings in milliseconds.
   */
  datatype User = User(
    id: string,
    email: string,
    username: string,
    avatar: Option<string>,
    password: Option<string>,
    emailVerified: bool,
    emailVerificationToken: Option<string>,
    lastLoginAt: Option<int>,
    createdAt: int,
    updatedAt: int)

  /** A row of `flows`: an opaque JSON document owned by a user. */
  datatype Flow = Flow(
    id: string,
    userId: string,
    flowName: string,
    flow: Json,
    createdAt: int,
    updatedAt: int)

  /** The constraint a failed statement violated; only a unique violation's text says "unique constraint". */
  datatype DbError = ValueTooLong | NotNullViolation | UniqueViolation | ForeignKeyViolation

  const IdWidth := 36
  const EmailWidth := 255
  const UsernameWidth := 100
  const PasswordWidth := 255
  const FlowNameWidth := 255

  // ---------------------------------------------------------------- constraints

  /** Every varchar column of the user row fits its declared width. */
  predicate UserFits(u: User)
  {
    && |u.id| <= IdWidth
    && |u.email| <= EmailWidth
    && |u.username| <= UsernameWidth
    && (u.password.Some? ==> |u.password.value| <= PasswordWidth)
  }

  /** Two user rows that share a primary key, an email or a username. */
  predicate UsersClash(a: User, b: User)
  {
    a.id == b.id || a.email == b.email || a.username == b.username
  }

  /** The constraints of `users`: widths, primary key, unique email, unique username. */
  predicate UsersValid(users: seq<User>)
  {
    && (forall i :: 0 <= i < |users| ==> UserFits(users[i]))
    && (forall i, j :: 0 <= i < j < |users| ==> !UsersClash(users[i], users[j]))
  }

  predicate HasUserId(users: seq<User>, id: string)
  {
    exists i :: 0 <= i < |users| && users[i].id == id
  }

  /** Every varchar column of the flow row fits its declared width. */
  predicate FlowFits(f: Flow)
  {
    |f.id| <= IdWidth && |f.userId| <= IdWidth && |f.flowName| <= FlowNameWidth
  }

  /** The constraints of `flows`: widths, NOT NULL payload, owner exists, primary key. */
  predicate FlowsValid(flows: seq<Flow>, users: seq<User>)
  {
    && (forall i :: 0 <= i < |flows| ==>
          FlowFits(flows[i]) && flows[i].flow != JNull && HasUserId(users, flows[i].userId))
    && (forall i, j :: 0 <= i < j < |flows| ==> flows[i].id != flows[j].id)
  }

  /** Adding users never breaks a flow's reference to its owner. */
  lemma FlowsValidMoreUsers(flows: seq<Flow>, users: seq<User>, u: User)
    requires FlowsValid(flows, users)
    ensures FlowsValid(flows, users + [u])
  {
    forall i | 0 <= i < |flows|
      ensures HasUserId(users + [u], flows[i].userId)
    {
      assert HasUserId(users, flows[i].userId);
      var k :| 0 <= k < |users| && users[k].id == flows[i].userId;
      assert (users + [u])[k] == users[k];
    }
  }

  // ---------------------------------------------------------------- varchar assignment

  /**
   * A value can be assigned to a `varchar(width)` column when everything
   * past the width is a space; a value that fits trivially qualifies.
   */
  predicate VarcharAccepts(s: string, width: nat)
  {
    forall i :: width <= i < |s| ==> s[i] == ' '
  }

  /** The value the column holds: cut to the width, which drops only spaces of an accepted value. */
  function VarcharStored(s: string, width: nat): (v: string)
    ensures |v| <= width && v <= s
    ensures |s| <= width ==> v == s
    ensures VarcharAccepts(s, width) ==> forall i :: |v| <= i < |s| ==> s[i] == ' '
  {
    if |s| <= width then s else s[..width]
  }

  /** Every varchar column of the user row can be assigned. */
  predicate UserAccepted(u: User)
  {
    && VarcharAccepts(u.id, IdWidth)
    && VarcharAccepts(u.email, EmailWidth)
    && VarcharAccepts(u.username, UsernameWidth)
    && (u.password.Some? ==> VarcharAccepts(u.password.value, PasswordWidth))
  }

  /** The user row as stored: each varchar column cut to its width. */
  function StoredUser(u: User): (v: User)
    ensures UserFits(v)
    ensures UserFits(u) ==> v == u
    ensures v.id <= u.id && v.email <= u.email && v.username <= u.username
    ensures v.password.Some? <==> u.password.Some?
    ensures v.avatar == u.avatar && v.emailVerified == u.emailVerified
            && v.emailVerificationToken == u.emailVerificationToken && v.lastLoginAt == u.lastLoginAt
            && v.createdAt == u.createdAt && v.updatedAt == u.updatedAt
  {
    u.(id := VarcharStored(u.id, IdWidth),
       email := VarcharStored(u.email, EmailWidth),
       username := VarcharStored(u.username, UsernameWidth),
       password := if u.password.Some? then Some(VarcharStored(u.password.value, PasswordWidth)) else None)
  }

  /** Every varchar column of the flow row can be assigned. */
  predicate FlowAccepted(f: Flow)
  {
    VarcharAccepts(f.id, IdWidth) && VarcharAccepts(f.userId, IdWidth) && VarcharAccepts(f.flowName, FlowNameWidth)
  }

  /** The flow row as stored: each varchar column cut to its width. */
  function StoredFlow(f: Flow): (g: Flow)
    ensures FlowFits(g)
    ensures FlowFits(f) ==> g == f
    ensures g.id <= f.id && g.userId <= f.userId && g.flowName <= f.flowName
    ensures g.flow == f.flow && g.createdAt == f.createdAt && g.updatedAt == f.updatedAt
  {
    f.(id := VarcharStored(f.id, IdWidth),
       userId := VarcharStored(f.userId, IdWidth),
       flowName := VarcharStored(f.flowName, FlowNameWidth))
  }

  // ---------------------------------------------------------------- inserts

  /**
   * What `INSERT INTO users` raises, if anything: a value too wide is caught
   * while the row is formed, a duplicate key when the indexes are updated,
   * where the stored (cut) values are compared. The insert succeeds exactly
   * when every value can be assigned and the table with the stored row stays
   * valid.
   */
  function UserInsertError(users: seq<User>, u: User): (err: Option<DbError>)
    requires UsersValid(users)
    ensures err.None? <==> UserAccepted(u) && UsersValid(users + [StoredUser(u)])
    ensures err == Some(ValueTooLong) <==> !UserAccepted(u)
    ensures err.Some? ==> err.value == ValueTooLong || err.value == UniqueViolation
  {
    var v := StoredUser(u);
    var grown := users + [v];
    assert forall i :: 0 <= i < |users| ==> grown[i] == users[i];
    assert grown[|users|] == v;
    if !UserAccepted(u) then Some(ValueTooLong)
    else if exists i :: 0 <= i < |users| && UsersClash(users[i], v) then Some(UniqueViolation)
    else None
  }

  /**
   * What `INSERT INTO flows` raises, if anything: width, then NOT NULL, then
   * the primary key, then the foreign key to `users`, on the stored (cut)
   * values. The insert succeeds exactly when every value can be assigned and
   * the table with the stored row stays valid.
   */
  function FlowInsertError(flows: seq<Flow>, users: seq<User>, f: Flow): (err: Option<DbError>)
    requires FlowsValid(flows, users)
    ensures err.None? <==> FlowAccepted(f) && FlowsValid(flows + [StoredFlow(f)], users)
    ensures err == Some(ValueTooLong) <==> !FlowAccepted(f)
    ensures err == Some(UniqueViolation) <==>
              FlowAccepted(f) && f.flow != JNull
              && exists i :: 0 <= i < |flows| && flows[i].id == StoredFlow(f).id
  {
    var g := StoredFlow(f);
    var grown := flows + [g];
    assert forall i :: 0 <= i < |flows| ==> grown[i] == flows[i];
    assert grown[|flows|] == g;
    if !FlowAccepted(f) then Some(ValueTooLong)
    else if f.flow == JNull then Some(NotNullViolation)
    else if exists i :: 0 <= i < |flows| && flows[i].id == g.id then Some(UniqueViolation)
    else if !HasUserId(users, g.userId) then Some(ForeignKeyViolation)
    else None
  }

  // ---------------------------------------------------------------- selects

  /** `select … where p limit 1`: the position of the first row satisfying `p`. */
  function FirstMatch<T>(rows: seq<T>, p: T -> bool): (r: Option<nat>)
    ensures r.Some? ==> r.value < |rows| && p(rows[r.value])
    ensures r.Some? ==> forall j :: 0 <= j < r.value ==> !p(rows[j])
    ensures r.None? <==> forall j :: 0 <= j < |rows| ==> !p(rows[j])
  {
    if rows == [] then None
    else if p(rows[0]) then Some(0)
    else
      var r := FirstMatch(rows[1..], p);
      if r.None? then None else Some(r.value + 1)
  }

  function UserWithId(users: seq<User>, id: string): Option<nat>
  {
    FirstMatch(users, (u: User) => u.id == id)
  }

  function UserWithEmail(users: seq<User>, email: string): Option<nat>
  {
    FirstMatch(users, (u: User) => u.email == email)
  }

  function UserWithUsername(users: seq<User>, username: string): Option<nat>
  {
    FirstMatch(users, (u: User) => u.username == username)
  }

  /** `where emailVerificationToken = token`: a NULL token matches nothing. */
  function UserWithToken(users: seq<User>, token: string): (r: Option<nat>)
    ensures r.Some? ==> r.value < |users| && users[r.value].emailVerificationToken == Some(token)
    ensures r.None? <==> forall i :: 0 <= i < |users| ==> users[i].emailVerificationToken != Some(token)
  {
    FirstMatch(users, (u: User) => u.emailVerificationToken == Some(token))
  }

  function FlowWithId(flows: seq<Flow>, id: string): Option<nat>
  {
    FirstMatch(flows, (f: Flow) => f.id == id)
  }

  // ---------------------------------------------------------------- updates

  /** The `set({...})` payloads the handlers apply to a user row. */
  datatype UserPatch =
    | SetLastLogin          // { lastLoginAt: new Date() }
    | MarkEmailVerified     // { emailVerified: true, emailVerificationToken: null }

  /**
   * One user row after `set(patch)` at time `now`; `$onUpdate` refreshes
   * `updatedAt`, every other column keeps its value.
   */
  function Patched(u: User, patch: UserPatch, now: int): (v: User)
    ensures v.id == u.id && v.email == u.email && v.username == u.username
    ensures v.avatar == u.avatar && v.password == u.password && v.createdAt == u.createdAt
    ensures v.updatedAt == now
    ensures patch == SetLastLogin ==>
              v.lastLoginAt == Some(now) && v.emailVerified == u.emailVerified
              && v.emailVerificationToken == u.emailVerificationToken
    ensures patch == MarkEmailVerified ==>
              v.emailVerified && v.emailVerificationToken == None && v.lastLoginAt == u.lastLoginAt
  {
    match patch
    case SetLastLogin => u.(lastLoginAt := Some(now), updatedAt := now)
    case MarkEmailVerified => u.(emailVerified := true, emailVerificationToken := None, updatedAt := now)
  }

  /** `update(Users).set(patch).where(eq(Users.id, id))`: every row with that id is patched, no other row changes. */
  function UpdateUsersById(users: seq<User>, id: string, patch: UserPatch, now: int): (r: seq<User>)
    ensures |r| == |users|
    ensures forall i :: 0 <= i < |users| ==>
              r[i] == if users[i].id == id then Patched(users[i], patch, now) else users[i]
  {
    if users == [] then []
    else
      [if users[0].id == id then Patched(users[0], patch, now) else users[0]]
      + UpdateUsersById(users[1..], id, patch, now)
  }

  /** Patching users keeps both tables valid: no key, unique column or width changes. */
  lemma UpdateUsersKeepsValid(users: seq<User>, flows: seq<Flow>, id: string, patch: UserPatch, now: int)
    requires UsersValid(users) && FlowsValid(flows, users)
    ensures UsersValid(UpdateUsersById(users, id, patch, now))
    ensures FlowsValid(flows, UpdateUsersById(users, id, patch, now))
  {
    var r := UpdateUsersById(users, id, patch, now);
    assert forall i :: 0 <= i < |users| ==>
      r[i].id == users[i].id && r[i].email == users[i].email
      && r[i].username == users[i].username && r[i].password == users[i].password;
    forall i | 0 <= i < |flows|
      ensures HasUserId(r, flows[i].userId)
    {
      assert HasUserId(users, flows[i].userId);
      var k :| 0 <= k < |users| && users[k].id == flows[i].userId;
      assert r[k].id == users[k].id;
    }
  }

  /**
   * `update(Flows).set({ flow: payload }).where(eq(Flows.id, id))`: the
   * payload of every row with that id is replaced and its `updatedAt`
   * refreshed; no other row and no other column changes.
   */
  function UpdateFlowsById(flows: seq<Flow>, id: string, payload: Json, now: int): (r: seq<Flow>)
    ensures |r| == |flows|
    ensures forall i :: 0 <= i < |flows| ==>
              r[i] == if flows[i].id == id then flows[i].(flow := payload, updatedAt := now) else flows[i]
  {
    if flows == [] then []
    else
      [if flows[0].id == id then flows[0].(flow := payload, updatedAt := now) else flows[0]]
      + UpdateFlowsById(flows[1..], id, payload, now)
  }

  /**
   * What the flow update raises: NOT NULL is checked on each row the update
   * rewrites, so only a null payload for an existing id breaks a constraint.
   */
  function FlowUpdateError(flows: seq<Flow>, id: string, payload: Json): (err: Option<DbError>)
    ensures err.Some? <==> payload == JNull && exists i :: 0 <= i < |flows| && flows[i].id == id
    ensures err.Some? ==> err.value == NotNullViolation
  {
    if payload == JNull && FlowWithId(flows, id).Some? then Some(NotNullViolation) else None
  }

  /** An update that raises nothing keeps the table valid. */
  lemma UpdateFlowsKeepsValid(flows: seq<Flow>, users: seq<User>, id: string, payload: Json, now: int)
    requires FlowsValid(flows, users) && FlowUpdateError(flows, id, payload).None?
    ensures FlowsValid(UpdateFlowsById(flows, id, payload, now), users)
  {
    var r := UpdateFlowsById(flows, id, payload, now);
    assert forall i :: 0 <= i < |flows| ==>
      r[i].id == flows[i].id && r[i].userId == flows[i].userId && r[i].flowName == flows[i].flowName;
  }
}
