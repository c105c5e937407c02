# nodepath backend — a Dafny model of the auth and flow procedures

This project models the request handling of the nodepath backend: a small
RPC service in which users sign up, sign in and verify their email address,
and store, list, read and update "flows" (JSON documents owned by a user).
It also models the CORS hook every request passes through. The model covers:

- **Credential utilities** (`utils.ts`, module `AuthUtils`): the password-strength
  rules, the email pattern, the `salt:hash` password storage and its check, random
  tokens, and the ULID-like id generator. The JavaScript runtime behaviour they
  rely on is in module `Text`: `String.prototype.split` with one separator,
  `trim`, `substring`, `padEnd`, `Number.prototype.toString(36)`, hex encoding
  and the `\s` character class.
- **The two tables** (module `Schema`) with the constraints Postgres enforces on
  them: varchar widths, primary keys, unique email and username, the foreign key
  from a flow to its owner, and NOT NULL on the payload. It also has the
  query-builder statements the handlers issue:
  - `select … where … limit 1` gives a matching row, or none when no row matches
    (the model takes the first in table order; see "Left out");
  - `update … where id = …` rewrites every matching row, and `$onUpdate`
    refreshes `updatedAt`.

  A `varchar(n)` value longer than `n` is stored cut to `n` characters when
  everything past `n` is spaces, and is refused otherwise. The class
  `Database.Db` holds both tables and applies each insert or update in full
  (with the cut values), or raises the error Postgres would raise and changes
  nothing.
- **The seven handlers**, one module each:
  - `SignupRpc.RegisterUser`, `SigninRpc.LoginUser`, `VerifyEmailRpc.VerifyEmail`,
    `CreateFlowRpc.CreateFlow` and `UpdateFlowRpc.UpdateFlow` change the store, so
    they are methods on a `Db`.
  - `GetFlowRpc.GetFlow` and `ListFlowsRpc.ListFlows` only read, so they are
    functions of the tables.
  - Each contract states the response for every guard in source order, and
    exactly what the store holds afterwards.
- **The `onRequest` hook** (`app.ts`, module `App`): the headers written to the
  mutable response object, and the 204 answer that ends a preflight request.

Randomness, the clock and SHA-256 are parameters:
- `saltBytes` and `tokenBytes` are what `randomBytes` returned.
- `randomText` is the text of `Math.random().toString(36)`.
- `nowMs` / `now` is the clock reading.
- `flowId` is the UUID from `uuid()`.
- `digest` stands for `createHash('sha256')…digest('hex')`. Where a property
  needs its shape, the requirement `DigestShaped` says "64 hex digits".

The signup handler in `signup.rpc.ts` inserts a user without a verification
token. The signin handler refuses every unverified user, and `verifyEmail`
reaches a user only through the token. A newly registered account therefore
can never be verified by the modelled handlers, and so can never sign in.
`AccountLifecycle.NewUserNeverVerified` states this.

## Model

| member | source | states |
|---|---|---|
| AuthUtils.GenerateUlid | backend/src/procedures/auth/utils.ts:9-13 | the id is always 30 characters: base-36 time followed by characters 2..15 of the random text, right-padded with '0' when shorter, cut to 30 when longer |
| AuthUtils.UlidStartsWithTimestamp | backend/src/procedures/auth/utils.ts:10-12 | the clock reading can be decoded back from the front of the id when its base-36 digits fit in 30 characters |
| AuthUtils.HashPassword | backend/src/procedures/auth/utils.ts:20-24 | the stored value is 32 hex characters of salt (the 16 random bytes), then ':', then the digest of password + salt |
| AuthUtils.VerifyPassword | backend/src/procedures/auth/utils.ts:32-38 | a stored value without ':' never verifies |
| AuthUtils.VerifyRejectsMalformed | backend/src/procedures/auth/utils.ts:33-34 | an empty segment before the first ':' or between the first and the second ':' never verifies |
| AuthUtils.VerifyStoredIff | backend/src/procedures/auth/utils.ts:33-37 | for a non-empty, colon-free salt and hash, `salt:hash` verifies exactly the passwords whose salted digest is `hash` |
| AuthUtils.HashThenVerify | backend/src/procedures/auth/utils.ts:20-37 | round trip: what hashPassword stores verifies the same password, for any digest with SHA-256's shape |
| AuthUtils.HashRejectsOtherPassword | backend/src/procedures/auth/utils.ts:20-37 | another password verifies against the stored value only if its salted digest collides with the original's |
| AuthUtils.DistinctSaltsDistinctHashes | backend/src/procedures/auth/utils.ts:21-23 | two different salts give two different stored values for one password, and both verify it |
| AuthUtils.DigestHasNoColon | backend/src/procedures/auth/utils.ts:22 | hex digest output is non-empty and has no ':' |
| AuthUtils.GenerateToken | backend/src/procedures/auth/utils.ts:45-47 | the token is 2·length hex characters without ':', and decodes back to the random bytes |
| AuthUtils.IsValidEmail | backend/src/procedures/auth/utils.ts:54-57 | true exactly when the email matches `^[^\s@]+@[^\s@]+\.[^\s@]+$`, written as three runs split at an '@' and a '.' |
| AuthUtils.ValidEmailParts | backend/src/procedures/auth/utils.ts:55 | for any split `local@domain`: valid iff both parts are non-empty and free of '@' and whitespace, and the domain has a '.' that is neither its first nor its last character |
| AuthUtils.ValidEmailShape | backend/src/procedures/auth/utils.ts:55 | an accepted email has exactly one '@' and no whitespace |
| AuthUtils.PasswordErrors | backend/src/procedures/auth/utils.ts:64-81 | at most four errors, each one of the four rule messages |
| AuthUtils.PasswordErrorsCharacterised | backend/src/procedures/auth/utils.ts:67-81 | at most four errors; each rule's message is present iff that rule fails; messages in rule order; no errors iff all rules hold |
| AuthUtils.ValidatePassword | backend/src/procedures/auth/utils.ts:64-87 | the error list is the messages of the failed rules in order, and isValid holds iff the list is empty iff the length is ≥ 8 and there are an upper-case letter, a lower-case letter and a digit |
| AuthUtils.RuleMessagesDistinct | backend/src/procedures/auth/utils.ts:67-81 | the four messages are pairwise distinct, so a message identifies the rule that failed |
| AuthUtils.FailedRules | backend/src/procedures/auth/utils.ts:67-81 | the failed rules are exactly the rules the password breaks, each once, in checking order (length, upper case, lower case, digit) |
| Text.Trim | backend/src/procedures/auth/signin.rpc.ts:28 | `trim()` keeps the part of s between its leading and trailing whitespace: only whitespace is dropped, the result neither starts nor ends with whitespace, and it is empty iff s is all whitespace |
| Text.IsFilled | backend/src/procedures/auth/signin.rpc.ts:28 | `s.trim().length > 0` iff s has a character outside the JavaScript `\s` class |
| Text.Split | backend/src/procedures/auth/utils.ts:33 | `split(':')` gives at least one part and no part contains the separator |
| Text.SplitAtFirst | backend/src/procedures/auth/utils.ts:33 | splitting on ':' cuts at the first ':' and splits the rest again |
| Text.JoinSplit | backend/src/procedures/auth/utils.ts:33 | joining the split parts with the separator gives back the string |
| Text.PadEnd | backend/src/procedures/auth/utils.ts:12 | the result keeps the string as prefix and fills up to the target length with the fill character |
| Text.Substring | backend/src/procedures/auth/utils.ts:11 | in-range bounds give the slice; an end past the string gives the suffix |
| Text.HexEncode | backend/src/procedures/auth/utils.ts:21 | `toString('hex')` gives two hex digits per byte and no ':' |
| Text.HexRoundTrip | backend/src/procedures/auth/utils.ts:46 | hex decoding undoes `toString('hex')` |
| Text.ToBase36 | backend/src/procedures/auth/utils.ts:10 | `toString(36)` gives at least one base-36 digit, with a leading '0' only for zero |
| Text.Base36RoundTrip | backend/src/procedures/auth/utils.ts:10 | reading the base-36 digits back gives the number |
| Schema.UserInsertError | database/schema/users.ts:13-22 | an insert into users succeeds exactly when every value can be assigned to its column (anything past the width is spaces) and the table with the stored, cut row stays valid (primary key, unique email, unique username); it fails with a width error exactly when some value cannot be assigned, and otherwise only with a unique violation |
| Schema.FlowInsertError | database/schema/flows.ts:15-21 | an insert into flows succeeds exactly when every value can be assigned to its column and the table with the stored, cut row stays valid (non-null payload, owner exists, unique id); width error exactly when some value cannot be assigned; unique violation exactly when the values fit, the payload is not null and the stored id clashes |
| Schema.VarcharStored | database/schema/users.ts:16-19 | the stored value is a prefix of the given one no longer than the width, equal to it when it fits, and when assignment is allowed only spaces are dropped |
| Schema.StoredUser | database/schema/users.ts:13-22 | the stored user fits every width, equals the given one when it fits, keeps prefixes of id, email, username and password and every other field |
| Schema.StoredFlow | database/schema/flows.ts:15-21 | the stored flow fits every width, equals the given one when it fits, keeps prefixes of id, owner and name and the payload and timestamps |
| Schema.FlowUpdateError | database/schema/flows.ts:20 | an update of the payload raises exactly when the payload is null and some flow has the id, and then it is a NOT NULL violation |
| Schema.FirstMatch | backend/src/procedures/auth/signup.rpc.ts:50-54 | `limit(1)` returns a row satisfying the condition (here the first in table order), and none exactly when no row does |
| Schema.UserWithToken | backend/src/procedures/auth/verify-email.rpc.ts:21-25 | the row found holds the token; none exactly when no row holds it (a NULL token matches nothing) |
| Schema.Patched | database/schema/common.ts:9 | a patched user row has the new updatedAt and only the patched columns changed |
| Schema.UpdateUsersById | backend/src/procedures/auth/signin.rpc.ts:85-88 | every row with the id is patched, every other row is unchanged |
| Schema.UpdateUsersKeepsValid | database/schema/users.ts:15-19 | patching last login or verification keeps both tables valid |
| Schema.UpdateFlowsById | backend/src/procedures/flows/updateFlow.rpc.ts:58 | every flow with the id gets the new payload and updatedAt, every other row is unchanged |
| Schema.UpdateFlowsKeepsValid | database/schema/flows.ts:17-20 | replacing a payload with a non-null one keeps the flows table valid |
| Schema.FlowsValidMoreUsers | database/schema/flows.ts:18 | adding users never breaks a flow's reference to its owner |
| Database.Db.constructor | database/schema/users.ts:13-22 | an empty store is valid |
| Database.Db.InsertUser | database/schema/users.ts:13-22 | the stored (cut) user is appended exactly when the insert raises nothing, else nothing changes; the store stays valid and flows are unchanged |
| Database.Db.UpdateUsers | database/schema/common.ts:9 | users becomes the patched table; the store stays valid and flows are unchanged |
| Database.Db.InsertFlow | database/schema/flows.ts:15-21 | the stored (cut) flow is appended exactly when the insert raises nothing, else nothing changes; the store stays valid and users are unchanged |
| Database.Db.UpdateFlows | backend/src/procedures/flows/updateFlow.rpc.ts:58 | a non-null payload rewrites the flows with that id; a null payload raises NOT NULL exactly when some flow has that id (and matches no row otherwise), changing nothing when it raises |
| SignupRpc.RegisterUser | backend/src/procedures/auth/signup.rpc.ts:26-103 | response per guard, in order: email, password (errors joined by ", "), email taken, username taken, insert; failures leave the store unchanged; success appends one unverified, tokenless user with the given email, the username as its column stores it (cut to 100 when only spaces are dropped), a 30-character id and the salted password, keeping earlier users; the store stays valid |
| SignupRpc.NewUserRow | backend/src/procedures/auth/signup.rpc.ts:77-89 | the inserted row has the given email and username, a 30-character id, is unverified with no token, avatar or last login, has equal timestamps, and stores the hex salt then ':' as its password |
| SignupRpc.RegisteredPasswordVerifies | backend/src/procedures/auth/signup.rpc.ts:78-90 | the new user's stored password verifies the password it registered with |
| SignupRpc.RegisterInsertOutcome | backend/src/procedures/auth/signup.rpc.ts:84-102 | after the guards pass, the insert succeeds exactly when the id is new, the email fits its column, the username can be assigned to its column and its cut form matches no existing username; for a username that fits, exactly when the id is new and the email fits |
| SignupRpc.StoredNewUser | backend/src/procedures/auth/signup.rpc.ts:84-90 | when the new row can be assigned, the stored row differs from it only in the username, cut to its column |
| SignupRpc.EmailStoredAsGiven | database/schema/users.ts:16 | a valid email can be assigned to its column exactly when it fits, so it is never stored cut |
| SigninRpc.FindLoginUser | backend/src/procedures/auth/signin.rpc.ts:27-43 | the user found matches the email (looked up only when its trim is non-empty) or else the username (looked up only when the email found nobody and the username's trim is non-empty); none iff neither lookup matches |
| SigninRpc.HashedPasswordAccepted | backend/src/procedures/auth/signin.rpc.ts:56 | for a row whose password `hashPassword` stored, `user.password && verifyPassword(…)` accepts the registered password and another one only on a salted-digest collision |
| SigninRpc.LoginUser | backend/src/procedures/auth/signin.rpc.ts:22-110 | no user or a missing or non-verifying password gives the same "Invalid email or password"; an unverified user gets the verify-first message; success iff a verified user's password verifies, then the user's id, a 64-hex-digit token and only lastLoginAt updated; every failure has empty token and userId and leaves the store unchanged; isNewUser is always false |
| SigninRpc.LoginTouchesOnlyLastLogin | backend/src/procedures/auth/signin.rpc.ts:85-88 | a login changes exactly one row, and in it only lastLoginAt and updatedAt, both to the clock |
| VerifyEmailRpc.VerifyEmail | backend/src/procedures/auth/verify-email.rpc.ts:16-53 | no token holder gives "Invalid or expired verification token" and no change; otherwise "Email verified successfully" and the holder the token lookup returns is marked verified with its token cleared |
| VerifyEmailRpc.VerifyTouchesOnlyHolder | backend/src/procedures/auth/verify-email.rpc.ts:35-41 | only the holder's emailVerified, token and updatedAt change; every other row is untouched |
| VerifyEmailRpc.TokenIsSingleUse | backend/src/procedures/auth/verify-email.rpc.ts:21-41 | when one user held the token, nobody holds it afterwards, so a second call fails |
| AccountLifecycle.NewUserNeverVerified | backend/src/procedures/auth/signup.rpc.ts:84-90 | a user inserted without a token stays unverified whatever token verifyEmail is given |
| JsonValues.Truthy | backend/src/procedures/flows/updateFlow.rpc.ts:31 | a JSON payload is truthy iff it is not one of null, false, 0 and "" |
| CreateFlowRpc.MissingFields | backend/src/procedures/flows/createFlow.rpc.ts:26 | a field is missing iff the user id or the name is empty or the payload is null, false, 0 or "" |
| CreateFlowRpc.CreateFlow | backend/src/procedures/flows/createFlow.rpc.ts:21-90 | response per guard, in order: falsy field, name over 255, unknown user, duplicate id; success iff all pass and the id is fresh, then exactly the flow (inputs, fresh id, clock) is appended and its id returned; failures carry no flowId and change nothing; users never change |
| CreateFlowRpc.CreateInsertFailsOnlyOnDuplicateId | backend/src/procedures/flows/createFlow.rpc.ts:57-87 | once the guards pass, the insert can fail only with a unique violation on the id |
| GetFlowRpc.GetFlow | backend/src/procedures/flows/getFlow.rpc.ts:18-60 | empty id gives the missing-field message, an unknown id "Flow not found", both without flow and flowName; success iff a row has the id, returning that row's payload and name |
| GetFlowRpc.GetFlowReturnsStoredRow | backend/src/procedures/flows/getFlow.rpc.ts:37-51 | with unique ids, the answer is exactly the stored row's payload and name |
| GetFlowRpc.CreatedFlowIsRetrievable | backend/src/procedures/flows/getFlow.rpc.ts:31-51 | a flow just created under a fresh id reads back with its payload and name |
| ListFlowsRpc.ItemOfHidesPayload | backend/src/procedures/flows/listFlows.rpc.ts:55-60 | two flows give the same listed item iff they agree on id, name, createdAt and updatedAt: the payload and owner are never shown |
| ListFlowsRpc.OwnedItems | backend/src/procedures/flows/listFlows.rpc.ts:54-62 | the owner filter yields at most one item per row (membership is stated by OwnedItemsMembership) |
| ListFlowsRpc.ListFlows | backend/src/procedures/flows/listFlows.rpc.ts:25-84 | empty id gives the missing-field message, an unknown user "User not found", both with an empty list; on success the list is a permutation of the owner's projected flows, ordered by updatedAt, never increasing |
| ListFlowsRpc.SortByUpdatedDesc | backend/src/procedures/flows/listFlows.rpc.ts:63 | the result is a permutation of the input ordered by updatedAt, never increasing |
| ListFlowsRpc.InsertByUpdated | backend/src/procedures/flows/listFlows.rpc.ts:63 | inserting into an ordered list gives an ordered list holding one more item |
| ListFlowsRpc.InsertBehindHead | backend/src/procedures/flows/listFlows.rpc.ts:63 | an item older than the head, inserted into the ordered tail, keeps the whole list ordered and holding one more item |
| ListFlowsRpc.OwnedItemsMembership | backend/src/procedures/flows/listFlows.rpc.ts:54-62 | an item is selected iff it is the projection of a flow with that owner |
| ListFlowsRpc.OwnedItemsOnce | backend/src/procedures/flows/listFlows.rpc.ts:54-62 | with unique ids, each flow of the owner is selected exactly once |
| ListFlowsRpc.ListedExactlyOnce | backend/src/procedures/flows/listFlows.rpc.ts:54-73 | a successful listing has every flow of the owner exactly once, and every item is such a flow's (id, name, createdAt, updatedAt) projection |
| ListFlowsRpc.NoFlowsListsEmpty | backend/src/procedures/flows/listFlows.rpc.ts:54-74 | an existing user with no flows gets success and an empty list |
| UpdateFlowRpc.UpdateFlow | backend/src/procedures/flows/updateFlow.rpc.ts:18-83 | response per guard, in order: empty id, falsy payload, unknown id; success iff all pass, then the matching flow's payload is replaced and updatedAt set to the clock, and the input id is echoed; failures carry no flowId and change nothing; users never change |
| UpdateFlowRpc.UpdateTouchesOnlyTarget | backend/src/procedures/flows/updateFlow.rpc.ts:53-58 | the target keeps id, owner, name and createdAt and takes the payload and the clock; every other flow is unchanged |
| UpdateFlowRpc.UpdatedFlowListedFirst | backend/src/procedures/flows/listFlows.rpc.ts:63 | with a clock past every stored updatedAt, the updated flow heads its owner's next listing |
| ListFlowsRpc.FreshestListedFirst | backend/src/procedures/flows/listFlows.rpc.ts:54-63 | a flow of the owner updated strictly later than every other flow is the first item of that owner's listing |
| ListFlowsRpc.MostRecentFirst | backend/src/procedures/flows/listFlows.rpc.ts:63 | the first item of a list ordered by updatedAt is at least as recent as every item in it |
| App.ServerResponse.SetHeader | backend/src/app.ts:19 | the header is set to the value, replacing any earlier value; status and end state unchanged |
| App.ServerResponse.End | backend/src/app.ts:34 | the response is ended; headers and status unchanged |
| App.OriginHeaders | backend/src/app.ts:16-25 | only Allow-Origin, Vary and Allow-Credentials; Allow-Origin iff wildcard or listed origin; Allow-Credentials iff no wildcard and listed origin, Vary iff Allow-Credentials, and then Allow-Origin names the origin |
| App.CorsHeaders | backend/src/app.ts:18-29 | only the six CORS headers; Allow-Methods, Allow-Headers and Max-Age 86400 are always set |
| App.OnRequest | backend/src/app.ts:7-39 | the CORS headers are merged into the response; OPTIONS gets status 204 and is ended, any other method keeps its status and end state |
| App.CredentialsExactlyForListedOrigin | backend/src/app.ts:21-25 | without the wildcard, Allow-Origin and Allow-Credentials are set iff the origin is present, non-empty and listed, and then Allow-Origin is that origin, Vary is Origin and credentials are "true" |
| App.WildcardNeverAllowsCredentials | backend/src/app.ts:18-20 | with the wildcard, Allow-Origin is `*`, and neither Allow-Credentials nor Vary is set |
| App.NoCredentialsWithWildcardOrigin | backend/src/app.ts:16-25 | unless `*` is itself listed, a response allowing credentials never has Allow-Origin `*` |
| App.DeployedPolicyAllowsOnlyLocalFrontend | backend/src/app.ts:11-16 | with the deployed settings, Allow-Origin is set iff the origin is exactly `http://localhost:51934` |

## Left out

- Sending mail: `sendVerificationEmail` (`utils.ts`) and its best-effort re-send in signin are SMTP I/O. The re-send is modelled as leaving the store unchanged.
- SHA-256, `randomBytes`, `Math.random`, `Date.now` and `uuid()` are not computed; they are parameters of the operations as described above. No freshness is assumed: an id collision is modelled as the database error it would raise.
- The generic catch branches for infrastructure failures (connection loss, timeouts, driver errors other than constraint violations) are not modelled. Constraint violations are modelled, and every catch branch they reach maps to its fixed message. The "unique constraint" substring test is modelled as the `UniqueViolation` case.
- SigninRpc.LoginUser: the "Login failed. Please try again." response of the catch branch is not produced, because no modelled statement of that handler can raise.
- GetFlowRpc.GetFlow and ListFlowsRpc.ListFlows: the "Failed to retrieve …" responses of their catch branches are not produced, for the same reason.
- `async`/`await`, concurrency between requests and `console.error` logging are not modelled. Each handler runs to completion against one store.
- SignupRpc.RegisterUser models the signup handler's own copy of `generateULID` (`signup.rpc.ts:9-13`) through `AuthUtils.GenerateUlid`; the two definitions are identical.
- CreateFlowRpc.CreateFlow and AuthUtils.RuleHolds: string lengths count characters, while JavaScript's `.length` counts UTF-16 code units. The 255-character name check (`createFlow.rpc.ts:35`) and the 8-character password minimum (`utils.ts:67`) therefore agree with the source only for text in the Basic Multilingual Plane. The varchar widths count characters, as Postgres does.
- Schema.FirstMatch: `select … limit 1` without `orderBy` may return any matching row, and an update can move a row within the table; the model picks the first match in table order. Where a unique column pins the row (id, email, username) this changes nothing; it matters only for `verifyEmail` when several users share a token, since that column has no unique constraint.
- Schema.Patched, SigninRpc.LoginTouchesOnlyLastLogin and SignupRpc.NewUserRow use one clock reading per handler: the source reads the clock separately for `lastLoginAt` (`signin.rpc.ts:87`) and for `$onUpdate`'s `updatedAt` (`common.ts:9`), and the new user's timestamps come from the database's `defaultNow()` rather than the id's `Date.now()`. No stated property depends on these readings being equal.
- App.ServerResponse.SetHeader keys headers case-sensitively; Node's `setHeader` treats header names case-insensitively. The hook always uses one spelling per header, so nothing here depends on it.
- `emailVerified` is a nullable column with default false; the model keeps it as a boolean, which is what every modelled insert writes.
- Timestamps are integers from the clock. The ISO-8601 formatting of `createdAt` and `updatedAt` in the listing is not modelled.
- ListFlowsRpc.ListFlows: rows with equal `updatedAt` come out in one fixed order (stable insertion). Postgres leaves that order unspecified, so the contract states only the permutation and the ordering.
- JSON numbers are reals; JSON truthiness is JavaScript's (null, false, 0, "" are falsy).
- `database/postgres.ts` (connection singleton), `create-db.ts` (admin script), `env.ts`, `drizzle.config.ts`, `backend/arri.config.ts` and route registration in `backend/.arri/__arri_app.ts` are not part of this model.
- The bundled copies under `.output/` and `backend/.output/` duplicate the sources and are not modelled a second time.
- The `verify-email` procedure is modelled even though it is not registered as a route in `backend/.arri/__arri_app.ts`.
