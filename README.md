# deepwell login audit and user service, modelled in Dafny

This project models two parts of deepwell, the database service of a content platform:

- **The login-attempt audit store** (`SessionManager` in `src/session/manager.rs`). The
  `login_attempts` table is an in-memory sequence of `LoginAttempt` rows. Beside it sit the
  id sequence's next value and the database clock that `attempted_at` defaults to.
  `AddLoginAttempt` appends one row. `SetLoginSuccess` updates rows in place.
  `GetLoginAttempts` and `GetAllLoginAttempts` are read-only queries: they filter on a strict
  "after `since`" bound (and on the user for the first one), sort newest first and keep at
  most 100 rows.
- **The user-service facade** (`impl Server` in `src/server/user.rs`). The user directory is a
  map from user id to a record (name, email, verified, inactive). Beside it are a map of
  opaque password entries and the users table's id sequence. Account creation, editing,
  verification and (de)activation change the maps. The lookups by id, by list of ids, by
  name and by email are functions over them.

`src/test/login.rs` is replayed in `login_scenario.dfy` directly against the audit store.

Files:

- `common.dfy` (module `Common`): identifier types, time as an `int`, `Option`, `Result`,
  `Outcome`, and the error variants used here.
- `session_manager.dfy` (module `Sessions`): `LoginAttempt`, `Session`, the query
  specification and the class `SessionManager`.
- `user_service.dfy` (module `UserService`): `User`, the directory updates as functions on
  maps, and the class `Server`.
- `login_scenario.dfy` (module `LoginScenario`): the two login tests.

Modelling decisions:

- The database is in memory and never fails, so the `Err` results coming from Diesel are not
  modelled. `SetLoginSuccess`, `EditUser`, `VerifyUser` and the two mark methods return
  nothing: their `Ok(())` is unconditional.
- The queries use `ORDER BY attempted_at DESC`, which leaves the order of equal timestamps
  open. The model fixes one: a stable sort, so table order is kept among equal timestamps.
  The contracts of `Query`, `GetLoginAttempts` and `GetAllLoginAttempts` hold for every such
  order. `ThreeAtOnce` is about the model's own order: it shows only that the test's order is
  one allowed result.
- In `create_user` the inner calls `self.user.create` and `self.password.set` are not part of
  this model. Their outcomes are parameters of `CreateUser`. The transaction is modelled as
  snapshot, apply, and restore on failure. The id sequence is not given back on rollback (as
  with a PostgreSQL sequence), so an id is never handed out twice.
- The user manager is not part of this model either, so five of its behaviours are
  assumptions:
  - a new user starts unverified and active;
  - `edit`, `verify` and `mark_inactive` on an unknown id change nothing, like the Diesel
    update in `set_login_success`;
  - `get_from_name` and `get_from_email` compare exactly and return the lowest-id match;
  - `UserMetadata` carries only the name and email changes;
  - marking a user inactive ("effectively deleting them", `src/server/user.rs:75`) sets only
    the `inactive` flag. Every lookup (`GetUserFromId`, `GetUsersFromIds`, `GetUserFromName`,
    `GetUserFromEmail`) still returns an inactive user, with the flag set.
- Code and test disagree on one point, when the attempts have distinct timestamps. The test
  at `src/test/login.rs:98-115` reads index 0 of `get_login_attempts` as the oldest attempt.
  The query orders by `attempted_at` descending (`src/session/manager.rs:182`). The model
  follows the code and records each scenario attempt one clock tick after the previous one.
  Under that assumption, `LoginById` proves that index 0 is the newest attempt: the successful
  one, made from the unknown (`None`) address. When the three attempts share one timestamp (for
  instance `now()` read once in an enclosing transaction), the order among them is open, and
  `ThreeAtOnce` shows that the test's order is then a possible result.

## Model

| member | source | states |
|---|---|---|
| `Sessions.Select` | src/session/manager.rs:179-181 | the WHERE clause: a row is kept exactly when it is in the table and the criteria select it (strictly after `since`, and `user_id = user` for the per-user query) |
| `Sessions.SelectAppend` | src/session/manager.rs:179-181 | filtering a table that grew by appended rows gives the old selection followed by the selection of the new rows |
| `Sessions.SortNewestFirst` | src/session/manager.rs:182 | ORDER BY attempted_at DESC: the result is non-increasing in `attempted_at` and is a permutation of its input |
| `Sessions.Newest` | src/session/manager.rs:182-183 | ORDER BY DESC LIMIT: the result has min(rows, limit) rows, is newest first, takes nothing that is not in the input, and any input row left out means the page is full and every returned row is at least as recent as it |
| `Sessions.Query` | src/session/manager.rs:179-184 | the full query: at most 100 rows, newest first, every row selected and from the table, and every selected row that is missing is no newer than all the returned ones, with the page full |
| `Sessions.QueryDrawn` | src/session/manager.rs:179-184 | a query returns no row more often than the table holds it |
| `Sessions.WithSuccess` | src/session/manager.rs:159-162 | the update: same length, a row whose id matches becomes successful with every other field unchanged, every other row is unchanged |
| `Sessions.WithSuccessIdempotent` | src/session/manager.rs:159-164 | marking the same attempt successful twice gives the same table as marking it once |
| `Sessions.WithSuccessUnknownId` | src/session/manager.rs:160-164 | with an id that matches no row the update is a no-op |
| `Sessions.SuccessOnlyRises` | src/session/manager.rs:159-162 | the update only ever turns `success` from false to true; a row already successful is unchanged |
| `Sessions.SessionManager.constructor` | src/session/manager.rs:98-104 | a new manager over an empty table |
| `Sessions.SessionManager.AddLoginAttempt` | src/session/manager.rs:106-149 | with a user id or a username-or-email present (both absent panics), appends exactly one row with the given fields stamped with the current time, returns an id no existing row has, keeps every existing row and keeps the table invariant |
| `Sessions.SessionManager.SetLoginSuccess` | src/session/manager.rs:151-165 | the new table is `WithSuccess` of the old one; id counter and clock unchanged; the table invariant is kept |
| `Sessions.SessionManager.GetLoginAttempts` | src/session/manager.rs:167-187 | only rows with `user_id == Some(user)` and `attempted_at > since`, non-increasing in time, at most 100, drawn from the table and no row more often than the table holds it; when a matching row is missing the result holds 100 rows, all at least as recent |
| `Sessions.SessionManager.GetAllLoginAttempts` | src/session/manager.rs:189-202 | the same strict-`since` filter, order, 100-row cap and no-repeat guarantee with no user filter |
| `UserService.WithInactive` | src/server/user.rs:75-85 | setting the inactive flag of one user: same keys, that user's flag set and its other fields kept, every other user unchanged |
| `UserService.WithVerified` | src/server/user.rs:69-73 | setting the verified flag of one user only, every other field and user unchanged |
| `UserService.WithEdits` | src/server/user.rs:37-41 | an edit replaces the name and email given as `Some`, keeps those given as `None` and changes nothing else |
| `UserService.InactiveThenActive` | src/server/user.rs:75-85 | marking inactive then active gives the same directory as marking active |
| `UserService.InactiveThenActiveRestores` | src/server/user.rs:75-85 | for a user that was active, inactive-then-active restores the directory exactly |
| `UserService.WithInactiveIdempotent` | src/server/user.rs:75-85 | marking inactive (or active) twice is marking once |
| `UserService.WithVerifiedIdempotent` | src/server/user.rs:69-73 | verifying twice is verifying once |
| `UserService.FindFrom` | src/server/user.rs:57-67 | the search behind the string lookups: a found id is in range, present and matching, and no lower id matches; `None` means no id in range matches |
| `UserService.Server.CreateUser` | src/server/user.rs:26-35 | atomic creation: `Ok` exactly when both steps pass, and then a fresh id is returned and both the user and its password are added; on either failure neither map changes and that step's error is returned; every user keeps a password |
| `UserService.Server.EditUser` | src/server/user.rs:37-41 | the directory becomes `WithEdits` of the old one; passwords unchanged |
| `UserService.Server.GetUserFromId` | src/server/user.rs:43-47 | `Ok` with the stored record exactly when the id is present, `Err(UserNotFound)` exactly when it is absent |
| `UserService.Server.GetUsersFromIds` | src/server/user.rs:49-55 | one entry per id in the same order; entry i is `None` exactly when `ids[i]` is missing, and otherwise that user |
| `UserService.Server.GetUserFromName` | src/server/user.rs:57-61 | a user with that name from the directory, or `None` (not an error) exactly when no user has that name |
| `UserService.Server.GetUserFromEmail` | src/server/user.rs:63-67 | a user with that email from the directory, or `None` (not an error) exactly when no user has that email |
| `UserService.Server.VerifyUser` | src/server/user.rs:69-73 | the directory becomes `WithVerified` of the old one; passwords unchanged |
| `UserService.Server.MarkUserInactive` | src/server/user.rs:75-79 | the directory becomes `WithInactive(.., true)` of the old one |
| `UserService.Server.MarkUserActive` | src/server/user.rs:81-85 | the directory becomes `WithInactive(.., false)` of the old one |
| `LoginScenario.ThreeNewest` | src/test/login.rs:90-100 | three selected rows with rising timestamps after a table where nothing is selected: the query returns them newest first |
| `LoginScenario.ThreeAtOnce` | src/test/login.rs:98-115 | three selected rows recorded at the same time after a table where nothing is selected may come back in table order, which is the order the test reads |
| `LoginScenario.QueryThree` | src/test/login.rs:90-96 | the result is `GetLoginAttempts(user, since)` of the manager, and after three attempts by that user with rising timestamps after `since` (and none before them) it is exactly those three, newest first |
| `LoginScenario.LoginById` | src/test/login.rs:69-116 | after two failed and one successful attempt by id, the result is `GetLoginAttempts(user, since)` of the manager and holds three rows for that user with no name string; index 0 is the successful one from the unknown address, then `alpha-beta.local`, then `1.1.1.1` |
| `LoginScenario.AllNewRowsCounted` | src/test/login.rs:158-169 | appended rows that are pairwise distinct (different ids) and all selected are all counted unless the page is full, whatever their timestamps, equal ones included |
| `LoginScenario.LoginByName` | src/test/login.rs:118-170 | after six attempts by name or email, the result is `GetAllLoginAttempts(since)` of the manager and holds at least six rows whatever the table held before; the six rows differ by id, so the proof does not depend on their timestamps |

## Left out

- Diesel and PostgreSQL execution, `Arc<PgConnection>`, async/await and the `debug!` logging. The table is in memory and its storage errors are not modelled.
- `impl_async_transaction!` (src/session/manager.rs:205): a macro whose expansion is not part of this model.
- `chrono` time zones: time is an abstract integer clock, advanced by `Tick`.
- The 64-bit width of the ids (`i64` in `src/session/manager.rs:159` and `:178`): ids are unbounded natural numbers, so the point where an id sequence runs out is not modelled.
- The login orchestration (`try_login`, `try_login_id`), the password check and the user and password managers: their code is not part of this model. The test scenarios therefore record each attempt's success flag directly. The name scenario takes the name-to-user resolution as a parameter.
- Sessions: no operation shown creates, reads or deletes one, so `Session` is only a record.
- The RPC layer (`deepwell-rpc`): the accept loop with its bound of 16 connections served at once, `protocol`, `ping`, `time` and `get_network`. These are concurrency, I/O, the system clock and a foreign crate.
- `UserService.Server.GetUserFromName`: assumes names compare exactly; the source's user manager may normalise them.
- `UserService.Server.EditUser`: models only the name and email fields of `UserMetadata`.
- `LoginScenario.LoginById`: records each attempt one clock tick after the one before, so the three timestamps strictly rise; the order of attempts made at one and the same time is covered only by `ThreeAtOnce`.
- `LoginScenario.LoginById`: does not state that the manager's invariant still holds after the scenario.
- `LoginScenario.LoginByName`: does not state that the manager's invariant still holds after the scenario.
