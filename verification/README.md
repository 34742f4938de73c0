# Task manager command logic, modelled in Dafny

This project models the command-line task manager of `cli.py`. Each click command is a short
read-check-write transition over two MongoDB collections:

- `users`: a list of `{username, password}` records, each with a store-generated `_id`;
- `tasks`: documents keyed by an integer `_id`, holding `{title, description, status, user_id}`.

The store becomes an immutable value `Store.Db(users: seq<User>, tasks: map<int, Task>)`. Every
command becomes a pure function from the store and the command's inputs to a `Commands.Reply`,
which holds the new store and an `Outcome`. The outcome stands in for the message the command
prints.

Modules, following the program's structure:

- `PendingStatus` (`status.dfy`): the `^pending$` case-insensitive status filter used at login.
- `Store` (`store.dfy`): the records and the store. It also has the `find_one` lookups (the first
  match in list order), the largest task id, the store invariant `Valid` and `init_db`'s
  sample data `Sample`.
- `Commands` (`commands.dfy`): `register`, `login`, `get_tasks`, `create_task`, `update_task`
  and `delete_task`.
- `Cursor` (`cursor.dfy`): the two loops that walk a query cursor. One counts pending tasks at
  login; the other copies every task for `get_tasks`.
- `Cli` (`cli.dfy`): the command group, which dispatches one `Command` to its transition.
  `init_db` loads the sample data and `logout` leaves the store alone.
- `Properties` (`properties.dfy`): lemmas that relate several commands, plus a short scenario
  on the sample data.

Behaviour of `cli.py` worth noting:

- Task ids are reused. The next id is the largest remaining id plus one, so deleting the task
  just created makes the next `create_task` return its id again
  (`Properties.DeletedIdIsReused`). A gap is refilled too: with tasks 1 and 3, deleting 3 makes
  the next `create_task` return 2 (`Properties.DeletingLargestRefillsGap`). There is no
  monotonic id counter.
- `create_task` on an empty task collection has no id to start from. It indexes an empty cursor
  and aborts, and the store is unchanged (`Outcome.NoTaskToNumberFrom`). The assignee lookup
  comes first, so an unknown assignee is reported even when the store is empty.
- The login count matches tasks by `user_id` equal to the user's `_id`, not by an assigned
  username. The sample tasks of `init_db` carry no `user_id`, so they are never counted
  (`Properties.SampleAdminHasNoPendingTasks`).
- `update_task` overwrites title, description and status, each only when the supplied value is
  non-empty. `cli.py` keeps no session state and has no filter modes, sorting, due dates or
  default assignee.
- The status filter is the regular expression `^pending$` with the case-insensitive option. As
  in PCRE, `$` also matches before one newline that ends the string. So `"pending\n"` counts as
  pending, while `"pending!"` and `" pending"` do not.

## Model

| member | source | states |
|---|---|---|
| PendingStatus.MatchWholeIsFoldedEquality | cli.py:70 | The anchored, caseless match of a literal against a whole string holds exactly when the case-folded string equals the folded literal, optionally followed by one newline (both directions). |
| PendingStatus.PendingIsFoldedWord | cli.py:70 | A status is pending iff it folds to "pending" or "pending\n". |
| PendingStatus.PendingExamples | cli.py:70 | "pending", "Pending" and "PENDING" are pending. "pending!", " pending", "" and "Completed" are not: the match is anchored at both ends. |
| Store.UsernameIndex | cli.py:48 | The lookup by username returns the first record with that username, or reports that there is none. |
| Store.CredentialsIndex | cli.py:65 | The lookup by username and password returns the first record matching both exactly, or reports that there is none. |
| Store.MaxId | cli.py:114 | Sorting by `_id` descending and taking the first yields an id that is present and at least as large as every other id. |
| Store.SampleValid | cli.py:20-28 | The sample users and tasks of `init_db` satisfy the store invariant: unique usernames, unique user ids, and every `user_id` names a user. |
| Commands.Register | cli.py:48-55 | A taken username is rejected and the store is unchanged. Otherwise exactly one record `{username, password}` is appended and the tasks are untouched. |
| Commands.Login | cli.py:65-87 | Login succeeds iff some record matches both username and password. On failure the outcome is the invalid-credentials reply. The store is never changed. On success the count is the size of the matching user's set of pending tasks. |
| Commands.GetTasks | cli.py:98-100 | Read-only. It reports "no tasks" iff the task map is empty; otherwise it always shows the list, holding exactly one view per task with that task's id, title, description and status. |
| Commands.CreateTask | cli.py:109-116 | Unknown assignee: nothing changes. Empty task map: the command aborts and nothing changes. Otherwise one task is inserted under an id that is new, one more than an existing id and greater than all of them. The task is owned by the first user with that username; users and other tasks are untouched. |
| Commands.UpdateTask | cli.py:127-140 | Missing id: nothing changes. Otherwise each of title, description and status is overwritten iff the supplied value is non-empty. The owner, the other tasks, the key set and the users are unchanged. |
| Commands.DeleteTask | cli.py:147-152 | Missing id: nothing changes. Otherwise exactly that key is removed and every remaining task and all users are unchanged. |
| Cursor.CountPending | cli.py:70-73 | Walking the tasks one at a time and counting the user's pending ones gives the size of the user's pending set. |
| Cursor.ListTasks | cli.py:98-99 | The listing has one entry per task, no id twice and every id present, and each entry shows that task's own fields; its entries are exactly the views `get_tasks` reports. |
| Cli.Step | cli.py:17-153 | Login, logout and get_tasks leave the store unchanged. No command except `init_db` removes or edits a user; only register adds one. Register leaves the tasks alone. `init_db` replaces the store by exactly the sample users and tasks. |
| Properties.RegisterTwiceRejected | cli.py:48-55 | A second registration of the same username is rejected whatever the password, and leaves the store as the first left it. |
| Properties.LoginOfRegisteredUser | cli.py:65-73 | In a valid store, a registered user's login succeeds with that user's password and reports that user's pending count. Any other password is rejected. |
| Properties.RegisterThenLogin | cli.py:48-73 | A newly registered user can log in at once and has no pending tasks. |
| Properties.SampleAdminHasNoPendingTasks | cli.py:20-28 | After `init_db`, admin logs in with 0 pending tasks. The sample "Pending" task has no `user_id`. |
| Properties.DeleteUndoesCreate | cli.py:114-116 | Deleting the task just created restores the store exactly. |
| Properties.DeletedIdIsReused | cli.py:114 | After the task just created is deleted, the next creation returns the same id again. |
| Properties.DeletingLargestRefillsGap | cli.py:114 | The next id is the largest remaining id plus one: with tasks 1 and 3, deleting 3 makes the next creation return 2. |
| Properties.CreatePendingTaskCountsAtLogin | cli.py:70-73 | Creating a pending task adds its id to the assignee's pending set, so the count grows by exactly one. Every other user's pending set is unchanged. |
| Properties.UpdateWithNothingIsNoOp | cli.py:132-140 | An update whose title, description and status are all empty leaves the store unchanged. |
| Properties.UpdateIdempotent | cli.py:127-140 | Applying the same update twice has the same effect as applying it once. |
| Properties.DeleteTwiceNotFound | cli.py:147-150 | A second delete of the same id reports "not found" and changes nothing. |
| Properties.RegisterKeepsValid | cli.py:54-55 | Registration with a never-used `_id` keeps the store invariant. |
| Properties.StepKeepsValid | cli.py:17-153 | Every command keeps the store invariant, given a never-used `_id` for a registration. |
| Properties.SessionRegister | cli.py:48-55 | On the sample data, registering "alice" appends exactly her record, and the resulting store is valid. |
| Properties.SessionCreate | cli.py:114-116 | On the sample data plus a new user, the next task id is 3. |
| Properties.SessionStoresValid | cli.py:109-140 | The stores after that creation and after the later update both keep the store invariant. |
| Properties.SessionPendingSets | cli.py:70 | Alice's pending set is {3} after the "Pending" task is assigned and empty once its status is "Completed". |
| Properties.SessionUpdate | cli.py:132-140 | Updating only the status of task 3 to "Completed" changes that one field and nothing else. |
| Properties.SessionLoginSeesTask | cli.py:65-73 | After a "Pending" task is assigned to the new user, that user's login reports 1. |
| Properties.SessionLoginAfterUpdate | cli.py:127-140 | After that task's status is updated to "Completed", the same login reports 0. |

## Left out

- `app.py`: the web application, its login manager and its user loader are framework wiring
  with no logic of their own.
- Printing, logging and click's prompts and option parsing are left out. An `Outcome` value
  stands in for each printed message. A non-integer `task_id` argument is rejected by click
  before the command runs; that case is not modelled.
- Connection setup and store failures: a store error would abort the command. The model treats
  the store as always available.
- The generation of user `_id` values (ObjectIds): the id is a parameter of `Register`. Its
  freshness is a hypothesis of the invariant lemmas, not a precondition of the command.
- `Commands.GetTasks`: the outcome is the set of task views, not a list. The store's natural
  order is not modelled.
- `Cursor.ListTasks`: it takes the tasks in an unspecified order, for the same reason.
- The regular expression engine's Unicode case folding: only ASCII letters are folded. No other
  character folds onto a letter of "pending" in this model.
- Integer width of task ids: the driver stores them as 32- or 64-bit BSON integers, and an id
  past 2^63-1 is refused by the driver. The model's ids are unbounded.
- An update with all fields empty sends an empty `$set`. MongoDB 5.0 and later accept that as a
  no-op, and that is what the model does. Older servers reject it with an error.
- `init_db` drops both collections and re-inserts the sample documents. The model replaces the
  store by the sample value in one step, and the sample user ids are fixed values.
- `logout` only prints, so its transition leaves the store unchanged.
- Concurrency: each command is one atomic transition. `register` checks for the username and
  then inserts, and no unique index protects `username`. Two `register` runs at once could both
  insert the same name, so the unique-usernames part of `Store.Valid` (and
  `Properties.StepKeepsValid`) holds only when commands run one at a time. Likewise, two
  `create_task` runs at once would read the same largest id, and the second insert would fail
  with a duplicate-key error.
- `find_one` returns the first match in the store's natural order. MongoDB does not guarantee
  that this is insertion order; the model uses list order. This only matters when two records
  match, which `Store.Valid` rules out for usernames.
