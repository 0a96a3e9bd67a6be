# packup task ownership and per-user overlays, in Dafny

packup is a shared to-do service. Every task is a row of `todos`. A
*personal* task has an owner. A *default* task (owner NULL,
`is_default_task`) is a template that every user sees. Status and place of
a default task are per user: they live in `user_todo_state`, an overlay
keyed by (user, task). The user endpoints (`/api/todos`) and the operator
endpoints (`/api/admin/...`) are short decision procedures over these two
tables. They filter rows, resolve overlays, check permissions, allocate
positions and write rows.

This project models those procedures and proves what they promise:

- `models.dfy` (module `Models`): status enumeration, text validation,
  the records of tasks, overlays and views, the overlay resolver and the HTTP
  outcomes.
- `ordering.dfy` (module `Ordering`): the listing order (position
  ascending, then creation time descending) and the LIMIT cut.
- `tables.dfy` (module `Tables`): the two tables, held by a `Database`
  object the handlers share. It also has the invariant the handlers keep,
  the position allocator (a loop computing `COALESCE(MIN(position), 0)`)
  and the status upsert on an overlay.
- `reorder.dfy` (module `Reordering`): the reorder loop one id at a time.
  It also gives the effect of a whole request in closed form.
- `todo.dfy` (module `TodoApi`): the user endpoints. Listing is a
  function; create, update, delete and reorder are methods of
  `TodoHandler` that write the tables.
- `admin.dfy` (module `AdminApi`): the operator role gate, the
  default-task catalogue, one user's tasks as an operator sees them, and
  the `AdminHandler` methods that write on a user's behalf.
- `auth.dfy` (module `Auth`): how sign-in decides between the `admin` and
  `user` roles from the comma-separated operator list.
- `wrappers.dfy` (module `Wrappers`): `Option`.

A Go string is modelled as a `string` whose characters each stand for one
byte, so `|s|` is Go's `len(s)`. Positions are integers: every allocator
yields a whole multiple of 1024. `Tables.WellFormed` records this, and
every handler method preserves it. The caller's id, role, new task ids and
clock readings are parameters. A new id is assumed fresh in both tables.

## Model

| member | source | states |
|---|---|---|
| `Models.StatusEnumeration` | backend/internal/models/todo.go:10-23 | `pending`, `in-progress` and `done` are valid statuses; `Pending`, `invalid`, `completed` and the empty string are not |
| `Models.TextLimitCountsBytes` | backend/internal/models/todo.go:54-56 | the empty text and 201 ASCII letters are refused and 200 are accepted; the limit counts bytes, so 100 copies of a two-byte character (200 bytes) pass and 101 copies (202 bytes) do not |
| `Models.RepeatLength` | backend/internal/todo/todo_test.go:136-159 | the 201-byte text the tests build has length 201 |
| `Models.CanonicalView` | backend/internal/models/todo.go:40-51 | a task's own view carries the row's id, text, status, position, creation time, default flag and owner |
| `Models.Resolve` | backend/internal/todo/todo.go:67-88 | a default task takes status (falling back to its own when the overlay's is NULL) and position from the viewer's overlay row if there is one; a personal task, or a default task without an overlay row, shows its own fields |
| `Models.ResolveTextOnly` | backend/internal/admin/admin.go:245-250 | changing a task's text changes only the text of every resolved view |
| `Ordering.SortViews` | backend/internal/todo/todo.go:87 | the listing holds every selected row exactly once, sorted by position ascending and creation time descending |
| `Ordering.Take` | backend/internal/todo/todo.go:88 | the LIMIT keeps a prefix of the sorted rows of length min(n, rows) |
| `Ordering.TakeKeepsFirst` | backend/internal/todo/todo.go:87-88 | a row cut by the LIMIT comes after every row kept |
| `Ordering.TakeAll` | backend/internal/todo/todo.go:88 | no row is cut when there are at most n |
| `Tables.Database.MinPosition` | backend/internal/todo/todo.go:156-158 | the loop computes `COALESCE(MIN(position), 0)` over the given rows: 0 for none, else a position of one of them that no other is below |
| `Tables.MinOrZero` | backend/internal/admin/admin.go:170-171 | the least position of the scope, or 0 when the scope is empty |
| `Tables.PrependPosition` | backend/internal/todo/todo.go:156-158 | a new task's position lies strictly below every position in its scope, is -1024 for an empty scope, and stays on the 1024 grid |
| `Tables.OwnedBy` | backend/internal/todo/todo.go:157 | the scope `WHERE user_id = $1`: exactly the rows owned by the user |
| `Tables.DefaultRows` | backend/internal/admin/admin.go:171 | the scope `WHERE is_default_task = true`: exactly the default rows |
| `Tables.OverlayFor` | backend/internal/todo/todo.go:85 | the LEFT JOIN finds the viewer's overlay row only for a default task |
| `Tables.Effective` | backend/internal/todo/todo.go:67-88 | a personal task always shows its canonical row; the id and text never come from an overlay |
| `Tables.OrderPosition` | backend/internal/todo/todo.go:383 | the i-th id of a reorder gets position i * 1024, a non-negative grid position |
| `Tables.InsertKeepsWellFormed` | backend/internal/todo/todo.go:161-164 | inserting a row on the grid (a default one without owner and pending) keeps the tables well formed |
| `Tables.SetOverlayStatus` | backend/internal/todo/todo.go:244-264 | the status upsert writes the new status and the time into the (user, task) overlay; an existing row keeps its position, a new one takes that task's canonical position; every other overlay row is unchanged |
| `Tables.StatusChangeKeepsPlace` | backend/internal/todo/todo.go:244-264 | after the upsert the user sees that task with the new status and nothing else changed; no other user's view of any task changes |
| `Tables.SetOverlayStatusKeepsWellFormed` | backend/internal/admin/admin.go:523-541 | the status upsert keeps the tables well formed |
| `Reordering.ReorderStep` | backend/internal/todo/todo.go:383-418 | one iteration fails exactly for an unknown id, or for a default task without an overlay row when a NULL status is refused; it never adds or removes a task |
| `Reordering.ReorderFailurePersists` | backend/internal/todo/todo.go:387-391 | once one id fails, the whole request fails however many ids follow |
| `Reordering.ReorderStepKeepsWellFormed` | backend/internal/todo/todo.go:393-418 | one iteration keeps the tables well formed |
| `Reordering.LastIndex` | backend/internal/todo/todo.go:382-383 | the index of the last occurrence of a listed id, which is the one whose write survives |
| `Reordering.TouchedOverlays` | backend/internal/todo/todo.go:393-406 | the overlay keys a reorder writes: (caller, id) for each listed default task |
| `Reordering.ReorderedTodos` | backend/internal/todo/todo.go:407-418 | after a reorder every listed task the caller owns sits at 1024 times the index of its last occurrence; every other row is unchanged |
| `Reordering.ReorderedOverlays` | backend/internal/todo/todo.go:393-406 | after a reorder each listed default task has a caller overlay at 1024 times its last index, keeping an existing status or holding NULL; every other overlay row is unchanged |
| `Reordering.ReorderUpToClosedForm` | backend/internal/todo/todo.go:382-419 | by induction over the ids: the loop's result equals the closed form whenever it succeeds |
| `Reordering.ReorderAllClosedForm` | backend/internal/todo/todo.go:382-424 | a reorder succeeds exactly when every id is known and, when NULL is refused, every listed default task already has a caller overlay; its result is then the closed form |
| `Reordering.ReorderRejectsUnknownId` | backend/internal/todo/todo.go:387-391 | a list containing an unknown id fails as a whole |
| `Reordering.ReorderNeedsOverlayWhenNullRejected` | backend/internal/todo/todo.go:393-406 | when the store refuses a NULL status, a default task the caller never touched makes the reorder fail |
| `Reordering.ReorderIdempotent` | backend/internal/todo/todo.go:382-424 | sending the same successful reorder again, at the same instant, leaves the tables as the first one left them |
| `Reordering.ReorderKeepsWellFormed` | backend/internal/todo/todo.go:382-419 | every successful prefix of the reorder loop keeps the tables well formed |
| `TodoApi.ListedView` | backend/internal/todo/todo.go:67-104 | a listed row is the caller's resolved view without `user_id`; a personal row shows its canonical fields |
| `TodoApi.ListedRows` | backend/internal/todo/todo.go:43-86 | the selected rows: with defaults excluded, the caller's own personal rows; otherwise the caller's rows and default tasks that are not hidden |
| `TodoApi.ViewsNoMoreThanRows` | backend/internal/todo/todo.go:90-104 | scanning gives at most one view per selected row |
| `TodoApi.List` | backend/internal/todo/todo.go:33-115 | 401 without a session; otherwise at most 100 sorted views, each a selected row as the caller sees it, and an empty array when no row is selected |
| `TodoApi.ListShowsDefaultsAndOwn` | backend/internal/todo/todo.go:85-88 | an ordinary caller who does not ask for exclusion sees a task exactly when it is a default or their own and it is not hidden (when at most 100 qualify) |
| `TodoApi.ListExcludingDefaults` | backend/internal/todo/todo.go:43-63 | an operator, or a caller asking for exclusion, sees exactly their own personal tasks, hidden ones included, with canonical fields |
| `TodoApi.ListResolvesOverlay` | backend/internal/todo/todo.go:71-88 | a listed default task shows the caller's overlay status and position when an overlay row exists, its own otherwise |
| `TodoApi.ListKeepsFirstRows` | backend/internal/todo/todo.go:87-88 | a selected row left out by the 100 cap comes after all 100 rows returned |
| `TodoApi.NewPersonalTask` | backend/internal/todo/todo.go:142-164 | the inserted row is pending, personal, owned and created by the caller, shared unless the request says false, and strictly above every row the caller owns |
| `TodoApi.Patch` | backend/internal/todo/todo.go:294-322 | a field of the caller's own task is replaced exactly when the request carries it; position, owner, creator and flags stay |
| `TodoApi.PatchIdempotent` | backend/internal/todo/todo.go:294-322 | applying the same update twice gives the row it gave once |
| `TodoApi.PatchWritesPresentFields` | backend/internal/todo/todo.go:294-322 | every field sent is written; an update with no field leaves the row as it was |
| `TodoApi.DeleteRules` | backend/internal/todo/todo.go:460-477 | only an operator deletes a default task; only the owner deletes a personal one; an ordinary owner cannot delete a task someone else created |
| `TodoApi.TodoHandler.Create` | backend/internal/todo/todo.go:117-182 | 401 without a session, 400 for invalid text, writing nothing; otherwise inserts `NewPersonalTask` under the new id and returns it with 201 |
| `TodoApi.TodoHandler.Update` | backend/internal/todo/todo.go:184-354 | 401, then 400 for an empty id or invalid non-empty text or status, 404, then 403 exactly for a foreign personal task or text or sharing sent for an assigned task; every other request succeeds with 200 (Ok exactly when none of these apply); a default task changes only the caller's overlay status, a personal one gets `Patch`; the reply is the caller's view of the row |
| `TodoApi.TodoHandler.Delete` | backend/internal/todo/todo.go:429-489 | 401, 400, 404, then 403 exactly when `MayDelete` fails; success removes exactly that row |
| `TodoApi.TodoHandler.Reorder` | backend/internal/todo/todo.go:356-427 | 401; an empty list writes nothing; otherwise the loop over local copies commits the closed form on success and leaves both tables untouched on failure |
| `AdminApi.RequireAdmin` | backend/internal/admin/admin.go:38-46 | a request passes the operator gate exactly when its role is `admin`; otherwise it gets 403 |
| `AdminApi.RequireAdminCases` | backend/internal/admin/admin_test.go:57-112 | the role `user`, no role at all and the role `Admin` are refused; `admin` passes |
| `AdminApi.GateAdmitsListedAdmins` | backend/internal/auth/auth.go:225-257 | with the role assigned at sign-in, the gate admits exactly the addresses on the operator list |
| `AdminApi.CatalogueView` | backend/internal/admin/admin.go:102-119 | a catalogue row carries that default task's own fields, no owner and hidden false (those columns are not selected) |
| `AdminApi.ListAdminTodos` | backend/internal/admin/admin.go:101-129 | exactly the default tasks with their own status and position, sorted, each once, and an empty array when there are none |
| `AdminApi.CatalogueListsEachDefaultOnce` | backend/internal/admin/admin.go:101-107 | a task is in the catalogue exactly when it is a default task, and no id appears twice |
| `AdminApi.NewDefaultTask` | backend/internal/admin/admin.go:165-178 | the inserted row is a pending default task without owner, created by the operator, not shared, not hidden, strictly above every default task |
| `AdminApi.NewDefaultTaskHeadsCatalogue` | backend/internal/admin/admin.go:170-178 | a new default task is first in the catalogue |
| `AdminApi.CatalogueTextChangeKeepsUserViews` | backend/internal/admin/admin.go:245-250 | editing a default task's text leaves every user's status and position for it unchanged |
| `AdminApi.TargetViews` | backend/internal/admin/admin.go:343-368 | the operator's view of a user's tasks: each default task and each shared personal task of the user, resolved through the user's overlay |
| `AdminApi.ListUserTodos` | backend/internal/admin/admin.go:326-390 | 400 for an empty user id, 404 for an unknown user; otherwise the rows above, sorted, with owner and hidden columns, no limit |
| `AdminApi.OperatorSeesWhatUserSees` | backend/internal/admin/admin.go:343-368 | the operator sees a task exactly when it is a default task or a shared task of the user; each row shows its owner and hidden flag, and apart from those it is what the user's own listing shows |
| `AdminApi.NewAssignedTask` | backend/internal/admin/admin.go:434-447 | the inserted row is pending, personal, owned by the user, created by the operator, shared, hidden as asked, strictly above every row the user owns |
| `AdminApi.AssignedTaskRules` | backend/internal/admin/admin.go:444-447 | a task assigned to someone else is listed for the operator, is not deletable by the user, and is deletable by the operator through the user endpoint |
| `AdminApi.SetHidden` | backend/internal/admin/admin.go:551-557 | the hidden flag is written when present and nothing else changes |
| `AdminApi.OperatorPatch` | backend/internal/admin/admin.go:548-588 | an accepted operator update replaces hidden flag, text and status each when present, keeping everything else |
| `AdminApi.OperatorDeleteRules` | backend/internal/admin/admin.go:631-647 | the operator may never delete a default task, another user's task or a task the user created; what the operator may delete the user may not |
| `AdminApi.AdminHandler.CreateAdminTodo` | backend/internal/admin/admin.go:145-195 | 401 without a session, 400 for invalid text, writing nothing; otherwise inserts `NewDefaultTask` and returns it with 201 |
| `AdminApi.AdminHandler.UpdateAdminTodo` | backend/internal/admin/admin.go:213-264 | 400 for an empty id or invalid non-empty text, 404, 400 for a personal task; otherwise only the text changes, to the value sent even when empty, and the catalogue row is returned |
| `AdminApi.AdminHandler.DeleteAdminTodo` | backend/internal/admin/admin.go:280-311 | 400, 404, 400 for a personal task; otherwise exactly that row is removed |
| `AdminApi.AdminHandler.CreateUserTodo` | backend/internal/admin/admin.go:407-467 | 400 for an empty user id before 401 without a session, then 400 for invalid text; otherwise inserts `NewAssignedTask` and returns it with owner set |
| `AdminApi.AdminHandler.UpdateUserTodo` | backend/internal/admin/admin.go:486-591 | 400, 404 for an unknown user or task; a default task gets the user's overlay status; a personal task gets the hidden flag first, then 403 or 400 for text the operator may not or cannot write, with the flag already written, and otherwise `OperatorPatch` |
| `AdminApi.AdminHandler.DeleteUserTodo` | backend/internal/admin/admin.go:608-661 | 400, 404, 400 for a default task, then 403 exactly when `OperatorMayDelete` fails; success removes exactly that row |
| `Auth.SplitCommas` | backend/internal/auth/auth.go:232-241 | splitting at commas gives at least one piece and no piece contains a comma |
| `Auth.SplitThenJoin` | backend/internal/auth/auth.go:232-241 | joining the pieces with commas gives back the list |
| `Auth.JoinThenSplit` | backend/internal/auth/auth.go:232-241 | splitting comma-free pieces joined with commas gives back the pieces |
| `Auth.SplitConcat` | backend/internal/auth/auth.go:234-235 | a comma separates the pieces before it from the pieces after it |
| `Auth.AdminEntries` | backend/internal/auth/auth.go:227-241 | a list has no entries exactly when it is empty |
| `Auth.DeleteWhitespace` | backend/internal/auth/auth.go:245-250 | whitespace (space, tab, LF, CR) is removed anywhere in an entry, the rest kept in order |
| `Auth.DeleteWhitespaceKeeps` | backend/internal/auth/auth.go:245-250 | an entry without whitespace is kept as it is |
| `Auth.TrimEntry` | backend/internal/auth/auth.go:245-250 | the inner loop computes `DeleteWhitespace` of the entry |
| `Auth.CollectEntries` | backend/internal/auth/auth.go:232-241 | the byte loop builds exactly `AdminEntries` of the list |
| `Auth.FindEntry` | backend/internal/auth/auth.go:244-254 | the address is found exactly when it equals some entry after whitespace removal |
| `Auth.DetermineUserRole` | backend/internal/auth/auth.go:225-257 | the role is `admin` or `user`, and `admin` exactly when the address is on the list |
| `Auth.EmptyListHasNoAdmin` | backend/internal/auth/auth_test.go:21-26 | an empty list makes everyone a user |
| `Auth.SingleEntryMatchesExactly` | backend/internal/auth/auth_test.go:27-56 | with one comma- and whitespace-free entry, the address matches exactly when it equals the entry; a longer address containing it does not |
| `Auth.LeadingCommaAddsNoEntry` | backend/internal/auth/auth.go:233-237 | a comma in front of a list adds no entry |
| `Auth.TrailingCommaAddsEmptyEntry` | backend/internal/auth/auth.go:234-235 | a trailing comma adds an empty entry, which the empty address matches |
| `Auth.SingleAddressExamples` | backend/internal/auth/auth_test.go:27-56 | the single-address cases: same address is `admin`, a different or longer one is not |
| `Auth.ListedAmongOthers` | backend/internal/auth/auth_test.go:33-38 | an address between other entries is found |
| `Auth.SpaceAfterCommaIgnored` | backend/internal/auth/auth_test.go:45-50 | a space after the separating comma does not prevent a match |
| `Auth.RuneBytes` | backend/internal/auth/auth.go:237-239 | converting a byte below 0x80 to a string keeps the byte |
| `Auth.RuneBytesOfHighByte` | backend/internal/auth/auth.go:237-239 | a byte from 0x80 up becomes two bytes, neither of them a comma or whitespace |
| `Auth.WidenGrows` | backend/internal/auth/auth.go:236-240 | an entry holding a byte from 0x80 up gets longer when the loop builds it |
| `Auth.CollectEntriesAsWritten` | backend/internal/auth/auth.go:232-241 | the byte loop as written builds the entries with every byte from 0x80 up re-encoded |
| `Auth.DetermineUserRoleAsWritten` | backend/internal/auth/auth.go:225-257 | the role as written: `admin` exactly when the address equals a re-encoded entry |
| `Auth.NonAsciiAddressNeverMatches` | backend/internal/auth/auth.go:236-240 | an entry holding a byte from 0x80 up is listed by the corrected rule but never matched as written |
| `Auth.AccentedAddressExample` | backend/internal/auth/auth.go:236-240 | the list and address `é@x` (bytes C3 A9) make an operator by the corrected rule but a user as written |
| `Auth.AsciiListsAgree` | backend/internal/auth/auth.go:225-257 | for a list of bytes below 0x80 the code as written and the corrected rule agree |

## Left out

- Sign-in, sessions and cookies (the OAuth handlers and the session table) are not part of this model. The caller's id and role are parameters; `IsAdmin` of the request context is `role == "admin"`.
- JSON decoding and encoding: a body that does not decode (400 "invalid json") is not modelled. Request fields arrive already decoded. A missing field in the user update is the empty string, and in the operator update it is `None`.
- Store failures (500) other than the reorder failures are not modelled, and neither is the `RowsAffected() == 0` branch of the deletes. After the lookup in the same request that branch cannot be reached sequentially; it needs a concurrent delete.
- Transactions, isolation and concurrent requests are not modelled: every handler runs alone. The reorder transaction is modelled by working on local copies and committing them at the end.
- Task ids (`uuid.NewString`) and clock readings (`time.Now`, `NOW()`) are parameters. A new id is assumed to collide with no row.
- Deleting a task does not delete its overlay rows here. The cascade lives in a schema file that is not part of this model; a freshly created task is assumed to have no overlay rows.
- Positions are `float64` in the source. Every position the handlers compute is an integer multiple of 1024, so positions are integers here and rounding is not modelled.
- `TodoApi.NewPersonalTask`, `TodoApi.TodoHandler.Create` and `AdminApi.NewDefaultTask`: `hidden_from_user` is not named in the inserts of `Create` (backend/internal/todo/todo.go:161-164) and `CreateAdminTodo` (backend/internal/admin/admin.go:176). The model gives it the value false, on the assumption that the column defaults to false; this decides that a new personal task appears in `List`.
- `TodoStatus.String` is the identity on the status text and has no member; statuses are plain strings throughout.
- `ListUsers`, route registration, configuration, the response helpers and the superseded ConnectRPC server are not part of this model.
- `Reordering.ReorderStep`: the status of a new overlay row written by a reorder is NULL, because the subquery at backend/internal/todo/todo.go:398 finds no row to read. Whether the store accepts that depends on whether the column is declared NOT NULL, so it is the parameter `NullStatusPolicy`.
- `AdminApi.AdminHandler.UpdateUserTodo`: the hidden flag is written before the text is checked, and it stays written when the text is refused; the update as a whole is not atomic.
- `Auth.DetermineUserRoleAsWritten`: input that is not valid UTF-8 in the address is not examined beyond byte equality.

## Findings

| source | as written | input that shows it | evidently intended | confidence | as-written member | corrected member |
|---|---|---|---|---|---|---|
| backend/internal/auth/auth.go:236-240 | each byte of the operator list is appended with `string(e)`, which converts it as a rune, so every byte from 0x80 up becomes two bytes | operator list `é@x` (bytes C3 A9 40 78) and sign-in address `é@x` | the entry keeps its bytes, so the same address is an operator | high, not executed | `Auth.DetermineUserRoleAsWritten` | `Auth.DetermineUserRole` |
