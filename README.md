# Employee & task management API — a Dafny model of its record store and CRUD handlers

The system is a small HTTP API over two relational tables: `user` (employees) and
`task` (tasks, optionally assigned to an employee by `assigned_to`). Each
resource has create, list, get, update and delete handlers. Tasks have one more
handler that lists the tasks assigned to an employee. This project models those
handlers, the request and response shapes they validate against, and the two
tables they read and write. It proves what the handlers promise about the
tables.

Layout, one module per source file plus two shared ones:

- `common.dfy` (`Common`): `Option`, `Result`, and a JSON body member `Member<T>`.
  A member is `Absent` or `Present(value)`, and `Present(None)` is an explicit
  `null`. The module also holds the handler error kinds `HttpError`
  (`NotFound`, `NoFields`, `Rejected`, `BadQuery`) and the merge rule `Merged`
  for one column.
- `record_store.dfy` (`RecordStore`): the store with SQL abstracted away. A table
  is a map from primary key to row, an `order` that lists each key once in natural
  (insertion) order, and the next key to hand out. `Where` is a select's WHERE
  clause and `Page` is its OFFSET/LIMIT. The lemmas say how insert, replace and
  delete change the table, and what a select on the primary key returns.
- `task_schema.dfy` / `user_schema.dfy` (`TaskSchema`, `UserSchema`): the
  create, update and response shapes, and the validation of a create body.
  Validation covers required fields, refused nulls, the `"todo"`/`"medium"`
  defaults and the email check.
- `task_model.dfy` / `user_model.dfy` (`TaskModel`, `UserModel`): the table rows.
  They give the values an INSERT and an UPDATE store: column defaults, `created_at`
  set once, and `updated_at` refreshed. `UserModel` also holds the UNIQUE
  constraint on `email`.
- `task_routes.dfy` / `user_routes.dfy` (`TaskRoutes`, `UserRoutes`): classes
  `TaskStore` and `UserStore`. Each has the table as mutable fields, and one
  method or function per route handler.

How the handlers are modelled:
- A handler's write either commits or is rolled back, leaving the fields exactly
  as they were.
- Whether the database refuses a write is not visible in the handlers. It is
  the `rejects` parameter of every write.
- For employees there is one refusal the model derives itself. A write whose
  result holds two rows with the same non-NULL email breaks the UNIQUE
  constraint: the handler computes the candidate table and checks
  `UniqueEmails` on it.
- The clock is the `now` parameter.
- Validating the body happens before a handler runs. So a handler takes the
  validated shape and `requires` whatever validation guarantees: a valid email.

Behaviour of the code worth knowing:
- Update bodies accept an explicit `null` for every field, `title` and `name`
  included (every member of `TaskUpdate`/`EmployeeUpdate` is `Optional`). No
  column is declared NOT NULL, so the store takes the NULL. The committed row
  then no longer fits the response shape (`NullTitleUpdateLosesResponse`).
- The employee create shape has six required fields.
- Nothing in the code keeps `updated_at` ≥ `created_at`. Keys are allocated by
  the database; the model's counter stands in for it and only promises a key
  that is not in the table.
- On update and delete the existence check comes first. On update it comes
  before the empty-body check.

## Model

| member | source | states |
|---|---|---|
| `Common.Apply` | backend/routes/task.py:82 | a sent member (null included) replaces the column, an absent one leaves it as it was |
| `RecordStore.Where` | backend/routes/task.py:44-47 | a select keeps only rows that satisfy its clause, and never more rows than the table has |
| `RecordStore.WhereMembers` | backend/routes/task.py:42-50 | a row is selected exactly when it is in the table and satisfies the clause |
| `RecordStore.WhereAppend` | backend/routes/task.py:42-50 | selecting distributes over concatenation, so selected rows keep table order |
| `RecordStore.Page` | backend/routes/task.py:49 | OFFSET/LIMIT returns `min(limit, max(0, n - skip))` rows, the i-th being row `skip + i` |
| `RecordStore.PagesConcatenate` | backend/routes/user.py:40 | consecutive pages concatenate into the longer page: no row skipped or repeated |
| `RecordStore.SelectByKey` | backend/models/task.py:7 | a select on the primary key yields exactly the row with that key, or nothing if the key is absent |
| `RecordStore.InsertKeepsTable` | backend/routes/task.py:13-22 | inserting under the next key uses a key not in the table, keeps the table well formed, and appends the row to natural order |
| `RecordStore.ReplaceKeepsTable` | backend/routes/task.py:82-84 | overwriting a row keeps the table well formed and changes only that row's position in natural order |
| `RecordStore.RemoveKeepsTable` | backend/routes/task.py:107-109 | deleting a row keeps the table well formed and removes exactly its position from natural order |
| `RecordStore.WithoutSplices` | backend/routes/user.py:98-100 | deleting a key from a duplicate-free order removes exactly the one position holding it |
| `TaskSchema.ParseTaskCreate` | backend/schema/task.py:6-16 | a create body validates iff it has a non-null title and no null status/priority; absent status is "todo", absent priority "medium", absent optional fields are None |
| `TaskSchema.Defaulted` | backend/schema/task.py:9-10 | a defaulted string member: absent gives the default, a value is kept, null is refused |
| `TaskSchema.Nullable` | backend/schema/task.py:11-12 | an `Optional[...] = None` member: absent and null both give None, a value is kept |
| `UserSchema.ParseEmployeeCreate` | backend/schema/user.py:6-15 | a create body validates iff all six fields are present and non-null and the email is valid; the result holds exactly those values |
| `UserSchema.Required` | backend/schema/user.py:7-12 | a required member validates iff present and non-null, with an error naming the missing or null field |
| `UserSchema.ParseEmployeeUpdate` | backend/schema/user.py:17-23 | any subset of the six fields is accepted unchanged; only a sent, non-null email that is not valid is refused |
| `TaskModel.InsertRow` | backend/models/task.py:5-15 | a new row has the given id, both timestamps set to now; sent columns take the sent value; omitted status/priority take "todo"/"medium", other omitted columns NULL |
| `TaskModel.UpdateRow` | backend/models/task.py:14-15 | an update keeps id and created_at, refreshes updated_at, overwrites the sent columns (null included) and keeps the rest |
| `TaskModel.StatusOnlyUpdate` | backend/routes/task.py:76-84 | an update that sends only `status` changes only `status` and `updated_at` |
| `UserModel.InsertRow` | backend/models/user.py:6-16 | a new row has the given id, both timestamps set to now, and the sent column values |
| `UserModel.UpdateRow` | backend/models/user.py:15-16 | an update keeps id and created_at, refreshes updated_at, overwrites the sent columns and keeps the rest |
| `UserModel.UniqueAfterWrite` | backend/models/user.py:10 | writing a row into a table with unique emails breaks uniqueness iff another row already holds its non-null email |
| `UserModel.KeptEmailStaysUnique` | backend/routes/user.py:67-75 | an update that leaves a row's email alone cannot break email uniqueness |
| `TaskRoutes.Holds` | backend/routes/task.py:45 | a comparison of a column with a value never holds when the column is NULL |
| `TaskRoutes.HoldsAll` | backend/routes/task.py:44-47 | chained `where` clauses hold of a row iff every one of them does; no clause holds of every row |
| `TaskRoutes.Select` | backend/routes/task.py:119 | a select returns at most the table's rows, only rows of the table satisfying every clause, and every such row |
| `RecordStore.InOrder` | backend/routes/user.py:40 | a select with no clause yields one row per key of the natural order, the i-th being the row under the i-th key |
| `RecordStore.Without` | backend/routes/task.py:107 | a DELETE on the key leaves in the order exactly the other keys, and never more of them |
| `UserModel.UniqueEmails` | backend/models/user.py:10 | the UNIQUE email constraint holds iff any two rows with the same non-NULL email are the same row; a table of NULL emails meets it |
| `UserSchema.IsValidEmail` | backend/schema/user.py:8 | an accepted email contains `@`, has at least three characters, and neither starts nor ends with `@` |
| `UserSchema.EmailAcceptable` | backend/schema/user.py:19 | an update email is accepted when absent or null, and when sent with a value iff that value is a valid email |
| `UserRoutes.EmailClash` | backend/routes/user.py:73-75 | an update without an email (absent or null) never clashes; a clash means another row already holds the sent email |
| `TaskRoutes.TaskCreateValues` | backend/routes/task.py:13-20 | the insert sets all six columns, and re-validating them gives back the create body |
| `TaskRoutes.AsTaskResponse` | backend/schema/task.py:28-31 | a row fits the `Task` response iff title, status and priority are non-NULL; the response carries every column plus id and timestamps |
| `TaskRoutes.CreatedTaskAnswersBody` | backend/routes/task.py:13-28 | reading back a created task answers with exactly the submitted fields, the new id and the insert time |
| `TaskRoutes.NullTitleUpdateLosesResponse` | backend/schema/task.py:19-20 | an update with an explicit null title is a non-empty update whose row no longer fits the response shape |
| `TaskRoutes.FiltersConjoin` | backend/routes/task.py:44-47 | status and priority filters together select exactly the rows matching both |
| `TaskRoutes.ListedRowsPassFilters` | backend/routes/task.py:42-51 | every listed task is in the table and matches each given, non-empty filter |
| `TaskRoutes.FifteenRowsPaged` | backend/routes/task.py:49 | on 15 selected rows the first default page has 10 rows, the next has the remaining 5, and together they are the whole result |
| `TaskRoutes.TaskStore.SelectId` | backend/routes/task.py:57-58 | a select on `id` returns the one row with that key or nothing |
| `TaskRoutes.TaskStore.CreateTask` | backend/routes/task.py:9-31 | on success: exactly one row added under a fresh id, holding the submitted fields and returned, appended to natural order; on rejection: Rejected, table unchanged |
| `TaskRoutes.TaskStore.ListTasks` | backend/routes/task.py:34-51 | skip < 0 or limit outside 1..100 (defaults 0, 10) is BadQuery; else the `[skip, skip+limit)` slice of the filtered rows in table order, with length `min(limit, max(0, n - skip))` |
| `TaskRoutes.TaskStore.GetTask` | backend/routes/task.py:54-63 | returns the row with that id iff it exists, otherwise NotFound |
| `TaskRoutes.TaskStore.UpdateTask` | backend/routes/task.py:66-93 | NotFound on a missing id (even with an empty body), then NoFields on an empty body, then Rejected on a refused write, all without change; otherwise only the sent fields of that row change, updated_at is refreshed and every other row is unchanged |
| `TaskRoutes.TaskStore.DeleteTask` | backend/routes/task.py:96-113 | NotFound on a missing id; Rejected leaves the table unchanged; otherwise exactly that row is removed from the table and natural order, and its id is returned |
| `TaskRoutes.TaskStore.ListUserTasks` | backend/routes/task.py:116-121 | exactly the tasks whose `assigned_to` equals the id, in table order; never an error |
| `UserRoutes.EmployeeCreateValues` | backend/routes/user.py:13-20 | the insert sets all six columns, and re-validating them gives back a valid create body |
| `UserRoutes.AsEmployeeResponse` | backend/schema/user.py:25-28 | a row fits the `Employee` response iff no column is NULL and the email is valid; the response carries every column plus id and timestamps |
| `UserRoutes.CreatedEmployeeAnswersBody` | backend/routes/user.py:13-28 | reading back a created employee answers with exactly the submitted fields, the new id and the insert time |
| `UserRoutes.UserStore.GetUser` | backend/routes/user.py:45-54 | returns the row with that id iff it exists, otherwise NotFound |
| `UserRoutes.UserStore.ListUsers` | backend/routes/user.py:34-42 | skip < 0 or limit outside 1..100 (defaults 0, 10) is BadQuery; else `min(limit, max(0, n - skip))` employees, the i-th being row `skip + i` in natural order |
| `UserRoutes.UserStore.CreateUser` | backend/routes/user.py:9-31 | an email another employee already holds, or a refused write, gives Rejected with nothing added; otherwise one row with a fresh id and the six submitted fields is added and returned; unique emails preserved |
| `UserRoutes.UserStore.UpdateUser` | backend/routes/user.py:57-84 | NotFound before NoFields, neither changing the store; an email held by another employee, or a refused write, gives Rejected without change; otherwise only the sent fields of that row change and updated_at is refreshed |
| `UserRoutes.UserStore.DeleteUser` | backend/routes/user.py:87-104 | NotFound on a missing id; Rejected leaves the table unchanged; otherwise exactly that row is removed, its id returned, and a later get is NotFound |

## Left out

- Row order is an assumption of the model. The selects have no ORDER BY
  (backend/routes/task.py:42-49, backend/routes/user.py:40), so the contracts
  of `TaskRoutes.TaskStore.ListTasks` and `UserRoutes.UserStore.ListUsers`
  ("in table order"), of `TaskRoutes.TaskStore.CreateTask` and
  `UserRoutes.UserStore.CreateUser` ("appended") and `RecordStore.PagesConcatenate`
  hold only for a database that scans rows in a stable insertion order.
- A failure after `commit()` is not modelled. The read-back of the new or
  updated row sits in the same `try` as the commit
  (backend/routes/task.py:22-31, backend/routes/user.py:22-31). A failure there
  answers 400 while the committed row stays, since the rollback after a commit
  undoes nothing. The `rejects` parameter covers only refusals before the commit.
- The HTTP surface is not modelled: app construction, CORS, router prefixes,
  table creation and the static root payload in `backend/index.py`. It is
  configuration with no logic.
- The database connection is replaced by the map-based tables. That covers
  `execute`, `commit`, `rollback`, `lastrowid` and row `_mapping`. The model
  allocates keys with a counter, and the only property the handlers rely on is
  that a new key is fresh.
- Refusals by the database other than the unique email are not derived. A
  foreign key enforced by some backends, length limits and type errors all
  become the `rejects` parameter.
- The foreign key `assigned_to` → `user.id` is not an invariant, because whether
  it is enforced depends on the backend. So deleting an employee can leave tasks
  that point to them.
- Handlers run one request at a time. The async handlers and the single shared
  connection are left out.
- `datetime.utcnow` is the `now` parameter. The two timestamp defaults of an
  insert are read as one clock value, and nothing assumes the clock is monotone.
- `IsValidEmail` approximates `EmailStr`: one `@` with a non-empty part on each
  side. The full address grammar and Pydantic's normalisation of the address are
  not modelled.
- Column lengths (`String(255)`, `String(1000)`) are left out, because whether
  they are enforced depends on the database.
- Error detail text (`str(e)`), JSON serialisation and exact status codes are
  left out.
- Type-coercion failures in validation are left out, because the validated types
  are the model's own types.
- Response validation is modelled as `AsTaskResponse` and `AsEmployeeResponse`, separately from the handlers.
  The handlers return the stored rows. When a row does not fit the response
  shape, the framework's error after the commit is not modelled.
