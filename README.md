# Task tracker API: the request handlers, modelled in Dafny

The service keeps tasks in one relational table (`tasks`: `taskid`, `name`,
`description`, `status`, `created_at`, `updated_at`). Five HTTP handlers in
`TasksController` do the work. They list all tasks newest first, get one by id,
create, update and delete. Each handler validates its input, runs one or two
statements against the table, maps the rows it reads back to a `TaskItem` and
turns the outcome into an HTTP response.

This project models those handlers against an abstract table instead of MySQL:

- `Controllers.TasksController` is a class. It holds the table as a
  `map<int, Row>` keyed by task id, plus the next id the store will generate.
  Each handler is a method that changes the table in place and returns a
  `Response` (`OkList`, `Ok`, `Created`, `NotFound`, `BadRequest`, `NoContent`).
  `now` is a parameter of each writing handler and stands for the database's
  `NOW()`.
- `TaskRules` holds the pure logic as functions:
  - the body validation, made in the source's order (model state, then name,
    then status);
  - the status each write path stores;
  - the response messages;
  - `MapRowToTaskItem`, with each nullable column as an `Option`.
- `Models` holds the `TaskItem` record and its property initializers, which
  fill a field that a JSON body leaves out.
- `DotNetText` holds the .NET string behaviour the handlers depend on:
  `char.IsWhiteSpace`, `IsNullOrWhiteSpace`, `IsNullOrEmpty`, `string.Join`
  and the decimal text of an `int`.
- `Wrappers` holds `Option`.

Timestamps are tick counts (`nat`), and `DateTime.MinValue` is tick 0. A NULL
scalar from `ExecuteScalarAsync<int>` becomes `default(int)`, which is 0 and
means the row does not exist (api/DataAccess/Database.cs:64-67). That is
`Controllers.ScalarOrDefault`, used by the existence check of update and
delete.

`ORDER BY created_at DESC` is modelled as a selection loop. Each step takes a
remaining row that no other remaining row was created after, picked with
`:|`. That choice leaves the order of rows with equal times unspecified, as the
query does. A NULL `created_at` sorts last, as it does in MySQL.

Three points of the handlers' behaviour are easy to misread:

- **Create and update default the status differently.** Create stores "Not
  Started" for a null or blank status (api/Controllers/TasksController.cs:97).
  Update stores `task.Status ?? "Not Started"` (line 166), which defaults
  only null. So when a body with status `""` reaches the handlers, update
  stores `""` and create stores "Not Started". `TaskRules.EmptyStatusDiffers`
  shows the difference. This happens only if model-state validation lets the
  body through (see "## Left out"). The invariant the write handlers keep,
  `TaskRules.WrittenByHandlers`, therefore allows `""` besides the three
  statuses.
- **A NULL status column maps to "", not "Not Started".** The text of a
  database NULL is the empty string, so the `?? "Not Started"` fallback at
  line 219 never applies. The model maps NULL name and status columns to "".
- **Update only stores the current time.** Update sets `updated_at = NOW()`
  (line 158) and nothing relates that to the previous value. The model says
  `updatedAt == now` and promises nothing about the earlier time.

## Model

| member | source | states |
|---|---|---|
| `DotNetText.BlankIsNotEmpty` | api/Controllers/TasksController.cs:80-86 | a non-empty whitespace-only string fails the name test (`IsNullOrWhiteSpace`) but passes the status test's emptiness check (`IsNullOrEmpty`) |
| `DotNetText.Join` | api/Controllers/TasksController.cs:88 | `string.Join` of no parts is empty; otherwise its length is the parts' lengths plus one separator between each pair of neighbours |
| `DotNetText.NatToDecimalRoundTrip` | api/Controllers/TasksController.cs:59 | the decimal text of a natural number is a non-empty string of digits whose value is that number |
| `DotNetText.IntToDecimalRoundTrip` | api/Controllers/TasksController.cs:59 | the interpolated text of every `int` id parses back to that id |
| `DotNetText.IntToDecimalInjective` | api/Controllers/TasksController.cs:59 | distinct ids have distinct decimal texts |
| `Models.BindTaskBody` | api/Models/TaskItem.cs:5-10 | a name left out of the JSON is "", a status left out is "Not Started", a left-out or null description is absent, an explicit null name or status is null, and a given string is kept for each field |
| `TaskRules.StatusChoicesMessageText` | api/Controllers/TasksController.cs:85-88 | the status error reads "Status must be one of: Not Started, In Progress, Completed", with the statuses in that order |
| `TaskRules.NotFoundMessageNamesId` | api/Controllers/TasksController.cs:59 | "Task with id {id} not found" determines the id: two ids with the same message are equal |
| `DotNetText.JoinSnoc` | api/Controllers/TasksController.cs:88 | joining one more part appends the separator and then the part, so the parts appear in order with the separator between each pair of neighbours |
| `Models.NewTaskItemDefaults` | api/Models/TaskItem.cs:3-11 | a freshly constructed task record has an empty name, no description, status "Not Started" and minimum timestamps |
| `TaskRules.NotFoundMessage` | api/Controllers/TasksController.cs:59 | the 404 message is "Task with id " + the id's decimal text + " not found", and the middle part reads back as the id (the same text at lines 150 and 197) |
| `TaskRules.StatusAccepted` | api/Controllers/TasksController.cs:85-86 | a status passes the status check exactly when it is null, "", "Not Started", "In Progress" or "Completed" |
| `TaskRules.CreateStatus` | api/Controllers/TasksController.cs:97 | create stores either the default or the given status, never a blank one, and the default for a null or empty status |
| `TaskRules.UpdateStatus` | api/Controllers/TasksController.cs:166 | update stores the default for a null status and any given status unchanged, "" included |
| `TaskRules.InsertedRow` | api/Controllers/TasksController.cs:93-104 | the inserted row carries the new id, the body's name and description, the create-path status, and `now` in both timestamps |
| `TaskRules.UpdatedRow` | api/Controllers/TasksController.cs:153-167 | the updated row keeps its id and `createdAt`, takes the body's name and description and the update-path status, and has `updatedAt == now` |
| `TaskRules.ValidateBody` | api/Controllers/TasksController.cs:75-89 | a body is accepted exactly when the model state is valid, the name is not null or whitespace-only, and the status is null, empty or one of the three |
| `TaskRules.ModelStateFirst` | api/Controllers/TasksController.cs:75-78 | an invalid model state is reported before any other check, whatever the body |
| `TaskRules.AcceptedBody` | api/Controllers/TasksController.cs:80-89 | an accepted body has a name with a non-whitespace character and a status that is null, "" or one of the three |
| `TaskRules.BlankNameRejected` | api/Controllers/TasksController.cs:80-83 | a null, empty or whitespace-only name gives "Task name is required" even when the status is also bad, because the name check runs first |
| `TaskRules.BadStatusRejected` | api/Controllers/TasksController.cs:85-89 | with a usable name, a status that is not null, not "" and not one of the three gives the message listing the three |
| `TaskRules.BlankStatusRejected` | api/Controllers/TasksController.cs:86 | a whitespace-only status is refused, because the test is `IsNullOrEmpty` and not `IsNullOrWhiteSpace` |
| `TaskRules.CreateStatusOfAcceptedBody` | api/Controllers/TasksController.cs:97 | on an accepted body, create stores one of the three statuses; it stores "Not Started" exactly when the status was null, "" or "Not Started", and otherwise the given status |
| `TaskRules.UpdateStatusOfAcceptedBody` | api/Controllers/TasksController.cs:166 | on an accepted body, update stores a given status exactly as given and "Not Started" for null; it stores "" exactly when "" was given, and otherwise one of the three |
| `TaskRules.EmptyStatusDiffers` | api/Controllers/TasksController.cs:166 | when model state is valid, a body with status "" passes the handlers' own checks; create stores "Not Started" for it and update stores "", which is not a valid status |
| `TaskRules.OmittedStatusDefaults` | api/Models/TaskItem.cs:8 | a status left out of the JSON body is stored as "Not Started" by both create and update |
| `TaskRules.OmittedNameRejected` | api/Models/TaskItem.cs:6 | when model state is valid, a name left out of the JSON body reaches the name check as "" and is refused with "Task name is required" |
| `TaskRules.TimestampOrMin` | api/Controllers/TasksController.cs:220-221 | a NULL timestamp column maps to the minimum timestamp, and a present one to its value |
| `TaskRules.MapRowToTaskItem` | api/Controllers/TasksController.cs:212-223 | the id and description are copied; the name and status are copied, or are "" when NULL; a NULL description is absent; a NULL timestamp is the minimum |
| `TaskRules.MapItemToRow` | api/Controllers/TasksController.cs:212-223 | every task record is recovered exactly from the row it is stored as |
| `TaskRules.MapRowLossless` | api/Controllers/TasksController.cs:212-223 | a row with no NULL name, status or timestamp loses nothing in the mapping |
| `TaskRules.MapRowMergesNulls` | api/Controllers/TasksController.cs:217-220 | the mapping cannot tell a NULL name or status from "", or a NULL `created_at` from the minimum timestamp |
| `TaskRules.InsertedTask` | api/Controllers/TasksController.cs:93-111 | the row inserted for an accepted body has the shape the handlers keep; read back, it has the new id, the given name and description, a valid status, and `createdAt == updatedAt == now` |
| `TaskRules.UpdatedTask` | api/Controllers/TasksController.cs:153-174 | after an update with an accepted body, the read-back record keeps the id and `createdAt`, carries the new name, description and update-path status, and has `updatedAt == now` |
| `Controllers.ScalarOrDefault` | api/DataAccess/Database.cs:64-68 | a NULL scalar reads as 0, and a present scalar reads as its value |
| `Controllers.LatestExists` | api/Controllers/TasksController.cs:26 | every non-empty set of rows has one created no earlier than all the others, so the ordered scan can always take a next row |
| `Controllers.MappedListing` | api/Controllers/TasksController.cs:29-33 | mapping an ordered listing of the rows, one row at a time, gives a listing of the tasks with the same ids, each once, latest `createdAt` first |
| `Controllers.TasksController.constructor` | api/Controllers/TasksController.cs:15-18 | the controller works on the given table and next id |
| `Controllers.TasksController.SelectById` | api/Controllers/TasksController.cs:49-57 | the lookup by id returns at most one row; it returns one exactly when the id is in the table, and that row |
| `Controllers.TasksController.CountById` | api/Controllers/TasksController.cs:144-146 | the count of rows with the id is 1 when the id is in the table and 0 otherwise |
| `Controllers.TasksController.SelectAllByCreatedDesc` | api/Controllers/TasksController.cs:26-27 | the list query returns every row of the table exactly once, with `created_at` non-increasing |
| `Controllers.TasksController.InsertAndGetId` | api/Controllers/TasksController.cs:93-106 | the insert stores the row under a fresh id not already in the table, returns that id, and leaves every other row as it was |
| `Controllers.TasksController.GetAllTasks` | api/Controllers/TasksController.cs:22-41 | the response is 200 with one mapped record per row, each id exactly once, newest first; an empty table gives an empty list |
| `Controllers.TasksController.GetTask` | api/Controllers/TasksController.cs:45-69 | the response is NotFound "Task with id {id} not found" exactly when the id is absent, and otherwise Ok with the mapped row |
| `Controllers.TasksController.CreateTask` | api/Controllers/TasksController.cs:73-119 | an invalid body gives BadRequest with the first failing check's error and leaves the table unchanged; a valid body adds exactly one row under a fresh positive id, returns Created with that row's record, and keeps every other row |
| `Controllers.TasksController.UpdateTask` | api/Controllers/TasksController.cs:123-182 | validation comes before the existence check; a missing id gives NotFound with the table unchanged; an existing id has its name, description and status replaced (status `?? "Not Started"`) and `updatedAt` set to `now`; id, `createdAt` and all other rows are kept |
| `Controllers.TasksController.DeleteTask` | api/Controllers/TasksController.cs:186-210 | a missing id gives NotFound and changes nothing; an existing id has exactly its row removed and gives NoContent |
| `Controllers.DeleteThenGet` | api/Controllers/TasksController.cs:191-204 | a GetTask for an id after DeleteTask of that id is NotFound |
| `Controllers.CreateThenGet` | api/Controllers/TasksController.cs:106-113 | GetTask on the location of a created task returns exactly the created record, with the given name, description and non-empty status |
| `Controllers.CreateInProgressThenGet` | api/Controllers/TasksController.cs:93-113 | creating {name: "A", status: "In Progress"} and reading it back gives name "A", status "In Progress" and no description |
| `Controllers.UpdateMissing` | api/Controllers/TasksController.cs:125-151 | updating a missing id never changes the table; it is NotFound exactly when the body is accepted and BadRequest exactly when it is refused |

## Left out

- Database access (api/DataAccess/Database.cs): connections, commands, data adapters, async execution and the SQL text and parameter binding. The store is modelled directly as map operations. Only the NULL-scalar-to-0 rule is kept.
- The `catch` blocks that turn an exception into a 500 response with `ex.Message`. The abstract store never fails, and the read-back `Rows[0]` always finds the row, so no server error can arise in the model.
- `ModelState.IsValid` is a boolean input, checked first. The content of the framework's model-state errors is not modelled (`ModelStateErrors`).
- `modelStateValid` is not linked to the body's fields. With nullable reference types enabled, the framework treats the non-nullable `Name` and `Status` (api/Models/TaskItem.cs:6, 8) as required. A null, empty or whitespace-only value for them may then already fail model-state validation, before the handlers' own checks run. The model leaves the flag free, so its statements about such bodies with `modelStateValid == true` describe the handlers' code, not what the framework lets through.
- The decimal text of a negative id in the 404 message assumes a culture whose negative sign is '-'. The interpolation uses the current culture, whose sign may differ.
- A request body's `TaskId`, `CreatedAt` and `UpdatedAt` are not modelled. The handlers ignore them.
- Real `DateTime` values and the resolution of MySQL's `NOW()`. Timestamps are abstract tick counts. The model does not claim that `updatedAt` increases between updates, or that `updatedAt >= createdAt` holds.
- CreateTask: does not model the `(int)` cast of the 64-bit generated id (api/Controllers/TasksController.cs:109). Ids are unbounded integers, so an id past the 32-bit range would wrap in the source but not here.
- Concurrent requests. The race between the existence check and the following update or delete is not modelled, because each handler runs alone.
- Strings are sequences of Unicode scalar values rather than UTF-16 code units. This makes no difference to the whitespace and equality tests used here. Column length limits and collation are not modelled.
- Routing, `CreatedAtAction`'s URL (only the id it names is kept), JSON serialization, configuration (api/ModelUtility/DBUtility.cs), host setup (api/Program.cs) and the browser client (client/resources/scripts/app.js). These are wiring and I/O, not handler logic.
