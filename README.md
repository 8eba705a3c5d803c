# Eisenhower matrix service — a verified model

The service stores shared *Eisenhower matrices*. A matrix is a workspace with an
opaque text id. It owns *labels*, whose names are unique within the matrix, and
*tasks*. Each task sits in one of four quadrants and carries any number of the
matrix's labels. The HTTP interface creates and fetches matrices. It also lists,
creates, updates and deletes labels and tasks, and answers "not found" (404) or
"conflict" (409) on failure. A single-page client shows one matrix per URL
`/matrix/<id>`.

The model has seven modules:

- `Results` (`results.dfy`) holds the three wrapper types:
  - `Option`;
  - the three-way `Patch`: left out, null, or a value;
  - `Outcome`: a value, `NotFound` or `Conflict`.
- `Models` (`models.dfy`) holds the three tables, the task–label association
  as a set of pairs, and the whole database as one `Db` value. `Valid` gathers
  the schema's integrity rules: primary keys, foreign keys, the per-matrix
  unique label name, positive row ids, and `created_at <= updated_at`. It also
  holds the rule that picks a new row's id, and the cascade that deleting a
  matrix performs.
- `Schemas` (`schemas.dfy`) holds the request payloads and response views. It also
  says what a partial update does to a stored row.
- `RouteSpec` (`route_spec.dfy`) describes each route handler as a function. The
  function maps the database before the request to the database after it and
  the answer. Lemmas state the handlers' rules: error order, all-or-nothing
  writes, what changes, and what stays.
- `Routes` (`routes.dfy`) holds the handlers as imperative methods of a `Store`
  object whose fields are the tables. Each method is proved to end in the
  state, and with the answer, that the matching `RouteSpec` function gives.
  Each method also keeps `Valid`.
- `App` (`app.dfy`) holds the client's pure helpers:
  - the quadrant name-to-key map;
  - the quadrant filter;
  - the label-selection toggle;
  - reading the matrix id from the path;
  - the checks made before a label or task create request.
- `Scenario` (`scenario.dfy`) walks one matrix through label creation, a
  duplicate, a tagged task, label deletion and matrix deletion.

Timestamps are readings of an abstract clock (`nat`). Every mutating handler
receives the current reading `now`, which must not be earlier than the last one.
A row's `updated_at` moves to `now` only when one of its column values actually
changes. The ORM issues no UPDATE for an unchanged row, so its on-update default
does not run. A failed request writes nothing: every check happens before the
first commit, and the session is closed without committing.

Label and task ids are SQLite row ids. The id columns are integer primary keys
without the AUTOINCREMENT keyword, so a new row gets one more than the largest id
in its table, or 1 when the table is empty. The id of a deleted row is therefore
given out again when no larger id is present.

## Model

| member | source | states |
|---|---|---|
| Models.EmptyDb | backend/src/models.py:11-59 | A freshly created database has empty tables and no association pairs. It satisfies every integrity rule of the schema. |
| Models.NextRowid | backend/src/models.py:31 | The id given to a new row is above every id present, so it is fresh. It is 1 for an empty table, and otherwise one more than an id present. |
| Models.NextRowidUnique | backend/src/models.py:31 | These two facts determine the new id: it is the only value above every id present that is 1 or one more than a present id. |
| Models.DeleteMatrixCascades | backend/src/models.py:25-26 | Deleting a matrix removes every label and task it owns, and every association pair touching them. Every other matrix, label and task survives unchanged. Every surviving task keeps exactly its labels, and the integrity rules still hold. |
| Schemas.SharableLink | backend/src/routes.py:31 | The link is the fixed prefix `https://example.com/matrix/` followed by the matrix id. |
| Schemas.SharableLinkInjective | backend/src/routes.py:31 | Two matrices with the same link have the same id. |
| Schemas.ApplyLabelUpdate | backend/src/routes.py:95-106 | A label update sets `name` and `color` only where a value is given; None keeps the field. Id, owner and creation time never change. If neither value changes, the row is left exactly as it was, `updated_at` included. If either changes, `updated_at` becomes `now`. |
| Schemas.ApplyTaskUpdate | backend/src/routes.py:172-186 | A task update changes only the fields it sends; a null description clears it. Id, owner and creation time never change. If no column value changes, the row is left exactly as it was, `updated_at` included. If any changes, `updated_at` becomes `now`. |
| Schemas.ApplyLabelUpdateIdempotent | backend/src/routes.py:95-106 | Applying the same label update twice at the same time is the same as applying it once. |
| Schemas.ApplyTaskUpdateIdempotent | backend/src/routes.py:172-186 | Applying the same task update twice at the same time is the same as applying it once. |
| RouteSpec.Touch | backend/src/routes.py:17-21 | The intended timestamp helper sets the matrix's `updated_at` to `now`. It leaves an absent matrix, and every other row, as they were. |
| RouteSpec.TouchAsWritten | backend/src/routes.py:17-21 | The helper as written leaves the matrix's `updated_at` unchanged. |
| RouteSpec.TouchAsWrittenMissesChildChange | backend/src/routes.py:17-21 | A matrix is created at time 1 and labelled at time 2. The label handler with the helper as written stores the same label as with the intended helper, but the matrix still shows `updated_at` 1 instead of 2. |
| RouteSpec.TouchPreservesValid | backend/src/routes.py:17-21 | Touching keeps every integrity rule. The matrix's `updated_at` never decreases. |
| RouteSpec.CreateMatrixResult | backend/src/routes.py:24-37 | A new matrix has a fresh id and is stored as created and updated at `now`. Every other matrix is unchanged. It starts with no labels and no tasks. Its link embeds the id. |
| RouteSpec.CreateLabelResult | backend/src/routes.py:65-80 | NotFound exactly when the matrix is absent, which is checked first. Conflict exactly when the matrix already has a label of that name. Otherwise exactly one label is added, with the payload's fields and the id one above the largest label id present (1 in an empty table). Only that matrix's `updated_at` changes, to `now`. On failure nothing changes. |
| RouteSpec.InsertedLabelKeepsValid | backend/src/models.py:43 | A new label under an existing matrix, with a fresh positive id and a name that is free in that matrix, keeps every integrity rule. |
| RouteSpec.InsertedLabelOfMatrix | backend/src/routes.py:75-78 | Adding a label gives its matrix exactly one more label. |
| RouteSpec.SecondLabelWithSameNameConflicts | backend/src/routes.py:71-73 | Creating a second label with the same name in the same matrix gives Conflict. |
| RouteSpec.SameNameInTwoMatrices | backend/src/models.py:43 | A name free in two matrices can be given to one label in each. |
| RouteSpec.UpdateLabelResult | backend/src/routes.py:89-111 | NotFound exactly when the label is not under that matrix. Conflict exactly when a different label of the matrix has the new name. Otherwise only that label changes, as the partial update says, and only that matrix's `updated_at` changes, to `now`. On failure nothing changes. |
| RouteSpec.RenameToOwnNameSucceeds | backend/src/routes.py:96-100 | Renaming a label to its own current name succeeds. |
| RouteSpec.DeleteLabelResult | backend/src/routes.py:113-128 | NotFound exactly when the label is not under that matrix. Otherwise the label and exactly the association pairs naming it go, every task loses only that label, and only that matrix's `updated_at` changes, to `now`. |
| RouteSpec.CreateThenDeleteLabel | backend/src/routes.py:65-128 | Creating a label and then deleting it restores the labels, tasks and associations of before. |
| RouteSpec.DeletedLabelIdIsReused | backend/src/models.py:31 | After a label is created and deleted again, the next label created in that matrix, if one is, gets the same id. |
| RouteSpec.PairsLabels | backend/src/routes.py:140-144 | The pairs attached for a list of label ids are exactly the task paired with each id in the list. |
| RouteSpec.ReplacedLabelIds | backend/src/routes.py:177-184 | After a task's pairs are replaced by a list, its labels are exactly the list. Every other task keeps its labels. |
| RouteSpec.CreateTaskResult | backend/src/routes.py:131-155 | NotFound exactly when the matrix is absent or some requested id is not a label of this matrix; the store is then unchanged. Otherwise one task is added, with the payload's fields, exactly the requested labels (none when `label_ids` is left out or null), and the id one above the largest task id present (1 in an empty table). Other tasks keep their labels, and only that matrix's `updated_at` changes, to `now`. |
| RouteSpec.UpdateTaskResult | backend/src/routes.py:166-194 | NotFound when the task is not under the matrix, or a sent label id is not a label of this matrix; nothing then changes. Otherwise only that task's columns change, as the update says. A left-out `label_ids` keeps the associations. Null clears them. A list makes the labels exactly the list. Other tasks keep their labels, and only that matrix's `updated_at` changes, to `now`. |
| RouteSpec.DeleteTaskResult | backend/src/routes.py:196-205 | NotFound exactly when the task is not under the matrix. Otherwise the task and exactly its association pairs go, every label stays, and only that matrix's `updated_at` changes, to `now`. |
| RouteSpec.CreateThenDeleteTask | backend/src/routes.py:131-205 | Creating a task and then deleting it restores the tasks, labels and associations of before. |
| RouteSpec.DeletedTaskIdIsReused | backend/src/models.py:48 | After a task is created and deleted again, the next task created in that matrix, if one is, gets the same id. |
| Routes.Store.constructor | backend/src/routes.py:12 | The store starts as the empty database. |
| Routes.Store.TouchMatrix | backend/src/routes.py:17-21 | The store's state becomes the intended touch of the old state. |
| Routes.Store.FreshMatrixId | backend/src/models.py:21 | The chosen matrix id is not in use. |
| Routes.Store.LabelList | backend/src/routes.py:87 | The list holds every label of the matrix exactly once, and nothing else. |
| Routes.Store.TaskView | backend/src/routes.py:193 | The view shows the stored task with its full label records, each exactly once. |
| Routes.Store.TaskList | backend/src/routes.py:163 | The list shows every task of the matrix exactly once, each with its labels, and nothing else. |
| Routes.Store.CreateMatrix | backend/src/routes.py:24-37 | The new state and the answer are those of `RouteSpec.CreateMatrix` for a fresh id. |
| Routes.Store.GetMatrixDetails | backend/src/routes.py:39-62 | NotFound exactly when the matrix is absent. Otherwise the detail holds its timestamps, all its labels and all its tasks with their labels. It never answers Conflict. |
| Routes.Store.CreateLabel | backend/src/routes.py:65-80 | The new state and the answer are those of `RouteSpec.CreateLabel`. |
| Routes.Store.GetLabels | backend/src/routes.py:82-87 | NotFound exactly when the matrix is absent; otherwise exactly its labels. |
| Routes.Store.UpdateLabel | backend/src/routes.py:89-111 | The new state and the answer are those of `RouteSpec.UpdateLabel`. |
| Routes.Store.DeleteLabel | backend/src/routes.py:113-128 | The new state and the answer are those of `RouteSpec.DeleteLabel`. |
| Routes.Store.ResolveLabels | backend/src/routes.py:140-146 | The loop over the ids succeeds exactly when every id is a label of the matrix. It then yields exactly the pairs to attach. |
| Routes.Store.CreateTask | backend/src/routes.py:131-155 | The new state is that of `RouteSpec.CreateTask`, and the answer is the new task shown with its labels. |
| Routes.Store.GetTasks | backend/src/routes.py:157-164 | NotFound exactly when the matrix is absent; otherwise exactly its tasks with their labels. |
| Routes.Store.UpdateTask | backend/src/routes.py:166-194 | The new state is that of `RouteSpec.UpdateTask`, and the answer is the updated task shown with its labels. |
| Routes.Store.DeleteTask | backend/src/routes.py:196-205 | The new state and the answer are those of `RouteSpec.DeleteTask`. |
| Routes.Store.DeleteMatrix | backend/src/models.py:25-26 | The new state is the cascade delete of the old one. |
| Routes.PatchTask | backend/src/routes.py:174-186 | Writing the sent fields onto the row one at a time gives `Schemas.ApplyTaskUpdate`. |
| Routes.NextRowidOf | backend/src/models.py:31 | One pass over the ids present finds the id the database gives the next row. |
| App.KeyFor | frontend/src/App.js:39-44 | A name has a key exactly when it is one of the four quadrant headings, and each heading has its quadrant's key. |
| App.KeyForInjective | frontend/src/App.js:39-44 | Different headings map to different keys. |
| App.QuadrantOf | frontend/src/App.js:357 | The reverse lookup finds the quadrant whose key it is given, or reports that no quadrant has that key. |
| App.QuadrantRoundTrip | frontend/src/App.js:39-44 | Looking a heading's key back up gives the heading's quadrant. |
| App.TasksForQuadrant | frontend/src/App.js:193-195 | A task is listed under a heading exactly when it is in the list and its key is that heading's key. |
| App.TasksForQuadrantAppend | frontend/src/App.js:193-195 | The filter keeps the original order: filtering a concatenation concatenates the filtered parts. |
| App.QuadrantsPartition | frontend/src/App.js:193-195 | Every task is listed under exactly the quadrant its key names, and under none if its key is not one of the four. |
| App.Without | frontend/src/App.js:230 | Deselecting an id leaves exactly the other selected ids and never lengthens the list. |
| App.WithoutAppend | frontend/src/App.js:230 | Removal keeps the order of what remains: removing from a concatenation concatenates the removals from each part. |
| App.WithoutAbsent | frontend/src/App.js:230 | Deselecting an id that is not selected changes nothing. |
| App.WithoutAppended | frontend/src/App.js:240-241 | Removing an id that was just appended to a list without it gives the list back. |
| App.WithoutDistinct | frontend/src/App.js:240 | Removing an id keeps the selection free of repeats. |
| App.Toggle | frontend/src/App.js:237-243 | A selected id is removed entirely, and the other ids stay. An unselected id is appended at the end. |
| App.ToggleTwice | frontend/src/App.js:237-243 | Toggling an unselected id twice restores the selection. |
| App.ToggleDistinct | frontend/src/App.js:237-243 | Toggling never creates a repeated id, so the `label_ids` the client sends have no repeats. |
| App.Split | frontend/src/App.js:90 | Splitting always gives at least one part, and no part contains the separator. Joining the parts back gives the input. |
| App.SplitJoin | frontend/src/App.js:90 | Splitting a join of separator-free parts gives the parts back. |
| App.PathFor | frontend/src/App.js:122 | The path for a new matrix has `/matrix/` as its prefix and the id as the rest, so both read back from it. |
| App.IdFromPath | frontend/src/App.js:90-93 | An id read from the path is non-empty and contains no `/`. |
| App.IdFromPathExact | frontend/src/App.js:90-93 | The path yields exactly `id` iff it is a `/`-free segment, then `/matrix/`, then `id`, with `id` non-empty and `/`-free. |
| App.PathRoundTrip | frontend/src/App.js:122 | The path written after creating a matrix reads back as that matrix's id. |
| App.Trim | frontend/src/App.js:198 | The result is the slice of the input left after removing white space from both ends: only white space lies outside the slice, and the slice is empty or starts and ends with a non-space. |
| App.TrimBlank | frontend/src/App.js:136 | A string trims to nothing exactly when every character of it is white space. |
| App.TrimIdempotent | frontend/src/App.js:199 | Trimming twice is trimming once. |
| App.LowerChar | frontend/src/App.js:199-200 | Each ASCII capital becomes the small letter 32 code points above it. Every other character is kept, and no capital is left. `Lower` applies this to each character. |
| App.LowerEqualIgnoringCase | frontend/src/App.js:199-200 | Two names are equal after lower-casing exactly when they have the same length and agree letter by letter up to ASCII case. |
| App.LowerIdempotent | frontend/src/App.js:199-200 | Lower-casing twice is lower-casing once. |
| App.LabelToCreate | frontend/src/App.js:197-208 | No request is made when the trimmed name is empty, or equals an existing label's name up to case. Otherwise the trimmed name is sent with no color. |
| App.ClientCheckedNameIsFree | frontend/src/App.js:198-203 | When the client's label list is the server's, a name the client sends is never taken, so the server cannot answer Conflict. |
| App.ClientStricterThanServer | frontend/src/App.js:198-203 | With "Work" on screen, "work" is refused by the client although the server would accept it. |
| App.TaskToCreate | frontend/src/App.js:134-142 | No request is made when the title is all white space. Otherwise the title is sent as typed, with an empty description, the chosen quadrant's key and the selected ids. |
| App.CreatedTaskShowsInQuadrant | frontend/src/App.js:134-142 | A task the client creates is stored with its quadrant's key. The next task list of the matrix shows it under that quadrant. |
| App.MoveUpdate | frontend/src/App.js:189-191 | Moving a task sends only a quadrant, and that is the key of the heading it was dropped on. Nothing is sent when the heading has no key. |
| App.MovedTaskShowsInQuadrant | frontend/src/App.js:189-191 | A moved task keeps its title, description and labels and is stored with the new quadrant's key. The next task list of the matrix shows it under the new quadrant. |
| Scenario.OneLabel | backend/src/routes.py:24-80 | A new matrix gets a label "Work" with color "#FF0000", and as the first label of the table it gets id 1. |
| Scenario.Duplicate | backend/src/routes.py:71-73 | A second "Work" label in the matrix gives Conflict and changes nothing. |
| Scenario.TaggedTask | backend/src/routes.py:131-155 | A task created with the label's id is shown with exactly that label. |
| Scenario.DropLabel | backend/src/routes.py:113-128 | After its only label is deleted, the task is shown with no labels. |
| Scenario.Walkthrough | backend/src/routes.py:24-205 | From an empty store: the duplicate gives Conflict, and the task carries the label until it is deleted. Once the matrix is deleted, fetching it gives NotFound. |

## Left out

- The application set-up (`backend/src/main.py`) is framework wiring and is not part of this model. So are the engine, session and per-request session handling (`backend/src/database.py`).
- Request validation that rejects a wrongly typed payload before a handler runs (HTTP 422) is not modelled. Nor are HTTP status codes and error detail texts beyond NotFound and Conflict.
- ORM mechanics are not modelled: eager loading, refresh, expire and table creation.
- The order of rows in a list answer is unspecified in the source, because the queries have no ORDER BY. The model reads rows in ascending id order and specifies lists only as "each row exactly once".
- Real clock readings and UUID generation are not modelled. The clock is a parameter, and `FreshMatrixId` picks a string longer than every id in use instead of a random UUID.
- Integer ids are unbounded. The 64-bit limit of the database's integers is not modelled, and neither is the random id SQLite picks once the largest id has reached that limit.
- Concurrency is not modelled. Requests are taken one at a time, each as one transaction.
- RouteSpec.CreateTask: with a label id repeated in `label_ids`, the model stores the pair once and answers Ok. The source appends the label twice, so its commit may insert the same association pair twice, which the pair's primary key rejects with an error the handler does not catch. Whether it does depends on the ORM's flush order, so this error path is not modelled.
- RouteSpec.CreateTaskResult: promises Ok for a repeated label id for the same reason as `RouteSpec.CreateTask`.
- RouteSpec.UpdateTaskResult: promises Ok for a label id repeated in a sent list, for the same reason.
- Routes.Store.CreateTask: stores a repeated label id once, as `RouteSpec.CreateTask` does.
- Routes.Store.UpdateTask: stores a repeated label id once, as `RouteSpec.UpdateTask` does. It also requires that `title` and `quadrant` are not sent as explicit nulls, which would break the columns' not-null constraint at commit.
- RouteSpec.UpdateTask: carries the same not-null requirement on `title` and `quadrant` as `Routes.Store.UpdateTask`. It also stores a repeated label id once, as `RouteSpec.CreateTask` does.
- The store and every `RouteSpec` function use the intended timestamp helper, `RouteSpec.Touch`, rather than the helper as written; see Findings.
- A label's color cannot be cleared through an update, because None means "leave unchanged". The model keeps this behaviour of the source.
- The source has no endpoint that deletes a matrix. `Routes.Store.DeleteMatrix` models only the cascade the schema declares.
- App.Lower: maps only the ASCII capitals A–Z. The browser's lower-casing covers all of Unicode, so names that differ only in non-ASCII case are treated as different.
- App.LabelToCreate: leaves out the check that a matrix is open.
- App.TaskToCreate: leaves out the check that a matrix is open, for the same reason.
- Rendering, `fetch` calls, polling, browser history updates, alerts, error messages and React state handling in the client are UI, network and timer code, and are not modelled.

## Findings

| source | as written | input that shows it | evidently intended | confidence | as-written member | corrected member |
|---|---|---|---|---|---|---|
| backend/src/routes.py:17-21 | The helper commits a session in which the matrix row has no pending change. No UPDATE is issued for the matrix, so the on-update default of `updated_at` (backend/src/models.py:23) never runs. | Create a matrix at time 1, then a label under it at time 2: the matrix still shows `updated_at` = 1. | Every successful label or task mutation moves the owning matrix's `updated_at` to the current time. | not executed | RouteSpec.TouchAsWritten | RouteSpec.Touch |
