# Project tracker table: a Dafny model

The tracker keeps one table of projects. Each project is a flat row of text
cells: four metadata columns (`id`, `name`, `problem`, `created_at`), then a
status column and a deadline column for each of eight fixed workflow steps,
named `"<step>_status"` and `"<step>_deadline"`. This model covers three
parts of the backend:

- how the header is built;
- the create handler, which appends a row with default cells;
- the update handler, which patches one step of the first row with a given id.

The modules:

- `Decimal` (`decimal.dfy`): Python's `str` on non-negative integers, used to
  make ids. It proves a parse round trip, so distinct counts give distinct ids.
- `Layout` (`columns.dfy`): the step list, the header (`Columns`), and the loop
  that builds the header (`BuildColumns`). It also proves that the key names
  stay apart: status keys are injective, deadline keys are injective, no
  status key is a deadline key, and no step key is a metadata key.
  - Most facts are proved for any step list that is `WellChosen`. They are
    then applied to the eight real steps.
- `Records` (`records.dfy`): the two handlers as pure functions on the table.
  - `NewRecord` and `AddProject` for creation; `NewRecord` is defined cell by
    cell from the column name.
  - `Patch`, `FirstIndexOf` and `UpdateTable` for update.
  - Lemmas that state what these promise and which table invariants they keep.
- `ProjectStore` (`store.dfy`): the class `ProjectTable`, whose `projects`
  field is the list of rows. Its `Add` and `Update` methods do the work the
  way the handlers do: an entry-by-entry fill loop, and a scan loop that
  stops at the first match. Both are proved equal to the pure functions.

A request body is a `map<string, string>`. The response of an update is
`Ok` (the 200 answer) or `NotFound` (the 404 answer).

Facts about the handlers that shape the model:

- a new project's id is `str(len(projects) + 1)` (app.py:59);
- every row is flat: one cell per header column (app.py:24-27, 60);
- a patch names its step with the `step` key, by the step's name
  (app.py:92-93);
- there is no delete handler, so ids are only ever added;
- a successful update answers `{"success": true}` (app.py:103).

## Model

| member | source | states |
|---|---|---|
| Decimal.DecimalString | app.py:59 | `str(n)`: non-empty, all decimal digits, a leading `0` only for zero |
| Decimal.ParseDecimalString | app.py:59 | reading the decimal string back gives the number, so the rendering loses nothing |
| Decimal.DecimalStringInjective | app.py:59 | different row counts give different id strings |
| Layout.Columns | app.py:12-27 | the header has 20 entries: `id, name, problem, created_at`, then for step j its status column at 4+2j and its deadline column at 5+2j |
| Layout.StepColumns | app.py:25-27 | the per-step part of the header: 2 entries per step, step j's status column at 2j and its deadline column at 2j+1 |
| Layout.ColumnsOf | app.py:24-27 | the header for a step list: 4 + 2·(number of steps) entries, the metadata prefix, then each step's two columns in order. `Layout.STEPS` (app.py:12-21) is the step list it is applied to; `Layout.StepsWellChosen` states what the model uses about it |
| Layout.StatusKey | app.py:26 | `f"{step}_status"`; what it promises is stated by `StatusKeyInjective`, `StatusNotDeadline` and `StatusKeyEnds` |
| Layout.DeadlineKey | app.py:27 | `f"{step}_deadline"`; what it promises is stated by `DeadlineKeyInjective`, `StatusNotDeadline` and `DeadlineKeyEnds` |
| Layout.BuildColumns | app.py:24-27 | starting from the metadata columns and appending each step's status then deadline column yields exactly the header |
| Layout.ColumnsDetermined | app.py:24-27 | any list with the header's length, metadata prefix and per-step entries is the header |
| Layout.StepsWellChosen | app.py:12-21 | the eight steps start with "Project Name" and "Problem Statement", are pairwise distinct and at least four characters long |
| Layout.StatusKeyInjective | app.py:26 | two steps have the same status column only if they are the same step |
| Layout.DeadlineKeyInjective | app.py:27 | two steps have the same deadline column only if they are the same step |
| Layout.StatusNotDeadline | app.py:26-27 | no status column is a deadline column |
| Layout.StepKeysApart | app.py:24-27 | for a well-chosen step list, the status (deadline) columns of steps i and j coincide iff i == j, and a status column never equals a deadline column |
| Layout.StepKeyFacts | app.py:24-27 | every step's columns are in the header and are not metadata columns |
| Layout.MetaInColumns | app.py:24 | the four metadata columns are in the header |
| Layout.ColumnCases | app.py:24-27 | every header column is a metadata column or a status or deadline column of some step |
| Layout.ColumnsOfDistinct | app.py:24-27 | for a well-chosen step list, no column name occurs twice in the header |
| Layout.ColumnsDistinct | app.py:12-27 | the 20 header names are pairwise distinct |
| Records.Get | app.py:65-67 | `data.get(key, default)`; used by the metadata cells stated in `NewRecordOfMeta` and `NewRecordFields` |
| Records.InitialValue | app.py:60-77 | the initial cell of a column; `InitialStepValues` and `NewRecordOfMeta` state its values on every header column |
| Records.NewRecordOf | app.py:59-77 | the new record for a step list; its content is stated by `NewRecordOfFields`, and `NewRecordOfDetermined` is the converse |
| Records.NewRecord | app.py:59-77 | the new record for the eight steps; its content is stated by `NewRecordFields` |
| Records.AddProjectOf | app.py:79 | appending the new record; stated by `AddProjectOfShape`, `AddProjectOfWellFormed` and `AddProjectOfSequential` |
| Records.AddProject | app.py:79 | the table after a create request; stated by `AddProjectKeeps` |
| Records.AddAll | app.py:79 | a run of create requests; stated by `AddAllKeepsSequential` and `AddAllFromEmpty` |
| Records.Patch | app.py:92-97 | the patch of one row; stated by `PatchFields` and `PatchIdempotent` |
| Records.WellFormedHasIds | app.py:24 | a row with every header column has an `id` cell |
| Records.SequentialIdsDistinct | app.py:59 | in a table whose row i has id `str(i + 1)`, no two rows share an id |
| Records.StatusKeyEnds | app.py:26 | a status column ends in `_status` and not in `_deadline` |
| Records.DeadlineKeyEnds | app.py:27 | a deadline column ends in `_deadline` and not in `_status` |
| Records.InitialStepValues | app.py:71-77 | step j starts with status "Completed" for the first two steps and "Not Started" otherwise, and with deadline "No Deadline" |
| Records.NewRecordOfId | app.py:59-64 | a new record has exactly the header's columns and the id `str(count + 1)` |
| Records.NewRecordOfMeta | app.py:60-68 | a new record has exactly the header's columns, the id `str(count + 1)`, `name` = `projectName` or "Untitled", `problem` = `problemStatement` or "", `created_at` = `createdAt` or "" |
| Records.NewRecordOfStep | app.py:71-77 | step j's two cells are present, with the initial status and "No Deadline" |
| Records.NewRecordOfFields | app.py:59-77 | for any well-chosen step list, a new record has exactly the header's keys, the metadata above, the first two statuses "Completed", the others "Not Started", and every deadline "No Deadline" |
| Records.NewRecordFields | app.py:59-77 | the same for the eight real steps |
| Records.MetaCellDetermined | app.py:60-68 | a record laid out like a new record agrees with it on every metadata cell |
| Records.StepCellDetermined | app.py:71-77 | a record laid out like a new record agrees with it on both cells of every step |
| Records.NewRecordOfDetermined | app.py:60-77 | conversely, a record with exactly the header's keys holding those values is the new record |
| Records.AddProjectOfShape | app.py:57-79 | creation appends one row with id `str(len + 1)`, keeps every earlier row, and keeps every row holding an id (both directions) |
| Records.AddProjectOfWellFormed | app.py:60-79 | the table after creation has every header column in every row iff the table before it did |
| Records.AddProjectOfSequential | app.py:59-79 | the table after creation has row i with id `str(i + 1)` iff the table before it did |
| Records.AddProjectKeeps | app.py:57-79 | the same four facts for the real header |
| Records.AddAllKeepsSequential | app.py:59-79 | a run of creations on a table with sequential ids keeps them sequential and adds one row per request |
| Records.AddAllFromEmpty | app.py:59-79 | creating N projects in an empty table gives them the ids "1" … "N" in creation order |
| Records.PatchFields | app.py:92-97 | a patch adds only the step's status and deadline keys that it carries. It sets the status to the patch's status and the deadline to the patch's deadline, each only when given. Every other cell is unchanged, the id included |
| Records.PatchIdempotent | app.py:92-97 | patching a row twice with the same patch is patching it once |
| Records.FirstIndexOf | app.py:89-90 | the index found holds the id and no earlier row holds it; nothing is found iff no row holds the id |
| Records.UpdateTable | app.py:88-104 | the table keeps its length. The answer is Ok iff the patch has `step` and some row holds the id. On NotFound the table is unchanged. On Ok exactly the first row with the id is replaced by its patch |
| Records.UpdateTableHit | app.py:89-99 | stopping at row i, the first with the id, when the patch has `step` gives Ok and patches row i |
| Records.UpdateTableMiss | app.py:88-104 | without `step`, or without a row holding the id, the answer is NotFound and the table is unchanged |
| Records.UpdateTableKeeps | app.py:89-99 | an update keeps every row's id and every row's columns, and keeps sequential ids sequential |
| Records.UpdateKeepsWellFormed | app.py:89-102 | an update keeps every row holding every header column |
| Records.UpdateIdempotent | app.py:88-104 | repeating an update gives the same table and the same answer as doing it once |
| Records.UpdateWithoutFields | app.py:92-98 | a patch with `step` but neither `status` nor `deadline` changes nothing, and answers Ok iff the id exists |
| Records.UpdateSequentialRow | app.py:88-99 | in a table built by creation, updating id `str(k + 1)` patches row k and answers Ok |
| ProjectStore.StartRecord | app.py:60-68 | the all-empty row over the header, after the metadata update, has its metadata and no step filled yet |
| ProjectStore.FillStep | app.py:71-73 | one pass of the default loop fills step i's status and deadline and keeps everything filled before |
| ProjectStore.FinishRecord | app.py:76-77 | after the loop, marking the first two statuses "Completed" yields exactly the new record |
| ProjectStore.ProjectTable.constructor | app.py:35-42 | a table starts as the rows read from the file, which have every header column, so every row has an id (`Valid`) |
| ProjectStore.ProjectTable.Add | app.py:55-79 | the row built cell by cell is `NewRecord(len, data)` and is appended at the end. Every row still has an id iff before, and every header column iff before |
| ProjectStore.ProjectTable.Update | app.py:84-104 | the scan loop answers `UpdateTable(old rows, id, data).0` and leaves `UpdateTable(old rows, id, data).1`. The table keeps its length, every row keeps the same id, and every row still has an id |

## Left out

- Flask routing, JSON decoding, `jsonify`, response bodies, HTTP status codes and CORS are not modelled. The answers are the `Ok` / `NotFound` results and the returned row.
- Reading and writing the CSV file (`initialize_csv`, `read_projects`, `write_projects`) is not modelled. The table is the `projects` field, and the constructor takes the rows read.
- `get_projects` only returns the rows read; it is not modelled.
- Request bodies whose values are not strings (numbers, nested objects, `null`) are not modelled. Neither is a missing or non-object JSON body. In `add_project`, `data.get` then raises before anything is written. In `update_project`, `'step' in data` is first evaluated only once a row's id matches (app.py:90-92), so an unknown id still answers 404.
- `csv.DictWriter` raises on a row key that is not in the header. An update adds such a key only under three conditions: some row has the id (app.py:90), the patch names a step that is not one of the eight, and the patch carries `status` or `deadline` (app.py:94-97). `write_projects` then raises after the file has been truncated. The model stops at the in-memory table: `Update` adds the new key just as the handler's dictionary does. Nothing about the write is modelled. A patch with only an unknown `step` for an existing id changes no cell and answers ok. An unknown id answers not-found and writes nothing.
- ProjectStore.ProjectTable.Valid: requires only that every row has an `id` cell. The update scan reads `p['id']` on every row it passes, and a row without one would raise `KeyError`. The stronger fact that every row holds every header column (as rows read with `csv.DictReader` from a file written by this program do) is kept by `Add` and stated for updates by `UpdateKeepsWellFormed`, not by `Update`'s own contract.
- Concurrency between requests (each handler re-reads and rewrites the whole file) is not modelled.
