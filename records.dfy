/** Project records and the two table operations as values: the record a
    create request produces, the patch an update request applies, and the
    table each operation leaves behind. The class in ProjectStore performs
    the same operations step by step and is proved against these. */
module Records {
  import opened Layout
  import opened Decimal

  /** One row of the table: column name to cell text. */
  type Record = map<string, string>

  /** A decoded JSON request body whose values are strings. */
  type Request = map<string, string>

  datatype Option<T> = None | Some(value: T)

  /** Outcome of an update: the 200 response or the 404 response. */
  datatype UpdateResult = Ok | NotFound

  /** `data.get(key, default)`. */
  function Get(data: Request, key: string, default: string): string {
    if key in data then data[key] else default
  }

  predicate EndsWith(s: string, suffix: string) {
    |suffix| <= |s| && s[|s| - |suffix|..] == suffix
  }

  // ---- Table invariants ----

  /** Every row carries an `id` cell. */
  predicate HasIds(table: seq<Record>) {
    forall i :: 0 <= i < |table| ==> "id" in table[i]
  }

  /** Every row carries every column of the header, as rows read back from
      the table file do. */
  predicate WellFormed(table: seq<Record>) {
    WellFormedOf(STEPS, table)
  }

  /** Every row carries every column of the header for `steps`. */
  predicate WellFormedOf(steps: seq<string>, table: seq<Record>) {
    forall i :: 0 <= i < |table| ==> ColumnSetOf(steps) <= table[i].Keys
  }

  /** Row `i` has id `str(i + 1)`: the ids a table built only by creation has. */
  predicate IdsSequential(table: seq<Record>) {
    forall i :: 0 <= i < |table| ==> "id" in table[i] && table[i]["id"] == DecimalString(i + 1)
  }

  lemma WellFormedHasIds(table: seq<Record>)
    requires WellFormed(table)
    ensures HasIds(table)
  {
    MetaInColumns(STEPS);
  }

  /** In a table built by creation, no two rows share an id. */
  lemma SequentialIdsDistinct(table: seq<Record>)
    requires IdsSequential(table)
    ensures forall i, j :: 0 <= i < j < |table| ==> table[i]["id"] != table[j]["id"]
  {
    forall i, j | 0 <= i < j < |table|
      ensures table[i]["id"] != table[j]["id"]
    {
      DecimalStringInjective(i + 1, j + 1);
    }
  }

  // ---- Creation ----

  /** The initial cell of column `col` in a new record with id `id`: the
      request's metadata (with defaults), "Completed" for the statuses of the
      first two steps, "Not Started" for the other statuses and "No Deadline"
      for every deadline. */
  function InitialValue(col: string, id: string, data: Request): string {
    if col == "id" then id
    else if col == "name" then Get(data, "projectName", "Untitled")
    else if col == "problem" then Get(data, "problemStatement", "")
    else if col == "created_at" then Get(data, "createdAt", "")
    else if col == "Project Name_status" || col == "Problem Statement_status" then "Completed"
    else if EndsWith(col, "_status") then "Not Started"
    else if EndsWith(col, "_deadline") then "No Deadline"
    else ""
  }

  /** The record created for the step list `steps` when the table already
      holds `count` rows. */
  function NewRecordOf(steps: seq<string>, count: nat, data: Request): Record {
    map c | c in ColumnSetOf(steps) :: InitialValue(c, DecimalString(count + 1), data)
  }

  /** The record created when the table already holds `count` rows. */
  function NewRecord(count: nat, data: Request): Record {
    NewRecordOf(STEPS, count, data)
  }

  /** The table after a create request. */
  function AddProject(table: seq<Record>, data: Request): seq<Record> {
    AddProjectOf(STEPS, table, data)
  }

  /** The table after a create request, for the step list `steps`. */
  function AddProjectOf(steps: seq<string>, table: seq<Record>, data: Request): seq<Record> {
    table + [NewRecordOf(steps, |table|, data)]
  }

  /** A status column ends in "_status" and not in "_deadline". */
  lemma StatusKeyEnds(s: string)
    ensures EndsWith(StatusKey(s), "_status") && !EndsWith(StatusKey(s), "_deadline")
  {
    var k := StatusKey(s);
    assert k[|k| - 7..] == k[|s|..];
    if |k| >= 9 {
      assert k[|k| - 9..][8] == k[|s|..][6] == 's';
    }
  }

  /** A deadline column ends in "_deadline" and not in "_status". */
  lemma DeadlineKeyEnds(s: string)
    ensures EndsWith(DeadlineKey(s), "_deadline") && !EndsWith(DeadlineKey(s), "_status")
  {
    var k := DeadlineKey(s);
    assert k[|k| - 9..] == k[|s|..];
    assert k[|k| - 7..] == k[|s|..][2..];
  }

  /** A column name longer than ten characters is no metadata column. */
  lemma LongKeyNotMeta(k: string)
    requires |k| > 10
    ensures k != "id" && k != "name" && k != "problem" && k != "created_at"
  {
  }

  /** The two columns that creation marks "Completed" are the status
      columns of the first two steps. */
  lemma CompletedKeys(steps: seq<string>)
    requires WellChosen(steps)
    ensures StatusKey(steps[0]) == "Project Name_status"
    ensures StatusKey(steps[1]) == "Problem Statement_status"
  {
  }

  /** The initial cells of step `j`. */
  lemma InitialStepValues(steps: seq<string>, j: nat, id: string, data: Request)
    requires WellChosen(steps) && j < |steps|
    ensures InitialValue(StatusKey(steps[j]), id, data) == if j < 2 then "Completed" else "Not Started"
    ensures InitialValue(DeadlineKey(steps[j]), id, data) == "No Deadline"
  {
    StepKeyFacts(steps, j);
    LongKeyNotMeta(StatusKey(steps[j]));
    LongKeyNotMeta(DeadlineKey(steps[j]));
    CompletedKeys(steps);
    StepKeysApart(steps, j, 0);
    StepKeysApart(steps, j, 1);
    StepKeysApart(steps, 0, j);
    StepKeysApart(steps, 1, j);
    StatusKeyEnds(steps[j]);
    DeadlineKeyEnds(steps[j]);
  }

  /** A new record has the header's columns and the id `str(count + 1)`. */
  lemma NewRecordOfId(steps: seq<string>, count: nat, data: Request)
    ensures NewRecordOf(steps, count, data).Keys == ColumnSetOf(steps)
    ensures "id" in NewRecordOf(steps, count, data)
    ensures NewRecordOf(steps, count, data)["id"] == DecimalString(count + 1)
  {
    MetaInColumns(steps);
  }

  /** The metadata cells of a new record. */
  lemma NewRecordOfMeta(steps: seq<string>, count: nat, data: Request)
    ensures NewRecordOf(steps, count, data).Keys == ColumnSetOf(steps)
    ensures {"id", "name", "problem", "created_at"} <= NewRecordOf(steps, count, data).Keys
    ensures NewRecordOf(steps, count, data)["id"] == DecimalString(count + 1)
    ensures NewRecordOf(steps, count, data)["name"] == Get(data, "projectName", "Untitled")
    ensures NewRecordOf(steps, count, data)["problem"] == Get(data, "problemStatement", "")
    ensures NewRecordOf(steps, count, data)["created_at"] == Get(data, "createdAt", "")
  {
    MetaInColumns(steps);
  }

  /** The cells of step `j` in a new record. */
  lemma NewRecordOfStep(steps: seq<string>, count: nat, data: Request, j: nat)
    requires WellChosen(steps) && j < |steps|
    ensures StatusKey(steps[j]) in NewRecordOf(steps, count, data)
    ensures DeadlineKey(steps[j]) in NewRecordOf(steps, count, data)
    ensures NewRecordOf(steps, count, data)[StatusKey(steps[j])] == (if j < 2 then "Completed" else "Not Started")
    ensures NewRecordOf(steps, count, data)[DeadlineKey(steps[j])] == "No Deadline"
  {
    StepKeyFacts(steps, j);
    InitialStepValues(steps, j, DecimalString(count + 1), data);
  }

  /** What a new record holds, for a well-chosen step list: exactly the
      header's columns, the id `str(count + 1)`, the request's name, problem
      and creation label or their defaults, the first two steps "Completed",
      the others "Not Started", and every deadline "No Deadline". */
  lemma NewRecordOfFields(steps: seq<string>, count: nat, data: Request)
    requires WellChosen(steps)
    ensures NewRecordOf(steps, count, data).Keys == ColumnSetOf(steps)
    ensures {"id", "name", "problem", "created_at"} <= NewRecordOf(steps, count, data).Keys
    ensures forall j :: 0 <= j < |steps| ==>
              StatusKey(steps[j]) in NewRecordOf(steps, count, data) && DeadlineKey(steps[j]) in NewRecordOf(steps, count, data)
    ensures NewRecordOf(steps, count, data)["id"] == DecimalString(count + 1)
    ensures NewRecordOf(steps, count, data)["name"] == Get(data, "projectName", "Untitled")
    ensures NewRecordOf(steps, count, data)["problem"] == Get(data, "problemStatement", "")
    ensures NewRecordOf(steps, count, data)["created_at"] == Get(data, "createdAt", "")
    ensures forall j :: 0 <= j < |steps| ==>
              NewRecordOf(steps, count, data)[StatusKey(steps[j])] == (if j < 2 then "Completed" else "Not Started")
    ensures forall j :: 0 <= j < |steps| ==>
              NewRecordOf(steps, count, data)[DeadlineKey(steps[j])] == "No Deadline"
  {
    NewRecordOfMeta(steps, count, data);
    forall j | 0 <= j < |steps|
      ensures StatusKey(steps[j]) in NewRecordOf(steps, count, data)
      ensures DeadlineKey(steps[j]) in NewRecordOf(steps, count, data)
      ensures NewRecordOf(steps, count, data)[StatusKey(steps[j])] == (if j < 2 then "Completed" else "Not Started")
      ensures NewRecordOf(steps, count, data)[DeadlineKey(steps[j])] == "No Deadline"
    {
      NewRecordOfStep(steps, count, data, j);
    }
  }

  /** The requirements of `NewRecordOfDetermined`: `r` has the header's
      columns and the values a new record has. */
  ghost predicate LaidOutAsNew(steps: seq<string>, r: Record, count: nat, data: Request) {
    && r.Keys == ColumnSetOf(steps)
    && "id" in r && r["id"] == DecimalString(count + 1)
    && "name" in r && r["name"] == Get(data, "projectName", "Untitled")
    && "problem" in r && r["problem"] == Get(data, "problemStatement", "")
    && "created_at" in r && r["created_at"] == Get(data, "createdAt", "")
    && (forall j :: 0 <= j < |steps| ==>
          StatusKey(steps[j]) in r && r[StatusKey(steps[j])] == (if j < 2 then "Completed" else "Not Started"))
    && (forall j :: 0 <= j < |steps| ==>
          DeadlineKey(steps[j]) in r && r[DeadlineKey(steps[j])] == "No Deadline")
  }

  /** A metadata cell of such a record agrees with the new record. */
  lemma MetaCellDetermined(steps: seq<string>, r: Record, count: nat, data: Request, c: string)
    requires LaidOutAsNew(steps, r, count, data) && c in META
    ensures c in r && c in NewRecordOf(steps, count, data) && r[c] == NewRecordOf(steps, count, data)[c]
  {
    assert c == META[0] || c == META[1] || c == META[2] || c == META[3];
    NewRecordOfMeta(steps, count, data);
  }

  /** A step cell of such a record agrees with the new record. */
  lemma StepCellDetermined(steps: seq<string>, r: Record, count: nat, data: Request, j: nat)
    requires WellChosen(steps) && LaidOutAsNew(steps, r, count, data) && j < |steps|
    ensures StatusKey(steps[j]) in r && r[StatusKey(steps[j])] == NewRecordOf(steps, count, data)[StatusKey(steps[j])]
    ensures DeadlineKey(steps[j]) in r && r[DeadlineKey(steps[j])] == NewRecordOf(steps, count, data)[DeadlineKey(steps[j])]
  {
    NewRecordOfStep(steps, count, data, j);
  }

  /** Conversely, for a well-chosen step list, a record with the header's
      columns holding those values is the new record. */
  lemma NewRecordOfDetermined(steps: seq<string>, r: Record, count: nat, data: Request)
    requires WellChosen(steps) && LaidOutAsNew(steps, r, count, data)
    ensures r == NewRecordOf(steps, count, data)
  {
    var n := NewRecordOf(steps, count, data);
    forall c | c in ColumnSetOf(steps) ensures r[c] == n[c] {
      ColumnCases(steps, c);
      if c in META {
        MetaCellDetermined(steps, r, count, data, c);
      } else {
        var j :| 0 <= j < |steps| && (c == StatusKey(steps[j]) || c == DeadlineKey(steps[j]));
        StepCellDetermined(steps, r, count, data, j);
      }
    }
  }

  /** What a new record of the table holds: exactly the 20 header columns,
      the id `str(count + 1)`, the request's `projectName`, `problemStatement`
      and `createdAt` or the defaults "Untitled", "" and "", the first two
      steps "Completed", the other six "Not Started", and all eight deadlines
      "No Deadline". */
  lemma NewRecordFields(count: nat, data: Request)
    ensures NewRecord(count, data).Keys == ColumnSet()
    ensures {"id", "name", "problem", "created_at"} <= NewRecord(count, data).Keys
    ensures forall j :: 0 <= j < |STEPS| ==>
              StatusKey(STEPS[j]) in NewRecord(count, data) && DeadlineKey(STEPS[j]) in NewRecord(count, data)
    ensures NewRecord(count, data)["id"] == DecimalString(count + 1)
    ensures NewRecord(count, data)["name"] == (if "projectName" in data then data["projectName"] else "Untitled")
    ensures NewRecord(count, data)["problem"] == (if "problemStatement" in data then data["problemStatement"] else "")
    ensures NewRecord(count, data)["created_at"] == (if "createdAt" in data then data["createdAt"] else "")
    ensures forall j :: 0 <= j < |STEPS| ==>
              NewRecord(count, data)[StatusKey(STEPS[j])] == (if j < 2 then "Completed" else "Not Started")
    ensures forall j :: 0 <= j < |STEPS| ==> NewRecord(count, data)[DeadlineKey(STEPS[j])] == "No Deadline"
  {
    StepsWellChosen();
    NewRecordOfFields(STEPS, count, data);
  }

  /** Creation appends one row with id `str(count + 1)` and keeps every
      earlier row, whatever the step list. */
  lemma AddProjectOfShape(steps: seq<string>, table: seq<Record>, data: Request)
    ensures |AddProjectOf(steps, table, data)| == |table| + 1
    ensures AddProjectOf(steps, table, data)[..|table|] == table
    ensures "id" in AddProjectOf(steps, table, data)[|table|]
    ensures AddProjectOf(steps, table, data)[|table|]["id"] == DecimalString(|table| + 1)
    ensures HasIds(table) <==> HasIds(AddProjectOf(steps, table, data))
  {
    var t := AddProjectOf(steps, table, data);
    NewRecordOfId(steps, |table|, data);
    assert forall i :: 0 <= i < |table| ==> t[i] == table[i];
  }

  /** Creation keeps every row carrying every column, and only a table whose
      rows do so gives a table whose rows do so. */
  lemma AddProjectOfWellFormed(steps: seq<string>, table: seq<Record>, data: Request)
    ensures WellFormedOf(steps, table) <==> WellFormedOf(steps, AddProjectOf(steps, table, data))
  {
    var t := AddProjectOf(steps, table, data);
    NewRecordOfId(steps, |table|, data);
    assert forall i :: 0 <= i < |table| ==> t[i] == table[i];
  }

  /** Creation keeps the ids sequential, and only a table with sequential
      ids gives a table with sequential ids. */
  lemma AddProjectOfSequential(steps: seq<string>, table: seq<Record>, data: Request)
    ensures IdsSequential(table) <==> IdsSequential(AddProjectOf(steps, table, data))
  {
    var t := AddProjectOf(steps, table, data);
    NewRecordOfId(steps, |table|, data);
    assert forall i :: 0 <= i < |table| ==> t[i] == table[i];
  }

  /** Creation appends one row, keeps every earlier row, and keeps the
      table's invariants. */
  lemma AddProjectKeeps(table: seq<Record>, data: Request)
    ensures |AddProject(table, data)| == |table| + 1
    ensures AddProject(table, data)[..|table|] == table
    ensures "id" in AddProject(table, data)[|table|]
    ensures AddProject(table, data)[|table|]["id"] == DecimalString(|table| + 1)
    ensures HasIds(table) <==> HasIds(AddProject(table, data))
    ensures WellFormed(table) <==> WellFormed(AddProject(table, data))
    ensures IdsSequential(table) <==> IdsSequential(AddProject(table, data))
  {
    AddProjectOfShape(STEPS, table, data);
    AddProjectOfWellFormed(STEPS, table, data);
    AddProjectOfSequential(STEPS, table, data);
  }

  /** The table after a sequence of create requests. */
  function AddAll(table: seq<Record>, requests: seq<Request>): seq<Record>
    decreases |requests|
  {
    if requests == [] then table
    else AddAll(AddProject(table, requests[0]), requests[1..])
  }

  /** Creating N projects in an empty table gives them the ids "1", ..., "N"
      in creation order. */
  lemma AddAllFromEmpty(requests: seq<Request>)
    ensures |AddAll([], requests)| == |requests|
    ensures IdsSequential(AddAll([], requests))
  {
    AddAllKeepsSequential([], requests);
  }

  lemma {:induction false} AddAllKeepsSequential(table: seq<Record>, requests: seq<Request>)
    requires IdsSequential(table)
    ensures |AddAll(table, requests)| == |table| + |requests|
    ensures IdsSequential(AddAll(table, requests))
    decreases |requests|
  {
    if requests != [] {
      AddProjectKeeps(table, requests[0]);
      AddAllKeepsSequential(AddProject(table, requests[0]), requests[1..]);
    }
  }

  // ---- Update ----

  /** The record after the patch `data`, which names a step: its status
      column is set when the patch carries a status, then its deadline
      column when the patch carries a deadline. */
  function Patch(rec: Record, data: Request): Record
    requires "step" in data
  {
    var step := data["step"];
    var withStatus := if "status" in data then rec[StatusKey(step) := data["status"]] else rec;
    if "deadline" in data then withStatus[DeadlineKey(step) := data["deadline"]] else withStatus
  }

  /** A patch sets the step's status to the patch's status and its deadline
      to the patch's deadline, each only when given, and leaves every other
      cell, the `id` cell included, as it was. */
  lemma PatchFields(rec: Record, data: Request)
    requires "step" in data
    ensures Patch(rec, data).Keys ==
              rec.Keys
              + (if "status" in data then {StatusKey(data["step"])} else {})
              + (if "deadline" in data then {DeadlineKey(data["step"])} else {})
    ensures "status" in data ==> Patch(rec, data)[StatusKey(data["step"])] == data["status"]
    ensures "deadline" in data ==> Patch(rec, data)[DeadlineKey(data["step"])] == data["deadline"]
    ensures forall k :: k in rec && k != StatusKey(data["step"]) && k != DeadlineKey(data["step"]) ==>
              Patch(rec, data)[k] == rec[k]
    ensures "status" !in data && StatusKey(data["step"]) in rec ==>
              Patch(rec, data)[StatusKey(data["step"])] == rec[StatusKey(data["step"])]
    ensures "deadline" !in data && DeadlineKey(data["step"]) in rec ==>
              Patch(rec, data)[DeadlineKey(data["step"])] == rec[DeadlineKey(data["step"])]
    ensures "id" in rec ==> "id" in Patch(rec, data) && Patch(rec, data)["id"] == rec["id"]
  {
    StatusNotDeadline(data["step"], data["step"]);
  }

  /** Patching twice is patching once. */
  lemma PatchIdempotent(rec: Record, data: Request)
    requires "step" in data
    ensures Patch(Patch(rec, data), data) == Patch(rec, data)
  {
    var once := Patch(rec, data);
    var twice := Patch(once, data);
    PatchFields(rec, data);
    PatchFields(once, data);
    assert twice.Keys == once.Keys;
    forall k | k in once ensures twice[k] == once[k] { }
  }

  /** The position of the first row whose id is `id`, if any. */
  function FirstIndexOf(table: seq<Record>, id: string): (r: Option<nat>)
    requires HasIds(table)
    ensures r.Some? ==> r.value < |table| && table[r.value]["id"] == id
    ensures r.Some? ==> forall j :: 0 <= j < r.value ==> table[j]["id"] != id
    ensures r.None? <==> forall j :: 0 <= j < |table| ==> table[j]["id"] != id
  {
    if table == [] then None
    else if table[0]["id"] == id then Some(0)
    else match FirstIndexOf(table[1..], id)
      case None => None
      case Some(k) => Some(k + 1)
  }

  /** The response and the table after an update request for `id`: without a
      step in the patch, or without a row of that id, nothing changes and the
      answer is not-found; otherwise the first row with that id is patched. */
  function UpdateTable(table: seq<Record>, id: string, data: Request): (r: (UpdateResult, seq<Record>))
    requires HasIds(table)
    ensures |r.1| == |table|
    ensures r.0 == Ok <==> "step" in data && exists j :: 0 <= j < |table| && table[j]["id"] == id
    ensures r.0 == NotFound ==> r.1 == table
    ensures r.0 == Ok ==>
              exists k :: 0 <= k < |table| && table[k]["id"] == id
                && (forall j :: 0 <= j < k ==> table[j]["id"] != id)
                && r.1 == table[k := Patch(table[k], data)]
  {
    if "step" !in data then (NotFound, table)
    else match FirstIndexOf(table, id)
      case None => (NotFound, table)
      case Some(k) => (Ok, table[k := Patch(table[k], data)])
  }

  /** A scan that meets a row with the id, no earlier row having it, patches
      that row and answers ok. */
  lemma UpdateTableHit(table: seq<Record>, id: string, data: Request, i: nat)
    requires HasIds(table) && "step" in data
    requires i < |table| && table[i]["id"] == id
    requires forall j :: 0 <= j < i ==> table[j]["id"] != id
    ensures UpdateTable(table, id, data) == (Ok, table[i := Patch(table[i], data)])
  {
    var f := FirstIndexOf(table, id);
    assert f.Some?;
    assert !(f.value < i) && !(i < f.value);
  }

  /** A scan that finds no row to patch answers not-found and changes nothing. */
  lemma UpdateTableMiss(table: seq<Record>, id: string, data: Request)
    requires HasIds(table)
    requires "step" !in data || forall j :: 0 <= j < |table| ==> table[j]["id"] != id
    ensures UpdateTable(table, id, data) == (NotFound, table)
  {
  }

  /** An update keeps every row's id and every row's columns, and keeps the
      ids sequential. */
  lemma UpdateTableKeeps(table: seq<Record>, id: string, data: Request)
    requires HasIds(table)
    ensures HasIds(UpdateTable(table, id, data).1)
    ensures forall j :: 0 <= j < |table| ==> UpdateTable(table, id, data).1[j]["id"] == table[j]["id"]
    ensures forall j :: 0 <= j < |table| ==> table[j].Keys <= UpdateTable(table, id, data).1[j].Keys
    ensures IdsSequential(table) ==> IdsSequential(UpdateTable(table, id, data).1)
  {
    var r := UpdateTable(table, id, data);
    if r.0 == Ok {
      var k := FirstIndexOf(table, id).value;
      PatchFields(table[k], data);
    }
  }

  /** An update keeps every row carrying every column. */
  lemma UpdateKeepsWellFormed(table: seq<Record>, id: string, data: Request)
    requires WellFormed(table)
    ensures HasIds(table)
    ensures HasIds(UpdateTable(table, id, data).1)
    ensures WellFormed(UpdateTable(table, id, data).1)
  {
    WellFormedHasIds(table);
    UpdateTableKeeps(table, id, data);
  }

  /** Applying the same update twice leaves the same table, and gives the
      same response, as applying it once. */
  lemma UpdateIdempotent(table: seq<Record>, id: string, data: Request)
    requires HasIds(table)
    ensures HasIds(UpdateTable(table, id, data).1)
    ensures UpdateTable(UpdateTable(table, id, data).1, id, data) == UpdateTable(table, id, data)
  {
    UpdateTableKeeps(table, id, data);
    var once := UpdateTable(table, id, data).1;
    if "step" in data && FirstIndexOf(table, id).Some? {
      var k := FirstIndexOf(table, id).value;
      var k' := FirstIndexOf(once, id).value;
      assert k' == k;
      PatchIdempotent(table[k], data);
      assert once[k := Patch(once[k], data)] == once;
    }
  }

  /** A patch naming a step but carrying neither a status nor a deadline
      succeeds when the id exists and changes nothing. */
  lemma UpdateWithoutFields(table: seq<Record>, id: string, data: Request)
    requires HasIds(table)
    requires "step" in data && "status" !in data && "deadline" !in data
    ensures UpdateTable(table, id, data).1 == table
    ensures UpdateTable(table, id, data).0 == Ok <==> exists j :: 0 <= j < |table| && table[j]["id"] == id
  {
    if FirstIndexOf(table, id).Some? {
      var k := FirstIndexOf(table, id).value;
      assert Patch(table[k], data) == table[k];
    }
  }

  /** In a table built by creation, updating id `str(k + 1)` patches row `k`. */
  lemma UpdateSequentialRow(table: seq<Record>, k: nat, data: Request)
    requires IdsSequential(table) && k < |table| && "step" in data
    ensures HasIds(table)
    ensures UpdateTable(table, DecimalString(k + 1), data) == (Ok, table[k := Patch(table[k], data)])
  {
    SequentialIdsDistinct(table);
    var f := FirstIndexOf(table, DecimalString(k + 1));
    assert table[k]["id"] == DecimalString(k + 1);
    assert f.Some?;
    assert table[f.value]["id"] == DecimalString(f.value + 1);
    DecimalStringInjective(f.value + 1, k + 1);
  }
}
