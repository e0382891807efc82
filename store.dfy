/** The project table as the request handlers change it: a list of rows that
    a create request appends to and an update request patches in place. */
module ProjectStore {
  import opened Layout
  import opened Decimal
  import opened Records

  /** The record under construction for the step list `steps` holds the
      header's columns, its metadata, and the defaults of the first `i`
      steps. */
  ghost predicate FilledUpTo(rec: Record, steps: seq<string>, i: nat, id: string, data: Request) {
    && i <= |steps|
    && rec.Keys == ColumnSetOf(steps)
    && "id" in rec && rec["id"] == id
    && "name" in rec && rec["name"] == Get(data, "projectName", "Untitled")
    && "problem" in rec && rec["problem"] == Get(data, "problemStatement", "")
    && "created_at" in rec && rec["created_at"] == Get(data, "createdAt", "")
    && forall j :: 0 <= j < i ==>
         StatusKey(steps[j]) in rec && rec[StatusKey(steps[j])] == "Not Started"
         && DeadlineKey(steps[j]) in rec && rec[DeadlineKey(steps[j])] == "No Deadline"
  }

  /** An all-empty row over the header, with its metadata filled in, has no
      step filled yet. */
  lemma StartRecord(steps: seq<string>, id: string, data: Request)
    ensures FilledUpTo((map c | c in ColumnsOf(steps) :: "")
                        ["id" := id]
                        ["name" := Get(data, "projectName", "Untitled")]
                        ["problem" := Get(data, "problemStatement", "")]
                        ["created_at" := Get(data, "createdAt", "")],
                       steps, 0, id, data)
  {
    MetaInColumns(steps);
  }

  /** Setting step `i` to its defaults extends the filled prefix by one step. */
  lemma FillStep(steps: seq<string>, rec: Record, i: nat, id: string, data: Request)
    requires WellChosen(steps) && FilledUpTo(rec, steps, i, id, data) && i < |steps|
    ensures FilledUpTo(rec[StatusKey(steps[i]) := "Not Started"][DeadlineKey(steps[i]) := "No Deadline"],
                       steps, i + 1, id, data)
  {
    var r2 := rec[StatusKey(steps[i]) := "Not Started"][DeadlineKey(steps[i]) := "No Deadline"];
    StepKeyFacts(steps, i);
    LongKeyNotMeta(StatusKey(steps[i]));
    LongKeyNotMeta(DeadlineKey(steps[i]));
    assert r2.Keys == ColumnSetOf(steps);
    forall j | 0 <= j < i + 1
      ensures StatusKey(steps[j]) in r2 && r2[StatusKey(steps[j])] == "Not Started"
      ensures DeadlineKey(steps[j]) in r2 && r2[DeadlineKey(steps[j])] == "No Deadline"
    {
      StepKeysApart(steps, i, j);
      StepKeysApart(steps, j, i);
    }
  }

  /** Once every step has its defaults, marking the first two steps
      "Completed" yields the new record. */
  lemma FinishRecord(steps: seq<string>, rec: Record, count: nat, data: Request)
    requires WellChosen(steps) && FilledUpTo(rec, steps, |steps|, DecimalString(count + 1), data)
    ensures rec["Project Name_status" := "Completed"]["Problem Statement_status" := "Completed"]
            == NewRecordOf(steps, count, data)
  {
    var r2 := rec["Project Name_status" := "Completed"]["Problem Statement_status" := "Completed"];
    CompletedKeys(steps);
    StepKeyFacts(steps, 0);
    StepKeyFacts(steps, 1);
    LongKeyNotMeta(StatusKey(steps[0]));
    LongKeyNotMeta(StatusKey(steps[1]));
    assert r2.Keys == ColumnSetOf(steps);
    forall j | 0 <= j < |steps|
      ensures StatusKey(steps[j]) in r2 && r2[StatusKey(steps[j])] == (if j < 2 then "Completed" else "Not Started")
      ensures DeadlineKey(steps[j]) in r2 && r2[DeadlineKey(steps[j])] == "No Deadline"
    {
      StepKeysApart(steps, j, 0);
      StepKeysApart(steps, j, 1);
      StepKeysApart(steps, 0, j);
      StepKeysApart(steps, 1, j);
    }
    NewRecordOfDetermined(steps, r2, count, data);
  }

  class ProjectTable {
    /** The rows of the table file, in file order. */
    var projects: seq<Record>

    /** Every row has an id cell, which the update scan reads from each row
        it passes. Rows read back from the table file have every header
        column (`WellFormed`); both operations keep that too, as
        `AddProjectKeeps` and `UpdateKeepsWellFormed` show. */
    ghost predicate Valid()
      reads this
    {
      HasIds(projects)
    }

    /** A table holding the rows just read from the file, each of which has
        every header column. */
    constructor (rows: seq<Record>)
      requires WellFormed(rows)
      ensures projects == rows
      ensures Valid()
    {
      WellFormedHasIds(rows);
      projects := rows;
    }

    /** Handles a create request: builds the new row cell by cell and
        appends it, returning the row. */
    method Add(data: Request) returns (rec: Record)
      modifies this
      ensures rec == NewRecord(|old(projects)|, data)
      ensures projects == old(projects) + [rec]
      ensures Valid() <==> old(Valid())
      ensures WellFormed(projects) <==> WellFormed(old(projects))
    {
      StepsWellChosen();
      var newId := DecimalString(|projects| + 1);
      rec := map c | c in Columns() :: "";
      rec := rec["id" := newId];
      rec := rec["name" := Get(data, "projectName", "Untitled")];
      rec := rec["problem" := Get(data, "problemStatement", "")];
      rec := rec["created_at" := Get(data, "createdAt", "")];
      StartRecord(STEPS, newId, data);
      for i := 0 to |STEPS|
        invariant projects == old(projects)
        invariant FilledUpTo(rec, STEPS, i, newId, data)
      {
        FillStep(STEPS, rec, i, newId, data);
        rec := rec[StatusKey(STEPS[i]) := "Not Started"];
        rec := rec[DeadlineKey(STEPS[i]) := "No Deadline"];
      }
      FinishRecord(STEPS, rec, |projects|, data);
      rec := rec["Project Name_status" := "Completed"];
      rec := rec["Problem Statement_status" := "Completed"];
      AddProjectKeeps(projects, data);
      projects := projects + [rec];
    }

    /** Handles an update request for the row with id `id`: scans the rows
        in order and, when the patch names a step, patches the first row
        with that id and stops. */
    method Update(id: string, data: Request) returns (res: UpdateResult)
      requires Valid()
      modifies this
      ensures Valid()
      ensures res == UpdateTable(old(projects), id, data).0
      ensures projects == UpdateTable(old(projects), id, data).1
      ensures |projects| == |old(projects)|
      ensures forall j :: 0 <= j < |projects| ==> projects[j]["id"] == old(projects)[j]["id"]
    {
      UpdateTableKeeps(projects, id, data);
      var found := false;
      var i := 0;
      while i < |projects|
        invariant 0 <= i <= |projects|
        invariant projects == old(projects) && HasIds(projects) && !found
        invariant "step" in data ==> forall j :: 0 <= j < i ==> projects[j]["id"] != id
      {
        if projects[i]["id"] == id {
          if "step" in data {
            var step := data["step"];
            var p := projects[i];
            if "status" in data {
              p := p[StatusKey(step) := data["status"]];
            }
            if "deadline" in data {
              p := p[DeadlineKey(step) := data["deadline"]];
            }
            UpdateTableHit(projects, id, data, i);
            projects := projects[i := p];
            found := true;
            break;
          }
        }
        i := i + 1;
      }
      if !found {
        UpdateTableMiss(projects, id, data);
      }
      res := if found then Ok else NotFound;
    }
  }
}
