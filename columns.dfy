/** The fixed column layout of the project table: four metadata columns,
    then a status column and a deadline column for each of eight workflow
    steps. Most facts are proved for any step list that is `WellChosen`
    and then applied to STEPS, which is proved well chosen once. */
module Layout {

  /** The eight workflow steps, in order. */
  const STEPS: seq<string> := [
    "Project Name",
    "Problem Statement",
    "Project Planning",
    "Backend Prototype",
    "Backend Modular",
    "Frontend Prototype",
    "Integration",
    "Testing"
  ]

  /** The metadata columns that precede the step columns. */
  const META: seq<string> := ["id", "name", "problem", "created_at"]

  /** The column holding the status of `step` (the `f"{step}_status"` key). */
  function StatusKey(step: string): string {
    step + "_status"
  }

  /** The column holding the deadline of `step` (the `f"{step}_deadline"` key). */
  function DeadlineKey(step: string): string {
    step + "_deadline"
  }

  /** The status and deadline columns of `steps`, two per step, in step order. */
  function StepColumns(steps: seq<string>): (cols: seq<string>)
    ensures |cols| == 2 * |steps|
    ensures forall j :: 0 <= j < |steps| ==>
              cols[2 * j] == StatusKey(steps[j]) && cols[2 * j + 1] == DeadlineKey(steps[j])
  {
    if steps == [] then []
    else [StatusKey(steps[0]), DeadlineKey(steps[0])] + StepColumns(steps[1..])
  }

  /** The header for the step list `steps`. */
  function ColumnsOf(steps: seq<string>): (cols: seq<string>)
    ensures |cols| == 4 + 2 * |steps|
    ensures cols[..4] == META
    ensures forall j :: 0 <= j < |steps| ==>
              cols[4 + 2 * j] == StatusKey(steps[j]) && cols[5 + 2 * j] == DeadlineKey(steps[j])
  {
    META + StepColumns(steps)
  }

  /** The set of column names of the header for `steps`. */
  function ColumnSetOf(steps: seq<string>): set<string> {
    set c | c in ColumnsOf(steps)
  }

  /** The table's header: the metadata columns, then the status and
      deadline columns of each of the eight steps in order, 20 in all. */
  function Columns(): (cols: seq<string>)
    ensures |cols| == 20
    ensures cols[..4] == META
    ensures forall j :: 0 <= j < |STEPS| ==>
              cols[4 + 2 * j] == StatusKey(STEPS[j]) && cols[5 + 2 * j] == DeadlineKey(STEPS[j])
  {
    ColumnsOf(STEPS)
  }

  /** The set of the table's column names. */
  function ColumnSet(): set<string> {
    ColumnSetOf(STEPS)
  }

  /** Builds the header the way the module initialisation does: start from
      the metadata columns and append a status and a deadline column for
      each step in turn. */
  method BuildColumns() returns (cols: seq<string>)
    ensures cols == Columns()
  {
    cols := META;
    for i := 0 to |STEPS|
      invariant |cols| == 4 + 2 * i
      invariant cols[..4] == META
      invariant forall j :: 0 <= j < i ==>
                  cols[4 + 2 * j] == StatusKey(STEPS[j]) && cols[5 + 2 * j] == DeadlineKey(STEPS[j])
    {
      cols := cols + [StatusKey(STEPS[i])];
      cols := cols + [DeadlineKey(STEPS[i])];
    }
    ColumnsDetermined(cols, STEPS);
  }

  /** Any list laid out like the header for `steps` is that header. */
  lemma ColumnsDetermined(cols: seq<string>, steps: seq<string>)
    requires |cols| == 4 + 2 * |steps| && cols[..4] == META
    requires forall j :: 0 <= j < |steps| ==>
               cols[4 + 2 * j] == StatusKey(steps[j]) && cols[5 + 2 * j] == DeadlineKey(steps[j])
    ensures cols == ColumnsOf(steps)
  {
    var all := ColumnsOf(steps);
    forall m | 0 <= m < |cols|
      ensures cols[m] == all[m]
    {
      if m < 4 {
        assert cols[m] == cols[..4][m] && all[m] == all[..4][m];
      } else {
        var j := (m - 4) / 2;
        assert j < |steps|;
        if m == 4 + 2 * j {
          assert cols[4 + 2 * j] == StatusKey(steps[j]) == all[4 + 2 * j];
        } else {
          assert m == 5 + 2 * j;
          assert cols[5 + 2 * j] == DeadlineKey(steps[j]) == all[5 + 2 * j];
        }
      }
    }
  }

  // ---- Facts about the column names themselves ----

  /** What the layout relies on about a step list: it starts with the two
      steps that creation marks "Completed", its names are pairwise distinct,
      and each name is at least four characters long, so that every step
      column is longer than every metadata column. */
  ghost predicate WellChosen(steps: seq<string>) {
    && |steps| >= 2 && steps[0] == "Project Name" && steps[1] == "Problem Statement"
    && (forall i, j :: 0 <= i < j < |steps| ==> steps[i] != steps[j])
    && (forall i :: 0 <= i < |steps| ==> |steps[i]| >= 4)
  }

  /** The eight steps are well chosen. */
  lemma StepsWellChosen()
    ensures WellChosen(STEPS)
  {
  }

  /** Two status columns are equal only for the same step. */
  lemma StatusKeyInjective(s: string, t: string)
    ensures StatusKey(s) == StatusKey(t) ==> s == t
  {
    if StatusKey(s) == StatusKey(t) {
      assert s == StatusKey(s)[..|s|];
    }
  }

  /** Two deadline columns are equal only for the same step. */
  lemma DeadlineKeyInjective(s: string, t: string)
    ensures DeadlineKey(s) == DeadlineKey(t) ==> s == t
  {
    if DeadlineKey(s) == DeadlineKey(t) {
      assert s == DeadlineKey(s)[..|s|];
    }
  }

  /** A status column is never a deadline column. */
  lemma StatusNotDeadline(s: string, t: string)
    ensures StatusKey(s) != DeadlineKey(t)
  {
    var a, b := StatusKey(s), DeadlineKey(t);
    assert a[|a| - 1] == a[|s|..][6] == 's';
    assert b[|b| - 1] == b[|t|..][8] == 'e';
  }

  /** The status and deadline columns of two steps coincide only when they
      are the same column of the same step. */
  lemma StepKeysApart(steps: seq<string>, i: nat, j: nat)
    requires WellChosen(steps) && i < |steps| && j < |steps|
    ensures StatusKey(steps[i]) == StatusKey(steps[j]) <==> i == j
    ensures DeadlineKey(steps[i]) == DeadlineKey(steps[j]) <==> i == j
    ensures StatusKey(steps[i]) != DeadlineKey(steps[j])
  {
    StatusKeyInjective(steps[i], steps[j]);
    DeadlineKeyInjective(steps[i], steps[j]);
    StatusNotDeadline(steps[i], steps[j]);
    if i < j {
      assert steps[i] != steps[j];
    } else if j < i {
      assert steps[j] != steps[i];
    }
  }

  /** Step `j`'s columns are in the header, and are not metadata columns. */
  lemma StepKeyFacts(steps: seq<string>, j: nat)
    requires WellChosen(steps) && j < |steps|
    ensures StatusKey(steps[j]) in ColumnSetOf(steps) && DeadlineKey(steps[j]) in ColumnSetOf(steps)
    ensures |StatusKey(steps[j])| > 10 && |DeadlineKey(steps[j])| > 10
    ensures StatusKey(steps[j]) !in META && DeadlineKey(steps[j]) !in META
  {
    var cols := ColumnsOf(steps);
    assert cols[4 + 2 * j] == StatusKey(steps[j]) && cols[5 + 2 * j] == DeadlineKey(steps[j]);
    assert |steps[j]| >= 4;
    forall m | 0 <= m < |META| ensures |META[m]| <= 10 { }
  }

  /** The metadata columns are in the header. */
  lemma MetaInColumns(steps: seq<string>)
    ensures "id" in ColumnSetOf(steps) && "name" in ColumnSetOf(steps)
    ensures "problem" in ColumnSetOf(steps) && "created_at" in ColumnSetOf(steps)
  {
    var cols := ColumnsOf(steps);
    assert cols[0] == cols[..4][0] && cols[1] == cols[..4][1];
    assert cols[2] == cols[..4][2] && cols[3] == cols[..4][3];
  }

  /** A column is a metadata column or the status or deadline column of a step. */
  lemma ColumnCases(steps: seq<string>, c: string)
    requires c in ColumnSetOf(steps)
    ensures c in META || exists j :: 0 <= j < |steps| && (c == StatusKey(steps[j]) || c == DeadlineKey(steps[j]))
  {
    var cols := ColumnsOf(steps);
    var m :| 0 <= m < |cols| && cols[m] == c;
    if m < 4 {
      assert c == cols[..4][m];
    } else {
      var j := (m - 4) / 2;
      assert m == 4 + 2 * j || m == 5 + 2 * j;
      assert j < |steps| && (c == StatusKey(steps[j]) || c == DeadlineKey(steps[j]));
    }
  }

  /** No column name occurs twice in the header of a well-chosen step list. */
  lemma ColumnsOfDistinct(steps: seq<string>)
    requires WellChosen(steps)
    ensures forall a, b :: 0 <= a < b < |ColumnsOf(steps)| ==> ColumnsOf(steps)[a] != ColumnsOf(steps)[b]
  {
    var cols := ColumnsOf(steps);
    forall a, b | 0 <= a < b < |cols|
      ensures cols[a] != cols[b]
    {
      if b < 4 {
        assert cols[a] == cols[..4][a] && cols[b] == cols[..4][b];
      } else {
        var j := (b - 4) / 2;
        assert b == 4 + 2 * j || b == 5 + 2 * j;
        StepKeyFacts(steps, j);
        if a < 4 {
          assert cols[a] == cols[..4][a];
        } else {
          var i := (a - 4) / 2;
          assert a == 4 + 2 * i || a == 5 + 2 * i;
          StepKeysApart(steps, i, j);
          StepKeysApart(steps, j, i);
        }
      }
    }
  }

  /** The table's 20 column names are pairwise distinct. */
  lemma ColumnsDistinct()
    ensures forall a, b :: 0 <= a < b < |Columns()| ==> Columns()[a] != Columns()[b]
  {
    StepsWellChosen();
    ColumnsOfDistinct(STEPS);
  }
}
