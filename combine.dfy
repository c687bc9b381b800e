/** The append transformation of combine_pano_data (main.py:118-194): for every raw
    row, one new long-format row per mapped cell that is not skipped, sharing the
    row identifier of the row's school/year key; then the old rows followed by the new. */
module Combine {
  import opened Options
  import opened Strings
  import opened Tables
  import opened RowIds
  import opened ColumnMap
  import opened Normalise
  import opened GradeGroups
  import opened Merge

  /** What every row appended for one raw row carries besides its labels and value. */
  datatype Stamp = Stamp(schoolYear: string, yearGu: string, gradeGroup: Option<string>,
                         name: string, rowId: string)

  /** The dictionary appended to new_rows (main.py:175-184); a NaN grade group leaves
      that cell empty. */
  function NewRow(st: Stamp, m: Mapping, value: string): Row
  {
    var base := map["SCHOOL_YEAR" := st.schoolYear, "YEAR_GU" := st.yearGu, "Name" := st.name,
                    "Survey" := m.survey, "Measure" := m.measure, "Value" := value,
                    "RowIDs" := st.rowId];
    if st.gradeGroup.Some? then base["Grade Group" := st.gradeGroup.value] else base
  }

  /** Every appended row holds exactly the stamp, the entry's labels and the value, under
      the labels of the new frame. */
  lemma {:induction false} NewRowCells(st: Stamp, m: Mapping, value: string)
    ensures var r := NewRow(st, m, value);
            (forall c :: c in r ==> c in NewRowColumns) &&
            CellOf(r, "SCHOOL_YEAR") == Some(st.schoolYear) && CellOf(r, "YEAR_GU") == Some(st.yearGu) &&
            CellOf(r, "Name") == Some(st.name) && CellOf(r, "RowIDs") == Some(st.rowId) &&
            CellOf(r, "Survey") == Some(m.survey) && CellOf(r, "Measure") == Some(m.measure) &&
            CellOf(r, "Value") == Some(value) && CellOf(r, "Grade Group") == st.gradeGroup
  {
  }

  /** `row[raw_df.columns[col_idx]]`; positions past the row never occur in a run that succeeds. */
  function CellAt(cells: seq<Cell>, index: nat): Cell
  {
    if index < |cells| then cells[index] else Missing
  }

  predicate Emits(cells: seq<Cell>, m: Mapping)
  {
    NormaliseValue(CellAt(cells, m.index)).Some?
  }

  /** The rows one mapping entry contributes: none for a skipped cell, else one. */
  function Emit(cells: seq<Cell>, m: Mapping, st: Stamp): seq<Row>
  {
    match NormaliseValue(CellAt(cells, m.index))
    case None => []
    case Some(v) => [NewRow(st, m, v)]
  }

  /** The rows one raw row contributes, entry by entry in mapping order. */
  function CellRows(cells: seq<Cell>, ms: seq<Mapping>, st: Stamp): seq<Row>
    decreases |ms|
  {
    if ms == [] then [] else CellRows(cells, ms[..|ms| - 1], st) + Emit(cells, ms[|ms| - 1], st)
  }

  /** The positions of the entries whose cell is not skipped, in mapping order. */
  function EmittingEntries(cells: seq<Cell>, ms: seq<Mapping>): seq<nat>
    decreases |ms|
  {
    if ms == [] then []
    else EmittingEntries(cells, ms[..|ms| - 1]) + (if Emits(cells, ms[|ms| - 1]) then [|ms| - 1] else [])
  }

  /** One pass of the inner loop of main.py:157-184: `rows` holds `before` followed by
      the rows of the first j entries; afterwards it also holds entry j's row, if any. */
  lemma {:induction false} CellRowsStep(before: seq<Row>, rows: seq<Row>, cells: seq<Cell>, ms: seq<Mapping>, j: nat, st: Stamp)
    requires j < |ms| && ms[j].index < |cells|
    requires rows == before + CellRows(cells, ms[..j], st)
    ensures NormaliseValue(cells[ms[j].index]).None? ==>
              rows == before + CellRows(cells, ms[..j + 1], st)
    ensures NormaliseValue(cells[ms[j].index]).Some? ==>
              rows + [NewRow(st, ms[j], NormaliseValue(cells[ms[j].index]).value)] ==
              before + CellRows(cells, ms[..j + 1], st)
  {
    assert ms[..j + 1][..j] == ms[..j];
    assert CellAt(cells, ms[j].index) == cells[ms[j].index];
  }

  /** Every listed entry emits, and the list ascends. */
  lemma {:induction false} EmittingEntriesSound(cells: seq<Cell>, ms: seq<Mapping>)
    ensures forall k :: 0 <= k < |EmittingEntries(cells, ms)| ==>
              EmittingEntries(cells, ms)[k] < |ms| && Emits(cells, ms[EmittingEntries(cells, ms)[k]])
    ensures forall k, l :: 0 <= k < l < |EmittingEntries(cells, ms)| ==>
              EmittingEntries(cells, ms)[k] < EmittingEntries(cells, ms)[l]
    decreases |ms|
  {
    if ms != [] {
      var n := |ms| - 1;
      var front := ms[..n];
      var rest := EmittingEntries(cells, front);
      EmittingEntriesSound(cells, front);
      var js := EmittingEntries(cells, ms);
      assert js == rest + (if Emits(cells, ms[n]) then [n] else []);
      forall k | 0 <= k < |js| ensures js[k] < |ms| && Emits(cells, ms[js[k]]) {
        if k < |rest| {
          assert js[k] == rest[k] && rest[k] < |front|;
          assert ms[rest[k]] == front[rest[k]];
        }
      }
      forall k, l | 0 <= k < l < |js| ensures js[k] < js[l] {
        if l < |rest| {
          assert js[k] == rest[k] && js[l] == rest[l];
        } else {
          assert js[k] == rest[k] && rest[k] < |front|;
        }
      }
    }
  }

  /** Every entry that emits is listed. */
  lemma {:induction false} EmittingEntriesComplete(cells: seq<Cell>, ms: seq<Mapping>)
    ensures forall j :: 0 <= j < |ms| && Emits(cells, ms[j]) ==> j in EmittingEntries(cells, ms)
    decreases |ms|
  {
    if ms != [] {
      var n := |ms| - 1;
      var front := ms[..n];
      EmittingEntriesComplete(cells, front);
      var rest := EmittingEntries(cells, front);
      var js := EmittingEntries(cells, ms);
      assert js == rest + (if Emits(cells, ms[n]) then [n] else []);
      forall j | 0 <= j < |ms| && Emits(cells, ms[j]) ensures j in js {
        if j < n {
          assert front[j] == ms[j];
          assert j in rest;
        }
      }
    }
  }

  /** A raw row contributes exactly one row per entry whose cell is not skipped, in
      mapping order, each carrying that entry's labels, the cell's normalised text and
      the raw row's stamp. */
  lemma {:induction false} CellRowsFollowEntries(cells: seq<Cell>, ms: seq<Mapping>, st: Stamp)
    ensures var rows := CellRows(cells, ms, st);
            var js := EmittingEntries(cells, ms);
            |rows| == |js| &&
            forall k :: 0 <= k < |js| ==>
              js[k] < |ms| && Emits(cells, ms[js[k]]) &&
              rows[k] == NewRow(st, ms[js[k]], NormaliseValue(CellAt(cells, ms[js[k]].index)).value)
    decreases |ms|
  {
    if ms != [] {
      var n := |ms| - 1;
      var front := ms[..n];
      CellRowsFollowEntries(cells, front, st);
      var before, rest := CellRows(cells, front, st), EmittingEntries(cells, front);
      var rows, js := CellRows(cells, ms, st), EmittingEntries(cells, ms);
      assert rows == before + Emit(cells, ms[n], st);
      assert js == rest + (if Emits(cells, ms[n]) then [n] else []);
      assert |Emit(cells, ms[n], st)| == (if Emits(cells, ms[n]) then 1 else 0);
      forall k | 0 <= k < |js|
        ensures js[k] < |ms| && Emits(cells, ms[js[k]]) &&
                rows[k] == NewRow(st, ms[js[k]], NormaliseValue(CellAt(cells, ms[js[k]].index)).value)
      {
        if k < |rest| {
          assert js[k] == rest[k] && rows[k] == before[k];
          assert ms[rest[k]] == front[rest[k]];
        }
      }
    }
  }

  /** `row['Name']`; a raw table without that label never gets past its first row. */
  function NameCell(raw: RawTable, i: nat): Cell
    requires i < |raw.rows|
  {
    match IndexOf(raw.columns, "Name")
    case Some(p) => CellAt(raw.rows[i], p)
    case None => Missing
  }

  /** The school name as text. For a name that is not text the source still builds and
      stores a key (such as "nan_2024"), but the run always fails at the substring test
      of the grade-group lookup, so that key never reaches the output. */
  function NameText(c: Cell): string
  {
    if c.Text? then c.s else ""
  }

  /** The school/year key of every raw row, in file order. */
  function Keys(raw: RawTable, year: string): (keys: seq<string>)
    ensures |keys| == |raw.rows|
  {
    KeysUpTo(raw, year, |raw.rows|)
  }

  /** The keys of the first n raw rows. */
  function KeysUpTo(raw: RawTable, year: string, n: nat): (keys: seq<string>)
    requires n <= |raw.rows|
    ensures |keys| == n
  {
    if n == 0 then [] else KeysUpTo(raw, year, n - 1) + [ComboKey(NameText(NameCell(raw, n - 1)), year)]
  }

  /** Raw row i's key is its school name and the year. */
  lemma {:induction false} KeyOfRow(raw: RawTable, year: string, i: nat)
    requires i < |raw.rows|
    ensures Keys(raw, year)[i] == ComboKey(NameText(NameCell(raw, i)), year)
  {
    KeysUpToAt(raw, year, |raw.rows|, i);
  }

  lemma {:induction false} KeysUpToAt(raw: RawTable, year: string, n: nat, i: nat)
    requires i < n <= |raw.rows|
    ensures KeysUpTo(raw, year, n)[i] == ComboKey(NameText(NameCell(raw, i)), year)
    decreases n
  {
    if i < n - 1 {
      KeysUpToAt(raw, year, n - 1, i);
    }
  }

  /** The exception processing raw row i raises, in the order the loop body meets them:
      the raw `Name` lookup, the grade-group lookup, then `raw_df.columns[col_idx]`. */
  function RowError(agg: Table, raw: RawTable, ms: seq<Mapping>, i: nat): Option<Error>
    requires i < |raw.rows|
  {
    if IndexOf(raw.columns, "Name").None? then Some(MissingColumn("Name"))
    else match ResolveGradeGroup(agg, NameCell(raw, i))
      case Failure(e) => Some(e)
      case Success(_) =>
        match FirstOutOfRange(ms, |raw.columns|)
        case Some(k) => Some(ColumnIndexOutOfRange(ms[k].index))
        case None => None
  }

  /** The first exception raised while scanning the raw rows from position `from` on. */
  function FirstRowError(agg: Table, raw: RawTable, ms: seq<Mapping>, from: nat): Option<Error>
    decreases |raw.rows| - from
  {
    if from >= |raw.rows| then None
    else match RowError(agg, raw, ms, from)
      case Some(e) => Some(e)
      case None => FirstRowError(agg, raw, ms, from + 1)
  }

  /** No first error means no raw row from `from` on raises; otherwise the first error
      is one a row there raises, and every row before that one raises nothing. */
  lemma {:induction false} FirstRowErrorSpec(agg: Table, raw: RawTable, ms: seq<Mapping>, from: nat)
    ensures FirstRowError(agg, raw, ms, from).None? <==>
            forall i :: from <= i < |raw.rows| ==> RowError(agg, raw, ms, i).None?
    ensures FirstRowError(agg, raw, ms, from).Some? ==>
            exists i :: from <= i < |raw.rows| && RowError(agg, raw, ms, i) == FirstRowError(agg, raw, ms, from) &&
                        forall l :: from <= l < i ==> RowError(agg, raw, ms, l).None?
    decreases |raw.rows| - from
  {
    if from < |raw.rows| && RowError(agg, raw, ms, from).None? {
      FirstRowErrorSpec(agg, raw, ms, from + 1);
      if FirstRowError(agg, raw, ms, from).Some? {
        var i :| from + 1 <= i < |raw.rows| && RowError(agg, raw, ms, i) == FirstRowError(agg, raw, ms, from + 1) &&
                 forall l :: from + 1 <= l < i ==> RowError(agg, raw, ms, l).None?;
        assert forall l :: from <= l < i ==> RowError(agg, raw, ms, l).None?;
      }
    }
  }

  function GradeOf(agg: Table, raw: RawTable, i: nat): Option<string>
    requires i < |raw.rows|
  {
    match ResolveGradeGroup(agg, NameCell(raw, i))
    case Success(g) => g
    case Failure(_) => None
  }

  /** The stamp of raw row i, its identifier numbered from `start`. */
  function RowStamp(agg: Table, raw: RawTable, cfg: Config, start: int, i: nat): Stamp
    requires i < |raw.rows|
  {
    Stamp(cfg.schoolYear, cfg.yearGu, GradeOf(agg, raw, i), NameText(NameCell(raw, i)),
          RowIdText(IdNum(Keys(raw, cfg.schoolYear), start, i)))
  }

  /** The stamps of the first n raw rows, in file order. */
  function StampsUpTo(agg: Table, raw: RawTable, cfg: Config, start: int, n: nat): (st: seq<Stamp>)
    requires n <= |raw.rows|
    ensures |st| == n
  {
    if n == 0 then [] else StampsUpTo(agg, raw, cfg, start, n - 1) + [RowStamp(agg, raw, cfg, start, n - 1)]
  }

  lemma {:induction false} StampsUpToAt(agg: Table, raw: RawTable, cfg: Config, start: int, n: nat, i: nat)
    requires i < n <= |raw.rows|
    ensures StampsUpTo(agg, raw, cfg, start, n)[i] == RowStamp(agg, raw, cfg, start, i)
    decreases n
  {
    var front := StampsUpTo(agg, raw, cfg, start, n - 1);
    assert StampsUpTo(agg, raw, cfg, start, n) == front + [RowStamp(agg, raw, cfg, start, n - 1)];
    if i < n - 1 {
      StampsUpToAt(agg, raw, cfg, start, n - 1, i);
    }
  }

  /** The cell rows of the first n raw rows, each under its stamp, one raw row after another. */
  function Expand(rows: seq<seq<Cell>>, ms: seq<Mapping>, stamps: seq<Stamp>, n: nat): seq<Row>
    requires n <= |rows| && n <= |stamps|
  {
    if n == 0 then [] else Expand(rows, ms, stamps, n - 1) + CellRows(rows[n - 1], ms, stamps[n - 1])
  }

  /** new_rows after the first n raw rows. */
  function NewRows(agg: Table, raw: RawTable, cfg: Config, ms: seq<Mapping>, start: int, n: nat): seq<Row>
    requires n <= |raw.rows|
  {
    Expand(raw.rows, ms, StampsUpTo(agg, raw, cfg, start, |raw.rows|), n)
  }

  /** The whole transformation, stated on values: the combined table, or the first
      exception the source raises. */
  function Combined(agg: Table, raw: RawTable, cfg: Config): Result<Table>
  {
    match NextRowId(agg)
    case Failure(e) => Failure(e)
    case Success(start) =>
      match FirstRowError(agg, raw, ColumnMappings(), 0)
      case Some(e) => Failure(e)
      case None =>
        match WithSurvey(agg)
        case Failure(e) => Failure(e)
        case Success(t) => Success(Concat(t, NewRows(agg, raw, cfg, ColumnMappings(), start, |raw.rows|)))
  }

  /** The first mapping entry past the raw table's width is the one the loop stops at. */
  lemma {:induction false} FirstOutOfRangeAt(ms: seq<Mapping>, width: nat, j: nat)
    requires j < |ms| && ms[j].index >= width
    requires forall l :: 0 <= l < j ==> ms[l].index < width
    ensures FirstOutOfRange(ms, width) == Some(j)
  {
  }

  /** A raw row that raises nothing leaves the first error to the rows after it and
      appends its cell rows. */
  lemma {:induction false} RowPasses(agg: Table, raw: RawTable, cfg: Config, ms: seq<Mapping>, start: int, i: nat)
    requires i < |raw.rows| && RowError(agg, raw, ms, i).None?
    ensures FirstRowError(agg, raw, ms, i) == FirstRowError(agg, raw, ms, i + 1)
    ensures NewRows(agg, raw, cfg, ms, start, i + 1) ==
            NewRows(agg, raw, cfg, ms, start, i) + CellRows(raw.rows[i], ms, RowStamp(agg, raw, cfg, start, i))
  {
    StampsUpToAt(agg, raw, cfg, start, |raw.rows|, i);
  }

  /** A raw row that raises is where the run stops, unless an earlier one did. */
  lemma {:induction false} RowFails(agg: Table, raw: RawTable, ms: seq<Mapping>, i: nat)
    requires i < |raw.rows| && RowError(agg, raw, ms, i).Some?
    ensures FirstRowError(agg, raw, ms, i) == RowError(agg, raw, ms, i)
  {
  }

  /** The inner loop of main.py:157-184 for one raw row: new_rows extended by one row
      per mapped cell that is not skipped, or the IndexError of the first mapped
      position past the raw table's last column. */
  method AppendCellRows(newRows: seq<Row>, row: seq<Cell>, ms: seq<Mapping>, width: nat, stamp: Stamp)
    returns (r: Result<seq<Row>>)
    requires |row| == width
    ensures FirstOutOfRange(ms, width).None? ==> r == Success(newRows + CellRows(row, ms, stamp))
    ensures FirstOutOfRange(ms, width).Some? ==>
              r == Failure(ColumnIndexOutOfRange(ms[FirstOutOfRange(ms, width).value].index))
  {
    var rows := newRows;
    var j := 0;
    while j < |ms|
      invariant j <= |ms|
      invariant forall l :: 0 <= l < j ==> ms[l].index < width
      invariant rows == newRows + CellRows(row, ms[..j], stamp)
    {
      var mapping := ms[j];
      if mapping.index >= width {
        FirstOutOfRangeAt(ms, width, j);
        return Failure(ColumnIndexOutOfRange(mapping.index));
      }
      var value := NormaliseValue(row[mapping.index]);
      CellRowsStep(newRows, rows, row, ms, j, stamp);
      if value.Some? {
        rows := rows + [NewRow(stamp, mapping, value.value)];
      }
      assert rows == newRows + CellRows(row, ms[..j + 1], stamp);
      assert forall l :: 0 <= l < j + 1 ==> ms[l].index < width by {
        assert ms[j].index < width;
      }
      j := j + 1;
    }
    assert ms[..j] == ms;
    return Success(rows);
  }

  /** The row loop's state after the first i raw rows: none of them raised an
      exception the rows before them did not, every school/year key met so far has its
      identifier, the counter is the next number free, and new_rows holds their cell rows. */
  ghost predicate Progress(agg: Table, raw: RawTable, cfg: Config, ms: seq<Mapping>, start: int, i: nat,
                           assignments: map<string, string>, counter: int, rows: seq<Row>)
  {
    i <= |raw.rows| &&
    FirstRowError(agg, raw, ms, 0) == FirstRowError(agg, raw, ms, i) &&
    assignments == Assigned(Keys(raw, cfg.schoolYear), start, i) &&
    counter == start + |assignments| &&
    rows == NewRows(agg, raw, cfg, ms, start, i)
  }

  /** One pass of the row loop (main.py:130-184) over raw row i: its identifier, looked
      up or allocated, its grade group, then its cell rows; or the exception it raises. */
  method ProcessRow(agg: Table, raw: RawTable, cfg: Config, ms: seq<Mapping>, start: int, i: nat,
                    nameLoc: Option<nat>, assignments: map<string, string>, counter: int, rows: seq<Row>)
    returns (err: Option<Error>, assignments': map<string, string>, counter': int, rows': seq<Row>)
    requires WellFormedRaw(raw) && i < |raw.rows| && nameLoc == IndexOf(raw.columns, "Name")
    requires Progress(agg, raw, cfg, ms, start, i, assignments, counter, rows)
    ensures err.Some? ==> FirstRowError(agg, raw, ms, 0) == err
    ensures err.None? ==> Progress(agg, raw, cfg, ms, start, i + 1, assignments', counter', rows')
  {
    ghost var keys := Keys(raw, cfg.schoolYear);
    if nameLoc.None? {
      RowFails(agg, raw, ms, i);
      return Some(MissingColumn("Name")), assignments, counter, rows;
    }
    var schoolName := raw.rows[i][nameLoc.value];
    var year := cfg.schoolYear;
    var comboKey := ComboKey(NameText(schoolName), year);
    KeyOfRow(raw, year, i);
    assert schoolName == NameCell(raw, i) && comboKey == keys[i];
    AssignedFollowsIdNum(keys, start, i);
    AssignedStep(keys, start, i);
    var newRowAssignments := assignments;
    var nextRowNum := counter;
    if comboKey !in newRowAssignments {
      newRowAssignments := newRowAssignments[comboKey := RowIdText(nextRowNum)];
      nextRowNum := nextRowNum + 1;
    }
    assert newRowAssignments == Assigned(keys, start, i + 1);
    var rowId := newRowAssignments[comboKey];
    var gradeGroup := ResolveGradeGroup(agg, schoolName);
    if gradeGroup.Failure? {
      RowFails(agg, raw, ms, i);
      return Some(gradeGroup.error), assignments, counter, rows;
    }
    assert gradeGroup.value == GradeOf(agg, raw, i);
    var stamp := Stamp(year, cfg.yearGu, gradeGroup.value, NameText(schoolName), rowId);
    assert stamp == RowStamp(agg, raw, cfg, start, i);
    var appended := AppendCellRows(rows, raw.rows[i], ms, |raw.columns|, stamp);
    if appended.Failure? {
      RowFails(agg, raw, ms, i);
      return Some(appended.error), assignments, counter, rows;
    }
    RowPasses(agg, raw, cfg, ms, start, i);
    return None, newRowAssignments, nextRowNum, appended.value;
  }

  /** The row loop of main.py:130-184: new_rows for every raw row, identifiers counted
      up from `start`, or the first exception a raw row raises. */
  method BuildNewRows(agg: Table, raw: RawTable, cfg: Config, ms: seq<Mapping>, start: int) returns (r: Result<seq<Row>>)
    requires WellFormedRaw(raw)
    ensures FirstRowError(agg, raw, ms, 0).Some? ==> r == Failure(FirstRowError(agg, raw, ms, 0).value)
    ensures FirstRowError(agg, raw, ms, 0).None? ==> r == Success(NewRows(agg, raw, cfg, ms, start, |raw.rows|))
  {
    var nextRowNum := start;
    var newRows: seq<Row> := [];
    var newRowAssignments: map<string, string> := map[];
    var nameLoc := IndexOf(raw.columns, "Name");
    var i := 0;
    while i < |raw.rows|
      invariant Progress(agg, raw, cfg, ms, start, i, newRowAssignments, nextRowNum, newRows)
    {
      var err;
      err, newRowAssignments, nextRowNum, newRows := ProcessRow(agg, raw, cfg, ms, start, i, nameLoc, newRowAssignments, nextRowNum, newRows);
      if err.Some? {
        return Failure(err.value);
      }
      i := i + 1;
    }
    assert FirstRowError(agg, raw, ms, i).None?;
    return Success(newRows);
  }

  /** combine_pano_data's transformation body (main.py:118-194): the next row number,
      the new rows, the `Survey` repair, then the concatenation. */
  method CombinePanoData(agg: Table, raw: RawTable, cfg: Config) returns (result: Result<Table>)
    requires WellFormedRaw(raw)
    ensures result == Combined(agg, raw, cfg)
  {
    var columnMappings := ColumnMappings();
    var first := NextRowId(agg);
    if first.Failure? {
      return Failure(first.error);
    }
    var newRows := BuildNewRows(agg, raw, cfg, columnMappings, first.value);
    if newRows.Failure? {
      return Failure(newRows.error);
    }
    var withSurvey := WithSurvey(agg);
    if withSurvey.Failure? {
      return Failure(withSurvey.error);
    }
    result := Success(Concat(withSurvey.value, newRows.value));
  }

  /** Every row a raw row contributes carries the raw row's stamp and an entry's labels,
      and holds no cell outside the labels of the new frame. */
  lemma {:induction false} CellRowsStamped(cells: seq<Cell>, ms: seq<Mapping>, st: Stamp)
    ensures forall k :: 0 <= k < |CellRows(cells, ms, st)| ==>
              var r := CellRows(cells, ms, st)[k];
              (forall c :: c in r ==> c in NewRowColumns) &&
              CellOf(r, "SCHOOL_YEAR") == Some(st.schoolYear) && CellOf(r, "YEAR_GU") == Some(st.yearGu) &&
              CellOf(r, "Name") == Some(st.name) && CellOf(r, "RowIDs") == Some(st.rowId) &&
              CellOf(r, "Grade Group") == st.gradeGroup &&
              exists j :: 0 <= j < |ms| && CellOf(r, "Survey") == Some(ms[j].survey) &&
                          CellOf(r, "Measure") == Some(ms[j].measure)
  {
    CellRowsFollowEntries(cells, ms, st);
    var rows, js := CellRows(cells, ms, st), EmittingEntries(cells, ms);
    forall k | 0 <= k < |rows|
      ensures var r := rows[k];
              (forall c :: c in r ==> c in NewRowColumns) &&
              CellOf(r, "SCHOOL_YEAR") == Some(st.schoolYear) && CellOf(r, "YEAR_GU") == Some(st.yearGu) &&
              CellOf(r, "Name") == Some(st.name) && CellOf(r, "RowIDs") == Some(st.rowId) &&
              CellOf(r, "Grade Group") == st.gradeGroup &&
              exists j :: 0 <= j < |ms| && CellOf(r, "Survey") == Some(ms[j].survey) &&
                          CellOf(r, "Measure") == Some(ms[j].measure)
    {
      var j := js[k];
      NewRowCells(st, ms[j], NormaliseValue(CellAt(cells, ms[j].index)).value);
    }
  }

  /** The rows of the earlier raw rows come first: the expansion of i raw rows is a
      prefix of the expansion of n. */
  lemma {:induction false} ExpandPrefix(rows: seq<seq<Cell>>, ms: seq<Mapping>, stamps: seq<Stamp>, i: nat, n: nat)
    requires i <= n <= |rows| && n <= |stamps|
    ensures Expand(rows, ms, stamps, i) <= Expand(rows, ms, stamps, n)
    decreases n
  {
    if i < n {
      ExpandPrefix(rows, ms, stamps, i, n - 1);
      var a, b := Expand(rows, ms, stamps, i), Expand(rows, ms, stamps, n - 1);
      assert Expand(rows, ms, stamps, n)[..|a|] == b[..|a|];
    }
  }

  /** new_rows only grows: after i raw rows it is a prefix of new_rows after n. */
  lemma {:induction false} NewRowsPrefix(agg: Table, raw: RawTable, cfg: Config, ms: seq<Mapping>,
                                         start: int, i: nat, n: nat)
    requires i <= n <= |raw.rows|
    ensures NewRows(agg, raw, cfg, ms, start, i) <= NewRows(agg, raw, cfg, ms, start, n)
  {
    ExpandPrefix(raw.rows, ms, StampsUpTo(agg, raw, cfg, start, |raw.rows|), i, n);
  }

  /** Rows expanded under stamps that all carry one school year and YEAR_GU hold only
      labels of the new frame and carry that year and YEAR_GU. */
  lemma {:induction false} ExpandStamped(rows: seq<seq<Cell>>, ms: seq<Mapping>, stamps: seq<Stamp>, n: nat,
                                         year: string, yearGu: string)
    requires n <= |rows| && n <= |stamps|
    requires forall k :: 0 <= k < n ==> stamps[k].schoolYear == year && stamps[k].yearGu == yearGu
    ensures forall k :: 0 <= k < |Expand(rows, ms, stamps, n)| ==>
              (forall c :: c in Expand(rows, ms, stamps, n)[k] ==> c in NewRowColumns) &&
              CellOf(Expand(rows, ms, stamps, n)[k], "SCHOOL_YEAR") == Some(year) &&
              CellOf(Expand(rows, ms, stamps, n)[k], "YEAR_GU") == Some(yearGu)
    decreases n
  {
    if n > 0 {
      ExpandStamped(rows, ms, stamps, n - 1, year, yearGu);
      var before := Expand(rows, ms, stamps, n - 1);
      var mine := CellRows(rows[n - 1], ms, stamps[n - 1]);
      CellRowsStamped(rows[n - 1], ms, stamps[n - 1]);
      var all := Expand(rows, ms, stamps, n);
      assert all == before + mine;
      forall k | 0 <= k < |all|
        ensures (forall c :: c in all[k] ==> c in NewRowColumns) &&
                CellOf(all[k], "SCHOOL_YEAR") == Some(year) && CellOf(all[k], "YEAR_GU") == Some(yearGu)
      {
        if k < |before| {
          assert all[k] == before[k];
        } else {
          assert all[k] == mine[k - |before|];
        }
      }
    }
  }

  /** Every new row holds only labels of the new frame and carries the configured school
      year and YEAR_GU. */
  lemma {:induction false} NewRowsStamped(agg: Table, raw: RawTable, cfg: Config, ms: seq<Mapping>,
                                          start: int, n: nat)
    requires n <= |raw.rows|
    ensures forall k :: 0 <= k < |NewRows(agg, raw, cfg, ms, start, n)| ==>
              (forall c :: c in NewRows(agg, raw, cfg, ms, start, n)[k] ==> c in NewRowColumns) &&
              CellOf(NewRows(agg, raw, cfg, ms, start, n)[k], "SCHOOL_YEAR") == Some(cfg.schoolYear) &&
              CellOf(NewRows(agg, raw, cfg, ms, start, n)[k], "YEAR_GU") == Some(cfg.yearGu)
  {
    var stamps := StampsUpTo(agg, raw, cfg, start, |raw.rows|);
    forall k | 0 <= k < n ensures stamps[k].schoolYear == cfg.schoolYear && stamps[k].yearGu == cfg.yearGu {
      StampsUpToAt(agg, raw, cfg, start, |raw.rows|, k);
    }
    ExpandStamped(raw.rows, ms, stamps, n, cfg.schoolYear, cfg.yearGu);
  }

  /** Two raw rows' new rows share a RowIDs value exactly when the rows name the same
      school: identifiers follow school/year keys, one per key. */
  lemma {:induction false} SameRowIdIffSameSchool(agg: Table, raw: RawTable, cfg: Config, start: int, i: nat, j: nat)
    requires i < |raw.rows| && j < |raw.rows|
    ensures RowStamp(agg, raw, cfg, start, i).rowId == RowStamp(agg, raw, cfg, start, j).rowId <==>
            NameText(NameCell(raw, i)) == NameText(NameCell(raw, j))
  {
    var keys := Keys(raw, cfg.schoolYear);
    KeyOfRow(raw, cfg.schoolYear, i);
    KeyOfRow(raw, cfg.schoolYear, j);
    IdSharedIffSameKey(keys, start, i, j);
    RowIdTextInjective(IdNum(keys, start, i), IdNum(keys, start, j));
    ComboKeyInjective(NameText(NameCell(raw, i)), NameText(NameCell(raw, j)), cfg.schoolYear);
  }

  /** A raw row's identifier is none already in the aggregate table, and reads back as a
      number above all of theirs. */
  lemma {:induction false} RowIdFresh(agg: Table, raw: RawTable, cfg: Config, i: nat)
    requires i < |raw.rows| && NextRowId(agg).Success?
    ensures var id := RowStamp(agg, raw, cfg, NextRowId(agg).value, i).rowId;
            ParseRowId(id).Some? &&
            forall k :: 0 <= k < |agg.rows| ==>
              agg.rows[k]["RowIDs"] != id && RowIdNum(agg.rows[k]).value < ParseRowId(id).value
  {
    var keys := Keys(raw, cfg.schoolYear);
    var start := NextRowId(agg).value;
    NewIdFresh(agg, keys, start, i);
    RowIdRoundTrip(IdNum(keys, start, i));
  }

  /** A run that succeeds returns one row per old row and new row, the old rows first, in
      their order, each with an empty `Survey` cell when that label was missing and
      otherwise unchanged. */
  lemma {:induction false} CombineKeepsOldRows(agg: Table, raw: RawTable, cfg: Config, t: Table)
    requires Combined(agg, raw, cfg) == Success(t)
    ensures NextRowId(agg).Success?
    ensures |t.rows| == |agg.rows| + |NewRows(agg, raw, cfg, ColumnMappings(), NextRowId(agg).value, |raw.rows|)|
    ensures forall k :: 0 <= k < |agg.rows| ==>
              t.rows[k] == if "Survey" in agg.columns then agg.rows[k] else agg.rows[k]["Survey" := ""]
  {
    CombineShape(agg, raw, cfg, t);
    SurveyRows(agg);
  }

  /** After the old rows come the new rows, in order. */
  lemma {:induction false} CombineAppendsNewRows(agg: Table, raw: RawTable, cfg: Config, t: Table)
    requires Combined(agg, raw, cfg) == Success(t)
    ensures NextRowId(agg).Success?
    ensures forall k :: 0 <= k < |NewRows(agg, raw, cfg, ColumnMappings(), NextRowId(agg).value, |raw.rows|)| ==>
              t.rows[|agg.rows| + k] == NewRows(agg, raw, cfg, ColumnMappings(), NextRowId(agg).value, |raw.rows|)[k]
  {
    CombineShape(agg, raw, cfg, t);
    SurveyRows(agg);
  }

  /** A run that succeeds is the concatenation of the repaired aggregate table and the
      new rows, numbered from the aggregate table's next row number. */
  lemma {:induction false} CombineShape(agg: Table, raw: RawTable, cfg: Config, t: Table)
    requires Combined(agg, raw, cfg) == Success(t)
    ensures NextRowId(agg).Success? && WithSurvey(agg).Success?
    ensures t == Concat(WithSurvey(agg).value, NewRows(agg, raw, cfg, ColumnMappings(), NextRowId(agg).value, |raw.rows|))
  {
  }

  /** The rows of the repaired aggregate table. */
  lemma {:induction false} SurveyRows(agg: Table)
    requires WithSurvey(agg).Success?
    ensures |WithSurvey(agg).value.rows| == |agg.rows|
    ensures forall k :: 0 <= k < |agg.rows| ==>
              WithSurvey(agg).value.rows[k] ==
                if "Survey" in agg.columns then agg.rows[k] else agg.rows[k]["Survey" := ""]
  {
    if "Survey" !in agg.columns {
      assert WithSurvey(agg).value == InsertColumn(agg, IndexOf(agg.columns, "Measure").value, "Survey", "");
    }
  }

  /** A well-formed aggregate table stays well formed: labels distinct, no cell outside them. */
  lemma {:induction false} CombineWellFormed(agg: Table, raw: RawTable, cfg: Config)
    requires WellFormedTable(agg) && Combined(agg, raw, cfg).Success?
    ensures WellFormedTable(Combined(agg, raw, cfg).value)
  {
    var u := WithSurvey(agg).value;
    if "Survey" !in agg.columns {
      SurveyWellFormed(agg);
    }
    var news := NewRows(agg, raw, cfg, ColumnMappings(), NextRowId(agg).value, |raw.rows|);
    NewRowsStamped(agg, raw, cfg, ColumnMappings(), NextRowId(agg).value, |raw.rows|);
    ConcatWellFormed(u, news);
  }

  /** With no cell left to append, the result is the aggregate table itself, repaired. */
  lemma {:induction false} NoNewRowsKeepsTable(agg: Table, raw: RawTable, cfg: Config)
    requires Combined(agg, raw, cfg).Success?
    requires NewRows(agg, raw, cfg, ColumnMappings(), NextRowId(agg).value, |raw.rows|) == []
    ensures Combined(agg, raw, cfg) == WithSurvey(agg)
  {
    var u := WithSurvey(agg).value;
    assert Concat(u, []) == u by {
      assert u.columns + [] == u.columns && u.rows + [] == u.rows;
    }
  }

  /** The run as main.py:207-223 finishes it: the summary printout reads
      `new_df['Grade Group']` before the table is written, and a frame built from an
      empty list has no labels, so a run that appends nothing raises KeyError and
      writes nothing. */
  function CombineAsWritten(agg: Table, raw: RawTable, cfg: Config): Result<Table>
  {
    match Combined(agg, raw, cfg)
    case Failure(e) => Failure(e)
    case Success(t) =>
      if |t.rows| == |agg.rows| then Failure(MissingColumn("Grade Group")) else Success(t)
  }

  /** An aggregate table of one row, whose identifier is `Row1`. */
  function SampleAggregate(): Table
  {
    Table(["Name", "Grade Group", "Measure", "RowIDs"],
          [map["Name" := "Sample Elementary School", "Grade Group" := "Elementary",
               "Measure" := "Self-Efficacy", "RowIDs" := "Row1"]])
  }

  /** Its next row number is 2. */
  lemma {:induction false} SampleNextRowId()
    ensures NextRowId(SampleAggregate()) == Success(2)
  {
    var agg := SampleAggregate();
    assert RowIdText(1) == "Row1" by {
      assert IntToString(1) == "1";
    }
    RowIdRoundTrip(1);
    assert RowIdNum(agg.rows[0]) == Success(1);
    assert FirstBadRowId(agg.rows) == None;
  }

  /** With a raw export of no rows, the run appends nothing and returns the table with
      its `Survey` repair. */
  lemma {:induction false} SampleEmptyExport()
    ensures var agg := SampleAggregate();
            Combined(agg, RawTable(["Name"], []), Config("2024-2025", "25")) == WithSurvey(agg)
  {
    var agg := SampleAggregate();
    var raw := RawTable(["Name"], []);
    var cfg := Config("2024-2025", "25");
    SampleNextRowId();
    assert FirstRowError(agg, raw, ColumnMappings(), 0) == None;
    assert NewRows(agg, raw, cfg, ColumnMappings(), 2, 0) == [];
    NoNewRowsKeepsTable(agg, raw, cfg);
  }

  /** An aggregate table with one row and a raw export with no rows: the transformation
      succeeds with the table unchanged but for `Survey`, yet the run as written fails. */
  lemma {:induction false} EmptyExportNotWritten()
    ensures var agg := SampleAggregate();
            var raw := RawTable(["Name"], []);
            var cfg := Config("2024-2025", "25");
            Combined(agg, raw, cfg).Success? &&
            Combined(agg, raw, cfg) == WithSurvey(agg) &&
            CombineAsWritten(agg, raw, cfg) == Failure(MissingColumn("Grade Group"))
  {
    var agg := SampleAggregate();
    SampleEmptyExport();
    SurveyRows(agg);
  }
}
