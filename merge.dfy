/** Schema repair and concatenation (main.py:186-194): a missing `Survey`
    column is inserted before `Measure`, then the new rows follow the old ones. */
module Merge {
  import opened Options
  import opened Tables

  /** The labels of the data frame built from the new-row dictionaries, in key order. */
  const NewRowColumns: seq<string> :=
    ["SCHOOL_YEAR", "YEAR_GU", "Grade Group", "Name", "Survey", "Measure", "Value", "RowIDs"]

  /** `t.insert(loc, name, default)`. */
  function InsertColumn(t: Table, loc: nat, name: string, default: string): (r: Table)
    requires loc <= |t.columns|
    ensures |r.columns| == |t.columns| + 1 && r.columns[loc] == name
    ensures r.columns[..loc] == t.columns[..loc] && r.columns[loc + 1..] == t.columns[loc..]
    ensures |r.rows| == |t.rows|
    ensures forall k :: 0 <= k < |r.rows| ==> r.rows[k] == t.rows[k][name := default]
  {
    Table(t.columns[..loc] + [name] + t.columns[loc..],
          seq(|t.rows|, k requires 0 <= k < |t.rows| => t.rows[k][name := default]))
  }

  /** main.py:190-191: the table with a `Survey` column, or the KeyError get_loc raises. */
  function WithSurvey(t: Table): (r: Result<Table>)
    ensures "Survey" in t.columns ==> r == Success(t)
    ensures "Survey" !in t.columns && "Measure" !in t.columns ==> r == Failure(MissingColumn("Measure"))
    ensures "Survey" !in t.columns && "Measure" in t.columns ==> r.Success?
  {
    if "Survey" in t.columns then Success(t)
    else match IndexOf(t.columns, "Measure")
      case None => Failure(MissingColumn("Measure"))
      case Some(loc) => Success(InsertColumn(t, loc, "Survey", ""))
  }

  /** A table without `Survey` gains it immediately before `Measure`, and removing
      it again gives the old labels. */
  lemma {:induction false} SurveyBeforeMeasure(t: Table)
    requires "Survey" !in t.columns && "Measure" in t.columns
    ensures var u := WithSurvey(t).value;
            var loc := IndexOf(t.columns, "Measure").value;
            IndexOf(u.columns, "Survey") == Some(loc) &&
            IndexOf(u.columns, "Measure") == Some(loc + 1) &&
            u.columns[..loc] + u.columns[loc + 1..] == t.columns
  {
    var u := WithSurvey(t).value;
    var loc := IndexOf(t.columns, "Measure").value;
    assert u.columns[..loc] == t.columns[..loc];
    assert "Survey" !in u.columns[..loc];
    assert u.columns[loc + 1] == "Measure";
    assert u.columns[..loc + 1] == t.columns[..loc] + ["Survey"];
    assert "Measure" !in u.columns[..loc + 1];
    assert t.columns == t.columns[..loc] + t.columns[loc..];
  }

  /** Every old row reads '' under the inserted `Survey` and is otherwise unchanged. */
  lemma {:induction false} SurveyDefaultsEmpty(t: Table)
    requires "Survey" !in t.columns && "Measure" in t.columns
    ensures var u := WithSurvey(t).value;
            |u.rows| == |t.rows| &&
            forall k :: 0 <= k < |u.rows| ==>
              u.rows[k]["Survey"] == "" &&
              forall c :: c != "Survey" ==> (c in u.rows[k] <==> c in t.rows[k]) &&
                                            (c in t.rows[k] ==> u.rows[k][c] == t.rows[k][c])
  {
  }

  /** Inserting `Survey` keeps a table well formed. */
  lemma {:induction false} SurveyWellFormed(t: Table)
    requires WellFormedTable(t) && WithSurvey(t).Success?
    ensures WellFormedTable(WithSurvey(t).value)
  {
    if "Survey" !in t.columns {
      var u := WithSurvey(t).value;
      var loc := IndexOf(t.columns, "Measure").value;
      assert u == InsertColumn(t, loc, "Survey", "");
      forall i, j | 0 <= i < j < |u.columns| ensures u.columns[i] != u.columns[j] {
        ColumnAfterInsert(t, loc, u, i);
        ColumnAfterInsert(t, loc, u, j);
      }
      forall k, c | 0 <= k < |u.rows| && c in u.rows[k] ensures c in u.columns {
        if c != "Survey" {
          assert u.rows[k] == t.rows[k]["Survey" := ""];
          assert c in t.rows[k];
          assert c in t.columns;
          var p :| 0 <= p < |t.columns| && t.columns[p] == c;
          ColumnAfterInsert(t, loc, u, if p < loc then p else p + 1);
        }
      }
    }
  }

  lemma {:induction false} ColumnAfterInsert(t: Table, loc: nat, u: Table, i: nat)
    requires loc <= |t.columns| && u == InsertColumn(t, loc, "Survey", "") && i < |u.columns|
    ensures i < loc ==> u.columns[i] == t.columns[i]
    ensures i == loc ==> u.columns[i] == "Survey"
    ensures i > loc ==> u.columns[i] == t.columns[i - 1]
  {
    if i < loc {
      assert u.columns[i] == u.columns[..loc][i];
    } else if i > loc {
      assert u.columns[i] == u.columns[loc + 1..][i - loc - 1];
    }
  }

  /** The labels of `cs` that `have` lacks, in their order. */
  function ColumnsNotIn(cs: seq<string>, have: seq<string>): (r: seq<string>)
    ensures forall c :: c in r <==> c in cs && c !in have
    ensures Distinct(cs) ==> Distinct(r)
  {
    if cs == [] then []
    else if cs[0] in have then ColumnsNotIn(cs[1..], have)
    else [cs[0]] + ColumnsNotIn(cs[1..], have)
  }

  /** `u` occurs in `cs` before some occurrence of `v`. */
  predicate Before(cs: seq<string>, u: string, v: string)
  {
    exists a, b :: 0 <= a < b < |cs| && cs[a] == u && cs[b] == v
  }

  /** Any two labels of `r` appear in `cs` in the same order. */
  predicate OrderedAsIn(r: seq<string>, cs: seq<string>)
  {
    forall i, j :: 0 <= i < j < |r| ==> Before(cs, r[i], r[j])
  }

  /** Putting a label in front of `cs` keeps `r`'s order in it. */
  lemma {:induction false} OrderedSkip(r: seq<string>, x: string, cs: seq<string>)
    requires OrderedAsIn(r, cs)
    ensures OrderedAsIn(r, [x] + cs)
  {
    forall i, j | 0 <= i < j < |r| ensures Before([x] + cs, r[i], r[j]) {
      var a, b :| 0 <= a < b < |cs| && cs[a] == r[i] && cs[b] == r[j];
      assert ([x] + cs)[a + 1] == r[i] && ([x] + cs)[b + 1] == r[j];
    }
  }

  /** Putting the same label in front of both keeps the order, when `r`'s labels are in `cs`. */
  lemma {:induction false} OrderedCons(r: seq<string>, x: string, cs: seq<string>)
    requires OrderedAsIn(r, cs) && forall k :: 0 <= k < |r| ==> r[k] in cs
    ensures OrderedAsIn([x] + r, [x] + cs)
  {
    var xr, xs := [x] + r, [x] + cs;
    forall i, j | 0 <= i < j < |xr| ensures Before(xs, xr[i], xr[j]) {
      if i == 0 {
        assert r[j - 1] in cs;
        var b :| 0 <= b < |cs| && cs[b] == r[j - 1];
        assert xs[0] == xr[0] && xs[b + 1] == xr[j];
      } else {
        assert Before(cs, r[i - 1], r[j - 1]);
        var a, b :| 0 <= a < b < |cs| && cs[a] == r[i - 1] && cs[b] == r[j - 1];
        assert xs[a + 1] == xr[i] && xs[b + 1] == xr[j];
      }
    }
  }

  /** The missing labels keep the order they have in `cs`. */
  lemma {:induction false} ColumnsNotInOrder(cs: seq<string>, have: seq<string>)
    ensures OrderedAsIn(ColumnsNotIn(cs, have), cs)
    decreases |cs|
  {
    if cs != [] {
      var tail := cs[1..];
      assert cs == [cs[0]] + tail;
      ColumnsNotInOrder(tail, have);
      var rt := ColumnsNotIn(tail, have);
      if cs[0] in have {
        OrderedSkip(rt, cs[0], tail);
      } else {
        assert forall k :: 0 <= k < |rt| ==> rt[k] in tail;
        OrderedCons(rt, cs[0], tail);
      }
    }
  }

  /** `pd.concat([t, new_df], ignore_index=True)`: the old rows in their order, then the
      new rows in theirs, nothing merged or dropped; labels of the new frame the old one
      lacks are appended after the old labels (an empty new frame has none). */
  function Concat(t: Table, newRows: seq<Row>): (r: Table)
    ensures |r.rows| == |t.rows| + |newRows| && |r.columns| >= |t.columns|
    ensures forall k :: 0 <= k < |t.rows| ==> r.rows[k] == t.rows[k]
    ensures forall k :: 0 <= k < |newRows| ==> r.rows[|t.rows| + k] == newRows[k]
    ensures r.columns[..|t.columns|] == t.columns
    ensures newRows == [] ==> r.columns == t.columns
    ensures newRows != [] ==> forall c :: c in NewRowColumns ==> c in r.columns
  {
    Table(t.columns + (if newRows == [] then [] else ColumnsNotIn(NewRowColumns, t.columns)),
          t.rows + newRows)
  }

  /** After the old labels come exactly the new frame's labels the old table lacks,
      each once and in the new frame's order. */
  lemma {:induction false} ConcatColumnOrder(t: Table, newRows: seq<Row>)
    requires newRows != []
    ensures var extra := Concat(t, newRows).columns[|t.columns|..];
            (forall c :: c in extra <==> c in NewRowColumns && c !in t.columns) &&
            Distinct(extra) && OrderedAsIn(extra, NewRowColumns)
  {
    var r := Concat(t, newRows);
    var extra := ColumnsNotIn(NewRowColumns, t.columns);
    assert r.columns == t.columns + extra;
    assert r.columns[|t.columns|..] == extra;
    assert Distinct(NewRowColumns);
    ColumnsNotInOrder(NewRowColumns, t.columns);
  }

  /** Appending rows whose cells lie in the new frame's labels keeps a table well formed. */
  lemma {:induction false} ConcatWellFormed(t: Table, newRows: seq<Row>)
    requires WellFormedTable(t)
    requires forall k, c :: 0 <= k < |newRows| && c in newRows[k] ==> c in NewRowColumns
    ensures WellFormedTable(Concat(t, newRows))
  {
    var r := Concat(t, newRows);
    var extra := r.columns[|t.columns|..];
    assert r.columns == t.columns + extra;
    if newRows != [] {
      assert Distinct(NewRowColumns);
      assert extra == ColumnsNotIn(NewRowColumns, t.columns);
    }
    forall i, j | 0 <= i < j < |r.columns| ensures r.columns[i] != r.columns[j] {
      if i < |t.columns| <= j {
        assert r.columns[j] in extra;
        assert r.columns[i] in t.columns;
      } else if |t.columns| <= i {
        assert r.columns[i] == extra[i - |t.columns|] && r.columns[j] == extra[j - |t.columns|];
      }
    }
    forall k, c | 0 <= k < |r.rows| && c in r.rows[k] ensures c in r.columns {
      if k < |t.rows| {
        assert r.rows[k] == t.rows[k];
        assert c in t.columns;
      } else {
        assert r.rows[k] == newRows[k - |t.rows|];
      }
    }
  }
}
