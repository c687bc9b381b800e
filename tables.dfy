/** The two tables the append script reads, the run configuration, and the
    exceptions that abort a run. */
module Tables {
  import opened Options

  /** The exception that ends a run (the top level reports it and exits with status 1). */
  datatype Error =
    | MissingColumn(column: string)       // KeyError on a column label
    | MissingRowId                        // AttributeError: a NaN `RowIDs` cell is a float, which has no replace()
    | BadRowId(text: string)              // ValueError: int() rejects what is left after removing "Row"
    | EmptyAggregate                      // ValueError: max() of an empty list
    | NonTextName                         // TypeError: substring test on a school name that is not text
    | ColumnIndexOutOfRange(index: nat)   // IndexError: a mapped position past the raw table's last column

  datatype Result<T> = Success(value: T) | Failure(error: Error)

  /** A cell of the raw export as pandas reads it: NaN (an empty cell), a float
      (kept as its exact value), an integer (a numeric column without blanks), or text. */
  datatype Cell = Missing | Float(x: real) | Int(n: int) | Text(s: string)

  /** A row of the long-format aggregate table, by column label; a label with no
      entry is a NaN cell. */
  type Row = map<string, string>

  datatype Table = Table(columns: seq<string>, rows: seq<Row>)

  /** The wide raw export: column labels and positional rows. */
  datatype RawTable = RawTable(columns: seq<string>, rows: seq<seq<Cell>>)

  /** `new_school_year` and `new_year_gu`, written on every appended row. */
  datatype Config = Config(schoolYear: string, yearGu: string)

  predicate Distinct(s: seq<string>)
  {
    forall i, j :: 0 <= i < j < |s| ==> s[i] != s[j]
  }

  /** A data frame: distinct labels, and no row holds a cell outside them. */
  predicate WellFormedTable(t: Table)
  {
    Distinct(t.columns) &&
    forall k, c :: 0 <= k < |t.rows| && c in t.rows[k] ==> c in t.columns
  }

  /** read_csv gives distinct labels (it renames repeats) and rectangular rows. */
  predicate WellFormedRaw(r: RawTable)
  {
    Distinct(r.columns) && forall k :: 0 <= k < |r.rows| ==> |r.rows[k]| == |r.columns|
  }

  /** `columns.get_loc(x)`: the position of a label, None where pandas raises KeyError. */
  function IndexOf(s: seq<string>, x: string): (r: Option<nat>)
    ensures r.Some? ==> r.value < |s| && s[r.value] == x && x !in s[..r.value]
    ensures r.None? <==> x !in s
  {
    if s == [] then None
    else if s[0] == x then Some(0)
    else match IndexOf(s[1..], x)
      case Some(k) => Some(k + 1)
      case None => None
  }
}
