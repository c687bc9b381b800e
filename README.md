# Panorama append, modelled in Dafny

`main.py` appends a new school year of survey results to a district's long-format
aggregate table. For every school row of a wide raw export it does the following:

- gives the row's school/year key a row identifier (`Row<n>`), counting up from one
  above the largest identifier already in the aggregate table;
- finds the school's grade group, either in the aggregate table or from its name;
- emits one long-format row for every mapped raw column whose cell is not empty.

The function then inserts an empty `Survey` column before `Measure` if that column
is missing, and concatenates the old rows with the new ones.

This project models that transformation, from `get_column_mappings()` to the
`pd.concat`, together with the two helpers it uses:
- `get_next_row_id` (module `RowIds`);
- `get_column_mappings` (module `ColumnMap`).

Other modules:
- `GradeGroups`: the grade-group resolver.
- `Normalise`: the value normaliser.
- `Merge`: the `Survey` repair and the concatenation.
- `Strings`: Python's `str()`/`int()` and the substring test.
- `Tables`: tables, cells and the exceptions that end a run.
- `Options`: the optional value the other modules share.

The transformation is stated twice:
- as functions on values, in `Combine.Combined`;
- as imperative code, in `Combine.CombinePanoData`, `BuildNewRows`, `ProcessRow` and
  `AppendCellRows`. These use the source's counter, its `new_row_assignments`
  dictionary and its growing `new_rows` list, with loops and invariants.

Each method is proved to compute what the functions describe. The lemmas then state
what the source promises about that result:
- identifiers are fresh, shared per school and consecutive;
- the grade-group and normalisation rules hold;
- row order and count are kept;
- the `Survey` repair behaves as described.

Every exception the modelled part raises is a `Failure` result, apart from those listed
under "## Left out". The model returns the first one the source meets. The exceptions,
by the `Tables.Error` case that stands for each:
- `MissingColumn`: the `KeyError` of a missing label. The raw `Name` label is checked at
  the first raw row, and the aggregate `Name` and `Grade Group` labels at the grade-group
  lookup. The aggregate `RowIDs` label is checked before any raw row, and `Measure`
  (main.py:191) after every raw row.
- `MissingRowId`: the `AttributeError` of a NaN identifier, a float that has no `replace()`.
- `BadRowId`: the `ValueError` of an identifier that `int()` rejects once `Row` is removed.
- `EmptyAggregate`: the `ValueError` of `max()` over an aggregate table with no rows.
- `NonTextName`: the `TypeError` of the substring test on a school name that is not text.
- `ColumnIndexOutOfRange`: the `IndexError` of a mapped position past the raw table's width.

## Model

| member | source | states |
|---|---|---|
| Strings.IntToStringRoundTrip | main.py:139 | `int()` of the decimal text `str()` writes for any integer gives that integer back |
| Strings.IntToString | main.py:167 | `str()` of an integer; its contract is `Strings.IntToStringChars`, `Strings.IntToStringRoundTrip` and `Strings.IntTextUnique`: the one text in `str()` form that `int()` reads back as that integer |
| Strings.IntToStringChars | main.py:167 | the text of an integer is decimal digits after a minus sign exactly when it is negative, with no leading zero and never "-0" |
| Strings.IntTextUnique | main.py:167 | any text of that form that `int()` reads back as n is exactly `str(n)`, so no other text is ever written for n |
| Strings.ParseInt | main.py:62 | `int()` of a string, None where it raises ValueError; its contract is `Strings.IntToStringRoundTrip` and `Strings.IntTextUnique`: it inverts `str()`, and on `str()`-form text it is one-to-one |
| Strings.Contains | main.py:149-151 | Python's `p in s`: p occurs at some position of s; `GradeGroups.ClassifySpec` and `GradeGroups.ClassifyExamples` state the heuristic in its terms |
| RowIds.RemoveRowWithoutR | main.py:62 | `replace('Row', '')` leaves text without an `R` unchanged |
| RowIds.RemoveRow | main.py:62 | `replace('Row', '')`: every occurrence removed, scanning left to right without overlap; the result is never longer. What it does to the script's own identifiers is stated by `RowIds.RemoveRowWithoutR` and `RowIds.RowIdRoundTrip` |
| RowIds.ParseRowId | main.py:62 | `int(row_id.replace('Row', ''))`, None where `int()` raises; its contract is `RowIds.RowIdRoundTrip`: every identifier the script writes reads back as its number |
| RowIds.RowIdRoundTrip | main.py:62 | an identifier `f"Row{n}"` read back with `replace('Row', '')` and `int()` gives `n` |
| RowIds.RowIdTextInjective | main.py:139 | two numbers give the same `Row<n>` text exactly when they are equal |
| RowIds.RowIdText | main.py:139 | `f"Row{n}"`; its contract is `RowIds.RowIdRoundTrip` and `RowIds.RowIdTextInjective`: it reads back as n, and distinct numbers give distinct identifiers |
| RowIds.RowIdNum | main.py:62 | one row's identifier number, or the AttributeError of a NaN identifier, or the ValueError of an unreadable one; its contract is `RowIds.RowIdNumCases` |
| RowIds.RowIdNumCases | main.py:62 | a row without an identifier gives the AttributeError; a row holding `Row<n>` gives n |
| RowIds.FirstBadRowId | main.py:61-62 | the first row whose identifier cannot be read; none exactly when every identifier reads as a number |
| RowIds.MaxRowNum | main.py:62 | `max()` over the identifier numbers: no number is above it and some row has it |
| RowIds.NextRowIdSpec | main.py:59-63 | the next number is one above every existing one and one above some existing one. It exists exactly when `RowIDs` exists, rows exist and all identifiers read. Otherwise: the KeyError, the first bad identifier's error, or max() of an empty list |
| RowIds.NextRowId | main.py:59-63 | `get_next_row_id`; its contract is `RowIds.NextRowIdSpec`: one above the largest readable identifier, or the KeyError, the first unreadable identifier's error, or max() of an empty list |
| RowIds.ComboKeyInjective | main.py:135 | within one year, two names give the same key exactly when they are equal |
| RowIds.ComboKey | main.py:135 | `f"{school_name}_{year}"`; its contract is `RowIds.ComboKeyInjective`: within one year, one key per school name |
| RowIds.IdSharedIffSameKey | main.py:135-143 | two raw rows get the same row number exactly when they have the same school/year key |
| RowIds.IdBounds | main.py:121-140 | every number handed out is at least the start and below the start plus the number of distinct keys met so far |
| RowIds.IdsConsecutive | main.py:137-140 | the numbers handed out are the start, then one more per new key, with no gap |
| RowIds.NewIdFresh | main.py:59-63 | a new identifier's number is above every existing row's number, and its text is none of their identifiers |
| RowIds.AssignedMembers | main.py:138-139 | the dictionary's keys are exactly the keys met so far |
| RowIds.AssignedSize | main.py:137-140 | the dictionary has one entry per distinct key met, so the counter has moved once per new key and never otherwise |
| RowIds.AssignedKeeps | main.py:138-143 | an entry, once made, is never changed: a key seen again reuses its identifier |
| RowIds.AssignedFollowsIdNum | main.py:135-143 | the counter-and-dictionary loop gives each raw row exactly the identifier of its key's first occurrence |
| RowIds.Assigned | main.py:137-140 | `new_row_assignments` after n raw rows; its contract is in `RowIds.AssignedMembers`, `RowIds.AssignedSize`, `RowIds.AssignedKeeps` and `RowIds.AssignedFollowsIdNum`: the keys met, one fresh identifier per new key, none ever changed |
| Tables.IndexOf | main.py:191 | `columns.get_loc`: the first position of a label, None exactly when it is absent |
| ColumnMap.ColumnMappings | main.py:65-93 | the 18 entries, with positions strictly ascending (so distinct) in iteration order, all between 2 and 22 |
| ColumnMap.FirstOutOfRange | main.py:157-159 | the first entry whose position `raw_df.columns[col_idx]` cannot index; none exactly when all positions fit |
| GradeGroups.ClassifySpec | main.py:149-154 | "Elementary" exactly when the name contains it; "Middle" exactly when it contains "Middle" but not "Elementary"; otherwise "High" |
| GradeGroups.ClassifyExamples | main.py:149-154 | three sample names go to Elementary, Middle and High |
| GradeGroups.Classify | main.py:149-154 | the name heuristic; its contract is `GradeGroups.ClassifySpec`: Elementary, then Middle, else High |
| GradeGroups.FirstRowFor | main.py:146-147 | the first aggregate row with the school's name; none exactly when no row has it |
| GradeGroups.ResolveGradeGroupCases | main.py:145-154 | a known school takes the `Grade Group` of its first aggregate row, and any other school is classified by name. Errors: the KeyError of a missing `Name` or `Grade Group` label, and the TypeError of a non-text name |
| GradeGroups.ResolveGradeGroup | main.py:145-154 | the grade-group lookup; its contract is `GradeGroups.ResolveGradeGroupCases`: the first aggregate row's `Grade Group` for a known school, the heuristic otherwise, and the KeyError and TypeError cases |
| Normalise.Trunc | main.py:167 | `int()` of a float truncates toward zero, on both signs |
| Normalise.Truthy | main.py:168 | Python truthiness of a cell that is not a float; `Normalise.NormaliseValue` states the skip rule with it: zero and the empty text are falsy |
| Normalise.NormaliseValue | main.py:162-169 | a cell is skipped exactly when it is NaN or a falsy non-float, and non-empty text passes through unchanged |
| Normalise.FloatRendering | main.py:167 | a float is written as "." and then its truncated value in `str()` form: digits, a minus sign exactly when the value is negative, no leading zero, reading back as that value |
| Normalise.FloatRenderingExact | main.py:167 | the text after the point is the only `str()`-form text of the truncated value, so ".85" is written and never ".085" |
| Normalise.IntRendering | main.py:168-169 | a non-zero integer cell is kept, as text reading back as that integer |
| Normalise.TruncationExamples | main.py:167 | 85.9 and 85.0 give ".85", and -0.5 gives ".0" |
| Merge.InsertColumn | main.py:191 | `insert`: the label lands at the position, the other labels keep their order around it, and every row gets the default |
| Merge.NewRowColumns | main.py:175-187 | the labels of `new_df`, in the dictionaries' key order; `Merge.Concat` appends those the old table lacks and `Combine.CellRowsStamped` keeps every new cell under one of them |
| Merge.WithSurvey | main.py:190-191 | a table with `Survey` is kept as it is; without `Survey` and `Measure` it is the KeyError; without `Survey` but with `Measure` the insert succeeds |
| Merge.SurveyBeforeMeasure | main.py:191 | `Survey` lands where `Measure` was, `Measure` moves one place right, and removing `Survey` gives back the old labels |
| Merge.SurveyDefaultsEmpty | main.py:191 | every old row reads '' under `Survey` and is otherwise unchanged |
| Merge.SurveyWellFormed | main.py:190-191 | the repair keeps labels distinct and every cell under a label |
| Merge.ColumnsNotIn | main.py:194 | the labels of the new frame that the old one lacks, each once; `Merge.ColumnsNotInOrder` gives their order |
| Merge.ColumnsNotInOrder | main.py:194 | the missing labels keep the new frame's order: any two of them appear in the new frame in the same order |
| Merge.Concat | main.py:194 | the old rows in order, then the new rows in order; the old labels come first; an empty new frame adds no label |
| Merge.ConcatColumnOrder | main.py:194 | after the old labels come exactly the new frame's labels that the old table lacks, each once, in the new frame's order |
| Merge.ConcatWellFormed | main.py:194 | appending rows whose cells lie under the new frame's labels keeps the table well formed |
| Combine.NewRowCells | main.py:175-184 | an appended row holds exactly the stamp, the entry's labels and the value, under the new frame's labels |
| Combine.NewRow | main.py:175-184 | the dictionary appended to `new_rows`; its contract is `Combine.NewRowCells`: exactly the eight fields, an empty grade group for NaN |
| Combine.CellAt | main.py:159-160 | `row[raw_df.columns[col_idx]]` for a position inside the row; `Combine.RowError` and `Combine.AppendCellRows` raise the IndexError before a position past the raw labels is read, so its `Missing` fallback is never written out |
| Combine.Emit | main.py:159-184 | the rows one mapped cell adds: none when it is skipped, else one; its contract is `Combine.EmittingEntriesSound` and `Combine.EmittingEntriesComplete` |
| Combine.CellRows | main.py:157-184 | the rows one raw row adds; its contract is `Combine.CellRowsFollowEntries` and `Combine.CellRowsStamped`: one row per non-skipped mapped cell, in mapping order, under the row's stamp |
| Combine.NameCell | main.py:131 | `row['Name']`; `Combine.KeyOfRow` builds the row's key from it and `Combine.RowError` raises the KeyError when the raw table has no `Name` label |
| Combine.RowStamp | main.py:131-154 | the year, YEAR_GU, grade group, name and identifier of raw row i; its contract is `Combine.NewRowsStamped` (year and YEAR_GU), `Combine.SameRowIdIffSameSchool` and `Combine.RowIdFresh` (identifier) and `GradeGroups.ResolveGradeGroupCases` (grade group) |
| Combine.NewRows | main.py:124-184 | `new_rows` after n raw rows; its contract is `Combine.RowPasses`, `Combine.NewRowsPrefix` and `Combine.NewRowsStamped`: after a raw row that raises nothing it is the earlier `new_rows` followed by that row's `CellRows` under its own stamp, so it keeps per-row order and count; it only grows, and every row carries the run's year and YEAR_GU |
| Combine.RowPasses | main.py:130-184 | a raw row that raises nothing passes the first error on to the later rows, and `new_rows` after it is `new_rows` before it followed by its cell rows under its own stamp |
| Combine.EmittingEntriesSound | main.py:157-169 | each listed entry emits, in ascending mapping order |
| Combine.EmittingEntriesComplete | main.py:157-169 | every entry whose cell is not skipped is listed |
| Combine.CellRowsFollowEntries | main.py:157-184 | a raw row yields one row per non-skipped mapped cell, in mapping order, with that entry's labels and the normalised value |
| Combine.CellRowsStamped | main.py:175-184 | each row from a raw row carries the row's year, YEAR_GU, name, identifier and grade group, and one entry's survey and measure |
| Combine.KeyOfRow | main.py:131-135 | raw row i's key is its `Name` cell and the run's year |
| Combine.FirstRowErrorSpec | main.py:130-184 | the run raises nothing exactly when no raw row raises. Otherwise it raises what the first raising row raises, and every earlier row raises nothing |
| Combine.RowError | main.py:130-184 | the exception raw row i raises, in the order the loop body meets them: the raw `Name` label, the grade-group lookup, then the first mapped position past the row; `Combine.FirstRowErrorSpec` states how the run's error follows from it |
| Combine.FirstRowError | main.py:130-184 | the first exception the row loop raises; its contract is `Combine.FirstRowErrorSpec`: none exactly when no row raises, else the first raising row's exception |
| Combine.AppendCellRows | main.py:157-184 | the inner loop adds exactly the raw row's cell rows to `new_rows`, or raises the IndexError of the first mapped position past the row |
| Combine.ProcessRow | main.py:130-184 | one pass of the row loop keeps the loop's invariant: the dictionary is that of the keys met, the counter is the start plus its size, and `new_rows` holds the rows of the raw rows seen. Otherwise it raises the run's first exception |
| Combine.BuildNewRows | main.py:121-184 | the row loop ends with the new rows of every raw row, identifiers counted from the start, or with the first exception a raw row raises |
| Combine.CombinePanoData | main.py:118-194 | the imperative transformation returns exactly what `Combine.Combined` describes |
| Combine.Combined | main.py:118-194 | the transformation on values. `Combine.CombinePanoData` is proved equal to it, and it is characterised by `Combine.CombineShape`, `Combine.CombineKeepsOldRows`, `Combine.CombineAppendsNewRows` and `Combine.CombineWellFormed` |
| Combine.ExpandPrefix | main.py:130-184 | expanding more raw rows only appends: earlier rows' output is a prefix |
| Combine.NewRowsPrefix | main.py:130-184 | `new_rows` only grows: after i raw rows it is a prefix of itself after n |
| Combine.ExpandStamped | main.py:175-184 | rows expanded under stamps of one year and YEAR_GU carry that year and YEAR_GU and only the new frame's labels |
| Combine.NewRowsStamped | main.py:176-177 | every new row carries the run's `SCHOOL_YEAR` and `YEAR_GU` and holds only the new frame's labels |
| Combine.SameRowIdIffSameSchool | main.py:135-143 | two raw rows' new rows share `RowIDs` exactly when the rows name the same school |
| Combine.RowIdFresh | main.py:121-143 | a raw row's identifier reads back as a number above every existing identifier, and equals none of them |
| Combine.CombineShape | main.py:186-194 | a run that succeeds is the repaired aggregate table concatenated with the new rows |
| Combine.SurveyRows | main.py:190-191 | the repaired table keeps its rows, each with '' under an inserted `Survey` |
| Combine.CombineKeepsOldRows | main.py:190-194 | the result has as many rows as the old and new together, and the old rows come first in order, repaired |
| Combine.CombineAppendsNewRows | main.py:194 | after the old rows come the new rows, in generation order, none dropped or merged |
| Combine.CombineWellFormed | main.py:186-194 | a well-formed aggregate table gives a well-formed combined table |
| Combine.NoNewRowsKeepsTable | main.py:187-194 | with nothing to append, the result is the aggregate table with its `Survey` repair |
| Combine.SampleNextRowId | main.py:59-63 | a table whose only identifier is `Row1` continues at 2 |
| Combine.SampleEmptyExport | main.py:186-194 | that table with an export of no rows combines to itself, repaired |
| Combine.CombineAsWritten | main.py:207-212 | the run as written, with the summary's read of `new_df['Grade Group']`: the KeyError whenever nothing is appended; `Combine.EmptyExportNotWritten` exhibits it on a concrete input |
| Combine.EmptyExportNotWritten | main.py:207-212 | that same run, as written, raises KeyError at the summary and writes nothing |

## Left out

- File I/O and its inputs are not modelled: reading the two CSV files (including the skipped first header line), path normalisation, directory creation and writing the result. The model starts from the two tables in memory and returns the combined table.
- The date suffix of the output path, the console summary and `check_requirements` are not modelled. They are clock, printing and environment queries. The summary matters through the finding below and through its `sorted()` TypeError, listed under `Combine.CombineAsWritten`.
- The module-level `config` import, the argument defaults and the `sys.exit` handling are not modelled. They carry no behaviour of the transformation.
- pandas dtype inference is not modelled. Aggregate cells are text, and an absent key is a NaN cell. Raw cells are NaN, a float, an integer or text. A raw column that pandas reads as integers stays `Int`; one with blanks is read as floats.
- Float cells are exact reals rather than IEEE doubles. Infinities are not modelled: `int(inf)` raises OverflowError. Nor is the rounding that reading a CSV value into a double can do.
- Booleans and other object values in the raw export are not modelled. `Int` and `Text` cover every value `read_csv` produces for this export apart from floats.
- Strings.ParseInt: accepts ASCII digits, a sign, underscores between digits, and around them the ASCII whitespace `int()` strips: space, `\t`, `\n`, `\v`, `\f`, `\r` and the separators `\x1c` to `\x1f`. Python's `int()` also accepts Unicode digits and non-ASCII spaces, but the model only ever parses identifiers the script wrote, plus ASCII text.
- Merge.InsertColumn: `agg_df.insert` changes the data frame in place. It is modelled on values, since the data frame belongs to the function and no one else holds it.
- Combine.CombineAsWritten: does not model the TypeError that `sorted()` raises in the summary when the new rows' grade groups mix NaN (from an aggregate row with an empty `Grade Group`) with text. That too stops the run before the table is written.
- The NaN row identifier is modelled as `MissingRowId`. In the source it is the AttributeError of `float.replace`.
- A raw row whose `Name` is NaN, or not text, is modelled as `NonTextName`. In the source it is the TypeError of the substring test. The model raises it before the aggregate lookup. The lookup cannot match such a name, because aggregate names are text.

## Findings

| source | as written | input that shows it | evidently intended | confidence | as-written member | corrected member |
|---|---|---|---|---|---|---|
| main.py:212 | the summary reads `new_df['Grade Group']` before the table is saved. A frame built from an empty `new_rows` has no columns, so a run that appends nothing raises KeyError and writes no file | an aggregate table with one row `Row1`, and a raw export whose header has `Name` but no data rows | write the aggregate table, with its `Survey` repair, as the combined table | medium, not executed | Combine.EmptyExportNotWritten | Combine.NoNewRowsKeepsTable |
