/** The grade-group resolver of the append loop (main.py:145-154). */
module GradeGroups {
  import opened Options
  import opened Strings
  import opened Tables

  /** The name heuristic for a school the aggregate table does not know:
      "Elementary" is looked for first, then "Middle"; everything else is High. */
  function Classify(name: string): string
  {
    if Contains(name, "Elementary") then "Elementary"
    else if Contains(name, "Middle") then "Middle"
    else "High"
  }

  /** Each of the three groups is chosen exactly when the name calls for it. */
  lemma {:induction false} ClassifySpec(name: string)
    ensures Classify(name) == "Elementary" <==> Contains(name, "Elementary")
    ensures Classify(name) == "Middle" <==> !Contains(name, "Elementary") && Contains(name, "Middle")
    ensures Classify(name) == "High" <==> !Contains(name, "Elementary") && !Contains(name, "Middle")
  {
  }

  /** `agg_df['Name'] == school_name` for one row (a NaN name never equals text). */
  predicate NameIs(r: Row, name: string)
  {
    "Name" in r && r["Name"] == name
  }

  /** The first aggregate row for a school, as `.iloc[0]` of the matching rows picks it. */
  function FirstRowFor(rows: seq<Row>, name: string): (k: Option<nat>)
    ensures k.None? <==> forall j :: 0 <= j < |rows| ==> !NameIs(rows[j], name)
    ensures k.Some? ==> k.value < |rows| && NameIs(rows[k.value], name) &&
                        forall j :: 0 <= j < k.value ==> !NameIs(rows[j], name)
  {
    if rows == [] then None
    else if NameIs(rows[0], name) then Some(0)
    else match FirstRowFor(rows[1..], name)
      case Some(k) => Some(k + 1)
      case None => None
  }

  /** A row's cell under a label; None is a NaN cell. */
  function CellOf(r: Row, column: string): Option<string>
  {
    if column in r then Some(r[column]) else None
  }

  /** The grade group written on a school's new rows. A school the aggregate table
      already holds takes the `Grade Group` of its first row there (NaN if that cell
      is empty), whatever its name says; any other school is classified by name. */
  function ResolveGradeGroup(agg: Table, name: Cell): Result<Option<string>>
  {
    if "Name" !in agg.columns then Failure(MissingColumn("Name"))
    else if !name.Text? then Failure(NonTextName)
    else match FirstRowFor(agg.rows, name.s)
      case Some(k) =>
        if "Grade Group" in agg.columns then Success(CellOf(agg.rows[k], "Grade Group"))
        else Failure(MissingColumn("Grade Group"))
      case None => Success(Some(Classify(name.s)))
  }

  /** The resolver's cases: the KeyError of a missing `Name` label, the failure of a
      non-text name, the first matching aggregate row's `Grade Group` (or the KeyError
      when that label is missing), and the name heuristic for an unknown school. */
  lemma {:induction false} ResolveGradeGroupCases(agg: Table, name: Cell)
    ensures "Name" !in agg.columns ==> ResolveGradeGroup(agg, name) == Failure(MissingColumn("Name"))
    ensures "Name" in agg.columns && !name.Text? ==> ResolveGradeGroup(agg, name) == Failure(NonTextName)
    ensures "Name" in agg.columns && name.Text? ==>
              forall k :: 0 <= k < |agg.rows| && NameIs(agg.rows[k], name.s) &&
                          (forall j :: 0 <= j < k ==> !NameIs(agg.rows[j], name.s)) ==>
                ResolveGradeGroup(agg, name) ==
                  (if "Grade Group" in agg.columns then Success(CellOf(agg.rows[k], "Grade Group"))
                   else Failure(MissingColumn("Grade Group")))
    ensures "Name" in agg.columns && name.Text? &&
            (forall k :: 0 <= k < |agg.rows| ==> !NameIs(agg.rows[k], name.s)) ==>
              ResolveGradeGroup(agg, name) == Success(Some(Classify(name.s)))
  {
  }

  /** A name without the first letter of a pattern does not contain it. */
  lemma {:induction false} LacksFirstLetter(s: string, p: string)
    requires |p| > 0 && forall i :: 0 <= i < |s| ==> s[i] != p[0]
    ensures !Contains(s, p)
  {
    forall i | 0 <= i <= |s| - |p| ensures !OccursAt(s, p, i) {
      assert s[i..i + |p|][0] == s[i];
    }
  }

  /** Three sample names, one per group. */
  lemma {:induction false} ClassifyExamples()
    ensures Classify("Sample Elementary School") == "Elementary"
    ensures Classify("Sample Middle School") == "Middle"
    ensures Classify("Sample Secondary School") == "High"
  {
    assert OccursAt("Sample Elementary School", "Elementary", 7);
    LacksFirstLetter("Sample Middle School", "Elementary");
    assert OccursAt("Sample Middle School", "Middle", 7);
    LacksFirstLetter("Sample Secondary School", "Elementary");
    LacksFirstLetter("Sample Secondary School", "Middle");
  }
}
