/** The fixed positional mapping from raw-export columns to (survey, measure)
    labels (get_column_mappings, main.py:65-93). */
module ColumnMap {
  import opened Options

  /** One dictionary entry: the raw column position and the labels its cells receive. */
  datatype Mapping = Mapping(index: nat, survey: string, measure: string)

  const Sel35: string := "SEL (3-5)"
  const Sel612: string := "SEL (6-12)"
  const Competency35: string := "Fall 24 Student Competency Survey - Grades 3-5"
  const Competency612: string := "Fall 24 Student Competency Survey - Grades 6-12"

  /** The dictionary in its iteration (insertion) order. Its keys are distinct and
      ascending, so each raw position is mapped at most once, and the highest
      position a raw table must have is 22. */
  function ColumnMappings(): (m: seq<Mapping>)
    ensures |m| == 18
    ensures forall i :: 0 < i < |m| ==> m[i - 1].index < m[i].index
    ensures forall i :: 0 <= i < |m| ==> 2 <= m[i].index <= 22
  {
    [ Mapping(2, Sel35, "Rigorous Expectations"),
      Mapping(4, Sel612, "Cultural Awareness and Action"),
      Mapping(5, Sel612, "Diversity and Inclusion"),
      Mapping(6, Sel612, "Rigorous Expectations"),
      Mapping(8, Competency35, "Challenging Feelings"),
      Mapping(9, Competency35, "Learning Strategies"),
      Mapping(10, Competency35, "Positive Feelings"),
      Mapping(11, Competency35, "Self-Efficacy"),
      Mapping(12, Competency35, "Self-Management"),
      Mapping(13, Competency35, "Sense of Belonging"),
      Mapping(14, Competency35, "Supportive Relationships"),
      Mapping(16, Competency612, "Challenging Feelings"),
      Mapping(17, Competency612, "Emotion Regulation"),
      Mapping(18, Competency612, "Positive Feelings"),
      Mapping(19, Competency612, "Self-Efficacy"),
      Mapping(20, Competency612, "Self-Management"),
      Mapping(21, Competency612, "Sense of Belonging"),
      Mapping(22, Competency612, "Social Awareness") ]
  }

  /** The first entry, in iteration order, whose position `raw_df.columns[col_idx]`
      cannot index in a table of `width` columns. */
  function FirstOutOfRange(ms: seq<Mapping>, width: nat): (k: Option<nat>)
    ensures k.None? <==> forall j :: 0 <= j < |ms| ==> ms[j].index < width
    ensures k.Some? ==> k.value < |ms| && ms[k.value].index >= width &&
                        forall j :: 0 <= j < k.value ==> ms[j].index < width
  {
    if ms == [] then None
    else if ms[0].index >= width then Some(0)
    else match FirstOutOfRange(ms[1..], width)
      case Some(k) => Some(k + 1)
      case None => None
  }
}
