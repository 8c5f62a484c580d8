/**
 * The seven grades of the grading scheme, their order, the text labels the
 * application stores in its `Grade` column, and the grade-points table
 * (student-grading-system/app.py:18, 155).
 */
module Grades {
  import opened Wrappers

  /** A student's mark; `None` stands for a missing or non-numeric entry (NaN). */
  type Mark = Option<real>

  datatype Grade = O | APlus | A | BPlus | B | C | U

  /** Position of a grade in the order U < C < B < B+ < A < A+ < O. */
  function Rank(g: Grade): (r: nat)
    ensures r <= 6
    ensures r == 0 <==> g == U
  {
    match g
    case U => 0
    case C => 1
    case B => 2
    case BPlus => 3
    case A => 4
    case APlus => 5
    case O => 6
  }

  lemma RankInjective(g: Grade, h: Grade)
    requires Rank(g) == Rank(h)
    ensures g == h
  {
    match g
    case U =>
    case C =>
    case B =>
    case BPlus =>
    case A =>
    case APlus =>
    case O =>
  }

  /** The text the application writes into the `Grade` column. */
  function Label(g: Grade): (s: string)
    ensures s in GradePointsMap
  {
    match g
    case O => "O"
    case APlus => "A+"
    case A => "A"
    case BPlus => "B+"
    case B => "B"
    case C => "C"
    case U => "U"
  }

  /** Labels can be read back: distinct grades have distinct labels. */
  lemma LabelRoundTrip(g: Grade)
    ensures ParseLabel(Label(g)) == Some(g)
  {
  }

  /** The grade a `Grade` column text stands for, if any. */
  function ParseLabel(s: string): (r: Option<Grade>)
    ensures r.Some? ==> s == Label(r.value)
  {
    if s == "O" then Some(O)
    else if s == "A+" then Some(APlus)
    else if s == "A" then Some(A)
    else if s == "B+" then Some(BPlus)
    else if s == "B" then Some(B)
    else if s == "C" then Some(C)
    else if s == "U" then Some(U)
    else None
  }

  /** GRADE_POINTS_MAP of app.py:18, keyed by the grade labels. */
  const GradePointsMap: map<string, int> :=
    map["O" := 10, "A+" := 9, "A" := 8, "B+" := 7, "B" := 6, "C" := 5, "U" := 0]

  /** `map(GRADE_POINTS_MAP).fillna(0)` on one text: a text outside the table scores 0. */
  function PointsOfLabel(text: string): (p: int)
    ensures text !in GradePointsMap ==> p == 0
    ensures text in GradePointsMap ==> p == GradePointsMap[text]
  {
    if text in GradePointsMap then GradePointsMap[text] else 0
  }

  /** The points of a grade, looked up through its text as app.py:155 does. */
  function GradePoints(g: Grade): (p: int)
    ensures 0 <= p <= 10
    ensures p == 0 <==> g == U
  {
    PointsOfLabel(Label(g))
  }

  /** The table of app.py:18: O 10, A+ 9, A 8, B+ 7, B 6, C 5, U 0. */
  lemma GradePointsTable()
    ensures GradePoints(O) == 10 && GradePoints(APlus) == 9 && GradePoints(A) == 8
    ensures GradePoints(BPlus) == 7 && GradePoints(B) == 6 && GradePoints(C) == 5
    ensures GradePoints(U) == 0
  {
  }

  /** Only a text that names no grade falls through to the default 0. */
  lemma UnmappedLabelScoresZero(text: string)
    requires ParseLabel(text).None?
    ensures PointsOfLabel(text) == 0
  {
    assert text !in GradePointsMap;
  }

  /** Points strictly increase with the grade order. */
  lemma GradePointsStrictlyIncrease(g: Grade, h: Grade)
    requires Rank(g) < Rank(h)
    ensures GradePoints(g) < GradePoints(h)
  {
    GradePointsTable();
  }

  /** Points are 0 for U and 5 + (rank - 1) otherwise, so always in {0, 5, ..., 10}. */
  lemma GradePointsRange(g: Grade)
    ensures GradePoints(g) == if g == U then 0 else 4 + Rank(g)
    ensures 0 <= GradePoints(g) <= 10 && GradePoints(g) != 1 && GradePoints(g) != 2
    ensures GradePoints(g) != 3 && GradePoints(g) != 4
  {
    GradePointsTable();
  }

  /** The `Grade_Points` column of app.py:155, one entry per graded record. */
  function PointsColumn(grades: seq<Grade>): (ps: seq<int>)
    ensures |ps| == |grades|
    ensures forall i :: 0 <= i < |grades| ==> ps[i] == PointsOfLabel(Label(grades[i]))
    ensures forall i :: 0 <= i < |grades| ==> (ps[i] == 0 <==> grades[i] == U)
    ensures forall i :: 0 <= i < |grades| ==> 0 <= ps[i] <= 10
  {
    seq(|grades|, i requires 0 <= i < |grades| => GradePoints(grades[i]))
  }
}
