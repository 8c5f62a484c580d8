/**
 * The observed grade ranges of `calculate_grade_ranges`
 * (student-grading-system/app.py:111-118): per grade, the lowest and highest
 * present mark among the records that received it, truncated to int and
 * rendered as "lo - hi", or "lo" when the two agree.
 */
module GradeRanges {
  import opened Wrappers
  import opened Grades
  import opened NumberFormat

  /** Record `i` received grade `g` and has a present mark. */
  predicate InGroup(marks: seq<Mark>, grades: seq<Grade>, g: Grade, i: int)
  {
    0 <= i < |marks| && i < |grades| && grades[i] == g && marks[i].Some?
  }

  /**
   * `df.groupby('Grade')['Marks'].agg(['min', 'max'])` for grade `g` over the
   * records below `n`; `None` when no such record has a present mark (the row
   * `dropna()` removes).
   */
  function GroupMinMaxUpTo(marks: seq<Mark>, grades: seq<Grade>, g: Grade, n: nat): (r: Option<(real, real)>)
    requires |marks| == |grades| && n <= |marks|
    ensures r.None? <==> forall i :: 0 <= i < n ==> !InGroup(marks, grades, g, i)
    ensures r.Some? ==> r.value.0 <= r.value.1
    ensures r.Some? ==> forall i :: 0 <= i < n && InGroup(marks, grades, g, i) ==>
      r.value.0 <= marks[i].value <= r.value.1
    ensures r.Some? ==> exists i :: 0 <= i < n && InGroup(marks, grades, g, i) && marks[i].value == r.value.0
    ensures r.Some? ==> exists i :: 0 <= i < n && InGroup(marks, grades, g, i) && marks[i].value == r.value.1
  {
    if n == 0 then None
    else
      var rest := GroupMinMaxUpTo(marks, grades, g, n - 1);
      if !InGroup(marks, grades, g, n - 1) then rest
      else
        var x := marks[n - 1].value;
        match rest
        case None => Some((x, x))
        case Some((lo, hi)) => Some((if x < lo then x else lo, if x > hi then x else hi))
  }

  /** `ranges_df` row for grade `g`: present exactly when some record graded `g` has a mark. */
  function GroupMinMax(marks: seq<Mark>, grades: seq<Grade>, g: Grade): (r: Option<(real, real)>)
    requires |marks| == |grades|
    ensures r.None? <==> forall i :: 0 <= i < |marks| ==> !InGroup(marks, grades, g, i)
    ensures r.Some? ==> r.value.0 <= r.value.1
  {
    GroupMinMaxUpTo(marks, grades, g, |marks|)
  }

  /** The f-string of app.py:117 for already truncated bounds; the text is unambiguous. */
  function RenderRange(lo: int, hi: int): (s: string)
    ensures ParseRange(s) == Some((lo, hi))
  {
    RangeTextRoundTrip(lo, hi);
    if lo != hi then IntToString(lo) + " - " + IntToString(hi) else IntToString(lo)
  }

  /** The text entry for a group with bounds `(min, max)`: it reads back as the truncated bounds. */
  function RangeLabel(bounds: (real, real)): (s: string)
    ensures ParseRange(s) == Some((Trunc(bounds.0), Trunc(bounds.1)))
  {
    RenderRange(Trunc(bounds.0), Trunc(bounds.1))
  }

  /** Index of the first blank in `s`, or `|s|` when there is none. */
  function BlankIndex(s: string): (k: nat)
    ensures k <= |s|
    ensures k < |s| ==> s[k] == ' '
    ensures forall j :: 0 <= j < k ==> s[j] != ' '
  {
    if |s| == 0 || s[0] == ' ' then 0 else 1 + BlankIndex(s[1..])
  }

  /** Reads a range entry back: one int, or two ints separated by " - ". */
  function ParseRange(s: string): Option<(int, int)>
  {
    var k := BlankIndex(s);
    if k == |s| then
      match ParseInt(s)
      case None => None
      case Some(v) => Some((v, v))
    else if k + 3 <= |s| && s[k..k + 3] == " - " then
      match (ParseInt(s[..k]), ParseInt(s[k + 3..]))
      case (Some(lo), Some(hi)) => Some((lo, hi))
      case _ => None
    else None
  }

  /** Both shapes of range text read back: "lo - hi" as (lo, hi), a single "lo" as (lo, lo). */
  lemma RangeTextRoundTrip(lo: int, hi: int)
    ensures lo != hi ==> ParseRange(IntToString(lo) + " - " + IntToString(hi)) == Some((lo, hi))
    ensures ParseRange(IntToString(lo)) == Some((lo, lo))
  {
    var a, b := IntToString(lo), IntToString(hi);
    IntToStringRoundTrip(lo);
    IntToStringRoundTrip(hi);
    assert BlankIndex(a) == |a|;
    if lo != hi {
      var s := a + " - " + b;
      assert s[|a|] == ' ';
      var k := BlankIndex(s);
      assert forall j :: 0 <= j < |a| ==> s[j] == a[j];
      assert k == |a|;
      assert s[..k] == a && s[k..k + 3] == " - " && s[k + 3..] == b;
    }
  }

  /** A single number is shown exactly when the truncated bounds coincide. */
  lemma RenderRangeShape(lo: int, hi: int)
    ensures (lo == hi) <==> (forall j :: 0 <= j < |RenderRange(lo, hi)| ==> RenderRange(lo, hi)[j] != ' ')
  {
    if lo != hi {
      assert RenderRange(lo, hi)[|IntToString(lo)|] == ' ';
    }
  }

  /** The truncated bounds of a group entry keep their order: lo <= hi. */
  lemma RangeLabelBounds(bounds: (real, real))
    requires bounds.0 <= bounds.1
    ensures Trunc(bounds.0) <= Trunc(bounds.1)
    ensures ParseRange(RangeLabel(bounds)) == Some((Trunc(bounds.0), Trunc(bounds.1)))
  {
    TruncMonotone(bounds.0, bounds.1);
  }

  /** The grades in the order `groupby` yields them: sorted by label, "A" < "A+" < ... < "U". */
  const GroupOrder: seq<Grade> := [A, APlus, B, BPlus, C, O, U]

  lemma GroupOrderCoversAll(g: Grade)
    ensures g in GroupOrder
  {
    match g
    case A => assert GroupOrder[0] == g;
    case APlus => assert GroupOrder[1] == g;
    case B => assert GroupOrder[2] == g;
    case BPlus => assert GroupOrder[3] == g;
    case C => assert GroupOrder[4] == g;
    case O => assert GroupOrder[5] == g;
    case U => assert GroupOrder[6] == g;
  }

  /**
   * `calculate_grade_ranges`: an entry for exactly the grades that some record
   * with a present mark received, holding that group's rendered min and max.
   */
  method CalculateGradeRanges(marks: seq<Mark>, grades: seq<Grade>) returns (ranges: map<Grade, string>)
    requires |marks| == |grades|
    ensures forall g :: g in ranges <==> GroupMinMax(marks, grades, g).Some?
    ensures forall g :: g in ranges ==> ranges[g] == RangeLabel(GroupMinMax(marks, grades, g).value)
  {
    ranges := map[];
    var k := 0;
    while k < |GroupOrder|
      invariant 0 <= k <= |GroupOrder|
      invariant forall g :: g in ranges <==> g in GroupOrder[..k] && GroupMinMax(marks, grades, g).Some?
      invariant forall g :: g in ranges ==> ranges[g] == RangeLabel(GroupMinMax(marks, grades, g).value)
    {
      var g := GroupOrder[k];
      var stats := GroupMinMax(marks, grades, g);
      if stats.Some? {
        ranges := ranges[g := RangeLabel(stats.value)];
      }
      assert GroupOrder[..k + 1] == GroupOrder[..k] + [g];
      k := k + 1;
    }
    forall g ensures g in GroupOrder[..k] {
      GroupOrderCoversAll(g);
    }
  }
}
