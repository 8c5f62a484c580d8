/**
 * The grading steps of the `/upload` handler (student-grading-system/app.py:150-164):
 * choose the policy, grade, attach grade points and report the observed ranges.
 * Reading and writing the spreadsheet, the HTTP layer and the stored results
 * are not part of this model.
 */
module Upload {
  import opened Wrappers
  import opened Grades
  import opened FixedGrading
  import opened Policy
  import opened RelativeGrading
  import opened GradeRanges

  /** What the handler computes for one cohort. */
  datatype Report = Report(
    policy: GradingPolicy,
    grades: seq<Grade>,
    points: seq<int>,
    ranges: map<Grade, string>)

  /** The grades the selected policy gives the cohort. */
  function CohortGrades(marks: seq<Mark>, stats: Stats): (grades: seq<Grade>)
    ensures |grades| == |marks|
    ensures forall i :: 0 <= i < |marks| ==> (grades[i] == U <==> !IsPass(marks[i]))
  {
    RelativeUExactlyNonPassers(marks, stats);
    forall i | 0 <= i < |marks| ensures FixedGrade(marks[i]) == U <==> !IsPass(marks[i]) {
      FixedGradeUIff(marks[i]);
    }
    match SelectPolicy(marks)
    case Fixed => ApplyFixedGrading(marks)
    case Relative => RelativeGrades(marks, stats).grades
  }

  /**
   * app.py:150-164: grade with the policy the present-mark count selects, map
   * each grade to its points and collect the observed range of every grade.
   */
  method GradeCohort(marks: seq<Mark>, stats: Stats) returns (report: Report)
    ensures report.policy == SelectPolicy(marks)
    ensures report.grades == CohortGrades(marks, stats)
    ensures report.points == PointsColumn(report.grades)
    ensures forall g :: g in report.ranges <==> GroupMinMax(marks, report.grades, g).Some?
    ensures forall g :: g in report.ranges ==>
      report.ranges[g] == RangeLabel(GroupMinMax(marks, report.grades, g).value)
  {
    var policy := SelectPolicy(marks);
    var grades;
    if policy == Relative {
      var outcome := ApplyRelativeGrading(marks, stats);
      grades := outcome.grades;
    } else {
      grades := ApplyFixedGrading(marks);
    }
    var ranges := CalculateGradeRanges(marks, grades);
    report := Report(policy, grades, PointsColumn(grades), ranges);
  }

  /** A cohort of five with one failing and one missing mark is graded with fixed thresholds. */
  lemma SmallCohortExample(marks: seq<Mark>, stats: Stats)
    requires marks == [Some(95.0), Some(85.0), Some(65.0), Some(40.0), None]
    ensures SelectPolicy(marks) == Fixed
    ensures CohortGrades(marks, stats) == [O, APlus, BPlus, U, U]
    ensures PointsColumn(CohortGrades(marks, stats)) == [10, 9, 7, 0, 0]
  {
    var grades := CohortGrades(marks, stats);
    assert grades == ApplyFixedGrading(marks);
    assert grades == [O, APlus, BPlus, U, U];
    GradePointsTable();
  }

  /** More than 30 students all marked 70 take the relative policy, fall back, and all get B+ (61-70). */
  lemma IdenticalMarksExample(marks: seq<Mark>, stats: Stats)
    requires |marks| > 30 && forall i :: 0 <= i < |marks| ==> marks[i] == Some(70.0)
    ensures SelectPolicy(marks) == Relative
    ensures RelativeGrades(marks, stats).path == FewDistinct
    ensures forall i :: 0 <= i < |marks| ==> CohortGrades(marks, stats)[i] == BPlus
  {
    assert SelectPolicy(marks) == Relative by {
      PresentCountAllPresent(marks);
    }
    var out := RelativeGrades(marks, stats);
    assert CohortGrades(marks, stats) == out.grades;
    assert out.path == FewDistinct by {
      assert IsPass(marks[0]) && 0 in PassIndices(marks);
      assert SamePassingMark(marks);
      RelativePaths(marks, stats);
    }
    assert out.grades == ApplyFixedGrading(marks);
    forall i | 0 <= i < |marks| ensures CohortGrades(marks, stats)[i] == BPlus {
      assert ApplyFixedGrading(marks)[i] == FixedGrade(marks[i]);
    }
  }
}
