/**
 * Choice of grading policy from the number of present marks
 * (student-grading-system/app.py:150-152).
 */
module Policy {
  import opened Wrappers
  import opened Grades

  datatype GradingPolicy = Fixed | Relative

  /** Cohorts with more present marks than this are graded relatively. */
  const RelativeThreshold: nat := 30

  /** `len(df.dropna(subset=['Marks']))`: the number of records with a present mark. */
  function PresentCount(marks: seq<Mark>): (n: nat)
    ensures n <= |marks|
  {
    if |marks| == 0 then 0
    else PresentCount(marks[..|marks| - 1]) + (if marks[|marks| - 1].Some? then 1 else 0)
  }

  /** The indices below `n` whose mark is present. */
  function PresentIndices(marks: seq<Mark>, n: nat): set<nat>
    requires n <= |marks|
  {
    set i: nat | i < n && marks[i].Some?
  }

  /** The count agrees with the size of the set of records that have a mark. */
  lemma {:induction false} PresentCountIsSize(marks: seq<Mark>)
    ensures PresentCount(marks) == |PresentIndices(marks, |marks|)|
  {
    if |marks| > 0 {
      var n := |marks| - 1;
      var pre := marks[..n];
      PresentCountIsSize(pre);
      assert PresentIndices(pre, n) == PresentIndices(marks, n);
      if marks[n].Some? {
        assert PresentIndices(marks, n + 1) == PresentIndices(marks, n) + {n};
      } else {
        assert PresentIndices(marks, n + 1) == PresentIndices(marks, n);
      }
    }
  }

  /** Missing marks do not count: appending records without a mark leaves the count unchanged. */
  lemma {:induction false} PresentCountIgnoresMissing(marks: seq<Mark>, k: nat)
    ensures PresentCount(marks + seq(k, _ => None)) == PresentCount(marks)
  {
    if k > 0 {
      var longer := marks + seq(k, _ => None);
      assert longer[..|longer| - 1] == marks + seq(k - 1, _ => None);
      assert longer[|longer| - 1] == None;
      PresentCountIgnoresMissing(marks, k - 1);
    } else {
      assert marks + seq(k, _ => None) == marks;
    }
  }

  /** When every record has a mark, all of them count. */
  lemma {:induction false} PresentCountAllPresent(marks: seq<Mark>)
    requires forall i :: 0 <= i < |marks| ==> marks[i].Some?
    ensures PresentCount(marks) == |marks|
  {
    if |marks| > 0 {
      PresentCountAllPresent(marks[..|marks| - 1]);
    }
  }

  /** app.py:151: relative grading when more than 30 marks are present. */
  function SelectPolicy(marks: seq<Mark>): (p: GradingPolicy)
    ensures |marks| <= RelativeThreshold ==> p == Fixed
  {
    if PresentCount(marks) > RelativeThreshold then Relative else Fixed
  }

  /** Relative grading is chosen exactly when more than 30 records carry a present mark. */
  lemma SelectPolicyIff(marks: seq<Mark>)
    ensures SelectPolicy(marks) == Relative <==> |PresentIndices(marks, |marks|)| > 30
    ensures SelectPolicy(marks) == Fixed <==> |PresentIndices(marks, |marks|)| <= 30
  {
    PresentCountIsSize(marks);
  }

  /** The policy token `grading_method` reported with the results. */
  function PolicyName(p: GradingPolicy): (s: string)
    ensures s == "relative_grading" <==> p == Relative
  {
    match p
    case Relative => "relative_grading"
    case Fixed => "fixed_grading"
  }
}
