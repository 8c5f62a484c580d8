/**
 * Relative grading (`apply_relative_grading`, student-grading-system/app.py:50-109).
 *
 * Only passers (a present mark of at least 50) are regraded; everybody else
 * keeps the initial U. The Box-Cox transform and the mean and standard
 * deviation of the transformed marks come from a numeric library and are an
 * input here (`Stats`); the cutoffs `mean + k * std`, the zero-deviation
 * check, the `np.select` first-match rule and every fallback branch are
 * modelled exactly.
 */
module RelativeGrading {
  import opened Wrappers
  import opened Grades
  import opened FixedGrading

  /** `(marks >= 50) & marks.notna()` for one record: exactly the records `get_grade` does not grade U. */
  function IsPass(m: Mark): (b: bool)
    ensures b <==> FixedGrade(m) != U
  {
    m.Some? && m.value >= 50.0
  }

  predicate StrictlyIncreasing(idx: seq<nat>)
  {
    forall j, k :: 0 <= j < k < |idx| ==> idx[j] < idx[k]
  }

  predicate IndicesBelow(idx: seq<nat>, n: nat)
  {
    forall j :: 0 <= j < |idx| ==> idx[j] < n
  }

  /** The passer indices from `i` on, in record order. */
  function PassIndicesFrom(marks: seq<Mark>, i: nat): (idx: seq<nat>)
    requires i <= |marks|
    ensures forall j :: 0 <= j < |idx| ==> i <= idx[j] < |marks| && IsPass(marks[idx[j]])
    ensures StrictlyIncreasing(idx)
    ensures forall n :: i <= n < |marks| && IsPass(marks[n]) ==> n in idx
    decreases |marks| - i
  {
    if i == |marks| then []
    else (if IsPass(marks[i]) then [i] else []) + PassIndicesFrom(marks, i + 1)
  }

  /** The index of `marks[passed_mask]`: exactly the passers, in record order. */
  function PassIndices(marks: seq<Mark>): (idx: seq<nat>)
    ensures IndicesBelow(idx, |marks|) && StrictlyIncreasing(idx)
    ensures forall j :: 0 <= j < |idx| ==> IsPass(marks[idx[j]])
    ensures forall n :: 0 <= n < |marks| && IsPass(marks[n]) ==> n in idx
  {
    PassIndicesFrom(marks, 0)
  }

  /** `passed_marks`, aligned with `PassIndices(marks)`. */
  function PassedMarks(marks: seq<Mark>): (passed: seq<Mark>)
    ensures |passed| == |PassIndices(marks)|
    ensures forall j :: 0 <= j < |passed| ==> passed[j] == marks[PassIndices(marks)[j]]
  {
    var idx := PassIndices(marks);
    seq(|idx|, j requires 0 <= j < |idx| => marks[idx[j]])
  }

  /** `Series.nunique()`: the number of distinct present values; zero exactly when none is present. */
  function NUnique(xs: seq<Mark>): (n: nat)
    ensures n == 0 <==> forall j :: 0 <= j < |xs| ==> xs[j].None?
  {
    var values := set j | 0 <= j < |xs| && xs[j].Some? :: xs[j].value;
    assert forall j :: 0 <= j < |xs| && xs[j].Some? ==> xs[j].value in values;
    |values|
  }

  /** Among present values, fewer than two distinct ones means they are all equal. */
  lemma NUniqueBelowTwoIff(xs: seq<Mark>)
    requires |xs| > 0 && forall j :: 0 <= j < |xs| ==> xs[j].Some?
    ensures NUnique(xs) < 2 <==> forall j :: 0 <= j < |xs| ==> xs[j] == xs[0]
  {
    var values := set j | 0 <= j < |xs| && xs[j].Some? :: xs[j].value;
    if forall j :: 0 <= j < |xs| ==> xs[j] == xs[0] {
      assert values == {xs[0].value};
    } else {
      var k :| 0 <= k < |xs| && xs[k] != xs[0];
      assert xs[0].value != xs[k].value;
      assert {xs[0].value, xs[k].value} <= values;
      var pair := {xs[0].value, xs[k].value};
      assert |pair| == 2;
      assert values == pair + (values - pair);
      assert pair * (values - pair) == {};
    }
  }

  /** The five cutoffs of app.py:81-85, lower bounds of O, A+, A, B+ and B. */
  datatype Cutoffs = Cutoffs(o: real, aPlus: real, a: real, bPlus: real, b: real)

  /** `mean + k * std_dev` for k in 1.65, 0.85, 0, -0.9, -1.8. */
  function MakeCutoffs(mean: real, stdDev: real): (c: Cutoffs)
    ensures c.a == mean
    ensures stdDev >= 0.0 ==> c.o >= c.aPlus >= c.a >= c.bPlus >= c.b
    ensures stdDev > 0.0 ==> c.o > c.aPlus > c.a > c.bPlus > c.b
  {
    Cutoffs(mean + 1.65 * stdDev, mean + 0.85 * stdDev, mean, mean - 0.9 * stdDev, mean - 1.8 * stdDev)
  }

  /**
   * The condition list of app.py:89-95 for one transformed value. With ordered
   * cutoffs the conditions are nested: one that holds implies every later one.
   */
  function Conditions(t: real, c: Cutoffs): (conds: seq<bool>)
    ensures |conds| == ConditionCount
    ensures c.o >= c.aPlus >= c.a >= c.bPlus >= c.b ==>
      forall k, q :: 0 <= k < q < |conds| && conds[k] ==> conds[q]
  {
    [t >= c.o, t >= c.aPlus, t >= c.a, t >= c.bPlus, t >= c.b]
  }

  const ConditionCount: nat := 5

  /** `np.select` on one element: the choice of the first condition that holds, else the default. */
  function FirstMatch(conds: seq<bool>, choices: seq<Grade>, default: Grade): (r: Grade)
    requires |conds| == |choices|
    ensures (forall k :: 0 <= k < |conds| ==> !conds[k]) ==> r == default
    ensures forall k :: 0 <= k < |conds| && conds[k] && (forall q :: 0 <= q < k ==> !conds[q]) ==> r == choices[k]
    ensures r == default || exists k :: 0 <= k < |conds| && conds[k] && r == choices[k]
  {
    if |conds| == 0 then default
    else if conds[0] then choices[0]
    else
      var r := FirstMatch(conds[1..], choices[1..], default);
      assert forall k :: 1 <= k < |conds| && conds[k] && (forall q :: 0 <= q < k ==> !conds[q]) ==>
        conds[1..][k - 1] && (forall q :: 0 <= q < k - 1 ==> !conds[1..][q]);
      r
  }

  /** The choices the corrected code pairs with the five conditions; the default is C. */
  const ThresholdGrades: seq<Grade> := [O, APlus, A, BPlus, B]

  /** `grade_choices` exactly as app.py:96 writes it: six choices for five conditions. */
  const SourceChoices: seq<Grade> := [O, APlus, A, BPlus, B, C]

  /**
   * `np.select(conditions, choices, default='C')` over the passers' transformed
   * values. numpy refuses a choice list whose length differs from the condition
   * list (`None`, a ValueError); otherwise each value gets its first match.
   */
  function SelectColumn(ts: seq<real>, c: Cutoffs, choices: seq<Grade>): (r: Option<seq<Grade>>)
    ensures r.Some? <==> |choices| == ConditionCount
    ensures r.Some? ==> |r.value| == |ts|
    ensures r.Some? ==> forall j :: 0 <= j < |ts| ==> r.value[j] == FirstMatch(Conditions(ts[j], c), choices, C)
  {
    if |choices| != ConditionCount then None
    else Some(seq(|ts|, j requires 0 <= j < |ts| => FirstMatch(Conditions(ts[j], c), choices, C)))
  }

  /** The grade the corrected selection gives one transformed value: never U, and its cutoff is met. */
  function SelectGrade(t: real, c: Cutoffs): (g: Grade)
    ensures g != U && MeetsCutoff(t, c, g)
  {
    var conds := Conditions(t, c);
    assert forall k :: 0 <= k < |conds| && conds[k] ==>
      ThresholdGrades[k] != U && MeetsCutoff(t, c, ThresholdGrades[k]);
    FirstMatch(conds, ThresholdGrades, C)
  }

  /** Whether `t` reaches the cutoff of grade `g`; every passer reaches C and none is U. */
  predicate MeetsCutoff(t: real, c: Cutoffs, g: Grade)
  {
    match g
    case O => t >= c.o
    case APlus => t >= c.aPlus
    case A => t >= c.a
    case BPlus => t >= c.bPlus
    case B => t >= c.b
    case C => true
    case U => false
  }

  /** The selection tests O, A+, A, B+, B in turn and defaults to C. */
  lemma SelectGradeChain(t: real, c: Cutoffs)
    ensures SelectGrade(t, c) ==
      if t >= c.o then O
      else if t >= c.aPlus then APlus
      else if t >= c.a then A
      else if t >= c.bPlus then BPlus
      else if t >= c.b then B
      else C
  {
    var conds := Conditions(t, c);
    if t >= c.o {
      assert conds[0];
    } else if t >= c.aPlus {
      assert !conds[0] && conds[1];
    } else if t >= c.a {
      assert !conds[0] && !conds[1] && conds[2];
    } else if t >= c.bPlus {
      assert !conds[0] && !conds[1] && !conds[2] && conds[3];
    } else if t >= c.b {
      assert !conds[0] && !conds[1] && !conds[2] && !conds[3] && conds[4];
    } else {
      assert forall k :: 0 <= k < |conds| ==> !conds[k];
    }
  }

  /** The selected grade is the best one whose cutoff `t` meets, and C when it meets none. */
  lemma SelectGradeIsHighestMet(t: real, c: Cutoffs, g: Grade)
    ensures SelectGrade(t, c) == g <==>
      MeetsCutoff(t, c, g) && forall h :: Rank(g) < Rank(h) ==> !MeetsCutoff(t, c, h)
  {
    SelectGradeChain(t, c);
    var s := SelectGrade(t, c);
    assert MeetsCutoff(t, c, s);
    assert forall h :: Rank(s) < Rank(h) ==> !MeetsCutoff(t, c, h) by {
      forall h | Rank(s) < Rank(h) ensures !MeetsCutoff(t, c, h) {
        match h
        case U =>
        case C =>
        case B =>
        case BPlus =>
        case A =>
        case APlus =>
        case O =>
      }
    }
    if MeetsCutoff(t, c, g) && forall h :: Rank(g) < Rank(h) ==> !MeetsCutoff(t, c, h) {
      assert !(Rank(s) < Rank(g)) && !(Rank(g) < Rank(s));
      RankInjective(s, g);
    }
  }

  /**
   * A larger transformed value never gets a lower grade. Because the conditions
   * are tested in grade order, this holds for any cutoffs, ordered or not.
   */
  lemma SelectGradeMonotone(t1: real, t2: real, c: Cutoffs)
    requires t1 <= t2
    ensures Rank(SelectGrade(t1, c)) <= Rank(SelectGrade(t2, c))
  {
    SelectGradeChain(t1, c);
    SelectGradeChain(t2, c);
  }

  /** The result of Box-Cox and of the mean and standard deviation of its output. */
  datatype Stats =
    | BoxCoxFailed
    | BoxCox(transformed: seq<real>, mean: real, stdDev: real)

  /** Which branch of `apply_relative_grading` decided the passers' grades. */
  datatype Path = NoPassers | FewDistinct | Fallback | Selected(cutoffs: Cutoffs)

  datatype Outcome = Outcome(path: Path, grades: seq<Grade>)

  /** `final_grades.update(...)`: write `vals[j]` at record `idx[j]`, in order. */
  function Overwrite(base: seq<Grade>, idx: seq<nat>, vals: seq<Grade>): (r: seq<Grade>)
    requires |idx| == |vals| && IndicesBelow(idx, |base|)
    ensures |r| == |base|
    decreases |idx|
  {
    if |idx| == 0 then base
    else Overwrite(base[idx[0] := vals[0]], idx[1..], vals[1..])
  }

  /** With distinct indices, each listed record gets its value and every other record is untouched. */
  lemma {:induction false} OverwriteAt(base: seq<Grade>, idx: seq<nat>, vals: seq<Grade>)
    requires |idx| == |vals| && IndicesBelow(idx, |base|) && StrictlyIncreasing(idx)
    ensures forall j :: 0 <= j < |idx| ==> Overwrite(base, idx, vals)[idx[j]] == vals[j]
    ensures forall i :: 0 <= i < |base| && i !in idx ==> Overwrite(base, idx, vals)[i] == base[i]
    decreases |idx|
  {
    if |idx| > 0 {
      var next := base[idx[0] := vals[0]];
      OverwriteAt(next, idx[1..], vals[1..]);
      assert idx[0] !in idx[1..];
      forall j | 0 <= j < |idx|
        ensures Overwrite(base, idx, vals)[idx[j]] == vals[j]
      {
        if j > 0 {
          assert idx[j] == idx[1..][j - 1];
        }
      }
      forall i | 0 <= i < |base| && i !in idx
        ensures Overwrite(base, idx, vals)[i] == base[i]
      {
        assert i !in idx[1..];
      }
    }
  }

  function AllU(n: nat): (r: seq<Grade>)
    ensures |r| == n && forall i :: 0 <= i < n ==> r[i] == U
  {
    seq(n, _ => U)
  }

  /**
   * `apply_relative_grading` with a given choice list for `np.select`. Every
   * record starts as U; the passers are then regraded on one of the branches.
   */
  function RelativeWith(marks: seq<Mark>, stats: Stats, choices: seq<Grade>): (r: Outcome)
    ensures |r.grades| == |marks|
    ensures forall i :: 0 <= i < |marks| && !IsPass(marks[i]) ==> r.grades[i] == U
  {
    var idx := PassIndices(marks);
    var base := AllU(|marks|);
    if |idx| == 0 then Outcome(NoPassers, base)
    else
      var passed := PassedMarks(marks);
      var fixedVals := ApplyFixedGrading(passed);
      OverwriteAt(base, idx, fixedVals);
      var fallback := Overwrite(base, idx, fixedVals);
      if NUnique(passed) < 2 then Outcome(FewDistinct, fallback)
      else if stats.BoxCoxFailed? || |stats.transformed| != |idx| || stats.stdDev == 0.0 then
        Outcome(Fallback, fallback)
      else
        var c := MakeCutoffs(stats.mean, stats.stdDev);
        match SelectColumn(stats.transformed, c, choices)
        case None => Outcome(Fallback, fallback)
        case Some(vals) =>
          OverwriteAt(base, idx, vals);
          Outcome(Selected(c), Overwrite(base, idx, vals))
  }

  /**
   * Relative grading as evidently intended: five conditions, five choices,
   * default C. Off the selection branch the result is fixed grading.
   */
  function RelativeGrades(marks: seq<Mark>, stats: Stats): (r: Outcome)
    ensures !r.path.Selected? ==> r.grades == ApplyFixedGrading(marks)
  {
    RelativeWithFacts(marks, stats, ThresholdGrades);
    RelativeWith(marks, stats, ThresholdGrades)
  }

  /**
   * Relative grading exactly as app.py:96-99 writes it, with six choices. numpy
   * rejects six choices for five conditions, so the selection is never reached
   * and every cohort gets exactly its fixed grades.
   */
  function RelativeGradesAsWritten(marks: seq<Mark>, stats: Stats): (r: Outcome)
    ensures !r.path.Selected? && r.grades == ApplyFixedGrading(marks)
  {
    RelativeWithFacts(marks, stats, SourceChoices);
    RelativeWith(marks, stats, SourceChoices)
  }

  /** On a fallback branch the passers get `get_grade` of their raw mark: the same as fixed grading of every record. */
  lemma FallbackIsFixedGrading(marks: seq<Mark>)
    ensures Overwrite(AllU(|marks|), PassIndices(marks), ApplyFixedGrading(PassedMarks(marks)))
      == ApplyFixedGrading(marks)
  {
    var idx, passed := PassIndices(marks), PassedMarks(marks);
    var lhs := Overwrite(AllU(|marks|), idx, ApplyFixedGrading(passed));
    OverwriteAt(AllU(|marks|), idx, ApplyFixedGrading(passed));
    forall i | 0 <= i < |marks| ensures lhs[i] == FixedGrade(marks[i]) {
      FixedGradeUIff(marks[i]);
      if i in idx {
        var j :| 0 <= j < |idx| && idx[j] == i;
        assert lhs[idx[j]] == FixedGrade(passed[j]);
      }
    }
  }

  /** Off the selection branch the result is fixed grading; on it, each passer gets its first match. */
  lemma RelativeWithFacts(marks: seq<Mark>, stats: Stats, choices: seq<Grade>)
    ensures !RelativeWith(marks, stats, choices).path.Selected? ==>
      RelativeWith(marks, stats, choices).grades == ApplyFixedGrading(marks)
    ensures RelativeWith(marks, stats, choices).path.Selected? ==>
      var c := RelativeWith(marks, stats, choices).path.cutoffs;
      && stats.BoxCox? && stats.stdDev != 0.0 && c == MakeCutoffs(stats.mean, stats.stdDev)
      && |stats.transformed| == |PassIndices(marks)| && |choices| == ConditionCount
      && forall j :: 0 <= j < |PassIndices(marks)| ==>
           RelativeWith(marks, stats, choices).grades[PassIndices(marks)[j]]
             == FirstMatch(Conditions(stats.transformed[j], c), choices, C)
  {
    var idx := PassIndices(marks);
    var out := RelativeWith(marks, stats, choices);
    FallbackIsFixedGrading(marks);
    if |idx| == 0 {
      forall i | 0 <= i < |marks| ensures out.grades[i] == FixedGrade(marks[i]) {
        assert i !in idx;
        FixedGradeUIff(marks[i]);
      }
    } else if out.path.Selected? {
      var vals := SelectColumn(stats.transformed, out.path.cutoffs, choices).value;
      OverwriteAt(AllU(|marks|), idx, vals);
    }
  }

  /**
   * A cohort on which the two differ. Box-Cox with lambda 1 maps the marks 51,
   * 61 and 71 to 50, 60 and 70, whose mean is 60 and sample deviation 10. As
   * written the 51 keeps its fixed grade C; the intended selection gives it B,
   * since 50 lies between the B cutoff 42 and the B+ cutoff 51.
   */
  lemma AsWrittenDiffersFromIntended(marks: seq<Mark>, stats: Stats)
    requires marks == [Some(51.0), Some(61.0), Some(71.0)]
    requires stats == BoxCox([50.0, 60.0, 70.0], 60.0, 10.0)
    ensures RelativeGradesAsWritten(marks, stats).grades[0] == C
    ensures RelativeGrades(marks, stats).grades[0] == B
  {
    assert RelativeGradesAsWritten(marks, stats).grades[0] == C by {
      assert ApplyFixedGrading(marks)[0] == FixedGrade(Some(51.0));
    }
    var out := RelativeGrades(marks, stats);
    assert out.path.Selected? by {
      WitnessPassers(marks);
      RelativePaths(marks, stats);
    }
    var c := MakeCutoffs(60.0, 10.0);
    assert out.grades[0] == SelectGrade(50.0, c) by {
      WitnessPassers(marks);
      RelativeSelectedGrades(marks, stats);
    }
    SelectGradeChain(50.0, c);
  }

  /** The three marks of the counterexample all pass and are not all equal. */
  lemma WitnessPassers(marks: seq<Mark>)
    requires marks == [Some(51.0), Some(61.0), Some(71.0)]
    ensures PassIndices(marks) == [0, 1, 2]
    ensures !SamePassingMark(marks)
  {
    assert PassIndicesFrom(marks, 3) == [];
    assert PassIndicesFrom(marks, 2) == [2];
    assert PassIndicesFrom(marks, 1) == [1, 2];
    assert IsPass(marks[0]) && IsPass(marks[1]) && marks[0] != marks[1];
  }

  /** Every passer has the same mark. */
  predicate SamePassingMark(marks: seq<Mark>)
  {
    forall i, k :: 0 <= i < |marks| && 0 <= k < |marks| && IsPass(marks[i]) && IsPass(marks[k]) ==> marks[i] == marks[k]
  }

  /** `passed_marks.nunique() < 2` holds exactly when all passers share one mark. */
  lemma FewDistinctIffSameMark(marks: seq<Mark>)
    ensures NUnique(PassedMarks(marks)) < 2 <==> SamePassingMark(marks)
  {
    var idx, passed := PassIndices(marks), PassedMarks(marks);
    if |passed| == 0 {
      return;
    }
    NUniqueBelowTwoIff(passed);
    if forall j :: 0 <= j < |passed| ==> passed[j] == passed[0] {
      forall i, k | 0 <= i < |marks| && 0 <= k < |marks| && IsPass(marks[i]) && IsPass(marks[k])
        ensures marks[i] == marks[k]
      {
        var ji :| 0 <= ji < |idx| && idx[ji] == i;
        var jk :| 0 <= jk < |idx| && idx[jk] == k;
        assert marks[i] == passed[ji] && marks[k] == passed[jk];
      }
    } else {
      var j :| 0 <= j < |passed| && passed[j] != passed[0];
      assert marks[idx[j]] != marks[idx[0]];
    }
  }

  /** One grade per record, and a record ends as U exactly when it is missing or below 50. */
  lemma RelativeUExactlyNonPassers(marks: seq<Mark>, stats: Stats)
    ensures |RelativeGrades(marks, stats).grades| == |marks|
    ensures forall i :: 0 <= i < |marks| ==> (RelativeGrades(marks, stats).grades[i] == U <==> !IsPass(marks[i]))
  {
    RelativeWithFacts(marks, stats, ThresholdGrades);
    var out, idx := RelativeGrades(marks, stats), PassIndices(marks);
    forall i | 0 <= i < |marks| && IsPass(marks[i]) ensures out.grades[i] != U {
      var j :| 0 <= j < |idx| && idx[j] == i;
      if out.path.Selected? {
        assert out.grades[i] == SelectGrade(stats.transformed[j], out.path.cutoffs);
      } else {
        FixedGradeUIff(marks[i]);
      }
    }
  }

  /** Which branch is taken, for every cohort and every outcome of the statistics. */
  lemma RelativePaths(marks: seq<Mark>, stats: Stats)
    ensures RelativeGrades(marks, stats).path == NoPassers <==>
      forall i :: 0 <= i < |marks| ==> !IsPass(marks[i])
    ensures RelativeGrades(marks, stats).path == FewDistinct <==>
      |PassIndices(marks)| > 0 && SamePassingMark(marks)
    ensures RelativeGrades(marks, stats).path == Fallback <==>
      && |PassIndices(marks)| > 0 && !SamePassingMark(marks)
      && (stats.BoxCoxFailed? || |stats.transformed| != |PassIndices(marks)| || stats.stdDev == 0.0)
    ensures RelativeGrades(marks, stats).path.Selected? <==>
      && |PassIndices(marks)| > 0 && !SamePassingMark(marks)
      && stats.BoxCox? && |stats.transformed| == |PassIndices(marks)| && stats.stdDev != 0.0
  {
    var idx := PassIndices(marks);
    if |idx| > 0 {
      FewDistinctIffSameMark(marks);
      assert IsPass(marks[idx[0]]);
    }
  }

  /** With no passers every record is U. */
  lemma NoPassersAllU(marks: seq<Mark>, stats: Stats)
    requires forall i :: 0 <= i < |marks| ==> !IsPass(marks[i])
    ensures RelativeGrades(marks, stats).grades == AllU(|marks|)
  {
    RelativeUExactlyNonPassers(marks, stats);
  }

  /** On the selection branch the j-th passer gets the first grade whose cutoff its transformed value meets. */
  lemma RelativeSelectedGrades(marks: seq<Mark>, stats: Stats)
    requires RelativeGrades(marks, stats).path.Selected?
    ensures stats.BoxCox? && stats.stdDev != 0.0 && |stats.transformed| == |PassIndices(marks)|
    ensures RelativeGrades(marks, stats).path.cutoffs == MakeCutoffs(stats.mean, stats.stdDev)
    ensures forall j :: 0 <= j < |PassIndices(marks)| ==>
      RelativeGrades(marks, stats).grades[PassIndices(marks)[j]]
        == SelectGrade(stats.transformed[j], RelativeGrades(marks, stats).path.cutoffs)
  {
    RelativeWithFacts(marks, stats, ThresholdGrades);
  }

  /** The transformed values are in the same order as the passers' marks (Box-Cox is increasing). */
  predicate TransformKeepsOrder(marks: seq<Mark>, stats: Stats)
  {
    stats.BoxCox? && |stats.transformed| == |PassIndices(marks)| ==>
      forall j, k ::
        (0 <= j < |stats.transformed| && 0 <= k < |stats.transformed| &&
         marks[PassIndices(marks)[j]].value <= marks[PassIndices(marks)[k]].value) ==>
          stats.transformed[j] <= stats.transformed[k]
  }

  /** Given an order-keeping transform, a higher mark never gets a lower grade, on every branch. */
  lemma RelativeGradesMonotone(marks: seq<Mark>, stats: Stats, i1: nat, i2: nat)
    requires TransformKeepsOrder(marks, stats)
    requires i1 < |marks| && i2 < |marks| && marks[i1].Some? && marks[i2].Some?
    requires marks[i1].value <= marks[i2].value
    ensures Rank(RelativeGrades(marks, stats).grades[i1]) <= Rank(RelativeGrades(marks, stats).grades[i2])
  {
    RelativeUExactlyNonPassers(marks, stats);
    var out, idx := RelativeGrades(marks, stats), PassIndices(marks);
    if IsPass(marks[i1]) {
      assert IsPass(marks[i2]);
      if out.path.Selected? {
        RelativeSelectedGrades(marks, stats);
        var j1 :| 0 <= j1 < |idx| && idx[j1] == i1;
        var j2 :| 0 <= j2 < |idx| && idx[j2] == i2;
        SelectGradeMonotone(stats.transformed[j1], stats.transformed[j2], out.path.cutoffs);
      } else {
        FixedGradeMonotone(marks[i1], marks[i2]);
      }
    }
  }

  /** `final_grades.update(passed_grades)` in place on the array of grades. */
  method Update(finalGrades: array<Grade>, idx: seq<nat>, vals: seq<Grade>)
    requires |idx| == |vals| && IndicesBelow(idx, finalGrades.Length)
    modifies finalGrades
    ensures finalGrades[..] == Overwrite(old(finalGrades[..]), idx, vals)
  {
    var j := 0;
    while j < |idx|
      invariant 0 <= j <= |idx|
      invariant Overwrite(finalGrades[..], idx[j..], vals[j..]) == Overwrite(old(finalGrades[..]), idx, vals)
    {
      assert idx[j..][1..] == idx[j + 1..] && vals[j..][1..] == vals[j + 1..];
      finalGrades[idx[j]] := vals[j];
      j := j + 1;
    }
  }

  /**
   * `apply_relative_grading` on an array of grades: every record starts as U,
   * and the passers are overwritten on the branch the cohort and its
   * statistics select.
   */
  method ApplyRelativeGrading(marks: seq<Mark>, stats: Stats) returns (out: Outcome)
    ensures out == RelativeGrades(marks, stats)
  {
    var finalGrades := new Grade[|marks|](_ => U);
    assert finalGrades[..] == AllU(|marks|);
    var idx := PassIndices(marks);
    if |idx| == 0 {
      return Outcome(NoPassers, finalGrades[..]);
    }
    var passed := PassedMarks(marks);
    if NUnique(passed) < 2 {
      Update(finalGrades, idx, ApplyFixedGrading(passed));
      return Outcome(FewDistinct, finalGrades[..]);
    }
    if stats.BoxCox? && |stats.transformed| == |idx| && stats.stdDev != 0.0 {
      var c := MakeCutoffs(stats.mean, stats.stdDev);
      var column := SelectColumn(stats.transformed, c, ThresholdGrades);
      if column.Some? {
        Update(finalGrades, idx, column.value);
        return Outcome(Selected(c), finalGrades[..]);
      }
    }
    Update(finalGrades, idx, ApplyFixedGrading(passed));
    out := Outcome(Fallback, finalGrades[..]);
  }
}
