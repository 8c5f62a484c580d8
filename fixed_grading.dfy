/**
 * Fixed grading: the absolute threshold chain `get_grade` and its per-record
 * application (student-grading-system/app.py:22-36).
 */
module FixedGrading {
  import opened Wrappers
  import opened Grades

  /** `get_grade`: the first test of the chain that holds decides the grade. */
  function FixedGrade(m: Mark): (g: Grade)
    ensures m.Some? ==> MeetsFixed(m.value, g)
  {
    if m.None? || m.value < 50.0 then U
    else if m.value >= 91.0 then O
    else if m.value >= 81.0 then APlus
    else if m.value >= 71.0 then A
    else if m.value >= 61.0 then BPlus
    else if m.value >= 56.0 then B
    else if m.value >= 50.0 then C
    else U
  }

  /** The lowest mark that earns grade `g` or better; every mark earns U. */
  predicate MeetsFixed(x: real, g: Grade)
  {
    match g
    case O => x >= 91.0
    case APlus => x >= 81.0
    case A => x >= 71.0
    case BPlus => x >= 61.0
    case B => x >= 56.0
    case C => x >= 50.0
    case U => true
  }

  /** `g` is the best grade whose threshold the mark `x` reaches. */
  predicate HighestFixedMet(x: real, g: Grade)
  {
    MeetsFixed(x, g) && forall h :: Rank(g) < Rank(h) ==> !MeetsFixed(x, h)
  }

  /** A present mark gets exactly the best grade whose threshold it reaches. */
  lemma FixedGradeIsHighestMet(x: real, g: Grade)
    ensures FixedGrade(Some(x)) == g <==> HighestFixedMet(x, g)
  {
    var f := FixedGrade(Some(x));
    assert HighestFixedMet(x, f) by {
      forall h | Rank(f) < Rank(h) ensures !MeetsFixed(x, h) {
        match h
        case U =>
        case C =>
        case B =>
        case BPlus =>
        case A =>
        case APlus =>
        case O =>
      }
    }
    if HighestFixedMet(x, g) {
      assert !(Rank(f) < Rank(g)) && !(Rank(g) < Rank(f));
      RankInjective(f, g);
    }
  }

  /** U exactly for a missing mark or one below 50: the chain's last `return 'U'` is dead. */
  lemma FixedGradeUIff(m: Mark)
    ensures FixedGrade(m) == U <==> m.None? || m.value < 50.0
  {
  }

  /** A higher mark never gets a lower grade; a missing mark ranks with the lowest. */
  lemma FixedGradeMonotone(m1: Mark, m2: Mark)
    requires m1.None? || (m2.Some? && m1.value <= m2.value)
    ensures Rank(FixedGrade(m1)) <= Rank(FixedGrade(m2))
  {
  }

  /** `marks.apply(get_grade)`: one grade per record, index for index. */
  function ApplyFixedGrading(marks: seq<Mark>): (grades: seq<Grade>)
    ensures |grades| == |marks|
    ensures forall i :: 0 <= i < |marks| ==> grades[i] == FixedGrade(marks[i])
  {
    seq(|marks|, i requires 0 <= i < |marks| => FixedGrade(marks[i]))
  }

  /** Each record is graded on its own: grading a concatenation grades each part. */
  lemma ApplyFixedGradingConcat(m1: seq<Mark>, m2: seq<Mark>)
    ensures ApplyFixedGrading(m1 + m2) == ApplyFixedGrading(m1) + ApplyFixedGrading(m2)
  {
    var l, r := ApplyFixedGrading(m1 + m2), ApplyFixedGrading(m1) + ApplyFixedGrading(m2);
    assert |l| == |r|;
    forall i | 0 <= i < |l| ensures l[i] == r[i] {
      if i < |m1| {
        assert (m1 + m2)[i] == m1[i];
      } else {
        assert (m1 + m2)[i] == m2[i - |m1|];
      }
    }
  }
}
