# Grading engine of the student grading system, modelled in Dafny

The model covers the grading core of `student-grading-system/app.py`:

- the fixed grader `get_grade`, applied to each record;
- the choice between fixed and relative grading, made from the number of present marks;
- the relative grader `apply_relative_grading`;
- the grade-points lookup;
- `calculate_grade_ranges`, which reports the mark range actually observed for each grade.

A mark is `Option<real>`, where `None` is a missing or non-numeric entry (NaN after `pd.to_numeric`). A grade is one of `O | APlus | A | BPlus | B | C | U`, ordered `U < C < B < B+ < A < A+ < O` by `Grades.Rank`.

Modules, one per component:

- `Wrappers`: `Option`.
- `Grades`: grades, their labels and the `GRADE_POINTS_MAP` lookup.
- `FixedGrading`: `get_grade` and its per-record application.
- `Policy`: the present-mark count and the policy choice.
- `RelativeGrading`: `apply_relative_grading`, written as a method that overwrites an array of grades. The method is the corrected grader: it pairs the five conditions with five choices (see "## Findings"). It is proved equal to the specification function `RelativeGrades`, and the lemmas prove the properties about that function. `RelativeGradesAsWritten` keeps the six choices of the code as written.
- `NumberFormat`: Python's `int()` of a float and `str()` of an int.
- `GradeRanges`: `calculate_grade_ranges`, as a loop that grows a map from grade to range text.
- `Upload`: the grading steps of the `/upload` handler.

The Box-Cox transform and the mean and standard deviation of its output are an input to the model. The type `RelativeGrading.Stats` is either `BoxCoxFailed` or the transformed values with their mean and deviation. Everything after that is modelled exactly in real arithmetic:

- the cutoffs `mean + k * std` for k in 1.65, 0.85, 0, -0.9 and -1.8;
- the `std_dev == 0` check;
- the length check that `pd.Series(transformed, index=...)` and `np.select` perform;
- the first-match selection with default `C`;
- every fallback branch.

The branch taken is reported as a tagged `Path`: `NoPassers`, `FewDistinct`, `Fallback` or `Selected(cutoffs)`.

Two behaviours follow the code closely:

- The grade ranges are not built from cutoffs or from a static table. They are the lowest and highest mark observed in each grade, truncated to integers (app.py:114-117).
- A cohort of more than 30 identical marks of 70 takes the few-distinct fallback. Every record gets B+, because the A threshold of `get_grade` is 71 (app.py:30-31). `Upload.IdenticalMarksExample` proves this.

## Model

| member | source | states |
|---|---|---|
| `Grades.LabelRoundTrip` | student-grading-system/app.py:27-34 | the seven grade labels are distinct: reading a grade's label back yields that grade |
| `Grades.PointsOfLabel` | student-grading-system/app.py:155 | a label in GRADE_POINTS_MAP scores its table value; any other label scores 0 (`fillna(0)`) |
| `Grades.GradePointsTable` | student-grading-system/app.py:18 | O 10, A+ 9, A 8, B+ 7, B 6, C 5, U 0 |
| `Grades.Label` | student-grading-system/app.py:155 | every grade's label is a key of GRADE_POINTS_MAP, so the `fillna(0)` default is never used for a real grade |
| `Grades.GradePoints` | student-grading-system/app.py:155 | a grade's points, looked up through its label, lie in 0..10 and are 0 exactly for U |
| `Grades.UnmappedLabelScoresZero` | student-grading-system/app.py:155 | a label naming no grade scores 0 |
| `Grades.GradePointsStrictlyIncrease` | student-grading-system/app.py:18 | a higher grade has strictly more points |
| `Grades.GradePointsRange` | student-grading-system/app.py:18 | points are 0 for U and 4 + rank otherwise, so always one of 0, 5..10 |
| `Grades.PointsColumn` | student-grading-system/app.py:155 | one points value per record, from the label lookup; 0 exactly for U; always within 0..10 |
| `FixedGrading.FixedGrade` | student-grading-system/app.py:26-34 | a present mark always reaches the threshold of the grade it gets |
| `FixedGrading.FixedGradeIsHighestMet` | student-grading-system/app.py:26-34 | a present mark gets exactly the best grade whose threshold (91/81/71/61/56/50, U for any mark) it reaches |
| `FixedGrading.FixedGradeUIff` | student-grading-system/app.py:27-34 | U if and only if the mark is missing or below 50, so the final `return 'U'` is unreachable |
| `FixedGrading.FixedGradeMonotone` | student-grading-system/app.py:26-34 | a higher mark never gets a lower grade; a missing mark ranks lowest |
| `FixedGrading.ApplyFixedGrading` | student-grading-system/app.py:36 | one grade per record, index for index, each the grade of that record's mark |
| `FixedGrading.ApplyFixedGradingConcat` | student-grading-system/app.py:36 | records are graded independently: grading a concatenation grades each part |
| `Policy.PresentCount` | student-grading-system/app.py:150 | the present-mark count never exceeds the number of records |
| `Policy.PresentCountIsSize` | student-grading-system/app.py:150 | the count equals the size of the set of record indices that have a mark |
| `Policy.PresentCountIgnoresMissing` | student-grading-system/app.py:150 | adding records without a mark leaves the count unchanged |
| `Policy.PresentCountAllPresent` | student-grading-system/app.py:150 | when every record has a mark, all of them count |
| `Policy.SelectPolicyIff` | student-grading-system/app.py:150-151 | relative grading if and only if more than 30 records have a present mark; fixed grading otherwise, including at exactly 30 |
| `Policy.SelectPolicy` | student-grading-system/app.py:151 | a cohort of at most 30 records is always graded with fixed thresholds, whatever it holds |
| `Policy.PolicyName` | student-grading-system/app.py:151 | the token is "relative_grading" exactly for the relative policy |
| `RelativeGrading.IsPass` | student-grading-system/app.py:57 | a record passes exactly when `get_grade` does not give it U |
| `RelativeGrading.PassIndicesFrom` | student-grading-system/app.py:57-58 | the passer indices from a start index on, increasing, and containing every passer in that range |
| `RelativeGrading.PassIndices` | student-grading-system/app.py:57-58 | the index of `passed_marks`: increasing, in range, every entry a passer and every passer an entry |
| `RelativeGrading.PassedMarks` | student-grading-system/app.py:58 | `passed_marks`, aligned position by position with the passer index |
| `RelativeGrading.NUnique` | student-grading-system/app.py:63 | the count of distinct present values is 0 exactly when no value is present |
| `RelativeGrading.NUniqueBelowTwoIff` | student-grading-system/app.py:63 | for present values, `nunique() < 2` holds if and only if all values are equal |
| `RelativeGrading.FewDistinctIffSameMark` | student-grading-system/app.py:63 | fewer than two distinct passing marks holds exactly when all passers share one mark (vacuously so with no passers) |
| `RelativeGrading.MakeCutoffs` | student-grading-system/app.py:81-85 | the A cutoff is the mean; for a non-negative deviation the cutoffs are ordered o ≥ a+ ≥ a ≥ b+ ≥ b, strictly when it is positive |
| `RelativeGrading.Conditions` | student-grading-system/app.py:89-95 | five conditions; with ordered cutoffs they are nested, so a condition that holds implies every later one |
| `RelativeGrading.FirstMatch` | student-grading-system/app.py:99 | `np.select` on one element: the choice paired with the first condition that holds, or the default when none holds; the result is always the default or a choice whose condition holds |
| `RelativeGrading.SelectColumn` | student-grading-system/app.py:89-99 | numpy rejects a choice list whose length differs from the five conditions; otherwise each transformed value gets its first match |
| `RelativeGrading.SelectGradeChain` | student-grading-system/app.py:89-99 | the corrected selection tests the O, A+, A, B+ and B cutoffs in turn (≥) and defaults to C |
| `RelativeGrading.SelectGradeIsHighestMet` | student-grading-system/app.py:89-99 | the selected grade is the best one whose cutoff the value meets, C when it meets none (if and only if) |
| `RelativeGrading.SelectGrade` | student-grading-system/app.py:89-99 | the corrected selection never gives U, and a value always meets the cutoff of the grade it gets |
| `RelativeGrading.SelectGradeMonotone` | student-grading-system/app.py:89-99 | a larger transformed value never gets a lower grade, for any cutoffs |
| `RelativeGrading.Overwrite` | student-grading-system/app.py:101 | `update` keeps the length of the grade column |
| `RelativeGrading.OverwriteAt` | student-grading-system/app.py:101 | with distinct indices, `update` writes each listed record's new grade and leaves every other record unchanged |
| `RelativeGrading.AllU` | student-grading-system/app.py:55 | the initial column: every record is U |
| `RelativeGrading.FallbackIsFixedGrading` | student-grading-system/app.py:103-107 | giving the passers `get_grade` of their raw marks produces exactly fixed grading of the whole cohort |
| `RelativeGrading.RelativeWith` | student-grading-system/app.py:50-109 | for any choice list: one grade per record, and every non-passer stays U on every branch |
| `RelativeGrading.RelativeWithFacts` | student-grading-system/app.py:55-109 | for any choice list: off the selection branch the result is fixed grading; on it the statistics were usable, the choice list has five entries, and each passer gets its first match |
| `RelativeGrading.RelativeGrades` | student-grading-system/app.py:50-109 | the corrected grader: on the few-distinct, no-passer and fallback branches the result equals fixed grading |
| `RelativeGrading.RelativeGradesAsWritten` | student-grading-system/app.py:50-109 | with the six choices as written, the selection branch is never reached and every cohort gets exactly its fixed grades |
| `RelativeGrading.AsWrittenDiffersFromIntended` | student-grading-system/app.py:96-99 | marks 51, 61 and 71 with the statistics Box-Cox gives for lambda = 1 (transformed values 50, 60 and 70, mean 60, sample deviation 10): as written the 51 gets C, as intended it gets B |
| `RelativeGrading.RelativeUExactlyNonPassers` | student-grading-system/app.py:55-58 | one grade per record; a record ends as U if and only if it is missing or below 50, on every branch |
| `RelativeGrading.RelativePaths` | student-grading-system/app.py:60-78 | the branch is NoPassers iff no record passes; FewDistinct iff passers exist and all share one mark; Fallback iff, beyond that, Box-Cox failed, the lengths differ or the deviation is 0; Selected otherwise |
| `RelativeGrading.NoPassersAllU` | student-grading-system/app.py:60-61 | with no passers every record is U |
| `RelativeGrading.RelativeSelectedGrades` | student-grading-system/app.py:81-101 | on the selection branch the cutoffs are `mean + k·std` with a nonzero deviation, and the j-th passer gets the selection for its transformed value |
| `RelativeGrading.RelativeGradesMonotone` | student-grading-system/app.py:70-107 | if the transform keeps the order of the passing marks, a higher mark never gets a lower grade, on every branch |
| `RelativeGrading.Update` | student-grading-system/app.py:101 | the grade array becomes the old column with the listed records overwritten |
| `RelativeGrading.ApplyRelativeGrading` | student-grading-system/app.py:50-109 | the array-based grader returns exactly the branch and the grades of the corrected specification `RelativeGrades` |
| `NumberFormat.Trunc` | student-grading-system/app.py:116 | `int()` truncates toward zero: the result lies within 1 of the value, on the same side of zero |
| `NumberFormat.TruncMonotone` | student-grading-system/app.py:116 | truncation keeps order, so a group's lower bound never exceeds its upper bound |
| `NumberFormat.NatToString` | student-grading-system/app.py:117 | decimal digits, at least one, with no leading zero |
| `NumberFormat.IntToString` | student-grading-system/app.py:117 | `str()` of an int is non-empty and has no blank |
| `NumberFormat.ParseDigitsRoundTrip` | student-grading-system/app.py:117 | the digits of a natural number read back as that number |
| `NumberFormat.IntToStringRoundTrip` | student-grading-system/app.py:117 | `str()` of any int reads back as that int |
| `GradeRanges.GroupMinMaxUpTo` | student-grading-system/app.py:114 | per grade, the group's min and max: absent iff no record with that grade has a present mark; otherwise min ≤ max, both are marks of the group, and they bound every mark of the group |
| `GradeRanges.GroupMinMax` | student-grading-system/app.py:114 | a grade's group bounds are absent exactly when no record with that grade has a present mark; otherwise min ≤ max |
| `GradeRanges.RangeTextRoundTrip` | student-grading-system/app.py:117 | the text "lo - hi" for distinct bounds reads back as (lo, hi), and a single "lo" as (lo, lo) |
| `GradeRanges.RenderRange` | student-grading-system/app.py:117 | the entry, "lo - hi" or "lo" when equal, reads back as exactly (lo, hi) |
| `GradeRanges.RangeLabel` | student-grading-system/app.py:116-117 | a group's entry reads back as its truncated min and max |
| `GradeRanges.RenderRangeShape` | student-grading-system/app.py:117 | the entry is a single number (no blank) if and only if the bounds coincide |
| `GradeRanges.RangeLabelBounds` | student-grading-system/app.py:116-117 | truncated bounds satisfy lo ≤ hi, and the entry reads back as the truncated min and max |
| `GradeRanges.GroupOrderCoversAll` | student-grading-system/app.py:114-115 | the grouping visits every grade |
| `GradeRanges.CalculateGradeRanges` | student-grading-system/app.py:111-118 | an entry for exactly the grades some record with a present mark received, holding that group's rendered truncated min and max |
| `Upload.CohortGrades` | student-grading-system/app.py:150-154 | with the selected policy, one grade per record, U exactly for the non-passers |
| `Upload.GradeCohort` | student-grading-system/app.py:150-164 | the report holds the selected policy, its grades, the points of each grade and the observed range of every grade; cohorts of more than 30 present marks get the corrected relative grades |
| `Upload.SmallCohortExample` | student-grading-system/app.py:150-155 | marks 95, 85, 65, 40 and one missing mark: fixed policy, grades O, A+, B+, U, U, points 10, 9, 7, 0, 0 |
| `Upload.IdenticalMarksExample` | student-grading-system/app.py:150-154 | more than 30 students all marked 70: relative policy, few-distinct fallback, every grade B+ |

## Findings

| source | as written | input that shows it | evidently intended | confidence | as-written member | corrected member |
|---|---|---|---|---|---|---|
| student-grading-system/app.py:89-99 | five conditions are passed to `np.select` with six choices (`'C'` twice: once as a choice, once as the default). numpy raises ValueError when the two lists differ in length, so the `except` branch always runs and relative grading always equals fixed grading | `apply_relative_grading` on the marks 51, 61 and 71, taking the statistics for lambda = 1 (transformed values 50, 60 and 70, mean 60, sample deviation 10): the 51 gets C (its fixed grade) | five choices O, A+, A, B+, B with default C: for lambda = 1 the cutoffs are 76.5, 68.5, 60, 51 and 42, so the transformed 50 falls between the B and B+ cutoffs and the 51 gets B. `boxcox` without `lmbda` picks the likelihood-maximising lambda, about 0.6 by a hand computation (not executed); there the 51 lies about 1.01 sample deviations below the mean, between the B+ and B cutoffs, so it still gets B | high (not executed; rests on numpy's documented length check) | `RelativeGrading.AsWrittenDiffersFromIntended` | `RelativeGrading.ApplyRelativeGrading` |

The contract of `RelativeGrading.RelativeGradesAsWritten` proves that the as-written grader equals fixed grading for every input. The corrected grader's properties are proved in `RelativeGrading.SelectGradeIsHighestMet`, `RelativeGrading.RelativePaths` and `RelativeGrading.RelativeSelectedGrades`. The pipeline (`Upload.GradeCohort`) uses the corrected grader.

## Left out

- The HTTP layer is not modelled: Flask routes, CORS, the upload, download and health endpoints, the 413 handler and request validation (app.py:11-15, 124-226).
- Spreadsheet I/O is not modelled: `read_excel`, `to_excel`, the name-column discovery and `pd.to_numeric`. Their result is given as a `seq<Mark>`.
- The `processed_files` store and `uuid4` are not modelled. They are transient shared storage and a random identifier.
- `scipy.stats.boxcox`, `Series.mean()` and `Series.std()` are foreign numeric code. They are the `Stats` input, so the model does not tie the mean and deviation to the transformed values. The sample/population choice for the deviation is therefore not modelled.
- Floating point is not modelled. Marks and cutoffs are exact reals, so the rounding in `mean + k * std` and NaN comparisons are outside the model. Passers are always positive, so Box-Cox produces no NaN.
- The `Normalized_Value` column and min-max normalisation are not modelled. They are floating-point numerics that feed only a display column.
- The summary statistics (count, rounded average, min, max) and the `print` in the `except` branch are not modelled.
- `RelativeGrading.SelectColumn` models only the length check of `numpy.select` among that function's input checks. The others cannot fail with five conditions.
- `GradeRanges.CalculateGradeRanges` returns a map, so the dict's insertion order (the label order of `groupby`) is not kept.
- Infinite marks are not modelled. `pd.to_numeric` accepts "inf", and `int()` of an infinite group bound at app.py:116 raises OverflowError, which app.py:191-192 turn into a 500 response; `Option<real>` has no infinite value.
- `Upload.GradeCohort` leaves out the points column's `astype(int)`, which does nothing to values that are already integers.
