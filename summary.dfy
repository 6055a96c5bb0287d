/**
 * `ExamStatistics::new` of src/exam/summary.rs: attaches rank and percentile
 * to the students in place and assembles the summary record, and the per-row
 * decisions of its students table.
 */
module Summary {
  import opened Wrappers
  import opened StudentRecord
  import Statistics

  /** `a - b` on `u32` in a release build: wraps around below zero. */
  function WrappingSub(a: nat, b: nat): (r: nat)
    requires a < Statistics.U32 && b < Statistics.U32
    ensures r < Statistics.U32
    ensures b <= a ==> r == a - b
    ensures a < b ==> r == a - b + Statistics.U32
  {
    (a - b) % Statistics.U32
  }

  /** An `f32` quotient of two counts: a number, NaN for 0/0, or infinity for k/0 with k > 0. */
  datatype Rate = Finite(value: real) | NaN | Infinity

  /** The summary record. */
  datatype ExamStatistics = ExamStatistics(
    totalStudents: nat,
    passedStudents: nat,
    failedStudents: nat,
    passRate: Rate,
    mean: real,
    median: real,
    stdDev: real,
    maxGrade: real,
    minGrade: real,
    highestRank: nat)

  /**
   * The statistics functions `ExamStatistics::new` calls that are not part of
   * this model, taken as given functions.
   */
  datatype Callees = Callees(
    attachRank: seq<Entry> -> seq<Entry>,
    attachPercentile: seq<Entry> -> seq<Entry>,
    passedStudents: (seq<Entry>, real) -> nat,
    median: seq<Entry> -> real,
    stdDeviation: (seq<Entry>, real) -> real,
    maxStudentGrade: seq<Entry> -> real,
    minStudentGrade: seq<Entry> -> real,
    highestRank: seq<Entry> -> nat)

  /**
   * What `ExamStatistics::new` relies on from those functions: attaching works in
   * place on a slice, so it keeps the length, and the passed count is a `u32`
   * that never exceeds the number of students.
   */
  ghost predicate Valid(c: Callees)
  {
    && (forall s :: |c.attachRank(s)| == |s|)
    && (forall s :: |c.attachPercentile(s)| == |s|)
    && (forall s, m :: c.passedStudents(s, m) <= |s| && c.passedStudents(s, m) < Statistics.U32)
  }

  /** The grades of the students, in list order. */
  function EntryGrades(s: seq<Entry>): (g: seq<real>)
    ensures |g| == |s| && forall i :: 0 <= i < |s| ==> g[i] == s[i].grade
  {
    seq(|s|, i requires 0 <= i < |s| => s[i].grade)
  }

  /** `passed as f32 / total as f32 * 100.0`, with the two special values of a division by zero. */
  function PassRate(passed: nat, total: nat): (r: Rate)
    ensures r.Finite? <==> total > 0
    ensures total == 0 ==> (r.NaN? <==> passed == 0)
    ensures r.Finite? ==> r.value * (total as real) == (passed as real) * 100.0
    ensures r.Finite? && passed <= total ==> 0.0 <= r.value <= 100.0
  {
    if total == 0 then (if passed == 0 then NaN else Infinity)
    else Finite((passed as real) / (total as real) * 100.0)
  }

  /**
   * The record built from the students after rank and percentile are
   * attached. The configured maximum grade only reaches the passed count;
   * the record's `maxGrade` is the value `max_student_grade` returns, not the
   * configured ceiling, because the local `max_grade` shadows the parameter.
   */
  function Assemble(attached: seq<Entry>, maxGrade: real, c: Callees): (st: ExamStatistics)
    requires Valid(c)
    ensures st.totalStudents == Statistics.CastU32(|attached|)
    ensures st.passedStudents == c.passedStudents(attached, maxGrade)
    ensures st.failedStudents < Statistics.U32
    ensures |attached| < Statistics.U32 ==> st.totalStudents == |attached|
    ensures |attached| < Statistics.U32 ==> st.passedStudents + st.failedStudents == st.totalStudents
    ensures st.passRate == PassRate(st.passedStudents, st.totalStudents)
    ensures |attached| > 0 ==> st.mean * (|attached| as real) == Statistics.Sum(EntryGrades(attached))
    ensures |attached| == 0 ==> st.mean == 0.0
    ensures st.stdDev == c.stdDeviation(attached, st.mean)
    ensures st.maxGrade == c.maxStudentGrade(attached)
    ensures st.median == c.median(attached)
    ensures st.minGrade == c.minStudentGrade(attached)
    ensures st.highestRank == c.highestRank(attached)
  {
    var total := Statistics.CastU32(|attached|);
    var passed := c.passedStudents(attached, maxGrade);
    var failed := WrappingSub(total, passed);
    var mean := Statistics.Mean(EntryGrades(attached));
    ExamStatistics(
      total, passed, failed, PassRate(passed, total), mean,
      c.median(attached), c.stdDeviation(attached, mean),
      c.maxStudentGrade(attached), c.minStudentGrade(attached), c.highestRank(attached))
  }

  /** With fewer than 2^32 students the pass rate is a number exactly when there are students, and lies in [0, 100]. */
  lemma PassRateInRange(attached: seq<Entry>, maxGrade: real, c: Callees)
    requires Valid(c) && |attached| < Statistics.U32
    ensures Assemble(attached, maxGrade, c).passRate.Finite? <==> |attached| > 0
    ensures |attached| > 0 ==> 0.0 <= Assemble(attached, maxGrade, c).passRate.value <= 100.0
    ensures |attached| == 0 ==> Assemble(attached, maxGrade, c).passRate == NaN
  {
    assert c.passedStudents(attached, maxGrade) <= |attached|;
  }

  /** The record's maximum grade does not depend on the configured maximum grade. */
  lemma MaxGradeIgnoresCeiling(attached: seq<Entry>, m1: real, m2: real, c: Callees)
    requires Valid(c)
    ensures Assemble(attached, m1, c).maxGrade == Assemble(attached, m2, c).maxGrade
  {
  }

  /** Overwrites the slice with what an in-place pass over it left. */
  method WriteBack(students: array<Entry>, v: seq<Entry>)
    requires |v| == students.Length
    modifies students
    ensures students[..] == v
  {
    forall i | 0 <= i < students.Length {
      students[i] := v[i];
    }
  }

  /**
   * `ExamStatistics::new`: attaches rank, then percentile, to the slice in
   * place, then assembles the record from the attached students.
   */
  method New(students: array<Entry>, maxGrade: real, c: Callees) returns (st: ExamStatistics)
    requires Valid(c)
    modifies students
    ensures students[..] == c.attachPercentile(c.attachRank(old(students[..])))
    ensures st == Assemble(students[..], maxGrade, c)
  {
    WriteBack(students, c.attachRank(students[..]));
    WriteBack(students, c.attachPercentile(students[..]));
    st := Assemble(students[..], maxGrade, c);
  }

  /** What one row of the summary's students table shows. */
  datatype SummaryRow = SummaryRow(name: string, grade: real, passed: bool, percentile: real, rank: nat, highestRank: nat)

  /**
   * The per-row decisions of `ExamStatistics::students`: a grade passes when
   * it reaches half the record's maximum grade; a missing percentile or rank
   * shows as 0; every row shows the record's highest rank.
   */
  function SummaryRows(st: ExamStatistics, entries: seq<Entry>): (rows: seq<SummaryRow>)
    ensures |rows| == |entries|
    ensures forall i :: 0 <= i < |rows| ==>
              && rows[i].name == entries[i].name
              && rows[i].grade == entries[i].grade
              && (rows[i].passed <==> entries[i].grade >= st.maxGrade / 2.0)
              && rows[i].percentile == entries[i].percentile.UnwrapOr(0.0)
              && rows[i].rank == entries[i].rank.UnwrapOr(0)
              && rows[i].highestRank == st.highestRank
  {
    seq(|entries|, i requires 0 <= i < |entries| =>
      var e := entries[i];
      SummaryRow(e.name, e.grade, e.grade >= st.maxGrade / 2.0, e.percentile.UnwrapOr(0.0), e.rank.UnwrapOr(0), st.highestRank))
  }

  /**
   * In the summary's table a student passes on reaching half the value
   * `max_student_grade` returns; the configured maximum grade plays no part.
   */
  lemma SummaryPassUsesMaxStudentGrade(attached: seq<Entry>, m1: real, m2: real, c: Callees, i: nat)
    requires Valid(c) && i < |attached|
    ensures SummaryRows(Assemble(attached, m1, c), attached)[i].passed <==> attached[i].grade >= c.maxStudentGrade(attached) / 2.0
    ensures SummaryRows(Assemble(attached, m1, c), attached)[i].passed == SummaryRows(Assemble(attached, m2, c), attached)[i].passed
  {
  }
}
