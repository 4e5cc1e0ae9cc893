/**
 * GradeCalculator.java: the summary of a record — its counts and the
 * pass percentage among graded students. The text formatting of the
 * summary is not modelled; the numbers it prints are the fields below.
 */
module Statistics {
  import opened Students
  import opened Exam

  datatype Results = Results(
    subject: string,
    date: string,
    total: nat,
    withGrade: nat,
    withoutGrade: nat,
    passed: nat,
    failed: nat,
    percentage: real)

  /** Passing is only counted among the graded, so it never exceeds them. */
  lemma {:induction false} PassedWithinGraded(s: seq<Student>)
    ensures Count(s, Passed) <= Count(s, WithGrade)
  {
    if s != [] {
      PassedWithinGraded(s[..|s| - 1]);
    }
  }

  /**
   * `passed * 100.0 / withGrade` when `withGrade > 0`, else 0: the share of
   * passes in percent, never a division by zero.
   */
  function PassPercentage(passed: nat, withGrade: nat): (p: real)
    ensures withGrade == 0 ==> p == 0.0
    ensures withGrade > 0 ==> p * (withGrade as real) == (passed as real) * 100.0
    ensures 0.0 <= p
    ensures passed <= withGrade ==> p <= 100.0
  {
    if withGrade > 0 then
      var w := withGrade as real;
      var q := (passed as real) / w;
      assert 0.0 <= q;
      assert passed <= withGrade ==> q <= 1.0;
      q * 100.0
    else 0.0
  }

  /**
   * The record's counts, passed through unchanged, and the pass percentage:
   * passed * 100 / withGrade when some student is graded, exactly 0 (with no
   * division) otherwise. Being a function, it cannot change the record.
   */
  function CalculateResults(record: ExamRecord): (r: Results)
    reads record, record.students
    ensures r.subject == record.subject && r.date == record.date
    ensures r.total == |record.students|
    ensures r.withGrade == Count(record.students, WithGrade)
    ensures r.withoutGrade == Count(record.students, WithoutGrade)
    ensures r.passed == Count(record.students, Passed)
    ensures r.failed == Count(record.students, Failed)
    ensures r.withGrade + r.withoutGrade == r.total
    ensures r.passed + r.failed == r.withGrade
    ensures r.percentage == PassPercentage(r.passed, r.withGrade)
    ensures r.withGrade == 0 ==> r.percentage == 0.0
    ensures 0.0 <= r.percentage <= 100.0
  {
    var total := record.TotalStudents();
    var withGrade := record.StudentsWithGrade();
    var passed := record.PassedCount();
    var failed := record.FailedCount();
    var withoutGrade := record.StudentsWithoutGrade();
    var percentage := PassPercentage(passed, withGrade);
    record.GradedPlusUngraded();
    record.PassedPlusFailed();
    PassedWithinGraded(record.students);
    Results(record.subject, record.date, total, withGrade, withoutGrade, passed, failed, percentage)
  }

  /** An empty record reports all zeros, percentage included. */
  lemma EmptyRecordResults(record: ExamRecord)
    requires record.students == []
    ensures CalculateResults(record).total == 0
    ensures CalculateResults(record).withGrade == 0 && CalculateResults(record).withoutGrade == 0
    ensures CalculateResults(record).passed == 0 && CalculateResults(record).failed == 0
    ensures CalculateResults(record).percentage == 0.0
  {
  }
}
