/**
 * ExamRecord.java: the exam roster — subject, date and an ordered list of
 * students. The list holds references: the record shares its Student
 * objects with whoever else holds them, and every count is computed afresh
 * from the students' current flags.
 */
module Exam {
  import opened Students

  /** The four filters the record counts by. */
  datatype Query = WithGrade | WithoutGrade | Passed | Failed

  /** Whether a student passes a filter, exactly as the stream filters chain them. */
  predicate Matches(st: Student, q: Query)
    reads st
  {
    match q
    case WithGrade => st.hasGrade
    case WithoutGrade => !st.hasGrade
    case Passed => st.hasGrade && st.passed
    case Failed => st.hasGrade && !st.passed
  }

  /** `stream().filter(...).count()`: how many students of `s` pass the filter `q`. */
  function Count(s: seq<Student>, q: Query): (n: nat)
    reads s
    ensures n <= |s|
  {
    if s == [] then 0
    else Count(s[..|s| - 1], q) + (if Matches(s[|s| - 1], q) then 1 else 0)
  }

  /** Counting a concatenation counts each part. */
  lemma {:induction false} CountAppend(a: seq<Student>, b: seq<Student>, q: Query)
    ensures Count(a + b, q) == Count(a, q) + Count(b, q)
    decreases |b|
  {
    if b != [] {
      assert (a + b)[..|a + b| - 1] == a + b[..|b| - 1];
      CountAppend(a, b[..|b| - 1], q);
    } else {
      assert a + b == a;
    }
  }

  /** Every student is either graded or not: the two counts add up to the total. */
  lemma {:induction false} GradedSplit(s: seq<Student>)
    ensures Count(s, WithGrade) + Count(s, WithoutGrade) == |s|
  {
    if s != [] {
      GradedSplit(s[..|s| - 1]);
    }
  }

  /** Ungraded students are in neither count: passed plus failed is the graded count. */
  lemma {:induction false} PassedFailedSplit(s: seq<Student>)
    ensures Count(s, Passed) + Count(s, Failed) == Count(s, WithGrade)
  {
    if s != [] {
      PassedFailedSplit(s[..|s| - 1]);
    }
  }

  /** Removing the student at `i` lowers each count by that student's own contribution. */
  lemma CountRemove(s: seq<Student>, i: nat, q: Query)
    requires i < |s|
    ensures Count(s[..i] + s[i + 1..], q) + (if Matches(s[i], q) then 1 else 0) == Count(s, q)
  {
    assert s == s[..i] + [s[i]] + s[i + 1..];
    CountAppend(s[..i], s[i + 1..], q);
    CountAppend(s[..i] + [s[i]], s[i + 1..], q);
    CountAppend(s[..i], [s[i]], q);
  }

  class ExamRecord {
    var subject: string
    var date: string
    var students: seq<Student>

    /** A new record keeps subject and date verbatim and has no students. */
    constructor (subject: string, date: string)
      ensures this.subject == subject && this.date == date && students == []
    {
      this.subject := subject;
      this.date := date;
      this.students := [];
    }

    /** Appends at the end. */
    method AddStudent(student: Student)
      modifies this
      ensures students == old(students) + [student]
      ensures subject == old(subject) && date == old(date)
    {
      students := students + [student];
    }

    /** Removes the student at `index` when it is in range; any other index changes nothing. */
    method RemoveStudent(index: int)
      modifies this
      ensures 0 <= index < |old(students)| ==> students == old(students)[..index] + old(students)[index + 1..]
      ensures !(0 <= index < |old(students)|) ==> students == old(students)
      ensures subject == old(subject) && date == old(date)
    {
      if 0 <= index < |students| {
        students := students[..index] + students[index + 1..];
      }
    }

    /**
     * The defensive copy: a sequence value equal to the list, which no later
     * change of the record can alter and which cannot alter the record.
     */
    function GetStudents(): (r: seq<Student>)
      reads this
      ensures |r| == |students| && forall k :: 0 <= k < |r| ==> r[k] == students[k]
    {
      students
    }

    function TotalStudents(): nat
      reads this
    {
      |students|
    }

    function StudentsWithGrade(): (n: nat)
      reads this, students
      ensures n <= TotalStudents()
    {
      Count(students, WithGrade)
    }

    /** Counted among the graded students only. */
    function PassedCount(): (n: nat)
      reads this, students
      ensures n <= TotalStudents()
    {
      Count(students, Passed)
    }

    /** Counted among the graded students only: ungraded students are not failed. */
    function FailedCount(): (n: nat)
      reads this, students
      ensures n <= TotalStudents()
    {
      Count(students, Failed)
    }

    function StudentsWithoutGrade(): (n: nat)
      reads this, students
      ensures n <= TotalStudents()
    {
      Count(students, WithoutGrade)
    }

    /** The graded and the ungraded make up the whole list. */
    lemma GradedPlusUngraded()
      ensures StudentsWithGrade() + StudentsWithoutGrade() == TotalStudents()
    {
      GradedSplit(students);
    }

    /** Passed and failed partition the graded students. */
    lemma PassedPlusFailed()
      ensures PassedCount() + FailedCount() == StudentsWithGrade()
    {
      PassedFailedSplit(students);
    }

    /** Changes the subject only. */
    method SetSubject(subject: string)
      modifies this
      ensures this.subject == subject && date == old(date) && students == old(students)
    {
      this.subject := subject;
    }

    /** Changes the date only. */
    method SetDate(date: string)
      modifies this
      ensures this.date == date && subject == old(subject) && students == old(students)
    {
      this.date := date;
    }
  }
}
