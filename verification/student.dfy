/**
 * Student.java: one student's grading record. The score is stored as
 * given; -1 is the "no grade" value the rest of the program writes, and
 * any score outside 0..10 counts as "no grade". The two flags are derived
 * from the score and recomputed whenever it changes.
 */
module Students {
  import opened Wrappers
  import opened JavaText

  /** The value the program writes for "no grade". */
  const NoGrade: int := -1

  const AwaitingText: string := "Ожидает оценки"
  const PassedText: string := "Сдал"
  const FailedText: string := "Не сдал"
  const NoGradeText: string := "Нет оценки"

  class Student {
    var fullName: string
    var score: int
    var passed: bool
    var hasGrade: bool

    /** The flags agree with the score, as every assignment in the class keeps them. */
    ghost predicate Valid()
      reads this
    {
      hasGrade == (0 <= score <= 10) && passed == CalculatePassed()
    }

    constructor (fullName: string, score: int)
      ensures Valid()
      ensures this.fullName == fullName && this.score == score
      ensures hasGrade <==> 0 <= score <= 10
      ensures passed <==> 4 <= score <= 10
    {
      this.fullName := fullName;
      this.score := score;
      this.hasGrade := 0 <= score <= 10;
      this.passed := false;
      new;
      this.passed := CalculatePassed();
    }

    /** Passed: graded and at least 4. A student without a grade never passes. */
    function CalculatePassed(): (r: bool)
      reads this
      ensures r ==> hasGrade
      ensures hasGrade ==> (r <==> score >= 4)
    {
      if !hasGrade then false else score >= 4
    }

    /** Replaces the name; the score and both flags stay as they were. */
    method SetFullName(fullName: string)
      modifies this
      ensures this.fullName == fullName
      ensures score == old(score) && hasGrade == old(hasGrade) && passed == old(passed)
      ensures old(Valid()) ==> Valid()
    {
      this.fullName := fullName;
    }

    /** Stores the score verbatim, even out of range, and recomputes both flags. */
    method SetScore(score: int)
      modifies this
      ensures Valid()
      ensures this.score == score && fullName == old(fullName)
      ensures hasGrade <==> 0 <= score <= 10
      ensures passed <==> 4 <= score <= 10
    {
      this.score := score;
      this.hasGrade := 0 <= score <= 10;
      this.passed := CalculatePassed();
    }

    /** The three outcomes are told apart: awaiting a grade, passed, failed. */
    function ResultText(): (r: string)
      reads this
      requires Valid()
      ensures r == AwaitingText <==> !hasGrade
      ensures r == PassedText <==> passed
      ensures r == FailedText <==> hasGrade && !passed
    {
      if !hasGrade then AwaitingText
      else if passed then PassedText else FailedText
    }

    /** The "no grade" text when ungraded, otherwise the canonical decimal text of the score, which parses back to it. */
    function GradeText(): (r: string)
      reads this
      requires Valid()
      ensures r == NoGradeText <==> !hasGrade
      ensures hasGrade ==> ParseInt(r) == Some(score)
      ensures hasGrade ==> AllDigits(r) && (|r| > 1 ==> r[0] != '0')
    {
      if !hasGrade then NoGradeText
      else
        ParseIntRoundTrip(score);
        IntToText(score)
    }
  }

  /** For a valid student the score alone decides: 4 to 10 passes, 0 to 3 fails, any other score means no grade. */
  lemma GradingRule(st: Student)
    requires st.Valid()
    ensures st.passed <==> 4 <= st.score <= 10
    ensures st.hasGrade && !st.passed <==> 0 <= st.score <= 3
    ensures !st.hasGrade <==> st.score < 0 || st.score > 10
  {
  }
}
