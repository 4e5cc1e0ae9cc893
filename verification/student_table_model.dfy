/**
 * StudentTableModel.java: the list behind the student table and its cell
 * rules. The rows are Student references; editing a cell changes that
 * Student object in place, so every other holder of the object sees it.
 * Swing change events are not modelled.
 */
module TableModel {
  import opened Wrappers
  import opened JavaText
  import opened Students

  /** The Java values a cell is read as or written with; `Null` is Java's null. */
  datatype CellValue = Null | IntValue(i: int) | StrValue(s: string) | OtherValue(text: string)

  /** `value.toString()` for a non-null value. */
  function ValueText(v: CellValue): string
    requires !v.Null?
  {
    match v
    case IntValue(i) => IntToText(i)
    case StrValue(s) => s
    case OtherValue(t) => t
  }

  /** A trimmed score text that clears the grade: empty, or "нет оценки" in any letter case. */
  predicate IsClearingText(text: string) {
    EqualsIgnoreCase(text, "нет оценки") || text == []
  }

  /** What a cell write does to the row's student. */
  datatype Edit = NoChange | Rename(name: string) | Rescore(score: int)

  /**
   * The decision `setValueAt` makes for a student with the given name,
   * score and grade flag. Column 1 renames to the trimmed text when it is
   * non-empty and new. Column 2 takes an Integer in 0..10 or a String
   * that parses to one (when it differs from the current score); an empty
   * string or "нет оценки" in any case clears a grade to -1; anything else
   * leaves the student alone, as does a null value or another column.
   */
  function CellEdit(value: CellValue, column: int, name: string, score: int, hasGrade: bool): (e: Edit)
    ensures value.Null? || (column != 1 && column != 2) ==> e == NoChange
    ensures e.Rename? ==> column == 1 && e.name == Trim(ValueText(value)) && e.name != [] && e.name != name
    ensures e.Rescore? ==> column == 2 && (value.IntValue? || value.StrValue?)
    ensures e.Rescore? && e.score != NoGrade ==> 0 <= e.score <= 10 && e.score != score
    ensures e.Rescore? && e.score == NoGrade ==> hasGrade && value.StrValue? && IsClearingText(Trim(value.s))
    ensures e.Rescore? && value.IntValue? ==> e.score == value.i
    ensures e.Rescore? && value.StrValue? && e.score != NoGrade ==> ParseInt(Trim(value.s)) == Some(e.score)
    // when each change happens
    ensures !value.Null? && column == 1 && Trim(ValueText(value)) != [] && Trim(ValueText(value)) != name
      ==> e == Rename(Trim(ValueText(value)))
    ensures column == 2 && value.IntValue? && 0 <= value.i <= 10 && value.i != score ==> e == Rescore(value.i)
    ensures column == 2 && value.StrValue? && IsClearingText(Trim(value.s)) && hasGrade ==> e == Rescore(NoGrade)
    ensures column == 2 && value.StrValue? && !IsClearingText(Trim(value.s))
      && ParseInt(Trim(value.s)).Some? && 0 <= ParseInt(Trim(value.s)).value <= 10
      && ParseInt(Trim(value.s)).value != score
      ==> e == Rescore(ParseInt(Trim(value.s)).value)
  {
    if value.Null? then NoChange
    else if column == 1 then
      var newName := Trim(ValueText(value));
      if newName != [] && newName != name then Rename(newName) else NoChange
    else if column == 2 then
      match value
      case IntValue(i) =>
        if 0 <= i <= 10 && i != score then Rescore(i) else NoChange
      case StrValue(s) =>
        var text := Trim(s);
        if IsClearingText(text) then
          if hasGrade then Rescore(NoGrade) else NoChange
        else
          (match ParseInt(text)
           case None => NoChange
           case Some(i) => if 0 <= i <= 10 && i != score then Rescore(i) else NoChange)
      case OtherValue(_) => NoChange
    else NoChange
  }

  class StudentTableModel {
    var students: seq<Student>

    /** Every row's flags agree with its score. */
    ghost predicate Valid()
      reads this, students
    {
      forall k :: 0 <= k < |students| ==> students[k].Valid()
    }

    constructor ()
      ensures Valid() && students == []
    {
      students := [];
    }

    /** Appends a row at the end. */
    method AddStudent(student: Student)
      requires Valid() && student.Valid()
      modifies this
      ensures Valid()
      ensures students == old(students) + [student]
      ensures GetRowCount() == old(GetRowCount()) + 1
    {
      students := students + [student];
    }

    /** Deletes row `rowIndex` keeping the order of the rest; out of range, nothing changes. */
    method RemoveStudent(rowIndex: int)
      requires Valid()
      modifies this
      ensures Valid()
      ensures 0 <= rowIndex < |old(students)| ==> students == old(students)[..rowIndex] + old(students)[rowIndex + 1..]
      ensures !(0 <= rowIndex < |old(students)|) ==> students == old(students)
    {
      if 0 <= rowIndex < |students| {
        students := students[..rowIndex] + students[rowIndex + 1..];
      }
    }

    /** Puts `student` in row `rowIndex` and leaves every other row; out of range, nothing changes. */
    method UpdateStudent(rowIndex: int, student: Student)
      requires Valid() && student.Valid()
      modifies this
      ensures Valid()
      ensures 0 <= rowIndex < |old(students)| ==> students == old(students)[rowIndex := student]
      ensures !(0 <= rowIndex < |old(students)|) ==> students == old(students)
    {
      if 0 <= rowIndex < |students| {
        students := students[rowIndex := student];
      }
    }

    /** The row's student when `rowIndex` is a row, null otherwise. */
    function GetStudent(rowIndex: int): (s: Student?)
      reads this
      ensures 0 <= rowIndex < |students| ==> s == students[rowIndex]
      ensures !(0 <= rowIndex < |students|) ==> s == null
    {
      if 0 <= rowIndex < |students| then students[rowIndex] else null
    }

    /** A sequence value equal to the rows: later changes to either side do not reach the other. */
    function GetStudents(): (r: seq<Student>)
      reads this
      ensures |r| == |students| && forall k :: 0 <= k < |r| ==> r[k] == students[k]
    {
      students
    }

    function GetRowCount(): nat
      reads this
    {
      |students|
    }

    /** Empties the table; on an empty table this changes nothing. */
    method Clear()
      modifies this
      ensures students == []
      ensures old(students) == [] ==> students == old(students)
    {
      if |students| > 0 {
        students := [];
      }
    }

    /**
     * Column 0 shows the 1-based row number, 1 the name, 2 the score when
     * graded and "Нет оценки" otherwise, 3 the result text; other columns
     * show null. A row outside the table throws in the source, so the row
     * must exist.
     */
    function GetValueAt(rowIndex: int, columnIndex: int): (v: CellValue)
      reads this, students
      requires 0 <= rowIndex < |students|
      requires students[rowIndex].Valid()
      ensures columnIndex == 0 ==> v == IntValue(rowIndex + 1)
      ensures columnIndex == 1 ==> v == StrValue(students[rowIndex].fullName)
      ensures columnIndex == 2 && students[rowIndex].hasGrade ==> v == IntValue(students[rowIndex].score)
      ensures columnIndex == 2 && !students[rowIndex].hasGrade ==> v == StrValue(NoGradeText)
      ensures columnIndex == 3 ==> v.StrValue? && v.s == students[rowIndex].ResultText()
      ensures !(0 <= columnIndex <= 3) ==> v == Null
    {
      var student := students[rowIndex];
      if columnIndex == 0 then IntValue(rowIndex + 1)
      else if columnIndex == 1 then StrValue(student.fullName)
      else if columnIndex == 2 then (if student.hasGrade then IntValue(student.score) else StrValue(NoGradeText))
      else if columnIndex == 3 then StrValue(student.ResultText())
      else Null
    }

    /** Only the name and score columns can be edited. */
    function IsCellEditable(rowIndex: int, columnIndex: int): (r: bool)
      ensures r <==> columnIndex == 1 || columnIndex == 2
    {
      columnIndex == 1 || columnIndex == 2
    }

    /**
     * Writes a cell: the row's student is renamed or rescored in place as
     * `CellEdit` decides, or left exactly as it was. The list itself never
     * changes, and the table stays valid.
     */
    method SetValueAt(value: CellValue, rowIndex: int, columnIndex: int)
      requires Valid()
      requires 0 <= rowIndex < |students|
      modifies students[rowIndex]
      ensures Valid()
      ensures students == old(students)
      ensures var st := students[rowIndex];
        var e := CellEdit(value, columnIndex, old(st.fullName), old(st.score), old(st.hasGrade));
        match e
        case NoChange =>
          st.fullName == old(st.fullName) && st.score == old(st.score)
          && st.hasGrade == old(st.hasGrade) && st.passed == old(st.passed)
        case Rename(name) =>
          st.fullName == name && st.score == old(st.score)
          && st.hasGrade == old(st.hasGrade) && st.passed == old(st.passed)
        case Rescore(score) =>
          st.fullName == old(st.fullName) && st.score == score
    {
      var student := students[rowIndex];
      ghost var e := CellEdit(value, columnIndex, student.fullName, student.score, student.hasGrade);
      if value.Null? {
        return;
      }
      if columnIndex == 1 {
        var newName := Trim(ValueText(value));
        if newName != [] && newName != student.fullName {
          assert e == Rename(newName);
          student.SetFullName(newName);
        }
      } else if columnIndex == 2 {
        WriteScore(student, value);
      }
    }
  }

  /**
   * The score column's write rule, applied to one student in place: an
   * Integer or a parsable String in 0..10 that differs from the score sets
   * it, an empty or "нет оценки" String clears a grade, and anything else,
   * including a number the parser rejects, leaves the student alone.
   */
  method WriteScore(student: Student, value: CellValue)
    requires student.Valid()
    modifies student
    ensures student.Valid()
    ensures match CellEdit(value, 2, old(student.fullName), old(student.score), old(student.hasGrade))
      case Rescore(score) =>
        student.fullName == old(student.fullName) && student.score == score
      case _ =>
        student.fullName == old(student.fullName) && student.score == old(student.score)
        && student.hasGrade == old(student.hasGrade) && student.passed == old(student.passed)
    ensures value.IntValue? && 0 <= value.i <= 10 ==> student.score == value.i
    ensures value.StrValue? && !IsClearingText(Trim(value.s))
      && ParseInt(Trim(value.s)).Some? && 0 <= ParseInt(Trim(value.s)).value <= 10
      ==> student.score == ParseInt(Trim(value.s)).value
  {
    ghost var e := CellEdit(value, 2, student.fullName, student.score, student.hasGrade);
    match value
    case Null =>
    case IntValue(score) =>
      if 0 <= score <= 10 && score != student.score {
        assert e == Rescore(score);
        student.SetScore(score);
      }
    case StrValue(s) =>
      var strValue := Trim(s);
      if EqualsIgnoreCase(strValue, "нет оценки") || strValue == [] {
        if student.hasGrade {
          assert e == Rescore(NoGrade);
          student.SetScore(NoGrade);
        }
      } else {
        var parsed := ParseInt(strValue);
        if parsed.Some? {
          var score := parsed.value;
          if 0 <= score <= 10 && score != student.score {
            assert e == Rescore(score);
            student.SetScore(score);
          }
        }
      }
    case OtherValue(_) =>
  }

  /** A score typed as text in the score column sets exactly that score (when it is new). */
  lemma ScoreTextWrite(n: int, name: string, score: int, hasGrade: bool)
    requires 0 <= n <= 10
    ensures CellEdit(StrValue(IntToText(n)), 2, name, score, hasGrade)
      == if n != score then Rescore(n) else NoChange
  {
    var text := IntToText(n);
    ParseIntRoundTrip(n);
    ParsedIsTrimmed(text);
    assert UpperCase(text[0]) != UpperCase("нет оценки"[0]);
  }

  /** An empty or "нет оценки" text, in any letter case and with any blank margin, clears a grade. */
  lemma ClearingTextWrite(t: string, name: string, score: int, hasGrade: bool)
    requires Trim(t) == [] || EqualsIgnoreCase(Trim(t), "нет оценки")
    ensures CellEdit(StrValue(t), 2, name, score, hasGrade)
      == if hasGrade then Rescore(NoGrade) else NoChange
  {
  }

  /** Writing back what the score cell shows never changes the student. */
  lemma ScoreCellWriteBack(table: StudentTableModel, rowIndex: int)
    requires 0 <= rowIndex < |table.students| && table.students[rowIndex].Valid()
    ensures var st := table.students[rowIndex];
      CellEdit(table.GetValueAt(rowIndex, 2), 2, st.fullName, st.score, st.hasGrade) == NoChange
  {
    var st := table.students[rowIndex];
    if !st.hasGrade {
      TrimOfTrimmed(NoGradeText);
      assert EqualsIgnoreCase(NoGradeText, "нет оценки");
    }
  }

  /** A write to a column that is not editable is ignored. */
  lemma NonEditableCellsIgnoreWrites(table: StudentTableModel, value: CellValue, rowIndex: int, columnIndex: int,
                                     name: string, score: int, hasGrade: bool)
    requires !table.IsCellEditable(rowIndex, columnIndex)
    ensures CellEdit(value, columnIndex, name, score, hasGrade) == NoChange
  {
  }

  /** An Integer outside 0..10 written to the score column is ignored. */
  lemma OutOfRangeScoreValue(i: int, name: string, score: int, hasGrade: bool)
    requires !(0 <= i <= 10)
    ensures CellEdit(IntValue(i), 2, name, score, hasGrade) == NoChange
  {
  }

  /** A score text that parses to a number outside 0..10 is ignored. */
  lemma OutOfRangeScoreText(s: string, name: string, score: int, hasGrade: bool)
    requires !IsClearingText(Trim(s))
    requires ParseInt(Trim(s)).Some? && !(0 <= ParseInt(Trim(s)).value <= 10)
    ensures CellEdit(StrValue(s), 2, name, score, hasGrade) == NoChange
  {
  }

  /** Every score text `parseInt` rejects (the NumberFormatException path) is ignored. */
  lemma UnparsableScoreTexts(s: string, name: string, score: int, hasGrade: bool)
    requires !IsClearingText(Trim(s))
    requires ParseInt(Trim(s)).None?
    ensures CellEdit(StrValue(s), 2, name, score, hasGrade) == NoChange
  {
  }

  /** A trimmed text with a character other than a digit after its first is rejected: "7.5", "1 0", "abc". */
  lemma NonDigitTextIsIgnored(s: string, k: nat, name: string, score: int, hasGrade: bool)
    requires !IsClearingText(Trim(s))
    requires 0 < k < |Trim(s)| && !IsDigit(Trim(s)[k])
    ensures CellEdit(StrValue(s), 2, name, score, hasGrade) == NoChange
  {
    var t := Trim(s);
    if t[0] == '-' || t[0] == '+' {
      assert t[1..][k - 1] == t[k];
    }
    assert ParseInt(t).None?;
  }

  /** The case folding counts the tall te U+1C84 as "т", so this spelling clears a grade too. */
  lemma TallTeSpellingClears(name: string, score: int)
    ensures CellEdit(StrValue("не\U{1C84} оценки"), 2, name, score, true) == Rescore(NoGrade)
  {
    TrimOfTrimmed("не\U{1C84} оценки");
    assert EqualsIgnoreCase("не\U{1C84} оценки", "нет оценки");
  }
}
