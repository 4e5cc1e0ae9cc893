# Exam roster — a Dafny model

This project models the core of a desktop application that records
attestation results for a group of students. The application keeps an
exam record (subject, date, ordered list of students), shows the list in
an editable table, summarises pass/fail statistics and writes the roster to
a spreadsheet.

What is modelled, by source file:

- `Student.java` → `Students.Student`, a class. Its fields are a name, a raw
  integer score, and two flags derived from the score: `hasGrade` (score in
  0..10) and `passed` (graded and at least 4). The score is stored verbatim,
  so -1, the program's "no grade" value, stays -1. `Valid()` states that the
  flags agree with the score. The constructor and `SetScore` establish it.
- `ExamRecord.java` → `Exam.ExamRecord`, a class whose `students` field is a
  sequence of `Student` references. The total is the list length; the other
  four counts are computed from the students' current flags by one counting
  function, `Exam.Count`.
- `GradeCalculator.java` → `Statistics.CalculateResults`, a function from a
  record to a `Results` value: the counts plus the pass percentage.
- `StudentTableModel.java` → `TableModel.StudentTableModel`, a class over a
  sequence of `Student` references. The decision `setValueAt` takes for a
  cell write is the pure function `TableModel.CellEdit`. `SetValueAt`
  follows the source's branches and is proved to carry out that decision
  on the row's `Student` object in place.
- `ExcelExportService.java` → `ExcelExport`. The worksheet is a `Sheet`
  value: a map from row index to the row's cells, plus the highest row
  index created. `CreateHeaderRow`, `FillStudentData` (a loop with a row
  counter) and `CreateSummaryRows` each take the sheet and return it with
  their rows written. `ExportToSheet` chains them as `exportToExcel` does.
  `CleanSubject` and `GenerateFileName` model the default file name.
- `ExcelImportResult.java` → `ImportResult.ExcelImportResult`, a class. Its
  fields may be null in Java, so here they are `Option` values.
- `JavaText` models the `java.lang` string operations the code relies on:
  `trim`, `Integer.toString`, `Integer.parseInt` and `equalsIgnoreCase`.

Aliasing. Students are objects held by reference, as in Java. Copying a
list (`getStudents`) copies the sequence of references, never the students.
The table model and the record share the same `Student` objects, so a
rename or rescore made through the table changes the record's counts too.
The model reproduces this: the count functions read the student objects
themselves. Lists are sequence values that methods reassign. A returned
list is therefore always a snapshot.

The export follows `ExcelExportService.java`: the four column titles in
row 0, then one row per student with the raw score (so -1 for an ungraded
student) and "Сдал" or "Не сдал", then four summary lines below a blank row.
`ExcelExport.ResultColumnVersusSummary` proves the consequence. The rows
reading "Не сдал" number the failed count plus every ungraded student, while
the summary's "Не сдали" line counts only the failed ones. Replacing a row
(`updateStudent`) and emptying the list (`clear`) exist only on
`StudentTableModel`; `ExamRecord` offers adding and removing.

## Model

| member | source | states |
|---|---|---|
| `Students.Student.constructor` | examApp/src/main/java/logic/Student.java:27-32 | name and score stored verbatim; `hasGrade` iff 0 <= score <= 10; `passed` iff 4 <= score <= 10; the object is valid |
| `Students.Student.CalculatePassed` | examApp/src/main/java/logic/Student.java:39-44 | a student without a grade never passes; a graded one passes iff the score is at least 4 |
| `Students.Student.SetFullName` | examApp/src/main/java/logic/Student.java:52-54 | only the name changes: score, `hasGrade` and `passed` keep their values and validity is preserved |
| `Students.Student.SetScore` | examApp/src/main/java/logic/Student.java:63-67 | the score is stored verbatim even out of range, both flags are recomputed from it, the name is untouched |
| `Students.Student.ResultText` | examApp/src/main/java/logic/Student.java:82-87 | "Ожидает оценки" iff ungraded, "Сдал" iff passed, "Не сдал" iff graded and not passed |
| `Students.Student.GradeText` | examApp/src/main/java/logic/Student.java:94-99 | "Нет оценки" iff ungraded; otherwise the canonical decimal text of the score (digits only, no leading zero), which `parseInt` reads back as the score |
| `Students.GradingRule` | examApp/src/main/java/logic/Student.java:30-31 | for a valid student: passed iff the score is in 4..10, graded-but-failed iff it is in 0..3, ungraded iff it is outside 0..10 |
| `Exam.Count` | examApp/src/main/java/logic/ExamRecord.java:81-120 | a filtered count never exceeds the list length |
| `Exam.GradedSplit` | examApp/src/main/java/logic/ExamRecord.java:81-120 | graded count + ungraded count = list length, for every list |
| `Exam.PassedFailedSplit` | examApp/src/main/java/logic/ExamRecord.java:91-109 | passed count + failed count = graded count: ungraded students are in neither |
| `Exam.CountRemove` | examApp/src/main/java/logic/ExamRecord.java:50-54 | deleting element i lowers each of the four counts by exactly that student's own contribution |
| `Exam.ExamRecord.constructor` | examApp/src/main/java/logic/ExamRecord.java:28-32 | subject and date stored verbatim, empty student list |
| `Exam.ExamRecord.AddStudent` | examApp/src/main/java/logic/ExamRecord.java:41-43 | the student is appended at the end; earlier students, subject and date unchanged |
| `Exam.ExamRecord.RemoveStudent` | examApp/src/main/java/logic/ExamRecord.java:50-54 | an in-range index deletes exactly that element keeping the order of the rest; any other index changes nothing |
| `Exam.ExamRecord.GetStudents` | examApp/src/main/java/logic/ExamRecord.java:61-63 | a snapshot with the same students in the same order; as a value it cannot be changed through the record or change it |
| `Exam.ExamRecord.StudentsWithGrade` | examApp/src/main/java/logic/ExamRecord.java:81-83 | at most the total |
| `Exam.ExamRecord.PassedCount` | examApp/src/main/java/logic/ExamRecord.java:91-96 | at most the total |
| `Exam.ExamRecord.FailedCount` | examApp/src/main/java/logic/ExamRecord.java:104-109 | at most the total |
| `Exam.ExamRecord.StudentsWithoutGrade` | examApp/src/main/java/logic/ExamRecord.java:116-120 | at most the total |
| `Exam.ExamRecord.GradedPlusUngraded` | examApp/src/main/java/logic/ExamRecord.java:72-120 | `getStudentsWithGrade() + getStudentsWithoutGrade() == getTotalStudents()` |
| `Exam.ExamRecord.PassedPlusFailed` | examApp/src/main/java/logic/ExamRecord.java:91-109 | `getPassedCount() + getFailedCount() == getStudentsWithGrade()` |
| `Exam.ExamRecord.SetSubject` | examApp/src/main/java/logic/ExamRecord.java:128-130 | only the subject changes; date and student list untouched |
| `Exam.ExamRecord.SetDate` | examApp/src/main/java/logic/ExamRecord.java:136-138 | only the date changes; subject and student list untouched |
| `Statistics.PassedWithinGraded` | examApp/src/main/java/logic/GradeCalculator.java:21-22 | the passed count never exceeds the graded count |
| `Statistics.PassPercentage` | examApp/src/main/java/logic/GradeCalculator.java:27 | 0 with no division when nobody is graded; otherwise percentage × graded = passed × 100; never negative, and at most 100 when passed ≤ graded |
| `Statistics.CalculateResults` | examApp/src/main/java/logic/GradeCalculator.java:18-43 | subject, date and all five counts are the record's own; the counts satisfy both partition identities; the percentage lies in [0, 100] and is 0 when nobody is graded; the record is only read |
| `Statistics.EmptyRecordResults` | examApp/src/main/java/logic/GradeCalculator.java:20-27 | an empty record yields all-zero counts and a 0 percentage |
| `JavaText.Trim` | examApp/src/main/java/ui/StudentTableModel.java:107 | the result neither starts nor ends with a character ≤ U+0020, is an infix of the input, and only such characters were cut off |
| `JavaText.TrimIdempotent` | examApp/src/main/java/ui/StudentTableModel.java:128 | trimming a trimmed string changes nothing |
| `JavaText.ParseInt` | examApp/src/main/java/ui/StudentTableModel.java:137 | an accepted text is non-empty and its value fits a 32-bit int |
| `JavaText.ParseIntShape` | examApp/src/main/java/ui/StudentTableModel.java:137 | an accepted text starts with a digit or a sign, has at least one digit, and is all digits after its first character (so "x7" and "7.5" are rejected) |
| `JavaText.ParseIntReadsPadded` | examApp/src/main/java/ui/StudentTableModel.java:137 | any 32-bit value is read from its digits with any number of leading zeros, with or without a `+`, and negated after a `-` ("07", "+7" and "-0" included) |
| `JavaText.ParseIntRejectsOverflow` | examApp/src/main/java/ui/StudentTableModel.java:137-147 | a numeral whose value lies beyond the 32-bit range is rejected, with any leading zeros and either sign, so `parseInt` never wraps around and the score write is ignored |
| `JavaText.IntToText` | examApp/src/main/java/logic/Student.java:98 | `String.valueOf` / `Integer.toString` of an int: the canonical decimal text. It starts with `-` iff the value is negative, then has only digits with no leading zero |
| `JavaText.EqualsIgnoreCase` | examApp/src/main/java/ui/StudentTableModel.java:129 | `equalsIgnoreCase`: equal strings compare equal, and only strings of the same length can |
| `JavaText.ParseIntRoundTrip` | examApp/src/main/java/logic/Student.java:98 | every 32-bit int written as decimal text parses back to itself |
| `TableModel.CellEdit` | examApp/src/main/java/ui/StudentTableModel.java:100-151 | a null value or a column other than 1 and 2 changes nothing; a non-empty trimmed text different from the current name renames to it, and a rename happens only then; an Integer in 0..10 other than the score rescores to that Integer; an empty or "нет оценки" (any case) trimmed String clears a graded student to -1; any other String rescores to the value `parseInt` reads from its trim when that is in 0..10 and new; every rescore is one of these |
| `TableModel.StudentTableModel.constructor` | examApp/src/main/java/ui/StudentTableModel.java:22-24 | the table starts empty |
| `TableModel.StudentTableModel.AddStudent` | examApp/src/main/java/ui/StudentTableModel.java:33-37 | the student is appended at the end and the row count grows by one |
| `TableModel.StudentTableModel.RemoveStudent` | examApp/src/main/java/ui/StudentTableModel.java:39-45 | an in-range row is deleted keeping the order of the rest; otherwise nothing changes |
| `TableModel.StudentTableModel.UpdateStudent` | examApp/src/main/java/ui/StudentTableModel.java:47-53 | an in-range row is replaced and no other row changes; otherwise nothing changes |
| `TableModel.StudentTableModel.GetStudent` | examApp/src/main/java/ui/StudentTableModel.java:55-60 | the row's student for an in-range index, null otherwise |
| `TableModel.StudentTableModel.GetStudents` | examApp/src/main/java/ui/StudentTableModel.java:62-64 | a snapshot with the same students in the same order |
| `TableModel.StudentTableModel.Clear` | examApp/src/main/java/ui/StudentTableModel.java:179-186 | the table ends empty; an empty table is left as it was |
| `TableModel.StudentTableModel.GetValueAt` | examApp/src/main/java/ui/StudentTableModel.java:82-91 | column 0 is row + 1, 1 the name, 2 the score if graded else "Нет оценки", 3 the student's result text, any other column null |
| `TableModel.StudentTableModel.IsCellEditable` | examApp/src/main/java/ui/StudentTableModel.java:94-97 | exactly columns 1 and 2 are editable |
| `TableModel.StudentTableModel.SetValueAt` | examApp/src/main/java/ui/StudentTableModel.java:100-151 | the row list is unchanged; the row's student is renamed, rescored (flags recomputed) or left exactly as it was, as `CellEdit` decides; every row stays valid |
| `TableModel.WriteScore` | examApp/src/main/java/ui/StudentTableModel.java:117-149 | the score column's rule on one student: rescored as `CellEdit` decides for column 2 (flags recomputed, name kept), otherwise left exactly as it was; after an Integer in 0..10, or a String whose trim parses to one, the score is that value; the student stays valid |
| `TableModel.ScoreTextWrite` | examApp/src/main/java/ui/StudentTableModel.java:127-144 | typing the decimal text of any score 0..10 in the score column sets that score, or changes nothing if it is the current one |
| `TableModel.ClearingTextWrite` | examApp/src/main/java/ui/StudentTableModel.java:128-135 | an empty text or "нет оценки" in any letter case, with any blank margin, clears a grade to -1 and leaves an ungraded student alone |
| `TableModel.ScoreCellWriteBack` | examApp/src/main/java/ui/StudentTableModel.java:117-149 | writing back the value the score cell displays (the score, or "Нет оценки") never changes the student |
| `TableModel.NonEditableCellsIgnoreWrites` | examApp/src/main/java/ui/StudentTableModel.java:94-97 | a write to a column that is not editable changes nothing |
| `TableModel.OutOfRangeScoreValue` | examApp/src/main/java/ui/StudentTableModel.java:119-121 | every Integer outside 0..10 written to the score column is ignored |
| `TableModel.OutOfRangeScoreText` | examApp/src/main/java/ui/StudentTableModel.java:137-143 | every non-clearing text whose trim parses to a value outside 0..10 is ignored |
| `TableModel.UnparsableScoreTexts` | examApp/src/main/java/ui/StudentTableModel.java:137-148 | every non-clearing text whose trim `parseInt` rejects is ignored (the NumberFormatException is swallowed) |
| `TableModel.NonDigitTextIsIgnored` | examApp/src/main/java/ui/StudentTableModel.java:137-148 | a trimmed text with a non-digit anywhere after its first character ("7.5", "1 0", "abc") is rejected by `parseInt` and ignored |
| `TableModel.TallTeSpellingClears` | examApp/src/main/java/ui/StudentTableModel.java:128-131 | "не" + U+1C84 + " оценки" equals "нет оценки" ignoring case, so it clears a grade as Java's case folding does |
| `ExcelExport.Sheet.CreateRow` | examApp/src/main/java/logic/ExcelExportService.java:59-63 | the row at the index holds the given cells, no other row changes, the last row index is the larger of the old one and this index |
| `ExcelExport.ExportedResult` | examApp/src/main/java/logic/ExcelExportService.java:63 | the exported result is "Сдал" iff passed and "Не сдал" iff not passed |
| `ExcelExport.CreateHeaderRow` | examApp/src/main/java/logic/ExcelExportService.java:32-42 | row 0 holds exactly "№", "ФИО студента", "Оценка", "Результат"; other rows unchanged |
| `ExcelExport.FillStudentData` | examApp/src/main/java/logic/ExcelExportService.java:56-66 | the student at list position k fills row k + 1 with ordinal k + 1, name, raw score and result; rows 1..n are added and no other row changes |
| `ExcelExport.SummaryLineReadsBack` | examApp/src/main/java/logic/ExcelExportService.java:75-81 | a summary line is its caption followed by text that parses back to the count |
| `ExcelExport.CreateSummaryRows` | examApp/src/main/java/logic/ExcelExportService.java:68-82 | four rows starting two below the last row: "ИТОГИ:", total, passed and failed counts; earlier rows unchanged |
| `ExcelExport.ExportToSheet` | examApp/src/main/java/logic/ExcelExportService.java:15-22 | the sheet has exactly rows 0..n and n + 2..n + 5: header in 0, students in list order in 1..n, row n + 1 blank, summary after it (rows 2..5 for an empty record) |
| `ExcelExport.ResultColumnVersusSummary` | examApp/src/main/java/logic/ExcelExportService.java:56-82 | rows reading "Сдал" number the summary's passed count; rows reading "Не сдал" number the failed count plus all ungraded students |
| `ExcelExport.UngradedExport` | examApp/src/main/java/logic/ExcelExportService.java:60-63 | an ungraded student is exported with its raw score and as "Не сдал", although its own result text is "Ожидает оценки" |
| `ExcelExport.CleanSubject` | examApp/src/main/java/logic/ExcelExportService.java:103 | same length as the subject; each character in a-z, A-Z, 0-9, а-я, А-Я is kept in place, every other one (spaces, ё, Ё included) becomes `_` |
| `ExcelExport.CleanSubjectIdempotent` | examApp/src/main/java/logic/ExcelExportService.java:103 | cleaning a cleaned subject changes nothing |
| `ExcelExport.CleanSubjectIsSafe` | examApp/src/main/java/logic/ExcelExportService.java:103 | only kept characters and `_` remain, so no `/`, `.` or space comes from the subject |
| `ExcelExport.GenerateFileName` | examApp/src/main/java/logic/ExcelExportService.java:101-105 | starts with "ведомость_", ends with ".xlsx", carries the cleaned subject right after the prefix, then "_", then the timestamp just before the suffix, and has the combined length of its parts |
| `ImportResult.ExcelImportResult.Empty` | examApp/src/main/java/logic/ExcelImportResult.java:22-24 | subject, date and email are null, the list is empty but present, and `hasData()` is false |
| `ImportResult.ExcelImportResult.constructor` | examApp/src/main/java/logic/ExcelImportResult.java:34-39 | all four values stored verbatim; `hasData()` iff the list is non-null and non-empty |
| `ImportResult.ExcelImportResult.SetSubject` | examApp/src/main/java/logic/ExcelImportResult.java:57-59 | only the subject changes |
| `ImportResult.ExcelImportResult.SetDate` | examApp/src/main/java/logic/ExcelImportResult.java:75-77 | only the date changes |
| `ImportResult.ExcelImportResult.SetEmail` | examApp/src/main/java/logic/ExcelImportResult.java:93-95 | only the email changes |
| `ImportResult.ExcelImportResult.GetStudents` | examApp/src/main/java/logic/ExcelImportResult.java:102-104 | the stored list itself, null included |
| `ImportResult.ExcelImportResult.HasData` | examApp/src/main/java/logic/ExcelImportResult.java:120-122 | false when the list is null; otherwise true iff the list is non-empty |
| `ImportResult.ExcelImportResult.SetStudents` | examApp/src/main/java/logic/ExcelImportResult.java:111-113 | only the list changes; `hasData()` then holds iff the new list is non-null and non-empty |

## Left out

- Writing the workbook to a file and the IOException → `false` path of `exportToExcel`, with its error dialog (`ExcelExportService.java:24-29, 90-99`): file I/O and UI.
- Apache POI details: the sheet name, cell styles and fonts (`createHeaderStyle`), `autoSizeColumns`. POI's row creation followed by separate cell writes is collapsed into one `CreateRow` with the row's cells.
- The worksheet is a value passed into and returned from each builder step. In the source it is a POI object updated in place. Only the export holds it while it is built, so no sharing is lost, but the in-place update itself is not modelled.
- `ExcelExport.GenerateFileName`: the timestamp comes from the clock in the source (`LocalDateTime.now()`). Here it is a parameter, and its format is not modelled.
- Spreadsheet import and the three-argument export that `MainWindow` calls (`importFromExcel`, `exportToExcel(record, email, path)`): neither is in `ExcelExportService.java`, so neither is part of this model.
- Swing plumbing in the table model: the `fireTable*` events, `setMainWindow` and the reflection-based `notifyDataModified`, and the column metadata `getColumnCount`, `getColumnName`, `getColumnClass`.
- Text formatting of the statistics (`String.format`, the `%.1f` percentage).
- `Statistics.CalculateResults`: the percentage is an exact real. Java computes it as a `double`, with rounding.
- `JavaText.ParseInt`: only ASCII digits are accepted. Java's `Integer.parseInt` also accepts other Unicode decimal digits.
- `JavaText.Trim`, `ExcelExport.CleanSubject`: strings are sequences of Unicode code points, not UTF-16 units. The results match Java's: `trim` only cuts characters up to U+0020, and `replaceAll` matches by code point, so it also turns a surrogate pair into one `_`. Only lengths differ. `CleanSubject`'s "same length" counts code points, whereas Java's `length()` counts a character outside the Basic Multilingual Plane as two.
- `JavaText.UpperCase`: upper-casing covers Latin a-z, Cyrillic а-я / ѐ-џ and the historic Cyrillic forms U+1C80..U+1C88 (Java's case mapping from Unicode 9 on). Letters of other scripts, and the other Cyrillic blocks, map to themselves. None of those folds to a letter of "нет оценки", the one literal `equalsIgnoreCase` is used with, so `CellEdit` is not affected.
- Java `int` widths: scores and counts are unbounded integers. A list cannot hold 2^31 students, so the counts cannot overflow in the source either.
- `TableModel.StudentTableModel.GetValueAt`, `TableModel.StudentTableModel.SetValueAt`: a row index outside the table throws `IndexOutOfBoundsException` in the source. Here the row must exist.
- Null names, subjects and dates in `Student` and `ExamRecord`: the model's strings are never null. Nulls are modelled only where the source tests for them: the cell value in `setValueAt`, and the fields of `ExcelImportResult`.
- `ImportResult.ExcelImportResult.GetStudents`: lists are sequence values. So a caller that appends to the returned list is not shown changing the result's list, which would happen in Java. The `Student` objects in it are shared references, as in Java.
- Getters that only return a field (`getFullName`, `getScore`, `isPassed`, `hasGrade`, `getSubject`, `getDate`, `getEmail`, `getTotalStudents`, `getRowCount`) are the fields or one-line functions themselves.
- `Serializable` / `serialVersionUID`: Java serialisation machinery.
