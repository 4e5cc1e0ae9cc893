/**
 * ExcelExportService.java: the layout of the exported sheet and the
 * default file name. The sheet is an abstract grid from row index to the
 * row's cells (column 0 first); workbook objects, styles, column sizing
 * and writing the file are not modelled.
 */
module ExcelExport {
  import opened Wrappers
  import opened JavaText
  import opened Students
  import opened Exam

  datatype Cell = TextCell(text: string) | NumberCell(value: int)

  /**
   * The grid being filled: rows by index, and the highest row index created
   * (-1 for none), which is what `getLastRowNum` reports.
   */
  datatype Sheet = Sheet(rows: map<int, seq<Cell>>, lastRowNum: int)
  {
    /** Row indices are non-negative and `lastRowNum` is the highest of them. */
    predicate Valid() {
      && -1 <= lastRowNum
      && (0 <= lastRowNum ==> lastRowNum in rows)
      && forall r :: r in rows ==> 0 <= r <= lastRowNum
    }

    /** Creates row `index` with the given cells, replacing any row already there. */
    function CreateRow(index: nat, cells: seq<Cell>): (s: Sheet)
      requires Valid()
      ensures s.Valid()
      ensures s.rows == rows[index := cells]
      ensures s.lastRowNum == if index > lastRowNum then index else lastRowNum
    {
      Sheet(rows[index := cells], if index > lastRowNum then index else lastRowNum)
    }
  }

  /** A new sheet: no rows. */
  const EmptySheet := Sheet(map[], -1)

  const HeaderCells: seq<Cell> := [TextCell("№"), TextCell("ФИО студента"), TextCell("Оценка"), TextCell("Результат")]

  /** The result column of an exported row: only "Сдал" or "Не сдал". */
  function ExportedResult(st: Student): (c: Cell)
    reads st
    ensures c == TextCell(PassedText) <==> st.passed
    ensures c == TextCell(FailedText) <==> !st.passed
  {
    TextCell(if st.passed then PassedText else FailedText)
  }

  /** The row of the student at list position `k`: ordinal k + 1, name, raw score, result. */
  function StudentCells(k: nat, st: Student): seq<Cell>
    reads st
  {
    [NumberCell(k + 1), TextCell(st.fullName), NumberCell(st.score), ExportedResult(st)]
  }

  /** Row 0 of the sheet: the four column titles. */
  method CreateHeaderRow(sheet: Sheet) returns (result: Sheet)
    requires sheet.Valid()
    ensures result.Valid()
    ensures result.rows == sheet.rows[0 := HeaderCells]
    ensures result.lastRowNum == if sheet.lastRowNum < 0 then 0 else sheet.lastRowNum
  {
    result := sheet.CreateRow(0, HeaderCells);
  }

  /** The students in list order, the one at position k in row k + 1; no other row changes. */
  method FillStudentData(sheet: Sheet, record: ExamRecord) returns (result: Sheet)
    requires sheet.Valid()
    ensures result.Valid()
    ensures forall k :: 0 <= k < |record.students| ==>
      k + 1 in result.rows && result.rows[k + 1] == StudentCells(k, record.students[k])
    ensures forall r :: r in result.rows <==> r in sheet.rows || 1 <= r <= |record.students|
    ensures forall r :: r in sheet.rows && !(1 <= r <= |record.students|) ==> result.rows[r] == sheet.rows[r]
    ensures result.lastRowNum ==
      if |record.students| > 0 && sheet.lastRowNum < |record.students| then |record.students| else sheet.lastRowNum
  {
    var students := record.GetStudents();
    result := sheet;
    var rowNum := 1;
    while rowNum <= |students|
      invariant 1 <= rowNum <= |students| + 1
      invariant result.Valid()
      invariant forall k :: 0 <= k < rowNum - 1 ==> k + 1 in result.rows && result.rows[k + 1] == StudentCells(k, students[k])
      invariant forall r :: r in result.rows <==> r in sheet.rows || 1 <= r < rowNum
      invariant forall r :: r in sheet.rows && !(1 <= r < rowNum) ==> result.rows[r] == sheet.rows[r]
      invariant result.lastRowNum == if rowNum > 1 && sheet.lastRowNum < rowNum - 1 then rowNum - 1 else sheet.lastRowNum
    {
      var student := students[rowNum - 1];
      result := result.CreateRow(rowNum, [NumberCell(rowNum), TextCell(student.fullName), NumberCell(student.score),
                                          TextCell(if student.passed then PassedText else FailedText)]);
      rowNum := rowNum + 1;
    }
  }

  const SummaryTitle: seq<Cell> := [TextCell("ИТОГИ:")]
  const TotalCaption: string := "Всего студентов: "
  const PassedCaption: string := "Сдали: "
  const FailedCaption: string := "Не сдали: "

  /** Summary row texts: a caption followed by the decimal count. */
  function SummaryLine(caption: string, count: nat): seq<Cell>
  {
    [TextCell(caption + NatToText(count))]
  }

  /** A summary line is its caption followed by text that parses back to the count. */
  lemma SummaryLineReadsBack(caption: string, count: nat)
    requires count <= MaxInt
    ensures SummaryLine(caption, count)[0].TextCell?
    ensures var text := SummaryLine(caption, count)[0].text;
      text[..|caption|] == caption && ParseInt(text[|caption|..]) == Some(count)
  {
    var text := SummaryLine(caption, count)[0].text;
    assert text[|caption|..] == NatToText(count);
    ParseIntRoundTrip(count);
  }

  /** Four rows from two below the last row: "ИТОГИ:", then total, passed and failed. */
  method CreateSummaryRows(sheet: Sheet, record: ExamRecord) returns (result: Sheet)
    requires sheet.Valid()
    ensures result.Valid()
    ensures var last := sheet.lastRowNum;
      && result.rows == sheet.rows[last + 2 := SummaryTitle]
                                  [last + 3 := SummaryLine(TotalCaption, record.TotalStudents())]
                                  [last + 4 := SummaryLine(PassedCaption, record.PassedCount())]
                                  [last + 5 := SummaryLine(FailedCaption, record.FailedCount())]
      && result.lastRowNum == last + 5
  {
    var lastRow := sheet.lastRowNum;
    result := sheet.CreateRow(lastRow + 2, SummaryTitle);
    result := result.CreateRow(lastRow + 3, SummaryLine(TotalCaption, record.TotalStudents()));
    result := result.CreateRow(lastRow + 4, SummaryLine(PassedCaption, record.PassedCount()));
    result := result.CreateRow(lastRow + 5, SummaryLine(FailedCaption, record.FailedCount()));
  }

  /** Four rows written two to five below a body of rows 0..n leave the body as it was. */
  lemma SummaryBelowBody(body: map<int, seq<Cell>>, n: nat, a: seq<Cell>, b: seq<Cell>, c: seq<Cell>, d: seq<Cell>)
    requires forall r :: r in body <==> 0 <= r <= n
    ensures var rows := body[n + 2 := a][n + 3 := b][n + 4 := c][n + 5 := d];
      && (forall r :: r in rows <==> 0 <= r <= n || n + 2 <= r <= n + 5)
      && (forall r :: 0 <= r <= n ==> rows[r] == body[r])
      && rows[n + 2] == a && rows[n + 3] == b && rows[n + 4] == c && rows[n + 5] == d
  {
  }

  /**
   * The sheet `exportToExcel` builds before saving: the header in row 0,
   * the n students in list order in rows 1..n, row n + 1 never created, and
   * the summary in rows n + 2..n + 5 (rows 2..5 for an empty record).
   */
  method ExportToSheet(record: ExamRecord) returns (sheet: Sheet)
    ensures sheet.Valid()
    ensures var n := |record.students|;
      && (forall r :: r in sheet.rows <==> 0 <= r <= n || n + 2 <= r <= n + 5)
      && sheet.rows[0] == HeaderCells
      && (forall k :: 0 <= k < n ==> sheet.rows[k + 1] == StudentCells(k, record.students[k]))
      && sheet.rows[n + 2] == SummaryTitle
      && sheet.rows[n + 3] == SummaryLine(TotalCaption, record.TotalStudents())
      && sheet.rows[n + 4] == SummaryLine(PassedCaption, record.PassedCount())
      && sheet.rows[n + 5] == SummaryLine(FailedCaption, record.FailedCount())
      && sheet.lastRowNum == n + 5
  {
    sheet := CreateHeaderRow(EmptySheet);
    assert sheet.rows == map[0 := HeaderCells] && sheet.lastRowNum == 0;
    sheet := FillStudentData(sheet, record);
    ghost var n, body := |record.students|, sheet.rows;
    assert sheet.lastRowNum == n;
    assert forall r :: r in body <==> 0 <= r <= n;
    sheet := CreateSummaryRows(sheet, record);
    SummaryBelowBody(body, n, SummaryTitle, SummaryLine(TotalCaption, record.TotalStudents()),
                     SummaryLine(PassedCaption, record.PassedCount()), SummaryLine(FailedCaption, record.FailedCount()));
  }

  // ------------------------------------------------------------ file name

  /** The characters the file name keeps: a-z, A-Z, 0-9, а-я, А-Я (so not ё, Ё or a space). */
  predicate KeptInFileName(c: char) {
    'a' <= c <= 'z' || 'A' <= c <= 'Z' || '0' <= c <= '9' || 'а' <= c <= 'я' || 'А' <= c <= 'Я'
  }

  /** `replaceAll("[^a-zA-Z0-9а-яА-Я]", "_")`: same length, kept characters in place, every other one `_`. */
  function CleanSubject(s: string): (r: string)
    ensures |r| == |s|
    ensures forall k :: 0 <= k < |s| ==> r[k] == if KeptInFileName(s[k]) then s[k] else '_'
  {
    if s == [] then []
    else [if KeptInFileName(s[0]) then s[0] else '_'] + CleanSubject(s[1..])
  }

  /** Cleaning twice is cleaning once: a cleaned subject has nothing left to replace. */
  lemma CleanSubjectIdempotent(s: string)
    ensures CleanSubject(CleanSubject(s)) == CleanSubject(s)
  {
  }

  /** Nothing but kept characters and `_` survive, so no separator or dot comes from the subject. */
  lemma CleanSubjectIsSafe(s: string)
    ensures forall k :: 0 <= k < |CleanSubject(s)| ==>
      KeptInFileName(CleanSubject(s)[k]) || CleanSubject(s)[k] == '_'
    ensures '/' !in CleanSubject(s) && '.' !in CleanSubject(s) && ' ' !in CleanSubject(s)
  {
  }

  const FilePrefix: string := "ведомость_"
  const FileSuffix: string := ".xlsx"

  /**
   * `generateFileName` with the clock reading passed in: "ведомость_",
   * the cleaned subject, "_", the timestamp, ".xlsx".
   */
  function GenerateFileName(subject: string, timestamp: string): (r: string)
    ensures |r| == |FilePrefix| + |subject| + 1 + |timestamp| + |FileSuffix|
    ensures r[..|FilePrefix|] == FilePrefix
    ensures r[|r| - |FileSuffix|..] == FileSuffix
    ensures r[|FilePrefix|..|FilePrefix| + |subject|] == CleanSubject(subject)
    ensures r[|FilePrefix| + |subject|] == '_'
    ensures r[|FilePrefix| + |subject| + 1..|r| - |FileSuffix|] == timestamp
  {
    FilePrefix + CleanSubject(subject) + "_" + timestamp + FileSuffix
  }

  // --------------------------------------------- result column vs summary

  /** How many of the exported rows carry `text` in their result column. */
  function RowsWithResult(s: seq<Student>, text: string): (n: nat)
    reads s
    ensures n <= |s|
  {
    if s == [] then 0
    else RowsWithResult(s[..|s| - 1], text)
         + (if StudentCells(|s| - 1, s[|s| - 1])[3] == TextCell(text) then 1 else 0)
  }

  /**
   * The rows reading "Сдал" are exactly the summary's passed count, but the
   * rows reading "Не сдал" are the failed count PLUS every ungraded student:
   * the row level and the summary disagree whenever someone has no grade.
   */
  lemma {:induction false} ResultColumnVersusSummary(s: seq<Student>)
    requires forall k :: 0 <= k < |s| ==> s[k].Valid()
    ensures RowsWithResult(s, PassedText) == Count(s, Passed)
    ensures RowsWithResult(s, FailedText) == Count(s, Failed) + Count(s, WithoutGrade)
  {
    if s != [] {
      ResultColumnVersusSummary(s[..|s| - 1]);
    }
  }

  /** An ungraded student is exported with its raw score and as failed. */
  lemma UngradedExport(k: nat, st: Student)
    requires st.Valid() && !st.hasGrade
    ensures StudentCells(k, st)[2] == NumberCell(st.score)
    ensures StudentCells(k, st)[3] == TextCell(FailedText)
    ensures st.ResultText() == AwaitingText
  {
  }
}
