/**
 * ExcelImportResult.java: the parcel a spreadsheet import hands back —
 * subject, date, email and the student list, each of which may be null
 * (`None`). The loader only uses it when `HasData` holds.
 */
module ImportResult {
  import opened Wrappers
  import opened Students

  class ExcelImportResult {
    var subject: Option<string>
    var date: Option<string>
    var email: Option<string>
    var students: Option<seq<Student>>

    /** The empty result: no subject, date or email, and an empty (not null) list. */
    constructor Empty()
      ensures subject == None && date == None && email == None
      ensures students == Some([])
      ensures !HasData()
    {
      subject := None;
      date := None;
      email := None;
      students := Some([]);
    }

    /** Stores all four values as given. */
    constructor (subject: Option<string>, date: Option<string>, email: Option<string>, students: Option<seq<Student>>)
      ensures this.subject == subject && this.date == date && this.email == email && this.students == students
      ensures HasData() <==> students.Some? && students.value != []
    {
      this.subject := subject;
      this.date := date;
      this.email := email;
      this.students := students;
    }

    method SetSubject(subject: Option<string>)
      modifies this
      ensures this.subject == subject
      ensures date == old(date) && email == old(email) && students == old(students)
    {
      this.subject := subject;
    }

    method SetDate(date: Option<string>)
      modifies this
      ensures this.date == date
      ensures subject == old(subject) && email == old(email) && students == old(students)
    {
      this.date := date;
    }

    method SetEmail(email: Option<string>)
      modifies this
      ensures this.email == email
      ensures subject == old(subject) && date == old(date) && students == old(students)
    {
      this.email := email;
    }

    method SetStudents(students: Option<seq<Student>>)
      modifies this
      ensures this.students == students
      ensures subject == old(subject) && date == old(date) && email == old(email)
      ensures HasData() <==> students.Some? && students.value != []
    {
      this.students := students;
    }

    /** The stored list itself, null included: no copy is made. */
    function GetStudents(): (r: Option<seq<Student>>)
      reads this
      ensures r == students
    {
      students
    }

    /** There is something to load: the list is present and holds at least one student. */
    predicate HasData(): (r: bool)
      reads this
      ensures students.None? ==> !r
      ensures students.Some? ==> (r <==> students.value != [])
    {
      students.Some? && |students.value| > 0
    }
  }
}
