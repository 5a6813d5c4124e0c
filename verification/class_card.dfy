/** One class card of the class-management page (`ClassCard`,
    `AddClassForm`): the comma-separated trainer field, the students shown
    under the class, its status label, when the certificate toggle is
    offered, and the sheet exported for it. */
module ClassCard {
  import opened Wrappers
  import opened Calendar
  import opened Records
  import opened DobFormat
  import Seqs
  import Strings
  import AppState
  import Enrollment

  // ---------------------------------------------------------------------
  // Trainer list text
  // ---------------------------------------------------------------------

  /** A name the trainer field can yield: not empty, no white space at
      either end, no comma. */
  predicate TrainerName(t: string) {
    t != "" && Strings.Trimmed(t) && ',' !in t
  }

  function TrimPiece(t: string): string {
    Strings.Trim(t)
  }

  function NonEmpty(t: string): bool {
    t != ""
  }

  /** `text.split(',').map(t => t.trim()).filter(t => t)`: the comma-separated
      pieces, trimmed, blank ones dropped. */
  function ParseTrainers(text: string): (r: seq<string>)
    ensures forall i :: 0 <= i < |r| ==> TrainerName(r[i])
  {
    var pieces := Strings.Split(text, ',');
    var trimmed := Seqs.Map(pieces, TrimPiece);
    var r := Seqs.Filter(trimmed, NonEmpty);
    assert forall i :: 0 <= i < |r| ==> TrainerName(r[i]) by {
      forall i | 0 <= i < |r| ensures TrainerName(r[i]) {
        var j :| 0 <= j < |trimmed| && trimmed[j] == r[i];
        TrimKeepsCommaFree(pieces[j]);
      }
    }
    r
  }

  /** Trimming removes characters, never adds a comma. */
  lemma TrimKeepsCommaFree(s: string)
    requires ',' !in s
    ensures ',' !in Strings.Trim(s)
  {
    var r := Strings.Trim(s);
    var k :| Strings.StripsToInfix(s, r, k);
    forall j | 0 <= j < |r| ensures r[j] != ',' {
      assert r[j] == s[k + j];
    }
  }

  /** A leading blank is trimmed away like any other leading white space. */
  lemma TrimLeadingBlank(p: string)
    ensures Strings.Trim(" " + p) == Strings.Trim(p)
  {
    assert (" " + p)[1..] == p;
    assert Strings.TrimStart(" " + p) == Strings.TrimStart(p);
  }

  /** A leading blank joins the first piece. */
  lemma SplitLeadingBlank(s: string)
    ensures var rest := Strings.Split(s, ',');
            Strings.Split(" " + s, ',') == [" " + rest[0]] + rest[1..]
  {
    assert (" " + s)[1..] == s;
  }

  /** Leading white space cannot change the parsed list. */
  lemma LeadingBlankIgnored(s: string)
    ensures ParseTrainers(" " + s) == ParseTrainers(s)
  {
    var rest := Strings.Split(s, ',');
    var pieces := Strings.Split(" " + s, ',');
    SplitLeadingBlank(s);
    TrimLeadingBlank(rest[0]);
    var a, b := Seqs.Map(pieces, TrimPiece), Seqs.Map(rest, TrimPiece);
    assert |a| == |b|;
    forall i | 0 <= i < |a| ensures a[i] == b[i] {
      if i > 0 {
        assert pieces[i] == rest[i];
      }
    }
    assert a == b;
  }

  /** A comma separates the list: the pieces before it and after it parse
      on their own and the results are concatenated. */
  lemma ParseTrainersAppend(a: string, b: string)
    ensures ParseTrainers(a + "," + b) == ParseTrainers(a) + ParseTrainers(b)
  {
    assert a + "," + b == a + [','] + b;
    Strings.SplitAppend(a, ',', b);
    var pa, pb := Strings.Split(a, ','), Strings.Split(b, ',');
    assert Seqs.Map(pa + pb, TrimPiece) == Seqs.Map(pa, TrimPiece) + Seqs.Map(pb, TrimPiece);
    Seqs.FilterAppend(Seqs.Map(pa, TrimPiece), Seqs.Map(pb, TrimPiece), NonEmpty);
  }

  /** The edit field is prefilled with `trainers.join(', ')`, or empty when
      the class has none. */
  function TrainerText(c: Class): string {
    if c.trainers.Some? then Strings.Join(c.trainers.value, ", ") else ""
  }

  /** One trainer name parses to itself. */
  lemma ParseOne(t: string)
    requires TrainerName(t)
    ensures ParseTrainers(t) == [t]
  {
    Strings.SplitFree(t, ',');
    Strings.TrimOfTrimmed(t);
    assert Seqs.Map([t], TrimPiece) == [t];
    Seqs.FilterSingleton(t, NonEmpty);
  }

  /** A comma-free field is one trainer, trimmed, or none when it is blank. */
  lemma ParsePiece(p: string)
    requires ',' !in p
    ensures ParseTrainers(p) == if Strings.Trim(p) == "" then [] else [Strings.Trim(p)]
  {
    Strings.SplitFree(p, ',');
    assert Seqs.Map([p], TrimPiece) == [Strings.Trim(p)];
    Seqs.FilterSingleton(Strings.Trim(p), NonEmpty);
  }

  lemma JoinCons(ts: seq<string>)
    requires |ts| > 1
    ensures Strings.Join(ts, ", ") == ts[0] + "," + (" " + Strings.Join(ts[1..], ", "))
  {
  }

  /** The prefilled text parses back to the list it shows, whenever the
      list holds names the field could have produced. */
  lemma {:induction false} TrainerRoundTrip(ts: seq<string>)
    requires forall i :: 0 <= i < |ts| ==> TrainerName(ts[i])
    ensures ParseTrainers(Strings.Join(ts, ", ")) == ts
    decreases |ts|
  {
    if |ts| == 0 {
      ParseEmpty();
    } else if |ts| == 1 {
      ParseOne(ts[0]);
    } else {
      TrainerRoundTrip(ts[1..]);
      JoinCons(ts);
      ParseCons(ts[0], Strings.Join(ts[1..], ", "));
      assert ts == [ts[0]] + ts[1..];
    }
  }

  /** A name, a comma and a blank before the rest parse to the name followed
      by the rest's trainers. */
  lemma ParseCons(t: string, rest: string)
    requires TrainerName(t)
    ensures ParseTrainers(t + "," + (" " + rest)) == [t] + ParseTrainers(rest)
  {
    ParseTrainersAppend(t, " " + rest);
    LeadingBlankIgnored(rest);
    ParseOne(t);
  }

  /** The empty field parses to no trainers. */
  lemma ParseEmpty()
    ensures ParseTrainers("") == []
  {
    assert Seqs.Map([""], TrimPiece) == [""];
    Seqs.FilterSingleton("", NonEmpty);
  }

  /** `handleUpdateTrainers`: the parsed list replaces the trainers of the
      class with that id; nothing else changes, and no other class changes. */
  function SaveTrainers(classes: seq<Class>, classId: Id, text: string): (r: seq<Class>)
    ensures |r| == |classes|
    ensures forall i :: 0 <= i < |classes| && classes[i].id == classId ==>
              r[i] == classes[i].(trainers := Some(ParseTrainers(text)))
    ensures forall i :: 0 <= i < |classes| && classes[i].id != classId ==> r[i] == classes[i]
  {
    AppState.UpdateClass(classes, classId, AppState.TrainersPatch(ParseTrainers(text)))
  }

  /** Saving the field without editing it keeps the class's list; a class
      without trainers gets an empty list rather than none. */
  lemma SaveUntouchedTrainers(classes: seq<Class>, i: nat)
    requires i < |classes|
    requires classes[i].trainers.Some? ==>
               forall j :: 0 <= j < |classes[i].trainers.value| ==> TrainerName(classes[i].trainers.value[j])
    ensures var c := classes[i];
            SaveTrainers(classes, c.id, TrainerText(c))[i]
              == c.(trainers := Some(if c.trainers.Some? then c.trainers.value else []))
  {
    var c := classes[i];
    if c.trainers.Some? {
      TrainerRoundTrip(c.trainers.value);
    } else {
      TrainerRoundTrip([]);
    }
  }

  // ---------------------------------------------------------------------
  // Scheduling a class
  // ---------------------------------------------------------------------

  /** The schedule form; the two dates are the instants the database reads
      the date inputs' values as. */
  datatype AddClassForm = AddClassForm(name: string, startDate: Instant, endDate: Instant, trainers: string)

  /** The JSON body of `POST /api/classes`; `schedule` and `price` are never
      sent. */
  datatype ClassRequest = ClassRequest(
    id: Id, name: string, startDate: Instant, endDate: Instant, status: string, trainers: seq<string>)

  /** `AddClassForm.handleSubmit` with `addClass`: the new id, the status
      "Scheduled", and the parsed trainer list. */
  function AddClass(form: AddClassForm, newId: Id): (r: ClassRequest)
    ensures r.id == newId && r.status == "Scheduled"
    ensures r.name == form.name && r.startDate == form.startDate && r.endDate == form.endDate
    ensures forall i :: 0 <= i < |r.trainers| ==> TrainerName(r.trainers[i])
    ensures r.trainers == ParseTrainers(form.trainers)
  {
    ClassRequest(newId, form.name, form.startDate, form.endDate, "Scheduled", ParseTrainers(form.trainers))
  }

  // ---------------------------------------------------------------------
  // Students of a class
  // ---------------------------------------------------------------------

  function ClassIdTest(classId: Id): Student -> bool {
    (s: Student) => s.classId == Some(classId)
  }

  /** The students linked to the class by id, in list order; the copied
      class name plays no part. */
  function EnrolledStudents(students: seq<Student>, classId: Id): (r: seq<Student>)
    ensures forall i :: 0 <= i < |r| ==> r[i] in students && r[i].classId == Some(classId)
    ensures forall i :: 0 <= i < |students| && students[i].classId == Some(classId) ==> students[i] in r
  {
    Seqs.Filter(students, ClassIdTest(classId))
  }

  /** Deleting a student takes it off its class's card and leaves the rest
      of the card as it was. */
  lemma DeleteLeavesCard(students: seq<Student>, studentId: Id, classId: Id)
    ensures EnrolledStudents(AppState.DeleteStudentLocal(students, studentId, true), classId)
            == AppState.DeleteStudentLocal(EnrolledStudents(students, classId), studentId, true)
  {
    Seqs.FilterCommute(students, AppState.StudentIdTest(studentId), ClassIdTest(classId));
  }

  // ---------------------------------------------------------------------
  // Status and certificates
  // ---------------------------------------------------------------------

  /** `new Date() > new Date(endDate)`. */
  predicate IsEnded(c: Class, now: Instant) {
    Millis(now) > Millis(c.endDate)
  }

  /** The card's status: ended once its end instant has passed, upcoming
      before its start instant, ongoing otherwise. */
  function StatusLabel(c: Class, now: Instant): (r: string)
    ensures r == "Ended" <==> IsEnded(c, now)
    ensures r == "Upcoming" <==> !IsEnded(c, now) && Millis(now) < Millis(c.startDate)
    ensures r == "Ongoing" <==> !IsEnded(c, now) && Millis(c.startDate) <= Millis(now)
  {
    if IsEnded(c, now) then "Ended"
    else if Millis(now) < Millis(c.startDate) then "Upcoming"
    else "Ongoing"
  }

  /** The certificate toggle is offered exactly on ended classes, which are
      exactly the classes enrollment refuses. */
  lemma ToggleOfferedIffNotEnrollable(c: Class, now: Instant)
    ensures StatusLabel(c, now) == "Ended" <==> !Enrollment.IsEligible(c, now)
  {
  }

  /** The card and the dashboard agree a class is over or not started when
      the calendar day says so, but a class ending earlier today is shown as
      ended on its card while the dashboard still counts it as active. */
  lemma StatusAgainstDashboard(c: Class, now: Instant)
    requires ValidInstant(c.startDate) && ValidInstant(c.endDate) && ValidInstant(now)
    requires Millis(c.startDate) <= Millis(c.endDate)
    ensures AppState.IsEnded(c, now) ==> StatusLabel(c, now) == "Ended"
    ensures AppState.IsFuture(c, now) ==> StatusLabel(c, now) == "Upcoming"
    ensures Day(c.endDate) == Day(now) && c.endDate.ms < now.ms ==>
              StatusLabel(c, now) == "Ended" && !AppState.IsEnded(c, now) && !AppState.IsFuture(c, now)
  {
    InstantDayOrder(c.endDate, now);
    InstantDayOrder(now, c.endDate);
    InstantDayOrder(now, c.startDate);
    InstantDayOrder(c.startDate, c.endDate);
  }

  // ---------------------------------------------------------------------
  // Sheet export
  // ---------------------------------------------------------------------

  datatype Sheet = Sheet(rows: seq<seq<string>>, filename: string)

  /** The header rows before the student rows. */
  const HeaderRows: int := 9

  /** A `dd/MM/yyyy` cell reads back as the date it shows. */
  lemma FormattedDateReadsBack(d: Date)
    requires ValidDate(d)
    ensures d.year <= 9999 ==> ParseDob(FormatDob(d)) == Some(d)
  {
    if d.year <= 9999 {
      ParseFormat(d);
    }
  }

  /** A student's row: name, organization, date of birth, e-mail, phone and
      enrollment day, a missing field shown as "N/A". */
  function StudentRow(s: Student): (r: seq<string>)
    requires ValidDate(s.dob) && ValidDate(s.enrollmentDate.date)
    ensures |r| == 6 && r[0] == s.name
    ensures r[1] == OrElse(s.organization, "N/A") && r[3] == OrElse(s.email, "N/A")
            && r[4] == OrElse(s.phone, "N/A")
    ensures s.dob.year <= 9999 ==> ParseDob(r[2]) == Some(s.dob)
    ensures s.enrollmentDate.date.year <= 9999 ==> ParseDob(r[5]) == Some(s.enrollmentDate.date)
  {
    FormattedDateReadsBack(s.dob);
    FormattedDateReadsBack(s.enrollmentDate.date);
    [s.name, OrElse(s.organization, "N/A"), FormatDob(s.dob), OrElse(s.email, "N/A"),
     OrElse(s.phone, "N/A"), FormatDob(s.enrollmentDate.date)]
  }

  /** `trainers.join(', ')` when the column is set (an empty list gives an
      empty cell), "None" when it is NULL. */
  function TrainersCell(c: Class): (r: string)
    ensures c.trainers.None? ==> r == "None"
    ensures c.trainers.Some? ==> r == TrainerText(c)
  {
    if c.trainers.Some? then TrainerText(c) else "None"
  }

  /** The class part of the sheet: nine rows, the status row one cell
      wider than the others. */
  function Header(c: Class, now: Instant): (r: seq<seq<string>>)
    requires ValidDate(c.startDate.date) && ValidDate(c.endDate.date)
    ensures |r| == HeaderRows
    ensures forall i :: 0 <= i < HeaderRows ==> |r[i]| == if i == 5 then 7 else 6
    ensures r[1][1] == c.name && r[4][1] == TrainersCell(c)
    ensures r[5][1] == StatusLabel(c, now)
    ensures r[0][0] == "Class Information" && r[1][0] == "Name" && r[2][0] == "Start Date"
    ensures r[3][0] == "End Date" && r[4][0] == "Trainers" && r[5][0] == "Status"
    ensures r[6] == ["", "", "", "", "", ""] && r[7][0] == "Enrolled Students"
    ensures r[8] == ["Name", "Organization", "Date of Birth", "Email", "Phone", "Enrollment Date"]
    ensures c.startDate.date.year <= 9999 ==> ParseDob(r[2][1]) == Some(c.startDate.date)
    ensures c.endDate.date.year <= 9999 ==> ParseDob(r[3][1]) == Some(c.endDate.date)
  {
    FormattedDateReadsBack(c.startDate.date);
    FormattedDateReadsBack(c.endDate.date);
    [ ["Class Information", "", "", "", "", ""],
      ["Name", c.name, "", "", "", ""],
      ["Start Date", FormatDob(c.startDate.date), "", "", "", ""],
      ["End Date", FormatDob(c.endDate.date), "", "", "", ""],
      ["Trainers", TrainersCell(c), "", "", "", ""],
      ["Status", StatusLabel(c, now), "", "", "", "", ""],
      ["", "", "", "", "", ""],
      ["Enrolled Students", "", "", "", "", ""],
      ["Name", "Organization", "Date of Birth", "Email", "Phone", "Enrollment Date"] ]
  }

  /** Every student's stored dates are real calendar dates, as the DATE
      and TIMESTAMP columns guarantee. */
  predicate RowDatesValid(students: seq<Student>) {
    forall s :: s in students ==> ValidDate(s.dob) && ValidDate(s.enrollmentDate.date)
  }

  /** The student part of the sheet: one row per student, in order. */
  function StudentRows(enrolled: seq<Student>): (r: seq<seq<string>>)
    requires RowDatesValid(enrolled)
    ensures |r| == |enrolled|
    ensures forall i :: 0 <= i < |enrolled| ==> r[i] == StudentRow(enrolled[i])
  {
    seq(|enrolled|, i requires 0 <= i < |enrolled| => StudentRow(enrolled[i]))
  }

  /** `handleExport`: the class's nine header rows, then one row per
      enrolled student in list order, under the file name
      `<class name>_Students.xlsx`. */
  function ExportSheet(c: Class, students: seq<Student>, now: Instant): (r: Sheet)
    requires ValidDate(c.startDate.date) && ValidDate(c.endDate.date)
    requires RowDatesValid(students)
    ensures var enrolled := EnrolledStudents(students, c.id);
            && |r.rows| == HeaderRows + |enrolled|
            && (forall i :: 0 <= i < |enrolled| ==> r.rows[HeaderRows + i] == StudentRow(enrolled[i]))
    ensures r.rows[..HeaderRows] == Header(c, now)
    ensures r.filename == c.name + "_Students.xlsx"
  {
    var enrolled := EnrolledStudents(students, c.id);
    var header, body := Header(c, now), StudentRows(enrolled);
    assert (header + body)[..HeaderRows] == header;
    Sheet(header + body, c.name + "_Students.xlsx")
  }
}
