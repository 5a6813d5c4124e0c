/** What the client's requests do once the server handles them: the
    multipart fields as the server reads them, and the denormalised
    (class_id, class_name) pair, which no constraint ties together, kept
    equal to the referenced class's id and name through enrollment and
    editing. */
module Flows {
  import opened Wrappers
  import opened Calendar
  import opened Records
  import opened DobFormat
  import Enrollment
  import EditStudent
  import Server

  /** `FormData.append(key, value)`: the value is sent as text, and a missing
      value becomes the text "null". */
  function FormText(o: Option<string>): (r: string)
    ensures o.Some? ==> r == o.value
    ensures o.None? ==> r == "null"
  {
    o.GetOr("null")
  }

  /** The enrollment request's fields as `POST /api/students` reads them. */
  function EnrollInput(req: Enrollment.EnrollRequest): (r: Server.StudentInput)
    ensures r.dob == ParseIso(req.dob)
    ensures r.classId == Some(req.classId) && r.className == Some(req.className)
    ensures r.name == Some(req.name) && r.idType == Some(req.idType)
    ensures r.organization == Some(req.organization) && r.email == Some(req.email) && r.phone == Some(req.phone)
  {
    Server.StudentInput(Some(req.name), ParseIso(req.dob), Some(req.organization), Some(req.email),
                        Some(req.phone), Some(req.classId), Some(req.className), Some(req.idType))
  }

  /** The edit request's fields as `PUT /api/students/:id` reads them: a
      missing organization, class id or class name arrives as "null". */
  function EditInput(req: EditStudent.EditRequest): (r: Server.StudentInput)
    ensures r.dob == ParseIso(req.dob)
    ensures r.classId == Some(FormText(req.classId)) && r.className == Some(FormText(req.className))
    ensures r.organization == Some(FormText(req.organization))
    ensures r.name == Some(req.name) && r.email == Some(req.email) && r.phone == Some(req.phone)
    ensures r.idType == Some(req.idType)
  {
    Server.StudentInput(Some(req.name), ParseIso(req.dob), Some(FormText(req.organization)), Some(req.email),
                        Some(req.phone), Some(FormText(req.classId)), Some(FormText(req.className)),
                        Some(req.idType))
  }

  /** A (class id, class name) pair names its class: whenever the id is a
      class's id, the name is that class's name. */
  ghost predicate PairNamesItsClass(classes: seq<Class>, classId: Option<Id>, className: Option<string>) {
    forall j :: 0 <= j < |classes| && classId == Some(classes[j].id) ==> className == Some(classes[j].name)
  }

  /** Every student linked to a class carries that class's name. */
  ghost predicate PairsConsistent(db: Server.Db) {
    forall i :: 0 <= i < |db.students| ==>
      PairNamesItsClass(db.classes, db.students[i].classId, db.students[i].className)
  }

  /** With unique class ids, the pair of a class of the table names it. */
  lemma RowPairNamesItsClass(classes: seq<Class>, m: nat)
    requires Server.ClassKeys(classes) && m < |classes|
    ensures PairNamesItsClass(classes, Some(classes[m].id), Some(classes[m].name))
  {
    forall j | 0 <= j < |classes| && classes[j].id == classes[m].id
      ensures j == m
    {
      assert Server.ClassKey(classes[j]) == Server.ClassKey(classes[m]);
    }
  }

  /** A class the client lists is a row of the table. */
  lemma ListedClassInTable(db: Server.Db, c: Class)
    requires c in Server.ListClasses(db)
    ensures c in db.classes
  {
    assert c in multiset(Server.ListClasses(db));
  }

  /** The class the enrollment form resolves is a row of the table. */
  lemma ResolvedClassRow(db: Server.Db, form: Enrollment.EnrollForm, now: Instant, newId: Id) returns (m: nat)
    requires Enrollment.SubmitEnrollment(form, Server.ListClasses(db), now, newId).Success?
    ensures var req := Enrollment.SubmitEnrollment(form, Server.ListClasses(db), now, newId).value;
            m < |db.classes| && db.classes[m].id == req.classId && db.classes[m].name == req.className
  {
    var classes := Server.ListClasses(db);
    var req := Enrollment.SubmitEnrollment(form, classes, now, newId).value;
    var k :| Enrollment.FirstMatchAt(Enrollment.EligibleClasses(classes, now), form.className, k)
             && req.classId == Enrollment.EligibleClasses(classes, now)[k].id
             && req.className == Enrollment.EligibleClasses(classes, now)[k].name;
    var c := Enrollment.EligibleClasses(classes, now)[k];
    ListedClassInTable(db, c);
    m :| m < |db.classes| && db.classes[m] == c;
  }

  /** A student created from the enrollment form, with a new id, is linked
      to the resolved class and carries its name and the typed date of
      birth; the pair invariant holds afterwards. */
  lemma EnrollmentKeepsPairs(db: Server.Db, form: Enrollment.EnrollForm, now: Instant, newId: Id,
                             prefix: string, at: Instant)
    requires Server.Valid(db) && Server.Widths(db) && PairsConsistent(db)
    requires Enrollment.SubmitEnrollment(form, Server.ListClasses(db), now, newId).Success?
    requires form.file.Some? ==> form.file.value.size <= MaxUploadBytes
    ensures var req := Enrollment.SubmitEnrollment(form, Server.ListClasses(db), now, newId).value;
            var r := Server.CreateStudent(db, Some(newId), EnrollInput(req), req.idFile, prefix, at);
            && (r.result.Success? <==> !Server.HasStudent(db.students, newId)
                                       && Server.StudentFits(EnrollInput(req), req.idFile, prefix))
            && (r.result.Success? ==> Some(r.result.value.dob) == ParseDob(form.dob)
                                      && r.result.value.classId == Some(req.classId))
            && PairsConsistent(r.db)
  {
    var req := Enrollment.SubmitEnrollment(form, Server.ListClasses(db), now, newId).value;
    var m := ResolvedClassRow(db, form, now, newId);
    RowPairNamesItsClass(db.classes, m);
    var input := EnrollInput(req);
    assert input.dob == ParseDob(form.dob) && input.dob.Some? && input.name.Some?;
    assert input.classId == Some(db.classes[m].id);
    assert !Server.TooLarge(req.idFile);
    CreateKeepsPairs(db, Some(newId), input, req.idFile, prefix, at);
  }

  /** A student insert whose pair names its class keeps every pair
      consistent. */
  lemma CreateKeepsPairs(db: Server.Db, id: Option<Id>, input: Server.StudentInput, upload: Option<Upload>,
                         prefix: string, at: Instant)
    requires PairsConsistent(db) && Server.ClassesWithin(db.classes)
    requires PairNamesItsClass(db.classes, input.classId, input.className)
    ensures PairsConsistent(Server.CreateStudent(db, id, input, upload, prefix, at).db)
  {
    var r := Server.CreateStudent(db, id, input, upload, prefix, at);
    if r.result.Success? {
      var s := r.result.value;
      StoredPairNamesItsClass(db.classes, input.classId, input.className, s.className);
      forall i | 0 <= i < |r.db.students|
        ensures PairNamesItsClass(db.classes, r.db.students[i].classId, r.db.students[i].className)
      {
        if i < |db.students| {
          assert r.db.students[i] == db.students[i];
        }
      }
    }
  }

  /** A class name fits its column, so the stored copy of a pair's name is
      the name sent. */
  lemma StoredPairNamesItsClass(classes: seq<Class>, classId: Option<Id>, className: Option<string>,
                                stored: Option<string>)
    requires Server.ClassesWithin(classes) && PairNamesItsClass(classes, classId, className)
    requires Server.FitsOpt(className, 255) && stored == Server.ClipOpt(className, 255)
    ensures PairNamesItsClass(classes, classId, stored)
  {
    forall j | 0 <= j < |classes| && classId == Some(classes[j].id)
      ensures stored == Some(classes[j].name)
    {
      assert Server.ClassWithin(classes[j]);
    }
  }

  /** The pair an edit resolves is the student's own or the pair of one
      listed class, so it names its class. */
  lemma ChoiceNamesItsClass(db: Server.Db, k: nat, chosen: Option<string>, now: Instant)
    requires Server.ClassKeys(db.classes) && PairsConsistent(db)
    requires k < |db.students| && db.students[k].classId.Some?
    ensures var choice := EditStudent.ResolveEditClass(db.students[k], chosen, Server.ListClasses(db), now);
            choice.classId.Some? && PairNamesItsClass(db.classes, choice.classId, choice.className)
  {
    var s := db.students[k];
    var classes := Server.ListClasses(db);
    var choice := EditStudent.ResolveEditClass(s, chosen, classes, now);
    EditStudent.EditKeepsPairConsistent(s, chosen, classes, now);
    if !(choice.classId == s.classId && choice.className == s.className) {
      var c :| c in classes && Enrollment.IsEligible(c, now) && Some(c.name) == chosen
               && choice.classId == Some(c.id) && choice.className == Some(c.name);
      ListedClassInTable(db, c);
      var m :| 0 <= m < |db.classes| && db.classes[m] == c;
      RowPairNamesItsClass(db.classes, m);
    }
  }

  /** Sending a pair as multipart text keeps it naming its class when the id
      is present: a missing name becomes "null" only for an id no class has. */
  lemma SentPairNamesItsClass(classes: seq<Class>, classId: Option<Id>, className: Option<string>)
    requires classId.Some? && PairNamesItsClass(classes, classId, className)
    ensures PairNamesItsClass(classes, Some(FormText(classId)), Some(FormText(className)))
  {
  }

  /** The pair an edit sends names its class. */
  lemma EditPairNamesItsClass(db: Server.Db, k: nat, form: EditStudent.EditForm, now: Instant)
    requires Server.ClassKeys(db.classes) && PairsConsistent(db)
    requires k < |db.students| && db.students[k].classId.Some?
    requires EditStudent.SubmitEdit(db.students[k], form, Server.ListClasses(db), now).Success?
    ensures var req := EditStudent.SubmitEdit(db.students[k], form, Server.ListClasses(db), now).value.request;
            var input := EditInput(req);
            PairNamesItsClass(db.classes, input.classId, input.className)
  {
    var choice := EditStudent.ResolveEditClass(db.students[k], form.className, Server.ListClasses(db), now);
    ChoiceNamesItsClass(db, k, form.className, now);
    SentPairNamesItsClass(db.classes, choice.classId, choice.className);
  }

  /** Editing a student who is linked to a class sends either the student's
      own pair or the pair of one listed class, so the pair invariant holds
      after the update, whatever else the form changed. */
  lemma EditKeepsPairs(db: Server.Db, k: nat, form: EditStudent.EditForm, now: Instant, prefix: string)
    requires Server.Valid(db) && Server.Widths(db) && PairsConsistent(db)
    requires k < |db.students| && db.students[k].classId.Some?
    requires EditStudent.SubmitEdit(db.students[k], form, Server.ListClasses(db), now).Success?
    ensures var req := EditStudent.SubmitEdit(db.students[k], form, Server.ListClasses(db), now).value.request;
            PairsConsistent(Server.UpdateStudent(db, db.students[k].id, EditInput(req), req.idFile, prefix).db)
  {
    var s := db.students[k];
    var req := EditStudent.SubmitEdit(s, form, Server.ListClasses(db), now).value.request;
    EditPairNamesItsClass(db, k, form, now);
    UpdateKeepsPairs(db, s.id, EditInput(req), req.idFile, prefix);
  }

  /** A student update whose pair names its class keeps every pair
      consistent. */
  lemma UpdateKeepsPairs(db: Server.Db, id: Id, input: Server.StudentInput, upload: Option<Upload>, prefix: string)
    requires PairsConsistent(db) && Server.ClassesWithin(db.classes)
    requires PairNamesItsClass(db.classes, input.classId, input.className)
    ensures PairsConsistent(Server.UpdateStudent(db, id, input, upload, prefix).db)
  {
    var r := Server.UpdateStudent(db, id, input, upload, prefix);
    if r.result.Success? {
      StoredPairNamesItsClass(db.classes, input.classId, input.className, Server.ClipOpt(input.className, 255));
      forall i | 0 <= i < |r.db.students|
        ensures PairNamesItsClass(db.classes, r.db.students[i].classId, r.db.students[i].className)
      {
        if db.students[i].id != id {
          assert r.db.students[i] == db.students[i];
        }
      }
    }
  }
}
