/** The edit-student modal (`EditStudentModal`): how the form is prefilled
    from a student, how the class link is resolved on submit, and what the
    update request carries. The date field, its check and the file picker
    are the enrollment form's (`DobFormat`, `Enrollment.PickFile`). */
module EditStudent {
  import opened Wrappers
  import opened Calendar
  import opened Records
  import opened DobFormat
  import Enrollment

  datatype EditForm = EditForm(
    name: string,
    dob: string,
    organization: Option<string>,
    email: string,
    phone: string,
    className: Option<string>,
    classId: Option<Id>,
    idType: string,
    file: Option<Upload>)

  /** The prefill effect: the stored date of birth shown as `dd/MM/yyyy`,
      missing e-mail and phone shown empty, a missing ID type defaulted to
      "National ID", the class link copied, and no file chosen. */
  function Prefill(s: Student): (f: EditForm)
    requires ValidDate(s.dob) && s.dob.year <= 9999
    ensures ParseDob(f.dob) == Some(s.dob)
    ensures MaskState(f.dob)
    ensures f.idType == (if Truthy(s.idType) then s.idType.value else DefaultIdType)
    ensures f.email == OrElse(s.email, "") && f.phone == OrElse(s.phone, "")
    ensures f.name == s.name && f.organization == s.organization
    ensures f.className == s.className && f.classId == s.classId
    ensures f.file.None?
  {
    ParseFormat(s.dob);
    EditForm(s.name, FormatDob(s.dob), s.organization, OrElse(s.email, ""), OrElse(s.phone, ""),
             s.className, s.classId, OrElse(s.idType, DefaultIdType), None)
  }

  /** The (classId, className) pair the update sends, and whether the
      "not currently scheduled" warning was shown. */
  datatype ClassChoice = ClassChoice(classId: Option<Id>, className: Option<string>, warned: bool)

  /** The first eligible class whose name is the chosen one, if any. */
  function MatchChosen(classes: seq<Class>, now: Instant, chosen: Option<string>): (r: Option<Class>)
    ensures chosen.None? ==> r.None?
    ensures chosen.Some? ==> r == Enrollment.ResolveClass(classes, now, chosen.value)
  {
    match chosen
    case None => None
    case Some(n) => Enrollment.ResolveClass(classes, now, n)
  }

  /** The class resolution of `handleSubmit`: when the chosen name differs
      from the student's and an eligible class carries it, both the id and
      the name come from that class; otherwise the student's own pair is
      re-sent unchanged. A changed name with no eligible class only warns. */
  function ResolveEditClass(s: Student, chosen: Option<string>, classes: seq<Class>, now: Instant)
    : (r: ClassChoice)
    ensures var m := MatchChosen(classes, now, chosen);
            if chosen != s.className && m.Some?
            then r.classId == Some(m.value.id) && r.className == Some(m.value.name)
            else r.classId == s.classId && r.className == s.className
    ensures r.warned <==> chosen != s.className && MatchChosen(classes, now, chosen).None?
  {
    var m := MatchChosen(classes, now, chosen);
    var warned := m.None? && chosen != s.className;
    if chosen != s.className && m.Some? then
      ClassChoice(Some(m.value.id), Some(m.value.name), warned)
    else
      ClassChoice(s.classId, s.className, warned)
  }

  /** The pair names one class of the list: its id and its name together. */
  ghost predicate PairOfOneClass(classes: seq<Class>, classId: Option<Id>, className: Option<string>) {
    exists c :: c in classes && classId == Some(c.id) && className == Some(c.name)
  }

  /** The denormalised pair is never mixed across two classes: it is either
      the student's own pair or the pair of one eligible class carrying the
      chosen name, so a student whose pair named one class still has a pair
      naming one class. */
  lemma EditKeepsPairConsistent(s: Student, chosen: Option<string>, classes: seq<Class>, now: Instant)
    ensures var r := ResolveEditClass(s, chosen, classes, now);
            || (r.classId == s.classId && r.className == s.className)
            || (exists c :: c in classes && Enrollment.IsEligible(c, now) && Some(c.name) == chosen
                            && r.classId == Some(c.id) && r.className == Some(c.name))
    ensures PairOfOneClass(classes, s.classId, s.className) ==>
              var r := ResolveEditClass(s, chosen, classes, now);
              PairOfOneClass(classes, r.classId, r.className)
  {
    var r := ResolveEditClass(s, chosen, classes, now);
    var m := MatchChosen(classes, now, chosen);
    if chosen != s.className && m.Some? {
      var k :| Enrollment.FirstMatchAt(Enrollment.EligibleClasses(classes, now), chosen.value, k)
               && m.value == Enrollment.EligibleClasses(classes, now)[k];
      assert m.value in classes && Enrollment.IsEligible(m.value, now);
    }
  }

  /** The multipart body of `PUT /api/students/:id`. */
  datatype EditRequest = EditRequest(
    name: string,
    dob: string,
    organization: Option<string>,
    email: string,
    phone: string,
    classId: Option<Id>,
    className: Option<string>,
    idType: string,
    idFile: Option<Upload>)

  datatype EditSubmission = EditSubmission(request: EditRequest, warned: bool)

  /** `handleSubmit`: the same date check as enrollment stops an invalid date
      of birth; otherwise the update always proceeds, with the resolved
      class pair and the file only when one was chosen. */
  function SubmitEdit(s: Student, form: EditForm, classes: seq<Class>, now: Instant)
    : (r: Result<EditSubmission, Enrollment.SubmitError>)
    ensures r.Failure? <==> ParseDob(form.dob).None?
    ensures r.Failure? ==> r.error == Enrollment.InvalidDate
    ensures r.Success? ==> ParseIso(r.value.request.dob) == ParseDob(form.dob)
    ensures r.Success? ==>
              var choice := ResolveEditClass(s, form.className, classes, now);
              && r.value.request.classId == choice.classId
              && r.value.request.className == choice.className
              && r.value.warned == choice.warned
    ensures r.Success? ==> r.value.request.idFile == form.file
    ensures r.Success? ==> r.value.request.name == form.name && r.value.request.idType == form.idType
    ensures r.Success? ==> r.value.request.organization == form.organization
                           && r.value.request.email == form.email && r.value.request.phone == form.phone
  {
    match ParseDob(form.dob)
    case None => Failure(Enrollment.InvalidDate)
    case Some(d) =>
      IsoRoundTrip(d);
      var choice := ResolveEditClass(s, form.className, classes, now);
      Success(EditSubmission(
        EditRequest(form.name, FormatIso(d), form.organization, form.email, form.phone,
                    choice.classId, choice.className, form.idType, form.file),
        choice.warned))
  }

  /** Submitting the untouched prefilled form re-sends the student's own
      class pair and date of birth and no file. */
  lemma UntouchedEditResendsStudent(s: Student, classes: seq<Class>, now: Instant)
    requires ValidDate(s.dob) && s.dob.year <= 9999
    ensures var r := SubmitEdit(s, Prefill(s), classes, now);
            && r.Success?
            && r.value.request.classId == s.classId
            && r.value.request.className == s.className
            && ParseIso(r.value.request.dob) == Some(s.dob)
            && r.value.request.idFile.None?
            && !r.value.warned
  {
  }
}
