/** The enrollment form (`EnrollmentForm`): which classes a student may be
    enrolled in, the class-name options offered, the file picker's size
    check, and what submitting the form sends. */
module Enrollment {
  import opened Wrappers
  import opened Calendar
  import opened Records
  import opened DobFormat
  import Seqs
  import Strings

  /** The course names always offered, scheduled or not. */
  const PredefinedClasses: seq<string> := [
    "CCNA", "CISSP", "CISM", "CEH", "CCNP", "COMPTIA SECURITY+",
    "ITIL", "MS PROJECT", "VM WARE", "LINUX", "PMP", "ORACLE",
    "ICDL", "DATA SCIENCE", "ADVANCED EXCEL"]

  // ---------------------------------------------------------------------
  // Eligible classes
  // ---------------------------------------------------------------------

  /** `new Date(c.endDate) >= new Date()`: the class has not ended yet, to
      the millisecond. This is an instant comparison, not a calendar-day one. */
  predicate IsEligible(c: Class, now: Instant) {
    Millis(c.endDate) >= Millis(now)
  }

  function EligibleTest(now: Instant): Class -> bool {
    (c: Class) => IsEligible(c, now)
  }

  /** The classes a student may be linked to, in list order. */
  function EligibleClasses(classes: seq<Class>, now: Instant): (r: seq<Class>)
    ensures forall i :: 0 <= i < |r| ==> r[i] in classes && IsEligible(r[i], now)
    ensures forall i :: 0 <= i < |classes| && IsEligible(classes[i], now) ==> classes[i] in r
  {
    Seqs.Filter(classes, EligibleTest(now))
  }

  /** A class that ended on an earlier calendar day is not eligible; one that
      ends on a later calendar day is. On `now`'s own calendar day the
      instant decides, so a class whose end instant is earlier today is
      refused although the dashboard still counts it as active. */
  lemma EligibilityByDay(c: Class, now: Instant)
    requires ValidInstant(c.endDate) && ValidInstant(now)
    ensures Day(c.endDate) < Day(now) ==> !IsEligible(c, now)
    ensures Day(c.endDate) > Day(now) ==> IsEligible(c, now)
    ensures Day(c.endDate) == Day(now) ==> (IsEligible(c, now) <==> c.endDate.ms >= now.ms)
  {
    InstantDayOrder(c.endDate, now);
    InstantDayOrder(now, c.endDate);
  }

  // ---------------------------------------------------------------------
  // Class-name options
  // ---------------------------------------------------------------------

  function ClassName(c: Class): string {
    c.name
  }

  /** The names fed to the option list: predefined first, then the eligible
      classes' names in list order. */
  function OptionNames(classes: seq<Class>, now: Instant): seq<string> {
    PredefinedClasses + Seqs.Map(EligibleClasses(classes, now), ClassName)
  }

  ghost predicate IsOption(classes: seq<Class>, now: Instant, n: string) {
    n in PredefinedClasses || exists c :: c in classes && IsEligible(c, now) && c.name == n
  }

  lemma OptionNamesMembers(classes: seq<Class>, now: Instant, n: string)
    ensures n in OptionNames(classes, now) <==> IsOption(classes, now, n)
  {
    var eligible := EligibleClasses(classes, now);
    var names := OptionNames(classes, now);
    if exists c :: c in classes && IsEligible(c, now) && c.name == n {
      var c :| c in classes && IsEligible(c, now) && c.name == n;
      var k :| 0 <= k < |classes| && classes[k] == c;
      var j :| 0 <= j < |eligible| && eligible[j] == c;
      assert names[|PredefinedClasses| + j] == n;
    }
    if n in names && n !in PredefinedClasses {
      var i :| 0 <= i < |names| && names[i] == n;
      var c := eligible[i - |PredefinedClasses|];
      assert c in classes && IsEligible(c, now) && c.name == n;
    }
  }

  /** `Array.from(new Set([...predefined, ...eligible names])).sort()`:
      every predefined name and every eligible class's name, each once, in
      increasing string order. */
  function ClassOptions(classes: seq<Class>, now: Instant): (r: seq<string>)
    ensures Strings.StrictlySorted(r)
    ensures forall n :: n in r <==> IsOption(classes, now, n)
  {
    var names := OptionNames(classes, now);
    Strings.DedupeSort(names);
    var r := Strings.Sort(Strings.Dedupe(names));
    assert forall n :: n in r <==> IsOption(classes, now, n) by {
      forall n ensures n in r <==> IsOption(classes, now, n) {
        OptionNamesMembers(classes, now, n);
      }
    }
    r
  }

  // ---------------------------------------------------------------------
  // Resolving the chosen class
  // ---------------------------------------------------------------------

  function NameTest(name: string): Class -> bool {
    (c: Class) => c.name == name
  }

  /** `activeClasses.find(c => c.name === name)`: the first eligible class, in
      list order, with exactly that name. */
  function ResolveClass(classes: seq<Class>, now: Instant, name: string): (r: Option<Class>)
    ensures r.None? <==> forall c :: c in classes && IsEligible(c, now) ==> c.name != name
    ensures r.Some? ==> exists k :: FirstMatchAt(EligibleClasses(classes, now), name, k)
                                    && r.value == EligibleClasses(classes, now)[k]
  {
    var eligible := EligibleClasses(classes, now);
    match Seqs.FindFirst(eligible, NameTest(name))
    case None =>
      assert forall c :: c in classes && IsEligible(c, now) ==> c.name != name by {
        forall c | c in classes && IsEligible(c, now) ensures c.name != name {
          var k :| 0 <= k < |classes| && classes[k] == c;
          var j :| 0 <= j < |eligible| && eligible[j] == c;
        }
      }
      None
    case Some(k) =>
      assert FirstMatchAt(eligible, name, k);
      Some(eligible[k])
  }

  /** Position `k` holds the first class named `name`. */
  predicate FirstMatchAt(s: seq<Class>, name: string, k: int) {
    && 0 <= k < |s|
    && s[k].name == name
    && forall j :: 0 <= j < k ==> s[j].name != name
  }

  // ---------------------------------------------------------------------
  // File picker
  // ---------------------------------------------------------------------

  /** The file input's change handler: no pick keeps the current file; a
      pick over 10 MB clears it; any other pick replaces it. */
  function PickFile(current: Option<Upload>, picked: Option<Upload>): (r: Option<Upload>)
    ensures picked.None? ==> r == current
    ensures picked.Some? && picked.value.size > MaxUploadBytes ==> r.None?
    ensures picked.Some? && picked.value.size <= MaxUploadBytes ==> r == picked
  {
    match picked
    case None => current
    case Some(f) => if f.size > MaxUploadBytes then None else Some(f)
  }

  /** The form never holds a file over the limit, whatever is picked. */
  lemma {:induction false} PickedFileWithinLimit(current: Option<Upload>, picks: seq<Option<Upload>>)
    requires current.Some? ==> current.value.size <= MaxUploadBytes
    ensures var f := PickAll(current, picks); f.Some? ==> f.value.size <= MaxUploadBytes
    decreases |picks|
  {
    if |picks| > 0 {
      PickedFileWithinLimit(PickFile(current, picks[0]), picks[1..]);
    }
  }

  function PickAll(current: Option<Upload>, picks: seq<Option<Upload>>): Option<Upload>
    decreases |picks|
  {
    if |picks| == 0 then current else PickAll(PickFile(current, picks[0]), picks[1..])
  }

  // ---------------------------------------------------------------------
  // Submitting
  // ---------------------------------------------------------------------

  datatype EnrollForm = EnrollForm(
    name: string,
    dob: string,
    organization: string,
    email: string,
    phone: string,
    className: string,
    classId: string,
    idType: string,
    file: Option<Upload>)

  /** The multipart body of `POST /api/students`. */
  datatype EnrollRequest = EnrollRequest(
    id: Id,
    name: string,
    dob: string,
    organization: string,
    email: string,
    phone: string,
    classId: Id,
    className: string,
    idType: string,
    idFile: Option<Upload>)

  datatype SubmitError = InvalidDate | IneligibleClass

  /** `handleSubmit`: a date of birth that is not a ten-character `dd/MM/yyyy`
      calendar date stops with a date error; a class name that no eligible
      class carries stops with an error; otherwise the request carries the
      new id, the first eligible class with that name (its id and its name
      together), the date re-written as `yyyy-MM-dd`, and the picked file if
      there is one. */
  function SubmitEnrollment(form: EnrollForm, classes: seq<Class>, now: Instant, newId: Id)
    : (r: Result<EnrollRequest, SubmitError>)
    ensures r == Failure(InvalidDate) <==> ParseDob(form.dob).None?
    ensures r == Failure(IneligibleClass) <==>
              ParseDob(form.dob).Some? &&
              forall c :: c in classes && IsEligible(c, now) ==> c.name != form.className
    ensures r.Success? ==>
              exists k :: FirstMatchAt(EligibleClasses(classes, now), form.className, k)
                && r.value.classId == EligibleClasses(classes, now)[k].id
                && r.value.className == EligibleClasses(classes, now)[k].name
    ensures r.Success? ==> ParseDob(form.dob).Some?
                           && ParseIso(r.value.dob) == ParseDob(form.dob)
    ensures r.Success? ==> r.value.id == newId && r.value.idFile == form.file
                           && r.value.name == form.name && r.value.idType == form.idType
    ensures r.Success? ==> r.value.organization == form.organization && r.value.email == form.email
                           && r.value.phone == form.phone
  {
    match ParseDob(form.dob)
    case None => Failure(InvalidDate)
    case Some(d) =>
      match ResolveClass(classes, now, form.className)
      case None => Failure(IneligibleClass)
      case Some(c) =>
        IsoRoundTrip(d);
        Success(EnrollRequest(newId, form.name, FormatIso(d), form.organization, form.email,
                              form.phone, c.id, c.name, form.idType, form.file))
  }
}
