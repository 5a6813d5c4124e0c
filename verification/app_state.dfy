/** The client's shared state (`AppProvider`): the local list operations on
    classes and students, the row mapping done after each fetch, and the
    dashboard statistics. The current instant is a parameter. */
module AppState {
  import opened Wrappers
  import opened Calendar
  import opened Records
  import Seqs

  // ---------------------------------------------------------------------
  // Local edits of the class list
  // ---------------------------------------------------------------------

  /** The fields an `updates` object may carry; absent fields are left as
      they are by the spread `{ ...c, ...updates }`. */
  datatype ClassPatch = ClassPatch(
    id: Option<Id>,
    name: Option<string>,
    startDate: Option<Instant>,
    endDate: Option<Instant>,
    schedule: Option<Option<string>>,
    status: Option<Option<string>>,
    price: Option<Option<int>>,
    createdAt: Option<Instant>,
    certificatesIssued: Option<bool>,
    trainers: Option<Option<seq<string>>>)

  /** The patch `{ trainers: list }` sent by the trainer editor. */
  function TrainersPatch(list: seq<string>): ClassPatch {
    ClassPatch(None, None, None, None, None, None, None, None, None, Some(Some(list)))
  }

  /** `{ ...c, ...updates }`: every field the patch carries replaces the
      class's own, every other field is kept. */
  function Merge(c: Class, p: ClassPatch): (r: Class)
    ensures r.id == p.id.GetOr(c.id)
    ensures r.name == p.name.GetOr(c.name)
    ensures r.startDate == p.startDate.GetOr(c.startDate)
    ensures r.endDate == p.endDate.GetOr(c.endDate)
    ensures r.schedule == p.schedule.GetOr(c.schedule)
    ensures r.status == p.status.GetOr(c.status)
    ensures r.price == p.price.GetOr(c.price)
    ensures r.createdAt == p.createdAt.GetOr(c.createdAt)
    ensures r.certificatesIssued == p.certificatesIssued.GetOr(c.certificatesIssued)
    ensures r.trainers == p.trainers.GetOr(c.trainers)
  {
    Class(
      p.id.GetOr(c.id), p.name.GetOr(c.name), p.startDate.GetOr(c.startDate),
      p.endDate.GetOr(c.endDate), p.schedule.GetOr(c.schedule), p.status.GetOr(c.status),
      p.price.GetOr(c.price), p.createdAt.GetOr(c.createdAt),
      p.certificatesIssued.GetOr(c.certificatesIssued), p.trainers.GetOr(c.trainers))
  }

  /** `updateClass(classId, updates)`, applied to the local list only: every
      class with that id is merged with the patch; every other class, the
      length and the order are untouched. */
  function UpdateClass(classes: seq<Class>, classId: Id, p: ClassPatch): (r: seq<Class>)
    ensures |r| == |classes|
    ensures forall i :: 0 <= i < |classes| && classes[i].id == classId ==> r[i] == Merge(classes[i], p)
    ensures forall i :: 0 <= i < |classes| && classes[i].id != classId ==> r[i] == classes[i]
  {
    Seqs.Map(classes, (c: Class) => if c.id == classId then Merge(c, p) else c)
  }

  /** Applying the same patch twice is the same as applying it once, as long
      as the patch does not move the class to another id. */
  lemma UpdateClassIdempotent(classes: seq<Class>, classId: Id, p: ClassPatch)
    requires p.id.None? || p.id == Some(classId)
    ensures UpdateClass(UpdateClass(classes, classId, p), classId, p) == UpdateClass(classes, classId, p)
  {
    var once := UpdateClass(classes, classId, p);
    var twice := UpdateClass(once, classId, p);
    forall i | 0 <= i < |classes| ensures twice[i] == once[i] {
      if classes[i].id == classId {
        assert once[i].id == classId;
      }
    }
  }

  /** `toggleCertificateIssued(classId)`, applied to the local list only. */
  function ToggleCertificateIssued(classes: seq<Class>, classId: Id): (r: seq<Class>)
    ensures |r| == |classes|
    ensures forall i :: 0 <= i < |classes| && classes[i].id == classId ==>
              r[i] == classes[i].(certificatesIssued := !classes[i].certificatesIssued)
    ensures forall i :: 0 <= i < |classes| && classes[i].id != classId ==> r[i] == classes[i]
  {
    Seqs.Map(classes, (c: Class) =>
      if c.id == classId then c.(certificatesIssued := !c.certificatesIssued) else c)
  }

  /** Toggling twice restores the original list. */
  lemma ToggleTwice(classes: seq<Class>, classId: Id)
    ensures ToggleCertificateIssued(ToggleCertificateIssued(classes, classId), classId) == classes
  {
    var once := ToggleCertificateIssued(classes, classId);
    var twice := ToggleCertificateIssued(once, classId);
    assert forall i :: 0 <= i < |classes| ==> twice[i] == classes[i];
  }

  // ---------------------------------------------------------------------
  // Deletes
  // ---------------------------------------------------------------------

  /** Keeps the records whose id is not the given one. */
  function OtherClassTest(classId: Id): Class -> bool {
    (c: Class) => c.id != classId
  }

  function StudentIdTest(studentId: Id): Student -> bool {
    (s: Student) => s.id != studentId
  }

  /** `deleteClass` / `deleteStudent` after the request: on a successful
      response the records with that id are filtered out; on any other
      response the list is left alone. */
  function DeleteClassLocal(classes: seq<Class>, classId: Id, responseOk: bool): (r: seq<Class>)
    ensures !responseOk ==> r == classes
    ensures responseOk ==> forall i :: 0 <= i < |r| ==> r[i].id != classId && r[i] in classes
    ensures responseOk ==> forall i :: 0 <= i < |classes| && classes[i].id != classId ==> classes[i] in r
  {
    if responseOk then Seqs.Filter(classes, OtherClassTest(classId)) else classes
  }

  function DeleteStudentLocal(students: seq<Student>, studentId: Id, responseOk: bool): (r: seq<Student>)
    ensures !responseOk ==> r == students
    ensures responseOk ==> forall i :: 0 <= i < |r| ==> r[i].id != studentId && r[i] in students
    ensures responseOk ==> forall i :: 0 <= i < |students| && students[i].id != studentId ==> students[i] in r
  {
    if responseOk then Seqs.Filter(students, StudentIdTest(studentId)) else students
  }

  /** A delete preserves the relative order of what it keeps: deleting from a
      concatenation deletes from each part. */
  lemma DeleteStudentKeepsOrder(a: seq<Student>, b: seq<Student>, studentId: Id)
    ensures DeleteStudentLocal(a + b, studentId, true)
            == DeleteStudentLocal(a, studentId, true) + DeleteStudentLocal(b, studentId, true)
  {
    Seqs.FilterAppend(a, b, StudentIdTest(studentId));
  }

  lemma DeleteClassKeepsOrder(a: seq<Class>, b: seq<Class>, classId: Id)
    ensures DeleteClassLocal(a + b, classId, true)
            == DeleteClassLocal(a, classId, true) + DeleteClassLocal(b, classId, true)
  {
    Seqs.FilterAppend(a, b, OtherClassTest(classId));
  }

  /** Deleting an id that is not in the list changes nothing. */
  lemma DeleteAbsentStudent(students: seq<Student>, studentId: Id)
    requires forall i :: 0 <= i < |students| ==> students[i].id != studentId
    ensures DeleteStudentLocal(students, studentId, true) == students
  {
    Seqs.FilterAll(students, StudentIdTest(studentId));
  }

  // ---------------------------------------------------------------------
  // Row mapping after a fetch
  // ---------------------------------------------------------------------

  /** The client's view of a stored identity document. */
  datatype FileRef = FileRef(name: Option<string>, path: string)

  /** `file: s.id_file_path ? { name: s.id_file_name, path: s.id_file_path } : null`. */
  function ClientFile(s: Student): (r: Option<FileRef>)
    ensures r.Some? <==> Truthy(s.idFilePath)
    ensures r.Some? ==> r.value.path == s.idFilePath.value && r.value.name == s.idFileName
  {
    if Truthy(s.idFilePath) then Some(FileRef(s.idFileName, s.idFilePath.value)) else None
  }

  // ---------------------------------------------------------------------
  // Dashboard statistics
  // ---------------------------------------------------------------------

  datatype Stats = Stats(
    totalClasses: int,
    futureClasses: int,
    endedClasses: int,
    activeClasses: int,
    totalStudents: int)

  /** Starts on a later calendar day than `now`. */
  predicate IsFuture(c: Class, now: Instant) {
    CalendarDaysBetween(c.startDate, now) > 0
  }

  /** Ended on an earlier calendar day than `now`. */
  predicate IsEnded(c: Class, now: Instant) {
    CalendarDaysBetween(c.endDate, now) < 0
  }

  /** Neither future nor ended: running on `now`'s calendar day. */
  predicate IsActive(c: Class, now: Instant) {
    !IsFuture(c, now) && !IsEnded(c, now)
  }

  /** The class's start day is not after its end day. Nothing in the
      application enforces this. */
  predicate StartsBeforeEnd(c: Class) {
    Day(c.startDate) <= Day(c.endDate)
  }

  function FutureTest(now: Instant): Class -> bool {
    (c: Class) => IsFuture(c, now)
  }

  function EndedTest(now: Instant): Class -> bool {
    (c: Class) => IsEnded(c, now)
  }

  function ActiveTest(now: Instant): Class -> bool {
    (c: Class) => IsActive(c, now)
  }

  ghost function FutureIndices(classes: seq<Class>, now: Instant): set<nat> {
    set i: nat | i < |classes| && IsFuture(classes[i], now)
  }

  ghost function EndedIndices(classes: seq<Class>, now: Instant): set<nat> {
    set i: nat | i < |classes| && IsEnded(classes[i], now)
  }

  ghost function ActiveIndices(classes: seq<Class>, now: Instant): set<nat> {
    set i: nat | i < |classes| && IsActive(classes[i], now)
  }

  lemma CountByTest(classes: seq<Class>, t: Class -> bool, indices: set<nat>)
    requires indices == set i: nat | i < |classes| && t(classes[i])
    ensures |Seqs.Filter(classes, t)| == |indices|
  {
    Seqs.FilterCount(classes, t);
    assert indices == Seqs.IndexSet(classes, t);
  }

  /** `getStats()`: the future and ended counts are the numbers of classes
      starting after, and ending before, today's calendar day; the active
      count is what remains of the total, so the three always add up to
      the total. When every class starts no later than it ends, the active
      count is exactly the number of classes running today, and so is never
      negative. */
  function GetStats(classes: seq<Class>, students: seq<Student>, now: Instant): (r: Stats)
    ensures r.totalClasses == |classes| && r.totalStudents == |students|
    ensures r.futureClasses == |FutureIndices(classes, now)|
    ensures r.endedClasses == |EndedIndices(classes, now)|
    ensures r.futureClasses + r.endedClasses + r.activeClasses == r.totalClasses
    ensures (forall i :: 0 <= i < |classes| ==> StartsBeforeEnd(classes[i])) ==>
              r.activeClasses == |ActiveIndices(classes, now)| && r.activeClasses >= 0
  {
    var future := |Seqs.Filter(classes, FutureTest(now))|;
    var ended := |Seqs.Filter(classes, EndedTest(now))|;
    CountByTest(classes, FutureTest(now), FutureIndices(classes, now));
    CountByTest(classes, EndedTest(now), EndedIndices(classes, now));
    ActiveCount(classes, now);
    Stats(|classes|, future, ended, |classes| - future - ended, |students|)
  }

  lemma ActiveCount(classes: seq<Class>, now: Instant)
    ensures (forall i :: 0 <= i < |classes| ==> StartsBeforeEnd(classes[i])) ==>
      |classes| - |Seqs.Filter(classes, FutureTest(now))| - |Seqs.Filter(classes, EndedTest(now))|
        == |ActiveIndices(classes, now)|
  {
    if forall i :: 0 <= i < |classes| ==> StartsBeforeEnd(classes[i]) {
      Seqs.FilterPartition(classes, FutureTest(now), EndedTest(now), ActiveTest(now));
      CountByTest(classes, ActiveTest(now), ActiveIndices(classes, now));
    }
  }

  /** A class that starts and ends today is counted as active. */
  lemma TodayIsActive(c: Class, now: Instant)
    requires Day(c.startDate) == Day(now) && Day(c.endDate) == Day(now)
    ensures GetStats([c], [], now) == Stats(1, 0, 0, 1, 0)
  {
    assert FutureIndices([c], now) == {};
    assert EndedIndices([c], now) == {};
  }

  /** Without the start-before-end ordering a class can be counted both as
      future and as ended, and the active count goes negative. */
  lemma InvertedClassMakesActiveNegative(c: Class, now: Instant)
    requires Day(c.startDate) > Day(now) > Day(c.endDate)
    ensures GetStats([c], [], now).activeClasses == -1
  {
    assert FutureIndices([c], now) == {0};
    assert EndedIndices([c], now) == {0};
  }
}
