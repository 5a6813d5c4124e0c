/** The API server over its two tables: the schema's keys, foreign key,
    defaults and NOT NULL columns as a store invariant, the student routes
    (create with an optional upload, update, delete), the update
    statement's placeholder numbering, the two listings, and which routes
    exist. The uploads directory is the set `files` of stored names. */
module Server {
  import opened Wrappers
  import opened Calendar
  import opened Records
  import opened UploadName
  import Seqs
  import AppState

  // ---------------------------------------------------------------------
  // Store and invariant
  // ---------------------------------------------------------------------

  datatype Db = Db(classes: seq<Class>, students: seq<Student>, files: set<string>)

  predicate HasClass(classes: seq<Class>, id: Id) {
    exists i :: 0 <= i < |classes| && classes[i].id == id
  }

  predicate HasStudent(students: seq<Student>, id: Id) {
    exists i :: 0 <= i < |students| && students[i].id == id
  }

  /** `classes.id` is the primary key. */
  ghost predicate ClassKeys(classes: seq<Class>) {
    forall i, j :: 0 <= i < j < |classes| ==> classes[i].id != classes[j].id
  }

  /** `students.id` is the primary key. */
  ghost predicate StudentKeys(students: seq<Student>) {
    forall i, j :: 0 <= i < j < |students| ==> students[i].id != students[j].id
  }

  /** `students.class_id` is NULL or names an existing class. */
  ghost predicate ClassRefs(db: Db) {
    forall i :: 0 <= i < |db.students| && db.students[i].classId.Some? ==>
      HasClass(db.classes, db.students[i].classId.value)
  }

  /** The two file columns are written together, so they are both set or
      both NULL, and a set path names a stored file. */
  ghost predicate FileColumns(db: Db) {
    forall i :: 0 <= i < |db.students| ==>
      && (db.students[i].idFilePath.Some? <==> db.students[i].idFileName.Some?)
      && (db.students[i].idFilePath.Some? ==> db.students[i].idFilePath.value in db.files)
  }

  /** Every stored name is generated afresh, so no two rows share one. */
  ghost predicate DistinctPaths(students: seq<Student>) {
    forall i, j :: 0 <= i < j < |students| && students[i].idFilePath.Some? ==>
      students[i].idFilePath != students[j].idFilePath
  }

  ghost predicate Valid(db: Db) {
    && ClassKeys(db.classes) && StudentKeys(db.students) && ClassRefs(db) && FileColumns(db)
    && DistinctPaths(db.students)
  }

  /** The stored name multer generates is not already in the directory:
      the timestamp-and-random prefix is taken to be unique. It is also a
      name the directory accepted, so it has at most 255 characters. */
  predicate FreshUpload(files: set<string>, upload: Option<Upload>, prefix: string) {
    upload.Some? ==> && StoredName(prefix, upload.value.originalName) !in files
                     && |StoredName(prefix, upload.value.originalName)| <= 255
  }

  // ---------------------------------------------------------------------
  // Column widths
  // ---------------------------------------------------------------------

  /** Assignment to a VARCHAR(n) column accepts a text exactly when every
      character past the n-th is a space. */
  predicate FitsWidth(v: string, n: nat) {
    forall i :: n <= i < |v| ==> v[i] == ' '
  }

  predicate FitsOpt(o: Option<string>, n: nat) {
    o.Some? ==> FitsWidth(o.value, n)
  }

  /** The text a VARCHAR(n) column stores: the trailing spaces past the
      n-th character are cut off. */
  function Clip(v: string, n: nat): (r: string)
    requires FitsWidth(v, n)
    ensures |r| <= n && r <= v
    ensures |v| <= n ==> r == v
  {
    if |v| <= n then v else v[..n]
  }

  /** Only spaces are cut. */
  lemma ClipCutsSpaces(v: string, n: nat)
    requires FitsWidth(v, n)
    ensures v == Clip(v, n) + Spaces(|v| - |Clip(v, n)|)
  {
  }

  function ClipOpt(o: Option<string>, n: nat): (r: Option<string>)
    requires FitsOpt(o, n)
    ensures r.None? <==> o.None?
    ensures Within(r, n)
    ensures Within(o, n) ==> r == o
  {
    if o.Some? then Some(Clip(o.value, n)) else None
  }

  function Spaces(k: nat): (r: string)
    ensures |r| == k && forall i :: 0 <= i < k ==> r[i] == ' '
  {
    seq(k, _ => ' ')
  }

  /** A text fits exactly when it is at most n characters followed by
      nothing but spaces. */
  lemma {:induction false} FitsIffPaddedPrefix(v: string, n: nat)
    ensures FitsWidth(v, n) <==> exists w, k :: |w| <= n && v == w + Spaces(k)
  {
    if FitsWidth(v, n) {
      ClipCutsSpaces(v, n);
    }
    if exists w, k :: |w| <= n && v == w + Spaces(k) {
      var w, k :| |w| <= n && v == w + Spaces(k);
      forall i | n <= i < |v| ensures v[i] == ' ' {
        assert v[i] == Spaces(k)[i - |w|];
      }
    }
  }

  predicate Within(o: Option<string>, n: nat) {
    o.Some? ==> |o.value| <= n
  }

  /** DECIMAL(10, 2) holds ten digits, two of them after the point: in
      hundredths, fewer than ten digits' worth. */
  predicate PriceFits(price: Option<int>) {
    price.Some? ==> -10_000_000_000 < price.value < 10_000_000_000
  }

  /** `name` VARCHAR(255), `schedule` VARCHAR(255), `status` VARCHAR(50). */
  predicate ClassFits(input: ClassInput) {
    FitsOpt(input.name, 255) && FitsOpt(input.schedule, 255) && FitsOpt(input.status, 50)
  }

  /** `name`, `organization`, `email` and `class_name` VARCHAR(255), `phone`
      and `id_type` VARCHAR(50); with an upload also `id_file_path`
      VARCHAR(500) and `id_file_name` VARCHAR(255). */
  predicate StudentFits(input: StudentInput, upload: Option<Upload>, prefix: string) {
    && FitsOpt(input.name, 255) && FitsOpt(input.organization, 255) && FitsOpt(input.email, 255)
    && FitsOpt(input.phone, 50) && FitsOpt(input.className, 255) && FitsOpt(input.idType, 50)
    && (upload.Some? ==> FitsWidth(StoredName(prefix, upload.value.originalName), 500)
                         && FitsWidth(upload.value.originalName, 255))
  }

  predicate ClassWithin(c: Class) {
    |c.name| <= 255 && Within(c.schedule, 255) && Within(c.status, 50) && PriceFits(c.price)
  }

  predicate StudentWithin(s: Student) {
    && |s.name| <= 255 && Within(s.organization, 255) && Within(s.email, 255)
    && Within(s.phone, 50) && Within(s.className, 255) && Within(s.idType, 50)
    && Within(s.idFilePath, 500) && Within(s.idFileName, 255)
  }

  ghost predicate ClassesWithin(classes: seq<Class>) {
    forall i :: 0 <= i < |classes| ==> ClassWithin(classes[i])
  }

  /** No stored value is wider than its column. */
  ghost predicate Widths(db: Db) {
    && ClassesWithin(db.classes)
    && forall i :: 0 <= i < |db.students| ==> StudentWithin(db.students[i])
  }

  /** Why a statement or an upload is refused. */
  datatype DbError =
    | ValueTooLong
    | NumericOverflow
    | NotNullViolation
    | DuplicateKey
    | ForeignKeyViolation
    | NotFound
    | FileTooLarge

  /** What a route leaves behind: the store, and its answer. */
  datatype Reply<R> = Reply(db: Db, result: Result<R, DbError>)

  /** The status a failed route answers with: 404 for an unknown student on
      update, 500 for everything else the handlers catch or multer raises. */
  function StatusCode(e: DbError): (code: int)
    ensures code == 404 <==> e == NotFound
    ensures code != 404 ==> code == 500
  {
    if e == NotFound then 404 else 500
  }

  // ---------------------------------------------------------------------
  // Classes
  // ---------------------------------------------------------------------

  /** The JSON body of `POST /api/classes`; a missing field is NULL. */
  datatype ClassInput = ClassInput(
    id: Option<Id>,
    name: Option<string>,
    startDate: Instant,
    endDate: Instant,
    schedule: Option<string>,
    status: Option<string>,
    price: Option<int>,
    trainers: Option<seq<string>>)

  /** `INSERT INTO classes ... RETURNING *`. The bound values are fitted to
      their column types while the statement is planned, so a text too wide
      for its VARCHAR column, and then a price too large for DECIMAL(10, 2),
      is refused first. Then a missing id or name violates NOT NULL, an
      existing id the primary key; otherwise the row is added with the
      texts cut to their widths, `created_at` the insertion instant and no
      certificates issued. */
  function CreateClass(db: Db, input: ClassInput, now: Instant): (r: Reply<Class>)
    ensures r.result == Failure(ValueTooLong) <==> !ClassFits(input)
    ensures r.result == Failure(NumericOverflow) <==> ClassFits(input) && !PriceFits(input.price)
    ensures r.result == Failure(NotNullViolation) <==>
              ClassFits(input) && PriceFits(input.price) && (input.id.None? || input.name.None?)
    ensures r.result == Failure(DuplicateKey) <==>
              && ClassFits(input) && PriceFits(input.price)
              && input.id.Some? && input.name.Some? && HasClass(db.classes, input.id.value)
    ensures r.result.Failure? ==> r.db == db
    ensures r.result.Success? ==>
              var c := r.result.value;
              && r.db == db.(classes := db.classes + [c])
              && ClassFits(input) && ClassWithin(c)
              && Some(c.id) == input.id && Some(c.name) == ClipOpt(input.name, 255)
              && c.startDate == input.startDate && c.endDate == input.endDate
              && c.schedule == ClipOpt(input.schedule, 255) && c.status == ClipOpt(input.status, 50)
              && c.price == input.price && c.trainers == input.trainers
              && c.createdAt == now && !c.certificatesIssued
  {
    if !ClassFits(input) then Reply(db, Failure(ValueTooLong))
    else if !PriceFits(input.price) then Reply(db, Failure(NumericOverflow))
    else if input.id.None? || input.name.None? then Reply(db, Failure(NotNullViolation))
    else if HasClass(db.classes, input.id.value) then Reply(db, Failure(DuplicateKey))
    else
      var c := Class(input.id.value, Clip(input.name.value, 255), input.startDate, input.endDate,
                     ClipOpt(input.schedule, 255), ClipOpt(input.status, 50), input.price, now, false,
                     input.trainers);
      Reply(db.(classes := db.classes + [c]), Success(c))
  }

  lemma CreateClassKeepsValid(db: Db, input: ClassInput, now: Instant)
    requires Valid(db)
    ensures Valid(CreateClass(db, input, now).db)
  {
    var r := CreateClass(db, input, now);
    if r.result.Success? {
      var cs := r.db.classes;
      forall i | 0 <= i < |db.students| && db.students[i].classId.Some?
        ensures HasClass(cs, db.students[i].classId.value)
      {
        var k :| 0 <= k < |db.classes| && db.classes[k].id == db.students[i].classId.value;
        assert cs[k] == db.classes[k];
      }
    }
  }

  lemma CreateClassKeepsWidths(db: Db, input: ClassInput, now: Instant)
    requires Widths(db)
    ensures Widths(CreateClass(db, input, now).db)
  {
    var r := CreateClass(db, input, now);
    if r.result.Success? {
      var cs := r.db.classes;
      forall i | 0 <= i < |cs| ensures ClassWithin(cs[i]) {
        if i < |db.classes| {
          assert cs[i] == db.classes[i];
        }
      }
    }
  }

  /** The database's rule for removing a class row: with no `ON DELETE`
      action on `students.class_id`, a class some student still references
      cannot go. No route issues this statement. */
  function DeleteClassRow(db: Db, id: Id): (r: Reply<()>)
    ensures r.result.Failure? <==>
              exists i :: 0 <= i < |db.students| && db.students[i].classId == Some(id)
    ensures r.result.Failure? ==> r.db == db && r.result.error == ForeignKeyViolation
    ensures r.result.Success? ==> !HasClass(r.db.classes, id) && r.db.students == db.students
  {
    if exists i :: 0 <= i < |db.students| && db.students[i].classId == Some(id) then
      Reply(db, Failure(ForeignKeyViolation))
    else
      Reply(db.(classes := Seqs.Filter(db.classes, AppState.OtherClassTest(id))), Success(()))
  }

  lemma DeleteClassRowKeepsValid(db: Db, id: Id)
    requires Valid(db)
    ensures Valid(DeleteClassRow(db, id).db)
  {
    var r := DeleteClassRow(db, id);
    if r.result.Success? {
      var cs := r.db.classes;
      assert cs == Seqs.Filter(db.classes, AppState.OtherClassTest(id));
      Seqs.FilterKeysDistinct(db.classes, ClassKey, AppState.OtherClassTest(id));
      forall i, j | 0 <= i < j < |cs| ensures cs[i].id != cs[j].id {
        assert ClassKey(cs[i]) != ClassKey(cs[j]);
      }
      forall i | 0 <= i < |db.students| && db.students[i].classId.Some?
        ensures HasClass(cs, db.students[i].classId.value)
      {
        var k :| 0 <= k < |db.classes| && db.classes[k].id == db.students[i].classId.value;
        assert db.classes[k].id != id;
        assert db.classes[k] in cs;
      }
    }
  }

  lemma DeleteClassRowKeepsWidths(db: Db, id: Id)
    requires Widths(db)
    ensures Widths(DeleteClassRow(db, id).db)
  {
    var cs := DeleteClassRow(db, id).db.classes;
    forall i | 0 <= i < |cs| ensures ClassWithin(cs[i]) {
      var a :| 0 <= a < |db.classes| && db.classes[a] == cs[i];
    }
  }

  function ClassKey(c: Class): Id {
    c.id
  }

  // ---------------------------------------------------------------------
  // Students
  // ---------------------------------------------------------------------

  /** The multipart fields of `POST` and `PUT /api/students`; a missing
      field is NULL, and the date is the one the `yyyy-MM-dd` text denotes. */
  datatype StudentInput = StudentInput(
    name: Option<string>,
    dob: Option<Date>,
    organization: Option<string>,
    email: Option<string>,
    phone: Option<string>,
    classId: Option<Id>,
    className: Option<string>,
    idType: Option<string>)

  /** The row holds the form's columns, each text cut to its column's width,
      and the upload's stored and original names when a file came. */
  predicate TakesForm(s: Student, input: StudentInput, upload: Option<Upload>, prefix: string)
    requires StudentFits(input, upload, prefix)
  {
    && Some(s.name) == ClipOpt(input.name, 255) && Some(s.dob) == input.dob
    && s.organization == ClipOpt(input.organization, 255) && s.email == ClipOpt(input.email, 255)
    && s.phone == ClipOpt(input.phone, 50) && s.classId == input.classId
    && s.className == ClipOpt(input.className, 255) && s.idType == ClipOpt(input.idType, 50)
    && (upload.Some? ==> && s.idFilePath == Some(Clip(StoredName(prefix, upload.value.originalName), 500))
                         && s.idFileName == Some(Clip(upload.value.originalName, 255)))
  }

  /** multer's 10 MB limit. */
  predicate TooLarge(upload: Option<Upload>) {
    upload.Some? && upload.value.size > MaxUploadBytes
  }

  /** The uploads directory after multer has written the file, before the
      handler runs. */
  function StoreUpload(files: set<string>, upload: Option<Upload>, prefix: string): (r: set<string>)
    ensures upload.None? ==> r == files
    ensures upload.Some? ==> r == files + {StoredName(prefix, upload.value.originalName)}
  {
    if upload.Some? then files + {StoredName(prefix, upload.value.originalName)} else files
  }

  /** `POST /api/students`. An upload over the limit is refused before the
      handler runs, and nothing is written. Otherwise the file is stored
      first; then a text too wide for its column is refused while the
      statement is planned, a missing id, name or date of birth violates
      NOT NULL, an existing id the primary key, and an unknown class id the
      foreign key, each leaving the stored file behind. A new row holds the
      texts cut to their widths, takes both file columns from the upload or
      leaves both NULL, and is stamped with `now`. */
  function CreateStudent(db: Db, id: Option<Id>, input: StudentInput, upload: Option<Upload>,
                         prefix: string, now: Instant): (r: Reply<Student>)
    ensures TooLarge(upload) ==> r == Reply(db, Failure(FileTooLarge))
    ensures !TooLarge(upload) ==> r.db.files == StoreUpload(db.files, upload, prefix)
    ensures r.result == Failure(ValueTooLong) <==> !TooLarge(upload) && !StudentFits(input, upload, prefix)
    ensures !TooLarge(upload) && StudentFits(input, upload, prefix) ==>
              (r.result == Failure(NotNullViolation) <==> id.None? || input.name.None? || input.dob.None?)
    ensures r.result == Failure(DuplicateKey) <==>
              && !TooLarge(upload) && StudentFits(input, upload, prefix)
              && id.Some? && input.name.Some? && input.dob.Some?
              && HasStudent(db.students, id.value)
    ensures r.result == Failure(ForeignKeyViolation) <==>
              && !TooLarge(upload) && StudentFits(input, upload, prefix)
              && id.Some? && input.name.Some? && input.dob.Some?
              && !HasStudent(db.students, id.value)
              && input.classId.Some? && !HasClass(db.classes, input.classId.value)
    ensures r.result.Failure? ==> r.db.classes == db.classes && r.db.students == db.students
    ensures r.result.Success? ==>
              var s := r.result.value;
              && r.db.classes == db.classes && r.db.students == db.students + [s]
              && StudentFits(input, upload, prefix) && StudentWithin(s)
              && Some(s.id) == id && TakesForm(s, input, upload, prefix)
              && (upload.None? ==> s.idFilePath.None? && s.idFileName.None?)
              && s.enrollmentDate == now
  {
    if TooLarge(upload) then Reply(db, Failure(FileTooLarge))
    else
      var stored := db.(files := StoreUpload(db.files, upload, prefix));
      if !StudentFits(input, upload, prefix) then Reply(stored, Failure(ValueTooLong))
      else if id.None? || input.name.None? || input.dob.None? then Reply(stored, Failure(NotNullViolation))
      else if HasStudent(db.students, id.value) then Reply(stored, Failure(DuplicateKey))
      else if input.classId.Some? && !HasClass(db.classes, input.classId.value) then
        Reply(stored, Failure(ForeignKeyViolation))
      else
        var s := Student(id.value, Clip(input.name.value, 255), input.dob.value,
                         ClipOpt(input.organization, 255), ClipOpt(input.email, 255), ClipOpt(input.phone, 50),
                         input.classId, ClipOpt(input.className, 255), ClipOpt(input.idType, 50),
                         if upload.Some? then Some(Clip(StoredName(prefix, upload.value.originalName), 500)) else None,
                         if upload.Some? then Some(Clip(upload.value.originalName, 255)) else None,
                         now);
        Reply(stored.(students := db.students + [s]), Success(s))
  }

  lemma CreateStudentKeepsValid(db: Db, id: Option<Id>, input: StudentInput, upload: Option<Upload>,
                                prefix: string, now: Instant)
    requires Valid(db) && FreshUpload(db.files, upload, prefix)
    ensures Valid(CreateStudent(db, id, input, upload, prefix, now).db)
  {
    var r := CreateStudent(db, id, input, upload, prefix, now);
    if !TooLarge(upload) {
      var stored := db.(files := StoreUpload(db.files, upload, prefix));
      MoreFilesKeepValid(db, stored.files);
      if r.result.Success? {
        var s := r.result.value;
        assert r.db == stored.(students := stored.students + [s]);
        AppendStudentKeepsValid(stored, s);
      } else {
        assert r.db == stored;
      }
    }
  }

  lemma CreateStudentKeepsWidths(db: Db, id: Option<Id>, input: StudentInput, upload: Option<Upload>,
                                 prefix: string, now: Instant)
    requires Widths(db)
    ensures Widths(CreateStudent(db, id, input, upload, prefix, now).db)
  {
    var r := CreateStudent(db, id, input, upload, prefix, now);
    if r.result.Success? {
      var rows := r.db.students;
      forall i | 0 <= i < |rows| ensures StudentWithin(rows[i]) {
        if i < |db.students| {
          assert rows[i] == db.students[i];
        }
      }
    }
  }

  /** Files added to the directory break nothing. */
  lemma MoreFilesKeepValid(db: Db, files: set<string>)
    requires Valid(db) && db.files <= files
    ensures Valid(db.(files := files))
  {
  }

  /** A new row with a fresh id, an existing class or none, paired file
      columns and a stored file of its own keeps the store valid. */
  lemma AppendStudentKeepsValid(db: Db, s: Student)
    requires Valid(db)
    requires !HasStudent(db.students, s.id)
    requires s.classId.Some? ==> HasClass(db.classes, s.classId.value)
    requires s.idFilePath.Some? <==> s.idFileName.Some?
    requires s.idFilePath.Some? ==> s.idFilePath.value in db.files
    requires forall i :: 0 <= i < |db.students| && s.idFilePath.Some? ==> db.students[i].idFilePath != s.idFilePath
    ensures Valid(db.(students := db.students + [s]))
  {
    var rows := db.students + [s];
    forall i, j | 0 <= i < j < |rows| ensures rows[i].id != rows[j].id {
      assert rows[i] == db.students[i];
    }
    forall i, j | 0 <= i < j < |rows| && rows[i].idFilePath.Some?
      ensures rows[i].idFilePath != rows[j].idFilePath
    {
      assert rows[i] == db.students[i];
    }
  }

  /** Replacing a row by one with the same id, an existing class or none,
      paired file columns and a stored file no other row names keeps the
      store valid. */
  lemma ReplaceStudentKeepsValid(db: Db, k: nat, t: Student)
    requires Valid(db) && k < |db.students|
    requires t.id == db.students[k].id
    requires t.classId.Some? ==> HasClass(db.classes, t.classId.value)
    requires t.idFilePath.Some? <==> t.idFileName.Some?
    requires t.idFilePath.Some? ==> t.idFilePath.value in db.files
    requires forall i :: 0 <= i < |db.students| && i != k && t.idFilePath.Some? ==>
               db.students[i].idFilePath != t.idFilePath
    ensures Valid(db.(students := db.students[k := t]))
  {
  }

  /** The columns `PUT /api/students/:id` assigns: the eight form columns
      always, the two file columns only with an upload. */
  datatype Column =
    | Name | Dob | Organization | Email | Phone | ClassId | ClassName | IdType
    | IdFilePath | IdFileName

  /** The student with its form columns replaced, and its file columns
      replaced when there is an upload, each text cut to its column's
      width. */
  function Assign(s: Student, name: string, dob: Date, input: StudentInput, upload: Option<Upload>,
                  prefix: string): (r: Student)
    requires StudentFits(input, upload, prefix) && FitsWidth(name, 255)
    ensures input.name == Some(name) && input.dob == Some(dob) ==> TakesForm(r, input, upload, prefix)
    ensures r.id == s.id && r.enrollmentDate == s.enrollmentDate
    ensures StudentWithin(s) ==> StudentWithin(r)
    ensures upload.None? ==> r.idFilePath == s.idFilePath && r.idFileName == s.idFileName
  {
    var t := s.(name := Clip(name, 255), dob := dob, organization := ClipOpt(input.organization, 255),
                email := ClipOpt(input.email, 255), phone := ClipOpt(input.phone, 50), classId := input.classId,
                className := ClipOpt(input.className, 255), idType := ClipOpt(input.idType, 50));
    if upload.Some? then
      t.(idFilePath := Some(Clip(StoredName(prefix, upload.value.originalName), 500)),
         idFileName := Some(Clip(upload.value.originalName, 255)))
    else t
  }

  function UpdateRows(students: seq<Student>, id: Id, input: StudentInput, upload: Option<Upload>,
                      prefix: string): (r: seq<Student>)
    requires input.name.Some? && input.dob.Some? && StudentFits(input, upload, prefix)
    ensures |r| == |students|
    ensures forall i :: 0 <= i < |students| ==>
              r[i] == if students[i].id == id
                      then Assign(students[i], input.name.value, input.dob.value, input, upload, prefix)
                      else students[i]
  {
    var name, dob := input.name.value, input.dob.value;
    Seqs.Map(students, (s: Student) => if s.id == id then Assign(s, name, dob, input, upload, prefix) else s)
  }

  /** `PUT /api/students/:id`. An upload over the limit is refused and
      nothing is written; otherwise the file is stored first. A text too
      wide for its column is refused while the statement is planned, before
      any row is looked at. No row with that id answers not-found and no
      row changes; then a missing name or
      date of birth violates NOT NULL and an unknown class id the foreign
      key. Otherwise the row takes the eight form columns, and the file
      columns only when a file came with the request, each text cut to its
      width; its id and enrollment date never change, and neither does any
      other row. */
  function UpdateStudent(db: Db, id: Id, input: StudentInput, upload: Option<Upload>, prefix: string)
    : (r: Reply<Student>)
    ensures TooLarge(upload) ==> r == Reply(db, Failure(FileTooLarge))
    ensures !TooLarge(upload) ==> r.db.files == StoreUpload(db.files, upload, prefix)
    ensures r.result == Failure(ValueTooLong) <==> !TooLarge(upload) && !StudentFits(input, upload, prefix)
    ensures r.result == Failure(NotFound) <==>
              !TooLarge(upload) && StudentFits(input, upload, prefix) && !HasStudent(db.students, id)
    ensures r.result == Failure(NotNullViolation) <==>
              && !TooLarge(upload) && StudentFits(input, upload, prefix) && HasStudent(db.students, id)
              && (input.name.None? || input.dob.None?)
    ensures r.result == Failure(ForeignKeyViolation) <==>
              && !TooLarge(upload) && StudentFits(input, upload, prefix) && HasStudent(db.students, id)
              && input.name.Some? && input.dob.Some?
              && input.classId.Some? && !HasClass(db.classes, input.classId.value)
    ensures r.result.Failure? ==> r.db.classes == db.classes && r.db.students == db.students
    ensures r.result.Success? ==>
              && r.db.classes == db.classes && |r.db.students| == |db.students|
              && r.result.value.id == id && StudentFits(input, upload, prefix)
              && forall i :: 0 <= i < |db.students| ==>
                   var before := db.students[i];
                   var after := r.db.students[i];
                   if before.id != id then after == before
                   else
                     && after.id == before.id && after.enrollmentDate == before.enrollmentDate
                     && TakesForm(after, input, upload, prefix)
                     && (upload.None? ==> after.idFilePath == before.idFilePath
                                          && after.idFileName == before.idFileName)
  {
    if TooLarge(upload) then Reply(db, Failure(FileTooLarge))
    else
      var stored := db.(files := StoreUpload(db.files, upload, prefix));
      if !StudentFits(input, upload, prefix) then Reply(stored, Failure(ValueTooLong))
      else match Seqs.FindFirst(db.students, (s: Student) => s.id == id)
      case None => Reply(stored, Failure(NotFound))
      case Some(k) =>
        if input.name.None? || input.dob.None? then Reply(stored, Failure(NotNullViolation))
        else if input.classId.Some? && !HasClass(db.classes, input.classId.value) then
          Reply(stored, Failure(ForeignKeyViolation))
        else
          var rows := UpdateRows(db.students, id, input, upload, prefix);
          Reply(stored.(students := rows), Success(rows[k]))
  }

  lemma UpdateStudentKeepsValid(db: Db, id: Id, input: StudentInput, upload: Option<Upload>, prefix: string)
    requires Valid(db) && FreshUpload(db.files, upload, prefix)
    ensures Valid(UpdateStudent(db, id, input, upload, prefix).db)
  {
    var r := UpdateStudent(db, id, input, upload, prefix);
    if !TooLarge(upload) {
      var stored := db.(files := StoreUpload(db.files, upload, prefix));
      MoreFilesKeepValid(db, stored.files);
      if r.result.Success? {
        var k :| 0 <= k < |db.students| && db.students[k].id == id;
        UpdatedRowKeepsValid(db, k, input, upload, prefix);
        assert r.db == stored.(students := UpdateRows(db.students, id, input, upload, prefix));
      } else {
        assert r.db == stored;
      }
    }
  }

  lemma UpdateStudentKeepsWidths(db: Db, id: Id, input: StudentInput, upload: Option<Upload>, prefix: string)
    requires Widths(db)
    ensures Widths(UpdateStudent(db, id, input, upload, prefix).db)
  {
    var r := UpdateStudent(db, id, input, upload, prefix);
    if r.result.Success? {
      var rows := r.db.students;
      forall i | 0 <= i < |rows| ensures StudentWithin(rows[i]) {
        assert StudentWithin(db.students[i]);
      }
    }
  }

  /** With unique ids, the update rewrites exactly row `k`, and the store
      with the rewritten row and the uploaded file is valid. */
  lemma UpdatedRowKeepsValid(db: Db, k: nat, input: StudentInput, upload: Option<Upload>, prefix: string)
    requires Valid(db) && FreshUpload(db.files, upload, prefix)
    requires k < |db.students| && input.name.Some? && input.dob.Some? && StudentFits(input, upload, prefix)
    requires input.classId.Some? ==> HasClass(db.classes, input.classId.value)
    ensures var stored := db.(files := StoreUpload(db.files, upload, prefix));
            Valid(stored.(students := UpdateRows(db.students, db.students[k].id, input, upload, prefix)))
  {
    var stored := db.(files := StoreUpload(db.files, upload, prefix));
    MoreFilesKeepValid(db, stored.files);
    var id := db.students[k].id;
    var t := Assign(db.students[k], input.name.value, input.dob.value, input, upload, prefix);
    AssignedFile(db.students[k], input.name.value, input.dob.value, input, upload, prefix);
    UpdateRowsReplaces(db.students, k, input, upload, prefix);
    forall i | 0 <= i < |db.students| && i != k && t.idFilePath.Some?
      ensures db.students[i].idFilePath != t.idFilePath
    {
      if upload.None? {
        assert db.students[k].idFilePath == t.idFilePath;
      }
    }
    ReplaceStudentKeepsValid(stored, k, t);
  }

  /** With unique ids, the update rewrites exactly row `k`. */
  lemma UpdateRowsReplaces(students: seq<Student>, k: nat, input: StudentInput, upload: Option<Upload>,
                           prefix: string)
    requires StudentKeys(students) && k < |students|
    requires input.name.Some? && input.dob.Some? && StudentFits(input, upload, prefix)
    ensures UpdateRows(students, students[k].id, input, upload, prefix)
            == students[k := Assign(students[k], input.name.value, input.dob.value, input, upload, prefix)]
  {
    var id := students[k].id;
    var rows := UpdateRows(students, id, input, upload, prefix);
    var t := Assign(students[k], input.name.value, input.dob.value, input, upload, prefix);
    forall i | 0 <= i < |students| ensures rows[i] == students[k := t][i] {
      if i != k {
        assert students[i].id != students[k].id;
      }
    }
  }

  /** An update keeps the row's key, and its file columns are the old ones
      or name the new upload: a stored name the directory accepted is never
      cut. */
  lemma AssignedFile(s: Student, name: string, dob: Date, input: StudentInput, upload: Option<Upload>,
                     prefix: string)
    requires StudentFits(input, upload, prefix) && FitsWidth(name, 255)
    requires upload.Some? ==> |StoredName(prefix, upload.value.originalName)| <= 255
    ensures var t := Assign(s, name, dob, input, upload, prefix);
            && t.id == s.id
            && (upload.None? ==> t.idFilePath == s.idFilePath && t.idFileName == s.idFileName)
            && (upload.Some? ==> t.idFilePath == Some(StoredName(prefix, upload.value.originalName))
                                 && t.idFileName.Some?)
  {
  }

  // ---------------------------------------------------------------------
  // The update statement
  // ---------------------------------------------------------------------

  /** A bound parameter: a column's new value, or the row id of the
      `WHERE` clause. */
  datatype Param = Value(column: Column) | RowId

  /** `SET column = $n` assignments, the `WHERE id = $n` placeholder, and the
      parameter list, in the order they are built. */
  datatype Statement = Statement(assignments: seq<(Column, nat)>, wherePlaceholder: nat, params: seq<Param>)

  const FormColumns: seq<Column> := [Name, Dob, Organization, Email, Phone, ClassId, ClassName, IdType]

  /** Every placeholder `$n` refers to the n-th parameter, which carries the
      value meant for its position. */
  ghost predicate Bound(st: Statement) {
    && (forall k :: 0 <= k < |st.assignments| ==>
          1 <= st.assignments[k].1 <= |st.params| && st.params[st.assignments[k].1 - 1] == Value(st.assignments[k].0))
    && 1 <= st.wherePlaceholder <= |st.params| && st.params[st.wherePlaceholder - 1] == RowId
  }

  /** The route's statement construction: the eight form columns as
      `$1`..`$8`, then the two file columns as the next placeholders when a
      file came, then the id as the last placeholder. The placeholders are
      exactly `$1`..`$n` for n parameters, each used once. */
  method BuildUpdate(hasFile: bool) returns (st: Statement)
    ensures Bound(st)
    ensures |st.params| == if hasFile then 11 else 9
    ensures st.wherePlaceholder == |st.params| && st.params[|st.params| - 1] == RowId
    ensures forall k :: 0 <= k < |st.assignments| ==> st.assignments[k].1 == k + 1
    ensures |st.assignments| == |st.params| - 1
    ensures forall k :: 0 <= k < 8 ==> st.assignments[k].0 == FormColumns[k]
    ensures hasFile ==> st.assignments[8].0 == IdFilePath && st.assignments[9].0 == IdFileName
  {
    var assignments: seq<(Column, nat)> := [];
    var params: seq<Param> := [];
    var i := 0;
    while i < |FormColumns|
      invariant 0 <= i <= |FormColumns|
      invariant |params| == i && |assignments| == i
      invariant forall k :: 0 <= k < i ==> assignments[k] == (FormColumns[k], k + 1)
      invariant forall k :: 0 <= k < i ==> params[k] == Value(FormColumns[k])
    {
      assignments := assignments + [(FormColumns[i], |params| + 1)];
      params := params + [Value(FormColumns[i])];
      i := i + 1;
    }
    if hasFile {
      assignments := assignments + [(IdFilePath, |params| + 1), (IdFileName, |params| + 2)];
      params := params + [Value(IdFilePath), Value(IdFileName)];
    }
    var wherePlaceholder := |params| + 1;
    params := params + [RowId];
    st := Statement(assignments, wherePlaceholder, params);
  }

  // ---------------------------------------------------------------------
  // Deleting a student
  // ---------------------------------------------------------------------

  function StudentIdIs(id: Id): Student -> bool {
    (s: Student) => s.id == id
  }

  function OtherStudent(id: Id): Student -> bool {
    (s: Student) => s.id != id
  }

  /** `DELETE /api/students/:id`: the stored file goes first, and only when
      a row with that id exists, has a non-empty file path, and the file is
      there; then every row with that id goes. The route answers success
      whether or not a row matched. */
  function DeleteStudent(db: Db, id: Id): (r: Reply<()>)
    ensures r.result.Success?
    ensures r.db.classes == db.classes
    ensures forall i :: 0 <= i < |r.db.students| ==> r.db.students[i].id != id && r.db.students[i] in db.students
    ensures forall i :: 0 <= i < |db.students| && db.students[i].id != id ==> db.students[i] in r.db.students
    ensures r.db.files <= db.files
    ensures forall f :: f in db.files && f !in r.db.files ==>
              exists i :: && 0 <= i < |db.students| && db.students[i].id == id
                          && db.students[i].idFilePath == Some(f) && f != ""
    ensures !HasStudent(db.students, id) ==> r.db == db
  {
    var rows := Seqs.Filter(db.students, OtherStudent(id));
    match Seqs.FindFirst(db.students, StudentIdIs(id))
    case None =>
      Seqs.FilterAll(db.students, OtherStudent(id));
      Reply(db, Success(()))
    case Some(k) =>
      var path := db.students[k].idFilePath;
      var files := if Truthy(path) && path.value in db.files then db.files - {path.value} else db.files;
      Reply(db.(students := rows, files := files), Success(()))
  }

  /** The row's truthy `id_file_path` is gone from the directory after the
      delete, whether or not the file was there before. */
  lemma DeleteRemovesFile(db: Db, id: Id)
    requires StudentKeys(db.students)
    ensures forall i :: 0 <= i < |db.students| && db.students[i].id == id && Truthy(db.students[i].idFilePath) ==>
              db.students[i].idFilePath.value !in DeleteStudent(db, id).db.files
  {
    match Seqs.FindFirst(db.students, StudentIdIs(id))
    case None =>
    case Some(k) =>
      forall i | 0 <= i < |db.students| && db.students[i].id == id && Truthy(db.students[i].idFilePath)
        ensures db.students[i].idFilePath.value !in DeleteStudent(db, id).db.files
      {
        assert k == i;
      }
  }

  lemma DeleteStudentKeepsValid(db: Db, id: Id)
    requires Valid(db)
    ensures Valid(DeleteStudent(db, id).db)
  {
    var rows := DeleteStudent(db, id).db.students;
    DeletedRows(db, id);
    Seqs.FilterKeysDistinct(db.students, StudentKey, OtherStudent(id));
    assert StudentKeys(rows) by {
      forall i, j | 0 <= i < j < |rows| ensures rows[i].id != rows[j].id {
        assert StudentKey(rows[i]) != StudentKey(rows[j]);
      }
    }
    DeletedPathsDistinct(db, id);
    DeletedFilesKept(db, id);
  }

  lemma DeleteStudentKeepsWidths(db: Db, id: Id)
    requires Widths(db)
    ensures Widths(DeleteStudent(db, id).db)
  {
    var rows := DeleteStudent(db, id).db.students;
    forall i | 0 <= i < |rows| ensures StudentWithin(rows[i]) {
      var a :| 0 <= a < |db.students| && db.students[a] == rows[i];
    }
  }

  /** The rows left by the delete are the rows without the id. */
  lemma DeletedRows(db: Db, id: Id)
    ensures DeleteStudent(db, id).db.students == Seqs.Filter(db.students, OtherStudent(id))
  {
    if Seqs.FindFirst(db.students, StudentIdIs(id)).None? {
      Seqs.FilterAll(db.students, OtherStudent(id));
    }
  }

  /** The surviving rows still have distinct stored paths. */
  lemma DeletedPathsDistinct(db: Db, id: Id)
    requires Valid(db)
    ensures DistinctPaths(DeleteStudent(db, id).db.students)
  {
    var rows := DeleteStudent(db, id).db.students;
    DeletedRows(db, id);
    Seqs.FilterKeysDistinct(db.students, StudentKey, OtherStudent(id));
    forall i, j | 0 <= i < j < |rows| && rows[i].idFilePath.Some?
      ensures rows[i].idFilePath != rows[j].idFilePath
    {
      var a :| 0 <= a < |db.students| && db.students[a] == rows[i];
      var b :| 0 <= b < |db.students| && db.students[b] == rows[j];
      assert StudentKey(rows[i]) != StudentKey(rows[j]);
    }
  }

  /** The surviving rows' files are still stored. */
  lemma DeletedFilesKept(db: Db, id: Id)
    requires Valid(db)
    ensures FileColumns(DeleteStudent(db, id).db)
  {
    var r := DeleteStudent(db, id);
    var rows := r.db.students;
    forall i | 0 <= i < |rows| && rows[i].idFilePath.Some?
      ensures rows[i].idFilePath.value in r.db.files
    {
      var a :| 0 <= a < |db.students| && db.students[a] == rows[i];
      SurvivingFileKept(db, id, a);
    }
  }

  function StudentKey(s: Student): Id {
    s.id
  }

  /** The file of a row that survives the delete is still there. */
  lemma SurvivingFileKept(db: Db, id: Id, a: nat)
    requires Valid(db)
    requires a < |db.students| && db.students[a].id != id && db.students[a].idFilePath.Some?
    ensures db.students[a].idFilePath.value in DeleteStudent(db, id).db.files
  {
    match Seqs.FindFirst(db.students, StudentIdIs(id))
    case None =>
    case Some(k) =>
      assert k != a;
      assert db.students[k].idFilePath != db.students[a].idFilePath;
  }

  // ---------------------------------------------------------------------
  // Listings
  // ---------------------------------------------------------------------

  function StartKey(c: Class): int {
    Millis(c.startDate)
  }

  function EnrollmentKey(s: Student): int {
    Millis(s.enrollmentDate)
  }

  /** `SELECT * FROM classes ORDER BY start_date DESC`: every row once, latest
      start first. Rows with equal start instants may come in any order. */
  function ListClasses(db: Db): (r: seq<Class>)
    ensures multiset(r) == multiset(db.classes)
    ensures forall i, j :: 0 <= i < j < |r| ==> Millis(r[i].startDate) >= Millis(r[j].startDate)
  {
    var r := Seqs.SortDesc(db.classes, StartKey);
    assert forall i, j :: 0 <= i < j < |r| ==> StartKey(r[i]) >= StartKey(r[j]);
    r
  }

  /** `SELECT * FROM students ORDER BY enrollment_date DESC`: every row once,
      latest enrollment first. */
  function ListStudents(db: Db): (r: seq<Student>)
    ensures multiset(r) == multiset(db.students)
    ensures forall i, j :: 0 <= i < j < |r| ==> Millis(r[i].enrollmentDate) >= Millis(r[j].enrollmentDate)
  {
    var r := Seqs.SortDesc(db.students, EnrollmentKey);
    assert forall i, j :: 0 <= i < j < |r| ==> EnrollmentKey(r[i]) >= EnrollmentKey(r[j]);
    r
  }

  // ---------------------------------------------------------------------
  // Routes
  // ---------------------------------------------------------------------

  datatype Verb = Get | Post | Put | Delete

  /** What a request path names, with its `:id` when it has one. */
  datatype Target = ClassList | ClassItem(classId: Id) | StudentList | StudentItem(studentId: Id)

  datatype RouteKind = ClassListRoute | ClassItemRoute | StudentListRoute | StudentItemRoute

  function KindOf(t: Target): RouteKind {
    match t
    case ClassList => ClassListRoute
    case ClassItem(_) => ClassItemRoute
    case StudentList => StudentListRoute
    case StudentItem(_) => StudentItemRoute
  }

  /** The six routes the server registers. */
  const Routes: seq<(Verb, RouteKind)> := [
    (Get, ClassListRoute), (Post, ClassListRoute),
    (Get, StudentListRoute), (Post, StudentListRoute),
    (Put, StudentItemRoute), (Delete, StudentItemRoute)]

  /** Some registered route answers the request; anything else falls
      through to Express's not-found answer. */
  predicate Handled(verb: Verb, target: Target) {
    (verb, KindOf(target)) in Routes
  }

  /** No route removes a class: the client's `deleteClass` request is never
      answered with success, so its local filter never runs and the class
      list stays as it was. */
  lemma ClientClassDeleteIsNoop(classes: seq<Class>, classId: Id)
    ensures !Handled(Delete, ClassItem(classId))
    ensures AppState.DeleteClassLocal(classes, classId, Handled(Delete, ClassItem(classId))) == classes
  {
  }
}
