/** The two entities of the application, as rows of the `classes` and
    `students` tables and as the client holds them after `fetchData` has
    renamed the columns (`start_date` to `startDate`, `class_id` to
    `classId`, ...). Both sides are the same record here. */
module Records {
  import opened Wrappers
  import opened Calendar

  /** A UUID, generated by the client; only equality matters. */
  type Id = string

  /** A scheduled training class. `trainers` is a text array column that may
      be NULL; `price` is DECIMAL(10, 2), held in hundredths. */
  datatype Class = Class(
    id: Id,
    name: string,
    startDate: Instant,
    endDate: Instant,
    schedule: Option<string>,
    status: Option<string>,
    price: Option<int>,
    createdAt: Instant,
    certificatesIssued: bool,
    trainers: Option<seq<string>>)

  /** An enrollment. `className` is a copy of the linked class's name;
      `idFilePath` is the stored upload's generated name and `idFileName` the
      name it was uploaded under. */
  datatype Student = Student(
    id: Id,
    name: string,
    dob: Date,
    organization: Option<string>,
    email: Option<string>,
    phone: Option<string>,
    classId: Option<Id>,
    className: Option<string>,
    idType: Option<string>,
    idFilePath: Option<string>,
    idFileName: Option<string>,
    enrollmentDate: Instant)

  /** A file picked in the browser or received by the server. */
  datatype Upload = Upload(originalName: string, size: nat)

  /** The 10 MB ceiling on identity documents, in bytes. */
  const MaxUploadBytes: int := 10 * 1024 * 1024

  /** The three identity-document kinds the forms offer. */
  const IdTypes: seq<string> := ["National ID", "Work ID", "Driving Permit"]

  const DefaultIdType: string := "National ID"

  /** JavaScript truthiness of an optional string: present and not empty. */
  predicate Truthy(o: Option<string>) {
    o.Some? && o.value != ""
  }

  /** `o || fallback` on an optional string. */
  function OrElse(o: Option<string>, fallback: string): (r: string)
    ensures Truthy(o) ==> r == o.value
    ensures !Truthy(o) ==> r == fallback
  {
    if Truthy(o) then o.value else fallback
  }
}
