# Training-institute manager: a Dafny model

The system is a small web application that a training institute uses for its
classes and students. It has a React client and an Express/PostgreSQL server.

- **Public enrollment form.** A student types a date of birth through a
  `dd/MM/yyyy` input mask. They pick one of the classes still open for
  enrollment, choose an ID type and attach an ID document of at most 10 MB.
- **Administration screens.**
  - A dashboard counts future, ended and active classes.
  - Class cards edit trainers, toggle the certificates-issued flag and export
    a roster sheet.
  - An add-class form schedules a class.
  - An edit-student modal re-links a student to another class and can replace
    the document.
- **Server.** It stores both tables in PostgreSQL and the uploaded files on
  disk. It exposes six routes.

This project models that core as pure functions over immutable data and
proves what each operation guarantees.

| module | file | models |
|---|---|---|
| `Wrappers` | wrappers.dfy | `Option` and `Result` |
| `Seqs` | seqs.dfy | JavaScript `filter`, `find`, `map` and the server's `ORDER BY … DESC` |
| `Strings` | strings.dfy | String operations: see below |
| `Calendar` | calendar.dfy | Proleptic Gregorian dates, instants as day plus milliseconds, `new Date(a) < new Date(b)` and date-fns `differenceInCalendarDays` |
| `DobFormat` | dob.dfy | The date-of-birth mask, date-fns `parse(…, 'dd/MM/yyyy')` with its length check, and `format(…, 'yyyy-MM-dd')` |
| `Records` | records.dfy | The client's class and student records, the upload, the 10 MB limit and the ID types |
| `AppState` | app_state.dfy | The client's shared state (`AppContext`): merging class edits, the certificate toggle, local deletes, row mapping and the dashboard statistics |
| `Enrollment` | enrollment.dfy | The enrollment form: eligible classes, the de-duplicated sorted options, class resolution, the file picker, and the request built on submit |
| `EditStudent` | edit_student.dfy | The edit modal: prefill, class resolution with its warning, and the update request |
| `ClassCard` | class_card.dfy | Trainer parsing and prefill, the status label, the roster, the export sheet, and the add-class form |
| `UploadName` | upload_name.dfy | Node's POSIX `path.extname` and the name multer stores an upload under |
| `Server` | server.dfy | The two tables and the file store, the handlers' error cases, the dynamic `UPDATE` statement, the route table and the listing order |
| `Flows` | flows.dfy | Requests end to end: multipart fields as the server reads them, and the (class id, class name) pair kept consistent |

The string operations in `Strings` are:

- JavaScript's default string sort, taken by code units.
- `new Set` de-duplication.
- `trim` over ECMAScript white space and line terminators.
- `split(',')` and `join`.

The central invariant concerns the denormalised `class_id`/`class_name` pair on
a student row. No constraint in the database relates the two columns. The
model shows that enrolling and editing through the client keep every student's
class name equal to the name of the class its id references
(`Flows.EnrollmentKeepsPairs`, `Flows.EditKeepsPairs`). The server's own
invariant `Server.Valid` is preserved by every handler. It covers:

- primary keys;
- the foreign key;
- the paired file columns;
- stored files;
- distinct stored paths.

A second invariant, `Server.Widths`, says that no stored text is wider than its
VARCHAR column and no price exceeds DECIMAL(10, 2). Each handler refuses an
over-wide value, or cuts off the trailing spaces past the width as PostgreSQL
does, so the invariant holds after every handler.

Clocks, UUIDs and the random part of an upload's stored name are parameters
(`now`, `newId`, `prefix`).

## Model

| member | source | states |
|---|---|---|
| `AppState.Merge` | src/contexts/AppContext.jsx:175 | Spreading an update over a class takes each field from the update when present and keeps the class's own otherwise |
| `AppState.UpdateClass` | src/contexts/AppContext.jsx:173-176 | Only the rows with the given id are merged with the update; every other row and the row count are unchanged |
| `AppState.UpdateClassIdempotent` | src/contexts/AppContext.jsx:173-176 | Applying the same update twice equals applying it once, when the update does not change the id |
| `AppState.ToggleCertificateIssued` | src/contexts/AppContext.jsx:178-183 | The matching rows have their certificates flag negated, and all other rows are unchanged |
| `AppState.ToggleTwice` | src/contexts/AppContext.jsx:178-183 | Toggling the flag twice restores the list |
| `AppState.DeleteClassLocal` | src/contexts/AppContext.jsx:185-202 | A failed response leaves the list as it was. After success, the list holds exactly the classes without the id |
| `AppState.DeleteStudentLocal` | src/contexts/AppContext.jsx:204-215 | A failed response leaves the list as it was. After success, the list holds exactly the students without the id |
| `AppState.DeleteStudentKeepsOrder` | src/contexts/AppContext.jsx:210 | The local delete distributes over concatenation, so survivors keep their relative order |
| `AppState.DeleteClassKeepsOrder` | src/contexts/AppContext.jsx:192 | The local class delete distributes over concatenation |
| `AppState.DeleteAbsentStudent` | src/contexts/AppContext.jsx:210 | Deleting an id no student has leaves the list unchanged |
| `AppState.ClientFile` | src/contexts/AppContext.jsx:79 | A student has a file reference exactly when its stored path is a non-empty string, and then the reference carries that path and the original file name |
| `AppState.CountByTest` | src/contexts/AppContext.jsx:224-237 | The length of a filtered class list is the number of positions whose class passes the test |
| `AppState.GetStats` | src/contexts/AppContext.jsx:218-242 | The counts are the sizes of the sets of future and ended classes. Future, ended and active add up to the total. Active equals the classes neither future nor ended when every class starts no later than it ends |
| `AppState.ActiveCount` | src/contexts/AppContext.jsx:239 | When every class starts no later than it ends, the active count is the number of classes that are neither future nor ended |
| `AppState.TodayIsActive` | src/contexts/AppContext.jsx:224-239 | A class starting and ending today counts as active and neither future nor ended |
| `AppState.InvertedClassMakesActiveNegative` | src/contexts/AppContext.jsx:239 | A class that starts after today and ended before today counts both as future and as ended, which drives the active count to -1 |
| `Calendar.DayNumberOrder` | src/contexts/AppContext.jsx:229 | On valid dates, day numbers order exactly as the dates do, and equal day numbers mean equal dates: the calendar-day difference is well defined |
| `Calendar.InstantDayOrder` | src/components/ClassManagement.jsx:86 | An earlier calendar day means an earlier instant, and on one day the instant order is the time-of-day order |
| `DobFormat.HandleDateChange` | src/components/EnrollmentForm.jsx:35-48 | Input with other than digits and '/' is rejected, and so is input over ten characters. A slash is appended after the second and fifth typed characters. Any accepted value extends the typed text and stays in mask shape |
| `DobFormat.MaskInvariant` | src/components/EnrollmentForm.jsx:35-48 | Any sequence of keystrokes from a mask-shaped value keeps the field in mask shape |
| `DobFormat.Pad2Value` | src/components/EnrollmentForm.jsx:55 | Two digits read as a number and printed back with zero padding give the same text |
| `DobFormat.Pad4Value` | src/components/EnrollmentForm.jsx:55 | Four digits read as a number and printed back with zero padding give the same text |
| `DobFormat.ParseDob` | src/components/EnrollmentForm.jsx:54-58 | A parsed date is a valid calendar date with a four-digit year, read from a ten-character `dd/MM/yyyy` text. Such a text is parsed exactly when it names a real date |
| `DobFormat.FormatDob` | src/components/EditStudentModal.jsx:25 | A valid date is shown as text of the mask's shape |
| `DobFormat.FormatIso` | src/components/EnrollmentForm.jsx:73 | The date is written as `yyyy-MM-dd` whose digit groups read back as year, month and day |
| `DobFormat.ParseFormat` | src/components/EditStudentModal.jsx:25 | A date shown in the edit form parses back to the same date |
| `DobFormat.FormatParse` | src/components/EnrollmentForm.jsx:54-58 | Every text the check accepts is exactly the display of the date it parses to |
| `DobFormat.ParseIso` | server/db.js:48 | A `yyyy-MM-dd` text the DATE column accepts is a valid calendar date |
| `DobFormat.IsoRoundTrip` | src/components/EnrollmentForm.jsx:73 | The date sent to the server reads back as the date typed |
| `Records.OrElse` | src/components/ClassManagement.jsx:121-124 | `x \|\| fallback` yields the string when it is non-empty and the fallback otherwise |
| `Seqs.FilterCommute` | src/components/ClassManagement.jsx:99 | Two filters commute, so deleting a student and then listing a class's roster equals listing and then deleting |
| `Seqs.FilterKeysDistinct` | server/db.js:24 | Filtering a list whose keys are distinct leaves keys distinct, so deletes keep the primary key unique |
| `Seqs.FilterPartition` | src/contexts/AppContext.jsx:224-239 | Three tests that are pairwise disjoint and together cover every element (future, ended and active classes) split the list: the three filtered lists' lengths add up to the list's length |
| `Strings.DedupeSort` | src/components/EnrollmentForm.jsx:30-33 | Sorting the de-duplicated names gives a strictly increasing list with the same members |
| `Strings.StrictlySortedUnique` | src/components/EnrollmentForm.jsx:30-33 | Two strictly sorted lists with the same members are equal, so the options do not depend on the order of the classes |
| `Strings.TrimOfTrimmed` | src/components/ClassManagement.jsx:92 | Trimming a string with no surrounding white space returns it unchanged |
| `Strings.JoinSplit` | src/components/ClassManagement.jsx:89-92 | Joining the pieces of a split with the separator restores the text |
| `Strings.SplitJoin` | src/components/ClassManagement.jsx:92 | Splitting a join of at least one piece on the separator returns the pieces, when no piece contains the separator |
| `Strings.SplitAppend` | src/components/ClassManagement.jsx:92 | Splitting text on both sides of a separator is the concatenation of the two splits |
| `Enrollment.EligibleClasses` | src/components/EnrollmentForm.jsx:27 | The eligible classes are exactly the listed classes whose end is not before now |
| `Enrollment.EligibilityByDay` | src/components/EnrollmentForm.jsx:27 | A class ending on an earlier day is closed and one ending on a later day is open. On the same day, the time of day decides |
| `Enrollment.OptionNamesMembers` | src/components/EnrollmentForm.jsx:30-33 | A name is among the option names exactly when it is a predefined name or the name of an eligible class |
| `Enrollment.ClassOptions` | src/components/EnrollmentForm.jsx:30-33 | The options are strictly sorted, without duplicates, and are exactly the predefined names and the eligible classes' names |
| `Enrollment.ResolveClass` | src/components/EnrollmentForm.jsx:61-66 | Nothing is resolved exactly when no eligible class has the chosen name. Otherwise the first eligible class with that name is resolved |
| `Enrollment.PickFile` | src/components/EnrollmentForm.jsx:210-220 | Cancelling keeps the chosen file, a file over 10 MB clears it, and any other file replaces it |
| `Enrollment.PickedFileWithinLimit` | src/components/EnrollmentForm.jsx:210-220 | However many files are picked, the file held is never larger than 10 MB |
| `Enrollment.SubmitEnrollment` | src/components/EnrollmentForm.jsx:54-83 | An invalid date stops with a date error, and a name no eligible class carries stops with a class error. Otherwise the request has the new id, one eligible class's id and name together, the typed date as `yyyy-MM-dd`, the name, organization, email, phone and ID type as typed, and the picked file |
| `EditStudent.Prefill` | src/components/EditStudentModal.jsx:21-35 | The prefilled date parses back to the stored date and is in mask shape. Missing e-mail and phone are empty, the ID type defaults to "National ID", the class pair is copied, and no file is chosen |
| `EditStudent.MatchChosen` | src/components/EditStudentModal.jsx:78 | No chosen name matches nothing, and a chosen name resolves as on the enrollment form |
| `EditStudent.ResolveEditClass` | src/components/EditStudentModal.jsx:78-109 | A changed name with an eligible match takes both id and name from that class. Otherwise the student's pair is kept. The warning is shown exactly when the name changed and nothing matched |
| `EditStudent.EditKeepsPairConsistent` | src/components/EditStudentModal.jsx:78-109 | The pair sent is the student's own or one eligible class's, so a pair naming one class keeps naming one class |
| `EditStudent.SubmitEdit` | src/components/EditStudentModal.jsx:67-116 | The update is refused exactly when the date does not parse. Otherwise the date sent reads back as typed, the class pair and warning are the resolved ones, the name, organization, email, phone and ID type are sent as typed, and the file is sent only if chosen |
| `EditStudent.UntouchedEditResendsStudent` | src/components/EditStudentModal.jsx:21-116 | Submitting the untouched prefilled form resends the student's own class pair and date, with no file and no warning |
| `ClassCard.ParseTrainers` | src/components/ClassManagement.jsx:91-95 | Every parsed trainer is non-empty, has no surrounding white space and contains no comma |
| `ClassCard.LeadingBlankIgnored` | src/components/ClassManagement.jsx:92 | A leading blank does not change the parsed trainer list |
| `ClassCard.ParsePiece` | src/components/ClassManagement.jsx:92 | A field without a comma parses to its trimmed text as the one trainer, or to no trainer when it is blank |
| `ClassCard.ParseTrainersAppend` | src/components/ClassManagement.jsx:92 | Parsing two comma-separated parts gives the concatenation of their trainer lists |
| `ClassCard.TrainerRoundTrip` | src/components/ClassManagement.jsx:89-95 | Saving the untouched text, which joins the trainers with ", ", yields the same trainer list |
| `ClassCard.SaveTrainers` | src/components/ClassManagement.jsx:91-95 | Only the card's class has its trainers replaced by the parsed list; every other class is unchanged |
| `ClassCard.SaveUntouchedTrainers` | src/components/ClassManagement.jsx:89-95 | Saving without editing keeps the trainers of a class whose names are well formed, except that a class without trainers gets an empty list |
| `ClassCard.AddClass` | src/components/ClassManagement.jsx:264-269 | A new class is scheduled with the new id and the form's name and dates. Its trainers are the parsed list, each well formed |
| `ClassCard.EnrolledStudents` | src/components/ClassManagement.jsx:99 | The roster holds exactly the students whose class id is the card's |
| `ClassCard.DeleteLeavesCard` | src/components/ClassManagement.jsx:99 | After a local student delete, the roster is the old roster without that student |
| `ClassCard.StatusLabel` | src/components/ClassManagement.jsx:231 | "Ended" exactly when now is after the end. "Upcoming" exactly when not ended and now is before the start. "Ongoing" otherwise |
| `ClassCard.ToggleOfferedIffNotEnrollable` | src/components/ClassManagement.jsx:142 | The certificate toggle is offered exactly when the enrollment form no longer lists the class |
| `ClassCard.StatusAgainstDashboard` | src/components/ClassManagement.jsx:86 | Dashboard-ended classes are labelled "Ended" and dashboard-future ones "Upcoming". A class that ended earlier today is labelled "Ended" yet the dashboard counts it as neither |
| `ClassCard.StudentRow` | src/components/ClassManagement.jsx:117-126 | A roster row has six cells, missing optional fields read "N/A", and both dates read back through `dd/MM/yyyy` |
| `ClassCard.TrainersCell` | src/components/ClassManagement.jsx:109 | The trainers cell reads "None" when the class has no trainer list, and the joined names otherwise |
| `ClassCard.Header` | src/components/ClassManagement.jsx:105-115 | The header has nine rows, six cells wide except the seven-cell status row. It carries the title, the five labels with the name, trainers and card status, and dates that read back, then a blank row, the "Enrolled Students" label and the six column headings |
| `ClassCard.StudentRows` | src/components/ClassManagement.jsx:117-126 | One row per enrolled student, in roster order |
| `ClassCard.ExportSheet` | src/components/ClassManagement.jsx:101-132 | The sheet is the nine-row header followed by one row per enrolled student in order, named after the class |
| `UploadName.LastIndex` | server/index.js:29 | The position found holds the character and none follows it; there is none exactly when the character is absent |
| `UploadName.BaseName` | server/index.js:29 | The last segment is the whole slash-free tail of the path once trailing slashes are dropped: it has no slash, ends the path, and is preceded by a slash or by nothing |
| `UploadName.ExtName` | server/index.js:29 | The extension is empty or a single leading dot, with no other dot or slash, ending the last segment. It is empty exactly when the segment has no dot, has one only as its first character, or is ".." |
| `UploadName.SegmentExt` | server/index.js:29 | The extension of a slash-free segment is empty or a single leading dot with no other dot, and it ends the segment. It is empty exactly when the segment has no dot, has one only as its first character, or is ".." |
| `UploadName.SegmentExtAt` | server/index.js:29 | A segment whose last dot is not its first character, other than "..", has the extension from that dot on |
| `UploadName.ExtNameOfStemAndExtension` | server/index.js:29 | A plain file name `stem.ext` keeps `.ext` |
| `UploadName.ExtNameWithoutExtension` | server/index.js:29 | A name without a dot, or whose only dot leads it, has an empty extension |
| `UploadName.StoredName` | server/index.js:26-30 | The stored name starts with the unique prefix and ends with the original name's extension |
| `UploadName.DistinctPrefixesDistinctNames` | server/index.js:26-30 | Distinct prefixes of equal length give distinct stored names, whatever was uploaded |
| `Server.Clip` | server/db.js:25 | A text that fits a VARCHAR(n) column is stored as at most n characters, a prefix of it, followed in the text by nothing but spaces; a text of at most n characters is stored unchanged |
| `Server.ClipOpt` | server/db.js:49-56 | A NULL stays NULL, a stored value is within its width, and a value already within it is stored as sent |
| `Server.ClipCutsSpaces` | server/db.js:25 | What the column cuts off is spaces only: the text is the stored value followed by spaces |
| `Server.FitsIffPaddedPrefix` | server/db.js:25 | A text fits a VARCHAR(n) column exactly when it is at most n characters followed by spaces only |
| `Server.StatusCode` | server/index.js:137-143 | A missing student is answered 404, and every other failure 500 |
| `Server.CreateClass` | server/index.js:54-68 | A name, schedule or status too wide for its column is refused first, then a price too large for DECIMAL(10, 2). Then a missing id or name violates NOT NULL, and a taken id violates the key; each occurs exactly in its case. A failure leaves the store unchanged. A created row has the id, the texts cut to their widths, the dates, creation time now, and no certificates issued |
| `Server.CreateClassKeepsValid` | server/db.js:22-34 | Creating a class preserves the store invariant |
| `Server.CreateClassKeepsWidths` | server/db.js:25-29 | After a class insert no stored value is wider than its column |
| `Server.DeleteClassRow` | server/db.js:52 | Deleting a class a student references fails with a foreign-key violation and changes nothing. Otherwise only that class is gone |
| `Server.DeleteClassRowKeepsValid` | server/db.js:52 | A class delete preserves the store invariant |
| `Server.DeleteClassRowKeepsWidths` | server/db.js:22-34 | After a class delete no stored value is wider than its column |
| `Server.StoreUpload` | server/index.js:82 | Without a file the store is unchanged. With one, exactly its stored name is added |
| `Server.CreateStudent` | server/index.js:82-110 | Over 10 MB is refused with the store unchanged. Otherwise the file is stored first. Then a text too wide for its column, NOT NULL, key and foreign-key failures occur exactly in their cases, in that order, and leave both tables unchanged. A created row holds the texts cut to their widths, takes both file columns from the upload and is enrolled now |
| `Server.CreateStudentKeepsValid` | server/db.js:44-58 | A student insert preserves the store invariant, given a fresh upload name |
| `Server.CreateStudentKeepsWidths` | server/db.js:47-56 | After a student insert no stored value is wider than its column |
| `Server.AppendStudentKeepsValid` | server/db.js:44-58 | Appending a row with a new id, a known class and an unused stored file keeps the store valid |
| `Server.Assign` | server/index.js:119-131 | The updated row holds the form's columns cut to their widths and the new upload's names, keeps its id and enrollment date, keeps its file columns without an upload, and stays within the column widths |
| `Server.UpdateRowsReplaces` | server/index.js:119-136 | With unique ids the update rewrites exactly the one row with the id |
| `Server.AssignedFile` | server/index.js:126-131 | An updated row keeps its id, and its path is the old one or exactly the new upload's stored name |
| `Server.UpdateRows` | server/index.js:119-134 | The rows with the id get the form's columns and keep id and enrollment date; the others are unchanged |
| `Server.UpdateStudent` | server/index.js:113-145 | Over 10 MB is refused, and otherwise the file is stored first. A text too wide for its column, then a missing row, a missing name or date, and an unknown class fail exactly in their cases. On success only the row with the id changes, its texts cut to their widths, and its file columns change only when a file came with the request |
| `Server.UpdateStudentKeepsValid` | server/db.js:44-58 | A student update preserves the store invariant, given a fresh upload name |
| `Server.UpdateStudentKeepsWidths` | server/db.js:47-56 | After a student update no stored value is wider than its column |
| `Server.BuildUpdate` | server/index.js:119-134 | The statement binds the eight form columns, then both file columns when a file came. Each takes the next placeholder, and the row id is the last parameter: 9 or 11 in all |
| `Server.DeleteStudent` | server/index.js:148-166 | The delete always succeeds and removes exactly the rows with the id. No other file disappears from disk, and nothing changes when no row has the id |
| `Server.DeleteRemovesFile` | server/index.js:152-158 | When a row has the id and a non-empty stored path, that file is no longer on disk after the delete |
| `Server.DeleteStudentKeepsValid` | server/index.js:148-166 | A student delete preserves the store invariant |
| `Server.DeleteStudentKeepsWidths` | server/db.js:44-58 | After a student delete no stored value is wider than its column |
| `Server.SurvivingFileKept` | server/index.js:152-158 | The file of any other student stays on disk |
| `Server.ListClasses` | server/index.js:41-51 | The listing is a permutation of the table, in descending order of start |
| `Server.ListStudents` | server/index.js:71-79 | The listing is a permutation of the table, in descending order of enrollment |
| `Server.ClientClassDeleteIsNoop` | server/index.js:41-166 | No route deletes a class, so the client's class delete never sees a successful response and leaves its list unchanged |
| `Flows.FormText` | src/components/EditStudentModal.jsx:95-116 | A multipart field carries the value's text, and a missing value arrives as "null" |
| `Flows.EnrollInput` | server/index.js:84-102 | The server reads every field of the enrollment request as sent: date, class pair, name, organization, email, phone and ID type |
| `Flows.EditInput` | server/index.js:115-134 | The server reads the edit request's date, name, email, phone and ID type as sent. A missing organization, class id or class name arrives as "null" |
| `Flows.CreateKeepsPairs` | server/index.js:82-110 | An insert whose class pair names its class keeps every student carrying its class's name |
| `Flows.UpdateKeepsPairs` | server/index.js:113-145 | An update whose class pair names its class keeps every student carrying its class's name |
| `Flows.StoredPairNamesItsClass` | server/db.js:53 | A class name is within its column, so the stored copy of a pair that names its class is the class's name |
| `Flows.ListedClassInTable` | server/index.js:41-51 | Every listed class is a row of the table |
| `Flows.EnrollmentKeepsPairs` | src/components/EnrollmentForm.jsx:61-83 | A valid submission creates its student exactly when the id is new and every typed text fits its column. The student has the typed date of birth and the resolved class, and every student still carries its class's name |
| `Flows.EditKeepsPairs` | src/components/EditStudentModal.jsx:78-116 | An edit of a student linked to a class keeps every student carrying the name of the class it references |

## Left out

- HTTP transport, Express routing details, multer's disk writes, the pg connection pool, SSL and transactions. Each handler is a function from store and request to store and result.
- File system limits. A stored name the uploads directory would refuse (over 255 bytes) is not modelled as a failure; `Server.FreshUpload` takes a stored name to have at most 255 characters, so its `id_file_path` is never cut.
- Randomness and the clock: the upload prefix (a timestamp and a random number), UUID generation and `new Date()` are parameters. Uniqueness of the prefix is the `Server.FreshUpload` assumption.
- Time zones. Every instant is a calendar date plus milliseconds since its midnight, all in the browser's one local zone. The add-class form's `type="date"` inputs (src/components/ClassManagement.jsx:298, :308) send `yyyy-MM-dd` text; the model takes the schedule form as already holding the instants the database stores for them. `addClass` passes that text unparsed in the JSON body, and the `TIMESTAMP WITH TIME ZONE` columns (server/db.js:26-27) read it as midnight in the database session's time zone; the client only parses the full timestamps the listing returns, in the browser's zone. The day shift this can cause when the two zones differ is not modelled.
- UUID syntax. Ids are opaque strings, so the database's rejection of a malformed UUID is not modelled. This includes the text "null" that an edit of a student with no class sends as `class_id`.
- Server parsing of `dob` beyond `yyyy-MM-dd`: `Server.StudentInput.dob` is already a date or missing.
- NULL class dates. A class row always has start and end instants.
- Postgres's order among equal keys, which is unspecified.
- Code points outside the Basic Multilingual Plane. The default sort compares UTF-16 code units, and the model compares characters.
- Rendering, toasts, the clipboard, the XLSX library, the preview modal, the progress bar and browser `required` checks. The export is modelled as the rows handed to the preview.
- Persistence of trainers and of the certificate toggle. The client changes only its local state, and the model does too (`AppState.UpdateClass`).
- Removal of an old document when an update replaces it. The model, like the server, leaves that file on disk.
- `ClassCard.ExportSheet`, `ClassCard.Header`, `ClassCard.StudentRow`: require valid dates. Every DATE and TIMESTAMP value the database returns is one, so the `'N/A'` branch for a missing date is not reachable in the model.
- `EditStudent.Prefill`: requires a valid date of birth with a year of at most 9999, as stored by the `DATE` column and produced by the four-digit form field.
- `ClassCard.SaveUntouchedTrainers`: the round trip is stated only for trainer names that are non-empty, trimmed and comma-free. Other stored names are re-split or re-trimmed on save.
- `DobFormat.ParseIso`: states only that an accepted text is a valid date. The exact acceptance of the DATE column's input formats is not modelled.
- The dashboard and the student list screens are not part of this model beyond the statistics they display.
