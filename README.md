# smarteduc file import, modelled in Dafny

The data loader of smarteduc turns an uploaded tabular file into academic records:
students, teachers, programs, courses, enrollments, results and degrees. It works in three stages.

1. **Validators** check the header for the required columns. One missing column gives a single
   "Missing required columns" error and no row is looked at. Otherwise every row is checked and
   every error is collected, labelled with the row's line in the file.
2. **Ingestors** upsert one record per row on the record's primary key, inside one transaction.
   Each row counts as created, updated or skipped. A row is skipped when a reference does not
   resolve, and an exception on any row rolls the whole file back.
3. **The upload view** dispatches on the declared file type. It records the upload as an
   `ImportFile`, ingests only a file without validation errors, sets the status, writes one
   `ImportLog` per error or one for the ingestion, and shows a summary of at most five errors.

The model keeps that structure:

- `frames.dfy`: a file is a header and rows mapping column names to text, with missing cells
  already `""`.
- `academic.dfy`: the store is one finite map per table, keyed by primary key.
- `validators.dfy`: each validator is a loop method, proved equal to a specification function
  `FileErrors`.
- `ingestion.dfy`: each ingestor is a loop method, proved equal to `Ingest`. `Ingest` applies
  one row step after another and returns the old store on an exception. For the teachers,
  programs, courses, enrollments and results imports, a row's `Plan` (raise, skip, or write
  one entry) is what the row decides on the store, and its step applies that plan.
- `audit.dfy`: `ImportFile` is a class whose status and logs the view updates in place.
- `uploads.dfy`: `UploadFile` performs the view step by step and is proved equal to the
  function `UploadEffect`.
- `upserts.dfy`: for the imports whose rows never read their own table, a row's effect is
  fixed by the store before the file, so the whole import is the file's writes, last row winning.
- `ingestion_props.dfy`, `step_props.dfy`, `integrity.dfy`, `pipeline.dfy` and `agreement.dfy`
  hold the properties of the whole pipeline.

Quirks of the code that the model keeps:

- The validators compare student, program and course ids untrimmed, while the ingestors trim them.
- The teachers validator does not require `teacher_id`, but the ingestor reads it.
  `TeachersWithoutIdAbort` shows the consequence.
- The results and degrees ingestors count every upsert as created.
- The course lookups of programs and teachers are not scoped to the user's institution.
- The students and courses entries of the dispatch tables drop the user.
- The declared `file_type` choices of `ImportFile` omit teachers and degrees, which the view
  accepts anyway.
- The validator reads the file outside any `try`. A file it cannot read raises out of the view,
  and the `ImportFile` created just before stays pending.

## Model

| member | source | states |
|---|---|---|
| Frames.MissingColumns | data_loader/services/validators.py:17-19 | the missing columns are no more than the required ones; a column is reported iff it is required and absent from the header; the list is empty iff every required column is present |
| Frames.MissingColumnsAppend | data_loader/services/validators.py:17-19 | the missing columns keep the order of the required list: those of `a + b` are those of `a`, then those of `b` |
| Integrity.UpsertStudentConsistent | core/models.py:38-43 | upserting a student keeps unique institution acronyms, one degree per enrollment and every foreign key resolved |
| Integrity.UpsertTeacherConsistent | core/models.py:86-89 | upserting a teacher whose institute exists keeps the store consistent |
| Integrity.UpsertProgramConsistent | core/models.py:26-29 | upserting a program whose institute exists keeps the store consistent |
| Integrity.UpsertCourseConsistent | core/models.py:102-108 | upserting a course whose program exists, and whose teacher, if any, exists, keeps the store consistent |
| Integrity.UpsertEnrollmentConsistent | core/models.py:56-63 | upserting an enrollment whose student, program and institute exist keeps the store consistent |
| Integrity.UpsertResultConsistent | core/models.py:147-151 | upserting a result whose enrollment and course exist keeps the store consistent |
| Integrity.UpsertDegreeConsistent | core/models.py:129-132 | upserting a degree whose enrollment exists and holds no other degree keeps the store consistent, one-to-one relation included |
| Strings.StripEmptyIff | data_loader/services/validators.py:46-47 | `strip()` gives "" exactly on an all-whitespace text |
| Strings.StripBorders | data_loader/services/ingestion.py:46 | a stripped text has no whitespace at either end |
| Strings.StripSlice | data_loader/services/ingestion.py:46 | `strip()` removes only whitespace and only at the ends: the result is a slice of its input |
| Strings.StripIdempotent | data_loader/services/ingestion.py:31 | stripping an acronym that is already stripped changes nothing |
| Strings.StripUpper | data_loader/services/validators.py:49 | trimming and upper-casing a text can be done in either order |
| Strings.NatToString | data_loader/services/validators.py:48 | a row number is printed as a non-empty run of digits without a leading zero |
| Strings.NatToStringValue | data_loader/views.py:66 | the printed digits of a count read back as that count |
| Strings.NumberAtUnique | data_loader/views.py:66 | a count printed before a non-digit can be read back: a text holds at most one number at a given place |
| Strings.ParseIntNatToString | data_loader/services/ingestion.py:147 | `int()` of the text of a natural number is that number |
| Strings.ParseDecimalNatToString | data_loader/services/validators.py:217 | `float()` of the text of a natural number is that number |
| Strings.FloatRepr | data_loader/services/validators.py:218-221 | a parsed note is printed in the form of Python's float `repr`: an optional minus, digits without a leading zero, a point, digits without a trailing zero |
| Strings.FloatReprRoundTrip | data_loader/services/validators.py:217-221 | reading back the printed note gives the number that was parsed |
| Strings.FloatReprOfNat | data_loader/services/validators.py:218-221 | a whole number is printed with a trailing ".0" |
| Strings.JoinAppend | data_loader/views.py:60 | joining `a + b` is joining `a`, the separator, then joining `b` |
| Strings.LexLeTotal | data_loader/services/ingestion.py:213-215 | any two primary keys are ordered one way or the other |
| Strings.LexLeAntisymmetric | data_loader/services/ingestion.py:213-215 | keys ordered both ways are equal |
| Strings.LexLeTransitive | data_loader/services/ingestion.py:213-215 | the key order is transitive |
| Strings.LeastExists | data_loader/services/ingestion.py:213-215 | a non-empty set of keys has a first key |
| Strings.LeastUnique | data_loader/services/ingestion.py:213-215 | the first key of a set is unique |
| Strings.Least | data_loader/services/ingestion.py:213-215 | `first()` gives a member of the set that orders before every other member |
| Validators.InstitutionAcronyms | data_loader/services/validators.py:66-71 | an acronym is valid iff some institute of the user's institution carries it |
| Validators.StudentRowErrors | data_loader/services/validators.py:45-51 | one error for an empty trimmed id and one for a gender other than M/F after `upper().strip()`; both can fire; every error is about line `index + 2` |
| Validators.GenderAccepted | data_loader/services/validators.py:49-50 | the gender check accepts exactly M, F, m and f, with any whitespace around them |
| Validators.TeacherRowErrors | data_loader/services/validators.py:73-78 | the row is free of errors iff its trimmed acronym belongs to the user's institution; at most one error |
| Validators.ProgramRowErrors | data_loader/services/validators.py:99-104 | the row is free of errors iff its trimmed acronym belongs to the user's institution; at most one error |
| Validators.CourseRowErrors | data_loader/services/validators.py:129-136 | one error for an unknown untrimmed program id, one for a non-empty trimmed teacher id that is unknown; an empty teacher id is never an error |
| Validators.EnrollmentRowErrors | data_loader/services/validators.py:166-177 | at most three errors; none iff the acronym is the user's and the untrimmed student and program ids exist |
| Validators.NoteErrors | data_loader/services/validators.py:216-225 | a non-numeric note gives exactly the "must be numeric" error quoting the cell; a numeric note gives an error iff it lies outside [0, 20], and that error quotes the number as Python prints the float; never two |
| Validators.WholeNoteTooHigh | data_loader/services/validators.py:217-221 | a whole note above 20, such as 21, is reported as `'21.0'` |
| Validators.MessageInjective | data_loader/services/validators.py:48-51 | a row's error message determines its line number and its text |
| Validators.ResultRowErrors | data_loader/services/validators.py:208-225 | at most four errors; none iff the student, the acronym and the course are known and the note passes |
| Validators.DegreeRowErrors | data_loader/services/validators.py:254-261 | at most two errors; none iff the acronym is the user's and the untrimmed student id exists |
| Validators.StructuralShortCircuit | data_loader/services/validators.py:39-42 | with a required column missing, the result is the one "Missing required columns" error, whatever the rows and the store hold |
| Validators.RowsErrorsEmptyIff | data_loader/services/validators.py:45-52 | no row stops the scan: there is no error iff every row's check finds nothing |
| Validators.RowsErrorsKeepEachRow | data_loader/services/validators.py:166-178 | each row's errors appear whole and in place after those of the rows before it |
| Validators.RowsErrorsBound | data_loader/services/validators.py:208-226 | with at most k errors per row, n rows give at most k·n errors |
| Validators.RowsErrorsLabelled | data_loader/services/validators.py:48-51 | every row error is labelled with a line between 2 and n + 1 |
| Validators.ValidateFile | data_loader/services/validators.py:39-52 | the loop returns exactly `FileErrors` of the file |
| Validators.ValidateStudentsFile | data_loader/services/validators.py:27-52 | `validate_students_file` returns the students file's errors |
| Validators.ValidateTeachersFile | data_loader/services/validators.py:55-79 | `validate_teachers_file` returns the teachers file's errors |
| Validators.ValidateProgramsFile | data_loader/services/validators.py:82-105 | `validate_programs_file` returns the programs file's errors |
| Validators.ValidateCoursesFile | data_loader/services/validators.py:108-137 | `validate_courses_file` returns the courses file's errors |
| Validators.ValidateEnrollmentsFile | data_loader/services/validators.py:140-178 | `validate_enrollments_file` returns the enrollments file's errors |
| Validators.ValidateResultsFile | data_loader/services/validators.py:181-226 | `validate_results_file` returns the results file's errors |
| Validators.ValidateDegreesFile | data_loader/services/validators.py:229-262 | `validate_degrees_file` returns the degrees file's errors |
| Ingestion.GetInstituteByAcronym | data_loader/services/ingestion.py:27-34 | a found institute belongs to the user's institution and carries the trimmed acronym; none is found iff no institute of the user's institution carries it; another tenant's institute is never returned |
| Ingestion.FirstEnrollment | data_loader/services/ingestion.py:213-215 | none iff the student has no enrollment at the institute; otherwise the enrollment with the first key among them |
| Ingestion.StudentStep | data_loader/services/ingestion.py:45-59 | a students row upserts on the trimmed id iff its columns exist, is never skipped, overwrites every field, and reports whether the key existed |
| Ingestion.TeacherStep | data_loader/services/ingestion.py:68-90 | a skipped row has an unresolved institute; an upsert changes only the teacher at the trimmed id, and writes the row's trimmed fields under the one institute of the user's institution that the acronym names |
| Ingestion.TeacherRowPlan | data_loader/services/ingestion.py:68-90 | what a teachers row does, judged on the store: a skip has an unresolved institute; a write puts the row's teacher under the trimmed id and the one institute of the user's institution that the acronym names |
| Ingestion.ProgramStep | data_loader/services/ingestion.py:99-120 | a skipped row has an unresolved institute; an upsert changes only the program at the trimmed id, and writes the row's trimmed fields under the one institute of the user's institution that the acronym names |
| Ingestion.ProgramRowPlan | data_loader/services/ingestion.py:99-120 | what a programs row does, judged on the store: a skip has an unresolved institute; a write puts the row's program under the trimmed id and the one institute of the user's institution that the acronym names |
| Ingestion.CourseTeacher | data_loader/services/ingestion.py:136-142 | the course's teacher is the trimmed id when it names a stored teacher; it is none iff that id is empty or unknown |
| Ingestion.CourseStep | data_loader/services/ingestion.py:129-158 | skipped iff the trimmed program id is unknown; aborts iff the row's plan aborts (a missing column, a credits cell that is not an integer, outside SQLite's 64-bit `INTEGER` or negative); an upsert changes only the course at the trimmed id and writes the row's trimmed fields with that program, the optional teacher and the credits the cell reads as |
| Ingestion.CourseRowPlan | data_loader/services/ingestion.py:129-158 | what a courses row does, judged on the store: skipped iff the program id is unknown; a write puts the row's course under the trimmed id with a stored program, the resolved teacher and the credits the cell reads as, which fit in a SQLite `INTEGER` |
| Ingestion.EnrollmentStep | data_loader/services/ingestion.py:167-194 | an upsert changes only the enrollment at the trimmed id and writes the row's trimmed fields, naming a stored student, a stored program and the one institute of the user's institution that the acronym names |
| Ingestion.EnrollmentRowPlan | data_loader/services/ingestion.py:167-194 | what an enrollments row does, judged on the store: a write puts the row's enrollment under the trimmed id, for a stored student and program, under the one institute the acronym names |
| Ingestion.ResultStep | data_loader/services/ingestion.py:203-234 | an upsert changes only the result at the trimmed id and writes the row's trimmed fields for the first enrollment of the row's student at the institute the acronym names; its course is stored and its note is the number the cell reads as |
| Ingestion.ResultRowPlan | data_loader/services/ingestion.py:203-234 | what a results row does, judged on the store: a write puts the row's result under the trimmed id, for the first enrollment of its student at the institute the acronym names, with a stored course and the note the cell reads as |
| Ingestion.ResultWrite | data_loader/services/ingestion.py:224-233 | once the enrollment is found the row is never skipped; a write carries the trimmed id, the row's texts and the number the note cell reads as |
| Ingestion.DegreeStep | data_loader/services/ingestion.py:243-272 | an upsert changes only the degree at the trimmed id and writes the row's fields for the first enrollment of the row's student at the institute the acronym names; that enrollment holds no other degree |
| Ingestion.Commit | data_loader/services/ingestion.py:40-41 | an aborted run leaves the store exactly as it was and reports the exception; a finished run commits its store and counts |
| Ingestion.IngestRows | data_loader/services/ingestion.py:63-91 | the row loop with its counters computes exactly the transaction `Commit(RunFrom(...))` |
| Ingestion.IngestStudents | data_loader/services/ingestion.py:40-60 | `ingest_students` computes `Ingest` for students, without a user |
| Ingestion.IngestTeachers | data_loader/services/ingestion.py:63-91 | `ingest_teachers` computes `Ingest` for teachers |
| Ingestion.IngestPrograms | data_loader/services/ingestion.py:94-121 | `ingest_programs` computes `Ingest` for programs |
| Ingestion.IngestCourses | data_loader/services/ingestion.py:124-159 | `ingest_courses` computes `Ingest` for courses, without a user |
| Ingestion.IngestEnrollments | data_loader/services/ingestion.py:162-195 | `ingest_enrollments` computes `Ingest` for enrollments |
| Ingestion.IngestResults | data_loader/services/ingestion.py:198-235 | `ingest_results` computes `Ingest` for results |
| Ingestion.IngestDegrees | data_loader/services/ingestion.py:238-273 | `ingest_degrees` computes `Ingest` for degrees |
| Ingestion.SuccessMessageCounts | data_loader/services/ingestion.py:60-273 | the text an ingestor returns determines every counter it reports: created always, updated except for results and degrees, skipped except for students |
| Strings.ReprQuote | data_loader/services/ingestion.py:147 | `repr` quotes a text with `"` iff it holds an apostrophe and no double quote, otherwise with `'` |
| Strings.StrRepr | data_loader/services/ingestion.py:147 | the `repr` of a text is at least two characters longer and begins and ends with the quote `ReprQuote` chooses |
| Strings.StrReprRoundTrip | data_loader/services/ingestion.py:147 | the text can be read back from its `repr` |
| Strings.StrReprInjective | data_loader/services/ingestion.py:147 | distinct texts have distinct `repr`s |
| Strings.StrReprPlain | data_loader/services/ingestion.py:147 | a text without quotes, backslashes or escaped control characters prints between apostrophes unchanged |
| Strings.Cut | data_loader/services/ingestion.py:147 | the `.200` precision keeps a prefix of the text, of length the smaller of its length and 200 |
| Ingestion.ManyInstitutesCapped | data_loader/services/ingestion.py:30-34 | from 21 matching institutes on, the exception text says "more than 20" instead of the count, as Django's `get()` words it |
| Ingestion.FailureMessageNames | data_loader/views.py:76-81 | the exception text names its cause: the missing column, the cell that is not a number (for a credits cell, while its `repr` fits in the 200 characters `int()` keeps), or the number of matching institutes below 21 |
| Ingestion.IntMessageCut | data_loader/services/ingestion.py:147 | `int()` keeps only the first 200 characters of the cell's `repr`: two plain credits cells that agree on their first 199 characters abort with the same text |
| StepProps.TeacherSkips | data_loader/services/ingestion.py:72-75 | with its columns present, a teachers row is skipped iff its institute does not resolve |
| StepProps.ProgramSkips | data_loader/services/ingestion.py:103-106 | with its columns present, a programs row is skipped iff its institute does not resolve |
| StepProps.EnrollmentSkips | data_loader/services/ingestion.py:168-179 | an enrollments row is skipped iff the institute, the trimmed student or the trimmed program does not resolve |
| StepProps.ResultSkips | data_loader/services/ingestion.py:204-222 | a results row is skipped iff the institute, the student or the course does not resolve, or the student has no enrollment there |
| StepProps.DegreeSkips | data_loader/services/ingestion.py:244-261 | a degrees row is skipped iff the institute or the student does not resolve, or the student has no enrollment there |
| StepProps.CourseAborts | data_loader/services/ingestion.py:129-158 | with every column present and the program stored, a courses row aborts iff its credits cell is not an integer in 0 .. 2^63 - 1; credits outside -2^63 .. 2^63 - 1 abort with sqlite3's "Python int too large to convert to SQLite INTEGER" |
| StepProps.ResultFirstEnrollment | data_loader/services/ingestion.py:213-225 | a stored result goes to the first enrollment of the row's student at the row's institute |
| StepProps.DegreeFirstEnrollment | data_loader/services/ingestion.py:252-264 | a stored degree goes to the first enrollment of the row's student at the row's institute |
| StepProps.StudentStepConsistent | data_loader/services/ingestion.py:53-55 | a students row keeps a consistent store consistent |
| StepProps.TeacherStepConsistent | data_loader/services/ingestion.py:84-86 | a teachers row keeps a consistent store consistent |
| StepProps.ProgramStepConsistent | data_loader/services/ingestion.py:114-116 | a programs row keeps a consistent store consistent |
| StepProps.CourseStepConsistent | data_loader/services/ingestion.py:152-154 | a courses row keeps a consistent store consistent |
| StepProps.EnrollmentStepConsistent | data_loader/services/ingestion.py:188-190 | an enrollments row keeps a consistent store consistent |
| StepProps.ResultStepConsistent | data_loader/services/ingestion.py:231-233 | a results row keeps a consistent store consistent |
| StepProps.DegreeStepConsistent | data_loader/services/ingestion.py:269-271 | a degrees row keeps a consistent store consistent, one-to-one relation included |
| StepProps.StepConsistent | data_loader/services/ingestion.py:40-273 | the row of any ingestor keeps a consistent store consistent |
| IngestionProps.RunCounts | data_loader/services/ingestion.py:63-91 | each row that does not abort bumps exactly one counter |
| IngestionProps.CountsAddUp | data_loader/services/ingestion.py:198-235 | created + updated + skipped is the number of rows of an imported file; results and degrees never count an update |
| IngestionProps.StepTouches | data_loader/services/ingestion.py:84-86 | a row changes only its own kind's table and loses no key of it |
| IngestionProps.TouchesTransitive | data_loader/services/ingestion.py:68-90 | changing only one table, without losing keys, composes over rows |
| IngestionProps.RunTouches | data_loader/services/ingestion.py:68-90 | a run changes only its kind's table and loses no key |
| IngestionProps.IngestTouchesOwnTable | data_loader/services/ingestion.py:63-91 | every import changes only its own table, and loses no key of it |
| IngestionProps.RunStudentsStore | data_loader/services/ingestion.py:45-59 | a students run merges the file's records over the stored ones |
| IngestionProps.RunStudentsCounts | data_loader/services/ingestion.py:53-59 | a students run counts as created exactly the distinct new ids |
| IngestionProps.IngestStudentsEffect | data_loader/services/ingestion.py:40-60 | a students file with its columns is imported: the store gains the file's records, created is the number of new distinct ids, created + updated is the number of rows, nothing is skipped |
| IngestionProps.FileStudentsKeys | data_loader/services/ingestion.py:46-55 | the ids a file writes are exactly its rows' trimmed ids |
| IngestionProps.FileStudentsHead | data_loader/services/ingestion.py:53-55 | a row whose id no later row carries leaves its own record |
| IngestionProps.FileStudentsLastWins | data_loader/services/ingestion.py:53-55 | last write wins: the record of an id is that of the last row carrying it |
| IngestionProps.FileStudentsSource | data_loader/services/ingestion.py:46-55 | every record written is the record of a row carrying its id |
| IngestionProps.IngestStudentsIdempotent | data_loader/services/ingestion.py:53-55 | importing the same students file twice changes nothing more |
| IngestionProps.RunConsistent | data_loader/services/ingestion.py:40-41 | a run whose every row keeps consistency ends consistent |
| IngestionProps.IngestPreservesConsistent | core/models.py:15-151 | every import, committed or rolled back, leaves a consistent store consistent |
| IngestionProps.RunKeeps | data_loader/services/ingestion.py:203-234 | a run keeps any store property that each of its rows keeps |
| IngestionProps.StepWithoutInstitution | data_loader/services/ingestion.py:29-34 | for a user without an institution, no row of a tenant-scoped kind writes |
| IngestionProps.RunWithoutWrites | data_loader/services/ingestion.py:73-75 | a run none of whose rows writes leaves the store as it was |
| IngestionProps.IngestWithoutInstitution | data_loader/services/ingestion.py:29-34 | a user without an institution changes nothing through the teachers, programs, enrollments, results or degrees import |
| IngestionProps.TeachersWithoutIdAbort | data_loader/services/ingestion.py:68-70 | a non-empty teachers file with an acronym column but without `teacher_id` aborts with `KeyError` and imports nothing |
| Upserts.RunPlannedFails | data_loader/services/ingestion.py:63-91 | a run whose rows follow a plan fixed before the file fails iff some row's plan raises |
| Upserts.RunPlannedStore | data_loader/services/ingestion.py:63-91 | such a run, when it finishes, leaves the table merged with the file's writes and changes nothing else |
| Upserts.RunPlannedCounts | data_loader/services/ingestion.py:63-91 | such a run counts a creation per key new to the table, when updates are counted apart, and a skip per skipped row |
| Upserts.CommitPlanned | data_loader/services/ingestion.py:40-41 | the transaction around a planned run aborts iff some row's plan raises; otherwise it stores the table merged with the file's writes and counts the new keys and the skips |
| Upserts.FileWritesSource | data_loader/services/ingestion.py:84-86 | every entry a file writes was written by one of its rows, and no later row writes that key |
| Upserts.FileWritesLastWins | data_loader/services/ingestion.py:84-86 | last write wins: the entry under a key is what the last row writing that key wrote |
| Upserts.LookupReadsInstitutes | data_loader/services/ingestion.py:27-34 | the institute lookup reads only the institutes |
| Upserts.FirstEnrollmentReadsEnrollments | data_loader/services/ingestion.py:213-215 | the enrollment lookup reads only the enrollments |
| Upserts.ResultRowPlanReads | data_loader/services/ingestion.py:203-234 | a results row plans the same on any store with the same institutes, students, courses and enrollments |
| Upserts.TeacherRowFollows | data_loader/services/ingestion.py:68-90 | on any teachers table, a teachers row does what its plan on the store before the file says |
| Upserts.TeachersFollowPlan | data_loader/services/ingestion.py:68-90 | every row of a teachers file does the same whatever the teachers table holds |
| Upserts.IngestTeachersEffect | data_loader/services/ingestion.py:63-91 | a teachers file aborts iff one of its rows raises on the store as it was; otherwise it merges its teachers, last row winning, and counts the new keys as created and the skipped rows as skipped |
| Upserts.FileTeachersSource | data_loader/services/ingestion.py:72-88 | each teacher the file writes is the last row's teacher with that row's id, under the institute that row's acronym names; no later row writes that id |
| Upserts.ProgramRowFollows | data_loader/services/ingestion.py:99-120 | on any programs table, a programs row does what its plan on the store before the file says |
| Upserts.ProgramsFollowPlan | data_loader/services/ingestion.py:99-120 | every row of a programs file does the same whatever the programs table holds |
| Upserts.IngestProgramsEffect | data_loader/services/ingestion.py:94-121 | a programs file aborts iff one of its rows raises on the store as it was; otherwise it merges its programs, last row winning, and counts the new keys as created and the skipped rows as skipped |
| Upserts.FileProgramsSource | data_loader/services/ingestion.py:103-118 | each program the file writes is the last row's program with that row's id, under the institute that row's acronym names; no later row writes that id |
| Upserts.CourseRowFollows | data_loader/services/ingestion.py:129-158 | on any courses table, a courses row does what its plan on the store before the file says |
| Upserts.CoursesFollowPlan | data_loader/services/ingestion.py:129-158 | every row of a courses file does the same whatever the courses table holds |
| Upserts.IngestCoursesEffect | data_loader/services/ingestion.py:124-159 | a courses file aborts iff one of its rows raises on the store as it was; otherwise it merges its courses, last row winning, and counts the new keys as created and the skipped rows as skipped |
| Upserts.FileCoursesSource | data_loader/services/ingestion.py:130-156 | each course the file writes is the last row's course with that row's id, a stored program and the credits its cell reads as; no later row writes that id |
| Upserts.EnrollmentRowFollows | data_loader/services/ingestion.py:167-194 | on any enrollments table, an enrollments row does what its plan on the store before the file says |
| Upserts.EnrollmentsFollowPlan | data_loader/services/ingestion.py:167-194 | every row of an enrollments file does the same whatever the enrollments table holds |
| Upserts.IngestEnrollmentsEffect | data_loader/services/ingestion.py:162-195 | an enrollments file aborts iff one of its rows raises on the store as it was; otherwise it merges its enrollments, last row winning, and counts the new keys as created and the skipped rows as skipped |
| Upserts.FileEnrollmentsSource | data_loader/services/ingestion.py:168-192 | each enrollment the file writes is the last row's enrollment with that row's id, for a stored student and program, under the institute that row's acronym names; no later row writes that id |
| Upserts.ResultRowFollows | data_loader/services/ingestion.py:203-234 | on any results table, a results row does what its plan on the store before the file says |
| Upserts.ResultsFollowPlan | data_loader/services/ingestion.py:203-234 | every row of a results file does the same whatever the results table holds |
| Upserts.IngestResultsEffect | data_loader/services/ingestion.py:198-235 | a results file aborts iff one of its rows raises on the store as it was; otherwise it merges its results, last row winning, counts every row it does not skip as created, and the skipped rows as skipped |
| Upserts.FileResultsSource | data_loader/services/ingestion.py:204-232 | each result the file writes is the last row's result with that row's id and note, for the first enrollment of that row's student at the institute its acronym names; no later row writes that id |
| Agreement.RowsPassed | data_loader/services/validators.py:39-52 | a file with no validation error has every required column and every row passes its check |
| Agreement.AcronymCheckAgrees | data_loader/services/ingestion.py:27-34 | the validator accepts a trimmed acronym iff the ingestor's lookup finds an institute for it |
| Agreement.ValidatedTeachersNotSkipped | data_loader/services/ingestion.py:72-75 | no row of a teachers file that passed validation is skipped for an unknown institute |
| Agreement.ValidatedProgramsNotSkipped | data_loader/services/ingestion.py:103-106 | no row of a programs file that passed validation is skipped for an unknown institute |
| Agreement.ValidatedStudentsWellFormed | data_loader/services/ingestion.py:45-55 | a students file that passed validation is imported, and every record it writes has a non-empty id and gender M or F |
| Agreement.ResultStepKeepsNotes | data_loader/services/ingestion.py:229 | a results row whose note passed the check keeps every stored note in [0, 20] |
| Agreement.ValidatedNotesAccepted | data_loader/services/validators.py:216-225 | every row of a results file that passed validation has a numeric note in [0, 20] |
| Agreement.IngestResultsKeepsNotes | data_loader/services/ingestion.py:224-233 | importing rows whose notes passed keeps every stored note in [0, 20] |
| Agreement.ValidatedResultsNotesInRange | data_loader/services/validators.py:216-221 | a results file that passed validation never stores a note outside [0, 20] |
| Audit.StatusText | data_loader/models.py:14-18 | every status is stored as one of the three status choices |
| Audit.ImportFile.constructor | data_loader/models.py:23 | a new record has the declared file type, status pending, saved as pending, and no logs |
| Audit.ImportFile.Save | data_loader/views.py:53 | the stored status becomes the object's status |
| Audit.ImportFile.AddLog | data_loader/views.py:55-57 | one log is appended to the record's logs |
| Uploads.Key | data_loader/views.py:9-17 | each file type has its key among the dispatch keys |
| Uploads.KindOf | data_loader/views.py:39-41 | a posted type selects a file type iff it is a dispatch key, and that file type has that key |
| Uploads.KindOfKey | data_loader/views.py:9-27 | each file type is reached through its own key |
| Uploads.DispatchBeyondChoices | data_loader/models.py:6-12 | every declared file-type choice is a dispatch key, and the dispatch keys beyond the choices are exactly teachers and degrees |
| Uploads.IngestIgnoresUser | data_loader/views.py:19-27 | the students and courses ingestors give the same store and outcome for any user, so the entries that drop the user change nothing |
| Uploads.ValidationIgnoresUser | data_loader/views.py:10-13 | the students and courses validators give the same errors for any user |
| Uploads.Validate | data_loader/views.py:49 | calls the validator of the file type and returns its errors |
| Uploads.RunIngestor | data_loader/views.py:70 | calls the ingestor of the file type and returns its store and outcome |
| Uploads.SummaryLines | data_loader/views.py:60-62 | the summary shows the first min(n, 5) errors in order, plus a count line iff n > 5 |
| Uploads.ErrorTextLines | data_loader/views.py:60-62 | the summary text is its lines joined by newlines |
| Uploads.ValidationFailedText | data_loader/views.py:59-67 | the message states the number of all the errors, which can be read back from it, then the summary lines joined by newlines |
| Uploads.RecordErrors | data_loader/views.py:51-57 | the record is marked and saved as failed, then gains one error log per error, in order |
| Uploads.RecordOutcome | data_loader/views.py:69-83 | the record's status and log follow the ingestion's outcome, and the status is saved |
| Uploads.UploadEffect | data_loader/views.py:44-49 | a known type whose file cannot be read raises at validation, and only then: its record stays pending, with no log, and the store is untouched |
| Uploads.UploadFile | data_loader/views.py:35-85 | the view: no record for an unknown type, otherwise a fresh record whose status, saved status and logs, with the store, are those `UploadEffect` gives; the message is `UploadEffect`'s, and there is none when reading the file raised |
| Pipeline.UnknownTypeRejected | data_loader/views.py:39-41 | an upload is rejected before anything is recorded iff its type is not a dispatch key |
| Pipeline.IngestOnlyWhenValid | data_loader/views.py:49-70 | the store changes only through the ingestor, which runs only on a file without validation errors |
| Pipeline.FailedValidationLogs | data_loader/views.py:51-57 | with n > 0 errors, the status is error and there are exactly n error logs, one per error, in order |
| Pipeline.IngestionLogs | data_loader/views.py:68-83 | a valid file leaves one log: informational and status validated when imported, the exception's text and status error when aborted |
| Pipeline.NeverPending | data_loader/views.py:44-83 | a record stays pending iff its file could not be read; every other recorded upload ends validated or failed |
| Pipeline.UploadKeepsConsistent | data_loader/views.py:68-83 | an upload, whatever its outcome, leaves a consistent store consistent |

## Left out

- Reading the file (CSV or Excel through pandas) is not modelled. A file is given as a header and text cells, with missing cells already "", or as unreadable, without the reader's reason.
- Uploads.UploadFile: when reading the file raises, the model stops with the record pending and no message. The server error that Django then answers with is not modelled.
- Cells are texts in this model. pandas may type a cell as a number, and then `int()`, `float()` and `.strip()` act on that number instead, for example `int(3.0)` or an `AttributeError` from `.strip()`.
- Strings.ParseInt: models `int()` on ASCII decimal digits with an optional sign and surrounding whitespace. It leaves out underscores between digits and the other Unicode decimal digits, which `int()` also accepts.
- Strings.ParseDecimal: models `float()` on plain ASCII decimals only. It leaves out exponents, `inf`, `nan`, underscores and the other Unicode decimal digits, and it works on exact rationals rather than IEEE floats.
- Validators.NoteErrors: the quoted note is the exact decimal in `repr`'s shape. Python's `repr` switches to exponent form from 1e16 on and below 1e-4, and rounds to about 17 significant digits; neither is modelled.
- Stored results keep the exact note. The `DecimalField(max_digits=5, decimal_places=2)` rounding, and the database error for a note too wide, are left out.
- Dates are kept as the texts the file gives. Their conversion or refusal when a record is saved is left out.
- `CharField` length limits, and the database errors that exceed them, are left out.
- Strings.Upper: maps only ASCII letters. The non-ASCII case mappings of Python's `upper()` are left out.
- Primary keys are ordered by code point for `first()`. A database collation that orders otherwise is left out.
- Ingestion.CourseRowPlan: the limit of 4300 digits that `int()` puts on a decimal text since Python 3.11 is not modelled. A credits cell of more than 4300 digits raises `ValueError` there; the model reads it, and aborts with the overflow of SQLite's 64-bit `INTEGER` unless leading zeros bring its value within range, in which case it writes the course. Upserts.IngestCoursesEffect and StepProps.CourseAborts inherit this gap.
- Exception texts follow the wording of Python, of Django's `get()` (with its cap at 21 matches) and of SQLite. Other database backends word them differently.
- Ingestion.FailureMessageNames: for credits cells it is stated only for cells whose `repr` fits in 200 characters, because `int()` cuts longer ones and two of them can then abort with the same text (`Ingestion.IntMessageCut`).
- Strings.StrRepr: characters above U+00FF are written as they are; Python escapes those it does not count as printable (such as U+2028) as `\uXXXX` or `\UXXXXXXXX`, so for cells holding them the failure texts of `int()` and `float()` differ from the model.
- The choice lists and field defaults of core/models.py are not modelled, except the gender choices the students validator checks. The ORM does not check choices on save, so stored fields are plain texts, and every import writes each of those fields from its row, so no default is ever used.
- Several institutes with one acronym in one institution abort the import, because `get()` raises an uncaught exception. Uniqueness is not assumed.
- The HTTP layer of the view is left out: the request and its files, `login_required`, `redirect`, `render` and the ten-upload history. A flashed message becomes a `Flash` value.
- The uploaded file stored on the `ImportFile`, `uploaded_by` and the timestamps are left out.
- Concurrency is left out, in particular other writes between validation and ingestion.
- Ingestion.IngestDegrees: no whole-file effect lemma like those of the other imports. A degree row checks the degrees already stored, those of earlier rows included, so its effect is not fixed by the store before the file. The model proves what a single degree row writes and that a degrees run changes only its own table.
