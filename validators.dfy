/**
 * The file validators (data_loader/services/validators.py). Each validator
 * first checks the header for its required columns and, if any is missing,
 * answers with exactly one error without looking at a row. Otherwise it
 * checks every row and collects every error, each tagged with the row's
 * number in the file (data index + 2: one for counting from 1, one for the
 * header line).
 *
 * `ValidateFile` builds the error list in a loop, as each validator of the
 * source does; `FileErrors` with the row checks below is its specification.
 */
module Validators {
  import opened Options
  import opened Strings
  import opened Frames
  import opened Academic

  const StudentsRequired: seq<string> :=
    ["student_id", "first_name", "last_name", "gender (M/F)", "birthdate (YYYY-MM-DD)"]
  const TeachersRequired: seq<string> :=
    ["first_name", "last_name", "grade", "status", "institute_acronym"]
  const ProgramsRequired: seq<string> :=
    ["program_id", "name", "domain", "level", "institute_acronym"]
  const CoursesRequired: seq<string> :=
    ["course_id", "code", "name", "credits", "semester", "program_id", "teacher_id (optional)"]
  const EnrollmentsRequired: seq<string> :=
    ["enrollment_id", "student_id", "program_id", "institute_acronym", "academic_year", "status"]
  const ResultsRequired: seq<string> :=
    ["result_id", "student_id", "institute_acronym", "course_id", "academic_year", "session", "note"]
  const DegreesRequired: seq<string> :=
    ["degree_id", "student_id", "institute_acronym", "date_awarded (YYYY-MM-DD)", "degree_type", "name"]

  /** The sets of existing keys a validator fetches before it looks at the rows. */
  datatype Lookups = Lookups(
    acronyms: set<string>,
    studentIds: set<string>,
    programIds: set<string>,
    courseIds: set<string>,
    teacherIds: set<string>)

  /** The acronyms of the institutes of the user's own institution. */
  function InstitutionAcronyms(db: Store, user: User): (acronyms: set<string>)
    ensures forall id :: OwnedBy(db, id, user) ==> db.institutes[id].acronym in acronyms
    ensures forall a :: a in acronyms ==> exists id :: OwnedBy(db, id, user) && db.institutes[id].acronym == a
  {
    set id | id in db.institutes && OwnedBy(db, id, user) :: db.institutes[id].acronym
  }

  /** What the tenant-scoped validators fetch: the user's acronyms and every stored key. */
  function LookupsOf(db: Store, user: User): Lookups
  {
    Lookups(InstitutionAcronyms(db, user), db.students.Keys, db.programs.Keys, db.courses.Keys, db.teachers.Keys)
  }

  /** What the courses validator fetches: program and teacher keys, for every tenant. */
  function CourseLookups(db: Store): Lookups
  {
    Lookups({}, {}, db.programs.Keys, {}, db.teachers.Keys)
  }

  /** The students validator fetches nothing. */
  const NoLookups: Lookups := Lookups({}, {}, {}, {}, {})

  /**
   * One validation error. The validators of the source build these as
   * texts; `Message` gives the text.
   */
  datatype ValidationError =
    | Missing(columns: seq<string>)     // "Missing required columns: a, b"
    | AtRow(row: nat, text: string)     // "Row N: ...", N the row's line in the file

  function Message(e: ValidationError): string
  {
    match e
    case Missing(columns) => "Missing required columns: " + Join(columns, ", ")
    case AtRow(row, text) => "Row " + NatToString(row) + ": " + text
  }

  /** A row's message names its line and its text: both can be read back from it. */
  lemma MessageInjective(e1: ValidationError, e2: ValidationError)
    requires e1.AtRow? && Message(e1) == Message(e2)
    ensures e1 == e2
  {
    var m := Message(e1);
    assert m[0] == 'R';
    if e2.AtRow? {
      NumberBefore("Row ", e1.row, ": ");
      NumberAtExtend("Row " + NatToString(e1.row) + ": ", 4, e1.row, e1.text);
      NumberBefore("Row ", e2.row, ": ");
      NumberAtExtend("Row " + NatToString(e2.row) + ": ", 4, e2.row, e2.text);
      NumberAtUnique(m, 4, e1.row, e2.row);
      var head := "Row " + NatToString(e1.row) + ": ";
      assert m[|head|..] == e1.text;
      assert Message(e2)[|head|..] == e2.text;
    }
  }

  /** The error `text` for the row at data index `index`: line `index + 2` of the file. */
  function RowError(index: nat, text: string): ValidationError
  {
    AtRow(index + 2, text)
  }

  /** Every error is about line `index + 2` of the file. */
  predicate AllAtRow(errors: seq<ValidationError>, index: nat)
  {
    forall e :: e in errors ==> e.AtRow? && e.row == index + 2
  }

  function Quoted(s: string): string
  {
    "'" + s + "'"
  }

  // ---------------------------------------------------------------------
  // Row checks, one per validator
  // ---------------------------------------------------------------------

  /** Students: the trimmed id must be non-empty and the gender M or F; both can fail. */
  function StudentRowErrors(ctx: Lookups, index: nat, row: Row): (errors: seq<ValidationError>)
    ensures |errors| ==
      (if Strip(Cell(row, "student_id")) == [] then 1 else 0)
      + (if Strip(Upper(Cell(row, "gender (M/F)"))) in GenderChoices then 0 else 1)
    ensures AllAtRow(errors, index)
  {
    var gender := Strip(Upper(Cell(row, "gender (M/F)")));
    (if Strip(Cell(row, "student_id")) == [] then [RowError(index, "Missing student_id")] else [])
    + (if gender in GenderChoices then []
       else [RowError(index, "Invalid gender " + Quoted(gender) + " (expected M/F)")])
  }

  /**
   * The gender check upper-cases the trimmed cell before comparing: it
   * accepts exactly `M`, `F`, `m` and `f`, with any surrounding whitespace.
   */
  lemma GenderAccepted(g: string)
    ensures Strip(Upper(g)) in GenderChoices <==> Strip(g) in ["M", "F", "m", "f"]
  {
    StripUpper(g);
    var t := Strip(g);
    if |t| == 1 {
      var c := t[0];
      assert t == [c];
      assert Upper(t) == [UpperChar(c)];
      assert UpperChar(c) == 'M' <==> c == 'M' || c == 'm';
      assert UpperChar(c) == 'F' <==> c == 'F' || c == 'f';
    }
  }

  /** Teachers: the trimmed acronym must name an institute of the user's institution. */
  function TeacherRowErrors(ctx: Lookups, index: nat, row: Row): (errors: seq<ValidationError>)
    ensures errors == [] <==> Strip(Cell(row, "institute_acronym")) in ctx.acronyms
    ensures |errors| <= 1
    ensures AllAtRow(errors, index)
  {
    var acronym := Strip(Cell(row, "institute_acronym"));
    if acronym in ctx.acronyms then []
    else [RowError(index, "Institute " + Quoted(acronym) + " not found for your institution.")]
  }

  /** Programs: the trimmed acronym must name an institute of the user's institution. */
  function ProgramRowErrors(ctx: Lookups, index: nat, row: Row): (errors: seq<ValidationError>)
    ensures errors == [] <==> Strip(Cell(row, "institute_acronym")) in ctx.acronyms
    ensures |errors| <= 1
    ensures AllAtRow(errors, index)
  {
    var acronym := Strip(Cell(row, "institute_acronym"));
    if acronym in ctx.acronyms then []
    else [RowError(index, "Unknown institute acronym " + Quoted(acronym) + " for your institution.")]
  }

  /**
   * Courses: the program id, untrimmed, must exist; the trimmed teacher id is
   * checked only when it is non-empty.
   */
  function CourseRowErrors(ctx: Lookups, index: nat, row: Row): (errors: seq<ValidationError>)
    ensures |errors| ==
      (if Cell(row, "program_id") in ctx.programIds then 0 else 1)
      + (if Strip(Cell(row, "teacher_id (optional)")) == []
            || Strip(Cell(row, "teacher_id (optional)")) in ctx.teacherIds then 0 else 1)
    ensures AllAtRow(errors, index)
  {
    var program := Cell(row, "program_id");
    var teacher := Strip(Cell(row, "teacher_id (optional)"));
    (if program in ctx.programIds then [] else [RowError(index, "Program " + Quoted(program) + " does not exist.")])
    + (if teacher != [] && teacher !in ctx.teacherIds then [RowError(index, "Teacher " + Quoted(teacher) + " not found.")] else [])
  }

  /**
   * Enrollments: the trimmed acronym must be the user's, and the untrimmed
   * student and program ids must exist; up to three errors per row.
   */
  function EnrollmentRowErrors(ctx: Lookups, index: nat, row: Row): (errors: seq<ValidationError>)
    ensures |errors| <= 3
    ensures errors == [] <==>
      && Strip(Cell(row, "institute_acronym")) in ctx.acronyms
      && Cell(row, "student_id") in ctx.studentIds
      && Cell(row, "program_id") in ctx.programIds
    ensures AllAtRow(errors, index)
  {
    var acronym := Strip(Cell(row, "institute_acronym"));
    var student := Cell(row, "student_id");
    var program := Cell(row, "program_id");
    (if acronym in ctx.acronyms then []
     else [RowError(index, "Institute " + Quoted(acronym) + " not valid for your institution.")])
    + (if student in ctx.studentIds then [] else [RowError(index, "Student " + Quoted(student) + " does not exist.")])
    + (if program in ctx.programIds then [] else [RowError(index, "Program " + Quoted(program) + " not found.")])
  }

  /** A note is accepted when it reads as a number in the inclusive range 0 to 20. */
  predicate NoteInRange(v: real)
  {
    0.0 <= v <= 20.0
  }

  /**
   * The note check of the results validator: a non-numeric note gives the
   * "must be numeric" error alone, quoting the cell; a numeric note outside
   * [0, 20] gives the "Invalid note" error, quoting the parsed number as
   * `repr` prints it. Never both.
   */
  function NoteErrors(index: nat, note: string): (errors: seq<ValidationError>)
    ensures |errors| <= 1
    ensures errors == [] <==> ParseDecimal(note).Some? && NoteInRange(ParseDecimal(note).value)
    ensures ParseDecimal(note).None? ==>
      errors == [RowError(index, "Invalid note value " + Quoted(note) + " (must be numeric).")]
    ensures ParseDecimal(note).Some? && !NoteInRange(ParseDecimal(note).value) ==>
      errors == [RowError(index, "Invalid note " + Quoted(FloatRepr(note)) + " (should be between 0 and 20).")]
    ensures AllAtRow(errors, index)
  {
    match ParseDecimal(note)
    case None => [RowError(index, "Invalid note value " + Quoted(note) + " (must be numeric).")]
    case Some(v) =>
      if NoteInRange(v) then []
      else [RowError(index, "Invalid note " + Quoted(FloatRepr(note)) + " (should be between 0 and 20).")]
  }

  /** A whole note above 20 is quoted as Python's `float` prints it: `21` reads back as `'21.0'`. */
  lemma WholeNoteTooHigh(index: nat, n: nat)
    requires n > 20
    ensures NoteErrors(index, NatToString(n))
         == [RowError(index, "Invalid note '" + NatToString(n) + ".0' (should be between 0 and 20).")]
  {
    ParseDecimalNatToString(n);
    FloatReprOfNat(n);
    QuotedWhole(NatToString(n));
  }

  /** Quoting the float rendering of a whole number, spelled out. */
  lemma QuotedWhole(d: string)
    ensures "Invalid note " + Quoted(d + ".0") + " (should be between 0 and 20)."
         == "Invalid note '" + d + ".0' (should be between 0 and 20)."
  {
  }

  /** Results: student, acronym, course and note checks; up to four errors per row. */
  function ResultRowErrors(ctx: Lookups, index: nat, row: Row): (errors: seq<ValidationError>)
    ensures |errors| <= 4
    ensures errors == [] <==>
      && Cell(row, "student_id") in ctx.studentIds
      && Strip(Cell(row, "institute_acronym")) in ctx.acronyms
      && Cell(row, "course_id") in ctx.courseIds
      && NoteErrors(index, Cell(row, "note")) == []
    ensures AllAtRow(errors, index)
  {
    var student := Cell(row, "student_id");
    var acronym := Strip(Cell(row, "institute_acronym"));
    var course := Cell(row, "course_id");
    (if student in ctx.studentIds then [] else [RowError(index, "Unknown student " + Quoted(student))])
    + (if acronym in ctx.acronyms then [] else [RowError(index, "Invalid institute acronym " + Quoted(acronym))])
    + (if course in ctx.courseIds then [] else [RowError(index, "Course " + Quoted(course) + " not found.")])
    + NoteErrors(index, Cell(row, "note"))
  }

  /** Degrees: the trimmed acronym must be the user's and the untrimmed student id must exist. */
  function DegreeRowErrors(ctx: Lookups, index: nat, row: Row): (errors: seq<ValidationError>)
    ensures |errors| <= 2
    ensures errors == [] <==>
      Strip(Cell(row, "institute_acronym")) in ctx.acronyms && Cell(row, "student_id") in ctx.studentIds
    ensures AllAtRow(errors, index)
  {
    var acronym := Strip(Cell(row, "institute_acronym"));
    var student := Cell(row, "student_id");
    (if acronym in ctx.acronyms then []
     else [RowError(index, "Institute " + Quoted(acronym) + " not recognized for your institution.")])
    + (if student in ctx.studentIds then [] else [RowError(index, "Student " + Quoted(student) + " not found.")])
  }

  // ---------------------------------------------------------------------
  // The whole-file specification
  // ---------------------------------------------------------------------

  /** The errors of the first `n` rows, row after row. */
  function RowsErrors(rows: seq<Row>, ctx: Lookups, check: (Lookups, nat, Row) -> seq<ValidationError>, n: nat): seq<ValidationError>
    requires n <= |rows|
  {
    if n == 0 then [] else RowsErrors(rows, ctx, check, n - 1) + check(ctx, n - 1, rows[n - 1])
  }

  /** One structural error if a required column is missing, else every row's errors. */
  function FileErrors(t: Table, required: seq<string>, ctx: Lookups, check: (Lookups, nat, Row) -> seq<ValidationError>): seq<ValidationError>
  {
    var missing := MissingColumns(t.header, required);
    if missing != [] then [Missing(missing)] else RowsErrors(t.rows, ctx, check, |t.rows|)
  }

  function StudentsFileErrors(t: Table): seq<ValidationError>
  {
    FileErrors(t, StudentsRequired, NoLookups, StudentRowErrors)
  }

  function TeachersFileErrors(t: Table, db: Store, user: User): seq<ValidationError>
  {
    FileErrors(t, TeachersRequired, LookupsOf(db, user), TeacherRowErrors)
  }

  function ProgramsFileErrors(t: Table, db: Store, user: User): seq<ValidationError>
  {
    FileErrors(t, ProgramsRequired, LookupsOf(db, user), ProgramRowErrors)
  }

  function CoursesFileErrors(t: Table, db: Store): seq<ValidationError>
  {
    FileErrors(t, CoursesRequired, CourseLookups(db), CourseRowErrors)
  }

  function EnrollmentsFileErrors(t: Table, db: Store, user: User): seq<ValidationError>
  {
    FileErrors(t, EnrollmentsRequired, LookupsOf(db, user), EnrollmentRowErrors)
  }

  function ResultsFileErrors(t: Table, db: Store, user: User): seq<ValidationError>
  {
    FileErrors(t, ResultsRequired, LookupsOf(db, user), ResultRowErrors)
  }

  function DegreesFileErrors(t: Table, db: Store, user: User): seq<ValidationError>
  {
    FileErrors(t, DegreesRequired, LookupsOf(db, user), DegreeRowErrors)
  }

  // ---------------------------------------------------------------------
  // Properties of the specification
  // ---------------------------------------------------------------------

  /**
   * A file missing a required column gets exactly one error naming all the
   * missing columns, whatever its rows and whatever the store holds.
   */
  lemma StructuralShortCircuit(t: Table, required: seq<string>, ctx: Lookups, check: (Lookups, nat, Row) -> seq<ValidationError>,
                               otherRows: seq<Row>, otherCtx: Lookups)
    requires MissingColumns(t.header, required) != []
    ensures FileErrors(t, required, ctx, check) == [Missing(MissingColumns(t.header, required))]
    ensures FileErrors(t.(rows := otherRows), required, otherCtx, check) == FileErrors(t, required, ctx, check)
  {
  }

  /** No row stops the scan: the errors are free iff every row's check is free. */
  lemma {:induction false} RowsErrorsEmptyIff(rows: seq<Row>, ctx: Lookups, check: (Lookups, nat, Row) -> seq<ValidationError>, n: nat)
    requires n <= |rows|
    ensures RowsErrors(rows, ctx, check, n) == [] <==> forall i :: 0 <= i < n ==> check(ctx, i, rows[i]) == []
  {
    if n > 0 {
      RowsErrorsEmptyIff(rows, ctx, check, n - 1);
    }
  }

  /**
   * Every row's errors appear, whole and in place, after the errors of the
   * rows before it.
   */
  lemma {:induction false} RowsErrorsKeepEachRow(rows: seq<Row>, ctx: Lookups, check: (Lookups, nat, Row) -> seq<ValidationError>, i: nat, n: nat)
    requires i < n <= |rows|
    ensures exists rest :: RowsErrors(rows, ctx, check, n) == RowsErrors(rows, ctx, check, i) + check(ctx, i, rows[i]) + rest
  {
    if n == i + 1 {
      assert RowsErrors(rows, ctx, check, n) == RowsErrors(rows, ctx, check, i) + check(ctx, i, rows[i]) + [];
    } else {
      RowsErrorsKeepEachRow(rows, ctx, check, i, n - 1);
      var rest :| RowsErrors(rows, ctx, check, n - 1) == RowsErrors(rows, ctx, check, i) + check(ctx, i, rows[i]) + rest;
      var rest' := rest + check(ctx, n - 1, rows[n - 1]);
      assert RowsErrors(rows, ctx, check, n) == RowsErrors(rows, ctx, check, i) + check(ctx, i, rows[i]) + rest';
    }
  }

  /** With at most `k` errors per row, the first `n` rows give at most `k * n` errors. */
  lemma {:induction false} RowsErrorsBound(rows: seq<Row>, ctx: Lookups, check: (Lookups, nat, Row) -> seq<ValidationError>, n: nat, k: nat)
    requires n <= |rows|
    requires forall i :: 0 <= i < n ==> |check(ctx, i, rows[i])| <= k
    ensures |RowsErrors(rows, ctx, check, n)| <= k * n
  {
    if n > 0 {
      RowsErrorsBound(rows, ctx, check, n - 1, k);
    }
  }

  /** Every error of the first `n` rows is about one of their lines, 2 to `n + 1`. */
  lemma {:induction false} RowsErrorsLabelled(rows: seq<Row>, ctx: Lookups, check: (Lookups, nat, Row) -> seq<ValidationError>, n: nat)
    requires n <= |rows|
    requires forall i :: 0 <= i < n ==> AllAtRow(check(ctx, i, rows[i]), i)
    ensures forall e :: e in RowsErrors(rows, ctx, check, n) ==> e.AtRow? && 2 <= e.row < n + 2
  {
    if n > 0 {
      RowsErrorsLabelled(rows, ctx, check, n - 1);
      assert AllAtRow(check(ctx, n - 1, rows[n - 1]), n - 1);
    }
  }

  // ---------------------------------------------------------------------
  // The validators
  // ---------------------------------------------------------------------

  /**
   * The shape every validator of the source shares: check the header, and
   * only if no required column is missing, check each row in turn and
   * append its errors.
   */
  method ValidateFile(t: Table, required: seq<string>, ctx: Lookups, check: (Lookups, nat, Row) -> seq<ValidationError>)
    returns (errors: seq<ValidationError>)
    ensures errors == FileErrors(t, required, ctx, check)
  {
    errors := [];
    var missing := MissingColumns(t.header, required);
    if missing != [] {
      errors := errors + [Missing(missing)];
      return;
    }
    var i := 0;
    while i < |t.rows|
      invariant i <= |t.rows|
      invariant errors == RowsErrors(t.rows, ctx, check, i)
    {
      errors := errors + check(ctx, i, t.rows[i]);
      i := i + 1;
    }
  }

  /** `validate_students_file`: no lookups. */
  method ValidateStudentsFile(t: Table) returns (errors: seq<ValidationError>)
    ensures errors == StudentsFileErrors(t)
  {
    errors := ValidateFile(t, StudentsRequired, NoLookups, StudentRowErrors);
  }

  /** `validate_teachers_file`: fetches the acronyms of the user's institutes first. */
  method ValidateTeachersFile(t: Table, db: Store, user: User) returns (errors: seq<ValidationError>)
    ensures errors == TeachersFileErrors(t, db, user)
  {
    errors := ValidateFile(t, TeachersRequired, LookupsOf(db, user), TeacherRowErrors);
  }

  /** `validate_programs_file`: fetches the acronyms of the user's institutes first. */
  method ValidateProgramsFile(t: Table, db: Store, user: User) returns (errors: seq<ValidationError>)
    ensures errors == ProgramsFileErrors(t, db, user)
  {
    errors := ValidateFile(t, ProgramsRequired, LookupsOf(db, user), ProgramRowErrors);
  }

  /** `validate_courses_file`: fetches every program and teacher key, for every tenant. */
  method ValidateCoursesFile(t: Table, db: Store) returns (errors: seq<ValidationError>)
    ensures errors == CoursesFileErrors(t, db)
  {
    errors := ValidateFile(t, CoursesRequired, CourseLookups(db), CourseRowErrors);
  }

  /** `validate_enrollments_file`: the user's acronyms, every student and program key. */
  method ValidateEnrollmentsFile(t: Table, db: Store, user: User) returns (errors: seq<ValidationError>)
    ensures errors == EnrollmentsFileErrors(t, db, user)
  {
    errors := ValidateFile(t, EnrollmentsRequired, LookupsOf(db, user), EnrollmentRowErrors);
  }

  /** `validate_results_file`: the user's acronyms, every student and course key. */
  method ValidateResultsFile(t: Table, db: Store, user: User) returns (errors: seq<ValidationError>)
    ensures errors == ResultsFileErrors(t, db, user)
  {
    errors := ValidateFile(t, ResultsRequired, LookupsOf(db, user), ResultRowErrors);
  }

  /** `validate_degrees_file`: the user's acronyms and every student key. */
  method ValidateDegreesFile(t: Table, db: Store, user: User) returns (errors: seq<ValidationError>)
    ensures errors == DegreesFileErrors(t, db, user)
  {
    errors := ValidateFile(t, DegreesRequired, LookupsOf(db, user), DegreeRowErrors);
  }
}
