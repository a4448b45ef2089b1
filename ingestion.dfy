/**
 * The ingestors (data_loader/services/ingestion.py). Each one walks the rows
 * of a file in order and upserts one record per row on the record's primary
 * key, counting the row as created, updated or skipped. Each runs inside one
 * transaction: an exception on any row leaves the store as it was before the
 * call.
 *
 * A row's effect is `StepFor`: an abort (the exception the row raises), a skip
 * (a reference that does not resolve), or an upsert (the new store, and
 * whether the key existed before). `RunFrom` applies the steps from a given
 * row on, and `Ingest` adds the rollback. `IngestRows` is the loop of the
 * source, proved to compute `Ingest`.
 *
 * A column the file does not have raises `KeyError` when the ingestor reads
 * it; the model checks each read against the header, in the order the source
 * reads the columns.
 */
module Ingestion {
  import opened Options
  import opened Strings
  import opened Frames
  import opened Academic

  datatype Counts = Counts(created: nat, updated: nat, skipped: nat)

  function Total(c: Counts): nat
  {
    c.created + c.updated + c.skipped
  }

  /** The exceptions a row can raise; any of them rolls the whole file back. */
  datatype Failure =
    | KeyError(column: string)          // the file lacks a column the ingestor reads
    | MultipleInstitutes(count: nat)    // `Institute.objects.get` matched several institutes
    | NotAnInteger(text: string)        // `int(...)` of the credits cell failed
    | NotANumber(text: string)          // `float(...)` of the note cell failed
    | CreditsOutOfRange(credits: int)   // sqlite3 cannot bind an integer outside 64 bits
    | NegativeCredits(credits: int)     // the non-negative check on `Course.credits`
    | EnrollmentTaken(enrollment: string) // the one-to-one `Degree.enrollment` is already used

  datatype Outcome = Imported(counts: Counts) | Aborted(failure: Failure)

  // ---------------------------------------------------------------------
  // Lookups
  // ---------------------------------------------------------------------

  /** What `Institute.objects.get(acronym=..., institution=...)` finds. */
  datatype InstituteLookup = NoInstitute | OneInstitute(id: nat) | SeveralInstitutes(count: nat)

  /** The institutes of the user's institution that carry exactly this acronym. */
  function InstitutesNamed(db: Store, acronym: string, user: User): set<nat>
  {
    set id | id in db.institutes && OwnedBy(db, id, user) && db.institutes[id].acronym == acronym
  }

  lemma InstitutesNamedEmpty(db: Store, acronym: string, user: User)
    ensures InstitutesNamed(db, acronym, user) == {} <==>
      forall id :: OwnedBy(db, id, user) ==> db.institutes[id].acronym != acronym
  {
    var ids := InstitutesNamed(db, acronym, user);
    if ids != {} {
      var id :| id in ids;
      assert OwnedBy(db, id, user);
    } else {
      forall id | OwnedBy(db, id, user) ensures db.institutes[id].acronym != acronym {
        assert id !in ids;
      }
    }
  }

  lemma OnlyElement(s: set<nat>)
    requires |s| == 1
    ensures forall x :: x in s ==> s == {x}
  {
    forall x | x in s ensures s == {x} {
      assert |s - {x}| == 0;
    }
  }

  /** The element of a one-element set. */
  function TheOnly(s: set<nat>): (x: nat)
    requires |s| == 1
    ensures s == {x}
  {
    OnlyElement(s);
    var x :| x in s; x
  }

  /**
   * `get_institute_by_acronym`: the institute of the user's institution whose
   * acronym is the trimmed `acronym`. `DoesNotExist` becomes `NoInstitute`;
   * several matches are not caught by the source and abort the import.
   */
  function GetInstituteByAcronym(db: Store, acronym: string, user: User): (r: InstituteLookup)
    ensures r.OneInstitute? ==> OwnedBy(db, r.id, user) && db.institutes[r.id].acronym == Strip(acronym)
    ensures r.NoInstitute? <==>
      forall id :: OwnedBy(db, id, user) ==> db.institutes[id].acronym != Strip(acronym)
    ensures r.SeveralInstitutes? ==> r.count >= 2
  {
    var ids := InstitutesNamed(db, Strip(acronym), user);
    InstitutesNamedEmpty(db, Strip(acronym), user);
    if |ids| == 0 then NoInstitute
    else if |ids| == 1 then OneInstitute(TheOnly(ids))
    else SeveralInstitutes(|ids|)
  }

  /** The keys of the enrollments of `student` at `institute`. */
  function EnrollmentsOf(db: Store, student: string, institute: nat): set<string>
  {
    set k | k in db.enrollments && db.enrollments[k].student == student && db.enrollments[k].institute == institute
  }

  lemma EnrollmentsOfEmpty(db: Store, student: string, institute: nat)
    ensures EnrollmentsOf(db, student, institute) == {} <==> forall k :: k in db.enrollments ==>
      db.enrollments[k].student != student || db.enrollments[k].institute != institute
  {
    var ids := EnrollmentsOf(db, student, institute);
    if ids != {} {
      var k :| k in ids;
      assert k in db.enrollments;
    } else {
      forall k | k in db.enrollments
        ensures db.enrollments[k].student != student || db.enrollments[k].institute != institute
      {
        assert k !in ids;
      }
    }
  }

  /**
   * `Enrollment.objects.filter(student=..., institute=...).first()`: with no
   * ordering given, the first by primary key.
   */
  function FirstEnrollment(db: Store, student: string, institute: nat): (r: Option<string>)
    ensures r.None? <==> forall k :: k in db.enrollments ==>
      db.enrollments[k].student != student || db.enrollments[k].institute != institute
    ensures r.Some? ==>
      && r.value in db.enrollments
      && db.enrollments[r.value].student == student
      && db.enrollments[r.value].institute == institute
      && forall k :: k in EnrollmentsOf(db, student, institute) ==> LexLe(r.value, k)
  {
    var ids := EnrollmentsOf(db, student, institute);
    EnrollmentsOfEmpty(db, student, institute);
    if ids == {} then None else Some(Least(ids))
  }

  // ---------------------------------------------------------------------
  // One row
  // ---------------------------------------------------------------------

  /** A row's effect: an exception, a skip, or an upsert of `key` giving store `db`. */
  datatype Step = Abort(failure: Failure) | Skip | Upsert(db: Store, key: string, existed: bool)

  /** What a row does to the one table it writes: raise, skip, or write `value` under `key`. */
  datatype Plan<V> = PlanAbort(failure: Failure) | PlanSkip | PlanWrite(key: string, value: V)

  /** Reading `columns` in order: the first the file lacks raises `KeyError`. */
  function Read(header: seq<string>, columns: seq<string>): Option<Failure>
  {
    var missing := MissingColumns(header, columns);
    if missing == [] then None else Some(KeyError(missing[0]))
  }

  const StudentColumns: seq<string> :=
    ["student_id", "first_name", "last_name", "gender (M/F)", "birthdate (YYYY-MM-DD)"]

  /** The upsert key of a students row: the trimmed `student_id`. */
  function StudentKey(row: Row): string
  {
    Strip(Cell(row, "student_id"))
  }

  /** The record a students row writes: trimmed names, upper-cased trimmed gender, the date as given. */
  function StudentOf(row: Row): Student
  {
    Student(Strip(Cell(row, "first_name")), Strip(Cell(row, "last_name")),
            Strip(Upper(Cell(row, "gender (M/F)"))), Cell(row, "birthdate (YYYY-MM-DD)"))
  }

  /** A students row: an upsert exactly when its columns can be read; nothing is ever skipped. */
  function StudentStep(db: Store, header: seq<string>, row: Row): (s: Step)
    ensures s.Upsert? <==> Read(header, StudentColumns).None?
    ensures !s.Skip?
    ensures s.Upsert? ==>
      && s.key == StudentKey(row)
      && s.db == db.(students := db.students[s.key := StudentOf(row)])
      && (s.existed <==> s.key in db.students)
  {
    match Read(header, StudentColumns)
    case Some(f) => Abort(f)
    case None =>
      var key := StudentKey(row);
      Upsert(db.(students := db.students[key := StudentOf(row)]), key, key in db.students)
  }

  /** The teacher a teachers row writes under `institute`: every text field trimmed. */
  function TeacherOf(institute: nat, row: Row): Teacher
  {
    Teacher(institute, Strip(Cell(row, "first_name")), Strip(Cell(row, "last_name")),
            Strip(Cell(row, "grade")), Strip(Cell(row, "status")))
  }

  /** What a teachers row does to the teachers, judged on `db`. */
  function TeacherRowPlan(db: Store, header: seq<string>, user: User, row: Row): (p: Plan<Teacher>)
    ensures p.PlanSkip? ==> GetInstituteByAcronym(db, Strip(Cell(row, "institute_acronym")), user).NoInstitute?
    ensures p.PlanWrite? ==>
      && p.key == Strip(Cell(row, "teacher_id"))
      && OwnedBy(db, p.value.institute, user)
      && GetInstituteByAcronym(db, Strip(Cell(row, "institute_acronym")), user) == OneInstitute(p.value.institute)
      && p.value == TeacherOf(p.value.institute, row)
  {
    match Read(header, ["institute_acronym", "teacher_id"])
    case Some(f) => PlanAbort(f)
    case None =>
      match GetInstituteByAcronym(db, Strip(Cell(row, "institute_acronym")), user)
      case NoInstitute => PlanSkip
      case SeveralInstitutes(n) => PlanAbort(MultipleInstitutes(n))
      case OneInstitute(institute) =>
        match Read(header, ["first_name", "last_name", "grade", "status"])
        case Some(f) => PlanAbort(f)
        case None =>
          var key := Strip(Cell(row, "teacher_id"));
          PlanWrite(key, TeacherOf(institute, row))
  }

  /**
   * A teachers row: `teacher_id` is read before the institute lookup, so a
   * file without that column aborts on its first row. The teacher written
   * is the row's, under the one institute its acronym names for the user.
   */
  function TeacherStep(db: Store, header: seq<string>, user: User, row: Row): (s: Step)
    ensures s.Abort? <==> TeacherRowPlan(db, header, user, row).PlanAbort?
    ensures s.Skip? ==> GetInstituteByAcronym(db, Strip(Cell(row, "institute_acronym")), user).NoInstitute?
    ensures s.Upsert? ==>
      && s.key == Strip(Cell(row, "teacher_id"))
      && s.key in s.db.teachers
      && s.db == db.(teachers := db.teachers[s.key := s.db.teachers[s.key]])
      && (s.existed <==> s.key in db.teachers)
      && OwnedBy(db, s.db.teachers[s.key].institute, user)
      && GetInstituteByAcronym(db, Strip(Cell(row, "institute_acronym")), user) == OneInstitute(s.db.teachers[s.key].institute)
      && s.db.teachers[s.key] == TeacherOf(s.db.teachers[s.key].institute, row)
  {
    match TeacherRowPlan(db, header, user, row)
    case PlanAbort(failure) => Abort(failure)
    case PlanSkip => Skip
    case PlanWrite(key, value) => Upsert(db.(teachers := db.teachers[key := value]), key, key in db.teachers)
  }

  /** The program a programs row writes under `institute`: every text field trimmed. */
  function ProgramOf(institute: nat, row: Row): Program
  {
    Program(institute, Strip(Cell(row, "name")), Strip(Cell(row, "domain")), Strip(Cell(row, "level")))
  }

  /** What a programs row does to the programs, judged on `db`. */
  function ProgramRowPlan(db: Store, header: seq<string>, user: User, row: Row): (p: Plan<Program>)
    ensures p.PlanSkip? ==> GetInstituteByAcronym(db, Strip(Cell(row, "institute_acronym")), user).NoInstitute?
    ensures p.PlanWrite? ==>
      && p.key == Strip(Cell(row, "program_id"))
      && OwnedBy(db, p.value.institute, user)
      && GetInstituteByAcronym(db, Strip(Cell(row, "institute_acronym")), user) == OneInstitute(p.value.institute)
      && p.value == ProgramOf(p.value.institute, row)
  {
    match Read(header, ["institute_acronym", "program_id"])
    case Some(f) => PlanAbort(f)
    case None =>
      match GetInstituteByAcronym(db, Strip(Cell(row, "institute_acronym")), user)
      case NoInstitute => PlanSkip
      case SeveralInstitutes(n) => PlanAbort(MultipleInstitutes(n))
      case OneInstitute(institute) =>
        match Read(header, ["name", "domain", "level"])
        case Some(f) => PlanAbort(f)
        case None =>
          var key := Strip(Cell(row, "program_id"));
          PlanWrite(key, ProgramOf(institute, row))
  }

  /**
   * A programs row: skipped when the institute is not the user's. The
   * program written is the row's, under the one institute its acronym names
   * for the user.
   */
  function ProgramStep(db: Store, header: seq<string>, user: User, row: Row): (s: Step)
    ensures s.Abort? <==> ProgramRowPlan(db, header, user, row).PlanAbort?
    ensures s.Skip? ==> GetInstituteByAcronym(db, Strip(Cell(row, "institute_acronym")), user).NoInstitute?
    ensures s.Upsert? ==>
      && s.key == Strip(Cell(row, "program_id"))
      && s.key in s.db.programs
      && s.db == db.(programs := db.programs[s.key := s.db.programs[s.key]])
      && (s.existed <==> s.key in db.programs)
      && OwnedBy(db, s.db.programs[s.key].institute, user)
      && GetInstituteByAcronym(db, Strip(Cell(row, "institute_acronym")), user) == OneInstitute(s.db.programs[s.key].institute)
      && s.db.programs[s.key] == ProgramOf(s.db.programs[s.key].institute, row)
  {
    match ProgramRowPlan(db, header, user, row)
    case PlanAbort(failure) => Abort(failure)
    case PlanSkip => Skip
    case PlanWrite(key, value) => Upsert(db.(programs := db.programs[key := value]), key, key in db.programs)
  }

  /** The course's teacher: the trimmed id if it names a stored teacher, and none if it is empty or unknown. */
  function CourseTeacher(db: Store, row: Row): (teacher: Option<string>)
    ensures teacher.Some? ==> teacher.value in db.teachers && teacher.value == Strip(Cell(row, "teacher_id (optional)"))
    ensures teacher.None? <==>
      Strip(Cell(row, "teacher_id (optional)")) == [] || Strip(Cell(row, "teacher_id (optional)")) !in db.teachers
  {
    var id := Strip(Cell(row, "teacher_id (optional)"));
    if id != [] && id in db.teachers then Some(id) else None
  }

  /** The course a courses row writes with `credits`: the row's program, its resolved teacher, trimmed texts. */
  function CourseOf(db: Store, row: Row, credits: nat): Course
  {
    Course(Strip(Cell(row, "program_id")), CourseTeacher(db, row), Strip(Cell(row, "name")),
           Strip(Cell(row, "code")), credits, Strip(Cell(row, "semester")))
  }

  /** The range of a SQLite `INTEGER`: the integers sqlite3 can bind as a parameter. */
  const SqliteIntegerMin: int := -0x8000_0000_0000_0000
  const SqliteIntegerMax: int := 0x7FFF_FFFF_FFFF_FFFF

  /** What a courses row does to the courses, judged on `db`. */
  function CourseRowPlan(db: Store, header: seq<string>, row: Row): (p: Plan<Course>)
    ensures p.PlanSkip? <==> Read(header, ["program_id"]).None? && Strip(Cell(row, "program_id")) !in db.programs
    ensures p.PlanWrite? ==>
      && p.key == Strip(Cell(row, "course_id"))
      && p.value.program == Strip(Cell(row, "program_id"))
      && p.value.program in db.programs
      && p.value.teacher == CourseTeacher(db, row)
      && ParseInt(Cell(row, "credits")) == Some(p.value.credits as int)
      && p.value.credits <= SqliteIntegerMax
      && p.value == CourseOf(db, row, p.value.credits)
  {
    match Read(header, ["program_id"])
    case Some(f) => PlanAbort(f)
    case None =>
      var program := Strip(Cell(row, "program_id"));
      if program !in db.programs then PlanSkip
      else
        match Read(header, ["teacher_id (optional)", "name", "code", "credits"])
        case Some(f) => PlanAbort(f)
        case None =>
          match ParseInt(Cell(row, "credits"))
          case None => PlanAbort(NotAnInteger(Cell(row, "credits")))
          case Some(credits) =>
            match Read(header, ["semester", "course_id"])
            case Some(f) => PlanAbort(f)
            case None =>
              if credits < SqliteIntegerMin || credits > SqliteIntegerMax then PlanAbort(CreditsOutOfRange(credits))
              else if credits < 0 then PlanAbort(NegativeCredits(credits))
              else
                var key := Strip(Cell(row, "course_id"));
                PlanWrite(key, CourseOf(db, row, credits))
  }

  /**
   * A courses row: skipped exactly when the trimmed program id is unknown
   * (once that column can be read); an unknown or empty teacher id stores
   * no teacher. The credits cell must read as an integer; sqlite3 refuses
   * one outside 64 bits and the store a negative one.
   */
  function CourseStep(db: Store, header: seq<string>, row: Row): (s: Step)
    ensures s.Abort? <==> CourseRowPlan(db, header, row).PlanAbort?
    ensures s.Skip? <==> Read(header, ["program_id"]).None? && Strip(Cell(row, "program_id")) !in db.programs
    ensures s.Upsert? ==>
      && s.key == Strip(Cell(row, "course_id"))
      && s.key in s.db.courses
      && s.db == db.(courses := db.courses[s.key := s.db.courses[s.key]])
      && (s.existed <==> s.key in db.courses)
      && s.db.courses[s.key].program == Strip(Cell(row, "program_id"))
      && s.db.courses[s.key].program in db.programs
      && s.db.courses[s.key].teacher == CourseTeacher(db, row)
      && ParseInt(Cell(row, "credits")) == Some(s.db.courses[s.key].credits as int)
      && s.db.courses[s.key] == CourseOf(db, row, s.db.courses[s.key].credits)
  {
    match CourseRowPlan(db, header, row)
    case PlanAbort(failure) => Abort(failure)
    case PlanSkip => Skip
    case PlanWrite(key, value) => Upsert(db.(courses := db.courses[key := value]), key, key in db.courses)
  }

  /** The enrollment an enrollments row writes under `institute`: trimmed ids and texts. */
  function EnrollmentOf(institute: nat, row: Row): Enrollment
  {
    Enrollment(Strip(Cell(row, "student_id")), Strip(Cell(row, "program_id")), institute,
               Strip(Cell(row, "academic_year")), Strip(Cell(row, "status")))
  }

  /** What an enrollments row does to the enrollments, judged on `db`. */
  function EnrollmentRowPlan(db: Store, header: seq<string>, user: User, row: Row): (p: Plan<Enrollment>)
    ensures p.PlanWrite? ==>
      && p.key == Strip(Cell(row, "enrollment_id"))
      && p.value.student == Strip(Cell(row, "student_id"))
      && p.value.student in db.students
      && p.value.program == Strip(Cell(row, "program_id"))
      && p.value.program in db.programs
      && OwnedBy(db, p.value.institute, user)
      && GetInstituteByAcronym(db, Strip(Cell(row, "institute_acronym")), user) == OneInstitute(p.value.institute)
      && p.value == EnrollmentOf(p.value.institute, row)
  {
    match Read(header, ["institute_acronym"])
    case Some(f) => PlanAbort(f)
    case None =>
      match GetInstituteByAcronym(db, Strip(Cell(row, "institute_acronym")), user)
      case NoInstitute => PlanSkip
      case SeveralInstitutes(n) => PlanAbort(MultipleInstitutes(n))
      case OneInstitute(institute) =>
        match Read(header, ["student_id"])
        case Some(f) => PlanAbort(f)
        case None =>
          var student := Strip(Cell(row, "student_id"));
          if student !in db.students then PlanSkip
          else
            match Read(header, ["program_id"])
            case Some(f) => PlanAbort(f)
            case None =>
              var program := Strip(Cell(row, "program_id"));
              if program !in db.programs then PlanSkip
              else
                match Read(header, ["academic_year", "status", "enrollment_id"])
                case Some(f) => PlanAbort(f)
                case None =>
                  var key := Strip(Cell(row, "enrollment_id"));
                  PlanWrite(key, EnrollmentOf(institute, row))
  }

  /**
   * An enrollments row: skipped when the institute, then the student, then
   * the program does not resolve. The program id is read only once the
   * student is found. The enrollment written names a stored student and
   * program and an institute of the user's institution.
   */
  function EnrollmentStep(db: Store, header: seq<string>, user: User, row: Row): (s: Step)
    ensures s.Abort? <==> EnrollmentRowPlan(db, header, user, row).PlanAbort?
    ensures s.Upsert? ==>
      && s.key == Strip(Cell(row, "enrollment_id"))
      && s.key in s.db.enrollments
      && s.db == db.(enrollments := db.enrollments[s.key := s.db.enrollments[s.key]])
      && (s.existed <==> s.key in db.enrollments)
      && s.db.enrollments[s.key].student == Strip(Cell(row, "student_id"))
      && s.db.enrollments[s.key].student in db.students
      && s.db.enrollments[s.key].program == Strip(Cell(row, "program_id"))
      && s.db.enrollments[s.key].program in db.programs
      && OwnedBy(db, s.db.enrollments[s.key].institute, user)
      && GetInstituteByAcronym(db, Strip(Cell(row, "institute_acronym")), user) == OneInstitute(s.db.enrollments[s.key].institute)
      && s.db.enrollments[s.key] == EnrollmentOf(s.db.enrollments[s.key].institute, row)
  {
    match EnrollmentRowPlan(db, header, user, row)
    case PlanAbort(failure) => Abort(failure)
    case PlanSkip => Skip
    case PlanWrite(key, value) => Upsert(db.(enrollments := db.enrollments[key := value]), key, key in db.enrollments)
  }

  /** The result a results row writes for `enrollment` with `note`: the row's course, trimmed texts. */
  function ResultOf(enrollment: string, row: Row, note: real): Result
  {
    Result(enrollment, Strip(Cell(row, "course_id")), Strip(Cell(row, "academic_year")), Strip(Cell(row, "session")), note)
  }

  /** What a results row does to the results, judged on `db`. */
  function ResultRowPlan(db: Store, header: seq<string>, user: User, row: Row): (p: Plan<Result>)
    ensures p.PlanWrite? ==>
      && p.key == Strip(Cell(row, "result_id"))
      && p.value.enrollment in db.enrollments
      && db.enrollments[p.value.enrollment].student == Strip(Cell(row, "student_id"))
      && OwnedBy(db, db.enrollments[p.value.enrollment].institute, user)
      && p.value.course == Strip(Cell(row, "course_id"))
      && p.value.course in db.courses
      && ParseDecimal(Cell(row, "note")) == Some(p.value.note)
      && GetInstituteByAcronym(db, Strip(Cell(row, "institute_acronym")), user).OneInstitute?
      && FirstEnrollment(db, Strip(Cell(row, "student_id")),
           GetInstituteByAcronym(db, Strip(Cell(row, "institute_acronym")), user).id) == Some(p.value.enrollment)
      && p.value == ResultOf(p.value.enrollment, row, p.value.note)
  {
    match Read(header, ["institute_acronym"])
    case Some(f) => PlanAbort(f)
    case None =>
      match GetInstituteByAcronym(db, Strip(Cell(row, "institute_acronym")), user)
      case NoInstitute => PlanSkip
      case SeveralInstitutes(n) => PlanAbort(MultipleInstitutes(n))
      case OneInstitute(institute) =>
        match Read(header, ["student_id"])
        case Some(f) => PlanAbort(f)
        case None =>
          var student := Strip(Cell(row, "student_id"));
          if student !in db.students then PlanSkip
          else
            match Read(header, ["course_id"])
            case Some(f) => PlanAbort(f)
            case None =>
              var course := Strip(Cell(row, "course_id"));
              if course !in db.courses then PlanSkip
              else
                match FirstEnrollment(db, student, institute)
                case None => PlanSkip
                case Some(enrollment) => ResultWrite(header, row, enrollment)
  }

  /** The rest of a results row once its enrollment is found: the note must read as a number. */
  function ResultWrite(header: seq<string>, row: Row, enrollment: string): (p: Plan<Result>)
    ensures !p.PlanSkip?
    ensures p.PlanWrite? ==>
      && p.key == Strip(Cell(row, "result_id"))
      && ParseDecimal(Cell(row, "note")) == Some(p.value.note)
      && p.value == ResultOf(enrollment, row, p.value.note)
  {
    match Read(header, ["academic_year", "session", "note"])
    case Some(f) => PlanAbort(f)
    case None =>
      match ParseDecimal(Cell(row, "note"))
      case None => PlanAbort(NotANumber(Cell(row, "note")))
      case Some(note) =>
        match Read(header, ["result_id"])
        case Some(f) => PlanAbort(f)
        case None => PlanWrite(Strip(Cell(row, "result_id")), ResultOf(enrollment, row, note))
  }

  /**
   * A results row: skipped when the institute, the student or the course
   * does not resolve, or when the student has no enrollment at the
   * institute; the result goes to the first such enrollment. The note cell
   * must read as a number, and the note stored is that number.
   */
  function ResultStep(db: Store, header: seq<string>, user: User, row: Row): (s: Step)
    ensures s.Abort? <==> ResultRowPlan(db, header, user, row).PlanAbort?
    ensures s.Upsert? ==>
      && s.key == Strip(Cell(row, "result_id"))
      && s.key in s.db.results
      && s.db == db.(results := db.results[s.key := s.db.results[s.key]])
      && (s.existed <==> s.key in db.results)
      && s.db.results[s.key].enrollment in db.enrollments
      && db.enrollments[s.db.results[s.key].enrollment].student == Strip(Cell(row, "student_id"))
      && OwnedBy(db, db.enrollments[s.db.results[s.key].enrollment].institute, user)
      && s.db.results[s.key].course == Strip(Cell(row, "course_id"))
      && s.db.results[s.key].course in db.courses
      && ParseDecimal(Cell(row, "note")) == Some(s.db.results[s.key].note)
      && GetInstituteByAcronym(db, Strip(Cell(row, "institute_acronym")), user).OneInstitute?
      && FirstEnrollment(db, Strip(Cell(row, "student_id")),
           GetInstituteByAcronym(db, Strip(Cell(row, "institute_acronym")), user).id) == Some(s.db.results[s.key].enrollment)
      && s.db.results[s.key] == ResultOf(s.db.results[s.key].enrollment, row, s.db.results[s.key].note)
  {
    match ResultRowPlan(db, header, user, row)
    case PlanAbort(failure) => Abort(failure)
    case PlanSkip => Skip
    case PlanWrite(key, value) => Upsert(db.(results := db.results[key := value]), key, key in db.results)
  }

  /** Another degree than `key` already belongs to `enrollment`. */
  predicate EnrollmentHasOtherDegree(db: Store, enrollment: string, key: string)
  {
    exists k :: k in db.degrees && k != key && db.degrees[k].enrollment == enrollment
  }

  /** The degree a degrees row writes for `enrollment`: the date as given, trimmed texts. */
  function DegreeOf(enrollment: string, row: Row): Degree
  {
    Degree(enrollment, Cell(row, "date_awarded (YYYY-MM-DD)"), Strip(Cell(row, "degree_type")), Strip(Cell(row, "name")))
  }

  /**
   * A degrees row: skipped when the institute or the student does not
   * resolve, or when the student has no enrollment at the institute; the
   * degree goes to the first such enrollment, which the store refuses if
   * another degree already holds it.
   */
  function DegreeStep(db: Store, header: seq<string>, user: User, row: Row): (s: Step)
    ensures s.Upsert? ==>
      && s.key == Strip(Cell(row, "degree_id"))
      && s.key in s.db.degrees
      && s.db == db.(degrees := db.degrees[s.key := s.db.degrees[s.key]])
      && (s.existed <==> s.key in db.degrees)
      && s.db.degrees[s.key].enrollment in db.enrollments
      && db.enrollments[s.db.degrees[s.key].enrollment].student == Strip(Cell(row, "student_id"))
      && OwnedBy(db, db.enrollments[s.db.degrees[s.key].enrollment].institute, user)
      && !EnrollmentHasOtherDegree(db, s.db.degrees[s.key].enrollment, s.key)
      && GetInstituteByAcronym(db, Strip(Cell(row, "institute_acronym")), user).OneInstitute?
      && FirstEnrollment(db, Strip(Cell(row, "student_id")),
           GetInstituteByAcronym(db, Strip(Cell(row, "institute_acronym")), user).id) == Some(s.db.degrees[s.key].enrollment)
      && s.db.degrees[s.key] == DegreeOf(s.db.degrees[s.key].enrollment, row)
  {
    match Read(header, ["institute_acronym"])
    case Some(f) => Abort(f)
    case None =>
      match GetInstituteByAcronym(db, Strip(Cell(row, "institute_acronym")), user)
      case NoInstitute => Skip
      case SeveralInstitutes(n) => Abort(MultipleInstitutes(n))
      case OneInstitute(institute) =>
        match Read(header, ["student_id"])
        case Some(f) => Abort(f)
        case None =>
          var student := Strip(Cell(row, "student_id"));
          if student !in db.students then Skip
          else
            match FirstEnrollment(db, student, institute)
            case None => Skip
            case Some(enrollment) =>
              match Read(header, ["date_awarded (YYYY-MM-DD)", "degree_type", "name", "degree_id"])
              case Some(f) => Abort(f)
              case None =>
                var key := Strip(Cell(row, "degree_id"));
                if EnrollmentHasOtherDegree(db, enrollment, key) then Abort(EnrollmentTaken(enrollment))
                else
                  Upsert(db.(degrees := db.degrees[key := DegreeOf(enrollment, row)]), key, key in db.degrees)
  }

  /** Results and degrees have no `updated` counter: every upsert counts as created. */
  predicate CountsUpdates(kind: FileType)
  {
    kind != Results && kind != Degrees
  }

  /** The effect of one row on a store, for one file: the ingestor's kind, header and user fixed. */
  type RowStep = (Store, Row) -> Step

  /** The row step of the ingestor for `kind`. The students and courses ingestors take no user. */
  function StepFor(kind: FileType, header: seq<string>, user: User): RowStep
  {
    match kind
    case Students => (db, row) => StudentStep(db, header, row)
    case Teachers => (db, row) => TeacherStep(db, header, user, row)
    case Programs => (db, row) => ProgramStep(db, header, user, row)
    case Courses => (db, row) => CourseStep(db, header, row)
    case Enrollments => (db, row) => EnrollmentStep(db, header, user, row)
    case Results => (db, row) => ResultStep(db, header, user, row)
    case Degrees => (db, row) => DegreeStep(db, header, user, row)
  }

  /** The counters after one step that did not abort. */
  function Tally(countsUpdates: bool, c: Counts, s: Step): Counts
  {
    match s
    case Abort(_) => c
    case Skip => c.(skipped := c.skipped + 1)
    case Upsert(_, _, existed) =>
      if existed && countsUpdates then c.(updated := c.updated + 1) else c.(created := c.created + 1)
  }

  // ---------------------------------------------------------------------
  // A whole file
  // ---------------------------------------------------------------------

  datatype Run = Done(db: Store, counts: Counts) | Failed(failure: Failure)

  /** The rows from `i` on, applied to `db` with the counters at `c`; the first abort ends the run. */
  function RunFrom(step: RowStep, countsUpdates: bool, rows: seq<Row>, db: Store, c: Counts, i: nat): Run
    requires i <= |rows|
    decreases |rows| - i
  {
    if i == |rows| then Done(db, c)
    else
      var s := step(db, rows[i]);
      match s
      case Abort(f) => Failed(f)
      case Skip => RunFrom(step, countsUpdates, rows, db, Tally(countsUpdates, c, s), i + 1)
      case Upsert(next, _, _) => RunFrom(step, countsUpdates, rows, next, Tally(countsUpdates, c, s), i + 1)
  }

  /** The transaction: the run's store and counts, or the untouched `db` and the exception. */
  function Commit(db: Store, run: Run): (r: (Store, Outcome))
    ensures r.1.Aborted? <==> run.Failed?
    ensures r.1.Aborted? ==> r.0 == db && r.1.failure == run.failure
    ensures r.1.Imported? ==> r.0 == run.db && r.1.counts == run.counts
  {
    match run
    case Done(db', c) => (db', Imported(c))
    case Failed(f) => (db, Aborted(f))
  }

  /** The ingestor for `kind` on file `t`: the final store and counts, or the old store and the exception. */
  function Ingest(kind: FileType, t: Table, user: User, db: Store): (Store, Outcome)
  {
    Commit(db, RunFrom(StepFor(kind, t.header, user), CountsUpdates(kind), t.rows, db, Counts(0, 0, 0), 0))
  }

  /**
   * The loop every `ingest_*` function runs: one step per row, the counters
   * bumped as the source bumps them, and on an exception the transaction
   * rolled back to `db`.
   */
  method IngestRows(step: RowStep, countsUpdates: bool, rows: seq<Row>, db: Store) returns (db': Store, outcome: Outcome)
    ensures (db', outcome) == Commit(db, RunFrom(step, countsUpdates, rows, db, Counts(0, 0, 0), 0))
  {
    var store := db;
    var created, updated, skipped := 0, 0, 0;
    var i := 0;
    while i < |rows|
      invariant i <= |rows|
      invariant RunFrom(step, countsUpdates, rows, store, Counts(created, updated, skipped), i)
             == RunFrom(step, countsUpdates, rows, db, Counts(0, 0, 0), 0)
    {
      match step(store, rows[i]) {
        case Abort(f) =>
          return db, Aborted(f);
        case Skip =>
          skipped := skipped + 1;
        case Upsert(next, _, existed) =>
          store := next;
          if existed && countsUpdates {
            updated := updated + 1;
          } else {
            created := created + 1;
          }
      }
      i := i + 1;
    }
    return store, Imported(Counts(created, updated, skipped));
  }

  /** `ingest_students(file_path)`. */
  method IngestStudents(t: Table, db: Store) returns (db': Store, outcome: Outcome)
    ensures (db', outcome) == Ingest(Students, t, User(None), db)
  {
    db', outcome := IngestRows(StepFor(Students, t.header, User(None)), CountsUpdates(Students), t.rows, db);
  }

  /** `ingest_teachers(file_path, user)`. */
  method IngestTeachers(t: Table, user: User, db: Store) returns (db': Store, outcome: Outcome)
    ensures (db', outcome) == Ingest(Teachers, t, user, db)
  {
    db', outcome := IngestRows(StepFor(Teachers, t.header, user), CountsUpdates(Teachers), t.rows, db);
  }

  /** `ingest_programs(file_path, user)`. */
  method IngestPrograms(t: Table, user: User, db: Store) returns (db': Store, outcome: Outcome)
    ensures (db', outcome) == Ingest(Programs, t, user, db)
  {
    db', outcome := IngestRows(StepFor(Programs, t.header, user), CountsUpdates(Programs), t.rows, db);
  }

  /** `ingest_courses(file_path)`. */
  method IngestCourses(t: Table, db: Store) returns (db': Store, outcome: Outcome)
    ensures (db', outcome) == Ingest(Courses, t, User(None), db)
  {
    db', outcome := IngestRows(StepFor(Courses, t.header, User(None)), CountsUpdates(Courses), t.rows, db);
  }

  /** `ingest_enrollments(file_path, user)`. */
  method IngestEnrollments(t: Table, user: User, db: Store) returns (db': Store, outcome: Outcome)
    ensures (db', outcome) == Ingest(Enrollments, t, user, db)
  {
    db', outcome := IngestRows(StepFor(Enrollments, t.header, user), CountsUpdates(Enrollments), t.rows, db);
  }

  /** `ingest_results(file_path, user)`. */
  method IngestResults(t: Table, user: User, db: Store) returns (db': Store, outcome: Outcome)
    ensures (db', outcome) == Ingest(Results, t, user, db)
  {
    db', outcome := IngestRows(StepFor(Results, t.header, user), CountsUpdates(Results), t.rows, db);
  }

  /** `ingest_degrees(file_path, user)`. */
  method IngestDegrees(t: Table, user: User, db: Store) returns (db': Store, outcome: Outcome)
    ensures (db', outcome) == Ingest(Degrees, t, user, db)
  {
    db', outcome := IngestRows(StepFor(Degrees, t.header, user), CountsUpdates(Degrees), t.rows, db);
  }

  // ---------------------------------------------------------------------
  // Messages
  // ---------------------------------------------------------------------

  function Label(kind: FileType): string
  {
    match kind
    case Students => "Students"
    case Teachers => "Teachers"
    case Programs => "Programs"
    case Courses => "Courses"
    case Enrollments => "Enrollments"
    case Results => "Results"
    case Degrees => "Degrees"
  }

  /** The text each ingestor returns on success. */
  function SuccessMessage(kind: FileType, c: Counts): string
  {
    var head := Label(kind) + " imported successfully: " + NatToString(c.created) + " created, ";
    match kind
    case Students => head + NatToString(c.updated) + " updated."
    case Courses =>
      head + NatToString(c.updated) + " updated, " + NatToString(c.skipped) + " skipped (invalid program)."
    case Results => head + NatToString(c.skipped) + " skipped."
    case Degrees => head + NatToString(c.skipped) + " skipped."
    case _ => head + NatToString(c.updated) + " updated, " + NatToString(c.skipped) + " skipped."
  }

  /** Whether the success text of a kind reports the rows it updated. */
  predicate ReportsUpdated(kind: FileType)
  {
    kind != Results && kind != Degrees
  }

  /** Whether the success text of a kind reports the rows it skipped. */
  predicate ReportsSkipped(kind: FileType)
  {
    kind != Students
  }

  /** Where the two counts of `p + a + x + b + y` are found. */
  lemma TwoNumbersAt(p: string, a: nat, x: string, b: nat, y: string)
    requires x != [] && !IsDigit(x[0]) && y != [] && !IsDigit(y[0])
    ensures var q := p + NatToString(a) + x;
      var m := q + NatToString(b) + y;
      NumberAt(m, |p|, a) && NumberAt(m, |q|, b)
  {
    var q := p + NatToString(a) + x;
    NumberBefore(p, a, x);
    NumberAtExtend(q, |p|, a, NatToString(b));
    NumberAtExtend(q + NatToString(b), |p|, a, y);
    NumberBefore(q, b, y);
  }

  /** Where the three counts of `p + a + x + b + y + c + z` are found. */
  lemma ThreeNumbersAt(p: string, a: nat, x: string, b: nat, y: string, c: nat, z: string)
    requires x != [] && !IsDigit(x[0]) && y != [] && !IsDigit(y[0]) && z != [] && !IsDigit(z[0])
    ensures var q := p + NatToString(a) + x;
      var r := q + NatToString(b) + y;
      var m := r + NatToString(c) + z;
      NumberAt(m, |p|, a) && NumberAt(m, |q|, b) && NumberAt(m, |r|, c)
  {
    var q := p + NatToString(a) + x;
    var r := q + NatToString(b) + y;
    TwoNumbersAt(p, a, x, b, y);
    NumberAtExtend(r, |p|, a, NatToString(c));
    NumberAtExtend(r + NatToString(c), |p|, a, z);
    NumberAtExtend(r, |q|, b, NatToString(c));
    NumberAtExtend(r + NatToString(c), |q|, b, z);
    NumberBefore(r, c, z);
  }

  /**
   * The success text of a kind determines every count it reports: two runs
   * that print the same text created, updated and skipped as many rows, as
   * far as the text reports them.
   */
  lemma SuccessMessageCounts(kind: FileType, c1: Counts, c2: Counts)
    requires SuccessMessage(kind, c1) == SuccessMessage(kind, c2)
    ensures c1.created == c2.created
    ensures ReportsUpdated(kind) ==> c1.updated == c2.updated
    ensures ReportsSkipped(kind) ==> c1.skipped == c2.skipped
  {
    var m := SuccessMessage(kind, c1);
    var p := Label(kind) + " imported successfully: ";
    var q := p + NatToString(c1.created) + " created, ";
    // the second count of each text: the updated rows, or the skipped ones
    var second1, second2 := if ReportsUpdated(kind) then c1.updated else c1.skipped,
                            if ReportsUpdated(kind) then c2.updated else c2.skipped;
    var tail := if kind == Students then " updated." else if ReportsUpdated(kind) then " updated, " else " skipped.";
    if kind == Students || !ReportsUpdated(kind) {
      TwoNumbersAt(p, c1.created, " created, ", second1, tail);
      TwoNumbersAt(p, c2.created, " created, ", second2, tail);
      NumberAtUnique(m, |p|, c1.created, c2.created);
      NumberAtUnique(m, |q|, second1, second2);
    } else {
      var last := if kind == Courses then " skipped (invalid program)." else " skipped.";
      ThreeNumbersAt(p, c1.created, " created, ", c1.updated, tail, c1.skipped, last);
      ThreeNumbersAt(p, c2.created, " created, ", c2.updated, tail, c2.skipped, last);
      NumberAtUnique(m, |p|, c1.created, c2.created);
      NumberAtUnique(m, |q|, c1.updated, c2.updated);
      var r := q + NatToString(c1.updated) + tail;
      NumberAtUnique(m, |r|, c1.skipped, c2.skipped);
    }
  }

  /** Django's `MAX_GET_RESULTS`: how many matches `get()` fetches before it gives up counting. */
  const MaxGetResults: nat := 21

  /** How many characters of the cell's `repr` the message of `int()` keeps (`%.200R`). */
  const IntReprWidth: nat := 200

  /**
   * `str(e)` of the exception that aborted the import. A `KeyError` prints
   * the `repr` of the missing key; `int()` and `float()` print the `repr`
   * of the cell, `int()` cut to its first 200 characters.
   */
  function FailureMessage(f: Failure): string
  {
    match f
    case KeyError(column) => StrRepr(column)
    case MultipleInstitutes(n) =>
      "get() returned more than one Institute -- it returned "
      + (if n < MaxGetResults then NatToString(n) else "more than " + NatToString(MaxGetResults - 1)) + "!"
    case NotAnInteger(text) => "invalid literal for int() with base 10: " + Cut(StrRepr(text), IntReprWidth)
    case NotANumber(text) => "could not convert string to float: " + StrRepr(text)
    case CreditsOutOfRange(_) => "Python int too large to convert to SQLite INTEGER"
    case NegativeCredits(_) => "CHECK constraint failed: \"credits\" >= 0"
    case EnrollmentTaken(_) => "UNIQUE constraint failed: core_degree.enrollment_id"
  }

  /** From 21 matches on, the text no longer says how many institutes matched. */
  lemma ManyInstitutesCapped(n: nat)
    requires n >= MaxGetResults
    ensures FailureMessage(MultipleInstitutes(n)) == "get() returned more than one Institute -- it returned more than 20!"
  {
    assert NatToString(20) == "20" by {
      assert NatToString(2) == "2";
    }
  }

  /**
   * Below the cap, and for the missing column and the unreadable cells, the
   * text of the failure names it: the same text means the same failure. For
   * a credits cell this holds while its `repr` fits in the 200 characters
   * `int()` keeps (see `IntMessageCut`).
   */
  lemma FailureMessageNames(f1: Failure, f2: Failure)
    requires || (f1.KeyError? && f2.KeyError?)
             || (f1.NotAnInteger? && f2.NotAnInteger?
                 && |StrRepr(f1.text)| <= IntReprWidth && |StrRepr(f2.text)| <= IntReprWidth)
             || (f1.NotANumber? && f2.NotANumber?)
             || (f1.MultipleInstitutes? && f2.MultipleInstitutes? && f1.count < MaxGetResults && f2.count < MaxGetResults)
    requires FailureMessage(f1) == FailureMessage(f2)
    ensures f1 == f2
  {
    var m := FailureMessage(f1);
    match f1
    case KeyError(c) =>
      StrReprInjective(c, f2.column);
    case NotAnInteger(text) =>
      var p := "invalid literal for int() with base 10: ";
      assert m[|p|..] == StrRepr(text);
      assert FailureMessage(f2)[|p|..] == StrRepr(f2.text);
      StrReprInjective(text, f2.text);
    case NotANumber(text) =>
      var p := "could not convert string to float: ";
      assert m[|p|..] == StrRepr(text);
      assert FailureMessage(f2)[|p|..] == StrRepr(f2.text);
      StrReprInjective(text, f2.text);
    case MultipleInstitutes(n) =>
      var p := "get() returned more than one Institute -- it returned ";
      NumberBefore(p, n, "!");
      NumberBefore(p, f2.count, "!");
      NumberAtUnique(m, |p|, n, f2.count);
  }

  /**
   * Past 199 characters the message of `int()` no longer tells credits
   * cells apart: two plain cells that agree on their first 199 characters
   * abort with the same text.
   */
  lemma IntMessageCut(p: string, x: string, y: string)
    requires |p| == IntReprWidth - 1
    requires forall i :: 0 <= i < |p + x| ==> PlainChar((p + x)[i])
    requires forall i :: 0 <= i < |p + y| ==> PlainChar((p + y)[i])
    ensures FailureMessage(NotAnInteger(p + x)) == FailureMessage(NotAnInteger(p + y))
  {
    StrReprPlain(p + x);
    StrReprPlain(p + y);
    assert Cut(StrRepr(p + x), IntReprWidth) == "'" + p;
    assert Cut(StrRepr(p + y), IntReprWidth) == "'" + p;
  }
}
