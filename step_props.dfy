/**
 * Properties of single rows: when a row is skipped, which enrollment a
 * result or a degree attaches to, and that one upsert keeps the store's
 * integrity constraints.
 */
module StepProps {
  import opened Options
  import opened Strings
  import opened Frames
  import opened Academic
  import opened Integrity
  import opened Ingestion

  // ---------------------------------------------------------------------
  // When a row is skipped
  // ---------------------------------------------------------------------

  /** A teachers row is skipped exactly when its institute does not resolve for the user. */
  lemma TeacherSkips(db: Store, header: seq<string>, user: User, row: Row)
    requires "institute_acronym" in header && "teacher_id" in header
    ensures TeacherStep(db, header, user, row).Skip? <==>
      GetInstituteByAcronym(db, Strip(Cell(row, "institute_acronym")), user).NoInstitute?
  {
  }

  /** A programs row is skipped exactly when its institute does not resolve for the user. */
  lemma ProgramSkips(db: Store, header: seq<string>, user: User, row: Row)
    requires "institute_acronym" in header && "program_id" in header
    ensures ProgramStep(db, header, user, row).Skip? <==>
      GetInstituteByAcronym(db, Strip(Cell(row, "institute_acronym")), user).NoInstitute?
  {
  }

  /** An enrollments row is skipped exactly when its institute, its student or its program does not resolve. */
  lemma EnrollmentSkips(db: Store, header: seq<string>, user: User, row: Row)
    requires "institute_acronym" in header && "student_id" in header && "program_id" in header
    ensures var r := GetInstituteByAcronym(db, Strip(Cell(row, "institute_acronym")), user);
      EnrollmentStep(db, header, user, row).Skip? <==>
        || r.NoInstitute?
        || (r.OneInstitute? && (Strip(Cell(row, "student_id")) !in db.students || Strip(Cell(row, "program_id")) !in db.programs))
  {
  }

  /**
   * A results row is skipped exactly when its institute, its student or its
   * course does not resolve, or the student has no enrollment at the institute.
   */
  lemma ResultSkips(db: Store, header: seq<string>, user: User, row: Row)
    requires "institute_acronym" in header && "student_id" in header && "course_id" in header
    ensures var r := GetInstituteByAcronym(db, Strip(Cell(row, "institute_acronym")), user);
      var student := Strip(Cell(row, "student_id"));
      ResultStep(db, header, user, row).Skip? <==>
        || r.NoInstitute?
        || (r.OneInstitute? &&
             (|| student !in db.students
              || Strip(Cell(row, "course_id")) !in db.courses
              || FirstEnrollment(db, student, r.id).None?))
  {
  }

  /** A degrees row is skipped exactly when its institute or its student does not resolve, or the student has no enrollment there. */
  lemma DegreeSkips(db: Store, header: seq<string>, user: User, row: Row)
    requires "institute_acronym" in header && "student_id" in header
    ensures var r := GetInstituteByAcronym(db, Strip(Cell(row, "institute_acronym")), user);
      var student := Strip(Cell(row, "student_id"));
      DegreeStep(db, header, user, row).Skip? <==>
        || r.NoInstitute?
        || (r.OneInstitute? && (student !in db.students || FirstEnrollment(db, student, r.id).None?))
  {
  }

  // ---------------------------------------------------------------------
  // When a courses row aborts
  // ---------------------------------------------------------------------

  /**
   * With every column present and its program stored, a courses row aborts
   * exactly when its credits cell is not an integer that is at least zero
   * and fits in a SQLite `INTEGER`; credits beyond that range abort with
   * sqlite3's overflow.
   */
  lemma CourseAborts(db: Store, header: seq<string>, row: Row)
    requires forall c :: c in ["program_id", "teacher_id (optional)", "name", "code", "credits", "semester", "course_id"] ==> c in header
    requires Strip(Cell(row, "program_id")) in db.programs
    ensures var n := ParseInt(Cell(row, "credits"));
      CourseStep(db, header, row).Abort? <==> n.None? || n.value < 0 || n.value > SqliteIntegerMax
    ensures var n := ParseInt(Cell(row, "credits"));
      n.Some? && (n.value < SqliteIntegerMin || n.value > SqliteIntegerMax) ==>
        CourseStep(db, header, row) == Abort(CreditsOutOfRange(n.value))
  {
    assert MissingColumns(header, ["program_id"]) == [];
    assert MissingColumns(header, ["teacher_id (optional)", "name", "code", "credits"]) == [];
    assert MissingColumns(header, ["semester", "course_id"]) == [];
  }

  // ---------------------------------------------------------------------
  // Which enrollment a result or a degree attaches to
  // ---------------------------------------------------------------------

  /** A stored result goes to the first enrollment of the row's student at the row's institute. */
  lemma ResultFirstEnrollment(db: Store, header: seq<string>, user: User, row: Row)
    ensures var s := ResultStep(db, header, user, row);
      s.Upsert? ==>
        var r := GetInstituteByAcronym(db, Strip(Cell(row, "institute_acronym")), user);
        r.OneInstitute? && FirstEnrollment(db, Strip(Cell(row, "student_id")), r.id) == Some(s.db.results[s.key].enrollment)
  {
  }

  /** A stored degree goes to the first enrollment of the row's student at the row's institute. */
  lemma DegreeFirstEnrollment(db: Store, header: seq<string>, user: User, row: Row)
    ensures var s := DegreeStep(db, header, user, row);
      s.Upsert? ==>
        var r := GetInstituteByAcronym(db, Strip(Cell(row, "institute_acronym")), user);
        r.OneInstitute? && FirstEnrollment(db, Strip(Cell(row, "student_id")), r.id) == Some(s.db.degrees[s.key].enrollment)
  {
  }

  // ---------------------------------------------------------------------
  // One upsert keeps the integrity constraints
  // ---------------------------------------------------------------------

  lemma StudentStepConsistent(db: Store, header: seq<string>, row: Row)
    requires Consistent(db)
    ensures var s := StudentStep(db, header, row); s.Upsert? ==> Consistent(s.db)
  {
    var s := StudentStep(db, header, row);
    if s.Upsert? {
      UpsertStudentConsistent(db, s.key, StudentOf(row));
    }
  }

  lemma TeacherStepConsistent(db: Store, header: seq<string>, user: User, row: Row)
    requires Consistent(db)
    ensures var s := TeacherStep(db, header, user, row); s.Upsert? ==> Consistent(s.db)
  {
    var s := TeacherStep(db, header, user, row);
    if s.Upsert? {
      UpsertTeacherConsistent(db, s.key, s.db.teachers[s.key]);
    }
  }

  lemma ProgramStepConsistent(db: Store, header: seq<string>, user: User, row: Row)
    requires Consistent(db)
    ensures var s := ProgramStep(db, header, user, row); s.Upsert? ==> Consistent(s.db)
  {
    var s := ProgramStep(db, header, user, row);
    if s.Upsert? {
      UpsertProgramConsistent(db, s.key, s.db.programs[s.key]);
    }
  }

  lemma CourseStepConsistent(db: Store, header: seq<string>, row: Row)
    requires Consistent(db)
    ensures var s := CourseStep(db, header, row); s.Upsert? ==> Consistent(s.db)
  {
    var s := CourseStep(db, header, row);
    if s.Upsert? {
      UpsertCourseConsistent(db, s.key, s.db.courses[s.key]);
    }
  }

  lemma EnrollmentStepConsistent(db: Store, header: seq<string>, user: User, row: Row)
    requires Consistent(db)
    ensures var s := EnrollmentStep(db, header, user, row); s.Upsert? ==> Consistent(s.db)
  {
    var s := EnrollmentStep(db, header, user, row);
    if s.Upsert? {
      UpsertEnrollmentConsistent(db, s.key, s.db.enrollments[s.key]);
    }
  }

  lemma ResultStepConsistent(db: Store, header: seq<string>, user: User, row: Row)
    requires Consistent(db)
    ensures var s := ResultStep(db, header, user, row); s.Upsert? ==> Consistent(s.db)
  {
    var s := ResultStep(db, header, user, row);
    if s.Upsert? {
      UpsertResultConsistent(db, s.key, s.db.results[s.key]);
    }
  }

  lemma DegreeStepConsistent(db: Store, header: seq<string>, user: User, row: Row)
    requires Consistent(db)
    ensures var s := DegreeStep(db, header, user, row); s.Upsert? ==> Consistent(s.db)
  {
    var s := DegreeStep(db, header, user, row);
    if s.Upsert? {
      UpsertDegreeConsistent(db, s.key, s.db.degrees[s.key]);
    }
  }

  /** Every row of every kind keeps a consistent store consistent. */
  lemma StepConsistent(kind: FileType, db: Store, header: seq<string>, user: User, row: Row)
    requires Consistent(db)
    ensures var s := StepFor(kind, header, user)(db, row); s.Upsert? ==> Consistent(s.db)
  {
    match kind
    case Students => StudentStepConsistent(db, header, row);
    case Teachers => TeacherStepConsistent(db, header, user, row);
    case Programs => ProgramStepConsistent(db, header, user, row);
    case Courses => CourseStepConsistent(db, header, row);
    case Enrollments => EnrollmentStepConsistent(db, header, user, row);
    case Results => ResultStepConsistent(db, header, user, row);
    case Degrees => DegreeStepConsistent(db, header, user, row);
  }
}
