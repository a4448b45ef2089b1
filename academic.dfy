/**
 * The academic records the pipeline reads and writes (core/models.py): one
 * datatype per record type, the store as one finite map per table keyed by
 * the table's primary key, the enumerated choice domains, and the integrity
 * constraints the database enforces.
 */
module Academic {
  import opened Options

  /** A tenant. `kind` is the model's `type` field. Keyed by its generated id. */
  datatype Institution = Institution(name: string, acronym: string, kind: string, city: string)

  /** A sub-unit of one institution. Keyed by its generated id; the acronym is not unique. */
  datatype Institute = Institute(institution: nat, name: string, acronym: string)

  /** Keyed by `program_id`. */
  datatype Program = Program(institute: nat, name: string, domain: string, level: string)

  /** Keyed by `student_id`. The birth date is kept as the text it was given as. */
  datatype Student = Student(firstName: string, lastName: string, gender: string, birthdate: string)

  /** Keyed by `enrollment_id`. */
  datatype Enrollment = Enrollment(student: string, program: string, institute: nat, academicYear: string, status: string)

  /** Keyed by `teacher_id`. */
  datatype Teacher = Teacher(institute: nat, firstName: string, lastName: string, grade: string, status: string)

  /** Keyed by `course_id`. The teacher is optional; credits are a non-negative integer. */
  datatype Course = Course(program: string, teacher: Option<string>, name: string, code: string, credits: nat, semester: string)

  /** Keyed by `degree_id`. The award date is kept as the text it was given as. */
  datatype Degree = Degree(enrollment: string, dateAwarded: string, degreeType: string, name: string)

  /** Keyed by `result_id`. */
  datatype Result = Result(enrollment: string, course: string, academicYear: string, session: string, note: real)

  /** The database: one table per record type, keyed by primary key. */
  datatype Store = Store(
    institutions: map<nat, Institution>,
    institutes: map<nat, Institute>,
    programs: map<string, Program>,
    students: map<string, Student>,
    enrollments: map<string, Enrollment>,
    teachers: map<string, Teacher>,
    courses: map<string, Course>,
    degrees: map<string, Degree>,
    results: map<string, Result>)

  /** The uploading user, reduced to the institution it belongs to, if any. */
  datatype User = User(institution: Option<nat>)

  /** The seven record kinds that have an import path. */
  datatype FileType = Students | Teachers | Programs | Courses | Enrollments | Results | Degrees

  /** The gender choices; the students validator checks cells against them. */
  const GenderChoices: seq<string> := ["M", "F"]

  /** Institution acronyms are unique across the whole store. */
  ghost predicate UniqueAcronyms(institutions: map<nat, Institution>)
  {
    forall a, b :: a in institutions && b in institutions && a != b ==>
      institutions[a].acronym != institutions[b].acronym
  }

  /** A degree's enrollment has no other degree (the one-to-one relation). */
  ghost predicate OneDegreePerEnrollment(degrees: map<string, Degree>)
  {
    forall a, b :: a in degrees && b in degrees && a != b ==> degrees[a].enrollment != degrees[b].enrollment
  }

  // One predicate per referencing table: each foreign key names an existing row.

  ghost predicate InstitutesResolve(institutes: map<nat, Institute>, institutions: map<nat, Institution>)
  {
    forall k :: k in institutes ==> institutes[k].institution in institutions
  }

  ghost predicate ProgramsResolve(programs: map<string, Program>, institutes: map<nat, Institute>)
  {
    forall k :: k in programs ==> programs[k].institute in institutes
  }

  ghost predicate TeachersResolve(teachers: map<string, Teacher>, institutes: map<nat, Institute>)
  {
    forall k :: k in teachers ==> teachers[k].institute in institutes
  }

  ghost predicate CoursesResolve(courses: map<string, Course>, programs: map<string, Program>, teachers: map<string, Teacher>)
  {
    forall k :: k in courses ==>
      courses[k].program in programs && (courses[k].teacher.Some? ==> courses[k].teacher.value in teachers)
  }

  ghost predicate EnrollmentsResolve(enrollments: map<string, Enrollment>, students: map<string, Student>,
                                     programs: map<string, Program>, institutes: map<nat, Institute>)
  {
    forall k :: k in enrollments ==>
      enrollments[k].student in students && enrollments[k].program in programs && enrollments[k].institute in institutes
  }

  ghost predicate ResultsResolve(results: map<string, Result>, enrollments: map<string, Enrollment>, courses: map<string, Course>)
  {
    forall k :: k in results ==> results[k].enrollment in enrollments && results[k].course in courses
  }

  ghost predicate DegreesResolve(degrees: map<string, Degree>, enrollments: map<string, Enrollment>)
  {
    forall k :: k in degrees ==> degrees[k].enrollment in enrollments
  }

  /** Every foreign key names an existing row. */
  ghost predicate ForeignKeysResolve(db: Store)
  {
    && InstitutesResolve(db.institutes, db.institutions)
    && ProgramsResolve(db.programs, db.institutes)
    && TeachersResolve(db.teachers, db.institutes)
    && CoursesResolve(db.courses, db.programs, db.teachers)
    && EnrollmentsResolve(db.enrollments, db.students, db.programs, db.institutes)
    && ResultsResolve(db.results, db.enrollments, db.courses)
    && DegreesResolve(db.degrees, db.enrollments)
  }

  /** The integrity constraints the database enforces. */
  ghost predicate Consistent(db: Store)
  {
    UniqueAcronyms(db.institutions) && OneDegreePerEnrollment(db.degrees) && ForeignKeysResolve(db)
  }

  /** An institute that belongs to the user's institution. */
  predicate OwnedBy(db: Store, institute: nat, user: User)
  {
    institute in db.institutes && user.institution == Some(db.institutes[institute].institution)
  }
}
