/**
 * The database's integrity constraints under the one write an import makes:
 * upserting one row into one table. Keys are never removed, so a foreign key
 * that resolved before still resolves; the new row must name existing rows,
 * and a degree must not take an enrollment another degree holds.
 */
module Integrity {
  import opened Options
  import opened Academic

  // A referencing table stays resolved when the tables it references gain keys.

  lemma CoursesResolveGrow(courses: map<string, Course>, programs: map<string, Program>, teachers: map<string, Teacher>,
                           programs': map<string, Program>, teachers': map<string, Teacher>)
    requires CoursesResolve(courses, programs, teachers)
    requires programs.Keys <= programs'.Keys && teachers.Keys <= teachers'.Keys
    ensures CoursesResolve(courses, programs', teachers')
  {
  }

  lemma EnrollmentsResolveGrow(enrollments: map<string, Enrollment>, students: map<string, Student>,
                               programs: map<string, Program>, institutes: map<nat, Institute>,
                               students': map<string, Student>, programs': map<string, Program>)
    requires EnrollmentsResolve(enrollments, students, programs, institutes)
    requires students.Keys <= students'.Keys && programs.Keys <= programs'.Keys
    ensures EnrollmentsResolve(enrollments, students', programs', institutes)
  {
  }

  lemma ResultsResolveGrow(results: map<string, Result>, enrollments: map<string, Enrollment>, courses: map<string, Course>,
                           enrollments': map<string, Enrollment>, courses': map<string, Course>)
    requires ResultsResolve(results, enrollments, courses)
    requires enrollments.Keys <= enrollments'.Keys && courses.Keys <= courses'.Keys
    ensures ResultsResolve(results, enrollments', courses')
  {
  }

  lemma DegreesResolveGrow(degrees: map<string, Degree>, enrollments: map<string, Enrollment>, enrollments': map<string, Enrollment>)
    requires DegreesResolve(degrees, enrollments)
    requires enrollments.Keys <= enrollments'.Keys
    ensures DegreesResolve(degrees, enrollments')
  {
  }

  // The upserted table itself stays resolved when the new row's references resolve.

  lemma CoursesResolveUpsert(courses: map<string, Course>, programs: map<string, Program>, teachers: map<string, Teacher>,
                             k: string, v: Course)
    requires CoursesResolve(courses, programs, teachers)
    requires v.program in programs && (v.teacher.Some? ==> v.teacher.value in teachers)
    ensures CoursesResolve(courses[k := v], programs, teachers)
  {
  }

  lemma EnrollmentsResolveUpsert(enrollments: map<string, Enrollment>, students: map<string, Student>,
                                 programs: map<string, Program>, institutes: map<nat, Institute>, k: string, v: Enrollment)
    requires EnrollmentsResolve(enrollments, students, programs, institutes)
    requires v.student in students && v.program in programs && v.institute in institutes
    ensures EnrollmentsResolve(enrollments[k := v], students, programs, institutes)
  {
  }

  lemma ResultsResolveUpsert(results: map<string, Result>, enrollments: map<string, Enrollment>, courses: map<string, Course>,
                             k: string, v: Result)
    requires ResultsResolve(results, enrollments, courses)
    requires v.enrollment in enrollments && v.course in courses
    ensures ResultsResolve(results[k := v], enrollments, courses)
  {
  }

  lemma DegreesResolveUpsert(degrees: map<string, Degree>, enrollments: map<string, Enrollment>, k: string, v: Degree)
    requires DegreesResolve(degrees, enrollments) && v.enrollment in enrollments
    ensures DegreesResolve(degrees[k := v], enrollments)
  {
  }

  /** The one-to-one relation survives a degree whose enrollment no other degree holds. */
  lemma OneDegreeUpsert(degrees: map<string, Degree>, k: string, v: Degree)
    requires OneDegreePerEnrollment(degrees)
    requires forall j :: j in degrees && j != k ==> degrees[j].enrollment != v.enrollment
    ensures OneDegreePerEnrollment(degrees[k := v])
  {
  }

  // Upserting one row keeps the store consistent when the row's own references resolve.

  lemma UpsertStudentConsistent(db: Store, k: string, v: Student)
    requires Consistent(db)
    ensures Consistent(db.(students := db.students[k := v]))
  {
    EnrollmentsResolveGrow(db.enrollments, db.students, db.programs, db.institutes, db.students[k := v], db.programs);
  }

  lemma UpsertTeacherConsistent(db: Store, k: string, v: Teacher)
    requires Consistent(db) && v.institute in db.institutes
    ensures Consistent(db.(teachers := db.teachers[k := v]))
  {
    CoursesResolveGrow(db.courses, db.programs, db.teachers, db.programs, db.teachers[k := v]);
  }

  lemma UpsertProgramConsistent(db: Store, k: string, v: Program)
    requires Consistent(db) && v.institute in db.institutes
    ensures Consistent(db.(programs := db.programs[k := v]))
  {
    CoursesResolveGrow(db.courses, db.programs, db.teachers, db.programs[k := v], db.teachers);
    EnrollmentsResolveGrow(db.enrollments, db.students, db.programs, db.institutes, db.students, db.programs[k := v]);
  }

  lemma UpsertCourseConsistent(db: Store, k: string, v: Course)
    requires Consistent(db) && v.program in db.programs && (v.teacher.Some? ==> v.teacher.value in db.teachers)
    ensures Consistent(db.(courses := db.courses[k := v]))
  {
    CoursesResolveUpsert(db.courses, db.programs, db.teachers, k, v);
    ResultsResolveGrow(db.results, db.enrollments, db.courses, db.enrollments, db.courses[k := v]);
  }

  lemma UpsertEnrollmentConsistent(db: Store, k: string, v: Enrollment)
    requires Consistent(db) && v.student in db.students && v.program in db.programs && v.institute in db.institutes
    ensures Consistent(db.(enrollments := db.enrollments[k := v]))
  {
    EnrollmentsResolveUpsert(db.enrollments, db.students, db.programs, db.institutes, k, v);
    ResultsResolveGrow(db.results, db.enrollments, db.courses, db.enrollments[k := v], db.courses);
    DegreesResolveGrow(db.degrees, db.enrollments, db.enrollments[k := v]);
  }

  lemma UpsertResultConsistent(db: Store, k: string, v: Result)
    requires Consistent(db) && v.enrollment in db.enrollments && v.course in db.courses
    ensures Consistent(db.(results := db.results[k := v]))
  {
    ResultsResolveUpsert(db.results, db.enrollments, db.courses, k, v);
  }

  lemma UpsertDegreeConsistent(db: Store, k: string, v: Degree)
    requires Consistent(db) && v.enrollment in db.enrollments
    requires forall j :: j in db.degrees && j != k ==> db.degrees[j].enrollment != v.enrollment
    ensures Consistent(db.(degrees := db.degrees[k := v]))
  {
    DegreesResolveUpsert(db.degrees, db.enrollments, k, v);
    OneDegreeUpsert(db.degrees, k, v);
  }
}
