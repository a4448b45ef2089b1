/**
 * The imports whose rows never read their own table: teachers, programs,
 * courses, enrollments and results. What a row of such a file does is fixed
 * by the store as it was before the file (its `Plan`), so the whole import
 * is the file's writes, last row winning, merged into the table; it aborts
 * exactly when some row's plan aborts; `created` counts the keys that were
 * new and `skipped` the rows skipped.
 *
 * The degrees import is not of this kind: whether a degree row may be
 * written depends on the degrees already stored, earlier rows included.
 */
module Upserts {
  import opened Options
  import opened Strings
  import opened Frames
  import opened Academic
  import opened Ingestion
  import opened Maps
  import opened IngestionProps

  // ---------------------------------------------------------------------
  // Plans and the writes of a file
  // ---------------------------------------------------------------------

  /** The step a plan stands for when the table holds `m`; `put` stores a table back. */
  function Planned<V>(put: map<string, V> -> Store, m: map<string, V>, p: Plan<V>): Step
  {
    match p
    case PlanAbort(f) => Abort(f)
    case PlanSkip => Skip
    case PlanWrite(k, v) => Upsert(put(m[k := v]), k, k in m)
  }

  /** The entries the rows from `i` on write: one per key, the last row writing it winning. */
  function FileWrites<V>(plan: Row -> Plan<V>, rows: seq<Row>, i: nat): map<string, V>
    requires i <= |rows|
    decreases |rows| - i
  {
    if i == |rows| then map[]
    else
      match plan(rows[i])
      case PlanWrite(k, v) => map[k := v] + FileWrites(plan, rows, i + 1)
      case _ => FileWrites(plan, rows, i + 1)
  }

  /** How many of the rows from `i` on are skipped. */
  function Skips<V>(plan: Row -> Plan<V>, rows: seq<Row>, i: nat): (n: nat)
    requires i <= |rows|
    ensures n <= |rows| - i
    decreases |rows| - i
  {
    if i == |rows| then 0
    else (if plan(rows[i]).PlanSkip? then 1 else 0) + Skips(plan, rows, i + 1)
  }

  /** A step that follows `plan` whatever the table holds, on the rows from `i` on. */
  ghost predicate FollowsPlan<V(!new)>(step: RowStep, put: map<string, V> -> Store, plan: Row -> Plan<V>, rows: seq<Row>, i: nat)
  {
    forall m: map<string, V>, l :: i <= l < |rows| ==> step(put(m), rows[l]) == Planned(put, m, plan(rows[l]))
  }

  /** The table after a row's plan, applied to `m`. */
  function After<V>(m: map<string, V>, p: Plan<V>): map<string, V>
  {
    if p.PlanWrite? then m[p.key := p.value] else m
  }

  /** One row of a planned run: the run goes on from the table the row's plan leaves. */
  lemma RunPlannedStep<V(!new)>(step: RowStep, countsUpdates: bool, put: map<string, V> -> Store,
                          plan: Row -> Plan<V>, rows: seq<Row>, m: map<string, V>, c: Counts, i: nat)
    requires i < |rows| && FollowsPlan(step, put, plan, rows, i) && !plan(rows[i]).PlanAbort?
    ensures FollowsPlan(step, put, plan, rows, i + 1)
    ensures RunFrom(step, countsUpdates, rows, put(m), c, i)
         == RunFrom(step, countsUpdates, rows, put(After(m, plan(rows[i]))), Tally(countsUpdates, c, Planned(put, m, plan(rows[i]))), i + 1)
  {
    assert step(put(m), rows[i]) == Planned(put, m, plan(rows[i]));
  }

  /** A planned run fails exactly when some row's plan aborts. */
  lemma {:induction false} RunPlannedFails<V(!new)>(step: RowStep, countsUpdates: bool, put: map<string, V> -> Store,
                                              plan: Row -> Plan<V>, rows: seq<Row>, m: map<string, V>, c: Counts, i: nat)
    requires i <= |rows| && FollowsPlan(step, put, plan, rows, i)
    ensures RunFrom(step, countsUpdates, rows, put(m), c, i).Failed?
        <==> exists l :: i <= l < |rows| && plan(rows[l]).PlanAbort?
    decreases |rows| - i
  {
    if i < |rows| {
      var p := plan(rows[i]);
      if p.PlanAbort? {
        assert step(put(m), rows[i]) == Planned(put, m, p);
      } else {
        RunPlannedStep(step, countsUpdates, put, plan, rows, m, c, i);
        RunPlannedFails(step, countsUpdates, put, plan, rows, After(m, p), Tally(countsUpdates, c, Planned(put, m, p)), i + 1);
        if exists l :: i <= l < |rows| && plan(rows[l]).PlanAbort? {
          var l :| i <= l < |rows| && plan(rows[l]).PlanAbort?;
          assert i + 1 <= l;
        }
      }
    }
  }

  /** A planned run that does not fail leaves the table merged with the file's writes. */
  lemma {:induction false} RunPlannedStore<V(!new)>(step: RowStep, countsUpdates: bool, put: map<string, V> -> Store,
                                                    plan: Row -> Plan<V>, rows: seq<Row>, m: map<string, V>, c: Counts, i: nat)
    requires i <= |rows| && FollowsPlan(step, put, plan, rows, i)
    ensures var r := RunFrom(step, countsUpdates, rows, put(m), c, i);
      r.Done? ==> r.db == put(m + FileWrites(plan, rows, i))
    decreases |rows| - i
  {
    if i == |rows| {
      assert m + FileWrites(plan, rows, i) == m;
    } else {
      var p := plan(rows[i]);
      if p.PlanAbort? {
        assert step(put(m), rows[i]) == Planned(put, m, p);
      } else {
        RunPlannedStep(step, countsUpdates, put, plan, rows, m, c, i);
        RunPlannedStore(step, countsUpdates, put, plan, rows, After(m, p), Tally(countsUpdates, c, Planned(put, m, p)), i + 1);
        if p.PlanWrite? {
          UpdateThenMerge(m, p.key, p.value, FileWrites(plan, rows, i + 1));
        }
      }
    }
  }

  /**
   * A planned run that does not fail counts a creation per key new to the
   * table (when updates are counted apart) and a skip per skipped row.
   */
  lemma {:induction false} RunPlannedCounts<V(!new)>(step: RowStep, countsUpdates: bool, put: map<string, V> -> Store,
                                                     plan: Row -> Plan<V>, rows: seq<Row>, m: map<string, V>, c: Counts, i: nat)
    requires i <= |rows| && FollowsPlan(step, put, plan, rows, i)
    ensures var r := RunFrom(step, countsUpdates, rows, put(m), c, i);
      r.Done? ==>
        && (countsUpdates ==> r.counts.created == c.created + |FileWrites(plan, rows, i).Keys - m.Keys|)
        && r.counts.skipped == c.skipped + Skips(plan, rows, i)
    decreases |rows| - i
  {
    if i < |rows| {
      var p := plan(rows[i]);
      if p.PlanAbort? {
        assert step(put(m), rows[i]) == Planned(put, m, p);
      } else {
        RunPlannedStep(step, countsUpdates, put, plan, rows, m, c, i);
        RunPlannedCounts(step, countsUpdates, put, plan, rows, After(m, p), Tally(countsUpdates, c, Planned(put, m, p)), i + 1);
        if p.PlanWrite? {
          NewKeysStep(m, p.key, p.value, FileWrites(plan, rows, i + 1));
        }
      }
    }
  }

  /**
   * The transaction around a planned run on the table `m` of `db`: it aborts
   * exactly when some row's plan aborts, and otherwise stores the table
   * merged with the file's writes and counts the new keys and the skips.
   */
  lemma {:induction false} CommitPlanned<V(!new)>(step: RowStep, countsUpdates: bool, put: map<string, V> -> Store,
                                                  plan: Row -> Plan<V>, rows: seq<Row>, db: Store, m: map<string, V>)
    requires FollowsPlan(step, put, plan, rows, 0) && put(m) == db
    ensures var r := Commit(db, RunFrom(step, countsUpdates, rows, db, Counts(0, 0, 0), 0));
      var w := FileWrites(plan, rows, 0);
      && (r.1.Aborted? <==> exists l :: 0 <= l < |rows| && plan(rows[l]).PlanAbort?)
      && (r.1.Imported? ==>
         && r.0 == put(m + w)
         && (countsUpdates ==> r.1.counts.created == |w.Keys - m.Keys|)
         && r.1.counts.skipped == Skips(plan, rows, 0))
  {
    RunPlannedFails(step, countsUpdates, put, plan, rows, m, Counts(0, 0, 0), 0);
    RunPlannedStore(step, countsUpdates, put, plan, rows, m, Counts(0, 0, 0), 0);
    RunPlannedCounts(step, countsUpdates, put, plan, rows, m, Counts(0, 0, 0), 0);
  }

  /** No row after row `l` writes key `k`. */
  predicate NoLaterWrite<V>(plan: Row -> Plan<V>, rows: seq<Row>, l: nat, k: string)
  {
    forall m :: l < m < |rows| ==> !(plan(rows[m]).PlanWrite? && plan(rows[m]).key == k)
  }

  /** A key the file writes was written last by some row, and holds what that row wrote. */
  lemma {:induction false} FileWritesSource<V>(plan: Row -> Plan<V>, rows: seq<Row>, i: nat, k: string) returns (l: nat)
    requires i <= |rows|
    requires k in FileWrites(plan, rows, i)
    ensures i <= l < |rows| && plan(rows[l]) == PlanWrite(k, FileWrites(plan, rows, i)[k])
    ensures NoLaterWrite(plan, rows, l, k)
    decreases |rows| - i
  {
    var rest := FileWrites(plan, rows, i + 1);
    match plan(rows[i])
    case PlanWrite(key, v) =>
      MergeLookup(key, v, rest, k);
      if k in rest {
        l := FileWritesSource(plan, rows, i + 1, k);
      } else {
        l := i;
        FileWritesAbsent(plan, rows, i + 1, k);
      }
    case _ =>
      l := FileWritesSource(plan, rows, i + 1, k);
  }

  /** A key the rows from `i` on leave out is written by none of them. */
  lemma {:induction false} FileWritesAbsent<V>(plan: Row -> Plan<V>, rows: seq<Row>, i: nat, k: string)
    requires i <= |rows|
    requires k !in FileWrites(plan, rows, i)
    ensures forall m :: i <= m < |rows| ==> !(plan(rows[m]).PlanWrite? && plan(rows[m]).key == k)
    decreases |rows| - i
  {
    if i < |rows| {
      FileWritesAbsent(plan, rows, i + 1, k);
    }
  }

  /** The last row that writes a key decides what the file leaves under it. */
  lemma {:induction false} FileWritesLastWins<V>(plan: Row -> Plan<V>, rows: seq<Row>, i: nat, j: nat)
    requires i <= j < |rows| && plan(rows[j]).PlanWrite?
    requires forall l :: j < l < |rows| ==> !(plan(rows[l]).PlanWrite? && plan(rows[l]).key == plan(rows[j]).key)
    ensures plan(rows[j]).key in FileWrites(plan, rows, i)
    ensures FileWrites(plan, rows, i)[plan(rows[j]).key] == plan(rows[j]).value
    decreases |rows| - i
  {
    var k := plan(rows[j]).key;
    var rest := FileWrites(plan, rows, i + 1);
    if i == j {
      FileWritesLastWinsAfter(plan, rows, j + 1, k);
      MergeLookup(k, plan(rows[j]).value, rest, k);
    } else {
      FileWritesLastWins(plan, rows, i + 1, j);
      match plan(rows[i])
      case PlanWrite(key, v) => MergeLookup(key, v, rest, k);
      case _ =>
    }
  }

  /** Rows that never write `k` leave it out of their writes. */
  lemma {:induction false} FileWritesLastWinsAfter<V>(plan: Row -> Plan<V>, rows: seq<Row>, i: nat, k: string)
    requires i <= |rows|
    requires forall l :: i <= l < |rows| ==> !(plan(rows[l]).PlanWrite? && plan(rows[l]).key == k)
    ensures k !in FileWrites(plan, rows, i)
    decreases |rows| - i
  {
    if i < |rows| {
      FileWritesLastWinsAfter(plan, rows, i + 1, k);
    }
  }

  // ---------------------------------------------------------------------
  // The lookups a row makes do not read the table it writes
  // ---------------------------------------------------------------------

  /** The institute lookup reads only the institutes. */
  lemma LookupReadsInstitutes(db: Store, db': Store, acronym: string, user: User)
    requires db'.institutes == db.institutes
    ensures GetInstituteByAcronym(db', acronym, user) == GetInstituteByAcronym(db, acronym, user)
  {
    assert InstitutesNamed(db', Strip(acronym), user) == InstitutesNamed(db, Strip(acronym), user);
  }

  /** The enrollment lookup reads only the enrollments. */
  lemma FirstEnrollmentReadsEnrollments(db: Store, db': Store, student: string, institute: nat)
    requires db'.enrollments == db.enrollments
    ensures FirstEnrollment(db', student, institute) == FirstEnrollment(db, student, institute)
  {
    assert EnrollmentsOf(db', student, institute) == EnrollmentsOf(db, student, institute);
  }

  // ---------------------------------------------------------------------
  // The teachers import
  // ---------------------------------------------------------------------

  /** The plans of the rows of a teachers file. */
  function TeacherPlan(db: Store, header: seq<string>, user: User): Row -> Plan<Teacher>
  {
    row => TeacherRowPlan(db, header, user, row)
  }

  /** Stores a teachers table into `db`. */
  function PutTeachers(db: Store): map<string, Teacher> -> Store
  {
    m => db.(teachers := m)
  }

  /** A teachers row does the same whatever the teachers table holds. */
  lemma TeacherRowFollows(db: Store, header: seq<string>, user: User, m: map<string, Teacher>, row: Row)
    ensures TeacherStep(db.(teachers := m), header, user, row) == Planned(PutTeachers(db), m, TeacherRowPlan(db, header, user, row))
  {
    LookupReadsInstitutes(db, db.(teachers := m), Strip(Cell(row, "institute_acronym")), user);
    assert TeacherRowPlan(db.(teachers := m), header, user, row) == TeacherRowPlan(db, header, user, row);
  }

  /** Every row of a teachers file follows its plan. */
  lemma TeachersFollowPlan(db: Store, header: seq<string>, user: User, rows: seq<Row>)
    ensures FollowsPlan(StepFor(Teachers, header, user), PutTeachers(db), TeacherPlan(db, header, user), rows, 0)
  {
    forall m: map<string, Teacher>, l | 0 <= l < |rows|
      ensures StepFor(Teachers, header, user)(PutTeachers(db)(m), rows[l]) == Planned(PutTeachers(db), m, TeacherPlan(db, header, user)(rows[l]))
    {
      TeacherRowFollows(db, header, user, m, rows[l]);
    }
  }

  /**
   * A teachers file aborts exactly when one of its rows raises on the store as
   * it was; otherwise its teachers are merged into the table, last row winning,
   * nothing else changes, and the counters count the new keys and the
   * skipped rows.
   */
  lemma IngestTeachersEffect(t: Table, user: User, db: Store)
    ensures var r := Ingest(Teachers, t, user, db);
      var plan := TeacherPlan(db, t.header, user);
      var w := FileWrites(plan, t.rows, 0);
      && (r.1.Aborted? <==> exists l :: 0 <= l < |t.rows| && TeacherStep(db, t.header, user, t.rows[l]).Abort?)
      && (r.1.Imported? ==>
         && r.0 == db.(teachers := db.teachers + w)
         && r.1.counts.created == |w.Keys - db.teachers.Keys|
         && r.1.counts.skipped == Skips(plan, t.rows, 0))
  {
    var step, put, plan := StepFor(Teachers, t.header, user), PutTeachers(db), TeacherPlan(db, t.header, user);
    TeachersFollowPlan(db, t.header, user, t.rows);
    assert put(db.teachers) == db;
    CommitPlanned(step, CountsUpdates(Teachers), put, plan, t.rows, db, db.teachers);
    assert forall l :: 0 <= l < |t.rows| ==> (plan(t.rows[l]).PlanAbort? <==> TeacherStep(db, t.header, user, t.rows[l]).Abort?);
  }

  /** Each teacher a teachers file writes is the teacher of its last row, under the one institute that row's acronym names for the user. */
  lemma FileTeachersSource(t: Table, user: User, db: Store, k: string) returns (l: nat)
    requires k in FileWrites(TeacherPlan(db, t.header, user), t.rows, 0)
    ensures var w := FileWrites(TeacherPlan(db, t.header, user), t.rows, 0);
      && l < |t.rows|
      && k == Strip(Cell(t.rows[l], "teacher_id"))
      && w[k] == TeacherOf(w[k].institute, t.rows[l])
      && GetInstituteByAcronym(db, Strip(Cell(t.rows[l], "institute_acronym")), user) == OneInstitute(w[k].institute)
      && NoLaterWrite(TeacherPlan(db, t.header, user), t.rows, l, k)
  {
    l := FileWritesSource(TeacherPlan(db, t.header, user), t.rows, 0, k);
    var s := TeacherStep(db, t.header, user, t.rows[l]);
  }

  // ---------------------------------------------------------------------
  // The programs import
  // ---------------------------------------------------------------------

  /** The plans of the rows of a programs file. */
  function ProgramPlan(db: Store, header: seq<string>, user: User): Row -> Plan<Program>
  {
    row => ProgramRowPlan(db, header, user, row)
  }

  /** Stores a programs table into `db`. */
  function PutPrograms(db: Store): map<string, Program> -> Store
  {
    m => db.(programs := m)
  }

  /** A programs row does the same whatever the programs table holds. */
  lemma ProgramRowFollows(db: Store, header: seq<string>, user: User, m: map<string, Program>, row: Row)
    ensures ProgramStep(db.(programs := m), header, user, row) == Planned(PutPrograms(db), m, ProgramRowPlan(db, header, user, row))
  {
    LookupReadsInstitutes(db, db.(programs := m), Strip(Cell(row, "institute_acronym")), user);
    assert ProgramRowPlan(db.(programs := m), header, user, row) == ProgramRowPlan(db, header, user, row);
  }

  /** Every row of a programs file follows its plan. */
  lemma ProgramsFollowPlan(db: Store, header: seq<string>, user: User, rows: seq<Row>)
    ensures FollowsPlan(StepFor(Programs, header, user), PutPrograms(db), ProgramPlan(db, header, user), rows, 0)
  {
    forall m: map<string, Program>, l | 0 <= l < |rows|
      ensures StepFor(Programs, header, user)(PutPrograms(db)(m), rows[l]) == Planned(PutPrograms(db), m, ProgramPlan(db, header, user)(rows[l]))
    {
      ProgramRowFollows(db, header, user, m, rows[l]);
    }
  }

  /**
   * A programs file aborts exactly when one of its rows raises on the store as
   * it was; otherwise its programs are merged into the table, last row winning,
   * nothing else changes, and the counters count the new keys and the
   * skipped rows.
   */
  lemma IngestProgramsEffect(t: Table, user: User, db: Store)
    ensures var r := Ingest(Programs, t, user, db);
      var plan := ProgramPlan(db, t.header, user);
      var w := FileWrites(plan, t.rows, 0);
      && (r.1.Aborted? <==> exists l :: 0 <= l < |t.rows| && ProgramStep(db, t.header, user, t.rows[l]).Abort?)
      && (r.1.Imported? ==>
         && r.0 == db.(programs := db.programs + w)
         && r.1.counts.created == |w.Keys - db.programs.Keys|
         && r.1.counts.skipped == Skips(plan, t.rows, 0))
  {
    var step, put, plan := StepFor(Programs, t.header, user), PutPrograms(db), ProgramPlan(db, t.header, user);
    ProgramsFollowPlan(db, t.header, user, t.rows);
    assert put(db.programs) == db;
    CommitPlanned(step, CountsUpdates(Programs), put, plan, t.rows, db, db.programs);
    assert forall l :: 0 <= l < |t.rows| ==> (plan(t.rows[l]).PlanAbort? <==> ProgramStep(db, t.header, user, t.rows[l]).Abort?);
  }

  /** Each program a programs file writes is the program of its last row, under the one institute that row's acronym names for the user. */
  lemma FileProgramsSource(t: Table, user: User, db: Store, k: string) returns (l: nat)
    requires k in FileWrites(ProgramPlan(db, t.header, user), t.rows, 0)
    ensures var w := FileWrites(ProgramPlan(db, t.header, user), t.rows, 0);
      && l < |t.rows|
      && k == Strip(Cell(t.rows[l], "program_id"))
      && w[k] == ProgramOf(w[k].institute, t.rows[l])
      && GetInstituteByAcronym(db, Strip(Cell(t.rows[l], "institute_acronym")), user) == OneInstitute(w[k].institute)
      && NoLaterWrite(ProgramPlan(db, t.header, user), t.rows, l, k)
  {
    l := FileWritesSource(ProgramPlan(db, t.header, user), t.rows, 0, k);
    var s := ProgramStep(db, t.header, user, t.rows[l]);
  }

  // ---------------------------------------------------------------------
  // The courses import
  // ---------------------------------------------------------------------

  /** The plans of the rows of a courses file. */
  function CoursePlan(db: Store, header: seq<string>, user: User): Row -> Plan<Course>
  {
    row => CourseRowPlan(db, header, row)
  }

  /** Stores a courses table into `db`. */
  function PutCourses(db: Store): map<string, Course> -> Store
  {
    m => db.(courses := m)
  }

  /** A courses row does the same whatever the courses table holds. */
  lemma CourseRowFollows(db: Store, header: seq<string>, user: User, m: map<string, Course>, row: Row)
    ensures CourseStep(db.(courses := m), header, row) == Planned(PutCourses(db), m, CourseRowPlan(db, header, row))
  {
    assert CourseTeacher(db.(courses := m), row) == CourseTeacher(db, row);
    assert CourseRowPlan(db.(courses := m), header, row) == CourseRowPlan(db, header, row);
  }

  /** Every row of a courses file follows its plan. */
  lemma CoursesFollowPlan(db: Store, header: seq<string>, user: User, rows: seq<Row>)
    ensures FollowsPlan(StepFor(Courses, header, user), PutCourses(db), CoursePlan(db, header, user), rows, 0)
  {
    forall m: map<string, Course>, l | 0 <= l < |rows|
      ensures StepFor(Courses, header, user)(PutCourses(db)(m), rows[l]) == Planned(PutCourses(db), m, CoursePlan(db, header, user)(rows[l]))
    {
      CourseRowFollows(db, header, user, m, rows[l]);
    }
  }

  /**
   * A courses file aborts exactly when one of its rows raises on the store as
   * it was; otherwise its courses are merged into the table, last row winning,
   * nothing else changes, and the counters count the new keys and the
   * skipped rows.
   */
  lemma IngestCoursesEffect(t: Table, user: User, db: Store)
    ensures var r := Ingest(Courses, t, user, db);
      var plan := CoursePlan(db, t.header, user);
      var w := FileWrites(plan, t.rows, 0);
      && (r.1.Aborted? <==> exists l :: 0 <= l < |t.rows| && CourseStep(db, t.header, t.rows[l]).Abort?)
      && (r.1.Imported? ==>
         && r.0 == db.(courses := db.courses + w)
         && r.1.counts.created == |w.Keys - db.courses.Keys|
         && r.1.counts.skipped == Skips(plan, t.rows, 0))
  {
    var step, put, plan := StepFor(Courses, t.header, user), PutCourses(db), CoursePlan(db, t.header, user);
    CoursesFollowPlan(db, t.header, user, t.rows);
    assert put(db.courses) == db;
    CommitPlanned(step, CountsUpdates(Courses), put, plan, t.rows, db, db.courses);
    assert forall l :: 0 <= l < |t.rows| ==> (plan(t.rows[l]).PlanAbort? <==> CourseStep(db, t.header, t.rows[l]).Abort?);
  }

  /** Each course a courses file writes is the course of its last row, with that row's program, teacher and credits as the store held them before the file. */
  lemma FileCoursesSource(t: Table, user: User, db: Store, k: string) returns (l: nat)
    requires k in FileWrites(CoursePlan(db, t.header, user), t.rows, 0)
    ensures var w := FileWrites(CoursePlan(db, t.header, user), t.rows, 0);
      && l < |t.rows|
      && k == Strip(Cell(t.rows[l], "course_id"))
      && w[k] == CourseOf(db, t.rows[l], w[k].credits)
      && w[k].program in db.programs
      && ParseInt(Cell(t.rows[l], "credits")) == Some(w[k].credits as int)
      && NoLaterWrite(CoursePlan(db, t.header, user), t.rows, l, k)
  {
    l := FileWritesSource(CoursePlan(db, t.header, user), t.rows, 0, k);
    var s := CourseStep(db, t.header, t.rows[l]);
  }

  // ---------------------------------------------------------------------
  // The enrollments import
  // ---------------------------------------------------------------------

  /** The plans of the rows of an enrollments file. */
  function EnrollmentPlan(db: Store, header: seq<string>, user: User): Row -> Plan<Enrollment>
  {
    row => EnrollmentRowPlan(db, header, user, row)
  }

  /** Stores an enrollments table into `db`. */
  function PutEnrollments(db: Store): map<string, Enrollment> -> Store
  {
    m => db.(enrollments := m)
  }

  /** An enrollments row does the same whatever the enrollments table holds. */
  lemma EnrollmentRowFollows(db: Store, header: seq<string>, user: User, m: map<string, Enrollment>, row: Row)
    ensures EnrollmentStep(db.(enrollments := m), header, user, row) == Planned(PutEnrollments(db), m, EnrollmentRowPlan(db, header, user, row))
  {
    LookupReadsInstitutes(db, db.(enrollments := m), Strip(Cell(row, "institute_acronym")), user);
    assert EnrollmentRowPlan(db.(enrollments := m), header, user, row) == EnrollmentRowPlan(db, header, user, row);
  }

  /** Every row of an enrollments file follows its plan. */
  lemma EnrollmentsFollowPlan(db: Store, header: seq<string>, user: User, rows: seq<Row>)
    ensures FollowsPlan(StepFor(Enrollments, header, user), PutEnrollments(db), EnrollmentPlan(db, header, user), rows, 0)
  {
    forall m: map<string, Enrollment>, l | 0 <= l < |rows|
      ensures StepFor(Enrollments, header, user)(PutEnrollments(db)(m), rows[l]) == Planned(PutEnrollments(db), m, EnrollmentPlan(db, header, user)(rows[l]))
    {
      EnrollmentRowFollows(db, header, user, m, rows[l]);
    }
  }

  /**
   * An enrollments file aborts exactly when one of its rows raises on the store as
   * it was; otherwise its enrollments are merged into the table, last row winning,
   * nothing else changes, and the counters count the new keys and the
   * skipped rows.
   */
  lemma IngestEnrollmentsEffect(t: Table, user: User, db: Store)
    ensures var r := Ingest(Enrollments, t, user, db);
      var plan := EnrollmentPlan(db, t.header, user);
      var w := FileWrites(plan, t.rows, 0);
      && (r.1.Aborted? <==> exists l :: 0 <= l < |t.rows| && EnrollmentStep(db, t.header, user, t.rows[l]).Abort?)
      && (r.1.Imported? ==>
         && r.0 == db.(enrollments := db.enrollments + w)
         && r.1.counts.created == |w.Keys - db.enrollments.Keys|
         && r.1.counts.skipped == Skips(plan, t.rows, 0))
  {
    var step, put, plan := StepFor(Enrollments, t.header, user), PutEnrollments(db), EnrollmentPlan(db, t.header, user);
    EnrollmentsFollowPlan(db, t.header, user, t.rows);
    assert put(db.enrollments) == db;
    CommitPlanned(step, CountsUpdates(Enrollments), put, plan, t.rows, db, db.enrollments);
    assert forall l :: 0 <= l < |t.rows| ==> (plan(t.rows[l]).PlanAbort? <==> EnrollmentStep(db, t.header, user, t.rows[l]).Abort?);
  }

  /** Each enrollment an enrollments file writes is the enrollment of its last row, for a stored student and program, under the one institute its acronym names. */
  lemma FileEnrollmentsSource(t: Table, user: User, db: Store, k: string) returns (l: nat)
    requires k in FileWrites(EnrollmentPlan(db, t.header, user), t.rows, 0)
    ensures var w := FileWrites(EnrollmentPlan(db, t.header, user), t.rows, 0);
      && l < |t.rows|
      && k == Strip(Cell(t.rows[l], "enrollment_id"))
      && w[k] == EnrollmentOf(w[k].institute, t.rows[l])
      && w[k].student in db.students && w[k].program in db.programs
      && GetInstituteByAcronym(db, Strip(Cell(t.rows[l], "institute_acronym")), user) == OneInstitute(w[k].institute)
      && NoLaterWrite(EnrollmentPlan(db, t.header, user), t.rows, l, k)
  {
    l := FileWritesSource(EnrollmentPlan(db, t.header, user), t.rows, 0, k);
    var s := EnrollmentStep(db, t.header, user, t.rows[l]);
  }

  // ---------------------------------------------------------------------
  // The results import
  // ---------------------------------------------------------------------

  /** The plans of the rows of a results file. */
  function ResultPlan(db: Store, header: seq<string>, user: User): Row -> Plan<Result>
  {
    row => ResultRowPlan(db, header, user, row)
  }

  /** Stores a results table into `db`. */
  function PutResults(db: Store): map<string, Result> -> Store
  {
    m => db.(results := m)
  }

  /** A results row plans the same on any store with the same institutes, students, courses and enrollments. */
  lemma ResultRowPlanReads(db: Store, db': Store, header: seq<string>, user: User, row: Row)
    requires db'.institutes == db.institutes && db'.students == db.students
    requires db'.courses == db.courses && db'.enrollments == db.enrollments
    ensures ResultRowPlan(db', header, user, row) == ResultRowPlan(db, header, user, row)
  {
    LookupReadsInstitutes(db, db', Strip(Cell(row, "institute_acronym")), user);
    var institute := GetInstituteByAcronym(db, Strip(Cell(row, "institute_acronym")), user);
    if institute.OneInstitute? {
      FirstEnrollmentReadsEnrollments(db, db', Strip(Cell(row, "student_id")), institute.id);
    }
  }

  /** A results row does the same whatever the results table holds. */
  lemma ResultRowFollows(db: Store, header: seq<string>, user: User, m: map<string, Result>, row: Row)
    ensures ResultStep(db.(results := m), header, user, row) == Planned(PutResults(db), m, ResultRowPlan(db, header, user, row))
  {
    ResultRowPlanReads(db, db.(results := m), header, user, row);
  }

  /** Every row of a results file follows its plan. */
  lemma ResultsFollowPlan(db: Store, header: seq<string>, user: User, rows: seq<Row>)
    ensures FollowsPlan(StepFor(Results, header, user), PutResults(db), ResultPlan(db, header, user), rows, 0)
  {
    forall m: map<string, Result>, l | 0 <= l < |rows|
      ensures StepFor(Results, header, user)(PutResults(db)(m), rows[l]) == Planned(PutResults(db), m, ResultPlan(db, header, user)(rows[l]))
    {
      ResultRowFollows(db, header, user, m, rows[l]);
    }
  }

  /**
   * A results file aborts exactly when one of its rows raises on the store as
   * it was; otherwise its results are merged into the table, last row winning,
   * nothing else changes, and the counters count the new keys and the
   * skipped rows.
   */
  lemma IngestResultsEffect(t: Table, user: User, db: Store)
    ensures var r := Ingest(Results, t, user, db);
      var plan := ResultPlan(db, t.header, user);
      var w := FileWrites(plan, t.rows, 0);
      && (r.1.Aborted? <==> exists l :: 0 <= l < |t.rows| && ResultStep(db, t.header, user, t.rows[l]).Abort?)
      && (r.1.Imported? ==>
         && r.0 == db.(results := db.results + w)
         && r.1.counts.created == |t.rows| - Skips(plan, t.rows, 0)
         && r.1.counts.skipped == Skips(plan, t.rows, 0))
  {
    var step, put, plan := StepFor(Results, t.header, user), PutResults(db), ResultPlan(db, t.header, user);
    ResultsFollowPlan(db, t.header, user, t.rows);
    assert put(db.results) == db;
    CommitPlanned(step, CountsUpdates(Results), put, plan, t.rows, db, db.results);
    CountsAddUp(Results, t, user, db);
    assert forall l :: 0 <= l < |t.rows| ==> (plan(t.rows[l]).PlanAbort? <==> ResultStep(db, t.header, user, t.rows[l]).Abort?);
  }

  /** Each result a results file writes is the result of its last row, for the first enrollment of that row's student at its institute as stored before the file. */
  lemma FileResultsSource(t: Table, user: User, db: Store, k: string) returns (l: nat)
    requires k in FileWrites(ResultPlan(db, t.header, user), t.rows, 0)
    ensures var w := FileWrites(ResultPlan(db, t.header, user), t.rows, 0);
      && l < |t.rows|
      && k == Strip(Cell(t.rows[l], "result_id"))
      && w[k] == ResultOf(w[k].enrollment, t.rows[l], w[k].note)
      && ParseDecimal(Cell(t.rows[l], "note")) == Some(w[k].note)
      && GetInstituteByAcronym(db, Strip(Cell(t.rows[l], "institute_acronym")), user).OneInstitute?
      && FirstEnrollment(db, Strip(Cell(t.rows[l], "student_id")),
           GetInstituteByAcronym(db, Strip(Cell(t.rows[l], "institute_acronym")), user).id) == Some(w[k].enrollment)
      && NoLaterWrite(ResultPlan(db, t.header, user), t.rows, l, k)
  {
    l := FileWritesSource(ResultPlan(db, t.header, user), t.rows, 0, k);
    var s := ResultStep(db, t.header, user, t.rows[l]);
  }
}
