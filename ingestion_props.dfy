/**
 * What the ingestors promise, proved about `Ingest`: the counters add up to
 * the number of rows, an import touches only its own table and never loses a
 * key, the store's integrity constraints survive, tenant-scoped imports write
 * only under the user's institution, and the students import is an upsert
 * with the last row winning.
 */
module IngestionProps {
  import opened Options
  import opened Strings
  import opened Frames
  import opened Academic
  import opened Ingestion
  import opened Maps
  import opened StepProps

  // ---------------------------------------------------------------------
  // Counters
  // ---------------------------------------------------------------------

  /** Each row that does not abort bumps exactly one counter; without an `updated` counter, none is bumped there. */
  lemma {:induction false} RunCounts(step: RowStep, countsUpdates: bool, rows: seq<Row>, db: Store, c: Counts, i: nat)
    requires i <= |rows|
    ensures var r := RunFrom(step, countsUpdates, rows, db, c, i);
      r.Done? ==>
        && Total(r.counts) == Total(c) + (|rows| - i)
        && (!countsUpdates ==> r.counts.updated == c.updated)
    decreases |rows| - i
  {
    if i < |rows| {
      var s := step(db, rows[i]);
      match s
      case Abort(_) =>
      case Skip => RunCounts(step, countsUpdates, rows, db, Tally(countsUpdates, c, s), i + 1);
      case Upsert(next, _, _) => RunCounts(step, countsUpdates, rows, next, Tally(countsUpdates, c, s), i + 1);
    }
  }

  /**
   * created + updated + skipped is the number of rows of an imported file;
   * the results and degrees imports never count an update.
   */
  lemma CountsAddUp(kind: FileType, t: Table, user: User, db: Store)
    ensures var r := Ingest(kind, t, user, db);
      r.1.Imported? ==>
        && Total(r.1.counts) == |t.rows|
        && ((kind == Results || kind == Degrees) ==> r.1.counts.updated == 0)
  {
    RunCounts(StepFor(kind, t.header, user), CountsUpdates(kind), t.rows, db, Counts(0, 0, 0), 0);
  }

  // ---------------------------------------------------------------------
  // What an import may change
  // ---------------------------------------------------------------------

  /** `db'` differs from `db` at most in the table of `kind`, and that table has lost no key. */
  predicate Touches(kind: FileType, db: Store, db': Store)
  {
    match kind
    case Students => db' == db.(students := db'.students) && db.students.Keys <= db'.students.Keys
    case Teachers => db' == db.(teachers := db'.teachers) && db.teachers.Keys <= db'.teachers.Keys
    case Programs => db' == db.(programs := db'.programs) && db.programs.Keys <= db'.programs.Keys
    case Courses => db' == db.(courses := db'.courses) && db.courses.Keys <= db'.courses.Keys
    case Enrollments => db' == db.(enrollments := db'.enrollments) && db.enrollments.Keys <= db'.enrollments.Keys
    case Results => db' == db.(results := db'.results) && db.results.Keys <= db'.results.Keys
    case Degrees => db' == db.(degrees := db'.degrees) && db.degrees.Keys <= db'.degrees.Keys
  }

  /** One row of any kind writes only its own table and deletes nothing. */
  lemma StepTouches(kind: FileType, db: Store, header: seq<string>, user: User, row: Row)
    ensures var s := StepFor(kind, header, user)(db, row);
      s.Upsert? ==> Touches(kind, db, s.db)
  {
    match kind
    case Students => var s := StudentStep(db, header, row);
    case Teachers => var s := TeacherStep(db, header, user, row);
    case Programs => var s := ProgramStep(db, header, user, row);
    case Courses => var s := CourseStep(db, header, row);
    case Enrollments => var s := EnrollmentStep(db, header, user, row);
    case Results => var s := ResultStep(db, header, user, row);
    case Degrees => var s := DegreeStep(db, header, user, row);
  }

  lemma TouchesTransitive(kind: FileType, a: Store, b: Store, c: Store)
    requires Touches(kind, a, b) && Touches(kind, b, c)
    ensures Touches(kind, a, c)
  {
  }

  /** A run whose every row touches only the table of `kind` touches only that table. */
  lemma {:induction false} RunTouches(kind: FileType, step: RowStep, countsUpdates: bool, rows: seq<Row>, db: Store, c: Counts, i: nat)
    requires i <= |rows|
    requires forall db0: Store, row: Row :: step(db0, row).Upsert? ==> Touches(kind, db0, step(db0, row).db)
    ensures var r := RunFrom(step, countsUpdates, rows, db, c, i);
      r.Done? ==> Touches(kind, db, r.db)
    decreases |rows| - i
  {
    if i < |rows| {
      var s := step(db, rows[i]);
      var c' := Tally(countsUpdates, c, s);
      match s
      case Abort(_) =>
      case Skip => RunTouches(kind, step, countsUpdates, rows, db, c', i + 1);
      case Upsert(next, _, _) =>
        RunTouches(kind, step, countsUpdates, rows, next, c', i + 1);
        var r := RunFrom(step, countsUpdates, rows, next, c', i + 1);
        if r.Done? {
          TouchesTransitive(kind, db, next, r.db);
        }
    } else {
      assert Touches(kind, db, db) by {
        match kind
        case Students =>
        case Teachers =>
        case Programs =>
        case Courses =>
        case Enrollments =>
        case Results =>
        case Degrees =>
      }
    }
  }

  /** An import writes only the table of its own file type, and deletes nothing. */
  lemma IngestTouchesOwnTable(kind: FileType, t: Table, user: User, db: Store)
    ensures Touches(kind, db, Ingest(kind, t, user, db).0)
  {
    var step := StepFor(kind, t.header, user);
    forall db0: Store, row: Row ensures step(db0, row).Upsert? ==> Touches(kind, db0, step(db0, row).db) {
      StepTouches(kind, db0, t.header, user, row);
    }
    RunTouches(kind, step, CountsUpdates(kind), t.rows, db, Counts(0, 0, 0), 0);
  }

  // ---------------------------------------------------------------------
  // The students import
  // ---------------------------------------------------------------------

  /** The students the rows from `i` on define: one per distinct trimmed id, the last row with that id winning. */
  function FileStudents(rows: seq<Row>, i: nat): map<string, Student>
    requires i <= |rows|
    decreases |rows| - i
  {
    if i == |rows| then map[] else map[StudentKey(rows[i]) := StudentOf(rows[i])] + FileStudents(rows, i + 1)
  }

  /** What a students row does once the file's columns can be read. */
  function StudentUpsert(db: Store, row: Row): Step
  {
    Upsert(db.(students := db.students[StudentKey(row) := StudentOf(row)]), StudentKey(row), StudentKey(row) in db.students)
  }

  lemma StudentsConsMerge(rows: seq<Row>, i: nat, m: map<string, Student>)
    requires i < |rows|
    ensures m[StudentKey(rows[i]) := StudentOf(rows[i])] + FileStudents(rows, i + 1) == m + FileStudents(rows, i)
  {
    UpdateThenMerge(m, StudentKey(rows[i]), StudentOf(rows[i]), FileStudents(rows, i + 1));
  }

  lemma StudentsConsNew(rows: seq<Row>, i: nat, m: map<string, Student>)
    requires i < |rows|
    ensures var k := StudentKey(rows[i]);
      |FileStudents(rows, i).Keys - m.Keys| == |FileStudents(rows, i + 1).Keys - m[k := StudentOf(rows[i])].Keys| + (if k in m then 0 else 1)
  {
    NewKeysStep(m, StudentKey(rows[i]), StudentOf(rows[i]), FileStudents(rows, i + 1));
  }

  /** The students run leaves the store upserted with the file's students. */
  lemma {:induction false} RunStudentsStore(step: RowStep, rows: seq<Row>, db: Store, c: Counts, i: nat)
    requires i <= |rows|
    requires forall db0: Store, row: Row {:trigger StudentUpsert(db0, row)} :: step(db0, row) == StudentUpsert(db0, row)
    ensures var r := RunFrom(step, true, rows, db, c, i);
      && r.Done?
      && r.db == db.(students := db.students + FileStudents(rows, i))
    decreases |rows| - i
  {
    if i < |rows| {
      var db1 := db.(students := db.students[StudentKey(rows[i]) := StudentOf(rows[i])]);
      var c1 := Tally(true, c, StudentUpsert(db, rows[i]));
      assert RunFrom(step, true, rows, db, c, i) == RunFrom(step, true, rows, db1, c1, i + 1) by {
        assert step(db, rows[i]) == StudentUpsert(db, rows[i]);
      }
      RunStudentsStore(step, rows, db1, c1, i + 1);
      StudentsConsMerge(rows, i, db.students);
    }
  }

  /** The students run counts one creation per id new to the store, and skips nothing. */
  lemma {:induction false} RunStudentsCounts(step: RowStep, rows: seq<Row>, db: Store, c: Counts, i: nat)
    requires i <= |rows|
    requires forall db0: Store, row: Row {:trigger StudentUpsert(db0, row)} :: step(db0, row) == StudentUpsert(db0, row)
    ensures var r := RunFrom(step, true, rows, db, c, i);
      && r.Done?
      && r.counts.created == c.created + |FileStudents(rows, i).Keys - db.students.Keys|
      && r.counts.skipped == c.skipped
    decreases |rows| - i
  {
    if i < |rows| {
      var db1 := db.(students := db.students[StudentKey(rows[i]) := StudentOf(rows[i])]);
      var c1 := Tally(true, c, StudentUpsert(db, rows[i]));
      assert RunFrom(step, true, rows, db, c, i) == RunFrom(step, true, rows, db1, c1, i + 1) by {
        assert step(db, rows[i]) == StudentUpsert(db, rows[i]);
      }
      RunStudentsCounts(step, rows, db1, c1, i + 1);
      StudentsConsNew(rows, i, db.students);
    }
  }

  /**
   * A students file with its columns is always imported. Every row upserts
   * on its trimmed id, overwriting every other field; `created` is the
   * number of distinct ids that were new, and `updated` covers the rest of
   * the rows.
   */
  lemma IngestStudentsEffect(t: Table, user: User, db: Store)
    requires Read(t.header, StudentColumns).None?
    ensures var r := Ingest(Students, t, user, db);
      && r.1.Imported?
      && r.0 == db.(students := db.students + FileStudents(t.rows, 0))
      && r.1.counts.created == |FileStudents(t.rows, 0).Keys - db.students.Keys|
      && r.1.counts.created + r.1.counts.updated == |t.rows|
      && r.1.counts.skipped == 0
  {
    var step := StepFor(Students, t.header, user);
    forall db0: Store, row: Row ensures step(db0, row) == StudentUpsert(db0, row) {
      var s := StudentStep(db0, t.header, row);
    }
    RunStudentsStore(step, t.rows, db, Counts(0, 0, 0), 0);
    RunStudentsCounts(step, t.rows, db, Counts(0, 0, 0), 0);
    RunCounts(step, true, t.rows, db, Counts(0, 0, 0), 0);
  }

  /** A stored id is one some row carried, trimmed. */
  lemma {:induction false} FileStudentsKeys(rows: seq<Row>, i: nat)
    requires i <= |rows|
    ensures forall k :: k in FileStudents(rows, i) <==> exists l :: i <= l < |rows| && StudentKey(rows[l]) == k
    decreases |rows| - i
  {
    if i < |rows| {
      FileStudentsKeys(rows, i + 1);
      var rest := FileStudents(rows, i + 1);
      assert FileStudents(rows, i).Keys == {StudentKey(rows[i])} + rest.Keys by {
        MergeKeys(StudentKey(rows[i]), StudentOf(rows[i]), rest);
      }
      forall k | k in FileStudents(rows, i) ensures exists l :: i <= l < |rows| && StudentKey(rows[l]) == k {
        if k != StudentKey(rows[i]) {
          var l :| i + 1 <= l < |rows| && StudentKey(rows[l]) == k;
        }
      }
      forall k | exists l :: i <= l < |rows| && StudentKey(rows[l]) == k ensures k in FileStudents(rows, i) {
        var l :| i <= l < |rows| && StudentKey(rows[l]) == k;
        if l > i {
          assert k in rest;
        }
      }
    }
  }

  /** The first row of `rows[i..]` wins when no later row carries its id. */
  lemma FileStudentsHead(rows: seq<Row>, i: nat)
    requires i < |rows|
    requires forall l :: i < l < |rows| ==> StudentKey(rows[l]) != StudentKey(rows[i])
    ensures StudentKey(rows[i]) in FileStudents(rows, i)
    ensures FileStudents(rows, i)[StudentKey(rows[i])] == StudentOf(rows[i])
  {
    var k := StudentKey(rows[i]);
    FileStudentsKeys(rows, i + 1);
    MergeLookup(k, StudentOf(rows[i]), FileStudents(rows, i + 1), k);
  }

  /** Last write wins: the record stored for an id is the one of the last row carrying it. */
  lemma {:induction false} FileStudentsLastWins(rows: seq<Row>, i: nat, j: nat)
    requires i <= j < |rows|
    requires forall l :: j < l < |rows| ==> StudentKey(rows[l]) != StudentKey(rows[j])
    ensures StudentKey(rows[j]) in FileStudents(rows, i)
    ensures FileStudents(rows, i)[StudentKey(rows[j])] == StudentOf(rows[j])
    decreases |rows| - i
  {
    if i == j {
      FileStudentsHead(rows, i);
    } else {
      FileStudentsLastWins(rows, i + 1, j);
      MergeLookup(StudentKey(rows[i]), StudentOf(rows[i]), FileStudents(rows, i + 1), StudentKey(rows[j]));
    }
  }

  /** Every stored record is the record of a row carrying its id: the row `l` returned. */
  lemma {:induction false} FileStudentsSource(rows: seq<Row>, i: nat, k: string) returns (l: nat)
    requires i <= |rows|
    requires k in FileStudents(rows, i)
    ensures i <= l < |rows| && StudentKey(rows[l]) == k && FileStudents(rows, i)[k] == StudentOf(rows[l])
    decreases |rows| - i
  {
    var key, v := StudentKey(rows[i]), StudentOf(rows[i]);
    var rest := FileStudents(rows, i + 1);
    assert k == key || k in rest by {
      assert FileStudents(rows, i) == map[key := v] + rest;
      MergeKeys(key, v, rest);
    }
    assert FileStudents(rows, i)[k] == if k in rest then rest[k] else v by {
      assert FileStudents(rows, i) == map[key := v] + rest;
      MergeLookup(key, v, rest, k);
    }
    if k in rest {
      l := FileStudentsSource(rows, i + 1, k);
    } else {
      l := i;
    }
  }

  /** Importing the same students file a second time changes nothing. */
  lemma IngestStudentsIdempotent(t: Table, user: User, db: Store)
    requires Read(t.header, StudentColumns).None?
    ensures var once := Ingest(Students, t, user, db).0;
      Ingest(Students, t, user, once).0 == once
  {
    IngestStudentsEffect(t, user, db);
    var once := Ingest(Students, t, user, db).0;
    IngestStudentsEffect(t, user, once);
    MergeIdempotent(db.students, FileStudents(t.rows, 0));
  }


  // ---------------------------------------------------------------------
  // Integrity constraints and tenants
  // ---------------------------------------------------------------------

  /** A run whose every row keeps the store consistent ends in a consistent store. */
  lemma {:induction false} RunConsistent(step: RowStep, countsUpdates: bool, rows: seq<Row>, db: Store, c: Counts, i: nat)
    requires i <= |rows|
    requires Consistent(db)
    requires forall db0: Store, row: Row :: Consistent(db0) && step(db0, row).Upsert? ==> Consistent(step(db0, row).db)
    ensures var r := RunFrom(step, countsUpdates, rows, db, c, i); r.Done? ==> Consistent(r.db)
    decreases |rows| - i
  {
    if i < |rows| {
      var s := step(db, rows[i]);
      match s
      case Abort(_) =>
      case Skip => RunConsistent(step, countsUpdates, rows, db, Tally(countsUpdates, c, s), i + 1);
      case Upsert(next, _, _) => RunConsistent(step, countsUpdates, rows, next, Tally(countsUpdates, c, s), i + 1);
    }
  }

  /** Every import, committed or rolled back, leaves a consistent store consistent. */
  lemma IngestPreservesConsistent(kind: FileType, t: Table, user: User, db: Store)
    requires Consistent(db)
    ensures Consistent(Ingest(kind, t, user, db).0)
  {
    var step := StepFor(kind, t.header, user);
    forall db0: Store, row: Row | Consistent(db0) ensures step(db0, row).Upsert? ==> Consistent(step(db0, row).db) {
      StepConsistent(kind, db0, t.header, user, row);
    }
    RunConsistent(step, CountsUpdates(kind), t.rows, db, Counts(0, 0, 0), 0);
  }

  /**
   * A run keeps a property of the store when every row of the file, applied
   * to a store with the property, writes a store with it.
   */
  lemma {:induction false} RunKeeps(p: Store -> bool, step: RowStep, countsUpdates: bool, rows: seq<Row>, db: Store, c: Counts, i: nat)
    requires i <= |rows|
    requires p(db)
    requires forall db0: Store, l: nat :: i <= l < |rows| && p(db0) && step(db0, rows[l]).Upsert? ==> p(step(db0, rows[l]).db)
    ensures var r := RunFrom(step, countsUpdates, rows, db, c, i); r.Done? ==> p(r.db)
    decreases |rows| - i
  {
    if i < |rows| {
      var s := step(db, rows[i]);
      match s
      case Abort(_) =>
      case Skip => RunKeeps(p, step, countsUpdates, rows, db, Tally(countsUpdates, c, s), i + 1);
      case Upsert(next, _, _) => RunKeeps(p, step, countsUpdates, rows, next, Tally(countsUpdates, c, s), i + 1);
    }
  }

  /** The imports that resolve an institute through the uploading user. */
  predicate TenantScoped(kind: FileType)
  {
    kind != Students && kind != Courses
  }

  /** Without an institution a user's row of a tenant-scoped kind never writes. */
  lemma StepWithoutInstitution(kind: FileType, db: Store, header: seq<string>, user: User, row: Row)
    requires TenantScoped(kind) && user.institution.None?
    ensures !StepFor(kind, header, user)(db, row).Upsert?
  {
    match kind
    case Teachers => var s := TeacherStep(db, header, user, row);
    case Programs => var s := ProgramStep(db, header, user, row);
    case Enrollments => var s := EnrollmentStep(db, header, user, row);
    case Results => var s := ResultStep(db, header, user, row);
    case Degrees => var s := DegreeStep(db, header, user, row);
  }

  /** A run none of whose rows writes leaves the store as it was. */
  lemma {:induction false} RunWithoutWrites(step: RowStep, countsUpdates: bool, rows: seq<Row>, db: Store, c: Counts, i: nat)
    requires i <= |rows|
    requires forall db0: Store, row: Row :: !step(db0, row).Upsert?
    ensures var r := RunFrom(step, countsUpdates, rows, db, c, i); r.Done? ==> r.db == db
    decreases |rows| - i
  {
    if i < |rows| {
      var s := step(db, rows[i]);
      if s.Skip? {
        RunWithoutWrites(step, countsUpdates, rows, db, Tally(countsUpdates, c, s), i + 1);
      }
    }
  }

  /** A user without an institution changes nothing through a tenant-scoped import. */
  lemma IngestWithoutInstitution(kind: FileType, t: Table, user: User, db: Store)
    requires TenantScoped(kind) && user.institution.None?
    ensures Ingest(kind, t, user, db).0 == db
  {
    var step := StepFor(kind, t.header, user);
    forall db0: Store, row: Row ensures !step(db0, row).Upsert? {
      StepWithoutInstitution(kind, db0, t.header, user, row);
    }
    RunWithoutWrites(step, CountsUpdates(kind), t.rows, db, Counts(0, 0, 0), 0);
  }

  /**
   * The teachers ingestor reads `teacher_id`, which its validator does not
   * require: a non-empty file without that column aborts on its first row
   * and imports nothing.
   */
  lemma TeachersWithoutIdAbort(t: Table, user: User, db: Store)
    requires "institute_acronym" in t.header && "teacher_id" !in t.header && |t.rows| > 0
    ensures Ingest(Teachers, t, user, db) == (db, Aborted(KeyError("teacher_id")))
  {
    var columns := ["institute_acronym", "teacher_id"];
    assert columns[1..][1..] == [];
    assert MissingColumns(t.header, columns) == ["teacher_id"];
    assert TeacherStep(db, t.header, user, t.rows[0]) == Abort(KeyError("teacher_id"));
  }
}
