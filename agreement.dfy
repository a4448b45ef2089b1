/**
 * What a file that passed its validator puts in the store: the validator and
 * the ingestor of a kind read the same cells, so the checks the validator
 * makes hold of the records the ingestor writes.
 */
module Agreement {
  import opened Options
  import opened Strings
  import opened Frames
  import opened Academic
  import opened Validators
  import opened Ingestion
  import opened IngestionProps

  /** With no validation error, every row's own check found nothing. */
  lemma RowsPassed(t: Table, required: seq<string>, ctx: Lookups, check: (Lookups, nat, Row) -> seq<ValidationError>)
    requires FileErrors(t, required, ctx, check) == []
    ensures MissingColumns(t.header, required) == []
    ensures forall l :: 0 <= l < |t.rows| ==> check(ctx, l, t.rows[l]) == []
  {
    RowsErrorsEmptyIff(t.rows, ctx, check, |t.rows|);
  }

  /**
   * The validators' acronym check and the ingestors' institute lookup agree:
   * the trimmed acronym is among the user's acronyms exactly when the lookup
   * finds at least one institute of the user's institution.
   */
  lemma AcronymCheckAgrees(db: Store, user: User, cell: string)
    ensures Strip(cell) in LookupsOf(db, user).acronyms <==> !GetInstituteByAcronym(db, Strip(cell), user).NoInstitute?
  {
    StripIdempotent(cell);
    var r := GetInstituteByAcronym(db, Strip(cell), user);
    if Strip(cell) in LookupsOf(db, user).acronyms {
      var id :| id in db.institutes && OwnedBy(db, id, user) && db.institutes[id].acronym == Strip(cell);
      assert !r.NoInstitute?;
    }
  }

  /** No row of a teachers file that passed validation is skipped for an unknown institute. */
  lemma ValidatedTeachersNotSkipped(t: Table, db: Store, user: User)
    requires TeachersFileErrors(t, db, user) == []
    ensures forall l :: 0 <= l < |t.rows| ==> !TeacherStep(db, t.header, user, t.rows[l]).Skip?
  {
    RowsPassed(t, TeachersRequired, LookupsOf(db, user), TeacherRowErrors);
    forall l | 0 <= l < |t.rows| ensures !TeacherStep(db, t.header, user, t.rows[l]).Skip? {
      AcronymCheckAgrees(db, user, Cell(t.rows[l], "institute_acronym"));
    }
  }

  /** No row of a programs file that passed validation is skipped for an unknown institute. */
  lemma ValidatedProgramsNotSkipped(t: Table, db: Store, user: User)
    requires ProgramsFileErrors(t, db, user) == []
    ensures forall l :: 0 <= l < |t.rows| ==> !ProgramStep(db, t.header, user, t.rows[l]).Skip?
  {
    RowsPassed(t, ProgramsRequired, LookupsOf(db, user), ProgramRowErrors);
    forall l | 0 <= l < |t.rows| ensures !ProgramStep(db, t.header, user, t.rows[l]).Skip? {
      AcronymCheckAgrees(db, user, Cell(t.rows[l], "institute_acronym"));
    }
  }

  /**
   * A students file that passed validation is imported, and every record it
   * writes has a non-empty id and a gender of M or F; the other students
   * are left as they were.
   */
  lemma ValidatedStudentsWellFormed(t: Table, user: User, db: Store)
    requires StudentsFileErrors(t) == []
    ensures var r := Ingest(Students, t, user, db);
      && r.1.Imported?
      && forall k :: k in r.0.students ==>
           || (k in db.students && r.0.students[k] == db.students[k])
           || (k != "" && r.0.students[k].gender in GenderChoices)
  {
    RowsPassed(t, StudentsRequired, NoLookups, StudentRowErrors);
    IngestStudentsEffect(t, user, db);
    var file := FileStudents(t.rows, 0);
    forall k | k in file ensures k != "" && file[k].gender in GenderChoices {
      var l := FileStudentsSource(t.rows, 0, k);
      assert StudentRowErrors(NoLookups, l, t.rows[l]) == [];
    }
  }

  /** Every stored result has a note between 0 and 20. */
  predicate NotesInRange(db: Store)
  {
    forall k :: k in db.results ==> NoteInRange(db.results[k].note)
  }

  /** The note check of the results validator passes on this row. */
  predicate NoteAccepted(row: Row)
  {
    ParseDecimal(Cell(row, "note")).Some? && NoteInRange(ParseDecimal(Cell(row, "note")).value)
  }

  /** A results row whose note passed the check writes a note in range. */
  lemma ResultStepKeepsNotes(db: Store, header: seq<string>, user: User, row: Row)
    requires NoteAccepted(row) && NotesInRange(db)
    ensures var s := ResultStep(db, header, user, row); s.Upsert? ==> NotesInRange(s.db)
  {
    var s := ResultStep(db, header, user, row);
    if s.Upsert? {
      forall k | k in s.db.results ensures NoteInRange(s.db.results[k].note) {
        if k != s.key {
          assert s.db.results[k] == db.results[k];
        }
      }
    }
  }

  /** Every row of a results file that passed validation carries a note between 0 and 20. */
  lemma ValidatedNotesAccepted(t: Table, db: Store, user: User)
    requires ResultsFileErrors(t, db, user) == []
    ensures forall l :: 0 <= l < |t.rows| ==> NoteAccepted(t.rows[l])
  {
    var ctx := LookupsOf(db, user);
    RowsPassed(t, ResultsRequired, ctx, ResultRowErrors);
    forall l | 0 <= l < |t.rows| ensures NoteAccepted(t.rows[l]) {
      assert ResultRowErrors(ctx, l, t.rows[l]) == [];
      assert NoteErrors(l, Cell(t.rows[l], "note")) == [];
    }
  }

  /** A results file whose every note passed the check keeps the stored notes in range. */
  lemma IngestResultsKeepsNotes(t: Table, user: User, db: Store)
    requires forall l :: 0 <= l < |t.rows| ==> NoteAccepted(t.rows[l])
    requires NotesInRange(db)
    ensures NotesInRange(Ingest(Results, t, user, db).0)
  {
    var step := StepFor(Results, t.header, user);
    forall db0: Store, l: nat | l < |t.rows| && NotesInRange(db0) && step(db0, t.rows[l]).Upsert?
      ensures NotesInRange(step(db0, t.rows[l]).db)
    {
      ResultStepKeepsNotes(db0, t.header, user, t.rows[l]);
    }
    RunKeeps(NotesInRange, step, CountsUpdates(Results), t.rows, db, Counts(0, 0, 0), 0);
  }

  /**
   * A results file that passed validation writes only notes between 0 and
   * 20, so a store whose notes were all in range keeps them in range.
   */
  lemma ValidatedResultsNotesInRange(t: Table, user: User, db: Store)
    requires ResultsFileErrors(t, db, user) == []
    requires NotesInRange(db)
    ensures NotesInRange(Ingest(Results, t, user, db).0)
  {
    ValidatedNotesAccepted(t, db, user);
    IngestResultsKeepsNotes(t, user, db);
  }
}
