/**
 * Properties of a whole upload: what the view does with the validator's
 * answer and the ingestor's outcome, and what a file that passed validation
 * puts in the store.
 */
module Pipeline {
  import opened Options
  import opened Strings
  import opened Frames
  import opened Academic
  import opened Validators
  import opened Ingestion
  import opened IngestionProps
  import opened Audit
  import opened Uploads

  /** An unknown file type is refused before anything is recorded; a known one is always recorded. */
  lemma UnknownTypeRejected(fileType: string, file: Loaded, user: User, db: Store)
    ensures UploadEffect(fileType, file, user, db).Rejected? <==> fileType !in DispatchKeys
  {
  }

  /**
   * The store changes only through an ingestion, and the ingestor runs only
   * on a file with no validation error.
   */
  lemma IngestOnlyWhenValid(kind: FileType, t: Table, user: User, db: Store)
    ensures var u := UploadEffect(Key(kind), Parsed(t), user, db);
      && u.Recorded?
      && (Validation(kind, t, db, user) != [] ==> u.db == db)
      && (Validation(kind, t, db, user) == [] ==> u.db == Ingest(kind, t, IngestorUser(kind, user), db).0)
  {
    KindOfKey(kind);
  }

  /** With n validation errors the record is marked failed and holds exactly n error logs, one per error, in order. */
  lemma FailedValidationLogs(kind: FileType, t: Table, user: User, db: Store)
    requires Validation(kind, t, db, user) != []
    ensures var u := UploadEffect(Key(kind), Parsed(t), user, db);
      var errors := Validation(kind, t, db, user);
      && u.Recorded? && u.status == Error
      && |u.logs| == |errors|
      && (forall i :: 0 <= i < |errors| ==> u.logs[i] == ImportLog(Message(errors[i]), true))
  {
    KindOfKey(kind);
  }

  /**
   * A file without validation errors is ingested: its record ends validated
   * with one informational log when the import commits, and failed with one
   * error log holding the exception's text when it aborts.
   */
  lemma IngestionLogs(kind: FileType, t: Table, user: User, db: Store)
    requires Validation(kind, t, db, user) == []
    ensures var u := UploadEffect(Key(kind), Parsed(t), user, db);
      var outcome := Ingest(kind, t, IngestorUser(kind, user), db).1;
      && u.Recorded?
      && |u.logs| == 1
      && (u.status == Validated <==> outcome.Imported?)
      && (outcome.Imported? ==> u.logs[0] == ImportLog("File successfully ingested.", false))
      && (outcome.Aborted? ==> u.status == Error && u.logs[0] == ImportLog(FailureMessage(outcome.failure), true))
  {
    KindOfKey(kind);
  }

  /**
   * A record is left pending exactly when its file could not be read: every
   * other upload of a known file type ends validated or failed.
   */
  lemma NeverPending(fileType: string, file: Loaded, user: User, db: Store)
    ensures var u := UploadEffect(fileType, file, user, db);
      !u.Rejected? ==> (u.status == Pending <==> file.Unreadable?)
  {
  }

  /** An upload, whatever its outcome, leaves a consistent store consistent. */
  lemma UploadKeepsConsistent(fileType: string, file: Loaded, user: User, db: Store)
    requires Consistent(db)
    ensures var u := UploadEffect(fileType, file, user, db);
      !u.Rejected? ==> Consistent(u.db)
  {
    var kind := KindOf(fileType);
    if kind.Some? && file.Parsed? {
      IngestPreservesConsistent(kind.value, file.table, IngestorUser(kind.value, user), db);
    }
  }
}
