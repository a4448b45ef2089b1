/**
 * The upload view (data_loader/views.py): dispatch on the declared file
 * type, validate, and ingest only a file without errors; record the outcome
 * on the upload's `ImportFile` as a status and log lines, and flash a
 * message to the user.
 *
 * `UploadEffect` states what one upload does; the method `UploadFile`
 * performs it step by step on an `ImportFile` object, as the view does.
 */
module Uploads {
  import opened Options
  import opened Strings
  import opened Frames
  import opened Academic
  import opened Validators
  import opened Ingestion
  import opened Audit

  // ---------------------------------------------------------------------
  // The dispatch tables
  // ---------------------------------------------------------------------

  /** The keys of `VALIDATORS`, which are also those of `INGESTORS`. */
  const DispatchKeys: seq<string> := ["students", "teachers", "programs", "courses", "enrollments", "results", "degrees"]

  /** The dispatch key of a file type. */
  function Key(kind: FileType): (key: string)
    ensures key in DispatchKeys
  {
    match kind
    case Students => "students"
    case Teachers => "teachers"
    case Programs => "programs"
    case Courses => "courses"
    case Enrollments => "enrollments"
    case Results => "results"
    case Degrees => "degrees"
  }

  /** The file type a posted `file_type` selects, if it is a dispatch key. */
  function KindOf(key: string): (kind: Option<FileType>)
    ensures kind.Some? <==> key in DispatchKeys
    ensures kind.Some? ==> Key(kind.value) == key
  {
    if key == "students" then Some(Students)
    else if key == "teachers" then Some(Teachers)
    else if key == "programs" then Some(Programs)
    else if key == "courses" then Some(Courses)
    else if key == "enrollments" then Some(Enrollments)
    else if key == "results" then Some(Results)
    else if key == "degrees" then Some(Degrees)
    else None
  }

  /** Every file type is reached through its own key. */
  lemma KindOfKey(kind: FileType)
    ensures KindOf(Key(kind)) == Some(kind)
  {
  }

  /** Two keys the view accepts are not among the declared file-type choices. */
  lemma DispatchBeyondChoices()
    ensures forall c :: c in FileTypeChoices ==> c in DispatchKeys
    ensures (set k | k in DispatchKeys && k !in FileTypeChoices) == {"teachers", "degrees"}
  {
  }

  /** The `VALIDATORS` entry for a file type: the errors it returns. */
  function Validation(kind: FileType, t: Table, db: Store, user: User): seq<ValidationError>
  {
    match kind
    case Students => StudentsFileErrors(t)
    case Teachers => TeachersFileErrors(t, db, user)
    case Programs => ProgramsFileErrors(t, db, user)
    case Courses => CoursesFileErrors(t, db)
    case Enrollments => EnrollmentsFileErrors(t, db, user)
    case Results => ResultsFileErrors(t, db, user)
    case Degrees => DegreesFileErrors(t, db, user)
  }

  /** The user the `INGESTORS` entry passes on: the students and courses entries drop it. */
  function IngestorUser(kind: FileType, user: User): (u: User)
    ensures (kind == Students || kind == Courses) ==> u == User(None)
    ensures kind != Students && kind != Courses ==> u == user
  {
    if kind == Students || kind == Courses then User(None) else user
  }

  /** The students and courses validators do not depend on the user. */
  lemma ValidationIgnoresUser(kind: FileType, t: Table, db: Store, u1: User, u2: User)
    requires kind == Students || kind == Courses
    ensures Validation(kind, t, db, u1) == Validation(kind, t, db, u2)
  {
  }

  /** The students and courses ingestors do not depend on the user either, so dropping it changes nothing. */
  lemma IngestIgnoresUser(kind: FileType, t: Table, db: Store, u1: User, u2: User)
    requires kind == Students || kind == Courses
    ensures Ingest(kind, t, u1, db) == Ingest(kind, t, u2, db)
  {
  }

  /** Calls the `VALIDATORS` entry. */
  method Validate(kind: FileType, t: Table, db: Store, user: User) returns (errors: seq<ValidationError>)
    ensures errors == Validation(kind, t, db, user)
  {
    match kind
    case Students => errors := ValidateStudentsFile(t);
    case Teachers => errors := ValidateTeachersFile(t, db, user);
    case Programs => errors := ValidateProgramsFile(t, db, user);
    case Courses => errors := ValidateCoursesFile(t, db);
    case Enrollments => errors := ValidateEnrollmentsFile(t, db, user);
    case Results => errors := ValidateResultsFile(t, db, user);
    case Degrees => errors := ValidateDegreesFile(t, db, user);
  }

  /** Calls the `INGESTORS` entry. */
  method RunIngestor(kind: FileType, t: Table, db: Store, user: User) returns (db': Store, outcome: Outcome)
    ensures (db', outcome) == Ingest(kind, t, IngestorUser(kind, user), db)
  {
    match kind
    case Students => db', outcome := IngestStudents(t, db);
    case Teachers => db', outcome := IngestTeachers(t, user, db);
    case Programs => db', outcome := IngestPrograms(t, user, db);
    case Courses => db', outcome := IngestCourses(t, db);
    case Enrollments => db', outcome := IngestEnrollments(t, user, db);
    case Results => db', outcome := IngestResults(t, user, db);
    case Degrees => db', outcome := IngestDegrees(t, user, db);
  }

  // ---------------------------------------------------------------------
  // The error summary
  // ---------------------------------------------------------------------

  /** How many errors the summary lists. */
  const Shown: nat := 5

  function Min(a: nat, b: nat): nat
  {
    if a <= b then a else b
  }

  /** Each error as a bullet line. */
  function Bullets(errors: seq<string>): (lines: seq<string>)
    ensures |lines| == |errors|
    ensures forall i :: 0 <= i < |errors| ==> lines[i] == "- " + errors[i]
  {
    seq(|errors|, i requires 0 <= i < |errors| => "- " + errors[i])
  }

  /** The line that counts the errors left out. */
  function MoreLine(errors: seq<string>): string
    requires |errors| > Shown
  {
    "...and " + NatToString(|errors| - Shown) + " more."
  }

  /** The summary as the view builds it: the first five bullets joined, then the overflow count. */
  function ErrorText(errors: seq<string>): string
  {
    var text := Join(Bullets(errors[..Min(|errors|, Shown)]), "\n");
    if |errors| > Shown then text + "\n" + MoreLine(errors) else text
  }

  /** The lines of the summary: at most five bullets, in order, and a count line exactly when errors were left out. */
  function SummaryLines(errors: seq<string>): (lines: seq<string>)
    ensures |lines| == Min(|errors|, Shown) + (if |errors| > Shown then 1 else 0)
    ensures forall i :: 0 <= i < Min(|errors|, Shown) ==> lines[i] == "- " + errors[i]
    ensures |errors| > Shown ==> lines[Shown] == MoreLine(errors)
  {
    Bullets(errors[..Min(|errors|, Shown)]) + (if |errors| > Shown then [MoreLine(errors)] else [])
  }

  /** The summary is its lines joined by newlines. */
  lemma ErrorTextLines(errors: seq<string>)
    ensures ErrorText(errors) == Join(SummaryLines(errors), "\n")
  {
    var bullets := Bullets(errors[..Min(|errors|, Shown)]);
    if |errors| > Shown {
      JoinAppend(bullets, [MoreLine(errors)], "\n");
    } else {
      assert SummaryLines(errors) == bullets;
    }
  }

  /** The opening words of that message. */
  const FailedHead := "File validation failed with "

  /**
   * The message flashed when validation fails: it counts all the errors,
   * then lists the summary lines, one per line.
   */
  function ValidationFailedText(errors: seq<string>): (r: string)
    ensures NumberAt(r, |FailedHead|, |errors|)
    ensures r == FailedHead + NatToString(|errors|) + " error(s):\n" + Join(SummaryLines(errors), "\n")
  {
    var head := FailedHead + NatToString(|errors|) + " error(s):\n";
    ErrorTextLines(errors);
    NumberBefore(FailedHead, |errors|, " error(s):\n");
    NumberAtExtend(head, |FailedHead|, |errors|, ErrorText(errors));
    head + ErrorText(errors)
  }

  // ---------------------------------------------------------------------
  // One upload
  // ---------------------------------------------------------------------

  /** A message for the user: an error or a success. */
  datatype Flash = Flash(isError: bool, text: string)

  /**
   * What an upload leaves behind: nothing recorded for an unknown file type;
   * a record with its final status and logs, the store, and the message; or,
   * when the validator's read of the file raises (outside any `try`), the
   * record as it was created and no message.
   */
  datatype Upload =
    | Rejected(flash: Flash)
    | Recorded(status: ImportStatus, logs: seq<ImportLog>, db: Store, flash: Flash)
    | Raised(status: ImportStatus, logs: seq<ImportLog>, db: Store)

  /** The texts of the validation errors. */
  function Messages(errors: seq<ValidationError>): (texts: seq<string>)
    ensures |texts| == |errors|
    ensures forall i :: 0 <= i < |errors| ==> texts[i] == Message(errors[i])
  {
    seq(|errors|, i requires 0 <= i < |errors| => Message(errors[i]))
  }

  /** One error log per text, in order. */
  function ErrorLogs(texts: seq<string>): (logs: seq<ImportLog>)
    ensures |logs| == |texts|
    ensures forall i :: 0 <= i < |texts| ==> logs[i] == ErrorLog(texts[i])
  {
    seq(|texts|, i requires 0 <= i < |texts| => ErrorLog(texts[i]))
  }

  /** The outcome of an import whose file passed validation. */
  function IngestEffect(kind: FileType, db': Store, outcome: Outcome): Upload
  {
    match outcome
    case Imported(c) => Recorded(Validated, [InfoLog("File successfully ingested.")], db', Flash(false, SuccessMessage(kind, c)))
    case Aborted(f) =>
      Recorded(Error, [ErrorLog(FailureMessage(f))], db', Flash(true, "An error occurred during import: " + FailureMessage(f)))
  }

  /**
   * `upload_file` for a POST with a file: what it records, stores and says.
   * A known file type whose file cannot be read raises from the validator
   * and leaves its record pending, with no log and the store untouched.
   */
  function UploadEffect(fileType: string, file: Loaded, user: User, db: Store): (r: Upload)
    ensures r.Raised? <==> fileType in DispatchKeys && file.Unreadable?
    ensures r.Raised? ==> r.status == Pending && r.logs == [] && r.db == db
  {
    match KindOf(fileType)
    case None => Rejected(Flash(true, "Invalid file type."))
    case Some(kind) =>
      if file.Unreadable? then Raised(Pending, [], db)
      else
      var t := file.table;
      var texts := Messages(Validation(kind, t, db, user));
      if texts != [] then Recorded(Error, ErrorLogs(texts), db, Flash(true, ValidationFailedText(texts)))
      else
        var (db', outcome) := Ingest(kind, t, IngestorUser(kind, user), db);
        IngestEffect(kind, db', outcome)
  }

  /** The failed-validation branch: status error, saved, then one error log per error, in order. */
  method RecordErrors(importFile: ImportFile, texts: seq<string>)
    modifies importFile
    ensures importFile.status == Error && importFile.savedStatus == Error
    ensures importFile.logs == old(importFile.logs) + ErrorLogs(texts)
  {
    importFile.status := Error;
    importFile.Save();
    var i := 0;
    while i < |texts|
      invariant i <= |texts|
      invariant importFile.logs == old(importFile.logs) + ErrorLogs(texts[..i])
      invariant importFile.status == Error && importFile.savedStatus == Error
    {
      importFile.AddLog(ErrorLog(texts[i]));
      i := i + 1;
    }
    assert texts[..i] == texts;
  }

  /** The ingestion branch: status and log by the outcome, then the status saved (the `finally`). */
  method RecordOutcome(importFile: ImportFile, kind: FileType, db': Store, outcome: Outcome) returns (flash: Flash)
    modifies importFile
    ensures var u := IngestEffect(kind, db', outcome);
      && importFile.status == u.status && importFile.savedStatus == u.status
      && importFile.logs == old(importFile.logs) + u.logs
      && flash == u.flash
  {
    match outcome {
      case Imported(c) =>
        importFile.status := Validated;
        importFile.AddLog(InfoLog("File successfully ingested."));
        flash := Flash(false, SuccessMessage(kind, c));
      case Aborted(f) =>
        importFile.status := Error;
        importFile.AddLog(ErrorLog(FailureMessage(f)));
        flash := Flash(true, "An error occurred during import: " + FailureMessage(f));
    }
    importFile.Save();
  }

  /**
   * The view. An unknown file type creates no record; otherwise the record
   * is created pending. A file the validator cannot read raises there and
   * the record stays pending. Otherwise the record is either marked as
   * failed with one log per validation error, or the file is ingested and
   * the record marked by the outcome; the status is saved in both cases.
   */
  method UploadFile(fileType: string, file: Loaded, user: User, db: Store)
    returns (importFile: ImportFile?, db': Store, flash: Option<Flash>)
    ensures var u := UploadEffect(fileType, file, user, db);
      && (importFile == null <==> u.Rejected?)
      && (u.Rejected? ==> db' == db && flash == Some(u.flash))
      && (!u.Rejected? ==>
            && importFile != null && fresh(importFile)
            && importFile.fileType == fileType
            && importFile.status == u.status && importFile.savedStatus == u.status
            && importFile.logs == u.logs
            && db' == u.db)
      && (u.Recorded? ==> flash == Some(u.flash))
      && (u.Raised? ==> flash.None?)
  {
    var kind := KindOf(fileType);
    if kind.None? {
      return null, db, Some(Flash(true, "Invalid file type."));
    }
    importFile := new ImportFile(fileType);
    if file.Unreadable? {
      return importFile, db, None;
    }
    var errors := Validate(kind.value, file.table, db, user);
    var texts := Messages(errors);
    if texts != [] {
      RecordErrors(importFile, texts);
      db', flash := db, Some(Flash(true, ValidationFailedText(texts)));
    } else {
      var outcome, shown;
      db', outcome := RunIngestor(kind.value, file.table, db, user);
      shown := RecordOutcome(importFile, kind.value, db', outcome);
      flash := Some(shown);
    }
  }
}
