/**
 * The import audit records (data_loader/models.py): one `ImportFile` per
 * upload, with the file type it was declared as and a processing status,
 * and the `ImportLog` entries written about it.
 */
module Audit {
  /** The processing status of an upload. */
  datatype ImportStatus = Pending | Validated | Error

  /** The text stored for a status. */
  function StatusText(s: ImportStatus): (text: string)
    ensures text in StatusChoices
  {
    match s
    case Pending => "pending"
    case Validated => "validated"
    case Error => "error"
  }

  const StatusChoices: seq<string> := ["pending", "validated", "error"]

  /**
   * The file types an `ImportFile` declares as its choices. Teachers and
   * degrees are not among them, although uploads of both are accepted; the
   * choices are not checked when a record is saved.
   */
  const FileTypeChoices: seq<string> := ["students", "programs", "courses", "enrollments", "results"]

  /** One log line about an upload; `is_error` is false unless set. */
  datatype ImportLog = ImportLog(message: string, isError: bool)

  function InfoLog(message: string): (log: ImportLog)
    ensures !log.isError && log.message == message
  {
    ImportLog(message, false)
  }

  function ErrorLog(message: string): (log: ImportLog)
    ensures log.isError && log.message == message
  {
    ImportLog(message, true)
  }

  /**
   * An upload's record. `status` is the field of the object in memory and
   * `savedStatus` the column in the database, which only `Save` updates;
   * `logs` are the log rows pointing at this record, in the order they were
   * created (each log row belongs to exactly one record).
   */
  class ImportFile {
    const fileType: string
    var status: ImportStatus
    var savedStatus: ImportStatus
    var logs: seq<ImportLog>

    /** `ImportFile.objects.create(...)`: stored at once, with the default status. */
    constructor (fileType: string)
      ensures this.fileType == fileType
      ensures status == Pending && savedStatus == Pending && logs == []
    {
      this.fileType := fileType;
      status := Pending;
      savedStatus := Pending;
      logs := [];
    }

    /** `save()`: the database now holds the object's status. */
    method Save()
      modifies this`savedStatus
      ensures savedStatus == status
    {
      savedStatus := status;
    }

    /** `ImportLog.objects.create(import_file=self, ...)`. */
    method AddLog(log: ImportLog)
      modifies this`logs
      ensures logs == old(logs) + [log]
    {
      logs := logs + [log];
    }
  }
}
