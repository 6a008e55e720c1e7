/**
 * The values the store reads and writes: the documents kept on disk (with the
 * serialization codec taken as the identity), the error conditions the core
 * raises, and the small wrappers used to report them.
 */
module Documents {

  datatype Option<T> = None | Some(value: T)

  /** The exceptions the core raises, one tag per kind of failure. */
  datatype Error =
    | NotFound        // "... not found" (ValueError)
    | AlreadyExists   // "... already exists" (ValueError)
    | ReadOnly        // PermissionError from a read-only file store
    | Forbidden       // structure of the virtual "takoc" namespace is not editable
    | InvalidKey      // composite table key without a '.'
    | NameMismatch    // record id and payload name disagree
    | Malformed       // a document or payload that does not parse into the expected model
    | NoFile          // delete_file on a name that resolves to no file
    | BadCall         // a call whose arguments do not match the callee (TypeError)

  datatype Outcome = Pass | Fail(error: Error)

  datatype Result<T> = Success(value: T) | Failure(error: Error)

  /** Whether an operation that returns a value raised. */
  function OutcomeOf<T>(r: Result<T>): Outcome {
    if r.Success? then Pass else Fail(r.error)
  }

  /** Serialization formats of the file store. */
  datatype Format = Yaml | Json

  /** A path as its list of segments; the last segment of a file carries its extension. */
  type Path = seq<string>

  /** A catalog entry: the shape shared by namespace and table metadata. */
  datatype Entry = Entry(name: string, description: string, path: string)

  /** A record index entry: logical id and physical file base name. */
  datatype RecordPos = RecordPos(id: string, file: string)

  /** A table's own stored configuration (`TableMeta`); the opaque schema is not modelled. */
  datatype TableSettings = TableSettings(recordsFormat: Format, path: Option<string>)

  /** Everything a document can hold once decoded. */
  datatype Value =
    | NamespacesDoc(namespaces: seq<Entry>)
    | TablesDoc(tables: seq<Entry>)
    | RecordsDoc(records: seq<RecordPos>)
    | TableMetaDoc(settings: TableSettings)
    | Info(name: Option<string>, description: string, namespace: Option<string>)
    | Blob(content: string)

  /** The filesystem: the documents present, keyed by full path. */
  type Fs = map<Path, Value>

  /** What a mutating operation reports, together with the filesystem it leaves. */
  datatype Step = Step(outcome: Outcome, fs: Fs)

  /** The database handle's settings that the core reads. */
  datatype Db = Db(dataDir: Path, readOnly: bool, defaultFormat: Format)

  /** `Records(**data)`: a missing document cannot be unpacked. */
  function RecordsOf(d: Option<Value>): Result<seq<RecordPos>>
  {
    match d
    case Some(RecordsDoc(l)) => Success(l)
    case _ => Failure(Malformed)
  }

  /** `TableMeta(**data)`: a missing document cannot be unpacked. */
  function TableMetaOf(d: Option<Value>): Result<TableSettings>
  {
    match d
    case Some(TableMetaDoc(m)) => Success(m)
    case _ => Failure(Malformed)
  }
}
