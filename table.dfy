/**
 * A table: a directory holding its settings document `takoc` and an index
 * document `records` that lists `{id, file}` entries in insertion order. Each
 * record's payload is a document of its own, named by the entry's `file`.
 */
module Tables {
  import opened Documents
  import opened FileIO
  import opened Entries

  const META_DOC: string := "takoc"
  const RECORDS_DOC: string := "records"

  /** `TableMeta()`: records in YAML, kept in the table directory itself. */
  const DEFAULT_SETTINGS: TableSettings := TableSettings(Yaml, None)

  /** `Files(dir=dir, read_only=True)`: the store the settings are read from. */
  function MetaFiles(dir: Path): Files {
    Files(dir, true, Yaml)
  }

  /** `TableMeta.load`: the settings document, which must exist. */
  function Settings(fs: Fs, dir: Path): Result<TableSettings> {
    TableMetaOf(MetaFiles(dir).Read(fs, META_DOC))
  }

  /** Records live in `dir / path` when the settings name a non-empty path, else in `dir`. */
  function RecordsDir(dir: Path, settings: TableSettings): (r: Path)
    ensures settings.path.None? ==> r == dir
  {
    match settings.path
    case Some(p) => if p != "" then dir + [p] else dir
    case None => dir
  }

  /** The store of the index and the payloads. */
  function RecordsFiles(db: Db, dir: Path, settings: TableSettings): Files {
    Files(RecordsDir(dir, settings), db.readOnly, settings.recordsFormat)
  }

  /** `dir.name` */
  function LastName(dir: Path): string {
    if |dir| >= 1 then dir[|dir| - 1] else ""
  }

  /** `dir.parent.name` */
  function ParentName(dir: Path): string {
    if |dir| >= 2 then dir[|dir| - 2] else ""
  }

  // ---------------------------------------------------------------------------
  // The record operations, as functions of the filesystem

  /** `_get_records`: the index, which must exist. */
  function Index(c: Files, fs: Fs): Result<seq<RecordPos>> {
    RecordsOf(c.Read(fs, RECORDS_DOC))
  }

  /** `get_record` as written: the document named by the id itself. */
  function GetRecordAsWritten(c: Files, fs: Fs, id: string): (r: Result<Value>)
    ensures r.Failure? <==> !c.Present(fs, id)
    ensures r.Failure? ==> r.error == NotFound
  {
    match c.Read(fs, id)
    case None => Failure(NotFound)
    case Some(v) => Success(v)
  }

  /** `get_record` as evidently intended: the document named by the index entry's `file`. */
  function RecordViaIndex(c: Files, fs: Fs, id: string): Result<Value> {
    match Index(c, fs)
    case Failure(e) => Failure(e)
    case Success(l) =>
      match Lookup(l, id)
      case None => Failure(NotFound)
      case Some(p) =>
        match c.Read(fs, p.file)
        case None => Failure(NotFound)
        case Some(v) => Success(v)
  }

  /** `create_record`: refuse a known id, append `{id, file}`, save the index, then the payload. */
  function CreateStep(c: Files, fs: Fs, id: string, fileName: string, data: Value): Step {
    match Index(c, fs)
    case Failure(e) => Step(Fail(e), fs)
    case Success(l) =>
      if id in Ids(l) then Step(Fail(AlreadyExists), fs)
      else
        var s := c.Save(fs, RECORDS_DOC, RecordsDoc(l + [RecordPos(id, fileName)]));
        if s.outcome.Fail? then s else c.Save(s.fs, fileName, data)
  }

  /** `update_record`: overwrite the payload named by the index entry. */
  function UpdateStep(c: Files, fs: Fs, id: string, data: Value): Step {
    match Index(c, fs)
    case Failure(e) => Step(Fail(e), fs)
    case Success(l) =>
      match Lookup(l, id)
      case None => Step(Fail(NotFound), fs)
      case Some(p) => c.Save(fs, p.file, data)
  }

  /** `delete_record`: drop the id from the index, save it, then delete the payload. */
  function DeleteStep(c: Files, fs: Fs, id: string): Step {
    match Index(c, fs)
    case Failure(e) => Step(Fail(e), fs)
    case Success(l) =>
      match Lookup(l, id)
      case None => Step(Fail(NotFound), fs)
      case Some(p) =>
        var s := c.Save(fs, RECORDS_DOC, RecordsDoc(WithoutId(l, id)));
        if s.outcome.Fail? then s else c.Delete(s.fs, p.file)
  }

  /** `initialize`: write the default settings and an empty index with a writable store. */
  function InitializedFs(db: Db, fs: Fs, dir: Path): Fs {
    var f := Files(dir, false, db.defaultFormat);
    f.Written(f.Written(fs, META_DOC, TableMetaDoc(DEFAULT_SETTINGS)), RECORDS_DOC, RecordsDoc([]))
  }

  // ---------------------------------------------------------------------------
  // The object

  class Table {
    const disk: Disk
    const db: Db
    const dir: Path
    const settings: TableSettings
    const files: Files
    const namespace: string
    const name: string

    /** The fields `__init__` sets once the settings are loaded. */
    predicate BoundTo(disk: Disk, db: Db, dir: Path, settings: TableSettings) {
      && this.disk == disk && this.db == db && this.dir == dir && this.settings == settings
      && files == RecordsFiles(db, dir, settings)
      && namespace == ParentName(dir) && name == LastName(dir)
    }

    constructor (disk: Disk, db: Db, dir: Path, settings: TableSettings)
      ensures BoundTo(disk, db, dir, settings)
    {
      this.disk := disk;
      this.db := db;
      this.dir := dir;
      this.settings := settings;
      this.files := RecordsFiles(db, dir, settings);
      this.namespace := ParentName(dir);
      this.name := LastName(dir);
    }

    /** `Table(db, dir)`: fails when the settings document is missing or malformed. */
    static method Load(disk: Disk, db: Db, dir: Path) returns (r: Result<Table>)
      ensures r.Failure? <==> Settings(disk.files, dir).Failure?
      ensures r.Failure? ==> r.error == Settings(disk.files, dir).error
      ensures r.Success? ==> r.value.BoundTo(disk, db, dir, Settings(disk.files, dir).value)
    {
      var doc := MetaFiles(dir).ReadFile(disk, META_DOC);
      var loaded := TableMetaOf(doc);
      if loaded.Failure? {
        return Failure(loaded.error);
      }
      var t := new Table(disk, db, dir, loaded.value);
      r := Success(t);
    }

    /** `Table.initialize` */
    static method Initialize(disk: Disk, db: Db, dir: Path) returns (r: Result<Table>)
      modifies disk
      ensures disk.files == InitializedFs(db, old(disk.files), dir)
      ensures r.Failure? <==> Settings(disk.files, dir).Failure?
      ensures r.Failure? ==> r.error == Settings(disk.files, dir).error
      ensures r.Success? ==> r.value.BoundTo(disk, db, dir, Settings(disk.files, dir).value)
    {
      var f := Files(dir, false, db.defaultFormat);
      var wroteMeta := f.WriteFile(disk, META_DOC, TableMetaDoc(DEFAULT_SETTINGS));
      var wroteIndex := f.WriteFile(disk, RECORDS_DOC, RecordsDoc([]));
      r := Load(disk, db, dir);
    }

    /** `_get_records` */
    method Records() returns (r: Result<seq<RecordPos>>)
      ensures r == Index(files, disk.files)
    {
      var doc := files.ReadFile(disk, RECORDS_DOC);
      r := RecordsOf(doc);
    }

    /** `_update_records` */
    method UpdateRecords(l: seq<RecordPos>) returns (r: Outcome)
      modifies disk
      ensures !files.readOnly ==> Index(files, disk.files) == Success(l)
      ensures Step(r, disk.files) == files.Save(old(disk.files), RECORDS_DOC, RecordsDoc(l))
    {
      ReadAfterWrite(files, disk.files, RECORDS_DOC, RecordsDoc(l));
      r := files.WriteFile(disk, RECORDS_DOC, RecordsDoc(l));
    }

    /** `list_records`: the indexed ids in stored order. */
    method ListRecords() returns (r: Result<seq<string>>)
      ensures r.Failure? <==> Index(files, disk.files).Failure?
      ensures r.Failure? ==> r.error == Index(files, disk.files).error
      ensures r.Success? ==> r.value == Ids(Index(files, disk.files).value)
    {
      var records := Records();
      if records.Failure? {
        return Failure(records.error);
      }
      r := Success(Ids(records.value));
    }

    method GetRecord(id: string) returns (r: Result<Value>)
      ensures r == GetRecordAsWritten(files, disk.files, id)
    {
      var doc := files.ReadFile(disk, id);
      if doc.None? {
        return Failure(NotFound);
      }
      r := Success(doc.value);
    }

    /** The lookup through the index that `get_record` evidently means to do. */
    method GetRecordByIndex(id: string) returns (r: Result<Value>)
      ensures r == RecordViaIndex(files, disk.files, id)
    {
      var records := Records();
      if records.Failure? {
        return Failure(records.error);
      }
      var record := FindRecord(records.value, id);
      if record.None? {
        return Failure(NotFound);
      }
      var doc := files.ReadFile(disk, record.value.file);
      if doc.None? {
        return Failure(NotFound);
      }
      r := Success(doc.value);
    }

    /** `create_record`; `fileName` is what `generate_file_name(record_id)` returns. */
    method CreateRecord(id: string, fileName: string, data: Value) returns (r: Outcome)
      modifies disk
      ensures Step(r, disk.files) == CreateStep(files, old(disk.files), id, fileName, data)
    {
      var records := Records();
      if records.Failure? {
        return Fail(records.error);
      }
      var l := records.value;
      var record := FindRecord(l, id);
      if record.Some? {
        return Fail(AlreadyExists);
      }
      r := UpdateRecords(l + [RecordPos(id, fileName)]);
      if r.Fail? {
        return;
      }
      r := files.WriteFile(disk, fileName, data);
    }

    method UpdateRecord(id: string, data: Value) returns (r: Outcome)
      modifies disk
      ensures Step(r, disk.files) == UpdateStep(files, old(disk.files), id, data)
    {
      var records := Records();
      if records.Failure? {
        return Fail(records.error);
      }
      var record := FindRecord(records.value, id);
      if record.None? {
        return Fail(NotFound);
      }
      r := files.WriteFile(disk, record.value.file, data);
    }

    method DeleteRecord(id: string) returns (r: Outcome)
      modifies disk
      ensures Step(r, disk.files) == DeleteStep(files, old(disk.files), id)
    {
      var records := Records();
      if records.Failure? {
        return Fail(records.error);
      }
      var l := records.value;
      var record := FindRecord(l, id);
      if record.None? {
        return Fail(NotFound);
      }
      r := UpdateRecords(WithoutId(l, id));
      if r.Fail? {
        return;
      }
      r := files.DeleteFile(disk, record.value.file);
    }
  }

  // ---------------------------------------------------------------------------
  // What the record operations do

  /** Creating fails iff the index is unreadable, holds the id or the store is read-only; a failed
      create changes nothing; a successful one appends `{id, file}` and stores the payload. */
  lemma CreateEffect(c: Files, fs: Fs, id: string, fileName: string, data: Value)
    ensures var s := CreateStep(c, fs, id, fileName, data);
      && (s.outcome == Pass <==> Index(c, fs).Success? && id !in Ids(Index(c, fs).value) && !c.readOnly)
      && (Index(c, fs).Success? && id in Ids(Index(c, fs).value) ==> s.outcome == Fail(AlreadyExists))
      && (s.outcome.Fail? ==> s.fs == fs)
      && (s.outcome == Pass ==> c.Read(s.fs, fileName) == Some(data))
      && (s.outcome == Pass && fileName != RECORDS_DOC ==>
            Index(c, s.fs) == Success(Index(c, fs).value + [RecordPos(id, fileName)]))
  {
    if Index(c, fs).Success? && !c.readOnly {
      var l := Index(c, fs).value;
      var v := RecordsDoc(l + [RecordPos(id, fileName)]);
      var s := c.Save(fs, RECORDS_DOC, v);
      ReadAfterWrite(c, s.fs, fileName, data);
      ReadAfterWrite(c, fs, RECORDS_DOC, v);
      if fileName != RECORDS_DOC {
        ReadOtherAfterWrite(c, s.fs, fileName, RECORDS_DOC, data);
      }
    }
  }

  /** The index is saved before the payload: a payload that takes the index's own name
      overwrites the freshly saved index. */
  lemma CreateSavesIndexFirst(c: Files, fs: Fs, id: string, data: Value)
    ensures var s := CreateStep(c, fs, id, RECORDS_DOC, data);
      s.outcome == Pass ==> c.Read(s.fs, RECORDS_DOC) == Some(data)
  {
    CreateEffect(c, fs, id, RECORDS_DOC, data);
  }

  /** Creating keeps the ids of the index unique. */
  lemma CreateKeepsIdsUnique(c: Files, fs: Fs, id: string, fileName: string, data: Value)
    requires fileName != RECORDS_DOC
    requires Index(c, fs).Success? && Unique(Ids(Index(c, fs).value))
    ensures var s := CreateStep(c, fs, id, fileName, data);
      Index(c, s.fs).Success? && Unique(Ids(Index(c, s.fs).value))
  {
    CreateEffect(c, fs, id, fileName, data);
    var l := Index(c, fs).value;
    if id !in Ids(l) {
      AppendKeepsUniqueIds(l, RecordPos(id, fileName));
    }
  }

  /** Updating fails iff the index is unreadable, lacks the id or the store is read-only; it
      leaves the index alone and overwrites the payload named by the entry's `file`. */
  lemma UpdateEffect(c: Files, fs: Fs, id: string, data: Value)
    ensures var s := UpdateStep(c, fs, id, data);
      && (s.outcome == Pass <==> Index(c, fs).Success? && id in Ids(Index(c, fs).value) && !c.readOnly)
      && (Index(c, fs).Success? && id !in Ids(Index(c, fs).value) ==> s == Step(Fail(NotFound), fs))
      && (s.outcome.Fail? ==> s.fs == fs)
      && (s.outcome == Pass ==> c.Read(s.fs, Lookup(Index(c, fs).value, id).value.file) == Some(data))
      && (s.outcome == Pass && Lookup(Index(c, fs).value, id).value.file != RECORDS_DOC ==> Index(c, s.fs) == Index(c, fs))
  {
    if Index(c, fs).Success? && id in Ids(Index(c, fs).value) && !c.readOnly {
      var p := Lookup(Index(c, fs).value, id).value;
      ReadAfterWrite(c, fs, p.file, data);
      if p.file != RECORDS_DOC {
        ReadOtherAfterWrite(c, fs, p.file, RECORDS_DOC, data);
      }
    }
  }

  /** Updating a record touches no document but its payload. */
  lemma UpdateTouchesOnlyPayload(c: Files, fs: Fs, id: string, data: Value, other: string)
    requires Index(c, fs).Success? && id in Ids(Index(c, fs).value)
    requires other != Lookup(Index(c, fs).value, id).value.file
    ensures c.Read(UpdateStep(c, fs, id, data).fs, other) == c.Read(fs, other)
  {
    if !c.readOnly {
      ReadOtherAfterWrite(c, fs, Lookup(Index(c, fs).value, id).value.file, other, data);
    }
  }

  /** Deleting fails before any change when the index is unreadable, the id is unknown or the
      store is read-only. Otherwise the index loses exactly that id, keeping the others in order,
      and is saved even when the payload is then missing; a payload stored once is gone afterwards. */
  lemma DeleteEffect(c: Files, fs: Fs, id: string)
    ensures var s := DeleteStep(c, fs, id);
      && (Index(c, fs).Failure? ==> s == Step(Fail(Index(c, fs).error), fs))
      && (Index(c, fs).Success? && id !in Ids(Index(c, fs).value) ==> s == Step(Fail(NotFound), fs))
      && (Index(c, fs).Success? && id in Ids(Index(c, fs).value) && c.readOnly ==> s == Step(Fail(ReadOnly), fs))
      && (s.outcome == Pass ==> Index(c, fs).Success? && id in Ids(Index(c, fs).value) && !c.readOnly)
      && (Index(c, fs).Success? && id in Ids(Index(c, fs).value) && !c.readOnly ==>
            var p := Lookup(Index(c, fs).value, id).value;
            p.file != RECORDS_DOC ==>
              && (s.outcome == Pass <==> c.Present(fs, p.file))
              && Index(c, s.fs) == Success(WithoutId(Index(c, fs).value, id))
              && (c.SingleCopy(fs, p.file) ==> c.Read(s.fs, p.file) == None))
  {
    if Index(c, fs).Success? && id in Ids(Index(c, fs).value) && !c.readOnly {
      var l := Index(c, fs).value;
      var p := Lookup(l, id).value;
      var v := RecordsDoc(WithoutId(l, id));
      var s := c.Save(fs, RECORDS_DOC, v);
      ReadAfterWrite(c, fs, RECORDS_DOC, v);
      if p.file != RECORDS_DOC {
        forall e | IsExt(e)
          ensures c.Target(p.file, e) in s.fs <==> c.Target(p.file, e) in fs
        {
          if c.Target(p.file, e) == c.Target(RECORDS_DOC, c.DefaultExt()) {
            TargetsInjective(c, p.file, RECORDS_DOC, e, c.DefaultExt());
          }
        }
        ReadOtherAfterDelete(c, s.fs, p.file, RECORDS_DOC);
        if c.SingleCopy(fs, p.file) {
          assert c.SingleCopy(s.fs, p.file);
          ReadAfterDeleteSingle(c, s.fs, p.file);
        }
      }
    }
  }

  /** A table initialized in a directory with nothing in it loads the default settings and
      lists no records. */
  lemma InitializedTableIsEmpty(db: Db, fs: Fs, dir: Path)
    requires forall p :: p in fs ==> !(dir < p)
    ensures var after := InitializedFs(db, fs, dir);
      && Settings(after, dir) == Success(DEFAULT_SETTINGS)
      && Index(RecordsFiles(db, dir, DEFAULT_SETTINGS), after) == Success([])
  {
    var f := Files(dir, false, db.defaultFormat);
    var ext := f.DefaultExt();
    var after := InitializedFs(db, fs, dir);
    var m, r := MetaFiles(dir), RecordsFiles(db, dir, DEFAULT_SETTINGS);
    if f.Target(META_DOC, ext) == f.Target(RECORDS_DOC, ext) {
      TargetsInjective(f, META_DOC, RECORDS_DOC, ext, ext);
    }
    assert after[f.Target(META_DOC, ext)] == TableMetaDoc(DEFAULT_SETTINGS);
    assert after[f.Target(RECORDS_DOC, ext)] == RecordsDoc([]);
    forall e | IsExt(e) && e != ext
      ensures m.Target(META_DOC, e) !in after && r.Target(RECORDS_DOC, e) !in after
    {
      assert dir < m.Target(META_DOC, e) && dir < r.Target(RECORDS_DOC, e);
      if m.Target(META_DOC, e) == f.Target(META_DOC, ext) {
        TargetsInjective(f, META_DOC, META_DOC, e, ext);
      }
      if r.Target(RECORDS_DOC, e) == f.Target(RECORDS_DOC, ext) {
        TargetsInjective(f, RECORDS_DOC, RECORDS_DOC, e, ext);
      }
      if m.Target(META_DOC, e) == f.Target(RECORDS_DOC, ext) {
        TargetsInjective(f, META_DOC, RECORDS_DOC, e, ext);
      }
      if r.Target(RECORDS_DOC, e) == f.Target(META_DOC, ext) {
        TargetsInjective(f, RECORDS_DOC, META_DOC, e, ext);
      }
    }
    ReadSoleCopy(MetaFiles(dir), after, META_DOC, ext);
    ReadSoleCopy(RecordsFiles(db, dir, DEFAULT_SETTINGS), after, RECORDS_DOC, ext);
  }

  /** Initializing a table writes below its directory only. */
  lemma InitializedFsOutside(db: Db, fs: Fs, dir: Path)
    ensures var after := InitializedFs(db, fs, dir);
      forall p :: !(dir < p) ==> (p in after <==> p in fs) && (p in fs ==> after[p] == fs[p])
  {
  }

  // ---------------------------------------------------------------------------
  // `get_record` reads the document named by the id, not the one the index names

  /** Created under a file name other than its id, a record cannot be read back by
      `get_record` when no document happens to carry the id's name. */
  lemma CreatedRecordMissedByGetRecord(c: Files, fs: Fs, id: string, fileName: string, data: Value)
    requires fileName != id && id != RECORDS_DOC && !c.Present(fs, id)
    ensures var s := CreateStep(c, fs, id, fileName, data);
      s.outcome == Pass ==> GetRecordAsWritten(c, s.fs, id) == Failure(NotFound)
  {
    if Index(c, fs).Success? && !c.readOnly {
      var l := Index(c, fs).value;
      var v := RecordsDoc(l + [RecordPos(id, fileName)]);
      var s := c.Save(fs, RECORDS_DOC, v);
      ReadOtherAfterWrite(c, fs, RECORDS_DOC, id, v);
      ReadOtherAfterWrite(c, s.fs, fileName, id, data);
    }
  }

  /** Through the index, a created record reads back as the payload it was created with. */
  lemma CreatedRecordReadByIndex(c: Files, fs: Fs, id: string, fileName: string, data: Value)
    requires fileName != RECORDS_DOC
    ensures var s := CreateStep(c, fs, id, fileName, data);
      s.outcome == Pass ==> RecordViaIndex(c, s.fs, id) == Success(data)
  {
    CreateEffect(c, fs, id, fileName, data);
    if Index(c, fs).Success? && id !in Ids(Index(c, fs).value) {
      LookupAppended(Index(c, fs).value, RecordPos(id, fileName));
    }
  }

  /** Through the index, an updated record reads back as the new payload. */
  lemma UpdatedRecordReadByIndex(c: Files, fs: Fs, id: string, data: Value)
    ensures var s := UpdateStep(c, fs, id, data);
      s.outcome == Pass && Lookup(Index(c, fs).value, id).value.file != RECORDS_DOC ==>
        RecordViaIndex(c, s.fs, id) == Success(data)
  {
    UpdateEffect(c, fs, id, data);
  }
}
