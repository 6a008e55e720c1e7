/**
 * A directory-backed namespace: a directory holding a `tables` list document
 * and one sub-directory per table.
 */
module NamespaceDir {
  import opened Documents
  import opened FileIO
  import opened Entries
  import opened ListDocs
  import opened Tables

  const TABLES_DOC: string := "tables"

  /** The `tables` list document of a namespace store. */
  function TablesOf(c: Files): ListDoc {
    ListDoc(c, TABLES_DOC, TableList)
  }

  /** `Namespace.initialize` on the filesystem: an empty `tables` list written with a writable store. */
  function InitializedNamespaceFs(db: Db, fs: Fs, dir: Path): Fs {
    Files(dir, false, db.defaultFormat).Written(fs, TABLES_DOC, TablesDoc([]))
  }

  /** `create_table`: add the entry, then initialize `dir/name`; the new table must load. */
  function CreateTableStep(db: Db, c: Files, fs: Fs, name: string, description: string): Step {
    var s := TablesOf(c).AddStep(fs, name, description);
    if s.outcome.Fail? then s
    else
      var tableDir := c.dir + [name];
      var after := InitializedFs(db, s.fs, tableDir);
      Step(OutcomeOf(Settings(after, tableDir)), after)
  }

  /** The directory a listed table lives in: `dir / table.path`. */
  function TableDir(c: Files, fs: Fs, name: string): Result<Path> {
    match TablesOf(c).Listed(fs)
    case Failure(e) => Failure(e)
    case Success(l) =>
      match Find(l, name)
      case None => Failure(NotFound)
      case Some(e) => Success(c.dir + [e.path])
  }

  /** What `get_table` raises: a found table still fails, because the call that would bind it
      passes `read_only` to a constructor that has no such parameter. */
  function GetTableError(c: Files, fs: Fs, name: string): Error {
    match TableDir(c, fs, name)
    case Success(_) => BadCall
    case Failure(e) => e
  }

  /** `delete_table`: remove the entry, save, then remove the `dir/name` subtree. */
  function DeleteTableStep(c: Files, fs: Fs, name: string): Step {
    var s := TablesOf(c).RemoveStep(fs, name);
    if s.outcome.Fail? then s else Step(Pass, Pruned(s.fs, c.dir + [name]))
  }

  class Namespace {
    const disk: Disk
    const db: Db
    const files: Files

    constructor (disk: Disk, db: Db, dir: Path, readOnly: bool)
      ensures this.disk == disk && this.db == db && files == Files(dir, readOnly, db.defaultFormat)
    {
      this.disk := disk;
      this.db := db;
      this.files := Files(dir, readOnly, db.defaultFormat);
    }

    /** `Namespace.initialize`: a writable namespace over `dir` with an empty tables list. */
    static method Initialize(disk: Disk, db: Db, dir: Path) returns (ns: Namespace)
      modifies disk
      ensures ns.disk == disk && ns.db == db && ns.files == Files(dir, false, db.defaultFormat)
      ensures disk.files == InitializedNamespaceFs(db, old(disk.files), dir)
    {
      ns := new Namespace(disk, db, dir, false);
      var saved := ns.files.WriteFile(disk, TABLES_DOC, TablesDoc([]));
    }

    method CreateTable(name: string, description: string) returns (r: Result<Table>)
      modifies disk
      ensures Step(OutcomeOf(r), disk.files) == CreateTableStep(db, files, old(disk.files), name, description)
      ensures r.Success? ==> r.value.BoundTo(disk, db, files.dir + [name], Settings(disk.files, files.dir + [name]).value)
    {
      var added := TablesOf(files).Add(disk, name, description);
      if added.Fail? {
        return Failure(added.error);
      }
      r := Table.Initialize(disk, db, files.dir + [name]);
    }

    /** `list_tables`: the table names in stored order. */
    method ListTables() returns (r: Result<seq<string>>)
      ensures r.Failure? <==> TablesOf(files).Listed(disk.files).Failure?
      ensures r.Failure? ==> r.error == TablesOf(files).Listed(disk.files).error
      ensures r.Success? ==> r.value == Names(TablesOf(files).Listed(disk.files).value)
    {
      var loaded := TablesOf(files).Load(disk);
      if loaded.Failure? {
        return Failure(loaded.error);
      }
      r := Success(Names(loaded.value));
    }

    /** `get_table` as written: it never returns a table. */
    method GetTable(name: string) returns (r: Result<Table>)
      ensures r == Failure(GetTableError(files, disk.files, name))
    {
      var loaded := TablesOf(files).Load(disk);
      if loaded.Failure? {
        return Failure(loaded.error);
      }
      var found := FindEntry(loaded.value, name);
      if found.None? {
        return Failure(NotFound);
      }
      r := Failure(BadCall);
    }

    /** `get_table` as evidently intended: bind the table in `dir / table.path`. */
    method OpenTable(name: string) returns (r: Result<Table>)
      ensures TableDir(files, disk.files, name).Failure? ==> r == Failure(TableDir(files, disk.files, name).error)
      ensures TableDir(files, disk.files, name).Success? ==>
        var dir := TableDir(files, disk.files, name).value;
        && (r.Success? <==> Settings(disk.files, dir).Success?)
        && (r.Success? ==> r.value.BoundTo(disk, db, dir, Settings(disk.files, dir).value))
    {
      var loaded := TablesOf(files).Load(disk);
      if loaded.Failure? {
        return Failure(loaded.error);
      }
      var found := FindEntry(loaded.value, name);
      if found.None? {
        return Failure(NotFound);
      }
      r := Table.Load(disk, db, files.dir + [found.value.path]);
    }

    method UpdateTable(name: string, description: string) returns (r: Outcome)
      modifies disk
      ensures Step(r, disk.files) == TablesOf(files).DescribeStep(old(disk.files), name, description)
    {
      r := TablesOf(files).Describe(disk, name, description);
    }

    method DeleteTable(name: string) returns (r: Outcome)
      modifies disk
      ensures Step(r, disk.files) == DeleteTableStep(files, old(disk.files), name)
    {
      r := TablesOf(files).Remove(disk, name);
      if r.Fail? {
        return;
      }
      disk.RemoveTree(files.dir + [name]);
    }
  }

  // ---------------------------------------------------------------------------
  // What the namespace operations do

  /** A freshly initialized namespace lists no tables. */
  lemma InitializedNamespaceIsEmpty(db: Db, fs: Fs, dir: Path)
    ensures TablesOf(Files(dir, false, db.defaultFormat)).Listed(InitializedNamespaceFs(db, fs, dir)) == Success([])
  {
    ListedAfterStored(TablesOf(Files(dir, false, db.defaultFormat)), fs, []);
  }

  /** A document of a store is out of reach of anything written below a sub-directory. */
  lemma DocumentOutsideSubdir(c: Files, n: string, sub: string)
    ensures forall e :: IsExt(e) ==> !(c.dir + [sub] < c.Target(n, e))
  {
  }

  /** `create_table` fails iff the list is unreadable, the name is taken or the store is read-only;
      in an empty table directory a successful create appends the entry and leaves a table that
      loads the default settings and lists no records. */
  lemma CreateTableEffect(db: Db, c: Files, fs: Fs, name: string, description: string)
    requires forall p :: p in fs ==> !(c.dir + [name] < p)
    ensures var l := TablesOf(c).Listed(fs);
      var s := CreateTableStep(db, c, fs, name, description);
      var tableDir := c.dir + [name];
      && (s.outcome == Pass <==> l.Success? && name !in Names(l.value) && !c.readOnly)
      && (l.Success? && name in Names(l.value) ==> s == Step(Fail(AlreadyExists), fs))
      && (s.outcome == Pass ==>
            && TablesOf(c).Listed(s.fs) == Success(l.value + [NewEntry(name, description)])
            && Settings(s.fs, tableDir) == Success(DEFAULT_SETTINGS)
            && Index(RecordsFiles(db, tableDir, DEFAULT_SETTINGS), s.fs) == Success([]))
  {
    var d := TablesOf(c);
    var tableDir := c.dir + [name];
    AddEffect(d, fs, name, description);
    var s := d.AddStep(fs, name, description);
    if s.outcome == Pass {
      DocumentOutsideSubdir(c, TABLES_DOC, name);
      assert forall p :: p in s.fs ==> !(tableDir < p);
      InitializedTableIsEmpty(db, s.fs, tableDir);
      InitializedFsOutside(db, s.fs, tableDir);
      var after := InitializedFs(db, s.fs, tableDir);
      assert c.Read(after, TABLES_DOC) == c.Read(s.fs, TABLES_DOC);
    }
  }

  /** As written, `get_table` fails even for the table `create_table` just made. */
  lemma CreatedTableNotReturned(db: Db, c: Files, fs: Fs, name: string, description: string)
    requires forall p :: p in fs ==> !(c.dir + [name] < p)
    ensures CreateTableStep(db, c, fs, name, description).outcome == Pass ==>
      GetTableError(c, CreateTableStep(db, c, fs, name, description).fs, name) == BadCall
  {
    CreateTableEffect(db, c, fs, name, description);
    var l := TablesOf(c).Listed(fs);
    if l.Success? && name !in Names(l.value) {
      FindAppended(l.value, NewEntry(name, description));
    }
  }

  /** As intended, the table `create_table` just made is found in `dir/name` and loads. */
  lemma CreatedTableOpens(db: Db, c: Files, fs: Fs, name: string, description: string)
    requires forall p :: p in fs ==> !(c.dir + [name] < p)
    ensures var s := CreateTableStep(db, c, fs, name, description);
      s.outcome == Pass ==>
        && TableDir(c, s.fs, name) == Success(c.dir + [name])
        && Settings(s.fs, c.dir + [name]) == Success(DEFAULT_SETTINGS)
  {
    CreateTableEffect(db, c, fs, name, description);
    var l := TablesOf(c).Listed(fs);
    if l.Success? && name !in Names(l.value) {
      FindAppended(l.value, NewEntry(name, description));
    }
  }

  /** `delete_table` fails with "not found" for an unknown name; otherwise the entry is gone
      from the list, the others keep their order, and nothing remains below `dir/name`. */
  lemma DeleteTableEffect(c: Files, fs: Fs, name: string)
    ensures var l := TablesOf(c).Listed(fs);
      var s := DeleteTableStep(c, fs, name);
      && (s.outcome == Pass <==> l.Success? && name in Names(l.value) && !c.readOnly)
      && (l.Success? && name !in Names(l.value) ==> s == Step(Fail(NotFound), fs))
      && (s.outcome == Pass ==>
            && TablesOf(c).Listed(s.fs) == Success(Without(l.value, name))
            && TableDir(c, s.fs, name) == Failure(NotFound)
            && (forall p :: p in s.fs ==> !(c.dir + [name] < p)))
  {
    var d := TablesOf(c);
    RemoveEffect(d, fs, name);
    var s := d.RemoveStep(fs, name);
    if s.outcome == Pass {
      DocumentOutsideSubdir(c, TABLES_DOC, name);
      var after := Pruned(s.fs, c.dir + [name]);
      assert c.Read(after, TABLES_DOC) == c.Read(s.fs, TABLES_DOC);
      WithoutSpec(d.Listed(fs).value, name);
    }
  }
}
