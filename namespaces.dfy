/**
 * The namespace registry (`Namespaces`): a `namespaces` list document directly
 * in the data directory and one sub-directory per namespace.
 */
module NamespaceIndex {
  import opened Documents
  import opened FileIO
  import opened Entries
  import opened ListDocs
  import opened NamespaceDir
  import Catalog

  const REGISTRY_DOC: string := "namespaces"

  /** The registry's file store: `data_dir`, with the caller's flag and the database's format. */
  function RegistryFiles(db: Db, readOnly: bool): Files {
    Files(db.dataDir, readOnly, db.defaultFormat)
  }

  /** The `namespaces` list document of a registry store. */
  function NamespacesOf(c: Files): ListDoc {
    ListDoc(c, REGISTRY_DOC, NamespaceList)
  }

  /** `create_namespace`: add the entry, save, then initialize `dir/name` as a namespace. */
  function CreateNamespaceStep(db: Db, c: Files, fs: Fs, name: string, description: string): Step {
    var s := NamespacesOf(c).AddStep(fs, name, description);
    if s.outcome.Fail? then s else Step(Pass, InitializedNamespaceFs(db, s.fs, c.dir + [name]))
  }

  /** The directory a registered namespace lives in: `dir / ns.path`. */
  function NamespaceDirOf(c: Files, fs: Fs, name: string): Result<Path> {
    match NamespacesOf(c).Listed(fs)
    case Failure(e) => Failure(e)
    case Success(l) =>
      match Find(l, name)
      case None => Failure(NotFound)
      case Some(e) => Success(c.dir + [e.path])
  }

  /** `delete_namespace`: remove the entry, save, then remove the `dir/name` subtree. */
  function DeleteNamespaceStep(c: Files, fs: Fs, name: string): Step {
    var s := NamespacesOf(c).RemoveStep(fs, name);
    if s.outcome.Fail? then s else Step(Pass, Pruned(s.fs, c.dir + [name]))
  }

  class Namespaces {
    const disk: Disk
    const db: Db
    const files: Files

    constructor (disk: Disk, db: Db, readOnly: bool)
      ensures this.disk == disk && this.db == db && files == RegistryFiles(db, readOnly)
    {
      this.disk := disk;
      this.db := db;
      this.files := RegistryFiles(db, readOnly);
    }

    method CreateNamespace(name: string, description: string) returns (r: Result<Namespace>)
      modifies disk
      ensures Step(OutcomeOf(r), disk.files) == CreateNamespaceStep(db, files, old(disk.files), name, description)
      ensures r.Success? ==>
        r.value.disk == disk && r.value.db == db && r.value.files == Files(files.dir + [name], false, db.defaultFormat)
    {
      var added := NamespacesOf(files).Add(disk, name, description);
      if added.Fail? {
        return Failure(added.error);
      }
      var ns := Namespace.Initialize(disk, db, files.dir + [name]);
      r := Success(ns);
    }

    /** `list_namespaces`: the stored entries, in order. */
    method ListNamespaces() returns (r: Result<seq<Entry>>)
      ensures !files.Present(disk.files, REGISTRY_DOC) ==> r == Success([])
      ensures r == NamespacesOf(files).Listed(disk.files)
    {
      r := NamespacesOf(files).Load(disk);
    }

    /** `get_namespace`: a writable namespace over `dir / ns.path`, whatever the registry's flag. */
    method GetNamespace(name: string) returns (r: Result<Namespace>)
      ensures r.Failure? <==> NamespaceDirOf(files, disk.files, name).Failure?
      ensures r.Failure? ==> r.error == NamespaceDirOf(files, disk.files, name).error
      ensures r.Success? ==>
        && r.value.disk == disk && r.value.db == db
        && r.value.files == Files(NamespaceDirOf(files, disk.files, name).value, false, db.defaultFormat)
    {
      var loaded := NamespacesOf(files).Load(disk);
      if loaded.Failure? {
        return Failure(loaded.error);
      }
      var found := FindEntry(loaded.value, name);
      if found.None? {
        return Failure(NotFound);
      }
      var ns := new Namespace(disk, db, files.dir + [found.value.path], false);
      r := Success(ns);
    }

    method UpdateNamespace(name: string, description: string) returns (r: Outcome)
      modifies disk
      ensures Step(r, disk.files) == NamespacesOf(files).DescribeStep(old(disk.files), name, description)
    {
      r := NamespacesOf(files).Describe(disk, name, description);
    }

    method DeleteNamespace(name: string) returns (r: Outcome)
      modifies disk
      ensures Step(r, disk.files) == DeleteNamespaceStep(files, old(disk.files), name)
    {
      r := NamespacesOf(files).Remove(disk, name);
      if r.Fail? {
        return;
      }
      disk.RemoveTree(files.dir + [name]);
    }
  }

  // ---------------------------------------------------------------------------
  // What the registry operations do

  /** `create_namespace` fails iff the list is unreadable, the name is taken or the registry is
      read-only; a failed create changes nothing; a successful one appends the entry, and the new
      namespace `dir/name` lists no tables and is found under its name. */
  lemma {:induction false} CreateNamespaceEffect(db: Db, c: Files, fs: Fs, name: string, description: string)
    ensures var l := NamespacesOf(c).Listed(fs);
      var s := CreateNamespaceStep(db, c, fs, name, description);
      && (s.outcome == Pass <==> l.Success? && name !in Names(l.value) && !c.readOnly)
      && (l.Success? && name in Names(l.value) ==> s == Step(Fail(AlreadyExists), fs))
      && (s.outcome.Fail? ==> s.fs == fs)
      && (s.outcome == Pass ==>
            && NamespacesOf(c).Listed(s.fs) == Success(l.value + [NewEntry(name, description)])
            && NamespaceDirOf(c, s.fs, name) == Success(c.dir + [name])
            && TablesOf(Files(c.dir + [name], false, db.defaultFormat)).Listed(s.fs) == Success([]))
  {
    var d := NamespacesOf(c);
    AddEffect(d, fs, name, description);
    var s := d.AddStep(fs, name, description);
    if s.outcome == Pass {
      var after := InitializedNamespaceFs(db, s.fs, c.dir + [name]);
      ReadUnaffectedBelow(c, s.fs, after, name, REGISTRY_DOC);
      InitializedNamespaceIsEmpty(db, s.fs, c.dir + [name]);
      FindAppended(d.Listed(fs).value, NewEntry(name, description));
    }
  }

  /** `delete_namespace` fails with "not found" for an unknown name; otherwise the entry is gone
      from the list, the others keep their order, the name no longer resolves and nothing remains
      below `dir/name`. */
  lemma {:induction false} DeleteNamespaceEffect(c: Files, fs: Fs, name: string)
    ensures var l := NamespacesOf(c).Listed(fs);
      var s := DeleteNamespaceStep(c, fs, name);
      && (s.outcome == Pass <==> l.Success? && name in Names(l.value) && !c.readOnly)
      && (l.Success? && name !in Names(l.value) ==> s == Step(Fail(NotFound), fs))
      && (s.outcome.Fail? ==> s.fs == fs)
      && (s.outcome == Pass ==>
            && NamespacesOf(c).Listed(s.fs) == Success(Without(l.value, name))
            && NamespaceDirOf(c, s.fs, name) == Failure(NotFound)
            && (forall p :: p in s.fs ==> !(c.dir + [name] < p)))
  {
    var d := NamespacesOf(c);
    RemoveEffect(d, fs, name);
    var s := d.RemoveStep(fs, name);
    if s.outcome == Pass {
      ReadUnaffectedBelow(c, s.fs, Pruned(s.fs, c.dir + [name]), name, REGISTRY_DOC);
      WithoutSpec(d.Listed(fs).value, name);
    }
  }

  /** Updating a namespace's description leaves every name resolving to the same directory. */
  lemma UpdateNamespaceKeepsDirs(c: Files, fs: Fs, name: string, description: string, other: string)
    ensures var s := NamespacesOf(c).DescribeStep(fs, name, description);
      s.outcome == Pass ==> NamespaceDirOf(c, s.fs, other) == NamespaceDirOf(c, fs, other)
  {
    var d := NamespacesOf(c);
    DescribeEffect(d, fs, name, description);
    if d.DescribeStep(fs, name, description).outcome == Pass {
      DescribedChangesOnlyDescription(d.Listed(fs).value, name, description);
    }
  }

  // ---------------------------------------------------------------------------
  // The registry and the catalog are separate stores

  /** Deleting a namespace through the registry does not touch the catalog kept in `data_dir/takoc`
      (unless the namespace itself is called `takoc`): every catalog document reads as before, so
      the catalog still lists the deleted namespace. */
  lemma RegistryDeleteKeepsCatalog(db: Db, readOnly: bool, fs: Fs, name: string, doc: string)
    requires name != Catalog.METADATA_DIR
    ensures var s := DeleteNamespaceStep(RegistryFiles(db, readOnly), fs, name);
      Catalog.CatalogFiles(db).Read(s.fs, doc) == Catalog.CatalogFiles(db).Read(fs, doc)
  {
    var c := RegistryFiles(db, readOnly);
    var cat := Catalog.CatalogFiles(db);
    var s := DeleteNamespaceStep(c, fs, name);
    forall e | IsExt(e)
      ensures cat.Target(doc, e) in s.fs <==> cat.Target(doc, e) in fs
      ensures cat.Target(doc, e) in fs ==> s.fs[cat.Target(doc, e)] == fs[cat.Target(doc, e)]
    {
      var t := cat.Target(doc, e);
      assert t[|db.dataDir|] == Catalog.METADATA_DIR;
      assert !(c.dir + [name] < t);
      assert forall x :: IsExt(x) ==> t != c.Target(REGISTRY_DOC, x);
    }
    ReadFollowsTargets(cat, fs, s.fs, doc);
  }

  /** A registry entry named `takoc` owns the catalog's directory: deleting it leaves no catalog
      document behind. */
  lemma RegistryDeleteOfCatalogNameDropsCatalog(db: Db, readOnly: bool, fs: Fs, doc: string)
    ensures var s := DeleteNamespaceStep(RegistryFiles(db, readOnly), fs, Catalog.METADATA_DIR);
      s.outcome == Pass ==> Catalog.CatalogFiles(db).Read(s.fs, doc) == None
  {
    var cat := Catalog.CatalogFiles(db);
    var s := DeleteNamespaceStep(RegistryFiles(db, readOnly), fs, Catalog.METADATA_DIR);
    if s.outcome == Pass {
      forall e | IsExt(e) ensures cat.Target(doc, e) !in s.fs {
        assert db.dataDir + [Catalog.METADATA_DIR] < cat.Target(doc, e);
      }
    }
  }
}
