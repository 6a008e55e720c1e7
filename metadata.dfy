/**
 * The catalog (`Metadata`): a `namespaces` list and one `<ns>_tables` list per
 * namespace, kept in the fixed `takoc` directory inside the data directory.
 */
module Catalog {
  import opened Documents
  import opened FileIO
  import opened Entries
  import opened ListDocs

  const METADATA_DIR: string := "takoc"
  const NAMESPACES_DOC: string := "namespaces"
  const TABLES_SUFFIX: string := "_tables"

  /** The catalog's file store: `data_dir/takoc`, with the database's flag and format. */
  function CatalogFiles(db: Db): Files {
    Files(db.dataDir + [METADATA_DIR], db.readOnly, db.defaultFormat)
  }

  /** The `namespaces` list document of the catalog. */
  function NamespacesList(c: Files): ListDoc {
    ListDoc(c, NAMESPACES_DOC, NamespaceList)
  }

  /** The `<ns>_tables` list document of the catalog. */
  function TablesList(c: Files, ns: string): ListDoc {
    ListDoc(c, ns + TABLES_SUFFIX, TableList)
  }

  /** `delete_namespace_meta`: remove the entry, save, then delete the resolved tables file if any. */
  function DeleteNamespaceMetaStep(c: Files, fs: Fs, name: string): Step {
    var s := NamespacesList(c).RemoveStep(fs, name);
    if s.outcome.Fail? then s
    else if c.FileInfo(s.fs, name + TABLES_SUFFIX).Some? then c.Delete(s.fs, name + TABLES_SUFFIX)
    else s
  }

  class Metadata {
    const disk: Disk
    const db: Db
    const files: Files

    constructor (disk: Disk, db: Db)
      ensures this.disk == disk && this.db == db && files == CatalogFiles(db)
    {
      this.disk := disk;
      this.db := db;
      this.files := CatalogFiles(db);
    }

    method GetNamespaces() returns (r: Result<seq<Entry>>)
      ensures !files.Present(disk.files, NAMESPACES_DOC) ==> r == Success([])
      ensures r == NamespacesList(files).Listed(disk.files)
    {
      r := NamespacesList(files).Load(disk);
    }

    method GetNamespace(name: string) returns (r: Result<Option<Entry>>)
      ensures NamespacesList(files).Listed(disk.files).Failure? <==> r.Failure?
      ensures r.Failure? ==> r.error == NamespacesList(files).Listed(disk.files).error
      ensures r.Success? ==> r.value == Find(NamespacesList(files).Listed(disk.files).value, name)
      ensures r.Success? ==> (r.value.None? <==> name !in Names(NamespacesList(files).Listed(disk.files).value))
    {
      var loaded := GetNamespaces();
      if loaded.Failure? {
        return Failure(loaded.error);
      }
      var found := FindEntry(loaded.value, name);
      r := Success(found);
    }

    method AddNamespace(name: string, description: string) returns (r: Outcome)
      modifies disk
      ensures Step(r, disk.files) == NamespacesList(files).AddStep(old(disk.files), name, description)
    {
      r := NamespacesList(files).Add(disk, name, description);
    }

    method UpdateNamespace(name: string, description: string) returns (r: Outcome)
      modifies disk
      ensures Step(r, disk.files) == NamespacesList(files).DescribeStep(old(disk.files), name, description)
    {
      r := NamespacesList(files).Describe(disk, name, description);
    }

    method DeleteNamespaceMeta(name: string) returns (r: Outcome)
      modifies disk
      ensures Step(r, disk.files) == DeleteNamespaceMetaStep(files, old(disk.files), name)
    {
      r := NamespacesList(files).Remove(disk, name);
      if r.Fail? {
        return;
      }
      var tablesFile := name + TABLES_SUFFIX;
      if files.FileInfo(disk.files, tablesFile).Some? {
        r := files.DeleteFile(disk, tablesFile);
      }
    }

    /** `delete_namespace_meta` as evidently intended: delete the resolved tables file until no
        recognised variant of it is left. */
    method DeleteNamespaceMetaAllVariants(name: string) returns (r: Outcome)
      modifies disk
      ensures Step(r, disk.files) == DeleteNamespaceMetaAllVariantsStep(files, old(disk.files), name)
    {
      r := NamespacesList(files).Remove(disk, name);
      if r.Fail? {
        return;
      }
      var t := name + TABLES_SUFFIX;
      ghost var saved := disk.files;
      ghost var gone := {files.Target(t, YAML_EXT), files.Target(t, YML_EXT), files.Target(t, JSON_EXT)};
      ghost var removed: set<Path> := {};
      while files.Present(disk.files, t)
        invariant removed <= gone && disk.files == saved - removed
        decreases (if files.Target(t, YAML_EXT) in disk.files then 1 else 0)
                + (if files.Target(t, YML_EXT) in disk.files then 1 else 0)
                + (if files.Target(t, JSON_EXT) in disk.files then 1 else 0)
      {
        var loc := files.FileInfo(disk.files, t).value;
        var deleted := files.DeleteFile(disk, t);
        removed := removed + {loc.path};
      }
      assert disk.files == saved - gone;
    }

    method GetTables(namespace: string) returns (r: Result<seq<Entry>>)
      ensures !files.Present(disk.files, namespace + TABLES_SUFFIX) ==> r == Success([])
      ensures r == TablesList(files, namespace).Listed(disk.files)
    {
      r := TablesList(files, namespace).Load(disk);
    }

    method GetTable(namespace: string, name: string) returns (r: Result<Option<Entry>>)
      ensures TablesList(files, namespace).Listed(disk.files).Failure? <==> r.Failure?
      ensures r.Failure? ==> r.error == TablesList(files, namespace).Listed(disk.files).error
      ensures r.Success? ==> r.value == Find(TablesList(files, namespace).Listed(disk.files).value, name)
      ensures r.Success? ==> (r.value.None? <==> name !in Names(TablesList(files, namespace).Listed(disk.files).value))
    {
      var loaded := GetTables(namespace);
      if loaded.Failure? {
        return Failure(loaded.error);
      }
      var found := FindEntry(loaded.value, name);
      r := Success(found);
    }

    method AddTable(namespace: string, name: string, description: string) returns (r: Outcome)
      modifies disk
      ensures Step(r, disk.files) == TablesList(files, namespace).AddStep(old(disk.files), name, description)
    {
      r := TablesList(files, namespace).Add(disk, name, description);
    }

    method UpdateTable(namespace: string, name: string, description: string) returns (r: Outcome)
      modifies disk
      ensures Step(r, disk.files) == TablesList(files, namespace).DescribeStep(old(disk.files), name, description)
    {
      r := TablesList(files, namespace).Describe(disk, name, description);
    }

    method DeleteTable(namespace: string, name: string) returns (r: Outcome)
      modifies disk
      ensures Step(r, disk.files) == TablesList(files, namespace).RemoveStep(old(disk.files), name)
    {
      r := TablesList(files, namespace).Remove(disk, name);
    }
  }

  // ---------------------------------------------------------------------------
  // Document names

  /** No tables document is the namespaces document. */
  lemma NamespacesDocIsNoTablesDoc(ns: string)
    ensures NAMESPACES_DOC != ns + TABLES_SUFFIX
  {
    var t := ns + TABLES_SUFFIX;
    if |t| == |NAMESPACES_DOC| {
      assert t[|t| - 7] == '_';
    }
  }

  /** Distinct namespaces have distinct tables documents. */
  lemma {:induction false} TablesDocsDistinct(a: string, b: string)
    requires a != b
    ensures a + TABLES_SUFFIX != b + TABLES_SUFFIX
  {
    if |a| == |b| {
      var k :| 0 <= k < |a| && a[k] != b[k];
      assert (a + TABLES_SUFFIX)[k] == a[k];
      assert (b + TABLES_SUFFIX)[k] == b[k];
    } else {
      assert |a + TABLES_SUFFIX| != |b + TABLES_SUFFIX|;
    }
  }

  // ---------------------------------------------------------------------------
  // What the catalog operations touch

  /** Table operations change the tables list of their namespace only: the namespaces list
      and every other namespace's tables list read as before. */
  lemma TableStepsKeepOtherLists(c: Files, fs: Fs, ns: string, name: string, description: string, other: string)
    requires other != ns
    ensures NamespacesList(c).Listed(TablesList(c, ns).AddStep(fs, name, description).fs) == NamespacesList(c).Listed(fs)
    ensures NamespacesList(c).Listed(TablesList(c, ns).DescribeStep(fs, name, description).fs) == NamespacesList(c).Listed(fs)
    ensures NamespacesList(c).Listed(TablesList(c, ns).RemoveStep(fs, name).fs) == NamespacesList(c).Listed(fs)
    ensures TablesList(c, other).Listed(TablesList(c, ns).AddStep(fs, name, description).fs) == TablesList(c, other).Listed(fs)
    ensures TablesList(c, other).Listed(TablesList(c, ns).DescribeStep(fs, name, description).fs) == TablesList(c, other).Listed(fs)
    ensures TablesList(c, other).Listed(TablesList(c, ns).RemoveStep(fs, name).fs) == TablesList(c, other).Listed(fs)
  {
    NamespacesDocIsNoTablesDoc(ns);
    TablesDocsDistinct(other, ns);
    StepsTouchOnlyTheirDocument(TablesList(c, ns), fs, name, description, NAMESPACES_DOC);
    StepsTouchOnlyTheirDocument(TablesList(c, ns), fs, name, description, other + TABLES_SUFFIX);
  }

  /** Namespace operations leave every tables list alone, except that deleting a namespace
      may drop that namespace's own tables document. */
  lemma NamespaceStepsKeepTablesLists(c: Files, fs: Fs, name: string, description: string, ns: string)
    ensures TablesList(c, ns).Listed(NamespacesList(c).AddStep(fs, name, description).fs) == TablesList(c, ns).Listed(fs)
    ensures TablesList(c, ns).Listed(NamespacesList(c).DescribeStep(fs, name, description).fs) == TablesList(c, ns).Listed(fs)
    ensures ns != name ==>
      TablesList(c, ns).Listed(DeleteNamespaceMetaStep(c, fs, name).fs) == TablesList(c, ns).Listed(fs)
  {
    NamespacesDocIsNoTablesDoc(ns);
    StepsTouchOnlyTheirDocument(NamespacesList(c), fs, name, description, ns + TABLES_SUFFIX);
    if ns != name {
      TablesDocsDistinct(ns, name);
      var s := NamespacesList(c).RemoveStep(fs, name);
      ReadOtherAfterDelete(c, s.fs, name + TABLES_SUFFIX, ns + TABLES_SUFFIX);
    }
  }

  /** `delete_namespace_meta` fails iff the namespaces list is unreadable, lacks the name or
      is read-only; when it passes, the name is gone from the list and the rest keep their order. */
  lemma DeleteNamespaceMetaEffect(c: Files, fs: Fs, name: string)
    ensures var l := NamespacesList(c).Listed(fs);
      var s := DeleteNamespaceMetaStep(c, fs, name);
      && (s.outcome == Pass <==> l.Success? && name in Names(l.value) && !c.readOnly)
      && (l.Success? && name !in Names(l.value) ==> s == Step(Fail(NotFound), fs))
      && (s.outcome.Fail? ==> s.fs == fs)
      && (s.outcome == Pass ==> NamespacesList(c).Listed(s.fs) == Success(Without(l.value, name)))
  {
    var d := NamespacesList(c);
    RemoveEffect(d, fs, name);
    var s := d.RemoveStep(fs, name);
    if s.outcome == Pass && c.FileInfo(s.fs, name + TABLES_SUFFIX).Some? {
      NamespacesDocIsNoTablesDoc(name);
      ReadOtherAfterDelete(c, s.fs, name + TABLES_SUFFIX, NAMESPACES_DOC);
    }
  }

  /** When at most one variant of the namespace's tables document exists, `get_tables` is
      empty after `delete_namespace_meta` passes. */
  lemma DeleteNamespaceMetaClearsTables(c: Files, fs: Fs, name: string)
    requires c.SingleCopy(fs, name + TABLES_SUFFIX)
    ensures var s := DeleteNamespaceMetaStep(c, fs, name);
      s.outcome == Pass ==> TablesList(c, name).Listed(s.fs) == Success([])
  {
    var tablesDoc := name + TABLES_SUFFIX;
    var d := NamespacesList(c);
    RemoveEffect(d, fs, name);
    var s := d.RemoveStep(fs, name);
    if s.outcome == Pass {
      NamespacesDocIsNoTablesDoc(name);
      forall e | IsExt(e)
        ensures c.Target(tablesDoc, e) in s.fs <==> c.Target(tablesDoc, e) in fs
      {
        if c.Target(tablesDoc, e) == c.Target(NAMESPACES_DOC, c.DefaultExt()) {
          TargetsInjective(c, tablesDoc, NAMESPACES_DOC, e, c.DefaultExt());
        }
      }
      assert c.SingleCopy(s.fs, tablesDoc);
      if c.FileInfo(s.fs, tablesDoc).Some? {
        ReadAfterDeleteSingle(c, s.fs, tablesDoc);
      }
    }
  }

  // ---------------------------------------------------------------------------
  // A tables document written in an earlier format survives the namespace

  /** A catalog switched from JSON to YAML keeps an older `<name>_tables.json` beside the
      `<name>_tables.yaml` written since. Deleting the namespace removes only the resolved
      `.yaml` file, and `get_tables(name)` then returns the stale JSON list. */
  lemma StaleTablesSurviveDeleteNamespaceMeta(c: Files, fs: Fs, name: string, stale: seq<Entry>)
    requires !c.readOnly && c.format == Yaml
    requires NamespacesList(c).Listed(fs).Success? && name in Names(NamespacesList(c).Listed(fs).value)
    requires var t := name + TABLES_SUFFIX;
      && c.Target(t, YAML_EXT) in fs && c.Target(t, YML_EXT) !in fs
      && c.Target(t, JSON_EXT) in fs && fs[c.Target(t, JSON_EXT)] == TablesDoc(stale)
    ensures var s := DeleteNamespaceMetaStep(c, fs, name);
      s.outcome == Pass && TablesList(c, name).Listed(s.fs) == Success(stale)
  {
    var t := name + TABLES_SUFFIX;
    var d := NamespacesList(c);
    RemoveEffect(d, fs, name);
    var s := d.RemoveStep(fs, name);
    NamespacesDocIsNoTablesDoc(name);
    forall e | IsExt(e)
      ensures c.Target(t, e) in s.fs <==> c.Target(t, e) in fs
      ensures c.Target(t, e) in fs ==> s.fs[c.Target(t, e)] == fs[c.Target(t, e)]
    {
      if c.Target(t, e) == c.Target(NAMESPACES_DOC, c.DefaultExt()) {
        TargetsInjective(c, t, NAMESPACES_DOC, e, c.DefaultExt());
      }
    }
    assert c.FileInfo(s.fs, t) == Some(Located(c.Target(t, YAML_EXT), Yaml));
    var after := s.fs - {c.Target(t, YAML_EXT)};
    assert c.Target(t, JSON_EXT) != c.Target(t, YAML_EXT) by {
      if c.Target(t, JSON_EXT) == c.Target(t, YAML_EXT) {
        TargetsInjective(c, t, t, JSON_EXT, YAML_EXT);
      }
    }
    assert c.Read(after, t) == Some(TablesDoc(stale));
  }

  /** The smallest such catalog: `x_tables.yaml` holds `[t, u]` and `x_tables.json` the older `[t]`. */
  lemma StaleTablesExample()
    ensures var c := Files(["data", METADATA_DIR], false, Yaml);
      var t, u := NewEntry("t", ""), NewEntry("u", "");
      var fs := map[c.Target(NAMESPACES_DOC, YAML_EXT) := NamespacesDoc([NewEntry("x", "")]),
                    c.Target("x_tables", YAML_EXT) := TablesDoc([t, u]),
                    c.Target("x_tables", JSON_EXT) := TablesDoc([t])];
      var s := DeleteNamespaceMetaStep(c, fs, "x");
      s.outcome == Pass && TablesList(c, "x").Listed(s.fs) == Success([t])
  {
    var c := Files(["data", METADATA_DIR], false, Yaml);
    var t, u := NewEntry("t", ""), NewEntry("u", "");
    var fs := map[c.Target(NAMESPACES_DOC, YAML_EXT) := NamespacesDoc([NewEntry("x", "")]),
                  c.Target("x_tables", YAML_EXT) := TablesDoc([t, u]),
                  c.Target("x_tables", JSON_EXT) := TablesDoc([t])];
    assert "x" + TABLES_SUFFIX == "x_tables";
    assert NAMESPACES_DOC + YAML_EXT == "namespaces.yaml";
    assert "x_tables" + YAML_EXT == "x_tables.yaml";
    assert "x_tables" + YML_EXT == "x_tables.yml";
    assert "x_tables" + JSON_EXT == "x_tables.json";
    assert c.Target(NAMESPACES_DOC, YAML_EXT) == ["data", "takoc", "namespaces.yaml"];
    assert c.Target("x_tables", YAML_EXT) == ["data", "takoc", "x_tables.yaml"];
    assert c.Target("x_tables", YML_EXT) == ["data", "takoc", "x_tables.yml"];
    assert c.Target("x_tables", JSON_EXT) == ["data", "takoc", "x_tables.json"];
    assert c.FileInfo(fs, NAMESPACES_DOC) == Some(Located(c.Target(NAMESPACES_DOC, YAML_EXT), Yaml));
    assert NamespacesList(c).Listed(fs) == Success([NewEntry("x", "")]);
    assert Names([NewEntry("x", "")]) == ["x"];
    StaleTablesSurviveDeleteNamespaceMeta(c, fs, "x", [t]);
  }

  /** `delete_namespace_meta` as evidently intended: every recognised variant of the
      namespace's tables document is removed, not only the resolved one. */
  function DeleteNamespaceMetaAllVariantsStep(c: Files, fs: Fs, name: string): Step {
    var s := NamespacesList(c).RemoveStep(fs, name);
    var t := name + TABLES_SUFFIX;
    if s.outcome.Fail? then s
    else Step(Pass, s.fs - {c.Target(t, YAML_EXT), c.Target(t, YML_EXT), c.Target(t, JSON_EXT)})
  }

  /** With every variant removed, `get_tables` is empty after deleting a namespace, whatever
      variants were on disk, and the namespaces list lost exactly that name. */
  lemma DeleteAllVariantsClearsTables(c: Files, fs: Fs, name: string)
    ensures var l := NamespacesList(c).Listed(fs);
      var s := DeleteNamespaceMetaAllVariantsStep(c, fs, name);
      && (s.outcome == Pass <==> l.Success? && name in Names(l.value) && !c.readOnly)
      && (s.outcome == Pass ==>
            && NamespacesList(c).Listed(s.fs) == Success(Without(l.value, name))
            && TablesList(c, name).Listed(s.fs) == Success([]))
  {
    var t := name + TABLES_SUFFIX;
    var d := NamespacesList(c);
    RemoveEffect(d, fs, name);
    var s := d.RemoveStep(fs, name);
    if s.outcome == Pass {
      var gone := {c.Target(t, YAML_EXT), c.Target(t, YML_EXT), c.Target(t, JSON_EXT)};
      NamespacesDocIsNoTablesDoc(name);
      forall e | IsExt(e)
        ensures c.Target(NAMESPACES_DOC, e) !in gone
      {
        if c.Target(NAMESPACES_DOC, e) in gone {
          var e' :| IsExt(e') && c.Target(NAMESPACES_DOC, e) == c.Target(t, e');
          TargetsInjective(c, NAMESPACES_DOC, t, e, e');
        }
      }
      assert c.Read(s.fs - gone, NAMESPACES_DOC) == c.Read(s.fs, NAMESPACES_DOC);
    }
  }
}
