/**
 * The virtual `takoc` namespace: the catalog rendered as two tables whose
 * records are the catalog's entries. `namespace` has one record per namespace,
 * keyed by its name; `table` has one record per table, keyed by the composite
 * key `ns.table`. Record operations forward to the catalog; the structure of
 * the namespace itself cannot be changed.
 */
module MetadataView {
  import opened Documents
  import opened FileIO
  import opened Entries
  import opened ListDocs
  import opened Catalog

  const VIRTUAL_NAMESPACE: string := "takoc"
  const NAMESPACE_TABLE: string := "namespace"
  const TABLE_TABLE: string := "table"

  // ---------------------------------------------------------------------------
  // Keys and payloads

  /** `record_id.split(".", 1)` after the `"." not in record_id` check. */
  function SplitKey(id: string): (r: Result<(string, string)>)
    ensures r.Failure? <==> '.' !in id
    ensures r.Failure? ==> r.error == InvalidKey
    ensures r.Success? ==> id == r.value.0 + "." + r.value.1 && '.' !in r.value.0
  {
    match IndexOf(id, '.')
    case None => Failure(InvalidKey)
    case Some(i) =>
      assert id == id[..i] + "." + id[i + 1..];
      Success((id[..i], id[i + 1..]))
  }

  /** The composite key of a table record. */
  function JoinKey(ns: string, table: string): string {
    ns + "." + table
  }

  /** A key built from a namespace without a dot splits back into its two parts. */
  lemma SplitJoin(ns: string, table: string)
    requires '.' !in ns
    ensures SplitKey(JoinKey(ns, table)) == Success((ns, table))
  {
    var key := JoinKey(ns, table);
    assert key[|ns|] == '.';
    assert key[..|ns|] == ns;
    assert key[|ns| + 1..] == table;
  }

  /** A namespace whose name holds a dot lists keys that split elsewhere. */
  lemma DottedNamespaceKeySplitsElsewhere(ns: string, table: string)
    requires '.' in ns
    ensures SplitKey(JoinKey(ns, table)).Success?
    ensures SplitKey(JoinKey(ns, table)).value.0 != ns
  {
    var key := JoinKey(ns, table);
    var k :| 0 <= k < |ns| && ns[k] == '.';
    assert key[k] == '.';
  }

  /** `NamespaceCreateRequest(**data)` / `TableCreateRequest(**data)`: a name and a description. */
  function ParseCreate(data: Value): (r: Result<(string, string)>)
    ensures r.Success? <==> data.Info? && data.name.Some?
    ensures r.Success? ==> r.value == (data.name.value, data.description)
    ensures r.Failure? ==> r.error == Malformed
  {
    match data
    case Info(Some(n), d, _) => Success((n, d))
    case _ => Failure(Malformed)
  }

  /** `NamespaceUpdateRequest(**data)` / `TableUpdateRequest(**data)`: a description. */
  function ParseUpdate(data: Value): (r: Result<string>)
    ensures r.Success? <==> data.Info?
    ensures r.Success? ==> r.value == data.description
    ensures r.Failure? ==> r.error == Malformed
  {
    match data
    case Info(_, d, _) => Success(d)
    case _ => Failure(Malformed)
  }

  /** `NamespaceData(name, description).model_dump()` */
  function NamespaceData(e: Entry): Value {
    Info(Some(e.name), e.description, None)
  }

  /** `TableData(name, description, namespace).model_dump()` */
  function TableData(e: Entry, ns: string): Value {
    Info(Some(e.name), e.description, Some(ns))
  }

  // ---------------------------------------------------------------------------
  // The `namespace` table, as functions of the filesystem

  /** `NamespacesTable.get_record` */
  function NamespaceRecord(c: Files, fs: Fs, id: string): Result<Value> {
    match NamespacesList(c).Listed(fs)
    case Failure(e) => Failure(e)
    case Success(l) =>
      match Find(l, id)
      case None => Failure(NotFound)
      case Some(e) => Success(NamespaceData(e))
  }

  /** `NamespacesTable.create_record`: parse, insist the payload names the record, add. */
  function NamespaceCreateRecordStep(c: Files, fs: Fs, id: string, data: Value): Step {
    match ParseCreate(data)
    case Failure(e) => Step(Fail(e), fs)
    case Success((name, description)) =>
      if name != id then Step(Fail(NameMismatch), fs)
      else NamespacesList(c).AddStep(fs, name, description)
  }

  /** `NamespacesTable.update_record`: parse, then update the description. */
  function NamespaceUpdateRecordStep(c: Files, fs: Fs, id: string, data: Value): Step {
    match ParseUpdate(data)
    case Failure(e) => Step(Fail(e), fs)
    case Success(description) => NamespacesList(c).DescribeStep(fs, id, description)
  }

  // ---------------------------------------------------------------------------
  // The `table` table, as functions of the filesystem

  /** The keys of one namespace's tables, in stored order. */
  function Joined(ns: string, ts: seq<Entry>): (r: seq<string>)
    ensures |r| == |ts|
    ensures forall k :: 0 <= k < |ts| ==> r[k] == JoinKey(ns, ts[k].name)
  {
    seq(|ts|, k requires 0 <= k < |ts| => JoinKey(ns, ts[k].name))
  }

  /** The keys of every table of the given namespaces: namespace order, then table order. */
  function KeysOf(c: Files, fs: Fs, nss: seq<Entry>): Result<seq<string>>
    decreases |nss|
  {
    if nss == [] then Success([])
    else
      var last := nss[|nss| - 1];
      match KeysOf(c, fs, nss[..|nss| - 1])
      case Failure(e) => Failure(e)
      case Success(keys) =>
        match TablesList(c, last.name).Listed(fs)
        case Failure(e) => Failure(e)
        case Success(ts) => Success(keys + Joined(last.name, ts))
  }

  /** `TablesTable.list_records` */
  function TableKeys(c: Files, fs: Fs): Result<seq<string>> {
    match NamespacesList(c).Listed(fs)
    case Failure(e) => Failure(e)
    case Success(nss) => KeysOf(c, fs, nss)
  }

  /** `TablesTable.get_record` */
  function TableRecord(c: Files, fs: Fs, id: string): Result<Value> {
    match SplitKey(id)
    case Failure(e) => Failure(e)
    case Success((ns, table)) =>
      match TablesList(c, ns).Listed(fs)
      case Failure(e) => Failure(e)
      case Success(ts) =>
        match Find(ts, table)
        case None => Failure(NotFound)
        case Some(e) => Success(TableData(e, ns))
  }

  /** `TablesTable.create_record`: split, parse, insist the payload names the table, add. */
  function TableCreateRecordStep(c: Files, fs: Fs, id: string, data: Value): Step {
    match SplitKey(id)
    case Failure(e) => Step(Fail(e), fs)
    case Success((ns, table)) =>
      match ParseCreate(data)
      case Failure(e) => Step(Fail(e), fs)
      case Success((name, description)) =>
        if name != table then Step(Fail(NameMismatch), fs)
        else TablesList(c, ns).AddStep(fs, name, description)
  }

  /** `TablesTable.update_record`: split, parse, update the description. */
  function TableUpdateRecordStep(c: Files, fs: Fs, id: string, data: Value): Step {
    match SplitKey(id)
    case Failure(e) => Step(Fail(e), fs)
    case Success((ns, table)) =>
      match ParseUpdate(data)
      case Failure(e) => Step(Fail(e), fs)
      case Success(description) => TablesList(c, ns).DescribeStep(fs, table, description)
  }

  /** `TablesTable.delete_record`: split, then delete the table entry. */
  function TableDeleteRecordStep(c: Files, fs: Fs, id: string): Step {
    match SplitKey(id)
    case Failure(e) => Step(Fail(e), fs)
    case Success((ns, table)) => TablesList(c, ns).RemoveStep(fs, table)
  }

  /** Once a prefix of the namespaces fails to list, the whole listing fails the same way. */
  lemma {:induction false} KeysOfFailureSticks(c: Files, fs: Fs, nss: seq<Entry>, i: nat)
    requires i <= |nss| && KeysOf(c, fs, nss[..i]).Failure?
    ensures KeysOf(c, fs, nss) == KeysOf(c, fs, nss[..i])
    decreases |nss| - i
  {
    if i < |nss| {
      assert nss[..i + 1][..i] == nss[..i];
      KeysOfFailureSticks(c, fs, nss, i + 1);
    } else {
      assert nss[..i] == nss;
    }
  }

  // ---------------------------------------------------------------------------
  // The objects

  class NamespacesTable {
    const metadata: Metadata
    const namespace: string := VIRTUAL_NAMESPACE
    const name: string := NAMESPACE_TABLE

    constructor (metadata: Metadata)
      ensures this.metadata == metadata
    {
      this.metadata := metadata;
    }

    method ListRecords() returns (r: Result<seq<string>>)
      ensures r.Failure? <==> NamespacesList(metadata.files).Listed(metadata.disk.files).Failure?
      ensures r.Success? ==> r.value == Names(NamespacesList(metadata.files).Listed(metadata.disk.files).value)
    {
      var loaded := metadata.GetNamespaces();
      if loaded.Failure? {
        return Failure(loaded.error);
      }
      r := Success(Names(loaded.value));
    }

    method GetRecord(id: string) returns (r: Result<Value>)
      ensures r == NamespaceRecord(metadata.files, metadata.disk.files, id)
    {
      var found := metadata.GetNamespace(id);
      if found.Failure? {
        return Failure(found.error);
      }
      if found.value.None? {
        return Failure(NotFound);
      }
      r := Success(NamespaceData(found.value.value));
    }

    method CreateRecord(id: string, data: Value) returns (r: Outcome)
      modifies metadata.disk
      ensures Step(r, metadata.disk.files) == NamespaceCreateRecordStep(metadata.files, old(metadata.disk.files), id, data)
    {
      var request := ParseCreate(data);
      if request.Failure? {
        return Fail(request.error);
      }
      var (n, description) := request.value;
      if n != id {
        return Fail(NameMismatch);
      }
      r := metadata.AddNamespace(n, description);
    }

    method UpdateRecord(id: string, data: Value) returns (r: Outcome)
      modifies metadata.disk
      ensures Step(r, metadata.disk.files) == NamespaceUpdateRecordStep(metadata.files, old(metadata.disk.files), id, data)
    {
      var request := ParseUpdate(data);
      if request.Failure? {
        return Fail(request.error);
      }
      r := metadata.UpdateNamespace(id, request.value);
    }

    /** Forwards to the catalog's `delete_namespace_meta`. */
    method DeleteRecord(id: string) returns (r: Outcome)
      modifies metadata.disk
      ensures Step(r, metadata.disk.files) == DeleteNamespaceMetaStep(metadata.files, old(metadata.disk.files), id)
    {
      r := metadata.DeleteNamespaceMeta(id);
    }

    /** `delete_record` as evidently intended: forwards to the delete that removes every
        variant of the namespace's tables document. */
    method DeleteRecordAllVariants(id: string) returns (r: Outcome)
      modifies metadata.disk
      ensures Step(r, metadata.disk.files) == DeleteNamespaceMetaAllVariantsStep(metadata.files, old(metadata.disk.files), id)
    {
      r := metadata.DeleteNamespaceMetaAllVariants(id);
    }
  }

  class TablesTable {
    const metadata: Metadata
    const namespace: string := VIRTUAL_NAMESPACE
    const name: string := TABLE_TABLE

    constructor (metadata: Metadata)
      ensures this.metadata == metadata
    {
      this.metadata := metadata;
    }

    method ListRecords() returns (r: Result<seq<string>>)
      ensures r == TableKeys(metadata.files, metadata.disk.files)
    {
      var loaded := metadata.GetNamespaces();
      if loaded.Failure? {
        return Failure(loaded.error);
      }
      var nss := loaded.value;
      var all: seq<string> := [];
      var i := 0;
      while i < |nss|
        invariant 0 <= i <= |nss|
        invariant KeysOf(metadata.files, metadata.disk.files, nss[..i]) == Success(all)
      {
        assert nss[..i + 1][..i] == nss[..i];
        var tables := metadata.GetTables(nss[i].name);
        if tables.Failure? {
          KeysOfFailureSticks(metadata.files, metadata.disk.files, nss, i + 1);
          return Failure(tables.error);
        }
        var ts := tables.value;
        ghost var before := all;
        var j := 0;
        while j < |ts|
          invariant 0 <= j <= |ts|
          invariant all == before + Joined(nss[i].name, ts[..j])
        {
          assert Joined(nss[i].name, ts[..j + 1]) == Joined(nss[i].name, ts[..j]) + [JoinKey(nss[i].name, ts[j].name)];
          all := all + [JoinKey(nss[i].name, ts[j].name)];
          j := j + 1;
        }
        assert ts[..j] == ts;
        i := i + 1;
      }
      assert nss[..i] == nss;
      r := Success(all);
    }

    method GetRecord(id: string) returns (r: Result<Value>)
      ensures r == TableRecord(metadata.files, metadata.disk.files, id)
    {
      var key := SplitKey(id);
      if key.Failure? {
        return Failure(key.error);
      }
      var (ns, table) := key.value;
      var found := metadata.GetTable(ns, table);
      if found.Failure? {
        return Failure(found.error);
      }
      if found.value.None? {
        return Failure(NotFound);
      }
      r := Success(TableData(found.value.value, ns));
    }

    method CreateRecord(id: string, data: Value) returns (r: Outcome)
      modifies metadata.disk
      ensures Step(r, metadata.disk.files) == TableCreateRecordStep(metadata.files, old(metadata.disk.files), id, data)
    {
      var key := SplitKey(id);
      if key.Failure? {
        return Fail(key.error);
      }
      var (ns, table) := key.value;
      var request := ParseCreate(data);
      if request.Failure? {
        return Fail(request.error);
      }
      var (n, description) := request.value;
      if n != table {
        return Fail(NameMismatch);
      }
      r := metadata.AddTable(ns, n, description);
    }

    method UpdateRecord(id: string, data: Value) returns (r: Outcome)
      modifies metadata.disk
      ensures Step(r, metadata.disk.files) == TableUpdateRecordStep(metadata.files, old(metadata.disk.files), id, data)
    {
      var key := SplitKey(id);
      if key.Failure? {
        return Fail(key.error);
      }
      var (ns, table) := key.value;
      var request := ParseUpdate(data);
      if request.Failure? {
        return Fail(request.error);
      }
      r := metadata.UpdateTable(ns, table, request.value);
    }

    method DeleteRecord(id: string) returns (r: Outcome)
      modifies metadata.disk
      ensures Step(r, metadata.disk.files) == TableDeleteRecordStep(metadata.files, old(metadata.disk.files), id)
    {
      var key := SplitKey(id);
      if key.Failure? {
        return Fail(key.error);
      }
      var (ns, table) := key.value;
      r := metadata.DeleteTable(ns, table);
    }
  }

  /** One of the two virtual tables. */
  datatype VirtualTable = NamespacesView(namespaces: NamespacesTable) | TablesView(tables: TablesTable)

  class MetadataNamespace {
    const metadata: Metadata
    const name: string := VIRTUAL_NAMESPACE

    constructor (metadata: Metadata)
      ensures this.metadata == metadata
    {
      this.metadata := metadata;
    }

    /** `list_tables`: exactly the two virtual tables, `namespace` first. */
    function ListTables(): (r: seq<Value>)
      ensures |r| == 2
      ensures r[0].Info? && r[0].name == Some(NAMESPACE_TABLE) && r[1].Info? && r[1].name == Some(TABLE_TABLE)
      ensures forall k :: 0 <= k < |r| ==> r[k].Info? && r[k].namespace == Some(name)
    {
      [Info(Some(NAMESPACE_TABLE), "Stores all namespace records", Some(name)),
       Info(Some(TABLE_TABLE), "Stores all table records", Some(name))]
    }

    /** `get_table`: the listed table of that name, if it is one of the two. */
    function GetTable(table: string): (r: Option<Value>)
      ensures r.Some? <==> table == NAMESPACE_TABLE || table == TABLE_TABLE
      ensures r.Some? ==> r.value in ListTables() && r.value.name == Some(table)
    {
      if table == NAMESPACE_TABLE then Some(ListTables()[0])
      else if table == TABLE_TABLE then Some(ListTables()[1])
      else None
    }

    /** `create_table`, `update_table`, `delete_table`: the structure is not editable. */
    function CreateTable(create: Value): (r: Outcome)
      ensures r == Fail(Forbidden)
    {
      Fail(Forbidden)
    }

    function UpdateTable(table: string, update: Value): (r: Outcome)
      ensures r == Fail(Forbidden)
    {
      Fail(Forbidden)
    }

    function DeleteTable(table: string): (r: Outcome)
      ensures r == Fail(Forbidden)
    {
      Fail(Forbidden)
    }

    /** `load_table`: a view over the same catalog for the two known tables. */
    method LoadTable(table: string) returns (r: Result<VirtualTable>)
      ensures r.Success? <==> GetTable(table).Some?
      ensures r.Failure? ==> r.error == NotFound
      ensures r.Success? && table == NAMESPACE_TABLE ==> r.value.NamespacesView? && r.value.namespaces.metadata == metadata
      ensures r.Success? && table == TABLE_TABLE ==> r.value.TablesView? && r.value.tables.metadata == metadata
    {
      if table == NAMESPACE_TABLE {
        var t := new NamespacesTable(metadata);
        return Success(NamespacesView(t));
      } else if table == TABLE_TABLE {
        var t := new TablesTable(metadata);
        return Success(TablesView(t));
      }
      r := Failure(NotFound);
    }
  }

  /** `Metadata.get_metadata_namespace` */
  method GetMetadataNamespace(metadata: Metadata) returns (r: MetadataNamespace)
    ensures r.metadata == metadata && r.name == VIRTUAL_NAMESPACE
  {
    r := new MetadataNamespace(metadata);
  }

  // ---------------------------------------------------------------------------
  // What the views promise

  /** Every table of every listed namespace appears in `list_records` under its key. */
  lemma {:induction false} ListedKeysAreComplete(c: Files, fs: Fs, nss: seq<Entry>, i: nat, t: Entry)
    requires KeysOf(c, fs, nss).Success? && i < |nss|
    requires TablesList(c, nss[i].name).Listed(fs).Success? && t in TablesList(c, nss[i].name).Listed(fs).value
    ensures JoinKey(nss[i].name, t.name) in KeysOf(c, fs, nss).value
  {
    var n := |nss| - 1;
    var front := nss[..n];
    var ts := TablesList(c, nss[n].name).Listed(fs).value;
    if i < n {
      assert front[i] == nss[i];
      ListedKeysAreComplete(c, fs, front, i, t);
    } else {
      var k :| 0 <= k < |ts| && ts[k] == t;
      assert Joined(nss[n].name, ts)[k] == JoinKey(nss[n].name, t.name);
    }
  }

  /** Every listed key is the key of some table of some listed namespace. */
  lemma {:induction false} ListedKeysAreSound(c: Files, fs: Fs, nss: seq<Entry>, key: string)
    requires KeysOf(c, fs, nss).Success? && key in KeysOf(c, fs, nss).value
    ensures exists i, t ::
      && 0 <= i < |nss| && TablesList(c, nss[i].name).Listed(fs).Success?
      && t in TablesList(c, nss[i].name).Listed(fs).value && key == JoinKey(nss[i].name, t.name)
    decreases |nss|
  {
    var n := |nss| - 1;
    var front := nss[..n];
    var ts := TablesList(c, nss[n].name).Listed(fs).value;
    if key in KeysOf(c, fs, front).value {
      ListedKeysAreSound(c, fs, front, key);
      var i, t :|
        && 0 <= i < |front| && TablesList(c, front[i].name).Listed(fs).Success?
        && t in TablesList(c, front[i].name).Listed(fs).value && key == JoinKey(front[i].name, t.name);
      assert front[i] == nss[i];
    } else {
      var k :| 0 <= k < |ts| && Joined(nss[n].name, ts)[k] == key;
      assert ts[k] in ts;
    }
  }

  /** A listed key of a namespace without a dot resolves, through `get_record`, to its table. */
  lemma ListedKeysResolve(c: Files, fs: Fs, ns: string, t: Entry)
    requires '.' !in ns
    requires TablesList(c, ns).Listed(fs).Success? && t.name in Names(TablesList(c, ns).Listed(fs).value)
    ensures TableRecord(c, fs, JoinKey(ns, t.name)) == Success(TableData(Find(TablesList(c, ns).Listed(fs).value, t.name).value, ns))
    ensures TableRecord(c, fs, JoinKey(ns, t.name)).value.name == Some(t.name)
  {
    SplitJoin(ns, t.name);
  }

  /** The catalog does not refuse the virtual namespace's own name: on an empty writable
      catalog, creating the namespace record `takoc` passes. */
  lemma ReservedNameIsNotRefused(c: Files, description: string)
    requires !c.readOnly
    ensures NamespaceCreateRecordStep(c, map[], VIRTUAL_NAMESPACE, Info(Some(VIRTUAL_NAMESPACE), description, None)).outcome == Pass
  {
    AddEffect(NamespacesList(c), map[], VIRTUAL_NAMESPACE, description);
  }

  /** Create then get on `namespace`: the record reads back with the payload's description. */
  lemma NamespaceRecordCreateThenGet(c: Files, fs: Fs, id: string, data: Value)
    ensures var s := NamespaceCreateRecordStep(c, fs, id, data);
      && (s.outcome == Pass <==>
            && ParseCreate(data).Success? && ParseCreate(data).value.0 == id
            && NamespacesList(c).Listed(fs).Success? && id !in Names(NamespacesList(c).Listed(fs).value)
            && !c.readOnly)
      && (s.outcome == Pass ==> NamespaceRecord(c, s.fs, id) == Success(Info(Some(id), data.description, None)))
  {
    var l := NamespacesList(c).Listed(fs);
    if ParseCreate(data).Success? && ParseCreate(data).value.0 == id {
      AddEffect(NamespacesList(c), fs, id, data.description);
      if l.Success? && id !in Names(l.value) {
        FindAppended(l.value, NewEntry(id, data.description));
      }
    }
  }

  /** Update then get on `namespace`: the record carries the new description. */
  lemma NamespaceRecordUpdateThenGet(c: Files, fs: Fs, id: string, data: Value)
    ensures var s := NamespaceUpdateRecordStep(c, fs, id, data);
      && (s.outcome == Pass <==>
            && data.Info? && NamespacesList(c).Listed(fs).Success?
            && id in Names(NamespacesList(c).Listed(fs).value) && !c.readOnly)
      && (s.outcome == Pass ==> NamespaceRecord(c, s.fs, id) == Success(Info(Some(id), data.description, None)))
  {
    if data.Info? {
      DescribeEffect(NamespacesList(c), fs, id, data.description);
      var l := NamespacesList(c).Listed(fs);
      if l.Success? && id in Names(l.value) {
        DescribedChangesOnlyDescription(l.value, id, data.description);
      }
    }
  }

  /** Delete then get on `namespace`: the record is gone; its tables are gone too when at most
      one variant of the tables document was on disk. */
  lemma NamespaceRecordDeleteThenGet(c: Files, fs: Fs, id: string)
    ensures var s := DeleteNamespaceMetaStep(c, fs, id);
      && (s.outcome == Pass ==> NamespaceRecord(c, s.fs, id) == Failure(NotFound))
      && (s.outcome == Pass && c.SingleCopy(fs, id + TABLES_SUFFIX) ==> TablesList(c, id).Listed(s.fs) == Success([]))
  {
    DeleteNamespaceMetaEffect(c, fs, id);
    if c.SingleCopy(fs, id + TABLES_SUFFIX) {
      DeleteNamespaceMetaClearsTables(c, fs, id);
    }
    var l := NamespacesList(c).Listed(fs);
    if l.Success? {
      WithoutSpec(l.value, id);
    }
  }

  /** Delete then get on `namespace` through the corrected delete: the record and its tables are
      gone whatever variants of the tables document were on disk. */
  lemma NamespaceRecordDeleteAllVariantsThenGet(c: Files, fs: Fs, id: string)
    ensures var s := DeleteNamespaceMetaAllVariantsStep(c, fs, id);
      s.outcome == Pass ==>
        && NamespaceRecord(c, s.fs, id) == Failure(NotFound)
        && TablesList(c, id).Listed(s.fs) == Success([])
  {
    DeleteAllVariantsClearsTables(c, fs, id);
    var l := NamespacesList(c).Listed(fs);
    if l.Success? {
      WithoutSpec(l.value, id);
    }
  }

  /** Create then get on `table`: the record reads back under the same key. */
  lemma TableRecordCreateThenGet(c: Files, fs: Fs, id: string, data: Value)
    ensures var s := TableCreateRecordStep(c, fs, id, data);
      && ('.' !in id ==> s == Step(Fail(InvalidKey), fs))
      && (s.outcome == Pass ==>
            && SplitKey(id).Success? && ParseCreate(data).Success?
            && ParseCreate(data).value.0 == SplitKey(id).value.1
            && TableRecord(c, s.fs, id) == Success(Info(Some(SplitKey(id).value.1), data.description, Some(SplitKey(id).value.0))))
  {
    var key := SplitKey(id);
    if key.Success? && ParseCreate(data).Success? && ParseCreate(data).value.0 == key.value.1 {
      var (ns, table) := key.value;
      var d := TablesList(c, ns);
      AddEffect(d, fs, table, data.description);
      if d.Listed(fs).Success? && table !in Names(d.Listed(fs).value) {
        FindAppended(d.Listed(fs).value, NewEntry(table, data.description));
      }
    }
  }

  /** Update then get on `table`: the record carries the new description. */
  lemma TableRecordUpdateThenGet(c: Files, fs: Fs, id: string, data: Value)
    ensures var s := TableUpdateRecordStep(c, fs, id, data);
      && ('.' !in id ==> s == Step(Fail(InvalidKey), fs))
      && (SplitKey(id).Success? ==>
            var l := TablesList(c, SplitKey(id).value.0).Listed(fs);
            (s.outcome == Pass <==>
               data.Info? && l.Success? && SplitKey(id).value.1 in Names(l.value) && !c.readOnly))
      && (s.outcome == Pass ==>
            && SplitKey(id).Success? && data.Info?
            && TableRecord(c, s.fs, id) == Success(Info(Some(SplitKey(id).value.1), data.description, Some(SplitKey(id).value.0))))
  {
    var key := SplitKey(id);
    if key.Success? && data.Info? {
      var (ns, table) := key.value;
      var d := TablesList(c, ns);
      DescribeEffect(d, fs, table, data.description);
      if d.Listed(fs).Success? && table in Names(d.Listed(fs).value) {
        DescribedChangesOnlyDescription(d.Listed(fs).value, table, data.description);
      }
    }
  }

  /** Delete then get on `table`: the record is gone. */
  lemma TableRecordDeleteThenGet(c: Files, fs: Fs, id: string)
    ensures var s := TableDeleteRecordStep(c, fs, id);
      && ('.' !in id ==> s == Step(Fail(InvalidKey), fs))
      && (s.outcome == Pass ==> TableRecord(c, s.fs, id) == Failure(NotFound))
  {
    var key := SplitKey(id);
    if key.Success? {
      var (ns, table) := key.value;
      var d := TablesList(c, ns);
      RemoveEffect(d, fs, table);
      if d.Listed(fs).Success? {
        WithoutSpec(d.Listed(fs).value, table);
      }
    }
  }
}
