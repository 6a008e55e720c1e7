# local_git storage and catalog, modelled in Dafny

This project models the core of the Python package `local_git`: a document store kept as
files in a directory tree and arranged as namespace → table → record. Every operation
reads one small list document, changes it in memory and writes it back whole.

- **File store** (`Files`, module `FileIO`): maps a logical document name to a file. It
  tries the preferred format first, then YAML (`.yaml` before `.yml`), then JSON. Reads go
  to the resolved file. Writes go to `name + default_ext` and are refused in read-only
  mode. Deletes remove the resolved file.
- **List documents** (module `ListDocs`): the read-modify-write cycle shared by every
  list of `{name, description, path}` entries. Add refuses a duplicate name, update
  changes the first match's description, and delete filters by name and refuses when
  nothing matched.
- **Catalog** (`Metadata`, module `Catalog`): a `namespaces` list and one
  `<ns>_tables` list per namespace, in `data_dir/takoc`.
- **Virtual `takoc` namespace** (module `MetadataView`): renders the catalog as the two
  tables `namespace` and `table`. Table records are keyed `ns.table` and split at the
  first dot. Record operations forward to the catalog. The namespace's own structure
  cannot be changed.
- **Tables** (`Table`, module `Tables`): a settings document `takoc`, plus a `records`
  index of `{id, file}` entries in insertion order, plus one payload document per
  record. The index is saved before the payload.
- **Directory-backed managers** (`Namespaces`, module `NamespaceIndex`; `Namespace`,
  module `NamespaceDir`): the same list pattern over `data_dir/namespaces` and over each
  namespace's `tables` document. Deleting an entry also removes its directory subtree.

How the model is built:
- The filesystem is a `Disk` object holding a map from path (a sequence of segments) to a
  document value. All managers share that one map.
- Every state-changing method is proved equal to a pure step function. A step function
  takes the old map and returns the outcome together with the new map.
- Lemmas about the step functions state what each operation does and what it leaves alone.
- Errors that the code raises become an `Error` value inside `Outcome` or `Result`.

Behaviour one might expect of such a store, but which the code does not have (the model
follows the code):
- `takoc` is the name of the virtual namespace, yet nothing refuses it as a name for a new
  namespace: `add_namespace` and `create_namespace` accept it
  (`MetadataView.ReservedNameIsNotRefused`).
- `Namespaces` (in `data_dir`) and `Metadata` (in `data_dir/takoc`) are separate
  registries. `Namespaces.delete_namespace` leaves every catalog document as it was, so a
  deleted namespace stays in the virtual `namespace` table
  (`NamespaceIndex.RegistryDeleteKeepsCatalog`).
  - Deleting a registry namespace that is itself called `takoc` wipes the catalog
    (`NamespaceIndex.RegistryDeleteOfCatalogNameDropsCatalog`).
- Mutations are not all-or-nothing. `delete_record` saves the shortened index first, then
  fails when the payload file is missing. `Tables.DeleteEffect` states this partial state.
- A namespace name containing `.` yields `table` keys that split at the wrong place
  (`MetadataView.DottedNamespaceKeySplitsElsewhere`).

## Model

| member | source | states |
|---|---|---|
| FileIO.Files.FileInfo | src/local_git/file_io.py:42-85 | Returns no location exactly when none of `.yaml`, `.yml`, `.json` exists. Otherwise it returns an existing file that is one of those three variants of the name. |
| FileIO.FileInfoFollowsCandidates | src/local_git/file_io.py:54-68 | Resolution picks the first existing file in this order: the preferred format's extensions, then YAML (`.yaml` before `.yml`), then JSON. |
| FileIO.Files.DefaultExt | src/local_git/file_io.py:142-154 | Gives `.yaml` for the YAML format and `.json` for JSON, and always one of the recognised extensions. |
| FileIO.Files.ReadFile | src/local_git/file_io.py:87-109 | Returns nothing when no variant exists; otherwise returns the content of the file that `file_info` resolves. |
| FileIO.Files.WriteFile | src/local_git/file_io.py:111-130 | Read-only mode fails and leaves the filesystem unchanged. Otherwise exactly `name + default_ext` is set to the value. |
| FileIO.Files.DeleteFile | src/local_git/file_io.py:132-140 | A missing name fails, because unpacking `None` fails, and nothing changes. Otherwise exactly the resolved file is removed. |
| FileIO.Disk.RemoveTree | src/local_git/namespaces.py:150-153 | `rmtree`: every path strictly below the directory is gone; every other path keeps its value. |
| FileIO.Pruned | src/local_git/namespace.py:180-183 | The filesystem after removing a subtree keeps exactly the paths that are not below it, with the same values. |
| FileIO.ReadAfterWrite | src/local_git/file_io.py:121-130 | Round trip: after `write_file(n, v)`, `read_file(n)` returns `v`, because the written extension is the first one resolution checks. |
| FileIO.ReadOtherAfterWrite | src/local_git/file_io.py:121 | Writing one name leaves every other name reading as before. |
| FileIO.ReadOtherAfterDelete | src/local_git/file_io.py:138-140 | Deleting one name leaves every other name reading as before. |
| FileIO.ReadAfterDeleteSingle | src/local_git/file_io.py:132-140 | When at most one variant exists, the name reads as missing after `delete_file`. |
| FileIO.ReadSoleCopy | src/local_git/file_io.py:97-107 | When exactly one variant exists, a read returns that file's content. |
| FileIO.TargetsInjective | src/local_git/file_io.py:72-82 | Two (name, extension) pairs with recognised extensions resolve to the same file only if the pairs are equal. |
| Entries.FindEntry | src/local_git/metadata.py:80-84 | The search loop finds nothing exactly when the name is absent. Otherwise it returns the first entry with that name. |
| Entries.FindRecord | src/local_git/table.py:123-137 | `_get_record` finds nothing exactly when the id is absent. Otherwise it returns the first index entry with that id. |
| Entries.SetDescription | src/local_git/metadata.py:125-134 | The update loop reports a match exactly when the name is present. Length, names and paths are kept, and only the first match gets the new description. |
| Entries.DescribedChangesOnlyDescription | src/local_git/metadata.py:127-131 | An update keeps length, names, paths and every other entry, and the matched entry differs only in its description. |
| Entries.WithoutSpec | src/local_git/metadata.py:151-157 | The delete filter removes every entry with the name and keeps every other one. The list gets shorter exactly when the name was present. |
| Entries.WithoutAppend | src/local_git/metadata.py:153-154 | The delete filter keeps the relative order of the remaining entries. |
| Entries.WithoutUnique | src/local_git/metadata.py:151-157 | On a list whose names are unique, the delete filter removes exactly the single entry with the name, at its position, and keeps the entries before and after it. |
| Entries.WithoutKeepsUnique | src/local_git/metadata.py:153-154 | Filtering keeps names unique. |
| Entries.AppendKeepsUnique | src/local_git/metadata.py:99-107 | Appending a name that is not yet present keeps names unique. |
| Entries.FindAppended | src/local_git/metadata.py:105-107 | An entry appended under a new name is the one found under that name. |
| Entries.WithoutIdSpec | src/local_git/table.py:229-230 | Deleting from the index removes every entry with the id and keeps all others. The index gets shorter exactly when the id was present. |
| Entries.WithoutIdAppend | src/local_git/table.py:229-230 | The index filter keeps the relative order of the remaining entries. |
| Entries.AppendKeepsUniqueIds | src/local_git/table.py:182-188 | Appending an id that is not yet indexed keeps ids unique. |
| Entries.LookupAppended | src/local_git/table.py:188 | An entry appended under a new id is the one looked up by that id. |
| ListDocs.Decode | src/local_git/metadata.py:95-97 | A missing document is an empty list. The only failure is a malformed document, and a successful decode gives back exactly the list the document holds. |
| ListDocs.ListDoc.Load | src/local_git/namespaces.py:37-40 | Loads the list, and gives an empty list when no document exists. |
| ListDocs.ListDoc.Add | src/local_git/metadata.py:94-110 | On success the name was absent and the list now reads as the old list plus `{name, description, path=name}`. The new state equals the add step. |
| ListDocs.ListDoc.Describe | src/local_git/metadata.py:120-137 | On success the name was present and the list now reads as the old list with the first match's description replaced. The new state equals the update step. |
| ListDocs.ListDoc.Remove | src/local_git/metadata.py:147-160 | On success the name was present and the list now reads as the old list filtered by name. The new state equals the delete step. |
| ListDocs.ListedAfterStored | src/local_git/namespaces.py:37-45 | What `_save_*` writes is what `_load_*` reads next. |
| ListDocs.AddEffect | src/local_git/metadata.py:94-110 | Add passes exactly when the list loads, the name is new and the store is writable. A duplicate gives "already exists", a failure changes nothing, and a pass appends exactly the new entry. |
| ListDocs.DescribeEffect | src/local_git/metadata.py:112-137 | Update passes exactly when the list loads, the name is present and the store is writable. An absent name gives "not found", a failure changes nothing, and a pass changes only the first match's description. |
| ListDocs.RemoveEffect | src/local_git/metadata.py:139-160 | Delete passes exactly when the list loads, the name is present and the store is writable. An absent name gives "not found", a failure changes nothing, and a pass leaves the list filtered by name. |
| ListDocs.StepsTouchOnlyTheirDocument | src/local_git/metadata.py:199-282 | Add, update and delete leave every other document of the store reading as before. |
| ListDocs.AddKeepsNamesUnique | src/local_git/metadata.py:99-107 | Add keeps the list's names unique. |
| ListDocs.DescribeKeepsNamesUnique | src/local_git/metadata.py:125-131 | Update keeps the list's names exactly as they were. |
| ListDocs.RemoveKeepsNamesUnique | src/local_git/metadata.py:151-154 | Delete keeps the list's names unique. |
| Catalog.Metadata.constructor | src/local_git/metadata.py:45-56 | The catalog store is `data_dir/takoc`, with the database's read-only flag and default format. |
| Catalog.Metadata.GetNamespaces | src/local_git/metadata.py:58-68 | Returns the stored namespace list, or an empty list when no document exists. |
| Catalog.Metadata.GetNamespace | src/local_git/metadata.py:70-84 | Returns the first entry with the name, or none exactly when the name is absent. Load errors are passed on. |
| Catalog.Metadata.AddNamespace | src/local_git/metadata.py:86-110 | The new state equals the list add step on the `namespaces` document (see `ListDocs.AddEffect`). |
| Catalog.Metadata.UpdateNamespace | src/local_git/metadata.py:112-137 | The new state equals the list update step on the `namespaces` document. |
| Catalog.Metadata.DeleteNamespaceMeta | src/local_git/metadata.py:139-165 | The new state equals this step: filter the `namespaces` document, then delete the resolved `<name>_tables` file if one exists. |
| Catalog.Metadata.DeleteNamespaceMetaAllVariants | src/local_git/metadata.py:162-165 | A loop deletes the resolved tables file until no variant is left. The new state equals the filtered list with all three variants removed. |
| Catalog.Metadata.GetTables | src/local_git/metadata.py:167-180 | Returns the stored `<namespace>_tables` list, or an empty list when no document exists. |
| Catalog.Metadata.GetTable | src/local_git/metadata.py:182-197 | Returns the first table entry with the name, or none exactly when the name is absent. Load errors are passed on. |
| Catalog.Metadata.AddTable | src/local_git/metadata.py:199-226 | The new state equals the list add step on `<namespace>_tables`. |
| Catalog.Metadata.UpdateTable | src/local_git/metadata.py:228-256 | The new state equals the list update step on `<namespace>_tables`. |
| Catalog.Metadata.DeleteTable | src/local_git/metadata.py:258-282 | The new state equals the list delete step on `<namespace>_tables`. |
| Catalog.NamespacesDocIsNoTablesDoc | src/local_git/metadata.py:163 | No `<ns>_tables` document name equals `namespaces`. |
| Catalog.TablesDocsDistinct | src/local_git/metadata.py:208 | Distinct namespaces have distinct tables documents. |
| Catalog.TableStepsKeepOtherLists | src/local_git/metadata.py:199-282 | Table operations leave the namespaces list and every other namespace's tables list reading as before. |
| Catalog.NamespaceStepsKeepTablesLists | src/local_git/metadata.py:86-165 | Adding or updating a namespace leaves every tables list as it was. Deleting one leaves every other namespace's tables list as it was. |
| Catalog.DeleteNamespaceMetaEffect | src/local_git/metadata.py:139-160 | Deleting a namespace passes exactly when the list loads, the name is present and the store is writable. An absent name gives "not found" and changes nothing. On a pass the list is filtered by name. |
| Catalog.DeleteNamespaceMetaClearsTables | src/local_git/metadata.py:162-165 | When at most one variant of `<name>_tables` exists, `get_tables(name)` is empty after a successful delete. |
| Catalog.StaleTablesSurviveDeleteNamespaceMeta | src/local_git/metadata.py:162-165 | Discrepancy: in a writable YAML catalog holding both `<name>_tables.yaml` and `<name>_tables.json`, deleting a listed namespace passes and removes only the YAML file. `get_tables(name)` then returns the stale JSON list. |
| Catalog.StaleTablesExample | src/local_git/metadata.py:162-165 | Concrete instance: `x_tables.yaml = [t, u]` and `x_tables.json = [t]`; after deleting `x`, `get_tables("x")` returns `[t]`. |
| Catalog.DeleteAllVariantsClearsTables | src/local_git/metadata.py:162-165 | When every variant is removed, `get_tables(name)` is empty after the delete whatever variants existed, and the namespaces list lost exactly that name. |
| MetadataView.SplitKey | src/local_git/metadata.py:356-358 | Fails with an invalid-key error exactly when the id has no dot. Otherwise `id == ns + "." + table`, with no dot in `ns`. |
| MetadataView.SplitJoin | src/local_git/metadata.py:352-358 | A key built from a namespace without a dot splits back into that namespace and table. |
| MetadataView.DottedNamespaceKeySplitsElsewhere | src/local_git/metadata.py:352-358 | A key listed for a namespace that contains a dot splits into a different namespace part. |
| MetadataView.ParseCreate | src/local_git/metadata.py:368 | A create payload parses exactly when it carries a name, and yields its name and description. Otherwise it is malformed. |
| MetadataView.ParseUpdate | src/local_git/metadata.py:377 | An update payload parses to its description. Otherwise it is malformed. |
| MetadataView.Joined | src/local_git/metadata.py:351-352 | One namespace's keys are `ns + "." + table.name`, in table order. |
| MetadataView.NamespacesTable.ListRecords | src/local_git/metadata.py:308-310 | Returns the catalog's namespace names in stored order, and fails exactly when the list does not load. |
| MetadataView.NamespacesTable.GetRecord | src/local_git/metadata.py:312-316 | Returns `{name, description}` of the first catalog entry with the id; "not found" otherwise. |
| MetadataView.NamespacesTable.CreateRecord | src/local_git/metadata.py:318-322 | The payload must parse and its name must equal the record id; then the catalog's `add_namespace` runs. |
| MetadataView.NamespacesTable.UpdateRecord | src/local_git/metadata.py:324-326 | The payload must parse; then the catalog's `update_namespace` runs on the record id. |
| MetadataView.NamespacesTable.DeleteRecord | src/local_git/metadata.py:328-330 | The new state equals the catalog's `delete_namespace_meta` step on the record id. That step filters the list and removes only the resolved tables file. |
| MetadataView.NamespacesTable.DeleteRecordAllVariants | src/local_git/metadata.py:328-330 | Corrected forwarding (see Findings): the new state equals the delete step that removes every variant of the record's tables document. |
| MetadataView.TablesTable.ListRecords | src/local_git/metadata.py:346-353 | The nested loop returns `ns.name + "." + table.name` for every table of every namespace: namespace order first, then table order. A failing list fails the whole call. |
| MetadataView.TablesTable.GetRecord | src/local_git/metadata.py:355-362 | An id without a dot is invalid. Otherwise it splits at the first dot and returns `{name, description, namespace}` of the first matching table; "not found" otherwise. |
| MetadataView.TablesTable.CreateRecord | src/local_git/metadata.py:364-371 | The id must split and the payload name must equal the table part; then the catalog's `add_table` runs. |
| MetadataView.TablesTable.UpdateRecord | src/local_git/metadata.py:373-378 | The id must split and the payload must parse; then the catalog's `update_table` runs. |
| MetadataView.TablesTable.DeleteRecord | src/local_git/metadata.py:380-384 | The id must split; then the catalog's `delete_table` runs. |
| MetadataView.MetadataNamespace.ListTables | src/local_git/metadata.py:398-402 | Always exactly two tables, `namespace` then `table`, both in the `takoc` namespace. |
| MetadataView.MetadataNamespace.GetTable | src/local_git/metadata.py:404-410 | Returns a table exactly for `namespace` and `table`. The result is the listed entry of that name. |
| MetadataView.MetadataNamespace.CreateTable | src/local_git/metadata.py:412-413 | Always refused. |
| MetadataView.MetadataNamespace.UpdateTable | src/local_git/metadata.py:415-416 | Always refused. |
| MetadataView.MetadataNamespace.DeleteTable | src/local_git/metadata.py:418-419 | Always refused. |
| MetadataView.MetadataNamespace.LoadTable | src/local_git/metadata.py:421-426 | Returns a view over the same catalog exactly for `namespace` and `table`; "not found" for any other name. |
| MetadataView.GetMetadataNamespace | src/local_git/metadata.py:284-291 | Returns the `takoc` namespace bound to this catalog. |
| MetadataView.ListedKeysAreComplete | src/local_git/metadata.py:346-353 | Every table of every listed namespace appears among the keys. |
| MetadataView.ListedKeysAreSound | src/local_git/metadata.py:346-353 | Every listed key is `ns + "." + t` for a table `t` of a listed namespace `ns`. |
| MetadataView.ListedKeysResolve | src/local_git/metadata.py:346-362 | The listed key of a table in a namespace without a dot resolves through `get_record` to that table. |
| MetadataView.ReservedNameIsNotRefused | src/local_git/metadata.py:86-110 | Creating the namespace record `takoc` in an empty writable catalog passes. |
| MetadataView.NamespaceRecordCreateThenGet | src/local_git/metadata.py:312-322 | Create passes exactly when the payload parses, names the id, the list loads, the id is new and the store is writable. Afterwards `get_record` returns the payload's description. |
| MetadataView.NamespaceRecordUpdateThenGet | src/local_git/metadata.py:312-326 | Update passes exactly when the payload parses, the id is listed and the store is writable. Afterwards `get_record` returns the new description. |
| MetadataView.NamespaceRecordDeleteThenGet | src/local_git/metadata.py:312-330 | After a delete passes, `get_record` of the id is "not found". When at most one variant of `<id>_tables` was on disk, the namespace's tables list is also empty. |
| MetadataView.NamespaceRecordDeleteAllVariantsThenGet | src/local_git/metadata.py:312-330 | Through the corrected delete, `get_record` is "not found" and the namespace's tables list is empty, whatever variants were on disk. |
| MetadataView.TableRecordCreateThenGet | src/local_git/metadata.py:355-371 | An id without a dot is invalid and changes nothing. After a create, `get_record` returns the table under the same key. |
| MetadataView.TableRecordUpdateThenGet | src/local_git/metadata.py:355-378 | An id without a dot is invalid and changes nothing. With a valid key, update passes exactly when the payload parses, the table is listed in its namespace and the store is writable. Afterwards `get_record` returns the new description under the same key. |
| MetadataView.TableRecordDeleteThenGet | src/local_git/metadata.py:355-384 | An id without a dot is invalid and changes nothing. After a delete, `get_record` of the key is "not found". |
| Tables.RecordsDir | src/local_git/table.py:53-54 | Records live in the table directory itself when the settings name no path. |
| Tables.GetRecordAsWritten | src/local_git/table.py:155-170 | `get_record` as written fails with "not found" exactly when no variant of the document named by the id exists. |
| Tables.Table.constructor | src/local_git/table.py:42-62 | Binds the settings, the records store (`dir/path` or `dir`, the database's read-only flag, the records format), the namespace (`dir.parent.name`) and the name (`dir.name`). |
| Tables.Table.Load | src/local_git/table.py:42-62 | Fails exactly when the settings document cannot be loaded, with its error. Otherwise it binds the table to the loaded settings. |
| Tables.Table.Initialize | src/local_git/table.py:64-91 | Writes the default settings and an empty index with a writable store, then loads the table. |
| Tables.Table.Records | src/local_git/table.py:115-121 | `_get_records` returns the index, which must exist. |
| Tables.Table.UpdateRecords | src/local_git/table.py:139-145 | Saves the index. When writable, the index reads back as the given list. |
| Tables.Table.ListRecords | src/local_git/table.py:147-153 | Returns the indexed ids in stored (insertion) order, and fails exactly when the index does not load. |
| Tables.Table.GetRecord | src/local_git/table.py:155-170 | As written: reads the document named by the id itself. |
| Tables.Table.GetRecordByIndex | src/local_git/table.py:155-170 | Corrected: looks the id up in the index and reads the document its `file` names. |
| Tables.Table.CreateRecord | src/local_git/table.py:172-191 | The new state equals the create step: refuse an indexed id, append `{id, file}`, save the index, then write the payload. |
| Tables.Table.UpdateRecord | src/local_git/table.py:193-210 | The new state equals the update step: refuse an unindexed id, then overwrite the entry's `file`. |
| Tables.Table.DeleteRecord | src/local_git/table.py:212-233 | The new state equals the delete step: refuse an unindexed id, save the filtered index, then delete the entry's `file`. |
| Tables.CreateEffect | src/local_git/table.py:172-191 | Create passes exactly when the index loads, the id is new and the store is writable. An indexed id gives "already exists", a failure changes nothing, and a pass stores the payload. For a file name other than `records`, a pass also appends exactly `{id, file}` to the index. |
| Tables.CreateSavesIndexFirst | src/local_git/table.py:187-191 | The index is written before the payload: a payload whose file name is `records` replaces the index just saved. |
| Tables.CreateKeepsIdsUnique | src/local_git/table.py:182-189 | For a file name other than `records`, create keeps the index's ids unique. |
| Tables.UpdateEffect | src/local_git/table.py:193-210 | Update passes exactly when the index loads, the id is indexed and the store is writable. An absent id gives "not found" and changes nothing. A pass overwrites the entry's `file` and leaves the index unchanged. |
| Tables.UpdateTouchesOnlyPayload | src/local_git/table.py:210 | Update leaves every document other than the entry's payload reading as before. |
| Tables.DeleteEffect | src/local_git/table.py:212-233 | An unreadable index fails with its error, an absent id gives "not found", and a read-only store gives "read-only"; each of these changes nothing. When the index loads, the id is indexed, the store is writable and the entry's file is not `records`: the index loses exactly that id, keeping order, and is saved even when the payload turns out to be missing, so the delete passes exactly when the payload exists. A single-copy payload is gone afterwards. |
| Tables.InitializedTableIsEmpty | src/local_git/table.py:75-91 | A table initialized in an empty directory loads the default settings and lists no records. |
| Tables.InitializedFsOutside | src/local_git/table.py:79-88 | Initializing a table writes only below its directory. |
| Tables.CreatedRecordMissedByGetRecord | src/local_git/table.py:167-170 | Counterexample: a record created under a file name other than its id is "not found" by `get_record` when no document carries the id's name. |
| Tables.CreatedRecordReadByIndex | src/local_git/table.py:172-191 | Through the index, a created record reads back as the payload it was created with. |
| Tables.UpdatedRecordReadByIndex | src/local_git/table.py:193-210 | Through the index, an updated record reads back as the new payload. |
| NamespaceDir.Namespace.constructor | src/local_git/namespace.py:26-35 | The namespace store is its directory, with the given flag and the database's default format. |
| NamespaceDir.Namespace.Initialize | src/local_git/namespace.py:47-68 | Writes an empty `tables` list with a writable store and returns a writable namespace over the directory. |
| NamespaceDir.Namespace.CreateTable | src/local_git/namespace.py:70-106 | The new state equals this step: add the entry, save, then initialize `dir/name` as a table. On success the returned table is bound to `dir/name`. |
| NamespaceDir.Namespace.ListTables | src/local_git/namespace.py:108-115 | Returns the table names in stored order, and fails exactly when the list does not load. |
| NamespaceDir.Namespace.GetTable | src/local_git/namespace.py:117-135 | As written it never returns a table. An absent name is "not found", and a found one fails on the bad constructor call. |
| NamespaceDir.Namespace.OpenTable | src/local_git/namespace.py:129-135 | Corrected: a found table is loaded from `dir / table.path`. Load and lookup errors are passed on. |
| NamespaceDir.Namespace.UpdateTable | src/local_git/namespace.py:137-157 | The new state equals the list update step on the `tables` document. |
| NamespaceDir.Namespace.DeleteTable | src/local_git/namespace.py:159-183 | The new state equals this step: filter the list, save, then remove the `dir/name` subtree. |
| NamespaceDir.InitializedNamespaceIsEmpty | src/local_git/namespace.py:58-68 | A freshly initialized namespace lists no tables. |
| NamespaceDir.CreateTableEffect | src/local_git/namespace.py:90-106 | Create passes exactly when the list loads, the name is new and the store is writable; a duplicate gives "already exists". Into an empty `dir/name`, a pass appends the entry and leaves a table with default settings and no records. |
| NamespaceDir.CreatedTableNotReturned | src/local_git/namespace.py:129-134 | Counterexample: `get_table` fails even for the table `create_table` just made. |
| NamespaceDir.CreatedTableOpens | src/local_git/namespace.py:129-134 | Corrected: the table `create_table` just made is found in `dir/name` and loads its default settings. |
| NamespaceDir.DeleteTableEffect | src/local_git/namespace.py:159-183 | Delete passes exactly when the list loads, the name is present and the store is writable; an absent name gives "not found". A pass filters the list, the name no longer resolves, and nothing remains below `dir/name`. |
| NamespaceIndex.Namespaces.constructor | src/local_git/namespaces.py:26-35 | The registry store is `data_dir`, with the given flag and the database's default format. |
| NamespaceIndex.Namespaces.CreateNamespace | src/local_git/namespaces.py:47-76 | The new state equals this step: add the entry, save, then initialize `data_dir/name`. The returned namespace is writable and bound to `data_dir/name`. |
| NamespaceIndex.Namespaces.ListNamespaces | src/local_git/namespaces.py:78-85 | Returns the stored entries in order, or an empty list when no document exists. |
| NamespaceIndex.Namespaces.GetNamespace | src/local_git/namespaces.py:87-103 | Fails exactly when the name does not resolve, with that error. Otherwise it returns a writable namespace over `data_dir / ns.path`, whatever the registry's flag. |
| NamespaceIndex.Namespaces.UpdateNamespace | src/local_git/namespaces.py:105-125 | The new state equals the list update step on the registry's `namespaces` document. |
| NamespaceIndex.Namespaces.DeleteNamespace | src/local_git/namespaces.py:127-153 | The new state equals this step: filter the list, save, then remove the `data_dir/name` subtree. |
| NamespaceIndex.CreateNamespaceEffect | src/local_git/namespaces.py:57-76 | Create passes exactly when the list loads, the name is new and the store is writable; a duplicate gives "already exists", and a failure changes nothing. A pass appends the entry, resolves the name to `data_dir/name`, and the new namespace lists no tables. |
| NamespaceIndex.DeleteNamespaceEffect | src/local_git/namespaces.py:127-153 | Delete passes exactly when the list loads, the name is present and the store is writable; an absent name gives "not found", and a failure changes nothing. A pass filters the list, the name no longer resolves, and nothing remains below `data_dir/name`. |
| NamespaceIndex.UpdateNamespaceKeepsDirs | src/local_git/namespaces.py:118-125 | Updating a description leaves every name resolving to the same directory. |
| NamespaceIndex.RegistryDeleteKeepsCatalog | src/local_git/namespaces.py:127-153 | Deleting a namespace not called `takoc` through the registry leaves every catalog document reading as before. |
| NamespaceIndex.RegistryDeleteOfCatalogNameDropsCatalog | src/local_git/namespaces.py:150-153 | Deleting a registry namespace called `takoc` removes every catalog document. |

## Left out

- `db.py`, `global_config.py`, `main.py` and the `api` package are not part of this
  model. The database handle is reduced to its data directory, read-only flag and
  default format.
- YAML and JSON encoding are treated as the identity: a document holds the same value in
  either format.
- Pydantic parsing is reduced to "right shape or `Malformed`". Extra keys, which pydantic
  ignores, and per-field defaults are not modelled.
- MetadataView.ParseCreate: the request and data models that `metadata.py` imports from
  `api/v1.py` (`NamespaceCreateRequest`, `NamespaceUpdateRequest`, `TableCreateRequest`,
  `TableUpdateRequest`, `NamespaceData`, `TableData`) are not defined there. The model
  assumes that a create request needs a `name` and that a request's `description` is a
  string. `MetadataView.ParseUpdate` makes the same assumption for the description.
- Reading an empty YAML file, which `safe_load` turns into `None`, is not modelled
  separately from a missing file.
- `Files.generate_file_name`, which `create_record` calls at `table.py:187`, is defined
  nowhere in `file_io.py`: as written, `create_record` would fail there for every new id.
  Tables.Table.CreateRecord takes the generator's result as an unconstrained `fileName`
  parameter and models the rest of the operation.
- Tables.Table.constructor: the fallback from `records_format` to the database's default
  format is not modelled. `TableMeta` always gives `records_format` a value, so the
  fallback never applies.
- `json_schema` is carried by no model member. The record operations never read it.
- Directories are implicit: `mkdir` is a no-op, and a directory exists exactly when a
  file lies below it.
- A name containing `/` stays one path segment rather than being split.
- Exception types and messages become one `Error` value per cause.
- Concurrency and lost updates are not modelled. The code has no locking, and every
  operation here runs on its own.
- NamespaceIndex.Namespaces.constructor: `db.py` builds `Namespaces` without a read-only
  flag. The model takes the flag as a parameter and does not tie it to the database's.

## Findings

| source | as written | input that shows it | evidently intended | confidence | as-written member | corrected member |
|---|---|---|---|---|---|---|
| src/local_git/metadata.py:162-165 | `delete_namespace_meta` deletes only the tables file that `file_info` resolves | catalog store in YAML with `x_tables.yaml = [t, u]` and `x_tables.json = [t]`; delete namespace `x` | no tables list of `x` remains, so `get_tables("x")` is empty | medium, not executed | Catalog.StaleTablesSurviveDeleteNamespaceMeta | Catalog.DeleteAllVariantsClearsTables |
| src/local_git/table.py:167 | `get_record` reads the document named by `record_id` | a record created with a file name other than its id, e.g. one the file-name generator had to rewrite | read the document named by the index entry's `file` | high, not executed | Tables.CreatedRecordMissedByGetRecord | Tables.CreatedRecordReadByIndex |
| src/local_git/namespace.py:134 | `Namespace.get_table` calls `Table(..., read_only=False)`, but `Table.__init__` (src/local_git/table.py:42) takes no `read_only` | `get_table` of any listed table, e.g. one just made by `create_table` | `Table(self._db, dir=table_dir)`, which returns the table | high, not executed | NamespaceDir.CreatedTableNotReturned | NamespaceDir.CreatedTableOpens |
