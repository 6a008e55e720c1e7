/**
 * A list document: the `namespaces` or `tables` document that a manager loads,
 * searches, changes and writes back whole. The catalog, the namespace manager
 * and each namespace keep their lists this way; this module holds the
 * read-modify-write cycle they share and what one cycle does to the store.
 */
module ListDocs {
  import opened Documents
  import opened FileIO
  import opened Entries

  /** Which list model a document is parsed into. */
  datatype Kind = NamespaceList | TableList

  /** `model_dump()` of a list model. */
  function Wrap(kind: Kind, l: seq<Entry>): Value {
    match kind
    case NamespaceList => NamespacesDoc(l)
    case TableList => TablesDoc(l)
  }

  /** `NamespacesMetadata(**data) if data else NamespacesMetadata()`, and its table twin. */
  function Decode(kind: Kind, d: Option<Value>): (r: Result<seq<Entry>>)
    ensures d.None? ==> r == Success([])
    ensures r.Failure? ==> r.error == Malformed
    ensures r.Success? && d.Some? ==> d.value == Wrap(kind, r.value)
  {
    match d
    case None => Success([])
    case Some(v) =>
      match (kind, v)
      case (NamespaceList, NamespacesDoc(l)) => Success(l)
      case (TableList, TablesDoc(l)) => Success(l)
      case _ => Failure(Malformed)
  }

  /** A list document: the store it lives in, its name without extension, and its model. */
  datatype ListDoc = ListDoc(files: Files, doc: string, kind: Kind) {

    /** The list as the manager loads it; a missing document is an empty list. */
    function Listed(fs: Fs): Result<seq<Entry>> {
      Decode(kind, files.Read(fs, doc))
    }

    /** Writing the whole list back. */
    function Stored(fs: Fs, l: seq<Entry>): Step {
      files.Save(fs, doc, Wrap(kind, l))
    }

    /** Load, refuse a duplicate name, append `{name, description, path=name}`, save. */
    function AddStep(fs: Fs, name: string, description: string): Step {
      match Listed(fs)
      case Failure(e) => Step(Fail(e), fs)
      case Success(l) =>
        if name in Names(l) then Step(Fail(AlreadyExists), fs)
        else Stored(fs, l + [NewEntry(name, description)])
    }

    /** Load, change the description of the first match or report it missing, save. */
    function DescribeStep(fs: Fs, name: string, description: string): Step {
      match Listed(fs)
      case Failure(e) => Step(Fail(e), fs)
      case Success(l) =>
        if name !in Names(l) then Step(Fail(NotFound), fs)
        else Stored(fs, Described(l, name, description))
    }

    /** Load, filter out the name, report it missing when nothing was filtered, save. */
    function RemoveStep(fs: Fs, name: string): Step {
      match Listed(fs)
      case Failure(e) => Step(Fail(e), fs)
      case Success(l) =>
        var kept := Without(l, name);
        if |kept| == |l| then Step(Fail(NotFound), fs) else Stored(fs, kept)
    }

    method Load(disk: Disk) returns (r: Result<seq<Entry>>)
      ensures !files.Present(disk.files, doc) ==> r == Success([])
      ensures r == Listed(disk.files)
    {
      var d := files.ReadFile(disk, doc);
      r := Decode(kind, d);
    }

    method Add(disk: Disk, name: string, description: string) returns (r: Outcome)
      modifies disk
      ensures r == Pass ==> Listed(old(disk.files)).Success? && name !in Names(Listed(old(disk.files)).value)
      ensures r == Pass ==> Listed(disk.files) == Success(Listed(old(disk.files)).value + [NewEntry(name, description)])
      ensures Step(r, disk.files) == AddStep(old(disk.files), name, description)
    {
      AddEffect(this, disk.files, name, description);
      var loaded := Load(disk);
      if loaded.Failure? {
        return Fail(loaded.error);
      }
      var l := loaded.value;
      var existing := FindEntry(l, name);
      if existing.Some? {
        return Fail(AlreadyExists);
      }
      r := files.WriteFile(disk, doc, Wrap(kind, l + [NewEntry(name, description)]));
    }

    method Describe(disk: Disk, name: string, description: string) returns (r: Outcome)
      modifies disk
      ensures r == Pass ==> Listed(old(disk.files)).Success? && name in Names(Listed(old(disk.files)).value)
      ensures r == Pass ==> Listed(disk.files) == Success(Described(Listed(old(disk.files)).value, name, description))
      ensures Step(r, disk.files) == DescribeStep(old(disk.files), name, description)
    {
      DescribeEffect(this, disk.files, name, description);
      var loaded := Load(disk);
      if loaded.Failure? {
        return Fail(loaded.error);
      }
      var found, l' := SetDescription(loaded.value, name, description);
      if !found {
        return Fail(NotFound);
      }
      r := files.WriteFile(disk, doc, Wrap(kind, l'));
    }

    method Remove(disk: Disk, name: string) returns (r: Outcome)
      modifies disk
      ensures r == Pass ==> Listed(old(disk.files)).Success? && name in Names(Listed(old(disk.files)).value)
      ensures r == Pass ==> Listed(disk.files) == Success(Without(Listed(old(disk.files)).value, name))
      ensures Step(r, disk.files) == RemoveStep(old(disk.files), name)
    {
      RemoveEffect(this, disk.files, name);
      var loaded := Load(disk);
      if loaded.Failure? {
        return Fail(loaded.error);
      }
      var l := loaded.value;
      var kept := Without(l, name);
      if |kept| == |l| {
        return Fail(NotFound);
      }
      r := files.WriteFile(disk, doc, Wrap(kind, kept));
    }
  }

  /** What is written back is what is loaded next. */
  lemma ListedAfterStored(d: ListDoc, fs: Fs, l: seq<Entry>)
    requires !d.files.readOnly
    ensures d.Stored(fs, l).outcome == Pass
    ensures d.Listed(d.Stored(fs, l).fs) == Success(l)
  {
    ReadAfterWrite(d.files, fs, d.doc, Wrap(d.kind, l));
  }

  /** Adding fails iff the list is unreadable, the name is taken or the store is read-only; a
      failed add changes nothing, and a successful one appends exactly the new entry. */
  lemma AddEffect(d: ListDoc, fs: Fs, name: string, description: string)
    ensures var s := d.AddStep(fs, name, description);
      && (s.outcome == Pass <==> d.Listed(fs).Success? && name !in Names(d.Listed(fs).value) && !d.files.readOnly)
      && (d.Listed(fs).Success? && name in Names(d.Listed(fs).value) ==> s.outcome == Fail(AlreadyExists))
      && (s.outcome.Fail? ==> s.fs == fs)
      && (s.outcome == Pass ==> d.Listed(s.fs) == Success(d.Listed(fs).value + [NewEntry(name, description)]))
  {
    if d.Listed(fs).Success? && !d.files.readOnly {
      ListedAfterStored(d, fs, d.Listed(fs).value + [NewEntry(name, description)]);
    }
  }

  /** Describing fails iff the list is unreadable, the name is absent or the store is read-only;
      on success exactly the first match's description changes. */
  lemma DescribeEffect(d: ListDoc, fs: Fs, name: string, description: string)
    ensures var s := d.DescribeStep(fs, name, description);
      && (s.outcome == Pass <==> d.Listed(fs).Success? && name in Names(d.Listed(fs).value) && !d.files.readOnly)
      && (d.Listed(fs).Success? && name !in Names(d.Listed(fs).value) ==> s.outcome == Fail(NotFound))
      && (s.outcome.Fail? ==> s.fs == fs)
      && (s.outcome == Pass ==> d.Listed(s.fs) == Success(Described(d.Listed(fs).value, name, description)))
  {
    if d.Listed(fs).Success? && !d.files.readOnly {
      ListedAfterStored(d, fs, Described(d.Listed(fs).value, name, description));
    }
  }

  /** Removing fails iff the list is unreadable, holds no such name or the store is read-only;
      on success every entry with that name is gone and all others stay in order. */
  lemma RemoveEffect(d: ListDoc, fs: Fs, name: string)
    ensures var s := d.RemoveStep(fs, name);
      && (s.outcome == Pass <==> d.Listed(fs).Success? && name in Names(d.Listed(fs).value) && !d.files.readOnly)
      && (d.Listed(fs).Success? && name !in Names(d.Listed(fs).value) ==> s.outcome == Fail(NotFound))
      && (s.outcome.Fail? ==> s.fs == fs)
      && (s.outcome == Pass ==> d.Listed(s.fs) == Success(Without(d.Listed(fs).value, name)))
  {
    if d.Listed(fs).Success? {
      WithoutSpec(d.Listed(fs).value, name);
      if !d.files.readOnly {
        ListedAfterStored(d, fs, Without(d.Listed(fs).value, name));
      }
    }
  }

  /** Each step rewrites only its own document: every other name reads as before. */
  lemma StepsTouchOnlyTheirDocument(d: ListDoc, fs: Fs, name: string, description: string, other: string)
    requires other != d.doc
    ensures d.files.Read(d.AddStep(fs, name, description).fs, other) == d.files.Read(fs, other)
    ensures d.files.Read(d.DescribeStep(fs, name, description).fs, other) == d.files.Read(fs, other)
    ensures d.files.Read(d.RemoveStep(fs, name).fs, other) == d.files.Read(fs, other)
  {
    forall l: seq<Entry> ensures d.files.Read(d.Stored(fs, l).fs, other) == d.files.Read(fs, other) {
      if !d.files.readOnly {
        ReadOtherAfterWrite(d.files, fs, d.doc, other, Wrap(d.kind, l));
      }
    }
  }

  /** Adding keeps the names of the list unique. */
  lemma AddKeepsNamesUnique(d: ListDoc, fs: Fs, name: string, description: string)
    requires d.Listed(fs).Success? && Unique(Names(d.Listed(fs).value))
    ensures var s := d.AddStep(fs, name, description);
      d.Listed(s.fs).Success? && Unique(Names(d.Listed(s.fs).value))
  {
    AddEffect(d, fs, name, description);
    var l := d.Listed(fs).value;
    if name !in Names(l) {
      AppendKeepsUnique(l, NewEntry(name, description));
    }
  }

  /** Describing keeps the names, so their uniqueness. */
  lemma DescribeKeepsNamesUnique(d: ListDoc, fs: Fs, name: string, description: string)
    requires d.Listed(fs).Success? && Unique(Names(d.Listed(fs).value))
    ensures var s := d.DescribeStep(fs, name, description);
      d.Listed(s.fs).Success? && Names(d.Listed(s.fs).value) == Names(d.Listed(fs).value)
  {
    DescribeEffect(d, fs, name, description);
    DescribedChangesOnlyDescription(d.Listed(fs).value, name, description);
  }

  /** Removing keeps the names of the list unique. */
  lemma RemoveKeepsNamesUnique(d: ListDoc, fs: Fs, name: string)
    requires d.Listed(fs).Success? && Unique(Names(d.Listed(fs).value))
    ensures var s := d.RemoveStep(fs, name);
      d.Listed(s.fs).Success? && Unique(Names(d.Listed(s.fs).value))
  {
    RemoveEffect(d, fs, name);
    WithoutKeepsUnique(d.Listed(fs).value, name);
  }
}
