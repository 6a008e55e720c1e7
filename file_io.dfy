/**
 * The file store (`Files`): resolves a logical document name in one directory
 * to a concrete file and format, and reads, writes and deletes documents.
 * The filesystem is the `Disk` object shared by every store; directories are
 * implicit in the paths of the files they hold.
 */
module FileIO {
  import opened Documents

  const YAML_EXT: string := ".yaml"
  const YML_EXT: string := ".yml"
  const JSON_EXT: string := ".json"

  /** The extensions the store recognises. */
  predicate IsExt(e: string) {
    e == YAML_EXT || e == YML_EXT || e == JSON_EXT
  }

  /** A resolved document: the concrete file and the format it is read with. */
  datatype Located = Located(path: Path, format: Format)

  /** The filesystem every store reads and writes. */
  class Disk {
    var files: Fs

    constructor (files: Fs)
      ensures this.files == files
    {
      this.files := files;
    }

    /** `shutil.rmtree(dir)` guarded by `dir.exists()`: drop everything below `dir`. */
    method RemoveTree(dir: Path)
      modifies this
      ensures files == Pruned(old(files), dir)
    {
      files := Pruned(files, dir);
    }
  }

  /** The filesystem without the subtree below `dir`. */
  function Pruned(fs: Fs, dir: Path): (r: Fs)
    ensures forall p :: p in r ==> p in fs && !(dir < p)
    ensures forall p :: p in fs && !(dir < p) ==> p in r && r[p] == fs[p]
  {
    map p | p in fs && !(dir < p) :: fs[p]
  }

  /** A file store bound to a directory, a read-only flag and a preferred format. */
  datatype Files = Files(dir: Path, readOnly: bool, format: Format) {

    /** The file `name + ext` in this store's directory. */
    function Target(name: string, ext: string): Path {
      dir + [name + ext]
    }

    /** True when some recognised variant of `name` exists. */
    predicate Present(fs: Fs, name: string) {
      Target(name, YAML_EXT) in fs || Target(name, YML_EXT) in fs || Target(name, JSON_EXT) in fs
    }

    /** True when at most one recognised variant of `name` exists. */
    predicate SingleCopy(fs: Fs, name: string) {
      var yaml, yml, json := Target(name, YAML_EXT) in fs, Target(name, YML_EXT) in fs, Target(name, JSON_EXT) in fs;
      !(yaml && yml) && !(yaml && json) && !(yml && json)
    }

    function YamlFileInfo(fs: Fs, name: string): Option<Located> {
      if Target(name, YAML_EXT) in fs then Some(Located(Target(name, YAML_EXT), Yaml))
      else if Target(name, YML_EXT) in fs then Some(Located(Target(name, YML_EXT), Yaml))
      else None
    }

    function JsonFileInfo(fs: Fs, name: string): Option<Located> {
      if Target(name, JSON_EXT) in fs then Some(Located(Target(name, JSON_EXT), Json))
      else None
    }

    /** `file_info`: preferred format first, then YAML, then JSON. */
    function FileInfo(fs: Fs, name: string): (r: Option<Located>)
      ensures r.None? <==> !Present(fs, name)
      ensures r.Some? ==> r.value.path in fs
      ensures r.Some? ==> exists e :: IsExt(e) && r.value.path == Target(name, e)
    {
      if format == Yaml && YamlFileInfo(fs, name).Some? then YamlFileInfo(fs, name)
      else if format == Json && JsonFileInfo(fs, name).Some? then JsonFileInfo(fs, name)
      else if YamlFileInfo(fs, name).Some? then YamlFileInfo(fs, name)
      else JsonFileInfo(fs, name)
    }

    /** `default_ext`: the canonical extension of the preferred format. */
    function DefaultExt(): (ext: string)
      ensures IsExt(ext)
      ensures format == Yaml ==> ext == YAML_EXT
      ensures format == Json ==> ext == JSON_EXT
    {
      match format
      case Yaml => YAML_EXT
      case Json => JSON_EXT
    }

    /** `read_file` over a snapshot. */
    function Read(fs: Fs, name: string): Option<Value> {
      match FileInfo(fs, name)
      case None => None
      case Some(loc) => Some(fs[loc.path])
    }

    /** The filesystem after a successful `write_file`. */
    function Written(fs: Fs, name: string, v: Value): Fs {
      fs[Target(name, DefaultExt()) := v]
    }

    /** `write_file`: the read-only gate, then the write. */
    function Save(fs: Fs, name: string, v: Value): Step {
      if readOnly then Step(Fail(ReadOnly), fs) else Step(Pass, Written(fs, name, v))
    }

    /** `delete_file`: removes the resolved file; unpacking a missing one fails. */
    function Delete(fs: Fs, name: string): Step {
      match FileInfo(fs, name)
      case None => Step(Fail(NoFile), fs)
      case Some(loc) => Step(Pass, fs - {loc.path})
    }

    method ReadFile(disk: Disk, name: string) returns (r: Option<Value>)
      ensures r.None? <==> !Present(disk.files, name)
      ensures r.Some? ==> r.value == disk.files[FileInfo(disk.files, name).value.path]
      ensures r == Read(disk.files, name)
    {
      var info := FileInfo(disk.files, name);
      if info.None? {
        return None;
      }
      r := Some(disk.files[info.value.path]);
    }

    method WriteFile(disk: Disk, name: string, v: Value) returns (r: Outcome)
      modifies disk
      ensures readOnly ==> r == Fail(ReadOnly) && disk.files == old(disk.files)
      ensures !readOnly ==> r == Pass && disk.files == old(disk.files)[Target(name, DefaultExt()) := v]
      ensures Step(r, disk.files) == Save(old(disk.files), name, v)
    {
      if readOnly {
        return Fail(ReadOnly);
      }
      disk.files := disk.files[Target(name, DefaultExt()) := v];
      r := Pass;
    }

    method DeleteFile(disk: Disk, name: string) returns (r: Outcome)
      modifies disk
      ensures !Present(old(disk.files), name) ==> r == Fail(NoFile) && disk.files == old(disk.files)
      ensures Present(old(disk.files), name) ==>
                r == Pass && disk.files == old(disk.files) - {FileInfo(old(disk.files), name).value.path}
      ensures Step(r, disk.files) == Delete(old(disk.files), name)
    {
      var info := FileInfo(disk.files, name);
      if info.None? {
        return Fail(NoFile);
      }
      disk.files := disk.files - {info.value.path};
      r := Pass;
    }

    /** The resolution order as a list: preferred format's extensions first. */
    function Candidates(): (cs: seq<(string, Format)>)
      ensures |cs| == 3 && cs[0].0 == DefaultExt()
    {
      match format
      case Yaml => [(YAML_EXT, Yaml), (YML_EXT, Yaml), (JSON_EXT, Json)]
      case Json => [(JSON_EXT, Json), (YAML_EXT, Yaml), (YML_EXT, Yaml)]
    }

    /** The first candidate that exists. */
    function FirstPresent(fs: Fs, name: string, cs: seq<(string, Format)>): Option<Located> {
      if cs == [] then None
      else if Target(name, cs[0].0) in fs then Some(Located(Target(name, cs[0].0), cs[0].1))
      else FirstPresent(fs, name, cs[1..])
    }
  }

  /** Resolution picks the first existing file in the preferred-format-first order. */
  lemma FileInfoFollowsCandidates(c: Files, fs: Fs, name: string)
    ensures c.FileInfo(fs, name) == c.FirstPresent(fs, name, c.Candidates())
  {
    var cs := c.Candidates();
    var p0, p1, p2 := c.Target(name, cs[0].0) in fs, c.Target(name, cs[1].0) in fs, c.Target(name, cs[2].0) in fs;
    assert cs[1..][1..][1..] == [];
    assert c.FirstPresent(fs, name, cs[1..][1..]) ==
      (if p2 then Some(Located(c.Target(name, cs[2].0), cs[2].1)) else None);
    assert c.FirstPresent(fs, name, cs[1..]) ==
      (if p1 then Some(Located(c.Target(name, cs[1].0), cs[1].1)) else c.FirstPresent(fs, name, cs[1..][1..]));
  }

  /** Distinct (name, extension) pairs name distinct files. */
  lemma {:induction false} FileNamesInjective(a: string, b: string, e1: string, e2: string)
    requires IsExt(e1) && IsExt(e2)
    requires a + e1 == b + e2
    ensures a == b && e1 == e2
  {
    var s := a + e1;
    assert s[|s| - 4] == e1[|e1| - 4] && s[|s| - 4] == e2[|e2| - 4];
    assert |e1| == |e2|;
    assert a == s[..|a|];
    assert b == s[..|b|];
    assert e1 == s[|a|..];
    assert e2 == s[|b|..];
  }

  lemma TargetsInjective(c: Files, a: string, b: string, e1: string, e2: string)
    requires IsExt(e1) && IsExt(e2)
    requires c.Target(a, e1) == c.Target(b, e2)
    ensures a == b && e1 == e2
  {
    assert c.Target(a, e1)[|c.dir|] == a + e1;
    FileNamesInjective(a, b, e1, e2);
  }

  /** Round trip: what `write_file` stores, `read_file` returns. */
  lemma ReadAfterWrite(c: Files, fs: Fs, name: string, v: Value)
    ensures c.Read(c.Written(fs, name, v), name) == Some(v)
  {
  }

  /** Writing one document leaves the resolution of every other name unchanged. */
  lemma ReadOtherAfterWrite(c: Files, fs: Fs, written: string, name: string, v: Value)
    requires written != name
    ensures c.Read(c.Written(fs, written, v), name) == c.Read(fs, name)
  {
    forall e | IsExt(e)
      ensures c.Target(name, e) != c.Target(written, c.DefaultExt())
    {
      if c.Target(name, e) == c.Target(written, c.DefaultExt()) {
        TargetsInjective(c, name, written, e, c.DefaultExt());
      }
    }
  }

  /** Deleting one document leaves the resolution of every other name unchanged. */
  lemma ReadOtherAfterDelete(c: Files, fs: Fs, deleted: string, name: string)
    requires deleted != name
    ensures c.Read(c.Delete(fs, deleted).fs, name) == c.Read(fs, name)
  {
    match c.FileInfo(fs, deleted)
    case None =>
    case Some(loc) =>
      var e :| IsExt(e) && loc.path == c.Target(deleted, e);
      forall e' | IsExt(e')
        ensures c.Target(name, e') != loc.path
      {
        if c.Target(name, e') == loc.path {
          TargetsInjective(c, name, deleted, e', e);
        }
      }
  }

  /** With a single variant on disk, deleting a document makes it unreadable. */
  lemma ReadAfterDeleteSingle(c: Files, fs: Fs, name: string)
    requires c.SingleCopy(fs, name)
    ensures c.Read(c.Delete(fs, name).fs, name) == None
  {
  }

  /** A read depends only on the three variants of the name. */
  lemma ReadFollowsTargets(c: Files, fs: Fs, fs': Fs, name: string)
    requires forall e :: IsExt(e) ==>
      (c.Target(name, e) in fs' <==> c.Target(name, e) in fs) && (c.Target(name, e) in fs ==> fs'[c.Target(name, e)] == fs[c.Target(name, e)])
    ensures c.Read(fs', name) == c.Read(fs, name)
  {
    assert IsExt(YAML_EXT) && IsExt(YML_EXT) && IsExt(JSON_EXT);
  }

  /** Changes confined to paths strictly below a sub-directory leave every document of the
      store itself as it was. */
  lemma ReadUnaffectedBelow(c: Files, fs: Fs, fs': Fs, sub: string, name: string)
    requires forall p :: !(c.dir + [sub] < p) ==> (p in fs' <==> p in fs) && (p in fs ==> fs'[p] == fs[p])
    ensures c.Read(fs', name) == c.Read(fs, name)
  {
    forall e | IsExt(e) ensures !(c.dir + [sub] < c.Target(name, e)) {
    }
  }

  lemma ReadSoleCopy(c: Files, fs: Fs, name: string, ext: string)
    requires IsExt(ext) && c.Target(name, ext) in fs
    requires forall e :: IsExt(e) && e != ext ==> c.Target(name, e) !in fs
    ensures c.Read(fs, name) == Some(fs[c.Target(name, ext)])
  {
  }
}
