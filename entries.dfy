/**
 * The list documents of the store are small ordered lists searched by key:
 * catalog entries by name and record index entries by id. This module holds
 * the list operations every manager applies to them, the search loops the
 * managers run, and what those operations preserve.
 */
module Entries {
  import opened Documents

  function Names(l: seq<Entry>): seq<string> {
    seq(|l|, i requires 0 <= i < |l| => l[i].name)
  }

  function Ids(l: seq<RecordPos>): seq<string> {
    seq(|l|, i requires 0 <= i < |l| => l[i].id)
  }

  /** The position of the first occurrence of `k`, if any. */
  function IndexOf<T(==)>(keys: seq<T>, k: T): (r: Option<nat>)
    ensures r.None? <==> k !in keys
    ensures r.Some? ==> r.value < |keys| && keys[r.value] == k && k !in keys[..r.value]
  {
    if keys == [] then None
    else if keys[0] == k then Some(0)
    else match IndexOf(keys[1..], k)
      case None => None
      case Some(j) =>
        assert keys[..j + 1] == [keys[0]] + keys[1..][..j];
        Some(j + 1)
  }

  /** Keys that occur once each. */
  predicate Unique(keys: seq<string>) {
    forall i, j :: 0 <= i < j < |keys| ==> keys[i] != keys[j]
  }

  /** The first entry named `name`. */
  function Find(l: seq<Entry>, name: string): Option<Entry> {
    match IndexOf(Names(l), name)
    case None => None
    case Some(i) => Some(l[i])
  }

  /** The first index entry with id `id`. */
  function Lookup(l: seq<RecordPos>, id: string): Option<RecordPos> {
    match IndexOf(Ids(l), id)
    case None => None
    case Some(i) => Some(l[i])
  }

  /** The list with the description of the first entry named `name` replaced. */
  function Described(l: seq<Entry>, name: string, description: string): seq<Entry> {
    match IndexOf(Names(l), name)
    case None => l
    case Some(i) => l[i := l[i].(description := description)]
  }

  /** `[e for e in l if e.name != name]` */
  function Without(l: seq<Entry>, name: string): seq<Entry> {
    if l == [] then []
    else (if l[0].name == name then [] else [l[0]]) + Without(l[1..], name)
  }

  /** `[r for r in l if r.id != id]` */
  function WithoutId(l: seq<RecordPos>, id: string): seq<RecordPos> {
    if l == [] then []
    else (if l[0].id == id then [] else [l[0]]) + WithoutId(l[1..], id)
  }

  /** A new entry as the managers create it: the path is the name. */
  function NewEntry(name: string, description: string): Entry {
    Entry(name, description, name)
  }

  // ---------------------------------------------------------------------------
  // The search loops

  /** `for e in l: if e.name == name: return e` */
  method FindEntry(l: seq<Entry>, name: string) returns (r: Option<Entry>)
    ensures r.None? <==> name !in Names(l)
    ensures r.Some? ==> r.value in l && r.value.name == name
    ensures r.Some? ==> exists i :: 0 <= i < |l| && r.value == l[i] && name !in Names(l)[..i]
    ensures r == Find(l, name)
  {
    var i := 0;
    while i < |l|
      invariant 0 <= i <= |l|
      invariant name !in Names(l)[..i]
    {
      if l[i].name == name {
        assert Names(l)[i] == name;
        return Some(l[i]);
      }
      assert Names(l)[..i + 1] == Names(l)[..i] + [l[i].name];
      i := i + 1;
    }
    assert Names(l)[..i] == Names(l);
    r := None;
  }

  /** `_get_record`: the first index entry with a matching id. */
  method FindRecord(l: seq<RecordPos>, id: string) returns (r: Option<RecordPos>)
    ensures r.None? <==> id !in Ids(l)
    ensures r.Some? ==> r.value in l && r.value.id == id
    ensures r.Some? ==> exists i :: 0 <= i < |l| && r.value == l[i] && id !in Ids(l)[..i]
    ensures r == Lookup(l, id)
  {
    var i := 0;
    while i < |l|
      invariant 0 <= i <= |l|
      invariant id !in Ids(l)[..i]
    {
      if l[i].id == id {
        assert Ids(l)[i] == id;
        return Some(l[i]);
      }
      assert Ids(l)[..i + 1] == Ids(l)[..i] + [l[i].id];
      i := i + 1;
    }
    assert Ids(l)[..i] == Ids(l);
    r := None;
  }

  /** `for e in l: if e.name == name: e.description = description; found = True; break` */
  method SetDescription(l: seq<Entry>, name: string, description: string) returns (found: bool, l': seq<Entry>)
    ensures found <==> name in Names(l)
    ensures |l'| == |l| && Names(l') == Names(l)
    ensures forall i :: 0 <= i < |l| ==> l'[i].path == l[i].path
    ensures l' == Described(l, name, description)
  {
    l' := l;
    var i := 0;
    while i < |l|
      invariant 0 <= i <= |l|
      invariant name !in Names(l)[..i]
      invariant l' == l
    {
      if l[i].name == name {
        assert Names(l)[i] == name;
        l' := l'[i := l'[i].(description := description)];
        assert Names(l') == Names(l);
        return true, l';
      }
      assert Names(l)[..i + 1] == Names(l)[..i] + [l[i].name];
      i := i + 1;
    }
    assert Names(l)[..i] == Names(l);
    found := false;
  }

  // ---------------------------------------------------------------------------
  // What the list operations preserve

  /** An update changes exactly the description of the first match. */
  lemma DescribedChangesOnlyDescription(l: seq<Entry>, name: string, description: string)
    ensures var l' := Described(l, name, description);
      && |l'| == |l| && Names(l') == Names(l)
      && (forall i :: 0 <= i < |l| ==> l'[i].name == l[i].name && l'[i].path == l[i].path)
      && (forall i :: 0 <= i < |l| && Some(i) != IndexOf(Names(l), name) ==> l'[i] == l[i])
      && (name in Names(l) ==> Find(l', name) == Some(Find(l, name).value.(description := description)))
  {
    var l' := Described(l, name, description);
    assert Names(l') == Names(l);
  }

  /** Filtering drops every entry named `name`, keeps all others, and shrinks iff one matched. */
  lemma WithoutSpec(l: seq<Entry>, name: string)
    ensures name !in Names(Without(l, name))
    ensures forall e :: e in Without(l, name) <==> e in l && e.name != name
    ensures |Without(l, name)| <= |l|
    ensures |Without(l, name)| == |l| <==> name !in Names(l)
  {
    WithoutMembers(l, name);
    WithoutLength(l, name);
    var w := Without(l, name);
    forall k | 0 <= k < |w| ensures Names(w)[k] != name {
      assert w[k] in w;
    }
  }

  lemma {:induction false} WithoutMembers(l: seq<Entry>, name: string)
    ensures forall e :: e in Without(l, name) <==> e in l && e.name != name
  {
    if l != [] {
      var tail := l[1..];
      WithoutMembers(tail, name);
      assert l == [l[0]] + tail;
      forall e ensures e in Without(l, name) <==> e in l && e.name != name {
        assert e in l <==> e == l[0] || e in tail;
      }
    }
  }

  lemma {:induction false} WithoutLength(l: seq<Entry>, name: string)
    ensures |Without(l, name)| <= |l|
    ensures |Without(l, name)| == |l| <==> name !in Names(l)
  {
    if l != [] {
      var tail := l[1..];
      WithoutLength(tail, name);
      assert Names(l) == [l[0].name] + Names(tail);
    }
  }

  /** Filtering keeps relative order: it distributes over concatenation. */
  lemma {:induction false} WithoutAppend(a: seq<Entry>, b: seq<Entry>, name: string)
    ensures Without(a + b, name) == Without(a, name) + Without(b, name)
  {
    if a != [] {
      assert (a + b)[1..] == a[1..] + b;
      WithoutAppend(a[1..], b, name);
    } else {
      assert a + b == b;
    }
  }

  /** On a list with unique names, filtering removes exactly the one matching entry. */
  lemma WithoutUnique(l: seq<Entry>, name: string)
    requires Unique(Names(l)) && name in Names(l)
    ensures var i := IndexOf(Names(l), name).value;
      Without(l, name) == l[..i] + l[i + 1..]
  {
    var i := IndexOf(Names(l), name).value;
    var before, after := l[..i], l[i + 1..];
    assert l == (before + [l[i]]) + after;
    NamesBefore(l, i);
    NamesAfter(l, i);
    WithoutAppend(before + [l[i]], after, name);
    WithoutAppend(before, [l[i]], name);
    WithoutNoMatch(before, name);
    WithoutNoMatch(after, name);
    assert Without([l[i]], name) == [] + Without([], name);
  }

  /** The names before position `i` are the first `i` names. */
  lemma NamesBefore(l: seq<Entry>, i: nat)
    requires i <= |l|
    ensures Names(l[..i]) == Names(l)[..i]
  {
  }

  /** With unique names, the name at `i` does not occur after it. */
  lemma NamesAfter(l: seq<Entry>, i: nat)
    requires Unique(Names(l)) && i < |l|
    ensures l[i].name !in Names(l[i + 1..])
  {
    var after := l[i + 1..];
    forall k | 0 <= k < |after| ensures Names(after)[k] != l[i].name {
      assert Names(after)[k] == Names(l)[i + 1 + k] && Names(l)[i] == l[i].name;
    }
  }

  lemma {:induction false} WithoutNoMatch(l: seq<Entry>, name: string)
    requires name !in Names(l)
    ensures Without(l, name) == l
  {
    if l != [] {
      assert Names(l) == [l[0].name] + Names(l[1..]);
      WithoutNoMatch(l[1..], name);
    }
  }

  /** Every member's name is among the names. */
  lemma NameOfMember(l: seq<Entry>, e: Entry)
    requires e in l
    ensures e.name in Names(l)
  {
    var k :| 0 <= k < |l| && l[k] == e;
    assert Names(l)[k] == e.name;
  }

  /** A list of unique keys: its head is not repeated and its tail is unique. */
  lemma UniqueTail(keys: seq<string>)
    requires Unique(keys) && keys != []
    ensures keys[0] !in keys[1..] && Unique(keys[1..])
  {
    forall k | 0 <= k < |keys[1..]|
      ensures keys[1..][k] != keys[0]
    {
      assert keys[1..][k] == keys[k + 1];
    }
  }

  /** Names stay unique when an entry is dropped. */
  lemma {:induction false} WithoutKeepsUnique(l: seq<Entry>, name: string)
    requires Unique(Names(l))
    ensures Unique(Names(Without(l, name)))
  {
    if l != [] {
      var tail := l[1..];
      assert Names(tail) == Names(l)[1..];
      UniqueTail(Names(l));
      WithoutKeepsUnique(tail, name);
      var rest := Without(tail, name);
      if l[0].name != name {
        assert l[0].name !in Names(rest) by {
          WithoutSpec(tail, name);
          forall k | 0 <= k < |rest|
            ensures Names(rest)[k] != l[0].name
          {
            assert rest[k] in rest;
            NameOfMember(tail, rest[k]);
          }
        }
        ConsKeepsUnique(l[0], rest);
        assert Without(l, name) == [l[0]] + rest;
      } else {
        assert Without(l, name) == rest;
      }
    }
  }

  lemma ConsKeepsUnique(e: Entry, l: seq<Entry>)
    requires Unique(Names(l)) && e.name !in Names(l)
    ensures Unique(Names([e] + l))
  {
    assert Names([e] + l) == [e.name] + Names(l);
  }

  /** A name appended to a list without it is found at the end. */
  lemma FindAppended(l: seq<Entry>, e: Entry)
    requires e.name !in Names(l)
    ensures Find(l + [e], e.name) == Some(e)
  {
    assert Names(l + [e]) == Names(l) + [e.name];
    assert Names(l + [e])[..|l|] == Names(l);
  }

  /** Names stay unique when a new name is appended. */
  lemma AppendKeepsUnique(l: seq<Entry>, e: Entry)
    requires Unique(Names(l)) && e.name !in Names(l)
    ensures Unique(Names(l + [e]))
  {
    assert Names(l + [e]) == Names(l) + [e.name];
  }

  /** An id appended to an index without it is looked up at the end. */
  lemma LookupAppended(l: seq<RecordPos>, p: RecordPos)
    requires p.id !in Ids(l)
    ensures Lookup(l + [p], p.id) == Some(p)
  {
    assert Ids(l + [p]) == Ids(l) + [p.id];
    assert Ids(l + [p])[..|l|] == Ids(l);
  }

  /** Ids stay unique when a new id is appended. */
  lemma AppendKeepsUniqueIds(l: seq<RecordPos>, p: RecordPos)
    requires Unique(Ids(l)) && p.id !in Ids(l)
    ensures Unique(Ids(l + [p]))
  {
    assert Ids(l + [p]) == Ids(l) + [p.id];
  }

  /** Deleting a record drops its id, keeps every other entry, and shrinks iff one matched. */
  lemma WithoutIdSpec(l: seq<RecordPos>, id: string)
    ensures id !in Ids(WithoutId(l, id))
    ensures |WithoutId(l, id)| <= |l|
    ensures forall p :: p in WithoutId(l, id) <==> p in l && p.id != id
    ensures |WithoutId(l, id)| == |l| <==> id !in Ids(l)
  {
    WithoutIdMembers(l, id);
    WithoutIdLength(l, id);
    var w := WithoutId(l, id);
    forall k | 0 <= k < |w| ensures Ids(w)[k] != id {
      assert w[k] in w;
    }
  }

  lemma {:induction false} WithoutIdMembers(l: seq<RecordPos>, id: string)
    ensures forall p :: p in WithoutId(l, id) <==> p in l && p.id != id
  {
    if l != [] {
      var tail := l[1..];
      WithoutIdMembers(tail, id);
      assert l == [l[0]] + tail;
      forall p ensures p in WithoutId(l, id) <==> p in l && p.id != id {
        assert p in l <==> p == l[0] || p in tail;
      }
    }
  }

  lemma {:induction false} WithoutIdLength(l: seq<RecordPos>, id: string)
    ensures |WithoutId(l, id)| <= |l|
    ensures |WithoutId(l, id)| == |l| <==> id !in Ids(l)
  {
    if l != [] {
      var tail := l[1..];
      WithoutIdLength(tail, id);
      assert Ids(l) == [l[0].id] + Ids(tail);
    }
  }

  lemma {:induction false} WithoutIdAppend(a: seq<RecordPos>, b: seq<RecordPos>, id: string)
    ensures WithoutId(a + b, id) == WithoutId(a, id) + WithoutId(b, id)
  {
    if a != [] {
      assert (a + b)[1..] == a[1..] + b;
      WithoutIdAppend(a[1..], b, id);
    } else {
      assert a + b == b;
    }
  }
}
