/** The manifest as a value, and its in-place edits (crates/farewell_format/src/manifest.rs). */
module Manifests {
  import opened Bytes
  import opened Texts
  import opened Wrappers

  const CHUNK_PLAINTEXT_LEN: nat := 0x1_0000
  const MAX_NAME_LEN: nat := 255
  const MAX_FOLDER_PATH_LEN: nat := 1024
  const MAX_OWNER_LEN: nat := 256

  datatype FileEntry = FileEntry(name: Text, size: U64, chunks: seq<U32>)

  datatype Manifest = Manifest(
    counter: U64,
    entries: seq<FileEntry>,
    childSlots: seq<Byte>,
    folders: seq<Text>,
    owner: Option<Text>)

  const EMPTY: Manifest := Manifest(0, [], [], [], None)

  predicate Control(b: Byte) {
    b < 0x20 || b == 0x7F
  }

  predicate CleanText(text: seq<Byte>, longest: nat) {
    0 < |text| <= longest && forall b | b in text :: !Control(b)
  }

  predicate ValidName(name: seq<Byte>) {
    CleanText(name, MAX_NAME_LEN)
  }

  predicate ValidFolderPath(path: seq<Byte>) {
    CleanText(path, MAX_FOLDER_PATH_LEN)
  }

  function OwnerText(owner: Option<Text>): Text {
    match owner
    case None => []
    case Some(o) => o
  }

  /** u64 increment as the release build performs it: it wraps. */
  function Tick(counter: U64): U64 {
    if counter == U64_MAX then 0 else counter + 1
  }

  function Names(entries: seq<FileEntry>): set<Text> {
    set e | e in entries :: e.name
  }

  predicate UniqueNames(entries: seq<FileEntry>) {
    forall i, j | 0 <= i < j < |entries| :: entries[i].name != entries[j].name
  }

  /** First entry of that name. */
  function Find(entries: seq<FileEntry>, name: seq<Byte>): (r: Option<FileEntry>)
    ensures r.Some? ==> r.value in entries && r.value.name == name
    ensures r.None? ==> forall e | e in entries :: e.name != name
  {
    if entries == [] then None
    else if entries[0].name == name then Some(entries[0])
    else Find(entries[1..], name)
  }

  function Without(entries: seq<FileEntry>, name: seq<Byte>): (r: seq<FileEntry>)
    ensures forall e :: e in r <==> e in entries && e.name != name
  {
    if entries == [] then []
    else (if entries[0].name == name then [] else [entries[0]]) + Without(entries[1..], name)
  }

  function RemoveFirst(entries: seq<FileEntry>, name: seq<Byte>): seq<FileEntry> {
    if entries == [] then []
    else if entries[0].name == name then entries[1..]
    else [entries[0]] + RemoveFirst(entries[1..], name)
  }

  function Upserted(m: Manifest, e: FileEntry): Manifest {
    m.(entries := Without(m.entries, e.name) + [e], counter := Tick(m.counter))
  }

  function Removed(m: Manifest, name: seq<Byte>): Manifest {
    if Find(m.entries, name).Some?
    then m.(entries := RemoveFirst(m.entries, name), counter := Tick(m.counter))
    else m
  }

  lemma UniqueTail(entries: seq<FileEntry>)
    requires UniqueNames(entries) && entries != []
    ensures UniqueNames(entries[1..]) && forall e | e in entries[1..] :: e.name != entries[0].name
  {
    var tail := entries[1..];
    assert forall i | 0 <= i < |tail| :: tail[i] == entries[i + 1];
    forall e | e in tail ensures e.name != entries[0].name {
      var k :| 0 <= k < |tail| && tail[k] == e;
      assert entries[k + 1] == e;
    }
  }

  lemma {:induction false} WithoutUnique(entries: seq<FileEntry>, name: seq<Byte>)
    requires UniqueNames(entries)
    ensures UniqueNames(Without(entries, name))
  {
    if entries != [] {
      UniqueTail(entries);
      WithoutUnique(entries[1..], name);
      var rest := Without(entries[1..], name);
      assert forall i | 0 <= i < |rest| :: rest[i] in entries[1..];
    }
  }

  lemma {:induction false} WithoutAbsent(entries: seq<FileEntry>, name: seq<Byte>)
    requires forall e | e in entries :: e.name != name
    ensures Without(entries, name) == entries
  {
    if entries != [] {
      WithoutAbsent(entries[1..], name);
    }
  }

  lemma {:induction false} RemoveFirstIsWithout(entries: seq<FileEntry>, name: seq<Byte>)
    requires UniqueNames(entries)
    ensures RemoveFirst(entries, name) == Without(entries, name)
  {
    if entries != [] {
      hide UniqueNames;
      UniqueTail(entries);
      if entries[0].name == name {
        WithoutAbsent(entries[1..], name);
      } else {
        RemoveFirstIsWithout(entries[1..], name);
      }
    }
  }

  /** In a manifest with unique names, an entry is what a lookup of its name returns. */
  lemma {:induction false} FindUnique(entries: seq<FileEntry>, e: FileEntry)
    requires UniqueNames(entries) && e in entries
    ensures Find(entries, e.name) == Some(e)
  {
    if entries[0] != e {
      UniqueTail(entries);
      FindUnique(entries[1..], e);
    }
  }

  lemma UniqueSnoc(entries: seq<FileEntry>, e: FileEntry)
    requires UniqueNames(entries) && forall f | f in entries :: f.name != e.name
    ensures UniqueNames(entries + [e])
  {
    forall i, j | 0 <= i < j < |entries + [e]| ensures (entries + [e])[i].name != (entries + [e])[j].name {
      assert entries[i] in entries;
    }
  }

  // ---- what a lookup sees of an edit ----

  lemma {:induction false} FindSnoc(entries: seq<FileEntry>, e: FileEntry, name: seq<Byte>)
    ensures Find(entries + [e], name) ==
            if Find(entries, name).Some? then Find(entries, name) else if e.name == name then Some(e) else None
  {
    if entries != [] {
      assert (entries + [e])[1..] == entries[1..] + [e];
      FindSnoc(entries[1..], e, name);
    }
  }

  lemma {:induction false} FindWithout(entries: seq<FileEntry>, gone: seq<Byte>, name: seq<Byte>)
    ensures Find(Without(entries, gone), name) == if name == gone then None else Find(entries, name)
  {
    if entries != [] {
      FindWithout(entries[1..], gone, name);
      if entries[0].name == gone {
        assert Without(entries, gone) == Without(entries[1..], gone);
      } else {
        assert Without(entries, gone)[1..] == Without(entries[1..], gone);
      }
    }
  }

  /** After an upsert its name yields the new entry, every other name what it yielded before,
      and names stay unique. */
  lemma UpsertedFinds(m: Manifest, e: FileEntry, name: seq<Byte>)
    ensures Find(Upserted(m, e).entries, name) == if name == e.name then Some(e) else Find(m.entries, name)
    ensures UniqueNames(m.entries) ==> UniqueNames(Upserted(m, e).entries)
  {
    FindWithout(m.entries, e.name, name);
    FindSnoc(Without(m.entries, e.name), e, name);
    if UniqueNames(m.entries) {
      WithoutUnique(m.entries, e.name);
      UniqueSnoc(Without(m.entries, e.name), e);
    }
  }

  /** With unique names, a removal hides its name and no other, and names stay unique; an
      upsert of the removed entry then makes every name yield what it yielded before. */
  lemma RemovedFinds(m: Manifest, gone: seq<Byte>, name: seq<Byte>)
    requires UniqueNames(m.entries)
    ensures Find(Removed(m, gone).entries, name) == if name == gone then None else Find(m.entries, name)
    ensures UniqueNames(Removed(m, gone).entries)
    ensures Find(m.entries, gone).Some? ==>
              Find(Upserted(Removed(m, gone), Find(m.entries, gone).value).entries, name) == Find(m.entries, name)
  {
    RemoveFirstIsWithout(m.entries, gone);
    FindWithout(m.entries, gone, name);
    WithoutUnique(m.entries, gone);
    if Find(m.entries, gone).Some? {
      UpsertedFinds(Removed(m, gone), Find(m.entries, gone).value, name);
    }
  }
}
