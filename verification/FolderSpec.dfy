/** What the folder operations need from, and leave on, the disk. */
module FolderSpec {
  import opened Bytes
  import opened Texts
  import opened Wrappers
  import opened Codecs
  import opened Manifests
  import opened ManifestCodec
  import opened Chunks
  import opened Store
  import opened VaultSpec
  import opened RenameSpec
  import opened TruncateSpec
  import opened Paths
  import opened Folders

  // ---- creating ----

  function FolderAdded(m: Manifest, folder: Text): Manifest {
    m.(folders := m.folders + [folder], counter := Tick(m.counter))
  }

  function CreateFolderRefusal(m: Manifest, poisoned: bool, path: Text): Option<FormatError> {
    if poisoned then Some(SessionPoisoned)
    else
      match Normalized(path)
      case None => Some(InvalidName)
      case Some(folder) =>
        if !ValidFolderPath(folder) then Some(InvalidName)
        else if folder in m.folders then None
        else if |Print(FolderAdded(m, folder))| > CHUNK_PLAINTEXT_LEN then Some(ManifestOverflow)
        else None
  }

  function DeleteFolderRefusal(poisoned: bool, path: Text): Option<FormatError> {
    if poisoned then Some(SessionPoisoned)
    else
      match Normalized(path)
      case None => Some(InvalidName)
      case Some(folder) => if ValidFolderPath(folder) then None else Some(InvalidName)
  }

  lemma FolderAddedReady(geo: Geometry, m: Manifest, folder: Text)
    requires Publishable(geo, m) && ValidFolderPath(folder)
    ensures Serialized(FolderAdded(m, folder))
         == if |Print(FolderAdded(m, folder))| > CHUNK_PLAINTEXT_LEN then Failure(ManifestOverflow)
            else Success(Print(FolderAdded(m, folder)))
    ensures Layout(geo, FolderAdded(m, folder).entries) && Canonical(FolderAdded(m, folder))
  {}

  lemma NothingToShed(geo: Geometry, entries: seq<FileEntry>)
    ensures Sheddable(geo, [], entries, {})
  {}

  // ---- deleting ----

  function UnderNames(entries: seq<FileEntry>, folder: Text): (r: seq<Text>)
    ensures forall n :: n in r <==> n in Names(entries) && Under(n, folder)
  {
    if entries == [] then []
    else (if Under(entries[0].name, folder) then [entries[0].name] else []) + UnderNames(entries[1..], folder)
  }

  function Retained(folders: seq<Text>, folder: Text): (r: seq<Text>)
    ensures forall f :: f in r <==> f in folders && f != folder && !Under(f, folder)
  {
    if folders == [] then []
    else (if folders[0] == folder || Under(folders[0], folder) then [] else [folders[0]]) + Retained(folders[1..], folder)
  }

  lemma {:induction false} RetainedShorter(folders: seq<Text>, folder: Text)
    ensures |PrintAll(PrintFolder, Retained(folders, folder))| <= |PrintAll(PrintFolder, folders)|
  {
    if folders != [] {
      RetainedShorter(folders[1..], folder);
      if folders[0] == folder || Under(folders[0], folder) {
        assert Retained(folders, folder) == Retained(folders[1..], folder);
      } else {
        assert Retained(folders, folder)[1..] == Retained(folders[1..], folder);
      }
    }
  }

  function TouchedBy(entries: seq<FileEntry>, folder: Text): set<Text> {
    set e | e in entries && Under(e.name, folder) :: e.name
  }

  /** Entries of m whose names are not among the first i of `names`. */
  ghost predicate Surviving(entries: seq<FileEntry>, left: seq<FileEntry>, names: seq<Text>) {
    forall e :: e in left <==> e in entries && e.name !in names
  }

  /** `victims` lists exactly the chunks of the removed entries. */
  ghost predicate Collected(entries: seq<FileEntry>, names: seq<Text>, victims: seq<U32>) {
    forall c :: c in victims <==> exists e | e in entries :: e.name in names && c in e.chunks
  }

  lemma RemoveOne(geo: Geometry, m0: Manifest, m: Manifest, names: seq<Text>, name: Text, victims: seq<U32>)
    requires Publishable(geo, m0) && Publishable(geo, m)
    requires Surviving(m0.entries, m.entries, names) && Collected(m0.entries, names, victims)
    ensures Publishable(geo, Removed(m, name))
    ensures Surviving(m0.entries, Removed(m, name).entries, names + [name])
    ensures Collected(m0.entries, names + [name], victims + ChunkList(m.entries, name))
    ensures Removed(m, name).folders == m.folders
    ensures Removed(m, name).owner == m.owner && Removed(m, name).childSlots == m.childSlots
    ensures m.counter == Removed(m, name).counter || Removed(m, name).counter == Tick(m.counter)
  {
    hide Layout, Serialized, Canonical;
    RemovedSerializes(geo, m, name);
    assert forall n :: n in names + [name] <==> n in names || n == name;
    var more := ChunkList(m.entries, name);
    forall c ensures c in victims + more <==> exists e | e in m0.entries :: e.name in names + [name] && c in e.chunks {
      if e :| e in m0.entries && e.name in names + [name] && c in e.chunks {
        if e.name !in names {
          assert e in m.entries;
          PublishedLayout(geo, m);
          LayoutUnique(geo, m.entries);
          FindUnique(m.entries, e);
        }
      }
    }
  }

  lemma DeletedIsPublishable(geo: Geometry, m: Manifest, folder: Text)
    requires Publishable(geo, m)
    ensures Publishable(geo, m.(folders := Retained(m.folders, folder), counter := Tick(m.counter)))
  {
    RetainedShorter(m.folders, folder);
    assert |Retained(m.folders, folder)| >= 0;
  }

  function Spared(files: Files, folder: Text): Files {
    map n | n in files && !Under(n, folder) :: files[n]
  }

  lemma DeleteFolderReady(geo: Geometry, disk: seq<Cell>, m0: Manifest, files: Files, m1: Manifest, folder: Text,
                          names: seq<Text>, victims: seq<U32>)
    requires geo.home < geo.total == |disk|
    requires Publishable(geo, m0) && Publishable(geo, m1) && Keeps(geo, disk, m0.entries, files)
    requires forall n :: n in names <==> n in Names(m0.entries) && Under(n, folder)
    requires Surviving(m0.entries, m1.entries, names) && Collected(m0.entries, names, victims)
    ensures Keeps(geo, disk, m1.entries, Spared(files, folder))
    ensures Sheddable(geo, victims, m0.entries, TouchedBy(m0.entries, folder))
    ensures Sheddable(geo, victims, m1.entries, {})
    ensures files.Keys == Names(m0.entries) ==> Spared(files, folder).Keys == Names(m1.entries)
    ensures forall e :: e in m1.entries <==> e in m0.entries && !Under(e.name, folder)
    ensures files - TouchedBy(m0.entries, folder) == Spared(files, folder)
  {
    hide Holds, Serialized, Canonical;
    forall e | e in m0.entries ensures e.name in names <==> Under(e.name, folder) {
      assert e.name in Names(m0.entries);
    }
    forall c | c in victims ensures c < geo.total && c != geo.home {
      var e :| e in m0.entries && e.name in names && c in e.chunks;
      assert Placed(geo, e.chunks);
    }
    forall e | e in m0.entries && !Under(e.name, folder) ensures Disjoint(e.chunks, victims) {
      forall f | f in m0.entries && f.name in names ensures Disjoint(e.chunks, f.chunks) {
        assert e.name != f.name;
      }
    }
    SparedNames(m0.entries, m1.entries, files, folder);
  }

  lemma SparedNames(before: seq<FileEntry>, after: seq<FileEntry>, files: Files, folder: Text)
    requires forall e :: e in after <==> e in before && !Under(e.name, folder)
    requires files.Keys <= Names(before)
    ensures Spared(files, folder).Keys <= Names(after)
    ensures files.Keys == Names(before) ==> Spared(files, folder).Keys == Names(after)
    ensures files - TouchedBy(before, folder) == Spared(files, folder)
  {
    forall n | n in Spared(files, folder) ensures n in Names(after) {
      assert n in Names(before);
      var e :| e in before && e.name == n;
      assert e in after;
    }
    forall n | n in files ensures n in TouchedBy(before, folder) <==> Under(n, folder) {
      assert n in Names(before);
      var e :| e in before && e.name == n;
    }
  }

  lemma NothingRemoved(entries: seq<FileEntry>)
    ensures Surviving(entries, entries, []) && Collected(entries, [], [])
  {}

  lemma PublishableSerializes(geo: Geometry, m: Manifest)
    requires Publishable(geo, m)
    ensures Serialized(m).Success?
  {}

  lemma SparedTwice(entries: seq<FileEntry>, files: Files, folder: Text)
    requires files.Keys <= Names(entries)
    ensures files - TouchedBy(entries, folder) == Spared(files, folder)
    ensures Spared(files, folder) - TouchedBy(entries, folder) == Spared(files, folder)
  {
    forall n | n in files ensures n in TouchedBy(entries, folder) <==> Under(n, folder) {
      assert n in Names(entries);
      var e :| e in entries && e.name == n;
    }
  }

  /** Every chunk of every file under the folder holds noise. */
  ghost predicate UnderShredded(entries: seq<FileEntry>, folder: Text, disk: seq<Cell>) {
    forall e | e in entries && Under(e.name, folder) :: forall c | c in e.chunks :: c < |disk| && disk[c] == Noise
  }

  lemma VictimsCovered(entries: seq<FileEntry>, names: seq<Text>, victims: seq<U32>, folder: Text, disk: seq<Cell>)
    requires forall n :: n in names <==> n in Names(entries) && Under(n, folder)
    requires Collected(entries, names, victims)
    requires forall c | c in victims :: c < |disk| && disk[c] == Noise
    ensures UnderShredded(entries, folder, disk)
  {
    forall e | e in entries && Under(e.name, folder) ensures forall c | c in e.chunks :: c in victims {
      assert e.name in Names(entries);
    }
  }

  lemma KeysAreNames(geo: Geometry, disk: seq<Cell>, entries: seq<FileEntry>, files: Files)
    requires Keeps(geo, disk, entries, files)
    ensures files.Keys <= Names(entries)
  {}

  lemma ShedInRange(geo: Geometry, shred: seq<U32>, entries: seq<FileEntry>, touched: set<Text>)
    requires Sheddable(geo, shred, entries, touched)
    ensures forall c | c in shred :: c < geo.total
  {}

  /** Exactly the files outside the folder and the explicit folders outside it remain. */
  ghost predicate FolderDeleted(m0: Manifest, m1: Manifest, folder: Text) {
    && (forall e :: e in m1.entries <==> e in m0.entries && !Under(e.name, folder))
    && m1.folders == Retained(m0.folders, folder)
    && m1.owner == m0.owner && m1.childSlots == m0.childSlots
  }

  /** f lies at or below the folder once redundant slashes are dropped. */
  predicate Reaches(f: seq<Byte>, folder: seq<Byte>) {
    Components(folder) <= Components(f)
  }

  /** A surviving name or explicit folder that keeps the deleted folder reported. */
  ghost predicate KeepsReported(m: Manifest, folder: seq<Byte>) {
    || (exists f | f in m.folders :: Reaches(f, folder))
    || (exists e | e in m.entries :: ParentFolder(e.name).Some? && Reaches(ParentFolder(e.name).value, folder))
  }

  predicate AtOrBelow(p: seq<Byte>, folder: seq<Byte>) {
    p == folder || Under(p, folder)
  }

  /** No folder at or below a normalized one is reported exactly when, slashes tidied, no
      explicit folder and no file's parent lies there. */
  lemma GoneIff(m: Manifest, folder: Text)
    requires Tidy(folder) && Components(folder) != []
    ensures (forall p | p in FolderSet(m) :: !AtOrBelow(p, folder)) <==> !KeepsReported(m, folder)
  {
    hide Components, Join, FolderSet, AtOrBelow, Reaches;
    if KeepsReported(m, folder) {
      ReachedIsReported(m, folder);
    }
    forall p | p in FolderSet(m) && AtOrBelow(p, folder)
      ensures KeepsReported(m, folder)
    {
      ReportedReaches(m, folder, p);
    }
  }

  lemma ReachedIsReported(m: Manifest, folder: Text)
    requires Tidy(folder) && Components(folder) != [] && KeepsReported(m, folder)
    ensures folder in FolderSet(m) && AtOrBelow(folder, folder)
  {
    hide Components, Join, FolderSet;
    FolderSetIsClosure(m, folder);
    if f :| f in m.folders && Reaches(f, folder) {
      assert AtOrAbove(folder, f);
    } else {
      var e :| e in m.entries && ParentFolder(e.name).Some? && Reaches(ParentFolder(e.name).value, folder);
      assert AtOrAbove(folder, ParentFolder(e.name).value);
    }
  }

  lemma ReportedReaches(m: Manifest, folder: Text, p: seq<Byte>)
    requires p in FolderSet(m) && AtOrBelow(p, folder)
    ensures KeepsReported(m, folder)
  {
    hide Components, Join, FolderSet;
    BelowReaches(p, folder);
    FolderSetIsClosure(m, p);
    if f :| f in m.folders && AtOrAbove(p, f) {
      assert Reaches(f, folder);
    } else {
      var e :| e in m.entries && ParentFolder(e.name).Some? && AtOrAbove(p, ParentFolder(e.name).value);
      assert Reaches(ParentFolder(e.name).value, folder);
    }
  }

  lemma BelowReaches(p: seq<Byte>, folder: seq<Byte>)
    requires AtOrBelow(p, folder)
    ensures Reaches(p, folder)
  {
    hide Components, Join;
    if p != folder {
      var rest := p[|folder| + 1..];
      assert p == folder + [SLASH] + rest;
      ComponentsSplit(folder, rest);
    }
  }

  lemma ReachesIsBelow(f: seq<Byte>, folder: seq<Byte>)
    requires Tidy(f) && Tidy(folder) && Components(folder) != [] && Reaches(f, folder)
    ensures AtOrBelow(f, folder)
  {
    hide Components, Join;
    var a, all := Components(folder), Components(f);
    if a != all {
      var b := all[|a|..];
      assert a + b == all;
      JoinSplit(a, b);
    }
  }

  /** Something a deletion of the folder would spare although, slashes tidied, it lies there. */
  ghost predicate Spares(m: Manifest, folder: Text) {
    || (exists f | f in m.folders :: !AtOrBelow(f, folder) && Reaches(f, folder))
    || (exists e | e in m.entries ::
          !Under(e.name, folder) && ParentFolder(e.name).Some? && Reaches(ParentFolder(e.name).value, folder))
  }

  /** Whether deleting a folder removes it, told from the manifest before the call: nothing at or
      below it is reported afterwards exactly when nothing there is spared. */
  lemma DeletionRemovesIff(m0: Manifest, m1: Manifest, folder: Text)
    requires FolderDeleted(m0, m1, folder)
    requires Tidy(folder) && Components(folder) != []
    ensures (forall p | p in FolderSet(m1) :: !AtOrBelow(p, folder)) <==> !Spares(m0, folder)
  {
    hide Components, Join, FolderSet, Under, Reaches;
    GoneIff(m1, folder);
    if KeepsReported(m1, folder) {
      if f :| f in m1.folders && Reaches(f, folder) {
        assert f in m0.folders && !AtOrBelow(f, folder);
      } else {
        var e :| e in m1.entries && ParentFolder(e.name).Some? && Reaches(ParentFolder(e.name).value, folder);
        assert e in m0.entries && !Under(e.name, folder);
      }
    }
    if Spares(m0, folder) {
      if f :| f in m0.folders && !AtOrBelow(f, folder) && Reaches(f, folder) {
        assert f in m1.folders;
      } else {
        var e :| e in m0.entries && !Under(e.name, folder) && ParentFolder(e.name).Some?
                 && Reaches(ParentFolder(e.name).value, folder);
        assert e in m1.entries;
      }
    }
  }

  /** Every name has its slashes in order, as the application's own paths do. */
  predicate Orderly(m: Manifest) {
    && (forall f | f in m.folders :: Tidy(f))
    && (forall e | e in m.entries && ParentFolder(e.name).Some? :: Tidy(ParentFolder(e.name).value))
  }

  /** With orderly names a deleted folder leaves no file and no folder at or below it, and
      every other file and explicit folder stays. */
  lemma DeletedFolderIsGone(m0: Manifest, m1: Manifest, folder: Text)
    requires FolderDeleted(m0, m1, folder) && Orderly(m0)
    requires Tidy(folder) && Components(folder) != []
    ensures forall p | p in FolderSet(m1) :: !AtOrBelow(p, folder)
    ensures forall e | e in m1.entries :: !Under(e.name, folder)
    ensures forall e | e in m0.entries && !Under(e.name, folder) :: e in m1.entries
    ensures forall f | f in m0.folders && !AtOrBelow(f, folder) :: f in m1.folders
  {
    hide Components, Join, FolderSet, Under, Reaches;
    forall f | f in m0.folders && Reaches(f, folder) ensures AtOrBelow(f, folder) {
      ReachesIsBelow(f, folder);
    }
    forall e | e in m0.entries && ParentFolder(e.name).Some? && Reaches(ParentFolder(e.name).value, folder)
      ensures Under(e.name, folder)
    {
      ReachesIsBelow(ParentFolder(e.name).value, folder);
      ParentBelow(e.name, folder);
    }
    DeletionRemovesIff(m0, m1, folder);
  }

  lemma ParentBelow(name: seq<Byte>, folder: seq<Byte>)
    requires ParentFolder(name).Some? && AtOrBelow(ParentFolder(name).value, folder)
    ensures Under(name, folder)
  {
    var i := LastSlash(name);
    assert name[..i + 1] == name[..i] + [SLASH];
  }

  const UNTIDY := FileEntry([0x2F, 0x61, 0x2F, 0x78], 0, [])

  /** With the name "/a/x" the folder "a" is still reported after it was deleted. */
  lemma UntidyNameKeepsFolder(m: Manifest)
    requires m.entries == [UNTIDY] && m.folders == []
    ensures FolderDeleted(m, m, [0x61]) && Spares(m, [0x61]) && [0x61] in FolderSet(m)
  {
    hide FolderSet, Components, Under, ParentFolder;
    UntidyParent();
    UntidyIsReported(m);
    assert UNTIDY in m.entries;
  }

  lemma UntidyIsReported(m: Manifest)
    requires UNTIDY in m.entries
    ensures [0x61] in FolderSet(m)
  {
    hide FolderSet, Components, ParentFolder;
    UntidyParent();
    FolderSetIsClosure(m, [0x61]);
    assert AtOrAbove([0x61], ParentFolder(UNTIDY.name).value);
  }

  lemma UntidyParent()
    ensures !Under(UNTIDY.name, [0x61])
    ensures ParentFolder(UNTIDY.name) == Some([0x2F, 0x61])
    ensures Components([0x61]) == [[0x61]] == Components([0x2F, 0x61])
  {
    var folder: seq<Byte> := [0x61];
    var parent: seq<Byte> := [0x2F, 0x61];
    assert Prefix(folder)[0] == 0x61;
    assert Components(folder) == [folder] by {
      FirstSlashAt(folder, []);
      assert folder[..1] == folder;
    }
    assert parent[1..] == folder;
    assert UNTIDY.name[..3] == [0x2F, 0x61, 0x2F];
    assert LastSlash(UNTIDY.name[..3]) == 2;
    assert UNTIDY.name[..2] == parent;
  }

  // ---- renaming ----

  function RenameFolderRefusal(m: Manifest, poisoned: bool, from: Text, to: Text): Option<FormatError> {
    if poisoned then Some(SessionPoisoned)
    else if Normalized(from).None? || Normalized(to).None? then Some(InvalidName)
    else
      var f, t := Normalized(from).value, Normalized(to).value;
      if !ValidFolderPath(t) then Some(InvalidName)
      else if f == t then None
      else if Collides(m.entries, f, t) then Some(BadManifest("rename would overwrite"))
      else if !MovedNamesValid(m, f, t) then Some(InvalidName)
      else if |Print(FolderRenamed(m, f, t))| > CHUNK_PLAINTEXT_LEN then Some(ManifestOverflow)
      else None
  }

  predicate MovedNamesValid(m: Manifest, from: Text, to: Text) {
    && (forall e | e in m.entries && Under(e.name, from) :: ValidName(Moved(e.name, from, to)))
    && (forall f | f in m.folders && f != from && Under(f, from) :: ValidFolderPath(Moved(f, from, to)))
  }

  /** Where a path at or below f lies after f was renamed to t. */
  function Relocated(p: seq<Byte>, f: seq<Byte>, t: seq<Byte>): seq<Byte>
    requires |f| <= |p|
  {
    t + p[|f|..]
  }

  /** A rename relocates every explicit folder at or below f, f itself included, and every file
      below it, and leaves every other one where it is. */
  lemma RenameRelocates(m: Manifest, f: Text, t: Text, i: nat)
    ensures var r := FolderRenamed(m, f, t);
            && |r.folders| == |m.folders| && |r.entries| == |m.entries|
            && (i < |m.folders| ==>
                  r.folders[i] == if AtOrBelow(m.folders[i], f) then Relocated(m.folders[i], f, t) else m.folders[i])
            && (i < |m.entries| ==>
                  r.entries[i].name
                  == if Under(m.entries[i].name, f) then Relocated(m.entries[i].name, f, t) else m.entries[i].name)
  {
    if i < |m.folders| {
      MovedIsRelocated(m.folders[i], f, t);
    }
    if i < |m.entries| {
      MovedIsRelocated(m.entries[i].name, f, t);
    }
  }

  lemma MovedIsRelocated(p: Text, f: Text, t: Text)
    ensures Under(p, f) ==> Moved(p, f, t) == Relocated(p, f, t)
    ensures !Under(p, f) ==> Moved(p, f, t) == p
    ensures MovedFolder(p, f, t) == if AtOrBelow(p, f) then Relocated(p, f, t) else p
  {
    if Under(p, f) {
      assert p[|f|..] == [SLASH] + p[|f| + 1..];
    }
    if p == f {
      assert Relocated(p, f, t) == t;
    }
  }

  /** The old path is explicit afterwards only if some folder below it was moved onto it. */
  lemma OldPathIsFreed(m: Manifest, f: Text, t: Text)
    requires f != t
    ensures f in FolderRenamed(m, f, t).folders <==>
            exists p | p in m.folders :: Under(p, f) && Relocated(p, f, t) == f
  {
    hide FolderRenamed;
    var r := FolderRenamed(m, f, t);
    RenameRelocates(m, f, t, 0);
    forall i | 0 <= i < |m.folders|
      ensures r.folders[i] == f <==> Under(m.folders[i], f) && Relocated(m.folders[i], f, t) == f
    {
      RenameRelocates(m, f, t, i);
      if m.folders[i] == f {
        assert Relocated(f, f, t) == t;
      }
    }
    forall p | p in m.folders && Under(p, f) && Relocated(p, f, t) == f ensures f in r.folders {
      var i :| 0 <= i < |m.folders| && m.folders[i] == p;
    }
  }

  /** What lies at or below f lies at or below t afterwards, one to one. */
  lemma RelocatedIsBelow(p: seq<Byte>, q: seq<Byte>, f: seq<Byte>, t: seq<Byte>)
    requires Tidy(f) && Components(f) != [] && Tidy(t) && Components(t) != []
    requires AtOrBelow(q, f) && AtOrBelow(p, q) && Tidy(q)
    ensures |f| <= |q| && |f| <= |p| && AtOrAbove(Relocated(q, f, t), Relocated(p, f, t))
  {
    hide Components, Join, Relocated, Tidy;
    BelowReaches(q, f);
    BelowReaches(p, q);
    BelowTwice(p, q, f);
    RelocatedComponents(q, f, t);
    RelocatedComponents(p, f, t);
    RelocatedIsTidy(q, f, t);
    SameRests(Components(f), Components(q), Components(p), Components(t));
  }

  lemma SameRests(a: seq<seq<Byte>>, b: seq<seq<Byte>>, c: seq<seq<Byte>>, t: seq<seq<Byte>>)
    requires a <= b <= c
    ensures t + b[|a|..] <= t + c[|a|..]
  {}

  lemma RelocatedIsTidy(q: seq<Byte>, f: seq<Byte>, t: seq<Byte>)
    requires Tidy(f) && Components(f) != [] && Tidy(t) && Components(t) != []
    requires AtOrBelow(q, f) && Tidy(q)
    ensures Tidy(Relocated(q, f, t))
  {
    hide Components, Join;
    RelocatedComponents(q, f, t);
    var b := Components(q)[|Components(f)|..];
    assert Components(f) + b == Components(q);
    if b == [] {
      assert Components(q) == Components(f) && q == f;
      assert Relocated(q, f, t) == t;
    } else {
      JoinSplit(Components(f), b);
      JoinSplit(Components(t), b);
      assert q == f + [SLASH] + Join(b);
      assert q[|f|..] == [SLASH] + Join(b);
      assert Relocated(q, f, t) == t + [SLASH] + Join(b);
    }
  }

  /** The components below f, put below t. */
  lemma RelocatedComponents(p: seq<Byte>, f: seq<Byte>, t: seq<Byte>)
    requires AtOrBelow(p, f)
    ensures Components(f) <= Components(p)
    ensures Components(Relocated(p, f, t)) == Components(t) + Components(p)[|Components(f)|..]
  {
    hide Components, Join;
    if p == f {
      assert Relocated(p, f, t) == t;
      assert Components(p)[|Components(f)|..] == [];
    } else {
      var rest := p[|f| + 1..];
      assert p == f + [SLASH] + rest;
      assert Relocated(p, f, t) == t + [SLASH] + rest;
      ComponentsSplit(f, rest);
      ComponentsSplit(t, rest);
    }
  }

  /** With orderly names, every folder reported at or below the old path is reported at its new
      place afterwards. */
  lemma ReportedFollows(m: Manifest, f: Text, t: Text, q: seq<Byte>)
    requires Tidy(f) && Components(f) != [] && Tidy(t) && Components(t) != []
    requires Orderly(m) && q in FolderSet(m) && AtOrBelow(q, f)
    ensures |f| <= |q| && Relocated(q, f, t) in FolderSet(FolderRenamed(m, f, t))
  {
    hide Components, Join, FolderSet, FolderRenamed;
    var r := FolderRenamed(m, f, t);
    FolderSetIsClosure(m, q);
    FolderSetIsClosure(r, Relocated(q, f, t));
    BelowReaches(q, f);
    if g :| g in m.folders && AtOrAbove(q, g) {
      var i :| 0 <= i < |m.folders| && m.folders[i] == g;
      ReachesIsBelow(g, q);
      BelowTwice(g, q, f);
      RenameRelocates(m, f, t, i);
      RelocatedIsBelow(g, q, f, t);
      assert r.folders[i] in r.folders;
    } else {
      var e :| e in m.entries && ParentFolder(e.name).Some? && AtOrAbove(q, ParentFolder(e.name).value);
      var i :| 0 <= i < |m.entries| && m.entries[i] == e;
      var parent := ParentFolder(e.name).value;
      ReachesIsBelow(parent, q);
      BelowTwice(parent, q, f);
      ParentBelow(e.name, f);
      RenameRelocates(m, f, t, i);
      ParentRelocated(e.name, f, t);
      RelocatedIsBelow(parent, q, f, t);
      assert r.entries[i] in r.entries;
    }
  }

  lemma BelowTwice(p: seq<Byte>, q: seq<Byte>, f: seq<Byte>)
    requires AtOrBelow(p, q) && AtOrBelow(q, f)
    ensures AtOrBelow(p, f)
  {}

  /** The parent of a relocated name is the relocated parent. */
  lemma ParentRelocated(name: seq<Byte>, f: seq<Byte>, t: seq<Byte>)
    requires Under(name, f)
    ensures ParentFolder(name).Some? && |f| <= |ParentFolder(name).value| && AtOrBelow(ParentFolder(name).value, f)
    ensures ParentFolder(Relocated(name, f, t)) == Some(Relocated(ParentFolder(name).value, f, t))
  {
    var rest := name[|f|..];
    assert name == f + rest && rest[0] == SLASH;
    LastSlashOfTail(f, rest);
    LastSlashOfTail(t, rest);
    var i := LastSlash(rest);
    assert name[..|f| + i] == f + rest[..i];
    assert (t + rest)[..|t| + i] == t + rest[..i];
    assert rest[..i] == (f + rest[..i])[|f|..];
    assert i > 0 ==> rest[..i] == [SLASH] + rest[1..i];
  }

  lemma {:induction false} LastSlashOfTail(a: seq<Byte>, b: seq<Byte>)
    requires SLASH in b
    ensures LastSlash(b) >= 0 && LastSlash(a + b) == |a| + LastSlash(b)
    decreases |b|
  {
    var n := |b| - 1;
    assert (a + b)[..|a + b| - 1] == a + b[..n];
    if b[n] != SLASH {
      assert b == b[..n] + [b[n]];
      LastSlashOfTail(a, b[..n]);
    }
  }

  /** Whatever the names look like: the new path is reported afterwards exactly when something
      explicit lies at or below the old one, a file lies below it, or something that stays
      has it reported. */
  lemma NewPathIsReportedIff(m: Manifest, f: Text, t: Text)
    requires Tidy(f) && Components(f) != [] && Tidy(t) && Components(t) != []
    ensures t in FolderSet(FolderRenamed(m, f, t)) <==>
            || (exists p | p in m.folders :: AtOrBelow(p, f) || AtOrAbove(t, p))
            || (exists e | e in m.entries ::
                  Under(e.name, f) || (ParentFolder(e.name).Some? && AtOrAbove(t, ParentFolder(e.name).value)))
  {
    hide Components, Join, FolderSet, FolderRenamed, Under, AtOrBelow, AtOrAbove, ParentFolder;
    var r := FolderRenamed(m, f, t);
    FolderSetIsClosure(r, t);
    RenameRelocates(m, f, t, 0);
    forall i | 0 <= i < |m.folders|
      ensures AtOrAbove(t, r.folders[i]) <==> AtOrBelow(m.folders[i], f) || AtOrAbove(t, m.folders[i])
    {
      RenameRelocates(m, f, t, i);
      if AtOrBelow(m.folders[i], f) {
        RelocatedTop(m.folders[i], f, t);
      }
    }
    forall i | 0 <= i < |m.entries|
      ensures AboveParent(t, r.entries[i].name) <==> Under(m.entries[i].name, f) || AboveParent(t, m.entries[i].name)
    {
      RenameRelocates(m, f, t, i);
      if Under(m.entries[i].name, f) {
        ParentRelocated(m.entries[i].name, f, t);
        RelocatedTop(ParentFolder(m.entries[i].name).value, f, t);
      }
    }
    SomeFolder(m.folders, r.folders, f, t);
    SomeEntry(m.entries, r.entries, f, t);
  }

  predicate AboveParent(p: seq<Byte>, name: seq<Byte>) {
    ParentFolder(name).Some? && AtOrAbove(p, ParentFolder(name).value)
  }

  lemma RelocatedTop(p: seq<Byte>, f: seq<Byte>, t: seq<Byte>)
    requires AtOrBelow(p, f) && Tidy(t) && Components(t) != []
    ensures |f| <= |p| && AtOrAbove(t, Relocated(p, f, t))
  {
    hide Components, Join;
    RelocatedComponents(p, f, t);
  }

  lemma SomeFolder(folders: seq<Text>, after: seq<Text>, f: Text, t: Text)
    requires |after| == |folders|
    requires forall i | 0 <= i < |folders| :: AtOrAbove(t, after[i]) <==> AtOrBelow(folders[i], f) || AtOrAbove(t, folders[i])
    ensures (exists p | p in after :: AtOrAbove(t, p)) <==> exists p | p in folders :: AtOrBelow(p, f) || AtOrAbove(t, p)
  {
    hide AtOrAbove, AtOrBelow;
    if p :| p in after && AtOrAbove(t, p) {
      var i :| 0 <= i < |after| && after[i] == p;
      assert folders[i] in folders;
    }
    if p :| p in folders && (AtOrBelow(p, f) || AtOrAbove(t, p)) {
      var i :| 0 <= i < |folders| && folders[i] == p;
      assert after[i] in after;
    }
  }

  lemma SomeEntry(entries: seq<FileEntry>, after: seq<FileEntry>, f: Text, t: Text)
    requires |after| == |entries|
    requires forall i | 0 <= i < |entries| ::
               AboveParent(t, after[i].name) <==> Under(entries[i].name, f) || AboveParent(t, entries[i].name)
    ensures (exists e | e in after :: AboveParent(t, e.name))
       <==> exists e | e in entries :: Under(e.name, f) || AboveParent(t, e.name)
  {
    hide AboveParent, Under;
    if e :| e in after && AboveParent(t, e.name) {
      var i :| 0 <= i < |after| && after[i] == e;
      assert entries[i] in entries;
    }
    if e :| e in entries && (Under(e.name, f) || AboveParent(t, e.name)) {
      var i :| 0 <= i < |entries| && entries[i] == e;
      assert after[i] in after;
    }
  }

  /** With orderly names the new path is reported if the old one was. */
  lemma RenamedIsReported(m: Manifest, f: Text, t: Text)
    requires Tidy(f) && Components(f) != [] && Tidy(t) && Components(t) != []
    requires Orderly(m) && f in FolderSet(m)
    ensures t in FolderSet(FolderRenamed(m, f, t))
  {
    hide Components, Join, FolderSet, FolderRenamed;
    ReportedFollows(m, f, t, f);
    assert Relocated(f, f, t) == t;
  }

  /** With the name "/a/x", renaming the folder "a" leaves it reported and reports nothing new. */
  lemma UntidyNameStays(m: Manifest, t: Text)
    requires m.entries == [UNTIDY] && m.folders == []
    requires Tidy(t) && Components(t) != [] && t != [0x61]
    ensures [0x61] in FolderSet(m) && [0x61] in FolderSet(FolderRenamed(m, [0x61], t))
    ensures t !in FolderSet(FolderRenamed(m, [0x61], t))
  {
    hide FolderSet, Components, Under, ParentFolder;
    UntidyParent();
    assert UNTIDY == m.entries[0];
    UntidyIsReported(m);
    RenameRelocates(m, [0x61], t, 0);
    assert UNTIDY == FolderRenamed(m, [0x61], t).entries[0];
    UntidyIsReported(FolderRenamed(m, [0x61], t));
    NewPathIsReportedIff(m, [0x61], t);
    if AtOrAbove(t, [0x2F, 0x61]) {
      OneComponent(t, [0x61]);
    }
  }

  lemma OneComponent(t: seq<Byte>, c: seq<Byte>)
    requires Tidy(t) && Components(t) != [] && Components(t) <= [c]
    ensures t == c
  {
    hide Components;
    assert Components(t) == [c];
  }

  /** The way back of a folder rename is accepted, on the conditions under which it restores everything. */
  lemma WayBackIsAccepted(m: Manifest, from: Text, to: Text)
    requires Serialized(m).Success?
    requires Normalized(from) == Some(from) && ValidFolderPath(from) && Normalized(to) == Some(to)
    requires forall e | e in m.entries :: !Under(e.name, to)
    requires forall f | f in m.folders :: f != to && !Under(f, to)
    ensures RenameFolderRefusal(FolderRenamed(m, from, to), false, to, from) == None
  {
    hide Normalized, Moved, Under, Print, CleanText;
    var there := FolderRenamed(m, from, to);
    NoCollisionBack(m.entries, from, to);
    forall e | e in there.entries && Under(e.name, to) ensures ValidName(Moved(e.name, to, from)) {
      var i :| 0 <= i < |there.entries| && there.entries[i] == e;
      assert m.entries[i] in m.entries;
      MovedBack(m.entries[i].name, from, to);
    }
    forall f | f in there.folders && f != to && Under(f, to) ensures ValidFolderPath(Moved(f, to, from)) {
      var i :| 0 <= i < |there.folders| && there.folders[i] == f;
      assert m.folders[i] in m.folders;
      MovedBack(m.folders[i], from, to);
    }
    RenameFolderUndone(m, from, to);
    CounterKeepsLen(m, FolderRenamed(there, to, from));
  }

  lemma NoCollisionBack(entries: seq<FileEntry>, from: Text, to: Text)
    requires forall e | e in entries :: !Under(e.name, to)
    ensures !Collides(MovedEntries(entries, from, to), to, from)
  {
    hide Moved;
    var there := MovedEntries(entries, from, to);
    forall e | e in there && Under(e.name, to) ensures Moved(e.name, to, from) !in Names(there) {
      var i :| 0 <= i < |there| && there[i] == e;
      assert entries[i] in entries;
      MovedBack(entries[i].name, from, to);
      MovedLands(entries[i].name, from, to);
      forall g | g in there ensures g.name != entries[i].name {
        var j :| 0 <= j < |there| && there[j] == g;
        MovedLands(entries[j].name, from, to);
      }
    }
  }

  lemma MovedLands(name: Text, from: Text, to: Text)
    ensures Under(name, from) ==> Under(Moved(name, from, to), to)
    ensures !Under(name, from) ==> Moved(name, from, to) == name
  {}

  lemma CounterKeepsLen(m: Manifest, m': Manifest)
    requires m' == m.(counter := m'.counter)
    ensures |Print(m')| == |Print(m)|
  {
    hide PrintAll;
  }

  lemma MovedTargetsDiffer(entries: seq<FileEntry>, from: Text, to: Text)
    requires UniqueNames(MovedEntries(entries, from, to))
    ensures forall e, f | e in entries && f in entries && Moved(e.name, from, to) == Moved(f.name, from, to) :: e == f
  {
    var r := MovedEntries(entries, from, to);
    forall e, f | e in entries && f in entries && Moved(e.name, from, to) == Moved(f.name, from, to) ensures e == f {
      var i :| 0 <= i < |entries| && entries[i] == e;
      var j :| 0 <= j < |entries| && entries[j] == f;
      assert r[i].name == r[j].name;
    }
  }

  /** The same contents under the moved names. */
  function MovedFiles(entries: seq<FileEntry>, files: Files, from: Text, to: Text): Files
    requires UniqueNames(MovedEntries(entries, from, to))
  {
    MovedTargetsDiffer(entries, from, to);
    map e | e in entries && e.name in files :: Moved(e.name, from, to) := files[e.name]
  }

  lemma RenameFolderReady(geo: Geometry, disk: seq<Cell>, m: Manifest, files: Files, from: Text, to: Text)
    requires geo.home < geo.total == |disk|
    requires Publishable(geo, m) && Keeps(geo, disk, m.entries, files)
    requires !Collides(m.entries, from, to)
    ensures UniqueNames(MovedEntries(m.entries, from, to))
    ensures Layout(geo, FolderRenamed(m, from, to).entries) && Canonical(FolderRenamed(m, from, to))
    ensures Keeps(geo, disk, FolderRenamed(m, from, to).entries, MovedFiles(m.entries, files, from, to))
    ensures files.Keys == Names(m.entries) ==>
              MovedFiles(m.entries, files, from, to).Keys == Names(FolderRenamed(m, from, to).entries)
  {
    hide Serialized, Holds, Moved;
    PublishedLayout(geo, m);
    MovedStayUnique(m.entries, from, to);
    MovedTargetsDiffer(m.entries, from, to);
    var r := MovedEntries(m.entries, from, to);
    MovedLayout(geo, m.entries, from, to);
    MovedKeeps(geo, disk, m.entries, files, from, to);
  }

  lemma MovedLayout(geo: Geometry, entries: seq<FileEntry>, from: Text, to: Text)
    requires Layout(geo, entries) && UniqueNames(MovedEntries(entries, from, to))
    ensures Layout(geo, MovedEntries(entries, from, to))
  {
    hide Placed, Disjoint, UniqueNames, MovedEntries, Moved;
    var r := MovedEntries(entries, from, to);
    forall e | e in r ensures Shaped(e) && Placed(geo, e.chunks) {
      var g := MovedFrom(entries, from, to, e);
    }
    forall e, f | e in r && f in r && e.name != f.name ensures Disjoint(e.chunks, f.chunks) {
      var g := MovedFrom(entries, from, to, e);
      var h := MovedFrom(entries, from, to, f);
    }
  }

  lemma MovedFrom(entries: seq<FileEntry>, from: Text, to: Text, e: FileEntry) returns (g: FileEntry)
    requires e in MovedEntries(entries, from, to)
    ensures g in entries && e == g.(name := Moved(g.name, from, to))
  {
    hide Moved, Under;
    var r := MovedEntries(entries, from, to);
    var i :| 0 <= i < |r| && r[i] == e;
    g := entries[i];
  }

  lemma MovedOneHolds(geo: Geometry, disk: seq<Cell>, entries: seq<FileEntry>, files: Files, from: Text, to: Text,
                      e: FileEntry)
    requires Keeps(geo, disk, entries, files) && UniqueNames(MovedEntries(entries, from, to))
    requires e in MovedEntries(entries, from, to) && e.name in MovedFiles(entries, files, from, to)
    ensures Holds(geo, disk, e, MovedFiles(entries, files, from, to)[e.name])
  {
    hide Moved, Written, Holds, UniqueNames;
    MovedTargetsDiffer(entries, from, to);
    var r := MovedEntries(entries, from, to);
    var i :| 0 <= i < |r| && r[i] == e;
    assert entries[i] in entries;
    MovedHolds(geo, disk, entries[i], files[entries[i].name], e.name);
  }

  lemma MovedKeeps(geo: Geometry, disk: seq<Cell>, entries: seq<FileEntry>, files: Files, from: Text, to: Text)
    requires Keeps(geo, disk, entries, files) && UniqueNames(MovedEntries(entries, from, to))
    ensures Keeps(geo, disk, MovedEntries(entries, from, to), MovedFiles(entries, files, from, to))
    ensures files.Keys == Names(entries) ==>
              MovedFiles(entries, files, from, to).Keys == Names(MovedEntries(entries, from, to))
  {
    hide Moved, Written, Holds, UniqueNames, MovedFiles, MovedEntries;
    MovedFileNames(entries, files, from, to);
    var r := MovedEntries(entries, from, to);
    var after := MovedFiles(entries, files, from, to);
    forall e | e in r && e.name in after ensures Holds(geo, disk, e, after[e.name]) {
      MovedOneHolds(geo, disk, entries, files, from, to, e);
    }
  }

  lemma MovedHolds(geo: Geometry, disk: seq<Cell>, e: FileEntry, content: seq<Byte>, name: Text)
    requires Holds(geo, disk, e, content)
    ensures Holds(geo, disk, FileEntry(name, e.size, e.chunks), content)
  {}

  lemma MovedFileNames(entries: seq<FileEntry>, files: Files, from: Text, to: Text)
    requires UniqueNames(MovedEntries(entries, from, to))
    ensures MovedFiles(entries, files, from, to).Keys <= Names(MovedEntries(entries, from, to))
    ensures files.Keys == Names(entries) ==>
              MovedFiles(entries, files, from, to).Keys == Names(MovedEntries(entries, from, to))
  {
    hide Moved;
    var r := MovedEntries(entries, from, to);
    var after := MovedFiles(entries, files, from, to);
    forall n | n in after ensures n in Names(r) {
      var e :| e in entries && e.name in files && Moved(e.name, from, to) == n;
      var i :| 0 <= i < |entries| && entries[i] == e;
      assert r[i] in r;
    }
    if files.Keys == Names(entries) {
      forall n | n in Names(r) ensures n in after {
        var e :| e in r && e.name == n;
        var i :| 0 <= i < |r| && r[i] == e;
        assert entries[i] in entries && entries[i].name in Names(entries);
      }
    }
  }

  lemma RenamedFolderSerializes(m: Manifest, from: Text, to: Text)
    requires Serialized(m).Success? && ValidFolderPath(to)
    ensures Serialized(FolderRenamed(m, from, to))
         == if !MovedNamesValid(m, from, to) then Failure(InvalidName)
            else if |Print(FolderRenamed(m, from, to))| > CHUNK_PLAINTEXT_LEN then Failure(ManifestOverflow)
            else Success(Print(FolderRenamed(m, from, to)))
  {
    hide Print, ValidName, ValidFolderPath;
    var r := FolderRenamed(m, from, to);
    if MovedNamesValid(m, from, to) {
      forall e | e in r.entries ensures ValidName(e.name) {
        var i :| 0 <= i < |r.entries| && r.entries[i] == e;
        assert m.entries[i] in m.entries;
      }
      forall f | f in r.folders ensures ValidFolderPath(f) {
        var i :| 0 <= i < |r.folders| && r.folders[i] == f;
        assert m.folders[i] in m.folders;
      }
    } else {
      if e :| e in m.entries && Under(e.name, from) && !ValidName(Moved(e.name, from, to)) {
        var i :| 0 <= i < |m.entries| && m.entries[i] == e;
        assert r.entries[i] in r.entries;
      } else {
        var f :| f in m.folders && f != from && Under(f, from) && !ValidFolderPath(Moved(f, from, to));
        var i :| 0 <= i < |m.folders| && m.folders[i] == f;
        assert r.folders[i] in r.folders;
      }
    }
  }
}
