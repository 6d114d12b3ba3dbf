/** Deleting and renaming files. */
module RenameSpec {
  import opened Bytes
  import opened Texts
  import opened Wrappers
  import opened Codecs
  import opened Manifests
  import opened ManifestCodec
  import opened Chunks
  import opened Store
  import opened VaultSpec

  // ---- removing and renaming ----

  lemma {:induction false} PrintWithoutShorter(entries: seq<FileEntry>, name: seq<Byte>)
    ensures |PrintAll(PrintEntry, Without(entries, name))| <= |PrintAll(PrintEntry, entries)|
  {
    if entries != [] {
      PrintWithoutShorter(entries[1..], name);
      if entries[0].name != name {
        assert Without(entries, name)[1..] == Without(entries[1..], name);
      } else {
        assert Without(entries, name) == Without(entries[1..], name);
      }
    }
  }

  lemma RemovedSerializes(geo: Geometry, m: Manifest, name: Text)
    requires Publishable(geo, m)
    ensures Publishable(geo, Removed(m, name))
    ensures Removed(m, name).entries == Without(m.entries, name)
  {
    RemoveFirstIsWithout(m.entries, name);
    LayoutWithout(geo, m.entries, name);
    if Find(m.entries, name).None? {
      WithoutAbsent(m.entries, name);
    }
    PrintWithoutShorter(m.entries, name);
  }

  lemma DeleteReady(geo: Geometry, disk: seq<Cell>, m: Manifest, files: Files, name: Text)
    requires geo.home < geo.total == |disk|
    requires Publishable(geo, m) && Keeps(geo, disk, m.entries, files)
    ensures Publishable(geo, Removed(m, name))
    ensures Keeps(geo, disk, Removed(m, name).entries, files - {name})
    ensures Names(Removed(m, name).entries) == Names(m.entries) - {name}
    ensures Sheddable(geo, ChunkList(m.entries, name), m.entries, {name})
    ensures Sheddable(geo, ChunkList(m.entries, name), Removed(m, name).entries, {})
  {
    hide Serialized, Canonical, Holds;
    RemovedSerializes(geo, m, name);
    var left := Without(m.entries, name);
    forall n | n in (files - {name}).Keys ensures n in Names(left) {
      var e :| e in m.entries && e.name == n;
      assert e in left;
    }
    forall n | n in Names(m.entries) - {name} ensures n in Names(left) {
      var e :| e in m.entries && e.name == n;
      assert e in left;
    }
    ShedOldChunks(geo, m.entries, name);
  }

  lemma ShedOldChunks(geo: Geometry, entries: seq<FileEntry>, name: Text)
    requires Layout(geo, entries)
    ensures Sheddable(geo, ChunkList(entries, name), entries, {name})
  {
    match Find(entries, name) {
      case None =>
      case Some(o) =>
        assert Placed(geo, o.chunks);
        forall f | f in entries && f.name != name ensures Disjoint(f.chunks, o.chunks) {
          assert Disjoint(o.chunks, f.chunks);
        }
    }
  }

  lemma RenameReady(geo: Geometry, disk: seq<Cell>, m: Manifest, files: Files, from: Text, to: Text)
    requires geo.home < geo.total == |disk|
    requires Publishable(geo, m) && Keeps(geo, disk, m.entries, files)
    requires Find(m.entries, from).Some? && from != to
    ensures Renamed(m, from, to).entries
         == Without(Without(m.entries, from), to) + [FileEntry(to, Find(m.entries, from).value.size, Find(m.entries, from).value.chunks)]
    ensures Layout(geo, Renamed(m, from, to).entries) && Canonical(Renamed(m, from, to))
    ensures Keeps(geo, disk, Renamed(m, from, to).entries, RenamedFiles(files, from, to))
    ensures Sheddable(geo, ChunkList(m.entries, to), m.entries, {to})
    ensures Sheddable(geo, ChunkList(m.entries, to), Renamed(m, from, to).entries, {})
    ensures files.Keys == Names(m.entries) ==> RenamedFiles(files, from, to).Keys == Names(Renamed(m, from, to).entries)
  {
    hide Serialized, Holds, Layout, Sheddable, Keeps, Removed, Disjoint;
    var o := Find(m.entries, from).value;
    var e := FileEntry(to, o.size, o.chunks);
    var both := Without(Without(m.entries, from), to);
    RemovedSerializes(geo, m, from);
    RemovedSerializes(geo, Removed(m, from), to);
    RemovedKeeps(m, from);
    RemovedKeeps(Removed(m, from), to);
    WithoutAbsent(both, to);
    LayoutUnique(geo, m.entries);
    RenameLayout(geo, m.entries, o, to);
    ShedOldChunks(geo, m.entries, to);
    RenameKeeps(geo, disk, m.entries, files, from, to, both, e);
    RenameNames(m.entries, from, to, both, e);
  }

  lemma RemovedKeeps(m: Manifest, name: Text)
    ensures Removed(m, name).childSlots == m.childSlots && Removed(m, name).owner == m.owner
  {}

  /** The entries under the new name: well laid out, and none of them on a chunk of the
      replaced file. */
  lemma RenameLayout(geo: Geometry, entries: seq<FileEntry>, o: FileEntry, to: Text)
    requires Layout(geo, entries) && o in entries && o.name != to
    ensures var after := Without(Without(entries, o.name), to) + [FileEntry(to, o.size, o.chunks)];
            Layout(geo, after) && Sheddable(geo, ChunkList(entries, to), after, {})
  {
    hide UniqueNames, Disjoint, Placed, Shaped;
    var e := FileEntry(to, o.size, o.chunks);
    var left := Without(entries, o.name);
    LayoutWithout(geo, entries, o.name);
    forall f | f in left && f.name != to ensures Disjoint(e.chunks, f.chunks) {}
    EntryMoves(geo, o, to);
    LayoutUpsert(geo, left, e);
    ReplacedApart(geo, entries, o, to);
  }

  lemma EntryMoves(geo: Geometry, o: FileEntry, to: Text)
    requires Shaped(o)
    ensures Shaped(FileEntry(to, o.size, o.chunks))
  {}

  lemma ReplacedApart(geo: Geometry, entries: seq<FileEntry>, o: FileEntry, to: Text)
    requires Layout(geo, entries) && o in entries && o.name != to
    ensures Sheddable(geo, ChunkList(entries, to),
                      Without(Without(entries, o.name), to) + [FileEntry(to, o.size, o.chunks)], {})
  {
    hide UniqueNames, Disjoint;
    ShedOldChunks(geo, entries, to);
    var both := Without(Without(entries, o.name), to);
    forall f | f in both + [FileEntry(to, o.size, o.chunks)] ensures Disjoint(f.chunks, ChunkList(entries, to)) {
      assert Disjoint(o.chunks, ChunkList(entries, to));
      if f in both {
        assert f in entries && f.name != to;
      }
    }
  }

  lemma RenameKeeps(geo: Geometry, disk: seq<Cell>, entries: seq<FileEntry>, files: Files, from: Text, to: Text,
                    both: seq<FileEntry>, e: FileEntry)
    requires UniqueNames(entries) && Keeps(geo, disk, entries, files) && from != to
    requires forall f :: f in both <==> f in entries && f.name != from && f.name != to
    requires Find(entries, from).Some?
    requires e == FileEntry(to, Find(entries, from).value.size, Find(entries, from).value.chunks)
    ensures Keeps(geo, disk, both + [e], RenamedFiles(files, from, to))
  {
    hide Written, Find;
    RenameNames(entries, from, to, both, e);
    var after := RenamedFiles(files, from, to);
    forall f | f in both + [e] && f.name in after ensures Holds(geo, disk, f, after[f.name]) {
      if f.name != to {
        assert f in both;
      } else {
        assert f == e && from in files;
        assert Holds(geo, disk, Find(entries, from).value, files[from]);
      }
    }
  }

  lemma RenameNames(entries: seq<FileEntry>, from: Text, to: Text, both: seq<FileEntry>, e: FileEntry)
    requires forall f :: f in both <==> f in entries && f.name != from && f.name != to
    requires e.name == to
    ensures Names(both + [e]) == Names(entries) - {from} + {to}
  {
    forall n | n in Names(entries) - {from} + {to} ensures n in Names(both + [e]) {
      if n == to {
        assert e in both + [e];
      } else {
        var f :| f in entries && f.name == n;
        assert f in both + [e];
      }
    }
  }

  lemma RemovedNames(geo: Geometry, m: Manifest, name: Text)
    requires Publishable(geo, m)
    ensures Names(Removed(m, name).entries) == Names(m.entries) - {name}
  {
    hide Layout, Serialized, Canonical;
    RemovedSerializes(geo, m, name);
    forall n | n in Names(m.entries) - {name} ensures n in Names(Without(m.entries, name)) {
      var e :| e in m.entries && e.name == n;
      assert e in Without(m.entries, name);
    }
  }

  lemma RenamedNames(geo: Geometry, m: Manifest, from: Text, to: Text)
    requires Publishable(geo, m) && Find(m.entries, from).Some? && from != to
    ensures Names(Renamed(m, from, to).entries) == Names(m.entries) - {from} + {to}
  {
    hide Layout, Serialized, Canonical, Removed, Names;
    RemovedSerializes(geo, m, from);
    RemovedNames(geo, m, from);
    RemovedNames(geo, Removed(m, from), to);
    UpsertNames(Removed(Removed(m, from), to), FileEntry(to, Find(m.entries, from).value.size, Find(m.entries, from).value.chunks));
  }

  lemma UpsertNames(m: Manifest, e: FileEntry)
    ensures Names(Upserted(m, e).entries) == Names(m.entries) + {e.name}
  {
    var after := Upserted(m, e).entries;
    forall n | n in Names(m.entries) + {e.name} ensures n in Names(after) {
      if n == e.name {
        assert e in after;
      } else {
        var f :| f in m.entries && f.name == n;
        assert f in after;
      }
    }
  }

  /** With no disk change at all, an empty entry may be published under a new name. */
  lemma EmptyHolds(geo: Geometry, disk: seq<Cell>, name: Text)
    requires |disk| == geo.total
    ensures Holds(geo, disk, FileEntry(name, 0, []), [])
  {}

  lemma UnknownIsUnheld(geo: Geometry, disk: seq<Cell>, entries: seq<FileEntry>, files: Files, name: Text)
    requires Keeps(geo, disk, entries, files) && Find(entries, name).None?
    ensures name !in files
  {
    hide Holds;
  }

  lemma EmptyEntryReady(geo: Geometry, disk: seq<Cell>, m: Manifest, files: Files, name: Text)
    requires geo.home < geo.total == |disk|
    requires Publishable(geo, m) && Keeps(geo, disk, m.entries, files)
    requires Find(m.entries, name).None?
    requires Serialized(Upserted(m, FileEntry(name, 0, []))).Success?
    ensures Publishable(geo, Upserted(m, FileEntry(name, 0, [])))
    ensures Keeps(geo, disk, Upserted(m, FileEntry(name, 0, [])).entries, files[name := []])
    ensures Sheddable(geo, [], m.entries, {})
    ensures Sheddable(geo, [], Upserted(m, FileEntry(name, 0, [])).entries, {})
  {
    hide Serialized, Layout, Holds, Upserted;
    var e := FileEntry(name, 0, []);
    UnknownIsUnheld(geo, disk, m.entries, files, name);
    EmptyHolds(geo, disk, name);
    UpsertReady(geo, disk, disk, {}, m, files, e, files[name := []]);
  }

  lemma UpsertCounts(m: Manifest, e: FileEntry, ticks: nat)
    requires m.counter == ticks % (U64_MAX + 1)
    ensures Upserted(m, e).counter == (ticks + 1) % (U64_MAX + 1)
  {
    TickCounts(m.counter, ticks);
  }

  lemma TickCounts(counter: U64, ticks: nat)
    requires counter == ticks % (U64_MAX + 1)
    ensures Tick(counter) == (ticks + 1) % (U64_MAX + 1)
  {}

  lemma RenamedCounter(geo: Geometry, m: Manifest, from: Text, to: Text, ticks: nat)
    requires Publishable(geo, m) && Find(m.entries, from).Some? && from != to
    requires m.counter == ticks % (U64_MAX + 1)
    ensures Renamed(m, from, to).counter == (ticks + RenameBumps(m, to)) % (U64_MAX + 1)
  {
    hide Tick, Without, RemoveFirst, Serialized, Canonical, Apart;
    RemovedSerializes(geo, m, from);
    var left := Removed(m, from);
    if Find(m.entries, to).Some? {
      assert Find(m.entries, to).value in left.entries;
      assert Find(left.entries, to).Some?;
    } else {
      assert Find(left.entries, to).None?;
    }
    TickCounts(m.counter, ticks);
    TickCounts(left.counter, ticks + 1);
    TickCounts(Removed(left, to).counter, ticks + RenameBumps(m, to) - 1);
  }

  lemma RenamedSerializes(geo: Geometry, m: Manifest, from: Text, to: Text)
    requires Publishable(geo, m) && ValidName(to)
    requires Find(m.entries, from).Some?
    ensures Serialized(Renamed(m, from, to))
         == if |Print(Renamed(m, from, to))| > CHUNK_PLAINTEXT_LEN then Failure(ManifestOverflow)
            else Success(Print(Renamed(m, from, to)))
  {
    RemovedSerializes(geo, m, from);
    RemovedSerializes(geo, Removed(m, from), to);
    var e := FileEntry(to, Find(m.entries, from).value.size, Find(m.entries, from).value.chunks);
    UpsertSerializes(Removed(Removed(m, from), to), e);
    UpsertedLen(Removed(Removed(m, from), to), e);
  }
}
