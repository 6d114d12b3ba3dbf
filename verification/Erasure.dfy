/** What mutations leave in chunks that nobody uses: the chunks a file gives up are overwritten
    with noise (crates/farewell_format/src/vault.rs, every `destructive_phase`). */
module Erasure {
  import opened Bytes
  import opened Texts
  import opened Wrappers
  import opened Manifests
  import opened Chunks
  import opened Store
  import opened Space
  import opened VaultSpec
  import opened Splices
  import opened WriteSpec
  import opened TruncateSpec
  import opened Folders
  import opened FolderSpec

  /** The free chunks that still hold something. */
  function Leftover(geo: Geometry, entries: seq<FileEntry>, d: seq<Cell>): set<int> {
    set c | c in Free(geo, entries) && 0 <= c < |d| && d[c] != Noise
  }

  /** Nothing was left behind: a chunk that is free after the step is noise, unless it was free
      and not noise before. */
  predicate Scrubbed(geo: Geometry, m0: Manifest, d0: seq<Cell>, m1: Manifest, d1: seq<Cell>) {
    Leftover(geo, m1.entries, d1) <= Leftover(geo, m0.entries, d0)
  }

  /** In particular every chunk that was in use and no longer is holds noise. */
  lemma GivenUpIsNoise(geo: Geometry, m0: Manifest, d0: seq<Cell>, m1: Manifest, d1: seq<Cell>, c: int)
    requires Scrubbed(geo, m0, d0, m1, d1)
    requires c in Used(m0.entries) && c !in Used(m1.entries) && c != geo.home && 0 <= c < geo.total == |d1|
    ensures d1[c] == Noise
  {
    assert c in Leftover(geo, m1.entries, d1) <==> d1[c] != Noise;
    assert c !in Leftover(geo, m0.entries, d0);
  }

  lemma ScrubbedTwice(geo: Geometry, m0: Manifest, d0: seq<Cell>, m1: Manifest, d1: seq<Cell>, m2: Manifest, d2: seq<Cell>)
    requires Scrubbed(geo, m0, d0, m1, d1) && Scrubbed(geo, m1, d1, m2, d2)
    ensures Scrubbed(geo, m0, d0, m2, d2)
  {}

  lemma ScrubbedSame(geo: Geometry, m: Manifest, d: seq<Cell>)
    ensures Scrubbed(geo, m, d, m, d)
  {}

  lemma NothingDrawn(d: seq<Cell>)
    ensures SameOutside(d, d, Elems([]))
  {}

  lemma OutsideBoth(d0: seq<Cell>, d1: seq<Cell>, d2: seq<Cell>, a: set<int>, b: set<int>)
    requires SameOutside(d0, d1, a) && SameOutside(d1, d2, b)
    ensures SameOutside(d0, d2, a + b)
  {}

  /** A mutation scrubs if it writes into chunks of the new files and the manifest only, and
      everything it gives up is overwritten. */
  lemma Scrubs(geo: Geometry, m0: Manifest, d0: seq<Cell>, m1: Manifest, d1: seq<Cell>, drawn: set<int>, shred: seq<U32>)
    requires SameOutside(d0, d1, drawn + (Elems(shred) + {geo.home}))
    requires drawn <= Used(m1.entries)
    requires forall c | c in shred :: c < |d1| && d1[c] == Noise
    requires Used(m0.entries) - Used(m1.entries) <= Elems(shred)
    ensures Scrubbed(geo, m0, d0, m1, d1)
  {
    hide Used;
    forall c | c in Leftover(geo, m1.entries, d1) ensures c in Leftover(geo, m0.entries, d0) {
      assert c !in Elems(shred);
    }
  }

  /** Replacing an entry gives up exactly the chunks of the old one that the new one does not keep. */
  lemma UpsertGivesUp(m: Manifest, w: FileEntry, shred: seq<U32>)
    requires UniqueNames(m.entries)
    requires forall c | c in ChunkList(m.entries, w.name) :: c in w.chunks || c in shred
    ensures Elems(w.chunks) <= Used(Upserted(m, w).entries)
    ensures Used(m.entries) - Used(Upserted(m, w).entries) <= Elems(shred)
  {
    var after := Upserted(m, w).entries;
    assert w in after;
    forall c | c in Used(m.entries) && c !in Used(after) ensures c in Elems(shred) {
      var e :| e in m.entries && c in e.chunks;
      FindUnique(m.entries, e);
      assert e.name != w.name ==> e in after;
    }
  }

  lemma UpsertScrubs(geo: Geometry, m: Manifest, d0: seq<Cell>, d: seq<Cell>, d1: seq<Cell>, w: FileEntry, drawn: seq<U32>,
                     shred: seq<U32>)
    requires UniqueNames(m.entries)
    requires SameOutside(d0, d, Elems(drawn)) && SameOutside(d, d1, Elems(shred) + {geo.home})
    requires forall c | c in drawn :: c in w.chunks
    requires forall c | c in shred :: c < |d1| && d1[c] == Noise
    requires forall c | c in ChunkList(m.entries, w.name) :: c in w.chunks || c in shred
    ensures Scrubbed(geo, m, d0, Upserted(m, w), d1)
  {
    hide Used, Upserted, UniqueNames, ChunkList, SameOutside, Scrubbed;
    OutsideBoth(d0, d, d1, Elems(drawn), Elems(shred) + {geo.home});
    UpsertGivesUp(m, w, shred);
    Scrubs(geo, m, d0, Upserted(m, w), d1, Elems(drawn), shred);
  }

  /** Dropping or keeping whole entries: everything that goes must be shredded. */
  lemma DropScrubs(geo: Geometry, m0: Manifest, d0: seq<Cell>, m1: Manifest, d1: seq<Cell>, shred: seq<U32>)
    requires SameOutside(d0, d1, Elems(shred) + {geo.home})
    requires forall c | c in shred :: c < |d1| && d1[c] == Noise
    requires forall e | e in m0.entries ::
               || (exists f | f in m1.entries :: f.chunks == e.chunks)
               || forall c | c in e.chunks :: c in shred
    ensures Scrubbed(geo, m0, d0, m1, d1)
  {
    forall c | c in Used(m0.entries) && c !in Used(m1.entries) ensures c in Elems(shred) {
      var e :| e in m0.entries && c in e.chunks;
    }
    assert {} + (Elems(shred) + {geo.home}) == Elems(shred) + {geo.home};
    Scrubs(geo, m0, d0, m1, d1, {}, shred);
  }

  // ---- one mutation each ----

  lemma NoneGivenUp(geo: Geometry, m0: Manifest, d0: seq<Cell>, m1: Manifest, d1: seq<Cell>)
    requires SameOutside(d0, d1, {geo.home})
    requires forall e | e in m0.entries :: exists f | f in m1.entries :: f.chunks == e.chunks
    ensures Scrubbed(geo, m0, d0, m1, d1)
  {
    assert Elems([]) + {geo.home} == {geo.home};
    DropScrubs(geo, m0, d0, m1, d1, []);
  }

  lemma RemovalScrubs(geo: Geometry, m: Manifest, d0: seq<Cell>, d1: seq<Cell>, name: Text)
    requires UniqueNames(m.entries) && Find(m.entries, name).Some?
    requires SameOutside(d0, d1, Elems(ChunkList(m.entries, name)) + {geo.home})
    requires forall c | c in ChunkList(m.entries, name) :: c < |d1| && d1[c] == Noise
    ensures Scrubbed(geo, m, d0, Removed(m, name), d1)
  {
    hide UniqueNames, Elems, SameOutside, Scrubbed;
    RemoveFirstIsWithout(m.entries, name);
    forall e | e in m.entries && e.name == name ensures e.chunks == ChunkList(m.entries, name) {
      FindUnique(m.entries, e);
    }
    DropScrubs(geo, m, d0, Removed(m, name), d1, ChunkList(m.entries, name));
  }

  lemma RenameScrubs(geo: Geometry, m: Manifest, d0: seq<Cell>, d1: seq<Cell>, from: Text, to: Text, o: FileEntry)
    requires UniqueNames(m.entries) && Find(m.entries, from) == Some(o) && from != to
    requires Renamed(m, from, to).entries == Without(Without(m.entries, from), to) + [FileEntry(to, o.size, o.chunks)]
    requires SameOutside(d0, d1, Elems(ChunkList(m.entries, to)) + {geo.home})
    requires forall c | c in ChunkList(m.entries, to) :: c < |d1| && d1[c] == Noise
    ensures Scrubbed(geo, m, d0, Renamed(m, from, to), d1)
  {
    hide UniqueNames, Elems, SameOutside, Scrubbed, Renamed;
    var m1 := Renamed(m, from, to);
    var moved := FileEntry(to, o.size, o.chunks);
    assert moved in m1.entries;
    forall e | e in m.entries ensures e in m1.entries || moved.chunks == e.chunks || e.chunks == ChunkList(m.entries, to) {
      FindUnique(m.entries, e);
    }
    DropScrubs(geo, m, d0, m1, d1, ChunkList(m.entries, to));
  }

  lemma WriteScrubs(geo: Geometry, m: Manifest, d0: seq<Cell>, d: seq<Cell>, d1: seq<Cell>, e: FileEntry, offset: nat, len: nat,
                    drawn: seq<U32>, shred: seq<U32>)
    requires UniqueNames(m.entries) && e in m.entries && offset + len <= U64_MAX
    requires FirstDirty(e.size, offset) <= |e.chunks| && shred == e.chunks[FirstDirty(e.size, offset)..]
    requires SameOutside(d0, d, Elems(drawn)) && SameOutside(d, d1, Elems(shred) + {geo.home})
    requires forall c | c in shred :: c < |d1| && d1[c] == Noise
    ensures Scrubbed(geo, m, d0, Upserted(m, WrittenEntry(e, offset, len, drawn)), d1)
  {
    hide UniqueNames, Elems, SameOutside, Scrubbed, Upserted, FirstDirty;
    FindUnique(m.entries, e);
    var dirty := FirstDirty(e.size, offset);
    assert e.chunks == e.chunks[..dirty] + shred;
    UpsertScrubs(geo, m, d0, d, d1, WrittenEntry(e, offset, len, drawn), drawn, shred);
  }

  lemma ShrinkScrubs(geo: Geometry, m: Manifest, d0: seq<Cell>, d: seq<Cell>, d1: seq<Cell>, e: FileEntry, newSize: U64,
                     drawn: seq<U32>, shred: seq<U32>)
    requires UniqueNames(m.entries) && e in m.entries && newSize < e.size && Shaped(e)
    requires forall c :: c in shred <==> c in e.chunks[newSize / CHUNK_PLAINTEXT_LEN..]
    requires SameOutside(d0, d, Elems(drawn)) && SameOutside(d, d1, Elems(shred) + {geo.home})
    requires forall c | c in shred :: c < |d1| && d1[c] == Noise
    ensures Scrubbed(geo, m, d0, Upserted(m, ShrunkEntry(e, newSize, drawn)), d1)
  {
    hide UniqueNames, Elems, SameOutside, Scrubbed, Upserted;
    FindUnique(m.entries, e);
    var kept := newSize / CHUNK_PLAINTEXT_LEN;
    assert e.chunks == e.chunks[..kept] + e.chunks[kept..];
    UpsertScrubs(geo, m, d0, d, d1, ShrunkEntry(e, newSize, drawn), drawn, shred);
  }

  lemma FolderDeletionScrubs(geo: Geometry, m0: Manifest, d0: seq<Cell>, m1: Manifest, d1: seq<Cell>, folder: Text,
                             names: seq<Text>, victims: seq<U32>)
    requires FolderDeleted(m0, m1, folder) && Collected(m0.entries, names, victims)
    requires forall n :: n in names <==> n in Names(m0.entries) && Under(n, folder)
    requires SameOutside(d0, d1, Elems(victims) + {geo.home})
    requires forall c | c in victims :: c < |d1| && d1[c] == Noise
    ensures Scrubbed(geo, m0, d0, m1, d1)
  {
    hide Elems, SameOutside, Scrubbed, Under;
    forall e | e in m0.entries && e !in m1.entries ensures forall c | c in e.chunks :: c in victims {
      assert e.name in Names(m0.entries);
    }
    DropScrubs(geo, m0, d0, m1, d1, victims);
  }

  lemma FolderRenameScrubs(geo: Geometry, m: Manifest, d0: seq<Cell>, d1: seq<Cell>, from: Text, to: Text)
    requires SameOutside(d0, d1, {geo.home})
    ensures Scrubbed(geo, m, d0, FolderRenamed(m, from, to), d1)
  {
    hide SameOutside, Scrubbed, Moved;
    var m1 := FolderRenamed(m, from, to);
    forall e | e in m.entries ensures exists f | f in m1.entries :: f.chunks == e.chunks {
      var i :| 0 <= i < |m.entries| && m.entries[i] == e;
      assert m1.entries[i] in m1.entries;
    }
    NoneGivenUp(geo, m, d0, m1, d1);
  }

  lemma NoiseIsErased(geo: Geometry, d: seq<Cell>, cell: Cell)
    requires geo.home < |d| && forall c | 0 <= c < |d| :: d[c] == Noise
    ensures Leftover(geo, [], d[geo.home := cell]) == {}
  {}

  // ---- what an undamaged vault without leftovers holds ----

  /** The disk holds the current files and nothing else: every chunk but the manifest's is noise
      or one piece of a file that is there. */
  ghost predicate OnlyCurrent(geo: Geometry, entries: seq<FileEntry>, files: Files, d: seq<Cell>) {
    forall c | 0 <= c < |d| && c != geo.home && d[c] != Noise ::
      exists e, i | e in entries && 0 <= i < |e.chunks| ::
        e.chunks[i] == c && e.name in files && d[c] == Seal(geo.master, c, Piece(files[e.name], i))
  }

  lemma NothingElse(geo: Geometry, m: Manifest, files: Files, d: seq<Cell>)
    requires |d| == geo.total && Keeps(geo, d, m.entries, files) && files.Keys == Names(m.entries)
    requires Leftover(geo, m.entries, d) == {}
    ensures OnlyCurrent(geo, m.entries, files, d)
  {
    hide Seal, Piece;
    forall c | 0 <= c < |d| && c != geo.home && d[c] != Noise
      ensures exists e, i | e in m.entries && 0 <= i < |e.chunks| ::
                e.chunks[i] == c && e.name in files && d[c] == Seal(geo.master, c, Piece(files[e.name], i))
    {
      assert c !in Leftover(geo, m.entries, d);
      var e :| e in m.entries && c in e.chunks;
      var i :| 0 <= i < |e.chunks| && e.chunks[i] == c;
      assert e.name in Names(m.entries);
      assert Holds(geo, d, e, files[e.name]);
    }
  }
}
