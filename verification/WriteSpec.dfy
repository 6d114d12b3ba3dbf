/** Range writes: the new entry and the disk they leave. */
module WriteSpec {
  import opened Bytes
  import opened Texts
  import opened Manifests
  import opened ManifestCodec
  import opened Chunks
  import opened Store
  import opened Splices
  import opened VaultSpec

  // ---- range writes ----

  /** The entry a range write publishes: the clean chunks stay, the rest are fresh. */
  function WrittenEntry(e: FileEntry, offset: nat, len: nat, drawn: seq<U32>): FileEntry
    requires offset + len <= U64_MAX
  {
    var dirty := FirstDirty(e.size, offset);
    FileEntry(e.name, Max(e.size, offset + len), e.chunks[..Min(dirty, |e.chunks|)] + drawn)
  }

  lemma WrittenEntryIsPlaced(geo: Geometry, entries: seq<FileEntry>, e: FileEntry, offset: nat, len: nat, drawn: seq<U32>)
    requires Layout(geo, entries) && e in entries
    requires 0 < len && offset + len <= U64_MAX
    requires Placed(geo, drawn) && forall f | f in entries :: Disjoint(drawn, f.chunks)
    requires |drawn| == Pieces(Max(e.size, offset + len)) - FirstDirty(e.size, offset)
    ensures Shaped(WrittenEntry(e, offset, len, drawn)) && Placed(geo, WrittenEntry(e, offset, len, drawn).chunks)
    ensures |WrittenEntry(e, offset, len, drawn).chunks| == Pieces(Max(e.size, offset + len))
    ensures FirstDirty(e.size, offset) <= |e.chunks|
    ensures forall f | f in entries && f.name != e.name :: Disjoint(WrittenEntry(e, offset, len, drawn).chunks, f.chunks)
    ensures Elems(drawn) !! Used(entries)
  {
    FirstDirtyBounds(e.size, offset, len);
    var dirty := FirstDirty(e.size, offset);
    var list := WrittenEntry(e, offset, len, drawn).chunks;
    assert Placed(geo, e.chunks);
    assert forall c | c in list :: c in e.chunks || c in drawn;
    forall i, j | 0 <= i < j < |list| ensures list[i] != list[j] {
      if i < dirty <= j {
        assert list[i] in e.chunks && list[j] in drawn;
      }
    }
  }

  /** The pieces a write leaves alone and the ones it rewrites together hold the spliced content. */
  lemma WrittenEntryHolds(geo: Geometry, d: seq<Cell>, d': seq<Cell>, e: FileEntry, content: seq<Byte>,
                          offset: nat, data: seq<Byte>, drawn: seq<U32>)
    requires Holds(geo, d, e, content) && Disjoint(drawn, e.chunks) && SameOutside(d, d', Elems(drawn))
    requires 0 < |data| && offset + |data| <= U64_MAX
    requires FirstDirty(e.size, offset) <= |e.chunks|
    requires WrittenFrom(geo, d', drawn, Splice(content, offset, data), FirstDirty(e.size, offset), |drawn|)
    ensures Holds(geo, d', WrittenEntry(e, offset, |data|, drawn), Splice(content, offset, data))
  {
    hide Seal, Piece, Splice;
    var dirty := FirstDirty(e.size, offset);
    var s := Splice(content, offset, data);
    forall i | 0 <= i < dirty
      ensures e.chunks[i] < |d'| && d'[e.chunks[i]] == Seal(geo.master, e.chunks[i], Piece(s, i))
    {
      CleanPieces(content, offset, data, i);
      assert e.chunks[i] in e.chunks;
    }
    WrittenAppend(geo, d', e.chunks[..dirty], drawn, s);
  }

  /** The file map after a range write; a damaged file stays unknown. */
  function WrittenFiles(files: Files, name: Text, offset: nat, data: seq<Byte>): Files {
    if name in files then files[name := Splice(files[name], offset, data)] else files
  }

  lemma WriteReady(geo: Geometry, d: seq<Cell>, d': seq<Cell>, m: Manifest, files: Files, e: FileEntry,
                   offset: nat, data: seq<Byte>, drawn: seq<U32>)
    requires geo.home < geo.total == |d|
    requires Publishable(geo, m) && Keeps(geo, d, m.entries, files) && e in m.entries
    requires 0 < |data| && offset + |data| <= U64_MAX
    requires Placed(geo, drawn) && forall f | f in m.entries :: Disjoint(drawn, f.chunks)
    requires |drawn| == Pieces(Max(e.size, offset + |data|)) - FirstDirty(e.size, offset)
    requires SameOutside(d, d', Elems(drawn))
    requires Serialized(Upserted(m, WrittenEntry(e, offset, |data|, drawn))).Success?
    requires e.name in files ==>
               WrittenFrom(geo, d', drawn, Splice(files[e.name], offset, data), FirstDirty(e.size, offset), |drawn|)
    ensures Publishable(geo, Upserted(m, WrittenEntry(e, offset, |data|, drawn)))
    ensures Keeps(geo, d', Upserted(m, WrittenEntry(e, offset, |data|, drawn)).entries,
                  WrittenFiles(files, e.name, offset, data))
    ensures Keeps(geo, d', m.entries, files)
    ensures Reopen(geo, d') == Reopen(geo, d)
  {
    hide Serialized, Parse, DecryptChunk, Seal, Piece, Splice, Holds, WrittenFrom, Canonical, Pieces,
      FirstDirty, NoDup, Shaped, Apart, UniqueNames, Without, Used, Reopen;
    var w := WrittenEntry(e, offset, |data|, drawn);
    var after := WrittenFiles(files, e.name, offset, data);
    WrittenEntryIsPlaced(geo, m.entries, e, offset, |data|, drawn);
    if e.name in files {
      WrittenEntryHolds(geo, d, d', e, files[e.name], offset, data, drawn);
    }
    assert after - {e.name} == files - {e.name};
    forall f | f in m.entries ensures Elems(f.chunks) !! Elems(drawn) {
      assert Disjoint(drawn, f.chunks);
    }
    UpsertReady(geo, d, d', Elems(drawn), m, files, w, after);
    assert files - {} == files;
    KeepsDrop(geo, d, d', m.entries, files, {}, Elems(drawn));
  }

  /** The chunks a write displaces are exactly those of the old entry it does not keep. */
  lemma WriteDisplaces(geo: Geometry, m: Manifest, e: FileEntry, offset: nat, len: nat, drawn: seq<U32>, shred: seq<U32>)
    requires Layout(geo, m.entries) && e in m.entries
    requires 0 < len && offset + len <= U64_MAX
    requires forall f | f in m.entries :: Disjoint(drawn, f.chunks)
    requires FirstDirty(e.size, offset) <= |e.chunks|
    requires shred == e.chunks[FirstDirty(e.size, offset)..]
    ensures Sheddable(geo, shred, m.entries, {e.name})
    ensures Sheddable(geo, shred, Upserted(m, WrittenEntry(e, offset, len, drawn)).entries, {})
    ensures Elems(shred) <= Elems(ChunkList(m.entries, e.name))
  {
    var dirty := FirstDirty(e.size, offset);
    var w := WrittenEntry(e, offset, len, drawn);
    FindUnique(m.entries, e);
    assert Placed(geo, e.chunks);
    assert Disjoint(drawn, e.chunks);
    forall c | c in shred ensures c in e.chunks && c !in w.chunks {
      var k :| dirty <= k < |e.chunks| && e.chunks[k] == c;
    }
    DisplacedIsSheddable(geo, m, w, shred);
  }

  lemma WrittenEntryIs(e: FileEntry, offset: nat, len: nat, drawn: seq<U32>)
    requires offset + len <= U64_MAX
    ensures WrittenEntry(e, offset, len, drawn)
         == FileEntry(e.name, Max(e.size, offset + len), e.chunks[..Min(FirstDirty(e.size, offset), |e.chunks|)] + drawn)
  {}

  /** After a write, the entry keeps its clean chunks and every other chunk is freshly drawn:
      free before the write, so different from every chunk in use. */
  ghost predicate WroteFresh(geo: Geometry, m0: Manifest, m1: Manifest, name: Text, offset: nat, len: nat) {
    match Find(m0.entries, name)
    case None => false
    case Some(e) =>
      offset + len <= U64_MAX
      && exists drawn ::
        && m1 == Upserted(m0, WrittenEntry(e, offset, len, drawn))
        && Drawn(geo, m0.entries, Pieces(Max(e.size, offset + len)) - FirstDirty(e.size, offset), [], drawn)
  }

  lemma WritesFresh(geo: Geometry, m: Manifest, e: FileEntry, offset: nat, len: nat, drawn: seq<U32>)
    requires Find(m.entries, e.name).Some? && Find(m.entries, e.name).value == e && offset + len <= U64_MAX
    requires Drawn(geo, m.entries, Pieces(Max(e.size, offset + len)) - FirstDirty(e.size, offset), [], drawn)
    ensures WroteFresh(geo, m, Upserted(m, WrittenEntry(e, offset, len, drawn)), e.name, offset, len)
  {
    hide Drawn, Upserted, WrittenEntry;
  }

  lemma WroteTouches(geo: Geometry, m0: Manifest, m1: Manifest, name: Text, offset: nat, len: nat)
    requires WroteFresh(geo, m0, m1, name, offset, len)
    ensures OnlyTouched(m0, m1, name) && SizeOf(m1, name) == Max(SizeOf(m0, name), offset + len)
  {
    hide Drawn, Upserted, OnlyTouched;
    var e := Find(m0.entries, name).value;
    var drawn :| m1 == Upserted(m0, WrittenEntry(e, offset, len, drawn));
    UpsertTouches(m0, WrittenEntry(e, offset, len, drawn));
  }

  /** Freshly drawn chunks make the written entry what the write is about to publish. */
  lemma RangeReady(geo: Geometry, entries: seq<FileEntry>, e: FileEntry, offset: nat, len: nat, n: nat, drawn: seq<U32>)
    requires Layout(geo, entries) && e in entries && 0 < len && offset + len <= U64_MAX
    requires n == Pieces(Max(e.size, offset + len)) - FirstDirty(e.size, offset) && Drawn(geo, entries, n, [], drawn)
    ensures Placed(geo, drawn) && forall f | f in entries :: Disjoint(drawn, f.chunks)
    ensures |drawn| == n && |WrittenEntry(e, offset, len, drawn).chunks| == Pieces(Max(e.size, offset + len))
    ensures WrittenEntry(e, offset, len, drawn)
         == FileEntry(e.name, Max(e.size, offset + len), e.chunks[..Min(FirstDirty(e.size, offset), |e.chunks|)] + drawn)
  {
    hide Drawn, Placed, Disjoint, Layout, Pieces;
    DrawnIsPlaced(geo, entries, e.name, n, [], drawn);
    WrittenEntryIsPlaced(geo, entries, e, offset, len, drawn);
  }

  lemma EntryNamed(entries: seq<FileEntry>, e: FileEntry)
    requires e in entries
    ensures e.name in Names(entries)
  {}

  lemma EntryFacts(geo: Geometry, d: seq<Cell>, entries: seq<FileEntry>, files: Files, e: FileEntry)
    requires Layout(geo, entries) && Keeps(geo, d, entries, files) && e in entries
    ensures Shaped(e) && Placed(geo, e.chunks)
    ensures e.name in files ==> Holds(geo, d, e, files[e.name])
  {}

  /** Fresh chunks are off every entry and the manifest. */
  lemma UnusedChunks(geo: Geometry, d: seq<Cell>, d': seq<Cell>, m: Manifest, files: Files, changed: set<int>)
    requires geo.home < geo.total == |d|
    requires Publishable(geo, m) && Keeps(geo, d, m.entries, files)
    requires SameOutside(d, d', changed) && geo.home !in changed && changed !! Used(m.entries)
    ensures Keeps(geo, d', m.entries, files) && Reopen(geo, d') == Reopen(geo, d)
  {
    hide Serialized, Canonical, Parse, DecryptChunk, Keeps;
    forall e | e in m.entries ensures Elems(e.chunks) !! changed {
      forall c | c in e.chunks ensures (c as int) !in changed {
        assert (c as int) in Used(m.entries);
      }
    }
    KeepsDrop(geo, d, d', m.entries, files, {}, changed);
    assert files - {} == files;
  }

  lemma IntactIsSafe(geo: Geometry, image: seq<Cell>, m0: Manifest, files0: Files, m1: Manifest, files1: Files,
                     touched: set<Text>, displaced: set<int>)
    requires Intact(geo, image, m0, files0)
    ensures WindowSafe(geo, image, m0, files0, m1, files1, touched, displaced)
  {
    hide Intact;
  }

  lemma WindowWidens(geo: Geometry, image: seq<Cell>, m0: Manifest, files0: Files, m1: Manifest, files1: Files,
                     touched: set<Text>, displaced: set<int>, wider: set<int>)
    requires WindowSafe(geo, image, m0, files0, m1, files1, touched, displaced) && displaced <= wider
    ensures WindowSafe(geo, image, m0, files0, m1, files1, touched, wider)
  {
    hide Intact;
  }

  lemma WrittenAppend(geo: Geometry, disk: seq<Cell>, a: seq<U32>, b: seq<U32>, content: seq<Byte>)
    requires Written(geo, disk, a, content, |a|) && WrittenFrom(geo, disk, b, content, |a|, |b|)
    ensures Written(geo, disk, a + b, content, |a + b|)
  {
    hide Seal, Piece;
    forall i | 0 <= i < |a + b|
      ensures (a + b)[i] < |disk| && disk[(a + b)[i]] == Seal(geo.master, (a + b)[i], Piece(content, i))
    {
      if i >= |a| {
        assert (a + b)[i] == b[i - |a|] && |a| + (i - |a|) == i;
      }
    }
  }

  lemma WrittenIn(m: Manifest, e: FileEntry, offset: nat, len: nat, drawn: seq<U32>)
    requires offset + len <= U64_MAX
    ensures var w := WrittenEntry(e, offset, len, drawn);
            w in Upserted(m, w).entries && w.name == e.name && w.size == Max(e.size, offset + len)
  {}

  lemma WrittenCount(geo: Geometry, entries: seq<FileEntry>, e: FileEntry, offset: nat, len: nat, drawn: seq<U32>)
    requires Layout(geo, entries) && e in entries && len > 0 && offset + len <= U64_MAX
    requires Drawn(geo, entries, Pieces(Max(e.size, offset + len)) - FirstDirty(e.size, offset), [], drawn)
    ensures |WrittenEntry(e, offset, len, drawn).chunks| == Pieces(Max(e.size, offset + len))
  {
    FirstDirtyBounds(e.size, offset, len);
    assert Shaped(e);
  }
}
