/** Shrinking, and growing in windows that commit one by one. */
module TruncateSpec {
  import opened Bytes
  import opened Texts
  import opened Wrappers
  import opened Codecs
  import opened Manifests
  import opened ManifestCodec
  import opened Chunks
  import opened Store
  import opened Space
  import opened Splices
  import opened VaultSpec
  import opened WriteSpec
  import opened ReadSpec

  // ---- shrinking ----

  /** Whether the last surviving piece loses bytes, so that it must be re-encrypted. */
  predicate Straddles(newSize: nat) {
    newSize % CHUNK_PLAINTEXT_LEN != 0
  }

  /** The entry a shrink publishes; `drawn` holds the fresh chunk of a straddled piece. */
  function ShrunkEntry(e: FileEntry, newSize: U64, drawn: seq<U32>): FileEntry
    requires newSize < e.size && Shaped(e)
  {
    var kept := newSize / CHUNK_PLAINTEXT_LEN;
    FileEntry(e.name, newSize, e.chunks[..kept] + drawn)
  }

  function ShrunkFiles(files: Files, name: Text, newSize: nat): Files {
    if name in files && newSize <= |files[name]| then files[name := files[name][..newSize]] else files
  }

  function ShrinkRefusal(geo: Geometry, m: Manifest, newSize: nat): (refusal: Option<FormatError>)
    ensures refusal.Some? ==> refusal == Some(Full)
  {
    if Straddles(newSize) && FreeCount(geo, m.entries) < 1 then Some(Full) else None
  }

  /** What a shrink records: the shorter size on the chunks that stay, and for a straddled
      piece one chunk that was free before. */
  ghost predicate Shrank(geo: Geometry, m0: Manifest, m1: Manifest, name: Text, newSize: U64) {
    match Find(m0.entries, name)
    case None => false
    case Some(e) =>
      newSize < e.size && Shaped(e) && exists drawn ::
        && m1 == Upserted(m0, ShrunkEntry(e, newSize, drawn))
        && Drawn(geo, m0.entries, if Straddles(newSize) then 1 else 0, [], drawn)
  }

  lemma ShrunkEntryIsPlaced(geo: Geometry, entries: seq<FileEntry>, e: FileEntry, newSize: U64, drawn: seq<U32>)
    requires Layout(geo, entries) && e in entries && newSize < e.size
    requires Placed(geo, drawn) && forall f | f in entries :: Disjoint(drawn, f.chunks)
    requires |drawn| == if Straddles(newSize) then 1 else 0
    ensures Shaped(e) && Placed(geo, e.chunks)
    ensures Shaped(ShrunkEntry(e, newSize, drawn)) && Placed(geo, ShrunkEntry(e, newSize, drawn).chunks)
    ensures |ShrunkEntry(e, newSize, drawn).chunks| <= |e.chunks|
    ensures forall f | f in entries && f.name != e.name :: Disjoint(ShrunkEntry(e, newSize, drawn).chunks, f.chunks)
    ensures Elems(drawn) !! Used(entries)
  {
    var kept := newSize / CHUNK_PLAINTEXT_LEN;
    assert Placed(geo, e.chunks) && Shaped(e);
    var list := ShrunkEntry(e, newSize, drawn).chunks;
    assert forall c | c in list :: c in e.chunks || c in drawn;
    forall i, j | 0 <= i < j < |list| ensures list[i] != list[j] {
      if i < kept <= j {
        assert list[i] in e.chunks && list[j] in drawn;
      }
    }
  }

  lemma ShrankTouches(geo: Geometry, m0: Manifest, m1: Manifest, name: Text, newSize: U64)
    requires Shrank(geo, m0, m1, name, newSize)
    ensures OnlyTouched(m0, m1, name) && SizeOf(m1, name) == newSize
  {
    hide Drawn, Upserted, OnlyTouched;
    var e := Find(m0.entries, name).value;
    var drawn :| m1 == Upserted(m0, ShrunkEntry(e, newSize, drawn));
    UpsertTouches(m0, ShrunkEntry(e, newSize, drawn));
  }

  lemma NothingIsDrawn(geo: Geometry, entries: seq<FileEntry>)
    ensures Drawn(geo, entries, 0, [], [])
  {}

  lemma PrefixPiece(content: seq<Byte>, newSize: nat, i: nat)
    requires newSize <= |content| && i < newSize / CHUNK_PLAINTEXT_LEN
    ensures Piece(content[..newSize], i) == Piece(content, i)
  {}

  lemma ShrunkEntryHolds(geo: Geometry, d: seq<Cell>, d': seq<Cell>, e: FileEntry, content: seq<Byte>,
                         newSize: U64, drawn: seq<U32>)
    requires Holds(geo, d, e, content) && Disjoint(drawn, e.chunks) && SameOutside(d, d', Elems(drawn))
    requires newSize < e.size && Shaped(e)
    requires |drawn| == if Straddles(newSize) then 1 else 0
    requires WrittenFrom(geo, d', drawn, content[..newSize], newSize / CHUNK_PLAINTEXT_LEN, |drawn|)
    ensures Holds(geo, d', ShrunkEntry(e, newSize, drawn), content[..newSize])
  {
    var kept := newSize / CHUNK_PLAINTEXT_LEN;
    assert kept <= |e.chunks|;
    hide Seal, Pieces, Piece, Shaped;
    KeptPieces(geo, d, d', e, content, newSize, drawn, kept);
    WrittenAppend(geo, d', e.chunks[..kept], drawn, content[..newSize]);
  }

  lemma KeptPieces(geo: Geometry, d: seq<Cell>, d': seq<Cell>, e: FileEntry, content: seq<Byte>,
                   newSize: nat, drawn: seq<U32>, kept: nat)
    requires Holds(geo, d, e, content) && Disjoint(drawn, e.chunks) && SameOutside(d, d', Elems(drawn))
    requires newSize <= |content| && kept == newSize / CHUNK_PLAINTEXT_LEN <= |e.chunks|
    ensures Written(geo, d', e.chunks[..kept], content[..newSize], kept)
  {
    hide Seal, Piece;
    forall i | 0 <= i < kept
      ensures e.chunks[i] < |d'| && d'[e.chunks[i]] == Seal(geo.master, e.chunks[i], Piece(content[..newSize], i))
    {
      PrefixPiece(content, newSize, i);
      assert e.chunks[i] in e.chunks;
    }
  }

  lemma ShrinkReady(geo: Geometry, d: seq<Cell>, d': seq<Cell>, m: Manifest, files: Files, e: FileEntry,
                    newSize: U64, drawn: seq<U32>)
    requires geo.home < geo.total == |d|
    requires Publishable(geo, m) && Keeps(geo, d, m.entries, files) && e in m.entries
    requires newSize < e.size && Shaped(e)
    requires Placed(geo, drawn) && forall f | f in m.entries :: Disjoint(drawn, f.chunks)
    requires |drawn| == if Straddles(newSize) then 1 else 0
    requires SameOutside(d, d', Elems(drawn))
    requires Serialized(Upserted(m, ShrunkEntry(e, newSize, drawn))).Success?
    requires e.name in files ==> newSize <= |files[e.name]|
    requires e.name in files ==>
               WrittenFrom(geo, d', drawn, files[e.name][..newSize], newSize / CHUNK_PLAINTEXT_LEN, |drawn|)
    ensures Publishable(geo, Upserted(m, ShrunkEntry(e, newSize, drawn)))
    ensures Keeps(geo, d', Upserted(m, ShrunkEntry(e, newSize, drawn)).entries, ShrunkFiles(files, e.name, newSize))
  {
    hide Serialized, Parse, DecryptChunk, Seal, Piece, Holds, WrittenFrom, Canonical, Pieces, NoDup, Shaped,
      Apart, UniqueNames, Without, Used, Reopen;
    var w := ShrunkEntry(e, newSize, drawn);
    var after := ShrunkFiles(files, e.name, newSize);
    ShrunkEntryIsPlaced(geo, m.entries, e, newSize, drawn);
    if e.name in files {
      ShrunkEntryHolds(geo, d, d', e, files[e.name], newSize, drawn);
    }
    assert after - {e.name} == files - {e.name};
    forall f | f in m.entries ensures Elems(f.chunks) !! Elems(drawn) {
      assert Disjoint(drawn, f.chunks);
    }
    UpsertReady(geo, d, d', Elems(drawn), m, files, w, after);
  }

  lemma ShrinkDisplaces(geo: Geometry, m: Manifest, e: FileEntry, newSize: U64, drawn: seq<U32>, shred: seq<U32>)
    requires Layout(geo, m.entries) && e in m.entries && newSize < e.size && Shaped(e)
    requires forall f | f in m.entries :: Disjoint(drawn, f.chunks)
    requires forall c :: c in shred <==> c in e.chunks[newSize / CHUNK_PLAINTEXT_LEN..]
    ensures Sheddable(geo, shred, m.entries, {e.name})
    ensures Sheddable(geo, shred, Upserted(m, ShrunkEntry(e, newSize, drawn)).entries, {})
    ensures Elems(shred) <= Elems(ChunkList(m.entries, e.name))
  {
    var kept := newSize / CHUNK_PLAINTEXT_LEN;
    var w := ShrunkEntry(e, newSize, drawn);
    FindUnique(m.entries, e);
    assert Placed(geo, e.chunks);
    assert Disjoint(drawn, e.chunks);
    forall c | c in shred ensures c in e.chunks && c !in w.chunks {
      var k :| kept <= k < |e.chunks| && e.chunks[k] == c;
    }
    DisplacedIsSheddable(geo, m, w, shred);
  }

  lemma ShrinkCounts(e: FileEntry, newSize: nat, content: Option<seq<Byte>>, geo: Geometry, disk: seq<Cell>)
    requires Shaped(e) && newSize < e.size
    requires content.Some? ==> Holds(geo, disk, e, content.value)
    ensures Pieces(newSize) <= |e.chunks|
    ensures content.Some? ==> |content.value| == e.size
    ensures newSize > 0 ==>
              var start := (Pieces(newSize) - 1) * CHUNK_PLAINTEXT_LEN;
              && start < newSize <= start + CHUNK_PLAINTEXT_LEN
              && (newSize - start != Min(start + CHUNK_PLAINTEXT_LEN, e.size) - start <==> Straddles(newSize))
              && (content.Some? ==> newSize - start <= |Piece(content.value, Pieces(newSize) - 1)|)
    ensures newSize == 0 ==> Pieces(newSize) == 0 && !Straddles(newSize)
  {}

  /** The chunk list the shrink computes step by step, and the chunks it sets aside. */
  lemma ShrunkEntryIs(e: FileEntry, newSize: U64, drawn: seq<U32>, list: seq<U32>, toFree: seq<U32>)
    requires Shaped(e) && newSize < e.size && Pieces(newSize) <= |e.chunks|
    requires |drawn| == if Straddles(newSize) then 1 else 0
    requires list == if Straddles(newSize) then e.chunks[..Pieces(newSize)][Pieces(newSize) - 1 := drawn[0]]
                     else e.chunks[..Pieces(newSize)]
    requires toFree == e.chunks[Pieces(newSize)..] + if Straddles(newSize) then [e.chunks[Pieces(newSize) - 1]] else []
    ensures ShrunkEntry(e, newSize, drawn) == FileEntry(e.name, newSize, list)
    ensures forall c :: c in toFree <==> c in e.chunks[newSize / CHUNK_PLAINTEXT_LEN..]
  {
    hide Pieces, Straddles, Shaped;
    PiecesAfter(newSize);
    var kept := newSize / CHUNK_PLAINTEXT_LEN;
    if Straddles(newSize) {
      assert list == e.chunks[..kept] + [drawn[0]];
      assert drawn == [drawn[0]];
      assert e.chunks[kept..] == [e.chunks[kept]] + e.chunks[kept + 1..];
    } else {
      assert drawn == [] && list == e.chunks[..kept] + drawn;
    }
  }

  lemma PiecesAfter(newSize: nat)
    ensures Pieces(newSize) == newSize / CHUNK_PLAINTEXT_LEN + if Straddles(newSize) then 1 else 0
  {}

  lemma LastPiece(geo: Geometry, disk: seq<Cell>, drawn: seq<U32>, content: seq<Byte>, newSize: nat)
    requires newSize < |content|
    requires |drawn| == if Straddles(newSize) then 1 else 0
    requires Straddles(newSize) ==>
               var last := Pieces(newSize) - 1;
               var newLen := newSize - last * CHUNK_PLAINTEXT_LEN;
               && 0 <= last && 0 <= newLen <= |Piece(content, last)|
               && drawn[0] < |disk| && disk[drawn[0]] == Seal(geo.master, drawn[0], Piece(content, last)[..newLen])
    ensures WrittenFrom(geo, disk, drawn, content[..newSize], newSize / CHUNK_PLAINTEXT_LEN, |drawn|)
  {
    hide Seal;
    if Straddles(newSize) {
      var last := newSize / CHUNK_PLAINTEXT_LEN;
      assert last == Pieces(newSize) - 1;
      StraddledPiece(content, newSize, last);
    }
  }

  lemma StraddledPiece(content: seq<Byte>, newSize: nat, last: nat)
    requires newSize <= |content| && last == newSize / CHUNK_PLAINTEXT_LEN
    ensures 0 <= newSize - last * CHUNK_PLAINTEXT_LEN <= |Piece(content, last)|
    ensures Piece(content[..newSize], last) == Piece(content, last)[..newSize - last * CHUNK_PLAINTEXT_LEN]
  {
    var start := last * CHUNK_PLAINTEXT_LEN;
    var end := Min(start + CHUNK_PLAINTEXT_LEN, |content|);
    PieceFrom(content[..newSize], last, newSize);
    PieceFrom(content, last, end);
    SliceOfSlice(content, 0, newSize, start, newSize);
    SliceOfSlice(content, start, end, 0, newSize - start);
  }

  lemma PieceFrom(content: seq<Byte>, i: nat, end: nat)
    requires i * CHUNK_PLAINTEXT_LEN <= end == Min((i + 1) * CHUNK_PLAINTEXT_LEN, |content|)
    ensures Piece(content, i) == content[i * CHUNK_PLAINTEXT_LEN..end]
  {}

  lemma NothingIsPlaced(geo: Geometry)
    ensures Placed(geo, [])
  {}

  lemma FreeIsUnused(geo: Geometry, entries: seq<FileEntry>)
    ensures Free(geo, entries) !! Used(entries) && geo.home !in Free(geo, entries)
  {}

  lemma ShrunkSerializes(geo: Geometry, m: Manifest, e: FileEntry, newSize: U64, drawn: seq<U32>)
    requires Publishable(geo, m) && e in m.entries && newSize < e.size && Shaped(e)
    requires |ShrunkEntry(e, newSize, drawn).chunks| <= |e.chunks|
    ensures Serialized(Upserted(m, ShrunkEntry(e, newSize, drawn))).Success?
  {
    hide Print;
    var w := ShrunkEntry(e, newSize, drawn);
    ShrinkFits(m, e, |w.chunks|);
    UpsertSerializes(m, w);
  }

  /** A shrink never makes the manifest longer. */
  lemma ShrinkFits(m: Manifest, e: FileEntry, chunkCount: nat)
    requires UniqueNames(m.entries) && e in m.entries && chunkCount <= |e.chunks|
    ensures GrownLen(m, e.name, chunkCount) <= |Print(m)|
  {
    EntriesLen(m.entries, e);
  }

  lemma EntryIsLong(e: FileEntry)
    ensures |PrintEntry(e)| == EntryLen(e.name, |e.chunks|)
  {
    PrintChunksLen(e.chunks);
  }

  lemma {:induction false} EntriesLen(entries: seq<FileEntry>, e: FileEntry)
    requires UniqueNames(entries) && e in entries
    ensures |PrintAll(PrintEntry, Without(entries, e.name))| + EntryLen(e.name, |e.chunks|) == |PrintAll(PrintEntry, entries)|
  {
    hide UniqueNames, EntryLen, Le;
    UniqueTail(entries);
    var tail := entries[1..];
    EntryIsLong(e);
    if entries[0] == e {
      WithoutAbsent(tail, e.name);
      assert Without(entries, e.name) == tail;
    } else {
      EntriesLen(tail, e);
      assert Without(entries, e.name)[1..] == Without(tail, e.name);
    }
  }

  // ---- growing in windows ----

  const GROW_WINDOW: nat := 64 * CHUNK_PLAINTEXT_LEN

  /** A growing truncate of a file of size s to size t succeeds exactly when this holds. The
      first line is the pre-flight check; the second also counts the chunk a window must
      re-encrypt when s is not on a chunk boundary, which the pre-flight check forgets. */
  predicate GrowFits(geo: Geometry, m: Manifest, name: Text, s: nat, t: nat) {
    && t - s <= FreeCount(geo, m.entries) * CHUNK_PLAINTEXT_LEN
    && Pieces(t) - s / CHUNK_PLAINTEXT_LEN <= FreeCount(geo, m.entries)
    && GrownLen(m, name, Pieces(t)) <= CHUNK_PLAINTEXT_LEN
  }

  /** Where the last window of a growth starts. */
  function LastStop(s: nat, t: nat): (stop: nat)
    requires s < t
    ensures s <= stop < t
  {
    s + (t - s - 1) / GROW_WINDOW * GROW_WINDOW
  }

  /** Why a growth that does not fit is refused: Full by the pre-flight check, or because the last
      window lacks the chunk that the check forgets, unless the manifest overflows in an earlier one. */
  function GrowError(geo: Geometry, m: Manifest, name: Text, s: nat, t: nat): FormatError
    requires s < t
  {
    if t - s > FreeCount(geo, m.entries) * CHUNK_PLAINTEXT_LEN then Full
    else if Pieces(t) - s / CHUNK_PLAINTEXT_LEN > FreeCount(geo, m.entries)
            && GrownLen(m, name, Pieces(LastStop(s, t))) <= CHUNK_PLAINTEXT_LEN then Full
    else ManifestOverflow
  }

  /** The growth is refused before anything is committed: by the pre-flight check or by the
      first window. Otherwise a refusal leaves a partly grown file. */
  predicate GrowRefusedAtOnce(geo: Geometry, m: Manifest, name: Text, s: nat, t: nat) {
    || t - s > FreeCount(geo, m.entries) * CHUNK_PLAINTEXT_LEN
    || (s < t && WriteRefusal(geo, m, false, name, s, Min(GROW_WINDOW, t - s)).Some?)
  }

  function GrownFiles(files: Files, name: Text, more: nat): Files {
    if name in files then files[name := files[name] + Zeros(more)] else files
  }

  lemma GrowStep(files: Files, name: Text, size: nat, more: nat, n: nat)
    requires name in files ==> |files[name]| == size
    ensures WrittenFiles(GrownFiles(files, name, more), name, size + more, Zeros(n)) == GrownFiles(files, name, more + n)
  {
    if name in files {
      var c := files[name];
      assert Splice(c + Zeros(more), size + more, Zeros(n)) == c + Zeros(more + n);
    }
  }

  lemma GrownNothing(files: Files, name: Text)
    ensures GrownFiles(files, name, 0) == files
  {
    if name in files {
      assert files[name] + Zeros(0) == files[name];
    }
  }

  /** A grow in progress: the entry is now `e`, and the accounting is relative to the start. */
  ghost predicate Growth(geo: Geometry, m0: Manifest, e0: FileEntry, files0: Files, m: Manifest, e: FileEntry, files: Files) {
    && Find(m0.entries, e0.name) == Some(e0) && Find(m.entries, e0.name) == Some(e)
    && e0.size <= e.size
    && (if e.size == e0.size then e == e0 && m == m0 else |e.chunks| == Pieces(e.size))
    && FreeCount(geo, m.entries) == FreeCount(geo, m0.entries) + |e0.chunks| - |e.chunks|
    && (forall k: nat :: GrownLen(m, e0.name, k) == GrownLen(m0, e0.name, k))
    && files == GrownFiles(files0, e0.name, e.size - e0.size)
    && KeepsWhole(e0, e)
  }

  /** The chunks that were full when the growth started are still the first ones. */
  predicate KeepsWhole(e0: FileEntry, e: FileEntry) {
    var whole := e0.size / CHUNK_PLAINTEXT_LEN;
    whole <= |e0.chunks| && whole <= |e.chunks| && e.chunks[..whole] == e0.chunks[..whole]
  }

  /** What a growth records: the larger size, as many chunks as it needs, and the full chunks
      of before in their places; nothing else of the manifest changes. */
  ghost predicate Grew(m0: Manifest, m1: Manifest, name: Text, newSize: U64) {
    match (Find(m0.entries, name), Find(m1.entries, name))
    case (Some(e0), Some(e)) =>
      OnlyTouched(m0, m1, name) && e.size == newSize > e0.size && |e.chunks| == Pieces(newSize) && KeepsWhole(e0, e)
    case _ => false
  }

  lemma GrewTouches(m0: Manifest, m1: Manifest, name: Text, newSize: U64)
    requires Grew(m0, m1, name, newSize)
    ensures OnlyTouched(m0, m1, name)
  {}

  lemma GrownOthers(files: Files, name: Text, more: nat)
    ensures GrownFiles(files, name, more) - {name} == files - {name}
  {}

  /** Grown by `least` to `most` of the `total` bytes asked for: by whole windows, or by all of them. */
  ghost predicate GrownPartly(files0: Files, name: Text, least: nat, most: int, total: int, files1: Files) {
    exists j: nat | least <= j <= most && Boundary(j, total) :: files1 == GrownFiles(files0, name, j)
  }

  /** Where a growth may stop: after whole windows, or at its end. */
  predicate Boundary(j: int, total: int) {
    j % GROW_WINDOW == 0 || j == total
  }

  lemma GrownTo(files0: Files, name: Text, j: nat, least: nat, most: int, total: int)
    requires least <= j <= most && Boundary(j, total)
    ensures GrownPartly(files0, name, least, most, total, GrownFiles(files0, name, j))
  {}

  lemma NotYetGrown(files0: Files, name: Text, total: nat)
    ensures Boundary(0, total) && GrownPartly(files0, name, 0, total, total, files0)
  {
    GrownNothing(files0, name);
    GrownTo(files0, name, 0, 0, total, total);
  }

  lemma NextBoundary(done: nat, n: nat, total: int)
    requires done % GROW_WINDOW == 0 && n == Min(GROW_WINDOW, total - done)
    ensures Boundary(done, total) && Boundary(done + n, total)
  {}

  /** After whole windows, but not all the way. */
  predicate Partway(j: int, total: int) {
    0 < j < total && j % GROW_WINDOW == 0
  }

  /** The places where a window that starts after `done` bytes may leave the contents. */
  lemma Stops(files0: Files, name: Text, done: nat, n: nat, total: int)
    requires Boundary(done, total) && Boundary(done + n, total) && 0 < n && done + n <= total
    ensures GrownPartly(files0, name, 0, total, total, GrownFiles(files0, name, done))
    ensures done > 0 ==> GrownPartly(files0, name, 1, total - 1, total, GrownFiles(files0, name, done))
    ensures GrownPartly(files0, name, 0, total, total, GrownFiles(files0, name, done + n))
    ensures GrownPartly(files0, name, 1, total, total, GrownFiles(files0, name, done + n))
  {
    hide GrownFiles, Boundary;
  }

  /** A grow in progress: so many bytes are there, committed in windows. */
  ghost predicate Advanced(m0: Manifest, files0: Files, ticks0: nat, m: Manifest, files: Files, ticks: nat,
                           name: Text, size: nat, done: nat) {
    && files == GrownFiles(files0, name, done)
    && if done == 0 then m == m0 && files == files0 && ticks == ticks0
       else ticks > ticks0 && OnlyTouched(m0, m, name) && SizeOf(m, name) == size + done
  }

  lemma AdvancedIs(m0: Manifest, files0: Files, ticks0: nat, m: Manifest, files: Files, ticks: nat,
                   name: Text, size: nat, done: nat)
    requires Advanced(m0, files0, ticks0, m, files, ticks, name, size, done) && done > 0
    ensures files == GrownFiles(files0, name, done) && ticks > ticks0 && OnlyTouched(m0, m, name)
  {
    hide OnlyTouched;
  }

  lemma WindowAdvances(m0: Manifest, files0: Files, ticks0: nat, m: Manifest, files: Files, ticks: nat,
                       m1: Manifest, ticks1: nat, name: Text, size: nat, done: nat, n: nat)
    requires Advanced(m0, files0, ticks0, m, files, ticks, name, size, done) && n > 0
    requires OnlyTouched(m, m1, name) && ticks1 > ticks && SizeOf(m1, name) == size + done + n
    ensures Advanced(m0, files0, ticks0, m1, GrownFiles(files0, name, done + n), ticks1, name, size, done + n)
  {
    hide OnlyTouched, GrownFiles, SizeOf;
    if done > 0 {
      TouchedAgain(m0, m, m1, name);
    }
  }

  /** A chunk of the file, as the image's own manifest lists it, is noise already. */
  ghost predicate ShredStarted(geo: Geometry, image: seq<Cell>, name: Text) {
    && geo.home < |image| && Reopen(geo, image).Success?
    && exists c | c in ChunkList(Reopen(geo, image).value.entries, name) :: c < |image| && image[c] == Noise
  }

  /** What a crash during a growth leaves: the file grown to some window boundary, or, once a
      displaced chunk of it is noise, at least every other file. */
  ghost predicate GrowthSafe(geo: Geometry, image: seq<Cell>, files0: Files, name: Text, total: int) {
    || (exists j: nat | j <= total && Boundary(j, total) :: StillReads(geo, image, GrownFiles(files0, name, j)))
    || (StillReads(geo, image, files0 - {name}) && ShredStarted(geo, image, name))
  }

  lemma WindowIsGrowth(geo: Geometry, image: seq<Cell>, m0: Manifest, m1: Manifest, files0: Files, name: Text,
                       done: nat, n: nat, total: int)
    requires done + n <= total && Boundary(done, total) && Boundary(done + n, total)
    requires WindowSafe(geo, image, m0, GrownFiles(files0, name, done), m1, GrownFiles(files0, name, done + n), {name},
                        Elems(ChunkList(m0.entries, name)))
    ensures GrowthSafe(geo, image, files0, name, total)
  {
    hide Publishable, Reopen, Keeps, ChunkList, Boundary;
    if Intact(geo, image, m0, GrownFiles(files0, name, done)) {
      assert StillReads(geo, image, GrownFiles(files0, name, done));
    } else if Intact(geo, image, m1, GrownFiles(files0, name, done + n)) {
      assert StillReads(geo, image, GrownFiles(files0, name, done + n));
    } else {
      assert GrownFiles(files0, name, done) - {name} == files0 - {name};
    }
  }

  lemma GrowthStillReads(geo: Geometry, image: seq<Cell>, files0: Files, name: Text, total: int)
    requires GrowthSafe(geo, image, files0, name, total)
    ensures StillReads(geo, image, files0 - {name})
  {
    hide Publishable, Reopen, Boundary, Holds;
    if !(StillReads(geo, image, files0 - {name}) && ShredStarted(geo, image, name)) {
      var j: nat :| j <= total && Boundary(j, total) && StillReads(geo, image, GrownFiles(files0, name, j));
    }
  }

  lemma StillWhole(e0: FileEntry, e: FileEntry, n: nat, drawn: seq<U32>)
    requires KeepsWhole(e0, e) && e0.size <= e.size && e.size + n <= U64_MAX && n > 0
    requires FirstDirty(e.size, e.size) <= |e.chunks|
    ensures KeepsWhole(e0, WrittenEntry(e, e.size, n, drawn))
  {
    var whole := e0.size / CHUNK_PLAINTEXT_LEN;
    assert whole <= FirstDirty(e.size, e.size);
  }

  /** One committed window keeps the grow on track. */
  lemma WindowCommitted(geo: Geometry, m0: Manifest, e0: FileEntry, files0: Files, m: Manifest, e: FileEntry, files: Files,
                        m1: Manifest, n: nat)
    requires Layout(geo, m.entries) && Layout(geo, m1.entries) && n > 0
    requires Growth(geo, m0, e0, files0, m, e, files)
    requires e0.name in files0 ==> |files0[e0.name]| == e0.size
    requires WroteFresh(geo, m, m1, e0.name, e.size, n)
    ensures Find(m1.entries, e0.name).Some? && Find(m1.entries, e0.name).value.size == e.size + n
    ensures Growth(geo, m0, e0, files0, m1, Find(m1.entries, e0.name).value, WrittenFiles(files, e0.name, e.size, Zeros(n)))
  {
    hide Layout, Drawn, Print, Pieces, FirstDirty, GrownLen, Without, FreeCount, WrittenEntry, Upserted,
      WrittenFiles, GrownFiles;
    LayoutUnique(geo, m.entries);
    LayoutUnique(geo, m1.entries);
    FirstDirtyBounds(e.size, e.size, n);
    var drawn :| m1 == Upserted(m, WrittenEntry(e, e.size, n, drawn))
                 && Drawn(geo, m.entries, Pieces(Max(e.size, e.size + n)) - FirstDirty(e.size, e.size), [], drawn);
    var w := WrittenEntry(e, e.size, n, drawn);
    WrittenIn(m, e, e.size, n, drawn);
    FindUnique(m1.entries, w);
    FindUnique(m.entries, e);
    WrittenCount(geo, m.entries, e, e.size, n, drawn);
    FreeAfterUpsert(geo, m, w);
    StillWhole(e0, e, n, drawn);
    GrowStep(files0, e0.name, e0.size, e.size - e0.size, n);
    forall k: nat ensures GrownLen(m1, e0.name, k) == GrownLen(m0, e0.name, k) {
      GrownLenStable(m, w, k);
      assert GrownLen(m, e0.name, k) == GrownLen(m0, e0.name, k);
    }
  }

  lemma PublishedLayout(geo: Geometry, m: Manifest)
    requires Publishable(geo, m)
    ensures Layout(geo, m.entries)
  {}

  lemma GrowStart(geo: Geometry, disk: seq<Cell>, m: Manifest, e: FileEntry, files: Files)
    requires Publishable(geo, m) && Keeps(geo, disk, m.entries, files) && Find(m.entries, e.name) == Some(e)
    ensures Growth(geo, m, e, files, m, e, files)
    ensures e.name in files ==> |files[e.name]| == e.size
  {
    GrownNothing(files, e.name);
  }

  lemma PreflightFails(geo: Geometry, m: Manifest, name: Text, s: nat, t: nat)
    requires t - s > FreeCount(geo, m.entries) * CHUNK_PLAINTEXT_LEN
    ensures !GrowFits(geo, m, name, s, t) && GrowRefusedAtOnce(geo, m, name, s, t)
    ensures s < t ==> GrowError(geo, m, name, s, t) == Full
  {}

  lemma GrowthShape(geo: Geometry, m0: Manifest, e0: FileEntry, files0: Files, m: Manifest, e: FileEntry, files: Files)
    requires Growth(geo, m0, e0, files0, m, e, files)
    ensures files == GrownFiles(files0, e0.name, e.size - e0.size) && e.name == e0.name
    ensures SizeOf(m, e0.name) == e.size
    ensures e.size > e0.size && e.size <= U64_MAX && OnlyTouched(m0, m, e0.name) ==> Grew(m0, m, e0.name, e.size)
  {}

  lemma SameKeys(files: Files, name: Text, more: nat)
    ensures GrownFiles(files, name, more).Keys == files.Keys
  {}

  // ---- truncation as a whole ----

  function Truncated(content: seq<Byte>, size: nat): (c: seq<Byte>)
    ensures |c| == size
  {
    if size <= |content| then content[..size] else content + Zeros(size - |content|)
  }

  function TruncatedFiles(files: Files, name: Text, size: nat): Files {
    if name in files then files[name := Truncated(files[name], size)] else files
  }

  /** What a crash during a truncate leaves: a shrink's images are those of one destructive
      phase, a growth's are described by window boundaries. */
  ghost predicate TruncateSafe(geo: Geometry, image: seq<Cell>, m0: Manifest, files0: Files, m1: Manifest, files1: Files,
                               name: Text, newSize: nat) {
    if newSize < SizeOf(m0, name)
    then WindowSafe(geo, image, m0, files0, m1, files1, {name}, Elems(ChunkList(m0.entries, name)))
    else GrowthSafe(geo, image, files0, name, newSize - SizeOf(m0, name))
  }

  predicate ResizeFits(geo: Geometry, m: Manifest, name: Text, now: nat, size: nat) {
    && (size < now ==> ShrinkRefusal(geo, m, size).None?)
    && (size > now ==> GrowFits(geo, m, name, now, size))
  }

  /** Why a truncate to another size is refused. */
  function ResizeRefusal(geo: Geometry, m: Manifest, name: Text, now: nat, size: nat): (refusal: Option<FormatError>)
    ensures refusal.None? <==> ResizeFits(geo, m, name, now, size)
  {
    if size < now then ShrinkRefusal(geo, m, size)
    else if size == now || GrowFits(geo, m, name, now, size) then None
    else Some(GrowError(geo, m, name, now, size))
  }

  predicate ResizeLeavesPart(geo: Geometry, m: Manifest, name: Text, now: nat, size: nat) {
    size > now && !GrowRefusedAtOnce(geo, m, name, now, size) && !GrowFits(geo, m, name, now, size)
  }

  /** Why a truncate is refused whatever the size. */
  function TruncateGuard(m: Manifest, poisoned: bool, name: Text): Option<FormatError> {
    Guarded(poisoned, name, if Find(m.entries, name).None? then Some(FileNotFound(name)) else None)
  }

  function TruncateRefusal(geo: Geometry, m: Manifest, poisoned: bool, name: Text, size: nat): Option<FormatError> {
    if TruncateGuard(m, poisoned, name).Some? then TruncateGuard(m, poisoned, name)
    else ResizeRefusal(geo, m, name, SizeOf(m, name), size)
  }

  /** Exactly when a truncate of an undamaged file succeeds (barring I/O failures). */
  predicate TruncateFits(geo: Geometry, m: Manifest, poisoned: bool, name: Text, size: nat) {
    !poisoned && ValidName(name) && Find(m.entries, name).Some? && ResizeFits(geo, m, name, SizeOf(m, name), size)
  }

  /** Exactly when a refused truncate has already committed part of the growth: the pre-flight
      check and the first window pass, and a later window does not. */
  predicate TruncateLeavesPart(geo: Geometry, m: Manifest, poisoned: bool, name: Text, size: nat) {
    !poisoned && ValidName(name) && Find(m.entries, name).Some? && ResizeLeavesPart(geo, m, name, SizeOf(m, name), size)
  }

  lemma TruncatedIs(files: Files, name: Text, size: nat, newSize: nat)
    requires name in files ==> |files[name]| == size
    ensures newSize == size ==> TruncatedFiles(files, name, newSize) == files
    ensures newSize > size ==> TruncatedFiles(files, name, newSize) == GrownFiles(files, name, newSize - size)
    ensures newSize < size ==> TruncatedFiles(files, name, newSize) == ShrunkFiles(files, name, newSize)
  {
    if name in files && newSize == size {
      assert files[name][..newSize] == files[name];
    }
  }

  lemma SameSizeFits(geo: Geometry, m: Manifest, name: Text, size: nat)
    ensures ResizeFits(geo, m, name, size, size)
  {}

  lemma ShrunkOthers(files: Files, name: Text, newSize: nat)
    ensures ShrunkFiles(files, name, newSize) - {name} == files - {name}
    ensures ShrunkFiles(files, name, newSize).Keys == files.Keys
    ensures files - {name} - {name} == files - {name}
  {}

  /** What the outcome of one window, from `at` to the size of `next`, says about the whole growth. */
  predicate WindowTells(geo: Geometry, m0: Manifest, name: Text, s: U64, at: U64, t: U64, r: Result<()>, next: FileEntry) {
    && (r.Success? && next.size == t ==> GrowFits(geo, m0, name, s, t))
    && (r.Success? && at == s ==> !GrowRefusedAtOnce(geo, m0, name, s, t))
    && (r.Failure? && r.error != Io ==>
          && s < t && r.error == GrowError(geo, m0, name, s, t) && !GrowFits(geo, m0, name, s, t)
          && (at == s ==> GrowRefusedAtOnce(geo, m0, name, s, t)))
  }

  /** Whether a window is refused, in terms of the state the grow started from. */
  lemma WindowVerdict(geo: Geometry, m0: Manifest, e0: FileEntry, files0: Files, m: Manifest, e: FileEntry, files: Files, t: nat)
    requires Layout(geo, m0.entries) && Layout(geo, m.entries) && geo.total <= U32_MAX && ValidName(e0.name)
    requires Growth(geo, m0, e0, files0, m, e, files)
    requires e.size < t <= U64_MAX && (e.size - e0.size) % GROW_WINDOW == 0
    requires t - e0.size <= FreeCount(geo, m0.entries) * CHUNK_PLAINTEXT_LEN
    ensures var n := Min(GROW_WINDOW, t - e.size);
            var refusal := WriteRefusal(geo, m, false, e0.name, e.size, n);
            && (e.size + n < t ==> (e.size + n - e0.size) % GROW_WINDOW == 0)
            && (refusal.Some? ==> refusal.value in {Full, ManifestOverflow} && !GrowFits(geo, m0, e0.name, e0.size, t))
            && (refusal.None? && e.size + n == t ==> GrowFits(geo, m0, e0.name, e0.size, t))
            && (e.size == e0.size ==> (refusal.Some? <==> GrowRefusedAtOnce(geo, m0, e0.name, e0.size, t)))
  {
    hide Layout, Print, ValidName, Pieces, GrownLen, UniqueNames, FreeCount;
    LayoutUnique(geo, m0.entries);
    LayoutUnique(geo, m.entries);
    EntryPlaced(geo, m0.entries, e0);
    var s, n := e0.size, Min(GROW_WINDOW, t - e.size);
    GrowInRange(geo, m0.entries, e0, t);
    WindowNeeds(geo, m0, m, e0, e, s, t, e.size);
    assert GrownLen(m, e0.name, Pieces(e.size + n)) == GrownLen(m0, e0.name, Pieces(e.size + n));
    GrownLenGrows(m0, e0.name, Pieces(e.size + n), Pieces(t));
  }

  /** And with which answer, given that the manifest still fits so far. */
  lemma WindowError(geo: Geometry, m0: Manifest, e0: FileEntry, files0: Files, m: Manifest, e: FileEntry, files: Files, t: nat)
    requires Layout(geo, m0.entries) && Layout(geo, m.entries) && geo.total <= U32_MAX && ValidName(e0.name)
    requires Growth(geo, m0, e0, files0, m, e, files)
    requires e.size < t <= U64_MAX && (e.size - e0.size) % GROW_WINDOW == 0
    requires t - e0.size <= FreeCount(geo, m0.entries) * CHUNK_PLAINTEXT_LEN
    requires GrownLen(m, e0.name, Pieces(e.size)) <= CHUNK_PLAINTEXT_LEN
    ensures var refusal := WriteRefusal(geo, m, false, e0.name, e.size, Min(GROW_WINDOW, t - e.size));
            refusal.Some? ==> refusal.value == GrowError(geo, m0, e0.name, e0.size, t)
  {
    hide Layout, Growth, ValidName, Pieces, GrownLen, FreeCount, LastStop, FirstDirty;
    WindowRoom(geo, m0, e0, files0, m, e, files, t);
    var s, n := e0.size, Min(GROW_WINDOW, t - e.size);
    LastWindow(s, e.size, t);
    if e.size + n < t {
      PiecesGrow(e.size + n, LastStop(s, t));
      GrownLenGrows(m0, e0.name, Pieces(e.size + n), Pieces(LastStop(s, t)));
    }
  }

  /** The chunks a window needs and the length it leads to, in terms of the state the growth started from. */
  lemma WindowRoom(geo: Geometry, m0: Manifest, e0: FileEntry, files0: Files, m: Manifest, e: FileEntry, files: Files, t: nat)
    requires Layout(geo, m0.entries) && Layout(geo, m.entries) && geo.total <= U32_MAX
    requires Growth(geo, m0, e0, files0, m, e, files)
    requires e.size < t && (e.size - e0.size) % GROW_WINDOW == 0
    requires t - e0.size <= FreeCount(geo, m0.entries) * CHUNK_PLAINTEXT_LEN
    ensures var s, n := e0.size, Min(GROW_WINDOW, t - e.size);
            var needed := Pieces(e.size + n) - FirstDirty(e.size, e.size);
            && s <= e.size && Find(m.entries, e0.name) == Some(e) && Pieces(e.size + n) <= U32_MAX
            && (e.size + n < t ==> needed <= FreeCount(geo, m.entries))
            && (e.size + n == t ==>
                  (needed <= FreeCount(geo, m.entries)
                   <==> Pieces(t) - s / CHUNK_PLAINTEXT_LEN <= FreeCount(geo, m0.entries)))
            && GrownLen(m, e0.name, Pieces(e.size + n)) == GrownLen(m0, e0.name, Pieces(e.size + n))
            && GrownLen(m, e0.name, Pieces(e.size)) == GrownLen(m0, e0.name, Pieces(e.size))
  {
    hide Layout, Pieces, GrownLen, UniqueNames, FreeCount, FirstDirty;
    LayoutUnique(geo, m0.entries);
    LayoutUnique(geo, m.entries);
    EntryPlaced(geo, m0.entries, e0);
    GrowInRange(geo, m0.entries, e0, t);
    WindowNeeds(geo, m0, m, e0, e, e0.size, t, e.size);
    if e.size + GROW_WINDOW < t {
      ShapedHas(e0);
      RoomBefore(e0.size, e.size, t, FreeCount(geo, m0.entries), |e0.chunks|, |e.chunks|);
    }
  }

  lemma ShapedHas(e: FileEntry)
    requires Shaped(e)
    ensures Pieces(e.size) <= |e.chunks|
  {}

  lemma PiecesGrow(a: nat, b: nat)
    requires a <= b
    ensures Pieces(a) <= Pieces(b)
  {}

  /** The window from `cursor` is the last one, or ends where the last one starts or before. */
  lemma LastWindow(s: nat, cursor: nat, t: nat)
    requires s <= cursor < t && (cursor - s) % GROW_WINDOW == 0
    ensures t - cursor <= GROW_WINDOW ==> cursor == LastStop(s, t)
    ensures t - cursor > GROW_WINDOW ==> cursor + GROW_WINDOW <= LastStop(s, t)
  {
    assert GROW_WINDOW == 0x40_0000;
    var k := (cursor - s) / 0x40_0000;
    assert cursor - s == 0x40_0000 * k;
  }

  /** Up to the last window the pre-flight check counts enough. */
  lemma RoomBefore(s: nat, cursor: nat, t: nat, free: int, had: nat, has: nat)
    requires s <= cursor && cursor + GROW_WINDOW < t && (cursor - s) % GROW_WINDOW == 0
    requires t - s <= free * CHUNK_PLAINTEXT_LEN && Pieces(s) <= had
    requires has == if cursor == s then had else Pieces(cursor)
    ensures Pieces(cursor + GROW_WINDOW) - FirstDirty(cursor, cursor) <= free + had - has
  {
    assert GROW_WINDOW == 0x40_0000 && CHUNK_PLAINTEXT_LEN == 0x1_0000;
    WindowArithmetic(s, cursor, t);
    var w := (cursor - s) / 0x40_0000 + 1;
    DivShift(s + 0xFFFF, cursor + 0x40_0000 + 0xFFFF, 64 * w);
  }

  /** The manifest with the present entry is the present manifest. */
  lemma PresentFits(geo: Geometry, m: Manifest, e: FileEntry)
    requires Publishable(geo, m) && Find(m.entries, e.name) == Some(e)
    ensures GrownLen(m, e.name, Pieces(e.size)) <= CHUNK_PLAINTEXT_LEN
  {
    hide GrownLen, Print;
    PublishedLayout(geo, m);
    LayoutUnique(geo, m.entries);
    EntryPlaced(geo, m.entries, e);
    ShrinkFits(m, e, Pieces(e.size));
  }

  lemma GrownLenGrows(m: Manifest, name: seq<Byte>, a: nat, b: nat)
    requires a <= b
    ensures GrownLen(m, name, a) <= GrownLen(m, name, b)
  {}

  lemma OthersKept(files: Files, name: Text, offset: nat, data: seq<Byte>, more: nat)
    ensures WrittenFiles(files, name, offset, data) - {name} == files - {name}
    ensures GrownFiles(files, name, more) - {name} == files - {name}
    ensures files - {name} - {name} == files - {name}
  {}

  /** A size the pre-flight check admits needs fewer chunks than the vault has. */
  lemma GrowInRange(geo: Geometry, entries: seq<FileEntry>, e: FileEntry, t: nat)
    requires Layout(geo, entries) && Find(entries, e.name) == Some(e) && e.size <= t
    requires t - e.size <= FreeCount(geo, entries) * CHUNK_PLAINTEXT_LEN
    ensures Pieces(t) < geo.total
  {
    ChunkTotalWithout(entries, e.name);
    assert Shaped(e);
  }

  /** The chunk and size arithmetic of one window, relative to the start of the grow. */
  lemma WindowNeeds(geo: Geometry, m0: Manifest, m: Manifest, e0: FileEntry, e: FileEntry, s: nat, t: nat, cursor: nat)
    requires UniqueNames(m0.entries) && UniqueNames(m.entries)
    requires Find(m0.entries, e0.name) == Some(e0) && Shaped(e0) && e0.size == s
    requires Find(m.entries, e0.name) == Some(e) && e.size == cursor
    requires s <= cursor < t && (cursor - s) % GROW_WINDOW == 0
    requires if cursor == s then e == e0 else |e.chunks| == Pieces(cursor)
    requires FreeCount(geo, m.entries) == FreeCount(geo, m0.entries) + |e0.chunks| - |e.chunks|
    requires forall k: nat :: GrownLen(m, e0.name, k) == GrownLen(m0, e0.name, k)
    requires t - s <= FreeCount(geo, m0.entries) * CHUNK_PLAINTEXT_LEN
    ensures var n := Min(GROW_WINDOW, t - cursor);
            var needed := Pieces(cursor + n) - FirstDirty(cursor, cursor);
            && FirstDirty(cursor, cursor) == cursor / CHUNK_PLAINTEXT_LEN
            && Pieces(cursor + n) <= Pieces(t)
            && (cursor + n < t ==> (cursor + n - s) % GROW_WINDOW == 0)
            && (Pieces(t) - s / CHUNK_PLAINTEXT_LEN <= FreeCount(geo, m0.entries) ==> needed <= FreeCount(geo, m.entries))
            && (needed <= FreeCount(geo, m.entries) && cursor + n == t ==>
                  Pieces(t) - s / CHUNK_PLAINTEXT_LEN <= FreeCount(geo, m0.entries))
  {
    hide GrownLen;
    WindowArithmetic(s, cursor, t);
  }

  /** A whole number of windows is a whole number of chunks. */
  lemma WindowArithmetic(s: nat, cursor: nat, t: nat)
    requires s <= cursor < t && (cursor - s) % GROW_WINDOW == 0
    ensures var n := Min(GROW_WINDOW, t - cursor);
            && Pieces(cursor) - cursor / CHUNK_PLAINTEXT_LEN == Pieces(s) - s / CHUNK_PLAINTEXT_LEN
            && Pieces(cursor + n) <= Pieces(t)
            && (cursor + n < t ==> (cursor + n - s) % GROW_WINDOW == 0)
            && FirstDirty(cursor, cursor) == cursor / CHUNK_PLAINTEXT_LEN
  {
    var w := (cursor - s) / 0x40_0000;
    assert GROW_WINDOW == 0x40_0000 && CHUNK_PLAINTEXT_LEN == 0x1_0000;
    DivShift(s, cursor, 64 * w);
    DivShift(s + 0xFFFF, cursor + 0xFFFF, 64 * w);
    if cursor + 0x40_0000 < t {
      WholeWindows(cursor - s);
    }
  }

  lemma DivShift(x: nat, y: nat, k: nat)
    requires y == x + 0x1_0000 * k
    ensures y / 0x1_0000 == x / 0x1_0000 + k
  {}

  lemma WholeWindows(x: nat)
    requires x % 0x40_0000 == 0
    ensures (x + 0x40_0000) % 0x40_0000 == 0
  {}

  // ---- a growth that stops half-way ----

  const ONE_BYTE := FileEntry([0x61], 1, [1])

  /** 65 free chunks, a file of one byte grown by exactly the free bytes: the pre-flight check
      and the first window pass, the second window finds one chunk too few. */
  lemma PartlyGrownExample(geo: Geometry, m: Manifest)
    requires m == Manifest(0, [ONE_BYTE], [], [], None) && geo.home == 0 && geo.total == 67
    ensures Layout(geo, m.entries)
    ensures TruncateLeavesPart(geo, m, false, [0x61], 1 + 65 * CHUNK_PLAINTEXT_LEN)
  {
    var t := 1 + 65 * CHUNK_PLAINTEXT_LEN;
    assert ChunkTotal(m.entries) == 1 by {
      assert m.entries[1..] == [];
    }
    assert m.entries[1..] == [] && Without(m.entries, [0x61]) == [];
    EmptyLen(m.(entries := []));
    assert GrownLen(m, [0x61], 65) == 20 + 5 + EntryLen([0x61], 65);
    assert Pieces(t) == 66;
    assert WriteRefusal(geo, m, false, [0x61], 1, GROW_WINDOW).None?;
  }

  lemma EmptyLen(m: Manifest)
    requires m.entries == [] && m.childSlots == [] && m.folders == [] && m.owner == None
    ensures |Print(m)| == 25
  {
    assert |PrintHead(m)| == 20;
  }
}
