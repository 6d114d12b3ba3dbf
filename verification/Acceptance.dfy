/** When a mutation is accepted, told without its checks: a call is refused exactly when nothing
    that it could publish exists (crates/farewell_format/src/vault.rs). */
module Acceptance {
  import opened Bytes
  import opened Texts
  import opened Wrappers
  import opened Manifests
  import opened ManifestCodec
  import opened Store
  import opened Space
  import opened Splices
  import opened VaultSpec
  import opened RenameSpec
  import opened WriteSpec
  import opened TruncateSpec
  import opened Paths
  import opened Folders
  import opened FolderSpec
  import opened MigrationSpec

  // ---- chunks to be had ----

  lemma Member<T>(pool: set<T>) returns (c: T)
    requires |pool| > 0
    ensures c in pool
  {
    c :| c in pool;
  }

  lemma {:induction false} SomeOf(pool: set<int>, n: nat) returns (s: seq<U32>)
    requires n <= |pool| && forall c | c in pool :: 0 <= c <= U32_MAX
    ensures |s| == n && NoDup(s) && forall c | c in s :: c in pool
  {
    s := [];
    if n > 0 {
      var c := Member(pool);
      var rest := SomeOf(pool - {c}, n - 1);
      s := rest + [c];
    }
  }

  /** The allocator can serve a request exactly when the free chunks make up for what the reusable
      ones do not cover. */
  lemma DrawnExists(geo: Geometry, entries: seq<FileEntry>, n: nat, name: Text, reusable: seq<U32>)
    requires Layout(geo, entries) && geo.home < geo.total <= U32_MAX
    requires reusable == [] || reusable == ChunkList(entries, name)
    ensures (exists drawn :: Drawn(geo, entries, n, reusable, drawn)) <==> n - Min(n, |reusable|) <= FreeCount(geo, entries)
  {
    hide Layout, Used, FreeCount;
    var kept := Min(n, |reusable|);
    FreeIsExact(geo, entries);
    ChunkListReusable(geo, entries, name);
    if n - kept <= FreeCount(geo, entries) {
      var more := SomeOf(Free(geo, entries), n - kept);
      var drawn := reusable[..kept] + more;
      ReusedAndFree(geo, entries, reusable, kept, more);
      assert Drawn(geo, entries, n, reusable, drawn);
    }
    forall drawn | Drawn(geo, entries, n, reusable, drawn) ensures n - kept <= FreeCount(geo, entries) {
      FreePart(geo, entries, n, reusable, drawn);
    }
  }

  lemma ReusedAndFree(geo: Geometry, entries: seq<FileEntry>, reusable: seq<U32>, kept: nat, more: seq<U32>)
    requires kept <= |reusable| && NoDup(reusable) && Elems(reusable) <= Used(entries) && NoDup(more)
    requires forall c | c in more :: c in Free(geo, entries)
    ensures NoDup(reusable[..kept] + more)
    ensures forall k | kept <= k < kept + |more| :: (reusable[..kept] + more)[k] in Free(geo, entries)
  {
    hide Used;
    var all := reusable[..kept] + more;
    forall i, j | 0 <= i < j < |all| ensures all[i] != all[j] {
      if i < kept <= j {
        assert all[i] in reusable && (all[i] as int) in Elems(reusable);
        assert all[j] in more;
      }
    }
  }

  lemma FreePart(geo: Geometry, entries: seq<FileEntry>, n: nat, reusable: seq<U32>, drawn: seq<U32>)
    requires Drawn(geo, entries, n, reusable, drawn)
    ensures n - Min(n, |reusable|) <= |Free(geo, entries)|
  {
    hide Free;
    var kept := Min(n, |reusable|);
    var rest := drawn[kept..];
    ElemsSize(rest);
    forall c | c in Elems(rest) ensures c in Free(geo, entries) {
      var k :| 0 <= k < |rest| && rest[k] == c;
      assert drawn[kept + k] == c;
    }
    Within(Elems(rest), Free(geo, entries));
  }

  lemma Within(a: set<int>, b: set<int>)
    requires a <= b
    ensures |a| <= |b|
  {
    SubsetSize(a, b);
  }

  // ---- adding and creating ----

  /** An entry that add_file could publish: chunks as the allocator draws them, at least one, for
      a size they suit, in a manifest that serializes. */
  ghost predicate AddFits(geo: Geometry, m: Manifest, name: Text, len: nat, drawn: seq<U32>) {
    AddDrawn(geo, m, name, len, drawn) && Serialized(Upserted(m, FileEntry(name, len, drawn))).Success?
  }

  ghost predicate AddDrawn(geo: Geometry, m: Manifest, name: Text, len: nat, drawn: seq<U32>) {
    && len <= U64_MAX && drawn != []
    && Drawn(geo, m.entries, |drawn|, ChunkList(m.entries, name), drawn)
    && Shaped(FileEntry(name, len, drawn))
  }

  lemma AddIsAccepted(geo: Geometry, m: Manifest, name: Text, len: nat)
    requires Publishable(geo, m) && geo.home < geo.total <= U32_MAX && len <= U64_MAX
    ensures AddRefusal(geo, m, true, name, len) == Some(SessionPoisoned)
    ensures !ValidName(name) ==> AddRefusal(geo, m, false, name, len) == Some(InvalidName)
    ensures ValidName(name) ==>
              (AddRefusal(geo, m, false, name, len).None? <==> exists drawn :: AddFits(geo, m, name, len, drawn))
    ensures ValidName(name) ==>
              (AddRefusal(geo, m, false, name, len) == Some(Full) <==> !exists drawn :: AddDrawn(geo, m, name, len, drawn))
    ensures ValidName(name) && AddRefusal(geo, m, false, name, len).Some? ==>
              AddRefusal(geo, m, false, name, len).value in {Full, ManifestOverflow}
  {
    hide Layout, Drawn, FreeCount, GrownLen, Serialized, Canonical, Upserted, ValidName;
    var needed := Max(Pieces(len), 1);
    PublishedLayout(geo, m);
    ChunkListReusable(geo, m.entries, name);
    DrawnExists(geo, m.entries, needed, name, ChunkList(m.entries, name));
    forall drawn | AddDrawn(geo, m, name, len, drawn) ensures |drawn| == needed {}
    forall drawn | Drawn(geo, m.entries, needed, ChunkList(m.entries, name), drawn) ensures AddDrawn(geo, m, name, len, drawn) {
      DrawnLength(geo, m.entries, needed, ChunkList(m.entries, name), drawn);
    }
    if ValidName(name) {
      forall drawn | AddDrawn(geo, m, name, len, drawn)
        ensures AddFits(geo, m, name, len, drawn) <==> GrownLen(m, name, needed) <= CHUNK_PLAINTEXT_LEN
      {
        PublishedSerializes(geo, m);
        UpsertSerializes(m, FileEntry(name, len, drawn));
      }
    }
  }

  lemma PublishedSerializes(geo: Geometry, m: Manifest)
    requires Publishable(geo, m)
    ensures Serialized(m).Success?
  {}

  lemma DrawnLength(geo: Geometry, entries: seq<FileEntry>, n: nat, reusable: seq<U32>, drawn: seq<U32>)
    requires Drawn(geo, entries, n, reusable, drawn)
    ensures |drawn| == n
  {}

  /** Replacing a file by one that needs no more chunks is always accepted. */
  lemma ReplacingIsAccepted(geo: Geometry, m: Manifest, e: FileEntry, len: nat)
    requires Publishable(geo, m) && e in m.entries && Max(Pieces(len), 1) <= |e.chunks| && geo.home < geo.total
    ensures AddRefusal(geo, m, false, e.name, len).None?
  {
    hide Print;
    PublishedLayout(geo, m);
    LayoutUnique(geo, m.entries);
    FindUnique(m.entries, e);
    FreeIsExact(geo, m.entries);
    RewrittenLen(m, e, Max(Pieces(len), 1));
    assert ValidName(e.name);
  }

  /** Creating: an existing name is kept, or refused if the file must be new; a new one is accepted
      exactly when the empty entry can be published. */
  lemma CreateIsAccepted(m: Manifest, name: Text, exclusive: bool)
    requires Serialized(m).Success?
    ensures CreateRefusal(m, true, name, exclusive) == Some(SessionPoisoned)
    ensures !ValidName(name) ==> CreateRefusal(m, false, name, exclusive) == Some(InvalidName)
    ensures ValidName(name) && name in Names(m.entries) ==>
              CreateRefusal(m, false, name, exclusive) == if exclusive then Some(AlreadyExists(name)) else None
    ensures ValidName(name) && name !in Names(m.entries) ==>
              CreateRefusal(m, false, name, exclusive)
              == match Serialized(Upserted(m, FileEntry(name, 0, []))) case Success(_) => None case Failure(e) => Some(e)
  {
    hide GrownLen, Upserted, ValidName;
    NamedIsFound(m.entries, name);
    if ValidName(name) {
      UpsertSerializes(m, FileEntry(name, 0, []));
    }
  }

  lemma NamedIsFound(entries: seq<FileEntry>, name: Text)
    ensures Find(entries, name).Some? <==> name in Names(entries)
  {}

  // ---- deleting and renaming ----

  /** Every file there is can be deleted, however full the vault and its manifest are. */
  lemma DeleteIsAccepted(m: Manifest, name: Text)
    ensures DeleteRefusal(m, true, name) == Some(SessionPoisoned)
    ensures name in Names(m.entries) ==> DeleteRefusal(m, false, name) == None
    ensures name !in Names(m.entries) ==> DeleteRefusal(m, false, name) == Some(FileNotFound(name))
  {
    NamedIsFound(m.entries, name);
  }

  lemma RenameIsAccepted(geo: Geometry, m: Manifest, from: Text, to: Text)
    requires Publishable(geo, m)
    ensures RenameRefusal(m, true, from, to) == Some(SessionPoisoned)
    ensures from == [] || !ValidName(to) ==> RenameRefusal(m, false, from, to) == Some(InvalidName)
    ensures ValidName(to) && from == to ==> RenameRefusal(m, false, from, to) == None
    ensures ValidName(to) && from != [] && from != to && from !in Names(m.entries) ==>
              RenameRefusal(m, false, from, to) == Some(FileNotFound(from))
    ensures ValidName(to) && from != to && from in Names(m.entries) ==>
              Find(m.entries, from).Some? &&
              RenameRefusal(m, false, from, to)
              == match Serialized(Renamed(m, from, to)) case Success(_) => None case Failure(e) => Some(e)
  {
    hide Print, Renamed, ValidName, Publishable;
    NamedIsFound(m.entries, from);
    NoName(geo, m);
    if ValidName(to) && Find(m.entries, from).Some? {
      RenamedSerializes(geo, m, from, to);
    }
  }

  lemma NoName(geo: Geometry, m: Manifest)
    requires Publishable(geo, m)
    ensures [] !in Names(m.entries) && !ValidName([])
  {}

  /** A rename onto an existing file, and one to a name that is no longer, always fits. */
  lemma RenameFits(geo: Geometry, m: Manifest, from: Text, to: Text)
    requires Publishable(geo, m) && from != [] && ValidName(to) && from != to && from in Names(m.entries)
    requires to in Names(m.entries) || |to| <= |from|
    ensures RenameRefusal(m, false, from, to) == None
  {
    hide Print, ValidName, Serialized, Publishable;
    NamedIsFound(m.entries, from);
    NamedIsFound(m.entries, to);
    PublishedLayout(geo, m);
    LayoutUnique(geo, m.entries);
    PublishedPrints(geo, m);
    RenamedLen(geo, m, from, to);
  }

  lemma PublishedPrints(geo: Geometry, m: Manifest)
    requires Publishable(geo, m)
    ensures |Print(m)| <= CHUNK_PLAINTEXT_LEN
  {}

  lemma RenamedLen(geo: Geometry, m: Manifest, from: Text, to: Text)
    requires Publishable(geo, m) && Find(m.entries, from).Some? && from != to
    ensures |Print(Renamed(m, from, to))|
         == |Print(m)| + |to| - |from| - if Find(m.entries, to).Some? then EntryLen(to, ChunksOf(m.entries, to)) else 0
  {
    hide Print, Publishable, Upserted, Removed, Find;
    var o := Find(m.entries, from).value;
    var without := Removed(m, from);
    var both := Removed(without, to);
    RemovedLen(geo, m, from);
    RemovedSerializes(geo, m, from);
    RemovedLen(geo, without, to);
    RemovedSerializes(geo, without, to);
    PublishedLayout(geo, m);
    LayoutUnique(geo, m.entries);
    RemovedFinds(m, from, to);
    UpsertedLen(both, FileEntry(to, o.size, o.chunks));
    FoundChunks(m.entries, from);
    FoundChunks(m.entries, to);
    FoundChunks(without.entries, to);
    NothingToDrop(geo, both, to);
  }

  lemma FoundChunks(entries: seq<FileEntry>, name: Text)
    ensures ChunksOf(entries, name) == if Find(entries, name).Some? then |Find(entries, name).value.chunks| else 0
  {}

  lemma RemovedLen(geo: Geometry, m: Manifest, name: Text)
    requires Publishable(geo, m)
    ensures |Print(Removed(m, name))|
         == |Print(m)| - if Find(m.entries, name).Some? then EntryLen(name, ChunksOf(m.entries, name)) else 0
  {
    hide Print;
    RemovedSerializes(geo, m, name);
    if Find(m.entries, name).Some? {
      var e := Find(m.entries, name).value;
      PublishedLayout(geo, m);
      LayoutUnique(geo, m.entries);
      EntriesLen(m.entries, e);
      PrintedLen(m);
      PrintedLen(Removed(m, name));
    }
  }

  lemma NothingToDrop(geo: Geometry, m: Manifest, name: Text)
    requires Publishable(geo, m) && Find(m.entries, name).None?
    ensures GrownLen(m, name, 0) == |Print(m)| + EntryLen(name, 0)
    ensures forall k :: GrownLen(m, name, k) == |Print(m)| + EntryLen(name, k)
  {
    hide Print;
    WithoutAbsent(m.entries, name);
    assert m.(entries := m.entries) == m;
  }

  // ---- range writes ----

  /** An entry that write_file_range could publish for [offset, offset + len). */
  ghost predicate WriteFits(geo: Geometry, m: Manifest, e: FileEntry, offset: nat, len: nat, drawn: seq<U32>) {
    WriteDrawn(geo, m, e, offset, len, drawn) && Serialized(Upserted(m, WrittenEntry(e, offset, len, drawn))).Success?
  }

  ghost predicate WriteDrawn(geo: Geometry, m: Manifest, e: FileEntry, offset: nat, len: nat, drawn: seq<U32>) {
    && offset + len <= U64_MAX
    && Drawn(geo, m.entries, |drawn|, [], drawn)
    && Shaped(WrittenEntry(e, offset, len, drawn))
  }

  /** A write inside, at or past the end of a file is accepted exactly when some entry it could
      publish exists; it is refused for want of chunks exactly when none can be drawn. */
  lemma WriteIsAccepted(geo: Geometry, m: Manifest, e: FileEntry, offset: nat, len: nat)
    requires Publishable(geo, m) && geo.home < geo.total <= U32_MAX && e in m.entries && 0 < len
    ensures var refusal := WriteRefusal(geo, m, false, e.name, offset, len);
            var size := Max(e.size, offset + len);
            && (refusal == Some(Overflow) <==> offset + len > U64_MAX || Pieces(size) > U32_MAX)
            && (offset + len <= U64_MAX && Pieces(size) <= U32_MAX ==>
                  && (refusal.None? <==> exists drawn :: WriteFits(geo, m, e, offset, len, drawn))
                  && (refusal == Some(Full) <==> !exists drawn :: WriteDrawn(geo, m, e, offset, len, drawn))
                  && (refusal.Some? ==> refusal.value in {Full, ManifestOverflow}))
  {
    hide Layout, Drawn, FreeCount, GrownLen, Serialized, Canonical, Upserted, ValidName, WrittenEntry;
    PublishedLayout(geo, m);
    LayoutUnique(geo, m.entries);
    FindUnique(m.entries, e);
    PublishedName(geo, m, e);
    if offset + len <= U64_MAX {
      var n := Pieces(Max(e.size, offset + len)) - FirstDirty(e.size, offset);
      FirstDirtyBounds(e.size, offset, len);
      DrawnExists(geo, m.entries, n, e.name, []);
      forall drawn ensures WriteDrawn(geo, m, e, offset, len, drawn) <==> Drawn(geo, m.entries, n, [], drawn) {
        WriteDraws(geo, m, e, offset, len, drawn);
      }
      forall drawn | WriteDrawn(geo, m, e, offset, len, drawn)
        ensures WriteFits(geo, m, e, offset, len, drawn)
           <==> GrownLen(m, e.name, Pieces(Max(e.size, offset + len))) <= CHUNK_PLAINTEXT_LEN
      {
        PublishedSerializes(geo, m);
        WrittenCount(geo, m.entries, e, offset, len, drawn);
        WrittenEntryIs(e, offset, len, drawn);
        UpsertSerializes(m, WrittenEntry(e, offset, len, drawn));
      }
    }
  }

  lemma PublishedName(geo: Geometry, m: Manifest, e: FileEntry)
    requires Publishable(geo, m) && e in m.entries
    ensures ValidName(e.name)
  {}

  lemma WriteDraws(geo: Geometry, m: Manifest, e: FileEntry, offset: nat, len: nat, drawn: seq<U32>)
    requires Layout(geo, m.entries) && e in m.entries && 0 < len && offset + len <= U64_MAX
    ensures WriteDrawn(geo, m, e, offset, len, drawn)
       <==> Drawn(geo, m.entries, Pieces(Max(e.size, offset + len)) - FirstDirty(e.size, offset), [], drawn)
  {
    hide Drawn;
    FirstDirtyBounds(e.size, offset, len);
    var dirty := FirstDirty(e.size, offset);
    assert Shaped(e) && dirty <= |e.chunks|;
    var n := Pieces(Max(e.size, offset + len)) - dirty;
    if Drawn(geo, m.entries, n, [], drawn) {
      DrawnLength(geo, m.entries, n, [], drawn);
      WrittenCount(geo, m.entries, e, offset, len, drawn);
    }
    if WriteDrawn(geo, m, e, offset, len, drawn) {
      assert |WrittenEntry(e, offset, len, drawn).chunks| == dirty + |drawn|;
    }
  }

  /** The other answers of a write. */
  lemma WriteIsRefused(geo: Geometry, m: Manifest, name: Text, offset: nat, len: nat)
    ensures WriteRefusal(geo, m, true, name, offset, len) == Some(SessionPoisoned)
    ensures !ValidName(name) ==> WriteRefusal(geo, m, false, name, offset, len) == Some(InvalidName)
    ensures ValidName(name) && len == 0 ==> WriteRefusal(geo, m, false, name, offset, len) == None
    ensures ValidName(name) && len > 0 && name !in Names(m.entries) ==>
              WriteRefusal(geo, m, false, name, offset, len) == Some(FileNotFound(name))
  {
    NamedIsFound(m.entries, name);
  }

  /** In a file of one piece, any write that ends within the piece is accepted as long as one chunk
      is free, wherever the file ends: past its end the hole is filled. */
  lemma WithinOnePiece(geo: Geometry, m: Manifest, e: FileEntry, offset: nat, len: nat)
    requires Publishable(geo, m) && geo.home < geo.total && e in m.entries
    requires |e.chunks| == 1 && 0 < len && offset + len <= CHUNK_PLAINTEXT_LEN && Free(geo, m.entries) != {}
    ensures WriteRefusal(geo, m, false, e.name, offset, len).None?
  {
    hide Print, ValidName, Free;
    PublishedLayout(geo, m);
    LayoutUnique(geo, m.entries);
    FindUnique(m.entries, e);
    PublishedName(geo, m, e);
    FreeIsExact(geo, m.entries);
    assert Shaped(e) && e.size <= CHUNK_PLAINTEXT_LEN;
    PublishedPrints(geo, m);
    RewrittenLen(m, e, 1);
  }

  /** A file of two bytes, one byte written at offset five: three zeros in between. */
  lemma HoleIsFilled(geo: Geometry, m: Manifest, e: FileEntry, a: Byte, b: Byte, c: Byte)
    requires Publishable(geo, m) && geo.home < geo.total && e in m.entries && e.size == 2 && Free(geo, m.entries) != {}
    ensures WriteRefusal(geo, m, false, e.name, 5, 1).None?
    ensures Splice([a, b], 5, [c]) == [a, b, 0, 0, 0, c]
  {
    PublishedLayout(geo, m);
    assert Shaped(e);
    WithinOnePiece(geo, m, e, 5, 1);
  }

  // ---- truncation ----

  /** Chunks that a shrink could draw for its list to suit the shorter size. */
  ghost predicate ShrinkDrawn(geo: Geometry, m: Manifest, e: FileEntry, newSize: U64, drawn: seq<U32>)
    requires newSize < e.size && Shaped(e)
  {
    Drawn(geo, m.entries, |drawn|, [], drawn) && |ShrunkEntry(e, newSize, drawn).chunks| == Pieces(newSize)
  }

  /** Shrinking needs at most one chunk, and that only for a piece that loses bytes: it is refused
      exactly when no chunk list of the shorter size can be made of the kept and free ones. */
  lemma ShrinkIsAccepted(geo: Geometry, m: Manifest, e: FileEntry, newSize: U64)
    requires Publishable(geo, m) && geo.home < geo.total <= U32_MAX && e in m.entries && newSize < e.size
    ensures Shaped(e)
    ensures ShrinkRefusal(geo, m, newSize).None? <==>
            exists drawn :: ShrinkDrawn(geo, m, e, newSize, drawn)
    ensures newSize % CHUNK_PLAINTEXT_LEN == 0 || Free(geo, m.entries) != {} ==> ShrinkRefusal(geo, m, newSize).None?
  {
    hide Drawn, ShrinkDrawn, Free;
    PublishedLayout(geo, m);
    assert Shaped(e);
    FreeIsExact(geo, m.entries);
    var n := if Straddles(newSize) then 1 else 0;
    DrawnExists(geo, m.entries, n, e.name, []);
    forall drawn ensures ShrinkDrawn(geo, m, e, newSize, drawn) <==> Drawn(geo, m.entries, n, [], drawn) {
      ShrinkDraws(geo, m, e, newSize, n, drawn);
    }
  }

  lemma ShrinkDraws(geo: Geometry, m: Manifest, e: FileEntry, newSize: U64, n: nat, drawn: seq<U32>)
    requires newSize < e.size && Shaped(e) && n == if Straddles(newSize) then 1 else 0
    ensures ShrinkDrawn(geo, m, e, newSize, drawn) <==> Drawn(geo, m.entries, n, [], drawn)
  {
    hide Drawn, Straddles, ShrunkEntry, Pieces;
    ShrunkCount(e, newSize, drawn);
    if Drawn(geo, m.entries, n, [], drawn) {
      DrawnLength(geo, m.entries, n, [], drawn);
    }
  }

  lemma ShrunkCount(e: FileEntry, newSize: U64, drawn: seq<U32>)
    requires newSize < e.size && Shaped(e)
    ensures newSize / CHUNK_PLAINTEXT_LEN <= |e.chunks|
    ensures |ShrunkEntry(e, newSize, drawn).chunks| == newSize / CHUNK_PLAINTEXT_LEN + |drawn|
    ensures Pieces(newSize) == newSize / CHUNK_PLAINTEXT_LEN + if Straddles(newSize) then 1 else 0
  {}

  /** Growing a file succeeds as a whole exactly when one write of all the zeros would be accepted. */
  lemma GrowIsAccepted(geo: Geometry, m: Manifest, e: FileEntry, newSize: nat)
    requires Publishable(geo, m) && geo.home < geo.total <= U32_MAX && e in m.entries && e.size < newSize <= U64_MAX
    requires Pieces(newSize) <= U32_MAX
    ensures var more := newSize - e.size;
            GrowFits(geo, m, e.name, e.size, newSize) <==> exists drawn :: WriteFits(geo, m, e, e.size, more, drawn)
  {
    hide WriteRefusal, WriteFits, GrowFits, Publishable;
    PublishedLayout(geo, m);
    LayoutUnique(geo, m.entries);
    FindUnique(m.entries, e);
    PublishedName(geo, m, e);
    WriteIsAccepted(geo, m, e, e.size, newSize - e.size);
    GrowIsOneWrite(geo, m, e, newSize);
  }

  /** The answers to a truncate of a file that is not there. */
  lemma TruncateIsRefused(geo: Geometry, m: Manifest, name: Text, size: U64)
    ensures TruncateRefusal(geo, m, true, name, size) == Some(SessionPoisoned)
    ensures !ValidName(name) ==> TruncateRefusal(geo, m, false, name, size) == Some(InvalidName)
    ensures ValidName(name) && name !in Names(m.entries) ==>
              TruncateRefusal(geo, m, false, name, size) == Some(FileNotFound(name))
  {
    NamedIsFound(m.entries, name);
  }

  /** And of one that is: the same size always fits, a shrink lacks at most a chunk, and a growth is
      refused exactly when one write of its zeros would be; with chunks for that write and as many
      free bytes as it asks for, only the manifest can stand in the way. */
  lemma TruncateIsAccepted(geo: Geometry, m: Manifest, e: FileEntry, size: U64)
    requires Publishable(geo, m) && geo.home < geo.total <= U32_MAX && e in m.entries && Pieces(size) <= U32_MAX
    ensures Shaped(e)
    ensures var refusal, more := TruncateRefusal(geo, m, false, e.name, size), size - e.size;
            && (TruncateFits(geo, m, false, e.name, size) <==> refusal.None?)
            && (size == e.size ==> refusal.None?)
            && (size < e.size ==>
                  && (refusal.None? <==> exists drawn :: ShrinkDrawn(geo, m, e, size, drawn))
                  && (refusal.Some? ==> refusal == Some(Full)))
            && (size > e.size ==>
                  && (refusal.None? <==> exists drawn :: WriteFits(geo, m, e, e.size, more, drawn))
                  && (more > |Free(geo, m.entries)| * CHUNK_PLAINTEXT_LEN ==> refusal == Some(Full))
                  && (refusal.Some? && more <= |Free(geo, m.entries)| * CHUNK_PLAINTEXT_LEN ==>
                        (exists drawn :: WriteDrawn(geo, m, e, e.size, more, drawn)) ==> refusal == Some(ManifestOverflow)))
  {
    hide WriteRefusal, WriteFits, WriteDrawn, GrowFits, Publishable, ShrinkDrawn, Free;
    PublishedLayout(geo, m);
    LayoutUnique(geo, m.entries);
    FindUnique(m.entries, e);
    PublishedName(geo, m, e);
    FreeIsExact(geo, m.entries);
    assert Shaped(e);
    if size < e.size {
      ShrinkIsAccepted(geo, m, e, size);
    }
    if size > e.size {
      GrowIsAccepted(geo, m, e, size);
      WriteIsAccepted(geo, m, e, e.size, size - e.size);
      ChunksForGrowth(geo, m, e, size);
    }
  }

  lemma ChunksForGrowth(geo: Geometry, m: Manifest, e: FileEntry, size: nat)
    requires ValidName(e.name) && Find(m.entries, e.name) == Some(e) && e.size < size <= U64_MAX
    requires Pieces(size) <= U32_MAX
    ensures WriteRefusal(geo, m, false, e.name, e.size, size - e.size) != Some(Full) ==>
              Pieces(size) - e.size / CHUNK_PLAINTEXT_LEN <= FreeCount(geo, m.entries)
  {
    hide GrownLen, ValidName, FreeCount, Pieces, FirstDirty;
    DirtyAtEnd(e.size, size);
  }

  lemma GrowIsOneWrite(geo: Geometry, m: Manifest, e: FileEntry, newSize: nat)
    requires ValidName(e.name) && Find(m.entries, e.name) == Some(e) && e.size < newSize <= U64_MAX
    requires Pieces(newSize) <= U32_MAX
    ensures GrowFits(geo, m, e.name, e.size, newSize) <==> WriteRefusal(geo, m, false, e.name, e.size, newSize - e.size).None?
  {
    hide GrownLen, ValidName, FreeCount, Pieces, FirstDirty;
    DirtyAtEnd(e.size, newSize);
  }

  lemma DirtyAtEnd(size: nat, newSize: nat)
    requires size < newSize
    ensures FirstDirty(size, size) == size / CHUNK_PLAINTEXT_LEN
    ensures forall free: int ::
              Pieces(newSize) - size / CHUNK_PLAINTEXT_LEN <= free ==> newSize - size <= free * CHUNK_PLAINTEXT_LEN
  {}

  // ---- folders ----

  /** A path names a folder exactly when it has something besides slashes and no control character. */
  lemma NormalizedIff(path: Text)
    ensures Normalized(path).Some? <==> (exists b | b in path :: b != SLASH) && (forall b | b in path :: !Control(b))
  {
    hide Components, SomeHas;
    var cs := Components(path);
    ComponentsAreProper(path);
    forall b ensures SomeHas(cs, b) <==> b in path && b != SLASH {
      ComponentBytes(path, b);
    }
    SomeComponent(cs);
    ControlInSome(cs);
  }

  lemma ComponentsAreProper(path: seq<Byte>)
    ensures Proper(Components(path))
  {}

  predicate SomeHas(cs: seq<seq<Byte>>, b: Byte) {
    exists c | c in cs :: b in c
  }

  lemma SomeComponent(cs: seq<seq<Byte>>)
    requires Proper(cs)
    ensures cs != [] <==> exists b :: SomeHas(cs, b)
  {
    if cs != [] {
      assert cs[0] in cs && cs[0][0] in cs[0];
      assert SomeHas(cs, cs[0][0]);
    }
  }

  lemma ControlInSome(cs: seq<seq<Byte>>)
    ensures (exists c | c in cs :: exists b | b in c :: Control(b)) <==> exists b :: SomeHas(cs, b) && Control(b)
  {
    if c :| c in cs && exists b | b in c :: Control(b) {
      var b :| b in c && Control(b);
      assert SomeHas(cs, b);
    }
    if b :| SomeHas(cs, b) && Control(b) {
      var c :| c in cs && b in c;
    }
  }

  /** The bytes of the components are those of the path that are no slashes. */
  lemma {:induction false} ComponentBytes(s: seq<Byte>, b: Byte)
    ensures SomeHas(Components(s), b) <==> b in s && b != SLASH
    decreases |s|
  {
    hide Components, SomeHas;
    var i := FirstSlash(s);
    HeadBytes(s, i, b);
    if i < |s| {
      ComponentBytes(s[i + 1..], b);
      assert s == s[..i] + [SLASH] + s[i + 1..];
      ComponentsHead(s[..i], s[i + 1..]);
      HasEither(Single(s[..i]), Components(s[i + 1..]), b);
    } else {
      assert s[..i] == s;
      ComponentsHead(s, []);
    }
  }

  lemma HeadBytes(s: seq<Byte>, i: nat, b: Byte)
    requires i <= |s| && SLASH !in s[..i]
    ensures SomeHas(Single(s[..i]), b) <==> b in s[..i] && b != SLASH
  {
    if i > 0 {
      assert s[..i] in [s[..i]];
    }
  }

  lemma HasEither(a: seq<seq<Byte>>, c: seq<seq<Byte>>, b: Byte)
    ensures SomeHas(a + c, b) <==> SomeHas(a, b) || SomeHas(c, b)
  {
    if x :| x in a + c && b in x {
      assert x in a || x in c;
    }
    if x :| x in a && b in x {
      assert x in a + c;
    }
    if x :| x in c && b in x {
      assert x in a + c;
    }
  }

  lemma MakeFolderIsAccepted(geo: Geometry, m: Manifest, path: Text)
    requires Publishable(geo, m)
    ensures CreateFolderRefusal(m, true, path) == Some(SessionPoisoned)
    ensures Normalized(path).None? || !ValidFolderPath(Normalized(path).value) ==>
              CreateFolderRefusal(m, false, path) == Some(InvalidName)
    ensures Normalized(path).Some? && ValidFolderPath(Normalized(path).value) ==>
              var f := Normalized(path).value;
              CreateFolderRefusal(m, false, path)
              == if f in m.folders then None
              else match Serialized(FolderAdded(m, f)) case Success(_) => None case Failure(e) => Some(e)
  {
    hide Normalized, Print, Publishable;
    if Normalized(path).Some? && ValidFolderPath(Normalized(path).value) {
      FolderAddedReady(geo, m, Normalized(path).value);
    }
  }

  /** Every folder with a valid path can be deleted, however full the vault is, and also one that
      does not exist. */
  lemma RemoveFolderIsAccepted(path: Text)
    ensures DeleteFolderRefusal(true, path) == Some(SessionPoisoned)
    ensures Normalized(path).Some? && ValidFolderPath(Normalized(path).value) ==> DeleteFolderRefusal(false, path) == None
    ensures Normalized(path).None? || !ValidFolderPath(Normalized(path).value) ==>
              DeleteFolderRefusal(false, path) == Some(InvalidName)
  {}

  /** A folder rename between two different paths is accepted exactly when no file would land on the
      name of an existing one and the relocated manifest can be published. */
  lemma MoveFolderIsAccepted(geo: Geometry, m: Manifest, from: Text, to: Text)
    requires Publishable(geo, m)
    requires Normalized(from).Some? && Normalized(to).Some? && ValidFolderPath(Normalized(to).value)
    ensures Normalized(from) == Normalized(to) ==> RenameFolderRefusal(m, false, from, to) == None
    ensures Normalized(from) != Normalized(to) ==>
              var f, t, refusal := Normalized(from).value, Normalized(to).value, RenameFolderRefusal(m, false, from, to);
              if exists e, g | e in m.entries && g in m.entries && Under(e.name, f) :: g.name == Relocated(e.name, f, t)
              then refusal.Some? && refusal.value.BadManifest?
              else refusal == match Serialized(FolderRenamed(m, f, t)) case Success(_) => None case Failure(e) => Some(e)
  {
    hide Normalized, Print, Under, Collides, Relocated, MovedNamesValid, FolderRenamed, Serialized, ValidFolderPath, Publishable;
    var f, t := Normalized(from).value, Normalized(to).value;
    PublishedSerializes(geo, m);
    RenamedFolderSerializes(m, f, t);
    CollidesIff(m.entries, f, t);
  }

  lemma MoveFolderIsRefused(m: Manifest, from: Text, to: Text)
    ensures RenameFolderRefusal(m, true, from, to) == Some(SessionPoisoned)
    ensures Normalized(from).None? || Normalized(to).None? || !ValidFolderPath(Normalized(to).value) ==>
              RenameFolderRefusal(m, false, from, to) == Some(InvalidName)
  {
    hide Normalized, ValidFolderPath;
  }

  lemma CollidesIff(entries: seq<FileEntry>, f: Text, t: Text)
    ensures Collides(entries, f, t) <==>
            exists e, g | e in entries && g in entries && Under(e.name, f) :: g.name == Relocated(e.name, f, t)
  {
    hide Moved;
    forall e | e in entries ensures Under(e.name, f) ==> Moved(e.name, f, t) == Relocated(e.name, f, t) {
      MovedIsRelocated(e.name, f, t);
    }
    if e :| e in entries && Under(e.name, f) && Moved(e.name, f, t) in Names(entries) {
      var g :| g in entries && g.name == Moved(e.name, f, t);
      assert g.name == Relocated(e.name, f, t);
    }
    if e, g :| e in entries && g in entries && Under(e.name, f) && g.name == Relocated(e.name, f, t) {
      assert Moved(e.name, f, t) in Names(entries);
    }
  }
}
