/** The open vault: an in-memory manifest over a disk of chunks, with every mutation of
    crates/farewell_format/src/vault.rs. Io stands for any failure of the operating
    system (read, write, sync, random source) and may strike at every such call. */
module Vaults {
  import opened Bytes
  import opened Texts
  import opened Wrappers
  import opened Octets
  import opened Manifests
  import opened ManifestCodec
  import opened ManifestIO
  import opened Chunks
  import opened Store
  import opened Space
  import opened Splices
  import opened VaultSpec
  import opened Erasure
  import opened RenameSpec
  import opened WriteSpec
  import opened TruncateSpec
  import opened ReadSpec
  import opened Orders
  import opened Paths
  import opened Folders
  import opened FolderSpec

  class Vault {
    const geo: Geometry
    var disk: seq<Cell>
    var manifest: Manifest
    var poisoned: bool

    // The contents that are known good: every name in the manifest, minus files that an
    // I/O failure may have damaged.
    ghost var files: Files
    // The disk image after every completed chunk write: what a crash can leave behind.
    ghost var images: seq<seq<Cell>>
    // The manifest counter as it would be without 64-bit wrap-around.
    ghost var ticks: nat
    // What the mutation that poisoned the session was about to publish.
    ghost var successor: Manifest
    ghost var arrived: Files

    ghost predicate Valid()
      reads this
    {
      && geo.home < geo.total == |disk| && geo.total <= U32_MAX
      && Publishable(geo, manifest)
      && Keeps(geo, disk, manifest.entries, files)
      && (!poisoned ==> Reopen(geo, disk) == Success(manifest))
      && manifest.counter == ticks % (U64_MAX + 1)
      && (poisoned ==> Recoverable())
    }

    /** What a poisoned session leaves on the disk: the live manifest with the files known to be
        good, the complete result of the mutation that failed, or a torn manifest chunk. */
    ghost predicate Recoverable()
      reads this
    {
      && geo.home < |disk|
      && (|| disk[geo.home] == Noise
          || Intact(geo, disk, manifest, files)
          || Intact(geo, disk, successor, arrived))
    }

    /** The vault as a map from name to contents; a file that an I/O failure may have damaged
        has unknown contents. */
    ghost function View(): map<Text, Content>
      reads this
    {
      ViewOf(Names(manifest.entries), files)
    }

    /** What the last mutation published, or was about to publish when it poisoned the session. */
    ghost function Outcome(): Manifest
      reads this
    {
      if poisoned then successor else manifest
    }

    ghost function OutcomeFiles(): Files
      reads this
    {
      if poisoned then arrived else files
    }

    /** Every chunk that holds neither the manifest nor a file's data is noise. */
    ghost predicate Erased()
      reads this
    {
      Leftover(geo, manifest.entries, disk) == {}
    }

    // ---- raw chunk I/O ----

    /** One chunk write. A failed write may leave the old cell, the new one, or garbage. */
    method WriteChunkRaw(index: nat, cell: Cell, faulty: bool) returns (r: Result<()>)
      requires |disk| == geo.total
      modifies this`disk, this`images
      ensures index >= geo.total ==> r == Failure(InvalidChunk(index)) && disk == old(disk) && images == old(images)
      ensures r.Success? ==> index < |disk| && disk == old(disk)[index := cell] && images == old(images) + [disk]
      ensures r.Failure? && index < geo.total ==>
                r.error == Io && images == old(images) && FailedWrite(old(disk), disk, index, cell)
      ensures !faulty ==> r != Failure(Io)
    {
      if index >= geo.total {
        return Failure(InvalidChunk(index));
      }
      var fails: bool, reached: bool, torn: bool := *, *, *;
      if faulty && fails {
        if reached {
          disk := disk[index := if torn then Noise else cell];
        }
        return Failure(Io);
      }
      disk := disk[index := cell];
      images := images + [disk];
      return Success(());
    }

    method ReadChunkRaw(index: nat, faulty: bool) returns (r: Result<Cell>)
      requires |disk| == geo.total
      ensures index >= geo.total ==> r == Failure(InvalidChunk(index))
      ensures index < geo.total ==> r == Failure(Io) || r == Success(disk[index])
      ensures !faulty ==> r != Failure(Io)
    {
      if index >= geo.total {
        return Failure(InvalidChunk(index));
      }
      var fails: bool := *;
      if faulty && fails {
        return Failure(Io);
      }
      return Success(disk[index]);
    }

    // ---- allocation ----

    method UsedChunks() returns (used: set<int>)
      ensures used == {geo.home} + Used(manifest.entries)
    {
      used := {geo.home};
      for i := 0 to |manifest.entries|
        invariant used == {geo.home} + Used(manifest.entries[..i])
      {
        var e := manifest.entries[i];
        for j := 0 to |e.chunks|
          invariant used == {geo.home} + Used(manifest.entries[..i]) + Elems(e.chunks[..j])
        {
          used := used + {e.chunks[j]};
          assert e.chunks[..j + 1] == e.chunks[..j] + [e.chunks[j]];
          ElemsSnoc(e.chunks[..j], e.chunks[j]);
        }
        assert e.chunks[..|e.chunks|] == e.chunks;
        UsedSnoc(manifest.entries[..i], e);
        assert manifest.entries[..i] + [e] == manifest.entries[..i + 1];
      }
      assert manifest.entries[..|manifest.entries|] == manifest.entries;
    }

    /** Draws `n` distinct chunks: the reusable ones first, then free ones in an order the
        caller cannot predict. */
    method AllocateChunks(n: nat, reusable: seq<U32>) returns (r: Result<seq<U32>>)
      requires geo.home < geo.total <= U32_MAX
      requires Layout(geo, manifest.entries)
      requires NoDup(reusable) && Elems(reusable) <= Used(manifest.entries)
      ensures r.Failure? <==> n - Min(n, |reusable|) > FreeCount(geo, manifest.entries)
      ensures r.Failure? ==> r.error == Full
      ensures r.Success? ==> Drawn(geo, manifest.entries, n, reusable, r.value)
    {
      hide Layout, Used, Free, Elems, NoDup, Range, FreeCount, Print, Parse;
      FreeIsExact(geo, manifest.entries);
      var used := UsedChunks();
      used := used - Elems(reusable);
      var out := reusable[..Min(n, |reusable|)];
      KeptIsDistinct(reusable, |out|);
      if |out| == n {
        return Success(out);
      }
      assert out == reusable;
      var pool := (Range(geo.total) - used) - Elems(reusable);
      PoolIsFree(geo, manifest.entries, reusable);
      if |pool| < n - |out| {
        return Failure(Full);
      }
      out := Pick(out, n, pool);
      return Success(out);
    }

    // ---- the destructive phase ----

    /** A failed write of the manifest chunk left the old one, the new one or garbage in it. */
    ghost predicate HomeFaulted(d: seq<Cell>, bytes: seq<Byte>)
      requires geo.home < |d| && |bytes| <= CHUNK_PLAINTEXT_LEN
      reads this
    {
      FailedWrite(d, disk, geo.home, Seal(geo.master, geo.home, bytes))
    }

    /** Seals pre-serialized manifest bytes into the manifest chunk. */
    method WriteManifestChunk(bytes: seq<Byte>, faulty: bool) returns (r: Result<()>)
      requires geo.home < geo.total == |disk| && |bytes| <= CHUNK_PLAINTEXT_LEN
      modifies this`disk, this`images
      ensures r.Success? ==> disk == old(disk)[geo.home := Seal(geo.master, geo.home, bytes)]
                             && images == old(images) + [disk]
      ensures r.Failure? ==> r.error == Io && images == old(images) && HomeFaulted(old(disk), bytes)
      ensures !faulty ==> r != Failure(Io)
    {
      var stored := EncryptChunk(ChunkKey(geo.master, geo.home), geo.home, bytes, faulty);
      if stored.Failure? {
        return Failure(stored.error);
      }
      r := WriteChunkRaw(geo.home, stored.value, faulty);
    }

    /** Write the candidate, then install it, then sync. */
    method PublishManifest(candidate: Manifest, bytes: seq<Byte>, durable: bool, faulty: bool) returns (r: Result<()>)
      requires geo.home < geo.total == |disk| && |bytes| <= CHUNK_PLAINTEXT_LEN
      modifies this`disk, this`images, this`manifest
      ensures SameOutside(old(disk), disk, {geo.home})
      ensures r.Success? ==> disk == old(disk)[geo.home := Seal(geo.master, geo.home, bytes)] && manifest == candidate
      ensures r.Success? ==> images == old(images) + [disk]
      ensures r.Failure? ==> r.error == Io
      ensures r.Failure? ==>
                || (manifest == old(manifest) && images == old(images) && HomeFaulted(old(disk), bytes))
                || (manifest == candidate && images == old(images) + [disk]
                    && disk == old(disk)[geo.home := Seal(geo.master, geo.home, bytes)])
      ensures !faulty ==> r != Failure(Io)
    {
      r := WriteManifestChunk(bytes, faulty);
      if r.Failure? {
        return;
      }
      manifest := candidate;
      var syncFails: bool := *;
      if faulty && syncFails {
        return Failure(Io);
      }
    }

    /** The destructive phase of every mutation: shred the displaced chunks, publish the
        candidate; any error inside poisons the session. `after` is what the files will be,
        `touched` the files whose chunks are shredded, `bumps` the counter steps taken. */
    method DestructivePhase(shred: seq<U32>, candidate: Manifest, bytes: seq<Byte>, durable: bool,
                            ghost touched: set<Text>, ghost after: Files, ghost bumps: nat, faulty: bool)
      returns (r: Result<()>)
      requires Valid() && !poisoned
      requires Publishable(geo, candidate) && Serialized(candidate) == Success(bytes)
      requires Keeps(geo, disk, candidate.entries, after)
      requires Sheddable(geo, shred, manifest.entries, touched) && Sheddable(geo, shred, candidate.entries, {})
      requires candidate.counter == (ticks + bumps) % (U64_MAX + 1)
      modifies this
      ensures Valid()
      ensures r.Success? ==> !poisoned && manifest == candidate && files == after && ticks == old(ticks) + bumps
      ensures r.Success? ==> forall c | c in shred :: disk[c] == Noise
      ensures SameOutside(old(disk), disk, Elems(shred) + {geo.home})
      ensures r.Failure? ==> r.error == Io && poisoned
                             && HalfDone(old(manifest), old(files), old(ticks), candidate, touched, after, bumps)
      ensures old(images) <= images
      ensures forall k | |old(images)| <= k < |images| ::
                WindowSafe(geo, images[k], old(manifest), old(files), candidate, after, touched, Elems(shred))
      ensures !faulty ==> r != Failure(Io)
    {
      hide Parse, Print, ValidTexts, Canonical, Seal, DecryptChunk, Reopen, Keeps, Layout, WindowSafe;
      ghost var d0, m0, files0, final := disk, manifest, files, Finished(disk, shred, bytes);
      FinalIntact(geo, disk, shred, candidate, after);
      r := ShredThenPublish(shred, candidate, bytes, durable, faulty);
      if r.Failure? {
        poisoned := true;
        successor, arrived := candidate, after;
      }
      if disk == final && manifest == candidate {
        files, ticks := after, ticks + bumps;
      } else {
        DropAfterPhase(geo, d0, disk, shred, m0, files0, touched);
        files := files - touched;
        if disk[geo.home] == d0[geo.home] {
          HomeDecides(geo, d0, disk);
        }
      }
      forall k | |old(images)| <= k < |images|
        ensures WindowSafe(geo, images[k], m0, files0, candidate, after, touched, Elems(shred))
      {
        PhaseIsSafe(geo, d0, shred, touched, images[k], m0, files0, candidate, after);
      }
    }

    /** The disk once every listed chunk is noise and the manifest chunk holds the given bytes. */
    ghost function Finished(d: seq<Cell>, shred: seq<U32>, bytes: seq<Byte>): seq<Cell>
      requires geo.home < |d| && |bytes| <= CHUNK_PLAINTEXT_LEN && forall c | c in shred :: c < |d|
    {
      Shredded(d, shred)[geo.home := Seal(geo.master, geo.home, bytes)]
    }

    /** The body of a destructive phase. */
    method ShredThenPublish(shred: seq<U32>, candidate: Manifest, bytes: seq<Byte>, durable: bool, faulty: bool)
      returns (r: Result<()>)
      requires geo.home < geo.total == |disk| && |bytes| <= CHUNK_PLAINTEXT_LEN
      requires forall c | c in shred :: c < geo.total && c != geo.home
      modifies this`disk, this`images, this`manifest
      ensures SameOutside(old(disk), disk, Elems(shred) + {geo.home})
      ensures r.Success? ==> manifest == candidate && disk == Finished(old(disk), shred, bytes)
      ensures r.Failure? ==> r.error == Io
      ensures r.Failure? ==>
                || (manifest == candidate && disk == Finished(old(disk), shred, bytes))
                || (manifest == old(manifest) && (disk[geo.home] == old(disk)[geo.home] || disk[geo.home] == Noise
                                                  || disk == Finished(old(disk), shred, bytes)))
      ensures old(images) <= images
      ensures forall k | |old(images)| <= k < |images| ::
                || (images[k] == disk == Finished(old(disk), shred, bytes) && manifest == candidate)
                || MidShred(old(disk), shred, images[k])
      ensures !faulty ==> r != Failure(Io)
    {
      hide MidShred, Shredded;
      assert geo.home !in Elems(shred);
      r := ShredAll(shred, faulty);
      if r.Success? {
        ghost var shredded := images;
        r := PublishManifest(candidate, bytes, durable, faulty);
        assert forall k | 0 <= k < |shredded| :: images[k] == shredded[k];
      }
    }

    /** What a poisoned session holds: the old manifest and every untouched file, or the
        complete new state. */
    ghost predicate HalfDone(m0: Manifest, files0: Files, ticks0: nat, candidate: Manifest,
                             touched: set<Text>, after: Files, bumps: nat)
      reads this
    {
      && successor == candidate && arrived == after
      && (|| (manifest == m0 && files == files0 - touched && ticks == ticks0)
          || (manifest == candidate && files == after && ticks == ticks0 + bumps))
    }

    /** Overwrites the listed chunks with random noise, one after the other. */
    method ShredAll(shred: seq<U32>, faulty: bool) returns (r: Result<()>)
      requires |disk| == geo.total
      requires forall c | c in shred :: c < geo.total
      modifies this`disk, this`images
      ensures SameOutside(old(disk), disk, Elems(shred))
      ensures r.Success? ==> disk == Shredded(old(disk), shred)
      ensures r.Failure? ==> r.error == Io
      ensures old(images) <= images
      ensures forall k | |old(images)| <= k < |images| :: MidShred(old(disk), shred, images[k])
      ensures !faulty ==> r != Failure(Io)
    {
      assert Shredded(disk, shred[..0]) == disk;
      r := Success(());
      for i := 0 to |shred|
        invariant disk == Shredded(old(disk), shred[..i])
        invariant r.Success?
        invariant old(images) <= images
        invariant forall k | |old(images)| <= k < |images| :: MidShred(old(disk), shred, images[k])
      {
        ElemsPrefix(shred, i);
        var randomFails: bool := *;
        if faulty && randomFails {
          return Failure(Io);
        }
        assert shred[i] in shred;
        assert shred[..i + 1] == shred[..i] + [shred[i]];
        r := WriteChunkRaw(shred[i], Noise, faulty);
        if r.Failure? {
          return;
        }
        assert disk == Shredded(old(disk), shred[..i + 1]);
      }
      assert shred[..|shred|] == shred;
    }

    // ---- whole-file operations ----

    /** Seals the pieces of a content into the given chunks, in order. */
    method WritePieces(chunks: seq<U32>, content: seq<Byte>, faulty: bool) returns (r: Result<()>)
      requires |disk| == geo.total && Placed(geo, chunks)
      requires |chunks| == Max(Pieces(|content|), 1)
      modifies this`disk, this`images
      ensures SameOutside(old(disk), disk, Elems(chunks))
      ensures r.Success? ==> Written(geo, disk, chunks, content, |chunks|)
      ensures r.Failure? ==> r.error == Io
      ensures old(images) <= images
      ensures forall k | |old(images)| <= k < |images| :: SameOutside(old(disk), images[k], Elems(chunks))
      ensures !faulty ==> r != Failure(Io)
    {
      hide Seal, Pieces, Piece, Elems;
      for i := 0 to |chunks|
        invariant SameOutside(old(disk), disk, Elems(chunks))
        invariant Written(geo, disk, chunks, content, i)
        invariant old(images) <= images
        invariant forall k | |old(images)| <= k < |images| :: SameOutside(old(disk), images[k], Elems(chunks))
      {
        PieceIsSlice(content, i, |chunks|);
        var start := i * CHUNK_PLAINTEXT_LEN;
        var end := Min((i + 1) * CHUNK_PLAINTEXT_LEN, |content|);
        var slice := content[start..end];
        assert chunks[i] in chunks;
        var stored := EncryptPiece(chunks[i], slice, faulty);
        if stored.Failure? {
          return Failure(stored.error);
        }
        r := WriteChunkRaw(chunks[i], stored.value, faulty);
        if r.Failure? {
          return;
        }
      }
      return Success(());
    }

    method EncryptPiece(index: nat, text: seq<Byte>, faulty: bool) returns (r: Result<Cell>)
      requires |text| <= CHUNK_PLAINTEXT_LEN
      ensures r == Failure(Io) || r == Success(Seal(geo.master, index, text))
      ensures !faulty ==> r != Failure(Io)
    {
      r := EncryptChunk(ChunkKey(geo.master, index), index, text, faulty);
    }

    /** Add or replace a whole file. An existing file's chunks are reused in place, so an I/O
        error while the new pieces are written may damage it without poisoning the session;
        a file without chunks cannot be damaged. */
    method AddFile(name: Text, plaintext: seq<Byte>, faulty: bool) returns (r: Result<()>)
      requires Valid() && |plaintext| <= U64_MAX
      modifies this
      ensures Valid()
      ensures old(poisoned) ==> r == Failure(SessionPoisoned) && unchanged(this)
      ensures Answers(r, AddRefusal(geo, old(manifest), old(poisoned), name, |plaintext|), faulty)
      ensures r.Success? ==> !poisoned && files == old(files)[name := plaintext] && ticks == old(ticks) + 1
                             && Added(geo, old(manifest), manifest, name, |plaintext|)
                             && Names(manifest.entries) == Names(old(manifest).entries) + {name}
      ensures r.Failure? && r.error != Io ==> unchanged(this)
      ensures r == Failure(Io) && !poisoned ==>
                manifest == old(manifest) && ticks == old(ticks) && files == Remaining(geo, disk, manifest, old(files), name)
      ensures r == Failure(Io) && !poisoned && ChunkList(old(manifest).entries, name) == [] ==> files == old(files)
      ensures r == Failure(Io) && poisoned ==>
                AddHalfDone(old(manifest), old(files), old(ticks), name, |plaintext|, old(files)[name := plaintext])
      ensures r.Success? ==> Scrubbed(geo, old(manifest), old(disk), manifest, disk)
      ensures old(images) <= images
      ensures forall k | |old(images)| <= k < |images| ::
                OverwriteSafe(geo, images[k], old(manifest), old(files), Outcome(), OutcomeFiles(), {name})
      ensures !faulty ==> r != Failure(Io)
    {
      hide Print, Parse, ValidTexts, Canonical, DecryptChunk, Reopen, Keeps, Layout, Free, Placed, Drawn,
        Written, Used, Without, ValidName, Remaining, Names, Scrubbed;
      if poisoned {
        return Failure(SessionPoisoned);
      }
      if !ValidName(name) {
        return Failure(InvalidName);
      }
      ChunkListReusable(geo, manifest.entries, name);
      var existingChunks := ChunkList(manifest.entries, name);
      var needed := Max(Pieces(|plaintext|), 1);
      var drawn := AllocateChunks(needed, existingChunks);
      if drawn.Failure? {
        return Failure(drawn.error);
      }
      var candidate := new Candidate(manifest);
      var entry := FileEntry(name, |plaintext|, drawn.value);
      candidate.Upsert(entry);
      var bytes := candidate.Serialize();
      DrawnIsPlaced(geo, manifest.entries, name, needed, existingChunks, drawn.value);
      UpsertSerializes(manifest, entry);
      if bytes.Failure? {
        return Failure(bytes.error);
      }
      ghost var d0, m0, files0 := disk, manifest, files;
      r := CommitPieces(entry, plaintext, existingChunks, candidate.Value(), bytes.value, faulty);
      if existingChunks == [] {
        OverwriteSpares(geo, d0, disk, m0, files0, name);
      }
    }

    /** A poisoned session after `add_file`: the old manifest without that file, or the new state. */
    ghost predicate AddHalfDone(m0: Manifest, files0: Files, ticks0: nat, name: Text, len: nat, after: Files)
      reads this
    {
      && arrived == after && Added(geo, m0, successor, name, len)
      && Names(successor.entries) == Names(m0.entries) + {name}
      && (|| (manifest == m0 && files == files0 - {name} && ticks == ticks0)
          || (manifest == successor && files == after && ticks == ticks0 + 1))
    }

    /** The I/O of `add_file`: write the pieces, then shred what is left of the old file and publish. */
    method CommitPieces(entry: FileEntry, plaintext: seq<Byte>, existingChunks: seq<U32>, candidate: Manifest,
                        bytes: seq<Byte>, faulty: bool)
      returns (r: Result<()>)
      requires Valid() && !poisoned
      requires candidate == Upserted(manifest, entry) && Serialized(candidate) == Success(bytes)
      requires entry.size == |plaintext| && |entry.chunks| == Max(Pieces(entry.size), 1) && Placed(geo, entry.chunks)
      requires forall f | f in manifest.entries && f.name != entry.name ::
                 Disjoint(entry.chunks, f.chunks) && Elems(f.chunks) !! Elems(entry.chunks)
      requires existingChunks == ChunkList(manifest.entries, entry.name)
      modifies this
      ensures Valid()
      ensures r == Failure(Io) || r == Success(())
      ensures r.Success? ==> !poisoned && files == old(files)[entry.name := plaintext] && ticks == old(ticks) + 1
                             && manifest == candidate
                             && Names(manifest.entries) == Names(old(manifest).entries) + {entry.name}
      ensures r == Failure(Io) && !poisoned ==>
                manifest == old(manifest) && ticks == old(ticks)
                && files == Remaining(geo, disk, manifest, old(files), entry.name)
      ensures r == Failure(Io) && poisoned ==>
                && successor == candidate && arrived == old(files)[entry.name := plaintext]
                && Names(candidate.entries) == Names(old(manifest).entries) + {entry.name}
                && (|| (manifest == old(manifest) && files == old(files) - {entry.name} && ticks == old(ticks))
                    || (manifest == candidate && files == arrived && ticks == old(ticks) + 1))
      ensures r.Success? ==> Scrubbed(geo, old(manifest), old(disk), manifest, disk)
      ensures old(images) <= images
      ensures forall k | |old(images)| <= k < |images| ::
                OverwriteSafe(geo, images[k], old(manifest), old(files), Outcome(), OutcomeFiles(), {entry.name})
      ensures !faulty ==> r != Failure(Io)
    {
      hide Print, Parse, ValidTexts, Canonical, DecryptChunk, Reopen, Keeps, Layout, Written, Without, Names,
        Serialized, Intact, Remaining, Recoverable, Upserted, Scrubbed, Find;
      ghost var name, d0, m0, files0 := entry.name, disk, manifest, files;
      ghost var after := files[name := plaintext];
      UpsertCounts(m0, entry, ticks);
      PublishedLayout(geo, m0);
      LayoutUnique(geo, m0.entries);
      r := WritePieces(entry.chunks, plaintext, faulty);
      KeepsOthers(geo, d0, disk, Elems(entry.chunks), m0.entries, files0, name);
      ghost var mid := |images|;
      forall k | |old(images)| <= k < mid
        ensures OverwriteSafe(geo, images[k], m0, files0, m0, files0 - {name}, {name})
      {
        IntactDrop(geo, d0, images[k], m0, files0, {name}, Elems(entry.chunks));
      }
      if r.Failure? {
        KeepsRemaining(geo, d0, disk, m0, files0, name);
        files := Remaining(geo, disk, m0, files0, name);
        return;
      }
      files := files - {name};
      ghost var d := disk;
      var displaced := Except(existingChunks, entry.chunks);
      UpsertReady(geo, d0, disk, Elems(entry.chunks), m0, files0, entry, after);
      DisplacedIsSheddable(geo, m0, entry, displaced);
      r := DestructivePhase(displaced, candidate, bytes, false, {name}, after, 1, faulty);
      assert r.Success? ==> r.value == ();
      assert files0 - {name} - {name} == files0 - {name};
      UpsertNames(m0, entry);
      if r.Success? {
        UpsertScrubs(geo, m0, d0, d, disk, entry, entry.chunks, displaced);
      }
      forall k | |old(images)| <= k < |images|
        ensures OverwriteSafe(geo, images[k], m0, files0, candidate, after, {name})
      {
        if k >= mid {
          WindowIsOverwrite(geo, images[k], m0, files0, candidate, after, name, Elems(displaced));
        }
      }
    }

    // ---- creation, deletion, renaming ----

    /** Idempotent creation of an empty file. */
    method CreateFile(name: Text, faulty: bool) returns (r: Result<()>)
      requires Valid()
      modifies this
      ensures Valid()
      ensures old(poisoned) ==> r == Failure(SessionPoisoned) && unchanged(this)
      ensures Answers(r, CreateRefusal(old(manifest), old(poisoned), name, false), faulty)
      ensures r.Success? && Find(old(manifest).entries, name).Some? ==> unchanged(this)
      ensures r.Success? && Find(old(manifest).entries, name).None? ==> Created(old(manifest), old(files), old(ticks), name)
      ensures r.Failure? && r.error != Io ==> unchanged(this)
      ensures r == Failure(Io) ==> Find(old(manifest).entries, name).None?
      ensures r == Failure(Io) ==> poisoned && CreateHalfDone(old(manifest), old(files), old(ticks), name)
      ensures r.Success? ==> Scrubbed(geo, old(manifest), old(disk), manifest, disk)
      ensures old(images) <= images
      ensures forall k | |old(images)| <= k < |images| ::
                WindowSafe(geo, images[k], old(manifest), old(files), Outcome(), OutcomeFiles(), {}, {})
      ensures !faulty ==> r != Failure(Io)
    {
      hide Publishable, Keeps, Reopen, ValidName, Print, Intact;
      if poisoned {
        return Failure(SessionPoisoned);
      }
      if !ValidName(name) {
        return Failure(InvalidName);
      }
      if Find(manifest.entries, name).Some? {
        return Success(());
      }
      r := CreateEmptyEntry(name, faulty);
    }

    /** Creation that refuses an existing name. */
    method CreateFileExclusive(name: Text, faulty: bool) returns (r: Result<()>)
      requires Valid()
      modifies this
      ensures Valid()
      ensures old(poisoned) ==> r == Failure(SessionPoisoned) && unchanged(this)
      ensures Answers(r, CreateRefusal(old(manifest), old(poisoned), name, true), faulty)
      ensures Find(old(manifest).entries, name).Some? ==> r.Failure? && unchanged(this)
      ensures r.Success? ==> Created(old(manifest), old(files), old(ticks), name)
      ensures r.Failure? && r.error != Io ==> unchanged(this)
      ensures r == Failure(Io) ==> Find(old(manifest).entries, name).None?
      ensures r == Failure(Io) ==> poisoned && CreateHalfDone(old(manifest), old(files), old(ticks), name)
      ensures r.Success? ==> Scrubbed(geo, old(manifest), old(disk), manifest, disk)
      ensures old(images) <= images
      ensures forall k | |old(images)| <= k < |images| ::
                WindowSafe(geo, images[k], old(manifest), old(files), Outcome(), OutcomeFiles(), {}, {})
      ensures !faulty ==> r != Failure(Io)
    {
      hide Publishable, Keeps, Reopen, ValidName, Print, Intact;
      if poisoned {
        return Failure(SessionPoisoned);
      }
      if !ValidName(name) {
        return Failure(InvalidName);
      }
      if Find(manifest.entries, name).Some? {
        return Failure(AlreadyExists(name));
      }
      r := CreateEmptyEntry(name, faulty);
    }

    ghost predicate Created(m0: Manifest, files0: Files, ticks0: nat, name: Text)
      reads this
    {
      !poisoned && manifest == Upserted(m0, FileEntry(name, 0, [])) && files == files0[name := []] && ticks == ticks0 + 1
    }

    ghost predicate CreateHalfDone(m0: Manifest, files0: Files, ticks0: nat, name: Text)
      reads this
    {
      HalfDone(m0, files0, ticks0, Upserted(m0, FileEntry(name, 0, [])), {}, files0[name := []], 1)
    }

    method CreateEmptyEntry(name: Text, faulty: bool) returns (r: Result<()>)
      requires Valid() && !poisoned
      requires ValidName(name) && Find(manifest.entries, name).None?
      modifies this
      ensures Valid()
      ensures Answers(r, CreateRefusal(old(manifest), false, name, true), faulty)
      ensures r.Success? ==> Created(old(manifest), old(files), old(ticks), name)
      ensures r.Failure? && r.error != Io ==> unchanged(this)
      ensures r == Failure(Io) ==> poisoned && CreateHalfDone(old(manifest), old(files), old(ticks), name)
      ensures r.Success? ==> Scrubbed(geo, old(manifest), old(disk), manifest, disk)
      ensures old(images) <= images
      ensures forall k | |old(images)| <= k < |images| ::
                WindowSafe(geo, images[k], old(manifest), old(files), Outcome(), OutcomeFiles(), {}, {})
      ensures !faulty ==> r != Failure(Io)
    {
      hide Print, Parse, ValidTexts, Canonical, DecryptChunk, Reopen, Keeps, Layout, Placed, Without, ValidName;
      var candidate := new Candidate(manifest);
      var entry := FileEntry(name, 0, []);
      candidate.Upsert(entry);
      var bytes := candidate.Serialize();
      UpsertSerializes(manifest, entry);
      if bytes.Failure? {
        return Failure(bytes.error);
      }
      ghost var after := files[name := []];
      PublishedLayout(geo, manifest);
      EmptyEntryReady(geo, disk, manifest, files, name);
      r := DestructivePhase([], candidate.Value(), bytes.value, false, {}, after, 1, faulty);
      assert r.Success? ==> r.value == ();
      UpsertNames(old(manifest), entry);
      if r.Success? {
        LayoutUnique(geo, old(manifest).entries);
        NothingDrawn(old(disk));
        UpsertScrubs(geo, old(manifest), old(disk), old(disk), disk, entry, [], []);
      }
    }

    /** Delete a file and shred its chunks. */
    method DeleteFile(name: Text, faulty: bool) returns (r: Result<()>)
      requires Valid()
      modifies this
      ensures Valid()
      ensures old(poisoned) ==> r == Failure(SessionPoisoned) && unchanged(this)
      ensures Answers(r, DeleteRefusal(old(manifest), old(poisoned), name), faulty)
      ensures r.Success? ==> !poisoned && manifest == Removed(old(manifest), name)
                             && files == old(files) - {name} && ticks == old(ticks) + 1
      ensures r.Success? ==> forall c | c in ChunkList(old(manifest).entries, name) :: disk[c] == Noise
      ensures r.Failure? && r.error != Io ==> unchanged(this)
      ensures r == Failure(Io) ==> poisoned && HalfDone(old(manifest), old(files), old(ticks),
                                                        Removed(old(manifest), name), {name}, old(files) - {name}, 1)
      ensures r.Success? ==> Scrubbed(geo, old(manifest), old(disk), manifest, disk)
      ensures old(images) <= images
      ensures forall k | |old(images)| <= k < |images| ::
                WindowSafe(geo, images[k], old(manifest), old(files), Outcome(), OutcomeFiles(), {name},
                           Elems(ChunkList(old(manifest).entries, name)))
      ensures !faulty ==> r != Failure(Io)
    {
      hide Print, Parse, ValidTexts, Canonical, DecryptChunk, Reopen, Keeps, Layout, Without, Names;
      if poisoned {
        return Failure(SessionPoisoned);
      }
      var candidate := new Candidate(manifest);
      var entry := candidate.Remove(name);
      if entry.None? {
        return Failure(FileNotFound(name));
      }
      PublishedLayout(geo, manifest);
      LayoutUnique(geo, manifest.entries);
      DeleteReady(geo, disk, manifest, files, name);
      var bytes := candidate.Serialize();
      r := DestructivePhase(entry.value.chunks, candidate.Value(), bytes.value, true, {name}, files - {name}, 1, faulty);
      assert r.Success? ==> r.value == ();
      if r.Success? {
        RemovalScrubs(geo, old(manifest), old(disk), disk, name);
      }
    }

    /** Rename a file, replacing (and shredding) any file of the new name. */
    method RenameFile(from: Text, to: Text, faulty: bool) returns (r: Result<()>)
      requires Valid()
      modifies this
      ensures Valid()
      ensures old(poisoned) ==> r == Failure(SessionPoisoned) && unchanged(this)
      ensures Answers(r, RenameRefusal(old(manifest), old(poisoned), from, to), faulty)
      ensures r.Success? && from == to ==> unchanged(this)
      ensures r.Success? && from != to ==> Find(old(manifest).entries, from).Some?
      ensures r.Success? && from != to ==> !poisoned && manifest == Renamed(old(manifest), from, to)
      ensures r.Success? && from != to ==> files == RenamedFiles(old(files), from, to)
      ensures r.Success? && from != to ==> ticks == old(ticks) + RenameBumps(old(manifest), to)
      ensures r.Failure? && r.error != Io ==> unchanged(this)
      ensures r == Failure(Io) ==> poisoned && from != to && Find(old(manifest).entries, from).Some?
      ensures r == Failure(Io) ==> HalfDone(old(manifest), old(files), old(ticks), Renamed(old(manifest), from, to), {to},
                                            RenamedFiles(old(files), from, to), RenameBumps(old(manifest), to))
      ensures r.Success? ==> Scrubbed(geo, old(manifest), old(disk), manifest, disk)
      ensures old(images) <= images
      ensures forall k | |old(images)| <= k < |images| ::
                WindowSafe(geo, images[k], old(manifest), old(files), Outcome(), OutcomeFiles(), {to},
                           Elems(ChunkList(old(manifest).entries, to)))
      ensures !faulty ==> r != Failure(Io)
    {
      hide Print, Parse, ValidTexts, Canonical, DecryptChunk, Reopen, Keeps, Layout, Without, ValidName,
        Removed, Upserted, RenamedFiles, Names, Scrubbed, WindowSafe, Find;
      ScrubbedSame(geo, manifest, disk);
      if poisoned {
        return Failure(SessionPoisoned);
      }
      if !ValidName(to) {
        return Failure(InvalidName);
      }
      if from == [] {
        return Failure(InvalidName);
      }
      if from == to {
        return Success(());
      }
      var renamed := Find(manifest.entries, from);
      if renamed.None? {
        return Failure(FileNotFound(from));
      }
      var entry := FileEntry(to, renamed.value.size, renamed.value.chunks);
      var displaced := ChunkList(manifest.entries, to);
      var candidate := new Candidate(manifest);
      var _ := candidate.Remove(from);
      var _ := candidate.Remove(to);
      candidate.Upsert(entry);
      assert candidate.Value() == Renamed(manifest, from, to);
      var bytes := candidate.Serialize();
      PublishedLayout(geo, manifest);
      LayoutUnique(geo, manifest.entries);
      RenameReady(geo, disk, manifest, files, from, to);
      RenamedSerializes(geo, manifest, from, to);
      RenamedCounter(geo, manifest, from, to, ticks);
      if bytes.Failure? {
        return Failure(bytes.error);
      }
      r := DestructivePhase(displaced, candidate.Value(), bytes.value, false, {to},
                            RenamedFiles(files, from, to), RenameBumps(manifest, to), faulty);
      assert r.Success? ==> r.value == ();
      if r.Success? {
        RenameScrubs(geo, old(manifest), old(disk), disk, from, to, renamed.value);
      }
    }

    // ---- range writes ----

    /** Reads and decrypts chunk i of a file. */
    method ReadPiece(e: FileEntry, i: nat, ghost content: Option<seq<Byte>>, faulty: bool) returns (r: Result<seq<Byte>>)
      requires |disk| == geo.total && Placed(geo, e.chunks) && i < |e.chunks|
      requires content.Some? ==> Holds(geo, disk, e, content.value)
      ensures r.Success? ==> |r.value| <= CHUNK_PLAINTEXT_LEN && (content.Some? ==> r.value == Piece(content.value, i))
      ensures r.Failure? ==> r.error == Io || (content.None? && Unreadable(r.error))
      ensures !faulty ==> r != Failure(Io)
    {
      hide Seal;
      var index := e.chunks[i];
      assert index in e.chunks;
      var stored := ReadChunkRaw(index, faulty);
      if stored.Failure? {
        return Failure(stored.error);
      }
      r := DecryptChunk(ChunkKey(geo.master, index), index, stored.value);
      DecryptedIsShort(ChunkKey(geo.master, index), index, stored.value);
      if content.Some? {
        OpenSealed(geo.master, index, geo.master, index, Piece(content.value, i));
      }
    }

    /** Reads piece i of a file; past its end there is nothing, and nothing is read. */
    method ReadOldPiece(current: FileEntry, i: nat, ghost content: Option<seq<Byte>>, faulty: bool)
      returns (r: Result<seq<Byte>>)
      requires |disk| == geo.total && Shaped(current) && Placed(geo, current.chunks)
      requires content.Some? ==> Holds(geo, disk, current, content.value)
      ensures current.size <= i * CHUNK_PLAINTEXT_LEN ==> r == Success([])
      ensures r.Success? ==> |r.value| <= CHUNK_PLAINTEXT_LEN && (content.Some? ==> r.value == Piece(content.value, i))
      ensures r.Failure? ==> r.error == Io || content.None?
      ensures !faulty ==> r != Failure(Io)
    {
      var start := i * CHUNK_PLAINTEXT_LEN;
      if i < |current.chunks| && Min(start + CHUNK_PLAINTEXT_LEN, current.size) > start {
        r := ReadPiece(current, i, content, faulty);
      } else {
        return Success([]);
      }
    }

    /** Re-encrypts every piece from `dirty` on under fresh chunks, merging old bytes and data. */
    method RewritePieces(current: FileEntry, drawn: seq<U32>, dirty: nat, newSize: nat, offset: nat, data: seq<Byte>,
                         ghost content: Option<seq<Byte>>, faulty: bool)
      returns (r: Result<()>)
      requires |disk| == geo.total && Shaped(current) && Placed(geo, current.chunks)
      requires Placed(geo, drawn) && Disjoint(drawn, current.chunks)
      requires dirty + |drawn| == Pieces(newSize) && newSize == Max(current.size, offset + |data|)
      requires content.Some? ==> Holds(geo, disk, current, content.value)
      modifies this`disk, this`images
      ensures SameOutside(old(disk), disk, Elems(drawn))
      ensures r.Success? && content.Some? ==>
                WrittenFrom(geo, disk, drawn, Splice(content.value, offset, data), dirty, |drawn|)
      ensures r.Failure? ==> r.error == Io || content.None?
      ensures old(images) <= images
      ensures forall k | |old(images)| <= k < |images| :: SameOutside(old(disk), images[k], Elems(drawn))
      ensures !faulty ==> r != Failure(Io)
    {
      hide Seal, Piece, Splice, Merged, Written;
      for i := 0 to |drawn|
        invariant SameOutside(old(disk), disk, Elems(drawn))
        invariant content.Some? ==> WrittenFrom(geo, disk, drawn, Splice(content.value, offset, data), dirty, i)
        invariant old(images) <= images
        invariant forall k | |old(images)| <= k < |images| :: SameOutside(old(disk), images[k], Elems(drawn))
      {
        if content.Some? {
          assert forall c | c in current.chunks :: c !in Elems(drawn);
          HoldsFrame(geo, old(disk), disk, current, content.value);
        }
        var oldPiece := ReadOldPiece(current, dirty + i, content, faulty);
        if oldPiece.Failure? {
          return Failure(oldPiece.error);
        }
        var piece := MergePiece(oldPiece.value, newSize, offset, data, dirty + i);
        MergedIsShort(piece, oldPiece.value, newSize, offset, data, dirty + i);
        if content.Some? {
          MergedIsPiece(piece, content.value, offset, data, dirty + i);
        }
        assert drawn[i] in drawn;
        var stored := EncryptPiece(drawn[i], piece, faulty);
        if stored.Failure? {
          return Failure(stored.error);
        }
        r := WriteChunkRaw(drawn[i], stored.value, faulty);
        if r.Failure? {
          return;
        }
      }
      return Success(());
    }

    /** What an unpoisoned or poisoned session holds after an I/O failure in a mutation of
        one file: the old state, the old state without that file, or the new state. */
    ghost predicate Faulted(m0: Manifest, files0: Files, ticks0: nat, name: Text, after: Files)
      reads this
    {
      && Names(manifest.entries) == Names(m0.entries)
      && (manifest == m0 || OnlyTouched(m0, manifest, name))
      && (poisoned ==> arrived == after && OnlyTouched(m0, successor, name) && Names(successor.entries) == Names(m0.entries))
      && (|| (manifest == m0 && files == files0 && ticks == ticks0)
          || (poisoned && manifest == m0 && files == files0 - {name} && ticks == ticks0)
          || (poisoned && files == after && ticks == ticks0 + 1))
    }

    /** The I/O of `write_file_range`: rewrite the dirty pieces on fresh chunks, then shred the
        displaced ones and publish. */
    method CommitRange(current: FileEntry, offset: nat, data: seq<Byte>, drawn: seq<U32>, bytes: seq<Byte>, faulty: bool)
      returns (r: Result<()>)
      requires Valid() && !poisoned
      requires current in manifest.entries && 0 < |data| && offset + |data| <= U64_MAX
      requires Placed(geo, drawn) && forall f | f in manifest.entries :: Disjoint(drawn, f.chunks)
      requires |drawn| == Pieces(Max(current.size, offset + |data|)) - FirstDirty(current.size, offset)
      requires Serialized(Upserted(manifest, WrittenEntry(current, offset, |data|, drawn))) == Success(bytes)
      modifies this
      ensures Valid()
      ensures poisoned && !old(poisoned) ==> r == Failure(Io)
      ensures r.Failure? ==> r.error == Io || current.name !in old(files)
      ensures r.Success? ==> !poisoned && ticks == old(ticks) + 1
                             && manifest == Upserted(old(manifest), WrittenEntry(current, offset, |data|, drawn))
                             && files == WrittenFiles(old(files), current.name, offset, data)
      ensures r.Success? ==> Names(manifest.entries) == Names(old(manifest).entries)
      ensures r.Failure? ==> Faulted(old(manifest), old(files), old(ticks), current.name,
                                     WrittenFiles(old(files), current.name, offset, data))
      ensures r.Success? ==> Scrubbed(geo, old(manifest), old(disk), manifest, disk)
      ensures old(images) <= images
      ensures forall k | |old(images)| <= k < |images| ::
                WindowSafe(geo, images[k], old(manifest), old(files), Outcome(), OutcomeFiles(), {current.name},
                           Elems(ChunkList(old(manifest).entries, current.name)))
      ensures !faulty ==> r != Failure(Io)
    {
      hide Print, Parse, ValidTexts, Canonical, DecryptChunk, Reopen, Keeps, Layout, Without, Names,
        Serialized, Intact, Written, WrittenFrom, Shaped, NoDup, WrittenEntry, Splice, Pieces, Apart,
        Upserted, WindowSafe, Recoverable, OnlyTouched, Publishable, Scrubbed, Find;
      ghost var d0, m0, files0, name := disk, manifest, files, current.name;
      ghost var content := if name in files then Some(files[name]) else None;
      var w := WrittenEntry(current, offset, |data|, drawn);
      var dirty := FirstDirty(current.size, offset);
      PublishedLayout(geo, m0);
      LayoutUnique(geo, m0.entries);
      UpsertCounts(m0, w, ticks);
      WrittenEntryIsPlaced(geo, m0.entries, current, offset, |data|, drawn);
      EntryFacts(geo, d0, m0.entries, files0, current);
      r := RewritePieces(current, drawn, dirty, Max(current.size, offset + |data|), offset, data, content, faulty);
      UnusedChunks(geo, d0, disk, m0, files0, Elems(drawn));
      ghost var mid := |images|;
      forall k | |old(images)| <= k < mid ensures Intact(geo, images[k], m0, files0) {
        IntactFrame(geo, d0, images[k], m0, files0, Elems(drawn));
      }
      if r.Failure? {
        forall k | |old(images)| <= k < |images|
          ensures WindowSafe(geo, images[k], m0, files0, m0, files0, {name}, Elems(ChunkList(m0.entries, name)))
        {
          IntactIsSafe(geo, images[k], m0, files0, m0, files0, {name}, Elems(ChunkList(m0.entries, name)));
        }
        return;
      }
      ghost var d := disk;
      var shred := current.chunks[dirty..];
      ghost var m1, after := Upserted(m0, w), WrittenFiles(files0, name, offset, data);
      WriteReady(geo, d0, disk, m0, files0, current, offset, data, drawn);
      WriteDisplaces(geo, m0, current, offset, |data|, drawn, shred);
      r := DestructivePhase(shred, Upserted(manifest, w), bytes, false, {name}, after, 1, faulty);
      UpsertNames(m0, w);
      if r.Success? {
        WriteScrubs(geo, m0, d0, d, disk, current, offset, |data|, drawn, shred);
      }
      UpsertTouches(m0, w);
      EntryNamed(m0.entries, current);
      WrittenEntryIs(current, offset, |data|, drawn);
      forall k | |old(images)| <= k < |images|
        ensures WindowSafe(geo, images[k], m0, files0, m1, after, {name}, Elems(ChunkList(m0.entries, name)))
      {
        if k < mid {
          IntactIsSafe(geo, images[k], m0, files0, m1, after, {name}, Elems(ChunkList(m0.entries, name)));
        } else {
          WindowWidens(geo, images[k], m0, files0, m1, after, {name}, Elems(shred), Elems(ChunkList(m0.entries, name)));
        }
      }
    }

    /** Everything before the first disk write: the range checks, the chunks to draw, and the
        manifest to publish, serialized. */
    method PlanWrite(current: FileEntry, offset: U64, len: nat) returns (r: Result<(seq<U32>, seq<Byte>)>)
      requires Valid() && Find(manifest.entries, current.name) == Some(current) && ValidName(current.name) && 0 < len
      ensures r.Failure? ==> r.error != Io && WriteRefusal(geo, manifest, false, current.name, offset, len) == Some(r.error)
      ensures r.Success? ==>
                && WriteRefusal(geo, manifest, false, current.name, offset, len) == None && offset + len <= U64_MAX
                && Placed(geo, r.value.0) && (forall f | f in manifest.entries :: Disjoint(r.value.0, f.chunks))
                && |r.value.0| == Pieces(Max(current.size, offset + len)) - FirstDirty(current.size, offset)
                && Serialized(Upserted(manifest, WrittenEntry(current, offset, len, r.value.0))) == Success(r.value.1)
                && WroteFresh(geo, manifest, Upserted(manifest, WrittenEntry(current, offset, len, r.value.0)),
                              current.name, offset, len)
    {
      hide Print, Parse, ValidTexts, Canonical, DecryptChunk, Reopen, Keeps, Layout, Without, Names, Intact,
        ValidName, Free, Drawn, WrittenEntry, Shaped, Placed, GrownLen, FreeCount, ChunkList, Find, WroteFresh;
      var end := offset + len;
      if end > U64_MAX {
        return Failure(Overflow);
      }
      var newSize := Max(current.size, end);
      if newSize + CHUNK_PLAINTEXT_LEN - 1 > U64_MAX {
        return Failure(Overflow);
      }
      var newCount := Pieces(newSize);
      if newCount > U32_MAX {
        return Failure(Overflow);
      }
      var dirty := FirstDirty(current.size, offset);
      FirstDirtyBounds(current.size, offset, len);
      EntryNamed(manifest.entries, current);
      PublishedLayout(geo, manifest);
      var drawn := AllocateChunks(newCount - dirty, []);
      if drawn.Failure? {
        return Failure(drawn.error);
      }
      RangeReady(geo, manifest.entries, current, offset, len, newCount - dirty, drawn.value);
      WritesFresh(geo, manifest, current, offset, len, drawn.value);
      var chunks := current.chunks[..Min(dirty, |current.chunks|)] + drawn.value;
      var entry := FileEntry(current.name, newSize, chunks);
      var candidate := new Candidate(manifest);
      candidate.Upsert(entry);
      var bytes := candidate.Serialize();
      UpsertSerializes(manifest, entry);
      if bytes.Failure? {
        return Failure(bytes.error);
      }
      return Success((drawn.value, bytes.value));
    }

    /** Write `data` at `offset`, growing the file and zero-filling any hole. */
    method WriteFileRange(name: Text, offset: U64, data: seq<Byte>, faulty: bool) returns (r: Result<()>)
      requires Valid() && |data| <= U64_MAX
      modifies this
      ensures Valid()
      ensures poisoned && !old(poisoned) ==> r == Failure(Io)
      ensures old(poisoned) ==> r == Failure(SessionPoisoned) && unchanged(this)
      ensures Answers(r, WriteRefusal(geo, old(manifest), old(poisoned), name, offset, |data|), faulty)
              || (WriteRefusal(geo, old(manifest), old(poisoned), name, offset, |data|).None? && data != []
                  && r.Failure? && name in Names(old(manifest).entries) && name !in old(files))
      ensures data == [] ==> unchanged(this) && r != Failure(Io)
      ensures r.Success? && data != [] ==> !poisoned && ticks == old(ticks) + 1
      ensures r.Success? && data != [] ==> files == WrittenFiles(old(files), name, offset, data)
      ensures r.Success? && data != [] ==> WroteFresh(geo, old(manifest), manifest, name, offset, |data|)
      ensures r.Success? ==> Names(manifest.entries) == Names(old(manifest).entries)
      ensures WriteRefusal(geo, old(manifest), old(poisoned), name, offset, |data|).Some? ==> r.Failure? && unchanged(this)
      ensures r.Failure? && !old(poisoned) ==>
                Faulted(old(manifest), old(files), old(ticks), name, WrittenFiles(old(files), name, offset, data))
      ensures r.Success? ==> Scrubbed(geo, old(manifest), old(disk), manifest, disk)
      ensures old(images) <= images
      ensures forall k | |old(images)| <= k < |images| ::
                WindowSafe(geo, images[k], old(manifest), old(files), Outcome(), OutcomeFiles(), {name},
                           Elems(ChunkList(old(manifest).entries, name)))
      ensures !faulty ==> r != Failure(Io)
    {
      hide Print, Parse, ValidTexts, Canonical, DecryptChunk, Reopen, Keeps, Layout, Without, Names, Intact,
        ValidName, Free, Drawn, WrittenEntry, Shaped, Placed, Recoverable, OnlyTouched, WindowSafe, GrownLen,
        FreeCount, Scrubbed, ChunkList, Find, WroteFresh, WrittenFiles, Disjoint, FirstDirty, Upserted, Serialized;
      ScrubbedSame(geo, manifest, disk);
      if poisoned {
        return Failure(SessionPoisoned);
      }
      if !ValidName(name) {
        return Failure(InvalidName);
      }
      if data == [] {
        return Success(());
      }
      var found := Find(manifest.entries, name);
      if found.None? {
        return Failure(FileNotFound(name));
      }
      var current := found.value;
      var plan := PlanWrite(current, offset, |data|);
      if plan.Failure? {
        return Failure(plan.error);
      }
      EntryNamed(manifest.entries, current);
      r := CommitRange(current, offset, data, plan.value.0, plan.value.1, faulty);
      assert r.Success? ==> r.value == ();
    }

    // ---- reading ----

    /** A whole file, chunk by chunk. */
    method ReadFile(name: Text, faulty: bool) returns (r: Result<seq<Byte>>)
      requires Valid()
      ensures name !in Names(manifest.entries) ==> r == Failure(FileNotFound(name))
      ensures name in files ==> r == Failure(Io) || r == Success(files[name])
      ensures !faulty ==> r != Failure(Io)
    {
      hide Publishable, Reopen, Print, Holds;
      var found := Find(manifest.entries, name);
      if found.None? {
        assert name !in Names(manifest.entries);
        return Failure(FileNotFound(name));
      }
      var e := found.value;
      EntryFactsOf(geo, disk, manifest, files, e);
      ghost var content := if name in files then Some(files[name]) else None;
      var out: seq<Byte> := [];
      for i := 0 to |e.chunks|
        invariant content.Some? ==> out == content.value[..Min(i * CHUNK_PLAINTEXT_LEN, |content.value|)]
      {
        var piece := ReadPiece(e, i, content, faulty);
        if piece.Failure? {
          return Failure(piece.error);
        }
        if content.Some? {
          PiecesJoin(content.value, i);
        }
        out := out + piece.value;
      }
      if content.Some? {
        HoldsSize(geo, disk, e, content.value);
        assert |e.chunks| * CHUNK_PLAINTEXT_LEN >= e.size;
        assert out == content.value;
      }
      return Success(out[..Min(e.size, |out|)]);
    }

    lemma FilesNamed()
      requires Valid()
      ensures files.Keys <= Names(manifest.entries)
    {}

    lemma Reading(e: FileEntry)
      requires Valid() && e in manifest.entries
      ensures |disk| == geo.total && Shaped(e) && Placed(geo, e.chunks)
      ensures e.name in files ==> Holds(geo, disk, e, files[e.name])
    {
      EntryFactsOf(geo, disk, manifest, files, e);
    }

    /** Up to `len` bytes from `offset`, decrypting only the chunks that overlap the window.
        On a damaged file a chunk may be shorter than the window needs: the original panics. */
    method ReadFileRange(name: Text, offset: U64, len: U64, faulty: bool) returns (r: Result<seq<Byte>>)
      requires Valid()
      ensures name !in Names(manifest.entries) ==> r == Failure(FileNotFound(name))
      ensures name in files ==> r == Failure(Io) || r == Success(Window(files[name], offset, len))
      ensures forall e | Find(manifest.entries, name) == Some(e) && (offset >= e.size || len == 0) :: r == Success([])
      ensures r.Failure? && name in Names(manifest.entries) ==> r.error == Io || Unreadable(r.error)
      ensures forall e | Find(manifest.entries, name) == Some(e) && r.Success? ::
                |r.value| <= len && (offset < e.size ==> offset + |r.value| <= e.size)
      ensures !faulty ==> r != Failure(Io)
    {
      hide Valid, Publishable, Reopen, Print, Holds, Window, Piece, Keeps, Layout, Find, Placed, Pieces, Shaped,
        Reach, LocalStart, LocalEnd;
      FilesNamed();
      var found := Find(manifest.entries, name);
      if found.None? {
        assert name !in Names(manifest.entries);
        return Failure(FileNotFound(name));
      }
      var e := found.value;
      Reading(e);
      ghost var content := if name in files then Some(files[name]) else None;
      if content.Some? {
        HoldsSize(geo, disk, e, content.value);
        WindowEdges(content.value, offset, len);
      }
      if offset >= e.size || len == 0 {
        return Success([]);
      }
      var effective := Min(len, e.size - offset);
      var end := offset + effective;
      var first := offset / CHUNK_PLAINTEXT_LEN;
      var last := Min(Pieces(end), |e.chunks|);
      ReadBounds(e, offset, end);
      if first >= last {
        return Failure(BadManifest("manifest chunk list inconsistent with file size"));
      }
      var out: seq<Byte> := [];
      ReachBounds(offset, end, first, last);
      for i := first to last
        invariant content.Some? ==> offset + Reach(offset, end, i) <= |content.value|
                                    && out == content.value[offset..offset + Reach(offset, end, i)]
        invariant |out| <= Reach(offset, end, i)
      {
        var piece := ReadPiece(e, i, content, faulty);
        if piece.Failure? {
          return Failure(piece.error);
        }
        var localStart := LocalStart(offset, i);
        var localEnd := LocalEnd(end, i, |piece.value|);
        ReachStep(offset, end, i, |piece.value|);
        if content.Some? {
          WindowStep(content.value, offset, end, i);
        }
        if localStart > localEnd {
          return Failure(Panic);
        }
        out := out + piece.value[localStart..localEnd];
      }
      return Success(out);
    }

    // ---- truncation ----

    /** Re-encrypts the surviving prefix of piece `last` under a fresh chunk, which it returns. */
    method RewriteStraddled(current: FileEntry, last: nat, newLen: nat, ghost content: Option<seq<Byte>>, faulty: bool)
      returns (r: Result<seq<U32>>)
      requires geo.home < geo.total == |disk| <= U32_MAX && Layout(geo, manifest.entries)
      requires current in manifest.entries && last < |current.chunks| && newLen <= CHUNK_PLAINTEXT_LEN
      requires content.Some? ==> Holds(geo, disk, current, content.value) && newLen <= |Piece(content.value, last)|
      modifies this`disk, this`images
      ensures r.Success? ==> Drawn(geo, manifest.entries, 1, [], r.value) && Placed(geo, r.value)
                             && |r.value| == 1 && r.value[0] < geo.total == |disk|
      ensures r.Success? && content.Some? ==>
                disk[r.value[0]] == Seal(geo.master, r.value[0], Piece(content.value, last)[..newLen])
      ensures r.Success? ==> FreeCount(geo, manifest.entries) >= 1
      ensures r == Failure(Full) ==> (FreeCount(geo, manifest.entries) < 1 && disk == old(disk)) || content.None?
      ensures r.Failure? ==> content.None? || r.error == Io || r.error == Full
      ensures SameOutside(old(disk), disk, Free(geo, manifest.entries))
      ensures r.Success? ==> SameOutside(old(disk), disk, Elems(r.value))
      ensures r.Success? ==> images == old(images) + [disk]
      ensures r.Failure? ==> images == old(images)
      ensures !faulty ==> r != Failure(Io)
    {
      hide Layout, Seal, Holds, Piece, Free, Publishable;
      EntryPlaced(geo, manifest.entries, current);
      var oldPiece := ReadPiece(current, last, content, faulty);
      if oldPiece.Failure? {
        return Failure(oldPiece.error);
      }
      if |oldPiece.value| < newLen {
        return Failure(Panic);
      }
      var drawn := AllocateChunks(1, []);
      if drawn.Failure? {
        return Failure(drawn.error);
      }
      DrawnIsPlaced(geo, manifest.entries, current.name, 1, [], drawn.value);
      var target := drawn.value[0];
      assert target in drawn.value && drawn.value == [target];
      FreeChunk(geo, manifest.entries, drawn.value);
      var stored := EncryptPiece(target, oldPiece.value[..newLen], faulty);
      if stored.Failure? {
        return Failure(stored.error);
      }
      var w := WriteChunkRaw(target, stored.value, faulty);
      if w.Failure? {
        return Failure(w.error);
      }
      return Success(drawn.value);
    }

    /** The shrinking half of `truncate_file`. */
    method Shrink(name: Text, current: FileEntry, newSize: U64, faulty: bool) returns (r: Result<()>)
      requires Valid() && !poisoned
      requires Find(manifest.entries, name) == Some(current) && newSize < current.size
      modifies this
      ensures Valid()
      ensures poisoned && !old(poisoned) ==> r == Failure(Io)
      ensures r == Failure(Io) || r == Verdict(ShrinkRefusal(geo, old(manifest), newSize)) || (r.Failure? && name !in old(files))
      ensures r.Success? ==> !poisoned && files == ShrunkFiles(old(files), name, newSize) && ticks == old(ticks) + 1
      ensures r.Success? ==> Shrank(geo, old(manifest), manifest, name, newSize)
      ensures r.Success? ==> Names(manifest.entries) == Names(old(manifest).entries)
      ensures r == Failure(Full) && name in old(files) ==> unchanged(this)
      ensures r.Failure? ==> Faulted(old(manifest), old(files), old(ticks), name, ShrunkFiles(old(files), name, newSize))
      ensures r.Success? ==> Scrubbed(geo, old(manifest), old(disk), manifest, disk)
      ensures old(images) <= images
      ensures forall k | |old(images)| <= k < |images| ::
                WindowSafe(geo, images[k], old(manifest), old(files), Outcome(), OutcomeFiles(), {name},
                           Elems(ChunkList(old(manifest).entries, name)))
      ensures !faulty ==> r != Failure(Io)
    {
      hide Print, Parse, ValidTexts, Canonical, DecryptChunk, Reopen, Keeps, Layout, Without, Names, Intact,
        Written, WrittenFrom, Shaped, NoDup, Free, Drawn, Placed, Apart, Seal, Holds, ShrunkFiles, Upserted,
        Recoverable, OnlyTouched, WindowSafe, ShrunkEntry, FreeCount, Scrubbed, Find;
      EntryFactsOf(geo, disk, manifest, files, current);
      ghost var d0, m0, files0 := disk, manifest, files;
      ghost var content := if name in files then Some(files[name]) else None;
      var newCount := Pieces(newSize);
      NothingIsPlaced(geo);
      NothingDrawn(disk);
      PublishedLayout(geo, manifest);
      LayoutUnique(geo, manifest.entries);
      ShrinkCounts(current, newSize, content, geo, d0);
      var list := current.chunks[..newCount];
      var toFree := current.chunks[newCount..];
      var drawn: seq<U32> := [];
      if newCount > 0 {
        var last := newCount - 1;
        var start := last * CHUNK_PLAINTEXT_LEN;
        var oldLen := Min(start + CHUNK_PLAINTEXT_LEN, current.size) - start;
        var newLen := newSize - start;
        if newLen != oldLen {
          var got := RewriteStraddled(current, last, newLen, content, faulty);
          FreeIsUnused(geo, m0.entries);
          UnusedChunks(geo, d0, disk, m0, files0, Free(geo, m0.entries));
          if got.Failure? {
            return Failure(got.error);
          }
          drawn := got.value;
          DrawnIsPlaced(geo, m0.entries, name, 1, [], drawn);
          toFree := toFree + [list[last]];
          list := list[last := drawn[0]];
          IntactFrame(geo, d0, disk, m0, files0, Free(geo, m0.entries));
        }
      }
      var entry := FileEntry(name, newSize, list);
      ShrunkEntryIs(current, newSize, drawn, list, toFree);
      if content.Some? {
        LastPiece(geo, disk, drawn, content.value, newSize);
      }
      NothingIsDrawn(geo, m0.entries);
      ghost var d, mid := disk, |images|;
      r := CommitShrink(current, newSize, drawn, toFree, entry, faulty);
      if r.Success? {
        ShrinkScrubs(geo, m0, d0, d, disk, current, newSize, drawn, toFree);
      }
      forall k | |old(images)| <= k < mid
        ensures WindowSafe(geo, images[k], m0, files0, Outcome(), OutcomeFiles(), {name}, Elems(ChunkList(m0.entries, name)))
      {
        IntactIsSafe(geo, images[k], m0, files0, Outcome(), OutcomeFiles(), {name}, Elems(ChunkList(m0.entries, name)));
      }
    }

    /** Publishes the shrunk entry, shredding the chunks it dropped. */
    method CommitShrink(current: FileEntry, newSize: U64, drawn: seq<U32>, toFree: seq<U32>, entry: FileEntry, faulty: bool)
      returns (r: Result<()>)
      requires Valid() && !poisoned
      requires Find(manifest.entries, current.name) == Some(current) && newSize < current.size && Shaped(current)
      requires entry == ShrunkEntry(current, newSize, drawn) && entry.name == current.name
      requires |drawn| == if Straddles(newSize) then 1 else 0
      requires Placed(geo, drawn) && forall f | f in manifest.entries :: Disjoint(drawn, f.chunks)
      requires forall c :: c in toFree <==> c in current.chunks[newSize / CHUNK_PLAINTEXT_LEN..]
      requires current.name in files ==> newSize <= |files[current.name]|
      requires current.name in files ==>
                 WrittenFrom(geo, disk, drawn, files[current.name][..newSize], newSize / CHUNK_PLAINTEXT_LEN, |drawn|)
      modifies this
      ensures Valid()
      ensures poisoned && !old(poisoned) ==> r == Failure(Io)
      ensures r == Failure(Io) || r == Success(())
      ensures r.Success? ==> !poisoned && files == ShrunkFiles(old(files), current.name, newSize) && ticks == old(ticks) + 1
      ensures r.Success? ==> manifest == Upserted(old(manifest), entry)
      ensures r.Success? ==> Names(manifest.entries) == Names(old(manifest).entries)
      ensures r.Failure? ==> Faulted(old(manifest), old(files), old(ticks), current.name,
                                     ShrunkFiles(old(files), current.name, newSize))
      ensures r.Success? ==> SameOutside(old(disk), disk, Elems(toFree) + {geo.home})
                             && forall c | c in toFree :: c < |disk| && disk[c] == Noise
      ensures old(images) <= images
      ensures forall k | |old(images)| <= k < |images| ::
                WindowSafe(geo, images[k], old(manifest), old(files), Outcome(), OutcomeFiles(), {current.name},
                           Elems(ChunkList(old(manifest).entries, current.name)))
      ensures !faulty ==> r != Failure(Io)
    {
      hide Print, Parse, ValidTexts, Canonical, DecryptChunk, Reopen, Keeps, Layout, Without, Names, Intact,
        Written, WrittenFrom, NoDup, Free, Drawn, Apart, Seal, Holds, ShrunkFiles, ShrunkEntry, Placed,
        Shaped, Publishable, Upserted, WindowSafe, Recoverable, OnlyTouched;
      ghost var m0, files0, name := manifest, files, current.name;
      ghost var m1, after := Upserted(m0, entry), ShrunkFiles(files0, name, newSize);
      PublishedLayout(geo, m0);
      UpsertCounts(m0, entry, ticks);
      ShrunkEntryIsPlaced(geo, m0.entries, current, newSize, drawn);
      ShrunkSerializes(geo, m0, current, newSize, drawn);
      ShrinkReady(geo, disk, disk, m0, files0, current, newSize, drawn);
      ShrinkDisplaces(geo, m0, current, newSize, drawn, toFree);
      var candidate := new Candidate(manifest);
      candidate.Upsert(entry);
      var bytes := candidate.Serialize();
      r := DestructivePhase(toFree, candidate.Value(), bytes.value, true, {name}, ShrunkFiles(files0, name, newSize), 1, faulty);
      assert r.Success? ==> r.value == ();
      UpsertNames(m0, entry);
      UpsertTouches(m0, entry);
      EntryNamed(m0.entries, current);
      forall k | |old(images)| <= k < |images|
        ensures WindowSafe(geo, images[k], m0, files0, m1, after, {name}, Elems(ChunkList(m0.entries, name)))
      {
        WindowWidens(geo, images[k], m0, files0, m1, after, {name}, Elems(toFree), Elems(ChunkList(m0.entries, name)));
      }
    }

    /** The growing half of `truncate_file`: zero-filled windows of 64 chunks, each committed
        on its own, after a capacity pre-flight. */
    method Grow(name: Text, current: FileEntry, newSize: U64, faulty: bool) returns (r: Result<()>)
      requires Valid() && !poisoned && ValidName(name)
      requires Find(manifest.entries, name) == Some(current) && current.size < newSize
      modifies this
      ensures Valid()
      ensures poisoned ==> r == Failure(Io)
      ensures name in old(files) && r != Failure(Io) ==>
                (r.Success? <==> GrowFits(geo, old(manifest), name, current.size, newSize))
      ensures r.Success? ==> !poisoned && files == GrownFiles(old(files), name, newSize - current.size) && ticks > old(ticks)
                             && Grew(old(manifest), manifest, name, newSize) && SizeOf(manifest, name) == newSize
      ensures r.Failure? ==> GrowFaulted(old(manifest), old(files), old(ticks), name, current.size, newSize)
      ensures Names(manifest.entries) == Names(old(manifest).entries)
      ensures r.Failure? && r.error != Io && name in old(files) ==>
                r.error == GrowError(geo, old(manifest), name, current.size, newSize) && !poisoned
      ensures r.Failure? && r.error != Io && name in old(files) ==>
                if GrowRefusedAtOnce(geo, old(manifest), name, current.size, newSize) then unchanged(this) else ticks > old(ticks)
      ensures r.Success? || (r != Failure(Io) && name in old(files)) ==>
                Scrubbed(geo, old(manifest), old(disk), manifest, disk)
      ensures old(images) <= images
      ensures forall k | |old(images)| <= k < |images| :: GrowthSafe(geo, images[k], old(files), name, newSize - current.size)
      ensures !faulty ==> r != Failure(Io)
    {
      hide Print, Parse, ValidTexts, Canonical, DecryptChunk, Reopen, Keeps, Layout, Without, Intact,
        ValidName, Publishable, GrownLen, StillReads, Growth, GrowFits, GrowError, GrowRefusedAtOnce, Pieces, GrownFiles,
        Recoverable, OnlyTouched, Names, FreeCount, Scrubbed, GrowthSafe, Boundary, GrownPartly, Grew,
        Faulted, GrowFaulted, Advanced, Find;
      ScrubbedSame(geo, manifest, disk);
      SpaceNonNegative(geo, manifest);
      GrowStart(geo, disk, manifest, current, files);
      NotYetGrown(files, name, newSize - current.size);
      NotYetFaulted(name, current.size, newSize);
      if newSize - current.size > FreeCount(geo, manifest.entries) * CHUNK_PLAINTEXT_LEN {
        PreflightFails(geo, manifest, name, current.size, newSize);
        return Failure(Full);
      }
      var zeros := Zeros(Min(GROW_WINDOW, newSize - current.size));
      var cursor := current.size;
      ghost var m0, files0, e, ticks0, d0 := manifest, files, current, ticks, disk;
      r := Success(());
      while cursor < newSize
        invariant Valid() && !poisoned && r.Success?
        invariant Growth(geo, m0, current, files0, manifest, e, files)
        invariant e.size == cursor <= newSize && e.name == name
        invariant cursor < newSize ==> (cursor - current.size) % GROW_WINDOW == 0
        invariant if cursor == current.size then unchanged(this) else ticks > ticks0
        invariant Advanced(m0, files0, ticks0, manifest, files, ticks, name, current.size, cursor - current.size)
        invariant Names(manifest.entries) == Names(m0.entries)
        invariant cursor == newSize && name in files0 ==> GrowFits(geo, m0, name, current.size, newSize)
        invariant cursor > current.size && name in files0 ==> !GrowRefusedAtOnce(geo, m0, name, current.size, newSize)
        invariant Scrubbed(geo, m0, d0, manifest, disk)
        invariant old(images) <= images
        invariant forall k | |old(images)| <= k < |images| :: GrowthSafe(geo, images[k], files0, name, newSize - current.size)
      {
        var n := Min(|zeros|, newSize - cursor);
        assert zeros[..n] == Zeros(n);
        NextBoundary(cursor - current.size, n, newSize - current.size);
        ghost var m, f, t, d := manifest, files, ticks, disk;
        r, e := GrowWindow(name, zeros[..n], cursor, newSize, m0, current, files0, e, cursor - current.size, faulty);
        if r.Failure? {
          WindowFault(m0, files0, ticks0, name, current.size, newSize, m, f, t, cursor - current.size, n);
          return;
        }
        GrowthShape(geo, m0, current, files0, manifest, e, files);
        WindowAdvances(m0, files0, ticks0, m, f, t, manifest, ticks, name, current.size, cursor - current.size, n);
        ScrubbedTwice(geo, m0, d0, m, d, manifest, disk);
        cursor := cursor + n;
      }
      AdvancedIs(m0, files0, ticks0, manifest, files, ticks, name, current.size, newSize - current.size);
      GrowthShape(geo, m0, current, files0, manifest, e, files);
    }

    /** What a grow that failed leaves, poisoned or not. */
    ghost predicate GrowFaulted(m0: Manifest, files0: Files, ticks0: nat, name: Text, size: nat, newSize: nat)
      reads this
    {
      && (manifest == m0 || OnlyTouched(m0, manifest, name))
      && (!poisoned ==> GrownInWindows(m0, files0, ticks0, name, size, newSize))
      && (poisoned ==>
            && OnlyTouched(m0, successor, name) && Names(successor.entries) == Names(m0.entries)
            && GrownPartly(files0, name, 1, newSize - size, newSize - size, arrived))
      && (GrownPartly(files0, name, 0, newSize - size, newSize - size, files) || (poisoned && files == files0 - {name}))
      && ticks >= ticks0 && (ticks == ticks0 ==> manifest == m0)
    }

    lemma NotYetFaulted(name: Text, size: nat, newSize: nat)
      requires !poisoned && size <= newSize
      ensures GrowFaulted(manifest, files, ticks, name, size, newSize)
      ensures Advanced(manifest, files, ticks, manifest, files, ticks, name, size, 0)
    {
      NotYetGrown(files, name, newSize - size);
      GrownNothing(files, name);
    }

    lemma WindowFault(m0: Manifest, files0: Files, ticks0: nat, name: Text, size: nat, newSize: nat,
                      m: Manifest, f: Files, t: nat, done: nat, n: nat)
      requires Faulted(m, f, t, name, GrownFiles(files0, name, done + n)) && Names(m.entries) == Names(m0.entries)
      requires Advanced(m0, files0, ticks0, m, f, t, name, size, done)
      requires Boundary(done, newSize - size) && done % GROW_WINDOW == 0 && 0 < n && size + done + n <= newSize
      requires Boundary(done + n, newSize - size)
      ensures GrowFaulted(m0, files0, ticks0, name, size, newSize)
    {
      hide GrownPartly, OnlyTouched, GrownFiles, Names, SizeOf;
      Stops(files0, name, done, n, newSize - size);
      GrownOthers(files0, name, done);
      if OnlyTouched(m0, m, name) {
        if OnlyTouched(m, manifest, name) {
          TouchedAgain(m0, m, manifest, name);
        }
        if OnlyTouched(m, successor, name) {
          TouchedAgain(m0, m, successor, name);
        }
      }
    }
    /** An unpoisoned session after a grow failed: untouched, or grown by whole windows. */
    ghost predicate GrownInWindows(m0: Manifest, files0: Files, ticks0: nat, name: Text, size: nat, newSize: nat)
      reads this
    {
      || (manifest == m0 && files == files0 && ticks == ticks0)
      || (size < newSize && ticks > ticks0 && OnlyTouched(m0, manifest, name)
          && GrownPartly(files0, name, 1, newSize - size - 1, newSize - size, files)
          && Partway(SizeOf(manifest, name) - size, newSize - size))
    }

    /** One window of a grow. */
    method GrowWindow(name: Text, zeros: seq<Byte>, cursor: U64, newSize: U64,
                      ghost m0: Manifest, ghost e0: FileEntry, ghost files0: Files, ghost e: FileEntry,
                      ghost done: nat, faulty: bool)
      returns (r: Result<()>, ghost next: FileEntry)
      requires Valid() && !poisoned && ValidName(name) && name == e0.name == e.name && cursor == e0.size + done
      requires Publishable(geo, m0) && Growth(geo, m0, e0, files0, manifest, e, files)
      requires e.size == cursor < newSize && (cursor - e0.size) % GROW_WINDOW == 0
      requires newSize - e0.size <= FreeCount(geo, m0.entries) * CHUNK_PLAINTEXT_LEN
      requires |zeros| == Min(GROW_WINDOW, newSize - cursor) && zeros == Zeros(|zeros|)
      requires name in files0 ==> |files0[name]| == e0.size
      modifies this
      ensures Valid()
      ensures poisoned && !old(poisoned) ==> r == Failure(Io)
      ensures r.Success? ==> !poisoned && Growth(geo, m0, e0, files0, manifest, next, files) && next.name == name
      ensures r.Success? ==> next.size == cursor + |zeros| && ticks == old(ticks) + 1
                             && OnlyTouched(old(manifest), manifest, name)
      ensures r.Success? && next.size < newSize ==> (next.size - e0.size) % GROW_WINDOW == 0
      ensures name in files0 ==> WindowTells(geo, m0, name, e0.size, cursor, newSize, r, next)
      ensures Names(manifest.entries) == Names(old(manifest).entries)
      ensures r.Failure? && r.error != Io && name in files0 ==> unchanged(this)
      ensures r.Failure? ==> Faulted(old(manifest), old(files), old(ticks), name,
                                     GrownFiles(files0, name, done + |zeros|))
      ensures r.Success? ==> Scrubbed(geo, old(manifest), old(disk), manifest, disk)
      ensures old(images) <= images
      ensures forall k | |old(images)| <= k < |images| :: GrowthSafe(geo, images[k], files0, name, newSize - e0.size)
      ensures !faulty ==> r != Failure(Io)
    {
      hide Print, Parse, ValidTexts, Canonical, DecryptChunk, Reopen, Keeps, Layout, Without, Intact,
        ValidName, Publishable, WroteFresh, GrownLen, StillReads, WindowSafe, WrittenFiles, GrownFiles,
        GrowFits, GrowError, GrowRefusedAtOnce, WriteRefusal, Pieces, Names, Recoverable, OnlyTouched, FreeCount,
        Scrubbed, GrowthSafe, Boundary, Find;
      ghost var m, f, before := manifest, files, |images|;
      PublishedLayout(geo, m0);
      PublishedLayout(geo, m);
      WindowVerdict(geo, m0, e0, files0, m, e, f, newSize);
      PresentFits(geo, m, e);
      WindowError(geo, m0, e0, files0, m, e, f, newSize);
      NextBoundary(done, |zeros|, newSize - e0.size);
      GrowStep(files0, name, e0.size, cursor - e0.size, |zeros|);
      OthersKept(files0, name, 0, [], cursor - e0.size);
      OthersKept(f, name, cursor, zeros, 0);
      SameKeys(files0, name, cursor - e0.size);
      r := WriteFileRange(name, cursor, zeros, faulty);
      next := e;
      forall k | before <= k < |images| ensures GrowthSafe(geo, images[k], files0, name, newSize - e0.size) {
        WindowIsGrowth(geo, images[k], m, Outcome(), files0, name, done, if r.Failure? && !poisoned then 0 else |zeros|,
                       newSize - e0.size);
      }
      if r.Success? {
        PublishedLayout(geo, manifest);
        WindowCommitted(geo, m0, e0, files0, m, e, f, manifest, |zeros|);
        WroteTouches(geo, m, manifest, name, cursor, |zeros|);
        next := Find(manifest.entries, name).value;
      }
    }

    /** Truncate or extend a file to exactly `newSize` bytes. */
    method TruncateFile(name: Text, newSize: U64, faulty: bool) returns (r: Result<()>)
      requires Valid()
      modifies this
      ensures Valid()
      ensures poisoned && !old(poisoned) ==> r == Failure(Io)
      ensures old(poisoned) ==> r == Failure(SessionPoisoned) && unchanged(this)
      ensures r.Success? ==> !old(poisoned) && ValidName(name) && Find(old(manifest).entries, name).Some?
      ensures r.Success? && SizeOf(old(manifest), name) == newSize ==> unchanged(this)
      ensures r.Success? && SizeOf(old(manifest), name) != newSize ==> !poisoned && ticks > old(ticks)
      ensures r.Success? ==> files == TruncatedFiles(old(files), name, newSize)
      ensures r.Success? ==> SizeOf(manifest, name) == newSize
      ensures r.Success? && newSize < SizeOf(old(manifest), name) ==> Shrank(geo, old(manifest), manifest, name, newSize)
      ensures r.Success? && newSize > SizeOf(old(manifest), name) ==> Grew(old(manifest), manifest, name, newSize)
      ensures manifest == old(manifest) || OnlyTouched(old(manifest), manifest, name)
      ensures poisoned && !old(poisoned) ==> (
                  && Names(successor.entries) == Names(old(manifest).entries)
                  && OnlyTouched(old(manifest), successor, name)
                  && (|| arrived == TruncatedFiles(old(files), name, newSize)
                      || GrownPartly(old(files), name, 1, newSize - SizeOf(old(manifest), name),
                                     newSize - SizeOf(old(manifest), name), arrived)))
      ensures Names(manifest.entries) == Names(old(manifest).entries)
      ensures r.Failure? && !poisoned ==>
                GrownInWindows(old(manifest), old(files), old(ticks), name, SizeOf(old(manifest), name), newSize)
      ensures TruncateGuard(old(manifest), old(poisoned), name).Some? ==>
                r == Failure(TruncateGuard(old(manifest), old(poisoned), name).value)
      ensures TruncateGuard(old(manifest), old(poisoned), name).None? && SizeOf(old(manifest), name) == newSize ==>
                r == Success(())
      ensures name in old(files) ==>
                r == Failure(Io) || r == Verdict(TruncateRefusal(geo, old(manifest), old(poisoned), name, newSize))
      ensures r.Success? && name in old(files) ==> TruncateFits(geo, old(manifest), old(poisoned), name, newSize)
      ensures r.Failure? && r.error != Io && (name in old(files) || name !in Names(old(manifest).entries)) ==>
                if TruncateLeavesPart(geo, old(manifest), old(poisoned), name, newSize)
                then !poisoned && GrownPartly(old(files), name, 1, newSize - SizeOf(old(manifest), name) - 1,
                                              newSize - SizeOf(old(manifest), name), files)
                else unchanged(this)
      ensures r.Failure? ==> files == old(files) || (poisoned && files == old(files) - {name})
                             || (poisoned && files == TruncatedFiles(old(files), name, newSize))
                             || GrownPartly(old(files), name, 0, newSize - SizeOf(old(manifest), name),
                                            newSize - SizeOf(old(manifest), name), files)
      ensures ticks >= old(ticks) && (ticks == old(ticks) ==> manifest == old(manifest))
      ensures r.Success? || (r != Failure(Io) && name in old(files)) ==>
                Scrubbed(geo, old(manifest), old(disk), manifest, disk)
      ensures old(images) <= images
      ensures forall k | |old(images)| <= k < |images| :: StillReads(geo, images[k], old(files) - {name})
      ensures forall k | |old(images)| <= k < |images| ::
                TruncateSafe(geo, images[k], old(manifest), old(files), Outcome(), OutcomeFiles(), name, newSize)
      ensures !faulty ==> r != Failure(Io)
    {
      hide Publishable, Keeps, Reopen, Intact, ValidName, StillReads, GrownPartly, ResizeFits,
        ResizeRefusal, ResizeLeavesPart, TruncatedFiles, Recoverable, Names, Scrubbed, TruncateSafe, Grew, Shrank,
        OnlyTouched;
      ScrubbedSame(geo, manifest, disk);
      if poisoned {
        return Failure(SessionPoisoned);
      }
      if !ValidName(name) {
        return Failure(InvalidName);
      }
      var found := Find(manifest.entries, name);
      if found.None? {
        return Failure(FileNotFound(name));
      }
      var current := found.value;
      SizesAgree(geo, disk, manifest, files, current);
      TruncatedIs(files, name, current.size, newSize);
      if newSize == current.size {
        SameSizeFits(geo, manifest, name, newSize);
        return Success(());
      }
      r := Resize(name, current, newSize, faulty);
    }

    method Resize(name: Text, current: FileEntry, newSize: U64, faulty: bool) returns (r: Result<()>)
      requires Valid() && !poisoned && ValidName(name)
      requires Find(manifest.entries, name) == Some(current) && newSize != current.size
      modifies this
      ensures Valid()
      ensures poisoned && !old(poisoned) ==> r == Failure(Io)
      ensures r.Success? ==> !poisoned && ticks > old(ticks) && files == TruncatedFiles(old(files), name, newSize)
      ensures r.Success? ==> SizeOf(manifest, name) == newSize
      ensures r.Success? && newSize < current.size ==> Shrank(geo, old(manifest), manifest, name, newSize)
      ensures r.Success? && newSize > current.size ==> Grew(old(manifest), manifest, name, newSize)
      ensures manifest == old(manifest) || OnlyTouched(old(manifest), manifest, name)
      ensures r.Failure? && !poisoned ==>
                GrownInWindows(old(manifest), old(files), old(ticks), name, current.size, newSize)
      ensures poisoned && !old(poisoned) ==> (
                  && Names(successor.entries) == Names(old(manifest).entries)
                  && OnlyTouched(old(manifest), successor, name)
                  && (|| arrived == TruncatedFiles(old(files), name, newSize)
                      || GrownPartly(old(files), name, 1, newSize - current.size, newSize - current.size, arrived)))
      ensures Names(manifest.entries) == Names(old(manifest).entries)
      ensures name in old(files) ==>
                r == Failure(Io) || r == Verdict(ResizeRefusal(geo, old(manifest), name, current.size, newSize))
      ensures r.Failure? && r.error != Io && name in old(files) ==>
                if ResizeLeavesPart(geo, old(manifest), name, current.size, newSize)
                then !poisoned && GrownPartly(old(files), name, 1, newSize - current.size - 1, newSize - current.size, files)
                else unchanged(this)
      ensures r.Failure? ==> files == old(files) || (poisoned && files == old(files) - {name})
                             || (poisoned && files == TruncatedFiles(old(files), name, newSize))
                             || GrownPartly(old(files), name, 0, newSize - current.size, newSize - current.size, files)
      ensures ticks >= old(ticks) && (ticks == old(ticks) ==> manifest == old(manifest))
      ensures r.Success? || (r != Failure(Io) && name in old(files)) ==>
                Scrubbed(geo, old(manifest), old(disk), manifest, disk)
      ensures old(images) <= images
      ensures forall k | |old(images)| <= k < |images| :: StillReads(geo, images[k], old(files) - {name})
      ensures forall k | |old(images)| <= k < |images| ::
                TruncateSafe(geo, images[k], old(manifest), old(files), Outcome(), OutcomeFiles(), name, newSize)
      ensures !faulty ==> r != Failure(Io)
    {
      hide Print, Parse, ValidTexts, Canonical, DecryptChunk, Reopen, Keeps, Layout, Without, Intact,
        ValidName, Publishable, GrownLen, StillReads, WindowSafe, GrownFiles, GrowFits, GrowError, GrowRefusedAtOnce,
        Pieces, GrownPartly, ShrunkFiles, FreeCount, TruncatedFiles, Truncated, ShrinkRefusal, Names,
        Scrubbed, GrowthSafe, Grew, Shrank, OnlyTouched;
      ScrubbedSame(geo, manifest, disk);
      SizesAgree(geo, disk, manifest, files, current);
      TruncatedIs(files, name, current.size, newSize);
      if newSize > current.size {
        r := Grow(name, current, newSize, faulty);
        if r.Success? {
          GrewTouches(old(manifest), manifest, name, newSize);
        }
        forall k | |old(images)| <= k < |images| ensures StillReads(geo, images[k], old(files) - {name}) {
          GrowthStillReads(geo, images[k], old(files), name, newSize - current.size);
        }
      } else {
        r := ShrinkOnly(name, current, newSize, faulty);
      }
      assert r.Success? ==> r.value == ();
    }

    /** Shrink, with the crash images described the way a grow's are. */
    method ShrinkOnly(name: Text, current: FileEntry, newSize: U64, faulty: bool) returns (r: Result<()>)
      requires Valid() && !poisoned
      requires Find(manifest.entries, name) == Some(current) && newSize < current.size
      modifies this
      ensures Valid()
      ensures poisoned && !old(poisoned) ==> r == Failure(Io)
      ensures r == Failure(Io) || r == Verdict(ShrinkRefusal(geo, old(manifest), newSize)) || (r.Failure? && name !in old(files))
      ensures r.Success? ==> !poisoned && files == ShrunkFiles(old(files), name, newSize) && ticks == old(ticks) + 1
      ensures r.Success? ==> Shrank(geo, old(manifest), manifest, name, newSize)
      ensures r.Success? ==> OnlyTouched(old(manifest), manifest, name) && SizeOf(manifest, name) == newSize
      ensures r.Failure? && r.error != Io && name in old(files) ==> unchanged(this)
      ensures r.Failure? ==> Faulted(old(manifest), old(files), old(ticks), name, ShrunkFiles(old(files), name, newSize))
      ensures Names(manifest.entries) == Names(old(manifest).entries)
      ensures r.Success? ==> Scrubbed(geo, old(manifest), old(disk), manifest, disk)
      ensures old(images) <= images
      ensures forall k | |old(images)| <= k < |images| :: StillReads(geo, images[k], old(files) - {name})
      ensures forall k | |old(images)| <= k < |images| ::
                WindowSafe(geo, images[k], old(manifest), old(files), Outcome(), OutcomeFiles(), {name},
                           Elems(ChunkList(old(manifest).entries, name)))
      ensures !faulty ==> r != Failure(Io)
    {
      hide Print, Parse, ValidTexts, Canonical, DecryptChunk, Reopen, Keeps, Layout, Without, Intact,
        Publishable, StillReads, WindowSafe, ShrunkFiles, FreeCount, Names, Scrubbed;
      ghost var f := files;
      r := Shrink(name, current, newSize, faulty);
      if r.Success? {
        ShrankTouches(geo, old(manifest), manifest, name, newSize);
      }
      ShrunkOthers(f, name, newSize);
      forall k | |old(images)| <= k < |images| ensures StillReads(geo, images[k], f - {name}) {
        WindowStillReads(geo, images[k], old(manifest), f, Outcome(), OutcomeFiles(), {name},
                         Elems(ChunkList(old(manifest).entries, name)));
      }
    }

    // ---- folders ----

    /** The union of explicit folders and the folders implied by file names, with all ancestors,
        in byte order and without repeats. */
    method ListFolders() returns (r: seq<seq<Byte>>)
      ensures Ascending(r) && Members(r) == FolderSet(manifest)
    {
      r := ListExplicit();
      r := ListImplied(r);
    }

    method ListExplicit() returns (r: seq<seq<Byte>>)
      ensures Ascending(r) && Members(r) == ExplicitSet(manifest.folders)
    {
      hide Ancestors, Ascending;
      r := [];
      EmptyListing(r);
      for i := 0 to |manifest.folders|
        invariant Ascending(r) && Members(r) == ExplicitSet(manifest.folders[..i])
      {
        var ancestors := AncestorPaths(manifest.folders[i]);
        ExplicitSnoc(manifest.folders[..i], manifest.folders[i]);
        assert manifest.folders[..i + 1] == manifest.folders[..i] + [manifest.folders[i]];
        r := InsertAll(r, ancestors);
      }
      assert manifest.folders[..|manifest.folders|] == manifest.folders;
    }

    method ListImplied(list: seq<seq<Byte>>) returns (r: seq<seq<Byte>>)
      requires Ascending(list)
      ensures Ascending(r) && Members(r) == Members(list) + ImpliedSet(manifest.entries)
    {
      hide Ancestors, Ascending, Members, ImpliedSet;
      r := list;
      EmptyListing([]);
      NothingImplied();
      for i := 0 to |manifest.entries|
        invariant Ascending(r) && Members(r) == Members(list) + ImpliedSet(manifest.entries[..i])
      {
        var e := manifest.entries[i];
        ImpliedSnoc(manifest.entries[..i], e);
        assert manifest.entries[..i + 1] == manifest.entries[..i] + [e];
        var parent := ParentFolder(e.name);
        if parent.Some? {
          var ancestors := AncestorPaths(parent.value);
          r := InsertAll(r, ancestors);
        }
      }
      assert manifest.entries[..|manifest.entries|] == manifest.entries;
    }

    /** Create an explicit folder; idempotent. */
    method CreateFolder(path: Text, faulty: bool) returns (r: Result<()>)
      requires Valid()
      modifies this
      ensures Valid()
      ensures old(poisoned) ==> r == Failure(SessionPoisoned) && unchanged(this)
      ensures Answers(r, CreateFolderRefusal(old(manifest), old(poisoned), path), faulty)
      ensures r.Success? ==> !poisoned && Normalized(path).Some? && files == old(files)
      ensures r.Success? ==> if Normalized(path).value in old(manifest).folders then unchanged(this)
                else manifest == FolderAdded(old(manifest), Normalized(path).value) && ticks == old(ticks) + 1
      ensures r.Failure? && r.error != Io ==> unchanged(this)
      ensures r == Failure(Io) ==> poisoned && Normalized(path).Some? && Normalized(path).value !in old(manifest).folders
      ensures r == Failure(Io) ==> HalfDone(old(manifest), old(files), old(ticks),
                                            FolderAdded(old(manifest), Normalized(path).value), {}, old(files), 1)
      ensures r.Success? ==> Scrubbed(geo, old(manifest), old(disk), manifest, disk)
      ensures old(images) <= images
      ensures forall k | |old(images)| <= k < |images| ::
                WindowSafe(geo, images[k], old(manifest), old(files), Outcome(), OutcomeFiles(), {}, {})
      ensures !faulty ==> r != Failure(Io)
    {
      hide Print, Parse, ValidTexts, Canonical, DecryptChunk, Reopen, Keeps, Layout, Normalized,
        ValidFolderPath, Intact;
      if poisoned {
        return Failure(SessionPoisoned);
      }
      var norm := Normalized(path);
      if norm.None? {
        return Failure(InvalidName);
      }
      if !ValidFolderPath(norm.value) {
        return Failure(InvalidName);
      }
      if norm.value in manifest.folders {
        return Success(());
      }
      var candidate := new Candidate(manifest);
      candidate.folders := candidate.folders + [norm.value];
      candidate.counter := Tick(candidate.counter);
      assert candidate.Value() == FolderAdded(manifest, norm.value);
      var bytes := candidate.Serialize();
      FolderAddedReady(geo, manifest, norm.value);
      if bytes.Failure? {
        return Failure(bytes.error);
      }
      NothingToShed(geo, manifest.entries);
      r := DestructivePhase([], candidate.Value(), bytes.value, false, {}, files, 1, faulty);
      assert r.Success? ==> r.value == ();
      if r.Success? {
        NoneGivenUp(geo, old(manifest), old(disk), manifest, disk);
      }
    }

    /** Delete a folder: every file under it is shredded, the folder and its descendants dropped. */
    method DeleteFolder(path: Text, faulty: bool) returns (r: Result<()>)
      requires Valid()
      modifies this
      ensures Valid()
      ensures poisoned && !old(poisoned) ==> r == Failure(Io)
      ensures old(poisoned) ==> r == Failure(SessionPoisoned) && unchanged(this)
      ensures r.Failure? && r.error != Io ==> unchanged(this)
      ensures Answers(r, DeleteFolderRefusal(old(poisoned), path), faulty)
      ensures r.Success? ==> Normalized(path).Some?
      ensures r.Success? ==> !poisoned && ticks > old(ticks) && files == Spared(old(files), Normalized(path).value)
      ensures r.Success? ==> FolderDeleted(old(manifest), manifest, Normalized(path).value)
      ensures r.Success? ==> UnderShredded(old(manifest).entries, Normalized(path).value, disk)
      ensures r == Failure(Io) ==> poisoned && Normalized(path).Some? && files == Spared(old(files), Normalized(path).value)
      ensures r == Failure(Io) ==> manifest == old(manifest) || FolderDeleted(old(manifest), manifest, Normalized(path).value)
      ensures r == Failure(Io) ==> arrived == Spared(old(files), Normalized(path).value)
                                   && FolderDeleted(old(manifest), successor, Normalized(path).value)
      ensures ticks >= old(ticks) && (ticks == old(ticks) ==> manifest == old(manifest))
      ensures r.Success? ==> Scrubbed(geo, old(manifest), old(disk), manifest, disk)
      ensures old(images) <= images
      ensures forall k | |old(images)| <= k < |images| :: Normalized(path).Some?
                                                          && StillReads(geo, images[k], Spared(old(files), Normalized(path).value))
      ensures !faulty ==> r != Failure(Io)
    {
      hide Print, Parse, ValidTexts, Canonical, DecryptChunk, Reopen, Keeps, Layout, Normalized,
        ValidFolderPath, Intact, Publishable, Spared, Names, StillReads, WindowSafe, Sheddable, Collected,
        Surviving, Removed, Retained, TouchedBy, Scrubbed;
      if poisoned {
        return Failure(SessionPoisoned);
      }
      var norm := Normalized(path);
      if norm.None? {
        return Failure(InvalidName);
      }
      var folder := norm.value;
      if !ValidFolderPath(folder) {
        return Failure(InvalidName);
      }
      ghost var m0, f := manifest, files;
      var candidate := new Candidate(manifest);
      var names := UnderNames(manifest.entries, folder);
      var victims, bumps := RemoveNames(candidate, names);
      KeysAreNames(geo, disk, m0.entries, f);
      DeletedIsPublishable(geo, candidate.Value(), folder);
      DeleteFolderReady(geo, disk, m0, f, candidate.Value(), folder, names, victims);
      ShedInRange(geo, victims, m0.entries, TouchedBy(m0.entries, folder));
      SparedTwice(m0.entries, f, folder);
      candidate.folders := Retained(candidate.folders, folder);
      TickCounts(candidate.counter, ticks + bumps);
      candidate.counter := Tick(candidate.counter);
      PublishableSerializes(geo, candidate.Value());
      var bytes := candidate.Serialize();
      r := DestructivePhase(victims, candidate.Value(), bytes.value, true, TouchedBy(m0.entries, folder),
                            Spared(f, folder), bumps + 1, faulty);
      assert r.Success? ==> r.value == ();
      forall k | |old(images)| <= k < |images| ensures StillReads(geo, images[k], Spared(f, folder)) {
        WindowStillReads(geo, images[k], m0, f, candidate.Value(), Spared(f, folder), TouchedBy(m0.entries, folder),
                         Elems(victims));
      }
      if r.Success? {
        VictimsCovered(m0.entries, names, victims, folder, disk);
        FolderDeletionScrubs(geo, m0, old(disk), manifest, disk, folder, names, victims);
      }
    }

    /** Removes the named entries from the candidate, collecting their chunks. */
    method RemoveNames(candidate: Candidate, names: seq<Text>) returns (victims: seq<U32>, ghost bumps: nat)
      requires Valid() && candidate.Value() == manifest
      modifies candidate
      ensures Publishable(geo, candidate.Value()) && candidate.folders == manifest.folders
      ensures candidate.owner == manifest.owner && candidate.childSlots == manifest.childSlots
      ensures Surviving(manifest.entries, candidate.entries, names) && Collected(manifest.entries, names, victims)
      ensures candidate.counter == (ticks + bumps) % (U64_MAX + 1)
    {
      hide Print, Parse, Reopen, Keeps, Publishable, Removed, Collected, Surviving, Names, Tick;
      victims := [];
      bumps := 0;
      NothingRemoved(manifest.entries);
      for i := 0 to |names|
        invariant Publishable(geo, candidate.Value()) && candidate.folders == manifest.folders
        invariant candidate.owner == manifest.owner && candidate.childSlots == manifest.childSlots
        invariant Surviving(manifest.entries, candidate.entries, names[..i])
        invariant Collected(manifest.entries, names[..i], victims)
        invariant candidate.counter == (ticks + bumps) % (U64_MAX + 1)
      {
        RemoveOne(geo, manifest, candidate.Value(), names[..i], names[i], victims);
        TickCounts(candidate.counter, ticks + bumps);
        ghost var before := candidate.counter;
        assert victims + [] == victims;
        var gone := candidate.Remove(names[i]);
        if gone.Some? {
          victims := victims + gone.value.chunks;
        }
        if candidate.counter != before {
          bumps := bumps + 1;
        }
        assert names[..i] + [names[i]] == names[..i + 1];
      }
      assert names[..|names|] == names;
    }

    /** Rename a folder: files and folders under it are re-prefixed, no chunk moves. */
    method RenameFolder(from: Text, to: Text, faulty: bool) returns (r: Result<()>)
      requires Valid()
      modifies this
      ensures Valid()
      ensures old(poisoned) ==> r == Failure(SessionPoisoned) && unchanged(this)
      ensures Answers(r, RenameFolderRefusal(old(manifest), old(poisoned), from, to), faulty)
      ensures r.Failure? && r.error != Io ==> unchanged(this)
      ensures r.Success? ==> Normalized(from).Some? && Normalized(to).Some?
      ensures r.Success? && Normalized(from) == Normalized(to) ==> unchanged(this)
      ensures r.Success? && Normalized(from) != Normalized(to) ==>
                && !poisoned && ticks == old(ticks) + 1
                && manifest == FolderRenamed(old(manifest), Normalized(from).value, Normalized(to).value)
                && UniqueNames(MovedEntries(old(manifest).entries, Normalized(from).value, Normalized(to).value))
                && files == MovedFiles(old(manifest).entries, old(files), Normalized(from).value, Normalized(to).value)
      ensures r.Success? ==> SameOutside(old(disk), disk, {geo.home})
      ensures r == Failure(Io) ==>
                && poisoned && Normalized(from).Some? && Normalized(to).Some? && Normalized(from) != Normalized(to)
                && UniqueNames(MovedEntries(old(manifest).entries, Normalized(from).value, Normalized(to).value))
                && HalfDone(old(manifest), old(files), old(ticks),
                            FolderRenamed(old(manifest), Normalized(from).value, Normalized(to).value), {},
                            MovedFiles(old(manifest).entries, old(files), Normalized(from).value, Normalized(to).value), 1)
      ensures r.Success? ==> Scrubbed(geo, old(manifest), old(disk), manifest, disk)
      ensures old(images) <= images
      ensures forall k | |old(images)| <= k < |images| ::
                WindowSafe(geo, images[k], old(manifest), old(files), Outcome(), OutcomeFiles(), {}, {})
      ensures !faulty ==> r != Failure(Io)
    {
      hide Print, Parse, ValidTexts, Canonical, DecryptChunk, Reopen, Keeps, Layout, Normalized,
        ValidFolderPath, ValidName, Intact, MovedEntries, MovedFolders, Collides, MovedNamesValid, Tick,
        MovedFiles, Scrubbed;
      ScrubbedSame(geo, manifest, disk);
      if poisoned {
        return Failure(SessionPoisoned);
      }
      var oldNorm, newNorm := Normalized(from), Normalized(to);
      if oldNorm.None? || newNorm.None? {
        return Failure(InvalidName);
      }
      var f, t := oldNorm.value, newNorm.value;
      if !ValidFolderPath(t) {
        return Failure(InvalidName);
      }
      if f == t {
        return Success(());
      }
      if Collides(manifest.entries, f, t) {
        return Failure(BadManifest("rename would overwrite"));
      }
      if !MovedNamesValid(manifest, f, t) {
        return Failure(InvalidName);
      }
      r := CommitFolderRename(f, t, faulty);
    }

    /** Publishes the re-prefixed manifest. */
    method CommitFolderRename(f: Text, t: Text, faulty: bool) returns (r: Result<()>)
      requires Valid() && !poisoned && ValidFolderPath(t)
      requires !Collides(manifest.entries, f, t) && MovedNamesValid(manifest, f, t)
      modifies this
      ensures Valid()
      ensures Answers(r, if |Print(FolderRenamed(old(manifest), f, t))| > CHUNK_PLAINTEXT_LEN then Some(ManifestOverflow) else None,
                      faulty)
      ensures UniqueNames(MovedEntries(old(manifest).entries, f, t))
      ensures r.Success? ==> !poisoned && ticks == old(ticks) + 1 && manifest == FolderRenamed(old(manifest), f, t)
                             && files == MovedFiles(old(manifest).entries, old(files), f, t)
                             && SameOutside(old(disk), disk, {geo.home})
      ensures r == Failure(ManifestOverflow) ==> unchanged(this)
      ensures r == Failure(Io) ==> poisoned && HalfDone(old(manifest), old(files), old(ticks), FolderRenamed(old(manifest), f, t),
                                                        {}, MovedFiles(old(manifest).entries, old(files), f, t), 1)
      ensures r.Success? ==> Scrubbed(geo, old(manifest), old(disk), manifest, disk)
      ensures old(images) <= images
      ensures forall k | |old(images)| <= k < |images| ::
                WindowSafe(geo, images[k], old(manifest), old(files), Outcome(), OutcomeFiles(), {}, {})
      ensures !faulty ==> r != Failure(Io)
    {
      hide Print, Parse, ValidTexts, Canonical, DecryptChunk, Reopen, Keeps, Layout, Normalized,
        ValidFolderPath, ValidName, Intact, MovedEntries, MovedFolders, Collides, MovedNamesValid, Tick,
        MovedFiles, Moved, UniqueNames, Scrubbed;
      RenamedFolderSerializes(manifest, f, t);
      RenameFolderReady(geo, disk, manifest, files, f, t);
      var candidate := new Candidate(manifest);
      candidate.entries := MovedEntries(candidate.entries, f, t);
      candidate.folders := MovedFolders(candidate.folders, f, t);
      candidate.counter := Tick(candidate.counter);
      assert candidate.Value() == FolderRenamed(manifest, f, t);
      var bytes := candidate.Serialize();
      if bytes.Failure? {
        return Failure(bytes.error);
      }
      NothingToShed(geo, manifest.entries);
      NothingToShed(geo, candidate.entries);
      TickCounts(manifest.counter, ticks);
      r := DestructivePhase([], candidate.Value(), bytes.value, false, {},
                            MovedFiles(manifest.entries, files, f, t), 1, faulty);
      assert r.Success? ==> r.value == ();
      if r.Success? {
        FolderRenameScrubs(geo, old(manifest), old(disk), disk, f, t);
      }
    }

    // ---- accounting, rollback ----

    /** Capacity in bytes as (total, free). */
    method Space() returns (total: nat, free: nat)
      requires Valid()
      ensures total == (geo.total - 1) * CHUNK_PLAINTEXT_LEN
      ensures free == |Free(geo, manifest.entries)| * CHUNK_PLAINTEXT_LEN
    {
      hide Layout, Publishable, Keeps, Reopen, Free;
      PublishedLayout(geo, manifest);
      FreeIsExact(geo, manifest.entries);
      var used: nat := 0;
      for i := 0 to |manifest.entries|
        invariant used == ChunkTotal(manifest.entries[..i])
      {
        ChunkTotalConcat(manifest.entries[..i], [manifest.entries[i]]);
        assert manifest.entries[..i + 1] == manifest.entries[..i] + [manifest.entries[i]];
        used := used + |manifest.entries[i].chunks|;
      }
      assert manifest.entries[..|manifest.entries|] == manifest.entries;
      var usable := geo.total - 1;
      var freeChunks := Max(usable - used, 0);
      return usable * CHUNK_PLAINTEXT_LEN, freeChunks * CHUNK_PLAINTEXT_LEN;
    }

    method RequireCounterAtLeast(expected: U64) returns (r: Result<()>)
      ensures r == if manifest.counter < expected then Failure(CounterRollback(expected, manifest.counter)) else Success(())
    {
      if manifest.counter < expected {
        return Failure(CounterRollback(expected, manifest.counter));
      }
      return Success(());
    }

    // ---- mounting ----

    constructor (geo: Geometry, disk: seq<Cell>, manifest: Manifest, ghost files: Files)
      ensures this.geo == geo && this.disk == disk && this.manifest == manifest && this.files == files
      ensures !poisoned && images == [] && ticks == manifest.counter
    {
      this.geo, this.disk, this.manifest, this.poisoned := geo, disk, manifest, false;
      this.files, this.images, this.ticks := files, [], manifest.counter;
      this.successor, this.arrived := manifest, files;
    }
  }

  /** Mounts a disk image: read the manifest chunk, decrypt, parse. An image that is intact
      for some files opens to a vault that holds exactly those. */
  method OpenVault(geo: Geometry, image: seq<Cell>, ghost files: Files, faulty: bool) returns (r: Result<Vault>)
    requires geo.home < geo.total == |image| && geo.total <= U32_MAX
    ensures r.Failure? ==> r.error == Io || Reopen(geo, image) == Failure(r.error)
    ensures r.Failure? ==> r.error == Io || r.error == Crypto || Malformed(r.error)
    ensures r.Success? ==> fresh(r.value) && r.value.geo == geo && r.value.disk == image
    ensures r.Success? ==> Reopen(geo, image) == Success(r.value.manifest) && !r.value.poisoned
    ensures r.Success? && Intact(geo, image, r.value.manifest, files) ==> r.value.Valid() && r.value.files == files
    ensures !faulty ==> r != Failure(Io)
  {
    hide Parse, Serialized, Layout, Keeps, Canonical, DecryptChunk;
    var readFails: bool := *;
    if faulty && readFails {
      return Failure(Io);
    }
    var bytes := DecryptChunk(ChunkKey(geo.master, geo.home), geo.home, image[geo.home]);
    DecryptedIsShort(ChunkKey(geo.master, geo.home), geo.home, image[geo.home]);
    if bytes.Failure? {
      return Failure(bytes.error);
    }
    var m := ParseBuffer(bytes.value);
    ParseErrors(bytes.value);
    if m.Failure? {
      return Failure(m.error);
    }
    var v := new Vault(geo, image, m.value, files);
    return Success(v);
  }

  /** Close and reopen: the new session equals the old one. */
  method Reopened(v: Vault, faulty: bool) returns (r: Result<Vault>)
    requires v.Valid() && !v.poisoned
    ensures r == Failure(Io) || r.Success?
    ensures r.Success? ==> fresh(r.value) && r.value.Valid() && r.value.manifest == v.manifest
    ensures r.Success? ==> r.value.files == v.files && r.value.disk == v.disk && r.value.geo == v.geo
    ensures !faulty ==> r != Failure(Io)
  {
    hide Parse, Serialized, Layout, Keeps, Canonical, DecryptChunk;
    r := OpenVault(v.geo, v.disk, v.files, faulty);
  }

  /** Reopening after a failed mutation poisoned the session: unless the manifest chunk was torn,
      the new session holds either what the old one still held or the complete result of the
      mutation that failed. */
  method Recovered(v: Vault, faulty: bool) returns (r: Result<Vault>)
    requires v.Valid() && v.poisoned
    ensures r.Failure? ==> r.error == Io || (r.error == Crypto && v.disk[v.geo.home] == Noise)
    ensures r.Success? ==> fresh(r.value) && r.value.Valid() && !r.value.poisoned && r.value.disk == v.disk
    ensures r.Success? ==>
              || (r.value.manifest == v.manifest && r.value.files == v.files)
              || (r.value.manifest == v.successor && r.value.files == v.arrived)
    ensures !faulty ==> r != Failure(Io)
  {
    hide Parse, Serialized, Layout, Keeps, Canonical, Publishable;
    ghost var files := if Intact(v.geo, v.disk, v.manifest, v.files) then v.files else v.arrived;
    r := OpenVault(v.geo, v.disk, files, faulty);
  }

  /** Index of the manifest chunk: a number derived from the master key, reduced to the chunk
      range. `numeral` reads the head of a derived key as a number. */
  function ManifestChunk(numeral: Key -> nat, master: Key, total: nat): (home: nat)
    requires total > 0
    ensures home < total
    ensures exists laps: nat :: numeral(Derive("farewell.manifest.chunk.v4", master)) == laps * total + home
  {
    var n := numeral(Derive("farewell.manifest.chunk.v4", master));
    assert n == (n / total) * total + n % total;
    n % total
  }

  /** Where a vault of that capacity keeps its manifest, from the master key alone. */
  function Located(master: Key, numeral: Key -> nat, total: nat): Geometry
    requires total > 0
  {
    Geometry(master, ManifestChunk(numeral, master, total), total)
  }

  /** Just made: empty but for the owner, intact, and noise in every data chunk. */
  ghost predicate IsNew(v: Vault, geo: Geometry, owner: Option<Text>)
    reads v
  {
    && v.Valid() && !v.poisoned && v.Erased() && v.geo == geo
    && v.manifest == EMPTY.(owner := Recorded(owner)) && v.files == map[]
    && Intact(v.geo, v.disk, v.manifest, v.files)
  }

  method FillWithNoise(total: nat, faulty: bool) returns (r: Result<seq<Cell>>)
    ensures r == Failure(Io) || (r.Success? && |r.value| == total && forall c | 0 <= c < total :: r.value[c] == Noise)
    ensures !faulty ==> r != Failure(Io)
  {
    var disk: seq<Cell> := [];
    for i := 0 to total
      invariant |disk| == i && forall c | 0 <= c < i :: disk[c] == Noise
    {
      var writeFails: bool := *;
      if faulty && writeFails {
        return Failure(Io);
      }
      disk := disk + [Noise];
    }
    return Success(disk);
  }

  /** Creates a vault: all noise, then the empty manifest. At least two chunks are made. */
  method BuildVault(master: Key, numeral: Key -> nat, chunks: nat, owner: Option<Text>, faulty: bool) returns (r: Result<Vault>)
    requires chunks <= U32_MAX
    ensures r == Failure(InvalidName) <==> |OwnerText(owner)| > MAX_OWNER_LEN
    ensures r.Failure? ==> r.error == Io || r.error == InvalidName
    ensures r.Success? ==> fresh(r.value) && IsNew(r.value, Located(master, numeral, Max(chunks, 2)), owner)
    ensures !faulty ==> r != Failure(Io)
  {
    hide Parse, Print, ValidTexts, Layout, Leftover, DecryptChunk, Publishable;
    var total := Max(chunks, 2);
    var recorded := Recorded(owner);
    if |OwnerText(recorded)| > MAX_OWNER_LEN {
      return Failure(InvalidName);
    }
    var filled := FillWithNoise(total, faulty);
    if filled.Failure? {
      return Failure(filled.error);
    }
    var disk := filled.value;
    var geo := Geometry(master, ManifestChunk(numeral, master, total), total);
    var m := EMPTY.(owner := recorded);
    FreshIsPublishable(geo, m);
    var candidate := new Candidate(m);
    var bytes := candidate.Serialize();
    var stored := EncryptChunk(ChunkKey(master, geo.home), geo.home, bytes.value, faulty);
    if stored.Failure? {
      return Failure(stored.error);
    }
    var lastFails: bool := *;
    if faulty && lastFails {
      return Failure(Io);
    }
    PublishedReopens(geo, disk, m);
    NoiseIsErased(geo, disk, stored.value);
    disk := disk[geo.home := stored.value];
    var v := new Vault(geo, disk, m, map[]);
    return Success(v);
  }

  lemma FreshIsPublishable(geo: Geometry, m: Manifest)
    requires m == EMPTY.(owner := Recorded(m.owner)) && |OwnerText(m.owner)| <= MAX_OWNER_LEN
    ensures Publishable(geo, m) && Serialized(m).Success?
  {
    assert |PrintHead(m)| == 20;
    assert PrintTail(m) == Le(0, 1) + [] + Le(0, 2) + [] + Le(|OwnerText(m.owner)|, 2) + OwnerText(m.owner);
  }
}
