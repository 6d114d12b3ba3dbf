/** What vault operations promise: the abstract file system, when an operation is refused,
    and which disk images a crash may leave. */
module VaultSpec {
  import opened Bytes
  import opened Texts
  import opened Wrappers
  import opened Codecs
  import opened Manifests
  import opened ManifestCodec
  import opened Chunks
  import opened Store
  import opened Space
  import opened Splices

  // ---- the abstract file system ----

  datatype Content = Known(bytes: seq<Byte>) | Damaged

  ghost function ViewOf(names: set<Text>, files: Files): map<Text, Content> {
    map n | n in names :: if n in files then Known(files[n]) else Damaged
  }

  // ---- the serialized size of a candidate, from chunk counts alone ----

  function EntryLen(name: seq<Byte>, chunkCount: nat): nat {
    13 + |name| + 4 * chunkCount
  }

  /** Serialized size once `name` is (re)written with that many chunks. */
  function GrownLen(m: Manifest, name: seq<Byte>, chunkCount: nat): nat {
    |Print(m.(entries := Without(m.entries, name)))| + EntryLen(name, chunkCount)
  }

  lemma {:induction false} PrintChunksLen(chunks: seq<U32>)
    ensures |PrintAll(PrintChunk, chunks)| == 4 * |chunks|
  {
    if chunks != [] {
      PrintChunksLen(chunks[1..]);
    }
  }

  lemma UpsertedLen(m: Manifest, e: FileEntry)
    ensures |Print(Upserted(m, e))| == GrownLen(m, e.name, |e.chunks|)
  {
    PrintAllSnoc(PrintEntry, Without(m.entries, e.name), e);
    PrintChunksLen(e.chunks);
  }

  /** With valid names, a changed manifest is refused for its size or not at all. */
  lemma UpsertSerializes(m: Manifest, e: FileEntry)
    requires Serialized(m).Success? && ValidName(e.name)
    ensures Serialized(Upserted(m, e))
         == if GrownLen(m, e.name, |e.chunks|) > CHUNK_PLAINTEXT_LEN then Failure(ManifestOverflow)
            else Success(Print(Upserted(m, e)))
  {
    UpsertedLen(m, e);
  }

  lemma GrownLenStable(m: Manifest, e: FileEntry, k: nat)
    ensures GrownLen(Upserted(m, e), e.name, k) == GrownLen(m, e.name, k)
  {
    var old' := Without(m.entries, e.name);
    WithoutAbsent(old', e.name);
    WithoutLast(old', e);
  }

  lemma {:induction false} WithoutLast(entries: seq<FileEntry>, e: FileEntry)
    ensures Without(entries + [e], e.name) == Without(entries, e.name)
  {
    if entries != [] {
      assert (entries + [e])[1..] == entries[1..] + [e];
      WithoutLast(entries[1..], e);
    }
  }

  // ---- refusals ----

  function Guarded(poisoned: bool, name: seq<Byte>, rest: Option<FormatError>): Option<FormatError> {
    if poisoned then Some(SessionPoisoned) else if !ValidName(name) then Some(InvalidName) else rest
  }

  function AddRefusal(geo: Geometry, m: Manifest, poisoned: bool, name: Text, len: nat): Option<FormatError> {
    var needed := Max(Pieces(len), 1);
    Guarded(poisoned, name,
            if needed - Min(needed, ChunksOf(m.entries, name)) > FreeCount(geo, m.entries) then Some(Full)
            else if GrownLen(m, name, needed) > CHUNK_PLAINTEXT_LEN then Some(ManifestOverflow)
            else None)
  }

  function CreateRefusal(m: Manifest, poisoned: bool, name: Text, exclusive: bool): Option<FormatError> {
    Guarded(poisoned, name,
            if Find(m.entries, name).Some? then (if exclusive then Some(AlreadyExists(name)) else None)
            else if GrownLen(m, name, 0) > CHUNK_PLAINTEXT_LEN then Some(ManifestOverflow)
            else None)
  }

  function DeleteRefusal(m: Manifest, poisoned: bool, name: Text): Option<FormatError> {
    if poisoned then Some(SessionPoisoned)
    else if Find(m.entries, name).None? then Some(FileNotFound(name))
    else None
  }

  /** The manifest after `rename_file`. */
  function Renamed(m: Manifest, from: Text, to: Text): Manifest
    requires Find(m.entries, from).Some?
  {
    var e := Find(m.entries, from).value;
    Upserted(Removed(Removed(m, from), to), FileEntry(to, e.size, e.chunks))
  }

  function RenameRefusal(m: Manifest, poisoned: bool, from: Text, to: Text): Option<FormatError> {
    Guarded(poisoned, to,
            if from == [] then Some(InvalidName)
            else if from == to then None
            else if Find(m.entries, from).None? then Some(FileNotFound(from))
            else if |Print(Renamed(m, from, to))| > CHUNK_PLAINTEXT_LEN then Some(ManifestOverflow)
            else None)
  }

  function RenamedFiles(files: Files, from: Text, to: Text): Files {
    var rest := files - {from, to};
    if from in files then rest[to := files[from]] else rest
  }

  /** Counter steps of a rename: one per removal, one for the insertion. */
  function RenameBumps(m: Manifest, to: Text): nat {
    if Find(m.entries, to).Some? then 3 else 2
  }

  function WriteRefusal(geo: Geometry, m: Manifest, poisoned: bool, name: Text, offset: nat, len: nat): Option<FormatError> {
    Guarded(poisoned, name,
            if len == 0 then None
            else
              match Find(m.entries, name)
              case None => Some(FileNotFound(name))
              case Some(e) =>
                var pieces := Pieces(Max(e.size, offset + len));
                if offset + len > U64_MAX || pieces > U32_MAX then Some(Overflow)
                else if pieces - FirstDirty(e.size, offset) > FreeCount(geo, m.entries) then Some(Full)
                else if GrownLen(m, name, pieces) > CHUNK_PLAINTEXT_LEN then Some(ManifestOverflow)
                else None)
  }

  /** What reading a damaged chunk can meet. */
  predicate Unreadable(e: FormatError) {
    e == Crypto || e.BadManifest? || e == Panic
  }

  function Verdict(refusal: Option<FormatError>): Result<()> {
    match refusal
    case None => Success(())
    case Some(e) => Failure(e)
  }

  /** The answer of a call: its refusal, given before any request to the device is made; or
      success, unless a request can fail and one does. */
  predicate Answers(r: Result<()>, refusal: Option<FormatError>, faulty: bool) {
    r == Verdict(refusal) || (faulty && refusal.None? && r == Failure(Io))
  }

  /** A new file is refused for space exactly when it needs more than the reported free bytes;
      an empty one still takes a chunk. */
  lemma NewFileFitsExactly(geo: Geometry, m: Manifest, name: Text, len: nat)
    requires Layout(geo, m.entries) && geo.home < geo.total
    requires ValidName(name) && Find(m.entries, name).None?
    ensures AddRefusal(geo, m, false, name, len) == Some(Full)
       <==> Max(len, 1) > |Free(geo, m.entries)| * CHUNK_PLAINTEXT_LEN
  {
    FreeIsExact(geo, m.entries);
  }

  // ---- what a mutation of one file leaves alone ----

  /** m1 differs from m0 in the entry of one name and the counter only: every other entry, the
      explicit folders, the child slots and the owner are kept. */
  predicate OnlyTouched(m0: Manifest, m1: Manifest, name: Text) {
    var e := Find(m1.entries, name);
    e.Some? && m1 == m0.(entries := Without(m0.entries, name) + [e.value], counter := m1.counter)
  }

  lemma UpsertTouches(m: Manifest, e: FileEntry)
    ensures OnlyTouched(m, Upserted(m, e), e.name)
    ensures Find(Upserted(m, e).entries, e.name) == Some(e)
  {
    UpsertedFinds(m, e, e.name);
  }

  /** Several edits of one name are still edits of that name only. */
  lemma TouchedAgain(m0: Manifest, m1: Manifest, m2: Manifest, name: Text)
    requires OnlyTouched(m0, m1, name) && OnlyTouched(m1, m2, name)
    ensures OnlyTouched(m0, m2, name)
  {
    var rest := Without(m0.entries, name);
    WithoutLast(rest, Find(m1.entries, name).value);
    WithoutAbsent(rest, name);
  }

  /** What `add_file` records: the size, and chunks drawn as the allocator draws them. */
  ghost predicate Added(geo: Geometry, m0: Manifest, m1: Manifest, name: Text, len: nat) {
    len <= U64_MAX && exists drawn ::
      && m1 == Upserted(m0, FileEntry(name, len, drawn))
      && Drawn(geo, m0.entries, Max(Pieces(len), 1), ChunkList(m0.entries, name), drawn)
  }

  /** The files still known after an overwrite of `name` stopped half-way: all of them if the
      old content still reads, else all but that one. */
  function Remaining(geo: Geometry, disk: seq<Cell>, m: Manifest, files: Files, name: Text): Files {
    match Find(m.entries, name)
    case None => files - {name}
    case Some(e) => if name in files && Holds(geo, disk, e, files[name]) then files else files - {name}
  }

  lemma KeepsRemaining(geo: Geometry, d: seq<Cell>, d': seq<Cell>, m: Manifest, files: Files, name: Text)
    requires Keeps(geo, d, m.entries, files) && Keeps(geo, d', m.entries, files - {name}) && UniqueNames(m.entries)
    ensures Keeps(geo, d', m.entries, Remaining(geo, d', m, files, name))
    ensures Remaining(geo, d', m, files, name) - {name} == files - {name}
    ensures forall n | n in Remaining(geo, d', m, files, name) :: n in files
  {
    hide Holds;
    var left := Remaining(geo, d', m, files, name);
    assert files - {name} - {name} == files - {name};
    if left == files {
      forall e | e in m.entries && e.name in files ensures Holds(geo, d', e, files[e.name]) {
        if e.name == name {
          FindUnique(m.entries, e);
        } else {
          assert e.name in files - {name};
        }
      }
    }
  }

  /** A file without chunks, or no file at all, loses nothing to an overwrite. */
  lemma OverwriteSpares(geo: Geometry, d: seq<Cell>, d': seq<Cell>, m: Manifest, files: Files, name: Text)
    requires Keeps(geo, d, m.entries, files) && ChunkList(m.entries, name) == []
    ensures Remaining(geo, d', m, files, name) == files
  {
    match Find(m.entries, name) {
      case None =>
        assert name !in Names(m.entries);
        assert files - {name} == files;
      case Some(e) =>
        if name !in files {
          assert files - {name} == files;
        }
    }
  }

  /** What a failed chunk write may leave. */
  predicate FailedWrite(d: seq<Cell>, d': seq<Cell>, index: nat, cell: Cell) {
    && index < |d| == |d'| && d' == d[index := d'[index]]
    && d'[index] in {d[index], cell, Noise}
  }

  /** Any other file can lose its content: the first chunk `add_file` writes is the old file's
      first chunk, and that write may fail in a way after which the old content no longer
      reads, although the old manifest is still the one on the disk. */
  lemma OverwriteLoses(geo: Geometry, d: seq<Cell>, m: Manifest, files: Files, name: Text, n: nat, drawn: seq<U32>, cell: Cell)
    returns (d': seq<Cell>)
    requires Intact(geo, d, m, files) && name in files && ChunkList(m.entries, name) != []
    requires n > 0 && Drawn(geo, m.entries, n, ChunkList(m.entries, name), drawn)
    ensures drawn[0] == ChunkList(m.entries, name)[0] && FailedWrite(d, d', drawn[0], cell)
    ensures Reopen(geo, d') == Success(m) && Remaining(geo, d', m, files, name) == files - {name} != files
  {
    hide Publishable, Canonical, Serialized, Reopen, Parse, Print, Layout, Keeps;
    var e := Find(m.entries, name).value;
    assert drawn[..Min(n, |e.chunks|)][0] == e.chunks[..Min(n, |e.chunks|)][0];
    var c := e.chunks[0];
    assert c in e.chunks;
    EntryFactsOf(geo, d, m, files, e);
    d' := d[c := Noise];
    HomeDecides(geo, d, d');
    assert !Holds(geo, d', e, files[name]);
    assert name !in files - {name};
  }

  // ---- crash images ----

  /** A crash image of an operation that only damages `touched` files, and only once one of
      the displaced chunks has been shredded: otherwise everything is old or everything is new. */
  predicate WindowSafe(geo: Geometry, image: seq<Cell>, m0: Manifest, files0: Files,
                       m1: Manifest, files1: Files, touched: set<Text>, displaced: set<int>)
  {
    || Intact(geo, image, m0, files0)
    || Intact(geo, image, m1, files1)
    || (Intact(geo, image, m0, files0 - touched) && exists c | c in displaced && 0 <= c < |image| :: image[c] == Noise)
  }

  /** A crash image of an operation that may damage `touched` files from its first write on. */
  predicate OverwriteSafe(geo: Geometry, image: seq<Cell>, m0: Manifest, files0: Files,
                          m1: Manifest, files1: Files, touched: set<Text>)
  {
    || Intact(geo, image, m1, files1)
    || Intact(geo, image, m0, files0 - touched)
  }

  lemma WindowIsOverwrite(geo: Geometry, image: seq<Cell>, m0: Manifest, files0: Files,
                          m1: Manifest, files1: Files, name: Text, displaced: set<int>)
    requires WindowSafe(geo, image, m0, files0 - {name}, m1, files1, {name}, displaced)
    ensures OverwriteSafe(geo, image, m0, files0, m1, files1, {name})
  {
    hide Intact;
    assert files0 - {name} - {name} == files0 - {name};
  }

  /** Whatever the disk change, files whose chunks it misses stay readable. */
  lemma IntactDrop(geo: Geometry, d: seq<Cell>, d': seq<Cell>, m: Manifest, files: Files,
                   touched: set<Text>, changed: set<int>)
    requires Intact(geo, d, m, files) && SameOutside(d, d', changed) && geo.home !in changed
    requires forall e | e in m.entries && e.name !in touched :: Elems(e.chunks) !! changed
    ensures Intact(geo, d', m, files - touched)
  {
    KeepsDrop(geo, d, d', m.entries, files, touched, changed);
  }

  lemma KeepsDrop(geo: Geometry, d: seq<Cell>, d': seq<Cell>, entries: seq<FileEntry>, files: Files,
                  touched: set<Text>, changed: set<int>)
    requires Layout(geo, entries) && geo.total == |d|
    requires Keeps(geo, d, entries, files) && SameOutside(d, d', changed)
    requires forall e | e in entries && e.name !in touched :: Elems(e.chunks) !! changed
    ensures Keeps(geo, d', entries, files - touched)
  {
    forall e | e in entries && e.name in files - touched
      ensures forall c | c in e.chunks :: c < |d| && c !in changed
    {
      assert Placed(geo, e.chunks);
      forall c | c in e.chunks ensures c !in changed {
        assert (c as int) in Elems(e.chunks);
      }
    }
    KeepsFrame(geo, d, d', entries, files - touched, changed);
  }

  /** The chunks to shred are data chunks that no entry of `entries` outside `touched` uses. */
  predicate Sheddable(geo: Geometry, shred: seq<U32>, entries: seq<FileEntry>, touched: set<Text>) {
    && (forall c | c in shred :: c < geo.total && c != geo.home)
    && forall e | e in entries && e.name !in touched :: Disjoint(e.chunks, shred)
  }

  lemma FinalIntact(geo: Geometry, d: seq<Cell>, shred: seq<U32>, m1: Manifest, files1: Files)
    requires geo.home < geo.total == |d|
    requires Publishable(geo, m1) && Keeps(geo, d, m1.entries, files1)
    requires Sheddable(geo, shred, m1.entries, {})
    ensures Intact(geo, Shredded(d, shred)[geo.home := Seal(geo.master, geo.home, Serialized(m1).value)], m1, files1)
  {
    hide Parse, Print, ValidTexts, Canonical, Keeps, Seal, DecryptChunk;
    var d2 := Shredded(d, shred)[geo.home := Seal(geo.master, geo.home, Serialized(m1).value)];
    PublishedReopens(geo, Shredded(d, shred), m1);
    var changed := Elems(shred) + {geo.home};
    forall e | e in m1.entries ensures Elems(e.chunks) !! changed {
      assert Placed(geo, e.chunks);
      assert Disjoint(e.chunks, shred);
    }
    KeepsDrop(geo, d, d2, m1.entries, files1, {}, changed);
    assert files1 - {} == files1;
  }

  /** Once the first chunk is shredded, the old manifest still opens and every untouched file reads. */
  lemma ShredIsSafe(geo: Geometry, d: seq<Cell>, shred: seq<U32>, touched: set<Text>, j: nat,
                    m0: Manifest, files0: Files, m1: Manifest, files1: Files)
    requires geo.home < geo.total == |d|
    requires Intact(geo, d, m0, files0) && Sheddable(geo, shred, m0.entries, touched)
    requires 1 <= j <= |shred|
    ensures WindowSafe(geo, Shredded(d, shred[..j]), m0, files0, m1, files1, touched, Elems(shred))
  {
    hide Intact;
    var image := Shredded(d, shred[..j]);
    ElemsPrefix(shred, j);
    forall e | e in m0.entries && e.name !in touched ensures Elems(e.chunks) !! Elems(shred[..j]) {
      assert Disjoint(e.chunks, shred);
    }
    IntactDrop(geo, d, image, m0, files0, touched, Elems(shred[..j]));
    assert shred[0] in shred[..j];
    assert (shred[0] as int) in Elems(shred) && image[shred[0]] == Noise;
  }

  /** An image between the first and the last overwrite of a shredding. */
  ghost predicate MidShred(d: seq<Cell>, shred: seq<U32>, image: seq<Cell>) {
    exists j | 1 <= j <= |shred| :: image == Shredded(d, shred[..j])
  }

  /** Every image of a destructive phase is one of its shredding or the published one. */
  lemma PhaseIsSafe(geo: Geometry, d: seq<Cell>, shred: seq<U32>, touched: set<Text>, image: seq<Cell>,
                    m0: Manifest, files0: Files, m1: Manifest, files1: Files)
    requires geo.home < geo.total == |d|
    requires Intact(geo, d, m0, files0) && Sheddable(geo, shred, m0.entries, touched)
    requires MidShred(d, shred, image) || Intact(geo, image, m1, files1)
    ensures WindowSafe(geo, image, m0, files0, m1, files1, touched, Elems(shred))
  {
    hide Intact, Sheddable;
    if j :| 1 <= j <= |shred| && image == Shredded(d, shred[..j]) {
      ShredIsSafe(geo, d, shred, touched, j, m0, files0, m1, files1);
    }
  }

  lemma DropAfterPhase(geo: Geometry, d: seq<Cell>, d': seq<Cell>, shred: seq<U32>,
                       m: Manifest, files: Files, touched: set<Text>)
    requires geo.home < geo.total == |d|
    requires Publishable(geo, m) && Keeps(geo, d, m.entries, files)
    requires Sheddable(geo, shred, m.entries, touched)
    requires SameOutside(d, d', Elems(shred) + {geo.home})
    ensures Keeps(geo, d', m.entries, files - touched)
  {
    hide Canonical, Serialized, Keeps;
    var changed := Elems(shred) + {geo.home};
    forall e | e in m.entries && e.name !in touched ensures Elems(e.chunks) !! changed {
      assert Placed(geo, e.chunks);
      assert Disjoint(e.chunks, shred);
    }
    KeepsDrop(geo, d, d', m.entries, files, touched, changed);
  }

  /** The allocator's result: reused chunks first, then free ones. */
  predicate Drawn(geo: Geometry, entries: seq<FileEntry>, n: nat, reusable: seq<U32>, drawn: seq<U32>) {
    var kept := Min(n, |reusable|);
    && |drawn| == n
    && drawn[..kept] == reusable[..kept]
    && NoDup(drawn)
    && forall k | kept <= k < n :: drawn[k] in Free(geo, entries)
  }

  function ChunkList(entries: seq<FileEntry>, name: seq<Byte>): seq<U32> {
    match Find(entries, name)
    case None => []
    case Some(e) => e.chunks
  }

  lemma ChunkListReusable(geo: Geometry, entries: seq<FileEntry>, name: seq<Byte>)
    requires Layout(geo, entries)
    ensures NoDup(ChunkList(entries, name)) && Elems(ChunkList(entries, name)) <= Used(entries)
    ensures |ChunkList(entries, name)| == ChunksOf(entries, name)
  {
    match Find(entries, name) {
      case None =>
      case Some(e) =>
        assert Placed(geo, e.chunks);
    }
  }

  /** Drawn chunks may serve `name`: in range, off the manifest, disjoint from other files. */
  lemma DrawnIsPlaced(geo: Geometry, entries: seq<FileEntry>, name: Text, n: nat, reusable: seq<U32>, drawn: seq<U32>)
    requires Layout(geo, entries) && Drawn(geo, entries, n, reusable, drawn)
    requires reusable == ChunkList(entries, name) || reusable == []
    ensures |drawn| == n && Placed(geo, drawn)
    ensures forall f | f in entries && f.name != name :: Disjoint(drawn, f.chunks) && Elems(f.chunks) !! Elems(drawn)
    ensures reusable == [] ==> forall f | f in entries :: Disjoint(drawn, f.chunks)
  {
    var kept := Min(n, |reusable|);
    forall k | 0 <= k < n
      ensures drawn[k] < geo.total && drawn[k] != geo.home
      ensures forall f | f in entries && (f.name != name || reusable == []) :: drawn[k] !in f.chunks
    {
      if k < kept {
        assert drawn[k] == reusable[..kept][k];
        assert drawn[k] in ChunkList(entries, name);
        var e := Find(entries, name).value;
        assert Placed(geo, e.chunks);
      } else {
        assert drawn[k] in Free(geo, entries);
        assert (drawn[k] as int) !in Used(entries);
      }
    }
  }

  /** Displaced chunks of `e.name` may be shredded around the publication of e. */
  lemma DisplacedIsSheddable(geo: Geometry, m: Manifest, e: FileEntry, shred: seq<U32>)
    requires Layout(geo, m.entries)
    requires forall c | c in shred :: c in ChunkList(m.entries, e.name) && c !in e.chunks
    ensures Sheddable(geo, shred, m.entries, {e.name})
    ensures Sheddable(geo, shred, Upserted(m, e).entries, {})
  {
    match Find(m.entries, e.name) {
      case None =>
        assert forall c :: c !in shred;
      case Some(o) =>
        assert Placed(geo, o.chunks);
        forall f | f in m.entries && f.name != e.name ensures Disjoint(f.chunks, shred) {
          assert Disjoint(o.chunks, f.chunks);
        }
    }
  }

  /** A crash image still opens, and every listed file reads as recorded. */
  predicate StillReads(geo: Geometry, image: seq<Cell>, files: Files) {
    && geo.home < |image|
    && Reopen(geo, image).Success?
    && Intact(geo, image, Reopen(geo, image).value, files)
  }

  lemma IntactFewer(geo: Geometry, image: seq<Cell>, m: Manifest, files: Files, fewer: Files)
    requires Intact(geo, image, m, files)
    requires fewer.Keys <= files.Keys && forall n | n in fewer :: fewer[n] == files[n]
    ensures StillReads(geo, image, fewer)
  {
    hide Holds, Serialized, Reopen, Layout;
  }

  /** Whatever the operation's window, files outside `touched` survive a crash in it. */
  lemma WindowStillReads(geo: Geometry, image: seq<Cell>, m0: Manifest, files0: Files, m1: Manifest, files1: Files,
                         touched: set<Text>, displaced: set<int>)
    requires WindowSafe(geo, image, m0, files0, m1, files1, touched, displaced)
    requires files0 - touched == files1 - touched || files1 == files0 - touched
    ensures StillReads(geo, image, files0 - touched)
  {
    hide Intact, StillReads;
    var fewer := files0 - touched;
    if Intact(geo, image, m0, files0) {
      IntactFewer(geo, image, m0, files0, fewer);
    } else if Intact(geo, image, m1, files1) {
      assert forall n | n in fewer :: n in files1 - touched || n in files1;
      forall n | n in fewer ensures n in files1 && files1[n] == files0[n] {
        if files0 - touched == files1 - touched {
          assert (files0 - touched)[n] == (files1 - touched)[n];
        }
      }
      IntactFewer(geo, image, m1, files1, fewer);
    } else {
      IntactFewer(geo, image, m0, files0 - touched, fewer);
    }
  }

  // ---- facts about entries ----

  function SizeOf(m: Manifest, name: Text): nat {
    match Find(m.entries, name)
    case None => 0
    case Some(e) => e.size
  }

  lemma SizesAgree(geo: Geometry, disk: seq<Cell>, m: Manifest, files: Files, e: FileEntry)
    requires Publishable(geo, m) && Keeps(geo, disk, m.entries, files) && Find(m.entries, e.name) == Some(e)
    ensures e.name in files ==> |files[e.name]| == e.size
    ensures SizeOf(m, e.name) == e.size && e.name in Names(m.entries)
  {}

  lemma SpaceNonNegative(geo: Geometry, m: Manifest)
    requires Publishable(geo, m) && geo.home < geo.total
    ensures FreeCount(geo, m.entries) >= 0
  {
    FreeIsExact(geo, m.entries);
  }

  lemma LayoutUnique(geo: Geometry, entries: seq<FileEntry>)
    requires Layout(geo, entries)
    ensures UniqueNames(entries)
  {}

  lemma HoldsSize(geo: Geometry, disk: seq<Cell>, e: FileEntry, content: seq<Byte>)
    requires Holds(geo, disk, e, content)
    ensures |content| == e.size
  {}

  lemma EntryPlaced(geo: Geometry, entries: seq<FileEntry>, e: FileEntry)
    requires Layout(geo, entries) && e in entries
    ensures Shaped(e) && Placed(geo, e.chunks)
  {}

  lemma FreeChunk(geo: Geometry, entries: seq<FileEntry>, drawn: seq<U32>)
    requires Drawn(geo, entries, 1, [], drawn)
    ensures (drawn[0] as int) in Free(geo, entries)
  {}

  lemma EntryFactsOf(geo: Geometry, d: seq<Cell>, m: Manifest, files: Files, e: FileEntry)
    requires Publishable(geo, m) && Keeps(geo, d, m.entries, files) && e in m.entries
    ensures Shaped(e) && Placed(geo, e.chunks) && e.name in Names(m.entries)
    ensures e.name in files ==> Holds(geo, d, e, files[e.name])
  {}

  lemma UsedSnoc(entries: seq<FileEntry>, e: FileEntry)
    ensures Used(entries + [e]) == Used(entries) + Elems(e.chunks)
  {
    var all := entries + [e];
    forall c | c in Used(all) ensures c in Used(entries) + Elems(e.chunks) {
      var f: FileEntry :| f in all && c in f.chunks;
      assert f == e || f in entries;
    }
    forall c | c in Used(entries) + Elems(e.chunks) ensures c in Used(all) {
      if c in e.chunks {
        assert e in all;
      } else {
        var f: FileEntry :| f in entries && c in f.chunks;
        assert f in all;
      }
    }
  }

  // ---- small helpers ----

  function Except(chunks: seq<U32>, kept: seq<U32>): (r: seq<U32>)
    ensures forall c :: c in r <==> c in chunks && c !in kept
  {
    if chunks == [] then []
    else (if chunks[0] in kept then [] else [chunks[0]]) + Except(chunks[1..], kept)
  }
}
