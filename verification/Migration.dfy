/** Re-encrypting a whole vault into a new one, side by side
    (crates/farewell_format/src/vault.rs, `migrate_vault`). */
module Migration {
  import opened Bytes
  import opened Texts
  import opened Wrappers
  import opened Octets
  import opened Codecs
  import opened Manifests
  import opened ManifestCodec
  import opened ManifestIO
  import opened Store
  import opened Space
  import opened Splices
  import opened VaultSpec
  import opened Erasure
  import opened RenameSpec
  import opened WriteSpec
  import opened TruncateSpec
  import opened ReadSpec
  import opened Orders
  import opened Folders
  import opened FolderSpec
  import opened MigrationSpec
  import opened Vaults

  datatype Capacity = Same | ShrinkToFit | Exact(chunks: nat)

  datatype Report = Report(files: nat, bytes: nat, oldCounter: U64, newCounter: U64, newTotalChunks: nat)

  /** An ideal hash of the bytes fed to it so far. */
  datatype Digest = Digest(fed: seq<Byte>)

  // ---- capacity ----

  /** Data chunks the listed files need. */
  function Needed(entries: seq<FileEntry>): nat {
    if entries == [] then 0 else Pieces(entries[0].size) + Needed(entries[1..])
  }

  lemma {:induction false} NeededSnoc(entries: seq<FileEntry>, e: FileEntry)
    ensures Needed(entries + [e]) == Needed(entries) + Pieces(e.size)
  {
    if entries != [] {
      assert (entries + [e])[1..] == entries[1..] + [e];
      NeededSnoc(entries[1..], e);
    }
  }

  lemma {:induction false} NeededSplit(entries: seq<FileEntry>, i: nat)
    requires i <= |entries|
    ensures Needed(entries[..i]) <= Needed(entries)
    decreases |entries| - i
  {
    if i < |entries| {
      NeededSnoc(entries[..i], entries[i]);
      assert entries[..i] + [entries[i]] == entries[..i + 1];
      NeededSplit(entries, i + 1);
    } else {
      assert entries[..i] == entries;
    }
  }

  /** A well-formed vault has room for its own files. */
  lemma {:induction false} NeededFits(geo: Geometry, entries: seq<FileEntry>)
    requires Layout(geo, entries)
    ensures Needed(entries) <= ChunkTotal(entries)
  {
    if entries != [] {
      LayoutTail(geo, entries);
      assert entries[0] in entries;
      NeededFits(geo, entries[1..]);
    }
  }

  function TargetChunks(capacity: Capacity, used: nat, sourceTotal: nat): Result<nat> {
    match capacity
    case Same => Success(sourceTotal)
    case ShrinkToFit => Success(Min(used + 1 + Max(used / 4, 16), sourceTotal))
    case Exact(n) => if n < used + 1 then Failure(BadManifest("requested capacity too small")) else Success(n)
  }

  method CountNeeded(entries: seq<FileEntry>) returns (used: nat)
    ensures used == Needed(entries)
  {
    used := 0;
    for i := 0 to |entries|
      invariant used == Needed(entries[..i])
    {
      NeededSnoc(entries[..i], entries[i]);
      assert entries[..i] + [entries[i]] == entries[..i + 1];
      used := used + Pieces(entries[i].size);
    }
    assert entries[..|entries|] == entries;
  }

  // ---- copying one file ----

  /** A destination ready to receive data: valid, mutable, undamaged, with its fixed parts. */
  ghost predicate Ready(v: Vault, folders: seq<Text>)
    reads v
  {
    && v.Valid() && !v.poisoned && v.files.Keys == Names(v.manifest.entries) && v.Erased()
    && v.manifest.folders == folders && v.manifest.childSlots == [] && v.manifest.owner == None
  }

  /** The file being copied: what was fed to it is in place, on exactly as many chunks as it needs. */
  ghost predicate Copied(v: Vault, name: Text, fed: seq<Byte>)
    reads v
  {
    var e := Find(v.manifest.entries, name);
    && e.Some? && e.value.size == |fed| && |e.value.chunks| == Pieces(|fed|)
    && name in v.files && v.files[name] == fed
  }

  lemma AppendCommitted(geo: Geometry, m: Manifest, e: FileEntry, m1: Manifest, n: nat)
    requires Layout(geo, m.entries) && Layout(geo, m1.entries) && n > 0
    requires Find(m.entries, e.name) == Some(e) && WroteFresh(geo, m, m1, e.name, e.size, n)
    ensures var f := Find(m1.entries, e.name);
            && f.Some? && f.value.size == e.size + n && |f.value.chunks| == Pieces(e.size + n)
            && FreeCount(geo, m1.entries) == FreeCount(geo, m.entries) + |e.chunks| - |f.value.chunks|
            && (e.size == CHUNK_PLAINTEXT_LEN * |e.chunks| ==> e.chunks <= f.value.chunks)
    ensures |Print(m1)| == |Print(m)| - 4 * |e.chunks| + 4 * Pieces(e.size + n)
    ensures m1.folders == m.folders && m1.childSlots == m.childSlots && m1.owner == m.owner
  {
    hide Layout, Drawn, Print, Pieces, FirstDirty, Without, FreeCount, WrittenEntry, GrownLen;
    LayoutUnique(geo, m.entries);
    LayoutUnique(geo, m1.entries);
    FirstDirtyBounds(e.size, e.size, n);
    var drawn :| m1 == Upserted(m, WrittenEntry(e, e.size, n, drawn))
                 && Drawn(geo, m.entries, Pieces(Max(e.size, e.size + n)) - FirstDirty(e.size, e.size), [], drawn);
    var w := WrittenEntry(e, e.size, n, drawn);
    WrittenIn(m, e, e.size, n, drawn);
    FindUnique(m1.entries, w);
    FindUnique(m.entries, e);
    KeptChunks(e, n, drawn);
    WrittenCount(geo, m.entries, e, e.size, n, drawn);
    FreeAfterUpsert(geo, m, w);
    UpsertedLen(m, w);
    RewrittenLen(m, e, |w.chunks|);
  }

  /** At a chunk boundary there is no partial last piece to rewrite. */
  lemma KeptChunks(e: FileEntry, n: nat, drawn: seq<U32>)
    requires e.size + n <= U64_MAX
    ensures e.size == CHUNK_PLAINTEXT_LEN * |e.chunks| ==> WrittenEntry(e, e.size, n, drawn).chunks == e.chunks + drawn
  {
    assert e.chunks[..|e.chunks|] == e.chunks;
  }

  lemma AppendLen(geo: Geometry, m: Manifest, e: FileEntry, n: nat)
    requires Layout(geo, m.entries) && Find(m.entries, e.name) == Some(e)
    ensures GrownLen(m, e.name, Pieces(e.size + n)) == |Print(m)| - 4 * |e.chunks| + 4 * Pieces(e.size + n)
  {
    hide Layout, Print, Pieces, GrownLen;
    LayoutUnique(geo, m.entries);
    RewrittenLen(m, e, Pieces(e.size + n));
  }

  /** An append is refused for its length, or for want of chunks; at a chunk boundary it needs
      exactly its own, so it is never `Full` when they are free. */
  lemma AppendFits(geo: Geometry, m: Manifest, name: Text, off: nat, n: nat)
    requires ValidName(name) && Find(m.entries, name).Some? && Find(m.entries, name).value.size == off
    requires 0 < n && off + n <= U64_MAX && Pieces(off + n) <= U32_MAX
    ensures var refusal := WriteRefusal(geo, m, false, name, off, n);
            || refusal.None?
            || (refusal == Some(ManifestOverflow) && GrownLen(m, name, Pieces(off + n)) > CHUNK_PLAINTEXT_LEN)
            || (refusal == Some(Full) && (off % CHUNK_PLAINTEXT_LEN != 0
                                          || Pieces(off + n) - Pieces(off) > FreeCount(geo, m.entries)))
  {
    hide Print;
  }

  method CopyWindow(dst: Vault, name: Text, off: U64, buf: seq<Byte>, ghost fed: seq<Byte>,
                    ghost folders: seq<Text>, faulty: bool)
    returns (r: Result<()>)
    requires Ready(dst, folders) && ValidName(name) && Copied(dst, name, fed)
    requires off == |fed| && buf != [] && off + |buf| <= U64_MAX && Pieces(off + |buf|) <= U32_MAX
    modifies dst
    ensures r.Failure? ==>
              || r.error == Io || r.error == ManifestOverflow
              || off % CHUNK_PLAINTEXT_LEN != 0
              || Pieces(off + |buf|) - Pieces(off) > old(FreeCount(dst.geo, dst.manifest.entries))
    ensures r == Failure(ManifestOverflow) ==>
              old(|Print(dst.manifest)|) + 4 * (Pieces(off + |buf|) - Pieces(off)) > CHUNK_PLAINTEXT_LEN
    ensures r.Success? ==> Ready(dst, folders) && Copied(dst, name, fed + buf)
    ensures r.Success? ==> |Print(dst.manifest)| == old(|Print(dst.manifest)|) + 4 * (Pieces(off + |buf|) - Pieces(off))
    ensures r.Success? ==> dst.files == old(dst.files)[name := fed + buf]
    ensures r.Success? ==> (FreeCount(dst.geo, dst.manifest.entries)
                            == old(FreeCount(dst.geo, dst.manifest.entries)) - (Pieces(off + |buf|) - Pieces(off)))
    ensures r.Success? ==> Names(dst.manifest.entries) == old(Names(dst.manifest.entries))
    ensures !faulty ==> r != Failure(Io)
  {
    hide Publishable, Keeps, Reopen, WroteFresh, WriteRefusal, WindowSafe, ValidName, Names, FreeCount, Pieces,
      Splice, Print, GrownLen, Leftover;
    ghost var m, e := dst.manifest, Find(dst.manifest.entries, name).value;
    PublishedLayout(dst.geo, m);
    AppendFits(dst.geo, m, name, off, |buf|);
    AppendLen(dst.geo, m, e, |buf|);
    FoundIsNamedHere(m.entries, name);
    r := dst.WriteFileRange(name, off, buf, faulty);
    if r.Success? {
      PublishedLayout(dst.geo, dst.manifest);
      AppendCommitted(dst.geo, m, e, dst.manifest, |buf|);
      AppendSplices(fed, buf);
    }
  }

  lemma PiecesGrow(a: nat, b: nat)
    requires a <= b
    ensures Pieces(a) <= Pieces(b)
  {}

  lemma FoundIsNamedHere(entries: seq<FileEntry>, name: Text)
    ensures Find(entries, name).Some? <==> name in Names(entries)
  {}

  lemma AppendSplices(fed: seq<Byte>, buf: seq<Byte>)
    ensures Splice(fed, |fed|, buf) == fed + buf
  {}

  /** What the copy of one file did: an undamaged source file is reproduced; of a damaged one
      whatever could be read, at most its recorded size. */
  ghost predicate Reproduced(src: Vault, name: Text, size: nat, copy: seq<Byte>)
    reads src
  {
    |copy| <= size && (name in src.files ==> copy == src.files[name])
  }

  /** The failures of a copy; an undamaged file meets I/O errors and a full manifest only. */
  ghost predicate CopyFails(src: Vault, name: Text, e: FormatError)
    reads src
  {
    e == Io || e == ManifestOverflow || name !in src.files
  }

  /** One file, streamed in windows of one chunk; returns the hash of what was read. */
  method CopyFile(src: Vault, dst: Vault, name: Text, size: U64, ghost folders: seq<Text>, faulty: bool)
    returns (r: Result<Digest>)
    requires src != dst && src.Valid() && SourceFile(src, name, size)
    requires Ready(dst, folders) && name !in Names(dst.manifest.entries)
    requires Pieces(size) <= FreeCount(dst.geo, dst.manifest.entries)
    modifies dst
    ensures r.Failure? ==> CopyFails(src, name, r.error)
    ensures r == Failure(ManifestOverflow) ==>
              old(|Print(dst.manifest)|) + EntryLen(name, Pieces(size)) > CHUNK_PLAINTEXT_LEN
    ensures r.Success? ==>
              && Ready(dst, folders) && name in dst.files && dst.files == old(dst.files)[name := dst.files[name]]
              && r.value == Digest(dst.files[name]) && Reproduced(src, name, size, dst.files[name])
              && (FreeCount(dst.geo, dst.manifest.entries)
                  == old(FreeCount(dst.geo, dst.manifest.entries)) - Pieces(|dst.files[name]|))
              && Names(dst.manifest.entries) == old(Names(dst.manifest.entries)) + {name}
              && |Print(dst.manifest)| == old(|Print(dst.manifest)|) + EntryLen(name, Pieces(|dst.files[name]|))
    ensures !faulty ==> r != Failure(Io)
  {
    hide Publishable, Keeps, Reopen, WindowSafe, ValidName, Names, FreeCount, Pieces, CreateRefusal, Print, Leftover;
    ghost var m0 := dst.manifest;
    FoundIsNamedHere(dst.manifest.entries, name);
    EmptyAddedLen(m0, name);
    var created := dst.CreateFile(name, faulty);
    if created.Failure? {
      CreateFailsOnly(m0, name);
      return Failure(created.error);
    }
    CreatedEmpty(dst.geo, m0, name);
    r := CopyWindows(src, dst, name, size, folders, faulty);
  }

  /** A listed file of the source and its recorded size. */
  ghost predicate SourceFile(src: Vault, name: Text, size: nat)
    reads src
  {
    && ValidName(name) && Pieces(size) <= U32_MAX
    && Find(src.manifest.entries, name).Some? && Find(src.manifest.entries, name).value.size == size
    && (name in src.files ==> |src.files[name]| == size)
  }

  /** The window loop over a file that was just created. */
  method CopyWindows(src: Vault, dst: Vault, name: Text, size: U64, ghost folders: seq<Text>, faulty: bool)
    returns (r: Result<Digest>)
    requires src != dst && src.Valid() && SourceFile(src, name, size)
    requires Ready(dst, folders) && Copied(dst, name, [])
    requires Pieces(size) <= FreeCount(dst.geo, dst.manifest.entries)
    modifies dst
    ensures r.Failure? ==> CopyFails(src, name, r.error)
    ensures r == Failure(ManifestOverflow) ==> old(|Print(dst.manifest)|) + 4 * Pieces(size) > CHUNK_PLAINTEXT_LEN
    ensures r.Success? ==>
              && Ready(dst, folders) && name in dst.files && dst.files == old(dst.files)[name := dst.files[name]]
              && r.value == Digest(dst.files[name]) && Reproduced(src, name, size, dst.files[name])
              && (FreeCount(dst.geo, dst.manifest.entries)
                  == old(FreeCount(dst.geo, dst.manifest.entries)) - Pieces(|dst.files[name]|))
              && Names(dst.manifest.entries) == old(Names(dst.manifest.entries))
              && |Print(dst.manifest)| == old(|Print(dst.manifest)|) + 4 * Pieces(|dst.files[name]|)
    ensures !faulty ==> r != Failure(Io)
  {
    hide Publishable, Keeps, Reopen, ValidName, Names, FreeCount, Pieces, Window, Ready, Print, Find, CopiedSoFar,
      Copied;
    FoundIsNamedHere(src.manifest.entries, name);
    NoPieces();
    CopiedNothing(dst, name);
    if name in src.files {
      NothingFed(src.files[name]);
    }
    var fed: seq<Byte> := [];
    var off: U64 := 0;
    while off < size
      invariant Ready(dst, folders) && Copied(dst, name, fed) && off == |fed| <= size
      invariant name in src.files ==> CopiedSoFar(src.files[name], fed)
      invariant dst.files == old(dst.files)[name := fed]
      invariant FreeCount(dst.geo, dst.manifest.entries) == old(FreeCount(dst.geo, dst.manifest.entries)) - Pieces(off)
      invariant Names(dst.manifest.entries) == old(Names(dst.manifest.entries))
      invariant |Print(dst.manifest)| == old(|Print(dst.manifest)|) + 4 * Pieces(off)
    {
      var buf := src.ReadFileRange(name, off, CHUNK_PLAINTEXT_LEN, faulty);
      if buf.Failure? {
        return Failure(buf.error);
      }
      if name in src.files {
        WindowIs(src.files[name], fed, buf.value);
      }
      if buf.value == [] {
        break;
      }
      PiecesGrow(off + |buf.value|, size);
      var w := CopyWindow(dst, name, off, buf.value, fed, folders, faulty);
      if w.Failure? {
        return Failure(w.error);
      }
      fed := fed + buf.value;
      off := off + |buf.value|;
    }
    if name in src.files {
      AllFed(src.files[name], fed);
    }
    return Success(Digest(fed));
  }

  /** What was fed is the source content up to a chunk boundary, or all of it. */
  predicate CopiedSoFar(content: seq<Byte>, fed: seq<Byte>) {
    fed <= content && (|fed| % CHUNK_PLAINTEXT_LEN == 0 || fed == content)
  }

  lemma NothingFed(content: seq<Byte>)
    ensures CopiedSoFar(content, [])
  {}

  lemma CopiedNothing(v: Vault, name: Text)
    requires Copied(v, name, [])
    ensures v.files == v.files[name := []]
  {}

  lemma NoPieces()
    ensures Pieces(0) == 0
  {}

  lemma FilesAreNamed(v: Vault, name: Text)
    requires v.Valid() && name in v.files
    ensures name in Names(v.manifest.entries)
  {}

  lemma CreateFailsOnly(m: Manifest, name: Text)
    requires ValidName(name) && Find(m.entries, name).None?
    ensures var refusal := CreateRefusal(m, false, name, false);
            || refusal.None?
            || (refusal == Some(ManifestOverflow) && GrownLen(m, name, 0) > CHUNK_PLAINTEXT_LEN)
  {}

  lemma CreatedEmpty(geo: Geometry, m: Manifest, name: Text)
    requires Publishable(geo, m) && Find(m.entries, name).None?
    requires Publishable(geo, Upserted(m, FileEntry(name, 0, [])))
    ensures var m1 := Upserted(m, FileEntry(name, 0, []));
            && Find(m1.entries, name) == Some(FileEntry(name, 0, []))
            && FreeCount(geo, m1.entries) == FreeCount(geo, m.entries) && Pieces(0) == 0
            && Names(m1.entries) == Names(m.entries) + {name}
  {
    hide Serialized, Canonical;
    var e := FileEntry(name, 0, []);
    assert e in Upserted(m, e).entries;
    FindUnique(Upserted(m, e).entries, e);
    FreeAfterUpsert(geo, m, e);
    UpsertNames(m, e);
  }

  lemma WindowIs(content: seq<Byte>, fed: seq<Byte>, buf: seq<Byte>)
    requires CopiedSoFar(content, fed) && |fed| < |content| && buf == Window(content, |fed|, CHUNK_PLAINTEXT_LEN)
    ensures buf != [] && |fed| % CHUNK_PLAINTEXT_LEN == 0 && CopiedSoFar(content, fed + buf)
  {
    assert fed == content[..|fed|];
  }

  // ---- folders ----

  /** Recreates every reported folder explicitly, in the order of the listing. */
  method CopyFolders(src: Vault, dst: Vault, folders: seq<Text>, faulty: bool) returns (r: Result<()>)
    requires src != dst && src.Valid() && Ascending(folders) && Members(folders) == FolderSet(src.manifest)
    requires Ready(dst, []) && dst.files == map[] && dst.manifest.entries == []
    modifies dst
    ensures r.Failure? ==> r.error == Io || r.error == ManifestOverflow
    ensures r == Failure(ManifestOverflow) ==> FRAME_LEN + PathsLen(FolderSet(src.manifest)) > CHUNK_PLAINTEXT_LEN
    ensures r.Success? ==> Ready(dst, folders) && dst.files == map[] && dst.manifest.entries == []
    ensures r.Success? ==> |Print(dst.manifest)| == FRAME_LEN + PathsLen(FolderSet(src.manifest))
    ensures !faulty ==> r != Failure(Io)
  {
    hide Publishable, Keeps, Reopen, WindowSafe, Normalized, FolderSet, Ascending, Members, Print, Leftover;
    ListingLen(folders);
    PrintedLen(dst.manifest);
    for i := 0 to |folders|
      invariant Ready(dst, folders[..i]) && dst.files == map[] && dst.manifest.entries == []
      invariant |Print(dst.manifest)| == FRAME_LEN + |PrintAll(PrintFolder, folders[..i])|
    {
      ghost var m := dst.manifest;
      ListedIsNew(src, folders, i);
      FolderAddedLen(m, folders, i);
      ListingGrows(folders, i + 1);
      assert folders[..i + 1] == folders[..i] + [folders[i]];
      var created := dst.CreateFolder(folders[i], faulty);
      if created.Failure? {
        FolderFailsOnly(m, folders[i]);
        return Failure(created.error);
      }
    }
    assert folders[..|folders|] == folders;
    return Success(());
  }

  lemma ListedIsNew(src: Vault, folders: seq<Text>, i: nat)
    requires src.Valid() && Ascending(folders) && Members(folders) == FolderSet(src.manifest) && i < |folders|
    ensures folders[i] !in folders[..i]
    ensures Normalized(folders[i]) == Some(folders[i]) && ValidFolderPath(folders[i])
  {
    hide Publishable, Keeps, Reopen, Normalized, FolderSet, Ascending;
    SourceTexts(src);
    LaterIsNew(folders, i);
    assert folders[i] in Members(folders);
    ReportedIsNormal(src.manifest, folders[i]);
  }

  lemma SourceTexts(v: Vault)
    requires v.Valid()
    ensures ValidTexts(v.manifest)
  {}

  lemma FolderFailsOnly(m: Manifest, p: Text)
    requires Normalized(p) == Some(p) && ValidFolderPath(p)
    ensures var refusal := CreateFolderRefusal(m, false, p);
            || refusal.None?
            || (refusal == Some(ManifestOverflow) && |Print(FolderAdded(m, p))| > CHUNK_PLAINTEXT_LEN)
  {}

  // ---- all files ----

  /** The copy plan: name, size and the hash of the bytes that were copied. */
  datatype Planned = Planned(name: Text, size: U64, digest: Digest)

  ghost predicate PlanMatches(plan: seq<Planned>, entries: seq<FileEntry>, files: Files) {
    && |plan| == |entries|
    && forall i | 0 <= i < |plan| ::
         && plan[i].name == entries[i].name && plan[i].size == entries[i].size
         && plan[i].name in files && plan[i].digest == Digest(files[plan[i].name]) && |files[plan[i].name]| <= plan[i].size
  }

  /** The copies carry the names of the listed files and what could be read of them. */
  ghost predicate FilesCopied(src: Vault, entries: seq<FileEntry>, files: Files)
    reads src
  {
    && files.Keys == Names(entries)
    && forall e | e in entries :: e.name in files && Reproduced(src, e.name, e.size, files[e.name])
  }

  /** No file of the vault was damaged by an I/O failure. */
  ghost predicate Whole(v: Vault)
    reads v
  {
    v.files.Keys == Names(v.manifest.entries)
  }

  method CopyAll(src: Vault, dst: Vault, ghost folders: seq<Text>, faulty: bool) returns (r: Result<seq<Planned>>)
    requires src != dst && src.Valid()
    requires Ready(dst, folders) && dst.files == map[] && dst.manifest.entries == []
    requires Needed(src.manifest.entries) < dst.geo.total
    modifies dst
    ensures r.Failure? ==> r.error == Io || r.error == ManifestOverflow || !Whole(src)
    ensures r == Failure(ManifestOverflow) ==>
              old(|Print(dst.manifest)|) + CopiedLen(src.manifest.entries) > CHUNK_PLAINTEXT_LEN
    ensures r.Success? ==>
              && Ready(dst, folders) && FilesCopied(src, src.manifest.entries, dst.files)
              && PlanMatches(r.value, src.manifest.entries, dst.files)
              && |Print(dst.manifest)| <= old(|Print(dst.manifest)|) + CopiedLen(src.manifest.entries)
              && (Whole(src) ==> |Print(dst.manifest)| == old(|Print(dst.manifest)|) + CopiedLen(src.manifest.entries))
    ensures !faulty ==> r != Failure(Io)
  {
    hide Publishable, Keeps, Reopen, Names, FreeCount, Pieces, EntryLen, Print, PlanMatches, FilesCopied;
    var entries := src.manifest.entries;
    var plan: seq<Planned> := [];
    NothingCopied(src, dst);
    for i := 0 to |entries|
      invariant Ready(dst, folders) && FilesCopied(src, entries[..i], dst.files)
      invariant FreeCount(dst.geo, dst.manifest.entries) >= dst.geo.total - 1 - Needed(entries[..i])
      invariant PlanMatches(plan, entries[..i], dst.files)
      invariant |Print(dst.manifest)| <= old(|Print(dst.manifest)|) + CopiedLen(entries[..i])
      invariant Whole(src) ==> |Print(dst.manifest)| == old(|Print(dst.manifest)|) + CopiedLen(entries[..i])
    {
      var e := entries[i];
      SourceEntry(src, i);
      NeededSnoc(entries[..i], e);
      NeededSplit(entries, i + 1);
      CopiedLenSnoc(entries[..i], e);
      CopiedLenPrefix(entries, i + 1);
      assert entries[..i] + [e] == entries[..i + 1];
      NotYetCopied(src, i, dst.files);
      ghost var was := dst.files;
      var copied := CopyFile(src, dst, e.name, e.size, folders, faulty);
      if copied.Failure? {
        return Failure(copied.error);
      }
      EntryGrows(e.name, |dst.files[e.name]|, e.size);
      FilesCopiedSnoc(src, entries[..i], e, was, dst.files);
      PlanSnoc(plan, entries[..i], e, was, dst.files);
      plan := plan + [Planned(e.name, e.size, copied.value)];
    }
    assert entries[..|entries|] == entries;
    return Success(plan);
  }

  lemma EntryGrows(name: Text, a: nat, b: nat)
    requires a <= b
    ensures Pieces(a) <= Pieces(b) && EntryLen(name, Pieces(a)) <= EntryLen(name, Pieces(b))
  {}

  lemma NothingCopied(src: Vault, dst: Vault)
    requires dst.manifest.entries == [] && dst.files == map[]
    ensures FreeCount(dst.geo, dst.manifest.entries) == dst.geo.total - 1
    ensures FilesCopied(src, [], dst.files) && PlanMatches([], [], dst.files)
  {
    NoNames([]);
  }

  lemma PlanSnoc(plan: seq<Planned>, entries: seq<FileEntry>, e: FileEntry, was: Files, files: Files)
    requires PlanMatches(plan, entries, was) && e.name !in was && e.name in files && files == was[e.name := files[e.name]]
    requires |files[e.name]| <= e.size
    ensures PlanMatches(plan + [Planned(e.name, e.size, Digest(files[e.name]))], entries + [e], files)
  {}

  lemma FilesCopiedSnoc(src: Vault, entries: seq<FileEntry>, e: FileEntry, was: Files, files: Files)
    requires FilesCopied(src, entries, was) && e.name !in was && e.name in files && files == was[e.name := files[e.name]]
    requires Reproduced(src, e.name, e.size, files[e.name])
    ensures FilesCopied(src, entries + [e], files)
  {
    hide Reproduced;
    NamesSnoc(entries, e);
    forall f | f in entries + [e] ensures f.name in files && Reproduced(src, f.name, f.size, files[f.name]) {
      if f in entries {
        assert f.name in Names(entries);
      }
    }
  }

  lemma SourceEntry(v: Vault, i: nat)
    requires v.Valid() && i < |v.manifest.entries|
    ensures var e := v.manifest.entries[i];
            SourceFile(v, e.name, e.size) && (Whole(v) ==> e.name in v.files)
  {
    var e := v.manifest.entries[i];
    PublishedLayout(v.geo, v.manifest);
    LayoutUnique(v.geo, v.manifest.entries);
    FindUnique(v.manifest.entries, e);
    assert e in v.manifest.entries;
    assert e.name in Names(v.manifest.entries);
    assert e.name in v.files ==> Holds(v.geo, v.disk, e, v.files[e.name]);
    assert Shaped(e) && Placed(v.geo, e.chunks);
    PlacedIsShort(v.geo, e.chunks);
  }

  lemma PlacedIsShort(geo: Geometry, chunks: seq<U32>)
    requires Placed(geo, chunks)
    ensures |chunks| <= geo.total
  {
    ElemsSize(chunks);
    assert Elems(chunks) <= Range(geo.total);
    SubsetSize(Elems(chunks), Range(geo.total));
  }

  lemma NotYetCopied(src: Vault, i: nat, files: Files)
    requires src.Valid() && i < |src.manifest.entries| && FilesCopied(src, src.manifest.entries[..i], files)
    ensures src.manifest.entries[i].name !in files
  {
    var entries := src.manifest.entries;
    PublishedLayout(src.geo, src.manifest);
    LayoutUnique(src.geo, entries);
    var name := entries[i].name;
    forall e | e in entries[..i] ensures e.name != name {
      var j :| 0 <= j < i && entries[j] == e;
    }
  }

  // ---- counter, owner, verification ----

  method CarryOver(src: Vault, dst: Vault, oldCounter: U64, ghost folders: seq<Text>, faulty: bool) returns (r: Result<()>)
    requires src != dst && src.Valid() && Ready(dst, folders)
    modifies dst
    ensures r.Failure? ==> r.error == Io || r.error == ManifestOverflow
    ensures r.Success? ==> old(|Print(dst.manifest)|) + |OwnerText(src.manifest.owner)| <= CHUNK_PLAINTEXT_LEN
    ensures r == Failure(ManifestOverflow) ==>
              old(|Print(dst.manifest)|) + |OwnerText(src.manifest.owner)| > CHUNK_PLAINTEXT_LEN
    ensures r.Success? ==> dst.Valid() && !dst.poisoned && dst.Erased() && dst.files == old(dst.files)
    ensures r.Success? ==> dst.manifest.entries == old(dst.manifest.entries) && dst.manifest.folders == folders
    ensures r.Success? ==> dst.manifest.owner == src.manifest.owner
    ensures r.Success? ==> dst.manifest.counter == Max(old(dst.manifest.counter), Min(oldCounter + 1, U64_MAX))
    ensures !faulty ==> r != Failure(Io)
  {
    hide Print, Parse, Keeps, Reopen, Layout, WindowSafe, Intact;
    var want: U64 := Min(oldCounter + 1, U64_MAX);
    var candidate := new Candidate(dst.manifest);
    var before := candidate.counter;
    if candidate.counter < want {
      candidate.counter := want;
    }
    candidate.owner := src.manifest.owner;
    CarriedIsReady(dst.geo, dst.manifest, src.geo, src.manifest, candidate.Value());
    var bytes := candidate.Serialize();
    if bytes.Failure? {
      return Failure(bytes.error);
    }
    NothingToShed(dst.geo, dst.manifest.entries);
    CounterJump(before, candidate.counter, dst.ticks);
    r := dst.DestructivePhase([], candidate.Value(), bytes.value, false, {}, dst.files, candidate.counter - before, faulty);
  }

  lemma CarriedIsReady(geo: Geometry, m: Manifest, srcGeo: Geometry, src: Manifest, m1: Manifest)
    requires Publishable(geo, m) && Publishable(srcGeo, src)
    requires m1 == m.(counter := m1.counter, owner := src.owner)
    ensures Layout(geo, m1.entries) && Canonical(m1)
    ensures Serialized(m1) == if |Print(m1)| > CHUNK_PLAINTEXT_LEN then Failure(ManifestOverflow) else Success(Print(m1))
    ensures m.owner == None ==> |Print(m1)| == |Print(m)| + |OwnerText(src.owner)|
  {
    hide Print;
    PrintedLen(m);
    PrintedLen(m1);
  }

  lemma CounterJump(before: U64, after: U64, ticks: nat)
    requires before <= after && before == ticks % (U64_MAX + 1)
    ensures after == (ticks + (after - before)) % (U64_MAX + 1)
  {}

  /** Re-reads one destination file and hashes it. */
  method HashFile(v: Vault, name: Text, size: U64, faulty: bool) returns (r: Result<Digest>)
    requires v.Valid() && name in v.files && |v.files[name]| <= size
    ensures r == Failure(Io) || r == Success(Digest(v.files[name]))
    ensures !faulty ==> r != Failure(Io)
  {
    hide Publishable, Keeps, Reopen, Window;
    FilesAreNamed(v, name);
    ghost var content := v.files[name];
    var fed: seq<Byte> := [];
    var off: U64 := 0;
    while off < size
      invariant off == |fed| <= size && CopiedSoFar(content, fed)
    {
      var buf := v.ReadFileRange(name, off, CHUNK_PLAINTEXT_LEN, faulty);
      if buf.Failure? {
        return Failure(buf.error);
      }
      NextWindow(content, fed, buf.value);
      if buf.value == [] {
        break;
      }
      fed := fed + buf.value;
      off := off + |buf.value|;
    }
    AllFed(content, fed);
    return Success(Digest(fed));
  }

  lemma AllFed(content: seq<Byte>, fed: seq<Byte>)
    requires CopiedSoFar(content, fed)
    ensures |fed| >= |content| ==> fed == content
  {}

  lemma NextWindow(content: seq<Byte>, fed: seq<Byte>, buf: seq<Byte>)
    requires CopiedSoFar(content, fed) && buf == Window(content, |fed|, CHUNK_PLAINTEXT_LEN)
    ensures CopiedSoFar(content, fed + buf) && (buf == [] <==> fed == content)
  {
    if |fed| < |content| {
      WindowIs(content, fed, buf);
    }
  }

  /** As many files as planned, each with its planned digest. */
  ghost predicate AsPlanned(entries: seq<FileEntry>, files: Files, plan: seq<Planned>) {
    && |entries| == |plan|
    && forall i | 0 <= i < |plan| :: plan[i].name in files && plan[i].digest == Digest(files[plan[i].name])
  }

  /** Every planned file is there and no longer than planned. */
  ghost predicate Within(files: Files, plan: seq<Planned>) {
    forall i | 0 <= i < |plan| :: plan[i].name in files && |files[plan[i].name]| <= plan[i].size
  }

  /** The verification pass over the destination: it succeeds exactly when every file is as planned. */
  method Verify(dst: Vault, plan: seq<Planned>, faulty: bool) returns (r: Result<()>)
    requires dst.Valid() && Within(dst.files, plan)
    ensures AsPlanned(dst.manifest.entries, dst.files, plan) ==> r == Failure(Io) || r == Success(())
    ensures !AsPlanned(dst.manifest.entries, dst.files, plan) ==> r == Failure(Io) || (r.Failure? && r.error.BadManifest?)
    ensures !faulty ==> r != Failure(Io)
  {
    hide Publishable, Keeps, Reopen;
    if |dst.manifest.entries| != |plan| {
      return Failure(BadManifest("destination file count mismatch"));
    }
    for i := 0 to |plan|
      invariant forall j | 0 <= j < i :: plan[j].digest == Digest(dst.files[plan[j].name])
    {
      var digest := HashFile(dst, plan[i].name, plan[i].size, faulty);
      if digest.Failure? {
        return Failure(digest.error);
      }
      if digest.value != plan[i].digest {
        return Failure(BadManifest("verification mismatch"));
      }
    }
    return Success(());
  }

  // ---- the whole migration ----

  /** The same names, folders and owner; every undamaged file with its content; the counter moved
      past the source's. */
  ghost predicate Migrated(src: Vault, dst: Vault, capacity: Capacity, report: Report)
    reads src, dst
  {
    var needed := Needed(src.manifest.entries);
    && dst.Valid() && !dst.poisoned && dst.Erased()
    && Whole(dst) && FilesCopied(src, src.manifest.entries, dst.files)
    && (Whole(src) ==> dst.files == src.files)
    && Names(dst.manifest.entries) == Names(src.manifest.entries)
    && FolderSet(dst.manifest) == FolderSet(src.manifest) == Members(dst.manifest.folders)
    && Ascending(dst.manifest.folders)
    && dst.manifest.owner == src.manifest.owner
    && dst.manifest.counter >= Min(src.manifest.counter + 1, U64_MAX)
    && report.oldCounter == src.manifest.counter && report.newCounter == dst.manifest.counter
    && report.files == |src.manifest.entries| && report.bytes == TotalSize(src.manifest.entries)
    && Resized(capacity, src.geo.total, needed, report.newTotalChunks)
    && dst.geo.total == Max(report.newTotalChunks, 2)
  }

  /** What each capacity asks for: the source's own; at most that, with a quarter of the data, or
      sixteen chunks, to spare if that makes it smaller; or the number given, if it suffices. */
  predicate Resized(capacity: Capacity, sourceTotal: nat, needed: nat, target: nat) {
    match capacity
    case Same => target == sourceTotal
    case ShrinkToFit =>
      var spare := target - 1 - needed;
      && target <= sourceTotal
      && (target < sourceTotal ==> spare == Max(needed / 4, 16))
      && (target == sourceTotal ==> spare <= Max(needed / 4, 16))
    case Exact(n) => target == n && needed < n
  }

  /** Folders, files, counter and owner of the source, into an empty destination with room for them. */
  method FillIn(src: Vault, dst: Vault, folders: seq<Text>, oldCounter: U64, faulty: bool) returns (r: Result<seq<Planned>>)
    requires src != dst && src.Valid() && Ascending(folders) && Members(folders) == FolderSet(src.manifest)
    requires Ready(dst, []) && dst.files == map[] && dst.manifest.entries == []
    requires Needed(src.manifest.entries) < dst.geo.total
    modifies dst
    ensures r.Failure? ==> r.error == Io || r.error == ManifestOverflow || !Whole(src)
    ensures r == Failure(ManifestOverflow) ==> PlannedLen(src.manifest) > CHUNK_PLAINTEXT_LEN
    ensures r.Success? ==>
              && dst.Valid() && !dst.poisoned && dst.Erased() && Whole(dst) && FilesCopied(src, src.manifest.entries, dst.files)
              && PlanMatches(r.value, src.manifest.entries, dst.files)
              && dst.manifest.folders == folders && dst.manifest.owner == src.manifest.owner
              && dst.manifest.counter >= Min(oldCounter + 1, U64_MAX)
    ensures r.Success? && Whole(src) ==> PlannedLen(src.manifest) <= CHUNK_PLAINTEXT_LEN
    ensures !faulty ==> r != Failure(Io)
  {
    hide Publishable, Keeps, Reopen, FolderSet, Names, Needed, Ascending, Members, Print, Copied, FilesCopied,
      PlanMatches, CopiedLen, PathsLen, Leftover, Vault.Erased;
    var f := CopyFolders(src, dst, folders, faulty);
    if f.Failure? {
      return Failure(f.error);
    }
    var plan := CopyAll(src, dst, folders, faulty);
    if plan.Failure? {
      return Failure(plan.error);
    }
    var c := CarryOver(src, dst, oldCounter, folders, faulty);
    if c.Failure? {
      return Failure(c.error);
    }
    return Success(plan.value);
  }

  /** Migrates an open source into a fresh vault. For an undamaged source the only failures are
      I/O, an exact capacity below the minimum, and a destination manifest that outgrows its
      chunk (the folder closure is stored explicitly); `Full` and a verification mismatch never
      happen. A file damaged by an earlier I/O failure may stop the migration with an error, or
      is copied as far as it reads. The source is not written. */
  method MigrateVault(src: Vault, newMaster: Key, numeral: Key -> nat, capacity: Capacity, faulty: bool)
    returns (r: Result<(Report, Vault)>)
    requires src.Valid()
    requires capacity.Exact? ==> capacity.chunks <= U32_MAX
    ensures r.Success? ==> fresh(r.value.1) && Migrated(src, r.value.1, capacity, r.value.0)
    ensures r.Success? && Whole(src) ==> PlannedLen(src.manifest) <= CHUNK_PLAINTEXT_LEN
    ensures r == Failure(ManifestOverflow) ==> PlannedLen(src.manifest) > CHUNK_PLAINTEXT_LEN
    ensures r.Failure? ==>
              || r.error == Io || r.error == ManifestOverflow || !Whole(src)
              || (capacity.Exact? && capacity.chunks <= Needed(src.manifest.entries) && r.error.BadManifest?)
    ensures capacity.Exact? && capacity.chunks <= Needed(src.manifest.entries) ==> r.Failure? && r.error.BadManifest?
    ensures !faulty ==> r != Failure(Io)
  {
    hide Publishable, Keeps, Reopen, FolderSet, Names, Needed, Ascending, Members, Print, Copied, FilesCopied,
      PlanMatches, AsPlanned, Within, PlannedLen, TotalSize, TargetChunks, Resized, Leftover, Vault.Erased;
    var entries := src.manifest.entries;
    var listed := src.ListFolders();
    ListedIsText(src, listed);
    var folders: seq<Text> := listed;
    var oldCounter := src.manifest.counter;
    var used := CountNeeded(entries);
    RoomForAll(src, capacity);
    var target := TargetChunks(capacity, used, src.geo.total);
    if target.Failure? {
      return Failure(target.error);
    }
    var built := BuildVault(newMaster, numeral, target.value, None, faulty);
    if built.Failure? {
      return Failure(built.error);
    }
    var dst := built.value;
    NoNames(dst.manifest.entries);
    var plan := FillIn(src, dst, folders, oldCounter, faulty);
    if plan.Failure? {
      return Failure(plan.error);
    }
    SameNamesSameLength(src, dst);
    PlanIsMet(plan.value, entries, dst);
    var v := Verify(dst, plan.value, faulty);
    if v.Failure? {
      return Failure(v.error);
    }
    var syncFails: bool := *;
    if faulty && syncFails {
      return Failure(Io);
    }
    ListedIsClosure(src.manifest, dst.manifest);
    var total := TotalBytes(plan.value, entries, dst.files);
    return Success((Report(|entries|, total, oldCounter, dst.manifest.counter, target.value), dst));
  }

  lemma ListedIsText(src: Vault, listed: seq<seq<Byte>>)
    requires src.Valid() && Members(listed) == FolderSet(src.manifest)
    ensures forall p | p in listed :: Utf8(p)
  {
    hide Publishable, Keeps, Reopen, FolderSet, Normalized, Utf8;
    SourceTexts(src);
    forall p | p in listed ensures Utf8(p) {
      assert p in Members(listed);
      ReportedIsNormal(src.manifest, p);
    }
  }

  lemma ListedIsClosure(m: Manifest, m': Manifest)
    requires Names(m'.entries) == Names(m.entries) && Members(m'.folders) == FolderSet(m)
    ensures FolderSet(m') == FolderSet(m)
  {
    hide FolderSet, Names;
    assert forall p: seq<Byte> :: p in m'.folders <==> p in Members(m'.folders);
    ClosureIsIdempotent(m, m');
  }

  function TotalSize(entries: seq<FileEntry>): nat {
    if entries == [] then 0 else TotalSize(entries[..|entries| - 1]) + entries[|entries| - 1].size
  }

  /** The bytes of files together are those of each. */
  lemma {:induction false} TotalIsSum(a: seq<FileEntry>, b: seq<FileEntry>, e: FileEntry)
    ensures TotalSize(a + b) == TotalSize(a) + TotalSize(b) && TotalSize([e]) == e.size
    decreases |b|
  {
    assert [e][..0] == [];
    if b == [] {
      assert a + b == a;
    } else {
      assert (a + b)[..|a + b| - 1] == a + b[..|b| - 1];
      TotalIsSum(a, b[..|b| - 1], e);
    }
  }

  method TotalBytes(plan: seq<Planned>, ghost entries: seq<FileEntry>, ghost files: Files) returns (total: nat)
    requires PlanMatches(plan, entries, files)
    ensures total == TotalSize(entries)
  {
    total := 0;
    for i := 0 to |plan|
      invariant total == TotalSize(entries[..i])
    {
      assert entries[..i + 1][..i] == entries[..i];
      total := total + plan[i].size;
    }
    assert entries[..|plan|] == entries;
  }

  lemma NoNames(entries: seq<FileEntry>)
    requires entries == []
    ensures Names(entries) == {}
  {}

  /** Every accepted target exceeds what the files need; only a too small exact one is refused. */
  lemma RoomForAll(src: Vault, capacity: Capacity)
    requires src.Valid()
    ensures var used := Needed(src.manifest.entries);
            var target := TargetChunks(capacity, used, src.geo.total);
            && (target.Success? ==> used < target.value)
            && (target.Failure? ==> target.error.BadManifest?)
            && (target.Success? ==> Resized(capacity, src.geo.total, used, target.value))
            && (target.Failure? <==> capacity.Exact? && capacity.chunks <= used)
            && (target.Success? && src.geo.total <= U32_MAX && (capacity.Exact? ==> capacity.chunks <= U32_MAX)
                ==> target.value <= U32_MAX)
  {
    hide Publishable, Keeps, Reopen, Layout, Free;
    PublishedLayout(src.geo, src.manifest);
    NeededFits(src.geo, src.manifest.entries);
    FreeIsExact(src.geo, src.manifest.entries);
  }

  lemma NamesSnoc(front: seq<FileEntry>, last: FileEntry)
    ensures Names(front + [last]) == Names(front) + {last.name}
  {
    assert last in front + [last];
    forall n | n in Names(front) ensures n in Names(front + [last]) {
      var e :| e in front && e.name == n;
      assert e in front + [last];
    }
  }

  lemma LastIsNew(front: seq<FileEntry>, last: FileEntry)
    requires UniqueNames(front + [last])
    ensures UniqueNames(front) && last.name !in Names(front)
  {
    var entries := front + [last];
    assert forall i | 0 <= i < |front| :: entries[i] == front[i];
    forall e | e in front ensures e.name != last.name {
      var j :| 0 <= j < |front| && front[j] == e;
      assert entries[j] == e && entries[|front|] == last;
    }
  }

  lemma {:induction false} NamesSize(entries: seq<FileEntry>)
    requires UniqueNames(entries)
    ensures |Names(entries)| == |entries|
  {
    hide Names, UniqueNames;
    if entries != [] {
      var last := entries[|entries| - 1];
      var front := entries[..|entries| - 1];
      assert entries == front + [last];
      LastIsNew(front, last);
      NamesSize(front);
      NamesSnoc(front, last);
    } else {
      NoNames(entries);
    }
  }

  lemma SameNamesSameLength(src: Vault, dst: Vault)
    requires src.Valid() && dst.Valid() && Whole(dst) && FilesCopied(src, src.manifest.entries, dst.files)
    ensures |dst.manifest.entries| == |src.manifest.entries|
    ensures Names(dst.manifest.entries) == Names(src.manifest.entries)
    ensures Whole(src) ==> dst.files == src.files
  {
    hide Publishable, Keeps, Reopen, Layout, Reproduced;
    PublishedLayout(src.geo, src.manifest);
    PublishedLayout(dst.geo, dst.manifest);
    LayoutUnique(src.geo, src.manifest.entries);
    LayoutUnique(dst.geo, dst.manifest.entries);
    NamesSize(src.manifest.entries);
    NamesSize(dst.manifest.entries);
    if Whole(src) {
      SameFiles(src, src.manifest.entries, dst.files);
    }
  }

  lemma SameFiles(src: Vault, entries: seq<FileEntry>, files: Files)
    requires FilesCopied(src, entries, files) && src.files.Keys == Names(entries)
    ensures files == src.files
  {
    forall n | n in files ensures n in src.files && files[n] == src.files[n] {
      var e :| e in entries && e.name == n;
    }
  }

  lemma PlanIsMet(plan: seq<Planned>, entries: seq<FileEntry>, dst: Vault)
    requires PlanMatches(plan, entries, dst.files) && |dst.manifest.entries| == |entries|
    ensures Within(dst.files, plan) && AsPlanned(dst.manifest.entries, dst.files, plan)
  {}
}
