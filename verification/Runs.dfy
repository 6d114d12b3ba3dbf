/** Whole runs: any sequence of mutations, with I/O failures striking anywhere, against a
    plain map from names to contents. */
module Runs {
  import opened Bytes
  import opened Texts
  import opened Wrappers
  import opened Manifests
  import opened Chunks
  import opened Store
  import opened Splices
  import opened VaultSpec
  import opened Erasure
  import opened RenameSpec
  import opened WriteSpec
  import opened TruncateSpec
  import opened Folders
  import opened FolderSpec
  import opened Vaults

  type State = map<Text, Content>

  datatype Op =
    | Add(name: Text, content: seq<Byte>)
    | Create(name: Text)
    | CreateExclusive(name: Text)
    | Write(name: Text, offset: U64, data: seq<Byte>)
    | Truncate(name: Text, size: U64)
    | Rename(from: Text, to: Text)
    | Delete(name: Text)
    | MakeFolder(path: Text)
    | RemoveFolder(path: Text)
    | MoveFolder(oldPath: Text, newPath: Text)

  /** A buffer in memory is shorter than 2^64 bytes. */
  predicate Sized(op: Op) {
    match op
    case Add(_, content) => |content| <= U64_MAX
    case Write(_, _, data) => |data| <= U64_MAX
    case _ => true
  }

  // ---- the reference model ----

  function Mapped(c: Content, f: seq<Byte> -> seq<Byte>): Content {
    match c
    case Known(b) => Known(f(b))
    case Damaged => Damaged
  }

  function Targets(names: set<Text>, f: Text, t: Text): set<Text> {
    set n | n in names :: Moved(n, f, t)
  }

  ghost function SourceOf(s: State, f: Text, t: Text, target: Text): Content
    requires target in Targets(s.Keys, f, t)
  {
    var n :| n in s && Moved(n, f, t) == target;
    s[n]
  }

  /** The contents after moving folder f to t: under each new name, those of the file moved there. */
  ghost function MovedState(s: State, f: Text, t: Text): State {
    var targets := Targets(s.Keys, f, t);
    map target | target in targets :: SourceOf(s, f, t, target)
  }

  /** The operation on a plain map. */
  ghost function Apply(s: State, op: Op): State {
    match op
    case Add(name, content) => s[name := Known(content)]
    case Create(name) => if name in s then s else s[name := Known([])]
    case CreateExclusive(name) => s[name := Known([])]
    case Write(name, offset, data) =>
      if data == [] || name !in s then s else s[name := Mapped(s[name], b => Splice(b, offset, data))]
    case Truncate(name, size) =>
      if name !in s then s else s[name := Mapped(s[name], b => Truncated(b, size))]
    case Rename(from, to) => if from == to || from !in s then s else (s - {from, to})[to := s[from]]
    case Delete(name) => s - {name}
    case MakeFolder(_) => s
    case RemoveFolder(path) =>
      (match Normalized(path)
       case None => s
       case Some(folder) => map n | n in s && !Under(n, folder) :: s[n])
    case MoveFolder(oldPath, newPath) =>
      if Normalized(oldPath).None? || Normalized(newPath).None? || Normalized(oldPath) == Normalized(newPath) then s
      else MovedState(s, Normalized(oldPath).value, Normalized(newPath).value)
  }

  /** The names whose contents an I/O failure in the operation may damage. */
  predicate Endangers(op: Op, name: Text) {
    match op
    case Add(n, _) => name == n
    case Write(n, _, _) => name == n
    case Truncate(n, _) => name == n
    case Rename(_, to) => name == to
    case Delete(n) => name == n
    case RemoveFolder(path) =>
      (match Normalized(path)
       case None => false
       case Some(folder) => Under(name, folder))
    case _ => false
  }

  function DamagedBy(s: State, op: Op): State {
    map n | n in s :: if Endangers(op, n) then Damaged else s[n]
  }

  ghost predicate PartlyGrown(s: State, op: Op, s': State) {
    && op.Truncate? && op.name in s && s[op.name].Known?
    && exists j: nat | |s[op.name].bytes| + j < op.size && j % GROW_WINDOW == 0 ::
         s' == s[op.name := Known(s[op.name].bytes + Zeros(j))]
  }

  /** The complete result of an operation, or of the windows of a growth so far. */
  ghost predicate Completes(s: State, op: Op, s': State) {
    s' == Apply(s, op) || PartlyGrown(s, op, s')
  }

  /** What a call may do to the contents, by its outcome. */
  ghost predicate Lawful(s: State, op: Op, r: Result<()>, s': State) {
    match r
    case Success(_) => s' == Apply(s, op)
    case Failure(e) =>
      || s' == s
      || PartlyGrown(s, op, s')
      || (e == Io && s' == Apply(s, op))
      || (e == Io && s' == DamagedBy(s, op))
  }

  /** The names an operation writes, displaces, moves or deletes. */
  predicate Changes(op: Op, name: Text) {
    match op
    case Rename(from, to) => name == from || name == to
    case MoveFolder(oldPath, _) =>
      (match Normalized(oldPath)
       case None => false
       case Some(folder) => Under(name, folder))
    case _ => Endangers(op, name)
  }

  function Unchanged(files: Files, op: Op): Files {
    map n | n in files && !Changes(op, n) :: files[n]
  }

  predicate Within(fewer: Files, files: Files) {
    fewer.Keys <= files.Keys && forall n | n in fewer :: fewer[n] == files[n]
  }

  lemma WindowKeeps(geo: Geometry, image: seq<Cell>, m0: Manifest, files0: Files, m1: Manifest, files1: Files,
                    touched: set<Text>, displaced: set<int>, kept: Files)
    requires WindowSafe(geo, image, m0, files0, m1, files1, touched, displaced)
    requires Within(kept, files0 - touched) && Within(kept, files1)
    ensures StillReads(geo, image, kept)
  {
    hide Intact, StillReads;
    if Intact(geo, image, m0, files0) {
      IntactFewer(geo, image, m0, files0, kept);
    } else if Intact(geo, image, m1, files1) {
      IntactFewer(geo, image, m1, files1, kept);
    } else {
      IntactFewer(geo, image, m0, files0 - touched, kept);
    }
  }

  lemma OverwriteKeeps(geo: Geometry, image: seq<Cell>, m0: Manifest, files0: Files, m1: Manifest, files1: Files,
                       touched: set<Text>, kept: Files)
    requires OverwriteSafe(geo, image, m0, files0, m1, files1, touched)
    requires Within(kept, files0 - touched) && Within(kept, files1)
    ensures StillReads(geo, image, kept)
  {
    hide Intact, StillReads;
    if Intact(geo, image, m1, files1) {
      IntactFewer(geo, image, m1, files1, kept);
    } else {
      IntactFewer(geo, image, m0, files0 - touched, kept);
    }
  }

  lemma AllWindowsKeep(geo: Geometry, images: seq<seq<Cell>>, from: nat, m0: Manifest, files0: Files, m1: Manifest,
                       files1: Files, kept: Files)
    requires forall k | from <= k < |images| :: WindowSafe(geo, images[k], m0, files0, m1, files1, {}, {})
    requires Within(kept, files0) && Within(kept, files1)
    ensures forall k | from <= k < |images| :: StillReads(geo, images[k], kept)
  {
    hide WindowSafe, StillReads;
    assert files0 - {} == files0;
    forall k | from <= k < |images| ensures StillReads(geo, images[k], kept) {
      WindowKeeps(geo, images[k], m0, files0, m1, files1, {}, {}, kept);
    }
  }

  /** A session between two calls, as far as a run is concerned; `pending` and `arrived` are the
      manifest and contents that the mutation which poisoned it was about to publish. */
  datatype Moment = Moment(geo: Geometry, state: State, files: Files, disk: seq<Cell>, manifest: Manifest, poisoned: bool,
                           ticks: nat, pending: Manifest, arrived: Files) {
    ghost function Next(): State {
      ViewOf(Names(pending.entries), arrived)
    }
  }

  ghost function Now(v: Vault): Moment
    reads v
  {
    Moment(v.geo, v.View(), v.files, v.disk, v.manifest, v.poisoned, v.ticks, v.successor, v.arrived)
  }

  /** An I/O failure in add_file may damage the file it overwrites, if that has chunks. */
  ghost predicate Overwrote(a: Moment, op: Op, b: Moment) {
    && op.Add? && op.name in a.state && ChunkList(a.manifest.entries, op.name) != []
    && b.manifest == a.manifest && b.state == DamagedBy(a.state, op)
  }

  /** A growing truncate that failed may have committed windows; the file is the only one it touched. */
  ghost predicate GrewWindows(a: Moment, op: Op, b: Moment) {
    && op.Truncate? && op.name in a.state && OnlyTouched(a.manifest, b.manifest, op.name) && a.ticks < b.ticks
    && SizeOf(a.manifest, op.name) + GROW_WINDOW < op.size
    && (b.state == a.state || PartlyGrown(a.state, op, b.state))
  }

  /** What a step does to the contents: its lawful effect; that a failure which does not poison
      leaves manifest and contents alone, but for two exceptions; when it may poison; what the
      counter does; and that a poisoned session does nothing. */
  ghost predicate Stepped(a: Moment, op: Op, r: Result<()>, b: Moment) {
    && b.geo == a.geo
    && Lawful(a.state, op, r, b.state)
    && (r.Failure? && !b.poisoned ==>
          || (b.manifest == a.manifest && b.state == a.state && b.files == a.files)
          || (r == Failure(Io) && Overwrote(a, op, b))
          || GrewWindows(a, op, b))
    && (a.poisoned ==> r == Failure(SessionPoisoned) && b == a)
    && (b.poisoned && !a.poisoned ==> r == Failure(Io) && Completes(a.state, op, b.Next()))
    && a.ticks <= b.ticks && (a.ticks == b.ticks ==> a.manifest == b.manifest)
  }

  // ---- refusals, folders and leftovers ----

  /** Why a call is refused, told from the manifest before it. */
  function Refusal(geo: Geometry, m: Manifest, poisoned: bool, op: Op): Option<FormatError> {
    match op
    case Add(name, content) => AddRefusal(geo, m, poisoned, name, |content|)
    case Create(name) => CreateRefusal(m, poisoned, name, false)
    case CreateExclusive(name) => CreateRefusal(m, poisoned, name, true)
    case Write(name, offset, data) => WriteRefusal(geo, m, poisoned, name, offset, |data|)
    case Truncate(name, size) => TruncateRefusal(geo, m, poisoned, name, size)
    case Rename(from, to) => RenameRefusal(m, poisoned, from, to)
    case Delete(name) => DeleteRefusal(m, poisoned, name)
    case MakeFolder(path) => CreateFolderRefusal(m, poisoned, path)
    case RemoveFolder(path) => DeleteFolderRefusal(poisoned, path)
    case MoveFolder(oldPath, newPath) => RenameFolderRefusal(m, poisoned, oldPath, newPath)
  }

  /** The operation does not have to read a file that an earlier I/O failure damaged. */
  predicate Sound(s: State, op: Op) {
    match op
    case Write(name, _, _) => name in s ==> s[name].Known?
    case Truncate(name, _) => name in s ==> s[name].Known?
    case _ => true
  }

  /** The answer of a call: the refusal told beforehand, and otherwise success, unless an I/O
      failure struck or a damaged file had to be read. A truncate can meet either before it is
      refused for want of room. */
  ghost predicate Answered(a: Moment, op: Op, r: Result<()>) {
    var refusal := Refusal(a.geo, a.manifest, a.poisoned, op);
    || r == Verdict(refusal)
    || (CanStart(a, op) && (r == Failure(Io) || (!Sound(a.state, op) && (op.Truncate? || r.Failure?))))
  }

  /** The call gets as far as the device. */
  predicate CanStart(a: Moment, op: Op) {
    if op.Truncate? then TruncateGuard(a.manifest, a.poisoned, op.name).None?
    else Refusal(a.geo, a.manifest, a.poisoned, op).None?
  }

  /** The explicit folders after the operation. */
  function Filed(folders: seq<Text>, op: Op): seq<Text> {
    match op
    case MakeFolder(path) =>
      (match Normalized(path)
       case None => folders
       case Some(f) => if f in folders then folders else folders + [f])
    case RemoveFolder(path) =>
      (match Normalized(path)
       case None => folders
       case Some(f) => Retained(folders, f))
    case MoveFolder(oldPath, newPath) =>
      if Normalized(oldPath).None? || Normalized(newPath).None? || Normalized(oldPath) == Normalized(newPath) then folders
      else MovedFolders(folders, Normalized(oldPath).value, Normalized(newPath).value)
    case _ => folders
  }

  predicate SameFiling(m0: Manifest, m1: Manifest, folders: seq<Text>) {
    m1.folders == folders && m1.owner == m0.owner && m1.childSlots == m0.childSlots
  }

  /** What a step does to explicit folders, owner and child slots. */
  ghost predicate Filing(a: Moment, op: Op, r: Result<()>, b: Moment) {
    var after := Filed(a.manifest.folders, op);
    && (|| SameFiling(a.manifest, b.manifest, a.manifest.folders)
        || ((r.Success? || b.poisoned) && SameFiling(a.manifest, b.manifest, after)))
    && (r.Success? ==> SameFiling(a.manifest, b.manifest, after))
    && (b.poisoned && !a.poisoned ==> SameFiling(a.manifest, b.pending, after))
  }

  /** Free chunks stay noise: after a success, and after a refusal that did not have to read a
      damaged file. */
  ghost predicate Wipes(a: Moment, op: Op, r: Result<()>, b: Moment) {
    r.Success? || (r != Failure(Io) && Sound(a.state, op)) ==> Scrubbed(a.geo, a.manifest, a.disk, b.manifest, b.disk)
  }

  ghost predicate Accounted(a: Moment, op: Op, r: Result<()>, b: Moment) {
    Answered(a, op, r) && Filing(a, op, r, b) && Wipes(a, op, r, b)
  }

  lemma UpsertedFiling(m: Manifest, e: FileEntry)
    ensures SameFiling(m, Upserted(m, e), m.folders)
  {}

  lemma RenamedFiling(m: Manifest, from: Text, to: Text)
    requires Find(m.entries, from).Some?
    ensures SameFiling(m, Renamed(m, from, to), m.folders)
  {}

  lemma RemovedFiling(m: Manifest, name: Text)
    ensures SameFiling(m, Removed(m, name), m.folders)
  {}

  // ---- how the file map and the view move together ----

  lemma ViewSet(names: set<Text>, files: Files, name: Text, content: seq<Byte>)
    ensures ViewOf(names + {name}, files[name := content]) == ViewOf(names, files)[name := Known(content)]
  {}

  lemma ViewAdded(names: set<Text>, files: Files, name: Text, content: seq<Byte>)
    ensures Apply(ViewOf(names, files), Add(name, content)) == ViewOf(names + {name}, files[name := content])
  {}

  lemma ViewNames(names: set<Text>, files: Files)
    ensures ViewOf(names, files).Keys == names
  {}

  lemma ViewLostOne(names: set<Text>, files: Files, op: Op, name: Text)
    requires forall n :: Endangers(op, n) <==> n == name
    ensures ViewOf(names, files - {name}) == DamagedBy(ViewOf(names, files), op)
  {}

  lemma ViewWritten(names: set<Text>, files: Files, name: Text, offset: U64, data: seq<Byte>)
    requires name in names && data != []
    ensures ViewOf(names, WrittenFiles(files, name, offset, data)) == Apply(ViewOf(names, files), Write(name, offset, data))
  {}

  lemma ViewTruncated(names: set<Text>, files: Files, name: Text, size: U64)
    requires name in names
    ensures ViewOf(names, TruncatedFiles(files, name, size)) == Apply(ViewOf(names, files), Truncate(name, size))
  {}

  lemma ViewGrown(names: set<Text>, files: Files, name: Text, size: U64, now: nat, least: nat, most: int, files': Files)
    requires name in names && files.Keys <= names && (name in files ==> |files[name]| == now)
    requires GrownPartly(files, name, least, most, size - now, files') && most <= size - now
    ensures var s, s', op := ViewOf(names, files), ViewOf(names, files'), Truncate(name, size);
            && (s' == s || PartlyGrown(s, op, s') || (most == size - now && s' == Apply(s, op)))
            && (least > 0 ==> Completes(s, op, s'))
    ensures name !in files ==> ViewOf(names, files') == ViewOf(names, files)
  {
    ViewTruncated(names, files, name, size);
    var j: nat :| least <= j <= most && Boundary(j, size - now) && files' == GrownFiles(files, name, j);
    if name in files {
      var s := ViewOf(names, files);
      assert ViewOf(names, files') == s[name := Known(s[name].bytes + Zeros(j))];
      if j == size - now {
        if j == 0 {
          assert files[name] + Zeros(0) == files[name];
        }
        TruncatedIs(files, name, now, size);
      }
    }
  }

  lemma RemainingIs(geo: Geometry, disk: seq<Cell>, m: Manifest, files: Files, name: Text)
    ensures Remaining(geo, disk, m, files, name) in {files, files - {name}}
  {
    hide Holds;
  }

  lemma TouchedIsNamed(m0: Manifest, m1: Manifest, name: Text)
    ensures OnlyTouched(m0, m1, name) ==> name in Names(m1.entries)
  {}

  lemma PartlyBounds(files: Files, name: Text, least: nat, most: int, total: int, files': Files)
    requires GrownPartly(files, name, least, most, total, files')
    ensures least <= most
    ensures 0 < least && most < total ==> GROW_WINDOW <= most
  {}

  lemma AbsentName(files: Files, name: Text, size: U64, least: nat, most: int, total: int, files': Files)
    requires name !in files
    ensures TruncatedFiles(files, name, size) == files == files - {name}
    ensures GrownPartly(files, name, least, most, total, files') ==> files' == files
  {}

  lemma ViewRenamed(names: set<Text>, files: Files, from: Text, to: Text)
    requires from in names && from != to
    ensures ViewOf(names - {from} + {to}, RenamedFiles(files, from, to)) == Apply(ViewOf(names, files), Rename(from, to))
  {}

  lemma ViewDeleted(names: set<Text>, files: Files, name: Text)
    ensures ViewOf(names - {name}, files - {name}) == Apply(ViewOf(names, files), Delete(name))
  {}

  lemma FoundIsNamed(entries: seq<FileEntry>, name: Text)
    ensures Find(entries, name).Some? <==> name in Names(entries)
  {}

  lemma SizesKnown(v: Vault, name: Text)
    requires v.Valid()
    ensures v.files.Keys <= Names(v.manifest.entries)
    ensures name in v.files ==> |v.files[name]| == SizeOf(v.manifest, name)
  {
    if name in v.files {
      var e := Find(v.manifest.entries, name).value;
      SizesAgree(v.geo, v.disk, v.manifest, v.files, e);
    }
  }

  lemma SoundManifest(v: Vault)
    requires v.Valid()
    ensures Publishable(v.geo, v.manifest)
  {}

  lemma OnlyOne(files: Files, op: Op, name: Text, after: Files)
    requires forall n :: Changes(op, n) <==> n == name
    requires after - {name} == files - {name} || after == files - {name}
    ensures Within(Unchanged(files, op), files - {name}) && Within(Unchanged(files, op), after)
  {
    assert Unchanged(files, op) == files - {name};
    forall n | n in files - {name} ensures n in after && after[n] == files[n] {
      if after - {name} == files - {name} {
        assert n in after - {name} && (after - {name})[n] == (files - {name})[n];
      }
    }
  }

  lemma TwoNames(files: Files, from: Text, to: Text, after: Files)
    requires after == files || after == files - {to} || after == RenamedFiles(files, from, to)
    ensures Within(Unchanged(files, Rename(from, to)), files - {to}) && Within(Unchanged(files, Rename(from, to)), after)
  {}

  lemma SameName(s: State, name: Text)
    ensures Apply(s, Rename(name, name)) == s
  {}

  lemma NothingWritten(s: State, name: Text, offset: U64)
    ensures Apply(s, Write(name, offset, [])) == s
  {}

  lemma SameNames(m0: Manifest, m1: Manifest)
    requires m1.entries == m0.entries
    ensures Names(m1.entries) == Names(m0.entries)
  {}

  lemma WithinItself(files: Files, op: Op)
    ensures Within(Unchanged(files, op), files)
  {}

  lemma WholeKept(files: Files, op: Op)
    requires op.MakeFolder?
    ensures Within(Unchanged(files, op), files)
  {}

  lemma DeletedNames(m0: Manifest, m1: Manifest, f: Text)
    requires FolderDeleted(m0, m1, f)
    ensures forall n :: n in Names(m1.entries) <==> n in Names(m0.entries) && !Under(n, f)
  {
    hide Under;
    forall n ensures n in Names(m1.entries) <==> n in Names(m0.entries) && !Under(n, f) {
      if n in Names(m0.entries) && !Under(n, f) {
        var e :| e in m0.entries && e.name == n;
        assert e in m1.entries;
      }
    }
  }

  lemma ViewSpared(m0: Manifest, m1: Manifest, files: Files, path: Text)
    requires Normalized(path).Some?
    ensures var f := Normalized(path).value;
            var s := ViewOf(Names(m0.entries), files);
            && (FolderDeleted(m0, m1, f) ==> ViewOf(Names(m1.entries), Spared(files, f)) == Apply(s, RemoveFolder(path)))
            && ViewOf(Names(m0.entries), Spared(files, f)) == DamagedBy(s, RemoveFolder(path))
            && Unchanged(files, RemoveFolder(path)) == Spared(files, f)
  {
    hide Normalized, Under, Names, FolderDeleted, ViewOf, Apply, DamagedBy, Unchanged, Spared;
    var f := Normalized(path).value;
    if FolderDeleted(m0, m1, f) {
      DeletedNames(m0, m1, f);
      ViewOfSpared(Names(m0.entries), Names(m1.entries), files, path);
    }
    SparedIs(Names(m0.entries), files, path);
  }

  lemma ViewOfSpared(names: set<Text>, left: set<Text>, files: Files, path: Text)
    requires Normalized(path).Some?
    requires forall n :: n in left <==> n in names && !Under(n, Normalized(path).value)
    ensures ViewOf(left, Spared(files, Normalized(path).value)) == Apply(ViewOf(names, files), RemoveFolder(path))
  {
    hide Normalized, Under;
  }

  lemma SparedIs(names: set<Text>, files: Files, path: Text)
    requires Normalized(path).Some?
    ensures ViewOf(names, Spared(files, Normalized(path).value)) == DamagedBy(ViewOf(names, files), RemoveFolder(path))
    ensures Unchanged(files, RemoveFolder(path)) == Spared(files, Normalized(path).value)
  {
    hide Normalized, Under;
  }

  lemma MovedNamesAre(entries: seq<FileEntry>, f: Text, t: Text)
    ensures Names(MovedEntries(entries, f, t)) == Targets(Names(entries), f, t)
  {
    hide Moved;
    var r := MovedEntries(entries, f, t);
    forall n | n in Names(r) ensures n in Targets(Names(entries), f, t) {
      var e :| e in r && e.name == n;
      var i :| 0 <= i < |r| && r[i] == e;
      assert entries[i] in entries && entries[i].name in Names(entries);
    }
    forall n | n in Targets(Names(entries), f, t) ensures n in Names(r) {
      var o :| o in Names(entries) && Moved(o, f, t) == n;
      var e :| e in entries && e.name == o;
      var i :| 0 <= i < |entries| && entries[i] == e;
      assert r[i] in r;
    }
  }

  lemma ViewMoved(m: Manifest, files: Files, f: Text, t: Text)
    requires UniqueNames(MovedEntries(m.entries, f, t))
    ensures ViewOf(Names(FolderRenamed(m, f, t).entries), MovedFiles(m.entries, files, f, t))
         == MovedState(ViewOf(Names(m.entries), files), f, t)
  {
    hide Moved, UniqueNames, MovedEntries, MovedFiles, SourceOf, Names;
    var s := ViewOf(Names(m.entries), files);
    MovedNamesAre(m.entries, f, t);
    var after := MovedFiles(m.entries, files, f, t);
    forall target | target in Targets(s.Keys, f, t)
      ensures SourceOf(s, f, t, target) == if target in after then Known(after[target]) else Damaged
    {
      MovedSource(m.entries, files, f, t, target);
    }
  }

  lemma MovedSource(entries: seq<FileEntry>, files: Files, f: Text, t: Text, target: Text)
    requires UniqueNames(MovedEntries(entries, f, t))
    requires target in Targets(ViewOf(Names(entries), files).Keys, f, t)
    ensures var after := MovedFiles(entries, files, f, t);
            SourceOf(ViewOf(Names(entries), files), f, t, target)
            == if target in after then Known(after[target]) else Damaged
  {
    hide Moved, UniqueNames, MovedEntries;
    var s := ViewOf(Names(entries), files);
    MovedTargetsDiffer(entries, f, t);
    var n :| n in s && Moved(n, f, t) == target && SourceOf(s, f, t, target) == s[n];
    var e :| e in entries && e.name == n;
    assert e.name in files ==> target in MovedFiles(entries, files, f, t);
  }

  lemma MovedFileAt(entries: seq<FileEntry>, files: Files, f: Text, t: Text, n: Text)
    requires UniqueNames(MovedEntries(entries, f, t)) && n in files && n in Names(entries) && !Under(n, f)
    ensures n in MovedFiles(entries, files, f, t) && MovedFiles(entries, files, f, t)[n] == files[n]
  {
    hide UniqueNames, MovedEntries, Under;
    MovedTargetsDiffer(entries, f, t);
    var e :| e in entries && e.name == n;
    assert Moved(e.name, f, t) == n;
  }

  lemma MovedKept(m: Manifest, files: Files, oldPath: Text, newPath: Text)
    requires Normalized(oldPath).Some? && Normalized(newPath).Some? && files.Keys <= Names(m.entries)
    requires UniqueNames(MovedEntries(m.entries, Normalized(oldPath).value, Normalized(newPath).value))
    ensures Within(Unchanged(files, MoveFolder(oldPath, newPath)),
                   MovedFiles(m.entries, files, Normalized(oldPath).value, Normalized(newPath).value))
  {
    hide Normalized, UniqueNames, Under, MovedFiles, MovedEntries, Names, Moved;
    var f, t := Normalized(oldPath).value, Normalized(newPath).value;
    var after := MovedFiles(m.entries, files, f, t);
    forall n | n in files && !Under(n, f) ensures n in after && after[n] == files[n] {
      MovedFileAt(m.entries, files, f, t, n);
    }
  }

  lemma DeletedFiling(m0: Manifest, m1: Manifest, path: Text)
    requires Normalized(path).Some?
    ensures FolderDeleted(m0, m1, Normalized(path).value) ==>
              SameFiling(m0, m1, Filed(m0.folders, RemoveFolder(path)))
  {}

  lemma AddFiling(geo: Geometry, m0: Manifest, m1: Manifest, name: Text, len: nat)
    ensures SameFiling(m0, m0, m0.folders)
    ensures Added(geo, m0, m1, name, len) ==> SameFiling(m0, m1, m0.folders)
  {}

  lemma TouchFiling(m0: Manifest, m1: Manifest, name: Text)
    ensures SameFiling(m0, m0, m0.folders)
    ensures OnlyTouched(m0, m1, name) ==> SameFiling(m0, m1, m0.folders)
  {}

  /** What an operation of one destructive phase promises, between two moments: `next` is its
      candidate, `after` the contents it stands for, `touched` the files it gives up. */
  ghost predicate Phased(a: Moment, r: Result<()>, b: Moment, next: Manifest, after: Files, touched: set<Text>) {
    && b.geo == a.geo
    && (|| (r != Failure(Io) && b == a)
        || (r.Success? && !b.poisoned && b.manifest == next && b.files == after && a.ticks < b.ticks
            && Scrubbed(a.geo, a.manifest, a.disk, b.manifest, b.disk))
        || (r == Failure(Io) && b.poisoned && b.pending == next && b.arrived == after
            && (|| (b.manifest == a.manifest && b.files == a.files - touched && b.ticks == a.ticks)
                || (b.manifest == next && b.files == after && a.ticks < b.ticks))))
  }

  lemma PhasedSteps(a: Moment, op: Op, r: Result<()>, b: Moment, next: Manifest, after: Files, touched: set<Text>)
    requires !a.poisoned && Phased(a, r, b, next, after, touched) && Answered(a, op, r)
    requires a.state == ViewOf(Names(a.manifest.entries), a.files)
    requires b.state == ViewOf(Names(b.manifest.entries), b.files)
    requires b != a ==>
               && ViewOf(Names(next.entries), after) == Apply(a.state, op)
               && ViewOf(Names(a.manifest.entries), a.files - touched) == DamagedBy(a.state, op)
               && SameFiling(a.manifest, next, Filed(a.manifest.folders, op))
    requires r.Success? && b == a ==> Apply(a.state, op) == a.state && Filed(a.manifest.folders, op) == a.manifest.folders
    ensures Stepped(a, op, r, b) && Accounted(a, op, r, b)
  {
    hide Apply, DamagedBy, ViewOf, Names, Filed, Scrubbed, Answered, PartlyGrown;
    ScrubbedSame(a.geo, a.manifest, a.disk);
  }

  lemma MovedFiling(m: Manifest, oldPath: Text, newPath: Text)
    requires Normalized(oldPath).Some? && Normalized(newPath).Some? && Normalized(oldPath) != Normalized(newPath)
    ensures SameFiling(m, FolderRenamed(m, Normalized(oldPath).value, Normalized(newPath).value),
                       Filed(m.folders, MoveFolder(oldPath, newPath)))
  {
    hide Normalized, MovedEntries, MovedFolders;
  }

  lemma MadeFiling(m: Manifest, path: Text)
    requires Normalized(path).Some?
    ensures Normalized(path).value !in m.folders ==>
              SameFiling(m, FolderAdded(m, Normalized(path).value), Filed(m.folders, MakeFolder(path)))
    ensures Normalized(path).value in m.folders ==> Filed(m.folders, MakeFolder(path)) == m.folders
  {
    hide Normalized;
  }

  lemma SoundIs(names: set<Text>, files: Files, op: Op)
    ensures op.Write? || op.Truncate? ==> (Sound(ViewOf(names, files), op) <==> (op.name in names ==> op.name in files))
  {}

  // ---- one step of each kind ----

  /** What add_file promises between two moments. */
  ghost predicate AddSpan(a: Moment, name: Text, content: seq<Byte>, r: Result<()>, b: Moment) {
    && b.geo == a.geo
    && (|| (r != Failure(Io) && r.Failure? && b == a)
        || (r.Success? && !b.poisoned && AddDone(a, name, content, b)
            && Scrubbed(a.geo, a.manifest, a.disk, b.manifest, b.disk))
        || (r == Failure(Io) && !b.poisoned && b.manifest == a.manifest && b.ticks == a.ticks
            && (b.files == a.files || (b.files == a.files - {name} && ChunkList(a.manifest.entries, name) != [])))
        || (r == Failure(Io) && b.poisoned
            && b.arrived == a.files[name := content] && SameFiling(a.manifest, b.pending, a.manifest.folders)
            && Names(b.pending.entries) == Names(a.manifest.entries) + {name}
            && (|| (b.manifest == a.manifest && b.files == a.files - {name} && b.ticks == a.ticks)
                || AddDone(a, name, content, b))))
  }

  ghost predicate AddDone(a: Moment, name: Text, content: seq<Byte>, b: Moment) {
    && b.files == a.files[name := content] && a.ticks < b.ticks
    && SameFiling(a.manifest, b.manifest, a.manifest.folders)
    && Names(b.manifest.entries) == Names(a.manifest.entries) + {name}
  }

  lemma AddSteps(a: Moment, name: Text, content: seq<Byte>, r: Result<()>, b: Moment)
    requires !a.poisoned && AddSpan(a, name, content, r, b) && Answered(a, Add(name, content), r)
    requires a.state == ViewOf(Names(a.manifest.entries), a.files)
    requires b.state == ViewOf(Names(b.manifest.entries), b.files)
    ensures Stepped(a, Add(name, content), r, b) && Accounted(a, Add(name, content), r, b)
  {
    hide Apply, DamagedBy, ViewOf, Names, Scrubbed, Answered, PartlyGrown, ChunkList;
    var op := Add(name, content);
    ScrubbedSame(a.geo, a.manifest, a.disk);
    ViewNames(Names(a.manifest.entries), a.files);
    ViewAdded(Names(a.manifest.entries), a.files, name, content);
    ViewLostOne(Names(a.manifest.entries), a.files, op, name);
    ListedIsNamed(a.manifest, name);
  }

  lemma ListedIsNamed(m: Manifest, name: Text)
    ensures ChunkList(m.entries, name) != [] ==> name in Names(m.entries)
  {}

  method StepAdd(v: Vault, name: Text, content: seq<Byte>, faulty: bool) returns (r: Result<()>)
    requires v.Valid() && !v.poisoned && |content| <= U64_MAX
    modifies v
    ensures v.Valid() && old(v.images) <= v.images
    ensures Stepped(old(Now(v)), Add(name, content), r, Now(v))
    ensures Accounted(old(Now(v)), Add(name, content), r, Now(v))
    ensures forall k | |old(v.images)| <= k < |v.images| ::
              StillReads(v.geo, v.images[k], Unchanged(old(v.files), Add(name, content)))
    ensures !faulty ==> r != Failure(Io)
  {
    hide Apply, DamagedBy, ViewOf, Unchanged, Within, Stepped, Accounted, SameFiling;
    hide Vault.Valid, Publishable, Keeps, Reopen, StillReads, OverwriteSafe, Names, AddRefusal, Added,
      Remaining, ChunkList, Verdict, SizeOf, Scrubbed;
    ghost var a, m0, f0, op := Now(v), v.manifest, v.files, Add(name, content);
    r := v.AddFile(name, content, faulty);
    AddFiling(v.geo, m0, v.manifest, name, |content|);
    AddFiling(v.geo, m0, v.successor, name, |content|);
    RemainingIs(v.geo, v.disk, m0, f0, name);
    OnlyOne(f0, op, name, v.OutcomeFiles());
    AddSteps(a, name, content, r, Now(v));
    forall k | |old(v.images)| <= k < |v.images| ensures StillReads(v.geo, v.images[k], Unchanged(f0, op)) {
      OverwriteKeeps(v.geo, v.images[k], m0, f0, v.Outcome(), v.OutcomeFiles(), {name}, Unchanged(f0, op));
    }
  }

  /** Creating an empty file, seen as contents. */
  lemma CreateViews(m: Manifest, files: Files, name: Text)
    requires files.Keys <= Names(m.entries)
    ensures var s, next := ViewOf(Names(m.entries), files), Upserted(m, FileEntry(name, 0, []));
            && (Find(m.entries, name).Some? ==> Apply(s, Create(name)) == s)
            && (Find(m.entries, name).None? ==> Apply(s, Create(name)) == ViewOf(Names(next.entries), files[name := []]))
            && Apply(s, CreateExclusive(name)) == ViewOf(Names(next.entries), files[name := []])
            && DamagedBy(s, Create(name)) == s == DamagedBy(s, CreateExclusive(name))
            && SameFiling(m, next, m.folders)
            && Filed(m.folders, Create(name)) == m.folders == Filed(m.folders, CreateExclusive(name))
    ensures Within(Unchanged(files, Create(name)), files)
    ensures Within(Unchanged(files, CreateExclusive(name)), files)
    ensures Find(m.entries, name).None? ==>
              && Within(Unchanged(files, Create(name)), files[name := []])
              && Within(Unchanged(files, CreateExclusive(name)), files[name := []])
  {
    hide ViewOf, Names, Upserted, Unchanged, Within;
    FoundIsNamed(m.entries, name);
    UpsertedFiling(m, FileEntry(name, 0, []));
    CreateKeeps(files, name);
    UpsertNames(m, FileEntry(name, 0, []));
    ViewSet(Names(m.entries), files, name, []);
    ViewNames(Names(m.entries), files);
  }

  lemma CreateKeeps(files: Files, name: Text)
    ensures Within(Unchanged(files, Create(name)), files)
    ensures Within(Unchanged(files, CreateExclusive(name)), files)
    ensures name !in files ==>
              && Within(Unchanged(files, Create(name)), files[name := []])
              && Within(Unchanged(files, CreateExclusive(name)), files[name := []])
  {}

  method StepCreate(v: Vault, name: Text, faulty: bool) returns (r: Result<()>)
    requires v.Valid() && !v.poisoned
    modifies v
    ensures v.Valid() && old(v.images) <= v.images
    ensures Stepped(old(Now(v)), Create(name), r, Now(v))
    ensures Accounted(old(Now(v)), Create(name), r, Now(v))
    ensures forall k | |old(v.images)| <= k < |v.images| ::
              StillReads(v.geo, v.images[k], Unchanged(old(v.files), Create(name)))
    ensures !faulty ==> r != Failure(Io)
  {
    hide Vault.Valid, Publishable, Keeps, Reopen, Intact, StillReads, WindowSafe, Names, ViewOf, Apply, DamagedBy, Filed,
      Scrubbed, Verdict, Stepped, Accounted, Unchanged, Within, SameFiling;
    hide CreateRefusal, Upserted;
    ghost var a, op := Now(v), Create(name);
    ghost var next, after := Upserted(a.manifest, FileEntry(name, 0, [])), a.files[name := []];
    SizesKnown(v, name);
    r := v.CreateFile(name, faulty);
    CreateViews(a.manifest, a.files, name);
    assert a.files - {} == a.files;
    PhasedSteps(a, op, r, Now(v), next, after, {});
    forall k | |old(v.images)| <= k < |v.images| ensures StillReads(v.geo, v.images[k], Unchanged(a.files, op)) {
      WindowKeeps(v.geo, v.images[k], a.manifest, a.files, v.Outcome(), v.OutcomeFiles(), {}, {}, Unchanged(a.files, op));
    }
  }

  method StepCreateExclusive(v: Vault, name: Text, faulty: bool) returns (r: Result<()>)
    requires v.Valid() && !v.poisoned
    modifies v
    ensures v.Valid() && old(v.images) <= v.images
    ensures Stepped(old(Now(v)), CreateExclusive(name), r, Now(v))
    ensures Accounted(old(Now(v)), CreateExclusive(name), r, Now(v))
    ensures forall k | |old(v.images)| <= k < |v.images| ::
              StillReads(v.geo, v.images[k], Unchanged(old(v.files), CreateExclusive(name)))
    ensures !faulty ==> r != Failure(Io)
  {
    hide Vault.Valid, Publishable, Keeps, Reopen, Intact, StillReads, WindowSafe, Names, ViewOf, Apply, DamagedBy, Filed,
      Scrubbed, Verdict, Stepped, Accounted, Unchanged, Within, SameFiling;
    hide CreateRefusal, Upserted;
    ghost var a, op := Now(v), CreateExclusive(name);
    ghost var next, after := Upserted(a.manifest, FileEntry(name, 0, [])), a.files[name := []];
    SizesKnown(v, name);
    r := v.CreateFileExclusive(name, faulty);
    CreateViews(a.manifest, a.files, name);
    assert a.files - {} == a.files;
    PhasedSteps(a, op, r, Now(v), next, after, {});
    forall k | |old(v.images)| <= k < |v.images| ensures StillReads(v.geo, v.images[k], Unchanged(a.files, op)) {
      WindowKeeps(v.geo, v.images[k], a.manifest, a.files, v.Outcome(), v.OutcomeFiles(), {}, {}, Unchanged(a.files, op));
    }
  }

  /** What `write_file_range` promises, between two moments. */
  ghost predicate Writes(a: Moment, r: Result<()>, b: Moment, name: Text, offset: U64, data: seq<Byte>) {
    var after := WrittenFiles(a.files, name, offset, data);
    && Names(b.manifest.entries) == Names(a.manifest.entries)
    && b.geo == a.geo && (b.poisoned ==> r == Failure(Io))
    && (r.Success? ==> if data == [] then b == a else name in Names(a.manifest.entries) && b.files == after && a.ticks < b.ticks)
    && (r.Failure? ==>
          || (b.manifest == a.manifest && b.files == a.files && b.ticks == a.ticks)
          || (b.poisoned && b.manifest == a.manifest && b.files == a.files - {name} && b.ticks == a.ticks)
          || (b.poisoned && b.files == after && a.ticks < b.ticks))
    && (b.poisoned ==>
          && name in Names(a.manifest.entries) && data != []
          && b.arrived == after && Names(b.pending.entries) == Names(a.manifest.entries))
  }

  lemma WriteSteps(a: Moment, r: Result<()>, b: Moment, name: Text, offset: U64, data: seq<Byte>)
    requires !a.poisoned && Writes(a, r, b, name, offset, data)
    requires a.state == ViewOf(Names(a.manifest.entries), a.files)
    requires b.state == ViewOf(Names(b.manifest.entries), b.files)
    ensures Stepped(a, Write(name, offset, data), r, b)
  {
    hide Apply, DamagedBy, ViewOf, WrittenFiles, Names;
    NothingWritten(a.state, name, offset);
    ViewLostOne(Names(a.manifest.entries), a.files, Write(name, offset, data), name);
    if name in Names(a.manifest.entries) && data != [] {
      ViewWritten(Names(a.manifest.entries), a.files, name, offset, data);
    }
  }

  /** A mutation of one file leaves folders and owner alone; it is accounted for if its answer
      and its leftovers are. */
  ghost predicate TouchesOne(a: Moment, op: Op, r: Result<()>, b: Moment, name: Text) {
    && (b.manifest == a.manifest || OnlyTouched(a.manifest, b.manifest, name))
    && (b.poisoned && !a.poisoned ==> OnlyTouched(a.manifest, b.pending, name))
    && (r.Success? || (r != Failure(Io) && (name in Names(a.manifest.entries) ==> name in a.files)) ==>
          Scrubbed(a.geo, a.manifest, a.disk, b.manifest, b.disk))
  }

  lemma TouchAccounts(a: Moment, op: Op, r: Result<()>, b: Moment, name: Text)
    requires TouchesOne(a, op, r, b, name) && (op.Write? || op.Truncate?) && op.name == name
    requires a.state == ViewOf(Names(a.manifest.entries), a.files)
    requires Answered(a, op, r)
    ensures Accounted(a, op, r, b)
  {
    hide ViewOf, Names, OnlyTouched, Scrubbed, SameFiling;
    SoundIs(Names(a.manifest.entries), a.files, op);
    TouchFiling(a.manifest, b.manifest, name);
    TouchFiling(a.manifest, b.pending, name);
  }

  method StepWrite(v: Vault, name: Text, offset: U64, data: seq<Byte>, faulty: bool) returns (r: Result<()>)
    requires v.Valid() && !v.poisoned && |data| <= U64_MAX
    modifies v
    ensures v.Valid() && old(v.images) <= v.images
    ensures Stepped(old(Now(v)), Write(name, offset, data), r, Now(v))
    ensures Accounted(old(Now(v)), Write(name, offset, data), r, Now(v))
    ensures forall k | |old(v.images)| <= k < |v.images| ::
              StillReads(v.geo, v.images[k], Unchanged(old(v.files), Write(name, offset, data)))
    ensures !faulty ==> r != Failure(Io)
  {
    hide Vault.Valid, Publishable, Keeps, Reopen, StillReads, WindowSafe, Names, Stepped, Accounted, WroteFresh,
      WrittenFiles, ViewOf, Unchanged, Within, OnlyTouched, ChunkList, Scrubbed, WriteRefusal;
    ghost var a, op := Now(v), Write(name, offset, data);
    FoundIsNamed(a.manifest.entries, name);
    r := v.WriteFileRange(name, offset, data, faulty);
    TouchedIsNamed(a.manifest, v.successor, name);
    TouchedIsNamed(a.manifest, v.manifest, name);
    SoundIs(Names(a.manifest.entries), a.files, op);
    if r.Success? && data != [] {
      WroteTouches(a.geo, a.manifest, v.manifest, name, offset, |data|);
    }
    ScrubbedSame(a.geo, a.manifest, a.disk);
    OthersKept(a.files, name, offset, data, 0);
    OnlyOne(a.files, op, name, v.OutcomeFiles());
    forall k | |old(v.images)| <= k < |v.images| ensures StillReads(v.geo, v.images[k], Unchanged(a.files, op)) {
      WindowKeeps(v.geo, v.images[k], a.manifest, a.files, v.Outcome(), v.OutcomeFiles(), {name},
                  Elems(ChunkList(a.manifest.entries, name)), Unchanged(a.files, op));
    }
    WriteSteps(a, r, Now(v), name, offset, data);
    TouchAccounts(a, op, r, Now(v), name);
  }

  /** What `truncate_file` promises, between two moments. */
  ghost predicate Truncates(a: Moment, r: Result<()>, b: Moment, name: Text, size: U64) {
    && Names(b.manifest.entries) == Names(a.manifest.entries)
    && (b.poisoned ==> r == Failure(Io))
    && (r.Success? ==> name in Names(a.manifest.entries) && b.files == TruncatedFiles(a.files, name, size))
    && (r.Failure? && !b.poisoned ==>
          || (b.manifest == a.manifest && b.files == a.files && b.ticks == a.ticks)
          || (a.ticks < b.ticks && OnlyTouched(a.manifest, b.manifest, name)
              && GrownPartly(a.files, name, 1, size - SizeOf(a.manifest, name) - 1, size - SizeOf(a.manifest, name), b.files)))
    && (r.Failure? && b.poisoned ==>
          || b.files in {a.files, a.files - {name}, TruncatedFiles(a.files, name, size)}
          || GrownPartly(a.files, name, 0, size - SizeOf(a.manifest, name), size - SizeOf(a.manifest, name), b.files))
    && (b.poisoned ==>
          && Names(b.pending.entries) == Names(a.manifest.entries)
          && (|| b.arrived == TruncatedFiles(a.files, name, size)
              || GrownPartly(a.files, name, 1, size - SizeOf(a.manifest, name), size - SizeOf(a.manifest, name), b.arrived)))
    && b.geo == a.geo
    && a.ticks <= b.ticks && (a.ticks == b.ticks ==> a.manifest == b.manifest)
  }

  /** Each outcome of a truncate, seen as contents. */
  lemma TruncateViews(names: set<Text>, files: Files, name: Text, size: U64, now: nat, files': Files)
    requires files.Keys <= names && (name in files ==> |files[name]| == now)
    ensures var s, s', op := ViewOf(names, files), ViewOf(names, files'), Truncate(name, size);
            && (files' == TruncatedFiles(files, name, size) ==> s' == Apply(s, op))
            && (files' == files - {name} ==> s' == DamagedBy(s, op))
            && (GrownPartly(files, name, 0, size - now, size - now, files') ==>
                  s' == s || PartlyGrown(s, op, s') || s' == Apply(s, op))
            && (GrownPartly(files, name, 1, size - now, size - now, files') ==> Completes(s, op, s'))
            && (GrownPartly(files, name, 1, size - now - 1, size - now, files') ==>
                  now + GROW_WINDOW < size && (s' == s || PartlyGrown(s, op, s')))
  {
    hide Apply, DamagedBy, PartlyGrown, ViewOf, GrownPartly, TruncatedFiles;
    ViewLostOne(names, files, Truncate(name, size), name);
    if GrownPartly(files, name, 1, size - now - 1, size - now, files') {
      PartlyBounds(files, name, 1, size - now - 1, size - now, files');
    }
    if name in names {
      ViewTruncated(names, files, name, size);
      if GrownPartly(files, name, 1, size - now - 1, size - now, files') {
        ViewGrown(names, files, name, size, now, 1, size - now - 1, files');
      }
      if GrownPartly(files, name, 1, size - now, size - now, files') {
        ViewGrown(names, files, name, size, now, 1, size - now, files');
      }
      if GrownPartly(files, name, 0, size - now, size - now, files') {
        ViewGrown(names, files, name, size, now, 0, size - now, files');
      }
    } else {
      AbsentName(files, name, size, 0, size - now, size - now, files');
      AbsentName(files, name, size, 1, size - now, size - now, files');
      AbsentName(files, name, size, 1, size - now - 1, size - now, files');
      AbsentState(names, files, name, size);
    }
  }

  lemma AbsentState(names: set<Text>, files: Files, name: Text, size: U64)
    requires name !in names
    ensures Apply(ViewOf(names, files), Truncate(name, size)) == ViewOf(names, files)
  {}

  lemma TruncateSteps(a: Moment, r: Result<()>, b: Moment, name: Text, size: U64)
    requires !a.poisoned && Truncates(a, r, b, name, size)
    requires a.state == ViewOf(Names(a.manifest.entries), a.files) && a.files.Keys <= Names(a.manifest.entries)
    requires b.state == ViewOf(Names(b.manifest.entries), b.files)
    requires name in a.files ==> |a.files[name]| == SizeOf(a.manifest, name)
    ensures Stepped(a, Truncate(name, size), r, b)
  {
    hide Apply, DamagedBy, PartlyGrown, ViewOf, GrownPartly, TruncatedFiles, OnlyTouched, Names;
    var names, now := Names(a.manifest.entries), SizeOf(a.manifest, name);
    TouchedIsNamed(a.manifest, b.manifest, name);
    ViewNames(names, a.files);
    TruncateViews(names, a.files, name, size, now, b.files);
    TruncateViews(names, a.files, name, size, now, b.arrived);
  }

  method StepTruncate(v: Vault, name: Text, size: U64, faulty: bool) returns (r: Result<()>)
    requires v.Valid() && !v.poisoned
    modifies v
    ensures v.Valid() && old(v.images) <= v.images
    ensures Stepped(old(Now(v)), Truncate(name, size), r, Now(v))
    ensures Accounted(old(Now(v)), Truncate(name, size), r, Now(v))
    ensures forall k | |old(v.images)| <= k < |v.images| ::
              StillReads(v.geo, v.images[k], Unchanged(old(v.files), Truncate(name, size)))
    ensures !faulty ==> r != Failure(Io)
  {
    hide Vault.Valid, Publishable, Keeps, Reopen, StillReads, Names, TruncateFits, ResizeRefusal, TruncateLeavesPart,
      Scrubbed, Shrank, Grew, TruncatedFiles, ViewOf, OnlyTouched, GrownPartly, SizeOf, Stepped, Accounted,
      TruncateSafe, ValidName;
    ghost var a, op := Now(v), Truncate(name, size);
    SizesKnown(v, name);
    FoundIsNamed(a.manifest.entries, name);
    MissingFits(a.geo, a.manifest, name, size);
    r := v.TruncateFile(name, size, faulty);
    SoundIs(Names(a.manifest.entries), a.files, op);
    assert Unchanged(a.files, op) == a.files - {name};
    ScrubbedSame(a.geo, a.manifest, a.disk);
    TruncateSteps(a, r, Now(v), name, size);
    TouchAccounts(a, op, r, Now(v), name);
  }

  lemma MissingFits(geo: Geometry, m: Manifest, name: Text, size: U64)
    ensures TruncateFits(geo, m, false, name, size) ==> name in Names(m.entries)
    ensures TruncateLeavesPart(geo, m, false, name, size) ==> name in Names(m.entries)
  {
    FoundIsNamed(m.entries, name);
  }

  lemma StaysPoisoned(a: Moment, op: Op)
    requires a.poisoned
    ensures Stepped(a, op, Failure(SessionPoisoned), a) && Accounted(a, op, Failure(SessionPoisoned), a)
  {
    hide Filed;
    ScrubbedSame(a.geo, a.manifest, a.disk);
  }

  /** Renaming a file, seen as contents. */
  lemma RenameViews(geo: Geometry, m: Manifest, files: Files, from: Text, to: Text)
    requires Publishable(geo, m)
    ensures var s := ViewOf(Names(m.entries), files);
            && Filed(m.folders, Rename(from, to)) == m.folders
            && (from == to ==> Apply(s, Rename(from, to)) == s)
            && ViewOf(Names(m.entries), files - {to}) == DamagedBy(s, Rename(from, to))
            && (Find(m.entries, from).Some? && from != to ==>
                  && ViewOf(Names(Renamed(m, from, to).entries), RenamedFiles(files, from, to)) == Apply(s, Rename(from, to))
                  && SameFiling(m, Renamed(m, from, to), m.folders))
  {
    hide Apply, DamagedBy, ViewOf, RenamedFiles, Names, Renamed, Publishable, SameFiling;
    FoundIsNamed(m.entries, from);
    SameName(ViewOf(Names(m.entries), files), from);
    ViewLostOne(Names(m.entries), files, Rename(from, to), to);
    if Find(m.entries, from).Some? && from != to {
      RenamedNames(geo, m, from, to);
      ViewRenamed(Names(m.entries), files, from, to);
      RenamedFiling(m, from, to);
    }
  }

  method StepRename(v: Vault, from: Text, to: Text, faulty: bool) returns (r: Result<()>)
    requires v.Valid() && !v.poisoned
    modifies v
    ensures v.Valid() && old(v.images) <= v.images
    ensures Stepped(old(Now(v)), Rename(from, to), r, Now(v))
    ensures Accounted(old(Now(v)), Rename(from, to), r, Now(v))
    ensures forall k | |old(v.images)| <= k < |v.images| ::
              StillReads(v.geo, v.images[k], Unchanged(old(v.files), Rename(from, to)))
    ensures !faulty ==> r != Failure(Io)
  {
    hide Vault.Valid, Publishable, Keeps, Reopen, Intact, StillReads, WindowSafe, Names, ViewOf, Apply, DamagedBy, Filed,
      Scrubbed, Verdict, Stepped, Accounted, Unchanged, Within, SameFiling;
    hide RenameRefusal, Renamed, RenamedFiles, ChunkList, RenameBumps;
    ghost var a, op := Now(v), Rename(from, to);
    SoundManifest(v);
    r := v.RenameFile(from, to, faulty);
    RenameViews(a.geo, a.manifest, a.files, from, to);
    RenameTicks(a.manifest, to);
    TwoNames(a.files, from, to, v.OutcomeFiles());
    if Find(a.manifest.entries, from).Some? {
      PhasedSteps(a, op, r, Now(v), Renamed(a.manifest, from, to), RenamedFiles(a.files, from, to), {to});
    } else {
      PhasedSteps(a, op, r, Now(v), a.manifest, a.files, {to});
    }
    forall k | |old(v.images)| <= k < |v.images| ensures StillReads(v.geo, v.images[k], Unchanged(a.files, op)) {
      WindowKeeps(v.geo, v.images[k], a.manifest, a.files, v.Outcome(), v.OutcomeFiles(), {to},
                  Elems(ChunkList(a.manifest.entries, to)), Unchanged(a.files, op));
    }
  }

  lemma RenameTicks(m: Manifest, to: Text)
    ensures RenameBumps(m, to) > 0
  {}

  /** Deleting a file, seen as contents. */
  lemma DeleteViews(geo: Geometry, m: Manifest, files: Files, name: Text)
    requires Publishable(geo, m)
    ensures var s := ViewOf(Names(m.entries), files);
            && ViewOf(Names(Removed(m, name).entries), files - {name}) == Apply(s, Delete(name))
            && ViewOf(Names(m.entries), files - {name}) == DamagedBy(s, Delete(name))
            && SameFiling(m, Removed(m, name), m.folders) && Filed(m.folders, Delete(name)) == m.folders
  {
    hide Apply, DamagedBy, ViewOf, Names, Publishable, Removed, SameFiling;
    RemovedNames(geo, m, name);
    RemovedFiling(m, name);
    ViewDeleted(Names(m.entries), files, name);
    ViewLostOne(Names(m.entries), files, Delete(name), name);
  }

  method StepDelete(v: Vault, name: Text, faulty: bool) returns (r: Result<()>)
    requires v.Valid() && !v.poisoned
    modifies v
    ensures v.Valid() && old(v.images) <= v.images
    ensures Stepped(old(Now(v)), Delete(name), r, Now(v))
    ensures Accounted(old(Now(v)), Delete(name), r, Now(v))
    ensures forall k | |old(v.images)| <= k < |v.images| ::
              StillReads(v.geo, v.images[k], Unchanged(old(v.files), Delete(name)))
    ensures !faulty ==> r != Failure(Io)
  {
    hide Vault.Valid, Publishable, Keeps, Reopen, Intact, StillReads, WindowSafe, Names, ViewOf, Apply, DamagedBy, Filed,
      Scrubbed, Verdict, Stepped, Accounted, Unchanged, Within, SameFiling;
    hide DeleteRefusal, ChunkList, Removed;
    ghost var a, op := Now(v), Delete(name);
    SoundManifest(v);
    r := v.DeleteFile(name, faulty);
    DeleteViews(a.geo, a.manifest, a.files, name);
    PhasedSteps(a, op, r, Now(v), Removed(a.manifest, name), a.files - {name}, {name});
    OnlyOne(a.files, op, name, v.OutcomeFiles());
    forall k | |old(v.images)| <= k < |v.images| ensures StillReads(v.geo, v.images[k], Unchanged(a.files, op)) {
      WindowKeeps(v.geo, v.images[k], a.manifest, a.files, v.Outcome(), v.OutcomeFiles(), {name},
                  Elems(ChunkList(a.manifest.entries, name)), Unchanged(a.files, op));
    }
  }

  /** Making a folder, seen as contents. */
  lemma MakeViews(m: Manifest, files: Files, path: Text)
    requires Normalized(path).Some?
    ensures var s, next := ViewOf(Names(m.entries), files), FolderAdded(m, Normalized(path).value);
            && ViewOf(Names(next.entries), files) == s == Apply(s, MakeFolder(path)) == DamagedBy(s, MakeFolder(path))
            && (if Normalized(path).value in m.folders then Filed(m.folders, MakeFolder(path)) == m.folders
                else SameFiling(m, next, Filed(m.folders, MakeFolder(path))))
  {
    hide ViewOf, Names, SameFiling, Filed, Normalized;
    MadeFiling(m, path);
    SameNames(m, FolderAdded(m, Normalized(path).value));
    ViewNames(Names(m.entries), files);
  }

  method StepMakeFolder(v: Vault, path: Text, faulty: bool) returns (r: Result<()>)
    requires v.Valid() && !v.poisoned
    modifies v
    ensures v.Valid() && old(v.images) <= v.images
    ensures Stepped(old(Now(v)), MakeFolder(path), r, Now(v))
    ensures Accounted(old(Now(v)), MakeFolder(path), r, Now(v))
    ensures forall k | |old(v.images)| <= k < |v.images| ::
              StillReads(v.geo, v.images[k], Unchanged(old(v.files), MakeFolder(path)))
    ensures !faulty ==> r != Failure(Io)
  {
    hide Vault.Valid, Publishable, Keeps, Reopen, Intact, StillReads, WindowSafe, Names, ViewOf, Apply, DamagedBy, Filed,
      Scrubbed, Verdict, Stepped, Accounted, Unchanged, Within, SameFiling;
    hide CreateFolderRefusal, Normalized, FolderAdded;
    ghost var a, op := Now(v), MakeFolder(path);
    r := v.CreateFolder(path, faulty);
    assert a.files - {} == a.files;
    WholeKept(a.files, op);
    if Normalized(path).Some? {
      MakeViews(a.manifest, a.files, path);
      PhasedSteps(a, op, r, Now(v), FolderAdded(a.manifest, Normalized(path).value), a.files, {});
    } else {
      PhasedSteps(a, op, r, Now(v), a.manifest, a.files, {});
    }
    forall k | |old(v.images)| <= k < |v.images| ensures StillReads(v.geo, v.images[k], Unchanged(a.files, op)) {
      WindowKeeps(v.geo, v.images[k], a.manifest, a.files, v.Outcome(), v.OutcomeFiles(), {}, {}, Unchanged(a.files, op));
    }
  }

  /** What deleting a folder promises between two moments. */
  ghost predicate RemoveSpan(a: Moment, path: Text, r: Result<()>, b: Moment) {
    && b.geo == a.geo
    && (|| (r != Failure(Io) && r.Failure? && b == a)
        || (Normalized(path).Some? && b.files == Spared(a.files, Normalized(path).value)
            && a.ticks <= b.ticks && (a.ticks == b.ticks ==> a.manifest == b.manifest)
            && RemoveDone(a, Normalized(path).value, r, b)))
  }

  ghost predicate RemoveDone(a: Moment, folder: Text, r: Result<()>, b: Moment) {
    if r.Success? then
      !b.poisoned && FolderDeleted(a.manifest, b.manifest, folder) && Scrubbed(a.geo, a.manifest, a.disk, b.manifest, b.disk)
    else
      && r == Failure(Io) && b.poisoned
      && (b.manifest == a.manifest || FolderDeleted(a.manifest, b.manifest, folder))
      && b.arrived == Spared(a.files, folder) && FolderDeleted(a.manifest, b.pending, folder)
  }

  lemma RemoveSteps(a: Moment, path: Text, r: Result<()>, b: Moment)
    requires !a.poisoned && RemoveSpan(a, path, r, b) && Answered(a, RemoveFolder(path), r)
    requires a.state == ViewOf(Names(a.manifest.entries), a.files)
    requires b.state == ViewOf(Names(b.manifest.entries), b.files)
    ensures Stepped(a, RemoveFolder(path), r, b) && Accounted(a, RemoveFolder(path), r, b)
  {
    hide Apply, DamagedBy, ViewOf, Names, Scrubbed, Answered, PartlyGrown, Normalized, Spared, FolderDeleted, Filed,
      SameFiling;
    ScrubbedSame(a.geo, a.manifest, a.disk);
    SameFilingItself(a.manifest);
    if Normalized(path).Some? {
      ViewSpared(a.manifest, b.manifest, a.files, path);
      ViewSpared(a.manifest, b.pending, a.files, path);
      DeletedFiling(a.manifest, b.manifest, path);
      DeletedFiling(a.manifest, b.pending, path);
    }
  }

  lemma SameFilingItself(m: Manifest)
    ensures SameFiling(m, m, m.folders)
  {}

  method StepRemoveFolder(v: Vault, path: Text, faulty: bool) returns (r: Result<()>)
    requires v.Valid() && !v.poisoned
    modifies v
    ensures v.Valid() && old(v.images) <= v.images
    ensures Stepped(old(Now(v)), RemoveFolder(path), r, Now(v))
    ensures Accounted(old(Now(v)), RemoveFolder(path), r, Now(v))
    ensures forall k | |old(v.images)| <= k < |v.images| ::
              StillReads(v.geo, v.images[k], Unchanged(old(v.files), RemoveFolder(path)))
    ensures !faulty ==> r != Failure(Io)
  {
    hide Vault.Valid, FolderDeleted, UnderShredded, Apply, DamagedBy, ValidFolderPath;
    hide Publishable, Keeps, Reopen, StillReads, WindowSafe, Names, CreateFolderRefusal, RenameFolderRefusal,
      ViewOf, Unchanged, Within, Normalized, FolderRenamed, FolderAdded, Intact;
    hide Spared, Stepped, Accounted, Scrubbed;
    ghost var a, f0 := Now(v), v.files;
    r := v.DeleteFolder(path, faulty);
    RemoveSteps(a, path, r, Now(v));
    if Normalized(path).Some? {
      SparedIs({}, f0, path);
    }
  }

  lemma MoveStays(s: State, folders: seq<Text>, oldPath: Text, newPath: Text)
    ensures Normalized(oldPath) == Normalized(newPath) ==>
              Apply(s, MoveFolder(oldPath, newPath)) == s && Filed(folders, MoveFolder(oldPath, newPath)) == folders
  {
    hide Normalized, MovedState;
  }

  lemma ApplyMove(s: State, oldPath: Text, newPath: Text)
    requires Normalized(oldPath).Some? && Normalized(newPath).Some? && Normalized(oldPath) != Normalized(newPath)
    ensures Apply(s, MoveFolder(oldPath, newPath)) == MovedState(s, Normalized(oldPath).value, Normalized(newPath).value)
    ensures DamagedBy(s, MoveFolder(oldPath, newPath)) == s
  {
    hide Normalized, MovedState;
    NothingEndangered(s, MoveFolder(oldPath, newPath));
    hide DamagedBy;
  }

  lemma NothingEndangered(s: State, op: Op)
    requires forall n :: !Endangers(op, n)
    ensures DamagedBy(s, op) == s
  {}

  /** Moving a folder, seen as contents. */
  lemma MoveViews(m: Manifest, files: Files, oldPath: Text, newPath: Text)
    requires Normalized(oldPath).Some? && Normalized(newPath).Some? && Normalized(oldPath) != Normalized(newPath)
    requires files.Keys <= Names(m.entries)
    requires UniqueNames(MovedEntries(m.entries, Normalized(oldPath).value, Normalized(newPath).value))
    ensures var s, f, t := ViewOf(Names(m.entries), files), Normalized(oldPath).value, Normalized(newPath).value;
            && ViewOf(Names(FolderRenamed(m, f, t).entries), MovedFiles(m.entries, files, f, t))
               == Apply(s, MoveFolder(oldPath, newPath))
            && DamagedBy(s, MoveFolder(oldPath, newPath)) == s
            && SameFiling(m, FolderRenamed(m, f, t), Filed(m.folders, MoveFolder(oldPath, newPath)))
            && Within(Unchanged(files, MoveFolder(oldPath, newPath)), MovedFiles(m.entries, files, f, t))
  {
    hide ViewOf, Names, Normalized, MovedEntries, MovedFiles, FolderRenamed, Apply, DamagedBy, Filed, SameFiling, Unchanged,
      Within, UniqueNames, MovedState;
    ApplyMove(ViewOf(Names(m.entries), files), oldPath, newPath);
    ViewMoved(m, files, Normalized(oldPath).value, Normalized(newPath).value);
    MovedFiling(m, oldPath, newPath);
    MovedKept(m, files, oldPath, newPath);
  }

  /** What renaming a folder promises between two moments. */
  ghost predicate MoveSpan(a: Moment, oldPath: Text, newPath: Text, r: Result<()>, b: Moment) {
    if Normalized(oldPath).None? || Normalized(newPath).None? || Normalized(oldPath) == Normalized(newPath) || b == a then
      b == a && r != Failure(Io) && (r.Success? ==> Normalized(oldPath) == Normalized(newPath))
    else
      var f, t := Normalized(oldPath).value, Normalized(newPath).value;
      && UniqueNames(MovedEntries(a.manifest.entries, f, t))
      && Phased(a, r, b, FolderRenamed(a.manifest, f, t), MovedFiles(a.manifest.entries, a.files, f, t), {})
  }

  lemma MoveSteps(a: Moment, oldPath: Text, newPath: Text, r: Result<()>, b: Moment)
    requires !a.poisoned && MoveSpan(a, oldPath, newPath, r, b) && Answered(a, MoveFolder(oldPath, newPath), r)
    requires a.files.Keys <= Names(a.manifest.entries)
    requires a.state == ViewOf(Names(a.manifest.entries), a.files)
    requires b.state == ViewOf(Names(b.manifest.entries), b.files)
    ensures Stepped(a, MoveFolder(oldPath, newPath), r, b) && Accounted(a, MoveFolder(oldPath, newPath), r, b)
    ensures Within(Unchanged(a.files, MoveFolder(oldPath, newPath)), if b.poisoned then b.arrived else b.files)
  {
    hide ViewOf, Apply, DamagedBy, Names, Filed, Scrubbed, Stepped, Accounted, Unchanged, Within, SameFiling, Answered,
      Normalized, FolderRenamed, MovedFiles, MovedEntries, UniqueNames;
    var op := MoveFolder(oldPath, newPath);
    assert a.files - {} == a.files;
    WithinItself(a.files, op);
    MoveStays(a.state, a.manifest.folders, oldPath, newPath);
    if b == a {
      PhasedSteps(a, op, r, b, a.manifest, a.files, {});
    } else {
      var f, t := Normalized(oldPath).value, Normalized(newPath).value;
      MoveViews(a.manifest, a.files, oldPath, newPath);
      PhasedSteps(a, op, r, b, FolderRenamed(a.manifest, f, t), MovedFiles(a.manifest.entries, a.files, f, t), {});
    }
  }

  method StepMoveFolder(v: Vault, oldPath: Text, newPath: Text, faulty: bool) returns (r: Result<()>)
    requires v.Valid() && !v.poisoned
    modifies v
    ensures v.Valid() && old(v.images) <= v.images
    ensures Stepped(old(Now(v)), MoveFolder(oldPath, newPath), r, Now(v))
    ensures Accounted(old(Now(v)), MoveFolder(oldPath, newPath), r, Now(v))
    ensures forall k | |old(v.images)| <= k < |v.images| ::
              StillReads(v.geo, v.images[k], Unchanged(old(v.files), MoveFolder(oldPath, newPath)))
    ensures !faulty ==> r != Failure(Io)
  {
    hide Vault.Valid, Publishable, Keeps, Reopen, Intact, StillReads, WindowSafe, Names, ViewOf, Apply, DamagedBy, Filed,
      Scrubbed, Verdict, Stepped, Accounted, Unchanged, Within, SameFiling;
    hide RenameFolderRefusal, Normalized, FolderRenamed, MovedFiles, MovedEntries, UniqueNames, SameOutside, Find,
      Vault.Outcome;
    ghost var a, op := Now(v), MoveFolder(oldPath, newPath);
    SizesKnown(v, []);
    r := v.RenameFolder(oldPath, newPath, faulty);
    assert a.files - {} == a.files;
    WithinItself(a.files, op);
    MoveSteps(a, oldPath, newPath, r, Now(v));
    AllWindowsKeep(v.geo, v.images, |old(v.images)|, a.manifest, a.files, v.Outcome(), v.OutcomeFiles(), Unchanged(a.files, op));
  }

  // ---- runs ----

  method Step(v: Vault, op: Op, faulty: bool) returns (r: Result<()>)
    requires v.Valid() && Sized(op)
    modifies v
    ensures v.Valid() && old(v.images) <= v.images
    ensures Stepped(old(Now(v)), op, r, Now(v))
    ensures Accounted(old(Now(v)), op, r, Now(v))
    ensures old(v.poisoned) ==> v.images == old(v.images)
    ensures forall k | |old(v.images)| <= k < |v.images| ::
              StillReads(v.geo, v.images[k], Unchanged(old(v.files), op))
    ensures !faulty ==> r != Failure(Io)
  {
    hide Stepped, Accounted, Unchanged, StillReads, ViewOf, Reopen, Publishable, Keeps;
    if v.poisoned {
      r := StepPoisoned(v, op, faulty);
      return;
    }
    match op
    case Add(name, content) => r := StepAdd(v, name, content, faulty);
    case Create(name) => r := StepCreate(v, name, faulty);
    case CreateExclusive(name) => r := StepCreateExclusive(v, name, faulty);
    case Write(name, offset, data) => r := StepWrite(v, name, offset, data, faulty);
    case Truncate(name, size) => r := StepTruncate(v, name, size, faulty);
    case Rename(from, to) => r := StepRename(v, from, to, faulty);
    case Delete(name) => r := StepDelete(v, name, faulty);
    case MakeFolder(path) => r := StepMakeFolder(v, path, faulty);
    case RemoveFolder(path) => r := StepRemoveFolder(v, path, faulty);
    case MoveFolder(oldPath, newPath) => r := StepMoveFolder(v, oldPath, newPath, faulty);
  }

  /** Every mutation first asks whether the session is poisoned. */
  method StepPoisoned(v: Vault, op: Op, faulty: bool) returns (r: Result<()>)
    requires v.Valid() && v.poisoned && Sized(op)
    modifies v
    ensures v.Valid() && v.images == old(v.images)
    ensures Stepped(old(Now(v)), op, r, Now(v)) && Accounted(old(Now(v)), op, r, Now(v))
    ensures !faulty ==> r != Failure(Io)
  {
    hide Vault.Valid, Publishable, Keeps, Reopen, Stepped, Accounted, ViewOf;
    ghost var a := Now(v);
    match op {
      case Add(name, content) => r := v.AddFile(name, content, faulty);
      case Create(name) => r := v.CreateFile(name, faulty);
      case CreateExclusive(name) => r := v.CreateFileExclusive(name, faulty);
      case Write(name, offset, data) => r := v.WriteFileRange(name, offset, data, faulty);
      case Truncate(name, size) => r := v.TruncateFile(name, size, faulty);
      case Rename(from, to) => r := v.RenameFile(from, to, faulty);
      case Delete(name) => r := v.DeleteFile(name, faulty);
      case MakeFolder(path) => r := v.CreateFolder(path, faulty);
      case RemoveFolder(path) => r := v.DeleteFolder(path, faulty);
      case MoveFolder(oldPath, newPath) => r := v.RenameFolder(oldPath, newPath, faulty);
    }
    StaysPoisoned(a, op);
  }

  /** The counter, the disk and the contents agree. A poisoned session's disk opens to the live
      manifest and the contents known to be good, or to the complete result of the mutation that
      failed, unless that failure tore the manifest chunk. */
  ghost predicate Faithful(m: Moment) {
    && m.manifest.counter == m.ticks % (U64_MAX + 1)
    && m.state == ViewOf(Names(m.manifest.entries), m.files)
    && m.geo.home < |m.disk|
    && (|| Intact(m.geo, m.disk, m.manifest, m.files)
        || (m.poisoned && (m.disk[m.geo.home] == Noise || Intact(m.geo, m.disk, m.pending, m.arrived))))
  }

  /** The moments and answers of a run. `faulty` says during which calls a request to the device
      or the random source may fail; the other calls meet no I/O failure. */
  ghost predicate IsRun(moments: seq<Moment>, ops: seq<Op>, results: seq<Result<()>>, faulty: seq<bool>) {
    && |results| == |faulty| == |ops| && |moments| == |ops| + 1
    && (forall i | 0 <= i < |ops| ::
          Stepped(moments[i], ops[i], results[i], moments[i + 1]) && Accounted(moments[i], ops[i], results[i], moments[i + 1]))
    && (forall i | 0 <= i < |ops| && !faulty[i] :: results[i] != Failure(Io))
  }

  /** What the crash images from..to say of a step from moment a: a poisoned session adds none, and
      each leaves every file that the operation does not change. */
  ghost predicate CrashSafe(geo: Geometry, images: seq<seq<Cell>>, a: Moment, op: Op, from: nat, to: nat) {
    && from <= to <= |images| && (a.poisoned ==> from == to)
    && forall k | from <= k < to :: StillReads(geo, images[k], Unchanged(a.files, op))
  }

  /** The crash images of a run: `cuts[i]` of them exist when step i begins. */
  ghost predicate AllSafe(geo: Geometry, images: seq<seq<Cell>>, moments: seq<Moment>, ops: seq<Op>, cuts: seq<nat>) {
    && |cuts| == |moments| == |ops| + 1 && cuts[|ops|] == |images|
    && forall i | 0 <= i < |ops| :: CrashSafe(geo, images, moments[i], ops[i], cuts[i], cuts[i + 1])
  }

  /** Runs a sequence of operations on an open vault. Every step is lawful, every moment is
      faithful to the disk, and a crash in step i leaves every file that step does not change. */
  method Run(v: Vault, ops: seq<Op>, faulty: seq<bool>)
    returns (results: seq<Result<()>>, ghost moments: seq<Moment>, ghost cuts: seq<nat>)
    requires v.Valid() && |faulty| == |ops| && forall i | 0 <= i < |ops| :: Sized(ops[i])
    modifies v
    ensures v.Valid() && old(v.images) <= v.images
    ensures IsRun(moments, ops, results, faulty)
    ensures moments[0] == old(Now(v)) && moments[|ops|] == Now(v)
    ensures forall i | 0 <= i <= |ops| :: Faithful(moments[i])
    ensures AllSafe(v.geo, v.images, moments, ops, cuts) && cuts[0] == |old(v.images)|
  {
    hide Stepped, Accounted, Unchanged, StillReads, ViewOf, Reopen, Publishable, Keeps, Faithful, Sized, IsRun, AllSafe;
    results, moments, cuts := [], [Now(v)], [|v.images|];
    NowIsFaithful(v);
    NothingDone(v.geo, v.images, moments, cuts);
    for i := 0 to |ops|
      invariant v.Valid() && old(v.images) <= v.images
      invariant |results| == i && |moments| == |cuts| == i + 1
      invariant moments[0] == old(Now(v)) && moments[i] == Now(v) && cuts[0] == |old(v.images)|
      invariant IsRun(moments, ops[..i], results, faulty[..i])
      invariant AllSafe(v.geo, v.images, moments, ops[..i], cuts)
      invariant forall j | 0 <= j <= i :: Faithful(moments[j])
    {
      ghost var before, images := Now(v), v.images;
      var r := Step(v, ops[i], faulty[i]);
      NowIsFaithful(v);
      OneMore(moments, ops[..i], results, faulty[..i], ops[i], r, faulty[i], Now(v));
      OneMoreSafe(v.geo, images, v.images, moments, ops[..i], cuts, ops[i], Now(v));
      assert ops[..i] + [ops[i]] == ops[..i + 1] && faulty[..i] + [faulty[i]] == faulty[..i + 1];
      results, moments, cuts := results + [r], moments + [Now(v)], cuts + [|v.images|];
    }
    assert ops[..|ops|] == ops && faulty[..|ops|] == faulty;
  }

  lemma NothingDone(geo: Geometry, images: seq<seq<Cell>>, moments: seq<Moment>, cuts: seq<nat>)
    requires |moments| == 1 && cuts == [|images|]
    ensures IsRun(moments, [], [], []) && AllSafe(geo, images, moments, [], cuts)
  {}

  lemma OneMore(moments: seq<Moment>, ops: seq<Op>, results: seq<Result<()>>, faulty: seq<bool>,
                op: Op, r: Result<()>, fault: bool, b: Moment)
    requires IsRun(moments, ops, results, faulty) && (!fault ==> r != Failure(Io))
    requires Stepped(moments[|ops|], op, r, b) && Accounted(moments[|ops|], op, r, b)
    ensures IsRun(moments + [b], ops + [op], results + [r], faulty + [fault])
  {
    hide Stepped, Accounted;
  }

  lemma OneMoreSafe(geo: Geometry, images: seq<seq<Cell>>, images': seq<seq<Cell>>, moments: seq<Moment>,
                    ops: seq<Op>, cuts: seq<nat>, op: Op, b: Moment)
    requires AllSafe(geo, images, moments, ops, cuts) && images <= images'
    requires CrashSafe(geo, images', moments[|ops|], op, |images|, |images'|)
    ensures AllSafe(geo, images', moments + [b], ops + [op], cuts + [|images'|])
  {
    hide CrashSafe;
    var ops', cuts', moments' := ops + [op], cuts + [|images'|], moments + [b];
    forall i | 0 <= i < |ops'| ensures CrashSafe(geo, images', moments'[i], ops'[i], cuts'[i], cuts'[i + 1]) {
      if i < |ops| {
        SafeInMore(geo, images, images', moments[i], ops[i], cuts[i], cuts[i + 1]);
      }
    }
  }

  lemma SafeInMore(geo: Geometry, images: seq<seq<Cell>>, images': seq<seq<Cell>>, a: Moment, op: Op, from: nat, to: nat)
    requires CrashSafe(geo, images, a, op, from, to) && images <= images'
    ensures CrashSafe(geo, images', a, op, from, to)
  {
    hide StillReads, Unchanged;
  }

  lemma NowIsFaithful(v: Vault)
    requires v.Valid()
    ensures Faithful(Now(v))
  {
    hide Publishable, Keeps, Reopen;
  }

  // ---- consequences over a whole run ----


  /** The state with `more` zero bytes appended to the file a truncate was growing. */
  function Grown(s: State, op: Op, more: nat): State {
    if op.Truncate? && op.name in s then s[op.name := Mapped(s[op.name], b => b + Zeros(more))] else s
  }

  /** The reference model run through the operations: a success applies, a refusal does
      nothing, except that a refused truncate may have appended zeros. */
  ghost function ApplyAll(s: State, ops: seq<Op>, results: seq<Result<()>>, grown: seq<nat>): State
    requires |results| == |grown| == |ops|
  {
    if ops == [] then s
    else
      var last := |ops| - 1;
      var before := ApplyAll(s, ops[..last], results[..last], grown[..last]);
      if results[last].Success? then Apply(before, ops[last])
      else if grown[last] == 0 then before
      else Grown(before, ops[last], grown[last])
  }

  /** The explicit folders run through the operations that succeeded. */
  function FiledAll(folders: seq<Text>, ops: seq<Op>, results: seq<Result<()>>): seq<Text>
    requires |results| == |ops|
  {
    if ops == [] then folders
    else
      var last := |ops| - 1;
      var before := FiledAll(folders, ops[..last], results[..last]);
      if results[last].Success? then Filed(before, ops[last]) else before
  }

  /** The zeros a refused truncate may leave behind: whole windows, fewer than asked for. */
  ghost predicate ShortOf(s: State, op: Op, r: Result<()>, more: nat) {
    more > 0 ==> (
        && op.Truncate? && r.Failure? && op.name in s && s[op.name].Known?
        && |s[op.name].bytes| + more < op.size && more % GROW_WINDOW == 0)
  }

  lemma LastStep(moments: seq<Moment>, ops: seq<Op>, results: seq<Result<()>>, faulty: seq<bool>)
    requires IsRun(moments, ops, results, faulty) && ops != []
    ensures var n := |ops| - 1;
            && |moments| == |ops| + 1 && |results| == |faulty| == |ops|
            && IsRun(moments[..|ops|], ops[..n], results[..n], faulty[..n])
            && Lawful(moments[n].state, ops[n], results[n], moments[|ops|].state)
            && Filing(moments[n], ops[n], results[n], moments[|ops|])
            && (moments[|ops|].poisoned && !moments[n].poisoned ==> results[n] == Failure(Io))
            && (!faulty[n] ==> results[n] != Failure(Io))
  {
    hide Lawful, Filing;
    assert Stepped(moments[|ops| - 1], ops[|ops| - 1], results[|ops| - 1], moments[|ops|]);
  }

  lemma NothingRun(moments: seq<Moment>, results: seq<Result<()>>, faulty: seq<bool>)
    requires IsRun(moments, [], results, faulty)
    ensures |moments| == 1 && results == []
  {}

  lemma GrowthOfStep(s: State, op: Op, r: Result<()>, s': State) returns (more: nat)
    requires Lawful(s, op, r, s') && r != Failure(Io)
    ensures ShortOf(s, op, r, more)
    ensures s' == if r.Success? then Apply(s, op) else if more == 0 then s else Grown(s, op, more)
  {
    hide Apply;
    more := 0;
    if r.Failure? && s' != s {
      assert PartlyGrown(s, op, s');
      NoZeros(s[op.name].bytes);
      more :| |s[op.name].bytes| + more < op.size && more % GROW_WINDOW == 0
              && s' == s[op.name := Known(s[op.name].bytes + Zeros(more))];
    }
  }

  lemma NoZeros(bytes: seq<Byte>)
    ensures bytes + Zeros(0) == bytes
  {}

  /** Without I/O failures the vault is the plain map, with its folder list, run through the same
      operations, and it is never poisoned. */
  lemma {:induction false} RunRefinesMap(moments: seq<Moment>, ops: seq<Op>, results: seq<Result<()>>, faulty: seq<bool>)
    returns (grown: seq<nat>)
    requires IsRun(moments, ops, results, faulty)
    requires forall i | 0 <= i < |ops| :: !faulty[i]
    ensures |grown| == |ops| && moments[|ops|].state == ApplyAll(moments[0].state, ops, results, grown)
    ensures forall i | 0 <= i < |ops| :: ShortOf(moments[i].state, ops[i], results[i], grown[i])
    ensures !moments[0].poisoned ==>
              && !moments[|ops|].poisoned
              && SameFiling(moments[0].manifest, moments[|ops|].manifest, FiledAll(moments[0].manifest.folders, ops, results))
  {
    hide Lawful, Apply, Grown, ShortOf, Stepped, Accounted, IsRun, Filed;
    if ops == [] {
      NothingRun(moments, results, faulty);
      return [];
    }
    var last := |ops| - 1;
    LastStep(moments, ops, results, faulty);
    var before := RunRefinesMap(moments[..|ops|], ops[..last], results[..last], faulty[..last]);
    var more := GrowthOfStep(moments[last].state, ops[last], results[last], moments[|ops|].state);
    grown := before + [more];
    assert grown[..last] == before;
    assert forall i | 0 <= i < last :: ShortOf(moments[..|ops|][i].state, ops[..last][i], results[..last][i], before[i]);
  }

  /** Once poisoned, every later call is refused and nothing changes any more: not the disk, not
      the manifest, not the contents. */
  lemma {:induction false} PoisonIsFinal(moments: seq<Moment>, ops: seq<Op>, results: seq<Result<()>>, faulty: seq<bool>,
                                         i: nat, j: nat)
    requires IsRun(moments, ops, results, faulty) && i <= j <= |ops| && moments[i].poisoned
    ensures moments[j] == moments[i]
    ensures i < j ==> results[j - 1] == Failure(SessionPoisoned)
    decreases j
  {
    if i < j {
      PoisonIsFinal(moments, ops, results, faulty, i, j - 1);
      assert Stepped(moments[j - 1], ops[j - 1], results[j - 1], moments[j]);
    }
  }

  /** Wherever in a run a call fails without poisoning the session, it has changed neither manifest
      nor contents, unless it was an add over a file with chunks or a truncate that grows a file
      beyond its first window. */
  lemma FailuresAlone(moments: seq<Moment>, ops: seq<Op>, results: seq<Result<()>>, faulty: seq<bool>, i: nat)
    requires IsRun(moments, ops, results, faulty) && i < |ops|
    requires results[i].Failure? && !moments[i + 1].poisoned && !MayDamage(moments[i].manifest, ops[i])
    ensures moments[i + 1].manifest == moments[i].manifest && moments[i + 1].files == moments[i].files
    ensures moments[i + 1].state == moments[i].state
  {
    hide Accounted, Lawful;
    assert Stepped(moments[i], ops[i], results[i], moments[i + 1]);
  }

  /** The calls whose failure may change something without poisoning the session. */
  predicate MayDamage(m: Manifest, op: Op) {
    match op
    case Add(name, _) => ChunkList(m.entries, name) != []
    case Truncate(name, size) => SizeOf(m, name) + GROW_WINDOW < size
    case _ => false
  }

  lemma {:induction false} TicksGrow(moments: seq<Moment>, ops: seq<Op>, results: seq<Result<()>>, faulty: seq<bool>,
                                     i: nat, j: nat)
    requires IsRun(moments, ops, results, faulty) && i <= j <= |ops|
    ensures moments[i].ticks <= moments[j].ticks
    ensures moments[i].ticks == moments[j].ticks ==> moments[i].manifest == moments[j].manifest
    decreases j
  {
    if i < j {
      TicksGrow(moments, ops, results, faulty, i, j - 1);
      assert Stepped(moments[j - 1], ops[j - 1], results[j - 1], moments[j]);
    }
  }

  /** Rollback detection: as long as the counter has not wrapped, a disk image saved at moment i
      is refused when the counter recorded at a later moment j is required, exactly when
      something was committed in between. */
  lemma RollbackIsDetected(moments: seq<Moment>, ops: seq<Op>, results: seq<Result<()>>, faulty: seq<bool>, i: nat, j: nat)
    requires IsRun(moments, ops, results, faulty) && i <= j <= |ops|
    requires Faithful(moments[i]) && Faithful(moments[j]) && !moments[i].poisoned
    requires moments[j].ticks <= U64_MAX
    ensures moments[i].geo.home < |moments[i].disk| && Reopen(moments[i].geo, moments[i].disk).Success?
    ensures Reopen(moments[i].geo, moments[i].disk).value.counter < moments[j].manifest.counter
       <==> moments[i].manifest != moments[j].manifest
  {
    hide Reopen, ViewOf, Stepped, Publishable, Keeps;
    TicksGrow(moments, ops, results, faulty, i, j);
    assert moments[i].manifest.counter == moments[i].ticks;
    assert moments[j].manifest.counter == moments[j].ticks;
  }

  lemma FaithfulImage(m: Moment)
    requires Faithful(m) && !m.poisoned
    ensures Intact(m.geo, m.disk, m.manifest, m.files) && Reopen(m.geo, m.disk) == Success(m.manifest)
    ensures m.geo.home < m.geo.total == |m.disk|
  {
    hide Publishable, Keeps, Reopen;
  }

  /** Requiring the counter recorded at moment j of the image saved at moment i: barring I/O, the
      image is refused exactly when something was committed in between. */
  method OpenedNoOlder(geo: Geometry, image: seq<Cell>, expected: U64, ghost moments: seq<Moment>, ghost ops: seq<Op>,
                       ghost results: seq<Result<()>>, ghost struck: seq<bool>, ghost i: nat, ghost j: nat, faulty: bool)
    returns (r: Result<Vault>)
    requires IsRun(moments, ops, results, struck) && i <= j <= |ops| && moments[j].ticks <= U64_MAX
    requires Faithful(moments[i]) && Faithful(moments[j]) && !moments[i].poisoned
    requires geo == moments[i].geo && image == moments[i].disk && geo.total <= U32_MAX
    requires expected == moments[j].manifest.counter
    ensures r.Success? ==> moments[i].manifest == moments[j].manifest
    ensures r.Success? ==> fresh(r.value) && r.value.Valid() && r.value.files == moments[i].files
    ensures r.Failure? ==> r.error == Io || (r.error.CounterRollback? && moments[i].manifest != moments[j].manifest)
    ensures !faulty ==> r != Failure(Io)
  {
    hide Stepped, Accounted, Intact, Faithful, Reopen, Vault.Valid;
    RollbackIsDetected(moments, ops, results, struck, i, j);
    FaithfulImage(moments[i]);
    r := OpenVault(geo, image, moments[i].files, faulty);
    if r.Failure? {
      return;
    }
    var current := r.value.RequireCounterAtLeast(expected);
    if current.Failure? {
      return Failure(current.error);
    }
  }

  // ---- nothing is left behind ----

  /** No file is damaged. */
  predicate AllKnown(s: State) {
    forall n | n in s :: s[n].Known?
  }

  lemma KnownStays(s: State, op: Op, r: Result<()>, s': State)
    requires Lawful(s, op, r, s') && r != Failure(Io) && AllKnown(s)
    ensures AllKnown(s')
  {
    hide Moved, Under;
  }

  /** In a stretch of a run without I/O failures over an undamaged vault, no chunk is left behind
      with something in it: what is free and not noise at the end was so at the start. */
  lemma {:induction false} NothingLeftBehind(moments: seq<Moment>, ops: seq<Op>, results: seq<Result<()>>, faulty: seq<bool>,
                                             i: nat, j: nat)
    requires IsRun(moments, ops, results, faulty) && i <= j <= |ops|
    requires AllKnown(moments[i].state) && !moments[i].poisoned
    requires forall k | i <= k < j :: !faulty[k]
    ensures AllKnown(moments[j].state) && !moments[j].poisoned && moments[j].geo == moments[i].geo
    ensures Scrubbed(moments[i].geo, moments[i].manifest, moments[i].disk, moments[j].manifest, moments[j].disk)
    decreases j
  {
    hide Lawful, Scrubbed, AllKnown, Filing, Answered;
    if i < j {
      var a, b := moments[j - 1], moments[j];
      NothingLeftBehind(moments, ops, results, faulty, i, j - 1);
      assert Stepped(a, ops[j - 1], results[j - 1], b) && Accounted(a, ops[j - 1], results[j - 1], b);
      KnownStays(a.state, ops[j - 1], results[j - 1], b.state);
      KnownIsSound(a.state, ops[j - 1]);
      ScrubbedTwice(a.geo, moments[i].manifest, moments[i].disk, a.manifest, a.disk, b.manifest, b.disk);
    } else {
      ScrubbedSame(moments[i].geo, moments[i].manifest, moments[i].disk);
    }
  }

  lemma KnownIsSound(s: State, op: Op)
    requires AllKnown(s)
    ensures Sound(s, op)
  {}

  /** In such a stretch every answer is told beforehand from the manifest: a call returns its
      refusal or succeeds. */
  lemma AnswersAreTold(moments: seq<Moment>, ops: seq<Op>, results: seq<Result<()>>, faulty: seq<bool>, i: nat)
    requires IsRun(moments, ops, results, faulty) && i < |ops|
    requires AllKnown(moments[0].state) && !moments[0].poisoned
    requires forall k | 0 <= k <= i :: !faulty[k]
    ensures var m := moments[i];
            results[i] == Verdict(Refusal(m.geo, m.manifest, false, ops[i]))
  {
    hide Lawful, Scrubbed, AllKnown, Filing, Wipes, AddRefusal, CreateRefusal, WriteRefusal, TruncateRefusal, RenameRefusal,
      DeleteRefusal, CreateFolderRefusal, DeleteFolderRefusal, RenameFolderRefusal;
    NothingLeftBehind(moments, ops, results, faulty, 0, i);
    KnownIsSound(moments[i].state, ops[i]);
    assert Accounted(moments[i], ops[i], results[i], moments[i + 1]);
  }

  /** So the disk of a vault that was built fresh and never met an I/O failure holds, at every
      moment, the manifest, the current files, and noise. */
  lemma OnlyCurrentFiles(moments: seq<Moment>, ops: seq<Op>, results: seq<Result<()>>, faulty: seq<bool>, j: nat)
    requires IsRun(moments, ops, results, faulty) && j <= |ops|
    requires AllKnown(moments[0].state) && !moments[0].poisoned
    requires Leftover(moments[0].geo, moments[0].manifest.entries, moments[0].disk) == {}
    requires Faithful(moments[j]) && forall k | 0 <= k < j :: !faulty[k]
    ensures OnlyCurrent(moments[j].geo, moments[j].manifest.entries, moments[j].files, moments[j].disk)
  {
    hide Stepped, Accounted, Reopen, Publishable, OnlyCurrent, Leftover;
    var m := moments[j];
    NothingLeftBehind(moments, ops, results, faulty, 0, j);
    KnownAreFiles(m);
    NothingElse(m.geo, m.manifest, m.files, m.disk);
  }

  lemma KnownAreFiles(m: Moment)
    requires AllKnown(m.state) && m.state == ViewOf(Names(m.manifest.entries), m.files)
    requires m.files.Keys <= Names(m.manifest.entries)
    ensures m.files.Keys == Names(m.manifest.entries)
  {
    forall n | n in Names(m.manifest.entries) ensures n in m.files {
      assert m.state[n].Known?;
    }
  }
}
