/** How long the manifest of a migrated vault becomes: every reported folder is stored
    explicitly, so it can outgrow the source's (crates/farewell_format/src/vault.rs,
    `migrate_vault`). */
module MigrationSpec {
  import opened Bytes
  import opened Texts
  import opened Wrappers
  import opened Codecs
  import opened Manifests
  import opened ManifestCodec
  import opened Store
  import opened VaultSpec
  import opened TruncateSpec
  import opened Orders
  import opened Paths
  import opened Folders
  import opened FolderSpec

  // ---- sizes ----

  const FRAME_LEN: nat := 25

  /** Serialized length of a set of folder paths. */
  ghost function PathsLen(paths: set<seq<Byte>>): nat {
    if paths == {} then 0 else var p :| p in paths; 2 + |p| + PathsLen(paths - {p})
  }

  /** Serialized length of the copied files: each takes exactly the chunks its size needs. */
  function CopiedLen(entries: seq<FileEntry>): nat {
    if entries == [] then 0 else EntryLen(entries[0].name, Pieces(entries[0].size)) + CopiedLen(entries[1..])
  }

  /** Serialized length of the manifest that the migration of m ends with. */
  ghost function PlannedLen(m: Manifest): nat {
    FRAME_LEN + PathsLen(FolderSet(m)) + CopiedLen(m.entries) + |OwnerText(m.owner)|
  }

  lemma {:induction false} PathsLenWithout(paths: set<seq<Byte>>, p: seq<Byte>)
    requires p in paths
    ensures PathsLen(paths) == 2 + |p| + PathsLen(paths - {p})
  {
    var q :| q in paths && PathsLen(paths) == 2 + |q| + PathsLen(paths - {q});
    if q != p {
      PathsLenWithout(paths - {q}, p);
      PathsLenWithout(paths - {p}, q);
      assert paths - {q} - {p} == paths - {p} - {q};
    }
  }

  lemma {:induction false} PathsLenJoin(a: set<seq<Byte>>, b: set<seq<Byte>>)
    requires a !! b
    ensures PathsLen(a + b) == PathsLen(a) + PathsLen(b)
  {
    if a == {} {
      assert a + b == b;
    } else {
      var p :| p in a;
      PathsLenWithout(a, p);
      PathsLenWithout(a + b, p);
      assert a + b - {p} == (a - {p}) + b;
      PathsLenJoin(a - {p}, b);
    }
  }

  /** An ascending list of paths, printed, is as long as its set of members says. */
  lemma {:induction false} ListingLen(list: seq<Text>)
    requires Ascending(list)
    ensures |PrintAll(PrintFolder, list)| == PathsLen(Members(list))
  {
    if list != [] {
      FirstApart(list);
      PathsLenWithout(Members(list), list[0]);
      ListingLen(list[1..]);
    }
  }

  lemma {:induction false} CopiedLenSnoc(entries: seq<FileEntry>, e: FileEntry)
    ensures CopiedLen(entries + [e]) == CopiedLen(entries) + EntryLen(e.name, Pieces(e.size))
  {
    if entries != [] {
      assert (entries + [e])[1..] == entries[1..] + [e];
      CopiedLenSnoc(entries[1..], e);
    }
  }

  lemma {:induction false} CopiedLenPrefix(entries: seq<FileEntry>, i: nat)
    requires i <= |entries|
    ensures CopiedLen(entries[..i]) <= CopiedLen(entries)
    decreases |entries| - i
  {
    if i < |entries| {
      CopiedLenSnoc(entries[..i], entries[i]);
      assert entries[..i] + [entries[i]] == entries[..i + 1];
      CopiedLenPrefix(entries, i + 1);
    } else {
      assert entries[..i] == entries;
    }
  }

  /** The length of a manifest, part by part. */
  lemma PrintedLen(m: Manifest)
    ensures |Print(m)| == FRAME_LEN + |PrintAll(PrintFolder, m.folders)| + |PrintAll(PrintEntry, m.entries)|
                          + |OwnerText(m.owner)| + |m.childSlots|
  {
    assert |PrintHead(m)| == 20;
  }

  lemma {:induction false} ListingGrows(list: seq<Text>, i: nat)
    requires i <= |list|
    ensures |PrintAll(PrintFolder, list[..i])| <= |PrintAll(PrintFolder, list)|
    decreases |list| - i
  {
    if i < |list| {
      PrintAllSnoc(PrintFolder, list[..i], list[i]);
      assert list[..i] + [list[i]] == list[..i + 1];
      ListingGrows(list, i + 1);
    } else {
      assert list[..i] == list;
    }
  }

  /** A folder more. */
  lemma FolderAddedLen(m: Manifest, list: seq<Text>, i: nat)
    requires i < |list| && m.folders == list[..i]
    ensures |Print(FolderAdded(m, list[i]))| == |Print(m)| + 2 + |list[i]|
    ensures |PrintAll(PrintFolder, list[..i + 1])| == |PrintAll(PrintFolder, list[..i])| + 2 + |list[i]|
  {
    hide Print;
    PrintedLen(m);
    PrintedLen(FolderAdded(m, list[i]));
    PrintAllSnoc(PrintFolder, list[..i], list[i]);
    assert list[..i] + [list[i]] == list[..i + 1];
  }

  /** An empty file more. */
  lemma EmptyAddedLen(m: Manifest, name: Text)
    requires Find(m.entries, name).None?
    ensures GrownLen(m, name, 0) == |Print(m)| + EntryLen(name, 0) == |Print(Upserted(m, FileEntry(name, 0, [])))|
  {
    hide Print;
    WithoutAbsent(m.entries, name);
    assert m.(entries := Without(m.entries, name)) == m;
    UpsertedLen(m, FileEntry(name, 0, []));
  }

  /** A file rewritten with another number of chunks. */
  lemma RewrittenLen(m: Manifest, e: FileEntry, chunkCount: nat)
    requires UniqueNames(m.entries) && e in m.entries
    ensures GrownLen(m, e.name, chunkCount) == |Print(m)| - 4 * |e.chunks| + 4 * chunkCount
  {
    hide Print;
    EntriesLen(m.entries, e);
    PrintedLen(m);
    PrintedLen(m.(entries := Without(m.entries, e.name)));
  }

  // ---- a vault whose migration does not fit ----

  /** The path b/b/.../b of n components. */
  function Ladder(b: Byte, n: nat): (s: seq<Byte>)
    requires n > 0
    ensures |s| == 2 * n - 1 && s[0] == b
    ensures forall c | c in s :: c == b || c == SLASH
  {
    if n == 1 then [b] else Ladder(b, n - 1) + [SLASH, b]
  }

  function Rungs(b: Byte, n: nat): set<seq<Byte>> {
    set i | 0 < i <= n :: Ladder(b, i)
  }

  /** The n-th odd number completes the n-th square. */
  function Rise(n: nat): (total: nat)
    ensures total == n * n + 2 * n
  {
    if n == 0 then 0 else Rise(n - 1) + 2 * n + 1
  }

  lemma {:induction false} RungsLen(b: Byte, n: nat)
    ensures PathsLen(Rungs(b, n)) == Rise(n)
  {
    hide Rungs, Ladder;
    TopRung(b, n);
    if n > 0 {
      PathsLenWithout(Rungs(b, n), Ladder(b, n));
      RungsLen(b, n - 1);
    }
  }

  lemma TopRung(b: Byte, n: nat)
    ensures n == 0 ==> Rungs(b, n) == {}
    ensures n > 0 ==> Ladder(b, n) in Rungs(b, n) && Rungs(b, n) - {Ladder(b, n)} == Rungs(b, n - 1)
  {
    hide Ladder;
    if n > 0 {
      forall i | 0 < i < n ensures Ladder(b, i) != Ladder(b, n) {
        assert |Ladder(b, i)| < |Ladder(b, n)|;
      }
    }
  }

  function Copies(b: Byte, n: nat): seq<seq<Byte>> {
    seq(n, _ => [b])
  }

  lemma {:induction false} LadderIsJoin(b: Byte, n: nat)
    requires b != SLASH && n > 0
    ensures Ladder(b, n) == Join(Copies(b, n)) && Proper(Copies(b, n))
  {
    hide Join;
    if n > 1 {
      LadderIsJoin(b, n - 1);
      assert Copies(b, n) == Copies(b, n - 1) + [[b]];
      JoinSnoc(Copies(b, n - 1), [b]);
    } else {
      assert Copies(b, 1) == [[b]];
      JoinSnoc([], [b]);
      assert [] + [[b]] == [[b]];
    }
  }

  lemma LadderComponents(b: Byte, n: nat)
    requires b != SLASH && n > 0
    ensures Components(Ladder(b, n)) == Copies(b, n)
  {
    hide Ladder, Join, Copies, Components;
    LadderIsJoin(b, n);
    ComponentsOfJoin(Copies(b, n));
  }

  lemma LadderAncestors(b: Byte, n: nat)
    requires b != SLASH && n > 0
    ensures Members(Ancestors(Ladder(b, n))) == Rungs(b, n)
  {
    hide Ladder, Components, Join;
    LadderComponents(b, n);
    var rungs := Ancestors(Ladder(b, n));
    forall i | 0 <= i < n ensures rungs[i] == Ladder(b, i + 1) {
      LadderIsJoin(b, i + 1);
      assert Copies(b, n)[..i + 1] == Copies(b, i + 1);
    }
    assert |rungs| == n;
    forall p | p in Rungs(b, n) ensures p in rungs {
      var i :| 0 < i <= n && p == Ladder(b, i);
      assert rungs[i - 1] == p;
    }
  }

  lemma {:induction false} LadderIsText(b: Byte, n: nat)
    requires b < 0x80 && n > 0
    ensures Utf8(Ladder(b, n))
  {
    assert Utf8([SLASH, b]) by {
      assert Utf8([SLASH, b][1..]);
    }
    if n > 1 {
      LadderIsText(b, n - 1);
      Utf8Concat(Ladder(b, n - 1), [SLASH, b]);
    } else {
      assert [b][1..] == [];
    }
  }

  /** An empty file 127 folders deep; its name of 255 bytes is as long as a name may be. */
  function Climber(b: Byte): (e: FileEntry)
    requires 0x61 <= b < 0x80
    ensures |e.name| == 255 && e.name[0] == b && e.size == 0 && e.chunks == []
  {
    LadderIsText(b, 128);
    FileEntry(Ladder(b, 128), 0, [])
  }

  lemma ClimberFolders(b: Byte)
    requires 0x61 <= b < 0x80
    ensures Members(ParentAncestors(Climber(b).name)) == Rungs(b, 127)
  {
    hide Ancestors;
    var s := Climber(b).name;
    assert s == Ladder(b, 127) + [SLASH, b];
    assert LastSlash(s[..254]) == 253;
    assert s[..253] == Ladder(b, 127);
    LadderAncestors(b, 127);
  }

  lemma RungsApart(b: Byte, c: Byte, n: nat)
    requires b != c
    ensures Rungs(b, n) !! Rungs(c, n)
  {
    forall p | p in Rungs(b, n) ensures p !in Rungs(c, n) {
      assert p[0] == b;
    }
  }

  function Crowd(): seq<FileEntry> {
    [Climber(0x61), Climber(0x62), Climber(0x63), Climber(0x64)]
  }

  lemma FoldersOfFour(a: FileEntry, b: FileEntry, c: FileEntry, d: FileEntry)
    ensures ImpliedSet([a, b, c, d])
         == Members(ParentAncestors(a.name)) + Members(ParentAncestors(b.name))
            + Members(ParentAncestors(c.name)) + Members(ParentAncestors(d.name))
  {
    hide ParentAncestors;
    assert forall e :: e in [a, b, c, d] <==> e == a || e == b || e == c || e == d;
  }

  lemma LenOfTwo(c: FileEntry, d: FileEntry)
    ensures CopiedLen([c, d]) == EntryLen(c.name, Pieces(c.size)) + EntryLen(d.name, Pieces(d.size))
    ensures |PrintAll(PrintEntry, [c, d])| == |PrintEntry(c)| + |PrintEntry(d)|
  {
    hide EntryLen, PrintEntry;
    assert [c, d][1..] == [d] && [d][1..] == [];
    assert CopiedLen([d]) == EntryLen(d.name, Pieces(d.size));
    assert PrintAll(PrintEntry, [d]) == PrintEntry(d) + PrintAll(PrintEntry, [d][1..]);
  }

  lemma LenOfFour(a: FileEntry, b: FileEntry, c: FileEntry, d: FileEntry)
    ensures CopiedLen([a, b, c, d]) == EntryLen(a.name, Pieces(a.size)) + EntryLen(b.name, Pieces(b.size))
                                       + EntryLen(c.name, Pieces(c.size)) + EntryLen(d.name, Pieces(d.size))
    ensures |PrintAll(PrintEntry, [a, b, c, d])| == |PrintEntry(a)| + |PrintEntry(b)| + |PrintEntry(c)| + |PrintEntry(d)|
  {
    hide EntryLen, PrintEntry;
    assert [a, b, c, d][1..] == [b, c, d] && [b, c, d][1..] == [c, d] && [c, d][1..] == [d];
    LenOfTwo(c, d);
    assert CopiedLen([b, c, d]) == EntryLen(b.name, Pieces(b.size)) + CopiedLen([c, d]);
    assert PrintAll(PrintEntry, [b, c, d]) == PrintEntry(b) + PrintAll(PrintEntry, [c, d]);
  }

  lemma CrowdFolders(m: Manifest)
    requires m.entries == Crowd() && m.folders == []
    ensures FolderSet(m) == Rungs(0x61, 127) + Rungs(0x62, 127) + Rungs(0x63, 127) + Rungs(0x64, 127)
  {
    hide Climber, Rungs, ParentAncestors, ImpliedSet;
    ClimberFolders(0x61);
    ClimberFolders(0x62);
    ClimberFolders(0x63);
    ClimberFolders(0x64);
    FoldersOfFour(Climber(0x61), Climber(0x62), Climber(0x63), Climber(0x64));
  }

  lemma CrowdPlan(m: Manifest)
    requires m.entries == Crowd() && m.folders == [] && m.owner == None
    ensures PlannedLen(m) == FRAME_LEN + 4 * Rise(127) + 4 * 268
  {
    hide Climber, FolderSet, Rungs, Rise;
    var a, b, c, d := Rungs(0x61, 127), Rungs(0x62, 127), Rungs(0x63, 127), Rungs(0x64, 127);
    CrowdFolders(m);
    RungsLen(0x61, 127);
    RungsLen(0x62, 127);
    RungsLen(0x63, 127);
    RungsLen(0x64, 127);
    RungsApart(0x61, 0x62, 127);
    RungsApart(0x61, 0x63, 127);
    RungsApart(0x61, 0x64, 127);
    RungsApart(0x62, 0x63, 127);
    RungsApart(0x62, 0x64, 127);
    RungsApart(0x63, 0x64, 127);
    PathsLenJoin(a, b);
    PathsLenJoin(a + b, c);
    PathsLenJoin(a + b + c, d);
    CrowdCopied();
  }

  lemma CrowdCopied()
    ensures CopiedLen(Crowd()) == 4 * 268
    ensures |PrintAll(PrintEntry, Crowd())| == 4 * 268
  {
    hide Climber, CopiedLen, PrintAll;
    LenOfFour(Climber(0x61), Climber(0x62), Climber(0x63), Climber(0x64));
    ClimberLen(0x61);
    ClimberLen(0x62);
    ClimberLen(0x63);
    ClimberLen(0x64);
  }

  lemma ClimberLen(b: Byte)
    requires 0x61 <= b < 0x80
    ensures |PrintEntry(Climber(b))| == 268 == EntryLen(Climber(b).name, Pieces(Climber(b).size))
  {
    hide Climber;
  }

  lemma ClimberIsValid(b: Byte)
    requires 0x61 <= b < 0x7F
    ensures ValidName(Climber(b).name)
  {}

  lemma CrowdTexts()
    ensures forall e | e in Crowd() :: ValidName(e.name) && e.size == 0 && e.chunks == []
    ensures UniqueNames(Crowd())
  {
    hide ValidName, Climber;
    ClimberIsValid(0x61);
    ClimberIsValid(0x62);
    ClimberIsValid(0x63);
    ClimberIsValid(0x64);
  }

  lemma CrowdLayout(geo: Geometry)
    requires geo.home < geo.total
    ensures Layout(geo, Crowd())
  {
    hide Crowd, ValidName;
    CrowdTexts();
  }

  /** Four empty files make a source of 1,097 bytes whose migration needs 66,629, more than
      the chunk that has to hold the manifest. */
  lemma DeepNamesOutgrow(geo: Geometry, m: Manifest)
    requires m.entries == Crowd() && m.folders == [] && m.owner == None && m.childSlots == []
    requires geo.home < geo.total
    ensures Publishable(geo, m) && Serialized(m) == Success(Print(m)) && |Print(m)| == 1097
    ensures PlannedLen(m) == 66629 > CHUNK_PLAINTEXT_LEN
  {
    hide Print, PlannedLen, Crowd, Layout, Rise, ValidName;
    CrowdPlan(m);
    assert 127 * 127 + 2 * 127 == 16383;
    CrowdCopied();
    CrowdTexts();
    CrowdLayout(geo);
    PrintedLen(m);
  }
}
