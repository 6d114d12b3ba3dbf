/** The manifest's byte format: what `serialize` prints and what `parse` accepts
    (crates/farewell_format/src/manifest.rs). */
module ManifestCodec {
  import opened Bytes
  import opened Texts
  import opened Wrappers
  import opened Codecs
  import opened Manifests

  const MAGIC: seq<Byte> := [0x4D, 0x46, 0x53, 0x54]
  const VERSION: nat := 4
  const VERSION_MIN: nat := 3
  const MIN_ENTRY_LEN: nat := 14
  const MIN_FOLDER_LEN: nat := 3

  // ---- printing ----

  function PrintChunk(c: U32): seq<Byte> {
    Le(c, 4)
  }

  function PrintEntry(e: FileEntry): seq<Byte> {
    Le(|e.name|, 1) + e.name + Le(e.size, 8) + Le(|e.chunks|, 4) + PrintAll(PrintChunk, e.chunks)
  }

  function PrintFolder(f: Text): seq<Byte> {
    Le(|f|, 2) + f
  }

  function PrintHead(m: Manifest): seq<Byte> {
    MAGIC + Le(VERSION, 2) + [0, 0] + Le(m.counter, 8) + Le(|m.entries|, 4)
  }

  function PrintTail(m: Manifest): seq<Byte> {
    Le(|m.childSlots|, 1) + m.childSlots
    + Le(|m.folders|, 2) + PrintAll(PrintFolder, m.folders)
    + Le(|OwnerText(m.owner)|, 2) + OwnerText(m.owner)
  }

  function Print(m: Manifest): seq<Byte> {
    PrintHead(m) + PrintAll(PrintEntry, m.entries) + PrintTail(m)
  }

  predicate ValidTexts(m: Manifest) {
    && (forall e | e in m.entries :: ValidName(e.name))
    && (forall f | f in m.folders :: ValidFolderPath(f))
    && |OwnerText(m.owner)| <= MAX_OWNER_LEN
  }

  function Serialized(m: Manifest): Result<seq<Byte>> {
    if !ValidTexts(m) then Failure(InvalidName)
    else if |Print(m)| > CHUNK_PLAINTEXT_LEN then Failure(ManifestOverflow)
    else Success(Print(m))
  }

  // ---- parsing ----

  function ParseText(width: nat, longest: nat, what: string, s: seq<Byte>): Parsed<Text> {
    match TakeLe(width, s)
    case Rejected(e) => Rejected(e)
    case Parsed(len, rest) =>
      if len == 0 || len > longest then Rejected(InvalidName)
      else
        match TakeBytes(len, rest)
        case Rejected(e) => Rejected(e)
        case Parsed(b, rest') => if Utf8(b) then Parsed(b, rest') else Rejected(BadManifest(what))
  }

  function ParseChunk(s: seq<Byte>): Parsed<U32> {
    match TakeLe(4, s)
    case Rejected(e) => Rejected(e)
    case Parsed(c, rest) => Widths(); Parsed(c, rest)
  }

  function ParseName(s: seq<Byte>): Parsed<Text> {
    ParseText(1, MAX_NAME_LEN, "non-UTF8 name", s)
  }

  function ParseFolder(s: seq<Byte>): Parsed<Text> {
    ParseText(2, MAX_FOLDER_PATH_LEN, "non-UTF8 folder", s)
  }

  function ParseEntryBody(name: Text, s: seq<Byte>): Parsed<FileEntry> {
    match TakeLe(8, s)
    case Rejected(e) => Rejected(e)
    case Parsed(size, rest) =>
      match TakeLe(4, rest)
      case Rejected(e) => Rejected(e)
      case Parsed(n, rest') =>
        match ParseMany(ParseChunk, n, rest')
        case Rejected(e) => Rejected(e)
        case Parsed(chunks, rest'') =>
          Widths();
          Parsed(FileEntry(name, size, chunks), rest'')
  }

  function ParseEntry(s: seq<Byte>): Parsed<FileEntry> {
    match ParseName(s)
    case Rejected(e) => Rejected(e)
    case Parsed(name, rest) => ParseEntryBody(name, rest)
  }

  function ParseOwner(version: nat, s: seq<Byte>): Parsed<Option<Text>> {
    if version < 4 then Parsed(None, s)
    else
      match TakeLe(2, s)
      case Rejected(e) => Rejected(e)
      case Parsed(len, rest) =>
        if len == 0 then Parsed(None, rest)
        else if len > MAX_OWNER_LEN then Rejected(BadManifest("owner too long"))
        else
          match TakeBytes(len, rest)
          case Rejected(e) => Rejected(e)
          case Parsed(b, rest') => if Utf8(b) then Parsed(Some(b), rest') else Rejected(BadManifest("non-UTF8 owner"))
  }

  function ParseChildSlots(s: seq<Byte>): Parsed<seq<Byte>> {
    match TakeLe(1, s)
    case Rejected(e) => Rejected(e)
    case Parsed(n, rest) => TakeBytes(n, rest)
  }

  function ParseFolders(s: seq<Byte>): Parsed<seq<Text>> {
    match TakeLe(2, s)
    case Rejected(e) => Rejected(e)
    case Parsed(n, rest) => ParseMany(ParseFolder, n, rest)
  }

  function ParseEntries(s: seq<Byte>): Parsed<seq<FileEntry>> {
    match TakeLe(4, s)
    case Rejected(e) => Rejected(e)
    case Parsed(n, rest) => ParseMany(ParseEntry, n, rest)
  }

  /** Magic, version and the two reserved bytes; yields the version. */
  function ParsePreamble(s: seq<Byte>): Parsed<nat> {
    match TakeBytes(4, s)
    case Rejected(e) => Rejected(e)
    case Parsed(magic, s1) =>
      if magic != MAGIC then Rejected(BadManifest("bad manifest magic"))
      else
        match TakeLe(2, s1)
        case Rejected(e) => Rejected(e)
        case Parsed(version, s2) =>
          if version < VERSION_MIN || version > VERSION then Rejected(BadManifest("unsupported manifest version"))
          else
            match TakeBytes(2, s2)
            case Rejected(e) => Rejected(e)
            case Parsed(_, s3) => Parsed(version, s3)
  }

  function ParseAfterEntries(version: nat, counter: U64, entries: seq<FileEntry>, s: seq<Byte>): Parsed<Manifest> {
    match ParseChildSlots(s)
    case Rejected(e) => Rejected(e)
    case Parsed(slots, s1) =>
      match ParseFolders(s1)
      case Rejected(e) => Rejected(e)
      case Parsed(folders, s2) =>
        match ParseOwner(version, s2)
        case Rejected(e) => Rejected(e)
        case Parsed(owner, s3) => Parsed(Manifest(counter, entries, slots, folders, owner), s3)
  }

  function ParseManifest(s: seq<Byte>): Parsed<Manifest> {
    match ParsePreamble(s)
    case Rejected(e) => Rejected(e)
    case Parsed(version, s1) =>
      match TakeLe(8, s1)
      case Rejected(e) => Rejected(e)
      case Parsed(counter, s2) =>
        match ParseEntries(s2)
        case Rejected(e) => Rejected(e)
        case Parsed(entries, s3) =>
          Widths();
          ParseAfterEntries(version, counter, entries, s3)
  }

  function Parse(buf: seq<Byte>): Result<Manifest> {
    match ParseManifest(buf)
    case Rejected(e) => Failure(e)
    case Parsed(m, _) => Success(m)
  }

  lemma EntryFindsMalformed(s: seq<Byte>)
    ensures ParseEntry(s).Rejected? ==> Malformed(ParseEntry(s).error)
  {
    hide ParseMany;
    forall n, rest ensures ParseMany(ParseChunk, n, rest).Rejected? ==> Malformed(ParseMany(ParseChunk, n, rest).error) {
      ParseManyFinds(ParseChunk, n, rest);
    }
  }

  lemma ListsFindMalformed(s: seq<Byte>)
    ensures ParseEntries(s).Rejected? ==> Malformed(ParseEntries(s).error)
    ensures ParseFolders(s).Rejected? ==> Malformed(ParseFolders(s).error)
  {
    hide ParseMany, ParseEntry;
    forall rest ensures ParseEntry(rest).Rejected? ==> Malformed(ParseEntry(rest).error) {
      EntryFindsMalformed(rest);
    }
    if TakeLe(4, s).Parsed? {
      ParseManyFinds(ParseEntry, TakeLe(4, s).value, TakeLe(4, s).rest);
    }
    if TakeLe(2, s).Parsed? {
      ParseManyFinds(ParseFolder, TakeLe(2, s).value, TakeLe(2, s).rest);
    }
  }

  /** A buffer that does not parse is called malformed, and nothing else. */
  lemma ParseErrors(buf: seq<Byte>)
    ensures Parse(buf).Failure? ==> Malformed(Parse(buf).error)
  {
    hide ParseEntries, ParseFolders;
    forall s
      ensures ParseEntries(s).Rejected? ==> Malformed(ParseEntries(s).error)
      ensures ParseFolders(s).Rejected? ==> Malformed(ParseFolders(s).error)
    {
      ListsFindMalformed(s);
    }
  }

  // ---- every parser inverts its printer ----

  predicate EntryFits(e: FileEntry) {
    0 < |e.name| <= MAX_NAME_LEN && |e.chunks| <= U32_MAX
  }

  predicate FolderFits(f: Text) {
    0 < |f| <= MAX_FOLDER_PATH_LEN
  }

  /** Every length fits its field. */
  predicate Fits(m: Manifest) {
    && |m.entries| <= U32_MAX && (forall e | e in m.entries :: EntryFits(e))
    && |m.childSlots| <= 0xFF
    && |m.folders| <= 0xFFFF && (forall f | f in m.folders :: FolderFits(f))
    && |OwnerText(m.owner)| <= MAX_OWNER_LEN
  }

  lemma ChunkInverts()
    ensures Inverts(ParseChunk, PrintChunk, (c: U32) => true)
  {
    Widths();
    forall c: U32, rest: seq<Byte> ensures ParseChunk(PrintChunk(c) + rest) == Parsed(c, rest) {
      TakeLeInverts(4, c, rest);
    }
  }

  lemma TextInverts(width: nat, longest: nat, what: string, text: Text, rest: seq<Byte>)
    requires 0 < |text| <= longest < Pow256(width)
    ensures ParseText(width, longest, what, Le(|text|, width) + text + rest) == Parsed(text, rest)
  {
    assert Le(|text|, width) + text + rest == Le(|text|, width) + (text + rest);
    TakeLeInverts(width, |text|, text + rest);
    TakeBytesLaws(|text|, text, rest, []);
  }

  lemma EntryInverts()
    ensures Inverts(ParseEntry, PrintEntry, EntryFits)
  {
    Widths();
    forall e: FileEntry, rest: seq<Byte> | EntryFits(e)
      ensures ParseEntry(PrintEntry(e) + rest) == Parsed(e, rest)
    {
      var s3 := PrintAll(PrintChunk, e.chunks) + rest;
      var s2 := Le(|e.chunks|, 4) + s3;
      var s1 := Le(e.size, 8) + s2;
      assert PrintEntry(e) + rest == Le(|e.name|, 1) + e.name + s1;
      TextInverts(1, MAX_NAME_LEN, "non-UTF8 name", e.name, s1);
      TakeLeInverts(8, e.size, s2);
      TakeLeInverts(4, |e.chunks|, s3);
      ChunkInverts();
      ParseManyInverts(ParseChunk, PrintChunk, (c: U32) => true, e.chunks, rest);
    }
  }

  lemma FolderInverts()
    ensures Inverts(ParseFolder, PrintFolder, FolderFits)
  {
    Widths();
    forall f: Text, rest: seq<Byte> | FolderFits(f)
      ensures ParseFolder(PrintFolder(f) + rest) == Parsed(f, rest)
    {
      TextInverts(2, MAX_FOLDER_PATH_LEN, "non-UTF8 folder", f, rest);
    }
  }

  lemma OwnerInverts(owner: Option<Text>, rest: seq<Byte>)
    requires |OwnerText(owner)| <= MAX_OWNER_LEN
    ensures ParseOwner(VERSION, Le(|OwnerText(owner)|, 2) + OwnerText(owner) + rest) == Parsed(Recorded(owner), rest)
  {
    Widths();
    var o := OwnerText(owner);
    assert Le(|o|, 2) + o + rest == Le(|o|, 2) + (o + rest);
    TakeLeInverts(2, |o|, o + rest);
    TakeBytesLaws(|o|, o, rest, []);
    assert |o| == 0 ==> o + rest == rest;
  }

  // ---- the size check leaves no room for a truncated count ----

  lemma CountsFit(m: Manifest)
    requires Serialized(m).Success?
    ensures Fits(m) <==> |m.childSlots| <= 0xFF
    ensures |m.entries| <= U32_MAX && |m.folders| <= 0xFFFF
    ensures forall e | e in m.entries :: EntryFits(e)
  {
    PrintAllLength(PrintEntry, 1, m.entries);
    PrintAllLength(PrintFolder, 2, m.folders);
    forall e | e in m.entries ensures EntryFits(e) {
      PrintAllMember(PrintEntry, m.entries, e);
      PrintAllLength(PrintChunk, 4, e.chunks);
    }
  }

  lemma {:induction false} PrintAllMember<T>(put: Printer<T>, xs: seq<T>, x: T)
    requires x in xs
    ensures |put(x)| <= |PrintAll(put, xs)|
  {
    if x != xs[0] {
      PrintAllMember(put, xs[1..], x);
    }
  }

  // ---- round trip ----

  /** An empty owner string is stored like no owner. */
  function Recorded(owner: Option<Text>): Option<Text> {
    if OwnerText(owner) == [] then None else owner
  }

  lemma TailInverts(m: Manifest, rest: seq<Byte>)
    requires Fits(m)
    ensures ParseAfterEntries(VERSION, m.counter, m.entries, PrintTail(m) + rest)
         == Parsed(m.(owner := Recorded(m.owner)), rest)
  {
    hide ParseFolder, PrintFolder, FolderFits, ParseOwner, Le, PrintAll;
    Widths();
    var s3 := Le(|OwnerText(m.owner)|, 2) + OwnerText(m.owner) + rest;
    var s2 := PrintAll(PrintFolder, m.folders) + s3;
    var s1 := Le(|m.folders|, 2) + s2;
    assert PrintTail(m) + rest == Le(|m.childSlots|, 1) + (m.childSlots + s1);
    TakeLeInverts(1, |m.childSlots|, m.childSlots + s1);
    TakeBytesLaws(|m.childSlots|, m.childSlots, s1, []);
    TakeLeInverts(2, |m.folders|, s2);
    FolderInverts();
    ParseManyInverts(ParseFolder, PrintFolder, FolderFits, m.folders, s3);
    OwnerInverts(m.owner, rest);
  }

  lemma EntriesInvert(m: Manifest, rest: seq<Byte>)
    requires Fits(m)
    ensures ParseEntries(Le(|m.entries|, 4) + PrintAll(PrintEntry, m.entries) + rest) == Parsed(m.entries, rest)
  {
    Widths();
    var s1 := PrintAll(PrintEntry, m.entries) + rest;
    assert Le(|m.entries|, 4) + PrintAll(PrintEntry, m.entries) + rest == Le(|m.entries|, 4) + s1;
    TakeLeInverts(4, |m.entries|, s1);
    EntryInverts();
    ParseManyInverts(ParseEntry, PrintEntry, EntryFits, m.entries, rest);
  }

  /** Versions 3 and 4 are read, whatever the two reserved bytes are, and no other version. */
  lemma PreambleReads(version: nat, reserved: seq<Byte>, rest: seq<Byte>)
    requires version < 0x1_0000 && |reserved| == 2
    ensures var r := ParsePreamble(MAGIC + Le(version, 2) + reserved + rest);
            if version == 3 || version == 4 then r == Parsed(version, rest) else r.Rejected?
  {
    hide Le, FromLe;
    Widths();
    var s2 := reserved + rest;
    var s1 := Le(version, 2) + s2;
    assert MAGIC + Le(version, 2) + reserved + rest == MAGIC + s1;
    TakeBytesLaws(4, MAGIC, s1, []);
    TakeLeInverts(2, version, s2);
    TakeBytesLaws(2, reserved, rest, []);
  }

  /** What parsing a printed manifest gives, with anything after it left alone. */
  lemma PrintThenParse(m: Manifest, rest: seq<Byte>)
    requires Fits(m)
    ensures ParseManifest(Print(m) + rest) == Parsed(m.(owner := Recorded(m.owner)), rest)
  {
    hide PrintTail, ParseAfterEntries, ParseEntries, ParsePreamble, Fits;
    Widths();
    var s2 := PrintTail(m) + rest;
    var s1 := Le(|m.entries|, 4) + PrintAll(PrintEntry, m.entries) + s2;
    var s0 := Le(m.counter, 8) + s1;
    assert Print(m) + rest == MAGIC + Le(VERSION, 2) + [0, 0] + s0;
    PreambleReads(VERSION, [0, 0], s0);
    TakeLeInverts(8, m.counter, s1);
    EntriesInvert(m, s2);
    TailInverts(m, rest);
  }

  /** A manifest as version 3 wrote it: the same fields without the owner. */
  function PrintVersion3(m: Manifest, reserved: seq<Byte>): seq<Byte> {
    MAGIC + Le(3, 2) + reserved + Le(m.counter, 8) + Le(|m.entries|, 4) + PrintAll(PrintEntry, m.entries)
    + (Le(|m.childSlots|, 1) + m.childSlots + Le(|m.folders|, 2) + PrintAll(PrintFolder, m.folders))
  }

  /** Version 3 manifests read as manifests without an owner. */
  lemma Version3Reads(m: Manifest, reserved: seq<Byte>, rest: seq<Byte>)
    requires Fits(m) && |reserved| == 2
    ensures ParseManifest(PrintVersion3(m, reserved) + rest) == Parsed(m.(owner := None), rest)
  {
    hide ParseAfterEntries, ParseEntries, ParsePreamble, Fits, Le, PrintAll;
    Widths();
    var tail := Le(|m.childSlots|, 1) + m.childSlots + Le(|m.folders|, 2) + PrintAll(PrintFolder, m.folders) + rest;
    var s1 := Le(|m.entries|, 4) + PrintAll(PrintEntry, m.entries) + tail;
    var s0 := Le(m.counter, 8) + s1;
    assert PrintVersion3(m, reserved) + rest == MAGIC + Le(3, 2) + reserved + s0;
    PreambleReads(3, reserved, s0);
    TakeLeInverts(8, m.counter, s1);
    EntriesInvert(m, tail);
    Tail3Reads(m, rest);
  }

  lemma Tail3Reads(m: Manifest, rest: seq<Byte>)
    requires Fits(m)
    ensures ParseAfterEntries(3, m.counter, m.entries,
                              Le(|m.childSlots|, 1) + m.childSlots + Le(|m.folders|, 2) + PrintAll(PrintFolder, m.folders) + rest)
         == Parsed(m.(owner := None), rest)
  {
    hide ParseFolder, PrintFolder, FolderFits, Le, PrintAll;
    Widths();
    var s2 := PrintAll(PrintFolder, m.folders) + rest;
    var s1 := Le(|m.folders|, 2) + s2;
    assert Le(|m.childSlots|, 1) + m.childSlots + Le(|m.folders|, 2) + PrintAll(PrintFolder, m.folders) + rest
        == Le(|m.childSlots|, 1) + (m.childSlots + s1);
    TakeLeInverts(1, |m.childSlots|, m.childSlots + s1);
    TakeBytesLaws(|m.childSlots|, m.childSlots, s1, []);
    TakeLeInverts(2, |m.folders|, s2);
    FolderInverts();
    ParseManyInverts(ParseFolder, PrintFolder, FolderFits, m.folders, rest);
  }

  /** At most 255 child slots and no empty owner: what survives a round trip. */
  predicate Canonical(m: Manifest) {
    |m.childSlots| <= 255 && Recorded(m.owner) == m.owner
  }

  lemma ParsedIsCanonical(buf: seq<Byte>)
    requires Parse(buf).Success?
    ensures Canonical(Parse(buf).value)
  {
    Widths();
  }

  /** A manifest survives being written and read back exactly when its child-slot list
      fits the one-byte count and its owner is not the empty string. */
  lemma RoundTripIff(m: Manifest)
    requires Serialized(m).Success?
    ensures Parse(Serialized(m).value) == Success(m) <==> |m.childSlots| <= 255 && m.owner != Some([])
  {
    CountsFit(m);
    if |m.childSlots| <= 255 {
      assert Print(m) + [] == Print(m);
      PrintThenParse(m, []);
    } else if Parse(Print(m)) == Success(m) {
      ParsedIsCanonical(Print(m));
    }
  }

  /** 256 child slots and nothing else: the count is written as 0. */
  lemma ChildSlotsExample()
    ensures var m := EMPTY.(childSlots := seq(256, _ => 0));
            Serialized(m).Success? && Parse(Serialized(m).value) != Success(m)
  {
    hide Parse;
    RoundTripIff(EMPTY.(childSlots := seq(256, _ => 0)));
  }

  /** Re-writing any manifest that was read keeps it: parse, serialize, parse is parse. */
  lemma ReprintedParsesTheSame(buf: seq<Byte>)
    requires Parse(buf).Success? && Serialized(Parse(buf).value).Success?
    ensures Parse(Serialized(Parse(buf).value).value) == Parse(buf)
  {
    ParsedIsCanonical(buf);
    RoundTripIff(Parse(buf).value);
  }

  // ---- what the parser can produce ----

  lemma EntryParsesFit()
    ensures forall s :: ParseEntry(s).Parsed? ==> EntryFits(ParseEntry(s).value)
  {
    Widths();
  }

  lemma FolderParsesFit()
    ensures forall s :: ParseFolder(s).Parsed? ==> FolderFits(ParseFolder(s).value)
  {}

  lemma AfterEntriesFit(version: nat, counter: U64, entries: seq<FileEntry>, s: seq<Byte>)
    requires |entries| <= U32_MAX && forall e | e in entries :: EntryFits(e)
    requires ParseAfterEntries(version, counter, entries, s).Parsed?
    ensures Fits(ParseAfterEntries(version, counter, entries, s).value)
  {
    hide ParseFolder, FolderFits;
    Widths();
    var s1 := ParseChildSlots(s).rest;
    FolderParsesFit();
    ParseManyFits(ParseFolder, FolderFits, TakeLe(2, s1).value, TakeLe(2, s1).rest);
  }

  lemma ParsedFits(buf: seq<Byte>)
    requires Parse(buf).Success?
    ensures Fits(Parse(buf).value)
  {
    hide ParseEntry, ParseAfterEntries, EntryFits, Fits, ParsePreamble;
    Widths();
    var version, s1 := ParsePreamble(buf).value, ParsePreamble(buf).rest;
    var counter, s2 := TakeLe(8, s1).value, TakeLe(8, s1).rest;
    EntryParsesFit();
    ParseManyFits(ParseEntry, EntryFits, TakeLe(4, s2).value, TakeLe(4, s2).rest);
    AfterEntriesFit(version, counter, ParseEntries(s2).value, ParseEntries(s2).rest);
  }

  /** The manifests that some buffer parses to are exactly those whose lengths fit their fields
      and whose owner is not the empty string. Names may hold control characters: unlike
      `serialize`, `parse` looks at their lengths only. */
  lemma ParsesExactly(m: Manifest)
    ensures (exists buf :: Parse(buf) == Success(m)) <==> Fits(m) && m.owner != Some([])
  {
    hide Fits, Print, ParseManifest;
    if buf :| Parse(buf) == Success(m) {
      ParsedFits(buf);
      ParsedIsCanonical(buf);
    }
    if Fits(m) && m.owner != Some([]) {
      PrintThenParse(m, []);
      assert Print(m) + [] == Print(m);
      assert Parse(Print(m)) == Success(m);
    }
  }

  // ---- the parser never looks past the manifest, and consumes what it counts ----

  lemma TextLocal(width: nat, longest: nat, what: string, s: seq<Byte>, t: seq<Byte>)
    requires ParseText(width, longest, what, s).Parsed?
    ensures var r := ParseText(width, longest, what, s);
            ParseText(width, longest, what, s + t) == Parsed(r.value, r.rest + t)
            && width + |r.value| + |r.rest| == |s| && |r.value| > 0
  {
    TakeLeLocal(width, s, t);
    var len, rest := TakeLe(width, s).value, TakeLe(width, s).rest;
    TakeBytesLaws(len, [], rest, t);
  }

  lemma ChunkLocal()
    ensures Local(ParseChunk) && Consumes(ParseChunk, 4)
  {
    forall s, t: seq<Byte> | ParseChunk(s).Parsed?
      ensures ParseChunk(s + t) == Parsed(ParseChunk(s).value, ParseChunk(s).rest + t)
    {
      TakeLeLocal(4, s, t);
    }
    forall s | ParseChunk(s).Parsed? ensures 4 + |ParseChunk(s).rest| <= |s| {
      TakeLeLocal(4, s, []);
    }
  }

  lemma FolderLocal()
    ensures Local(ParseFolder) && Consumes(ParseFolder, MIN_FOLDER_LEN)
  {
    forall s, t: seq<Byte> | ParseFolder(s).Parsed?
      ensures ParseFolder(s + t) == Parsed(ParseFolder(s).value, ParseFolder(s).rest + t)
    {
      TextLocal(2, MAX_FOLDER_PATH_LEN, "non-UTF8 folder", s, t);
    }
    forall s | ParseFolder(s).Parsed? ensures MIN_FOLDER_LEN + |ParseFolder(s).rest| <= |s| {
      TextLocal(2, MAX_FOLDER_PATH_LEN, "non-UTF8 folder", s, []);
    }
  }

  lemma EntryBodyLocal(name: Text, s: seq<Byte>, t: seq<Byte>)
    requires ParseEntryBody(name, s).Parsed?
    ensures ParseEntryBody(name, s + t) == Parsed(ParseEntryBody(name, s).value, ParseEntryBody(name, s).rest + t)
    ensures 12 + |ParseEntryBody(name, s).rest| <= |s|
  {
    TakeLeLocal(8, s, t);
    var s1 := TakeLe(8, s).rest;
    TakeLeLocal(4, s1, t);
    var n, s2 := TakeLe(4, s1).value, TakeLe(4, s1).rest;
    ChunkLocal();
    ParseManyLocal(ParseChunk, n, s2, t);
    ParseManyConsumes(ParseChunk, 4, n, s2);
  }

  lemma EntryLocal()
    ensures Local(ParseEntry) && Consumes(ParseEntry, MIN_ENTRY_LEN)
  {
    forall s, t: seq<Byte> | ParseEntry(s).Parsed?
      ensures ParseEntry(s + t) == Parsed(ParseEntry(s).value, ParseEntry(s).rest + t)
    {
      TextLocal(1, MAX_NAME_LEN, "non-UTF8 name", s, t);
      EntryBodyLocal(ParseName(s).value, ParseName(s).rest, t);
    }
    forall s: seq<Byte> | ParseEntry(s).Parsed? ensures MIN_ENTRY_LEN + |ParseEntry(s).rest| <= |s| {
      assert ParseEntry(s).Parsed?;
      TextLocal(1, MAX_NAME_LEN, "non-UTF8 name", s, []);
      EntryBodyLocal(ParseName(s).value, ParseName(s).rest, []);
    }
  }

  lemma OwnerLocal(version: nat, s: seq<Byte>, t: seq<Byte>)
    requires ParseOwner(version, s).Parsed?
    ensures ParseOwner(version, s + t) == Parsed(ParseOwner(version, s).value, ParseOwner(version, s).rest + t)
  {
    if version >= 4 {
      TakeLeLocal(2, s, t);
      TakeBytesLaws(TakeLe(2, s).value, [], TakeLe(2, s).rest, t);
    }
  }

  lemma AfterEntriesLocal(version: nat, counter: U64, entries: seq<FileEntry>, s: seq<Byte>, t: seq<Byte>)
    requires ParseAfterEntries(version, counter, entries, s).Parsed?
    ensures var r := ParseAfterEntries(version, counter, entries, s);
            ParseAfterEntries(version, counter, entries, s + t) == Parsed(r.value, r.rest + t)
  {
    TakeLeLocal(1, s, t);
    TakeBytesLaws(TakeLe(1, s).value, [], TakeLe(1, s).rest, t);
    var s1 := ParseChildSlots(s).rest;
    TakeLeLocal(2, s1, t);
    FolderLocal();
    ParseManyLocal(ParseFolder, TakeLe(2, s1).value, TakeLe(2, s1).rest, t);
    OwnerLocal(version, ParseFolders(s1).rest, t);
  }

  lemma PreambleLocal(s: seq<Byte>, t: seq<Byte>)
    requires ParsePreamble(s).Parsed?
    ensures ParsePreamble(s + t) == Parsed(ParsePreamble(s).value, ParsePreamble(s).rest + t)
  {
    TakeBytesLaws(4, [], s, t);
    TakeLeLocal(2, s[4..], t);
    TakeBytesLaws(2, [], TakeLe(2, s[4..]).rest, t);
  }

  // ---- what was read is as long as it is to write ----

  lemma ChunkMeasures()
    ensures Measures(ParseChunk, PrintChunk)
  {
    forall s | ParseChunk(s).Parsed? ensures |PrintChunk(ParseChunk(s).value)| + |ParseChunk(s).rest| == |s| {
      TakeLeLocal(4, s, []);
    }
  }

  lemma EntryBodyMeasures(name: Text, s: seq<Byte>)
    requires ParseEntryBody(name, s).Parsed?
    ensures |PrintEntry(ParseEntryBody(name, s).value)| + |ParseEntryBody(name, s).rest| == 1 + |name| + |s|
  {
    TakeLeLocal(8, s, []);
    var s1 := TakeLe(8, s).rest;
    TakeLeLocal(4, s1, []);
    ChunkMeasures();
    ParseManyMeasures(ParseChunk, PrintChunk, TakeLe(4, s1).value, TakeLe(4, s1).rest);
  }

  lemma EntryMeasures()
    ensures Measures(ParseEntry, PrintEntry)
  {
    hide PrintEntry, ParseEntryBody;
    forall s | ParseEntry(s).Parsed? ensures |PrintEntry(ParseEntry(s).value)| + |ParseEntry(s).rest| == |s| {
      TextLocal(1, MAX_NAME_LEN, "non-UTF8 name", s, []);
      EntryBodyMeasures(ParseName(s).value, ParseName(s).rest);
    }
  }

  lemma FolderMeasures()
    ensures Measures(ParseFolder, PrintFolder)
  {
    forall s | ParseFolder(s).Parsed? ensures |PrintFolder(ParseFolder(s).value)| + |ParseFolder(s).rest| == |s| {
      TextLocal(2, MAX_FOLDER_PATH_LEN, "non-UTF8 folder", s, []);
    }
  }

  lemma OwnerMeasures(version: nat, s: seq<Byte>)
    requires ParseOwner(version, s).Parsed?
    ensures 2 + |OwnerText(ParseOwner(version, s).value)| + |ParseOwner(version, s).rest| == |s| + Unwritten(version)
  {
    if version >= 4 {
      TakeLeLocal(2, s, []);
    }
  }

  /** Version 3 has no owner field; version 4 writes its length even when there is none. */
  function Unwritten(version: nat): nat {
    if version < 4 then 2 else 0
  }

  lemma AfterEntriesMeasure(version: nat, counter: U64, entries: seq<FileEntry>, s: seq<Byte>)
    requires ParseAfterEntries(version, counter, entries, s).Parsed?
    ensures var r := ParseAfterEntries(version, counter, entries, s);
            r.value.entries == entries && |PrintTail(r.value)| + |r.rest| == |s| + Unwritten(version)
  {
    hide ParseOwner, ParseFolder, PrintFolder, Unwritten;
    TakeLeLocal(1, s, []);
    var s1 := ParseChildSlots(s).rest;
    TakeLeLocal(2, s1, []);
    FolderMeasures();
    ParseManyMeasures(ParseFolder, PrintFolder, TakeLe(2, s1).value, TakeLe(2, s1).rest);
    OwnerMeasures(version, ParseFolders(s1).rest);
  }

  lemma PreambleMeasures(s: seq<Byte>)
    requires ParsePreamble(s).Parsed?
    ensures 8 + |ParsePreamble(s).rest| == |s|
  {
    TakeLeLocal(2, s[4..], []);
  }

  lemma PrintedLength(buf: seq<Byte>)
    requires ParseManifest(buf).Parsed?
    ensures |Print(ParseManifest(buf).value)| + |ParseManifest(buf).rest| == |buf| + Unwritten(ParsePreamble(buf).value)
  {
    hide ParseEntry, PrintEntry, PrintTail, ParseAfterEntries, ParsePreamble, Unwritten;
    PreambleMeasures(buf);
    var version, s1 := ParsePreamble(buf).value, ParsePreamble(buf).rest;
    TakeLeLocal(8, s1, []);
    var counter, s2 := TakeLe(8, s1).value, TakeLe(8, s1).rest;
    TakeLeLocal(4, s2, []);
    EntryMeasures();
    ParseManyMeasures(ParseEntry, PrintEntry, TakeLe(4, s2).value, TakeLe(4, s2).rest);
    AfterEntriesMeasure(version, counter, ParseEntries(s2).value, ParseEntries(s2).rest);
  }

  /** Some name or folder holds a control character. */
  predicate Tainted(m: Manifest) {
    || (exists e | e in m.entries :: exists b | b in e.name :: Control(b))
    || (exists f | f in m.folders :: exists b | b in f :: Control(b))
  }

  /** When a manifest that was read can be written again: nothing in it is tainted, and the
      bytes it was read from, with the owner field that version 3 lacks, fit a chunk. */
  lemma RewritableIff(buf: seq<Byte>)
    requires ParseManifest(buf).Parsed?
    ensures var m := ParseManifest(buf).value;
            var length := |buf| - |ParseManifest(buf).rest| + Unwritten(ParsePreamble(buf).value);
            Serialized(m) == if Tainted(m) then Failure(InvalidName)
            else if length > CHUNK_PLAINTEXT_LEN then Failure(ManifestOverflow)
            else Success(Print(m))
  {
    hide ParseManifest, ParsePreamble, Print, Unwritten;
    var m := ParseManifest(buf).value;
    assert Parse(buf) == Success(m);
    ParsedFits(buf);
    PrintedLength(buf);
  }

  /** Bytes after a manifest never change how it is read. */
  lemma TrailingBytesIgnored(buf: seq<Byte>, more: seq<Byte>)
    requires Parse(buf).Success?
    ensures Parse(buf + more) == Parse(buf)
  {
    PreambleLocal(buf, more);
    var version, s1 := ParsePreamble(buf).value, ParsePreamble(buf).rest;
    TakeLeLocal(8, s1, more);
    var counter, s2 := TakeLe(8, s1).value, TakeLe(8, s1).rest;
    TakeLeLocal(4, s2, more);
    EntryLocal();
    ParseManyLocal(ParseEntry, TakeLe(4, s2).value, TakeLe(4, s2).rest, more);
    var entries, s3 := ParseEntries(s2).value, ParseEntries(s2).rest;
    Widths();
    AfterEntriesLocal(version, counter, entries, s3, more);
  }

  /** The parser's pre-allocation bound. */
  function Cap(remaining: nat, count: nat, least: nat): nat {
    Min(count, remaining / Max(least, 1) + 1)
  }

  /** No more than the count asked for, and otherwise one record more than the bytes left can hold. */
  lemma CapIsTight(remaining: nat, count: nat, least: nat)
    requires least > 0
    ensures var c := Cap(remaining, count, least);
            c <= count && (c > 0 ==> (c - 1) * least <= remaining) && (c < count ==> c * least > remaining)
  {
    var q := remaining / least;
    assert q * least <= remaining < q * least + least;
    if 0 < Cap(remaining, count, least) <= q {
      LessTimes(Cap(remaining, count, least) - 1, q, least);
    }
  }

  lemma LessTimes(a: nat, b: nat, c: nat)
    requires a <= b
    ensures a * c <= b * c
  {}

  /** The bound never costs a reallocation: a list that parses is no longer than what was reserved. */
  lemma CapSuffices(n: nat, s: seq<Byte>)
    ensures ParseMany(ParseEntry, n, s).Parsed? ==> Cap(|s|, n, MIN_ENTRY_LEN) == n
    ensures ParseMany(ParseChunk, n, s).Parsed? ==> Cap(|s|, n, 4) == n
    ensures ParseMany(ParseFolder, n, s).Parsed? ==> Cap(|s|, n, MIN_FOLDER_LEN) == n
  {
    if ParseMany(ParseEntry, n, s).Parsed? {
      EntryLocal();
      ParseManyConsumes(ParseEntry, MIN_ENTRY_LEN, n, s);
    }
    if ParseMany(ParseChunk, n, s).Parsed? {
      ChunkLocal();
      ParseManyConsumes(ParseChunk, 4, n, s);
    }
    if ParseMany(ParseFolder, n, s).Parsed? {
      FolderLocal();
      ParseManyConsumes(ParseFolder, MIN_FOLDER_LEN, n, s);
    }
  }
}
