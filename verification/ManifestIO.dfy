/** The manifest's mutable side: a candidate that is edited and serialized, and the
    cursor-driven parser (crates/farewell_format/src/manifest.rs). */
module ManifestIO {
  import opened Bytes
  import opened Texts
  import opened Wrappers
  import opened Codecs
  import opened Manifests
  import opened ManifestCodec

  /** A private copy of the live manifest that a mutation edits before it is published. */
  class Candidate {
    var counter: U64
    var entries: seq<FileEntry>
    var childSlots: seq<Byte>
    var folders: seq<Text>
    var owner: Option<Text>

    constructor (m: Manifest)
      ensures Value() == m
    {
      counter, entries, childSlots, folders, owner := m.counter, m.entries, m.childSlots, m.folders, m.owner;
    }

    function Value(): Manifest
      reads this
    {
      Manifest(counter, entries, childSlots, folders, owner)
    }

    method Upsert(e: FileEntry)
      modifies this
      ensures Value() == Upserted(old(Value()), e)
    {
      entries := Without(entries, e.name);
      entries := entries + [e];
      counter := Tick(counter);
    }

    method Remove(name: seq<Byte>) returns (r: Option<FileEntry>)
      modifies this
      ensures r == Find(old(entries), name)
      ensures Value() == Removed(old(Value()), name)
    {
      r := Find(entries, name);
      if r.Some? {
        entries := RemoveFirst(entries, name);
        counter := Tick(counter);
      }
    }

    method Serialize() returns (r: Result<seq<Byte>>)
      ensures r == Serialized(Value())
    {
      var out := MAGIC;
      out := out + Le(VERSION, 2);
      out := out + [0, 0];
      out := out + Le(counter, 8);
      out := out + Le(|entries|, 4);
      var printed := PrintEntries();
      if printed.Failure? {
        return printed;
      }
      out := out + printed.value;
      out := out + Le(|childSlots|, 1) + childSlots;
      out := out + Le(|folders|, 2);
      printed := PrintFolders();
      if printed.Failure? {
        return printed;
      }
      out := out + printed.value;
      var o := OwnerText(owner);
      if |o| > MAX_OWNER_LEN {
        return Failure(InvalidName);
      }
      out := out + Le(|o|, 2) + o;
      assert out == Print(Value());
      if |out| > CHUNK_PLAINTEXT_LEN {
        return Failure(ManifestOverflow);
      }
      return Success(out);
    }

    method PrintEntries() returns (r: Result<seq<Byte>>)
      ensures r == if forall e | e in entries :: ValidName(e.name)
                   then Success(PrintAll(PrintEntry, entries)) else Failure(InvalidName)
    {
      hide PrintEntry, ValidName;
      var out: seq<Byte> := [];
      for i := 0 to |entries|
        invariant forall e | e in entries[..i] :: ValidName(e.name)
        invariant out == PrintAll(PrintEntry, entries[..i])
      {
        var e := entries[i];
        if !ValidName(e.name) {
          return Failure(InvalidName);
        }
        var record := PrintRecord(e);
        out := out + record;
        PrintAllSnoc(PrintEntry, entries[..i], e);
        assert entries[..i] + [e] == entries[..i + 1];
      }
      assert entries[..|entries|] == entries;
      return Success(out);
    }

    method PrintFolders() returns (r: Result<seq<Byte>>)
      ensures r == if forall f | f in folders :: ValidFolderPath(f)
                   then Success(PrintAll(PrintFolder, folders)) else Failure(InvalidName)
    {
      var out: seq<Byte> := [];
      for i := 0 to |folders|
        invariant forall f | f in folders[..i] :: ValidFolderPath(f)
        invariant out == PrintAll(PrintFolder, folders[..i])
      {
        var f := folders[i];
        if !ValidFolderPath(f) {
          return Failure(InvalidName);
        }
        out := out + Le(|f|, 2);
        out := out + f;
        PrintAllSnoc(PrintFolder, folders[..i], f);
        assert folders[..i] + [f] == folders[..i + 1];
      }
      assert folders[..|folders|] == folders;
      return Success(out);
    }
  }

  method PrintRecord(e: FileEntry) returns (record: seq<Byte>)
    ensures record == PrintEntry(e)
  {
    hide Le;
    record := Le(|e.name|, 1);
    record := record + e.name;
    record := record + Le(e.size, 8);
    record := record + Le(|e.chunks|, 4);
    var chunks := PrintChunks(e.chunks);
    record := record + chunks;
  }

  method PrintChunks(chunks: seq<U32>) returns (out: seq<Byte>)
    ensures out == PrintAll(PrintChunk, chunks)
  {
    out := [];
    for i := 0 to |chunks|
      invariant out == PrintAll(PrintChunk, chunks[..i])
    {
      out := out + Le(chunks[i], 4);
      PrintAllSnoc(PrintChunk, chunks[..i], chunks[i]);
      assert chunks[..i] + [chunks[i]] == chunks[..i + 1];
    }
    assert chunks[..|chunks|] == chunks;
  }

  /** The parser's cursor over an untrusted buffer. Every read either advances `pos`
      within the buffer or fails and leaves it alone. */
  class ManifestParser {
    const buf: seq<Byte>
    var pos: nat

    ghost predicate Valid()
      reads this
    {
      pos <= |buf|
    }

    function Rest(): seq<Byte>
      requires pos <= |buf|
      reads this
    {
      buf[pos..]
    }

    constructor (buf: seq<Byte>)
      ensures Valid() && this.buf == buf && Rest() == buf
    {
      this.buf := buf;
      pos := 0;
    }

    /** Whether a read did what its specification says and left the cursor on the remaining bytes. */
    ghost predicate Reads<T>(r: Result<T>, spec: Parsed<T>)
      reads this
    {
      Valid() && match spec
                 case Rejected(e) => r == Failure(e)
                 case Parsed(v, rest) => r == Success(v) && Rest() == rest
    }

    function CapFor(count: nat, least: nat): (n: nat)
      requires Valid()
      reads this
      ensures n <= count && n <= |Rest()| / Max(least, 1) + 1
    {
      Cap(|buf| - pos, count, least)
    }

    method Take(n: nat) returns (r: Result<seq<Byte>>)
      requires Valid()
      modifies this`pos
      ensures Reads(r, TakeBytes(n, old(Rest())))
    {
      if n > |buf| - pos {
        return Failure(BadManifest("truncated"));
      }
      assert buf[pos..][..n] == buf[pos..pos + n] && buf[pos..][n..] == buf[pos + n..];
      r := Success(buf[pos..pos + n]);
      pos := pos + n;
    }

    method ReadLe(width: nat) returns (r: Result<nat>)
      requires Valid()
      modifies this`pos
      ensures Reads(r, TakeLe(width, old(Rest())))
    {
      var b := Take(width);
      if b.Failure? {
        return Failure(b.error);
      }
      return Success(FromLe(b.value));
    }

    method ReadText(width: nat, longest: nat, what: string) returns (r: Result<Text>)
      requires Valid()
      modifies this`pos
      ensures Reads(r, ParseText(width, longest, what, old(Rest())))
    {
      var len := ReadLe(width);
      if len.Failure? {
        return Failure(len.error);
      }
      if len.value == 0 || len.value > longest {
        return Failure(InvalidName);
      }
      var b := Take(len.value);
      if b.Failure? {
        return Failure(b.error);
      }
      if !Utf8(b.value) {
        return Failure(BadManifest(what));
      }
      return Success(b.value);
    }

    method ReadChunk() returns (r: Result<U32>)
      requires Valid()
      modifies this`pos
      ensures Reads(r, ParseChunk(old(Rest())))
    {
      var c := ReadLe(4);
      if c.Failure? {
        return Failure(c.error);
      }
      Widths();
      return Success(c.value);
    }

    // The list readers reserve room before they trust a count: never more than the bytes left
    // could hold, and exactly what a list that parses needs.

    method ReadChunks(count: nat) returns (r: Result<seq<U32>>, reserved: nat)
      requires Valid()
      modifies this`pos
      ensures Reads(r, ParseMany(ParseChunk, count, old(Rest())))
      ensures reserved <= old(|Rest()|) / 4 + 1
      ensures r.Success? ==> |r.value| == reserved
    {
      hide ParseChunk;
      reserved := CapFor(count, 4);
      CapSuffices(count, Rest());
      ghost var goal := ParseMany(ParseChunk, count, Rest());
      var chunks: seq<U32> := [];
      AfterNothing(goal);
      for i := 0 to count
        invariant Valid()
        invariant goal == After(chunks, ParseMany(ParseChunk, count - i, Rest()))
      {
        AfterOne(ParseChunk, count - i, Rest(), chunks);
        var c := ReadChunk();
        if c.Failure? {
          return Failure(c.error), reserved;
        }
        chunks := chunks + [c.value];
      }
      assert chunks + [] == chunks;
      return Success(chunks), reserved;
    }

    method ReadEntry() returns (r: Result<FileEntry>)
      requires Valid()
      modifies this`pos
      ensures Reads(r, ParseEntry(old(Rest())))
    {
      var name := ReadText(1, MAX_NAME_LEN, "non-UTF8 name");
      if name.Failure? {
        return Failure(name.error);
      }
      var size := ReadLe(8);
      if size.Failure? {
        return Failure(size.error);
      }
      var count := ReadLe(4);
      if count.Failure? {
        return Failure(count.error);
      }
      var chunks, _ := ReadChunks(count.value);
      if chunks.Failure? {
        return Failure(chunks.error);
      }
      Widths();
      return Success(FileEntry(name.value, size.value, chunks.value));
    }

    method ReadEntryList(count: nat) returns (r: Result<seq<FileEntry>>, reserved: nat)
      requires Valid()
      modifies this`pos
      ensures Reads(r, ParseMany(ParseEntry, count, old(Rest())))
      ensures reserved <= old(|Rest()|) / MIN_ENTRY_LEN + 1
      ensures r.Success? ==> |r.value| == reserved
    {
      hide ParseEntry;
      reserved := CapFor(count, MIN_ENTRY_LEN);
      CapSuffices(count, Rest());
      ghost var goal := ParseMany(ParseEntry, count, Rest());
      var entries: seq<FileEntry> := [];
      AfterNothing(goal);
      for i := 0 to count
        invariant Valid()
        invariant goal == After(entries, ParseMany(ParseEntry, count - i, Rest()))
      {
        AfterOne(ParseEntry, count - i, Rest(), entries);
        var x := ReadEntry();
        if x.Failure? {
          return Failure(x.error), reserved;
        }
        entries := entries + [x.value];
      }
      assert entries + [] == entries;
      return Success(entries), reserved;
    }

    method ReadEntries() returns (r: Result<seq<FileEntry>>)
      requires Valid()
      modifies this`pos
      ensures Reads(r, ParseEntries(old(Rest())))
    {
      var count := ReadLe(4);
      if count.Failure? {
        return Failure(count.error);
      }
      var entries, _ := ReadEntryList(count.value);
      return entries;
    }

    method ReadFolder() returns (r: Result<Text>)
      requires Valid()
      modifies this`pos
      ensures Reads(r, ParseFolder(old(Rest())))
    {
      r := ReadText(2, MAX_FOLDER_PATH_LEN, "non-UTF8 folder");
    }

    method ReadFolderList(count: nat) returns (r: Result<seq<Text>>, reserved: nat)
      requires Valid()
      modifies this`pos
      ensures Reads(r, ParseMany(ParseFolder, count, old(Rest())))
      ensures reserved <= old(|Rest()|) / MIN_FOLDER_LEN + 1
      ensures r.Success? ==> |r.value| == reserved
    {
      hide ParseFolder;
      reserved := CapFor(count, MIN_FOLDER_LEN);
      CapSuffices(count, Rest());
      ghost var goal := ParseMany(ParseFolder, count, Rest());
      var folders: seq<Text> := [];
      AfterNothing(goal);
      for i := 0 to count
        invariant Valid()
        invariant goal == After(folders, ParseMany(ParseFolder, count - i, Rest()))
      {
        AfterOne(ParseFolder, count - i, Rest(), folders);
        var x := ReadFolder();
        if x.Failure? {
          return Failure(x.error), reserved;
        }
        folders := folders + [x.value];
      }
      assert folders + [] == folders;
      return Success(folders), reserved;
    }

    method ReadFolders() returns (r: Result<seq<Text>>)
      requires Valid()
      modifies this`pos
      ensures Reads(r, ParseFolders(old(Rest())))
    {
      var count := ReadLe(2);
      if count.Failure? {
        return Failure(count.error);
      }
      var folders, _ := ReadFolderList(count.value);
      return folders;
    }

    method ReadChildSlots() returns (r: Result<seq<Byte>>)
      requires Valid()
      modifies this`pos
      ensures Reads(r, ParseChildSlots(old(Rest())))
    {
      var count := ReadLe(1);
      if count.Failure? {
        return Failure(count.error);
      }
      r := Take(count.value);
    }

    method ReadOwner(version: nat) returns (r: Result<Option<Text>>)
      requires Valid()
      modifies this`pos
      ensures Reads(r, ParseOwner(version, old(Rest())))
    {
      if version < 4 {
        return Success(None);
      }
      var len := ReadLe(2);
      if len.Failure? {
        return Failure(len.error);
      }
      if len.value == 0 {
        return Success(None);
      }
      if len.value > MAX_OWNER_LEN {
        return Failure(BadManifest("owner too long"));
      }
      var b := Take(len.value);
      if b.Failure? {
        return Failure(b.error);
      }
      if !Utf8(b.value) {
        return Failure(BadManifest("non-UTF8 owner"));
      }
      return Success(Some(b.value));
    }

    method ReadPreamble() returns (r: Result<nat>)
      requires Valid()
      modifies this`pos
      ensures Reads(r, ParsePreamble(old(Rest())))
    {
      var magic := Take(4);
      if magic.Failure? {
        return Failure(magic.error);
      }
      if magic.value != MAGIC {
        return Failure(BadManifest("bad manifest magic"));
      }
      var version := ReadLe(2);
      if version.Failure? {
        return Failure(version.error);
      }
      if version.value < VERSION_MIN || version.value > VERSION {
        return Failure(BadManifest("unsupported manifest version"));
      }
      var reserved := Take(2);
      if reserved.Failure? {
        return Failure(reserved.error);
      }
      return Success(version.value);
    }

    method ReadAfterEntries(version: nat, counter: U64, entries: seq<FileEntry>) returns (r: Result<Manifest>)
      requires Valid()
      modifies this`pos
      ensures Reads(r, ParseAfterEntries(version, counter, entries, old(Rest())))
    {
      var slots := ReadChildSlots();
      if slots.Failure? {
        return Failure(slots.error);
      }
      var folders := ReadFolders();
      if folders.Failure? {
        return Failure(folders.error);
      }
      var owner := ReadOwner(version);
      if owner.Failure? {
        return Failure(owner.error);
      }
      return Success(Manifest(counter, entries, slots.value, folders.value, owner.value));
    }
  }

  method ParseBuffer(buf: seq<Byte>) returns (r: Result<Manifest>)
    ensures r == Parse(buf)
  {
    hide ParsePreamble, ParseEntries, ParseAfterEntries;
    var p := new ManifestParser(buf);
    var version := p.ReadPreamble();
    if version.Failure? {
      return Failure(version.error);
    }
    var counter := p.ReadLe(8);
    if counter.Failure? {
      return Failure(counter.error);
    }
    var entries := p.ReadEntries();
    if entries.Failure? {
      return Failure(entries.error);
    }
    assert counter.value <= U64_MAX by {
      Widths();
    }
    r := p.ReadAfterEntries(version.value, counter.value, entries.value);
  }
}
