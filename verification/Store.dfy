/** What a disk image means: which manifest it opens to and which file contents it holds. */
module Store {
  import opened Bytes
  import opened Texts
  import opened Wrappers
  import opened Octets
  import opened Manifests
  import opened ManifestCodec
  import opened Chunks

  /** Fixed facts of an open vault: master key, manifest position, capacity in chunks. */
  datatype Geometry = Geometry(master: Key, home: nat, total: nat)

  type Files = map<Text, seq<Byte>>

  // ---- pieces of a content ----

  function Pieces(size: nat): nat {
    (size + CHUNK_PLAINTEXT_LEN - 1) / CHUNK_PLAINTEXT_LEN
  }

  /** Piece i of a content: its bytes [i*CP, min((i+1)*CP, |content|)). */
  function Piece(content: seq<Byte>, i: nat): (p: seq<Byte>)
    ensures |p| <= CHUNK_PLAINTEXT_LEN
  {
    var start := i * CHUNK_PLAINTEXT_LEN;
    if start <= |content| then content[start..Min(start + CHUNK_PLAINTEXT_LEN, |content|)] else []
  }

  // ---- entries on the disk ----

  predicate NoDup(s: seq<U32>) {
    forall i, j | 0 <= i < j < |s| :: s[i] != s[j]
  }

  predicate Disjoint(a: seq<U32>, b: seq<U32>) {
    forall c | c in a :: c !in b
  }

  /** One chunk per piece; an empty file has none, or one left by `add_file`. */
  predicate Shaped(e: FileEntry) {
    |e.chunks| == Pieces(e.size) || (e.size == 0 && |e.chunks| == 1)
  }

  predicate Placed(geo: Geometry, chunks: seq<U32>) {
    NoDup(chunks) && forall c | c in chunks :: c < geo.total && c != geo.home
  }

  predicate Apart(entries: seq<FileEntry>) {
    forall e, f | e in entries && f in entries && e.name != f.name :: Disjoint(e.chunks, f.chunks)
  }

  predicate Layout(geo: Geometry, entries: seq<FileEntry>) {
    && UniqueNames(entries)
    && (forall e | e in entries :: Shaped(e) && Placed(geo, e.chunks))
    && Apart(entries)
  }

  /** The first n chunks hold the first n pieces of the content. */
  predicate Written(geo: Geometry, disk: seq<Cell>, chunks: seq<U32>, content: seq<Byte>, n: nat)
    requires n <= |chunks|
  {
    forall i | 0 <= i < n ::
      chunks[i] < |disk| && disk[chunks[i]] == Seal(geo.master, chunks[i], Piece(content, i))
  }

  /** As Written, for chunks that hold the pieces from `first` on. */
  predicate WrittenFrom(geo: Geometry, disk: seq<Cell>, chunks: seq<U32>, content: seq<Byte>, first: nat, n: nat)
    requires n <= |chunks|
  {
    forall i | 0 <= i < n ::
      chunks[i] < |disk| && disk[chunks[i]] == Seal(geo.master, chunks[i], Piece(content, first + i))
  }

  predicate Holds(geo: Geometry, disk: seq<Cell>, e: FileEntry, content: seq<Byte>) {
    |content| == e.size && Written(geo, disk, e.chunks, content, |e.chunks|)
  }

  predicate Keeps(geo: Geometry, disk: seq<Cell>, entries: seq<FileEntry>, files: Files) {
    && files.Keys <= Names(entries)
    && forall e | e in entries && e.name in files :: Holds(geo, disk, e, files[e.name])
  }

  /** Mounting a disk image: decrypt the manifest chunk and parse it. */
  function Reopen(geo: Geometry, disk: seq<Cell>): Result<Manifest>
    requires geo.home < |disk|
  {
    match DecryptChunk(ChunkKey(geo.master, geo.home), geo.home, disk[geo.home])
    case Failure(e) => Failure(e)
    case Success(bytes) => Parse(bytes)
  }

  /** A manifest that the vault itself published. */
  predicate Publishable(geo: Geometry, m: Manifest) {
    Layout(geo, m.entries) && Canonical(m) && Serialized(m).Success?
  }

  /** The disk opens to m, and under m every file in `files` reads back as recorded. */
  predicate Intact(geo: Geometry, disk: seq<Cell>, m: Manifest, files: Files) {
    && geo.home < geo.total == |disk|
    && Publishable(geo, m)
    && Keeps(geo, disk, m.entries, files)
    && Reopen(geo, disk) == Success(m)
  }

  // ---- what a disk change leaves alone ----

  function Elems(s: seq<U32>): (r: set<int>)
    ensures forall c: int :: c in r <==> c in s
  {
    set c | c in s :: c
  }

  lemma ElemsSnoc(s: seq<U32>, c: U32)
    ensures Elems(s + [c]) == Elems(s) + {c as int}
  {
    assert forall x :: x in s + [c] <==> x in s || x == c;
  }

  lemma ElemsPrefix(s: seq<U32>, j: nat)
    requires j <= |s|
    ensures Elems(s[..j]) <= Elems(s)
  {
    assert forall x | x in s[..j] :: x in s;
  }

  function Used(entries: seq<FileEntry>): set<int> {
    set e, c | e in entries && c in e.chunks :: c
  }

  predicate SameOutside(d: seq<Cell>, d': seq<Cell>, changed: set<int>) {
    |d| == |d'| && forall i | 0 <= i < |d| && i !in changed :: d'[i] == d[i]
  }

  function Shredded(d: seq<Cell>, chunks: seq<U32>): (d': seq<Cell>)
    ensures SameOutside(d, d', Elems(chunks))
  {
    seq(|d|, i requires 0 <= i < |d| => if i in chunks then Noise else d[i])
  }

  lemma HoldsFrame(geo: Geometry, d: seq<Cell>, d': seq<Cell>, e: FileEntry, content: seq<Byte>)
    requires Holds(geo, d, e, content)
    requires |d'| == |d| && forall c | c in e.chunks :: c < |d| && d'[c] == d[c]
    ensures Holds(geo, d', e, content)
  {}

  lemma KeepsFrame(geo: Geometry, d: seq<Cell>, d': seq<Cell>, entries: seq<FileEntry>, files: Files, changed: set<int>)
    requires Keeps(geo, d, entries, files) && SameOutside(d, d', changed)
    requires forall e | e in entries && e.name in files :: forall c | c in e.chunks :: c < |d| && c !in changed
    ensures Keeps(geo, d', entries, files)
  {
    forall e | e in entries && e.name in files ensures Holds(geo, d', e, files[e.name]) {
      HoldsFrame(geo, d, d', e, files[e.name]);
    }
  }

  /** Changing only chunks that no entry uses (nor the manifest) changes nothing visible. */
  lemma IntactFrame(geo: Geometry, d: seq<Cell>, d': seq<Cell>, m: Manifest, files: Files, changed: set<int>)
    requires Intact(geo, d, m, files) && SameOutside(d, d', changed)
    requires changed !! Used(m.entries) && geo.home !in changed
    ensures Intact(geo, d', m, files)
  {
    forall e, c | e in m.entries && c in e.chunks ensures c < |d| && c !in changed {
      assert c in Used(m.entries);
      assert Placed(geo, e.chunks);
    }
    KeepsFrame(geo, d, d', m.entries, files, changed);
  }

  /** What a disk opens to depends on its manifest chunk alone. */
  lemma HomeDecides(geo: Geometry, d: seq<Cell>, d': seq<Cell>)
    requires geo.home < |d| == |d'| && d[geo.home] == d'[geo.home]
    ensures Reopen(geo, d') == Reopen(geo, d)
  {}

  // ---- publishing a changed manifest ----

  lemma LayoutUpsert(geo: Geometry, entries: seq<FileEntry>, e: FileEntry)
    requires Layout(geo, entries)
    requires Shaped(e) && Placed(geo, e.chunks)
    requires forall f | f in entries && f.name != e.name :: Disjoint(e.chunks, f.chunks)
    ensures Layout(geo, Without(entries, e.name) + [e])
  {
    WithoutUnique(entries, e.name);
    UniqueSnoc(Without(entries, e.name), e);
  }

  lemma LayoutWithout(geo: Geometry, entries: seq<FileEntry>, name: seq<Byte>)
    requires Layout(geo, entries)
    ensures Layout(geo, Without(entries, name))
  {
    WithoutUnique(entries, name);
  }

  /** Writing a published manifest into its chunk makes the disk open to it. */
  lemma PublishedReopens(geo: Geometry, disk: seq<Cell>, m: Manifest)
    requires geo.home < |disk| && Canonical(m) && Serialized(m).Success?
    ensures Reopen(geo, disk[geo.home := Seal(geo.master, geo.home, Serialized(m).value)]) == Success(m)
  {
    var bytes := Serialized(m).value;
    OpenSealed(geo.master, geo.home, geo.master, geo.home, bytes);
    RoundTripIff(m);
  }

  /** Everything a changed entry needs before its manifest is published: the new manifest is
      well formed and reads back on the new disk, and the old one still does for other files. */
  lemma UpsertReady(geo: Geometry, d: seq<Cell>, d': seq<Cell>, changed: set<int>, m: Manifest, files: Files,
                    e: FileEntry, after: Files)
    requires geo.home < geo.total == |d|
    requires Publishable(geo, m) && Keeps(geo, d, m.entries, files)
    requires SameOutside(d, d', changed) && geo.home !in changed
    requires forall f | f in m.entries && f.name != e.name :: Elems(f.chunks) !! changed && Disjoint(e.chunks, f.chunks)
    requires Shaped(e) && Placed(geo, e.chunks) && Serialized(Upserted(m, e)).Success?
    requires after - {e.name} == files - {e.name}
    requires e.name in after ==> Holds(geo, d', e, after[e.name])
    ensures Publishable(geo, Upserted(m, e))
    ensures Keeps(geo, d', Upserted(m, e).entries, after)
    ensures Keeps(geo, d', m.entries, files - {e.name})
    ensures Reopen(geo, d') == Reopen(geo, d)
  {
    hide Serialized, Parse, DecryptChunk, Seal;
    var old' := Without(m.entries, e.name);
    LayoutUpsert(geo, m.entries, e);
    var others := files - {e.name};
    KeepsOthers(geo, d, d', changed, m.entries, files, e.name);
    forall f | f in old' + [e] && f.name in after ensures Holds(geo, d', f, after[f.name]) {
      if f.name != e.name {
        assert f in old' && f.name in others && others[f.name] == (after - {e.name})[f.name];
      } else {
        assert f == e;
      }
    }
    forall n | n in after ensures n in Names(old' + [e]) {
      if n == e.name {
        assert e in old' + [e];
      } else {
        assert n in after - {e.name};
        assert n in others;
        var f :| f in m.entries && f.name == n;
        assert f in old' + [e];
      }
    }
  }

  lemma KeepsOthers(geo: Geometry, d: seq<Cell>, d': seq<Cell>, changed: set<int>, entries: seq<FileEntry>,
                    files: Files, name: Text)
    requires geo.home < geo.total == |d| && geo.home !in changed && Layout(geo, entries) && Keeps(geo, d, entries, files)
    requires SameOutside(d, d', changed)
    requires forall f | f in entries && f.name != name :: Elems(f.chunks) !! changed
    ensures Keeps(geo, d', entries, files - {name})
    ensures Reopen(geo, d') == Reopen(geo, d)
  {
    forall f | f in entries && f.name in files - {name}
      ensures forall c | c in f.chunks :: c < |d| && c !in changed
    {
      assert Placed(geo, f.chunks);
      forall c | c in f.chunks ensures c !in changed {
        assert (c as int) in Elems(f.chunks);
      }
    }
    KeepsFrame(geo, d, d', entries, files - {name}, changed);
  }
}
