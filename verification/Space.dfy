/** Chunk accounting: how many chunks the allocator can still hand out. */
module Space {
  import opened Bytes
  import opened Manifests
  import opened Store

  function ChunkTotal(entries: seq<FileEntry>): nat {
    if entries == [] then 0 else |entries[0].chunks| + ChunkTotal(entries[1..])
  }

  /** Chunks below `total` that hold neither the manifest nor file data. */
  function Free(geo: Geometry, entries: seq<FileEntry>): set<int> {
    Range(geo.total) - {geo.home} - Used(entries)
  }

  function FreeCount(geo: Geometry, entries: seq<FileEntry>): int {
    geo.total - 1 - ChunkTotal(entries)
  }

  function Range(n: nat): (r: set<int>)
    ensures forall c :: c in r <==> 0 <= c < n
    ensures |r| == n
  {
    if n == 0 then {} else Range(n - 1) + {n - 1}
  }

  lemma {:induction false} ElemsSize(s: seq<U32>)
    requires NoDup(s)
    ensures |Elems(s)| == |s|
  {
    if s != [] {
      var t, c := s[..|s| - 1], s[|s| - 1];
      ElemsSize(t);
      assert s == t + [c];
      forall x | x in Elems(s) ensures x in Elems(t) + {c as int} {}
      assert forall x | x in t :: x in t + [c];
      assert c in s;
      assert Elems(s) == Elems(t) + {c as int};
      assert c !in t;
    }
  }

  lemma UsedSplit(e: FileEntry, tail: seq<FileEntry>)
    ensures Used([e] + tail) == Elems(e.chunks) + Used(tail)
  {
    var all := [e] + tail;
    forall c | c in Used(all) ensures c in Elems(e.chunks) + Used(tail) {
      var f: FileEntry :| f in all && c in f.chunks;
      assert f == e || f in tail;
    }
    forall c | c in Elems(e.chunks) + Used(tail) ensures c in Used(all) {
      if c in e.chunks {
        assert e in all;
      } else {
        var f: FileEntry :| f in tail && c in f.chunks;
        assert f in all;
      }
    }
  }

  lemma LayoutTail(geo: Geometry, entries: seq<FileEntry>)
    requires Layout(geo, entries) && entries != []
    ensures Layout(geo, entries[1..])
    ensures Elems(entries[0].chunks) !! Used(entries[1..])
    ensures forall f | f in entries[1..] :: f.name != entries[0].name
  {
    var tail := entries[1..];
    assert forall f | f in tail :: f in entries;
    assert forall i, j | 0 <= i < j < |tail| :: tail[i] == entries[i + 1] && tail[j] == entries[j + 1];
    forall f | f in tail ensures f.name != entries[0].name && Disjoint(entries[0].chunks, f.chunks) {
      var k :| 0 <= k < |tail| && tail[k] == f;
      assert entries[0].name != entries[k + 1].name;
    }
  }

  lemma {:induction false} UsedSize(geo: Geometry, entries: seq<FileEntry>)
    requires Layout(geo, entries)
    ensures |Used(entries)| == ChunkTotal(entries)
  {
    if entries != [] {
      var e, tail := entries[0], entries[1..];
      LayoutTail(geo, entries);
      UsedSize(geo, tail);
      assert entries == [e] + tail;
      UsedSplit(e, tail);
      assert e in entries;
      ElemsSize(e.chunks);
    }
  }

  /** The allocator's candidate set has exactly the size `space` reports. */
  lemma FreeIsExact(geo: Geometry, entries: seq<FileEntry>)
    requires Layout(geo, entries) && geo.home < geo.total
    ensures |Free(geo, entries)| == FreeCount(geo, entries) >= 0
  {
    var all := Range(geo.total);
    UsedSize(geo, entries);
    var used := Used(entries);
    forall c | c in used ensures c in all && c != geo.home {
      var e: FileEntry :| e in entries && c in e.chunks;
      assert Placed(geo, e.chunks);
    }
    assert |all - {geo.home}| == |all| - 1;
    assert |(all - {geo.home}) - used| == |all - {geo.home}| - |used| by {
      assert used <= all - {geo.home};
      SubsetSize(used, all - {geo.home});
    }
  }

  lemma SubsetSize(a: set<int>, b: set<int>)
    requires a <= b
    ensures |b - a| == |b| - |a| >= 0
  {
    assert b == a + (b - a);
  }

  lemma {:induction false} ChunkTotalWithout(entries: seq<FileEntry>, name: seq<Byte>)
    requires UniqueNames(entries)
    ensures ChunkTotal(Without(entries, name)) == ChunkTotal(entries) - ChunksOf(entries, name)
  {
    if entries != [] {
      hide UniqueNames;
      UniqueTail(entries);
      var tail := entries[1..];
      if entries[0].name == name {
        WithoutAbsent(tail, name);
        assert Without(entries, name) == tail;
      } else {
        ChunkTotalWithout(tail, name);
        assert Without(entries, name)[1..] == Without(tail, name);
      }
    }
  }

  function ChunksOf(entries: seq<FileEntry>, name: seq<Byte>): nat {
    match Find(entries, name)
    case None => 0
    case Some(e) => |e.chunks|
  }

  lemma {:induction false} ChunkTotalConcat(a: seq<FileEntry>, b: seq<FileEntry>)
    ensures ChunkTotal(a + b) == ChunkTotal(a) + ChunkTotal(b)
  {
    if a == [] {
      assert a + b == b;
    } else {
      assert (a + b)[1..] == a[1..] + b;
      ChunkTotalConcat(a[1..], b);
    }
  }

  /** Publishing an entry changes the free count by the chunks it gains over its predecessor. */
  lemma FreeAfterUpsert(geo: Geometry, m: Manifest, e: FileEntry)
    requires UniqueNames(m.entries)
    ensures FreeCount(geo, Upserted(m, e).entries)
         == FreeCount(geo, m.entries) + ChunksOf(m.entries, e.name) - |e.chunks|
  {
    ChunkTotalWithout(m.entries, e.name);
    ChunkTotalConcat(Without(m.entries, e.name), [e]);
  }

  /** An arbitrary member: stands for the random draw. */
  method Draw<T>(pool: set<T>) returns (c: T)
    requires |pool| > 0
    ensures c in pool
  {
    c :| c in pool;
  }

  /** Extends `start` to `n` chunks with distinct members of `pool`. */
  method Pick(start: seq<U32>, n: nat, pool: set<int>) returns (out: seq<U32>)
    requires |start| <= n <= |start| + |pool| && NoDup(start)
    requires forall c | c in pool :: 0 <= c <= U32_MAX && c !in Elems(start)
    ensures |out| == n && start <= out && NoDup(out)
    ensures forall k | |start| <= k < n :: out[k] in pool
  {
    out := start;
    assert forall k | 0 <= k < |start| :: start[k] in Elems(start);
    var left := pool;
    while |out| < n
      invariant |start| <= |out| <= n && start == out[..|start|] && NoDup(out)
      invariant left <= pool && |left| == |pool| - (|out| - |start|)
      invariant forall k | 0 <= k < |out| :: out[k] !in left
      invariant forall k | |start| <= k < |out| :: out[k] in pool
    {
      var c := Draw(left);
      left := left - {c};
      out := out + [c];
    }
  }

  lemma KeptIsDistinct(list: seq<U32>, n: nat)
    requires NoDup(list) && n <= |list|
    ensures NoDup(list[..n])
  {}

  /** What is left of the range without the chunks that stay and the reusable ones: exactly the
      free chunks, none of them reusable. */
  lemma PoolIsFree(geo: Geometry, entries: seq<FileEntry>, reusable: seq<U32>)
    requires Elems(reusable) <= Used(entries) && geo.total <= U32_MAX
    ensures (Range(geo.total) - ({geo.home} + Used(entries) - Elems(reusable))) - Elems(reusable) == Free(geo, entries)
    ensures forall c | c in Free(geo, entries) :: 0 <= c <= U32_MAX && c !in Elems(reusable)
  {
    hide Used, Elems;
  }
}
