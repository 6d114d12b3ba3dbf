/** Whole-file and range reads as slices of the content. */
module ReadSpec {
  import opened Bytes
  import opened Manifests
  import opened Store

  // ---- reads ----

  /** content[offset .. min(offset+len, size)], empty at or past the end. */
  function Window(content: seq<Byte>, offset: nat, len: nat): seq<Byte> {
    content[Min(offset, |content|)..Min(offset + len, |content|)]
  }

  lemma WindowEdges(content: seq<Byte>, offset: nat, len: nat)
    ensures offset >= |content| || len == 0 ==> Window(content, offset, len) == []
    ensures offset < |content| ==> Window(content, offset, len) == content[offset..offset + Min(len, |content| - offset)]
  {}

  /** Adjacent range reads join, and the range of the whole file is what a whole-file read returns. */
  lemma WindowsJoin(content: seq<Byte>, offset: nat, a: nat, b: nat)
    ensures Window(content, offset, a) + Window(content, offset + a, b) == Window(content, offset, a + b)
    ensures Window(content, 0, |content| + b) == content
  {}

  /** The pieces of a read all exist, and the last of them reaches its end. */
  lemma ReadBounds(e: FileEntry, offset: nat, end: nat)
    requires Shaped(e) && offset < end <= e.size
    ensures Pieces(end) <= |e.chunks|
    ensures offset / CHUNK_PLAINTEXT_LEN < Pieces(end)
    ensures end <= Pieces(end) * CHUNK_PLAINTEXT_LEN
    ensures forall i :: 0 <= i < Pieces(end) ==> i * CHUNK_PLAINTEXT_LEN < end
  {}

  /** How many bytes of [offset, end) the pieces before i hold. */
  function Reach(offset: nat, end: nat, i: nat): nat {
    Max(offset, Min(end, i * CHUNK_PLAINTEXT_LEN)) - offset
  }

  /** The part of a piece of `len` bytes that lies inside [offset, end), as bounds within the piece. */
  function LocalStart(offset: nat, i: nat): nat {
    if offset > i * CHUNK_PLAINTEXT_LEN then offset - i * CHUNK_PLAINTEXT_LEN else 0
  }

  function LocalEnd(end: nat, i: nat, len: nat): int {
    Min(end - i * CHUNK_PLAINTEXT_LEN, len)
  }

  lemma ReachBounds(offset: nat, end: nat, first: nat, last: nat)
    requires offset < end && first == offset / CHUNK_PLAINTEXT_LEN && last == Pieces(end)
    ensures Reach(offset, end, first) == 0 && Reach(offset, end, last) == end - offset
  {}

  /** One piece adds at most what it holds of the window, and a full one exactly that. */
  lemma ReachStep(offset: nat, end: nat, i: nat, len: nat)
    requires offset < end && offset / CHUNK_PLAINTEXT_LEN <= i && i * CHUNK_PLAINTEXT_LEN < end && len <= CHUNK_PLAINTEXT_LEN
    ensures LocalStart(offset, i) <= LocalEnd(end, i, len) <= len ==>
              Reach(offset, end, i) + (LocalEnd(end, i, len) - LocalStart(offset, i)) <= Reach(offset, end, i + 1)
    ensures LocalEnd(end, i, len) <= len
    ensures len == CHUNK_PLAINTEXT_LEN || i * CHUNK_PLAINTEXT_LEN + len >= end ==>
              && LocalStart(offset, i) <= LocalEnd(end, i, len)
              && offset + Reach(offset, end, i) == i * CHUNK_PLAINTEXT_LEN + LocalStart(offset, i)
              && offset + Reach(offset, end, i + 1) == i * CHUNK_PLAINTEXT_LEN + LocalEnd(end, i, len)
  {}

  lemma SliceOfSlice(s: seq<Byte>, a: nat, b: nat, lo: nat, hi: nat)
    requires a <= b <= |s| && lo <= hi <= b - a
    ensures s[a..b][lo..hi] == s[a + lo..a + hi]
  {
    var x, y := s[a..b][lo..hi], s[a + lo..a + hi];
    assert |x| == |y|;
    forall k | 0 <= k < |x| ensures x[k] == y[k] {
      assert s[a..b][lo + k] == s[a + lo + k];
    }
  }

  lemma PiecesJoin(content: seq<Byte>, i: nat)
    ensures content[..Min(i * CHUNK_PLAINTEXT_LEN, |content|)] + Piece(content, i)
         == content[..Min((i + 1) * CHUNK_PLAINTEXT_LEN, |content|)]
  {}

  lemma PieceAt(content: seq<Byte>, i: nat)
    requires i * CHUNK_PLAINTEXT_LEN < |content|
    ensures var start := i * CHUNK_PLAINTEXT_LEN;
            && start + |Piece(content, i)| <= |content|
            && Piece(content, i) == content[start..start + |Piece(content, i)|]
            && (|Piece(content, i)| == CHUNK_PLAINTEXT_LEN || start + |Piece(content, i)| == |content|)
  {}

  /** The part of piece i inside [offset, end) extends what is read so far. */
  lemma WindowStep(content: seq<Byte>, offset: nat, end: nat, i: nat)
    requires offset < end <= |content| && offset / CHUNK_PLAINTEXT_LEN <= i && i * CHUNK_PLAINTEXT_LEN < end
    ensures var piece := Piece(content, i);
            && 0 <= LocalStart(offset, i) <= LocalEnd(end, i, |piece|) <= |piece|
            && offset + Reach(offset, end, i) <= offset + Reach(offset, end, i + 1) <= |content|
            && content[offset..offset + Reach(offset, end, i)] + piece[LocalStart(offset, i)..LocalEnd(end, i, |piece|)]
               == content[offset..offset + Reach(offset, end, i + 1)]
  {
    hide Piece, Reach, LocalStart, LocalEnd;
    var start, piece := i * CHUNK_PLAINTEXT_LEN, Piece(content, i);
    PieceAt(content, i);
    ReachStep(offset, end, i, |piece|);
    var lo, hi := LocalStart(offset, i), LocalEnd(end, i, |piece|);
    SliceOfSlice(content, start, start + |piece|, lo, hi);
    JoinSlices(content, offset, start + lo, start + hi);
  }

  lemma JoinSlices(content: seq<Byte>, a: nat, b: nat, c: nat)
    requires a <= b <= c <= |content|
    ensures content[a..b] + content[b..c] == content[a..c]
  {}

  lemma PieceIsSlice(content: seq<Byte>, i: nat, count: nat)
    requires i < count == Max(Pieces(|content|), 1)
    ensures i * CHUNK_PLAINTEXT_LEN <= Min((i + 1) * CHUNK_PLAINTEXT_LEN, |content|)
    ensures Piece(content, i) == content[i * CHUNK_PLAINTEXT_LEN..Min((i + 1) * CHUNK_PLAINTEXT_LEN, |content|)]
  {}
}
