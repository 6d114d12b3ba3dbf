/** The byte-level meaning of a range write, and why rewriting whole pieces realises it. */
module Splices {
  import opened Bytes
  import opened Manifests
  import opened Store

  /** Byte k after writing `data` at `offset`: the data, else the old byte, else a zero-filled hole. */
  function Splice(old': seq<Byte>, offset: nat, data: seq<Byte>): (s: seq<Byte>)
    ensures |s| == Max(|old'|, offset + |data|)
  {
    seq(Max(|old'|, offset + |data|), k requires 0 <= k =>
      if offset <= k < offset + |data| then data[k - offset] else if k < |old'| then old'[k] else 0)
  }

  /** The same as one concatenation: old bytes up to the offset, zeros over any hole, the data, the old tail. */
  lemma SpliceIsConcat(old': seq<Byte>, offset: nat, data: seq<Byte>)
    ensures Splice(old', offset, data)
         == old'[..Min(offset, |old'|)] + Zeros(Max(offset - |old'|, 0)) + data
            + old'[Min(offset + |data|, |old'|)..]
  {}

  /** Index of the first piece a write must rewrite. */
  function FirstDirty(size: nat, offset: nat): nat {
    if size == 0 then 0
    else if offset <= size then offset / CHUNK_PLAINTEXT_LEN
    else (size - 1) / CHUNK_PLAINTEXT_LEN
  }

  /** It is the piece that holds the offset, or the last piece when the write starts past the end. */
  lemma FirstDirtyIs(size: nat, offset: nat)
    ensures var k := FirstDirty(size, offset);
            && (offset <= size ==> k * CHUNK_PLAINTEXT_LEN <= offset < (k + 1) * CHUNK_PLAINTEXT_LEN)
            && (0 < size < offset ==> k + 1 == Pieces(size))
            && (size == 0 ==> k == 0)
  {}

  lemma FirstDirtyBounds(size: nat, offset: nat, len: nat)
    requires len > 0
    ensures FirstDirty(size, offset) < Pieces(Max(size, offset + len))
    ensures FirstDirty(size, offset) <= Pieces(size)
    ensures FirstDirty(size, offset) * CHUNK_PLAINTEXT_LEN <= size
    ensures FirstDirty(size, offset) * CHUNK_PLAINTEXT_LEN <= offset
  {}

  /** Pieces before the first dirty one are the same in the old and the new content. */
  lemma CleanPieces(old': seq<Byte>, offset: nat, data: seq<Byte>, i: nat)
    requires |data| > 0 && i < FirstDirty(|old'|, offset)
    ensures Piece(Splice(old', offset, data), i) == Piece(old', i)
  {
    var s := Splice(old', offset, data);
    var start := i * CHUNK_PLAINTEXT_LEN;
    assert start + CHUNK_PLAINTEXT_LEN <= |old'| && start + CHUNK_PLAINTEXT_LEN <= offset;
    assert forall k | start <= k < start + CHUNK_PLAINTEXT_LEN :: s[k] == old'[k];
  }

  /** A merged piece: zeros, overlaid with the old piece, overlaid with the written bytes. */
  predicate Merged(p: seq<Byte>, oldPiece: seq<Byte>, newSize: nat, offset: nat, data: seq<Byte>, i: nat) {
    var start := i * CHUNK_PLAINTEXT_LEN;
    && start <= newSize
    && |p| == Min(newSize, start + CHUNK_PLAINTEXT_LEN) - start
    && forall k | 0 <= k < |p| ::
         p[k] == if offset <= start + k < offset + |data| then data[start + k - offset]
         else if k < |oldPiece| then oldPiece[k] else 0
  }

  lemma MergedIsPiece(p: seq<Byte>, old': seq<Byte>, offset: nat, data: seq<Byte>, i: nat)
    requires Merged(p, Piece(old', i), Max(|old'|, offset + |data|), offset, data, i)
    ensures p == Piece(Splice(old', offset, data), i)
  {
    var s := Splice(old', offset, data);
    var start := i * CHUNK_PLAINTEXT_LEN;
    var q := Piece(s, i);
    assert |p| == |q|;
    forall k | 0 <= k < |p| ensures p[k] == q[k] {
      assert q[k] == s[start + k];
    }
  }

  method MergePiece(oldPiece: seq<Byte>, newSize: nat, offset: nat, data: seq<Byte>, i: nat)
    returns (p: seq<Byte>)
    requires i * CHUNK_PLAINTEXT_LEN <= newSize && offset + |data| <= newSize
    ensures Merged(p, oldPiece, newSize, offset, data, i)
  {
    var start := i * CHUNK_PLAINTEXT_LEN;
    var realEnd := Min(newSize, start + CHUNK_PLAINTEXT_LEN);
    var buf := new Byte[realEnd - start](_ => 0);
    var preserved := Min(|oldPiece|, buf.Length);
    forall k | 0 <= k < preserved {
      buf[k] := oldPiece[k];
    }
    var overlapStart := Max(offset, start);
    var overlapEnd := Min(offset + |data|, realEnd);
    if overlapStart < overlapEnd {
      forall k | overlapStart - start <= k < overlapEnd - start {
        buf[k] := data[start + k - offset];
      }
    }
    p := buf[..];
  }

  lemma MergedIsShort(p: seq<Byte>, oldPiece: seq<Byte>, newSize: nat, offset: nat, data: seq<Byte>, i: nat)
    requires Merged(p, oldPiece, newSize, offset, data, i)
    ensures |p| <= CHUNK_PLAINTEXT_LEN
  {}
}
