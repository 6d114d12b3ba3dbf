/** Fixed-size encrypted chunks (crates/farewell_format/src/chunk.rs). */
module Chunks {
  import opened Bytes
  import opened Wrappers
  import opened Octets
  import opened Manifests

  /** Per-chunk key: determined by, and determining, the master key and the index. */
  datatype ChunkKey = ChunkKey(master: Key, index: nat)

  /** One stored chunk: random noise, or a padded payload sealed under a chunk key with
      the index as associated data. */
  datatype Cell = Noise | Sealed(key: ChunkKey, aad: nat, padded: seq<Byte>)

  function Pad(text: seq<Byte>): (p: seq<Byte>)
    requires |text| <= CHUNK_PLAINTEXT_LEN
    ensures |p| == CHUNK_PLAINTEXT_LEN + 4
  {
    text + Zeros(CHUNK_PLAINTEXT_LEN - |text|) + Le(|text|, 4)
  }

  function Seal(master: Key, index: nat, text: seq<Byte>): Cell
    requires |text| <= CHUNK_PLAINTEXT_LEN
  {
    Sealed(ChunkKey(master, index), index, Pad(text))
  }

  /** Zero-pads the payload to the fixed length, appends the length tag and seals it;
      the random source behind the nonce may fail. */
  method EncryptChunk(key: ChunkKey, index: nat, text: seq<Byte>, faulty: bool) returns (r: Result<Cell>)
    ensures |text| > CHUNK_PLAINTEXT_LEN ==> r.Failure? && r.error.BadManifest?
    ensures |text| <= CHUNK_PLAINTEXT_LEN ==> r == Failure(Io) || r == Success(Sealed(key, index, Pad(text)))
    ensures !faulty ==> r != Failure(Io)
  {
    if |text| > CHUNK_PLAINTEXT_LEN {
      return Failure(BadManifest("chunk payload too large"));
    }
    var padded := new Byte[CHUNK_PLAINTEXT_LEN + 4](_ => 0);
    forall i | 0 <= i < |text| {
      padded[i] := text[i];
    }
    var tag := Le(|text|, 4);
    forall i | 0 <= i < 4 {
      padded[CHUNK_PLAINTEXT_LEN + i] := tag[i];
    }
    assert padded[..] == Pad(text);
    var randomFails: bool := *;
    if faulty && randomFails {
      return Failure(Io);
    }
    return Success(Sealed(key, index, padded[..]));
  }

  function DecryptChunk(key: ChunkKey, index: nat, stored: Cell): Result<seq<Byte>> {
    if stored.Noise? || stored.key != key || stored.aad != index then Failure(Crypto)
    else if |stored.padded| != CHUNK_PLAINTEXT_LEN + 4 then Failure(BadManifest("chunk plaintext length mismatch"))
    else
      var realLen := FromLe(stored.padded[CHUNK_PLAINTEXT_LEN..]);
      if realLen > CHUNK_PLAINTEXT_LEN then Failure(BadManifest("chunk declared length out of range"))
      else Success(stored.padded[..realLen])
  }

  /** A sealed payload comes back exactly, and only at its own index under its own master key. */
  lemma OpenSealed(master: Key, index: nat, master': Key, index': nat, text: seq<Byte>)
    requires |text| <= CHUNK_PLAINTEXT_LEN
    ensures DecryptChunk(ChunkKey(master', index'), index', Seal(master, index, text))
         == if master == master' && index == index' then Success(text) else Failure(Crypto)
  {
    Widths();
    LeRoundTrip(|text|, 4);
    var p := Pad(text);
    assert p[CHUNK_PLAINTEXT_LEN..] == Le(|text|, 4);
    assert p[..|text|] == text;
  }

  lemma DecryptedIsShort(key: ChunkKey, index: nat, stored: Cell)
    ensures DecryptChunk(key, index, stored).Success? ==> |DecryptChunk(key, index, stored).value| <= CHUNK_PLAINTEXT_LEN
    ensures DecryptChunk(key, index, stored).Failure? ==>
              DecryptChunk(key, index, stored).error == Crypto || DecryptChunk(key, index, stored).error.BadManifest?
  {}
}
