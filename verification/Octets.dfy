/** Symbolic bytes: an ideal model of the key derivation and the authenticated
    encryption. A ciphertext byte remembers what it encrypts, so decryption succeeds
    exactly on an unmodified ciphertext under the same key, nonce and associated data,
    a derived key determines its inputs, and a drawn byte belongs to neither. */
module Octets {
  import opened Bytes
  import opened Wrappers

  datatype Octet =
    | Plain(b: Byte)
    | Random(b: Byte)
    | Derived(domain: string, input: seq<Octet>, at: nat)
    | Cipher(key: seq<Octet>, nonce: seq<Octet>, aad: string, text: seq<Octet>, at: nat)

  const KEY_LEN: nat := 32

  type Key = k: seq<Octet> | |k| == KEY_LEN witness seq(KEY_LEN, _ => Plain(0))

  const NONCE_LEN: nat := 12
  const TAG_LEN: nat := 16

  function Lift(s: seq<Byte>): (o: seq<Octet>)
    ensures |o| == |s|
  {
    seq(|s|, i requires 0 <= i < |s| => Plain(s[i]))
  }

  /** The numeric value of a byte; a symbolic byte has none, and nothing that is well formed reads one. */
  function Value(o: Octet): Byte {
    if o.Plain? || o.Random? then o.b else 0
  }

  function Lower(s: seq<Octet>): (b: seq<Byte>)
    ensures |b| == |s|
  {
    seq(|s|, i requires 0 <= i < |s| => Value(s[i]))
  }

  lemma LowerLift(s: seq<Byte>)
    ensures Lower(Lift(s)) == s
  {}

  /** Nothing but bytes from the random source. */
  predicate AllRandom(s: seq<Octet>) {
    forall i :: 0 <= i < |s| ==> s[i].Random?
  }

  // ---- key derivation ----

  function Derive(domain: string, input: seq<Octet>): Key {
    seq(KEY_LEN, i requires 0 <= i < KEY_LEN => Derived(domain, input, i))
  }

  lemma DeriveIsInjective(domain: string, a: seq<Octet>, b: seq<Octet>)
    requires Derive(domain, a) == Derive(domain, b)
    ensures a == b
  {
    assert Derive(domain, a)[0] == Derive(domain, b)[0];
  }

  // ---- authenticated encryption ----

  function Encrypt(key: Key, nonce: seq<Octet>, aad: string, text: seq<Octet>): (c: seq<Octet>)
    ensures |c| == |text| + TAG_LEN
  {
    seq(|text| + TAG_LEN, i requires 0 <= i < |text| + TAG_LEN => Cipher(key, nonce, aad, text, i))
  }

  function Decrypt(key: Key, nonce: seq<Octet>, aad: string, c: seq<Octet>): Result<seq<Octet>> {
    if c != [] && c[0].Cipher? && c == Encrypt(key, nonce, aad, c[0].text) then Success(c[0].text) else Failure(Crypto)
  }

  /** Ideal AEAD: a ciphertext opens exactly under its own key, nonce and associated data. */
  lemma DecryptEncrypted(key: Key, nonce: seq<Octet>, aad: string, key': Key, nonce': seq<Octet>, aad': string, text: seq<Octet>)
    ensures Decrypt(key', nonce', aad', Encrypt(key, nonce, aad, text))
         == if key' == key && nonce' == nonce && aad' == aad then Success(text) else Failure(Crypto)
  {
    assert Encrypt(key, nonce, aad, text)[0] == Cipher(key, nonce, aad, text, 0);
    assert Encrypt(key', nonce', aad', text)[0] == Cipher(key', nonce', aad', text, 0);
  }

  /** One byte of a ciphertext determines the rest. */
  lemma SameHead(key: Key, key': Key, nonce: seq<Octet>, aad: string, c: seq<Octet>, c': seq<Octet>)
    requires Decrypt(key, nonce, aad, c).Success? && Decrypt(key', nonce, aad, c').Success? && c[0] == c'[0]
    ensures key == key' && c == c'
  {
    assert c[0] == Encrypt(key, nonce, aad, c[0].text)[0] == Cipher(key, nonce, aad, c[0].text, 0);
    assert c'[0] == Encrypt(key', nonce, aad, c'[0].text)[0] == Cipher(key', nonce, aad, c'[0].text, 0);
  }

  // ---- buffers ----

  function Slice(s: seq<Octet>, off: nat, n: nat): (r: seq<Octet>)
    requires off + n <= |s|
    ensures |r| == n
  {
    s[off..off + n]
  }

  /** s with the bytes from `off` overwritten. */
  function Patch(s: seq<Octet>, off: nat, part: seq<Octet>): (r: seq<Octet>)
    requires off + |part| <= |s|
    ensures |r| == |s|
  {
    s[..off] + part + s[off + |part|..]
  }

  lemma SliceOfPatch(s: seq<Octet>, off: nat, part: seq<Octet>, a: nat, n: nat)
    requires off + |part| <= |s| && a + n <= |s|
    ensures a + n <= off || off + |part| <= a ==> Slice(Patch(s, off, part), a, n) == Slice(s, a, n)
    ensures off <= a && a + n <= off + |part| ==> Slice(Patch(s, off, part), a, n) == part[a - off..a - off + n]
  {}

  lemma SliceIsPatch(s: seq<Octet>, off: nat, part: seq<Octet>)
    requires off + |part| <= |s|
    ensures Slice(Patch(s, off, part), off, |part|) == part
  {}

  lemma PatchAt(s: seq<Octet>, off: nat, part: seq<Octet>, i: nat)
    requires off + |part| <= |s| && i < |s|
    ensures Patch(s, off, part)[i] == if off <= i < off + |part| then part[i - off] else s[i]
  {}

  /** `copy_from_slice` into a buffer. */
  method CopyInto(a: array<Octet>, off: nat, part: seq<Octet>)
    requires off + |part| <= a.Length
    modifies a
    ensures a[..] == Patch(old(a[..]), off, part)
  {
    forall i | 0 <= i < |part| {
      a[off + i] := part[i];
    }
  }

  /** `copy_within`: the source bytes are read before the destination is written. */
  method CopyWithin(a: array<Octet>, from: nat, n: nat, to: nat)
    requires from + n <= a.Length && to + n <= a.Length
    modifies a
    ensures a[..] == Patch(old(a[..]), to, Slice(old(a[..]), from, n))
  {
    forall i | 0 <= i < n {
      a[to + i] := a[from + i];
    }
  }

  /** The operating system's random source, which may fail. */
  method RandomFill(n: nat, faulty: bool) returns (r: Result<seq<Octet>>)
    ensures r == Failure(Io) || (r.Success? && |r.value| == n && AllRandom(r.value))
    ensures !faulty ==> r != Failure(Io)
  {
    var fails: bool := *;
    if faulty && fails {
      return Failure(Io);
    }
    var bytes: seq<Byte> := Zeros(n);
    var drawn: seq<Byte> := *;
    if |drawn| == n {
      bytes := drawn;
    }
    return Success(seq(n, i requires 0 <= i < n => Random(bytes[i])));
  }
}
