/** Building, reading and editing key slots in place (crates/farewell_format/src/slot.rs). */
module Slots {
  import opened Bytes
  import opened Wrappers
  import opened Texts
  import opened Octets
  import opened Labels
  import opened SlotSpec

  // ---- authenticators ----

  /** Answers for the first candidate the authenticator holds. */
  method ChallengeResponse(auth: Authenticator, candidates: seq<seq<Byte>>, salt: Key)
    returns (r: Result<(seq<Byte>, Key)>)
    ensures r.Failure? ==> r.error == Crypto && forall i :: 0 <= i < |candidates| ==> candidates[i] !in auth
    ensures r.Success? ==> exists i :: (
                                         && 0 <= i < |candidates| && candidates[i] in auth
                                         && (forall k :: 0 <= k < i ==> candidates[k] !in auth)
                                         && r.value == (candidates[i], Hmac(auth[candidates[i]], salt)))
  {
    for i := 0 to |candidates|
      invariant forall k :: 0 <= k < i ==> candidates[k] !in auth
    {
      if candidates[i] in auth {
        return Success((candidates[i], Hmac(auth[candidates[i]], salt)));
      }
    }
    return Failure(Crypto);
  }

  /** The enrollment under construction when a vault is created or re-keyed. */
  class LevelEnrollment {
    var entries: Enrollment

    constructor ()
      ensures entries == []
    {
      entries := [];
    }

    method PushLabeled(cred: seq<Byte>, hmac: Key, name: Text) returns (r: Result<()>)
      modifies this
      ensures r.Success? <==> |cred| <= MAX_CRED_ID_LEN && |old(entries)| < MAX_HW_KEYS
      ensures entries == if r.Success? then old(entries) + [Enrolled(cred, hmac, name)] else old(entries)
    {
      if |cred| > MAX_CRED_ID_LEN {
        return Failure(BadManifest("credential ID too long"));
      }
      if |entries| >= MAX_HW_KEYS {
        return Failure(BadManifest("too many HW keys"));
      }
      entries := entries + [Enrolled(cred, hmac, name)];
      return Success(());
    }
  }

  // ---- the pieces of the payload ----

  /** Where the patched region of a payload lies relative to its entries, labels and keys. */
  lemma PatchedEntry(inner: Inner, i: nat, part: seq<Octet>)
    requires i < MAX_HW_KEYS && |part| == HW_SLOT_LEN
    ensures var now := Patch(inner, EntryOffset(i), part);
            && (forall j :: 0 <= j < MAX_HW_KEYS ==> Entry(now, j) == if j == i then part else Entry(inner, j))
            && (forall j :: 0 <= j < MAX_HW_KEYS ==> LabelAt(now, j) == LabelAt(inner, j))
            && KeyPart(now) == KeyPart(inner) && now[0] == inner[0]
  {
    hide Slice, Patch, EntryOffset, LabelOffset;
    var off := EntryOffset(i);
    SliceIsPatch(inner, off, part);
    forall j | 0 <= j < MAX_HW_KEYS
      ensures Entry(Patch(inner, off, part), j) == if j == i then part else Entry(inner, j)
      ensures LabelAt(Patch(inner, off, part), j) == LabelAt(inner, j)
    {
      SliceOfPatch(inner, off, part, EntryOffset(j), HW_SLOT_LEN);
      SliceOfPatch(inner, off, part, LabelOffset(j), LABEL_LEN);
    }
    SliceOfPatch(inner, off, part, MASTER_WRAP_OFFSET, MASTER_WRAP_LEN + KEY_LEN);
    PatchAt(inner, off, part, 0);
  }

  lemma PatchedLabel(inner: Inner, i: nat, part: seq<Octet>)
    requires i < MAX_HW_KEYS && |part| == LABEL_LEN
    ensures var now := Patch(inner, LabelOffset(i), part);
            && (forall j :: 0 <= j < MAX_HW_KEYS ==> Entry(now, j) == Entry(inner, j))
            && (forall j :: 0 <= j < MAX_HW_KEYS ==> LabelAt(now, j) == if j == i then part else LabelAt(inner, j))
            && KeyPart(now) == KeyPart(inner) && now[0] == inner[0]
  {
    hide Slice, Patch, EntryOffset, LabelOffset;
    var off := LabelOffset(i);
    SliceIsPatch(inner, off, part);
    forall j | 0 <= j < MAX_HW_KEYS
      ensures Entry(Patch(inner, off, part), j) == Entry(inner, j)
      ensures LabelAt(Patch(inner, off, part), j) == if j == i then part else LabelAt(inner, j)
    {
      SliceOfPatch(inner, off, part, EntryOffset(j), HW_SLOT_LEN);
      SliceOfPatch(inner, off, part, LabelOffset(j), LABEL_LEN);
    }
    SliceOfPatch(inner, off, part, MASTER_WRAP_OFFSET, MASTER_WRAP_LEN + KEY_LEN);
    PatchAt(inner, off, part, 0);
  }

  lemma PatchedKeys(inner: Inner, part: seq<Octet>)
    requires |part| == MASTER_WRAP_LEN + KEY_LEN
    ensures var now := Patch(inner, MASTER_WRAP_OFFSET, part);
            && (forall j :: 0 <= j < MAX_HW_KEYS ==> Entry(now, j) == Entry(inner, j))
            && (forall j :: 0 <= j < MAX_HW_KEYS ==> LabelAt(now, j) == LabelAt(inner, j))
            && KeyPart(now) == part && now[0] == inner[0]
  {
    hide Slice, Patch, EntryOffset, LabelOffset;
    var off := MASTER_WRAP_OFFSET;
    SliceIsPatch(inner, off, part);
    forall j | 0 <= j < MAX_HW_KEYS
      ensures Entry(Patch(inner, off, part), j) == Entry(inner, j)
      ensures LabelAt(Patch(inner, off, part), j) == LabelAt(inner, j)
    {
      SliceOfPatch(inner, off, part, EntryOffset(j), HW_SLOT_LEN);
      SliceOfPatch(inner, off, part, LabelOffset(j), LABEL_LEN);
    }
    PatchAt(inner, off, part, 0);
  }

  /** Writes one active entry in place: length, credential id, random tail, nonce, wrapped key. */
  method WriteEntry(inner: array<Octet>, i: nat, passKey: Key, kwk: Key, x: Enrolled, faulty: bool) returns (r: Result<()>)
    requires inner.Length == INNER_LEN && i < MAX_HW_KEYS && |x.cred| <= MAX_CRED_ID_LEN
    modifies inner
    ensures r == Failure(Io) || r.Success?
    ensures r.Success? ==> EntryHolds(Entry(inner[..], i), passKey, kwk, x)
    ensures r.Success? ==> inner[..] == Patch(old(inner[..]), EntryOffset(i), Entry(inner[..], i))
    ensures !faulty ==> r != Failure(Io)
  {
    hide EntryHolds, EntryOffset, Derive, Encrypt, Le, FromLe, Patch, Slice, Lift;
    var start := EntryOffset(i);
    var n := |x.cred|;
    ghost var was := inner[..];
    var length := Lift(Le(n, 2));
    CopyInto(inner, start, length);
    CopyInto(inner, start + 2, Lift(x.cred));
    PatchOnward(was, start, length, Lift(x.cred));
    var tail := RandomFill(MAX_CRED_ID_LEN - n, faulty);
    if tail.Failure? {
      return Failure(Io);
    }
    CopyInto(inner, start + 2 + n, tail.value);
    PatchOnward(was, start, length + Lift(x.cred), tail.value);
    var nonce := RandomFill(NONCE_LEN, faulty);
    if nonce.Failure? {
      return Failure(Io);
    }
    CopyInto(inner, start + KWK_NONCE_OFFSET, nonce.value);
    PatchOnward(was, start, length + Lift(x.cred) + tail.value, nonce.value);
    var wrapped := Encrypt(CombineKey(passKey, x.hmac), nonce.value, HW_WRAP_AAD, kwk);
    CopyInto(inner, start + KWK_OFFSET, wrapped);
    PatchOnward(was, start, length + Lift(x.cred) + tail.value + nonce.value, wrapped);
    EntryIs(length, passKey, kwk, x, tail.value, nonce.value, wrapped);
    PatchedEntry(was, i, length + Lift(x.cred) + tail.value + nonce.value + wrapped);
    return Success(());
  }

  lemma PatchOnward(s: seq<Octet>, off: nat, a: seq<Octet>, b: seq<Octet>)
    requires off + |a| + |b| <= |s|
    ensures Patch(Patch(s, off, a), off + |a|, b) == Patch(s, off, a + b)
  {}

  lemma EntryIs(length: seq<Octet>, passKey: Key, kwk: Key, x: Enrolled, tail: seq<Octet>, nonce: seq<Octet>,
                wrapped: seq<Octet>)
    requires |x.cred| <= MAX_CRED_ID_LEN && length == Lift(Le(|x.cred|, 2))
    requires |x.cred| + |tail| == MAX_CRED_ID_LEN && |nonce| == NONCE_LEN
    requires AllRandom(tail) && AllRandom(nonce)
    requires wrapped == Encrypt(CombineKey(passKey, x.hmac), nonce, HW_WRAP_AAD, kwk)
    ensures EntryHolds(length + Lift(x.cred) + tail + nonce + wrapped, passKey, kwk, x)
  {
    var e := length + Lift(x.cred) + tail + nonce + wrapped;
    Widths();
    LeRoundTrip(|x.cred|, 2);
    LowerLift(Le(|x.cred|, 2));
    LowerLift(x.cred);
    hide Slice, Le, FromLe, Lower, Lift, Encrypt, CombineKey;
    var cred := Lift(x.cred);
    var head := length + cred;
    SliceEnds(length, cred);
    SliceRun(head, tail, nonce);
    SliceEnds(head + tail, nonce);
    SliceEnds(head + tail + nonce, wrapped);
    SliceWithin(head, tail, 0, 2);
    SliceWithin(head, tail, 2, |cred|);
    SliceWithin(head + tail, nonce, 0, 2);
    SliceWithin(head + tail, nonce, 2, |cred|);
    SliceWithin(head + tail + nonce, wrapped, 0, 2);
    SliceWithin(head + tail + nonce, wrapped, 2, |cred|);
    SliceWithin(head + tail + nonce, wrapped, |head|, |tail| + |nonce|);
    SliceWithin(head + tail + nonce, wrapped, |head| + |tail|, |nonce|);
  }

  lemma SliceEnds(a: seq<Octet>, b: seq<Octet>)
    ensures Slice(a + b, 0, |a|) == a && Slice(a + b, |a|, |b|) == b
  {}

  lemma SliceWithin(a: seq<Octet>, b: seq<Octet>, off: nat, n: nat)
    requires off + n <= |a|
    ensures Slice(a + b, off, n) == Slice(a, off, n)
  {}

  /** Two random runs side by side. */
  lemma SliceRun(a: seq<Octet>, b: seq<Octet>, c: seq<Octet>)
    requires AllRandom(b) && AllRandom(c)
    ensures AllRandom(Slice(a + b + c, |a|, |b| + |c|))
  {}

  /** Encrypts a payload under the passphrase key into a full slot: nonce, ciphertext, random padding. */
  method SealOuter(passKey: Key, inner: Inner, faulty: bool) returns (r: Result<Slot>)
    ensures r == Failure(Io) || (r.Success? && OpenOuter(r.value, passKey) == Success(inner) && Padded(r.value))
    ensures !faulty ==> r != Failure(Io)
  {
    var nonce := RandomFill(NONCE_LEN, faulty);
    if nonce.Failure? {
      return Failure(Io);
    }
    var sealed := Encrypt(passKey, nonce.value, SLOT_AAD, inner);
    var out := new Octet[SLOT_LEN](_ => Plain(0));
    CopyInto(out, 0, nonce.value);
    CopyInto(out, NONCE_LEN, sealed);
    var padding := RandomFill(SLOT_LEN - NONCE_LEN - SEALED_LEN, faulty);
    if padding.Failure? {
      return Failure(Io);
    }
    CopyInto(out, NONCE_LEN + SEALED_LEN, padding.value);
    var slot: Slot := out[..];
    assert Slice(slot, 0, NONCE_LEN) == nonce.value;
    assert Slice(slot, NONCE_LEN, SEALED_LEN) == sealed;
    assert Slice(slot, NONCE_LEN + SEALED_LEN, SLOT_LEN - NONCE_LEN - SEALED_LEN) == padding.value;
    DecryptEncrypted(passKey, nonce.value, SLOT_AAD, passKey, nonce.value, SLOT_AAD, inner);
    return Success(slot);
  }

  /** `WrappedSlot::wrap`: one random key-wrapping key (or the passphrase-derived one when no
      hardware key is enrolled) wraps the master key and is wrapped for every hardware key. */
  method Wrap(passKey: Key, master: Key, metadata: Key, enrolled: Enrollment, faulty: bool)
    returns (r: Result<Slot>)
    ensures r == Failure(Io) || (
              r.Success? && exists kwk: Key :: (
                                                 && SlotHolds(r.value, passKey, Contents(kwk, master, metadata, enrolled))
                                                 && (enrolled != [] ==> AllRandom(kwk))))
    ensures !faulty ==> r != Failure(Io)
  {
    hide CredLen, Cred, Slice, Patch, EntryOffset, LabelOffset, OpenOuter, OpenMaster, Lift, Encrypt, Decrypt,
      LabelField, NoHwKwk, CombineKey, AllRandom, Padded, EntryHolds, KeysHold;
    var key := NoHwKwk(passKey);
    if enrolled != [] {
      var drawn := RandomFill(KEY_LEN, faulty);
      if drawn.Failure? {
        return Failure(Io);
      }
      key := drawn.value;
    }
    var inner := new Octet[INNER_LEN](_ => Plain(0));
    inner[0] := Plain(|enrolled|);
    for i := 0 to MAX_HW_KEYS
      invariant inner[0] == Plain(|enrolled|)
      invariant forall j :: 0 <= j < i && j < |enrolled| ==> EntryHolds(Entry(inner[..], j), passKey, key, enrolled[j])
      invariant forall j :: |enrolled| <= j < i ==> AllRandom(Entry(inner[..], j))
    {
      ghost var before: Inner := inner[..];
      if i < |enrolled| {
        var written := WriteEntry(inner, i, passKey, key, enrolled[i], faulty);
        if written.Failure? {
          return Failure(Io);
        }
      } else {
        var noise := RandomFill(HW_SLOT_LEN, faulty);
        if noise.Failure? {
          return Failure(Io);
        }
        CopyInto(inner, EntryOffset(i), noise.value);
        PatchedEntry(before, i, noise.value);
      }
      PatchedEntry(before, i, Entry(inner[..], i));
    }
    ghost var entries: Inner := inner[..];

    var nonce := RandomFill(NONCE_LEN, faulty);
    if nonce.Failure? {
      return Failure(Io);
    }
    var keyPart := BuildKeyPart(key, master, metadata, nonce.value, enrolled);
    PatchedKeys(inner[..], keyPart);
    CopyInto(inner, MASTER_WRAP_OFFSET, keyPart);

    ghost var c := Contents(key, master, metadata, enrolled);
    var labelled := WriteLabels(inner, enrolled, faulty);
    if labelled.Failure? {
      return Failure(Io);
    }
    assert InnerHolds(inner[..], passKey, c);
    r := SealOuter(passKey, inner[..], faulty);
    assert r.Success? ==> SlotHolds(r.value, passKey, c);
  }

  /** A label for every hardware key, and random bytes in the places of the others. */
  method WriteLabels(inner: array<Octet>, enrolled: Enrollment, faulty: bool) returns (r: Result<()>)
    requires inner.Length == INNER_LEN
    modifies inner
    ensures r == Failure(Io) || r == Success(())
    ensures inner[0] == old(inner[0]) && KeyPart(inner[..]) == old(KeyPart(inner[..]))
    ensures forall j :: 0 <= j < MAX_HW_KEYS ==> Entry(inner[..], j) == old(Entry(inner[..], j))
    ensures r.Success? ==> forall j :: 0 <= j < |enrolled| ==> LabelAt(inner[..], j) == Lift(LabelField(enrolled[j].name))
    ensures r.Success? ==> forall j :: |enrolled| <= j < MAX_HW_KEYS ==> AllRandom(LabelAt(inner[..], j))
    ensures !faulty ==> r != Failure(Io)
  {
    hide Slice, Patch, EntryOffset, LabelOffset, Lift, LabelField, AllRandom;
    for i := 0 to MAX_HW_KEYS
      invariant inner[0] == old(inner[0]) && KeyPart(inner[..]) == old(KeyPart(inner[..]))
      invariant forall j :: 0 <= j < MAX_HW_KEYS ==> Entry(inner[..], j) == old(Entry(inner[..], j))
      invariant forall j :: 0 <= j < i && j < |enrolled| ==> LabelAt(inner[..], j) == Lift(LabelField(enrolled[j].name))
      invariant forall j :: |enrolled| <= j < i ==> AllRandom(LabelAt(inner[..], j))
    {
      if i < |enrolled| {
        PatchedLabel(inner[..], i, Lift(LabelField(enrolled[i].name)));
        EncodeLabel(enrolled[i].name, inner, LabelOffset(i));
      } else {
        var noise := RandomFill(LABEL_LEN, faulty);
        if noise.Failure? {
          return Failure(Io);
        }
        PatchedLabel(inner[..], i, noise.value);
        CopyInto(inner, LabelOffset(i), noise.value);
      }
    }
    return Success(());
  }

  method BuildKeyPart(kwk: Key, master: Key, metadata: Key, nonce: seq<Octet>, ghost enrolled: Enrollment)
    returns (part: seq<Octet>)
    requires |nonce| == NONCE_LEN && AllRandom(nonce)
    ensures |part| == MASTER_WRAP_LEN + KEY_LEN && KeysHold(part, Contents(kwk, master, metadata, enrolled))
  {
    var sealed := Encrypt(kwk, nonce, MASTER_AAD, master + Lift(Le(KEY_LEN, 4)));
    part := nonce + sealed + metadata;
    assert Slice(part, 0, NONCE_LEN) == nonce;
    assert Slice(part, NONCE_LEN, MASTER_PAYLOAD_LEN + TAG_LEN) == sealed;
  }

  // ---- reading a slot ----

  const BAD_CRED_LEN := BadManifest("invalid credential length")
  const BAD_COUNT := BadManifest("invalid HW key count")

  /** Opens the outer layer of a slot and checks the key count. */
  method OpenInner(slot: Slot, passKey: Key) returns (r: Result<seq<Octet>>, k: nat)
    ensures OpenOuter(slot, passKey).Failure? ==> r == Failure(Crypto)
    ensures OpenOuter(slot, passKey).Success? ==>
              |OpenOuter(slot, passKey).value| == INNER_LEN &&
              r == if Value(OpenOuter(slot, passKey).value[0]) > MAX_HW_KEYS then Failure(BAD_COUNT) else OpenOuter(slot, passKey)
    ensures r.Success? ==> |r.value| == INNER_LEN && k == Value(r.value[0]) <= MAX_HW_KEYS
    ensures forall c :: SlotHolds(slot, passKey, c) ==>
                          r.Success? && InnerHolds(r.value, passKey, c) && k == |c.enrolled|
  {
    k := 0;
    r := OpenOuter(slot, passKey);
    OuterLength(slot, passKey);
    if r.Success? {
      k := Value(r.value[0]);
      if k > MAX_HW_KEYS {
        r := Failure(BAD_COUNT);
      }
    }
  }

  /** `WrappedSlot::read_enrollment`. */
  method ReadEnrollment(slot: Slot, passKey: Key) returns (r: Result<Listing>)
    ensures OpenOuter(slot, passKey).Failure? ==> r == Failure(Crypto)
    ensures forall c :: SlotHolds(slot, passKey, c) ==>
                          r == if Readable(c.enrolled) then Success(ListingOf(c.enrolled)) else Failure(BAD_CRED_LEN)
  {
    hide Slice, EntryOffset, LabelOffset, Cred, CredLen, ReadLabel, OpenOuter, Lift, KeysHold, EntryHolds,
      LabelField;
    var got, k := OpenInner(slot, passKey);
    if got.Failure? {
      return Failure(got.error);
    }
    var inner: Inner := got.value;
    var creds: seq<seq<Byte>>, names: seq<seq<Byte>> := [], [];
    for i := 0 to k
      invariant |creds| == |names| == i
      invariant forall j :: 0 <= j < i ==> CredLenFits(Entry(inner, j)) && creds[j] == Cred(Entry(inner, j))
      invariant forall j :: 0 <= j < i ==> names[j] == ReadLabel(Lower(LabelAt(inner, j)))
    {
      if !CredLenFits(Entry(inner, i)) {
        forall c | SlotHolds(slot, passKey, c) ensures !Readable(c.enrolled) {
          UnfitIsUnreadable(inner, passKey, c, i);
        }
        return Failure(BAD_CRED_LEN);
      }
      creds := creds + [Cred(Entry(inner, i))];
      var name := DecodeLabel(Lower(LabelAt(inner, i)));
      names := names + [name];
    }
    forall c | SlotHolds(slot, passKey, c)
      ensures Readable(c.enrolled) && ListingOf(c.enrolled) == Listing(creds, names)
    {
      ListingReadBack(inner, passKey, c, creds, names);
    }
    return Success(Listing(creds, names));
  }

  lemma NamesReadBack(inner: Inner, passKey: Key, c: Contents)
    requires InnerHolds(inner, passKey, c)
    ensures forall i :: 0 <= i < |c.enrolled| ==> ReadLabel(Lower(LabelAt(inner, i))) == Shown(c.enrolled[i].name)
  {
    forall i | 0 <= i < |c.enrolled|
      ensures ReadLabel(Lower(LabelAt(inner, i))) == Shown(c.enrolled[i].name)
    {
      LowerLift(LabelField(c.enrolled[i].name));
      LabelRoundTrip(c.enrolled[i].name);
    }
  }

  lemma UnfitIsUnreadable(inner: Inner, passKey: Key, c: Contents, i: nat)
    requires InnerHolds(inner, passKey, c) && i < |c.enrolled| && !CredLenFits(Entry(inner, i))
    ensures !Readable(c.enrolled)
  {
    assert Occupied(inner, i, passKey, c.kwk, c.enrolled[i]);
  }

  lemma ListingReadBack(inner: Inner, passKey: Key, c: Contents, creds: seq<seq<Byte>>, names: seq<seq<Byte>>)
    requires InnerHolds(inner, passKey, c) && |creds| == |names| == |c.enrolled|
    requires forall j :: 0 <= j < |c.enrolled| ==> CredLenFits(Entry(inner, j)) && creds[j] == Cred(Entry(inner, j))
    requires forall j :: 0 <= j < |c.enrolled| ==> names[j] == ReadLabel(Lower(LabelAt(inner, j)))
    ensures Readable(c.enrolled) && ListingOf(c.enrolled) == Listing(creds, names)
  {
    NamesReadBack(inner, passKey, c);
    assert creds == ListingOf(c.enrolled).creds;
    assert names == ListingOf(c.enrolled).names;
  }

  /** `recover_kwk_with_hmac`: succeeds exactly for the hmac output of an enrolled key. */
  method RecoverKwkWithHmac(passKey: Key, k: nat, inner: Inner, hmac: Key) returns (r: Result<Key>)
    requires k <= MAX_HW_KEYS
    ensures r.Failure? ==> r.error == Crypto
    ensures forall c :: InnerHolds(inner, passKey, c) && k == |c.enrolled| ==>
                          r == if Knows(c.enrolled, hmac) then Success(c.kwk) else Failure(Crypto)
  {
    hide CombineKey, Slice;
    var combined := CombineKey(passKey, hmac);
    for i := 0 to k
      invariant forall j :: 0 <= j < i ==> OpenKwk(Entry(inner, j), combined).Failure?
    {
      var got := OpenKwk(Entry(inner, i), combined);
      if got.Success? && |got.value| == KEY_LEN {
        forall c | InnerHolds(inner, passKey, c) && k == |c.enrolled|
          ensures Knows(c.enrolled, hmac) && c.kwk == got.value
        {
          EntryOpens(Entry(inner, i), passKey, c.kwk, c.enrolled[i], hmac);
        }
        return Success(got.value);
      }
      KwkLength(Entry(inner, i), combined);
    }
    forall c, i | InnerHolds(inner, passKey, c) && k == |c.enrolled| && 0 <= i < |c.enrolled|
      ensures c.enrolled[i].hmac != hmac
    {
      EntryOpens(Entry(inner, i), passKey, c.kwk, c.enrolled[i], hmac);
    }
    return Failure(Crypto);
  }

  lemma KwkLength(entry: seq<Octet>, combined: Key)
    requires |entry| == HW_SLOT_LEN
    ensures OpenKwk(entry, combined).Success? ==> |OpenKwk(entry, combined).value| == KEY_LEN
  {}

  // ---- editing a slot ----

  /** `WrappedSlot::add_credential`: appends an entry that wraps the same key-wrapping key. */
  method AddCredential(slot: Slot, passKey: Key, recover: Option<Key>, x: Enrolled, faulty: bool) returns (r: Result<Slot>)
    ensures OpenOuter(slot, passKey).Failure? && 0 < |x.cred| <= MAX_CRED_ID_LEN ==> r == Failure(Crypto)
    ensures forall c :: SlotHolds(slot, passKey, c) ==> (
                            match AddRefusal(c, recover, x.cred)
                            case Some(e) => r == Failure(e)
                            case None => r == Failure(Io) || (r.Success? && SlotHolds(r.value, passKey, WithKey(c, x))))
    ensures !faulty ==> r != Failure(Io)
  {
    hide CredLen, Cred, Slice, Patch, EntryOffset, LabelOffset, OpenOuter, OpenMaster, Lift, Encrypt, Decrypt,
      LabelField, NoHwKwk, CombineKey, KeysHold, EntryHolds, AllRandom, Padded;
    if x.cred == [] || |x.cred| > MAX_CRED_ID_LEN {
      return Failure(BadManifest("invalid new credential length"));
    }
    var got, k := OpenInner(slot, passKey);
    if got.Failure? {
      return Failure(got.error);
    }
    var plain: Inner := got.value;
    if k >= MAX_HW_KEYS {
      return Failure(BadManifest("no free hardware-key slot"));
    }
    var kwk := NoHwKwk(passKey);
    if k > 0 {
      if recover.None? {
        return Failure(BadManifest("a present enrolled key is required to add another"));
      }
      var recovered := RecoverKwkWithHmac(passKey, k, plain, recover.value);
      if recovered.Failure? {
        return Failure(recovered.error);
      }
      kwk := recovered.value;
    }
    var inner := new Octet[INNER_LEN](i requires 0 <= i < INNER_LEN => plain[i]);
    assert inner[..] == plain;
    var written := WriteEntry(inner, k, passKey, kwk, x, faulty);
    if written.Failure? {
      return Failure(Io);
    }
    PatchedEntry(plain, k, Entry(inner[..], k));
    ghost var entries: Inner := inner[..];
    PatchedLabel(entries, k, Lift(LabelField(x.name)));
    EncodeLabel(x.name, inner, LabelOffset(k));
    ghost var labels: Inner := inner[..];
    inner[0] := Plain(k + 1);
    CountOnly(labels, inner[..]);
    forall c | SlotHolds(slot, passKey, c) && AddRefusal(c, recover, x.cred).None?
      ensures InnerHolds(inner[..], passKey, WithKey(c, x))
    {
      if k == 0 {
        NoKeyNoHwKwk(plain, passKey, c);
      }
      HoldsWith(plain, inner[..], passKey, c, x);
    }
    r := SealOuter(passKey, inner[..], faulty);
  }

  lemma NoKeyNoHwKwk(inner: Inner, passKey: Key, c: Contents)
    requires InnerHolds(inner, passKey, c) && c.enrolled == []
    ensures c.kwk == NoHwKwk(passKey)
  {}

  lemma HoldsWith(was: Inner, now: Inner, passKey: Key, c: Contents, x: Enrolled)
    requires InnerHolds(was, passKey, c) && |c.enrolled| < MAX_HW_KEYS && |x.cred| <= MAX_CRED_ID_LEN
    requires now[0] == Plain(|c.enrolled| + 1) && KeyPart(now) == KeyPart(was)
    requires EntryHolds(Entry(now, |c.enrolled|), passKey, c.kwk, x)
    requires LabelAt(now, |c.enrolled|) == Lift(LabelField(x.name))
    requires forall j :: 0 <= j < MAX_HW_KEYS && j != |c.enrolled| ==> Entry(now, j) == Entry(was, j)
    requires forall j :: 0 <= j < MAX_HW_KEYS && j != |c.enrolled| ==> LabelAt(now, j) == LabelAt(was, j)
    ensures InnerHolds(now, passKey, WithKey(c, x))
  {
    hide KeysHold, NoHwKwk, Entry, LabelAt, Vacant, EntryHolds;
    KeysHoldSame(KeyPart(was), c, WithKey(c, x));
    forall i | 0 <= i < MAX_HW_KEYS && i != |c.enrolled|
      ensures i < |c.enrolled| ==> Occupied(now, i, passKey, c.kwk, c.enrolled[i])
      ensures i > |c.enrolled| ==> Vacant(now, i)
    {
      SamePlace(was, i, now, i, passKey, c.kwk, if i < |c.enrolled| then c.enrolled[i] else x);
    }
  }

  lemma CountOnly(was: Inner, now: Inner)
    requires was[1..] == now[1..]
    ensures forall j :: 0 <= j < MAX_HW_KEYS ==> Entry(now, j) == Entry(was, j) && LabelAt(now, j) == LabelAt(was, j)
    ensures KeyPart(now) == KeyPart(was)
  {
    forall j | 0 <= j < MAX_HW_KEYS
      ensures Entry(now, j) == Entry(was, j) && LabelAt(now, j) == LabelAt(was, j)
    {
      SliceSame(was, now, EntryOffset(j), HW_SLOT_LEN);
      SliceSame(was, now, LabelOffset(j), LABEL_LEN);
    }
    SliceSame(was, now, MASTER_WRAP_OFFSET, MASTER_WRAP_LEN + KEY_LEN);
  }

  lemma SliceSame(was: Inner, now: Inner, off: nat, n: nat)
    requires was[1..] == now[1..] && 1 <= off && off + n <= INNER_LEN
    ensures Slice(was, off, n) == Slice(now, off, n)
  {
    assert forall i :: 1 <= i < INNER_LEN ==> was[i] == was[1..][i - 1] && now[i] == now[1..][i - 1];
  }

  lemma KeysHoldSame(keyPart: seq<Octet>, c: Contents, c': Contents)
    requires |keyPart| == MASTER_WRAP_LEN + KEY_LEN
    requires c' == c.(enrolled := c'.enrolled)
    ensures KeysHold(keyPart, c') <==> KeysHold(keyPart, c)
  {}

  /** The shifting loop: drops entry and label `index` by moving the later ones down. */
  method ShiftDown(inner: array<Octet>, index: nat, k: nat)
    requires inner.Length == INNER_LEN && index < k <= MAX_HW_KEYS
    modifies inner
    ensures forall j :: 0 <= j < MAX_HW_KEYS ==>
                          Entry(inner[..], j) == Entry(old(inner[..]), if index <= j < k - 1 then j + 1 else j)
    ensures forall j :: 0 <= j < MAX_HW_KEYS ==>
                          LabelAt(inner[..], j) == LabelAt(old(inner[..]), if index <= j < k - 1 then j + 1 else j)
    ensures KeyPart(inner[..]) == KeyPart(old(inner[..])) && inner[0] == old(inner[0])
  {
    hide Slice, Patch, EntryOffset, LabelOffset;
    ghost var was: Inner := inner[..];
    for i := index to k - 1
      invariant forall j :: 0 <= j < MAX_HW_KEYS ==> Entry(inner[..], j) == Entry(was, if index <= j < i then j + 1 else j)
      invariant forall j :: 0 <= j < MAX_HW_KEYS ==> LabelAt(inner[..], j) == LabelAt(was, if index <= j < i then j + 1 else j)
      invariant KeyPart(inner[..]) == KeyPart(was) && inner[0] == was[0]
    {
      PatchedEntry(inner[..], i, Entry(inner[..], i + 1));
      CopyWithin(inner, EntryOffset(i + 1), HW_SLOT_LEN, EntryOffset(i));
      PatchedLabel(inner[..], i, LabelAt(inner[..], i + 1));
      CopyWithin(inner, LabelOffset(i + 1), LABEL_LEN, LabelOffset(i));
    }
  }

  lemma HoldsWithout(was: Inner, now: Inner, passKey: Key, c: Contents, index: nat)
    requires InnerHolds(was, passKey, c) && RemoveRefusal(c, index).None?
    requires now[0] == Plain(|c.enrolled| - 1) && KeyPart(now) == KeyPart(was) && Vacant(now, |c.enrolled| - 1)
    requires forall j :: 0 <= j < MAX_HW_KEYS && j != |c.enrolled| - 1 ==>
                           Entry(now, j) == Entry(was, if index <= j < |c.enrolled| - 1 then j + 1 else j)
    requires forall j :: 0 <= j < MAX_HW_KEYS && j != |c.enrolled| - 1 ==>
                           LabelAt(now, j) == LabelAt(was, if index <= j < |c.enrolled| - 1 then j + 1 else j)
    ensures InnerHolds(now, passKey, WithoutKey(c, index))
  {
    hide KeysHold, NoHwKwk, Entry, LabelAt, Occupied, Vacant;
    KeysHoldSame(KeyPart(was), c, WithoutKey(c, index));
    var left := WithoutKey(c, index).enrolled;
    forall i | 0 <= i < |left|
      ensures Occupied(now, i, passKey, c.kwk, left[i])
    {
      var j := if i < index then i else i + 1;
      assert left[i] == c.enrolled[j];
      SamePlace(was, j, now, i, passKey, c.kwk, left[i]);
    }
    forall i | |left| <= i < MAX_HW_KEYS
      ensures Vacant(now, i)
    {
      if i != |left| {
        assert Vacant(was, i);
        SamePlace(was, i, now, i, passKey, c.kwk, c.enrolled[0]);
      }
    }
  }

  lemma SamePlace(was: Inner, i: nat, now: Inner, j: nat, passKey: Key, kwk: Key, x: Enrolled)
    requires i < MAX_HW_KEYS && j < MAX_HW_KEYS && Entry(now, j) == Entry(was, i) && LabelAt(now, j) == LabelAt(was, i)
    ensures Occupied(now, j, passKey, kwk, x) <==> Occupied(was, i, passKey, kwk, x)
    ensures Vacant(now, j) <==> Vacant(was, i)
  {}

  /** Overwrites the last entry and its label with noise and counts it out. */
  method Vacate(inner: array<Octet>, last: nat, faulty: bool) returns (r: Result<()>)
    requires inner.Length == INNER_LEN && last < MAX_HW_KEYS
    modifies inner
    ensures r == Failure(Io) || r.Success?
    ensures r.Success? ==> inner[0] == Plain(last) && KeyPart(inner[..]) == KeyPart(old(inner[..]))
    ensures r.Success? ==> Vacant(inner[..], last)
    ensures r.Success? ==> forall j :: 0 <= j < MAX_HW_KEYS && j != last ==> Entry(inner[..], j) == Entry(old(inner[..]), j)
    ensures r.Success? ==> forall j :: 0 <= j < MAX_HW_KEYS && j != last ==> LabelAt(inner[..], j) == LabelAt(old(inner[..]), j)
    ensures !faulty ==> r != Failure(Io)
  {
    hide Slice, Patch, EntryOffset, LabelOffset, AllRandom;
    var noise := RandomFill(HW_SLOT_LEN, faulty);
    if noise.Failure? {
      return Failure(Io);
    }
    PatchedEntry(inner[..], last, noise.value);
    CopyInto(inner, EntryOffset(last), noise.value);
    var noName := RandomFill(LABEL_LEN, faulty);
    if noName.Failure? {
      return Failure(Io);
    }
    PatchedLabel(inner[..], last, noName.value);
    CopyInto(inner, LabelOffset(last), noName.value);
    ghost var vacated: Inner := inner[..];
    inner[0] := Plain(last);
    CountOnly(vacated, inner[..]);
    return Success(());
  }

  /** `WrappedSlot::remove_credential`: needs the passphrase only and rewraps nothing. */
  method RemoveCredential(slot: Slot, passKey: Key, index: nat, faulty: bool) returns (r: Result<Slot>)
    ensures OpenOuter(slot, passKey).Failure? ==> r == Failure(Crypto)
    ensures forall c :: SlotHolds(slot, passKey, c) ==> (
                            match RemoveRefusal(c, index)
                            case Some(e) => r == Failure(e)
                            case None => r == Failure(Io) || (r.Success? && SlotHolds(r.value, passKey, WithoutKey(c, index))))
    ensures !faulty ==> r != Failure(Io)
  {
    hide CredLen, Cred, Slice, Patch, EntryOffset, LabelOffset, OpenOuter, OpenMaster, Lift, Encrypt, Decrypt,
      LabelField, NoHwKwk, CombineKey, KeysHold, EntryHolds, InnerHolds, Entry, LabelAt, KeyPart, WithoutKey,
      Vacant, Padded;
    var got, k := OpenInner(slot, passKey);
    if got.Failure? {
      return Failure(got.error);
    }
    if index >= k {
      return Failure(BadManifest("key index out of range"));
    }
    if k <= 1 {
      return Failure(BadManifest("cannot remove the last hardware key here"));
    }
    var plain: Inner := got.value;
    var inner := new Octet[INNER_LEN](i requires 0 <= i < INNER_LEN => plain[i]);
    assert inner[..] == plain;
    ShiftDown(inner, index, k);

    var vacated := Vacate(inner, k - 1, faulty);
    if vacated.Failure? {
      return Failure(Io);
    }
    forall c | SlotHolds(slot, passKey, c)
      ensures InnerHolds(inner[..], passKey, WithoutKey(c, index))
    {
      HoldsWithout(plain, inner[..], passKey, c, index);
    }
    r := SealOuter(passKey, inner[..], faulty);
  }

  // ---- unwrapping ----

  /** `unwrap_kwk_via_authenticator`. */
  method UnwrapKwk(passKey: Key, salt: seq<Byte>, k: nat, inner: Inner, auth: Authenticator) returns (r: Result<Key>)
    requires 0 < k <= MAX_HW_KEYS
    ensures r.Failure? ==> r.error == Crypto || r.error == BAD_CRED_LEN
    ensures forall c :: InnerHolds(inner, passKey, c) && k == |c.enrolled| ==> r == KwkOutcome(c, salt, auth)
  {
    hide CombineKey, Slice, CredLen, Cred, EntryOffset, LabelAt, KeysHold, FidoSalt, Hmac, NoHwKwk, KwkOutcome,
      FirstHeld;
    var candidates: seq<seq<Byte>> := [];
    for i := 0 to k
      invariant |candidates| == i
      invariant forall j :: 0 <= j < i ==> CredLenFits(Entry(inner, j)) && candidates[j] == Cred(Entry(inner, j))
    {
      if !CredLenFits(Entry(inner, i)) {
        forall c | InnerHolds(inner, passKey, c) && k == |c.enrolled|
          ensures KwkOutcome(c, salt, auth) == Failure(BAD_CRED_LEN)
        {
          EmptyCred(inner, passKey, c, i, salt, auth);
        }
        return Failure(BAD_CRED_LEN);
      }
      candidates := candidates + [Cred(Entry(inner, i))];
    }
    var answer := ChallengeResponse(auth, candidates, FidoSalt(salt));
    if answer.Failure? {
      forall c | InnerHolds(inner, passKey, c) && k == |c.enrolled|
        ensures KwkOutcome(c, salt, auth) == Failure(Crypto)
      {
        NoneHeld(inner, passKey, c, salt, auth, candidates);
      }
      return Failure(Crypto);
    }
    var matched := 0;
    while candidates[matched] != answer.value.0
      invariant 0 <= matched < k
      invariant forall j :: 0 <= j < matched ==> candidates[j] != answer.value.0
      decreases k - matched
    {
      matched := matched + 1;
    }
    var got := OpenKwk(Entry(inner, matched), CombineKey(passKey, answer.value.1));
    forall c | InnerHolds(inner, passKey, c) && k == |c.enrolled|
      ensures got == KwkOutcome(c, salt, auth)
    {
      KwkIs(inner, passKey, c, salt, auth, candidates, matched);
    }
    if got.Failure? {
      return Failure(got.error);
    }
    KwkLength(Entry(inner, matched), CombineKey(passKey, answer.value.1));
    return Success(got.value);
  }

  lemma EmptyCred(inner: Inner, passKey: Key, c: Contents, i: nat, salt: seq<Byte>, auth: Authenticator)
    requires InnerHolds(inner, passKey, c) && i < |c.enrolled| && !CredLenFits(Entry(inner, i))
    ensures KwkOutcome(c, salt, auth) == Failure(BAD_CRED_LEN)
  {
    assert c.enrolled[i].cred == [];
  }

  lemma CredsAre(inner: Inner, passKey: Key, c: Contents, candidates: seq<seq<Byte>>)
    requires InnerHolds(inner, passKey, c) && |candidates| == |c.enrolled|
    requires forall j :: 0 <= j < |candidates| ==> CredLenFits(Entry(inner, j)) && candidates[j] == Cred(Entry(inner, j))
    ensures Readable(c.enrolled)
    ensures forall j :: 0 <= j < |candidates| ==> c.enrolled[j].cred == candidates[j]
  {
    hide Slice, LabelAt, KeysHold, EntryOffset, Cred;
    forall j | 0 <= j < |candidates|
      ensures c.enrolled[j].cred == candidates[j] != []
    {
      assert EntryHolds(Entry(inner, j), passKey, c.kwk, c.enrolled[j]);
    }
  }

  lemma NoneHeld(inner: Inner, passKey: Key, c: Contents, salt: seq<Byte>, auth: Authenticator, candidates: seq<seq<Byte>>)
    requires InnerHolds(inner, passKey, c) && |candidates| == |c.enrolled|
    requires forall j :: 0 <= j < |candidates| ==> CredLenFits(Entry(inner, j)) && candidates[j] == Cred(Entry(inner, j))
    requires forall j :: 0 <= j < |candidates| ==> candidates[j] !in auth
    ensures KwkOutcome(c, salt, auth) == Failure(Crypto)
  {
    hide InnerHolds, CredLenFits, Cred, Entry;
    CredsAre(inner, passKey, c, candidates);
  }

  lemma KwkIs(inner: Inner, passKey: Key, c: Contents, salt: seq<Byte>, auth: Authenticator, candidates: seq<seq<Byte>>,
              matched: nat)
    requires InnerHolds(inner, passKey, c) && matched < |candidates| == |c.enrolled|
    requires forall j :: 0 <= j < |candidates| ==> CredLenFits(Entry(inner, j)) && candidates[j] == Cred(Entry(inner, j))
    requires candidates[matched] in auth
    requires forall j :: 0 <= j < matched ==> candidates[j] !in auth
    ensures OpenKwk(Entry(inner, matched), CombineKey(passKey, Hmac(auth[candidates[matched]], FidoSalt(salt))))
         == KwkOutcome(c, salt, auth)
  {
    hide CredLenFits, Cred, CredLen, Slice, CombineKey, OpenKwk, KeysHold, LabelAt, Hmac, FidoSalt;
    CredsAre(inner, passKey, c, candidates);
    assert FirstHeld(c.enrolled, auth) == Some(matched);
    EntryOpens(Entry(inner, matched), passKey, c.kwk, c.enrolled[matched], Hmac(auth[candidates[matched]], FidoSalt(salt)));
  }

  function KwkOutcome(c: Contents, salt: seq<Byte>, auth: Authenticator): Result<Key> {
    if !Readable(c.enrolled) then Failure(BAD_CRED_LEN)
    else
      match FirstHeld(c.enrolled, auth)
      case None => Failure(Crypto)
      case Some(j) =>
        if Hmac(auth[c.enrolled[j].cred], FidoSalt(salt)) == c.enrolled[j].hmac then Success(c.kwk) else Failure(Crypto)
  }

  /** Keys taken out of a slot: they lie in a payload that opened under the passphrase key, with a
      count in range, wrapped with the right length tag under a key that without hardware keys is
      the one the passphrase key derives. */
  ghost predicate TakenFrom(slot: Slot, passKey: Key, keys: Keys, auth: Option<Authenticator>) {
    && OpenOuter(slot, passKey).Success? && |OpenOuter(slot, passKey).value| == INNER_LEN
    && var inner: Inner := OpenOuter(slot, passKey).value;
    && keys.hwKeys == Value(inner[0]) <= MAX_HW_KEYS
    && (keys.hwKeys > 0 ==> auth.Some?)
    && keys.metadata == Slice(KeyPart(inner), MASTER_WRAP_LEN, KEY_LEN)
    && exists kwk: Key ::
         && (keys.hwKeys == 0 ==> kwk == NoHwKwk(passKey))
         && OpenMaster(KeyPart(inner), kwk).Success?
         && var payload := OpenMaster(KeyPart(inner), kwk).value;
         && |payload| == MASTER_PAYLOAD_LEN && payload[..KEY_LEN] == keys.master
         && FromLe(Lower(payload[KEY_LEN..])) == KEY_LEN
  }

  /** `WrappedSlot::try_unwrap`. */
  method TryUnwrap(slot: Slot, passKey: Key, salt: seq<Byte>, auth: Option<Authenticator>) returns (r: Result<Keys>)
    ensures r.Failure? ==> r.error == Crypto || r.error.BadManifest? || (r.error == HardwareKeyRequired && auth.None?)
    ensures OpenOuter(slot, passKey).Failure? ==> r == Failure(Crypto)
    ensures forall c :: SlotHolds(slot, passKey, c) ==> r == UnwrapOutcome(c, salt, auth)
    ensures r.Success? ==> TakenFrom(slot, passKey, r.value, auth)
  {
    hide CombineKey, NoHwKwk, Slice, EntryHolds, LabelField, OpenOuter;
    var got, k := OpenInner(slot, passKey);
    if got.Failure? {
      return Failure(got.error);
    }
    var inner: Inner := got.value;
    var kwk := NoHwKwk(passKey);
    if k > 0 {
      if auth.None? {
        return Failure(HardwareKeyRequired);
      }
      var unwrapped := UnwrapKwk(passKey, salt, k, inner, auth.value);
      if unwrapped.Failure? {
        return Failure(unwrapped.error);
      }
      kwk := unwrapped.value;
    }
    var payload := OpenMaster(KeyPart(inner), kwk);
    forall c | SlotHolds(slot, passKey, c)
      ensures payload == if kwk == c.kwk then Success(c.master + Lift(Le(KEY_LEN, 4))) else Failure(Crypto)
      ensures FromLe(Lower(Lift(Le(KEY_LEN, 4)))) == KEY_LEN
      ensures Slice(KeyPart(inner), MASTER_WRAP_LEN, KEY_LEN) == c.metadata
    {
      MasterOpens(KeyPart(inner), c, kwk);
    }
    if payload.Failure? {
      return Failure(payload.error);
    }
    MasterLength(KeyPart(inner), kwk);
    if FromLe(Lower(payload.value[KEY_LEN..])) != KEY_LEN {
      return Failure(BadManifest("master length tag mismatch"));
    }
    return Success(Keys(payload.value[..KEY_LEN], Slice(KeyPart(inner), MASTER_WRAP_LEN, KEY_LEN), k));
  }

  lemma MasterLength(keyPart: seq<Octet>, kwk: Key)
    requires |keyPart| == MASTER_WRAP_LEN + KEY_LEN
    ensures OpenMaster(keyPart, kwk).Success? ==> |OpenMaster(keyPart, kwk).value| == MASTER_PAYLOAD_LEN
  {}
}
