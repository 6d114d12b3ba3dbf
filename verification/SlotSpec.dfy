/** The byte layout of a key slot and what its encrypted payload holds
    (crates/farewell_format/src/slot.rs). */
module SlotSpec {
  import opened Bytes
  import opened Wrappers
  import opened Texts
  import opened Octets
  import opened Labels

  const SLOT_LEN: nat := 4096
  const MAX_HW_KEYS: nat := 3
  const MAX_CRED_ID_LEN: nat := 256
  const WRAPPED_KWK_LEN: nat := KEY_LEN + TAG_LEN
  const KWK_NONCE_OFFSET: nat := 2 + MAX_CRED_ID_LEN
  const KWK_OFFSET: nat := KWK_NONCE_OFFSET + NONCE_LEN
  const HW_SLOT_LEN: nat := KWK_OFFSET + WRAPPED_KWK_LEN
  const MASTER_PAYLOAD_LEN: nat := KEY_LEN + 4
  const MASTER_WRAP_LEN: nat := NONCE_LEN + MASTER_PAYLOAD_LEN + TAG_LEN
  const MASTER_WRAP_OFFSET: nat := 1 + MAX_HW_KEYS * HW_SLOT_LEN
  const METADATA_KEY_OFFSET: nat := MASTER_WRAP_OFFSET + MASTER_WRAP_LEN
  const LABELS_OFFSET: nat := METADATA_KEY_OFFSET + KEY_LEN
  const INNER_LEN: nat := LABELS_OFFSET + MAX_HW_KEYS * LABEL_LEN
  const SEALED_LEN: nat := INNER_LEN + TAG_LEN

  const SLOT_AAD := "farewell.slot.v6"
  const HW_WRAP_AAD := "farewell.slot.hwwrap.v6"
  const MASTER_AAD := "farewell.slot.master.v6"

  type Slot = s: seq<Octet> | |s| == SLOT_LEN witness seq(SLOT_LEN, _ => Plain(0))
  type Inner = s: seq<Octet> | |s| == INNER_LEN witness seq(INNER_LEN, _ => Plain(0))

  // ---- keys ----

  function CombineKey(passKey: Key, hmac: Key): Key {
    Derive("farewell.combine.v5", passKey + hmac)
  }

  lemma CombineIsInjective(passKey: Key, a: Key, b: Key)
    ensures CombineKey(passKey, a) == CombineKey(passKey, b) <==> a == b
  {
    if CombineKey(passKey, a) == CombineKey(passKey, b) {
      DeriveIsInjective("farewell.combine.v5", passKey + a, passKey + b);
      assert a == (passKey + a)[KEY_LEN..] == (passKey + b)[KEY_LEN..] == b;
    }
  }

  function NoHwKwk(passKey: Key): Key {
    Derive("farewell.kwk.no_hw.v5", passKey)
  }

  /** The salt presented to authenticators: the vault's salt under its own domain. */
  function FidoSalt(salt: seq<Byte>): Key {
    Derive("farewell.fido.salt.v5", Lift(VAULT_SALT_PREFIX + salt))
  }

  const VAULT_SALT_PREFIX: seq<Byte> := [0x76, 0x61, 0x75, 0x6C, 0x74, 0x5F, 0x73, 0x61, 0x6C, 0x74, 0x3A]

  // ---- authenticators ----

  /** A hardware key: an internal secret for each credential it holds. */
  type Authenticator = map<seq<Byte>, Key>

  /** The hmac-secret output of a credential's internal key. */
  function Hmac(secret: Key, salt: Key): Key {
    Derive("hmac-secret", secret + salt)
  }

  /** Two vaults present different salts to one authenticator. */
  lemma FidoSaltIsInjective(salt: seq<Byte>, salt': seq<Byte>)
    ensures FidoSalt(salt) == FidoSalt(salt') <==> salt == salt'
  {
    if FidoSalt(salt) == FidoSalt(salt') {
      var a, b := VAULT_SALT_PREFIX + salt, VAULT_SALT_PREFIX + salt';
      DeriveIsInjective("farewell.fido.salt.v5", Lift(a), Lift(b));
      LowerLift(a);
      LowerLift(b);
      assert salt == a[|VAULT_SALT_PREFIX|..] == b[|VAULT_SALT_PREFIX|..] == salt';
    }
  }

  /** An output tells secret and salt apart. */
  lemma HmacIsInjective(secret: Key, salt: Key, secret': Key, salt': Key)
    ensures Hmac(secret, salt) == Hmac(secret', salt') <==> secret == secret' && salt == salt'
  {
    if Hmac(secret, salt) == Hmac(secret', salt') {
      DeriveIsInjective("hmac-secret", secret + salt, secret' + salt');
      assert secret == (secret + salt)[..KEY_LEN] == (secret' + salt')[..KEY_LEN] == secret';
      assert salt == (secret + salt)[KEY_LEN..] == (secret' + salt')[KEY_LEN..] == salt';
    }
  }

  // ---- the layout of the decrypted payload ----

  function EntryOffset(i: nat): (off: nat)
    requires i < MAX_HW_KEYS
    ensures off == 1 + 318 * i
  {
    1 + i * HW_SLOT_LEN
  }

  function LabelOffset(i: nat): (off: nat)
    requires i < MAX_HW_KEYS
    ensures off == 1051 + 48 * i
  {
    LABELS_OFFSET + i * LABEL_LEN
  }

  function Entry(inner: Inner, i: nat): (entry: seq<Octet>)
    requires i < MAX_HW_KEYS
    ensures |entry| == HW_SLOT_LEN
  {
    Slice(inner, EntryOffset(i), HW_SLOT_LEN)
  }

  function LabelAt(inner: Inner, i: nat): (field: seq<Octet>)
    requires i < MAX_HW_KEYS
    ensures |field| == LABEL_LEN
  {
    Slice(inner, LabelOffset(i), LABEL_LEN)
  }

  /** The master-key wrap and the metadata key, between the entries and the labels. */
  function KeyPart(inner: Inner): seq<Octet> {
    Slice(inner, MASTER_WRAP_OFFSET, MASTER_WRAP_LEN + KEY_LEN)
  }

  function CredLen(entry: seq<Octet>): nat
    requires |entry| == HW_SLOT_LEN
  {
    FromLe(Lower(Slice(entry, 0, 2)))
  }

  predicate CredLenFits(entry: seq<Octet>)
    requires |entry| == HW_SLOT_LEN
  {
    0 < CredLen(entry) <= MAX_CRED_ID_LEN
  }

  function Cred(entry: seq<Octet>): seq<Byte>
    requires |entry| == HW_SLOT_LEN && CredLen(entry) <= MAX_CRED_ID_LEN
  {
    Lower(Slice(entry, 2, CredLen(entry)))
  }

  /** The key-wrapping key under the combined key of an entry. */
  function OpenKwk(entry: seq<Octet>, combined: Key): Result<seq<Octet>>
    requires |entry| == HW_SLOT_LEN
  {
    Decrypt(combined, Slice(entry, KWK_NONCE_OFFSET, NONCE_LEN), HW_WRAP_AAD, Slice(entry, KWK_OFFSET, WRAPPED_KWK_LEN))
  }

  function OpenMaster(keyPart: seq<Octet>, kwk: Key): Result<seq<Octet>>
    requires |keyPart| == MASTER_WRAP_LEN + KEY_LEN
  {
    Decrypt(kwk, Slice(keyPart, 0, NONCE_LEN), MASTER_AAD, Slice(keyPart, NONCE_LEN, MASTER_PAYLOAD_LEN + TAG_LEN))
  }

  function OpenOuter(slot: Slot, passKey: Key): Result<seq<Octet>> {
    Decrypt(passKey, Slice(slot, 0, NONCE_LEN), SLOT_AAD, Slice(slot, NONCE_LEN, SEALED_LEN))
  }

  lemma OuterLength(slot: Slot, passKey: Key)
    ensures OpenOuter(slot, passKey).Success? ==> |OpenOuter(slot, passKey).value| == INNER_LEN
  {}

  // ---- what a payload holds ----

  datatype Enrolled = Enrolled(cred: seq<Byte>, hmac: Key, name: Text)

  /** `LevelEnrollment`: at most three keys, credential ids of at most 256 bytes. */
  type Enrollment = s: seq<Enrolled>
    | |s| <= MAX_HW_KEYS && forall x :: x in s ==> |x.cred| <= MAX_CRED_ID_LEN witness []

  /** The key-wrapping key, the two keys it and the passphrase protect, and the enrolled hardware keys. */
  datatype Contents = Contents(kwk: Key, master: Key, metadata: Key, enrolled: Enrollment)

  /** One active entry: the credential id, and the shared key-wrapping key under this
      hardware key's own combined key. */
  predicate EntryHolds(entry: seq<Octet>, passKey: Key, kwk: Key, x: Enrolled)
    requires |entry| == HW_SLOT_LEN
  {
    && CredLen(entry) == |x.cred| <= MAX_CRED_ID_LEN
    && Cred(entry) == x.cred
    && Slice(entry, KWK_OFFSET, WRAPPED_KWK_LEN)
       == Encrypt(CombineKey(passKey, x.hmac), Slice(entry, KWK_NONCE_OFFSET, NONCE_LEN), HW_WRAP_AAD, kwk)
    && AllRandom(Slice(entry, 2 + |x.cred|, KWK_OFFSET - 2 - |x.cred|))
  }

  predicate Occupied(inner: Inner, i: nat, passKey: Key, kwk: Key, x: Enrolled)
    requires i < MAX_HW_KEYS
  {
    EntryHolds(Entry(inner, i), passKey, kwk, x) && LabelAt(inner, i) == Lift(LabelField(x.name))
  }

  /** An entry no hardware key occupies: it and its label are random bytes. */
  predicate Vacant(inner: Inner, i: nat)
    requires i < MAX_HW_KEYS
  {
    AllRandom(Entry(inner, i)) && AllRandom(LabelAt(inner, i))
  }

  predicate KeysHold(keyPart: seq<Octet>, c: Contents)
    requires |keyPart| == MASTER_WRAP_LEN + KEY_LEN
  {
    && Slice(keyPart, NONCE_LEN, MASTER_PAYLOAD_LEN + TAG_LEN)
       == Encrypt(c.kwk, Slice(keyPart, 0, NONCE_LEN), MASTER_AAD, c.master + Lift(Le(KEY_LEN, 4)))
    && AllRandom(Slice(keyPart, 0, NONCE_LEN))
    && Slice(keyPart, MASTER_WRAP_LEN, KEY_LEN) == c.metadata
  }

  predicate InnerHolds(inner: Inner, passKey: Key, c: Contents) {
    && inner[0] == Plain(|c.enrolled|)
    && KeysHold(KeyPart(inner), c)
    && (c.enrolled == [] ==> c.kwk == NoHwKwk(passKey))
    && (forall i :: 0 <= i < |c.enrolled| ==> Occupied(inner, i, passKey, c.kwk, c.enrolled[i]))
    && (forall i :: |c.enrolled| <= i < MAX_HW_KEYS ==> Vacant(inner, i))
  }

  /** Around its ciphertext a slot is random bytes. */
  predicate Padded(slot: Slot) {
    && AllRandom(Slice(slot, 0, NONCE_LEN))
    && AllRandom(Slice(slot, NONCE_LEN + SEALED_LEN, SLOT_LEN - NONCE_LEN - SEALED_LEN))
  }

  predicate SlotHolds(slot: Slot, passKey: Key, c: Contents) {
    && Padded(slot)
    && OpenOuter(slot, passKey).Success?
    && InnerHolds(OpenOuter(slot, passKey).value, passKey, c)
  }

  // ---- consequences ----

  /** An entry opens under the combined key of its own hardware key and under no other. */
  lemma EntryOpens(entry: seq<Octet>, passKey: Key, kwk: Key, x: Enrolled, hmac: Key)
    requires |entry| == HW_SLOT_LEN && EntryHolds(entry, passKey, kwk, x)
    ensures OpenKwk(entry, CombineKey(passKey, hmac)) == if hmac == x.hmac then Success(kwk) else Failure(Crypto)
  {
    var nonce := Slice(entry, KWK_NONCE_OFFSET, NONCE_LEN);
    DecryptEncrypted(CombineKey(passKey, x.hmac), nonce, HW_WRAP_AAD, CombineKey(passKey, hmac), nonce, HW_WRAP_AAD, kwk);
    CombineIsInjective(passKey, hmac, x.hmac);
  }

  /** The key-wrapping key, and nothing else, recovers the master key with its length tag. */
  lemma MasterOpens(keyPart: seq<Octet>, c: Contents, kwk: Key)
    requires |keyPart| == MASTER_WRAP_LEN + KEY_LEN && KeysHold(keyPart, c)
    ensures OpenMaster(keyPart, kwk) == if kwk == c.kwk then Success(c.master + Lift(Le(KEY_LEN, 4))) else Failure(Crypto)
    ensures FromLe(Lower(Lift(Le(KEY_LEN, 4)))) == KEY_LEN
  {
    var nonce := Slice(keyPart, 0, NONCE_LEN);
    DecryptEncrypted(c.kwk, nonce, MASTER_AAD, kwk, nonce, MASTER_AAD, c.master + Lift(Le(KEY_LEN, 4)));
    LowerLift(Le(KEY_LEN, 4));
    Widths();
    LeRoundTrip(KEY_LEN, 4);
  }

  /** A slot opens under one passphrase key only. */
  lemma OneKeyOpens(slot: Slot, passKey: Key, other: Key)
    requires OpenOuter(slot, passKey).Success? && passKey != other
    ensures OpenOuter(slot, other) == Failure(Crypto)
  {
    var sealed := Slice(slot, NONCE_LEN, SEALED_LEN);
    var nonce := Slice(slot, 0, NONCE_LEN);
    DecryptEncrypted(passKey, nonce, SLOT_AAD, other, nonce, SLOT_AAD, sealed[0].text);
  }

  ghost predicate OpensForNone(slot: Slot) {
    forall key: Key :: OpenOuter(slot, key).Failure?
  }

  /** A prefix of a new slot over an old one: still the old slot, or already one with the new
      contents, or a slot that opens under no key at all. */
  lemma CutShort(was: Slot, wasKey: Key, c: Contents, now: Slot, nowKey: Key, c': Contents, written: nat)
    requires SlotHolds(was, wasKey, c) && SlotHolds(now, nowKey, c') && written <= SLOT_LEN
    ensures var mixed := now[..written] + was[written..];
            && (mixed == was || SlotHolds(mixed, nowKey, c') || OpensForNone(mixed))
            && (written >= NONCE_LEN + SEALED_LEN ==> SlotHolds(mixed, nowKey, c'))
  {
    hide InnerHolds;
    var mixed: Slot := now[..written] + was[written..];
    if key: Key :| OpenOuter(mixed, key).Success? {
      if written <= NONCE_LEN {
        MixedNonce(was, wasKey, now, written, key);
      } else {
        MixedText(was, now, nowKey, c', written, key);
      }
    }
    if written >= NONCE_LEN + SEALED_LEN {
      WrittenOut(was, now, nowKey, c', written);
    }
  }

  lemma MixedNonce(was: Slot, wasKey: Key, now: Slot, written: nat, key: Key)
    requires OpenOuter(was, wasKey).Success? && written <= NONCE_LEN
    requires OpenOuter(now[..written] + was[written..], key).Success?
    ensures now[..written] + was[written..] == was
  {
    var mixed: Slot := now[..written] + was[written..];
    var sealed := Slice(was, NONCE_LEN, SEALED_LEN);
    assert Slice(mixed, NONCE_LEN, SEALED_LEN) == sealed;
    DecryptEncrypted(wasKey, Slice(was, 0, NONCE_LEN), SLOT_AAD, key, Slice(mixed, 0, NONCE_LEN), SLOT_AAD, sealed[0].text);
    assert mixed == Slice(mixed, 0, NONCE_LEN) + was[NONCE_LEN..];
  }

  lemma MixedText(was: Slot, now: Slot, nowKey: Key, c: Contents, written: nat, key: Key)
    requires Padded(was) && SlotHolds(now, nowKey, c) && NONCE_LEN < written <= SLOT_LEN
    requires OpenOuter(now[..written] + was[written..], key).Success?
    ensures SlotHolds(now[..written] + was[written..], nowKey, c)
  {
    hide InnerHolds, Decrypt, Padded;
    var mixed: Slot := now[..written] + was[written..];
    assert Slice(mixed, 0, NONCE_LEN) == Slice(now, 0, NONCE_LEN);
    assert Slice(mixed, NONCE_LEN, SEALED_LEN)[0] == mixed[NONCE_LEN];
    assert now[NONCE_LEN] == Slice(now, NONCE_LEN, SEALED_LEN)[0];
    SameHead(key, nowKey, Slice(now, 0, NONCE_LEN), SLOT_AAD, Slice(mixed, NONCE_LEN, SEALED_LEN),
             Slice(now, NONCE_LEN, SEALED_LEN));
    MixedPadding(was, now, written);
  }

  lemma WrittenOut(was: Slot, now: Slot, nowKey: Key, c: Contents, written: nat)
    requires Padded(was) && SlotHolds(now, nowKey, c) && NONCE_LEN + SEALED_LEN <= written <= SLOT_LEN
    ensures SlotHolds(now[..written] + was[written..], nowKey, c)
  {
    hide InnerHolds;
    var mixed: Slot := now[..written] + was[written..];
    assert Slice(mixed, 0, NONCE_LEN) == Slice(now, 0, NONCE_LEN);
    assert Slice(mixed, NONCE_LEN, SEALED_LEN) == Slice(now, NONCE_LEN, SEALED_LEN);
    MixedPadding(was, now, written);
  }

  lemma MixedPadding(was: Slot, now: Slot, written: nat)
    requires Padded(was) && Padded(now) && NONCE_LEN <= written <= SLOT_LEN
    ensures Padded(now[..written] + was[written..])
  {
    var mixed: Slot := now[..written] + was[written..];
    var from, n := NONCE_LEN + SEALED_LEN, SLOT_LEN - NONCE_LEN - SEALED_LEN;
    assert Slice(mixed, 0, NONCE_LEN) == Slice(now, 0, NONCE_LEN);
    forall i | 0 <= i < n
      ensures Slice(mixed, from, n)[i].Random?
    {
      assert Slice(mixed, from, n)[i] == if from + i < written then Slice(now, from, n)[i] else Slice(was, from, n)[i];
    }
  }

  // ---- the operations on the contents ----

  predicate Knows(enrolled: Enrollment, hmac: Key) {
    exists i :: 0 <= i < |enrolled| && enrolled[i].hmac == hmac
  }

  /** Of all the places for an entry, occupied or not, one opens for an hmac output exactly when
      an enrolled key gave that output. */
  lemma OpensForKnown(inner: Inner, passKey: Key, c: Contents, hmac: Key)
    requires InnerHolds(inner, passKey, c)
    ensures (exists i :: 0 <= i < MAX_HW_KEYS && OpenKwk(Entry(inner, i), CombineKey(passKey, hmac)).Success?)
       <==> Knows(c.enrolled, hmac)
  {
    hide OpenKwk, CombineKey, EntryOffset, Entry, EntryHolds, LabelAt, AllRandom, KeysHold;
    forall i | 0 <= i < MAX_HW_KEYS
      ensures OpenKwk(Entry(inner, i), CombineKey(passKey, hmac)).Success? <==> i < |c.enrolled| && c.enrolled[i].hmac == hmac
    {
      if i < |c.enrolled| {
        assert Occupied(inner, i, passKey, c.kwk, c.enrolled[i]);
        EntryOpens(Entry(inner, i), passKey, c.kwk, c.enrolled[i], hmac);
      } else {
        assert Vacant(inner, i);
        RandomOpensNothing(Entry(inner, i), CombineKey(passKey, hmac));
      }
    }
  }

  lemma RandomOpensNothing(entry: seq<Octet>, combined: Key)
    requires |entry| == HW_SLOT_LEN && AllRandom(entry)
    ensures OpenKwk(entry, combined).Failure?
  {
    assert Slice(entry, KWK_OFFSET, WRAPPED_KWK_LEN)[0] == entry[KWK_OFFSET];
  }

  function AddRefusal(c: Contents, recover: Option<Key>, cred: seq<Byte>): Option<FormatError> {
    if cred == [] || |cred| > MAX_CRED_ID_LEN then Some(BadManifest("invalid new credential length"))
    else if |c.enrolled| == MAX_HW_KEYS then Some(BadManifest("no free hardware-key slot"))
    else if c.enrolled != [] && recover.None? then Some(BadManifest("a present enrolled key is required to add another"))
    else if c.enrolled != [] && !Knows(c.enrolled, recover.value) then Some(Crypto)
    else None
  }

  function WithKey(c: Contents, x: Enrolled): Contents
    requires |c.enrolled| < MAX_HW_KEYS && |x.cred| <= MAX_CRED_ID_LEN
  {
    c.(enrolled := c.enrolled + [x])
  }

  function RemoveRefusal(c: Contents, index: nat): Option<FormatError> {
    if index >= |c.enrolled| then Some(BadManifest("key index out of range"))
    else if |c.enrolled| == 1 then Some(BadManifest("cannot remove the last hardware key here"))
    else None
  }

  function WithoutKey(c: Contents, index: nat): Contents
    requires index < |c.enrolled|
  {
    c.(enrolled := c.enrolled[..index] + c.enrolled[index + 1..])
  }

  datatype Keys = Keys(master: Key, metadata: Key, hwKeys: nat)

  /** The first enrolled credential the authenticator holds. */
  function FirstHeld(enrolled: seq<Enrolled>, auth: Authenticator): (j: Option<nat>)
    ensures j.Some? ==> j.value < |enrolled| && enrolled[j.value].cred in auth
    ensures j.Some? ==> forall k :: 0 <= k < j.value ==> enrolled[k].cred !in auth
    ensures j.None? ==> forall k :: 0 <= k < |enrolled| ==> enrolled[k].cred !in auth
  {
    if enrolled == [] then None
    else if enrolled[0].cred in auth then Some(0)
    else
      match FirstHeld(enrolled[1..], auth)
      case None => None
      case Some(j) => Some(j + 1)
  }

  predicate Readable(enrolled: Enrollment) {
    forall i :: 0 <= i < |enrolled| ==> enrolled[i].cred != []
  }

  /** What unwrapping a slot yields, in terms of what the slot holds. */
  function UnwrapOutcome(c: Contents, salt: seq<Byte>, auth: Option<Authenticator>): Result<Keys> {
    if c.enrolled == [] then Success(Keys(c.master, c.metadata, 0))
    else if auth.None? then Failure(HardwareKeyRequired)
    else if !Readable(c.enrolled) then Failure(BadManifest("invalid credential length"))
    else
      match FirstHeld(c.enrolled, auth.value)
      case None => Failure(Crypto)
      case Some(j) =>
        if Hmac(auth.value[c.enrolled[j].cred], FidoSalt(salt)) == c.enrolled[j].hmac
        then Success(Keys(c.master, c.metadata, |c.enrolled|))
        else Failure(Crypto)
  }

  /** The enrolled credentials and their names as they read back. */
  datatype Listing = Listing(creds: seq<seq<Byte>>, names: seq<seq<Byte>>)

  function ListingOf(enrolled: Enrollment): Listing {
    Listing(seq(|enrolled|, i requires 0 <= i < |enrolled| => enrolled[i].cred),
            seq(|enrolled|, i requires 0 <= i < |enrolled| => Shown(enrolled[i].name)))
  }
}
