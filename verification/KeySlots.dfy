/** The key slot of a vault file as a state machine: adding, removing and re-enrolling
    hardware keys, and unlocking (crates/farewell_format/src/vault.rs). */
module KeySlots {
  import opened Bytes
  import opened Wrappers
  import opened Texts
  import opened Octets
  import opened SlotSpec
  import opened Slots
  import opened Manifests
  import opened ManifestCodec
  import opened Chunks
  import opened Store
  import opened Vaults

  const SALT_LEN: nat := 32

  // ---- passphrase keys ----

  /** The two cost settings of the passphrase hash. They are not stored, so each is tried in turn. */
  datatype Profile = Light | Hardened

  const CANDIDATES: seq<Profile> := [Light, Hardened]

  function PassKey(passphrase: seq<Byte>, salt: seq<Byte>, profile: Profile): Key {
    Derive(if profile.Light? then "argon2id.light" else "argon2id.hardened", Lift(salt + passphrase))
  }

  lemma PassKeyIsInjective(p: seq<Byte>, p': seq<Byte>, salt: seq<Byte>, profile: Profile, profile': Profile)
    requires PassKey(p, salt, profile) == PassKey(p', salt, profile')
    ensures p == p' && profile == profile'
  {
    var a, b := PassKey(p, salt, profile), PassKey(p', salt, profile');
    assert a[0] == b[0];
    LowerLift(salt + p);
    LowerLift(salt + p');
    assert p == (salt + p)[|salt|..] == (salt + p')[|salt|..] == p';
  }

  /** Only the right passphrase under the right profile opens the outer layer. */
  lemma OtherKeysFail(slot: Slot, salt: seq<Byte>, p: seq<Byte>, profile: Profile, c: Contents, p': seq<Byte>, profile': Profile)
    requires SlotHolds(slot, PassKey(p, salt, profile), c) && (p, profile) != (p', profile')
    ensures OpenOuter(slot, PassKey(p', salt, profile')) == Failure(Crypto)
  {
    if PassKey(p, salt, profile) == PassKey(p', salt, profile') {
      PassKeyIsInjective(p, p', salt, profile, profile');
    }
    OneKeyOpens(slot, PassKey(p, salt, profile), PassKey(p', salt, profile'));
  }

  /** `WrappedSlot::try_unwrap_all` over the one slot of a vault. */
  method TryUnwrapAll(slot: Slot, passKey: Key, salt: seq<Byte>, auth: Option<Authenticator>) returns (r: Result<Keys>)
    ensures OpenOuter(slot, passKey).Failure? ==> r == Failure(Crypto)
    ensures forall c :: SlotHolds(slot, passKey, c) ==> r == Uniform(UnwrapOutcome(c, salt, auth))
    ensures r.Failure? ==> r.error == Crypto || r.error == HardwareKeyRequired
  {
    hide SlotHolds, OpenOuter, UnwrapOutcome;
    var u := TryUnwrap(slot, passKey, salt, auth);
    return Uniform(u);
  }

  /** Every failure but a missing hardware key looks the same to the caller. */
  function Uniform<T>(r: Result<T>): Result<T> {
    if r.Success? || r.error == HardwareKeyRequired then r else Failure(Crypto)
  }

  /** A hardware key is asked for exactly when one is enrolled and no authenticator was given. */
  lemma KeyIsAskedFor(c: Contents, salt: seq<Byte>, auth: Option<Authenticator>)
    ensures UnwrapOutcome(c, salt, auth) == Failure(HardwareKeyRequired) <==> c.enrolled != [] && auth.None?
    ensures Uniform(UnwrapOutcome(c, salt, auth)) == Failure(HardwareKeyRequired) <==> c.enrolled != [] && auth.None?
  {}

  // ---- the operations on what a slot holds ----

  datatype SlotOp =
    | AddKey(recover: Option<Key>, added: Enrolled)
    | RemoveKey(index: nat)
    | ReenrollKeys(auth: Option<Authenticator>, list: Enrollment)

  function Refusal(op: SlotOp, c: Contents, salt: seq<Byte>): Option<FormatError> {
    match op
    case AddKey(recover, x) => AddRefusal(c, recover, x.cred)
    case RemoveKey(index) => RemoveRefusal(c, index)
    case ReenrollKeys(auth, _) =>
      (match UnwrapOutcome(c, salt, auth)
       case Success(_) => None
       case Failure(e) => Some(e))
  }

  /** The list of enrolled keys after an operation. */
  function After(op: SlotOp, enrolled: seq<Enrolled>): seq<Enrolled> {
    match op
    case AddKey(_, x) => enrolled + [x]
    case RemoveKey(index) => if index < |enrolled| then enrolled[..index] + enrolled[index + 1..] else enrolled
    case ReenrollKeys(_, list) => list
  }

  /** An operation keeps both protected keys; the in-place ones also keep the wrapping key and
      the profile. Re-enrolling picks the profile by whether a hardware key is enrolled, and
      draws a new wrapping key if one is. */
  predicate Effect(op: SlotOp, c: Contents, profile: Profile, c': Contents, profile': Profile) {
    && c'.master == c.master && c'.metadata == c.metadata
    && c'.enrolled == After(op, c.enrolled)
    && (if op.ReenrollKeys? then
          profile' == (if c'.enrolled == [] then Hardened else Light) && (c'.enrolled != [] ==> AllRandom(c'.kwk))
        else c'.kwk == c.kwk && profile' == profile)
  }

  lemma YieldsHeldKeys(c: Contents, salt: seq<Byte>, auth: Option<Authenticator>)
    ensures UnwrapOutcome(c, salt, auth).Success? ==>
              UnwrapOutcome(c, salt, auth).value == Keys(c.master, c.metadata, |c.enrolled|)
  {}

  /** A drawn wrapping key is not the one the passphrase derives; without a hardware key it is. */
  lemma GateIs(slot: Slot, passKey: Key, c: Contents)
    requires SlotHolds(slot, passKey, c) && (c.enrolled != [] ==> AllRandom(c.kwk))
    ensures c.kwk != NoHwKwk(passKey) <==> c.enrolled != []
  {
    assert NoHwKwk(passKey)[0].Derived?;
  }

  /** A key can be added as long as fewer than three are enrolled, under a credential of 1 to 256
      bytes, with the output of some enrolled key at hand if there is any. */
  lemma AdditionIsAccepted(c: Contents, recover: Option<Key>, cred: seq<Byte>)
    ensures AddRefusal(c, recover, cred).None? <==>
            && 1 <= |cred| <= 256 && |c.enrolled| <= 2
            && (|| c.enrolled == []
                || (recover.Some? && exists i :: 0 <= i < |c.enrolled| && c.enrolled[i].hmac == recover.value))
    ensures AddRefusal(c, recover, cred) == Some(Crypto) ==> recover.Some? && !Knows(c.enrolled, recover.value)
  {}

  /** Any key of several can be removed, whatever its place; the only one never. */
  lemma RemovalIsAccepted(c: Contents, index: nat)
    ensures RemoveRefusal(c, index).None? <==> index < |c.enrolled| && 2 <= |c.enrolled| <= 3
    ensures RemoveRefusal(c, index).Some? ==> RemoveRefusal(c, index).value.BadManifest?
  {}

  // ---- the slot on disk ----

  class KeySlot {
    const salt: seq<Byte>
    var slot: Slot
    /** What the slot holds, or held last before a write cut short left it unreadable. */
    ghost var held: Contents
    ghost var profile: Profile
    /** The slot opens under no key at all. */
    ghost var torn: bool
    ghost const passphrase: seq<Byte>

    ghost predicate Valid()
      reads this
    {
      && |salt| == SALT_LEN
      && (if torn then OpensForNone(slot) else SlotHolds(slot, PassKey(passphrase, salt, profile), held))
    }

    /** The wrap of the master key is beyond what the passphrase alone derives. */
    ghost predicate Gated()
      reads this
    {
      held.kwk != NoHwKwk(PassKey(passphrase, salt, profile))
    }

    constructor (salt: seq<Byte>, slot: Slot, ghost passphrase: seq<Byte>, ghost profile: Profile, ghost held: Contents)
      requires |salt| == SALT_LEN && SlotHolds(slot, PassKey(passphrase, salt, profile), held)
      ensures Valid() && !torn
      ensures this.salt == salt && this.slot == slot && this.held == held
      ensures this.passphrase == passphrase && this.profile == profile
    {
      this.salt := salt;
      this.slot := slot;
      this.passphrase := passphrase;
      this.profile := profile;
      this.held := held;
      torn := false;
    }

    /** What an edit of the slot may do, by its outcome. */
    ghost predicate Edited(op: SlotOp, p: seq<Byte>, r: Result<()>, was: Contents, wasProfile: Profile, wasSlot: Slot,
                           wasTorn: bool)
      reads this
    {
      var same := slot == wasSlot && held == was && profile == wasProfile && torn == wasTorn;
      if wasTorn then same && (r == Failure(Crypto) || r == Failure(Io))
      else if p != passphrase || !Readable(was.enrolled) then same && (r == Failure(Crypto) || r == Failure(Io))
      else
        match Refusal(op, was, salt)
        case Some(e) => same && (r == Failure(e) || r == Failure(Io))
        case None =>
          && (r == Failure(Io) || r.Success?)
          && (r.Success? ==> TookEffect(op, was, wasProfile))
          && (r.Failure? ==>
                same || (torn && held == was && profile == wasProfile) || TookEffect(op, was, wasProfile))
    }

    ghost predicate TookEffect(op: SlotOp, was: Contents, wasProfile: Profile)
      reads this
    {
      && !torn && Effect(op, was, wasProfile, held, profile)
      && (op.ReenrollKeys? ==> (Gated() <==> held.enrolled != []))
    }

    /** The passphrase key whose profile the slot was last written under, if the passphrase is right. */
    method FindPassKey(p: seq<Byte>) returns (r: Result<Key>, listing: Listing)
      requires Valid()
      ensures torn || p != passphrase || !Readable(held.enrolled) ==> r == Failure(Crypto)
      ensures !torn && p == passphrase && Readable(held.enrolled) ==>
                r == Success(PassKey(p, salt, profile)) && listing == ListingOf(held.enrolled)
    {
      hide SlotHolds, OpenOuter, PassKey, UnwrapOutcome;
      listing := Listing([], []);
      for i := 0 to |CANDIDATES|
        invariant !torn && p == passphrase && Readable(held.enrolled) ==> forall j :: 0 <= j < i ==> CANDIDATES[j] != profile
      {
        var passKey := PassKey(p, salt, CANDIDATES[i]);
        var read := ReadEnrollment(slot, passKey);
        if !torn && (p, CANDIDATES[i]) != (passphrase, profile) {
          OtherKeysFail(slot, salt, passphrase, profile, held, p, CANDIDATES[i]);
        }
        if read.Success? {
          return Success(passKey), read.value;
        }
      }
      assert CANDIDATES[0] == Light && CANDIDATES[1] == Hardened;
      return Failure(Crypto), listing;
    }

    /** `Vault::slot_enrollment_info`. */
    method EnrollmentInfo(p: seq<Byte>, faulty: bool) returns (r: Result<(Key, Listing)>)
      requires Valid()
      ensures torn || p != passphrase || !Readable(held.enrolled) ==> r == Failure(Crypto) || r == Failure(Io)
      ensures !torn && p == passphrase && Readable(held.enrolled) ==>
                r == Success((FidoSalt(salt), ListingOf(held.enrolled))) || r == Failure(Io)
      ensures !faulty ==> r != Failure(Io)
    {
      var readFails: bool := *;
      if faulty && readFails {
        return Failure(Io);
      }
      var passKey, listing := FindPassKey(p);
      if passKey.Failure? {
        return Failure(passKey.error);
      }
      return Success((FidoSalt(salt), listing));
    }

    /** Overwrites the slot region and syncs it; a failing write may leave any prefix. The slot
        then is as it was, or holds the new contents, or opens under no key. */
    method WriteSlot(newSlot: Slot, ghost newProfile: Profile, ghost newHeld: Contents, faulty: bool) returns (r: Result<()>)
      requires Valid() && !torn
      requires SlotHolds(newSlot, PassKey(passphrase, salt, newProfile), newHeld)
      modifies this
      ensures Valid()
      ensures r == Failure(Io) || r.Success?
      ensures r.Success? ==> !torn && slot == newSlot && held == newHeld && profile == newProfile
      ensures r.Failure? ==>
                || (!torn && slot == old(slot) && held == old(held) && profile == old(profile))
                || (torn && held == old(held) && profile == old(profile))
                || (!torn && held == newHeld && profile == newProfile)
      ensures !faulty ==> r != Failure(Io)
    {
      hide SlotHolds, PassKey, OpensForNone;
      var written: int := *;
      if faulty && 0 <= written < SLOT_LEN {
        ghost var wasKey, newKey := PassKey(passphrase, salt, profile), PassKey(passphrase, salt, newProfile);
        CutShort(slot, wasKey, held, newSlot, newKey, newHeld, written);
        slot := newSlot[..written] + slot[written..];
        if slot == old(slot) {
        } else if SlotHolds(slot, newKey, newHeld) {
          profile, held := newProfile, newHeld;
        } else {
          torn := true;
        }
        return Failure(Io);
      }
      slot, profile, held := newSlot, newProfile, newHeld;
      var syncFails: bool := *;
      if faulty && syncFails {
        return Failure(Io);
      }
      return Success(());
    }

    /** `Vault::add_hw_credential`. */
    method AddHwCredential(p: seq<Byte>, recover: Option<Key>, x: Enrolled, faulty: bool) returns (r: Result<()>)
      requires Valid()
      modifies this
      ensures Valid()
      ensures Edited(AddKey(recover, x), p, r, old(held), old(profile), old(slot), old(torn))
      ensures !faulty ==> r != Failure(Io)
    {
      hide SlotHolds, OpenOuter, PassKey, UnwrapOutcome, ListingOf;
      var readFails: bool := *;
      if faulty && readFails {
        return Failure(Io);
      }
      var passKey, _ := FindPassKey(p);
      if passKey.Failure? {
        return Failure(passKey.error);
      }
      var newSlot := AddCredential(slot, passKey.value, recover, x, faulty);
      if newSlot.Failure? {
        return Failure(newSlot.error);
      }
      r := WriteSlot(newSlot.value, profile, WithKey(held, x), faulty);
    }

    /** `Vault::remove_hw_credential`. */
    method RemoveHwCredential(p: seq<Byte>, index: nat, faulty: bool) returns (r: Result<()>)
      requires Valid()
      modifies this
      ensures Valid()
      ensures Edited(RemoveKey(index), p, r, old(held), old(profile), old(slot), old(torn))
      ensures !faulty ==> r != Failure(Io)
    {
      hide SlotHolds, OpenOuter, PassKey, UnwrapOutcome, ListingOf;
      var readFails: bool := *;
      if faulty && readFails {
        return Failure(Io);
      }
      var passKey, _ := FindPassKey(p);
      if passKey.Failure? {
        return Failure(passKey.error);
      }
      var newSlot := RemoveCredential(slot, passKey.value, index, faulty);
      if newSlot.Failure? {
        return Failure(newSlot.error);
      }
      r := WriteSlot(newSlot.value, profile, WithoutKey(held, index), faulty);
    }

    /** `Vault::reenroll_slot`: unwraps with the present key and wraps the same two keys afresh. */
    method Reenroll(p: seq<Byte>, auth: Option<Authenticator>, enrolled: Enrollment, faulty: bool) returns (r: Result<()>)
      requires Valid()
      modifies this
      ensures Valid()
      ensures Edited(ReenrollKeys(auth, enrolled), p, r, old(held), old(profile), old(slot), old(torn))
      ensures !faulty ==> r != Failure(Io)
    {
      hide SlotHolds, OpenOuter, PassKey, UnwrapOutcome, ListingOf;
      var readFails: bool := *;
      if faulty && readFails {
        return Failure(Io);
      }
      var passKey, _ := FindPassKey(p);
      if passKey.Failure? {
        return Failure(passKey.error);
      }
      var keys := TryUnwrap(slot, passKey.value, salt, auth);
      if keys.Failure? {
        return Failure(keys.error);
      }
      YieldsHeldKeys(held, salt, auth);
      var newProfile := if enrolled == [] then Hardened else Light;
      var newKey := PassKey(p, salt, newProfile);
      var newSlot := Wrap(newKey, keys.value.master, keys.value.metadata, enrolled, faulty);
      if newSlot.Failure? {
        return Failure(newSlot.error);
      }
      ghost var kwk: Key :|
        && SlotHolds(newSlot.value, newKey, Contents(kwk, keys.value.master, keys.value.metadata, enrolled))
        && (enrolled != [] ==> AllRandom(kwk));
      GateIs(newSlot.value, newKey, Contents(kwk, keys.value.master, keys.value.metadata, enrolled));
      r := WriteSlot(newSlot.value, newProfile, Contents(kwk, keys.value.master, keys.value.metadata, enrolled), faulty);
    }

    /** The key half of `Vault::open`: tries each profile until the slot yields its keys. */
    method Unlock(p: seq<Byte>, auth: Option<Authenticator>, faulty: bool) returns (r: Result<Keys>)
      requires Valid()
      ensures torn || p != passphrase ==> r == Failure(Crypto) || r == Failure(Io)
      ensures !torn && p == passphrase ==> r == Uniform(UnwrapOutcome(held, salt, auth)) || r == Failure(Io)
      ensures !torn && p == passphrase && held.enrolled != [] && auth.None? ==>
                r == Failure(HardwareKeyRequired) || r == Failure(Io)
      ensures r == Failure(HardwareKeyRequired) ==> !torn && p == passphrase && held.enrolled != [] && auth.None?
      ensures r.Failure? ==> r.error in {Crypto, HardwareKeyRequired, Io}
      ensures !faulty ==> r != Failure(Io)
    {
      hide SlotHolds, OpenOuter, PassKey, UnwrapOutcome;
      KeyIsAskedFor(held, salt, auth);
      var readFails: bool := *;
      if faulty && readFails {
        return Failure(Io);
      }
      for i := 0 to |CANDIDATES|
        invariant forall j :: 0 <= j < i && !torn && p == passphrase && CANDIDATES[j] == profile ==>
                                Uniform(UnwrapOutcome(held, salt, auth)) == Failure(Crypto)
      {
        var keys := TryUnwrapAll(slot, PassKey(p, salt, CANDIDATES[i]), salt, auth);
        if !torn && (p, CANDIDATES[i]) != (passphrase, profile) {
          OtherKeysFail(slot, salt, passphrase, profile, held, p, CANDIDATES[i]);
        }
        if keys.Success? {
          return keys;
        }
        if keys.error == HardwareKeyRequired {
          return Failure(HardwareKeyRequired);
        }
      }
      assert CANDIDATES[0] == Light && CANDIDATES[1] == Hardened;
      return Failure(Crypto);
    }

    method Edit(p: seq<Byte>, op: SlotOp, faulty: bool) returns (r: Result<()>)
      requires Valid()
      modifies this
      ensures Valid()
      ensures Edited(op, p, r, old(held), old(profile), old(slot), old(torn))
      ensures !faulty ==> r != Failure(Io)
    {
      match op
      case AddKey(recover, x) => r := AddHwCredential(p, recover, x, faulty);
      case RemoveKey(index) => r := RemoveHwCredential(p, index, faulty);
      case ReenrollKeys(auth, list) => r := Reenroll(p, auth, list, faulty);
    }
  }

  // ---- whole runs ----

  /** The enrolled keys after those of the operations that took effect. */
  function Folded(enrolled: seq<Enrolled>, ops: seq<SlotOp>, done: seq<bool>): seq<Enrolled>
    requires |done| == |ops|
  {
    if ops == [] then enrolled
    else
      var before := Folded(enrolled, ops[..|ops| - 1], done[..|ops| - 1]);
      if done[|ops| - 1] then After(ops[|ops| - 1], before) else before
  }

  /** Whether the last re-enrolment that took effect, or else the slot before, had a hardware key. */
  function Gate(gated: bool, ops: seq<SlotOp>, done: seq<bool>): bool
    requires |done| == |ops|
  {
    if ops == [] then gated
    else
      var n := |ops| - 1;
      if done[n] && ops[n].ReenrollKeys? then ops[n].list != [] else Gate(gated, ops[..n], done[..n])
  }

  /** A slot between two calls: what it holds, whether it still opens, and its gate. */
  datatype Standing = Standing(held: Contents, profile: Profile, gated: bool, torn: bool)

  ghost function Now(k: KeySlot): Standing
    reads k
  {
    Standing(k.held, k.profile, k.Gated(), k.torn)
  }

  /** What one call may do, and whether it took effect. */
  ghost predicate Stepped(a: Standing, op: SlotOp, r: Result<()>, took: bool, b: Standing) {
    && (took ==> !b.torn && Effect(op, a.held, a.profile, b.held, b.profile) && (r.Success? || r == Failure(Io)))
    && (took && op.ReenrollKeys? ==> b.gated == (op.list != []))
    && (took && !op.ReenrollKeys? ==> b.gated == a.gated)
    && (!took ==> r.Failure? && b == a.(torn := b.torn))
    && (a.torn ==> b.torn && !took && (r == Failure(Crypto) || r == Failure(Io)))
    && (!a.torn && b.torn ==> r == Failure(Io))
  }

  lemma EditSteps(a: Standing, op: SlotOp, r: Result<()>, took: bool, b: Standing)
    requires took ==> !a.torn && !b.torn && Effect(op, a.held, a.profile, b.held, b.profile) && (r.Success? || r == Failure(Io))
    requires took ==> b.gated == if op.ReenrollKeys? then b.held.enrolled != [] else a.gated
    requires !took ==> r.Failure? && b == a.(torn := b.torn)
    requires a.torn ==> b.torn && (r == Failure(Crypto) || r == Failure(Io))
    requires !a.torn && b.torn ==> r == Failure(Io)
    ensures Stepped(a, op, r, took, b)
  {}

  /** Both protected keys stay; the enrolled keys are the list run through the edits that took
      effect; the gate is that of the last re-enrolment; without one the wrapping key and the
      profile stay too. */
  ghost predicate Followed(a: Standing, ops: seq<SlotOp>, done: seq<bool>, b: Standing) {
    && |done| == |ops|
    && b.held.master == a.held.master && b.held.metadata == a.held.metadata
    && b.held.enrolled == Folded(a.held.enrolled, ops, done)
    && b.gated == Gate(a.gated, ops, done)
    && ((forall i :: 0 <= i < |ops| && done[i] ==> !ops[i].ReenrollKeys?) ==>
          b.held.kwk == a.held.kwk && b.profile == a.profile)
  }

  lemma FollowedOn(a: Standing, ops: seq<SlotOp>, done: seq<bool>, b: Standing,
                   op: SlotOp, r: Result<()>, took: bool, c: Standing)
    requires Followed(a, ops, done, b) && Stepped(b, op, r, took, c)
    ensures Followed(a, ops + [op], done + [took], c)
  {
    var ops', done' := ops + [op], done + [took];
    assert ops'[..|ops|] == ops && done'[..|ops|] == done;
    if forall i :: 0 <= i < |ops'| && done'[i] ==> !ops'[i].ReenrollKeys? {
      forall i | 0 <= i < |ops| && done[i] ensures !ops[i].ReenrollKeys? {
        assert ops'[i] == ops[i] && done'[i] == done[i];
      }
      assert ops'[|ops|] == op && done'[|ops|] == took;
    }
  }

  /** Any sequence of edits, with any passphrase each. A write cut short may leave a slot that
      opens under no key, after which no edit succeeds. */
  method Run(k: KeySlot, ops: seq<(seq<Byte>, SlotOp)>, faulty: seq<bool>)
    returns (results: seq<Result<()>>, ghost done: seq<bool>)
    requires k.Valid() && |faulty| == |ops|
    modifies k
    ensures k.Valid() && |results| == |done| == |ops|
    ensures forall i :: 0 <= i < |ops| && !faulty[i] ==> results[i] != Failure(Io)
    ensures Followed(old(Now(k)), Second(ops), done, Now(k))
    ensures forall i :: 0 <= i < |ops| ==> (results[i].Success? ==> done[i])
    ensures forall i :: 0 <= i < |ops| && done[i] ==>
                          ops[i].0 == k.passphrase && (results[i].Success? || results[i] == Failure(Io))
    ensures old(k.torn) ==> k.torn && TornSince(results, -1)
    ensures !old(k.torn) && k.torn ==> exists i :: 0 <= i && TornSince(results, i)
  {
    hide SlotHolds, OpenOuter, PassKey, UnwrapOutcome, Refusal, NoHwKwk, OpensForNone, Followed, Effect, Readable,
      TornSince;
    results, done := [], [];
    ghost var cut, first := -1, Now(k);
    NothingFollowed(first);
    for i := 0 to |ops|
      invariant k.Valid() && |results| == |done| == i
      invariant Followed(first, Second(ops)[..i], done, Now(k))
      invariant forall j :: 0 <= j < i ==> (results[j].Success? ==> done[j])
      invariant forall j :: 0 <= j < i && !faulty[j] ==> results[j] != Failure(Io)
      invariant forall j :: 0 <= j < i && done[j] ==>
                              ops[j].0 == k.passphrase && (results[j].Success? || results[j] == Failure(Io))
      invariant first.torn ==> k.torn && cut == -1
      invariant k.torn ==> TornSince(results, cut) && (!first.torn ==> cut >= 0)
    {
      ghost var a := Now(k);
      var r, took := Take(k, ops[i].0, ops[i].1, faulty[i]);
      if k.torn && !a.torn {
        cut := i;
      }
      FollowedOn(first, Second(ops)[..i], done, a, ops[i].1, r, took, Now(k));
      assert Second(ops)[..i + 1] == Second(ops)[..i] + [ops[i].1];
      TornOn(results, cut, r);
      results, done := results + [r], done + [took];
    }
    assert Second(ops)[..|ops|] == Second(ops);
  }

  lemma NothingFollowed(a: Standing)
    ensures Followed(a, [], [], a) && TornSince([], -1)
  {}

  lemma TornOn(results: seq<Result<()>>, cut: int, r: Result<()>)
    ensures TornSince(results, cut) && (r == Failure(Crypto) || r == Failure(Io)) ==> TornSince(results + [r], cut)
    ensures r == Failure(Io) ==> TornSince(results + [r], |results|)
  {}

  /** One edit, and whether it took effect. */
  method Take(k: KeySlot, p: seq<Byte>, op: SlotOp, faulty: bool) returns (r: Result<()>, ghost took: bool)
    requires k.Valid()
    modifies k
    ensures k.Valid()
    ensures Stepped(old(Now(k)), op, r, took, Now(k))
    ensures (r.Success? ==> took) && (took ==> p == k.passphrase)
    ensures !faulty ==> r != Failure(Io)
  {
    hide SlotHolds, OpenOuter, PassKey, UnwrapOutcome, Refusal, NoHwKwk, OpensForNone, Readable, Stepped;
    ghost var a := Now(k);
    r := k.Edit(p, op, faulty);
    took := p == k.passphrase && !a.torn && k.TookEffect(op, a.held, a.profile) && (r.Success? || r == Failure(Io));
    EditSteps(a, op, r, took, Now(k));
  }

  /** The call at `cut` met an I/O error and every later one fails. */
  predicate TornSince(results: seq<Result<()>>, cut: int) {
    && -1 <= cut < |results|
    && (cut >= 0 ==> results[cut] == Failure(Io))
    && forall j :: cut < j < |results| ==> results[j] == Failure(Crypto) || results[j] == Failure(Io)
  }

  function Second(ops: seq<(seq<Byte>, SlotOp)>): (s: seq<SlotOp>)
    ensures |s| == |ops|
  {
    seq(|ops|, i requires 0 <= i < |ops| => ops[i].1)
  }

  // ---- who can open the vault ----

  /** The authenticator answers for an enrolled credential as it did when the credential was enrolled. */
  predicate Genuine(enrolled: Enrollment, salt: seq<Byte>, auth: Authenticator) {
    forall i :: 0 <= i < |enrolled| && enrolled[i].cred in auth ==>
                  Hmac(auth[enrolled[i].cred], FidoSalt(salt)) == enrolled[i].hmac
  }

  predicate HoldsOneOf(enrolled: Enrollment, auth: Authenticator) {
    exists i :: 0 <= i < |enrolled| && enrolled[i].cred in auth
  }

  /** With the right passphrase, a hardware-protected vault gives up its two keys to exactly
      those authenticators that hold an enrolled credential. */
  lemma OpensExactlyForEnrolled(c: Contents, salt: seq<Byte>, auth: Authenticator)
    requires c.enrolled != [] && Readable(c.enrolled) && Genuine(c.enrolled, salt, auth)
    ensures UnwrapOutcome(c, salt, Some(auth)) ==
            if HoldsOneOf(c.enrolled, auth) then Success(Keys(c.master, c.metadata, |c.enrolled|)) else Failure(Crypto)
  {
    hide Hmac, FidoSalt;
    var j := FirstHeld(c.enrolled, auth);
    assert j.Some? ==> c.enrolled[j.value].cred in auth;
  }

  /** An authenticator that holds an enrolled credential under another secret than the one it was
      enrolled with is refused, and so is the right one at a vault with another salt. */
  lemma ForeignSecretIsRefused(c: Contents, salt: seq<Byte>, auth: Authenticator, secret: Key, enrolledSalt: seq<Byte>)
    requires FirstHeld(c.enrolled, auth).Some? && Readable(c.enrolled)
    requires var x := c.enrolled[FirstHeld(c.enrolled, auth).value];
             x.hmac == Hmac(secret, FidoSalt(enrolledSalt)) && (auth[x.cred] != secret || salt != enrolledSalt)
    ensures UnwrapOutcome(c, salt, Some(auth)) == Failure(Crypto)
  {
    hide Hmac, FidoSalt;
    var x := c.enrolled[FirstHeld(c.enrolled, auth).value];
    FidoSaltIsInjective(salt, enrolledSalt);
    HmacIsInjective(auth[x.cred], FidoSalt(salt), secret, FidoSalt(enrolledSalt));
  }

  /** Another enrolled key has the same credential. */
  predicate SharesCred(enrolled: seq<Enrolled>, index: nat)
    requires index < |enrolled|
  {
    exists j :: 0 <= j < |enrolled| && j != index && enrolled[j].cred == enrolled[index].cred
  }

  /** Another enrolled key gave the same hmac output. */
  predicate SharesHmac(enrolled: seq<Enrolled>, index: nat)
    requires index < |enrolled|
  {
    exists j :: 0 <= j < |enrolled| && j != index && enrolled[j].hmac == enrolled[index].hmac
  }

  predicate Brings(op: SlotOp, cred: seq<Byte>) {
    match op
    case AddKey(_, x) => x.cred == cred
    case RemoveKey(_) => false
    case ReenrollKeys(_, list) => exists i :: 0 <= i < |list| && list[i].cred == cred
  }

  predicate IsEnrolled(enrolled: seq<Enrolled>, cred: seq<Byte>) {
    exists i :: 0 <= i < |enrolled| && enrolled[i].cred == cred
  }

  lemma {:induction false} StaysOut(enrolled: seq<Enrolled>, ops: seq<SlotOp>, done: seq<bool>, cred: seq<Byte>)
    requires |done| == |ops| && !IsEnrolled(enrolled, cred)
    requires forall i :: 0 <= i < |ops| ==> !Brings(ops[i], cred)
    ensures !IsEnrolled(Folded(enrolled, ops, done), cred)
  {
    if ops != [] {
      var n := |ops| - 1;
      StaysOut(enrolled, ops[..n], done[..n], cred);
      assert !Brings(ops[n], cred);
    }
  }

  /** What is left after a removal: every other entry. */
  lemma LeftAfterRemoval(enrolled: seq<Enrolled>, index: nat, x: Enrolled)
    requires index < |enrolled|
    ensures x in enrolled[..index] + enrolled[index + 1..] <==>
            exists j :: 0 <= j < |enrolled| && j != index && enrolled[j] == x
  {
    var left := enrolled[..index] + enrolled[index + 1..];
    if x in left {
      var i :| 0 <= i < |left| && left[i] == x;
      assert enrolled[if i < index then i else i + 1] == x;
    }
    if j :| 0 <= j < |enrolled| && j != index && enrolled[j] == x {
      assert left[if j < index then j else j - 1] == x;
    }
  }

  lemma CredAfterRemoval(enrolled: Enrollment, index: nat)
    requires index < |enrolled|
    ensures IsEnrolled(After(RemoveKey(index), enrolled), enrolled[index].cred) <==> SharesCred(enrolled, index)
  {
    var left := After(RemoveKey(index), enrolled);
    if i :| 0 <= i < |left| && left[i].cred == enrolled[index].cred {
      LeftAfterRemoval(enrolled, index, left[i]);
    }
    if j :| 0 <= j < |enrolled| && j != index && enrolled[j].cred == enrolled[index].cred {
      LeftAfterRemoval(enrolled, index, enrolled[j]);
      var i :| 0 <= i < |left| && left[i] == enrolled[j];
    }
  }

  /** A removed credential opens nothing after any further edits that do not bring it back,
      unless another entry shared it or the vault was turned passphrase-only. */
  lemma RevokedForGood(enrolled: Enrollment, index: nat, ops: seq<SlotOp>, done: seq<bool>,
                       c: Contents, salt: seq<Byte>, auth: Authenticator)
    requires index < |enrolled| && |done| == |ops|
    requires forall i :: 0 <= i < |ops| ==> !Brings(ops[i], enrolled[index].cred)
    requires c.enrolled == Folded(After(RemoveKey(index), enrolled), ops, done)
    requires auth.Keys <= {enrolled[index].cred}
    ensures IsEnrolled(c.enrolled, enrolled[index].cred) ==> SharesCred(enrolled, index)
    ensures !IsEnrolled(c.enrolled, enrolled[index].cred) ==>
              (UnwrapOutcome(c, salt, Some(auth)).Failure? <==> c.enrolled != [])
  {
    hide Folded, Hmac, FidoSalt, After, SharesCred;
    CredAfterRemoval(enrolled, index);
    if !SharesCred(enrolled, index) {
      StaysOut(After(RemoveKey(index), enrolled), ops, done, enrolled[index].cred);
    }
    if !IsEnrolled(c.enrolled, enrolled[index].cred) {
      forall i | 0 <= i < |c.enrolled|
        ensures c.enrolled[i].cred !in auth
      {
        assert c.enrolled[i].cred != enrolled[index].cred;
      }
    }
  }

  /** Exactly when a removal locks its key out at once: no other entry shares its credential. */
  lemma RevokedIff(c: Contents, index: nat, salt: seq<Byte>, auth: Authenticator)
    requires RemoveRefusal(c, index).None? && Readable(c.enrolled)
    requires auth.Keys == {c.enrolled[index].cred} && Genuine(c.enrolled, salt, auth)
    ensures UnwrapOutcome(WithoutKey(c, index), salt, Some(auth)).Failure? <==> !SharesCred(c.enrolled, index)
  {
    hide Hmac, FidoSalt, SharesCred, UnwrapOutcome;
    var left := WithoutKey(c, index);
    CredAfterRemoval(c.enrolled, index);
    StillGenuine(c.enrolled, index, salt, auth);
    OpensExactlyForEnrolled(left, salt, auth);
    HeldIsEnrolled(left.enrolled, c.enrolled[index].cred, auth);
  }

  /** One authenticator enrolled twice: after one entry is removed it still opens the vault. */
  lemma SharedCredExample(kwk: Key, master: Key, metadata: Key, cred: seq<Byte>, secret: Key, salt: seq<Byte>)
    requires 0 < |cred| <= MAX_CRED_ID_LEN
    ensures var x := Enrolled(cred, Hmac(secret, FidoSalt(salt)), []);
            var c := Contents(kwk, master, metadata, [x, x]);
            && RemoveRefusal(c, 0).None?
            && UnwrapOutcome(WithoutKey(c, 0), salt, Some(map[cred := secret])) == Success(Keys(master, metadata, 1))
  {
    hide Hmac, FidoSalt;
    var x := Enrolled(cred, Hmac(secret, FidoSalt(salt)), []);
    assert [x, x][..0] + [x, x][1..] == [x];
  }

  /** A zero-length credential, which an enrolment accepts, locks every authenticator out. */
  lemma EmptyCredExample(kwk: Key, master: Key, metadata: Key, hmac: Key, salt: seq<Byte>, auth: Authenticator)
    ensures var c := Contents(kwk, master, metadata, [Enrolled([], hmac, [])]);
            UnwrapOutcome(c, salt, Some(auth)) == Failure(BAD_CRED_LEN)
  {
    var c := Contents(kwk, master, metadata, [Enrolled([], hmac, [])]);
    assert c.enrolled[0].cred == [];
  }

  /** Exactly when no authenticator is asked at all. */
  lemma UnreadableIff(c: Contents, salt: seq<Byte>)
    requires c.enrolled != []
    ensures !Readable(c.enrolled) <==> forall auth :: UnwrapOutcome(c, salt, Some(auth)) == Failure(BAD_CRED_LEN)
  {
    hide Hmac, FidoSalt;
    assert UnwrapOutcome(c, salt, Some(map[])) == if Readable(c.enrolled) then Failure(Crypto) else Failure(BAD_CRED_LEN);
  }

  lemma HeldIsEnrolled(enrolled: Enrollment, cred: seq<Byte>, auth: Authenticator)
    requires auth.Keys == {cred}
    ensures HoldsOneOf(enrolled, auth) <==> IsEnrolled(enrolled, cred)
  {
    if HoldsOneOf(enrolled, auth) {
      var i :| 0 <= i < |enrolled| && enrolled[i].cred in auth;
      assert enrolled[i].cred == cred;
    }
    if IsEnrolled(enrolled, cred) {
      var i :| 0 <= i < |enrolled| && enrolled[i].cred == cred;
      assert enrolled[i].cred in auth;
    }
  }

  lemma StillGenuine(enrolled: Enrollment, index: nat, salt: seq<Byte>, auth: Authenticator)
    requires index < |enrolled| && Genuine(enrolled, salt, auth) && Readable(enrolled)
    ensures Genuine(enrolled[..index] + enrolled[index + 1..], salt, auth)
    ensures Readable(enrolled[..index] + enrolled[index + 1..])
  {
    hide Hmac, FidoSalt;
    var left: Enrollment := enrolled[..index] + enrolled[index + 1..];
    forall i | 0 <= i < |left|
      ensures left[i].cred != [] && (left[i].cred in auth ==> Hmac(auth[left[i].cred], FidoSalt(salt)) == left[i].hmac)
    {
      assert left[i] == enrolled[if i < index then i else i + 1];
    }
  }

  /** Nor does its hmac output help to enrol another key, unless another entry gave the same
      output; that of every other key still does. */
  lemma RevokedCannotAdd(c: Contents, index: nat, x: Enrolled)
    requires RemoveRefusal(c, index).None? && 0 < |x.cred| <= MAX_CRED_ID_LEN
    ensures AddRefusal(WithoutKey(c, index), Some(c.enrolled[index].hmac), x.cred)
         == if SharesHmac(c.enrolled, index) then None else Some(Crypto)
    ensures forall j :: 0 <= j < |c.enrolled| && j != index ==>
                          AddRefusal(WithoutKey(c, index), Some(c.enrolled[j].hmac), x.cred).None?
  {
    hide Knows, SharesHmac;
    forall j | 0 <= j < |c.enrolled|
      ensures Knows(WithoutKey(c, index).enrolled, c.enrolled[j].hmac) <==> j != index || SharesHmac(c.enrolled, index)
    {
      KnownAfterRemoval(c.enrolled, index, j);
    }
  }

  lemma KnownAfterRemoval(enrolled: Enrollment, index: nat, j: nat)
    requires index < |enrolled| && j < |enrolled|
    ensures Knows(enrolled[..index] + enrolled[index + 1..], enrolled[j].hmac) <==> j != index || SharesHmac(enrolled, index)
  {
    var left := enrolled[..index] + enrolled[index + 1..];
    if i :| 0 <= i < |left| && left[i].hmac == enrolled[j].hmac {
      LeftAfterRemoval(enrolled, index, left[i]);
    }
    if i :| 0 <= i < |enrolled| && i != index && enrolled[i].hmac == enrolled[j].hmac {
      LeftAfterRemoval(enrolled, index, enrolled[i]);
      var k :| 0 <= k < |left| && left[k] == enrolled[i];
    }
  }

  /** Nor does any place of the payload, occupied or vacated, open for its hmac output. */
  lemma RemovedOpensNothing(inner: Inner, passKey: Key, c: Contents, index: nat)
    requires RemoveRefusal(c, index).None? && InnerHolds(inner, passKey, WithoutKey(c, index))
    ensures (exists i :: 0 <= i < MAX_HW_KEYS && OpenKwk(Entry(inner, i), CombineKey(passKey, c.enrolled[index].hmac)).Success?)
       <==> SharesHmac(c.enrolled, index)
  {
    hide InnerHolds, OpenKwk, CombineKey, Entry, Knows, SharesHmac;
    OpensForKnown(inner, passKey, WithoutKey(c, index), c.enrolled[index].hmac);
    KnownAfterRemoval(c.enrolled, index, index);
  }

  // ---- what the passphrase alone can open ----

  /** The passphrase alone opens the wrap of the master key exactly when the wrapping key is the
      one it derives. */
  lemma UngatedIff(inner: Inner, passKey: Key, c: Contents)
    requires InnerHolds(inner, passKey, c)
    ensures OpenMaster(KeyPart(inner), NoHwKwk(passKey))
         == if c.kwk == NoHwKwk(passKey) then Success(c.master + Lift(Le(KEY_LEN, 4))) else Failure(Crypto)
  {
    MasterOpens(KeyPart(inner), c, NoHwKwk(passKey));
  }

  /** Adding and removing keys never changes that: a slot made without a hardware key stays open
      to the passphrase alone until it is re-enrolled, although unlocking then asks for a key. */
  lemma {:induction false} AddingNeverGates(gated: bool, ops: seq<SlotOp>, done: seq<bool>)
    requires |done| == |ops|
    requires forall i :: 0 <= i < |ops| && done[i] ==> !ops[i].ReenrollKeys?
    ensures Gate(gated, ops, done) == gated
  {
    if ops != [] {
      AddingNeverGates(gated, ops[..|ops| - 1], done[..|ops| - 1]);
    }
  }

  lemma KeyAddedLater(inner: Inner, passKey: Key, c: Contents, x: Enrolled, salt: seq<Byte>)
    requires c.enrolled == [] && c.kwk == NoHwKwk(passKey) && 0 < |x.cred| <= MAX_CRED_ID_LEN
    requires InnerHolds(inner, passKey, WithKey(c, x))
    ensures AddRefusal(c, None, x.cred) == None
    ensures UnwrapOutcome(WithKey(c, x), salt, None) == Failure(HardwareKeyRequired)
    ensures OpenMaster(KeyPart(inner), NoHwKwk(passKey)) == Success(c.master + Lift(Le(KEY_LEN, 4)))
  {
    hide InnerHolds, NoHwKwk, OpenMaster, KeyPart;
    UngatedIff(inner, passKey, WithKey(c, x));
  }

  // ---- creating and opening a vault ----

  /** The slot of a new vault: light hashing if a hardware key is enrolled, hardened otherwise. */
  method NewKeySlot(p: seq<Byte>, salt: seq<Byte>, master: Key, metadata: Key, level: LevelEnrollment, faulty: bool)
    returns (r: Result<KeySlot>)
    requires |salt| == SALT_LEN
    ensures r == Failure(Io) || r.Success?
    ensures r.Success? ==> fresh(r.value) && r.value.Valid() && !r.value.torn
    ensures r.Success? ==> r.value.passphrase == p && r.value.salt == salt
    ensures r.Success? ==> r.value.held == Contents(r.value.held.kwk, master, metadata, level.entries)
    ensures r.Success? ==> r.value.profile == if level.entries == [] then Hardened else Light
    ensures r.Success? ==> (r.value.Gated() <==> level.entries != [])
    ensures !faulty ==> r != Failure(Io)
  {
    var enrolled := level.entries;
    var profile := if enrolled == [] then Hardened else Light;
    var slot := Wrap(PassKey(p, salt, profile), master, metadata, enrolled, faulty);
    if slot.Failure? {
      return Failure(Io);
    }
    ghost var kwk: Key :|
      && SlotHolds(slot.value, PassKey(p, salt, profile), Contents(kwk, master, metadata, enrolled))
      && (enrolled != [] ==> AllRandom(kwk));
    GateIs(slot.value, PassKey(p, salt, profile), Contents(kwk, master, metadata, enrolled));
    var k := new KeySlot(salt, slot.value, p, profile, Contents(kwk, master, metadata, enrolled));
    return Success(k);
  }

  /** `build` for one level: the slot first, then the chunks sealed under the very master key
      the slot protects, so that whoever unlocks the slot reads the new vault's files. */
  method CreateVault(p: seq<Byte>, salt: seq<Byte>, master: Key, metadata: Key, level: LevelEnrollment,
                     numeral: Key -> nat, chunks: nat, owner: Option<Text>, faulty: bool) returns (r: Result<(KeySlot, Vault)>)
    requires |salt| == SALT_LEN && chunks <= U32_MAX
    ensures |OwnerText(owner)| > MAX_OWNER_LEN ==> r == Failure(InvalidName)
    ensures r.Failure? ==> r.error == Io || |OwnerText(owner)| > MAX_OWNER_LEN
    ensures r.Success? ==>
              var k, v := r.value.0, r.value.1;
              && fresh(k) && k.Valid() && !k.torn && k.passphrase == p && k.salt == salt
              && k.held == Contents(k.held.kwk, master, metadata, level.entries)
              && k.profile == (if level.entries == [] then Hardened else Light) && (k.Gated() <==> level.entries != [])
              && fresh(v) && IsNew(v, Located(master, numeral, Max(chunks, 2)), owner)
    ensures !faulty ==> r != Failure(Io)
  {
    hide SlotHolds, Layout, Keeps, Parse, Serialized;
    if |OwnerText(owner)| > MAX_OWNER_LEN {
      return Failure(InvalidName);
    }
    var k := NewKeySlot(p, salt, master, metadata, level, faulty);
    if k.Failure? {
      return Failure(k.error);
    }
    var v := BuildVault(master, numeral, chunks, owner, faulty);
    if v.Failure? {
      return Failure(v.error);
    }
    return Success((k.value, v.value));
  }

  /** `Vault::open`: the keys from the slot, then the files from the chunks. Whatever edits the
      slot went through, the files are those sealed under the master key it was created with. */
  method OpenWithKeys(k: KeySlot, p: seq<Byte>, auth: Option<Authenticator>, numeral: Key -> nat, image: seq<Cell>,
                      ghost m: Manifest, ghost files: Files, faulty: bool)
    returns (r: Result<Vault>)
    requires k.Valid() && 0 < |image| <= U32_MAX
    ensures k.torn || p != k.passphrase ==> r == Failure(Crypto) || r == Failure(Io)
    ensures !k.torn && p == k.passphrase && k.held.enrolled != [] && auth.None? ==>
              r == Failure(HardwareKeyRequired) || r == Failure(Io)
    ensures r == Failure(HardwareKeyRequired) ==> !k.torn && p == k.passphrase && k.held.enrolled != [] && auth.None?
    ensures !k.torn && p == k.passphrase && Intact(Located(k.held.master, numeral, |image|), image, m, files) ==>
              (match Uniform(UnwrapOutcome(k.held, k.salt, auth))
               case Failure(e) => r == Failure(e) || r == Failure(Io)
               case Success(_) =>
                 || r == Failure(Io)
                 || (r.Success? && fresh(r.value) && r.value.Valid() && r.value.files == files && r.value.manifest == m
                     && r.value.geo == Located(k.held.master, numeral, |image|) && !r.value.poisoned))
    ensures !faulty ==> r != Failure(Io)
  {
    hide UnwrapOutcome, Layout, Keeps, Holds, Written, Parse, Serialized;
    var keys := k.Unlock(p, auth, faulty);
    if keys.Failure? {
      return Failure(keys.error);
    }
    YieldsHeldKeys(k.held, k.salt, auth);
    r := OpenVault(Located(keys.value.master, numeral, |image|), image, files, faulty);
  }
}
