/** A vault file from its creation through any use to its reopening: slot, manifest chunk and
    files stay together (crates/farewell_format/src/vault.rs, `build` and `open`). */
module Lifecycle {
  import opened Bytes
  import opened Wrappers
  import opened Texts
  import opened Octets
  import opened SlotSpec
  import opened Slots
  import opened Manifests
  import opened ManifestCodec
  import opened Store
  import opened Vaults
  import KeySlots
  import Runs

  /** The slot protects the master key of the vault, and the manifest lies where that key says. */
  ghost predicate Belongs(k: KeySlots.KeySlot, v: Vault, numeral: Key -> nat)
    reads k, v
  {
    && k.Valid() && v.Valid() && 0 < v.geo.total <= U32_MAX
    && v.geo == Located(k.held.master, numeral, v.geo.total)
  }

  method Create(p: seq<Byte>, salt: seq<Byte>, master: Key, metadata: Key, level: LevelEnrollment, numeral: Key -> nat,
                chunks: nat, owner: Option<Text>, faulty: bool)
    returns (r: Result<(KeySlots.KeySlot, Vault)>)
    requires |salt| == KeySlots.SALT_LEN && chunks <= U32_MAX
    ensures r.Success? ==>
              var k, v := r.value.0, r.value.1;
              && fresh(k) && fresh(v) && Belongs(k, v, numeral) && !k.torn && !v.poisoned && k.passphrase == p
              && k.held.master == master && k.held.enrolled == level.entries
              && v.files == map[] && v.manifest == EMPTY.(owner := Recorded(owner))
    ensures r.Failure? ==> r.error == Io || |OwnerText(owner)| > MAX_OWNER_LEN
    ensures !faulty ==> r != Failure(Io)
  {
    hide Vault.Valid, KeySlots.KeySlot.Valid, Intact;
    r := KeySlots.CreateVault(p, salt, master, metadata, level, numeral, chunks, owner, faulty);
  }

  /** Any edits of the slot and any operations on the files, with failures anywhere. */
  method Use(k: KeySlots.KeySlot, v: Vault, numeral: Key -> nat, edits: seq<(seq<Byte>, KeySlots.SlotOp)>, ops: seq<Runs.Op>,
             editFaults: seq<bool>, faults: seq<bool>)
    returns (results: seq<Result<()>>, ghost moments: seq<Runs.Moment>, ghost done: seq<bool>)
    requires Belongs(k, v, numeral) && |editFaults| == |edits| && |faults| == |ops|
    requires forall i | 0 <= i < |ops| :: Runs.Sized(ops[i])
    modifies k, v
    ensures Belongs(k, v, numeral)
    ensures KeySlots.Followed(old(KeySlots.Now(k)), KeySlots.Second(edits), done, KeySlots.Now(k))
    ensures Runs.IsRun(moments, ops, results, faults) && moments[0] == old(Runs.Now(v)) && moments[|ops|] == Runs.Now(v)
    ensures (forall i | 0 <= i < |edits| :: !editFaults[i]) ==> k.torn == old(k.torn)
    ensures (forall i | 0 <= i < |ops| :: !faults[i]) ==> v.poisoned == old(v.poisoned)
  {
    hide Vault.Valid, KeySlots.KeySlot.Valid, Intact, Runs.Stepped, Runs.Accounted, Runs.Faithful,
      KeySlots.Folded, KeySlots.Gate;
    var slotResults, took := KeySlots.Run(k, edits, editFaults);
    var fileResults, trace, cuts := Runs.Run(v, ops, faults);
    results, moments, done := fileResults, trace, took;
    NeverPoisoned(moments, ops, results, faults, |ops|);
  }

  /** Only an I/O failure poisons a session. */
  lemma {:induction false} NeverPoisoned(moments: seq<Runs.Moment>, ops: seq<Runs.Op>, results: seq<Result<()>>,
                                         faults: seq<bool>, i: nat)
    requires Runs.IsRun(moments, ops, results, faults) && i <= |ops|
    ensures (forall j | 0 <= j < i :: !faults[j]) ==> moments[i].poisoned == moments[0].poisoned
  {
    if i > 0 {
      NeverPoisoned(moments, ops, results, faults, i - 1);
      assert Runs.Stepped(moments[i - 1], ops[i - 1], results[i - 1], moments[i]);
    }
  }

  /** Opening what is on the disk: whoever unlocks the slot gets the files of the session, as long
      as that was not poisoned. */
  method Open(k: KeySlots.KeySlot, v: Vault, numeral: Key -> nat, p: seq<Byte>, auth: Option<Authenticator>, faulty: bool)
    returns (r: Result<Vault>)
    requires Belongs(k, v, numeral) && !v.poisoned
    ensures k.torn || p != k.passphrase ==> r == Failure(Crypto) || r == Failure(Io)
    ensures !k.torn && p == k.passphrase ==>
              match KeySlots.Uniform(UnwrapOutcome(k.held, k.salt, auth))
              case Failure(e) => r == Failure(e) || r == Failure(Io)
              case Success(_) =>
                || r == Failure(Io)
                || (r.Success? && fresh(r.value) && Belongs(k, r.value, numeral) && !r.value.poisoned
                    && r.value.files == v.files && r.value.manifest == v.manifest)
    ensures !faulty ==> r != Failure(Io)
  {
    hide UnwrapOutcome, KeySlots.KeySlot.Valid, Publishable, Keeps, Reopen;
    r := KeySlots.OpenWithKeys(k, p, auth, numeral, v.disk, v.manifest, v.files, faulty);
  }

  /** Any edits and operations without I/O failures: the vault is the plain map run through them. */
  method UseCalmly(k: KeySlots.KeySlot, v: Vault, numeral: Key -> nat,
                   edits: seq<(seq<Byte>, KeySlots.SlotOp)>, ops: seq<Runs.Op>)
    returns (results: seq<Result<()>>, ghost grown: seq<nat>, ghost done: seq<bool>)
    requires Belongs(k, v, numeral) && !k.torn && !v.poisoned
    requires forall i | 0 <= i < |ops| :: Runs.Sized(ops[i])
    modifies k, v
    ensures Belongs(k, v, numeral) && !k.torn && !v.poisoned
    ensures |done| == |edits| && |results| == |grown| == |ops|
    ensures k.held.master == old(k.held.master)
    ensures k.held.enrolled == KeySlots.Folded(old(k.held.enrolled), KeySlots.Second(edits), done)
    ensures v.View() == Runs.ApplyAll(old(v.View()), ops, results, grown)
    ensures Runs.SameFiling(old(v.manifest), v.manifest, Runs.FiledAll(old(v.manifest.folders), ops, results))
  {
    hide Vault.Valid, KeySlots.KeySlot.Valid, Intact, Runs.Stepped, Runs.Accounted, Runs.ApplyAll, Runs.FiledAll, Runs.ShortOf,
      KeySlots.Folded, KeySlots.Gate;
    var calm, still := seq(|edits|, _ => false), seq(|ops|, _ => false);
    ghost var moments;
    results, moments, done := Use(k, v, numeral, edits, ops, calm, still);
    grown := Runs.RunRefinesMap(moments, ops, results, still);
  }

  /** The whole life of a vault without I/O failures: created for a passphrase, used in any way,
      and opened by the right passphrase with an enrolled hardware key if there is any. What is read
      then is what a plain map holds after the same operations, starting empty. */
  method CreateUseOpen(p: seq<Byte>, salt: seq<Byte>, master: Key, metadata: Key, level: LevelEnrollment,
                       numeral: Key -> nat, chunks: nat, owner: Option<Text>,
                       edits: seq<(seq<Byte>, KeySlots.SlotOp)>, ops: seq<Runs.Op>, auth: Option<Authenticator>)
    returns (r: Result<Vault>, k: KeySlots.KeySlot, results: seq<Result<()>>, ghost grown: seq<nat>, ghost done: seq<bool>)
    requires |salt| == KeySlots.SALT_LEN && chunks <= U32_MAX && |OwnerText(owner)| <= MAX_OWNER_LEN
    requires forall i | 0 <= i < |ops| :: Runs.Sized(ops[i])
    ensures fresh(k) && k.held.master == master && |done| == |edits| && |results| == |grown| == |ops|
    ensures k.held.enrolled == KeySlots.Folded(level.entries, KeySlots.Second(edits), done)
    ensures match KeySlots.Uniform(UnwrapOutcome(k.held, k.salt, auth))
            case Failure(e) => r == Failure(e)
            case Success(_) =>
              && r.Success? && r.value.Valid() && !r.value.poisoned
              && r.value.View() == Runs.ApplyAll(map[], ops, results, grown)
              && Runs.SameFiling(EMPTY.(owner := Recorded(owner)), r.value.manifest, Runs.FiledAll([], ops, results))
  {
    hide UnwrapOutcome, KeySlots.KeySlot.Valid, Vault.Valid, Intact, Runs.ApplyAll, Runs.FiledAll, KeySlots.Folded,
      Located;
    var made := Create(p, salt, master, metadata, level, numeral, chunks, owner, false);
    var v;
    k, v := made.value.0, made.value.1;
    assert v.View() == map[];
    results, grown, done := UseCalmly(k, v, numeral, edits, ops);
    r := Open(k, v, numeral, p, auth, false);
  }
}
