/**
  Identity rotation (`identity.rs`) over the slots of `ClientCore` (`core.rs`): the published log, `mls_keystore`,
  `keystore` and `hw_identity_state`. The class is proved against the value function `RotateFull`; serial runs of it
  keep the published records a chain.
 */
module Rotation {
  import opened Bytes
  import opened Signature
  import opened RotationRecord

  /** The alias of a key held by the secure element. */
  type HwKeyHandle = string

  /** A key store: its account, its hardware handle if it has one, and the identity key it reports. */
  datatype KeyStore = KeyStore(account: U32, handle: Option<HwKeyHandle>, key: Bytes32)

  datatype HwIdentityState = HwIdentityState(handle: Option<HwKeyHandle>, verifyingKey: Option<Bytes32>)

  datatype HwKeystoreError = HwKeystoreError

  /** What `rotate_identity` of the hardware callback returns. */
  datatype Artifact = Artifact(
    newHandle: HwKeyHandle,
    newKey: Bytes32,
    oldSignature: Bytes64,
    newSignature: Bytes64)

  /** The answers of the hardware callback during one call: any functions of what it is asked. */
  datatype Callback = Callback(
    verifyingKey: HwKeyHandle -> Result<Bytes32, HwKeystoreError>,
    rotateIdentity: (HwKeyHandle, string, Bytes32, U64, Byte, Bytes32) -> Result<Artifact, HwKeystoreError>)

  /** The arguments of `rotate_identity_full`. */
  datatype Attempt = Attempt(
    callback: Callback,
    oldHandle: HwKeyHandle,
    newLabel: string,
    reason: RotationReason,
    timestamp: U64,
    recoveryProof: Bytes32)

  datatype RotationError =
    | PreflightPlatform | PreflightMismatch | RotatePlatform
    | IdenticalKeys | RecordRejected(cause: BackupError) | KeystoreConstruction

  datatype PublishOutcome = PublishOutcome(oldKey: Bytes32, newKey: Bytes32, timestamp: U64, entrySize: nat)

  datatype FullOutcome = FullOutcome(
    oldKey: Bytes32,
    newKey: Bytes32,
    newHandle: HwKeyHandle,
    timestamp: U64,
    entrySize: nat)

  /** The lock-protected slots that rotation touches. */
  datatype Core = Core(
    log: seq<seq<Byte>>,
    mls: KeyStore,
    keystore: Option<KeyStore>,
    hw: HwIdentityState)

  /** `HwBackedKeyStore::new`. */
  function HwBackedKeyStore(ed: Ed25519, account: U32, handle: HwKeyHandle, key: Bytes32): Option<KeyStore> {
    if ed.isKey(key) then Some(KeyStore(account, Some(handle), key)) else None
  }

  function RecordOf(oldKey: Bytes32, a: Attempt, artifact: Artifact): Record {
    Record(AUTHORIZATION_WIRE_VERSION, oldKey, artifact.newKey, a.timestamp, a.reason,
           artifact.oldSignature, artifact.newSignature, a.recoveryProof)
  }

  /** The first two layers of `rotate_identity_full`: compare the keys, then let the hardware rotate. */
  function Preflight(mlsKey: Bytes32, a: Attempt): Result<Artifact, RotationError> {
    match a.callback.verifyingKey(a.oldHandle)
    case Err(_) => Err(PreflightPlatform)
    case Ok(hwKey) =>
      if mlsKey != hwKey then Err(PreflightMismatch)
      else
        match a.callback.rotateIdentity(a.oldHandle, a.newLabel, mlsKey, a.timestamp, a.reason.Tag(), a.recoveryProof)
        case Err(_) => Err(RotatePlatform)
        case Ok(artifact) => Ok(artifact)
  }

  /** The checks of `rotate_identity_publish` on the record it is about to publish. */
  function Refused(ed: Ed25519, r: Record): Option<RotationError> {
    if r.oldKey == r.newKey then Some(IdenticalKeys)
    else
      match Verify(ed, r)
      case Some(cause) => Some(RecordRejected(cause))
      case None => None
  }

  /** `rotate_identity_full` when nothing else touches the core. */
  function RotateFull(ed: Ed25519, core: Core, a: Attempt): (Core, Result<FullOutcome, RotationError>) {
    match Preflight(core.mls.key, a)
    case Err(e) => (core, Err(e))
    case Ok(artifact) =>
      var record := RecordOf(core.mls.key, a, artifact);
      match Refused(ed, record)
      case Some(e) => (core, Err(e))
      case None =>
        var published := core.(log := core.log + [EntryBytes(record)]);
        match HwBackedKeyStore(ed, core.mls.account, artifact.newHandle, artifact.newKey)
        case None => (published, Err(KeystoreConstruction))
        case Some(store) =>
          (published.(mls := store, keystore := Some(store),
                      hw := HwIdentityState(Some(artifact.newHandle), Some(artifact.newKey))),
           Ok(FullOutcome(core.mls.key, artifact.newKey, artifact.newHandle, a.timestamp,
                          KT_ENTRY_IDENTITY_ROTATION_WIRE_LEN)))
  }

  /** The slots of `ClientCore` and the operations on them. */
  class ClientCore {
    var publishedEntries: seq<seq<Byte>>
    var mlsKeystore: KeyStore
    var keystore: Option<KeyStore>
    var hwIdentityState: HwIdentityState

    ghost function Value(): Core
      reads this
    {
      Core(publishedEntries, mlsKeystore, keystore, hwIdentityState)
    }

    method SwapMlsKeystore(store: KeyStore)
      modifies this
      ensures Value() == old(Value()).(mls := store)
    {
      mlsKeystore := store;
    }

    method SwapKeystore(store: Option<KeyStore>)
      modifies this
      ensures Value() == old(Value()).(keystore := store)
    {
      keystore := store;
    }

    method SwapHwIdentity(handle: HwKeyHandle, key: Bytes32)
      modifies this
      ensures Value() == old(Value()).(hw := HwIdentityState(Some(handle), Some(key)))
    {
      hwIdentityState := hwIdentityState.(handle := Some(handle));
      hwIdentityState := hwIdentityState.(verifyingKey := Some(key));
    }

    /** `rotate_identity_publish`: appends one verified record to the log, or changes nothing. */
    method RotateIdentityPublish(ed: Ed25519, newKey: Bytes32, reason: RotationReason, timestamp: U64, proof: Bytes32,
                                 oldSignature: Bytes64, newSignature: Bytes64)
      returns (r: Result<PublishOutcome, RotationError>, ghost record: Record)
      modifies this
      ensures record == Record(AUTHORIZATION_WIRE_VERSION, old(mlsKeystore.key), newKey, timestamp, reason,
                               oldSignature, newSignature, proof)
      ensures r.Err? ==> Value() == old(Value()) && Refused(ed, record) == Some(r.error)
      ensures r.Ok? ==>
                && Refused(ed, record).None?
                && Value() == old(Value()).(log := old(publishedEntries) + [EntryBytes(record)])
                && DecodeEntry(EntryBytes(record)) == Ok(record)
                && r.value == PublishOutcome(old(mlsKeystore.key), newKey, timestamp, 235)
    {
      var oldKey := mlsKeystore.key;
      var entry := Record(AUTHORIZATION_WIRE_VERSION, oldKey, newKey, timestamp, reason, oldSignature, newSignature,
                          proof);
      record := entry;
      if oldKey == newKey {
        r := Err(IdenticalKeys);
        return;
      }
      var verdict := Verify(ed, entry);
      if verdict.Some? {
        r := Err(RecordRejected(verdict.value));
        return;
      }
      var wire := EncodeEntry(entry);
      DecodeEncoded(entry);
      publishedEntries := publishedEntries + [wire];
      r := Ok(PublishOutcome(oldKey, newKey, timestamp, |wire|));
    }

    /** `rotate_identity_full`: all four slots move together, or none does. */
    method RotateIdentityFull(ed: Ed25519, a: Attempt) returns (r: Result<FullOutcome, RotationError>)
      modifies this
      ensures (Value(), r) == RotateFull(ed, old(Value()), a)
      ensures r.Err? ==> Value() == old(Value()) && !r.error.KeystoreConstruction?
      ensures r.Ok? ==> Unified(Value()) && mlsKeystore.key == r.value.newKey && r.value.oldKey == old(mlsKeystore.key)
    {
      var mlsOldKey := mlsKeystore.key;
      var hwOldKey := a.callback.verifyingKey(a.oldHandle);
      if hwOldKey.Err? {
        return Err(PreflightPlatform);
      }
      if mlsOldKey != hwOldKey.value {
        return Err(PreflightMismatch);
      }
      var rotated := a.callback.rotateIdentity(a.oldHandle, a.newLabel, mlsOldKey, a.timestamp, a.reason.Tag(),
                                               a.recoveryProof);
      if rotated.Err? {
        return Err(RotatePlatform);
      }
      var artifact := rotated.value;
      var published, record := RotateIdentityPublish(ed, artifact.newKey, a.reason, a.timestamp, a.recoveryProof,
                                                     artifact.oldSignature, artifact.newSignature);
      assert record == RecordOf(mlsOldKey, a, artifact);
      if published.Err? {
        return Err(published.error);
      }
      var store := HwBackedKeyStore(ed, mlsKeystore.account, artifact.newHandle, artifact.newKey);
      if store.None? {
        assert false;
        return Err(KeystoreConstruction);
      }
      SwapMlsKeystore(store.value);
      SwapKeystore(store);
      SwapHwIdentity(artifact.newHandle, artifact.newKey);
      r := Ok(FullOutcome(mlsOldKey, artifact.newKey, artifact.newHandle, a.timestamp, published.value.entrySize));
    }
  }

  /** Both key stores are the same hardware-backed store and the hardware state repeats its handle and key. */
  predicate Unified(core: Core) {
    && core.mls.handle.Some?
    && core.keystore == Some(core.mls)
    && core.hw == HwIdentityState(core.mls.handle, Some(core.mls.key))
  }

  /** Every refusal leaves log and surfaces alone; in particular nothing is published and then left unswapped. */
  lemma RefusalChangesNothing(ed: Ed25519, core: Core, a: Attempt)
    ensures var (after, r) := RotateFull(ed, core, a); r.Err? ==> after == core && !r.error.KeystoreConstruction?
  {
    if Preflight(core.mls.key, a).Ok? {
      var record := RecordOf(core.mls.key, a, Preflight(core.mls.key, a).value);
      assert Refused(ed, record).None? ==> ed.isKey(record.newKey);
    }
  }

  /**
    The callback answers this attempt honestly: its handle holds `key`, and it signs with `key` and with a new key the
    input that its arguments describe. What it answers to anything else, an unknown reason tag say, is left open.
   */
  predicate Honest(ed: Ed25519, a: Attempt, key: Bytes32) {
    var answer := a.callback.rotateIdentity(a.oldHandle, a.newLabel, key, a.timestamp, a.reason.Tag(), a.recoveryProof);
    && ed.isKey(key)
    && a.callback.verifyingKey(a.oldHandle) == Ok(key)
    && answer.Ok?
    && var input := SigningInput(AUTHORIZATION_WIRE_VERSION, key, answer.value.newKey, a.timestamp, a.reason.Tag(),
                                 a.recoveryProof);
    && answer.value.newKey != key && ed.isKey(answer.value.newKey)
    && ed.verify(key, input, answer.value.oldSignature)
    && ed.verify(answer.value.newKey, input, answer.value.newSignature)
  }

  /** With a callback that answers honestly for the current key, rotation succeeds; no other rotation does. */
  lemma RotationSucceedsIffHonest(ed: Ed25519, core: Core, a: Attempt)
    ensures RotateFull(ed, core, a).1.Ok? <==> Honest(ed, a, core.mls.key)
  {
  }

  /** The identity key of generation `g`: the first one, or the new key of the `g`-th published record. */
  function KeyAt(origin: Bytes32, log: seq<seq<Byte>>, g: nat): Bytes32
    requires g <= |log|
  {
    if g > 0 && DecodeEntry(log[g - 1]).Ok? then DecodeEntry(log[g - 1]).value.newKey else origin
  }

  /** Entry `i` is a record that verifies and leads from generation `i` to another key. */
  predicate Link(ed: Ed25519, origin: Bytes32, log: seq<seq<Byte>>, i: nat)
    requires i < |log|
  {
    match DecodeEntry(log[i])
    case Err(_) => false
    case Ok(record) =>
      && Verify(ed, record).None?
      && record.oldKey == KeyAt(origin, log, i)
      && record.newKey != record.oldKey
  }

  predicate Chain(ed: Ed25519, origin: Bytes32, log: seq<seq<Byte>>) {
    forall i :: 0 <= i < |log| ==> Link(ed, origin, log, i)
  }

  function CurrentKey(origin: Bytes32, log: seq<seq<Byte>>): Bytes32 {
    KeyAt(origin, log, |log|)
  }

  lemma ChainGrows(ed: Ed25519, origin: Bytes32, log: seq<seq<Byte>>, record: Record)
    requires Chain(ed, origin, log) && record.oldKey == CurrentKey(origin, log)
    requires Refused(ed, record).None? && record.version == AUTHORIZATION_WIRE_VERSION
    ensures var longer := log + [EntryBytes(record)];
            && Chain(ed, origin, longer)
            && CurrentKey(origin, longer) == record.newKey
            && forall g :: 0 <= g <= |log| ==> KeyAt(origin, longer, g) == KeyAt(origin, log, g)
  {
    var longer := log + [EntryBytes(record)];
    DecodeEncoded(record);
    forall i | 0 <= i < |longer|
      ensures Link(ed, origin, longer, i)
    {
      if i < |log| {
        assert Link(ed, origin, log, i);
        assert longer[i] == log[i];
      }
    }
  }

  /** A core after a list of rotation attempts, one after another. */
  function Serial(ed: Ed25519, core: Core, attempts: seq<Attempt>): Core {
    if attempts == [] then core
    else RotateFull(ed, Serial(ed, core, attempts[..|attempts| - 1]), attempts[|attempts| - 1]).0
  }

  /** The log is a chain that ends in the key of every surface. */
  predicate Coherent(ed: Ed25519, origin: Bytes32, core: Core) {
    && Chain(ed, origin, core.log)
    && core.mls.key == CurrentKey(origin, core.log)
    && core.keystore.Some? && core.keystore.value.key == core.mls.key
    && core.hw.verifyingKey == Some(core.mls.key)
  }

  /** Any list of attempts, with any callbacks, only extends the log, and keeps it a chain ending in the current key. */
  lemma {:induction false} SerialRotationsFormChain(ed: Ed25519, origin: Bytes32, core: Core, attempts: seq<Attempt>)
    requires Coherent(ed, origin, core)
    ensures Coherent(ed, origin, Serial(ed, core, attempts))
    ensures core.log <= Serial(ed, core, attempts).log
  {
    if attempts != [] {
      var before, a := Serial(ed, core, attempts[..|attempts| - 1]), attempts[|attempts| - 1];
      SerialRotationsFormChain(ed, origin, core, attempts[..|attempts| - 1]);
      RefusalChangesNothing(ed, before, a);
      if RotateFull(ed, before, a).1.Ok? {
        ChainGrows(ed, origin, before.log, RecordOf(before.mls.key, a, Preflight(before.mls.key, a).value));
      }
    }
  }
}
