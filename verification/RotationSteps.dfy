/**
  `rotate_identity_full` one lock acquisition at a time, with readers of the surfaces in between. Taken together the
  steps are `RotateFull`; taken one by one they keep the surfaces ordered and at most one rotation apart.
 */
module RotationSteps {
  import opened Bytes
  import opened Signature
  import opened RotationRecord
  import opened Rotation

  /** How far a rotation has come; each constructor holds the local variables that are still needed. */
  datatype Progress =
    | Resting(last: Option<Result<FullOutcome, RotationError>>)
    | Called(a: Attempt)
    | Rotated(a: Attempt, oldKey: Bytes32, artifact: Artifact)
    | Verified(a: Attempt, oldKey: Bytes32, artifact: Artifact, record: Record)
    | Published(a: Attempt, oldKey: Bytes32, artifact: Artifact)
    | Built(a: Attempt, oldKey: Bytes32, artifact: Artifact, store: KeyStore)
    | MlsSwapped(a: Attempt, oldKey: Bytes32, artifact: Artifact, store: KeyStore)
    | KeystoreSwapped(a: Attempt, oldKey: Bytes32, artifact: Artifact)

  /** The next lock acquisition of a rotation in flight, with the local computation that follows it. */
  function Advance(ed: Ed25519, core: Core, p: Progress): (Core, Progress)
    requires !p.Resting?
  {
    match p
    case Called(a) =>
      (match Preflight(core.mls.key, a)
       case Err(e) => (core, Resting(Some(Err(e))))
       case Ok(artifact) => (core, Rotated(a, core.mls.key, artifact)))
    case Rotated(a, oldKey, artifact) =>
      var record := RecordOf(core.mls.key, a, artifact);
      (match Refused(ed, record)
       case Some(e) => (core, Resting(Some(Err(e))))
       case None => (core, Verified(a, oldKey, artifact, record)))
    case Verified(a, oldKey, artifact, record) =>
      (core.(log := core.log + [EntryBytes(record)]), Published(a, oldKey, artifact))
    case Published(a, oldKey, artifact) =>
      (match HwBackedKeyStore(ed, core.mls.account, artifact.newHandle, artifact.newKey)
       case None => (core, Resting(Some(Err(KeystoreConstruction))))
       case Some(store) => (core, Built(a, oldKey, artifact, store)))
    case Built(a, oldKey, artifact, store) => (core.(mls := store), MlsSwapped(a, oldKey, artifact, store))
    case MlsSwapped(a, oldKey, artifact, store) =>
      (core.(keystore := Some(store)), KeystoreSwapped(a, oldKey, artifact))
    case KeystoreSwapped(a, oldKey, artifact) =>
      (core.(hw := HwIdentityState(Some(artifact.newHandle), Some(artifact.newKey))),
       Resting(Some(Ok(FullOutcome(oldKey, artifact.newKey, artifact.newHandle, a.timestamp,
                                   KT_ENTRY_IDENTITY_ROTATION_WIRE_LEN)))))
  }

  /** The number of lock acquisitions ahead, at most. */
  function Ahead(p: Progress): nat {
    match p
    case Resting(_) => 0
    case Called(_) => 7
    case Rotated(_, _, _) => 6
    case Verified(_, _, _, _) => 5
    case Published(_, _, _) => 4
    case Built(_, _, _, _) => 3
    case MlsSwapped(_, _, _, _) => 2
    case KeystoreSwapped(_, _, _) => 1
  }

  function Finish(ed: Ed25519, core: Core, p: Progress): (Core, Progress)
    decreases Ahead(p)
  {
    if p.Resting? then (core, p) else var (next, q) := Advance(ed, core, p); Finish(ed, next, q)
  }

  /** From publication on, only the three swaps remain. */
  lemma FinishPublished(ed: Ed25519, core: Core, a: Attempt, oldKey: Bytes32, artifact: Artifact)
    ensures Finish(ed, core, Published(a, oldKey, artifact)) ==
            match HwBackedKeyStore(ed, core.mls.account, artifact.newHandle, artifact.newKey)
            case None => (core, Resting(Some(Err(KeystoreConstruction))))
            case Some(store) =>
              (core.(mls := store, keystore := Some(store),
                     hw := HwIdentityState(Some(artifact.newHandle), Some(artifact.newKey))),
               Resting(Some(Ok(FullOutcome(oldKey, artifact.newKey, artifact.newHandle, a.timestamp,
                                           KT_ENTRY_IDENTITY_ROTATION_WIRE_LEN)))))
  {
    var (c1, p1) := Advance(ed, core, Published(a, oldKey, artifact));
    if p1.Built? {
      var (c2, p2) := Advance(ed, c1, p1);
      var (c3, p3) := Advance(ed, c2, p2);
      var (c4, p4) := Advance(ed, c3, p3);
      assert Finish(ed, c3, p3) == (c4, p4);
      assert Finish(ed, c2, p2) == (c4, p4);
    }
  }

  lemma FinishRotated(ed: Ed25519, core: Core, a: Attempt, oldKey: Bytes32, artifact: Artifact)
    ensures var record := RecordOf(core.mls.key, a, artifact);
            Finish(ed, core, Rotated(a, oldKey, artifact)) ==
            match Refused(ed, record)
            case Some(e) => (core, Resting(Some(Err(e))))
            case None =>
              Finish(ed, core.(log := core.log + [EntryBytes(record)]), Published(a, oldKey, artifact))
  {
    var (c1, p1) := Advance(ed, core, Rotated(a, oldKey, artifact));
    if p1.Verified? {
      var (c2, p2) := Advance(ed, c1, p1);
      assert Finish(ed, c1, p1) == Finish(ed, c2, p2);
    }
  }

  /** Taken together the steps of one rotation do what `rotate_identity_full` does as a whole. */
  lemma StepsRefineRotateFull(ed: Ed25519, core: Core, a: Attempt)
    ensures var (after, r) := RotateFull(ed, core, a); Finish(ed, core, Called(a)) == (after, Resting(Some(r)))
  {
    var (c1, p1) := Advance(ed, core, Called(a));
    if p1.Rotated? {
      FinishRotated(ed, core, a, core.mls.key, p1.artifact);
      var record := RecordOf(core.mls.key, a, p1.artifact);
      FinishPublished(ed, core.(log := core.log + [EntryBytes(record)]), a, core.mls.key, p1.artifact);
    }
  }

  /** How many rotations each local surface has been through; history variables that no step reads. */
  datatype Generations = Generations(mls: nat, keystore: nat, hw: nat)

  datatype System = System(core: Core, progress: Progress, gens: Generations)

  function Counted(gens: Generations, p: Progress): Generations {
    match p
    case Built(_, _, _, _) => gens.(mls := gens.mls + 1)
    case MlsSwapped(_, _, _, _) => gens.(keystore := gens.keystore + 1)
    case KeystoreSwapped(_, _, _) => gens.(hw := gens.hw + 1)
    case _ => gens
  }

  /** One step: a reader takes a lock, a rotation is called, or the rotation in flight takes its next lock. */
  ghost predicate Next(ed: Ed25519, s: System, t: System) {
    || t == s
    || (s.progress.Resting? && exists a :: t == s.(progress := Called(a)))
    || (!s.progress.Resting? &&
        var (core, progress) := Advance(ed, s.core, s.progress);
        t == System(core, progress, Counted(s.gens, s.progress)))
  }

  /** A run from a coherent core at rest, with every surface at the generation of the log. */
  ghost predicate Run(ed: Ed25519, origin: Bytes32, run: seq<System>) {
    && run != []
    && Coherent(ed, origin, run[0].core)
    && run[0].progress == Resting(None)
    && (var n := |run[0].core.log|; run[0].gens == Generations(n, n, n))
    && forall i :: 0 < i < |run| ==> Next(ed, run[i - 1], run[i])
  }

  /** Each surface shows the key of its generation; the generations are ordered and at most one apart. */
  ghost predicate Ordered(origin: Bytes32, s: System) {
    var n, g := |s.core.log|, s.gens;
    && n >= g.mls >= g.keystore >= g.hw >= n - 1
    && s.core.mls.key == KeyAt(origin, s.core.log, g.mls)
    && s.core.keystore.Some? && s.core.keystore.value.key == KeyAt(origin, s.core.log, g.keystore)
    && s.core.hw.verifyingKey == Some(KeyAt(origin, s.core.log, g.hw))
  }

  /** What the local variables of the rotation in flight say about the slots. */
  ghost predicate InFlight(ed: Ed25519, origin: Bytes32, s: System) {
    var n, g, core, p := |s.core.log|, s.gens, s.core, s.progress;
    var before := if n == 0 then g else Generations(n - 1, n - 1, n - 1);
    match p
    case Resting(last) =>
      && g == Generations(n, n, n)
      && (last.Some? && last.value.Ok? ==> Unified(core) && core.mls.key == last.value.value.newKey)
      && (last.Some? && last.value.Err? ==> !last.value.error.KeystoreConstruction?)
    case Called(_) => g == Generations(n, n, n)
    case Rotated(_, _, _) => g == Generations(n, n, n)
    case Verified(_, _, artifact, record) =>
      && g == Generations(n, n, n)
      && record.version == AUTHORIZATION_WIRE_VERSION && Refused(ed, record).None?
      && record.oldKey == core.mls.key && record.newKey == artifact.newKey
    case Published(_, _, artifact) =>
      g == before && n > 0 && ed.isKey(artifact.newKey) && artifact.newKey == CurrentKey(origin, core.log)
    case Built(_, _, artifact, store) =>
      g == before && n > 0 && Holds(store, artifact) && artifact.newKey == CurrentKey(origin, core.log)
    case MlsSwapped(_, _, artifact, store) =>
      && g == before.(mls := n) && n > 0 && Holds(store, artifact)
      && core.mls == store && artifact.newKey == CurrentKey(origin, core.log)
    case KeystoreSwapped(_, _, artifact) =>
      && g == before.(mls := n, keystore := n) && n > 0 && Holds(core.mls, artifact)
      && core.keystore == Some(core.mls) && artifact.newKey == CurrentKey(origin, core.log)
  }

  predicate Holds(store: KeyStore, artifact: Artifact) {
    store.handle == Some(artifact.newHandle) && store.key == artifact.newKey
  }

  ghost predicate Invariant(ed: Ed25519, origin: Bytes32, s: System) {
    Chain(ed, origin, s.core.log) && Ordered(origin, s) && InFlight(ed, origin, s)
  }

  /** Publishing: the log alone moves ahead by one generation. */
  lemma PublishKeepsInvariant(ed: Ed25519, origin: Bytes32, s: System, t: System)
    requires Invariant(ed, origin, s) && s.progress.Verified?
    requires t.core == s.core.(log := s.core.log + [EntryBytes(s.progress.record)]) && t.gens == s.gens
    requires t.progress == Published(s.progress.a, s.progress.oldKey, s.progress.artifact)
    ensures Invariant(ed, origin, t)
  {
    ChainGrows(ed, origin, s.core.log, s.progress.record);
    assert KeyAt(origin, t.core.log, |s.core.log|) == KeyAt(origin, s.core.log, |s.core.log|);
  }

  /** Up to publication no slot changes. */
  lemma PrepareKeepsInvariant(ed: Ed25519, origin: Bytes32, s: System, t: System)
    requires Invariant(ed, origin, s) && (s.progress.Called? || s.progress.Rotated?)
    requires t == s.(progress := Advance(ed, s.core, s.progress).1)
    ensures Invariant(ed, origin, t)
  {
    assert Ordered(origin, t);
  }

  /** After it the surfaces catch up with the log one by one. */
  lemma SwapKeepsInvariant(ed: Ed25519, origin: Bytes32, s: System, t: System)
    requires Invariant(ed, origin, s)
    requires s.progress.Published? || s.progress.Built? || s.progress.MlsSwapped? || s.progress.KeystoreSwapped?
    requires var (core, progress) := Advance(ed, s.core, s.progress);
             t == System(core, progress, Counted(s.gens, s.progress))
    ensures Invariant(ed, origin, t) && t.core.log == s.core.log
  {
    assert t.core.log == s.core.log;
    assert Ordered(origin, t);
    assert InFlight(ed, origin, t);
  }

  lemma StepKeepsInvariant(ed: Ed25519, origin: Bytes32, s: System, t: System)
    requires Invariant(ed, origin, s) && Next(ed, s, t)
    ensures Invariant(ed, origin, t)
    ensures s.core.log <= t.core.log
    ensures s.gens.mls <= t.gens.mls && s.gens.keystore <= t.gens.keystore && s.gens.hw <= t.gens.hw
  {
    if t != s && s.progress.Verified? {
      PublishKeepsInvariant(ed, origin, s, t);
    } else if t != s && (s.progress.Called? || s.progress.Rotated?) {
      PrepareKeepsInvariant(ed, origin, s, t);
    } else if t != s && !s.progress.Resting? {
      SwapKeepsInvariant(ed, origin, s, t);
    }
  }

  lemma {:induction false} RunKeepsInvariant(ed: Ed25519, origin: Bytes32, run: seq<System>, i: nat)
    requires Run(ed, origin, run) && i < |run|
    ensures Invariant(ed, origin, run[i])
  {
    if i > 0 {
      RunKeepsInvariant(ed, origin, run, i - 1);
      StepKeepsInvariant(ed, origin, run[i - 1], run[i]);
    }
  }

  /**
    In every interleaving of readers with one rotation at a time, at every moment: the log is a chain and at least as
    new as `mls_keystore`, which is at least as new as `keystore`, which is at least as new as `hw_identity_state`, all
    within one rotation; and whenever no rotation is in flight all of them agree.
   */
  lemma SurfacesStayOrdered(ed: Ed25519, origin: Bytes32, run: seq<System>, i: nat)
    requires Run(ed, origin, run) && i < |run|
    ensures Chain(ed, origin, run[i].core.log) && Ordered(origin, run[i])
    ensures run[i].progress.Resting? ==> Coherent(ed, origin, run[i].core)
    ensures run[i].progress.Resting? && run[i].progress.last.Some? ==>
              match run[i].progress.last.value
              case Ok(outcome) => Unified(run[i].core) && run[i].core.mls.key == outcome.newKey
              case Err(e) => !e.KeystoreConstruction?
  {
    RunKeepsInvariant(ed, origin, run, i);
  }

  lemma {:induction false} NothingGoesBack(ed: Ed25519, origin: Bytes32, run: seq<System>, i: nat, j: nat)
    requires Run(ed, origin, run) && i <= j < |run|
    ensures run[i].core.log <= run[j].core.log
    ensures run[i].gens.mls <= run[j].gens.mls
    ensures run[i].gens.keystore <= run[j].gens.keystore
    ensures run[i].gens.hw <= run[j].gens.hw
  {
    if i < j {
      NothingGoesBack(ed, origin, run, i, j - 1);
      RunKeepsInvariant(ed, origin, run, j - 1);
      StepKeepsInvariant(ed, origin, run[j - 1], run[j]);
    }
  }

  lemma {:induction false} KeysPersist(origin: Bytes32, log: seq<seq<Byte>>, longer: seq<seq<Byte>>, g: nat)
    requires log <= longer && g <= |log|
    ensures KeyAt(origin, longer, g) == KeyAt(origin, log, g)
  {
    if g > 0 {
      assert longer[g - 1] == log[g - 1];
    }
  }

  /**
    A reader that takes the locks in the order `hw_identity_state`, `keystore`, `mls_keystore`, log, at any four
    moments, sees keys of generations that never go backwards in the final chain.
   */
  lemma ReaderSeesForwardOrder(ed: Ed25519, origin: Bytes32, run: seq<System>, h: nat, k: nat, m: nat, l: nat)
    requires Run(ed, origin, run) && h <= k <= m <= l < |run|
    ensures exists a: nat, b: nat, c: nat ::
              && a <= b <= c <= |run[l].core.log|
              && run[h].core.hw.verifyingKey == Some(KeyAt(origin, run[l].core.log, a))
              && run[k].core.keystore.Some?
              && run[k].core.keystore.value.key == KeyAt(origin, run[l].core.log, b)
              && run[m].core.mls.key == KeyAt(origin, run[l].core.log, c)
  {
    RunKeepsInvariant(ed, origin, run, h);
    RunKeepsInvariant(ed, origin, run, k);
    RunKeepsInvariant(ed, origin, run, m);
    NothingGoesBack(ed, origin, run, h, k);
    NothingGoesBack(ed, origin, run, k, m);
    NothingGoesBack(ed, origin, run, h, l);
    NothingGoesBack(ed, origin, run, k, l);
    NothingGoesBack(ed, origin, run, m, l);
    var a, b, c := run[h].gens.hw, run[k].gens.keystore, run[m].gens.mls;
    KeysPersist(origin, run[h].core.log, run[l].core.log, a);
    KeysPersist(origin, run[k].core.log, run[l].core.log, b);
    KeysPersist(origin, run[m].core.log, run[l].core.log, c);
  }
}
