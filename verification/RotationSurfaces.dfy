/**
  The three surfaces under any number of rotations at once: in every interleaving, overlapping or not, each shows the
  key of the rotation that swapped it last, so they agree at rest exactly as the last swaps do.
 */
module RotationSurfaces {
  import opened Bytes
  import opened Signature
  import opened RotationRecord
  import opened Rotation
  import opened RotationSteps
  import opened RotationOverlap

  /**
    A crowd with its history: for every rotation that published, the generation of its record in the log, and for every
    surface the generation of the rotation that swapped it last. No step reads the history.
   */
  datatype Traced = Traced(crowd: Crowd, gens: map<nat, nat>, last: Generations)

  /** The history after rotation `id` took its next lock. */
  function Noted(s: Traced, id: nat): (map<nat, nat>, Generations)
    requires id in s.crowd.flights
  {
    var g := if id in s.gens then s.gens[id] else 0;
    match s.crowd.flights[id]
    case Verified(_, _, _, _) => (s.gens[id := |s.crowd.core.log| + 1], s.last)
    case Built(_, _, _, _) => (s.gens, s.last.(mls := g))
    case MlsSwapped(_, _, _, _) => (s.gens, s.last.(keystore := g))
    case KeystoreSwapped(_, _, _) => (s.gens, s.last.(hw := g))
    case _ => (s.gens, s.last)
  }

  ghost predicate TracedMoves(ed: Ed25519, s: Traced, t: Traced) {
    || t == s
    || (exists id: nat, a: Attempt :: Starts(s.crowd, t.crowd, id, a) && t == s.(crowd := t.crowd))
    || (exists id: nat :: TracedAdvances(ed, s, t, id))
  }

  ghost predicate TracedAdvances(ed: Ed25519, s: Traced, t: Traced, id: nat) {
    && Advances(ed, s.crowd, t.crowd, id)
    && var (gens, last) := Noted(s, id);
    t == Traced(t.crowd, gens, last)
  }

  /** A run from a coherent core with no rotation in flight. */
  ghost predicate TracedRun(ed: Ed25519, origin: Bytes32, run: seq<Traced>) {
    && run != []
    && Coherent(ed, origin, run[0].crowd.core) && run[0].crowd.flights == map[]
    && (var n := |run[0].crowd.core.log|; run[0].last == Generations(n, n, n))
    && forall i :: 0 < i < |run| ==> TracedMoves(ed, run[i - 1], run[i])
  }

  /** The key of generation `g`, if there is one. */
  ghost predicate IsKeyAt(origin: Bytes32, log: seq<seq<Byte>>, g: nat, key: Bytes32) {
    g <= |log| && key == KeyAt(origin, log, g)
  }

  /** Each surface shows the key of its last swap. */
  ghost predicate ShowsLastSwaps(origin: Bytes32, s: Traced) {
    var core := s.crowd.core;
    && IsKeyAt(origin, core.log, s.last.mls, core.mls.key)
    && core.keystore.Some? && IsKeyAt(origin, core.log, s.last.keystore, core.keystore.value.key)
    && core.hw.verifyingKey.Some? && IsKeyAt(origin, core.log, s.last.hw, core.hw.verifyingKey.value)
  }

  /** What a rotation in flight carries: a good record before publication, the key of its generation after it. */
  ghost predicate Carries(ed: Ed25519, origin: Bytes32, s: Traced, p: Progress, id: nat) {
    match p
    case Verified(_, _, artifact, record) => GoodRecord(ed, record) && record.newKey == artifact.newKey
    case Published(_, _, artifact) => Owns(origin, s, id, artifact.newKey)
    case Built(_, _, artifact, store) => store.key == artifact.newKey && Owns(origin, s, id, artifact.newKey)
    case MlsSwapped(_, _, artifact, store) => store.key == artifact.newKey && Owns(origin, s, id, artifact.newKey)
    case KeystoreSwapped(_, _, artifact) => Owns(origin, s, id, artifact.newKey)
    case _ => true
  }

  ghost predicate Owns(origin: Bytes32, s: Traced, id: nat, key: Bytes32) {
    id in s.gens && IsKeyAt(origin, s.crowd.core.log, s.gens[id], key)
  }

  ghost predicate TracedInvariant(ed: Ed25519, origin: Bytes32, s: Traced) {
    && ShowsLastSwaps(origin, s)
    && forall id :: id in s.crowd.flights ==> Carries(ed, origin, s, s.crowd.flights[id], id)
  }

  /** A longer log has the same earlier generations. */
  lemma LaterLog(origin: Bytes32, log: seq<seq<Byte>>, entry: seq<Byte>, g: nat, key: Bytes32)
    requires IsKeyAt(origin, log, g, key)
    ensures IsKeyAt(origin, log + [entry], g, key)
  {
    KeysPersist(origin, log, log + [entry], g);
  }

  /** Publishing starts a new generation and leaves the others. */
  lemma PublishKeepsTrace(ed: Ed25519, origin: Bytes32, s: Traced, t: Traced, id: nat)
    requires TracedInvariant(ed, origin, s) && TracedAdvances(ed, s, t, id) && s.crowd.flights[id].Verified?
    ensures TracedInvariant(ed, origin, t)
  {
    var log, p := s.crowd.core.log, s.crowd.flights[id];
    var entry := EntryBytes(p.record);
    assert Carries(ed, origin, s, p, id) && t.crowd.core.log == log + [entry];
    DecodeEncoded(p.record);
    forall g: nat, key | IsKeyAt(origin, log, g, key)
      ensures IsKeyAt(origin, t.crowd.core.log, g, key)
    {
      LaterLog(origin, log, entry, g, key);
    }
    assert Owns(origin, t, id, p.artifact.newKey);
    forall other | other in t.crowd.flights && other != id
      ensures Carries(ed, origin, t, t.crowd.flights[other], other)
    {
      assert Carries(ed, origin, s, s.crowd.flights[other], other);
    }
  }

  /** Every other step leaves the log. */
  lemma OtherStepKeepsTrace(ed: Ed25519, origin: Bytes32, s: Traced, t: Traced, id: nat)
    requires TracedInvariant(ed, origin, s) && TracedAdvances(ed, s, t, id) && !s.crowd.flights[id].Verified?
    ensures TracedInvariant(ed, origin, t)
  {
    assert t.crowd.core.log == s.crowd.core.log && t.gens == s.gens;
    assert Carries(ed, origin, s, s.crowd.flights[id], id);
    assert ShowsLastSwaps(origin, t);
    forall other | other in t.crowd.flights
      ensures Carries(ed, origin, t, t.crowd.flights[other], other)
    {
      if other != id {
        assert Carries(ed, origin, s, s.crowd.flights[other], other);
      }
    }
  }

  lemma TracedStep(ed: Ed25519, origin: Bytes32, s: Traced, t: Traced)
    requires TracedInvariant(ed, origin, s) && TracedMoves(ed, s, t)
    ensures TracedInvariant(ed, origin, t)
  {
    if exists id: nat :: TracedAdvances(ed, s, t, id) {
      var id: nat :| TracedAdvances(ed, s, t, id);
      if s.crowd.flights[id].Verified? {
        PublishKeepsTrace(ed, origin, s, t, id);
      } else {
        OtherStepKeepsTrace(ed, origin, s, t, id);
      }
    } else if t != s {
      var id: nat, a :| Starts(s.crowd, t.crowd, id, a) && t == s.(crowd := t.crowd);
      forall other | other in t.crowd.flights
        ensures Carries(ed, origin, t, t.crowd.flights[other], other)
      {
        if other != id {
          assert Carries(ed, origin, s, s.crowd.flights[other], other);
        }
      }
    }
  }

  lemma {:induction false} TracedRunKeepsInvariant(ed: Ed25519, origin: Bytes32, run: seq<Traced>, i: nat)
    requires TracedRun(ed, origin, run) && i < |run|
    ensures TracedInvariant(ed, origin, run[i])
  {
    if i > 0 {
      TracedRunKeepsInvariant(ed, origin, run, i - 1);
      assert TracedMoves(ed, run[i - 1], run[i]);
      TracedStep(ed, origin, run[i - 1], run[i]);
    }
  }

  /**
    In every interleaving of any number of rotations, each surface shows the key published by the rotation that swapped
    it last. So another surface agrees with `mls_keystore` exactly when the last rotation to swap it published the same
    key as the last one to swap `mls_keystore`, in particular when they are one rotation.
   */
  lemma SurfacesShowLastSwaps(ed: Ed25519, origin: Bytes32, run: seq<Traced>, i: nat)
    requires TracedRun(ed, origin, run) && i < |run|
    ensures ShowsLastSwaps(origin, run[i])
    ensures var core, log, last := run[i].crowd.core, run[i].crowd.core.log, run[i].last;
            && (core.keystore.value.key == core.mls.key <==>
                KeyAt(origin, log, last.keystore) == KeyAt(origin, log, last.mls))
            && (core.hw.verifyingKey.value == core.mls.key <==>
                KeyAt(origin, log, last.hw) == KeyAt(origin, log, last.mls))
  {
    TracedRunKeepsInvariant(ed, origin, run, i);
  }

  // ----- One rotation at a time between verifying and the last swap -----

  /** Rotation `id` has verified its record and not yet swapped all three surfaces. */
  predicate Unfinished(s: Crowd, id: nat) {
    s.Pending(id) || (id in s.flights && (s.flights[id].MlsSwapped? || s.flights[id].KeystoreSwapped?))
  }

  ghost predicate OneUnfinished(s: Crowd) {
    forall a, b :: Unfinished(s, a) && Unfinished(s, b) ==> a == b
  }

  /** How far the surfaces are behind the log while rotation `id` is unfinished. */
  ghost predicate Behind(s: Traced, id: nat)
    requires id in s.crowd.flights
  {
    var n, last := |s.crowd.core.log|, s.last;
    match s.crowd.flights[id]
    case Verified(_, _, _, _) => last == Generations(n, n, n)
    case Published(_, _, _) => id in s.gens && s.gens[id] == n
    case Built(_, _, _, _) => id in s.gens && s.gens[id] == n
    case MlsSwapped(_, _, _, _) => id in s.gens && s.gens[id] == n == last.mls
    case KeystoreSwapped(_, _, _) => id in s.gens && s.gens[id] == n == last.mls == last.keystore
    case _ => true
  }

  ghost predicate InTurn(s: Traced) {
    && (forall id :: Unfinished(s.crowd, id) ==> Behind(s, id))
    && ((forall id :: !Unfinished(s.crowd, id)) ==>
          var n := |s.crowd.core.log|; s.last == Generations(n, n, n))
  }

  /** A step of the unfinished rotation, or of one that becomes unfinished. */
  lemma TurnGoesOn(ed: Ed25519, s: Traced, t: Traced, id: nat)
    requires InTurn(s) && TracedAdvances(ed, s, t, id)
    requires forall other :: other != id ==> !Unfinished(s.crowd, other) && !Unfinished(t.crowd, other)
    requires Unfinished(s.crowd, id) || Unfinished(t.crowd, id)
    requires s.crowd.flights[id].Published? ==> t.crowd.flights[id].Built?
    ensures InTurn(t)
  {
    if Unfinished(s.crowd, id) {
      assert Behind(s, id);
      assert Unfinished(t.crowd, id) || s.crowd.flights[id].KeystoreSwapped?;
    } else {
      assert forall other :: !Unfinished(s.crowd, other);
      assert s.crowd.flights[id].Rotated?;
    }
    if Unfinished(t.crowd, id) {
      assert Behind(t, id);
    }
  }

  lemma AdvanceKeepsTurn(ed: Ed25519, s: Traced, t: Traced, id: nat)
    requires InTurn(s) && OneUnfinished(s.crowd) && OneUnfinished(t.crowd) && TracedAdvances(ed, s, t, id)
    requires s.crowd.flights[id].Published? ==> t.crowd.flights[id].Built?
    ensures InTurn(t)
  {
    assert forall other :: other != id ==> (Unfinished(s.crowd, other) <==> Unfinished(t.crowd, other));
    if Unfinished(s.crowd, id) || Unfinished(t.crowd, id) {
      TurnGoesOn(ed, s, t, id);
    } else {
      assert t.last == s.last && t.gens == s.gens && t.crowd.core.log == s.crowd.core.log;
      forall other | Unfinished(t.crowd, other)
        ensures Behind(t, other)
      {
        assert Unfinished(s.crowd, other) && other != id;
      }
    }
  }

  /** A published key decodes, so the new key store can be built. */
  lemma PublishedBuilds(ed: Ed25519, origin: Bytes32, s: Crowd, t: Crowd, id: nat)
    requires Fits(ed, origin, s) && Advances(ed, s, t, id) && s.flights[id].Published?
    ensures t.flights[id].Built?
  {
    assert s.Lagging(id);
  }

  lemma StartKeepsTurn(s: Traced, t: Traced, id: nat, a: Attempt)
    requires InTurn(s) && Starts(s.crowd, t.crowd, id, a) && t == s.(crowd := t.crowd)
    ensures InTurn(t)
  {
    assert forall other :: Unfinished(t.crowd, other) <==> Unfinished(s.crowd, other);
    forall other | Unfinished(t.crowd, other)
      ensures Behind(t, other)
    {
      assert Unfinished(s.crowd, other) && other != id;
    }
  }

  lemma StepKeepsTurn(ed: Ed25519, origin: Bytes32, s: Traced, t: Traced)
    requires Fits(ed, origin, s.crowd) && TracedMoves(ed, s, t)
    requires InTurn(s) && OneUnfinished(s.crowd) && OneUnfinished(t.crowd)
    ensures InTurn(t)
  {
    if exists id: nat :: TracedAdvances(ed, s, t, id) {
      var id: nat :| TracedAdvances(ed, s, t, id);
      if s.crowd.flights[id].Published? {
        PublishedBuilds(ed, origin, s.crowd, t.crowd, id);
      }
      AdvanceKeepsTurn(ed, s, t, id);
    } else if t != s {
      var id: nat, a :| Starts(s.crowd, t.crowd, id, a) && t == s.(crowd := t.crowd);
      StartKeepsTurn(s, t, id, a);
    }
  }

  lemma TracedIsCrowd(ed: Ed25519, s: Traced, t: Traced)
    requires TracedMoves(ed, s, t)
    ensures Moves(ed, s.crowd, t.crowd)
  {
    if exists id: nat :: TracedAdvances(ed, s, t, id) {
      var id: nat :| TracedAdvances(ed, s, t, id);
      assert Advances(ed, s.crowd, t.crowd, id);
    } else if t != s {
      var id: nat, a :| Starts(s.crowd, t.crowd, id, a) && t == s.(crowd := t.crowd);
    }
  }

  lemma {:induction false} RunKeepsTurn(ed: Ed25519, origin: Bytes32, run: seq<Traced>, i: nat)
    requires TracedRun(ed, origin, run) && i < |run|
    requires forall k :: 0 <= k <= i ==> OneUnfinished(run[k].crowd)
    ensures InTurn(run[i]) && Fits(ed, origin, run[i].crowd)
  {
    if i > 0 {
      RunKeepsTurn(ed, origin, run, i - 1);
      var s, t := run[i - 1], run[i];
      assert TracedMoves(ed, s, t) && OneUnfinished(s.crowd) && OneUnfinished(t.crowd);
      StepKeepsTurn(ed, origin, s, t);
      TracedIsCrowd(ed, s, t);
      NoTwoPending(s.crowd);
      StepKeepsFit(ed, origin, s.crowd, t.crowd);
    }
  }

  lemma NoTwoPending(s: Crowd)
    requires OneUnfinished(s)
    ensures !Overlap(s)
  {
    if Overlap(s) {
      var a, b :| a != b && s.Pending(a) && s.Pending(b);
      assert Unfinished(s, a) && Unfinished(s, b);
    }
  }

  /**
    Any number of rotations may be in flight: as long as no two are between verifying and their last swap together, the
    core is coherent whenever none is.
   */
  lemma TurnsKeepSurfacesCoherent(ed: Ed25519, origin: Bytes32, run: seq<Traced>, i: nat)
    requires TracedRun(ed, origin, run) && i < |run|
    requires forall k :: 0 <= k <= i ==> OneUnfinished(run[k].crowd)
    requires forall id :: !Unfinished(run[i].crowd, id)
    ensures Coherent(ed, origin, run[i].crowd.core)
  {
    RunKeepsTurn(ed, origin, run, i);
    TracedRunKeepsInvariant(ed, origin, run, i);
  }

  // ----- A rotation that is overtaken -----

  /** A rotation after its first `n` lock acquisitions. */
  function AdvanceBy(ed: Ed25519, core: Core, p: Progress, n: nat): (Core, Progress)
    decreases n
  {
    if n == 0 || p.Resting? then (core, p) else var (next, q) := Advance(ed, core, p); AdvanceBy(ed, next, q, n - 1)
  }

  lemma FirstFiveLocks(ed: Ed25519, core: Core, a: Attempt)
    requires Honest(ed, a, core.mls.key)
    ensures var artifact := Preflight(core.mls.key, a).value;
            var record := RecordOf(core.mls.key, a, artifact);
            var store := KeyStore(core.mls.account, Some(artifact.newHandle), artifact.newKey);
            Preflight(core.mls.key, a).Ok? && GoodRecord(ed, record) &&
            AdvanceBy(ed, core, Called(a), 5) ==
            (core.(log := core.log + [EntryBytes(record)], mls := store),
             MlsSwapped(a, core.mls.key, artifact, store))
  {
    var (c1, p1) := Advance(ed, core, Called(a));
    var (c2, p2) := Advance(ed, c1, p1);
    var (c3, p3) := Advance(ed, c2, p2);
    var (c4, p4) := Advance(ed, c3, p3);
    var (c5, p5) := Advance(ed, c4, p4);
    assert AdvanceBy(ed, c5, p5, 0) == (c5, p5);
    assert AdvanceBy(ed, c3, p3, 2) == (c5, p5);
    assert AdvanceBy(ed, c1, p1, 4) == (c5, p5);
  }

  /**
    Keeping the pending phases apart is not enough for the surfaces. When a second honest rotation runs between the
    `mls_keystore` swap and the `keystore` swap of a first one, the log stays a chain that ends in the MLS key, but once
    both have returned `keystore` and `hw_identity_state` show the older key.
   */
  lemma OvertakenRotationLeavesOldKey(ed: Ed25519, origin: Bytes32, core: Core, a: Attempt, b: Attempt)
    requires Coherent(ed, origin, core) && Honest(ed, a, core.mls.key)
    requires Honest(ed, b, AdvanceBy(ed, core, Called(a), 5).0.mls.key)
    ensures var (between, first) := AdvanceBy(ed, core, Called(a), 5);
            var (overtaken, _) := Finish(ed, between, Called(b));
            var (after, result) := Finish(ed, overtaken, first);
            && result.Resting? && result.last.Some? && result.last.value.Ok?
            && Chain(ed, origin, after.log) && after.mls.key == CurrentKey(origin, after.log)
            && after.keystore.Some? && after.keystore.value.key != after.mls.key
            && after.hw.verifyingKey == Some(after.keystore.value.key)
  {
    FirstFiveLocks(ed, core, a);
    var (between, first) := AdvanceBy(ed, core, Called(a), 5);
    StepsRefineRotateFull(ed, between, b);
    RotationSucceedsIffHonest(ed, between, b);
    var overtaken := RotateFull(ed, between, b).0;
    ChainGrows(ed, origin, core.log, RecordOf(core.mls.key, a, Preflight(core.mls.key, a).value));
    ChainGrows(ed, origin, between.log, RecordOf(between.mls.key, b, Preflight(between.mls.key, b).value));
    LastTwoLocks(ed, overtaken, first);
  }

  lemma LastTwoLocks(ed: Ed25519, core: Core, p: Progress)
    requires p.MlsSwapped?
    ensures var (after, q) := Finish(ed, core, p);
            && after == core.(keystore := Some(p.store),
                              hw := HwIdentityState(Some(p.artifact.newHandle), Some(p.artifact.newKey)))
            && q.Resting? && q.last.Some? && q.last.value.Ok?
  {
    var (c1, p1) := Advance(ed, core, p);
    var (c2, p2) := Advance(ed, c1, p1);
    assert Finish(ed, c1, p1) == (c2, p2);
  }
}
