/** A key-transparency mirror (`authorization_entries.rs`) that replays the rotation entries a client published. */
module RotationMirror {
  import opened Bytes
  import opened Signature
  import opened RotationRecord
  import opened Rotation
  import opened Witness

  /** The part of `KtLogState` that decides about rotation entries. */
  datatype Mirror = Mirror(current: Option<Bytes32>, recoveryProof: Option<Bytes32>, epoch: U64, root: Bytes32)

  /** The witnesses a mirror pins and how many of them must sign. */
  datatype Quorum = Quorum(pinned: set<Bytes32>, threshold: nat)

  datatype MirrorError =
    | Undecodable
    | MissedQuorum(cause: MonitorError) | EpochRegression
    | RotationIdenticalPubkeys | RotationDualSignatureFailed
    | RotationOldIdentityMismatch | CodeRecoveryProofMismatch

  /** `verify_epoch_transition`: the error, if any. */
  function EpochFault(ed: Ed25519, quorum: Quorum, last: U64, signed: SignedEpochRoot): Option<MirrorError> {
    if quorum.threshold == 0 || |ValidSigners(ed, signed, quorum.pinned)| < quorum.threshold then
      Some(MissedQuorum(QuorumError(ed, signed, quorum.pinned, quorum.threshold)))
    else if signed.epoch < last then Some(EpochRegression)
    else None
  }

  /** `apply_identity_rotation` on the identity, the recovery proof and the epoch. */
  function ApplyRotation(ed: Ed25519, quorum: Quorum, m: Mirror, r: Record, signed: SignedEpochRoot)
    : Result<Mirror, MirrorError>
  {
    var fault := EpochFault(ed, quorum, m.epoch, signed);
    if fault.Some? then Err(fault.value)
    else if r.oldKey == r.newKey then Err(RotationIdenticalPubkeys)
    else if Verify(ed, r).Some? then Err(RotationDualSignatureFailed)
    else if m.current.Some? && m.current.value != r.oldKey then Err(RotationOldIdentityMismatch)
    else if m.recoveryProof.Some? && m.recoveryProof.value != r.recoveryProof then Err(CodeRecoveryProofMismatch)
    else Ok(Mirror(Some(r.newKey), Some(r.recoveryProof), signed.epoch, signed.root))
  }

  /** Every refusal with its reason, in the order of the checks. */
  lemma RefusalReasons(ed: Ed25519, quorum: Quorum, m: Mirror, r: Record, signed: SignedEpochRoot)
    ensures var applied := ApplyRotation(ed, quorum, m, r, signed);
            var signers := |ValidSigners(ed, signed, quorum.pinned)|;
            var inEpoch := 0 < quorum.threshold <= signers && signed.epoch >= m.epoch;
            var good := inEpoch && r.oldKey != r.newKey && Verify(ed, r).None?;
            var linked := good && (m.current.Some? ==> m.current.value == r.oldKey);
            && (applied.Err? && applied.error.MissedQuorum? <==> !(0 < quorum.threshold <= signers))
            && (applied == Err(EpochRegression) <==> 0 < quorum.threshold <= signers && signed.epoch < m.epoch)
            && (applied == Err(RotationIdenticalPubkeys) <==> inEpoch && r.oldKey == r.newKey)
            && (applied == Err(RotationDualSignatureFailed) <==> inEpoch && r.oldKey != r.newKey && !good)
            && (applied == Err(RotationOldIdentityMismatch) <==> good && !linked)
            && (applied == Err(CodeRecoveryProofMismatch) <==>
                linked && m.recoveryProof.Some? && m.recoveryProof.value != r.recoveryProof)
  {
  }

  /** Decode an entry and apply it. */
  function Accept(ed: Ed25519, quorum: Quorum, m: Mirror, entry: seq<Byte>, signed: SignedEpochRoot)
    : Result<Mirror, MirrorError>
  {
    match DecodeEntry(entry)
    case Err(_) => Err(Undecodable)
    case Ok(record) => ApplyRotation(ed, quorum, m, record, signed)
  }

  /** A mirror that decodes and applies every entry of a log in order, each under its own signed epoch root. */
  function Replay(ed: Ed25519, quorum: Quorum, m: Mirror, log: seq<seq<Byte>>, roots: seq<SignedEpochRoot>)
    : Result<Mirror, MirrorError>
    requires |roots| == |log|
  {
    if log == [] then Ok(m)
    else
      var n := |log| - 1;
      match Replay(ed, quorum, m, log[..n], roots[..n])
      case Err(e) => Err(e)
      case Ok(before) => Accept(ed, quorum, before, log[n], roots[n])
  }

  /** The proof carried by entry `i`. */
  function ProofAt(log: seq<seq<Byte>>, i: nat): Option<Bytes32>
    requires i < |log|
  {
    if DecodeEntry(log[i]).Ok? then Some(DecodeEntry(log[i]).value.recoveryProof) else None
  }

  /** All entries carry one proof: the stored one, or, when none is stored, the first published one. */
  predicate OneProof(stored: Option<Bytes32>, log: seq<seq<Byte>>) {
    forall i :: 0 <= i < |log| ==> ProofAt(log, i) == if stored.Some? then stored else ProofAt(log, 0)
  }

  /** The epoch a mirror has reached behind `roots`. */
  function EpochBehind(last: U64, roots: seq<SignedEpochRoot>): U64 {
    if roots == [] then last else roots[|roots| - 1].epoch
  }

  /** Every root has its quorum and no epoch is older than the one before it. */
  predicate EpochsAdvance(ed: Ed25519, quorum: Quorum, last: U64, roots: seq<SignedEpochRoot>) {
    roots == [] ||
    var n := |roots| - 1;
    && EpochsAdvance(ed, quorum, last, roots[..n])
    && 0 < quorum.threshold <= |ValidSigners(ed, roots[n], quorum.pinned)|
    && roots[n].epoch >= EpochBehind(last, roots[..n])
  }

  lemma LinkPrefix(ed: Ed25519, origin: Bytes32, log: seq<seq<Byte>>, n: nat, i: nat)
    requires i < n <= |log|
    ensures Link(ed, origin, log[..n], i) <==> Link(ed, origin, log, i)
  {
    assert log[..n][i] == log[i];
    assert KeyAt(origin, log[..n], i) == KeyAt(origin, log, i);
  }

  lemma ChainPrefix(ed: Ed25519, origin: Bytes32, log: seq<seq<Byte>>, n: nat)
    requires n <= |log|
    ensures Chain(ed, origin, log[..n]) <==> forall i :: 0 <= i < n ==> Link(ed, origin, log, i)
  {
    forall i | 0 <= i < n
      ensures Link(ed, origin, log[..n], i) <==> Link(ed, origin, log, i)
    {
      LinkPrefix(ed, origin, log, n, i);
    }
  }

  lemma ChainSplits(ed: Ed25519, origin: Bytes32, log: seq<seq<Byte>>)
    requires log != []
    ensures var n := |log| - 1;
            Chain(ed, origin, log) <==> Chain(ed, origin, log[..n]) && Link(ed, origin, log, n)
  {
    ChainPrefix(ed, origin, log, |log| - 1);
  }

  lemma OneProofSplits(stored: Option<Bytes32>, log: seq<seq<Byte>>)
    requires log != []
    ensures OneProof(stored, log) <==>
            && OneProof(stored, log[..|log| - 1])
            && ProofAt(log, |log| - 1) == if stored.Some? then stored else ProofAt(log, 0)
  {
    var before := log[..|log| - 1];
    assert forall i :: 0 <= i < |before| ==> ProofAt(before, i) == ProofAt(log, i);
  }

  /** The key a mirror measures a log against: its own or, when it has none, the old key of the first entry. */
  predicate StartsAt(m: Mirror, log: seq<seq<Byte>>, origin: Bytes32) {
    match m.current
    case Some(key) => key == origin
    case None => log != [] ==> DecodeEntry(log[0]).Ok? && DecodeEntry(log[0]).value.oldKey == origin
  }

  /** A mirror that has replayed the log. */
  predicate InStep(origin: Bytes32, m: Mirror, log: seq<seq<Byte>>, roots: seq<SignedEpochRoot>, after: Mirror)
    requires |roots| == |log|
  {
    if log == [] then after == m
    else
      var last := roots[|roots| - 1];
      after == Mirror(Some(CurrentKey(origin, log)), ProofAt(log, |log| - 1), last.epoch, last.root)
  }

  /** What a mirror in step with a log does with the entry after it. */
  lemma MirrorStep(ed: Ed25519, quorum: Quorum, origin: Bytes32, m: Mirror, before: Mirror, log: seq<seq<Byte>>, n: nat,
                   signed: SignedEpochRoot)
    requires n < |log| && StartsAt(m, log, origin)
    requires before.current == (if n == 0 then m.current else Some(KeyAt(origin, log, n)))
    ensures var r := Accept(ed, quorum, before, log[n], signed);
            && (r.Ok? <==>
                && EpochFault(ed, quorum, before.epoch, signed).None?
                && Link(ed, origin, log, n)
                && (before.recoveryProof.Some? ==> before.recoveryProof == ProofAt(log, n)))
            && (r.Ok? ==> r.value ==
                          Mirror(Some(KeyAt(origin, log, n + 1)), ProofAt(log, n), signed.epoch, signed.root))
            && (r.Err? && EpochFault(ed, quorum, before.epoch, signed).None? && Link(ed, origin, log, n) ==>
                r.error == CodeRecoveryProofMismatch)
  {
  }

  /** In a log whose proofs agree so far, the stored proof of a mirror in step with it is the one to compare with. */
  lemma ProofToCompare(ed: Ed25519, origin: Bytes32, stored: Option<Bytes32>, log: seq<seq<Byte>>, n: nat)
    requires n < |log| && Chain(ed, origin, log[..n]) && OneProof(stored, log[..n])
    ensures ProofAt(log, n) == (if stored.Some? then stored else ProofAt(log, 0)) <==>
            var held := if n == 0 then stored else ProofAt(log[..n], n - 1);
            held.Some? ==> held == ProofAt(log, n)
  {
    if n > 0 {
      assert Link(ed, origin, log[..n], n - 1);
      assert ProofAt(log[..n], 0) == ProofAt(log, 0);
      assert ProofAt(log[..n], n - 1) == if stored.Some? then stored else ProofAt(log[..n], 0);
    }
  }

  /** From a replayed prefix to the whole log. */
  lemma ReplayStep(ed: Ed25519, quorum: Quorum, origin: Bytes32, m: Mirror, log: seq<seq<Byte>>,
                   roots: seq<SignedEpochRoot>, n: nat, before: Mirror)
    requires |roots| == |log| == n + 1 && StartsAt(m, log, origin)
    requires Chain(ed, origin, log[..n]) && OneProof(m.recoveryProof, log[..n])
    requires InStep(origin, m, log[..n], roots[..n], before)
    ensures var after := Accept(ed, quorum, before, log[n], roots[n]);
            && (after.Ok? <==>
                && Link(ed, origin, log, n)
                && ProofAt(log, n) == (if m.recoveryProof.Some? then m.recoveryProof else ProofAt(log, 0))
                && EpochFault(ed, quorum, EpochBehind(m.epoch, roots[..n]), roots[n]).None?)
            && (after.Ok? ==> after.value.current == Some(KeyAt(origin, log, n + 1)))
            && (after.Ok? ==>
                  after.value == Mirror(after.value.current, ProofAt(log, n), roots[n].epoch, roots[n].root))
  {
    ProofToCompare(ed, origin, m.recoveryProof, log, n);
    assert CurrentKey(origin, log[..n]) == KeyAt(origin, log, n);
    MirrorStep(ed, quorum, origin, m, before, log, n, roots[n]);
  }

  lemma {:induction false} MirrorAcceptsFrom(ed: Ed25519, quorum: Quorum, origin: Bytes32, m: Mirror,
                                             log: seq<seq<Byte>>, roots: seq<SignedEpochRoot>)
    requires |roots| == |log| && StartsAt(m, log, origin)
    ensures Replay(ed, quorum, m, log, roots).Ok? <==>
            && Chain(ed, origin, log)
            && OneProof(m.recoveryProof, log)
            && EpochsAdvance(ed, quorum, m.epoch, roots)
    ensures Replay(ed, quorum, m, log, roots).Ok? ==>
              InStep(origin, m, log, roots, Replay(ed, quorum, m, log, roots).value)
  {
    if log != [] {
      var n := |log| - 1;
      MirrorAcceptsFrom(ed, quorum, origin, m, log[..n], roots[..n]);
      ChainSplits(ed, origin, log);
      OneProofSplits(m.recoveryProof, log);
      if Replay(ed, quorum, m, log[..n], roots[..n]).Ok? {
        ReplayStep(ed, quorum, origin, m, log, roots, n, Replay(ed, quorum, m, log[..n], roots[..n]).value);
      }
    }
  }

  /**
    A mirror accepts a published log exactly when the log is a chain, from the mirror's own key if it has one, all its
    records carry the one recovery proof, and the epochs under which they are served have their quorum and never
    regress. It then holds the chain's current key. The publishing side never compares proofs.
   */
  lemma MirrorAcceptsIff(ed: Ed25519, quorum: Quorum, m: Mirror, log: seq<seq<Byte>>, roots: seq<SignedEpochRoot>)
    requires |roots| == |log|
    ensures Replay(ed, quorum, m, log, roots).Ok? <==>
            && (exists origin :: (m.current.Some? ==> m.current.value == origin) && Chain(ed, origin, log))
            && OneProof(m.recoveryProof, log)
            && EpochsAdvance(ed, quorum, m.epoch, roots)
    ensures forall origin | Replay(ed, quorum, m, log, roots).Ok? && log != [] ::
              Replay(ed, quorum, m, log, roots).value.current == Some(CurrentKey(origin, log))
  {
    var start := if m.current.Some? then m.current.value
                 else if log != [] && DecodeEntry(log[0]).Ok? then DecodeEntry(log[0]).value.oldKey
                 else seq(32, _ => 0);
    if log != [] && m.current.None? && DecodeEntry(log[0]).Err? {
      RefusesUndecodable(ed, quorum, m, log, roots);
      forall origin
        ensures !Chain(ed, origin, log)
      {
        assert !Link(ed, origin, log, 0);
      }
    } else {
      MirrorAcceptsFrom(ed, quorum, start, m, log, roots);
      forall origin | (m.current.Some? ==> m.current.value == origin) && Chain(ed, origin, log)
        ensures Chain(ed, start, log)
      {
        if log != [] {
          assert Link(ed, origin, log, 0);
        }
        assert log == [] || origin == start;
      }
    }
  }

  lemma {:induction false} RefusesUndecodable(ed: Ed25519, quorum: Quorum, m: Mirror, log: seq<seq<Byte>>,
                                              roots: seq<SignedEpochRoot>)
    requires |roots| == |log| && log != [] && DecodeEntry(log[0]).Err?
    ensures Replay(ed, quorum, m, log, roots).Err?
  {
    if |log| > 1 {
      RefusesUndecodable(ed, quorum, m, log[..|log| - 1], roots[..|log| - 1]);
    }
  }

  /**
    The publishing side never compares recovery proofs: two successful attempts with different proofs leave a chain
    that every mirror refuses, whatever it holds and whoever signs the epochs.
   */
  lemma DifferentProofsRefused(ed: Ed25519, origin: Bytes32, core: Core, a: Attempt, b: Attempt, quorum: Quorum,
                               m: Mirror, roots: seq<SignedEpochRoot>)
    requires Coherent(ed, origin, core) && a.recoveryProof != b.recoveryProof
    requires RotateFull(ed, core, a).1.Ok? && RotateFull(ed, RotateFull(ed, core, a).0, b).1.Ok?
    requires |roots| == |core.log| + 2
    ensures var log := Serial(ed, core, [a, b]).log;
            Chain(ed, origin, log) && |log| == |roots| && Replay(ed, quorum, m, log, roots).Err?
  {
    TwoAttempts(ed, core, a, b);
    SerialRotationsFormChain(ed, origin, core, [a, b]);
    var n, one, log := |core.log|, RotateFull(ed, core, a).0, Serial(ed, core, [a, b]).log;
    EntryOf(ed, core, a);
    EntryOf(ed, one, b);
    assert log[n] == log[..n + 1][n] == one.log[n];
    assert ProofAt(log, n) == Some(a.recoveryProof) && ProofAt(log, n + 1) == Some(b.recoveryProof);
    MirrorAcceptsIff(ed, quorum, m, log, roots);
  }

  lemma TwoAttempts(ed: Ed25519, core: Core, a: Attempt, b: Attempt)
    ensures Serial(ed, core, [a, b]) == RotateFull(ed, RotateFull(ed, core, a).0, b).0
  {
    var none: seq<Attempt>, one: seq<Attempt>, two: seq<Attempt> := [], [a], [a, b];
    assert one[..0] == none && two[..1] == one;
    assert Serial(ed, core, none) == core;
    assert Serial(ed, core, one) == RotateFull(ed, Serial(ed, core, one[..0]), one[0]).0;
    assert Serial(ed, core, two) == RotateFull(ed, Serial(ed, core, two[..1]), two[1]).0;
  }

  /** What a successful rotation appends. */
  lemma EntryOf(ed: Ed25519, core: Core, a: Attempt)
    requires RotateFull(ed, core, a).1.Ok?
    ensures var log := RotateFull(ed, core, a).0.log;
            |log| == |core.log| + 1 && log[..|core.log|] == core.log
            && ProofAt(log, |core.log|) == Some(a.recoveryProof)
  {
    DecodeEncoded(RecordOf(core.mls.key, a, Preflight(core.mls.key, a).value));
  }
}
