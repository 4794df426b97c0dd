/**
  The witness quorum: `verify_signed_epoch` of `umbrella-kt` and its two callers in `kt_monitor.rs`.
 */
module Witness {
  import opened Bytes
  import opened Signature

  const WITNESS_DOMAIN_SEP: seq<Byte> := Ascii("umbrellax-kt-witness-v1")

  const WITNESS_VERSION: Byte := 1

  datatype WitnessSignature = WitnessSignature(signer: Bytes32, signature: Bytes64)

  datatype SignedEpochRoot =
    SignedEpochRoot(epoch: U64, root: Bytes32, logSize: U64, timestamp: U64, signatures: seq<WitnessSignature>)

  datatype MonitorError =
    | InsufficientValidSignatures(valid: nat, required: nat)
    | SignedEpochMismatch
    | ExpectedSingleFrame
    | InvalidWire
    | Network

  /** `canonical_sign_payload`. */
  function SignPayload(epoch: U64, root: Bytes32, logSize: U64, timestamp: U64): (r: seq<Byte>)
    ensures |r| == 80
  {
    WITNESS_DOMAIN_SEP + ([WITNESS_VERSION] + (BigEndian(epoch, 8) + (root + (BigEndian(logSize, 8) +
      BigEndian(timestamp, 8)))))
  }

  /** A payload speaks about one epoch, root, size and time only. */
  lemma SignPayloadInjective(epoch: U64, root: Bytes32, logSize: U64, timestamp: U64,
                             epoch': U64, root': Bytes32, logSize': U64, timestamp': U64)
    requires SignPayload(epoch, root, logSize, timestamp) == SignPayload(epoch', root', logSize', timestamp')
    ensures epoch == epoch' && root == root' && logSize == logSize' && timestamp == timestamp'
  {
    var a2, b2 := BigEndian(logSize, 8) + BigEndian(timestamp, 8), BigEndian(logSize', 8) + BigEndian(timestamp', 8);
    var a1, b1 := BigEndian(epoch, 8) + (root + a2), BigEndian(epoch', 8) + (root' + b2);
    SplitConcat(WITNESS_DOMAIN_SEP, [WITNESS_VERSION] + a1, WITNESS_DOMAIN_SEP, [WITNESS_VERSION] + b1);
    SplitConcat([WITNESS_VERSION], a1, [WITNESS_VERSION], b1);
    SplitConcat(BigEndian(epoch, 8), root + a2, BigEndian(epoch', 8), root' + b2);
    SplitConcat(root, a2, root', b2);
    SplitConcat(BigEndian(logSize, 8), BigEndian(timestamp, 8), BigEndian(logSize', 8), BigEndian(timestamp', 8));
    Pow256Widths();
    BigEndianInjective(epoch, epoch', 8);
    BigEndianInjective(logSize, logSize', 8);
    BigEndianInjective(timestamp, timestamp', 8);
  }

  /** Where the fields stand in what a witness signs. */
  lemma SignPayloadLayout(epoch: U64, root: Bytes32, logSize: U64, timestamp: U64)
    ensures var b := SignPayload(epoch, root, logSize, timestamp);
            && b[..23] == WITNESS_DOMAIN_SEP && b[23] == 1 && b[24..32] == BigEndian(epoch, 8) && b[32..64] == root
            && b[64..72] == BigEndian(logSize, 8) && b[72..80] == BigEndian(timestamp, 8)
  {
    SixPieces(WITNESS_DOMAIN_SEP, [WITNESS_VERSION], BigEndian(epoch, 8), root, BigEndian(logSize, 8),
              BigEndian(timestamp, 8));
  }

  function PayloadOf(signed: SignedEpochRoot): seq<Byte> {
    SignPayload(signed.epoch, signed.root, signed.logSize, signed.timestamp)
  }

  /** Some signature of `w` in the list verifies over `payload`. */
  predicate SignedBy(ed: Ed25519, signatures: seq<WitnessSignature>, payload: seq<Byte>, w: Bytes32) {
    exists i :: 0 <= i < |signatures| && signatures[i].signer == w &&
      ed.isKey(w) && ed.verify(w, payload, signatures[i].signature)
  }

  /** The pinned witnesses with a valid signature on the epoch root. */
  function ValidSigners(ed: Ed25519, signed: SignedEpochRoot, pinned: set<Bytes32>): set<Bytes32> {
    set w | w in pinned && SignedBy(ed, signed.signatures, PayloadOf(signed), w)
  }

  lemma {:induction false} DistinctCount(s: seq<Bytes32>)
    requires forall i, j :: 0 <= i < j < |s| ==> s[i] != s[j]
    ensures |set x | x in s| == |s|
  {
    if s != [] {
      var n := |s| - 1;
      DistinctCount(s[..n]);
      assert (set x | x in s) == (set x | x in s[..n]) + {s[n]};
      assert s[n] !in s[..n];
    }
  }

  /** The error of a missed quorum: how many distinct pinned witnesses signed, none counted for a zero threshold. */
  function QuorumError(ed: Ed25519, signed: SignedEpochRoot, pinned: set<Bytes32>, threshold: nat): MonitorError {
    InsufficientValidSignatures(if threshold == 0 then 0 else |ValidSigners(ed, signed, pinned)|, threshold)
  }

  /** `verify_signed_epoch`: the deduplicating loop counts each valid pinned signer once. */
  method VerifySignedEpoch(ed: Ed25519, signed: SignedEpochRoot, pinned: set<Bytes32>, threshold: nat)
    returns (e: Option<MonitorError>)
    ensures e.None? <==> threshold > 0 && |ValidSigners(ed, signed, pinned)| >= threshold
    ensures e.Some? ==> e.value == QuorumError(ed, signed, pinned, threshold)
  {
    if threshold == 0 {
      return Some(InsufficientValidSignatures(0, threshold));
    }
    var payload := PayloadOf(signed);
    var counted: seq<Bytes32> := [];
    for k := 0 to |signed.signatures|
      invariant forall i, j :: 0 <= i < j < |counted| ==> counted[i] != counted[j]
      invariant forall w :: w in counted <==> w in pinned && SignedBy(ed, signed.signatures[..k], payload, w)
    {
      var sig := signed.signatures[k];
      SignedByGrows(ed, signed.signatures, payload, k);
      if sig.signer in pinned && sig.signer !in counted {
        if ed.isKey(sig.signer) {
          if ed.verify(sig.signer, payload, sig.signature) {
            counted := counted + [sig.signer];
          }
        }
      }
    }
    assert signed.signatures[..|signed.signatures|] == signed.signatures;
    DistinctCount(counted);
    assert ValidSigners(ed, signed, pinned) == set w | w in counted;
    if |counted| < threshold {
      return Some(InsufficientValidSignatures(|counted|, threshold));
    }
    return None;
  }

  lemma SignedByGrows(ed: Ed25519, signatures: seq<WitnessSignature>, payload: seq<Byte>, k: nat)
    requires k < |signatures|
    ensures forall w :: SignedBy(ed, signatures[..k + 1], payload, w) <==>
              || SignedBy(ed, signatures[..k], payload, w)
              || (signatures[k].signer == w && ed.isKey(w) && ed.verify(w, payload, signatures[k].signature))
  {
    var a, b := signatures[..k], signatures[..k + 1];
    assert b == a + [signatures[k]];
    forall w
      ensures SignedBy(ed, b, payload, w) <==>
              || SignedBy(ed, a, payload, w)
              || (signatures[k].signer == w && ed.isKey(w) && ed.verify(w, payload, signatures[k].signature))
    {
      if SignedBy(ed, a, payload, w) {
        var i :| 0 <= i < |a| && a[i].signer == w && ed.isKey(w) && ed.verify(w, payload, a[i].signature);
        assert b[i] == a[i];
      }
      if signatures[k].signer == w && ed.isKey(w) && ed.verify(w, payload, signatures[k].signature) {
        assert b[k] == signatures[k];
      }
    }
  }

  /** A client accepted `signed` as the root of `epoch`. */
  predicate Accepts(ed: Ed25519, pinned: set<Bytes32>, epoch: U64, threshold: nat, signed: SignedEpochRoot) {
    signed.epoch == epoch && threshold > 0 && |ValidSigners(ed, signed, pinned)| >= threshold
  }

  /** Entry `i` of the signatures is a valid signature of `w` over epoch, root, log size and time of `signed`. */
  predicate SignedAt(ed: Ed25519, signed: SignedEpochRoot, w: Bytes32, i: int) {
    && 0 <= i < |signed.signatures| && signed.signatures[i].signer == w && ed.isKey(w)
    && ed.verify(w, SignPayload(signed.epoch, signed.root, signed.logSize, signed.timestamp),
                 signed.signatures[i].signature)
  }

  /**
    What acceptance means: the root is of the epoch, and some `threshold` or more pinned witnesses, a positive number,
    each have a valid signature of their own among those served.
   */
  lemma AcceptedIffEnoughSigned(ed: Ed25519, pinned: set<Bytes32>, epoch: U64, threshold: nat, signed: SignedEpochRoot)
    ensures Accepts(ed, pinned, epoch, threshold, signed) <==>
            && signed.epoch == epoch && threshold > 0
            && exists signers: set<Bytes32> ::
                 signers <= pinned && |signers| >= threshold && forall w :: w in signers ==> HasSigned(ed, signed, w)
  {
    var valid := ValidSigners(ed, signed, pinned);
    forall w
      ensures HasSigned(ed, signed, w) <==> SignedBy(ed, signed.signatures, PayloadOf(signed), w)
    {
      if HasSigned(ed, signed, w) {
        var i :| SignedAt(ed, signed, w, i);
      }
      if SignedBy(ed, signed.signatures, PayloadOf(signed), w) {
        var i :| 0 <= i < |signed.signatures| && signed.signatures[i].signer == w && ed.isKey(w) &&
          ed.verify(w, PayloadOf(signed), signed.signatures[i].signature);
        assert SignedAt(ed, signed, w, i);
      }
    }
    assert valid <= pinned && forall w :: w in valid ==> HasSigned(ed, signed, w);
    forall signers: set<Bytes32> | signers <= pinned && forall w :: w in signers ==> HasSigned(ed, signed, w)
      ensures |signers| <= |valid|
    {
      SubsetSize(signers, valid);
    }
  }

  ghost predicate HasSigned(ed: Ed25519, signed: SignedEpochRoot, w: Bytes32) {
    exists i :: SignedAt(ed, signed, w, i)
  }

  /** `verify_kt_witness_signatures_for_epoch`, given what the transport had staged. */
  method VerifyStaged(ed: Ed25519, staged: Option<SignedEpochRoot>, pinned: set<Bytes32>, epoch: U64,
                      threshold: nat)
    returns (e: Option<MonitorError>)
    ensures e.None? <==> staged.Some? && Accepts(ed, pinned, epoch, threshold, staged.value)
    ensures staged.None? ==> e == Some(InsufficientValidSignatures(0, threshold))
    ensures e == Some(SignedEpochMismatch) <==> staged.Some? && staged.value.epoch != epoch
    ensures staged.Some? && staged.value.epoch == epoch && e.Some? ==>
              e.value == QuorumError(ed, staged.value, pinned, threshold)
  {
    if staged.None? {
      return Some(InsufficientValidSignatures(0, threshold));
    }
    if staged.value.epoch != epoch {
      return Some(SignedEpochMismatch);
    }
    e := VerifySignedEpoch(ed, staged.value, pinned, threshold);
  }

  /** `verify_kt_witness_signatures_for_epoch_via_fetcher`, given the fetched frames and the frame decoder. */
  method VerifyFetched(ed: Ed25519, frames: Option<seq<seq<Byte>>>, decode: seq<Byte> -> Option<SignedEpochRoot>,
                       pinned: set<Bytes32>, epoch: U64, threshold: nat)
    returns (e: Option<MonitorError>)
    ensures e.None? <==>
            && frames.Some? && |frames.value| == 1 && decode(frames.value[0]).Some?
            && Accepts(ed, pinned, epoch, threshold, decode(frames.value[0]).value)
    ensures e == Some(Network) <==> frames.None?
    ensures e == Some(ExpectedSingleFrame) <==> frames.Some? && |frames.value| != 1
    ensures e == Some(InvalidWire) <==> frames.Some? && |frames.value| == 1 && decode(frames.value[0]).None?
    ensures frames.Some? && |frames.value| == 1 && decode(frames.value[0]).Some? && e.Some? ==>
              var signed := decode(frames.value[0]).value;
              e.value == if signed.epoch != epoch then SignedEpochMismatch
                         else QuorumError(ed, signed, pinned, threshold)
  {
    if frames.None? {
      return Some(Network);
    }
    if |frames.value| != 1 {
      return Some(ExpectedSingleFrame);
    }
    var signed := decode(frames.value[0]);
    if signed.None? {
      return Some(InvalidWire);
    }
    if signed.value.epoch != epoch {
      return Some(SignedEpochMismatch);
    }
    e := VerifySignedEpoch(ed, signed.value, pinned, threshold);
  }

  /** The witness vouched for `root` as the root of `epoch`. */
  ghost predicate Vouched(ed: Ed25519, w: Bytes32, epoch: U64, root: Bytes32) {
    exists logSize: U64, timestamp: U64, signature: Bytes64 ::
      ed.isKey(w) && ed.verify(w, SignPayload(epoch, root, logSize, timestamp), signature)
  }

  lemma SubsetSize(a: set<Bytes32>, b: set<Bytes32>)
    requires a <= b
    ensures |a| <= |b|
  {
    assert b == a + (b - a);
  }

  /**
    Split view: when two clients with the same pinned witnesses accept different roots for one epoch, at least
    `2 * threshold - n` pinned witnesses vouched for both, over two different payloads.
   */
  lemma SplitViewNeedsDoubleSigners(ed: Ed25519, pinned: set<Bytes32>, epoch: U64, threshold: nat,
                                    one: SignedEpochRoot, two: SignedEpochRoot)
    requires Accepts(ed, pinned, epoch, threshold, one) && Accepts(ed, pinned, epoch, threshold, two)
    requires one.root != two.root
    ensures var both := ValidSigners(ed, one, pinned) * ValidSigners(ed, two, pinned);
            && |both| >= 2 * threshold - |pinned|
            && PayloadOf(one) != PayloadOf(two)
            && forall w :: w in both ==>
                 w in pinned && Vouched(ed, w, epoch, one.root) && Vouched(ed, w, epoch, two.root)
  {
    var a, b := ValidSigners(ed, one, pinned), ValidSigners(ed, two, pinned);
    SubsetSize(a + b, pinned);
    assert |a + b| + |a * b| == |a| + |b|;
    if PayloadOf(one) == PayloadOf(two) {
      SignPayloadInjective(one.epoch, one.root, one.logSize, one.timestamp,
                           two.epoch, two.root, two.logSize, two.timestamp);
    }
  }

  /** So with fewer double signers than that, all clients of an epoch agree on the root. */
  lemma FewDoubleSignersAgree(ed: Ed25519, pinned: set<Bytes32>, epoch: U64, threshold: nat,
                              one: SignedEpochRoot, two: SignedEpochRoot, liars: set<Bytes32>)
    requires Accepts(ed, pinned, epoch, threshold, one) && Accepts(ed, pinned, epoch, threshold, two)
    requires forall w, r, r' :: Vouched(ed, w, epoch, r) && Vouched(ed, w, epoch, r') && r != r' ==> w in liars
    requires |liars| < 2 * threshold - |pinned|
    ensures one.root == two.root
  {
    if one.root != two.root {
      SplitViewNeedsDoubleSigners(ed, pinned, epoch, threshold, one, two);
      SubsetSize(ValidSigners(ed, one, pinned) * ValidSigners(ed, two, pinned), liars);
    }
  }
}
