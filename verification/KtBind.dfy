/** Binding a discovery answer to the key-transparency tree (`kt_bind.rs`). */
module KtBind {
  import opened Bytes
  import opened Discovery
  import opened Merkle
  import opened Wire

  const DISCOVERY_LEAF_DOMAIN: seq<Byte> := Ascii("umbrella-r7/discovery/kt-leaf/v1")

  /** `canonical_leaf_payload`; the two length bytes are cut off as by the source's `as u16`. */
  function CanonicalLeafPayload(kind: Byte, handle: seq<Byte>, pk: Bytes32, epoch: U64): (r: seq<Byte>)
    ensures |r| == |DISCOVERY_LEAF_DOMAIN| + 1 + 2 + |handle| + 32 + 8
  {
    DISCOVERY_LEAF_DOMAIN + ([kind] + (BigEndian(|handle|, 2) + (handle + (pk + BigEndian(epoch, 8)))))
  }

  /** A payload determines all four of its parts, even for handles too long for their length field. */
  lemma PayloadInjective(kind: Byte, handle: seq<Byte>, pk: Bytes32, epoch: U64,
                         kind': Byte, handle': seq<Byte>, pk': Bytes32, epoch': U64)
    requires CanonicalLeafPayload(kind, handle, pk, epoch) == CanonicalLeafPayload(kind', handle', pk', epoch')
    ensures kind == kind' && handle == handle' && pk == pk' && epoch == epoch'
  {
    var a3, b3 := pk + BigEndian(epoch, 8), pk' + BigEndian(epoch', 8);
    var a2, b2 := BigEndian(|handle|, 2) + (handle + a3), BigEndian(|handle'|, 2) + (handle' + b3);
    SplitConcat(DISCOVERY_LEAF_DOMAIN, [kind] + a2, DISCOVERY_LEAF_DOMAIN, [kind'] + b2);
    SplitConcat([kind], a2, [kind'], b2);
    SplitConcat(BigEndian(|handle|, 2), handle + a3, BigEndian(|handle'|, 2), handle' + b3);
    SplitConcat(handle, a3, handle', b3);
    SplitConcat(pk, BigEndian(epoch, 8), pk', BigEndian(epoch', 8));
    Pow256Widths();
    BigEndianInjective(epoch, epoch', 8);
  }

  /** Where the parts stand in a leaf. */
  lemma PayloadLayout(kind: Byte, handle: seq<Byte>, pk: Bytes32, epoch: U64)
    ensures var b, d := CanonicalLeafPayload(kind, handle, pk, epoch), |DISCOVERY_LEAF_DOMAIN|;
            var at := d + 3 + |handle|;
            && b[..d] == DISCOVERY_LEAF_DOMAIN && b[d] == kind && b[d + 1..d + 3] == BigEndian(|handle|, 2)
            && b[d + 3..at] == handle && b[at..at + 32] == pk && b[at + 32..] == BigEndian(epoch, 8)
  {
    SixPieces(DISCOVERY_LEAF_DOMAIN, [kind], BigEndian(|handle|, 2), handle, pk, BigEndian(epoch, 8));
  }

  /** `DiscoveryBindExpectation`. */
  datatype Expectation = Expectation(
    epoch: U64,
    pinnedEpochRoot: Bytes32,
    expectedDevicePubkey: Option<Bytes32>,
    handleKind: Byte,
    handle: seq<Byte>)
  {
    function PayloadFor(pk: Bytes32): seq<Byte> {
      CanonicalLeafPayload(handleKind, handle, pk, epoch)
    }

    /** The proof carries the leaf of this handle and epoch for the key `pk`, and `pk` is not an unexpected key. */
    predicate Names(proof: KtInclusionProof, pk: Bytes32) {
      proof.leafPayload == PayloadFor(pk) && (expectedDevicePubkey.None? || expectedDevicePubkey.value == pk)
    }
  }

  /** What it means for a proof to bind the expected handle to the key `pk`. */
  predicate Binds(h: Hasher, proof: KtInclusionProof, e: Expectation, pk: Bytes32) {
    && proof.epochRoot == e.pinnedEpochRoot
    && e.Names(proof, pk)
    && Included(h, LeafHash(h, proof.leafPayload), proof.leafIndex, proof.treeSize, proof.siblings, proof.epochRoot)
  }

  /** The shape checks of the inclusion proof. */
  predicate WellShaped(proof: KtInclusionProof) {
    && proof.leafIndex < proof.treeSize
    && |proof.siblings| == |Turns(proof.leafIndex, proof.treeSize - 1)|
  }

  /** The key that stands in a payload laid out for a handle of the given length. */
  lemma ExtractedKey(e: Expectation, payload: seq<Byte>, off: nat)
    requires off == |DISCOVERY_LEAF_DOMAIN| + 1 + 2 + |e.handle| && |payload| == off + 40
    ensures forall pk: Bytes32 | payload == e.PayloadFor(pk) :: pk == payload[off..off + 32]
  {
    forall pk: Bytes32 | payload == e.PayloadFor(pk)
      ensures pk == payload[off..off + 32]
    {
      var head := DISCOVERY_LEAF_DOMAIN + ([e.handleKind] + (BigEndian(|e.handle|, 2) + e.handle));
      assert e.PayloadFor(pk) == head + (pk + BigEndian(e.epoch, 8));
      assert (head + (pk + BigEndian(e.epoch, 8)))[off..off + 32] == pk;
    }
  }

  /** `verify_discovery_bind`. */
  method VerifyDiscoveryBind(h: Hasher, proof: KtInclusionProof, e: Expectation)
    returns (r: Result<Bytes32, KtBindKind>)
    ensures r.Ok? ==> Binds(h, proof, e, r.value)
    ensures forall pk | Binds(h, proof, e, pk) :: r == Ok(pk)
    ensures r == Err(RootForked) <==> proof.epochRoot != e.pinnedEpochRoot
    ensures r == Err(LeafPayloadMismatch) <==>
            proof.epochRoot == e.pinnedEpochRoot && forall pk :: !e.Names(proof, pk)
    ensures r == Err(ProofShapeInvalid) <==>
            proof.epochRoot == e.pinnedEpochRoot && (exists pk :: e.Names(proof, pk)) && !WellShaped(proof)
  {
    if proof.epochRoot != e.pinnedEpochRoot {
      return Err(RootForked);
    }
    var off := |DISCOVERY_LEAF_DOMAIN| + 1 + 2 + |e.handle|;
    if |proof.leafPayload| != off + 32 + 8 {
      return Err(LeafPayloadMismatch);
    }
    var extracted: Bytes32 := proof.leafPayload[off..off + 32];
    ExtractedKey(e, proof.leafPayload, off);
    if e.expectedDevicePubkey.Some? && extracted != e.expectedDevicePubkey.value {
      return Err(LeafPayloadMismatch);
    }
    var reconstructed := CanonicalLeafPayload(e.handleKind, e.handle, extracted, e.epoch);
    if reconstructed != proof.leafPayload {
      return Err(LeafPayloadMismatch);
    }
    assert e.Names(proof, extracted);
    var leaf := LeafHash(h, proof.leafPayload);
    var fault := VerifyInclusion(h, leaf, proof.leafIndex, proof.treeSize, proof.siblings, proof.epochRoot);
    match fault {
      case None => r := Ok(extracted);
      case Some(InclusionRootMismatch) => r := Err(ProofMismatch);
      case Some(InvalidProofLength) => r := Err(ProofShapeInvalid);
      case Some(LeafIndexOutOfRange) => r := Err(ProofShapeInvalid);
      case Some(EmptyTree) => r := Err(ProofShapeInvalid);
    }
  }

  /** The strings at which a proof departs from the tree over `leaves`. */
  function ProofDeparture(h: Hasher, leaves: seq<seq<Byte>>, proof: KtInclusionProof): (seq<Byte>, seq<Byte>) {
    InclusionDeparture(h, leaves, proof.leafPayload, proof.leafIndex, proof.treeSize, proof.siblings)
  }

  /**
    An accepted key is in the pinned tree: if the pinned root is the root over `leaves`, the payload for the key is one
    of `leaves` whatever index and size the proof claims, or the proof yields a hash collision.
   */
  lemma BoundKeyIsLogged(h: Hasher, leaves: seq<seq<Byte>>, proof: KtInclusionProof, e: Expectation, pk: Bytes32)
    requires Binds(h, proof, e, pk) && MerkleRoot(h, LeafHashes(h, leaves)) == e.pinnedEpochRoot
    ensures e.PayloadFor(pk) in leaves || IsCollision(h, ProofDeparture(h, leaves, proof))
  {
    IncludedSound(h, leaves, proof.leafPayload, proof.leafIndex, proof.treeSize, proof.siblings, proof.epochRoot);
  }

  /** The tree holds at most one leaf for this handle and epoch. */
  ghost predicate OneKeyLogged(leaves: seq<seq<Byte>>, e: Expectation) {
    forall pk, pk' | e.PayloadFor(pk) in leaves && e.PayloadFor(pk') in leaves :: pk == pk'
  }

  /** So two accepted proofs against one tree agree on the key, whatever keys the clients expected. */
  lemma BoundKeyIsUnique(h: Hasher, leaves: seq<seq<Byte>>, e: Expectation, e': Expectation, proof: KtInclusionProof,
                         pk: Bytes32, proof': KtInclusionProof, pk': Bytes32)
    requires e'.(expectedDevicePubkey := None) == e.(expectedDevicePubkey := None)
    requires MerkleRoot(h, LeafHashes(h, leaves)) == e.pinnedEpochRoot && OneKeyLogged(leaves, e)
    requires Binds(h, proof, e, pk) && Binds(h, proof', e', pk')
    ensures || pk == pk'
            || IsCollision(h, ProofDeparture(h, leaves, proof))
            || IsCollision(h, ProofDeparture(h, leaves, proof'))
  {
    BoundKeyIsLogged(h, leaves, proof, e, pk);
    BoundKeyIsLogged(h, leaves, proof', e', pk');
    assert e'.PayloadFor(pk') == e.PayloadFor(pk');
  }

  /** The proof an honest log serves for leaf `index`. */
  function HonestProof(h: Hasher, leaves: seq<seq<Byte>>, index: nat): KtInclusionProof
    requires index < |leaves| < 0x1_0000_0000_0000_0000
  {
    var hashes := LeafHashes(h, leaves);
    KtInclusionProof(MerkleRoot(h, hashes), |leaves|, index, leaves[index], AuditPath(h, hashes, index))
  }

  /** An honest proof is accepted with the key its leaf carries. */
  lemma HonestProofBinds(h: Hasher, leaves: seq<seq<Byte>>, index: nat, e: Expectation, pk: Bytes32)
    requires index < |leaves| < 0x1_0000_0000_0000_0000
    requires MerkleRoot(h, LeafHashes(h, leaves)) == e.pinnedEpochRoot
    requires e.Names(HonestProof(h, leaves, index), pk)
    ensures Binds(h, HonestProof(h, leaves, index), e, pk)
  {
    AuditPathVerifies(h, LeafHashes(h, leaves), index);
  }
}
