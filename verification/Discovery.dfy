/** The error type shared by the discovery operations. */
module Discovery {
  import Oprf

  datatype KtBindKind = ProofMismatch | RootForked | ProofShapeInvalid | LeafPayloadMismatch

  datatype DiscoveryError =
    | OprfFailure(oprf: Oprf.OprfError)
    | KtBindFailed(kind: KtBindKind)
    | InvalidPsiBatchSize(got: nat, max: nat)
    | EntriesCountMismatch
    | CryptoInternal
    | InsufficientResponses(valid: nat, required: nat)
    | InputRejected
    | UsernameForgeDetected
}
