/** Ed25519 as the other modules use it. */
module Signature {
  import opened Bytes

  /** Which strings decode to a verifying key, and signature verification. */
  datatype Ed25519 = Ed25519(isKey: Bytes32 -> bool, verify: (Bytes32, seq<Byte>, Bytes64) -> bool)
}
