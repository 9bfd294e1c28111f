/** What this model takes from collaborators it does not model: the hash
    functions (only their inputs are modelled) and the already-loaded
    contents of a key aggregation cache and a keypair. */
module Collaborators {
  import opened Bytes
  import opened Scalars
  import opened Group

  /** Hash functions, each returning a 32-byte digest. */
  datatype Hashes = Hashes(
    /** SHA256 tagged with "MuSig/nonce" */
    nonceTagged: seq<byte> -> Bytes32,
    /** plain SHA256 */
    sha256: seq<byte> -> Bytes32,
    /** SHA256 tagged with "MuSig/noncecoef" */
    noncecoefTagged: seq<byte> -> Bytes32,
    /** SHA256 tagged with "BIP0340/challenge" (section "Default Signing" of BIP 340) */
    challengeTagged: seq<byte> -> Bytes32
  )

  /** A loaded key aggregation cache: the (tweaked) aggregate public key, the
      accumulated tweak, the parity recorded for the internal key, and the
      per-signer key aggregation coefficient indexed by the signer's x-only
      public key bytes (`musig_keyaggcoef`). */
  datatype KeyAggCache = KeyAggCache(
    pk: Point,
    tweak: Scalar,
    internalKeyParity: bool,
    coef: Bytes32 -> Scalar
  )

  /** A loaded keypair; its public key is sk·G. */
  datatype Keypair = Keypair(sk: Scalar)

  function KeypairPk(kp: Keypair): (p: Point)
    ensures p == Mul(kp.sk, G)
  {
    BaseMul(kp.sk)
  }
}
