# MuSig2 nonce and partial-signature core, modelled in Dafny

This project models `src/modules/musig/session_impl.h` of secp256k1-zkp: the
nonce lifecycle and partial-signature logic of an early MuSig2 draft (two-round
Schnorr multi-signatures over secp256k1). It covers:

- the four opaque, magic-tagged structures (secret nonce, public/aggregate
  nonce, session, partial signature) as fixed-length byte strings with their
  save and load functions;
- the public 66-byte nonce and 32-byte partial-signature codecs;
- the input layout of the nonce-seed hash and `nonce_gen` with its folded
  validity flag;
- nonce aggregation with the "identity becomes G" rule;
- session building (`nonce_process`): nonce coefficient, final nonce, parity,
  challenge and the tweak term `s_part`;
- `partial_sign` with its unconditional clearing of the secret nonce,
  `partial_sig_verify`, and `partial_sig_agg`.

Group elements are modelled by their discrete logarithm with respect to G
(`Group.Point` is a scalar mod n; infinity is 0 and G is 1). Things a discrete
log cannot express are passed in as uninterpreted functions. The `Curve` value
carries the y parity, the x-only bytes, the compressed point codec and the
64-byte internal storage format. The `Hashes` value carries the
"MuSig/nonce", "MuSig/noncecoef" and BIP 340 "BIP0340/challenge" tagged
hashes and plain SHA256. The facts the proofs rely on are ghost predicates
that lemmas take as hypotheses:

- storage round-trips for non-infinity points;
- the compressed codec is a bijection on non-infinity points;
- negating a point keeps its x coordinate.

Collaborators outside the file are taken as already-loaded values. A key
aggregation cache (`Collaborators.KeyAggCache`) holds the aggregate key, the
tweak, the internal key parity and the coefficient function mu. A keypair is
its secret scalar. Loading either can fail (`Options.Handle`). Required
pointer arguments are not modelled as nullable, while the optional ones
(secret key, message, cache, extra input, adaptor) are `Option`s. Every
ARG_CHECK failure is an ordinary failure result.

The main result is `Signing.PartialSignVerifies`. For every nonce pair, secret
key, key aggregation cache and session, `partial_sig_verify` accepts the
partial signature `partial_sign` produces. It is checked against the public
nonce and the even-y lift of the signer's key. The signer negates its key on
`(pk_odd != agg_odd) != internal_key_parity` and the verifier negates the
challenge on `agg_odd != internal_key_parity`. These two rules agree once the
even-y lift is taken into account.

Three points follow the code where a looser reading of the protocol would
differ:

- The two nonce scalars are derived from the seed with plain SHA256 of
  seed ‖ i, not with a tagged hash.
- `s_part` takes its sign from the y parity of the key held in the cache. That
  key is the aggregate key after all tweaks.
- `partial_sig_agg` fails on an empty list and on a session with a wrong magic,
  not only on a partial signature with a wrong magic.

Files: `bytes.dfy` (big-endian bytes), `modarith.dfy` (congruences),
`scalars.dfy` (Z_n and 32-byte scalar encoding), `options.dfy`, `group.dfy`,
`collaborators.dfy`, `blobs.dfy`, `codec.dfy`, `noncegen.dfy`, `nonceagg.dfy`,
`session.dfy`, `signing.dfy`.

## Model

| member | source | states |
|---|---|---|
| Blobs.SecNonceSave | src/modules/musig/session_impl.h:23-29 | the buffer starts with the secnonce magic 22 0e dc f1 and holds k0 at bytes 4..36 and k1 at 36..68, big-endian |
| Blobs.SecNonceLoad | src/modules/musig/session_impl.h:31-42 | loading succeeds iff the magic matches and the two stored scalars (reduced mod n) are not both zero; on success it yields those reduced scalars |
| Blobs.SecNonceInvalidate | src/modules/musig/session_impl.h:44-51 | with the flag set the whole buffer is zero and no longer loads; with the flag clear it is unchanged |
| Blobs.SecNonceRoundTrip | src/modules/musig/session_impl.h:25-42 | a saved pair loads back as itself, except the pair (0, 0) which is refused |
| Blobs.ZeroSecNonceFails | src/modules/musig/session_impl.h:31-42 | an all-zero secret nonce never loads |
| Blobs.PubNonceSave | src/modules/musig/session_impl.h:53-63 | public and aggregate nonces are the pubnonce magic f5 7a 3d a0 followed by the two stored points |
| Blobs.PubNonceLoad | src/modules/musig/session_impl.h:65-83 | loading fails exactly when the magic is wrong, and otherwise yields the two stored points |
| Blobs.PubNonceRoundTrip | src/modules/musig/session_impl.h:57-75 | two non-infinity points saved into a nonce load back unchanged |
| Blobs.SessionSave | src/modules/musig/session_impl.h:85-109 | layout 4+1+32+32+32+32: magic 9d ed e9 17, parity byte, x-only final nonce, b, e, s_part |
| Blobs.SessionLoad | src/modules/musig/session_impl.h:111-126 | fails iff the magic is wrong; otherwise reads every field of the layout, scalars reduced mod n |
| Blobs.SessionRoundTrip | src/modules/musig/session_impl.h:95-126 | loading a saved session returns every field unchanged |
| Blobs.SessionLoadSave | src/modules/musig/session_impl.h:95-126 | a tagged session whose scalars are canonical is exactly the save of what it loads to |
| Blobs.PartialSigSave | src/modules/musig/session_impl.h:128-133 | magic eb fb 1a 32 followed by s big-endian |
| Blobs.PartialSigLoad | src/modules/musig/session_impl.h:135-143 | fails iff the magic is wrong; otherwise yields the stored scalar reduced mod n |
| Blobs.PartialSigRoundTrip | src/modules/musig/session_impl.h:130-143 | a saved scalar loads back as itself |
| Codec.PubNonceSerialize | src/modules/musig/session_impl.h:145-165 | serializing fails exactly when the nonce's magic is wrong |
| Codec.PubNonceParse | src/modules/musig/session_impl.h:167-194 | parsing succeeds iff both 33-byte halves parse to group points, and yields a tagged nonce |
| Codec.PubNonceParseSerialize | src/modules/musig/session_impl.h:145-186 | 66 bytes that parse serialize back to the same 66 bytes |
| Codec.PubNonceSerializeParse | src/modules/musig/session_impl.h:145-186 | a nonce of two non-infinity points serializes, and parsing the result gives the same nonce |
| Codec.PartialSigSerialize | src/modules/musig/session_impl.h:196-202 | the 32 output bytes denote the same number as the stored scalar bytes whatever the magic; for a tagged blob that number reduced mod n is the loaded scalar |
| Codec.PartialSigParse | src/modules/musig/session_impl.h:204-217 | rejects exactly the 32-byte inputs denoting a number ≥ n; an accepted input loads as that number |
| Codec.PartialSigParseSerialize | src/modules/musig/session_impl.h:196-217 | serializing a parsed partial signature returns the original 32 bytes |
| Codec.PartialSigSerializeParse | src/modules/musig/session_impl.h:196-217 | parsing a serialized partial signature returns the same partial signature |
| NonceGen.ReadFieldBytes | src/modules/musig/session_impl.h:246-256 | a length-prefixed field (0, or 32 and 32 bytes) can be read back off the front of any continuation |
| NonceGen.NonceHashInputRoundTrip | src/modules/musig/session_impl.h:240-256 | the seed-hash input session_id, then msg, key, agg_pk and extra, each present as 32 ‖ bytes or absent as 0, decodes back to those fields |
| NonceGen.NonceHashInputInjective | src/modules/musig/session_impl.h:240-256 | different presence patterns or different values always give different seed-hash inputs |
| NonceGen.NonceFunction | src/modules/musig/session_impl.h:228-267 | seed = H_nonce(seed-hash input) and k_i = int(SHA256(seed ‖ i)) mod n for the one-byte counter i = 0, 1 |
| NonceGen.NonceGen | src/modules/musig/session_impl.h:269-330 | returns 1 iff the cache loads (when given) and either there is no secret key and the session id is not all zero, or there is a valid secret key in 1..n-1. On 0 the secret nonce is all zero. A cache that fails to load leaves both outputs zero. Otherwise the public nonce is (k0·G, k1·G) even when returning 0, and on 1 the secret nonce stores (k0, k1) |
| NonceGen.NonceGenKeyPair | src/modules/musig/session_impl.h:313-328 | after a successful call with a nonzero derived pair, the secret nonce loads and the public nonce loads to the base-point multiples of its scalars |
| NonceAgg.SumNonces | src/modules/musig/session_impl.h:332-349 | fails iff some nonce has a bad magic; otherwise the two results are the sums of the first and of the second stored points |
| NonceAgg.NonceAgg | src/modules/musig/session_impl.h:351-373 | fails iff the list is empty or some nonce has a bad magic; otherwise component j is the sum of the j-th components, with G substituted for infinity |
| NonceAgg.AggNonceLoads | src/modules/musig/session_impl.h:363-371 | an aggregate nonce loads back to its two components, neither of which is infinity |
| Session.NonceCoefInput | src/modules/musig/session_impl.h:375-394 | the noncecoef hash input is compressed A0, compressed A1, agg_pk and msg (130 bytes), and fails exactly when A0 or A1 is infinity |
| Session.NonceProcessInternal | src/modules/musig/session_impl.h:375-419 | b = int(H_noncecoef(compressed A0 ‖ compressed A1 ‖ agg_pk ‖ msg)) mod n; succeeds iff A0, A1 and the final nonce A0 + b·A1 are all not infinity; on success holds b and the final nonce's x bytes and y parity |
| Session.Challenge | src/modules/musig/session_impl.h:457 | e = int(H_challenge(R.x ‖ P.x ‖ msg)) mod n, the BIP 340 challenge |
| Session.TweakTermUniform | src/modules/musig/session_impl.h:459-468 | s_part is 0 for a zero tweak and otherwise e·tweak, negated iff the aggregate key has odd y; both cases equal e·(±tweak) |
| Session.NonceProcess | src/modules/musig/session_impl.h:421-472 | succeeds iff the cache loads, the aggregate nonce has its magic, a given adaptor loads and nonce_process_internal succeeds on (A0 + adaptor, A1). The session then holds that call's parity (as 0/1), final nonce x bytes and b, the challenge e for R.x, P.x and msg, and s_part = e·(±tweak) with the sign from the aggregate key's parity |
| Session.NonceProcessFinalNonce | src/modules/musig/session_impl.h:443-455 | the session's final nonce is A0 (+ adaptor) + b·A1, never infinity; its x bytes and parity are the ones recorded |
| Signing.PartialSign | src/modules/musig/session_impl.h:480-618 | the secret nonce comes back all zero on every path; a signature is produced iff the secret nonce, keypair, cache and session all load; a produced signature carries the partial-signature magic and its scalar bytes are canonical (below n) |
| Signing.PartialSignSerializeParse | src/modules/musig/session_impl.h:196-217 | a signature partial_sign produces survives serialize then parse unchanged, so a coordinator that parses it accepts it |
| Signing.SecondPartialSignFails | src/modules/musig/session_impl.h:491-500 | a second call on the buffer a first call left behind always fails, whatever the arguments |
| Signing.ZeroCheck | src/modules/musig/session_impl.h:706-715 | -s·G + X + Y is the identity exactly when s = X + Y |
| Signing.PartialSigVerify | src/modules/musig/session_impl.h:620-716 | accepts iff every structure loads and s = e'·P + (±(R0 + b·R1)), where e' = ±(e·mu) is negated iff agg_odd differs from the internal key parity |
| Signing.PartialSignVerifies | src/modules/musig/session_impl.h:588-715 | completeness: the partial signature from nonce (k0, k1), key x, any cache and any session verifies against (k0·G, k1·G) and the even-y lift of x·G |
| Signing.NonceGenSignVerifies | src/modules/musig/session_impl.h:269-618 | a successful nonce_gen, with or without a secret key and with any cache or none, followed by partial_sign under any key and cache yields a signature that verifies against the generated public nonce |
| Signing.PartialSigVerifyUnique | src/modules/musig/session_impl.h:703-715 | two canonical partial signatures that both verify in the same context are identical, so any altered canonical signature is rejected |
| Signing.PartialSigAgg | src/modules/musig/session_impl.h:718-741 | fails iff the list is empty, the session magic is wrong or some partial signature's magic is wrong; otherwise the output is fin_nonce ‖ (s_part + Σ s_i mod n) |
| Signing.SecNonceBuffer.Sign | src/modules/musig/session_impl.h:491-500 | signing through a caller-owned buffer returns what partial_sign returns and leaves the buffer all zero |

## Left out

- Field and point arithmetic, `ecmult`/`ecmult_gen` and Jacobian conversions are replaced by the discrete-log model. `xonly_ge_serialize` is modelled only as "fails on infinity".
- SHA256 and the tagged hashes are uninterpreted. Only their input layouts are modelled; the BIP 340 challenge hash is reduced to its input R.x ‖ P.x ‖ msg.
- `eckey_pubkey_parse`/`serialize`, the subgroup check and `point_save`/`point_load` are uninterpreted functions. Their round-trip behaviour is a lemma hypothesis.
- Key aggregation cache internals, `musig_keyaggcoef`, `keypair_load`, `xonly_pubkey_load` and `pubkey_load` live in files that are not part of this model. Their results are inputs.
- Constant-time behaviour (`declassify`, branch-free `memczero`) and the clearing of stack scalars in `partial_sign_clear` are left out. A pure model cannot observe stack scalars.
- The ARG_CHECK that the signing context is built is left out. The illegal-argument callback is also left out: NULL required pointers are unrepresentable, and other ARG_CHECKs are plain failures.
- `pubnonce_serialize` clears its 66-byte output before failing; the model returns `None` instead.
- `partial_sig_load`'s `VERIFY_CHECK(!overflow)` is not asserted. An overflowing blob loads reduced mod n, as it does in a build without VERIFY.
- Signing.PartialSignVerifies: assumes k0 ≠ 0 and k1 ≠ 0. Point storage of infinity does not round-trip, and the source asserts these with VERIFY_CHECK (negligible probability).
- NonceGen.NonceGenKeyPair: assumes the derived nonce pair is nonzero, for the same reason.
- Signing.NonceGenSignVerifies: assumes the derived nonce pair is nonzero, for the same reason.
- Signing.PartialSigVerifyUnique: shows only that an accepted canonical signature is unique. Rejection under a different signer's key depends on the uninterpreted coefficient function and is not stated.
- Validity of the aggregate 64-byte signature under BIP 340 verification, for n signers and arbitrary tweak chains, needs the key aggregation relation, which belongs to the key aggregation module. Adaptor completion is also left out.
