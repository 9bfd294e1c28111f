/** Partial signing, partial signature verification and partial signature
    aggregation, with the completeness of verification for honest signers
    and the single use of every secret nonce. */
module Signing {
  import opened Bytes
  import opened Scalars
  import opened Options
  import opened Group
  import opened Collaborators
  import opened Blobs
  import opened ModArith
  import Codec
  import NonceGen

  /** Output of `partial_sign`: what is left in the secret nonce buffer and
      the partial signature, if one was produced. */
  datatype SignOutcome = SignOutcome(secnonce: SecNonce, sig: Option<PartialSig>)

  /** The signer negates its secret key iff its own key's y parity, the
      aggregate key's y parity and the internal key parity XOR to 1. */
  predicate SignerNegates(c: Curve, pk: Point, cache: KeyAggCache)
  {
    (c.odd(pk) != c.odd(cache.pk)) != cache.internalKeyParity
  }

  /** The verifier, knowing only public parities, negates the challenge iff
      the aggregate key's y parity differs from the internal key parity. */
  predicate VerifierNegates(c: Curve, cache: KeyAggCache)
  {
    c.odd(cache.pk) != cache.internalKeyParity
  }

  /** `partial_sign`. The secret nonce is loaded and then cleared before
      anything else is looked at, so the buffer comes back zeroed on every
      path. The signature is s = e·(mu·(±sk)) + (±k0) + b·(±k1). */
  function PartialSign(c: Curve, sn: SecNonce, keypair: Handle<Keypair>,
                       cache: Handle<KeyAggCache>, session: Session): (r: SignOutcome)
    ensures AllZero(r.secnonce) && SecNonceLoad(r.secnonce).None?
    ensures r.sig.Some? <==>
      && SecNonceLoad(sn).Some?
      && keypair.Loads?
      && cache.Loads?
      && HasMagic(session, SESSION_MAGIC)
    ensures r.sig.Some? ==> HasMagic(r.sig.value, PARTIAL_SIG_MAGIC)
    ensures r.sig.Some? ==> FromBE(r.sig.value[4..]) < N
  {
    var cleared := Zeros(68);
    ZeroSecNonceFails(cleared);
    match SecNonceLoad(sn)
    case None => SignOutcome(cleared, None)
    case Some((k0, k1)) =>
      if keypair.Unloadable? || cache.Unloadable? then SignOutcome(cleared, None)
      else
        var ci := cache.value;
        var pk := KeypairPk(keypair.value);
        var mu := ci.coef(c.xBytes(pk));
        var sk := Mul(Signed(SignerNegates(c, pk, ci), keypair.value.sk), mu);
        match SessionLoad(session)
        case None => SignOutcome(cleared, None)
        case Some(st) =>
          var flip := st.finNonceParity != 0;
          var s := Add(Mul(st.challenge, sk),
                       Add(Signed(flip, k0), Mul(st.noncecoef, Signed(flip, k1))));
          SignOutcome(cleared, Some(PartialSigSave(s)))
  }

  /** What `partial_sign` produces is in canonical form, so it survives the
      wire: serializing it and parsing the bytes gives back the same
      partial signature. */
  lemma PartialSignSerializeParse(c: Curve, sn: SecNonce, keypair: Handle<Keypair>,
                                  cache: Handle<KeyAggCache>, session: Session)
    requires PartialSign(c, sn, keypair, cache, session).sig.Some?
    ensures var sig := PartialSign(c, sn, keypair, cache, session).sig.value;
            Codec.PartialSigParse(Codec.PartialSigSerialize(sig)) == Some(sig)
  {
    var sig := PartialSign(c, sn, keypair, cache, session).sig.value;
    var v := FromBE(sig[4..]);
    ModUnique(v, 0, v, N);
    Codec.PartialSigSerializeParse(PartialSigLoad(sig).value);
  }

  /** A secret nonce is good for one call: whatever the first call was
      given, a second call on the buffer it left behind fails. */
  lemma SecondPartialSignFails(c: Curve, sn: SecNonce,
                               keypair: Handle<Keypair>, cache: Handle<KeyAggCache>, session: Session,
                               keypair': Handle<Keypair>, cache': Handle<KeyAggCache>, session': Session)
    ensures var first := PartialSign(c, sn, keypair, cache, session);
            var second := PartialSign(c, first.secnonce, keypair', cache', session');
            second.sig.None? && AllZero(second.secnonce)
  {
  }

  /** The verification equation in the discrete-log model,
      s·G = e'·P + (±R_i), solved for s: the only scalar a partial
      signature may carry for the given nonce, key, cache and session. */
  function ExpectedPartialSig(c: Curve, nonce: (Point, Point), pk: Point,
                              cache: KeyAggCache, st: SessionState): (r: Scalar)
  {
    var e' := Signed(VerifierNegates(c, cache), Mul(st.challenge, cache.coef(c.xBytes(pk))));
    var ri := Add(nonce.0, Mul(st.noncecoef, nonce.1));
    Add(Mul(e', pk), Signed(st.finNonceParity != 0, ri))
  }

  /** (x - s) + y is zero exactly when s = x + y. */
  lemma ZeroCheck(x: Scalar, s: Scalar, y: Scalar)
    ensures Add(Add(x, Neg(s)), y) == 0 <==> s == Add(x, y)
  {
    NegIsMod(s);
    ModArith.ModAddLeft(x + (-(s as int)) % N, y, N);
    ModArith.ModAddLeft(-(s as int), x + y, N);
    assert Add(Add(x, Neg(s)), y) == (x + y - s) % N by {
      assert x + (-(s as int)) % N + y == (-(s as int)) % N + (x + y);
      assert -(s as int) + (x + y) == x + y - s;
    }
    ModArith.ModAddLeft(x + y, -(s as int), N);
    var z := Add(x, y);
    assert (x + y - s) % N == (z - s) % N;
    if z > s {
      ModArith.ModUnique(z - s, 0, z - s, N);
    } else if z < s {
      ModArith.ModUnique(z - s, -1, z - s + N, N);
    } else {
      ModArith.ModUnique(0, 0, 0, N);
    }
  }

  /** `partial_sig_verify`. Accepts iff every structure loads and the signed
      scalar satisfies the verification equation; the source computes this
      as -s·G + e'·P + (±R_i) being the point at infinity. */
  function PartialSigVerify(c: Curve, sig: PartialSig, pn: PubNonce, pubkey: Handle<Point>,
                            cache: Handle<KeyAggCache>, session: Session): (ok: bool)
    ensures ok <==>
      && SessionLoad(session).Some?
      && PubNonceLoad(c, pn).Some?
      && pubkey.Loads?
      && cache.Loads?
      && PartialSigLoad(sig).Some?
      && PartialSigLoad(sig).value == ExpectedPartialSig(c, PubNonceLoad(c, pn).value,
                                        pubkey.value, cache.value, SessionLoad(session).value)
  {
    match SessionLoad(session)
    case None => false
    case Some(st) =>
      match PubNonceLoad(c, pn)
      case None => false
      case Some((r0, r1)) =>
        var rj := PointAdd(PointMul(st.noncecoef, r1), r0);
        if pubkey.Unloadable? || cache.Unloadable? then false
        else
          var pkp := pubkey.value;
          var ci := cache.value;
          var mu := ci.coef(c.xBytes(pkp));
          var e := Signed(VerifierNegates(c, ci), Mul(st.challenge, mu));
          match PartialSigLoad(sig)
          case None => false
          case Some(s) =>
            var tmp := PointAdd(PointMul(e, pkp), BaseMul(Neg(s)));
            var rj' := if st.finNonceParity != 0 then PointNeg(rj) else rj;
            AddComm(PointMul(st.noncecoef, r1), r0);
            AddComm(PointMul(e, pkp), Neg(s));
            ZeroCheck(PointMul(e, pkp), s, rj');
            PointAdd(tmp, rj') == Infinity
  }

  /** Completeness in the discrete-log model: the partial signature an honest
      signer produces from nonce pair (k0, k1), secret key x, any key
      aggregation cache and any session is accepted when checked against
      the public nonce (k0·G, k1·G) and the even-y lift of x·G. The signer's
      and the verifier's different negation rules agree because the lift
      itself negates exactly when x·G has odd y. */
  lemma PartialSignVerifies(c: Curve, k0: Scalar, k1: Scalar, x: Scalar,
                            cache: KeyAggCache, st: SessionState)
    requires StorageRoundTrips(c) && NegationKeepsX(c)
    requires k0 != 0 && k1 != 0
    ensures var out := PartialSign(c, SecNonceSave(k0, k1), Loads(Keypair(x)), Loads(cache), SessionSave(st));
            && out.sig.Some?
            && PartialSigVerify(c, out.sig.value, PubNonceSave(c, Mul(k0, G), Mul(k1, G)),
                                Loads(EvenY(c, Mul(x, G))), Loads(cache), SessionSave(st))
  {
    MulOne(k0);
    MulOne(k1);
    MulOne(x);
    SecNonceRoundTrip(k0, k1);
    SessionRoundTrip(st);
    PubNonceRoundTrip(c, k0, k1);

    var pk := x;
    var p := EvenY(c, pk);
    var oddPk := c.odd(pk);
    assert p == Signed(oddPk, x);
    assert c.xBytes(p) == c.xBytes(pk);
    var mu := cache.coef(c.xBytes(pk));
    var e := st.challenge;
    var b := st.noncecoef;
    var flip := st.finNonceParity != 0;
    var negS := SignerNegates(c, pk, cache);
    var negV := VerifierNegates(c, cache);

    // key part: the signer's e·(mu·(±x)) equals the verifier's (±(e·mu))·P
    var t := Mul(e, Mul(Signed(negS, x), mu));
    calc {
      Mul(Signed(negV, Mul(e, mu)), p);
      { SignedMulLeft(negV, Mul(e, mu), Signed(oddPk, x)); }
      Signed(negV, Mul(Mul(e, mu), Signed(oddPk, x)));
      { SignedMulRight(oddPk, Mul(e, mu), x); }
      Signed(negV, Signed(oddPk, Mul(Mul(e, mu), x)));
      { SignedTwice(negV, oddPk, Mul(Mul(e, mu), x)); }
      Signed(negS, Mul(Mul(e, mu), x));
      { MulAssoc(e, mu, x); MulComm(mu, x); }
      Signed(negS, Mul(e, Mul(x, mu)));
      { SignedMulLeft(negS, x, mu); SignedMulRight(negS, e, Mul(x, mu)); }
      t;
    }

    // nonce part: the signer's (±k0) + b·(±k1) is the verifier's ±(k0 + b·k1)
    var u := Add(Signed(flip, k0), Mul(b, Signed(flip, k1)));
    SignedMulRight(flip, b, k1);
    SignedAdd(flip, k0, Mul(b, k1));
    assert u == Signed(flip, Add(k0, Mul(b, k1)));

    var s := Add(t, u);
    PartialSigRoundTrip(s);
    assert ExpectedPartialSig(c, (k0, k1), p, cache, st) == s;
  }

  /** End to end for one signer: a successful `nonce_gen` followed by
      `partial_sign` on its secret nonce yields a partial signature that
      verifies against its public nonce. The secret key and cache given to
      `nonce_gen`, if any, need not be the ones used for signing. */
  lemma NonceGenSignVerifies(c: Curve, h: Hashes, sessionId: Bytes32, seckey: Option<Bytes32>,
                             msg: Option<Bytes32>, genCache: Option<Handle<KeyAggCache>>,
                             extra: Option<Bytes32>, x: Scalar, cache: KeyAggCache, st: SessionState)
    requires StorageRoundTrips(c) && NegationKeepsX(c)
    requires NonceGen.NonceGen(c, h, sessionId, seckey, msg, genCache, extra).ok
    requires var aggPk := if genCache.Some? && genCache.value.Loads? then Some(c.xBytes(genCache.value.value.pk)) else None;
             var k := NonceGen.NonceFunction(h, NonceGen.NonceInputs(sessionId, msg, seckey, aggPk, extra));
             k.0 != 0 && k.1 != 0
    ensures var g := NonceGen.NonceGen(c, h, sessionId, seckey, msg, genCache, extra);
            var out := PartialSign(c, g.secnonce, Loads(Keypair(x)), Loads(cache), SessionSave(st));
            && out.sig.Some?
            && PartialSigVerify(c, out.sig.value, g.pubnonce, Loads(EvenY(c, Mul(x, G))), Loads(cache), SessionSave(st))
  {
    var aggPk := if genCache.Some? && genCache.value.Loads? then Some(c.xBytes(genCache.value.value.pk)) else None;
    var k := NonceGen.NonceFunction(h, NonceGen.NonceInputs(sessionId, msg, seckey, aggPk, extra));
    PartialSignVerifies(c, k.0, k.1, x, cache, st);
  }

  /** Verification pins the signature down: two canonical partial
      signatures accepted for the same nonce, key, cache and session are
      the same bytes, so any altered canonical signature is rejected. */
  lemma PartialSigVerifyUnique(c: Curve, sig1: PartialSig, sig2: PartialSig, pn: PubNonce,
                               pubkey: Handle<Point>, cache: Handle<KeyAggCache>, session: Session)
    requires FromBE(sig1[4..]) < N && FromBE(sig2[4..]) < N
    requires PartialSigVerify(c, sig1, pn, pubkey, cache, session)
    requires PartialSigVerify(c, sig2, pn, pubkey, cache, session)
    ensures sig1 == sig2
  {
    ModArith.ModUnique(FromBE(sig1[4..]), 0, FromBE(sig1[4..]), N);
    ModArith.ModUnique(FromBE(sig2[4..]), 0, FromBE(sig2[4..]), N);
    FromBEInjective(sig1[4..], sig2[4..]);
    assert sig1 == sig1[..4] + sig1[4..];
    assert sig2 == sig2[..4] + sig2[4..];
  }

  // ---------------------------------------------------------------- aggregation

  /** Left-to-right sum of scalars modulo n. */
  function SumScalars(xs: seq<Scalar>): (r: Scalar)
  {
    if |xs| == 0 then 0 else Add(SumScalars(xs[..|xs| - 1]), xs[|xs| - 1])
  }

  predicate AllPartialSigsTagged(sigs: seq<PartialSig>)
  {
    forall i :: 0 <= i < |sigs| ==> HasMagic(sigs[i], PARTIAL_SIG_MAGIC)
  }

  /** The scalar each partial signature loads to. */
  function SigValues(sigs: seq<PartialSig>): (r: seq<Scalar>)
    ensures |r| == |sigs|
    ensures forall i :: 0 <= i < |sigs| ==> r[i] == FromBE(sigs[i][4..]) % N
  {
    seq(|sigs|, i requires 0 <= i < |sigs| => SetB32(sigs[i][4..]).value)
  }

  /** `partial_sig_agg`: the final signature is the session's x-only final
      nonce followed by s_part plus the sum of all partial signatures. */
  method PartialSigAgg(session: Session, sigs: seq<PartialSig>) returns (r: Option<Bytes64>)
    ensures r.Some? <==> |sigs| > 0 && HasMagic(session, SESSION_MAGIC) && AllPartialSigsTagged(sigs)
    ensures r.Some? ==>
      var st := SessionLoad(session).value;
      && r.value[..32] == st.finNonce
      && FromBE(r.value[32..]) == Add(st.sPart, SumScalars(SigValues(sigs)))
  {
    if |sigs| == 0 {
      return None;
    }
    var loaded := SessionLoad(session);
    if loaded.None? {
      return None;
    }
    var st := loaded.value;
    var acc := st.sPart;
    var i := 0;
    AddZero(st.sPart);
    while i < |sigs|
      invariant 0 <= i <= |sigs|
      invariant AllPartialSigsTagged(sigs[..i])
      invariant acc == Add(st.sPart, SumScalars(SigValues(sigs)[..i]))
    {
      var term := PartialSigLoad(sigs[i]);
      if term.None? {
        assert !HasMagic(sigs[i], PARTIAL_SIG_MAGIC);
        return None;
      }
      assert SigValues(sigs)[..i + 1][..i] == SigValues(sigs)[..i];
      AddAssoc(st.sPart, SumScalars(SigValues(sigs)[..i]), term.value);
      acc := Add(acc, term.value);
      i := i + 1;
    }
    assert sigs[..i] == sigs;
    assert SigValues(sigs)[..i] == SigValues(sigs);
    var out := st.finNonce + GetB32(acc);
    assert out[..32] == st.finNonce && out[32..] == GetB32(acc);
    return Some(out);
  }

  // ---------------------------------------------------------------- single-use buffer

  /** A caller-owned secret nonce buffer, as handed to `partial_sign` by
      pointer: signing consumes it in place. */
  class SecNonceBuffer {
    var data: SecNonce

    constructor (sn: SecNonce)
      ensures data == sn
    {
      data := sn;
    }

    method Sign(c: Curve, keypair: Handle<Keypair>, cache: Handle<KeyAggCache>, session: Session)
      returns (sig: Option<PartialSig>)
      modifies this
      ensures sig == PartialSign(c, old(data), keypair, cache, session).sig
      ensures AllZero(data) && SecNonceLoad(data).None?
    {
      var out := PartialSign(c, data, keypair, cache, session);
      data := out.secnonce;
      sig := out.sig;
    }
  }
}
