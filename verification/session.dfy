/** Session establishment (`nonce_process`): the nonce coefficient b, the
    final nonce R = A0 + b·A1 (A0 shifted by the adaptor point when one is
    given), its x-only encoding and parity, the challenge e, and the tweak
    term s_part that the aggregator adds to the partial signatures. */
module Session {
  import opened Bytes
  import opened Scalars
  import opened Options
  import opened Group
  import opened Collaborators
  import opened Blobs

  /** `compute_noncehash` input: both aggregate nonce points compressed, then
      the x-only aggregate key and the message. Compressing the point at
      infinity fails. */
  function NonceCoefInput(c: Curve, a0: Point, a1: Point, aggPk: Bytes32, msg: Bytes32): (r: Option<seq<byte>>)
    ensures r.Some? <==> a0 != Infinity && a1 != Infinity
    ensures r.Some? ==>
      && |r.value| == 130
      && r.value[..33] == c.compress(a0) && r.value[33..66] == c.compress(a1)
      && r.value[66..98] == aggPk && r.value[98..] == msg
  {
    if a0 == Infinity || a1 == Infinity then None
    else Some(c.compress(a0) + c.compress(a1) + aggPk + msg)
  }

  datatype FinalNonce = FinalNonce(parity: bool, xBytes: Bytes32, noncecoef: Scalar)

  /** `nonce_process_internal`: b = int(H_noncecoef(A0 ‖ A1 ‖ P.x ‖ m)) mod n
      and R = A0 + b·A1. Fails exactly when A0 or A1 cannot be compressed
      (infinity) or R is infinity, whose x coordinate cannot be serialized. */
  function NonceProcessInternal(c: Curve, h: Hashes, a0: Point, a1: Point, aggPk: Bytes32, msg: Bytes32): (r: Option<FinalNonce>)
    ensures
      var b := FromBE(h.noncecoefTagged(c.compress(a0) + c.compress(a1) + aggPk + msg)) % N;
      var fin := PointAdd(a0, PointMul(b, a1));
      && (r.Some? <==> a0 != Infinity && a1 != Infinity && fin != Infinity)
      && (r.Some? ==>
            && r.value.noncecoef == b
            && r.value.xBytes == c.xBytes(fin)
            && r.value.parity == c.odd(fin))
  {
    match NonceCoefInput(c, a0, a1, aggPk, msg)
    case None => None
    case Some(input) =>
      var b := SetB32(h.noncecoefTagged(input)).value;
      var fin := PointAdd(PointMul(b, a1), a0);
      AddComm(PointMul(b, a1), a0);
      if fin == Infinity then None
      else Some(FinalNonce(c.odd(fin), c.xBytes(fin), b))
  }

  /** `schnorrsig_challenge`, the challenge of BIP 340:
      e = int(hash_BIP0340/challenge(R.x ‖ P.x ‖ m)) mod n. */
  function Challenge(h: Hashes, finNonce: Bytes32, msg: Bytes32, aggPk: Bytes32): (r: Scalar)
    ensures r == FromBE(h.challengeTagged(finNonce + aggPk + msg)) % N
  {
    SetB32(h.challengeTagged(finNonce + aggPk + msg)).value
  }

  /** s_part: zero without a tweak, otherwise e·tweak, negated when the
      aggregate key has odd y. */
  function TweakTerm(e: Scalar, tweak: Scalar, aggOdd: bool): (r: Scalar)
  {
    if tweak == 0 then 0 else Signed(aggOdd, Mul(e, tweak))
  }

  /** The zero-tweak shortcut agrees with the uniform formula
      s_part = e · (±tweak). */
  lemma TweakTermUniform(e: Scalar, tweak: Scalar, aggOdd: bool)
    ensures TweakTerm(e, tweak, aggOdd) == Mul(e, Signed(aggOdd, tweak))
  {
    SignedMulRight(aggOdd, e, tweak);
  }

  /** The aggregate nonce as `nonce_process` hands it on: A0 shifted by the
      adaptor point when one is given, and A1. */
  function AdaptedNonce(c: Curve, aggnonce: PubNonce, adaptor: Option<Handle<Point>>): (r: (Point, Point))
    requires HasMagic(aggnonce, PUBNONCE_MAGIC)
    requires adaptor != Some(Unloadable)
  {
    var a := PubNonceLoad(c, aggnonce).value;
    (if adaptor.Some? then PointAdd(a.0, adaptor.value.value) else a.0, a.1)
  }

  /** `nonce_process`. Fails exactly when the cache or adaptor does not load,
      the aggregate nonce has a bad magic, or `nonce_process_internal` fails;
      otherwise the session records that call's final nonce and coefficient,
      the challenge for it, and s_part. */
  function NonceProcess(c: Curve, h: Hashes, aggnonce: PubNonce, msg: Bytes32,
                        cache: Handle<KeyAggCache>, adaptor: Option<Handle<Point>>): (r: Option<Session>)
    ensures r.Some? <==>
      && cache.Loads?
      && HasMagic(aggnonce, PUBNONCE_MAGIC)
      && adaptor != Some(Unloadable)
      && var a := AdaptedNonce(c, aggnonce, adaptor);
         NonceProcessInternal(c, h, a.0, a.1, c.xBytes(cache.value.pk), msg).Some?
    ensures r.Some? ==>
      var aggPk := c.xBytes(cache.value.pk);
      var a := AdaptedNonce(c, aggnonce, adaptor);
      var fin := NonceProcessInternal(c, h, a.0, a.1, aggPk, msg).value;
      var st := SessionLoad(r.value);
      && st.Some?
      && (st.value.finNonceParity == 1 <==> fin.parity)
      && (st.value.finNonceParity == 0 <==> !fin.parity)
      && st.value.finNonce == fin.xBytes
      && st.value.noncecoef == fin.noncecoef
      && st.value.challenge == Challenge(h, fin.xBytes, msg, aggPk)
      && st.value.sPart == Mul(st.value.challenge, Signed(c.odd(cache.value.pk), cache.value.tweak))
  {
    if cache.Unloadable? then None
    else
      var ci := cache.value;
      var aggPk := c.xBytes(ci.pk);
      if !HasMagic(aggnonce, PUBNONCE_MAGIC) || adaptor == Some(Unloadable) then None
      else
        var a := AdaptedNonce(c, aggnonce, adaptor);
        match NonceProcessInternal(c, h, a.0, a.1, aggPk, msg)
        case None => None
        case Some(fin) =>
          var e := Challenge(h, fin.xBytes, msg, aggPk);
          var st := SessionState(if fin.parity then 1 else 0, fin.xBytes, fin.noncecoef, e,
                                 TweakTerm(e, ci.tweak, c.odd(ci.pk)));
          SessionRoundTrip(st);
          TweakTermUniform(e, ci.tweak, c.odd(ci.pk));
          Some(SessionSave(st))
  }

  /** The session records the final nonce: its x coordinate, its parity and
      the coefficient b with which it was formed from the (adaptor-shifted)
      aggregate nonce. */
  lemma NonceProcessFinalNonce(c: Curve, h: Hashes, aggnonce: PubNonce, msg: Bytes32,
                               cache: Handle<KeyAggCache>, adaptor: Option<Handle<Point>>)
    requires NonceProcess(c, h, aggnonce, msg, cache, adaptor).Some?
    ensures
      var st := SessionLoad(NonceProcess(c, h, aggnonce, msg, cache, adaptor).value).value;
      var a := AdaptedNonce(c, aggnonce, adaptor);
      var fin := PointAdd(a.0, PointMul(st.noncecoef, a.1));
      && fin != Infinity
      && st.finNonce == c.xBytes(fin)
      && (st.finNonceParity == 1 <==> c.odd(fin))
  {
    var a := AdaptedNonce(c, aggnonce, adaptor);
    var fin := NonceProcessInternal(c, h, a.0, a.1, c.xBytes(cache.value.pk), msg).value;
    var e := Challenge(h, fin.xBytes, msg, c.xBytes(cache.value.pk));
    SessionRoundTrip(SessionState(if fin.parity then 1 else 0, fin.xBytes, fin.noncecoef, e,
                                  TweakTerm(e, cache.value.tweak, c.odd(cache.value.pk))));
  }
}
