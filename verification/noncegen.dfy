/** Nonce generation: the byte string hashed into the nonce seed, the two
    nonce scalars derived from the seed, and `nonce_gen` with its folded
    validity flag. */
module NonceGen {
  import opened Bytes
  import opened Scalars
  import opened Options
  import opened Group
  import opened Collaborators
  import opened Blobs

  /** Everything the nonce seed depends on; each optional field is a
      possibly-NULL 32-byte argument. */
  datatype NonceInputs = NonceInputs(
    sessionId: Bytes32,
    msg: Option<Bytes32>,
    key: Option<Bytes32>,
    aggPk: Option<Bytes32>,
    extra: Option<Bytes32>
  )

  /** A present field is its length byte 32 and its bytes; an absent one is
      the single length byte 0. */
  function FieldBytes(f: Option<Bytes32>): (r: seq<byte>)
    ensures |r| == if f.Some? then 33 else 1
  {
    match f
    case None => [0]
    case Some(v) => [32] + v
  }

  /** The input of the "MuSig/nonce" tagged hash. */
  function NonceHashInput(inp: NonceInputs): (r: seq<byte>)
  {
    inp.sessionId + FieldBytes(inp.msg) + FieldBytes(inp.key)
      + FieldBytes(inp.aggPk) + FieldBytes(inp.extra)
  }

  /** Reads one length-prefixed field off the front of s. */
  function ReadField(s: seq<byte>): (r: Option<(Option<Bytes32>, seq<byte>)>)
  {
    if |s| >= 1 && s[0] == 0 then Some((None, s[1..]))
    else if |s| >= 33 && s[0] == 32 then Some((Some(s[1..33]), s[33..]))
    else None
  }

  /** Reads back the fields of a nonce hash input; the inverse of
      `NonceHashInput`. */
  function ReadNonceHashInput(s: seq<byte>): (r: Option<NonceInputs>)
  {
    if |s| < 32 then None
    else
      match ReadField(s[32..])
      case None => None
      case Some((msg, s1)) =>
        match ReadField(s1)
        case None => None
        case Some((key, s2)) =>
          match ReadField(s2)
          case None => None
          case Some((aggPk, s3)) =>
            match ReadField(s3)
            case None => None
            case Some((extra, s4)) =>
              if |s4| == 0 then Some(NonceInputs(s[..32], msg, key, aggPk, extra)) else None
  }

  lemma ReadFieldBytes(f: Option<Bytes32>, rest: seq<byte>)
    ensures ReadField(FieldBytes(f) + rest) == Some((f, rest))
  {
    var s := FieldBytes(f) + rest;
    if f.Some? {
      assert s[1..33] == f.value;
      assert s[33..] == rest;
    } else {
      assert s[1..] == rest;
    }
  }

  /** The encoding of the nonce inputs can be read back. */
  lemma NonceHashInputRoundTrip(inp: NonceInputs)
    ensures ReadNonceHashInput(NonceHashInput(inp)) == Some(inp)
  {
    var f1, f2, f3, f4 := FieldBytes(inp.msg), FieldBytes(inp.key), FieldBytes(inp.aggPk), FieldBytes(inp.extra);
    var s := NonceHashInput(inp);
    assert s == inp.sessionId + (f1 + (f2 + (f3 + (f4 + []))));
    assert s[..32] == inp.sessionId;
    assert s[32..] == f1 + (f2 + (f3 + (f4 + [])));
    ReadFieldBytes(inp.msg, f2 + (f3 + (f4 + [])));
    ReadFieldBytes(inp.key, f3 + (f4 + []));
    ReadFieldBytes(inp.aggPk, f4 + []);
    ReadFieldBytes(inp.extra, []);
  }

  /** Different presence patterns or different field values always give
      different hash inputs. */
  lemma NonceHashInputInjective(a: NonceInputs, b: NonceInputs)
    requires NonceHashInput(a) == NonceHashInput(b)
    ensures a == b
  {
    NonceHashInputRoundTrip(a);
    NonceHashInputRoundTrip(b);
  }

  /** `nonce_function_musig`: seed := H_nonce(input), k_i := SHA256(seed ‖ i)
      reduced modulo n. */
  function NonceFunction(h: Hashes, inp: NonceInputs): (r: (Scalar, Scalar))
    ensures var seed := h.nonceTagged(NonceHashInput(inp));
      && r.0 == FromBE(h.sha256(seed + [0])) % N
      && r.1 == FromBE(h.sha256(seed + [1])) % N
  {
    var seed := h.nonceTagged(NonceHashInput(inp));
    (SetB32(h.sha256(seed + [0])).value, SetB32(h.sha256(seed + [1])).value)
  }

  /** Output of `nonce_gen`: the return flag and both output structures. */
  datatype NonceGenResult = NonceGenResult(ok: bool, secnonce: SecNonce, pubnonce: PubNonce)

  /** Whether the key material accepted by `nonce_gen` is usable: without a
      secret key the session id must not be all zero; with one, it must be
      a valid secret key. */
  predicate KeyMaterialValid(sessionId: Bytes32, seckey: Option<Bytes32>)
  {
    if seckey.None? then !AllZero(sessionId) else SecKeyValid(seckey.value)
  }

  /** `nonce_gen`. A key aggregation cache that fails to load ends the call
      with both outputs still cleared. Otherwise the nonce pair is always
      derived and the public nonce always written; an invalid session id or
      secret key only clears the secret nonce and the return flag. */
  function NonceGen(c: Curve, h: Hashes, sessionId: Bytes32, seckey: Option<Bytes32>,
                    msg: Option<Bytes32>, cache: Option<Handle<KeyAggCache>>,
                    extra: Option<Bytes32>): (r: NonceGenResult)
    ensures r.ok <==>
      && cache != Some(Unloadable)
      && (seckey.None? ==> exists i :: 0 <= i < 32 && sessionId[i] != 0)
      && (seckey.Some? ==> 0 < FromBE(seckey.value) < N)
    ensures !r.ok ==> AllZero(r.secnonce)
    ensures cache == Some(Unloadable) ==> AllZero(r.pubnonce)
    ensures cache != Some(Unloadable) ==>
      var aggPk := if cache.Some? then Some(c.xBytes(cache.value.value.pk)) else None;
      var k := NonceFunction(h, NonceInputs(sessionId, msg, seckey, aggPk, extra));
      && r.pubnonce == PubNonceSave(c, Mul(k.0, G), Mul(k.1, G))
      && (r.ok ==> r.secnonce == SecNonceSave(k.0, k.1))
  {
    if cache == Some(Unloadable) then
      NonceGenResult(false, Zeros(68), Zeros(132))
    else
      var ok := KeyMaterialValid(sessionId, seckey);
      var aggPk := if cache.Some? then Some(c.xBytes(cache.value.value.pk)) else None;
      var k := NonceFunction(h, NonceInputs(sessionId, msg, seckey, aggPk, extra));
      var sn := SecNonceInvalidate(SecNonceSave(k.0, k.1), !ok);
      NonceGenResult(ok, sn, PubNonceSave(c, BaseMul(k.0), BaseMul(k.1)))
  }

  /** A successful `nonce_gen` hands out a secret nonce that loads (unless
      the derived pair is zero, which happens with negligible probability)
      and a public nonce whose points are the base-point multiples of the
      loaded scalars. */
  lemma NonceGenKeyPair(c: Curve, h: Hashes, sessionId: Bytes32, seckey: Option<Bytes32>,
                        msg: Option<Bytes32>, cache: Option<Handle<KeyAggCache>>,
                        extra: Option<Bytes32>)
    requires StorageRoundTrips(c)
    requires NonceGen(c, h, sessionId, seckey, msg, cache, extra).ok
    requires var aggPk := if cache.Some? then Some(c.xBytes(cache.value.value.pk)) else None;
             var k := NonceFunction(h, NonceInputs(sessionId, msg, seckey, aggPk, extra));
             k.0 != 0 && k.1 != 0
    ensures var r := NonceGen(c, h, sessionId, seckey, msg, cache, extra);
            && SecNonceLoad(r.secnonce).Some?
            && PubNonceLoad(c, r.pubnonce) ==
                 Some((Mul(SecNonceLoad(r.secnonce).value.0, G), Mul(SecNonceLoad(r.secnonce).value.1, G)))
  {
    var aggPk := if cache.Some? then Some(c.xBytes(cache.value.value.pk)) else None;
    var k := NonceFunction(h, NonceInputs(sessionId, msg, seckey, aggPk, extra));
    SecNonceRoundTrip(k.0, k.1);
    MulOne(k.0);
    MulOne(k.1);
    PubNonceRoundTrip(c, k.0, k.1);
  }
}
