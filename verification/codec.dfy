/** The public wire formats: a public (or aggregate) nonce as two compressed
    points, 66 bytes, and a partial signature as one 32-byte big-endian
    scalar. The aggregate-nonce entry points are the public-nonce ones
    applied to the same bytes. */
module Codec {
  import opened Bytes
  import opened Scalars
  import opened Options
  import opened Group
  import opened Blobs

  /** `pubnonce_serialize`: fails only when the magic is wrong. */
  function PubNonceSerialize(c: Curve, pn: PubNonce): (r: Option<Bytes66>)
    ensures r.Some? <==> HasMagic(pn, PUBNONCE_MAGIC)
  {
    match PubNonceLoad(c, pn)
    case None => None
    case Some((r0, r1)) => Some(c.compress(r0) + c.compress(r1))
  }

  /** `pubnonce_parse`: both 33-byte halves must decode to points of the
      group. */
  function PubNonceParse(c: Curve, in66: Bytes66): (r: Option<PubNonce>)
    ensures r.Some? <==> c.parse(in66[..33]).Some? && c.parse(in66[33..]).Some?
    ensures r.Some? ==> HasMagic(r.value, PUBNONCE_MAGIC)
  {
    match c.parse(in66[..33])
    case None => None
    case Some(r0) =>
      match c.parse(in66[33..])
      case None => None
      case Some(r1) => Some(PubNonceSave(c, r0, r1))
  }

  /** Bytes that parse serialize back to themselves. */
  lemma PubNonceParseSerialize(c: Curve, in66: Bytes66)
    requires CompressedRoundTrips(c) && StorageRoundTrips(c)
    requires PubNonceParse(c, in66).Some?
    ensures PubNonceSerialize(c, PubNonceParse(c, in66).value) == Some(in66)
  {
    var r0, r1 := c.parse(in66[..33]).value, c.parse(in66[33..]).value;
    assert r0 != Infinity && r1 != Infinity;
    PubNonceRoundTrip(c, r0, r1);
    assert in66 == in66[..33] + in66[33..];
  }

  /** A nonce of two non-infinity points survives serializing and parsing. */
  lemma PubNonceSerializeParse(c: Curve, r0: Point, r1: Point)
    requires CompressedRoundTrips(c) && StorageRoundTrips(c)
    requires r0 != Infinity && r1 != Infinity
    ensures PubNonceSerialize(c, PubNonceSave(c, r0, r1)).Some?
    ensures PubNonceParse(c, PubNonceSerialize(c, PubNonceSave(c, r0, r1)).value)
            == Some(PubNonceSave(c, r0, r1))
  {
    PubNonceRoundTrip(c, r0, r1);
    var out := c.compress(r0) + c.compress(r1);
    assert out[..33] == c.compress(r0) && out[33..] == c.compress(r1);
  }

  /** `partial_sig_serialize`: copies the 32 scalar bytes; the magic is not
      looked at. */
  function PartialSigSerialize(sig: PartialSig): (r: Bytes32)
    ensures FromBE(r) == FromBE(sig[4..])
    ensures PartialSigLoad(sig).Some? ==> FromBE(r) % N == PartialSigLoad(sig).value
  {
    sig[4..]
  }

  /** `partial_sig_parse`: rejects exactly the encodings of numbers ≥ n. */
  function PartialSigParse(in32: Bytes32): (r: Option<PartialSig>)
    ensures r.None? <==> FromBE(in32) >= N
    ensures r.Some? ==> PartialSigLoad(r.value) == Some(FromBE(in32))
  {
    var d := SetB32(in32);
    if d.overflow then None
    else
      PartialSigRoundTrip(d.value);
      ModArith.ModUnique(FromBE(in32), 0, FromBE(in32), N);
      Some(PartialSigSave(d.value))
  }

  /** Serializing what was parsed returns the original bytes. */
  lemma PartialSigParseSerialize(in32: Bytes32)
    requires PartialSigParse(in32).Some?
    ensures PartialSigSerialize(PartialSigParse(in32).value) == in32
  {
    GetSetB32(in32);
  }

  /** Parsing what was serialized gives back the same partial signature. */
  lemma PartialSigSerializeParse(s: Scalar)
    ensures PartialSigParse(PartialSigSerialize(PartialSigSave(s))) == Some(PartialSigSave(s))
  {
    var b := PartialSigSerialize(PartialSigSave(s));
    assert b == GetB32(s);
    SetGetB32(s);
  }
}
