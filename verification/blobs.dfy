/** The opaque structures of the MuSig API as the byte arrays they are: each
    begins with a 4-byte magic naming its type, and loading one fails closed
    when the magic is not there. Aggregate nonces share the public-nonce
    layout and magic, exactly as the source casts one to the other. */
module Blobs {
  import opened Bytes
  import opened Scalars
  import opened Options
  import opened Group

  predicate HasMagic(data: seq<byte>, magic: seq<byte>)
    requires |magic| == 4
  {
    |data| >= 4 && data[..4] == magic
  }

  // ---------------------------------------------------------------- secnonce

  const SECNONCE_MAGIC: seq<byte> := [0x22, 0x0e, 0xdc, 0xf1]

  /** magic ‖ k0 ‖ k1 */
  type SecNonce = s: seq<byte> | |s| == 68 witness seq(68, _ => 0)

  function SecNonceSave(k0: Scalar, k1: Scalar): (r: SecNonce)
    ensures HasMagic(r, SECNONCE_MAGIC)
    ensures FromBE(r[4..36]) == k0 && FromBE(r[36..68]) == k1
  {
    var r := SECNONCE_MAGIC + GetB32(k0) + GetB32(k1);
    assert r[4..36] == GetB32(k0);
    assert r[36..68] == GetB32(k1);
    r
  }

  /** The two nonce scalars, or None when the magic is wrong or both stored
      scalars are zero (an invalidated nonce). */
  function SecNonceLoad(sn: SecNonce): (r: Option<(Scalar, Scalar)>)
    ensures r.Some? <==>
      HasMagic(sn, SECNONCE_MAGIC)
      && (FromBE(sn[4..36]) % N != 0 || FromBE(sn[36..68]) % N != 0)
    ensures r.Some? ==> r.value == (FromBE(sn[4..36]) % N, FromBE(sn[36..68]) % N)
  {
    if !HasMagic(sn, SECNONCE_MAGIC) then None
    else
      var k0 := SetB32(sn[4..36]).value;
      var k1 := SetB32(sn[36..68]).value;
      if k0 == 0 && k1 == 0 then None else Some((k0, k1))
  }

  /** `secnonce_invalidate`: zero the whole structure when the flag is set. */
  function SecNonceInvalidate(sn: SecNonce, flag: bool): (r: SecNonce)
    ensures flag ==> AllZero(r) && SecNonceLoad(r).None?
    ensures !flag ==> r == sn
  {
    if flag then ZeroSecNonceFails(Zeros(68)); Zeros(68) else sn
  }

  /** A saved nonce pair loads back unless both scalars are zero. */
  lemma SecNonceRoundTrip(k0: Scalar, k1: Scalar)
    ensures SecNonceLoad(SecNonceSave(k0, k1)) ==
      if k0 == 0 && k1 == 0 then None else Some((k0, k1))
  {
    ModArith.ModUnique(k0, 0, k0, N);
    ModArith.ModUnique(k1, 0, k1, N);
  }

  /** An all-zero buffer never loads: its magic is gone. */
  lemma ZeroSecNonceFails(sn: SecNonce)
    requires AllZero(sn)
    ensures SecNonceLoad(sn).None?
  {
    assert sn[0] != SECNONCE_MAGIC[0];
  }

  // ---------------------------------------------------------------- pubnonce

  const PUBNONCE_MAGIC: seq<byte> := [0xf5, 0x7a, 0x3d, 0xa0]

  /** magic ‖ stored R0 ‖ stored R1; also the layout of an aggregate nonce. */
  type PubNonce = s: seq<byte> | |s| == 132 witness seq(132, _ => 0)

  function PubNonceSave(c: Curve, r0: Point, r1: Point): (r: PubNonce)
    ensures HasMagic(r, PUBNONCE_MAGIC)
    ensures r[4..68] == c.store(r0) && r[68..132] == c.store(r1)
  {
    PUBNONCE_MAGIC + c.store(r0) + c.store(r1)
  }

  function PubNonceLoad(c: Curve, pn: PubNonce): (r: Option<(Point, Point)>)
    ensures r.Some? <==> HasMagic(pn, PUBNONCE_MAGIC)
    ensures r.Some? ==> r.value == (c.load(pn[4..68]), c.load(pn[68..132]))
  {
    if !HasMagic(pn, PUBNONCE_MAGIC) then None
    else Some((c.load(pn[4..68]), c.load(pn[68..132])))
  }

  lemma PubNonceRoundTrip(c: Curve, r0: Point, r1: Point)
    requires StorageRoundTrips(c)
    requires r0 != Infinity && r1 != Infinity
    ensures PubNonceLoad(c, PubNonceSave(c, r0, r1)) == Some((r0, r1))
  {
  }

  // ---------------------------------------------------------------- session

  const SESSION_MAGIC: seq<byte> := [0x9d, 0xed, 0xe9, 0x17]

  /** The contents of a session: the parity byte of the final nonce, its
      x-only encoding, the nonce coefficient b, the challenge e and the
      tweak term added to the sum of the partial signatures. */
  datatype SessionState = SessionState(
    finNonceParity: byte,
    finNonce: Bytes32,
    noncecoef: Scalar,
    challenge: Scalar,
    sPart: Scalar
  )

  /** magic (4) ‖ parity (1) ‖ fin_nonce (32) ‖ b (32) ‖ e (32) ‖ s_part (32) */
  type Session = s: seq<byte> | |s| == 133 witness seq(133, _ => 0)

  function SessionSave(st: SessionState): (r: Session)
    ensures HasMagic(r, SESSION_MAGIC)
    ensures r[4] == st.finNonceParity && r[5..37] == st.finNonce
    ensures FromBE(r[37..69]) == st.noncecoef
    ensures FromBE(r[69..101]) == st.challenge
    ensures FromBE(r[101..133]) == st.sPart
  {
    var r := SESSION_MAGIC + [st.finNonceParity] + st.finNonce
      + GetB32(st.noncecoef) + GetB32(st.challenge) + GetB32(st.sPart);
    assert r[37..69] == GetB32(st.noncecoef);
    assert r[69..101] == GetB32(st.challenge);
    assert r[101..133] == GetB32(st.sPart);
    r
  }

  function SessionLoad(s: Session): (r: Option<SessionState>)
    ensures r.Some? <==> HasMagic(s, SESSION_MAGIC)
    ensures r.Some? ==> r.value.finNonceParity == s[4] && r.value.finNonce == s[5..37]
    ensures r.Some? ==> r.value.noncecoef == FromBE(s[37..69]) % N
    ensures r.Some? ==> r.value.challenge == FromBE(s[69..101]) % N
    ensures r.Some? ==> r.value.sPart == FromBE(s[101..133]) % N
  {
    if !HasMagic(s, SESSION_MAGIC) then None
    else Some(SessionState(s[4], s[5..37], SetB32(s[37..69]).value,
                           SetB32(s[69..101]).value, SetB32(s[101..133]).value))
  }

  /** Saving then loading a session gives back every field. */
  lemma SessionRoundTrip(st: SessionState)
    ensures SessionLoad(SessionSave(st)) == Some(st)
  {
    var s := SessionSave(st);
    SetGetB32(st.noncecoef);
    SetGetB32(st.challenge);
    SetGetB32(st.sPart);
    assert s[37..69] == GetB32(st.noncecoef);
    assert s[69..101] == GetB32(st.challenge);
    assert s[101..133] == GetB32(st.sPart);
  }

  /** A session whose three scalars are stored in canonical form is exactly
      the save of what it loads to. */
  lemma SessionLoadSave(s: Session)
    requires HasMagic(s, SESSION_MAGIC)
    requires FromBE(s[37..69]) < N && FromBE(s[69..101]) < N && FromBE(s[101..133]) < N
    ensures SessionSave(SessionLoad(s).value) == s
  {
    var t := SessionSave(SessionLoad(s).value);
    ModArith.ModUnique(FromBE(s[37..69]), 0, FromBE(s[37..69]), N);
    ModArith.ModUnique(FromBE(s[69..101]), 0, FromBE(s[69..101]), N);
    ModArith.ModUnique(FromBE(s[101..133]), 0, FromBE(s[101..133]), N);
    FromBEInjective(t[37..69], s[37..69]);
    FromBEInjective(t[69..101], s[69..101]);
    FromBEInjective(t[101..133], s[101..133]);
    forall i | 0 <= i < 133
      ensures t[i] == s[i]
    {
      if i < 4 {
        assert t[i] == t[..4][i] && s[i] == s[..4][i];
      } else if 5 <= i < 37 {
        assert t[i] == t[5..37][i - 5] && s[i] == s[5..37][i - 5];
      } else if 37 <= i < 69 {
        assert t[i] == t[37..69][i - 37] && s[i] == s[37..69][i - 37];
      } else if 69 <= i < 101 {
        assert t[i] == t[69..101][i - 69] && s[i] == s[69..101][i - 69];
      } else if 101 <= i {
        assert t[i] == t[101..133][i - 101] && s[i] == s[101..133][i - 101];
      }
    }
  }

  // ---------------------------------------------------------------- partial signature

  const PARTIAL_SIG_MAGIC: seq<byte> := [0xeb, 0xfb, 0x1a, 0x32]

  /** magic ‖ s */
  type PartialSig = s: seq<byte> | |s| == 36 witness seq(36, _ => 0)

  function PartialSigSave(s: Scalar): (r: PartialSig)
    ensures HasMagic(r, PARTIAL_SIG_MAGIC) && FromBE(r[4..]) == s
  {
    var r := PARTIAL_SIG_MAGIC + GetB32(s);
    assert r[4..] == GetB32(s);
    r
  }

  /** The signature scalar; a blob made by parsing or signing never
      overflows, and an out-of-range one is read reduced modulo n. */
  function PartialSigLoad(sig: PartialSig): (r: Option<Scalar>)
    ensures r.Some? <==> HasMagic(sig, PARTIAL_SIG_MAGIC)
    ensures r.Some? ==> r.value == FromBE(sig[4..]) % N
  {
    if !HasMagic(sig, PARTIAL_SIG_MAGIC) then None else Some(SetB32(sig[4..]).value)
  }

  lemma PartialSigRoundTrip(s: Scalar)
    ensures PartialSigLoad(PartialSigSave(s)) == Some(s)
  {
    ModArith.ModUnique(s, 0, s, N);
  }
}
