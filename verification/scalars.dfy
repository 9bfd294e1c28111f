/** Scalars modulo the secp256k1 group order and their 32-byte encoding. The
    scalar primitives (`scalar_set_b32`, `scalar_get_b32`, `scalar_add`,
    `scalar_mul`, `scalar_negate`, `scalar_set_b32_seckey`) are modelled by
    their arithmetic meaning. */
module Scalars {
  import opened Bytes
  import opened ModArith

  /** The order n of the secp256k1 group. */
  const N: int := 0xFFFF_FFFF_FFFF_FFFF_FFFF_FFFF_FFFF_FFFE_BAAE_DCE6_AF48_A03B_BFD2_5E8C_D036_4141

  type Scalar = x: int | 0 <= x < N

  function Add(a: Scalar, b: Scalar): (r: Scalar)
  {
    (a + b) % N
  }

  function Mul(a: Scalar, b: Scalar): (r: Scalar)
  {
    (a * b) % N
  }

  /** `scalar_negate`: the additive inverse, with zero fixed. */
  function Neg(a: Scalar): (r: Scalar)
    ensures Add(a, r) == 0
    ensures r == 0 <==> a == 0
  {
    if a == 0 then 0 else N - a
  }

  /** Conditional negation, the shape every sign decision of the scheme takes. */
  function Signed(negate: bool, a: Scalar): (r: Scalar)
  {
    if negate then Neg(a) else a
  }

  /** Result of `scalar_set_b32`: the value reduced modulo n and whether the
      32-byte input was out of range. */
  datatype Decoded = Decoded(value: Scalar, overflow: bool)

  /** `scalar_set_b32`: one conditional subtraction of n suffices because
      2^256 < 2n. */
  function SetB32(b: Bytes32): (r: Decoded)
    ensures r.overflow <==> FromBE(b) >= N
    ensures r.value == FromBE(b) % N
  {
    FromBEBound(b);
    Pow256Of32();
    var v := FromBE(b);
    if v >= N then
      ModAddMultiple(v - N, 1, N);
      ModUnique(v - N, 0, v - N, N);
      Decoded(v - N, true)
    else
      ModUnique(v, 0, v, N);
      Decoded(v, false)
  }

  /** `scalar_get_b32`: the 32-byte big-endian encoding. */
  function GetB32(a: Scalar): (r: Bytes32)
    ensures FromBE(r) == a
  {
    Pow256Of32();
    FromToBE(a, 32);
    ToBE(a, 32)
  }

  /** `scalar_set_b32_seckey`: accepted iff in range and nonzero. */
  function SecKeyValid(b: Bytes32): (ok: bool)
    ensures ok <==> 0 < FromBE(b) < N
  {
    var d := SetB32(b);
    !d.overflow && d.value != 0
  }

  /** Encoding then decoding a scalar gives it back, without overflow. */
  lemma SetGetB32(a: Scalar)
    ensures SetB32(GetB32(a)) == Decoded(a, false)
  {
    ModUnique(a, 0, a, N);
  }

  /** Decoding an in-range string then encoding it gives the string back. */
  lemma GetSetB32(b: Bytes32)
    requires !SetB32(b).overflow
    ensures GetB32(SetB32(b).value) == b
  {
    FromBEInjective(GetB32(SetB32(b).value), b);
  }

  // ---- ring laws of Z_n ----

  lemma NegIsMod(a: Scalar)
    ensures Neg(a) == (-(a as int)) % N
  {
    if a != 0 {
      ModAddMultiple(-(a as int), 1, N);
      ModUnique(N - a, 0, N - a, N);
    }
  }

  lemma AddComm(a: Scalar, b: Scalar)
    ensures Add(a, b) == Add(b, a)
  {
  }

  lemma AddAssoc(a: Scalar, b: Scalar, c: Scalar)
    ensures Add(Add(a, b), c) == Add(a, Add(b, c))
  {
    ModAddLeft(a + b, c, N);
    ModAddLeft(b + c, a, N);
  }

  lemma AddZero(a: Scalar)
    ensures Add(a, 0) == a && Add(0, a) == a
  {
    ModUnique(a, 0, a, N);
  }

  lemma MulComm(a: Scalar, b: Scalar)
    ensures Mul(a, b) == Mul(b, a)
  {
    assert a * b == b * a;
  }

  lemma MulAssoc(a: Scalar, b: Scalar, c: Scalar)
    ensures Mul(Mul(a, b), c) == Mul(a, Mul(b, c))
  {
    ModMulLeft(a * b, c, N);
    ModMulRight(a, b * c, N);
    assert (a * b) * c == a * (b * c);
  }

  lemma MulOne(a: Scalar)
    ensures Mul(a, 1) == a
  {
    ModUnique(a, 0, a, N);
  }

  lemma MulNegLeft(a: Scalar, b: Scalar)
    ensures Mul(Neg(a), b) == Neg(Mul(a, b))
  {
    NegIsMod(a);
    NegIsMod(Mul(a, b));
    ModMulLeft(-(a as int), b, N);
    assert (-(a as int)) * b == -(a * b);
    ModSubLeft(a * b, 0, N);
  }

  lemma NegAdd(a: Scalar, b: Scalar)
    ensures Neg(Add(a, b)) == Add(Neg(a), Neg(b))
  {
    NegIsMod(a);
    NegIsMod(b);
    NegIsMod(Add(a, b));
    ModSubLeft(a + b, 0, N);
    ModAddLeft(-(a as int), (-(b as int)) % N, N);
    ModAddLeft(-(b as int), -(a as int), N);
  }

  lemma SignedMulLeft(p: bool, a: Scalar, b: Scalar)
    ensures Mul(Signed(p, a), b) == Signed(p, Mul(a, b))
  {
    if p {
      MulNegLeft(a, b);
    }
  }

  lemma SignedMulRight(p: bool, a: Scalar, b: Scalar)
    ensures Mul(a, Signed(p, b)) == Signed(p, Mul(a, b))
  {
    MulComm(a, Signed(p, b));
    SignedMulLeft(p, b, a);
    MulComm(b, a);
  }

  lemma SignedTwice(p: bool, q: bool, a: Scalar)
    ensures Signed(p, Signed(q, a)) == Signed(p != q, a)
  {
    if p && q {
      NegNeg(a);
    }
  }

  lemma NegNeg(a: Scalar)
    ensures Neg(Neg(a)) == a
  {
  }

  lemma SignedAdd(p: bool, a: Scalar, b: Scalar)
    ensures Add(Signed(p, a), Signed(p, b)) == Signed(p, Add(a, b))
  {
    if p {
      NegAdd(a, b);
    }
  }
}
