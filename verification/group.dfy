/** The secp256k1 group in the discrete-log model: every group element is
    named by its discrete logarithm with respect to the generator G, so the
    identity (point at infinity) is 0, G is 1, point addition is scalar
    addition and scalar multiplication is scalar multiplication. What cannot
    be read off a discrete log (the y parity, coordinate and compressed
    encodings, the internal 64-byte storage format) is carried by a `Curve`
    value of uninterpreted functions. */
module Group {
  import opened Bytes
  import opened Scalars
  import opened Options

  type Point = Scalar

  const Infinity: Point := 0
  const G: Point := 1

  /** `ecmult_gen`: k·G. */
  function BaseMul(k: Scalar): (r: Point)
    ensures r == Mul(k, G)
  {
    MulOne(k);
    k
  }

  /** `ecmult` without the G term: k·P. */
  function PointMul(k: Scalar, p: Point): (r: Point)
  {
    Mul(k, p)
  }

  function PointAdd(p: Point, q: Point): (r: Point)
  {
    Add(p, q)
  }

  function PointNeg(p: Point): (r: Point)
  {
    Neg(p)
  }

  /** Curve-level primitives the model does not open up. */
  datatype Curve = Curve(
    /** `fe_is_odd` of the normalised y coordinate */
    odd: Point -> bool,
    /** `fe_get_b32` of the normalised x coordinate */
    xBytes: Point -> Bytes32,
    /** `eckey_pubkey_serialize` in compressed form */
    compress: Point -> Bytes33,
    /** `eckey_pubkey_parse` followed by the subgroup check */
    parse: Bytes33 -> Option<Point>,
    /** `point_save`, the 64-byte in-memory form */
    store: Point -> Bytes64,
    /** `point_load` */
    load: Bytes64 -> Point
  )

  /** The even-y representative of a point, as an x-only public key holds it. */
  function EvenY(c: Curve, p: Point): (r: Point)
    ensures r == p || r == PointNeg(p)
    ensures c.odd(p) ==> r == PointNeg(p)
  {
    if c.odd(p) then PointNeg(p) else p
  }

  /** `point_load` inverts `point_save` on every non-infinity point. */
  ghost predicate StorageRoundTrips(c: Curve)
  {
    forall p: Point :: p != Infinity ==> c.load(c.store(p)) == p
  }

  /** The compressed codec is a bijection between the non-infinity points
      and the encodings `parse` accepts. */
  ghost predicate CompressedRoundTrips(c: Curve)
  {
    && (forall p: Point :: p != Infinity ==> c.parse(c.compress(p)) == Some(p))
    && (forall b: Bytes33 :: c.parse(b).Some? ==>
          c.parse(b).value != Infinity && c.compress(c.parse(b).value) == b)
  }

  /** Negating a point changes only its y coordinate. */
  ghost predicate NegationKeepsX(c: Curve)
  {
    forall p: Point :: c.xBytes(PointNeg(p)) == c.xBytes(p)
  }
}
