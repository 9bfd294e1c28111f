/** Nonce aggregation: the component-wise group sum of all public nonces,
    with an identity sum replaced by the generator. */
module NonceAgg {
  import opened Scalars
  import opened Options
  import opened Group
  import opened Blobs

  /** Left-to-right group sum, starting at the point at infinity. */
  function SumPoints(ps: seq<Point>): (r: Point)
  {
    if |ps| == 0 then Infinity else PointAdd(SumPoints(ps[..|ps| - 1]), ps[|ps| - 1])
  }

  predicate AllPubNoncesTagged(pns: seq<PubNonce>)
  {
    forall i :: 0 <= i < |pns| ==> HasMagic(pns[i], PUBNONCE_MAGIC)
  }

  /** The j-th point stored in a nonce. */
  function Component(c: Curve, pn: PubNonce, j: nat): (r: Point)
    requires j < 2
  {
    c.load(pn[4 + 64 * j..68 + 64 * j])
  }

  /** The j-th stored point of every nonce, in order. */
  function Components(c: Curve, pns: seq<PubNonce>, j: nat): (r: seq<Point>)
    requires j < 2
    ensures |r| == |pns|
    ensures forall i :: 0 <= i < |pns| ==> r[i] == Component(c, pns[i], j)
  {
    seq(|pns|, i requires 0 <= i < |pns| => Component(c, pns[i], j))
  }

  /** `sum_nonces`: loads each nonce in turn and adds its two points into
      two running sums; stops with failure at the first bad magic. */
  method SumNonces(c: Curve, pns: seq<PubNonce>) returns (ok: bool, sum0: Point, sum1: Point)
    ensures ok <==> AllPubNoncesTagged(pns)
    ensures ok ==> sum0 == SumPoints(Components(c, pns, 0))
    ensures ok ==> sum1 == SumPoints(Components(c, pns, 1))
  {
    sum0, sum1 := Infinity, Infinity;
    var i := 0;
    while i < |pns|
      invariant 0 <= i <= |pns|
      invariant AllPubNoncesTagged(pns[..i])
      invariant sum0 == SumPoints(Components(c, pns[..i], 0))
      invariant sum1 == SumPoints(Components(c, pns[..i], 1))
    {
      var loaded := PubNonceLoad(c, pns[i]);
      if loaded.None? {
        return false, sum0, sum1;
      }
      assert Components(c, pns[..i + 1], 0)[..i] == Components(c, pns[..i], 0);
      assert Components(c, pns[..i + 1], 1)[..i] == Components(c, pns[..i], 1);
      sum0 := PointAdd(sum0, loaded.value.0);
      sum1 := PointAdd(sum1, loaded.value.1);
      i := i + 1;
    }
    assert pns[..i] == pns;
    return true, sum0, sum1;
  }

  /** The canonical aggregate component: the generator replaces infinity. */
  function NonInfinity(p: Point): (r: Point)
    ensures r != Infinity
    ensures p != Infinity ==> r == p
  {
    if p == Infinity then G else p
  }

  /** `nonce_agg`. Fails when the list is empty or some nonce has a bad
      magic; otherwise each aggregate component is the sum of the matching
      input components, or G when that sum is infinity. */
  method NonceAgg(c: Curve, pns: seq<PubNonce>) returns (r: Option<PubNonce>)
    ensures r.Some? <==> |pns| > 0 && AllPubNoncesTagged(pns)
    ensures r.Some? ==> r.value == PubNonceSave(c,
      NonInfinity(SumPoints(Components(c, pns, 0))),
      NonInfinity(SumPoints(Components(c, pns, 1))))
  {
    if |pns| == 0 {
      return None;
    }
    var ok, sum0, sum1 := SumNonces(c, pns);
    if !ok {
      return None;
    }
    var agg0 := if sum0 == Infinity then G else sum0;
    var agg1 := if sum1 == Infinity then G else sum1;
    return Some(PubNonceSave(c, agg0, agg1));
  }

  /** What an aggregate nonce loads back to: the two sums, neither of them
      infinity. */
  lemma AggNonceLoads(c: Curve, pns: seq<PubNonce>)
    requires StorageRoundTrips(c)
    ensures var a0 := NonInfinity(SumPoints(Components(c, pns, 0)));
            var a1 := NonInfinity(SumPoints(Components(c, pns, 1)));
            && PubNonceLoad(c, PubNonceSave(c, a0, a1)) == Some((a0, a1))
            && a0 != Infinity && a1 != Infinity
  {
    PubNonceRoundTrip(c, NonInfinity(SumPoints(Components(c, pns, 0))),
                         NonInfinity(SumPoints(Components(c, pns, 1))));
  }
}
