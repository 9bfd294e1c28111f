/** Byte strings and their big-endian reading, as used for 32-byte scalar
    encodings and for the fixed layouts of the opaque MuSig structures. */
module Bytes {

  type byte = b: int | 0 <= b < 256

  type Bytes32 = s: seq<byte> | |s| == 32 witness seq(32, _ => 0)
  type Bytes33 = s: seq<byte> | |s| == 33 witness seq(33, _ => 0)
  type Bytes64 = s: seq<byte> | |s| == 64 witness seq(64, _ => 0)
  type Bytes66 = s: seq<byte> | |s| == 66 witness seq(66, _ => 0)

  /** n zero bytes: what `memset(p, 0, n)` leaves behind. */
  function Zeros(n: nat): (r: seq<byte>)
    ensures |r| == n
    ensures forall i :: 0 <= i < n ==> r[i] == 0
  {
    seq(n, _ => 0)
  }

  predicate AllZero(s: seq<byte>)
  {
    forall i :: 0 <= i < |s| ==> s[i] == 0
  }

  function Pow256(n: nat): (r: nat)
    ensures r > 0
  {
    if n == 0 then 1 else 256 * Pow256(n - 1)
  }

  /** The number a byte string denotes when read most significant byte first. */
  function FromBE(s: seq<byte>): (r: nat)
  {
    if |s| == 0 then 0 else FromBE(s[..|s| - 1]) * 256 + s[|s| - 1]
  }

  /** The n-byte big-endian encoding of x modulo 256^n. */
  function ToBE(x: nat, n: nat): (r: seq<byte>)
    ensures |r| == n
  {
    if n == 0 then [] else ToBE(x / 256, n - 1) + [x % 256]
  }

  lemma {:induction false} FromBEBound(s: seq<byte>)
    ensures FromBE(s) < Pow256(|s|)
  {
    if |s| > 0 {
      FromBEBound(s[..|s| - 1]);
      assert FromBE(s[..|s| - 1]) + 1 <= Pow256(|s| - 1);
      assert (FromBE(s[..|s| - 1]) + 1) * 256 <= Pow256(|s| - 1) * 256;
    }
  }

  /** Reading back an encoding gives the number, when it fits in n bytes. */
  lemma {:induction false} FromToBE(x: nat, n: nat)
    requires x < Pow256(n)
    ensures FromBE(ToBE(x, n)) == x
  {
    if n > 0 {
      var r := ToBE(x, n);
      assert r[..n - 1] == ToBE(x / 256, n - 1);
      assert x / 256 < Pow256(n - 1);
      FromToBE(x / 256, n - 1);
    }
  }

  /** Encoding what was read gives back the same bytes. */
  lemma {:induction false} ToFromBE(s: seq<byte>)
    ensures ToBE(FromBE(s), |s|) == s
  {
    if |s| > 0 {
      var p := s[..|s| - 1];
      var x := FromBE(s);
      assert x / 256 == FromBE(p);
      assert x % 256 == s[|s| - 1];
      ToFromBE(p);
      assert s == p + [s[|s| - 1]];
    }
  }

  /** Two equally long byte strings denoting the same number are equal. */
  lemma FromBEInjective(s: seq<byte>, t: seq<byte>)
    requires |s| == |t|
    requires FromBE(s) == FromBE(t)
    ensures s == t
  {
    ToFromBE(s);
    ToFromBE(t);
  }

  lemma {:induction false} Pow256Add(a: nat, b: nat)
    ensures Pow256(a + b) == Pow256(a) * Pow256(b)
  {
    if a > 0 {
      Pow256Add(a - 1, b);
      assert Pow256(a + b) == 256 * Pow256(a - 1 + b);
    }
  }

  /** 256^32 = 2^256, the range of a 32-byte big-endian string. */
  lemma Pow256Of32()
    ensures Pow256(32) == 0x1_0000_0000_0000_0000_0000_0000_0000_0000_0000_0000_0000_0000_0000_0000_0000_0000
  {
    assert Pow256(4) == 0x1_0000_0000;
    Pow256Add(4, 4);
    Pow256Add(8, 8);
    Pow256Add(16, 16);
  }
}
