/** Big-endian bytes of natural numbers: math/big's SetBytes, Bytes and BitLen. */
module BigEndian {
  import opened Congruence

  type byte = x: int | 0 <= x < 256

  // SetBytes
  function Value(s: seq<byte>): nat {
    if s == [] then 0 else 256 * Value(s[..|s| - 1]) + s[|s| - 1]
  }

  // Bytes: no leading zero byte, empty for zero.
  function MinimalBytes(v: nat): seq<byte> {
    if v == 0 then [] else MinimalBytes(v / 256) + [v % 256]
  }

  function Zeros(n: nat): (s: seq<byte>)
    ensures |s| == n && forall i :: 0 <= i < n ==> s[i] == 0
  {
    seq(n, i => 0)
  }

  // The k-byte string with value v.
  function FixedBytes(v: nat, k: nat): (s: seq<byte>)
    requires v < Pow(256, k)
    ensures |s| == k && Value(s) == v
  {
    MinimalLength(v, k);
    MinimalValue(v);
    ValueOfPadding(k - |MinimalBytes(v)|, MinimalBytes(v));
    Zeros(k - |MinimalBytes(v)|) + MinimalBytes(v)
  }

  lemma {:induction false} MinimalValue(v: nat)
    ensures Value(MinimalBytes(v)) == v
  {
    if v != 0 {
      MinimalValue(v / 256);
      assert MinimalBytes(v)[..|MinimalBytes(v)| - 1] == MinimalBytes(v / 256);
    }
  }

  lemma {:induction false} MinimalLength(v: nat, k: nat)
    requires v < Pow(256, k)
    ensures |MinimalBytes(v)| <= k
    decreases v
  {
    if v != 0 {
      assert k > 0;
      assert v < 256 * Pow(256, k - 1);
      MinimalLength(v / 256, k - 1);
    }
  }

  lemma {:induction false} ValueOfPadding(n: nat, s: seq<byte>)
    ensures Value(Zeros(n) + s) == Value(s)
    decreases n + |s|
  {
    var z := Zeros(n);
    if s != [] {
      ValueOfPadding(n, s[..|s| - 1]);
      assert (z + s)[..|z + s| - 1] == z + s[..|s| - 1];
    } else if n > 0 {
      ValueOfPadding(n - 1, []);
      assert (z + s)[..|z + s| - 1] == Zeros(n - 1) + [];
    }
  }

  lemma {:induction false} ValueBound(s: seq<byte>)
    ensures Value(s) < Pow(256, |s|)
  {
    if s != [] {
      ValueBound(s[..|s| - 1]);
    }
  }

  // Strings of one length are determined by their value.
  lemma {:induction false} ValueInjective(s: seq<byte>, t: seq<byte>)
    requires |s| == |t| && Value(s) == Value(t)
    ensures s == t
  {
    if s != [] {
      var n := |s| - 1;
      assert s[n] == t[n];
      ValueInjective(s[..n], t[..n]);
      assert s == s[..n] + [s[n]];
      assert t == t[..n] + [t[n]];
    }
  }

  function BitLen(n: nat): nat {
    if n == 0 then 0 else 1 + BitLen(n / 2)
  }

  // The length in bytes that the channel uses for a modulus.
  function ByteLen(n: nat): nat {
    (BitLen(n) + 7) / 8
  }

  lemma {:induction false} BitLenBounds(n: nat)
    requires n > 0
    ensures BitLen(n) > 0
    ensures Pow(2, BitLen(n) - 1) <= n < Pow(2, BitLen(n))
  {
    if n == 1 {
      assert BitLen(1) == 1 + BitLen(0);
      assert Pow(2, 1) == 2 * Pow(2, 0);
    } else {
      BitLenBounds(n / 2);
    }
  }

  // k bytes are the fewest that hold n.
  lemma ByteLenBounds(n: nat)
    requires n > 0
    ensures ByteLen(n) > 0
    ensures Pow(256, ByteLen(n) - 1) <= n < Pow(256, ByteLen(n))
  {
    var b, k := BitLen(n), ByteLen(n);
    BitLenBounds(n);
    PowersOf256(k);
    PowersOf256(k - 1);
    PowMonotone(2, 8 * (k - 1), b - 1);
    PowMonotone(2, b, 8 * k);
  }

  lemma {:induction false} PowersOf256(k: nat)
    ensures Pow(256, k) == Pow(2, 8 * k)
  {
    if k > 0 {
      PowersOf256(k - 1);
      PowAdd(2, 8, 8 * (k - 1));
      assert Pow(2, 8) == 256 by {
        assert Pow(2, 4) == 16;
        PowAdd(2, 4, 4);
      }
    }
  }
}
