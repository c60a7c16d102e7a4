/** The sending half of the RSA channel: server/action/rsa.go. */
module ServerRsa {
  import opened Congruence
  import opened Primes
  import opened BigEndian
  import opened RsaKeys

  datatype RsaError = DataLength | DecryptionError | RandomSource

  datatype Result<+T> = Ok(value: T) | Err(error: RsaError)

  // A random source: absent, or the numbers below the modulus that its
  // reader yields before it reports an error.
  datatype Random = NoRandom | Draws(draws: seq<nat>)

  // Garner's step: from a residue m modulo r to one modulo r * p.
  lemma GarnerStep(m: int, r: int, y: int, p: int, coeff: int, diff: int, m2: int)
    requires 0 <= m < r && p > 0
    requires Cong(coeff * r, 1, p) && Cong(diff, y - m, p)
    requires m2 == (diff * coeff) % p
    ensures 0 <= m + m2 * r < r * p
    ensures Cong(m + m2 * r, m, r)
    ensures Cong(m + m2 * r, y, p)
  {
    GarnerRange(m, r, p, m2);
    CongFromFactor(m + m2 * r, m, r, m2);
    GarnerDigit(r, p, coeff, diff);
    CongTransitive(m2 * r, diff, y - m, p);
    CongRefl(m, p);
    CongAdd(m, m, m2 * r, y - m, p);
  }

  lemma GarnerRange(m: int, r: int, p: int, m2: int)
    requires 0 <= m < r && 0 <= m2 < p
    ensures 0 <= m + m2 * r < r * p
  {
    assert 0 <= m2 * r <= (p - 1) * r;
    assert (p - 1) * r == r * p - r;
  }

  lemma GarnerDigit(r: int, p: int, coeff: int, diff: int)
    requires p > 0 && Cong(coeff * r, 1, p)
    ensures Cong(((diff * coeff) % p) * r, diff, p)
  {
    var h := diff * coeff;
    CongMod(h, p);
    CongMulLeft(r, h % p, h, p);
    CongMulLeft(diff, coeff * r, 1, p);
    assert r * h == diff * (coeff * r);
    CongTransitive(r * (h % p), r * h, diff, p);
  }

  lemma CongDivisor(a: int, b: int, m: int, p: int)
    requires p > 0 && m > 0 && m % p == 0 && Cong(a, b, m)
    ensures Cong(a, b, p)
  {
    assert m == p * (m / p);
    assert m / p > 0;
    CongWeaken(a, b, p, m / p);
  }

  // A step that keeps the residue modulo a prefix product keeps the residues
  // modulo all of its primes.
  lemma KeepEarlierResidues(primes: seq<nat>, i: nat, m': int, m: int, x: int)
    requires DistinctPrimes(primes) && i <= |primes|
    requires Product(primes[..i]) > 0 && Cong(m', m, Product(primes[..i]))
    requires forall j :: 0 <= j < i ==> Cong(m, x, primes[j])
    ensures forall j :: 0 <= j < i ==> Cong(m', x, primes[j])
  {
    forall j | 0 <= j < i
      ensures Cong(m', x, primes[j])
    {
      MemberDividesProduct(primes, i, j);
      CongDivisor(m', m, Product(primes[..i]), primes[j]);
      CongTransitive(m', m, x, primes[j]);
    }
  }

  // m is the residue of c^d below the product of the first i primes.
  ghost predicate Recombined(k: PrivateKey, c: nat, i: nat, m: int)
    requires ValidKey(k) && i <= |k.primes|
  {
    && 0 <= m < Product(k.primes[..i])
    && forall j :: 0 <= j < i ==> Cong(m, Pow(c, k.d), k.primes[j])
  }

  lemma RecombineFirstPair(k: PrivateKey, c: nat, diff: int)
    requires ValidKey(k) && k.precomputed.Precomputed?
    requires var p, q := k.primes[0], k.primes[1];
      Cong(diff, PowMod(c, k.precomputed.dp, p) - PowMod(c, k.precomputed.dq, q), p)
    ensures var p, q := k.primes[0], k.primes[1];
      Recombined(k, c, 2, (diff * k.precomputed.qinv) % p * q + PowMod(c, k.precomputed.dq, q))
  {
    var p, q, x := k.primes[0], k.primes[1], Pow(c, k.d);
    var mp, mq := PowMod(c, k.precomputed.dp, p), PowMod(c, k.precomputed.dq, q);
    var m2 := (diff * k.precomputed.qinv) % p;
    CrtResidue(k, 0, c);
    CrtResidue(k, 1, c);
    GarnerStep(mq, q, mp, p, k.precomputed.qinv, diff, m2);
    CongTransitive(mq + m2 * q, mq, x, q);
    CongTransitive(mq + m2 * q, mp, x, p);
    FirstTwoPrimes(k.primes);
  }

  lemma FirstTwoPrimes(primes: seq<nat>)
    requires |primes| >= 2
    ensures Product(primes[..2]) == primes[1] * primes[0]
  {
    ProductStep(primes, 1);
    ProductStep(primes, 0);
    assert primes[..0] == [];
  }

  lemma RecombineNextPrime(k: PrivateKey, c: nat, i: nat, m: int)
    requires ValidKey(k) && k.precomputed.Precomputed? && i < |k.precomputed.crtValues|
    requires Recombined(k, c, 2 + i, m)
    ensures var v, prime := k.precomputed.crtValues[i], k.primes[2 + i];
      Recombined(k, c, 3 + i, m + ((PowMod(c, v.exp, prime) - m) * v.coeff) % prime * v.r)
  {
    assert ValidCrtValue(k, i);
    var v, prime, x := k.precomputed.crtValues[i], k.primes[2 + i], Pow(c, k.d);
    var y := PowMod(c, v.exp, prime);
    var m2 := ((y - m) * v.coeff) % prime;
    CrtResidue(k, 2 + i, c);
    CongRefl(y - m, prime);
    GarnerStep(m, v.r, y, prime, v.coeff, y - m, m2);
    CongTransitive(m + m2 * v.r, y, x, prime);
    KeepEarlierResidues(k.primes, 2 + i, m + m2 * v.r, m, x);
    ProductStep(k.primes, 2 + i);
  }

  lemma RecombinedIsPower(k: PrivateKey, c: nat, m: int)
    requires ValidKey(k) && Recombined(k, c, |k.primes|, m)
    ensures m == PowMod(c, k.d, k.pub.n)
  {
    var x, n := Pow(c, k.d), k.pub.n;
    assert k.primes[..|k.primes|] == k.primes;
    CongProduct(k.primes, |k.primes|, m, x);
    CongMod(x, n);
    CongTransitive(m, x, x % n, n);
    CongResidues(m, x % n, n);
  }

  // The Chinese remainder branch of decrypt, for two or more primes.
  method CrtPower(k: PrivateKey, c: nat) returns (m: int)
    requires ValidKey(k) && k.precomputed.Precomputed?
    ensures m == PowMod(c, k.d, k.pub.n)
  {
    var pre, p, q := k.precomputed, k.primes[0], k.primes[1];
    m := PowMod(c, pre.dp, p);
    var m2: int := PowMod(c, pre.dq, q);
    ghost var diff := m - m2;
    m := m - m2;
    CongRefl(diff, p);
    if m < 0 {
      m := m + p;
      CongFromFactor(m, diff, p, 1);
    }
    RecombineFirstPair(k, c, m);
    m := m * pre.qinv;
    m := m % p;
    m := m * q;
    m := m + m2;

    var i := 0;
    while i < |pre.crtValues|
      invariant 0 <= i <= |pre.crtValues|
      invariant Recombined(k, c, 2 + i, m)
    {
      RecombineNextPrime(k, c, i, m);
      var values := pre.crtValues[i];
      var prime := k.primes[2 + i];
      m2 := PowMod(c, values.exp, prime);
      m2 := m2 - m;
      m2 := m2 * values.coeff;
      m2 := m2 % prime;
      assert m2 >= 0;  // so the next branch is never taken
      if m2 < 0 {
        m2 := m2 + prime;
      }
      m2 := m2 * values.r;
      m := m + m2;
      i := i + 1;
    }
    RecombinedIsPower(k, c, m);
  }

  // r has an inverse modulo n
  ghost predicate Invertible(r: nat, n: nat)
    requires n > 0
  {
    exists x: int :: IsInverse(x, r, n)
  }

  predicate IsInverse(x: int, r: nat, n: nat)
    requires n > 0
  {
    Cong(r * x, 1, n)
  }

  method ModInverse(a: nat, n: nat) returns (ia: int, ok: bool)
    requires n > 0
    ensures ok <==> Invertible(a, n)
    ensures ok ==> IsInverse(ia, a, n) && 0 < ia <= n && (n > 1 ==> ia < n)
  {
    var (g, x, y) := ExtendedGcd(a, n);
    if g != 1 {
      CommonDivisorBlocksInverse(a, n, g);
      return 0, false;
    }
    assert a * x - 1 == n * -y;
    CongFromFactor(a * x, 1, n, -y);
    InverseInRange(a, n, x);
    if x < 1 {
      x := x + n;
    }
    assert IsInverse(x, a, n);
    return x, true;
  }

  lemma CommonDivisorBlocksInverse(a: nat, n: nat, g: int)
    requires n > 0 && g > 1 && a % g == 0 && n % g == 0
    ensures !Invertible(a, n)
  {
    var s, t := a / g, n / g;
    forall x: int
      ensures !IsInverse(x, a, n)
    {
      if IsInverse(x, a, n) {
        var f := CongFactor(a * x, 1, n);
        NoUnitMultiple(g, s, t, x, f);
      }
    }
  }

  lemma NoUnitMultiple(g: int, s: int, t: int, x: int, f: int)
    requires g > 1
    ensures (g * s) * x - 1 != (g * t) * f
  {
    assert (g * s) * x - (g * t) * f == g * (s * x - t * f);
    ModUnique(1, g, 0, 1);
    MultipleIsDivisible(s * x - t * f, g);
  }

  lemma InverseInRange(a: int, n: int, x: int)
    requires n > 0 && -n <= x <= n && Cong(a * x, 1, n)
    ensures Cong(a * (x + n), 1, n)
    ensures n > 1 ==> -n < x < n && x != 0
    ensures n == 1 ==> x + n >= 0
  {
    var f := CongFactor(a * x, 1, n);
    assert a * (x + n) == a * x + n * a;
    CongFromFactor(a * (x + n), 1, n, f + a);
    if n > 1 && (x == n || x == -n || x == 0) {
      var s := if x == n then a else if x == 0 then 0 else -a;
      assert a * x == n * s;
      assert 1 == n * (s - f);
      ModUnique(1, n, 0, 1);
      ModUnique(1, n, s - f, 0);
    }
  }

  // A draw of the random source that decrypt can blind with; zero counts as one.
  ghost predicate Usable(r: nat, n: nat)
    requires n > 0
  {
    Invertible(if r == 0 then 1 else r, n)
  }

  lemma ZeroIsUsable(n: nat)
    requires n > 0
    ensures Usable(0, n) && Usable(1, n)
  {
    CongRefl(1, n);
    assert IsInverse(1, 1, n);
  }

  // Multiplying by r^e before and by the inverse of r after has no effect.
  lemma BlindingCancels(k: PrivateKey, c: nat, r: nat, ir: int)
    requires ValidKey(k) && IsInverse(ir, r, k.pub.n)
    ensures (PowMod((c * PowMod(r, k.pub.e, k.pub.n)) % k.pub.n, k.d, k.pub.n) * ir) % k.pub.n
         == PowMod(c, k.d, k.pub.n)
  {
    var n, e, d := k.pub.n, k.pub.e, k.d;
    var re := Pow(r, e);
    CongMod(re, n);
    CongMulLeft(c, re % n, re, n);
    CongPow(c * (re % n), c * re, d, n);
    PowModReducesBase(c * (re % n), d, n);
    PowDistributes(c, re, d);
    ExponentsCancel(k, r);
    CongMulLeft(Pow(c, d), Pow(re, d), r, n);
    CongTransitive(Pow(c * (re % n), d), Pow(c, d) * Pow(re, d), Pow(c, d) * r, n);
    UnblindStep(Pow(c * (re % n), d), Pow(c, d), r, ir, n);
  }

  lemma UnblindStep(b: int, x: int, r: int, ir: int, n: int)
    requires n > 0 && Cong(b, x * r, n) && Cong(r * ir, 1, n)
    ensures ((b % n) * ir) % n == x % n
  {
    CongMod(b, n);
    CongTransitive(b % n, b, x * r, n);
    CongMulLeft(ir, b % n, x * r, n);
    CongMulLeft(x, r * ir, 1, n);
    assert ir * (x * r) == x * (r * ir);
    CongTransitive((b % n) * ir, x * (r * ir), x, n);
    CongToMod((b % n) * ir, x, n);
  }

  method Decrypt(random: Random, k: PrivateKey, c: nat) returns (m: Result<nat>)
    requires ValidKey(k)
    requires random.Draws? ==> forall i :: 0 <= i < |random.draws| ==> random.draws[i] < k.pub.n
    ensures c > k.pub.n ==> m == Err(DecryptionError)
    ensures c <= k.pub.n && (random.NoRandom? || exists i :: 0 <= i < |random.draws| && Usable(random.draws[i], k.pub.n))
      ==> m == Ok(PowMod(c, k.d, k.pub.n))
    ensures c <= k.pub.n && random.Draws? && (forall i :: 0 <= i < |random.draws| ==> !Usable(random.draws[i], k.pub.n))
      ==> m == Err(RandomSource)
  {
    hide ValidKey, PowMod, IsInverse, Invertible;
    var n := k.pub.n;
    if c > n {
      return Err(DecryptionError);
    }
    var ir, blinded := 0, c;
    if random.Draws? {
      var r, ok, next := 0, false, 0;
      while !ok
        invariant 0 <= next <= |random.draws|
        invariant ok ==> IsInverse(ir, r, n) && 0 < ir && next > 0 && Usable(random.draws[next - 1], n)
        invariant forall i :: 0 <= i < (if ok then next - 1 else next) ==> !Usable(random.draws[i], n)
        decreases |random.draws| - next, !ok
      {
        if next == |random.draws| {
          return Err(RandomSource);
        }
        r := random.draws[next];
        next := next + 1;
        if r == 0 {
          r := 1;
        }
        ir, ok := ModInverse(r, n);
        assert Invertible(r, n) == Usable(random.draws[next - 1], n);
      }
      var rpowe := PowMod(r, k.pub.e, n);
      blinded := blinded * rpowe;
      blinded := blinded % n;
      BlindingCancels(k, c, r, ir);
    }
    var x: int;
    if k.precomputed.NotPrecomputed? {
      x := PowMod(blinded, k.d, n);
    } else {
      x := CrtPower(k, blinded);
    }
    if random.Draws? {
      x := x * ir;
      x := x % n;
    }
    return Ok(x);
  }

  // The padding of section 8.1 of RFC 2313, block type 1.
  function PaddedBlock(payload: seq<byte>, k: nat): (em: seq<byte>)
    requires |payload| + 11 <= k
    ensures |em| == k
  {
    [0, 1] + seq(k - |payload| - 3, i => 0xff) + [0] + payload
  }

  // The padded block is below the modulus.
  lemma PaddedBlockFits(payload: seq<byte>, n: nat)
    requires |payload| + 11 <= ByteLen(n)
    ensures Value(PaddedBlock(payload, ByteLen(n))) < n
  {
    var k := ByteLen(n);
    var em := PaddedBlock(payload, k);
    var tail := em[1..];
    assert em == Zeros(1) + tail;
    ValueOfPadding(1, tail);
    ValueBound(tail);
    ByteLenBounds(n);
  }

  // What the server puts on the wire: the padded block to the power d modulo
  // n, in as many bytes as the modulus has.
  function Ciphertext(k: PrivateKey, payload: seq<byte>): (c: seq<byte>)
    requires |payload| + 11 <= ByteLen(k.pub.n)
    ensures |c| == ByteLen(k.pub.n) && Value(c) < k.pub.n
  {
    ByteLenBounds(k.pub.n);
    FixedBytes(PowMod(Value(PaddedBlock(payload, ByteLen(k.pub.n))), k.d, k.pub.n), ByteLen(k.pub.n))
  }

  method CopyWithLeftPad(dest: array<byte>, src: seq<byte>)
    requires |src| <= dest.Length
    modifies dest
    ensures dest[..] == Zeros(dest.Length - |src|) + src
  {
    var numPaddingBytes := dest.Length - |src|;
    for i := 0 to numPaddingBytes
      invariant forall j :: 0 <= j < i ==> dest[j] == 0
    {
      dest[i] := 0;
    }
    forall i | 0 <= i < |src| {
      dest[numPaddingBytes + i] := src[i];
    }
    assert forall j :: numPaddingBytes <= j < dest.Length ==> dest[j] == src[j - numPaddingBytes];
  }

  // The block that priKeyEncrypt fills before it computes.
  method PadBlock(hashed: seq<byte>, k: nat) returns (em: array<byte>)
    requires |hashed| + 11 <= k
    ensures fresh(em) && em[..] == PaddedBlock(hashed, k)
    ensures em[0] == 0 && em[1] == 1 && em[k - |hashed| - 1] == 0
    ensures k - |hashed| - 1 >= 10 && forall i :: 2 <= i < k - |hashed| - 1 ==> em[i] == 0xff
    ensures em[k - |hashed|..] == hashed
  {
    var tLen := |hashed|;
    em := new byte[k](i => 0);
    em[1] := 1;
    for i := 2 to k - tLen - 1
      invariant em[0] == 0 && em[1] == 1
      invariant forall j :: 2 <= j < i ==> em[j] == 0xff
      invariant forall j :: i <= j < k ==> em[j] == 0
    {
      em[i] := 0xff;
    }
    forall i | 0 <= i < tLen {
      em[k - tLen + i] := hashed[i];
    }
    ghost var block := PaddedBlock(hashed, k);
    assert forall j :: k - tLen <= j < k ==> em[j] == hashed[j - (k - tLen)] == block[j];
  }

  method PriKeyEncrypt(random: Random, priv: PrivateKey, hashed: seq<byte>) returns (r: Result<seq<byte>>)
    requires ValidKey(priv)
    requires random.Draws? ==> forall i :: 0 <= i < |random.draws| ==> random.draws[i] < priv.pub.n
    ensures |hashed| + 11 > ByteLen(priv.pub.n) ==> r == Err(DataLength)
    ensures |hashed| + 11 <= ByteLen(priv.pub.n)
      ==> r == if random.NoRandom? || exists i :: 0 <= i < |random.draws| && Usable(random.draws[i], priv.pub.n)
               then Ok(Ciphertext(priv, hashed)) else Err(RandomSource)
  {
    var tLen := |hashed|;
    var k := (BitLen(priv.pub.n) + 7) / 8;
    if k < tLen + 11 {
      return Err(DataLength);
    }
    var em := PadBlock(hashed, k);
    var m := Value(em[..]);
    PaddedBlockFits(hashed, priv.pub.n);
    var c := Decrypt(random, priv, m);
    if c.Err? {
      return Err(c.error);
    }
    ByteLenBounds(priv.pub.n);
    MinimalLength(c.value, k);
    CopyWithLeftPad(em, MinimalBytes(c.value));
    return Ok(em[..]);
  }
}
