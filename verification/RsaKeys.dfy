/** RSA keys as crypto/rsa hands them over, and the arithmetic of a valid one. */
module RsaKeys {
  import opened Congruence
  import opened Primes
  import opened Fermat
  import opened BigEndian

  datatype PublicKey = PublicKey(n: nat, e: nat)

  datatype CrtValue = CrtValue(exp: nat, coeff: nat, r: nat)

  datatype Precomputed =
    | NotPrecomputed
    | Precomputed(dp: nat, dq: nat, qinv: nat, crtValues: seq<CrtValue>)

  datatype PrivateKey = PrivateKey(pub: PublicKey, d: nat, primes: seq<nat>, precomputed: Precomputed)

  lemma ProductIsLarge(primes: seq<nat>)
    requires primes != [] && DistinctPrimes(primes)
    ensures Product(primes) > 1
  {
    ProductPositive(primes, |primes|);
    MemberDividesProduct(primes, |primes|, 0);
    assert primes[..|primes|] == primes;
    if Product(primes) == 1 {
      ModUnique(1, primes[0], 0, 1);
    }
  }

  // Section 3.2 of RFC 8017: n is a product of distinct odd primes and
  // d inverts e modulo each prime minus one.
  predicate ValidKey(k: PrivateKey): (valid: bool)
    ensures valid ==> k.pub.n > 1
  {
    && |k.primes| >= 2
    && DistinctPrimes(k.primes)
    && (forall i :: 0 <= i < |k.primes| ==> k.primes[i] > 2 && Inverts(k.d, k.pub.e, k.primes[i] - 1))
    && (ProductIsLarge(k.primes); k.pub.n == Product(k.primes))
    && k.pub.e > 0 && k.d > 0
    && (k.precomputed.Precomputed? ==> ValidPrecomputed(k))
  }

  predicate Inverts(d: nat, e: nat, m: nat)
    requires m > 0
  {
    Cong(d * e, 1, m)
  }

  predicate ValidPrecomputed(k: PrivateKey)
    requires |k.primes| >= 2 && k.precomputed.Precomputed?
    requires forall i :: 0 <= i < |k.primes| ==> k.primes[i] > 2
  {
    var pre := k.precomputed;
    && pre.dp == k.d % (k.primes[0] - 1)
    && pre.dq == k.d % (k.primes[1] - 1)
    && Inverts(pre.qinv, k.primes[1], k.primes[0])
    && |pre.crtValues| == |k.primes| - 2
    && forall i :: 0 <= i < |pre.crtValues| ==> ValidCrtValue(k, i)
  }

  predicate ValidCrtValue(k: PrivateKey, i: nat)
    requires k.precomputed.Precomputed? && |k.precomputed.crtValues| == |k.primes| - 2
    requires i < |k.precomputed.crtValues|
    requires forall j :: 0 <= j < |k.primes| ==> k.primes[j] > 2
  {
    var v := k.precomputed.crtValues[i];
    && v.exp == k.d % (k.primes[2 + i] - 1)
    && v.r == Product(k.primes[..2 + i])
    && Inverts(v.coeff, v.r, k.primes[2 + i])
  }

  lemma ExponentsCancelModuloPrime(a: nat, ed: nat, p: nat)
    requires Prime(p) && p > 2 && ed > 0 && Cong(ed, 1, p - 1)
    ensures Cong(Pow(a, ed), a, p)
  {
    var f := CongFactor(ed, 1, p - 1);
    assert f <= -1 ==> (p - 1) * f <= -(p - 1);
    assert ed == 1 + f * (p - 1);
    ExponentOne(a, p, f);
  }

  // Raising to e and then to d, or the other way round, is the identity
  // modulo n, also for bases that share a factor with n.
  lemma ExponentsCancel(k: PrivateKey, a: nat)
    requires ValidKey(k)
    ensures Cong(Pow(Pow(a, k.pub.e), k.d), a, k.pub.n)
    ensures Cong(Pow(Pow(a, k.d), k.pub.e), a, k.pub.n)
  {
    var e, d := k.pub.e, k.d;
    var ed := d * e;
    assert e * d == ed > 0;
    forall i | 0 <= i < |k.primes|
      ensures Cong(Pow(a, ed), a, k.primes[i])
    {
      assert Inverts(d, e, k.primes[i] - 1);
      ExponentsCancelModuloPrime(a, ed, k.primes[i]);
    }
    assert k.primes[..|k.primes|] == k.primes;
    CongProduct(k.primes, |k.primes|, Pow(a, ed), a);
    PowMul(a, e, d);
    PowMul(a, d, e);
  }

  lemma CrtExponentNotZero(d: nat, e: nat, m: nat)
    requires m > 1 && Inverts(d, e, m)
    ensures d % m != 0
  {
    if d % m == 0 {
      MultipleOfMultiple(d, e, m);
      CongFromFactor(d * e, 0, m, (d * e) / m);
      CongToMod(d * e, 1, m);
      ModUnique(1, m, 0, 1);
    }
  }

  // The power modulo one prime that the Chinese remainder path starts from.
  lemma CrtResidue(k: PrivateKey, i: nat, c: nat)
    requires ValidKey(k) && i < |k.primes|
    ensures Cong(PowMod(c, k.d % (k.primes[i] - 1), k.primes[i]), Pow(c, k.d), k.primes[i])
  {
    var p := k.primes[i];
    CrtExponentNotZero(k.d, k.pub.e, p - 1);
    ExponentReduction(c, k.d, p);
    var x := Pow(c, k.d % (p - 1));
    CongMod(x, p);
    CongTransitive(x % p, x, Pow(c, k.d), p);
  }

  // Reducing the exponent modulo p - 1 is right for every base exactly when
  // the reduced exponent is not zero. The prime 2 never meets this, which is
  // why the primes of a key are odd.
  lemma ExponentReductionIsExact(d: nat, p: nat)
    requires Prime(p) && d > 0
    ensures (forall c: nat :: PowMod(c, d % (p - 1), p) == PowMod(c, d, p)) <==> d % (p - 1) != 0
  {
    if d % (p - 1) != 0 {
      assert p > 2;
      forall c: nat
        ensures PowMod(c, d % (p - 1), p) == PowMod(c, d, p)
      {
        ExponentReduction(c, d, p);
        CongToMod(Pow(c, d % (p - 1)), Pow(c, d), p);
      }
    } else {
      ModUnique(1, p, 0, 1);
      MultipleIsDivisible(Pow(p, d - 1), p);
      assert PowMod(p, 0, p) == 1 && PowMod(p, d, p) == 0;
    }
  }

  lemma SmallPrimes()
    ensures DistinctPrimes([3, 5, 11])
  {
  }

  // A key with three primes, to show that the conditions can be met.
  lemma SampleKeyIsValid()
    ensures ValidKey(PrivateKey(PublicKey(165, 3), 7, [3, 5, 11], Precomputed(1, 3, 2, [CrtValue(7, 3, 15)])))
  {
    var primes: seq<nat> := [3, 5, 11];
    SmallPrimes();
    assert Product(primes[..2]) == 15 && Product(primes) == 165 by {
      assert primes[..3] == primes && primes[..0] == [];
      ProductStep(primes, 0);
      ProductStep(primes, 1);
      ProductStep(primes, 2);
    }
  }
}
