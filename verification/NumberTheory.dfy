/** Divisibility and congruence modulo a positive number. */
module Congruence {

  // a and b leave the same remainder modulo n.
  predicate Cong(a: int, b: int, n: int)
    requires n > 0
  {
    (a - b) % n == 0
  }

  // Quotient and remainder are unique.
  lemma ModUnique(a: int, n: int, q: int, r: int)
    requires n > 0 && 0 <= r < n && a == n * q + r
    ensures a % n == r && a / n == q
  {
    var d := q - a / n;
    assert n * d == a % n - r by {
      assert a == n * (a / n) + a % n;
      assert n * d == n * q - n * (a / n);
    }
    assert d >= 1 ==> n * d >= n;
    assert d <= -1 ==> n * d <= -n;
  }

  lemma MultipleIsDivisible(k: int, n: int)
    requires n > 0
    ensures (n * k) % n == 0
    ensures (k * n) % n == 0
  {
    ModUnique(n * k, n, k, 0);
  }

  lemma MultipleOfMultiple(a: int, k: int, n: int)
    requires n > 0 && a % n == 0
    ensures (a * k) % n == 0
  {
    assert a == n * (a / n);
    assert a * k == n * ((a / n) * k);
    MultipleIsDivisible((a / n) * k, n);
  }

  lemma CongFromFactor(a: int, b: int, n: int, k: int)
    requires n > 0 && a - b == n * k
    ensures Cong(a, b, n)
  {
    MultipleIsDivisible(k, n);
  }

  lemma CongFactor(a: int, b: int, n: int) returns (k: int)
    requires n > 0 && Cong(a, b, n)
    ensures a - b == n * k
  {
    k := (a - b) / n;
  }

  lemma CongMod(a: int, n: int)
    requires n > 0
    ensures Cong(a % n, a, n) && Cong(a, a % n, n)
  {
    CongFromFactor(a % n, a, n, -(a / n));
    CongFromFactor(a, a % n, n, a / n);
  }

  lemma CongSymmetric(a: int, b: int, n: int)
    requires n > 0 && Cong(a, b, n)
    ensures Cong(b, a, n)
  {
    var k := CongFactor(a, b, n);
    CongFromFactor(b, a, n, -k);
  }

  lemma CongTransitive(a: int, b: int, c: int, n: int)
    requires n > 0 && Cong(a, b, n) && Cong(b, c, n)
    ensures Cong(a, c, n)
  {
    var k := CongFactor(a, b, n);
    var l := CongFactor(b, c, n);
    CongFromFactor(a, c, n, k + l);
  }

  lemma CongAdd(a: int, b: int, c: int, d: int, n: int)
    requires n > 0 && Cong(a, b, n) && Cong(c, d, n)
    ensures Cong(a + c, b + d, n)
  {
    var k := CongFactor(a, b, n);
    var l := CongFactor(c, d, n);
    CongFromFactor(a + c, b + d, n, k + l);
  }

  lemma CongMul(a: int, b: int, c: int, d: int, n: int)
    requires n > 0 && Cong(a, b, n) && Cong(c, d, n)
    ensures Cong(a * c, b * d, n)
  {
    var k := CongFactor(a, b, n);
    var l := CongFactor(c, d, n);
    calc {
      a * c - b * d;
      (a - b) * c + b * (c - d);
      (n * k) * c + b * (n * l);
      n * (k * c) + n * (b * l);
      n * (k * c + b * l);
    }
    CongFromFactor(a * c, b * d, n, k * c + b * l);
  }

  lemma CongMulLeft(f: int, a: int, b: int, n: int)
    requires n > 0 && Cong(a, b, n)
    ensures Cong(f * a, f * b, n)
  {
    CongRefl(f, n);
    CongMul(f, f, a, b, n);
  }

  lemma CongRefl(a: int, n: int)
    requires n > 0
    ensures Cong(a, a, n)
  {
    CongFromFactor(a, a, n, 0);
  }

  // Two residues in [0, n) that are congruent are equal.
  lemma CongResidues(a: int, b: int, n: int)
    requires n > 0 && 0 <= a < n && 0 <= b < n && Cong(a, b, n)
    ensures a == b
  {
    var k := CongFactor(a, b, n);
    ModUnique(a, n, 0, a);
    ModUnique(a, n, k, b);
  }

  // A congruence modulo m * k is one modulo m.
  lemma CongWeaken(a: int, b: int, m: int, k: int)
    requires m > 0 && k > 0 && m * k > 0 && Cong(a, b, m * k)
    ensures Cong(a, b, m)
  {
    var l := CongFactor(a, b, m * k);
    assert a - b == m * (k * l);
    CongFromFactor(a, b, m, k * l);
  }

  function Pow(b: int, e: nat): int {
    if e == 0 then 1 else b * Pow(b, e - 1)
  }

  // What math/big's Exp computes for a modulus above zero.
  function PowMod(b: int, e: nat, n: int): (r: nat)
    requires n > 0
    ensures r < n
  {
    Pow(b, e) % n
  }

  lemma {:induction false} PowAdd(b: int, e: nat, f: nat)
    ensures Pow(b, e + f) == Pow(b, e) * Pow(b, f)
  {
    if e != 0 {
      PowAdd(b, e - 1, f);
    }
  }

  lemma {:induction false} PowMul(b: int, e: nat, f: nat)
    ensures e * f >= 0
    ensures Pow(b, e * f) == Pow(Pow(b, e), f)
  {
    if f != 0 {
      PowMul(b, e, f - 1);
      assert e * f == e + e * (f - 1);
      PowAdd(b, e, e * (f - 1));
    } else {
      assert e * f == 0;
    }
  }

  lemma {:induction false} PowDistributes(a: int, b: int, e: nat)
    ensures Pow(a * b, e) == Pow(a, e) * Pow(b, e)
  {
    if e != 0 {
      PowDistributes(a, b, e - 1);
      RegroupFactors(a, b, Pow(a, e - 1), Pow(b, e - 1));
    }
  }

  lemma RegroupFactors(a: int, b: int, x: int, y: int)
    ensures (a * b) * (x * y) == (a * x) * (b * y)
  {
    assert (a * b) * (x * y) == a * (b * (x * y));
    assert b * (x * y) == x * (b * y);
    assert a * (x * (b * y)) == (a * x) * (b * y);
  }

  lemma {:induction false} PowPositive(b: int, e: nat)
    requires b > 0
    ensures Pow(b, e) > 0
  {
    if e != 0 {
      PowPositive(b, e - 1);
    }
  }

  lemma {:induction false} PowMonotone(b: int, e: nat, f: nat)
    requires b > 0 && e <= f
    ensures Pow(b, e) <= Pow(b, f)
    decreases f
  {
    if e < f {
      PowMonotone(b, e, f - 1);
      PowPositive(b, f - 1);
    }
  }

  lemma {:induction false} CongPow(a: int, b: int, e: nat, n: int)
    requires n > 0 && Cong(a, b, n)
    ensures Cong(Pow(a, e), Pow(b, e), n)
  {
    if e == 0 {
      CongRefl(1, n);
    } else {
      CongPow(a, b, e - 1, n);
      CongMul(a, b, Pow(a, e - 1), Pow(b, e - 1), n);
    }
  }

  // Reducing the base first does not change a modular power.
  lemma PowModReducesBase(b: int, e: nat, n: int)
    requires n > 0
    ensures PowMod(b % n, e, n) == PowMod(b, e, n)
  {
    CongMod(b, n);
    CongPow(b % n, b, e, n);
    CongToMod(Pow(b % n, e), Pow(b, e), n);
  }

  lemma CongToMod(a: int, b: int, n: int)
    requires n > 0 && Cong(a, b, n)
    ensures a % n == b % n
  {
    CongMod(a, n);
    CongMod(b, n);
    CongTransitive(a % n, a, b, n);
    CongTransitive(a % n, b, b % n, n);
    CongResidues(a % n, b % n, n);
  }
}

/** The extended Euclidean algorithm, Euclid's lemma and prime factors. */
module Primes {
  import opened Congruence

  predicate Prime(p: int) {
    p >= 2 && NoDivisorBelow(p, p)
  }

  // None of 2, ..., m - 1 divides p.
  predicate NoDivisorBelow(p: int, m: int) {
    m > 2 ==> p % (m - 1) != 0 && NoDivisorBelow(p, m - 1)
  }

  lemma {:induction false} NoDivisor(p: int, m: int, d: int)
    requires NoDivisorBelow(p, m) && 2 <= d < m
    ensures p % d != 0
    decreases m
  {
    if d < m - 1 {
      NoDivisor(p, m - 1, d);
    }
  }

  // Greatest common divisor with Bezout coefficients: g == a * x + b * y.
  function ExtendedGcd(a: int, b: int): (r: (int, int, int))
    requires a >= 0 && b >= 0 && (a > 0 || b > 0)
    ensures r.0 > 0 && r.0 == a * r.1 + b * r.2
    ensures a % r.0 == 0 && b % r.0 == 0
    ensures b > 0 ==> -b <= r.1 <= b
    ensures a > 0 && b > 0 ==> -a <= r.2 <= a
    ensures b == 0 ==> r.1 == 1 && r.2 == 0
    decreases b
  {
    if b == 0 then
      MultipleIsDivisible(1, a);
      MultipleIsDivisible(0, a);
      (a, 1, 0)
    else
      var (g, x, y) := ExtendedGcd(b, a % b);
      BezoutStep(a, b, g, x, y);
      CommonDivisorStep(a, b, g);
      BezoutBound(a, b, x, y);
      (g, y, x - (a / b) * y)
  }

  lemma BezoutStep(a: int, b: int, g: int, x: int, y: int)
    requires b > 0 && g == b * x + (a % b) * y
    ensures g == a * y + b * (x - (a / b) * y)
  {
    var q, r := a / b, a % b;
    assert a * y == b * (q * y) + r * y by {
      assert a == b * q + r;
      assert (b * q) * y == b * (q * y);
    }
    assert b * (x - q * y) == b * x - b * (q * y);
  }

  lemma CommonDivisorStep(a: int, b: int, g: int)
    requires b > 0 && g > 0 && b % g == 0 && (a % b) % g == 0
    ensures a % g == 0
  {
    var k, l, q := b / g, (a % b) / g, a / b;
    assert a == b * q + a % b;
    assert b * q == g * (k * q) by {
      assert b == g * k;
      assert (g * k) * q == g * (k * q);
    }
    assert a == g * (k * q + l);
    MultipleIsDivisible(k * q + l, g);
  }

  lemma BezoutBound(a: int, b: int, x: int, y: int)
    requires a >= 0 && b > 0
    requires a % b > 0 ==> -(a % b) <= x <= a % b && -b <= y <= b
    requires a % b == 0 ==> x == 1 && y == 0
    ensures -b <= y <= b
    ensures a > 0 ==> -a <= x - (a / b) * y <= a
  {
    var q := a / b;
    assert a == b * q + a % b;
    if a % b > 0 {
      MulBetween(q, y, b);
    }
  }

  lemma MulBetween(q: int, y: int, b: int)
    requires q >= 0 && -b <= y <= b
    ensures -(b * q) <= q * y <= b * q
  {
    assert q * (b - y) >= 0;
    assert q * (b + y) >= 0;
  }

  // Bezout's identity modulo a prime: what p does not divide has an inverse.
  lemma InverseModuloPrime(p: int, a: int) returns (x: int, y: int)
    requires Prime(p) && a % p != 0
    ensures 1 == a * x + p * y
  {
    hide NoDivisorBelow;
    var r, q := a % p, a / p;
    assert a == p * q + r;
    var u, v := BezoutWithPrime(p, r);
    x, y := u, v - q * u;
    BezoutLift(a, p, q, r, u, v);
  }

  lemma BezoutWithPrime(p: int, r: int) returns (u: int, v: int)
    requires Prime(p) && 0 < r < p
    ensures r * u + p * v == 1
  {
    var (g, x, y) := ExtendedGcd(r, p);
    CommonDivisorWithPrime(p, r, g);
    u, v := x, y;
  }

  lemma CommonDivisorWithPrime(p: int, r: int, g: int)
    requires Prime(p) && 0 < r < p && g > 0 && r % g == 0 && p % g == 0
    ensures g == 1
  {
    hide *;
    assert g <= r by {
      assert r == g * (r / g);
      assert r / g >= 1;
    }
    if g > 1 {
      PrimeHasNoDivisor(p, g);
    }
  }

  lemma PrimeHasNoDivisor(p: int, d: int)
    requires Prime(p) && 2 <= d < p
    ensures p % d != 0
  {
    NoDivisor(p, p, d);
  }

  lemma BezoutLift(a: int, p: int, q: int, r: int, u: int, v: int)
    requires a == p * q + r
    ensures a * u + p * (v - q * u) == r * u + p * v
  {
    assert (p * q) * u == p * (q * u);
    assert p * (v - q * u) == p * v - p * (q * u);
  }

  // Euclid's lemma: a prime that divides a product divides a factor.
  lemma EuclidLemma(p: int, a: int, b: int)
    requires Prime(p) && (a * b) % p == 0 && a % p != 0
    ensures b % p == 0
  {
    hide NoDivisorBelow;
    var x, y := InverseModuloPrime(p, a);
    var l := (a * b) / p;
    FactorOfRest(p, a, b, x, y, l);
    MultipleIsDivisible(l * x + y * b, p);
  }

  lemma FactorOfRest(p: int, a: int, b: int, x: int, y: int, l: int)
    requires 1 == a * x + p * y && a * b == p * l
    ensures b == p * (l * x + y * b)
  {
    assert b == (a * x + p * y) * b;
    assert (a * x) * b == (a * b) * x == p * (l * x);
    assert (p * y) * b == p * (y * b);
  }

  function Product(s: seq<nat>): nat {
    if s == [] then 1 else Product(s[..|s| - 1]) * s[|s| - 1]
  }

  // Product of a prefix, one factor at a time.
  lemma ProductStep(s: seq<nat>, i: nat)
    requires i < |s|
    ensures Product(s[..i + 1]) == Product(s[..i]) * s[i]
  {
    assert s[..i + 1][..i] == s[..i];
  }

  predicate DistinctPrimes(s: seq<nat>) {
    && (forall i :: 0 <= i < |s| ==> Prime(s[i]))
    && (forall i, j :: 0 <= i < j < |s| ==> s[i] != s[j])
  }

  lemma {:induction false} ProductPositive(s: seq<nat>, i: nat)
    requires DistinctPrimes(s) && i <= |s|
    ensures Product(s[..i]) > 0
  {
    if i > 0 {
      ProductPositive(s, i - 1);
      ProductStep(s, i - 1);
      assert s[i - 1] > 0;
      hide *;
    } else {
      assert s[..0] == [];
    }
  }

  // A later prime does not divide the product of the earlier ones.
  lemma {:induction false} LaterPrimeDoesNotDivide(s: seq<nat>, i: nat, j: nat)
    requires DistinctPrimes(s) && i <= j < |s|
    ensures Product(s[..i]) % s[j] != 0
  {
    var p := s[j];
    if i == 0 {
      ModUnique(1, p, 0, 1);
    } else {
      var h := i - 1;
      LaterPrimeDoesNotDivide(s, h, j);
      ProductStep(s, h);
      if Product(s[..i]) % p == 0 {
        EuclidLemma(p, Product(s[..h]), s[h]);
        PrimeDividesPrime(p, s[h]);
        assert false;
      }
    }
  }

  lemma PrimeDividesPrime(p: int, q: int)
    requires Prime(p) && Prime(q) && q % p == 0
    ensures p == q
  {
    if p < q {
      PrimeHasNoDivisor(q, p);
    } else {
      assert q == p * (q / p);
      assert q / p >= 1;
    }
  }

  // Congruence modulo every prime of a list is congruence modulo the product.
  lemma {:induction false} CongProduct(s: seq<nat>, i: nat, a: int, b: int)
    requires DistinctPrimes(s) && i <= |s|
    requires forall j :: 0 <= j < i ==> Cong(a, b, s[j])
    ensures Product(s[..i]) > 0
    ensures Cong(a, b, Product(s[..i]))
  {
    ProductPositive(s, i);
    if i == 0 {
      CongFromFactor(a, b, 1, a - b);
    } else {
      var h := i - 1;
      var p, m := s[h], Product(s[..h]);
      CongProduct(s, h, a, b);
      LaterPrimeDoesNotDivide(s, h, h);
      CongCoprime(a, b, m, p);
      ProductStep(s, h);
    }
  }

  lemma CongCoprime(a: int, b: int, m: int, p: int)
    requires m > 0 && Prime(p) && m % p != 0 && Cong(a, b, m) && Cong(a, b, p)
    ensures m * p > 0 && Cong(a, b, m * p)
  {
    var k := CongFactor(a, b, m);
    EuclidLemma(p, m, k);
    var l := k / p;
    assert m * k == (m * p) * l by {
      assert k == p * l;
      assert m * (p * l) == (m * p) * l;
    }
    assert m * p > 0;
    CongFromFactor(a, b, m * p, l);
  }

  // Every prime of a list divides a product of a prefix containing it.
  lemma {:induction false} MemberDividesProduct(s: seq<nat>, i: nat, j: nat)
    requires DistinctPrimes(s) && j < i <= |s|
    ensures Product(s[..i]) % s[j] == 0
  {
    ProductStep(s, i - 1);
    if j == i - 1 {
      MultipleIsDivisible(Product(s[..j]), s[j]);
    } else {
      MemberDividesProduct(s, i - 1, j);
      MultipleOfMultiple(Product(s[..i - 1]), s[i - 1], s[j]);
    }
  }
}

/** Fermat's little theorem, by the binomial theorem. */
module Fermat {
  import opened Congruence
  import opened Primes

  function Choose(n: nat, k: nat): nat {
    if k == 0 then 1
    else if n == 0 then 0
    else Choose(n - 1, k - 1) + Choose(n - 1, k)
  }

  lemma {:induction false} ChooseAboveDiagonal(n: nat, k: nat)
    requires k > n
    ensures Choose(n, k) == 0
  {
    if n != 0 {
      ChooseAboveDiagonal(n - 1, k - 1);
      ChooseAboveDiagonal(n - 1, k);
    }
  }

  lemma {:induction false} ChooseDiagonal(n: nat)
    ensures Choose(n, n) == 1
  {
    if n != 0 {
      ChooseDiagonal(n - 1);
      ChooseAboveDiagonal(n - 1, n);
    }
  }

  // The absorption identity.
  lemma {:induction false} Absorption(n: nat, k: nat)
    requires n >= 1 && k >= 1
    ensures k * Choose(n, k) == n * Choose(n - 1, k - 1)
    decreases n, k
  {
    if n == 1 {
      if k > 1 {
        ChooseAboveDiagonal(1, k);
        ChooseAboveDiagonal(0, k - 1);
      }
    } else {
      var a, b := Choose(n - 1, k - 1), Choose(n - 1, k);
      Absorption(n - 1, k);
      if k == 1 {
        assert Choose(n, 1) == 1 + b;
      } else {
        Absorption(n - 1, k - 1);
        var c, d := Choose(n - 2, k - 2), Choose(n - 2, k - 1);
        AbsorptionStep(n, k, a, b, c, d);
      }
    }
  }

  lemma AbsorptionStep(n: int, k: int, a: int, b: int, c: int, d: int)
    requires a == c + d && k * b == (n - 1) * d && (k - 1) * a == (n - 1) * c
    ensures k * (a + b) == n * a
  {
    assert k * (a + b) == (k - 1) * a + a + k * b;
    assert (n - 1) * a == (n - 1) * c + (n - 1) * d;
  }

  lemma PrimeDividesChoose(p: nat, k: nat)
    requires Prime(p) && 0 < k < p
    ensures Choose(p, k) % p == 0
  {
    Absorption(p, k);
    MultipleIsDivisible(Choose(p - 1, k - 1), p);
    ModUnique(k, p, 0, k);
    EuclidLemma(p, k, Choose(p, k));
  }

  // Choose(n, 0) + Choose(n, 1) * x + ... + Choose(n, k - 1) * x^(k - 1)
  function BinomialSum(n: nat, k: nat, x: int): int {
    if k == 0 then 0 else BinomialSum(n, k - 1, x) + Choose(n, k - 1) * Pow(x, k - 1)
  }

  lemma {:induction false} PascalSum(n: nat, k: nat, x: int)
    ensures BinomialSum(n + 1, k + 1, x) == BinomialSum(n, k + 1, x) + x * BinomialSum(n, k, x)
  {
    if k != 0 {
      PascalSum(n, k - 1, x);
      PascalTerm(x, Choose(n, k - 1), Choose(n, k), Pow(x, k - 1), BinomialSum(n, k - 1, x));
    } else {
      assert BinomialSum(n + 1, 1, x) == 1;
      assert BinomialSum(n, 1, x) == 1;
    }
  }

  lemma PascalTerm(x: int, a: int, b: int, y: int, s: int)
    ensures (a + b) * (x * y) + x * s == b * (x * y) + x * (s + a * y)
  {
    assert x * (a * y) == a * (x * y);
    assert x * (s + a * y) == x * s + x * (a * y);
    assert (a + b) * (x * y) == a * (x * y) + b * (x * y);
  }

  lemma {:induction false} BinomialTheorem(n: nat, x: int)
    ensures Pow(x + 1, n) == BinomialSum(n, n + 1, x)
  {
    if n == 0 {
      assert BinomialSum(0, 1, x) == 1;
    } else {
      BinomialTheorem(n - 1, x);
      PascalSum(n - 1, n, x);
      ChooseAboveDiagonal(n - 1, n);
      var s := BinomialSum(n - 1, n, x);
      assert BinomialSum(n - 1, n + 1, x) == s;
      assert (x + 1) * s == s + x * s;
    }
  }

  // Only the first term of the partial sum survives modulo p.
  lemma {:induction false} InnerTermsVanish(p: nat, k: nat, x: int)
    requires Prime(p) && 1 <= k <= p
    ensures Cong(BinomialSum(p, k, x), 1, p)
  {
    if k == 1 {
      assert BinomialSum(p, 1, x) == 1;
      CongRefl(1, p);
    } else {
      InnerTermsVanish(p, k - 1, x);
      PrimeDividesChoose(p, k - 1);
      var c, y := Choose(p, k - 1), Pow(x, k - 1);
      assert c == p * (c / p);
      assert c * y == p * ((c / p) * y);
      CongFromFactor(c * y, 0, p, (c / p) * y);
      CongAdd(BinomialSum(p, k - 1, x), 1, c * y, 0, p);
    }
  }

  lemma FermatStep(x: int, p: nat)
    requires Prime(p) && Cong(Pow(x, p), x, p)
    ensures Cong(Pow(x + 1, p), x + 1, p)
  {
    BinomialTheorem(p, x);
    InnerTermsVanish(p, p, x);
    ChooseDiagonal(p);
    var s, y := BinomialSum(p, p, x), Pow(x, p);
    assert BinomialSum(p, p + 1, x) == s + y;
    CongAdd(s, 1, y, x, p);
  }

  // a^p is congruent to a modulo p, for every a >= 0 and every prime p.
  lemma {:induction false} FermatLittle(a: nat, p: nat)
    requires Prime(p)
    ensures Cong(Pow(a, p), a, p)
    decreases a
  {
    if a == 0 {
      assert Pow(0, p) == 0 * Pow(0, p - 1) == 0;
      CongRefl(0, p);
    } else {
      FermatLittle(a - 1, p);
      FermatStep(a - 1, p);
    }
  }

  // Exponents congruent to 1 modulo p - 1 act as the identity modulo p.
  lemma {:induction false} ExponentOne(a: nat, p: nat, k: nat)
    requires Prime(p)
    ensures k * (p - 1) >= 0
    ensures Cong(Pow(a, 1 + k * (p - 1)), a, p)
  {
    if k == 0 {
      assert 1 + k * (p - 1) == 1;
      assert Pow(a, 1) == a * Pow(a, 0) == a;
      CongRefl(a, p);
    } else {
      ExponentOne(a, p, k - 1);
      var e := 1 + (k - 1) * (p - 1);
      assert 1 + k * (p - 1) == e + (p - 1);
      PowAdd(a, e, p - 1);
      CongRefl(Pow(a, p - 1), p);
      CongMul(Pow(a, e), a, Pow(a, p - 1), Pow(a, p - 1), p);
      FermatLittle(a, p);
      CongTransitive(Pow(a, 1 + k * (p - 1)), Pow(a, p), a, p);
    }
  }

  // Reducing an exponent modulo p - 1 keeps the power modulo p, as long as
  // the reduced exponent is not zero.
  lemma ExponentReduction(a: nat, d: nat, p: nat)
    requires Prime(p) && p > 2 && d % (p - 1) != 0
    ensures Cong(Pow(a, d % (p - 1)), Pow(a, d), p)
  {
    var r, k := d % (p - 1), d / (p - 1);
    assert d == (p - 1) * k + r;
    assert k >= 0;
    ExponentOne(a, p, k);
    assert d == (r - 1) + (1 + k * (p - 1));
    PowAdd(a, r - 1, 1 + k * (p - 1));
    CongMulLeft(Pow(a, r - 1), Pow(a, 1 + k * (p - 1)), a, p);
    assert Pow(a, r) == a * Pow(a, r - 1);
    CongSymmetric(Pow(a, d), Pow(a, r), p);
  }
}
