/**
  * The multiplicative order of A modulo M is exactly N = M - 1.
  * The argument: A^N = 1; the exponents i with A^i = 1 are closed under greatest
  * common divisors, so a smaller one would give a proper divisor of N with
  * A^divisor = 1; every proper divisor of N divides N/f for one of the prime
  * factors f of N; and A^(N/f) is computed to differ from 1.
  */
module Order {
  import opened Words
  import opened Modular
  import opened Certificate

  const FACTORS: seq<nat> := [2, 3, 3, 7, 11, 31, 151, 331]

  ghost predicate Divides(d: nat, n: nat) {
    exists c: nat :: Times(d, c) == n
  }

  function Times(a: nat, b: nat): nat {
    a * b
  }

  function Product(fs: seq<nat>): nat {
    if fs == [] then 1 else Times(fs[0], Product(fs[1..]))
  }

  /** Trial division by every number from 2 up to b. */
  predicate NoDivisorUpTo(f: nat, b: nat) {
    b < 2 || (f % b != 0 && NoDivisorUpTo(f, b - 1))
  }

  ghost predicate IsPrime(f: nat) {
    f >= 2 && forall d: nat, c: nat :: Times(d, c) == f ==> d == 1 || c == 1
  }

  lemma {:induction false} TrialDivision(f: nat, b: nat, d: nat)
    requires NoDivisorUpTo(f, b) && 2 <= d <= b
    ensures f % d != 0
  {
    if d < b {
      TrialDivision(f, b - 1, d);
    }
  }

  /** Trial division up to the square root is enough. */
  lemma PrimeByTrialDivision(f: nat, b: nat)
    requires f >= 2 && NoDivisorUpTo(f, b) && (b + 1) * (b + 1) > f
    ensures IsPrime(f)
  {
    forall d: nat, c: nat | Times(d, c) == f
      ensures d == 1 || c == 1
    {
      SmallDivisor(f, b, d, c);
    }
  }

  lemma SmallDivisor(f: nat, b: nat, d: nat, c: nat)
    requires f >= 2 && NoDivisorUpTo(f, b) && (b + 1) * (b + 1) > f && d * c == f
    ensures d == 1 || c == 1
  {
    if d > b && c > b {
      MulMonotone(b + 1, d, b + 1, c);
    } else if 2 <= d <= b {
      DivModUnique(f, d, c, 0);
      TrialDivision(f, b, d);
    } else if 2 <= c <= b {
      DivModUnique(f, c, d, 0);
      TrialDivision(f, b, c);
    }
  }

  lemma MulMonotone(a: nat, b: nat, c: nat, d: nat)
    requires a <= b && c <= d
    ensures a * c <= b * d
  {
    assert a * c <= b * c <= b * d;
  }

  lemma FactorsArePrime()
    ensures forall f :: f in FACTORS ==> IsPrime(f)
  {
    PrimeByTrialDivision(2, 1);
    PrimeByTrialDivision(3, 1);
    PrimeByTrialDivision(7, 2);
    PrimeByTrialDivision(11, 3);
    PrimeByTrialDivision(31, 5);
    assert NoDivisorUpTo(151, 6);
    PrimeByTrialDivision(151, 12);
    assert NoDivisorUpTo(331, 6);
    assert NoDivisorUpTo(331, 12);
    PrimeByTrialDivision(331, 18);
  }

  lemma FactorsMultiplyToN()
    ensures Product(FACTORS) == N
  {
    assert FACTORS[1..][1..][1..][1..] == [11, 31, 151, 331];
    assert [11, 31, 151, 331][1..][1..] == [151, 331];
    assert Product([151, 331]) == 49981;
    assert Product([11, 31, 151, 331]) == 17043521;
    assert Product(FACTORS[1..][1..]) == 357913941;
  }

  lemma DistributeQuotient(g: nat, c: nat, q: nat, d: nat)
    ensures Times(Times(g, c), q) + Times(g, d) == Times(g, c * q + d)
  {
    assert g * c * q == g * (c * q);
  }

  /** Extended Euclid: the greatest common divisor as an integer combination. */
  lemma {:induction false} Bezout(a: nat, b: nat) returns (g: nat, x: int, y: int, ca: nat, cb: nat)
    requires a > 0
    ensures g == a * x + b * y && a == g * ca && b == g * cb
    decreases b
  {
    if b == 0 {
      g, x, y, ca, cb := a, 1, 0, 1, 0;
    } else {
      var q, r := Divide(a, b);
      var x', y', cb', cr;
      g, x', y', cb', cr := Bezout(b, r);
      x, y, ca, cb := y', x' - q * y', cb' * q + cr, cb';
      assert a * y' == b * (q * y') + r * y';
      DistributeQuotient(g, cb', q, cr);
    }
  }

  /** A divisor of f * r that is not hit by the prime f divides r. */
  lemma CancelPrime(k: nat, f: nat, r: nat)
    requires k > 0 && IsPrime(f) && !Divides(f, k) && Divides(k, Times(f, r))
    ensures Divides(k, r)
  {
    var c: nat :| Times(k, c) == Times(f, r);
    var g, x, y, ck, cf := Bezout(k, f);
    assert Times(g, cf) == f;
    assert g == f ==> Times(f, ck) == k;
    CombineToDivisor(k, f, r, c, x, y);
    DividesByInteger(k, r * x + c * y, r);
  }

  lemma DividesByInteger(k: nat, w: int, r: nat)
    requires k > 0 && k * w == r
    ensures Divides(k, r)
  {
    if w >= 0 {
      assert Times(k, w) == r;
    } else {
      assert k * w <= 0;
      assert Times(k, 0) == r;
    }
  }

  lemma CombineToDivisor(k: int, f: int, r: int, c: int, x: int, y: int)
    requires k * x + f * y == 1 && k * c == f * r
    ensures k * (r * x + c * y) == r
  {
    calc {
      k * (r * x + c * y);
      r * (k * x) + (k * c) * y;
      r * (k * x) + (f * r) * y;
      r * (k * x + f * y);
      r;
    }
  }

  /** A divisor k > 1 of a product of primes is a multiple of one of them. */
  lemma {:induction false} PrimeHit(k: nat, fs: seq<nat>)
    requires k > 1 && Divides(k, Product(fs))
    requires forall f :: f in fs ==> IsPrime(f)
    ensures exists f :: f in fs && Divides(f, k)
  {
    if fs == [] {
      var c: nat :| Times(k, c) == 1;
      MulMonotone(k, k, 1, c);
    } else if !Divides(fs[0], k) {
      CancelPrime(k, fs[0], Product(fs[1..]));
      PrimeHit(k, fs[1..]);
    }
  }

  lemma OneMultiple(i: nat, k: nat)
    requires Pow(A, i) == 1
    ensures Pow(A, Times(i, k)) == 1
  {
    PowMul(A, i, k);
    PowOfOne(k);
  }

  lemma OneRemainder(x: Residue, e: nat, r: nat)
    requires Pow(x, e) == 1 && Pow(x, e + r) == 1
    ensures Pow(x, r) == 1
  {
    PowAdd(x, e, r);
    MulOne(Pow(x, r));
  }

  /** Exponents of A that give 1 are closed under greatest common divisors. */
  lemma {:induction false} OneGcd(i: nat, j: nat) returns (g: nat, ci: nat, cj: nat)
    requires i > 0 && Pow(A, i) == 1 && Pow(A, j) == 1
    ensures g > 0 && Pow(A, g) == 1 && Times(g, ci) == i && Times(g, cj) == j
    decreases j
  {
    if j == 0 {
      g, ci, cj := i, 1, 0;
    } else {
      var q, r := Divide(i, j);
      OneMultiple(j, q);
      OneRemainder(A, Times(j, q), r);
      var cj', cr;
      g, cj', cr := OneGcd(j, r);
      ci, cj := cj' * q + cr, cj';
      DistributeQuotient(g, cj', q, cr);
    }
  }

  lemma PowChain(x: Residue, m: nat, n: nat, e: nat)
    requires e == m * n
    ensures Pow(x, e) == Pow(Pow(x, m), n)
  {
    PowMul(x, m, n);
  }

  lemma PowersAtLargeFactors(x: Residue)
    requires x == A
    ensures Pow(x, 6487866) == 759513457 && Pow(x, 14221746) == 1013763951
  {
    PowersOfA(x);
    PowersOfY(Pow(x, 42966));
    PowChain(x, 42966, 151, 6487866);
    PowChain(x, 42966, 331, 14221746);
  }

  lemma PowersAtMiddleFactors(x: Residue)
    requires x == A
    ensures Pow(x, 69273666) == 16384 && Pow(x, 195225786) == 298192073
    ensures Pow(x, 17043521) == 430777829
  {
    PowersOfA(x);
    PowersOfB(Pow(x, 331));
    PowChain(x, 331, 151, 49981);
    PowersOfZ(Pow(x, 49981));
    PowChain(x, 49981, 126, 6297606);
    PowChain(x, 49981, 341, 17043521);
    PowersOfW(Pow(x, 6297606));
    PowChain(x, 6297606, 11, 69273666);
    PowChain(x, 6297606, 31, 195225786);
  }

  lemma PowersAtSmallFactors(x: Residue)
    requires x == A
    ensures Pow(x, 306783378) == 1600955193 && Pow(x, 715827882) == 634005911
    ensures Pow(x, 1073741823) == M - 1 && Pow(x, N) == 1
  {
    PowersAtMiddleFactors(x);
    PowersOfX(Pow(x, 17043521));
    PowChain(x, 17043521, 18, 306783378);
    PowChain(x, 17043521, 42, 715827882);
    PowChain(x, 17043521, 63, 1073741823);
    PowChain(x, 17043521, 126, N);
  }

  ghost predicate DiffersAtFactor(x: Residue, f: nat) {
    f > 0 && Pow(x, N / f) != 1
  }

  /** The certificate: x^N is 1, and x^(N/f) is not, for each prime factor f of N. */
  lemma PowersAtFactors(x: Residue)
    requires x == A
    ensures Pow(x, N) == 1
    ensures forall f :: f in FACTORS ==> DiffersAtFactor(x, f)
  {
    PowersAtLargeFactors(x);
    PowersAtMiddleFactors(x);
    PowersAtSmallFactors(x);
    assert N / 2 == 1073741823 && N / 3 == 715827882 && N / 7 == 306783378 && N / 11 == 195225786;
    assert N / 31 == 69273666 && N / 151 == 14221746 && N / 331 == 6487866;
  }

  /** The order of A is exactly N: no smaller positive power is 1. */
  lemma ExactOrder(i: nat)
    requires 0 < i < N
    ensures Pow(A, i) != 1
  {
    if Pow(A, i) == 1 {
      PowersAtFactors(A);
      var g, k, c := OneGcd(N, i);
      MulMonotone(g, g, 1, c);
      FactorsArePrime();
      FactorsMultiplyToN();
      assert Times(k, g) == k * g == g * k == N;
      PrimeHit(k, FACTORS);
      var f :| f in FACTORS && Divides(f, k);
      var h: nat :| Times(f, h) == k;
      OneMultiple(g, h);
      QuotientByFactor(f, g, h);
      assert false;
    }
  }

  lemma QuotientByFactor(f: nat, g: nat, h: nat)
    requires f > 0 && g * (f * h) == N
    ensures Times(g, h) == N / f
  {
    assert f * (g * h) == g * (f * h);
    DivModUnique(N, f, g * h, 0);
  }
}
