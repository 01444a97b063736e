/** The base of `Skewed`, over one run of (M-1)/2 calls: pair counts, and when it is uniform. */
module SkewedRuns {
  import opened Words
  import opened Modular
  import opened Certificate
  import opened Order
  import opened Counting
  import opened RandomGenerator
  import opened RandomTheorems

  // ---------- which seeds a run draws its bases from ----------

  /** The base drawn by the k-th call, from 0, of a run of `Skewed(n - 1)`. */
  function SkewedBase(s: Seed, n: nat, k: nat): nat
    requires n > 0
  {
    SeedAfter(s, 2 * k + 1) % n
  }

  /** The base is what `Uniform(n)` returns first, after k calls of two steps each. */
  lemma BaseIsFirstStep(s: Seed, n: nat, k: nat)
    requires n > 0
    ensures SkewedBase(s, n, k) == SeedAfter(SeedAfter(s, 2 * k), 1) % n
    ensures SkewedBase(s, n, k) == IntPow(A, 2 * k + 1) * s % M % n
  {
    SeedAfterAdd(s, 2 * k, 1);
    ClosedForm(s, 2 * k + 1);
  }

  /** Which seed of the run, counted from s, the k-th call draws its base from. */
  function FirstDraw(k: nat): nat {
    2 * k + 1
  }

  /** The same, still counted from s, for a run that starts one seed later. */
  function FirstDrawOfNext(k: nat): nat {
    2 * k + 2
  }

  /** The calls among the first (M-1)/2 that draw base b. */
  ghost function BaseHits(s: Seed, n: nat, b: nat): set<nat>
    requires n > 0
  {
    set k: nat | 0 <= k < N / 2 && SkewedBase(s, n, k) == b
  }

  /** A run of `Skewed` is back at its state exactly after every (M-1)/2 calls. */
  lemma SkewedPeriod(s: Seed, j: nat, k: nat)
    requires j <= k
    ensures SeedAfter(s, 2 * j) == SeedAfter(s, 2 * k) <==> (k - j) % ((M - 1) / 2) == 0
  {
    ExactPeriod(s, 2 * j, 2 * k);
    DoubledMultiple(k - j);
  }

  lemma SecondDraw(s: Seed, n: nat, k: nat)
    requires n > 0
    ensures SkewedBase(Step(s), n, k) == SeedAfter(s, 2 * k + 2) % n
  {
    SeedAfterAdd(s, 1, 2 * k + 1);
    assert SeedAfter(s, 1) == Step(SeedAfter(s, 0));
  }

  /** Every index of 1..N is the first draw of a call in exactly one of the two runs. */
  lemma SplitHits(s: Seed, n: nat, b: nat)
    requires n > 0
    ensures UniformHits(s, n, b) ==
            Image(FirstDraw, BaseHits(s, n, b)) + Image(FirstDrawOfNext, BaseHits(Step(s), n, b))
  {
    var odd, even := Image(FirstDraw, BaseHits(s, n, b)), Image(FirstDrawOfNext, BaseHits(Step(s), n, b));
    forall i | i in UniformHits(s, n, b)
      ensures i in odd + even
    {
      var k := (i - 1) / 2;
      SecondDraw(s, n, k);
      assert i == 2 * k + 1 ==> k in BaseHits(s, n, b);
      assert i == 2 * k + 2 ==> k in BaseHits(Step(s), n, b);
    }
    forall k | k in BaseHits(Step(s), n, b)
      ensures 2 * k + 2 in UniformHits(s, n, b)
    {
      SecondDraw(s, n, k);
    }
  }

  /**
    * Base b over a period from s and over a period from the next seed, two runs that
    * share no first draw: together as often as b among 1..M-1 modulo n.
    */
  lemma SkewedBaseCount(s: Seed, n: nat, b: nat)
    requires b < n
    ensures |BaseHits(s, n, b)| + |BaseHits(Step(s), n, b)| == ResidueCount(M - 1, n, b)
  {
    OddAndEven(BaseHits(s, n, b), BaseHits(Step(s), n, b));
    SplitHits(s, n, b);
    UniformCount(s, n, b);
  }

  lemma OddAndEven(first: set<nat>, second: set<nat>)
    ensures |Image(FirstDraw, first) + Image(FirstDrawOfNext, second)| == |first| + |second|
  {
    ImageSize(FirstDraw, first);
    ImageSize(FirstDrawOfNext, second);
    var odd, even := Image(FirstDraw, first), Image(FirstDrawOfNext, second);
    assert odd !! even;
    assert |odd + even| == |odd| + |even|;
  }

  /** The call 2^29 later, in the cycle of (M-1)/2 calls; 2^30 is (M-1)/2 + 1. */
  function Rotate(k: nat): nat {
    if k + 0x2000_0000 < (M - 1) / 2 then k + 0x2000_0000
    else k + 0x2000_0000 - (M - 1) / 2
  }

  /** That call draws its base from the complement of the second draw of call k. */
  lemma RotatedDraw(s: Seed, k: nat)
    requires k < (M - 1) / 2
    ensures SeedAfter(s, 2 * Rotate(k) + 1) == M - SeedAfter(s, 2 * k + 2)
  {
    var i, j := 2 * Rotate(k) + 1, 2 * k + 2 + (M - 1) / 2;
    Antipode(s, 2 * k + 2, (M - 1) / 2);
    assert i == j || i + N == j;
    if i != j {
      ExactPeriod(s, i, j);
    }
  }

  lemma MirrorResidue(x: int, n: nat, b: nat)
    requires b < n
    ensures x % n == b <==> (M - x) % n == (M - b) % n
  {
    DivModSmall(b, n);
    Congruent(b, x, n);
    Congruent(M - x, M - b, n);
  }

  lemma RotateHits(s: Seed, n: nat, b: nat, k: nat)
    requires b < n && k < N / 2
    ensures k in BaseHits(Step(s), n, b) <==> Rotate(k) in BaseHits(s, n, (M - b) % n)
  {
    SecondDraw(s, n, k);
    RotatedDraw(s, k);
    MirrorResidue(SeedAfter(s, 2 * k + 2), n, b);
  }

  lemma RotateIsOnto(j: nat) returns (k: nat)
    requires j < N / 2
    ensures k < N / 2 && Rotate(k) == j
  {
    k := if j >= 0x2000_0000 then j - 0x2000_0000 else j + N / 2 - 0x2000_0000;
  }

  /** The rotation carries base b of the run from the next seed to base M - b of the run from s. */
  lemma NextRunMirrors(s: Seed, n: nat, b: nat)
    requires b < n
    ensures |BaseHits(Step(s), n, b)| == |BaseHits(s, n, (M - b) % n)|
  {
    var hits, mirrored := BaseHits(Step(s), n, b), BaseHits(s, n, (M - b) % n);
    ImageSize(Rotate, hits);
    forall k | k in hits
      ensures Rotate(k) in mirrored
    {
      RotateHits(s, n, b, k);
    }
    forall j | j in mirrored
      ensures j in Image(Rotate, hits)
    {
      var k := RotateIsOnto(j);
      RotateHits(s, n, b, k);
    }
    assert Image(Rotate, hits) == mirrored;
  }

  /**
    * Over one run of (M-1)/2 calls, bases b and M - b modulo n together come up
    * exactly as often as b among 1..M-1 modulo n.
    */
  lemma SkewedPairCount(s: Seed, n: nat, b: nat)
    requires b < n
    ensures |BaseHits(s, n, b)| + |BaseHits(s, n, (M - b) % n)| == ResidueCount(M - 1, n, b)
  {
    SkewedBaseCount(s, n, b);
    NextRunMirrors(s, n, b);
  }

  /** Each of the n bases is drawn by c of the calls. */
  ghost predicate EquallyOften(s: Seed, n: nat, c: nat)
    requires n > 0
  {
    forall b: nat :: b < n ==> |BaseHits(s, n, b)| == c
  }

  ghost predicate UniformRun(s: Seed, n: nat)
    requires n > 0
  {
    exists c: nat :: EquallyOften(s, n, c)
  }

  ghost function Bases(s: Seed, n: nat): nat -> nat
    requires n > 0
  {
    k => SkewedBase(s, n, k)
  }

  lemma AllBasesAreBelow(s: Seed, n: nat)
    requires n > 0
    ensures SentBelow(Bases(s, n), Below(N / 2), n) == Below(N / 2)
  {
  }

  /** The calls are shared out evenly, so the number of bases divides (M-1)/2. */
  lemma EqualShare(s: Seed, n: nat, c: nat)
    requires n > 0 && EquallyOften(s, n, c)
    ensures n * c == (M - 1) / 2
  {
    forall b: nat | b < n
      ensures |Fibre(Bases(s, n), Below(N / 2), b)| == c
    {
      assert BaseHits(s, n, b) == Fibre(Bases(s, n), Below(N / 2), b);
    }
    EqualFibres(Bases(s, n), Below(N / 2), n, c);
    AllBasesAreBelow(s, n);
    BelowSize(N / 2);
  }

  // ---------- sums over a run ----------

  /** Every other seed of the run, from the i-th on. */
  ghost function EveryOther(s: Seed, i: nat): nat -> nat {
    k => SeedAfter(s, i + 2 * k)
  }

  lemma AfterPeriods(s: Seed, i: nat, n: nat)
    requires n % N == 0
    ensures SeedAfter(s, i + n) == SeedAfter(s, i)
  {
    SeedAfterAdd(s, i, n);
    ReturnsAfterPeriods(SeedAfter(s, i), n);
  }

  lemma SumWithoutFirst(s: Seed, i: nat, h: nat)
    ensures SeedAfter(s, i) + Sum(EveryOther(s, i + 2), h) == Sum(EveryOther(s, i), h) + SeedAfter(s, i + 2 * h)
  {
    SumOfTail(EveryOther(s, i), EveryOther(s, i + 2), h);
  }

  lemma SumSkipsTwo(s: Seed, i: nat, h: nat)
    requires 2 * h % N == 0
    ensures Sum(EveryOther(s, i + 2), h) == Sum(EveryOther(s, i), h)
  {
    SumWithoutFirst(s, i, h);
    AfterPeriods(s, i, 2 * h);
  }

  lemma {:induction false} SumSkipsEven(s: Seed, i: nat, f: nat, h: nat)
    requires 2 * h % N == 0
    ensures Sum(EveryOther(s, i + 2 * f), h) == Sum(EveryOther(s, i), h)
  {
    if f > 0 {
      SumSkipsEven(s, i, f - 1, h);
      SumSkipsTwo(s, i + 2 * (f - 1), h);
      assert i + 2 * (f - 1) + 2 == i + 2 * f;
    }
  }

  /** Half a period on, every term is the complement to M. */
  lemma SumOfAntipodes(s: Seed, i: nat, h: nat)
    requires 2 * h + 1 == M
    ensures Sum(EveryOther(s, i), h) + Sum(EveryOther(s, i + h), h) == h * M
  {
    forall k | 0 <= k < h
      ensures EveryOther(s, i)(k) + EveryOther(s, i + h)(k) == M
    {
      Antipode(s, i + 2 * k, h);
      assert i + h + 2 * k == i + 2 * k + h;
    }
    SumOfPairs(EveryOther(s, i), EveryOther(s, i + h), h, M);
  }

  /** Half a period is odd: e is even, or half a period on it is. */
  lemma Parity(e: nat, h: nat) returns (f: nat)
    requires 2 * h + 1 == M
    ensures e == 2 * f || e + h == 2 * f
  {
    f := if e % 2 == 0 then e / 2 else (e + h) / 2;
  }

  /** Starting an even number of seeds later gives the same sum. */
  lemma SumFromEven(s: Seed, e: nat, f: nat, h: nat)
    requires 2 * h + 1 == M && e == 2 * f
    ensures Sum(EveryOther(s, 1 + e), h) == Sum(EveryOther(s, 1), h)
  {
    DivModUnique(2 * h, N, 1, 0);
    SumSkipsEven(s, 1, f, h);
  }

  /** Starting an odd number of seeds later, which half a period makes even, gives the complement. */
  lemma SumFromOdd(s: Seed, e: nat, f: nat, h: nat)
    requires 2 * h + 1 == M && e + h == 2 * f
    ensures Sum(EveryOther(s, 1 + e), h) + Sum(EveryOther(s, 1), h) == h * M
  {
    SumFromEven(s, e + h, f, h);
    SumOfAntipodes(s, 1 + e, h);
    assert 1 + e + h == 1 + (e + h);
  }

  // ---------- dividing the draws by the number of bases ----------

  /** Every seed has an inverse among the powers of A. */
  lemma InverseIsPower(n: Seed) returns (e: nat)
    ensures Mul(n, Pow(A, e)) == 1
  {
    var j := SeedIsPower(n);
    e := PowInverse(j);
    PowAdd(A, e, j);
    MulCommutes(n, Pow(A, e));
  }

  /** With A^e the inverse of n, the seed e calls later is the draw divided by n. */
  lemma DividedDraw(s: Seed, n: nat, e: nat, i: nat)
    requires Mul(n, Pow(A, e)) == 1
    ensures Mul(n, SeedAfter(s, i + e)) == SeedAfter(s, i)
  {
    var x := SeedAfter(s, i);
    SeedAfterAdd(s, i, e);
    SeedAfterIsPower(x, e);
    MulAssoc(n, Pow(A, e), x);
    MulOne(x);
  }

  /** The quotient by M left by n times a seed that is i seeds into the run. */
  ghost function Quotient(s: Seed, n: nat, i: nat): nat {
    n * SeedAfter(s, i) / M
  }

  ghost function Quotients(s: Seed, n: nat, i: nat): nat -> nat {
    k => Quotient(s, n, i + 2 * k)
  }

  lemma QuotientEquation(s: Seed, n: nat, e: nat, i: nat)
    requires Mul(n, Pow(A, e)) == 1
    ensures n * SeedAfter(s, i + e) == M * Quotient(s, n, i + e) + SeedAfter(s, i)
  {
    DividedDraw(s, n, e, i);
    var q, r := Divide(n * SeedAfter(s, i + e), M);
    DivModUnique(n * SeedAfter(s, i + e), M, q, r);
  }

  lemma QuotientBound(n: nat, a: nat, q: nat, x: nat)
    requires n > 0 && a < M && n * a == M * q + x
    ensures q < n
  {
    MulMonotone(n, n, a, M - 1);
  }

  lemma QuotientResidue(n: nat, a: nat, q: nat, x: nat, d: nat)
    requires n > 0 && n * a == M * q + x && M == d * n + 1
    ensures (q + x) % n == 0
  {
    assert M * q == d * q * n + q;
    assert q + x == (a - d * q) * n;
    DivModUnique(q + x, n, a - d * q, 0);
  }

  /** If M is 1 modulo n, the quotient is the mirrored residue of the draw. */
  lemma QuotientIsMirror(n: nat, q: nat, x: nat)
    requires q < n && (q + x) % n == 0
    ensures x % n == if q == 0 then 0 else n - q
  {
    var z := if q == 0 then 0 else n - q;
    Congruent(x, 0 - q, n);
    DivModUnique(0 - q, n, if q == 0 then 0 else -1, z);
  }

  /** So the quotients are spread over 0..n-1 as the bases are. */
  lemma QuotientFibre(s: Seed, n: nat, e: nat, c: nat, v: nat)
    requires n > 0 && EquallyOften(s, n, c) && v < n && Mul(n, Pow(A, e)) == 1
    ensures |Fibre(Quotients(s, n, 1 + e), Below(N / 2), v)| == c
  {
    EqualShare(s, n, c);
    var b := if v == 0 then 0 else n - v;
    var fibre := Fibre(Quotients(s, n, 1 + e), Below(N / 2), v);
    forall k: nat
      ensures Quotient(s, n, 1 + e + 2 * k) == v <==> SkewedBase(s, n, k) == b
    {
      QuotientAndBase(s, n, e, c, k);
    }
    assert fibre == BaseHits(s, n, b);
  }

  lemma MirrorOfQuotient(n: nat, c: nat, a: nat, q: nat, x: nat)
    requires n > 0 && n * c == (M - 1) / 2 && a < M && n * a == M * q + x
    ensures q < n && x % n == if q == 0 then 0 else n - q
  {
    QuotientBound(n, a, q, x);
    assert 2 * c * n == 2 * (n * c);
    QuotientResidue(n, a, q, x, 2 * c);
    QuotientIsMirror(n, q, x);
  }

  lemma QuotientAndBase(s: Seed, n: nat, e: nat, c: nat, k: nat)
    requires n > 0 && n * c == (M - 1) / 2 && Mul(n, Pow(A, e)) == 1
    ensures var q := Quotient(s, n, 1 + e + 2 * k);
      q < n && SkewedBase(s, n, k) == if q == 0 then 0 else n - q
  {
    var i := 2 * k + 1;
    assert i + e == 1 + e + 2 * k;
    QuotientEquation(s, n, e, i);
    MirrorOfQuotient(n, c, SeedAfter(s, i + e), Quotient(s, n, i + e), SeedAfter(s, i));
  }

  // ---------- when the base is uniform ----------

  lemma CancelFactor(p: int, x: int, y: int)
    requires p > 0 && p * x == p * y
    ensures x == y
  {
    assert p * (x - y) == 0;
  }

  lemma MissedBySameSum(n: nat, draws: int, quotients: int, h: nat)
    requires 2 * h + 1 == M && n > 1 && n * draws == M * quotients + draws
    ensures 2 * quotients != h * (n - 1)
  {
    if 2 * quotients == h * (n - 1) {
      assert (n - 1) * (2 * draws) == (n - 1) * (h * M);
      CancelFactor(n - 1, 2 * draws, h * M);
    }
  }

  lemma MissedByComplement(n: nat, divided: int, draws: int, quotients: int, h: nat)
    requires 2 * h + 1 == M && n > 1 && n * divided == M * quotients + draws && divided + draws == h * M
    ensures 2 * quotients != h * (n - 1)
  {
    if 2 * quotients == h * (n - 1) {
      assert n * divided == n * (h * M) - n * draws;
      assert (n + 1) * (2 * draws) == (n + 1) * (h * M);
      CancelFactor(n + 1, 2 * draws, h * M);
    }
  }

  /** The quotients of a uniform run, added up: their mean is (n-1)/2. */
  lemma SumOfQuotients(s: Seed, n: nat, e: nat, c: nat, h: nat)
    requires 2 * h + 1 == M && n > 0 && EquallyOften(s, n, c) && Mul(n, Pow(A, e)) == 1
    ensures 2 * Sum(Quotients(s, n, 1 + e), h) == h * (n - 1)
  {
    var f := Quotients(s, n, 1 + e);
    EqualShare(s, n, c);
    forall v: nat | v < n
      ensures |Fibre(f, Below(h), v)| == c
    {
      QuotientFibre(s, n, e, c, v);
    }
    forall k | 0 <= k < h
      ensures f(k) < n
    {
      QuotientAndBase(s, n, e, c, k);
    }
    SumOfEqualFibres(f, h, n, c);
    AllSmall(f, h, n);
  }

  lemma ScaledSums(s: Seed, n: nat, e: nat, h: nat)
    requires Mul(n, Pow(A, e)) == 1
    ensures n * Sum(EveryOther(s, 1 + e), h) == M * Sum(Quotients(s, n, 1 + e), h) + Sum(EveryOther(s, 1), h)
  {
    forall k | 0 <= k < h
      ensures n * EveryOther(s, 1 + e)(k) == M * Quotients(s, n, 1 + e)(k) + EveryOther(s, 1)(k)
    {
      QuotientEquation(s, n, e, 1 + 2 * k);
      assert 1 + 2 * k + e == 1 + e + 2 * k;
    }
    SumOfScaled(EveryOther(s, 1 + e), Quotients(s, n, 1 + e), EveryOther(s, 1), h, n, M);
  }

  /**
    * The quotients never have the mean (n-1)/2: the draws divided by n are the same
    * seeds or their complements, and either way twice the sum of the draws would be
    * the odd number M * (M-1)/2.
    */
  lemma MeanIsMissed(s: Seed, n: nat, e: nat, h: nat)
    requires 2 * h + 1 == M && n > 1 && Mul(n, Pow(A, e)) == 1
    ensures 2 * Sum(Quotients(s, n, 1 + e), h) != h * (n - 1)
  {
    var divided, draws := Sum(EveryOther(s, 1 + e), h), Sum(EveryOther(s, 1), h);
    var quotients := Sum(Quotients(s, n, 1 + e), h);
    ScaledSums(s, n, e, h);
    var f := Parity(e, h);
    if e == 2 * f {
      SumFromEven(s, e, f, h);
      MissedBySameSum(n, draws, quotients, h);
    } else {
      SumFromOdd(s, e, f, h);
      MissedByComplement(n, divided, draws, quotients, h);
    }
  }

  /** With two or more bases no run is uniform; if one were, the quotients would have that mean. */
  lemma NeverUniform(s: Seed, n: nat, c: nat, h: nat)
    requires 2 * h + 1 == M && n > 1
    ensures !EquallyOften(s, n, c)
  {
    if EquallyOften(s, n, c) {
      EqualShare(s, n, c);
      MulMonotone(n, n, 1, c);
      var e := InverseIsPower(n);
      MeanIsMissed(s, n, e, h);
      SumOfQuotients(s, n, e, c, h);
      assert false;
    }
  }

  lemma OneBase(s: Seed)
    ensures EquallyOften(s, 1, |BaseHits(s, 1, 0)|)
  {
  }

  /**
    * Over one run, from any seed, the bases 0..maxLog come up equally often exactly
    * when there is only one of them.
    */
  lemma SkewedUniformIff(s: Seed, maxLog: nat)
    ensures UniformRun(s, maxLog + 1) <==> maxLog == 0
  {
    var n := maxLog + 1;
    if maxLog == 0 {
      OneBase(s);
    } else {
      forall c: nat
        ensures !EquallyOften(s, n, c)
      {
        NeverUniform(s, n, c, N / 2);
      }
    }
  }

  /** The smallest failing input: with maxLog == 1, bases 0 and 1 never come up equally often. */
  lemma TwoBasesDiffer(s: Seed)
    ensures |BaseHits(s, 2, 0)| != |BaseHits(s, 2, 1)|
  {
    SkewedUniformIff(s, 1);
    assert !EquallyOften(s, 2, |BaseHits(s, 2, 0)|);
  }
}
