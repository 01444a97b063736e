/** What every run of the generator does: closed form, exact period, exact distribution. */
module RandomTheorems {
  import opened Words
  import opened Modular
  import opened Certificate
  import opened Order
  import opened Counting
  import opened RandomGenerator

  // ---------- closed form ----------

  lemma {:induction false} SeedAfterIsPower(s: Seed, n: nat)
    ensures SeedAfter(s, n) == Mul(Pow(A, n), s)
  {
    if n > 0 {
      SeedAfterIsPower(s, n - 1);
      MulCommutes(SeedAfter(s, n - 1), A);
      MulAssoc(A, Pow(A, n - 1), s);
    }
  }

  /** n calls multiply the seed by A^n modulo M. */
  lemma ClosedForm(s: Seed, n: nat)
    ensures SeedAfter(s, n) == IntPow(A, n) * s % M
  {
    SeedAfterIsPower(s, n);
    PowIsIntPow(A, n);
    MulReduceLeft(IntPow(A, n), s);
  }

  /** A step can be undone, on either side: `Next` permutes the seeds. */
  lemma StepIsBijective(s: Seed)
    ensures Previous(Step(s)) == s && Step(Previous(s)) == s
  {
    InverseOfA();
    UnitKeepsSeed(s, A, INVERSE_A);
    UnitKeepsSeed(s, INVERSE_A, A);
  }

  // ---------- period ----------

  lemma PowAtMultiple(n: nat, q: nat)
    requires n == N
    ensures Pow(A, Times(n, q)) == 1
  {
    var x: Residue := A;
    PowersAtFactors(x);
    PowMul(x, n, q);
    PowOfOne(q);
  }

  lemma PowReduceExponent(k: nat, n: nat)
    requires n == N
    ensures Pow(A, k) == Pow(A, k % n)
  {
    var q, r := Divide(k, n);
    DivModUnique(k, n, q, r);
    assert k == Times(n, q) + r;
    PowAtMultiple(n, q);
    PowAdd(A, Times(n, q), r);
  }

  /** A power of A is 1 exactly when the exponent is a multiple of N. */
  lemma PowIsOne(k: nat)
    ensures Pow(A, k) == 1 <==> k % N == 0
  {
    PowReduceExponent(k, N);
    if k % N > 0 {
      ExactOrder(k % N);
    }
  }

  /** Every power of A has an inverse among the powers of A. */
  lemma PowInverse(i: nat) returns (e: nat)
    ensures Pow(A, e + i) == 1
  {
    e := Times(N - 1, i);
    PowAtMultiple(N, i);
    assert e + i == Times(N, i);
  }

  lemma CancelInvertible(p: Residue, a: Residue, b: Residue)
    requires Mul(p, a) == 1
    ensures Mul(a, b) == a <==> b == 1
  {
    MulAssoc(p, a, b);
  }

  lemma PowDifference(i: nat, k: nat)
    ensures Pow(A, i + k) == Pow(A, i) <==> k % N == 0
  {
    PowIsOne(k);
    PowAdd(A, i, k);
    var e := PowInverse(i);
    PowAdd(A, e, i);
    CancelInvertible(Pow(A, e), Pow(A, i), Pow(A, k));
  }

  function PowerOfA(i: nat): nat {
    Pow(A, i)
  }

  lemma PowersAreDistinct()
    ensures InjectiveOn(PowerOfA, Interval(N))
  {
    forall x, y | x in Interval(N) && y in Interval(N) && PowerOfA(x) == PowerOfA(y)
      ensures x == y
    {
      if x < y {
        PowDifference(x, y - x);
      } else if y < x {
        PowDifference(y, x - y);
      }
    }
  }

  lemma PowerIsSeed(i: nat)
    ensures 1 <= PowerOfA(i) <= N
  {
    SeedAfterIsPower(1, i);
    MulCommutes(Pow(A, i), 1);
  }

  /** Every seed is a power of A: the powers are distinct, so they fill 1..N. */
  lemma SeedIsPower(s: Seed) returns (j: nat)
    ensures Pow(A, j) == s
  {
    forall i: nat
      ensures 1 <= PowerOfA(i) <= N
    {
      PowerIsSeed(i);
    }
    PowersAreDistinct();
    j := PigeonholeWitness(PowerOfA, N, s);
  }

  /** From any seed, two states of a run agree exactly when they are a multiple of N calls apart. */
  lemma ExactPeriod(s: Seed, i: nat, j: nat)
    requires i <= j
    ensures SeedAfter(s, i) == SeedAfter(s, j) <==> (j - i) % N == 0
  {
    var p := SeedIsPower(s);
    SeedAfterIsPower(s, i);
    SeedAfterIsPower(s, j);
    PowAdd(A, i, p);
    PowAdd(A, j, p);
    PowDifference(i + p, j - i);
    assert i + p + (j - i) == j + p;
  }

  /** The results of n consecutive calls of `Next`. */
  function Outputs(s: Seed, n: nat): (r: seq<Seed>)
    ensures |r| == n
  {
    seq(n, i requires 0 <= i < n => SeedAfter(s, i + 1))
  }

  ghost function Run(s: Seed): nat -> nat {
    i => SeedAfter(s, i)
  }

  lemma RunIsInjective(s: Seed)
    ensures InjectiveOn(Run(s), Interval(N))
  {
    forall x, y | x in Interval(N) && y in Interval(N) && Run(s)(x) == Run(s)(y)
      ensures x == y
    {
      if x <= y {
        ExactPeriod(s, x, y);
        DivModSmall(y - x, N);
      } else {
        ExactPeriod(s, y, x);
        DivModSmall(x - y, N);
      }
    }
  }

  /**
    * The full cycle: from any state, N = M - 1 calls of `Next` return pairwise
    * distinct values, every number of 1..M-1 among them, and lead back to the state.
    */
  lemma FullCycle(s: Seed)
    ensures forall i, j :: 0 <= i < j < N ==> Outputs(s, N)[i] != Outputs(s, N)[j]
    ensures forall x: nat :: x in Outputs(s, N) <==> 1 <= x <= M - 1
    ensures SeedAfter(s, N) == s
  {
    OutputsAreDistinct(s);
    OutputsAreAllSeeds(s);
    ReturnsAfterPeriods(s, N);
  }

  lemma ReturnsAfterPeriods(s: Seed, n: nat)
    requires n % N == 0
    ensures SeedAfter(s, n) == s
  {
    ExactPeriod(s, 0, n);
  }

  /** Each result in closed form. */
  lemma OutputAt(s: Seed, n: nat, i: nat)
    requires i < n
    ensures Outputs(s, n)[i] == IntPow(A, i + 1) * s % M
  {
    ClosedForm(s, i + 1);
  }

  lemma OutputsAreDistinct(s: Seed)
    ensures forall i, j :: 0 <= i < j < N ==> Outputs(s, N)[i] != Outputs(s, N)[j]
  {
    forall i, j | 0 <= i < j < N
      ensures Outputs(s, N)[i] != Outputs(s, N)[j]
    {
      ExactPeriod(s, i + 1, j + 1);
    }
  }

  lemma OutputsAreAllSeeds(s: Seed)
    ensures forall x: nat :: x in Outputs(s, N) <==> 1 <= x <= M - 1
  {
    forall x: nat | 1 <= x <= M - 1
      ensures x in Outputs(s, N)
    {
      EverySeedIsReached(s, x);
    }
  }

  lemma EverySeedIsReached(s: Seed, x: Seed)
    ensures x in Outputs(s, N)
  {
    RunIsInjective(s);
    var i := PigeonholeWitness(Run(s), N, x);
    assert Outputs(s, N)[i - 1] == x;
  }

  lemma Complement(t: Seed)
    ensures Mul(M - 1, t) == M - t
  {
    DivModUnique((M - 1) * t, M, t - 1, M - t);
  }

  /** Half a period later the seed is the complement to M: A^((M-1)/2) is -1. */
  lemma Antipode(s: Seed, i: nat, h: nat)
    requires h == (M - 1) / 2
    ensures SeedAfter(s, i + h) == M - SeedAfter(s, i)
  {
    var x: Residue := A;
    PowersAtSmallFactors(x);
    SeedAfterAdd(s, i, h);
    SeedAfterIsPower(SeedAfter(s, i), h);
    Complement(SeedAfter(s, i));
  }

  // ---------- distribution ----------

  /** The calls among the first N whose result of `Uniform(n)` is v. */
  ghost function UniformHits(s: Seed, n: nat, v: nat): set<nat>
    requires n > 0
  {
    set i: nat | 1 <= i <= N && SeedAfter(s, i) % n == v
  }

  /** Over a full period each value of `Uniform(n)` comes up this many times. */
  lemma UniformCount(s: Seed, n: nat, v: nat)
    requires v < n
    ensures |UniformHits(s, n, v)| == if v == 0 then N / n else if v <= N then (N - v) / n + 1 else 0
  {
    RunIsInjective(s);
    PermutationKeepsHits(Run(s), N, n, v);
    IdentityHits(N, n, v);
    assert UniformHits(s, n, v) == Hits(Run(s), N, n, v);
  }

  /** Balance: no two values of `Uniform(n)` differ by more than one in frequency. */
  lemma UniformBalance(s: Seed, n: nat, v: nat, w: nat)
    requires v < n && w < n
    ensures |UniformHits(s, n, v)| <= |UniformHits(s, n, w)| + 1
  {
    UniformCount(s, n, v);
    UniformCount(s, n, w);
    ResidueCountBounds(N, n, v);
    ResidueCountBounds(N, n, w);
  }

  lemma ResidueCountBounds(n: nat, d: nat, v: nat)
    requires v < d
    ensures n / d <= ResidueCount(n, d, v) <= n / d + 1
  {
    if 0 < v <= n {
      var q, r := (n - v) / d, (n - v) % d;
      if r + v < d {
        DivModUnique(n, d, q, r + v);
      } else {
        DivModUnique(n, d, q + 1, r + v - d);
      }
    } else if n < v {
      DivModSmall(n, d);
    }
  }

  /** Each of the n values comes up c times. */
  ghost predicate ValuesEquallyOften(s: Seed, n: nat, c: nat)
    requires n > 0
  {
    forall v: nat :: v < n ==> |UniformHits(s, n, v)| == c
  }

  /** Over a full period `Uniform(n)` is exactly uniform when n divides M - 1, and only then. */
  lemma UniformIff(s: Seed, n: nat)
    requires n > 0
    ensures (exists c: nat :: ValuesEquallyOften(s, n, c)) <==> (M - 1) % n == 0
  {
    if N % n == 0 {
      forall v: nat | v < n
        ensures |UniformHits(s, n, v)| == N / n
      {
        UniformCount(s, n, v);
        EvenResidues(N, n, v);
      }
      assert ValuesEquallyOften(s, n, N / n);
    } else {
      UniformCount(s, n, 0);
      UniformCount(s, n, N % n);
      UnevenResidues(N, n);
    }
  }

  /** Over a full period `OneIn(n)` is true exactly floor((M-1)/n) times. */
  lemma OneInCount(s: Seed, n: nat)
    requires n > 0
    ensures |UniformHits(s, n, 0)| == (M - 1) / n
  {
    UniformCount(s, n, 0);
  }

  // ---------- 64-bit values ----------

  /** The k-th result, from 0, of a run of `Next64` calls. */
  function Draw64(s: Seed, k: nat): nat {
    Joined(SeedAfter(s, 2 * k + 1), SeedAfter(s, 2 * k + 2))
  }

  lemma Draw64Halves(s: Seed, k: nat)
    ensures Draw64(s, k) == Joined(SeedAfter(s, 2 * k + 1), Step(SeedAfter(s, 2 * k + 1)))
  {
  }

  /** The k-th result is what `Next64` returns after k calls of two steps each. */
  lemma Draw64IsCall(s: Seed, k: nat)
    ensures var state := SeedAfter(s, 2 * k);
      Draw64(s, k) == Joined(SeedAfter(state, 1), SeedAfter(state, 2))
  {
    SeedAfterAdd(s, 2 * k, 1);
    SeedAfterAdd(s, 2 * k, 2);
  }

  /** The k-th 64-bit value in closed form. */
  lemma Draw64ClosedForm(s: Seed, k: nat)
    ensures var low := IntPow(A, 2 * k + 1) * s % M;
      Draw64(s, k) == low + A * low % M * 0x1_0000_0000
  {
    Draw64Halves(s, k);
    ClosedForm(s, 2 * k + 1);
    MulCommutes(SeedAfter(s, 2 * k + 1), A);
  }

  /** Bits 31 and 63 of a 64-bit value are always clear. */
  lemma Draw64ClearBits(s: Seed, k: nat)
    ensures Draw64(s, k) / 0x8000_0000 % 2 == 0
    ensures Draw64(s, k) / 0x8000_0000_0000_0000 == 0
  {
    Draw64Halves(s, k);
    JoinedClearBits(SeedAfter(s, 2 * k + 1), Step(SeedAfter(s, 2 * k + 1)));
  }

  lemma JoinedClearBits(low: Seed, high: Seed)
    ensures Joined(low, high) / 0x8000_0000 % 2 == 0
    ensures Joined(low, high) / 0x8000_0000_0000_0000 == 0
  {
    assert Joined(low, high) / 0x8000_0000 == 2 * high;
  }

  lemma JoinedIsInjective(a: Seed, b: Seed, c: Seed, d: Seed)
    ensures Joined(a, c) == Joined(b, d) <==> a == b && c == d
  {
  }

  lemma DoubledMultiple(d: nat)
    ensures 2 * d % N == 0 <==> d % ((M - 1) / 2) == 0
  {
    var q, r := Divide(d, (M - 1) / 2);
    DivModUnique(d, (M - 1) / 2, q, r);
    DivModUnique(2 * d, N, q, 2 * r);
  }

  /** Two 64-bit draws of a run agree exactly when they are a multiple of (M-1)/2 apart. */
  lemma Draw64Period(s: Seed, j: nat, k: nat)
    requires j <= k
    ensures Draw64(s, j) == Draw64(s, k) <==> (k - j) % ((M - 1) / 2) == 0
  {
    Draw64Halves(s, j);
    Draw64Halves(s, k);
    var a, b := SeedAfter(s, 2 * j + 1), SeedAfter(s, 2 * k + 1);
    JoinedIsInjective(a, b, Step(a), Step(b));
    ExactPeriod(s, 2 * j + 1, 2 * k + 1);
    DoubledMultiple(k - j);
  }
}
