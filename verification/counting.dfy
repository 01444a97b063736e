/** Finite cardinality: the pigeonhole principle and counts of residues. */
module Counting {
  import opened Words

  predicate Within(x: nat, n: nat) {
    1 <= x <= n
  }

  /** The set 1..n. */
  function Interval(n: nat): (s: set<nat>)
    ensures forall x :: x in s <==> Within(x, n)
  {
    set x: nat | 1 <= x <= n && Within(x, n)
  }

  lemma {:induction false} IntervalSize(n: nat)
    ensures |Interval(n)| == n
  {
    if n > 0 {
      IntervalSize(n - 1);
      assert Interval(n) == Interval(n - 1) + {n};
    }
  }

  predicate IsBelow(x: nat, n: nat) {
    x < n
  }

  /** The set 0..n-1. */
  function Below(n: nat): (s: set<nat>)
    ensures forall x :: x in s <==> IsBelow(x, n)
  {
    set x: nat | 0 <= x < n && IsBelow(x, n)
  }

  lemma {:induction false} BelowSize(n: nat)
    ensures |Below(n)| == n
  {
    if n > 0 {
      BelowSize(n - 1);
      assert Below(n) == Below(n - 1) + {n - 1};
    }
  }

  ghost predicate InjectiveOn(f: nat -> nat, s: set<nat>) {
    forall x, y :: x in s && y in s && f(x) == f(y) ==> x == y
  }

  ghost function Image(f: nat -> nat, s: set<nat>): set<nat> {
    set x | x in s :: f(x)
  }

  lemma {:induction false} ImageSize(f: nat -> nat, s: set<nat>)
    requires InjectiveOn(f, s)
    ensures |Image(f, s)| == |s|
  {
    if s != {} {
      var x :| x in s;
      var rest := s - {x};
      ImageSize(f, rest);
      assert Image(f, s) == Image(f, rest) + {f(x)};
      assert f(x) !in Image(f, rest);
    }
  }

  lemma {:induction false} SubsetOfSameSize(a: set<nat>, b: set<nat>)
    requires a <= b && |a| == |b|
    ensures a == b
  {
    if a != {} {
      var x :| x in a;
      SubsetOfSameSize(a - {x}, b - {x});
      assert a == (a - {x}) + {x};
    }
  }

  /** Pigeonhole: an injection of 1..n into itself is onto. */
  lemma Pigeonhole(f: nat -> nat, n: nat)
    requires forall i :: 1 <= i <= n ==> 1 <= f(i) <= n
    requires InjectiveOn(f, Interval(n))
    ensures Image(f, Interval(n)) == Interval(n)
  {
    ImageSize(f, Interval(n));
    SubsetOfSameSize(Image(f, Interval(n)), Interval(n));
  }

  lemma PigeonholeWitness(f: nat -> nat, n: nat, y: nat) returns (i: nat)
    requires forall i :: 1 <= i <= n ==> 1 <= f(i) <= n
    requires InjectiveOn(f, Interval(n))
    requires 1 <= y <= n
    ensures 1 <= i <= n && f(i) == y
  {
    Pigeonhole(f, n);
    assert y in Image(f, Interval(n));
    i :| i in Interval(n) && f(i) == y;
  }

  /** The members of s that f sends to b. */
  ghost function Fibre(f: nat -> nat, s: set<nat>, b: nat): set<nat> {
    set k | k in s && f(k) == b
  }

  ghost function SentBelow(f: nat -> nat, s: set<nat>, m: nat): set<nat> {
    set k | k in s && f(k) < m
  }

  lemma SentBelowStep(f: nat -> nat, s: set<nat>, m: nat)
    ensures SentBelow(f, s, m + 1) == SentBelow(f, s, m) + Fibre(f, s, m)
    ensures SentBelow(f, s, m) !! Fibre(f, s, m)
  {
  }

  /** If f sends equally many members of s to each number below n, the set has n times as many. */
  lemma {:induction false} EqualFibres(f: nat -> nat, s: set<nat>, n: nat, c: nat)
    requires forall b: nat :: b < n ==> |Fibre(f, s, b)| == c
    ensures |SentBelow(f, s, n)| == n * c
  {
    if n == 0 {
      assert SentBelow(f, s, 0) == {};
    } else {
      EqualFibres(f, s, n - 1, c);
      SentBelowStep(f, s, n - 1);
      assert n * c == (n - 1) * c + c;
    }
  }

  // ---------- sums ----------

  /** f(0) + ... + f(n-1). */
  ghost function Sum(f: nat -> nat, n: nat): nat {
    if n == 0 then 0 else Sum(f, n - 1) + f(n - 1)
  }

  lemma {:induction false} SumOfTail(f: nat -> nat, g: nat -> nat, n: nat)
    requires forall k :: 0 <= k < n ==> g(k) == f(k + 1)
    ensures f(0) + Sum(g, n) == Sum(f, n) + f(n)
  {
    if n > 0 {
      SumOfTail(f, g, n - 1);
    }
  }

  lemma {:induction false} SumOfPairs(f: nat -> nat, g: nat -> nat, n: nat, p: nat)
    requires forall k :: 0 <= k < n ==> f(k) + g(k) == p
    ensures Sum(f, n) + Sum(g, n) == n * p
  {
    if n > 0 {
      SumOfPairs(f, g, n - 1, p);
      assert n * p == (n - 1) * p + p;
    }
  }

  lemma Distribute(a: nat, x: nat, y: nat)
    ensures a * (x + y) == a * x + a * y
  {
  }

  lemma {:induction false} SumOfScaled(f: nat -> nat, g: nat -> nat, r: nat -> nat, n: nat, a: nat, b: nat)
    requires forall k :: 0 <= k < n ==> a * f(k) == b * g(k) + r(k)
    ensures a * Sum(f, n) == b * Sum(g, n) + Sum(r, n)
  {
    if n > 0 {
      SumOfScaled(f, g, r, n - 1, a, b);
      Distribute(a, Sum(f, n - 1), f(n - 1));
      Distribute(b, Sum(g, n - 1), g(n - 1));
    }
  }

  /** The sum of the terms that are below m. */
  ghost function SumOfSmall(f: nat -> nat, n: nat, m: nat): nat
    decreases n
  {
    if n == 0 then 0 else SumOfSmall(f, n - 1, m) + (if f(n - 1) < m then f(n - 1) else 0)
  }

  lemma {:induction false} AllSmall(f: nat -> nat, n: nat, m: nat)
    requires forall k :: 0 <= k < n ==> f(k) < m
    ensures SumOfSmall(f, n, m) == Sum(f, n)
  {
    if n > 0 {
      AllSmall(f, n - 1, m);
    }
  }

  lemma FibreStep(f: nat -> nat, n: nat, b: nat)
    ensures |Fibre(f, Below(n + 1), b)| == |Fibre(f, Below(n), b)| + (if f(n) == b then 1 else 0)
  {
    var before, after := Fibre(f, Below(n), b), Fibre(f, Below(n + 1), b);
    assert f(n) == b ==> after == before + {n};
    assert f(n) != b ==> after == before;
  }

  lemma {:induction false} SumOfSmallStep(f: nat -> nat, n: nat, m: nat)
    ensures SumOfSmall(f, n, m + 1) == SumOfSmall(f, n, m) + m * |Fibre(f, Below(n), m)|
    decreases n
  {
    if n == 0 {
      assert Fibre(f, Below(0), m) == {};
    } else {
      SumOfSmallStep(f, n - 1, m);
      FibreStep(f, n - 1, m);
      var size := |Fibre(f, Below(n - 1), m)|;
      assert m * (size + 1) == m * size + m;
    }
  }

  /** If each number below m is taken by c of the terms, the terms below m add up to c * m * (m-1) / 2. */
  lemma {:induction false} SumOfEqualFibres(f: nat -> nat, n: nat, m: nat, c: nat)
    requires forall b: nat :: b < m ==> |Fibre(f, Below(n), b)| == c
    ensures 2 * SumOfSmall(f, n, m) == m * c * (m - 1)
    decreases m
  {
    if m == 0 {
      NoneSmall(f, n);
    } else {
      SumOfEqualFibres(f, n, m - 1, c);
      SumOfSmallStep(f, n, m - 1);
      Triangle(c, m - 1);
    }
  }

  lemma {:induction false} NoneSmall(f: nat -> nat, n: nat)
    ensures SumOfSmall(f, n, 0) == 0
  {
    if n > 0 {
      NoneSmall(f, n - 1);
    }
  }

  lemma Triangle(c: nat, m: nat)
    ensures m * c * (m - 1) + 2 * (m * c) == (m + 1) * c * m
  {
    assert (m + 1) * c * m == (m * c) * m + c * m;
    assert m * c * (m - 1) == (m * c) * m - m * c;
  }

  // ---------- residues ----------

  /** The members of 1..n whose image under f has residue v modulo d. */
  ghost function Hits(f: nat -> nat, n: nat, d: nat, v: nat): set<nat>
    requires d > 0
  {
    set i: nat | 1 <= i <= n && f(i) % d == v
  }

  /** A permutation of 1..n hits each residue class as often as the identity does. */
  lemma PermutationKeepsHits(f: nat -> nat, n: nat, d: nat, v: nat)
    requires d > 0
    requires forall i :: 1 <= i <= n ==> 1 <= f(i) <= n
    requires InjectiveOn(f, Interval(n))
    ensures |Hits(f, n, d, v)| == |Hits(x => x, n, d, v)|
  {
    ImageSize(f, Hits(f, n, d, v));
    ImageOfHits(f, n, d, v);
  }

  lemma ImageOfHits(f: nat -> nat, n: nat, d: nat, v: nat)
    requires d > 0
    requires forall i :: 1 <= i <= n ==> 1 <= f(i) <= n
    requires InjectiveOn(f, Interval(n))
    ensures Image(f, Hits(f, n, d, v)) == Hits(x => x, n, d, v)
  {
    Pigeonhole(f, n);
    var members := Hits(x => x, n, d, v);
    forall y | y in members
      ensures y in Image(f, Hits(f, n, d, v))
    {
      assert y in Image(f, Interval(n));
    }
  }

  /** How many numbers of 1..n are congruent to v modulo d. */
  function ResidueCount(n: nat, d: nat, v: nat): nat
    requires v < d
  {
    if v == 0 then n / d else if v <= n then (n - v) / d + 1 else 0
  }

  lemma {:induction false} IdentityHits(n: nat, d: nat, v: nat)
    requires v < d
    ensures |Hits(x => x, n, d, v)| == ResidueCount(n, d, v)
  {
    if n == 0 {
      assert Hits(x => x, 0, d, v) == {};
    } else {
      IdentityHits(n - 1, d, v);
      ResidueCountStep(n, d, v);
      var before, after := Hits(x => x, n - 1, d, v), Hits(x => x, n, d, v);
      assert n % d == v ==> after == before + {n};
      assert n % d != v ==> after == before;
    }
  }

  lemma ResidueCountStep(n: nat, d: nat, v: nat)
    requires v < d && n > 0
    ensures ResidueCount(n, d, v) == ResidueCount(n - 1, d, v) + (if n % d == v then 1 else 0)
  {
    DivModSmall(0, d);
    if v < n {
      QuotientStep(n - v, d);
      ResidueShift(n, d, v);
    } else {
      DivModSmall(if n < d then n else 0, d);
    }
  }

  /** If d divides n, every residue occurs n/d times in 1..n. */
  lemma EvenResidues(n: nat, d: nat, v: nat)
    requires v < d && n > 0 && n % d == 0
    ensures ResidueCount(n, d, v) == n / d
  {
    var q, r := Divide(n, d);
    DivModUnique(n, d, q, r);
    if v > 0 {
      assert q >= 1;
      assert (q - 1) * d == q * d - d;
      DivModUnique(n - v, d, q - 1, d - v);
    }
  }

  /** If not, the residue of n itself occurs once more often than zero. */
  lemma UnevenResidues(n: nat, d: nat)
    requires d > 0 && n % d != 0
    ensures ResidueCount(n, d, n % d) == ResidueCount(n, d, 0) + 1
  {
    var q, r := Divide(n, d);
    DivModUnique(n, d, q, r);
    assert r <= n;
    DivModUnique(n - r, d, q, 0);
  }

  lemma QuotientStep(x: nat, d: nat)
    requires x > 0 && d > 0
    ensures x / d == (x - 1) / d + (if x % d == 0 then 1 else 0)
  {
    var q, r := (x - 1) / d, (x - 1) % d;
    assert x == q * d + r + 1;
    if r + 1 == d {
      DivModUnique(x, d, q + 1, 0);
    } else {
      DivModUnique(x, d, q, r + 1);
    }
  }

  lemma ResidueShift(n: nat, d: nat, v: nat)
    requires v < d
    ensures n % d == v <==> (n - v) % d == 0
  {
    Congruent(n, v, d);
    DivModSmall(v, d);
  }
}
