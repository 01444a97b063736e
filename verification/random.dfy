/**
  * The generator `Random`: seed' = A * seed mod M, computed by a shift, an add and
  * one conditional subtraction.  `SeedAfter` is the specification; the theorems
  * about whole runs are in `RandomTheorems`.
  */
module RandomGenerator {
  import opened Words
  import opened Modular

  type Seed = s: nat | 1 <= s < M witness 1

  const INVERSE_A: nat := 1407677000   // A * INVERSE_A == 1 modulo M

  lemma UnitKeepsSeed(s: Seed, a: nat, b: nat)
    requires Mul(a, b) == 1
    ensures Mul(s, a) != 0 && Mul(Mul(s, a), b) == s
  {
    MulAssoc(s, a, b);
    MulOne(s);
    assert Mul(0, b) == 0;
  }

  lemma InverseOfA()
    ensures Mul(A, INVERSE_A) == 1 && Mul(INVERSE_A, A) == 1
  {
    DivModUnique(A * INVERSE_A, M, 11017, 1);
  }

  function Step(s: Seed): Seed {
    InverseOfA();
    UnitKeepsSeed(s, A, INVERSE_A);
    Mul(s, A)
  }

  function Previous(s: Seed): Seed {
    InverseOfA();
    UnitKeepsSeed(s, INVERSE_A, A);
    Mul(s, INVERSE_A)
  }

  /** The seed after n calls of `Next`. */
  function SeedAfter(s: Seed, n: nat): Seed
    decreases n
  {
    if n == 0 then s else Step(SeedAfter(s, n - 1))
  }

  /** The seed a generator starts with: the two bad values are replaced by 1. */
  function InitialSeed(s: u32): Seed {
    var masked := s % 0x8000_0000;
    if masked == 0 || masked == M then 1 else masked
  }

  /** What the constructor makes of every argument: it keeps the good seeds, replaces the bad ones, drops bit 31. */
  lemma InitialSeedCases(s: u32)
    ensures 1 <= s < M ==> InitialSeed(s) == s
    ensures s == 0 || s == M ==> InitialSeed(s) == 1
    ensures s >= 0x8000_0000 ==> InitialSeed(s) == InitialSeed(s - 0x8000_0000)
  {
  }

  /** The sum of the high and the low 31-bit halves of the product. */
  function Fold(product: nat): nat {
    product / 0x8000_0000 + product % 0x8000_0000
  }

  lemma ShiftAndAdd(product: nat)
    ensures Shr(product, 31) + BitAnd(product, 0x7fff_ffff) == Fold(product)
  {
    Pow2Values();
    ShrIsDiv(product, 31);
    AndMask(product, 31);
    LowIsMod(product, 31);
  }

  lemma FoldKeepsResidue(product: nat)
    ensures Fold(product) % M == product % M
  {
    var q, r := Divide(Fold(product), M);
    DivModUnique(Fold(product), M, q, r);
    DivModUnique(product, M, product / 0x8000_0000 + q, r);
  }

  lemma ReduceOnce(x: nat)
    requires x < 2 * M && x != M
    ensures x % M == if x > M then x - M else x
  {
    DivModUnique(x, M, if x > M then 1 else 0, if x > M then x - M else x);
  }

  lemma FoldBounded(product: nat)
    requires product < M * A
    ensures Fold(product) < 2 * M
  {
  }

  /**
    * Since 2^31 is 1 modulo M, folding keeps the residue.  The sum fits in 32 bits,
    * is neither 0 nor M, and exceeds M by less than M: one subtraction completes
    * the reduction.
    */
  lemma FoldReduces(s: Seed)
    ensures 0 < Fold(s * A) < 2 * M && Fold(s * A) != M
    ensures Step(s) == if Fold(s * A) > M then Fold(s * A) - M else Fold(s * A)
  {
    FoldBounded(s * A);
    FoldKeepsResidue(s * A);
    assert Fold(s * A) % M == Step(s) != 0;
    ReduceOnce(Fold(s * A));
  }

  /** The statements of `Next`, from a valid seed, amount to one step. */
  lemma NextIsStep(s: Seed)
    ensures var product := s * A % 0x1_0000_0000_0000_0000;
      var folded := (Shr(product, 31) + BitAnd(product, M)) % 0x1_0000_0000;
      SeedAfter(s, 1) == if folded > M then folded - M else folded
  {
    DivModSmall(s * A, 0x1_0000_0000_0000_0000);
    ShiftAndAdd(s * A);
    FoldReduces(s);
    DivModSmall(Fold(s * A), 0x1_0000_0000);
    assert SeedAfter(s, 1) == Step(SeedAfter(s, 0)) == Step(s);
  }

  class Random {
    var seed: u32

    ghost predicate Valid()
      reads this
    {
      1 <= seed < M
    }

    constructor (s: u32)
      ensures Valid() && seed == InitialSeed(s)
    {
      AndMask(s, 31);
      LowIsMod(s, 31);
      Pow2Values();
      var start: u32 := BitAnd(s, 0x7fff_ffff);
      if start == 0 || start == 2147483647 {
        start := 1;
      }
      seed := start;
    }

    method Next() returns (r: u32)
      requires Valid()
      modifies this
      ensures Valid() && seed == SeedAfter(old(seed), 1) && r == seed
    {
      var product: u64 := seed * A % 0x1_0000_0000_0000_0000;
      NextIsStep(seed);
      seed := (Shr(product, 31) + BitAnd(product, M)) % 0x1_0000_0000;
      if seed > M {
        seed := seed - M;
      }
      return seed;
    }

    method Uniform(n: u32) returns (r: u32)
      requires Valid() && 0 < n < 0x8000_0000
      modifies this
      ensures Valid() && seed == SeedAfter(old(seed), 1)
      ensures r == seed % n
    {
      var x := Next();
      return x % n;
    }

    method Skewed(maxLog: nat) returns (r: u32)
      requires Valid() && maxLog <= 30
      modifies this
      ensures Valid() && seed == SeedAfter(old(seed), 2)
      ensures r == seed % Pow2(SeedAfter(old(seed), 1) % (maxLog + 1))
      ensures r < Pow2(maxLog)
    {
      ghost var start := seed;
      var base := Uniform(maxLog + 1);
      ShiftedOne(base);
      r := Uniform(Shl(1, base, 32));
      SeedAfterAdd(start, 1, 1);
      Pow2Monotone(base, maxLog);
    }

    method OneIn(n: u32) returns (r: bool)
      requires Valid() && 0 < n < 0x8000_0000
      modifies this
      ensures Valid() && seed == SeedAfter(old(seed), 1)
      ensures r <==> seed % n == 0
    {
      var x := Next();
      return x % n == 0;
    }

    method Next64() returns (r: u64)
      requires Valid()
      modifies this
      ensures Valid() && seed == SeedAfter(old(seed), 2)
      ensures r == Joined(SeedAfter(old(seed), 1), SeedAfter(old(seed), 2))
    {
      ghost var start := seed;
      var L := Next();
      var H := Next();
      SeedAfterAdd(start, 1, 1);
      JoinWords(L, H);
      return BitOr(L, Shl(H, 32, 64));
    }
  }

  /** Two draws as the low and the high word of a 64-bit value. */
  function Joined(low: Seed, high: Seed): (r: u64) {
    low + high * 0x1_0000_0000
  }

  lemma JoinWords(low: u32, high: u32)
    ensures BitOr(low, Shl(high, 32, 64)) == low + high * 0x1_0000_0000
  {
    Pow2Values();
    ShlDigits(high, 32, 64);
    LowBounded(high, 32);
    OrDisjoint(low, Shl(high, 32, 64), 32);
  }

  lemma ShiftedOne(k: nat)
    requires k <= 30
    ensures Shl(1, k, 32) == Pow2(k) < 0x8000_0000
  {
    Pow2Values();
    Pow2Monotone(k + 1, 31);
    ShlOfOne(k, 32);
  }

  lemma {:induction false} SeedAfterAdd(s: Seed, m: nat, n: nat)
    ensures SeedAfter(SeedAfter(s, m), n) == SeedAfter(s, m + n)
  {
    if n > 0 {
      SeedAfterAdd(s, m, n - 1);
    }
  }
}
