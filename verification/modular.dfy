/**
  * Arithmetic modulo M = 2^31 - 1, the modulus of the Lehmer generator.
  * `Pow(x, n)` is x^n mod M, built from the modular product `Mul`; every lemma
  * below is about that commutative monoid.  Nothing here uses that M is prime.
  */
module Modular {
  import opened Words

  const M: nat := 2147483647   // 2^31 - 1
  const A: nat := 16807        // the multiplier, 7^5

  type Residue = x: nat | x < M

  function Mul(a: nat, b: nat): Residue {
    a * b % M
  }

  function Pow(x: Residue, n: nat): Residue
    decreases n
  {
    if n == 0 then 1 else Mul(x, Pow(x, n - 1))
  }

  /** The ordinary integer power, to state results without `Mul`. */
  function IntPow(b: nat, n: nat): nat {
    if n == 0 then 1 else b * IntPow(b, n - 1)
  }

  lemma MulReduceLeft(x: nat, y: nat)
    ensures Mul(x % M, y) == Mul(x, y)
  {
    var q, r := Divide(x, M);
    DivModUnique(x, M, q, r);
    var t, z := Divide(r * y, M);
    DivModUnique(r * y, M, t, z);
    assert x * y == q * M * y + r * y;
    DivModUnique(x * y, M, q * y + t, z);
  }

  lemma MulOne(x: Residue)
    ensures Mul(1, x) == x && Mul(x, 1) == x
  {
    DivModSmall(x, M);
  }

  lemma MulCommutes(a: nat, b: nat)
    ensures Mul(a, b) == Mul(b, a)
  {
    assert a * b == b * a;
  }

  lemma MulAssoc(a: nat, b: nat, c: nat)
    ensures Mul(Mul(a, b), c) == Mul(a, Mul(b, c))
  {
    MulReduceLeft(a * b, c);
    MulReduceLeft(b * c, a);
    MulCommutes(a, Mul(b, c));
    assert a * b * c == b * c * a;
  }

  lemma PowOne(x: Residue)
    ensures Pow(x, 1) == x
  {
    assert Pow(x, 1) == Mul(x, Pow(x, 0)) == x;
  }

  lemma {:induction false} PowAdd(x: Residue, m: nat, n: nat)
    ensures Pow(x, m + n) == Mul(Pow(x, m), Pow(x, n))
  {
    if m == 0 {
      assert Mul(1, Pow(x, n)) == Pow(x, n);
    } else {
      PowAdd(x, m - 1, n);
      MulAssoc(x, Pow(x, m - 1), Pow(x, n));
    }
  }

  lemma {:induction false} PowMul(x: Residue, m: nat, n: nat)
    ensures m * n >= 0 && Pow(x, m * n) == Pow(Pow(x, m), n)
  {
    if n == 0 {
      assert m * n == 0;
    } else {
      PowMul(x, m, n - 1);
      assert m * n == m + m * (n - 1);
      PowAdd(x, m, m * (n - 1));
    }
  }

  lemma {:induction false} PowOfOne(n: nat)
    ensures Pow(1, n) == 1
  {
    if n > 0 {
      PowOfOne(n - 1);
    }
  }

  /** `Pow` is the integer power reduced modulo M. */
  lemma {:induction false} PowIsIntPow(x: Residue, n: nat)
    ensures Pow(x, n) == IntPow(x, n) % M
  {
    if n > 0 {
      PowIsIntPow(x, n - 1);
      MulReduceLeft(IntPow(x, n - 1), x);
      MulCommutes(x, Pow(x, n - 1));
      MulCommutes(x, IntPow(x, n - 1));
    }
  }
}
