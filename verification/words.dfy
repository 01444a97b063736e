/**
  * Unsigned machine words and the C operators on them.  A word is a natural
  * number below a power of two; `&`, `|`, `<<` and `>>` are defined digit by
  * digit in base two, so that their relation to `%`, `/` and `+` is proved and
  * not presumed.
  */
module Words {
  type u8 = x: nat | x < 0x100
  type u16 = x: nat | x < 0x1_0000
  type u32 = x: nat | x < 0x1_0000_0000
  type u64 = x: nat | x < 0x1_0000_0000_0000_0000

  function Pow2(n: nat): (p: nat)
    ensures p > 0
  {
    if n == 0 then 1 else 2 * Pow2(n - 1)
  }

  function BitAnd(a: nat, b: nat): nat
    decreases a
  {
    if a == 0 || b == 0 then 0
    else 2 * BitAnd(a / 2, b / 2) + (if a % 2 == 1 && b % 2 == 1 then 1 else 0)
  }

  function BitOr(a: nat, b: nat): nat
    decreases a
  {
    if a == 0 then b
    else if b == 0 then a
    else 2 * BitOr(a / 2, b / 2) + (if a % 2 == 1 || b % 2 == 1 then 1 else 0)
  }

  /** The low k binary digits of x: its remainder modulo 2^k (`LowIsMod`). */
  function Low(x: nat, k: nat): nat
    decreases x, k
  {
    if k == 0 || x == 0 then 0 else 2 * Low(x / 2, k - 1) + x % 2
  }

  /** `x << k` in a word of `w` bits: the digits shifted out are lost. */
  function Shl(x: nat, k: nat, w: nat): nat {
    Low(x * Pow2(k), w)
  }

  /** `x >> k`: the quotient of x by 2^k (`ShrIsDiv`). */
  function Shr(x: nat, k: nat): nat
    decreases x, k
  {
    if k == 0 || x == 0 then x else Shr(x / 2, k - 1)
  }

  lemma Pow2Values()
    ensures Pow2(7) == 0x80 && Pow2(8) == 0x100 && Pow2(14) == 0x4000 && Pow2(16) == 0x1_0000
    ensures Pow2(21) == 0x20_0000 && Pow2(24) == 0x100_0000 && Pow2(28) == 0x1000_0000
    ensures Pow2(31) == 0x8000_0000 && Pow2(32) == 0x1_0000_0000
    ensures Pow2(40) == 0x100_0000_0000 && Pow2(48) == 0x1_0000_0000_0000
    ensures Pow2(56) == 0x100_0000_0000_0000 && Pow2(63) == 0x8000_0000_0000_0000
    ensures Pow2(64) == 0x1_0000_0000_0000_0000
  {
    assert Pow2(14) == 0x4000;
    assert Pow2(28) == 0x1000_0000;
    assert Pow2(40) == 0x100_0000_0000;
    assert Pow2(52) == 0x10_0000_0000_0000;
  }

  /** Quotient and remainder are determined by the division equation. */
  lemma DivModUnique(x: int, d: int, q: int, r: int)
    requires 0 <= r < d && x == q * d + r
    ensures x / d == q && x % d == r
  {
    var k := x / d - q;
    assert k * d == r - x % d;
    assert k >= 1 ==> k * d >= d;
    assert k <= -1 ==> k * d <= -d;
  }

  /** Two integers leave the same remainder exactly when their difference is a multiple. */
  lemma Congruent(x: int, y: int, d: nat)
    requires d > 0
    ensures x % d == y % d <==> (x - y) % d == 0
  {
    var p, q, r, t := x / d, y / d, x % d, y % d;
    assert (p - q) * d == x - r - (y - t);
    if r >= t {
      DivModUnique(x - y, d, p - q, r - t);
    } else {
      assert (p - q - 1) * d == (p - q) * d - d;
      DivModUnique(x - y, d, p - q - 1, r - t + d);
    }
  }

  /** Quotient and remainder, named: a proof that uses them need not mention `/` and `%`. */
  lemma Divide(x: nat, d: nat) returns (q: nat, r: nat)
    requires d > 0
    ensures r < d && x == q * d + r
  {
    q, r := x / d, x % d;
  }

  /** Splitting one binary digit off a division. */
  lemma DivModHalves(x: nat, p: nat)
    requires p > 0
    ensures x % (2 * p) == 2 * (x / 2 % p) + x % 2
    ensures x / (2 * p) == x / 2 / p
  {
    var q, r := Divide(x / 2, p);
    DivModUnique(x / 2, p, q, r);
    assert q * (2 * p) == 2 * (q * p);
    DivModUnique(x, 2 * p, q, 2 * r + x % 2);
  }

  lemma {:induction false} LowIsMod(x: nat, k: nat)
    ensures Low(x, k) == x % Pow2(k)
  {
    if k > 0 {
      LowIsMod(x / 2, k - 1);
      DivModHalves(x, Pow2(k - 1));
    }
  }

  lemma {:induction false} ShrIsDiv(x: nat, k: nat)
    ensures Shr(x, k) == x / Pow2(k)
  {
    if k > 0 {
      ShrIsDiv(x / 2, k - 1);
      DivModHalves(x, Pow2(k - 1));
    }
  }

  lemma {:induction false} LowBounded(x: nat, k: nat)
    ensures Low(x, k) < Pow2(k)
    ensures x < Pow2(k) ==> Low(x, k) == x
  {
    if k > 0 {
      LowBounded(x / 2, k - 1);
    }
  }

  lemma BitAndZero(x: nat)
    ensures BitAnd(x, 0) == 0
  {
  }

  lemma AndOddMask(x: nat, m: nat)
    ensures BitAnd(x, 2 * m + 1) == 2 * BitAnd(x / 2, m) + x % 2
  {
    var mask := 2 * m + 1;
    assert mask / 2 == m && mask % 2 == 1;
  }

  /** `x & (2^k - 1)` keeps the low k digits. */
  lemma {:induction false} AndMask(x: nat, k: nat)
    ensures BitAnd(x, Pow2(k) - 1) == Low(x, k)
  {
    if k > 0 {
      AndMask(x / 2, k - 1);
      AndOddMask(x, Pow2(k - 1) - 1);
    } else {
      BitAndZero(x);
    }
  }

  /** `x & 2^k` is non-zero exactly when binary digit k is set. */
  lemma {:induction false} AndBit(x: nat, k: nat)
    ensures BitAnd(x, Pow2(k)) == if Shr(x, k) % 2 == 1 then Pow2(k) else 0
  {
    if k > 0 {
      AndBit(x / 2, k - 1);
    } else {
      BitAndZero(x / 2);
    }
  }

  /** Operands without a common digit position are joined by addition. */
  lemma {:induction false} OrDisjoint(a: nat, b: nat, k: nat)
    requires a < Pow2(k) && Low(b, k) == 0
    ensures BitOr(a, b) == a + b
  {
    if a > 0 && b > 0 {
      OrDisjoint(a / 2, b / 2, k - 1);
    }
  }

  /** Setting digit k, seen through the low k+1 digits. */
  lemma {:induction false} OrBit(x: nat, k: nat)
    ensures Low(BitOr(x, Pow2(k)), k + 1) == Low(x, k) + Pow2(k)
  {
    if x == 0 {
      LowBounded(0, k);
      LowBounded(Pow2(k), k + 1);
    } else if k > 0 {
      OrBit(x / 2, k - 1);
    }
  }

  lemma DoubleProduct(a: nat, p: nat)
    ensures 2 * (a * p) == a * (2 * p)
  {
  }

  /** The low digits of a number given by its last digit and the rest. */
  lemma LowOfPair(x: nat, d: nat, w: nat)
    requires w > 0 && d < 2
    ensures Low(2 * x + d, w) == 2 * Low(x, w - 1) + d
  {
    var pair := 2 * x + d;
    assert pair / 2 == x && pair % 2 == d;
  }

  /** A left shift by k drops the high digits and leaves k zero digits at the bottom. */
  lemma {:induction false} ShlDigits(x: nat, k: nat, w: nat)
    requires k <= w
    ensures Shl(x, k, w) == Low(x, w - k) * Pow2(k)
    ensures Low(Shl(x, k, w), k) == 0
  {
    if k == 0 {
      assert x * 1 == x;
    } else {
      var p := Pow2(k - 1);
      ShlDigits(x, k - 1, w - 1);
      DoubleProduct(x, p);
      LowOfPair(x * p, 0, w);
      LowOfPair(Shl(x, k - 1, w - 1), 0, k);
      DoubleProduct(Low(x, w - k), p);
    }
  }

  lemma {:induction false} Pow2Monotone(m: nat, n: nat)
    requires m <= n
    ensures Pow2(m) <= Pow2(n)
  {
    if m < n {
      Pow2Monotone(m, n - 1);
    }
  }

  lemma ShlOfOne(k: nat, w: nat)
    requires k < w
    ensures Shl(1, k, w) == Pow2(k)
  {
    Pow2Monotone(k + 1, w);
    LowBounded(Pow2(k), w);
  }

  lemma DivModSmall(x: nat, d: nat)
    requires x < d
    ensures x / d == 0 && x % d == x
  {
    DivModUnique(x, d, 0, x);
  }
}
