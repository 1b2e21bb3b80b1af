/** Machine-word bit operations on natural numbers, defined bit by bit, and the arithmetic
    they amount to when one operand is a power of two or a power-of-two mask. */
module Bits {

  const PAGE_SIZE: nat := 4096

  /** One more than the largest 64-bit word. */
  const WORD: nat := 0x1_0000_0000_0000_0000

  /** `1 << k` */
  function Pow2(k: nat): (r: nat)
    ensures 1 <= r
  {
    if k == 0 then 1 else 2 * Pow2(k - 1)
  }

  /** `x >> k` */
  function Shr(x: nat, k: nat): nat {
    if k == 0 then x else Shr(x / 2, k - 1)
  }

  /** `x ^ y` */
  function Xor(x: nat, y: nat): nat {
    if x == 0 && y == 0 then 0 else 2 * Xor(x / 2, y / 2) + (x + y) % 2
  }

  /** `x & y` */
  function And(x: nat, y: nat): nat {
    if x == 0 || y == 0 then 0 else 2 * And(x / 2, y / 2) + (if x % 2 == 1 && y % 2 == 1 then 1 else 0)
  }

  /** `x` with its low `k` bits cleared. */
  function AlignDown(x: nat, k: nat): nat {
    if k == 0 then x else 2 * AlignDown(x / 2, k - 1)
  }

  lemma {:induction false} Pow2Monotone(j: nat, k: nat)
    requires j <= k
    ensures Pow2(j) <= Pow2(k)
    decreases k
  {
    if j == k {
    } else {
      Pow2Monotone(j, k - 1);
    }
  }

  lemma {:induction false} Pow2Add(j: nat, k: nat)
    ensures Pow2(j + k) == Pow2(j) * Pow2(k)
  {
    if j == 0 {
    } else {
      Pow2Add(j - 1, k);
      TimesDouble(Pow2(j - 1), Pow2(j), Pow2(k));
    }
  }

  lemma DivUnique(x: nat, m: nat, q: nat, r: nat)
    requires m > 0 && x == m * q + r && r < m
    ensures x / m == q && x % m == r
  {
    var d := x / m - q;
    assert x == m * (x / m) + x % m;
    assert m * d == r - x % m;
    MulSign(m, d);
  }

  lemma MulSign(m: nat, d: int)
    ensures d >= 1 ==> m * d >= m
    ensures d <= -1 ==> m * d <= -(m as int)
  {
    if d >= 1 {
      assert m * (d - 1) >= 0;
    } else if d <= -1 {
      assert m * (-1 - d) >= 0;
    }
  }

  /** Clearing low bits splits `x` into its quotient and remainder by `2^k`. */
  lemma {:induction false} AlignDownIsRounding(x: nat, k: nat)
    ensures AlignDown(x, k) == Pow2(k) * Shr(x, k)
    ensures AlignDown(x, k) <= x < AlignDown(x, k) + Pow2(k)
  {
    if k == 0 {
    } else {
      AlignDownIsRounding(x / 2, k - 1);
      TimesDouble(Pow2(k - 1), Pow2(k), Shr(x, k));
    }
  }

  /** Masking with `!((1 << k) - 1)` clears the low `k` bits and no others. */
  lemma {:induction false} MaskClearsLowBits(x: nat, k: nat, width: nat)
    requires k <= width && x < Pow2(width)
    ensures Pow2(k) <= Pow2(width)
    ensures And(x, Pow2(width) - Pow2(k)) == AlignDown(x, k)
    decreases width
  {
    hide And;
    Pow2Monotone(k, width);
    if k > 0 {
      MaskClearsLowBits(x / 2, k - 1, width - 1);
      AndStep(x, Pow2(width - 1) - Pow2(k - 1), 0);
    } else if width > 0 {
      MaskClearsLowBits(x / 2, 0, width - 1);
      AndStep(x, Pow2(width - 1) - 1, 1);
    } else {
      AndZero(x);
    }
  }

  lemma AndZero(x: nat)
    ensures And(x, 0) == 0
  {}

  lemma AndStep(x: nat, y: nat, b: nat)
    requires b < 2
    ensures And(x, 2 * y + b) == 2 * And(x / 2, y) + (if x % 2 == 1 && b == 1 then 1 else 0)
  {
    assert (2 * y + b) / 2 == y && (2 * y + b) % 2 == b;
  }

  lemma XorStep(x: nat, y: nat, b: nat)
    requires b < 2
    ensures Xor(x, 2 * y + b) == 2 * Xor(x / 2, y) + (x + b) % 2
  {
    assert (2 * y + b) / 2 == y && (x + (2 * y + b)) % 2 == (x + b) % 2;
  }

  lemma {:induction false} XorZero(x: nat)
    ensures Xor(x, 0) == x
  {
    if x == 0 {
    } else {
      XorZero(x / 2);
    }
  }

  /** XOR with `1 << k` flips bit `k`: it adds or subtracts `2^k`. */
  lemma {:induction false} XorFlipsBit(x: nat, k: nat)
    ensures Shr(x, k) % 2 == 0 ==> Xor(x, Pow2(k)) == x + Pow2(k)
    ensures Shr(x, k) % 2 == 1 ==> Xor(x, Pow2(k)) == x - Pow2(k)
    decreases k
  {
    hide Xor;
    if k == 0 {
      XorZero(x / 2);
      XorStep(x, 0, 1);
    } else {
      XorFlipsBit(x / 2, k - 1);
      XorStep(x, Pow2(k - 1), 0);
    }
  }

  lemma XorDouble(x: nat, y: nat)
    ensures Xor(2 * x, 2 * y) == 2 * Xor(x, y)
  {
    XorStep(2 * x, y, 0);
  }

  /** XOR commutes with scaling both operands by a power of two. */
  lemma {:induction false} XorScales(x: nat, y: nat, k: nat)
    ensures Xor(Pow2(k) * x, Pow2(k) * y) == Pow2(k) * Xor(x, y)
    decreases k
  {
    hide Xor;
    if k == 0 {
    } else {
      XorScales(x, y, k - 1);
      var m := Pow2(k - 1);
      TimesDouble(m, Pow2(k), x);
      TimesDouble(m, Pow2(k), y);
      TimesDouble(m, Pow2(k), Xor(x, y));
      XorDouble(m * x, m * y);
    }
  }

  lemma TimesDouble(m: nat, n: nat, x: nat)
    requires n == 2 * m
    ensures n * x == 2 * (m * x)
  {}

  // ----- multiples

  lemma MultipleOf(m: nat, q: nat)
    requires m > 0
    ensures (m * q) % m == 0
  {
    DivUnique(m * q, m, q, 0);
  }

  lemma Pow2Divides(j: nat, k: nat)
    requires j <= k
    ensures Pow2(k) % Pow2(j) == 0
  {
    Pow2Add(j, k - j);
    MultipleOf(Pow2(j), Pow2(k - j));
  }

  lemma ModTransitive(x: nat, b: nat, a: nat)
    requires a > 0 && b > 0 && x % b == 0 && b % a == 0
    ensures x % a == 0
  {
    var m, q := b / a, x / b;
    assert x == (a * m) * q == a * (m * q);
    MultipleOf(a, m * q);
  }

  lemma WordIsPow2()
    ensures WORD == Pow2(64)
  {
    hide Pow2;
    assert Pow2(8) == 256 by { EighthPower(); }
    Pow2Add(8, 8);
    Pow2Add(16, 16);
    Pow2Add(32, 32);
  }

  lemma EighthPower()
    ensures Pow2(8) == 256
  {}

  // ----- rounding by masks

  lemma MultipleDoubles(x: nat, m: nat)
    requires m > 0 && x % m == 0
    ensures (2 * x) % (2 * m) == 0
  {
    var q := x / m;
    TimesDouble(m, 2 * m, q);
    DivUnique(2 * x, 2 * m, q, 0);
  }

  lemma MultipleHalves(x: nat, m: nat)
    requires m > 0 && x % (2 * m) == 0
    ensures x % 2 == 0 && (x / 2) % m == 0
  {
    var q := x / (2 * m);
    assert x == (2 * m) * q;
    TimesDouble(m, 2 * m, q);
    DivUnique(x / 2, m, q, 0);
  }

  /** One bit of `(x + m) & !m` for even `x`: the low bit is clear. */
  lemma MaskedSumStep(x: nat, m: nat, n: nat)
    requires n > 0 && x % 2 == 0 && m < Pow2(n)
    ensures m / 2 < Pow2(n - 1)
    ensures And(x + m, Pow2(n) - 1 - m) == 2 * And(x / 2 + m / 2, Pow2(n - 1) - 1 - m / 2)
  {
    hide And;
    AndStep(x + m, Pow2(n - 1) - 1 - m / 2, 1 - m % 2);
  }

  /** `(x + m) & !m` is a multiple of every power of two that divides `x`, whatever the mask. */
  lemma {:induction false} MaskedSumKeepsMultiples(x: nat, m: nat, k: nat, n: nat)
    requires k <= n && m < Pow2(n) && x % Pow2(k) == 0
    ensures And(x + m, Pow2(n) - 1 - m) % Pow2(k) == 0
    decreases k
  {
    hide And;
    if k == 0 {
    } else {
      MultipleHalves(x, Pow2(k - 1));
      MaskedSumStep(x, m, n);
      MaskedSumKeepsMultiples(x / 2, m / 2, k - 1, n - 1);
      MultipleDoubles(And(x / 2 + m / 2, Pow2(n - 1) - 1 - m / 2), Pow2(k - 1));
    }
  }

  /** A power of two above the mask is left alone. */
  lemma {:induction false} MaskedSumFixesPow2(j: nat, m: nat, n: nat)
    requires j < n && m < Pow2(j)
    ensures m < Pow2(n) && And(Pow2(j) + m, Pow2(n) - 1 - m) == Pow2(j)
    decreases j
  {
    hide And;
    Pow2Monotone(j, n);
    if j == 0 {
      AndStep(1, Pow2(n - 1) - 1, 1);
      assert And(0, Pow2(n - 1) - 1) == 0 by { ZeroAnd(Pow2(n - 1) - 1); }
    } else {
      MaskedSumStep(Pow2(j), m, n);
      MaskedSumFixesPow2(j - 1, m / 2, n - 1);
    }
  }

  lemma ZeroAnd(y: nat)
    ensures And(0, y) == 0
  {}

  /** Only powers of two divide a power of two. */
  lemma DivisorOfPow2(a: nat, j: nat)
    requires a > 0 && Pow2(j) % a == 0
    ensures exists k: nat :: k <= j && a == Pow2(k)
  {
    FactorOfPow2(a, Pow2(j) / a, j);
  }

  lemma {:induction false} FactorOfPow2(a: nat, t: nat, j: nat)
    requires Pow2(j) == a * t
    ensures exists k: nat :: k <= j && a == Pow2(k)
    decreases j
  {
    if j == 0 {
      FactorOfOne(a, t);
      assert a == Pow2(0);
    } else {
      EvenFactor(a, t, Pow2(j - 1));
      if a % 2 == 0 {
        FactorOfPow2(a / 2, t, j - 1);
        var k: nat :| k <= j - 1 && a / 2 == Pow2(k);
        assert a == Pow2(k + 1);
      } else {
        FactorOfPow2(a, t / 2, j - 1);
      }
    }
  }

  lemma FactorOfOne(a: nat, t: nat)
    requires a * t == 1
    ensures a == 1
  {
    MulSign(a, t);
  }

  /** One factor of an even product is even. */
  lemma EvenFactor(a: nat, t: nat, p: nat)
    requires a * t == 2 * p
    ensures if a % 2 == 0 then a / 2 * t == p else t % 2 == 0 && a * (t / 2) == p
  {
    var c := a / 2;
    if a % 2 == 0 {
      TimesDouble(c, a, t);
    } else {
      TimesOdd(c, a, t);
      var h := p - c * t;
      assert t == 2 * h;
      assert a * t == a * (2 * h) == 2 * (a * h);
    }
  }

  lemma TimesOdd(c: nat, a: nat, t: nat)
    requires a == 2 * c + 1
    ensures a * t == 2 * (c * t) + t
  {}
}
