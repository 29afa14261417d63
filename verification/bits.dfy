/**
  Unsigned machine arithmetic over naturals: powers of two, the bitwise
  AND and complement operators of C written out bit by bit, and the facts
  that connect them to division and remainder.
 */
module Bits {

  /** An `unsigned char`: one byte of memory or of a string. */
  type Octet = x: int | 0 <= x < 256

  /** 2^k */
  function Pow2(k: nat): (r: nat)
    ensures r >= 1
  {
    if k == 0 then 1 else 2 * Pow2(k - 1)
  }

  lemma {:induction false} Pow2Add(a: nat, b: nat)
    ensures Pow2(a + b) == Pow2(a) * Pow2(b)
    decreases a
  {
    if a > 0 {
      Pow2Add(a - 1, b);
      assert Pow2(a + b) == 2 * Pow2(a - 1 + b);
    }
  }

  /** Squaring a known power of two doubles its exponent. */
  lemma Pow2Square(k: nat, v: nat)
    requires Pow2(k) == v
    ensures Pow2(2 * k) == v * v
  {
    Pow2Add(k, k);
  }

  /** One more byte of width multiplies the range of an unsigned value by 256. */
  lemma Pow2NextByte(n: nat)
    ensures Pow2(8 * (n + 1)) == 256 * Pow2(8 * n)
  {
    Pow2Add(8 * n, 8);
    assert Pow2(8) == 256;
  }

  /** Division with remainder has exactly one solution. */
  lemma DivModUnique(a: int, m: int, q: int, x: int)
    requires m > 0 && 0 <= x < m && a == m * q + x
    ensures a / m == q && a % m == x
  {
    var q', x' := a / m, a % m;
    assert m * q' + x' == m * q + x;
    if q' > q {
      assert m * q' >= m * (q + 1) by { MulMonotone(m, q + 1, q'); }
    } else if q' < q {
      assert m * q >= m * (q' + 1) by { MulMonotone(m, q' + 1, q); }
    }
  }

  lemma MulMonotone(m: int, a: int, b: int)
    requires m >= 0 && a <= b
    ensures m * a <= m * b
  {
  }

  /**
    Taking a remainder modulo d * p keeps the low digit (base d) and the
    remainder modulo p of the remaining digits.
   */
  lemma ModOfProduct(a: nat, d: nat, p: nat)
    requires d > 0 && p > 0
    ensures a % (d * p) == d * ((a / d) % p) + a % d
  {
    var q, r := a / d, a % d;
    var s, t := q / p, q % p;
    assert a == (d * p) * s + (d * t + r) by {
      assert a == d * q + r;
      assert q == p * s + t;
      assert d * q == d * (p * s) + d * t;
    }
    assert d * t + r < d * p by {
      MulMonotone(d, t, p - 1);
    }
    DivModUnique(a, d * p, s, d * t + r);
  }

  /** The low digit and the remaining digits of a remainder modulo d * p. */
  lemma ModOfProductDigits(a: nat, d: nat, p: nat)
    requires d > 0 && p > 0
    ensures (a % (d * p)) / d == (a / d) % p
    ensures (a % (d * p)) % d == a % d
  {
    ModOfProduct(a, d, p);
    DivModUnique(a % (d * p), d, (a / d) % p, a % d);
  }

  /** C's `a & b` on unsigned operands, computed bit by bit from the low end. */
  function And(a: nat, b: nat): (r: nat)
    ensures r <= a && r <= b
    decreases a
  {
    if a == 0 || b == 0 then 0
    else 2 * And(a / 2, b / 2) + (if a % 2 == 1 && b % 2 == 1 then 1 else 0)
  }

  /**
    C's `~a` on an unsigned type with `limit` values: the largest value of
    the type minus `a` (section 6.5.3.3 of the C standard).
   */
  function Not(a: nat, limit: nat): (r: nat)
    requires a < limit
    ensures r < limit
  {
    limit - 1 - a
  }

  /** A value and its complement in an n-bit type have no bit in common. */
  lemma {:induction false} AndNotIsZero(a: nat, n: nat, c: nat)
    requires a < Pow2(n) && c == Not(a, Pow2(n))
    ensures And(a, c) == 0
    decreases n
  {
    if a > 0 && c > 0 {
      var n' := n - 1;
      Pow2Succ(n, n');
      var half, chalf := a / 2, c / 2;
      assert chalf == Pow2(n') - 1 - half;
      AndNotIsZero(half, n', chalf);
      assert a % 2 == 1 ==> c % 2 == 0;
      AndStep(a, c, half, chalf);
    }
  }

  /** One step of And, with the halves passed as variables. */
  lemma AndStep(a: nat, b: nat, half: nat, bhalf: nat)
    requires a > 0 && b > 0 && half == a / 2 && bhalf == b / 2
    ensures And(a, b) == 2 * And(half, bhalf) + (if a % 2 == 1 && b % 2 == 1 then 1 else 0)
  {
  }

  lemma {:induction false} Pow2Monotone(j: nat, k: nat)
    requires j <= k
    ensures Pow2(j) <= Pow2(k)
    decreases k
  {
    if j < k {
      Pow2Monotone(j, k - 1);
    }
  }

  /** The low k bits of a, gathered bit by bit. */
  function LowBits(a: nat, k: nat): (r: nat)
    ensures r <= a
    decreases k
  {
    if k == 0 || a == 0 then 0 else 2 * LowBits(a / 2, k - 1) + a % 2
  }

  /** The low k bits of a are its remainder modulo 2^k. */
  lemma {:induction false} LowBitsIsMod(a: nat, k: nat)
    ensures LowBits(a, k) == a % Pow2(k)
    decreases k
  {
    if k > 0 && a > 0 {
      LowBitsIsMod(a / 2, k - 1);
      ModOfProduct(a, 2, Pow2(k - 1));
    } else {
      DivModUnique(0, Pow2(k), 0, 0);
    }
  }

  /** A value of fewer than k bits is its own low k bits. */
  lemma {:induction false} LowBitsOfNarrow(a: nat, k: nat)
    requires a < Pow2(k)
    ensures LowBits(a, k) == a
    decreases k
  {
    if k > 0 && a > 0 {
      LowBitsOfNarrow(a / 2, k - 1);
    }
  }

  /** Masking with 2^k - 1 keeps the low k bits. */
  lemma {:induction false} AndOnes(a: nat, k: nat)
    ensures And(a, Pow2(k) - 1) == LowBits(a, k)
    decreases k
  {
    if k > 0 && a > 0 {
      AndOnes(a / 2, k - 1);
      AndOddStep(a, Pow2(k - 1));
    }
  }

  /** Masking with 2^k - 1 keeps the low k bits: the remainder modulo 2^k. */
  lemma AndLowMask(a: nat, k: nat)
    ensures And(a, Pow2(k) - 1) == a % Pow2(k)
  {
    AndOnes(a, k);
    LowBitsIsMod(a, k);
  }

  /**
    Masking an n-bit value with m = 2^n - 2^k (ones from bit k up to bit
    n - 1) clears its low k bits.
   */
  lemma {:induction false} AndClearsLow(a: nat, n: nat, k: nat, m: nat)
    requires k <= n && a < Pow2(n) && m + Pow2(k) == Pow2(n)
    ensures And(a, m) == a - LowBits(a, k)
    decreases k
  {
    if k == 0 {
      AndOnes(a, n);
      LowBitsOfNarrow(a, n);
    } else if a > 0 && n > k {
      var half, n', k' := a / 2, n - 1, k - 1;
      Pow2Succ(n, n');
      Pow2Succ(k, k');
      Pow2Monotone(k', n');
      var m' := Pow2(n') - Pow2(k');
      assert m == 2 * m';
      AndClearsLow(half, n', k', m');
      AndEvenStep(a, m, half, m');
      LowBitsStep(a, k, half, k');
    } else if a > 0 {
      LowBitsOfNarrow(a, k);
    }
  }

  lemma Pow2Succ(j: nat, j': nat)
    requires j == j' + 1
    ensures Pow2(j) == 2 * Pow2(j')
  {
  }

  /** One step of LowBits: the low bit of a, then the low k-1 bits of a/2. */
  lemma LowBitsStep(a: nat, k: nat, half: nat, k': nat)
    requires a > 0 && k > 0 && half == a / 2 && k' == k - 1
    ensures LowBits(a, k) == 2 * LowBits(half, k') + a % 2
    ensures a == 2 * half + a % 2
  {
  }

  /**
    Masking an n-bit value with 2^n - 2^k (ones above bit k) rounds it down
    to a multiple of 2^k.
   */
  lemma AndHighMask(a: nat, n: nat, k: nat, m: nat)
    requires k <= n && a < Pow2(n) && m + Pow2(k) == Pow2(n)
    ensures And(a, m) == a - a % Pow2(k)
  {
    AndClearsLow(a, n, k, m);
    LowBitsIsMod(a, k);
  }

  /** One step of And against a mask 2p - 1, whose low bit is set. */
  lemma AndOddStep(a: nat, p: nat)
    requires a > 0 && p > 0
    ensures And(a, 2 * p - 1) == 2 * And(a / 2, p - 1) + a % 2
  {
    assert (2 * p - 1) / 2 == p - 1 && (2 * p - 1) % 2 == 1;
  }

  /** One step of And against a mask 2r, whose low bit is clear. */
  lemma AndEvenStep(a: nat, m: nat, half: nat, r: nat)
    requires a > 0 && m == 2 * r && half == a / 2
    ensures And(a, m) == 2 * And(half, r)
  {
    assert m / 2 == r && m % 2 == 0;
  }
}
