/**
 * Python's shift and bitwise-or operators on non-negative integers.
 *
 * Python integers are unbounded, so `x >> k` halves `x` (rounding down) `k`
 * times, `x << k` doubles it `k` times and `a | b` is the bitwise or of the
 * two binary expansions; nothing is truncated to a machine word.
 */
module Bits {

  function Pow2(k: nat): (r: nat)
    ensures r >= 1
  {
    if k == 0 then 1 else 2 * Pow2(k - 1)
  }

  lemma Pow2Table()
    ensures Pow2(2) == 4 && Pow2(3) == 8 && Pow2(5) == 32 && Pow2(11) == 2048 && Pow2(16) == 0x1_0000
  {
  }

  /** `x >> k` */
  function Shr(x: nat, k: nat): nat
  {
    if k == 0 then x else Shr(x / 2, k - 1)
  }

  /** `x << k` */
  function Shl(x: nat, k: nat): nat
  {
    if k == 0 then x else 2 * Shl(x, k - 1)
  }

  /** `a | b`, bit by bit from the least significant end. */
  function Or(a: nat, b: nat): nat
  {
    if a == 0 then b
    else if b == 0 then a
    else 2 * Or(a / 2, b / 2) + (if a % 2 == 1 || b % 2 == 1 then 1 else 0)
  }

  /** Shifting left by `k` multiplies by 2^k. */
  lemma {:induction false} ShlIsMul(x: nat, k: nat)
    ensures Shl(x, k) == x * Pow2(k)
  {
    if k > 0 {
      ShlIsMul(x, k - 1);
      assert x * Pow2(k) == 2 * (x * Pow2(k - 1));
    }
  }

  /** Shifting right by `k` is floor division by 2^k. */
  lemma {:induction false} ShrIsDiv(x: nat, k: nat)
    ensures Shr(x, k) == x / Pow2(k)
  {
    if k > 0 {
      ShrIsDiv(x / 2, k - 1);
      HalveThenDivide(x, Pow2(k - 1));
    }
  }

  /**
   * When `b` fits below bit `k` and the other operand is shifted left by
   * `k`, the bits do not overlap and `|` is plain addition.
   */
  lemma {:induction false} OrDisjoint(q: nat, b: nat, k: nat)
    requires b < Pow2(k)
    ensures Or(Shl(q, k), b) == Shl(q, k) + b
  {
    var a := Shl(q, k);
    if a != 0 && b != 0 {
      OrDisjoint(q, b / 2, k - 1);
    }
  }

  lemma HalveThenDivide(x: nat, h: nat)
    requires h >= 1
    ensures (x / 2) / h == x / (2 * h)
  {
    var q, r := (x / 2) / h, (x / 2) % h;
    assert x / 2 == q * h + r;
    assert x == q * (2 * h) + (2 * r + x % 2) by {
      assert x == 2 * (x / 2) + x % 2;
      assert 2 * (q * h + r) == q * (2 * h) + 2 * r;
    }
    DivModOf(x, 2 * h, q, 2 * r + x % 2);
  }

  lemma {:induction false} MulAtLeast(a: int, m: int)
    requires a >= 1 && m > 0
    ensures a * m >= m
  {
    if a > 1 {
      MulAtLeast(a - 1, m);
      assert a * m == (a - 1) * m + m;
    }
  }

  /** Quotient and remainder are determined by any decomposition `q * m + r` with `0 <= r < m`. */
  lemma DivModOf(v: int, m: int, q: int, r: int)
    requires m > 0 && 0 <= r < m && v == q * m + r
    ensures v / m == q && v % m == r
  {
    var q', r' := v / m, v % m;
    assert v == q' * m + r';
    assert (q' - q) * m == r - r' by {
      assert q' * m - q * m == (q' - q) * m;
    }
    if q' > q {
      MulAtLeast(q' - q, m);
    } else if q' < q {
      MulAtLeast(q - q', m);
    }
  }
}
