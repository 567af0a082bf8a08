/**
 Powers of two, shifting by doubling, and the bitwise operators of C on unsigned values, as functions
 on integers.
 */
module Bits {

  function Pow2(n: nat): (p: nat)
    ensures p >= 1
  {
    if n == 0 then 1 else 2 * Pow2(n - 1)
  }

  /** x * 2^n, by doubling. */
  function Lsh(x: int, n: nat): int {
    if n == 0 then x else 2 * Lsh(x, n - 1)
  }

  /** `a & b` */
  function And(a: nat, b: nat): nat {
    if a == 0 || b == 0 then 0
    else (if a % 2 == 1 && b % 2 == 1 then 1 else 0) + 2 * And(a / 2, b / 2)
  }

  /** `a | b` */
  function Or(a: nat, b: nat): nat {
    if a == 0 then b else if b == 0 then a
    else (if a % 2 == 1 || b % 2 == 1 then 1 else 0) + 2 * Or(a / 2, b / 2)
  }

  // ---------- shifting ----------

  lemma {:induction false} LshIsProduct(x: int, n: nat)
    ensures Lsh(x, n) == x * Pow2(n)
  {
    if n > 0 { LshIsProduct(x, n - 1); }
  }

  lemma {:induction false} LshSum(x: int, y: int, n: nat)
    ensures Lsh(x + y, n) == Lsh(x, n) + Lsh(y, n)
  {
    if n > 0 { LshSum(x, y, n - 1); }
  }

  lemma {:induction false} LshLsh(x: int, m: nat, n: nat)
    ensures Lsh(Lsh(x, m), n) == Lsh(x, m + n)
  {
    if n > 0 { LshLsh(x, m, n - 1); }
  }

  lemma {:induction false} LshScale(b: int, x: int, n: nat)
    ensures Lsh(b * x, n) == b * Lsh(x, n)
  {
    if n > 0 { LshScale(b, x, n - 1); }
  }

  lemma {:induction false} LshLess(x: int, y: int, n: nat)
    requires x < y
    ensures Lsh(x, n) + Lsh(1, n) <= Lsh(y, n)
  {
    if n > 0 { LshLess(x, y, n - 1); }
  }

  lemma {:induction false} LshNonNegative(x: int, n: nat)
    requires x >= 0
    ensures Lsh(x, n) >= x
  {
    if n > 0 { LshNonNegative(x, n - 1); }
  }

  lemma {:induction false} LshZero(n: nat)
    ensures Lsh(0, n) == 0
  {
    if n > 0 { LshZero(n - 1); }
  }

  lemma LshOne(n: nat)
    ensures Lsh(1, n) == Pow2(n)
  {
    LshIsProduct(1, n);
  }

  lemma Pow2Add(m: nat, n: nat)
    ensures Pow2(m + n) == Pow2(m) * Pow2(n)
  {
    LshOne(m);
    LshOne(m + n);
    LshLsh(1, m, n);
    LshIsProduct(Pow2(m), n);
  }

  lemma {:induction false} Pow2Monotone(m: nat, n: nat)
    requires m <= n
    ensures Pow2(m) <= Pow2(n)
  {
    if m < n { Pow2Monotone(m, n - 1); }
  }

  lemma Pow2At32()
    ensures Pow2(32) == 0x1_0000_0000
  {
    assert Pow2(8) == 256;
    Pow2Add(8, 8);
    Pow2Add(16, 16);
  }

  lemma Lsh32(x: int)
    ensures Lsh(x, 32) == 0x1_0000_0000 * x
  {
    LshIsProduct(x, 32);
    Pow2At32();
  }

  // ---------- bitwise operators ----------

  lemma {:induction false} AndBound(a: nat, b: nat)
    ensures And(a, b) <= a && And(a, b) <= b
  {
    if a > 0 && b > 0 { AndBound(a / 2, b / 2); }
  }

  lemma {:induction false} OrBound(a: nat, b: nat, k: nat)
    requires a < Pow2(k) && b < Pow2(k)
    ensures Or(a, b) < Pow2(k)
  {
    if a > 0 && b > 0 { OrBound(a / 2, b / 2, k - 1); }
  }

  lemma {:induction false} OrSymmetric(a: nat, b: nat)
    ensures Or(a, b) == Or(b, a)
  {
    if a > 0 && b > 0 { OrSymmetric(a / 2, b / 2); }
  }

  /** Disjoint bits: a multiple of 2^k and something below it. */
  lemma {:induction false} OrIsSum(a: nat, b: nat, k: nat)
    requires b < Pow2(k)
    ensures Lsh(a, k) >= 0 && Or(Lsh(a, k), b) == Lsh(a, k) + b
  {
    LshNonNegative(a, k);
    LshZero(k);
    if a > 0 && k > 0 && b > 0 {
      LshNonNegative(a, k - 1);
      OrIsSum(a, b / 2, k - 1);
    }
  }

  // ---------- division ----------

  lemma MulAtLeast(k: int, m: nat)
    requires k >= 1
    ensures k * m >= m
  {
    assert k * m == m + (k - 1) * m;
  }

  /** A remainder in range determines the quotient. */
  lemma ModIsUnique(v: int, q: int, m: nat, total: int)
    requires 0 <= v < m && v + q * m == total
    ensures v == total % m && q == total / m
  {
    var q', r' := total / m, total % m;
    assert total == q' * m + r';
    assert (q' - q) * m == q' * m - q * m == v - r';
    if q < q' {
      MulAtLeast(q' - q, m);
    } else if q > q' {
      assert (q - q') * m == r' - v;
      MulAtLeast(q - q', m);
    }
  }

  lemma LshModIsUnique(v: int, q: int, n: nat, total: int)
    requires 0 <= v < Pow2(n) && v + Lsh(q, n) == total
    ensures v == total % Pow2(n) && q == total / Pow2(n)
  {
    LshIsProduct(q, n);
    ModIsUnique(v, q, Pow2(n), total);
  }

  lemma QuotientFits(x: nat, d: nat)
    requires d >= 1
    ensures 0 <= x / d <= x
  {
    var q, r := x / d, x % d;
    assert x == q * d + r;
    assert q * d == q + q * (d - 1);
  }
}
