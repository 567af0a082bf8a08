/** Positional numbers: the value of a digit list, the digits of a value, and changing base in place. */
module Digits {

  function Pow(base: nat, n: nat): nat {
    if n == 0 then 1 else base * Pow(base, n - 1)
  }

  /** The value of big-endian digits. */
  function Number(base: nat, d: seq<nat>): nat {
    if d == [] then 0 else Number(base, d[..|d| - 1]) * base + d[|d| - 1]
  }

  ghost predicate AreDigits(base: nat, d: seq<nat>) {
    forall i :: 0 <= i < |d| ==> d[i] < base
  }

  /** Digits without a leading zero. */
  ghost predicate Canonical(base: nat, d: seq<nat>) {
    AreDigits(base, d) && (d != [] ==> d[0] != 0)
  }

  /** The digits of a value, without leading zeros. */
  function ToDigits(base: nat, v: nat): (d: seq<nat>)
    requires base >= 2
    decreases v
  {
    if v == 0 then [] else
      QuotientIsSmaller(v, base);
      ToDigits(base, v / base) + [v % base]
  }

  lemma QuotientIsSmaller(v: nat, base: nat)
    requires v > 0 && base >= 2
    ensures 0 <= v / base < v
  {
  }

  // ---------- powers ----------

  lemma {:induction false} PowAdd(base: nat, m: nat, n: nat)
    ensures Pow(base, m + n) == Pow(base, m) * Pow(base, n)
    decreases m
  {
    if m > 0 {
      PowAdd(base, m - 1, n);
      MulAssoc(base, Pow(base, m - 1), Pow(base, n));
    }
  }

  lemma MulAssoc(x: nat, y: nat, z: nat)
    ensures x * (y * z) == (x * y) * z
  {
  }

  lemma MulMono(a: nat, b: nat, c: nat, d: nat)
    requires a <= c && b <= d
    ensures a * b <= c * d
  {
    assert a * b <= c * b by { assert (c - a) * b >= 0; }
    assert c * b <= c * d by { assert c * (d - b) >= 0; }
  }

  lemma {:induction false} PowMul(base: nat, m: nat, k: nat)
    ensures Pow(Pow(base, m), k) == Pow(base, m * k)
    decreases k
  {
    if k == 0 {
      assert m * k == 0;
    } else {
      PowMul(base, m, k - 1);
      assert m * k == m + m * (k - 1);
      PowAdd(base, m, m * (k - 1));
    }
  }

  lemma {:induction false} PowPositive(base: nat, n: nat)
    requires base >= 1
    ensures Pow(base, n) >= 1
  {
    if n > 0 {
      PowPositive(base, n - 1);
      MulMono(1, 1, base, Pow(base, n - 1));
    }
  }

  lemma PowGrows(base: nat, m: nat, n: nat)
    requires base >= 1 && m <= n
    ensures Pow(base, m) <= Pow(base, n)
  {
    PowAdd(base, m, n - m);
    PowPositive(base, n - m);
    MulMono(Pow(base, m), 1, Pow(base, m), Pow(base, n - m));
  }

  lemma {:induction false} PowMonotone(x: nat, y: nat, k: nat)
    requires x <= y
    ensures Pow(x, k) <= Pow(y, k)
  {
    if k > 0 {
      PowMonotone(x, y, k - 1);
      MulMono(x, Pow(x, k - 1), y, Pow(y, k - 1));
    }
  }

  lemma PowStrict(x: nat, y: nat, k: nat)
    requires x < y && k >= 1
    ensures Pow(x, k) < Pow(y, k)
  {
    PowMonotone(x, y, k - 1);
    PowPositive(y, k - 1);
    MulMono(x, Pow(x, k - 1), x, Pow(y, k - 1));
    assert (x + 1) * Pow(y, k - 1) == x * Pow(y, k - 1) + Pow(y, k - 1);
    MulMono(x + 1, Pow(y, k - 1), y, Pow(y, k - 1));
  }

  /** Comparing powers compares the numbers. */
  lemma RootOrder(x: nat, y: nat, k: nat)
    requires k >= 1 && Pow(x, k) <= Pow(y, k)
    ensures x <= y
  {
    if y < x {
      PowStrict(y, x, k);
    }
  }

  // ---------- values ----------

  lemma {:induction false} NumberAppend(base: nat, d: seq<nat>, e: seq<nat>)
    ensures Number(base, d + e) == Number(base, d) * Pow(base, |e|) + Number(base, e)
    decreases |e|
  {
    if e == [] {
      assert d + e == d;
    } else {
      var n := |e| - 1;
      assert (d + e)[..|d + e| - 1] == d + e[..n];
      NumberAppend(base, d, e[..n]);
      Distribute(base, Number(base, d), Pow(base, n), Number(base, e[..n]));
    }
  }

  lemma Distribute(base: nat, x: nat, p: nat, y: nat)
    ensures (x * p + y) * base == x * (base * p) + y * base
  {
    assert x * (base * p) == x * p * base;
  }

  lemma {:induction false} NumberBound(base: nat, d: seq<nat>)
    requires AreDigits(base, d)
    ensures Number(base, d) < Pow(base, |d|)
  {
    if d != [] {
      var n := |d| - 1;
      NumberBound(base, d[..n]);
      var x := Number(base, d[..n]);
      MulMono(x + 1, base, Pow(base, n), base);
      assert (x + 1) * base == x * base + base;
      assert base * Pow(base, n) == Pow(base, n) * base;
    }
  }

  lemma {:induction false} NumberZeros(base: nat, d: seq<nat>)
    requires forall i :: 0 <= i < |d| ==> d[i] == 0
    ensures Number(base, d) == 0
  {
    if d != [] {
      NumberZeros(base, d[..|d| - 1]);
    }
  }

  lemma LeadingZeros(base: nat, d: seq<nat>, k: nat)
    requires k <= |d| && forall i :: 0 <= i < k ==> d[i] == 0
    ensures Number(base, d) == Number(base, d[k..])
  {
    assert d == d[..k] + d[k..];
    NumberZeros(base, d[..k]);
    NumberAppend(base, d[..k], d[k..]);
  }

  /** Digits read back as the value they came from. */
  lemma {:induction false} NumberOfDigits(base: nat, v: nat)
    requires base >= 2
    ensures Number(base, ToDigits(base, v)) == v
    ensures Canonical(base, ToDigits(base, v))
    decreases v
  {
    if v > 0 {
      QuotientIsSmaller(v, base);
      NumberOfDigits(base, v / base);
      var d := ToDigits(base, v / base);
      assert ToDigits(base, v)[..|d|] == d;
      DivMod(v, base);
    }
  }

  lemma DivMod(v: nat, base: nat)
    requires base >= 1
    ensures v == v / base * base + v % base && v % base < base
  {
  }

  lemma DivModUnique(v: nat, base: nat, q: nat, r: nat)
    requires base >= 1 && v == q * base + r && r < base
    ensures v / base == q && v % base == r
  {
    DivMod(v, base);
    var x, y := v / base, v % base;
    assert (x - q) * base == r - y;
    if x > q {
      MulMono(1, base, x - q, base);
    } else if x < q {
      assert (q - x) * base == y - r;
      MulMono(1, base, q - x, base);
    }
  }

  lemma {:induction false} LeadingDigit(base: nat, d: seq<nat>)
    requires base >= 2 && d != [] && d[0] != 0
    ensures Number(base, d) > 0
  {
    var n := |d| - 1;
    if n > 0 {
      LeadingDigit(base, d[..n]);
      MulMono(1, 1, Number(base, d[..n]), base);
    }
  }

  /** A value has one list of digits without leading zeros. */
  lemma {:induction false} DigitsAreUnique(base: nat, d: seq<nat>)
    requires base >= 2 && Canonical(base, d)
    ensures ToDigits(base, Number(base, d)) == d
    decreases |d|
  {
    if d != [] {
      var n := |d| - 1;
      LeadingDigit(base, d);
      DivModUnique(Number(base, d), base, Number(base, d[..n]), d[n]);
      DigitsAreUnique(base, d[..n]);
    }
  }
}
