/** Multiplication of limb numbers (src/arith_uint256.cpp): a carry loop, and rows of such loops. */
module Multiplication {
  import opened Basics
  import opened Bits
  import opened Limbs

  lemma MulBound(x: nat, z: nat, m: nat)
    requires x <= m && z <= m
    ensures 0 <= x * z <= m * m
  {
    assert m * m - x * z == (m - x) * m + x * (m - z);
  }

  /** The 64-bit intermediate of both loops does not wrap, and its upper half fits a limb. */
  lemma Fits64(carry: uint32, y: uint32, x: uint32, z: uint32)
    ensures 0 <= carry + y + x * z < TWO_TO_64
    ensures 0 <= (carry + y + x * z) / BASE < BASE
  {
    MulBound(x, z, 0xffff_ffff);
    UpperHalf(carry, y, x * z);
  }

  lemma UpperHalf(carry: uint32, y: uint32, product: int)
    requires 0 <= product <= 0xffff_fffe_0000_0001
    ensures 0 <= carry + y + product < TWO_TO_64
    ensures 0 <= (carry + y + product) / BASE < BASE
  {
  }

  /** One more limb of `x * b`, added to limb `m`, with `b` starting `j` limbs up. */
  lemma ProductLimb(carry: uint32, y: uint32, x: uint32, b: seq<uint32>, i: nat, j: nat)
    requires i < |b|
    ensures var n, m := carry + y + x * b[i], 32 * (i + j);
            n >= 0 && Lsh(n % BASE, m) + Lsh(n / BASE, m + 32) + Lsh(x * Prefix(b, i), 32 * j)
            == Lsh(carry, m) + Lsh(y, m) + Lsh(x * Prefix(b, i + 1), 32 * j)
  {
    Fits64(carry, y, x, b[i]);
    var z := x * b[i];
    SplitLimb(carry + y + z, i + j);
    LshSum(carry + y, z, 32 * (i + j));
    LshSum(carry, y, 32 * (i + j));
    ProductSplits(x, b, i, j);
  }

  lemma ProductSplits(x: uint32, b: seq<uint32>, i: nat, j: nat)
    requires i < |b|
    ensures Lsh(x * Prefix(b, i + 1), 32 * j) == Lsh(x * Prefix(b, i), 32 * j) + Lsh(x * b[i], 32 * (i + j))
  {
    var top := Lsh(b[i], 32 * i);
    assert x * (Prefix(b, i) + top) == x * Prefix(b, i) + x * top;
    LshScale(x, b[i], 32 * i);
    LshSum(x * Prefix(b, i), x * top, 32 * j);
    LshLsh(x * b[i], 32 * i, 32 * j);
  }

  // ---------- times a 32-bit number ----------

  method MulAssign32(pn: array<uint32>, b32: uint32)
    modifies pn
    ensures Value(pn[..]) == old(Value(pn[..])) * b32 % Modulus(pn.Length)
  {
    ghost var a0 := pn[..];
    var carry: uint32 := 0;
    LshZero(0);
    for i := 0 to pn.Length
      invariant Prefix(pn[..], i) + Lsh(carry, 32 * i) == b32 * Prefix(a0, i)
      invariant forall j | i <= j < pn.Length :: pn[j] == a0[j]
    {
      Fits64(carry, 0, b32, pn[i]);
      ProductLimb(carry, 0, b32, a0, i, 0);
      LshZero(32 * i);
      ghost var before := pn[..];
      var n: nat := carry + b32 * pn[i];
      pn[i] := n % BASE;
      PrefixSame(before, pn[..], i);
      carry := n / BASE;
    }
    PrefixBound(pn[..], pn.Length);
    LshModIsUnique(Value(pn[..]), carry, 32 * pn.Length, Value(a0) * b32);
  }

  // ---------- times a number of the same width ----------

  /** What the limbs from `i` to `n` stand for, in units of limb `i`. */
  lemma {:induction false} UpperPart(s: seq<uint32>, i: nat, n: nat) returns (up: int)
    requires i <= n <= |s|
    ensures Prefix(s, n) == Prefix(s, i) + Lsh(up, 32 * i)
    decreases n
  {
    if i == n {
      up := 0;
      LshZero(32 * i);
    } else {
      var below := UpperPart(s, i, n - 1);
      up := below + Lsh(s[n - 1], 32 * (n - 1 - i));
      LshSum(below, Lsh(s[n - 1], 32 * (n - 1 - i)), 32 * i);
      LshLsh(s[n - 1], 32 * (n - 1 - i), 32 * i);
    }
  }

  /** Row `j` in progress: `i` limbs of `x * b` have been added from limb `j` of `before` on. */
  ghost predicate RowSoFar(a: seq<uint32>, before: seq<uint32>, b: seq<uint32>, x: uint32, j: nat, i: nat,
                           carry: uint32) {
    && |a| == |before| == |b| && i + j <= |a|
    && Prefix(a, i + j) + Lsh(carry, 32 * (i + j)) == Prefix(before, i + j) + Lsh(x * Prefix(b, i), 32 * j)
    && (forall m | i + j <= m < |a| :: a[m] == before[m])
  }

  lemma RowStep(a: seq<uint32>, before: seq<uint32>, b: seq<uint32>, x: uint32, j: nat, i: nat, carry: uint32)
    requires RowSoFar(a, before, b, x, j, i, carry) && i + j < |a|
    ensures var n := carry + a[i + j] + x * b[i];
            0 <= n < TWO_TO_64 && n / BASE < BASE && RowSoFar(a[i + j := n % BASE], before, b, x, j, i + 1, n / BASE)
  {
    Fits64(carry, a[i + j], x, b[i]);
    var n: nat := carry + a[i + j] + x * b[i];
    var a' := a[i + j := n % BASE];
    PrefixSame(a, a', i + j);
    ProductLimb(carry, a[i + j], x, b, i, j);
  }

  /** Row `j` of the schoolbook product, cut off at the width. */
  method AddRow(a: array<uint32>, b: array<uint32>, x: uint32, j: nat) returns (carry: uint32)
    requires a.Length == b.Length && a != b && j <= a.Length
    modifies a
    ensures Value(a[..]) + Lsh(carry, 32 * a.Length)
            == old(Value(a[..])) + Lsh(x * Prefix(b[..], a.Length - j), 32 * j)
  {
    ghost var before, b0 := a[..], b[..];
    carry := 0;
    LshZero(32 * j);
    var i := 0;
    while i + j < a.Length
      invariant RowSoFar(a[..], before, b0, x, j, i, carry)
    {
      RowStep(a[..], before, b0, x, j, i, carry);
      ghost var s := a[..];
      var n: nat := carry + a[i + j] + x * b[i];
      var limb: uint32 := n % BASE;
      a[i + j] := limb;
      assert a[..] == s[i + j := limb];
      carry := n / BASE;
      i := i + 1;
    }
  }

  /** What a row leaves out is a multiple of the modulus. */
  lemma RowCutOff(p: seq<uint32>, b: seq<uint32>, j: nat) returns (over: int)
    requires j < |p| == |b|
    ensures Prefix(p, j + 1) * Value(b)
            == Prefix(p, j) * Value(b) + Lsh(p[j] * Prefix(b, |b| - j), 32 * j) + Lsh(over, 32 * |b|)
  {
    var x, low := p[j], Prefix(b, |b| - j);
    var up := UpperPart(b, |b| - j, |b|);
    over := x * up;
    var high := Lsh(up, 32 * (|b| - j));
    assert (Prefix(p, j) + Lsh(x, 32 * j)) * Value(b) == Prefix(p, j) * Value(b) + Lsh(x, 32 * j) * Value(b);
    LshScale(Value(b), x, 32 * j);
    assert Value(b) * x == x * low + x * high;
    LshSum(x * low, x * high, 32 * j);
    LshScale(x, up, 32 * (|b| - j));
    LshLsh(x * up, 32 * (|b| - j), 32 * j);
  }

  method MulAssign(pn: array<uint32>, b: array<uint32>)
    requires pn.Length == b.Length
    modifies pn
    ensures Value(pn[..]) == old(Value(pn[..])) * old(Value(b[..])) % Modulus(pn.Length)
  {
    ghost var p0, b0 := pn[..], b[..];
    var a := new uint32[pn.Length](_ => 0);
    PrefixZero(a[..], a.Length);
    LshZero(32 * a.Length);
    ghost var over := 0;
    for j := 0 to pn.Length
      invariant pn[..] == p0 && b[..] == b0
      invariant Value(a[..]) + Lsh(over, 32 * a.Length) == Prefix(p0, j) * Value(b0)
    {
      ghost var cut := RowCutOff(p0, b0, j);
      var carry := AddRow(a, b, pn[j], j);
      LshSum(over, carry, 32 * a.Length);
      LshSum(over + carry, cut, 32 * a.Length);
      over := over + carry + cut;
    }
    PrefixBound(a[..], a.Length);
    LshModIsUnique(Value(a[..]), over, 32 * a.Length, Value(p0) * Value(b0));
    Assign(pn, a);
  }

  method Assign(pn: array<uint32>, a: array<uint32>)
    requires pn.Length == a.Length && pn != a
    modifies pn
    ensures pn[..] == a[..]
  {
    for i := 0 to pn.Length
      invariant pn[..i] == a[..i]
    {
      pn[i] := a[i];
    }
  }
}
