/**
 Fixed-width unsigned integers as arrays of 32-bit limbs, least significant first
 (src/arith_uint256.h, src/arith_uint256.cpp).

 `Value` reads the limbs as one number; each operator is proved to compute on that number modulo
 2^(32*WIDTH), for every width, by the same loops over limbs.
 */
module Limbs {
  import opened Basics
  import opened Bits

  const BASE: nat := 0x1_0000_0000

  /** The number in the first `n` limbs. */
  function Prefix(s: seq<uint32>, n: nat): int
    requires n <= |s|
  {
    if n == 0 then 0 else Prefix(s, n - 1) + Lsh(s[n - 1], 32 * (n - 1))
  }

  function Value(s: seq<uint32>): nat {
    PrefixBound(s, |s|);
    Prefix(s, |s|)
  }

  function Modulus(width: nat): nat { Pow2(32 * width) }

  // ---------- arithmetic of limbs ----------

  lemma LshLimb(x: int, i: nat)
    ensures Lsh(x, 32 * (i + 1)) == Lsh(BASE * x, 32 * i)
  {
    LshLsh(x, 32, 32 * i);
    Lsh32(x);
  }

  lemma {:induction false} PrefixBound(s: seq<uint32>, n: nat)
    requires n <= |s|
    ensures 0 <= Prefix(s, n) < Lsh(1, 32 * n) == Pow2(32 * n)
  {
    LshOne(32 * n);
    if n > 0 {
      PrefixBound(s, n - 1);
      LshNonNegative(s[n - 1], 32 * (n - 1));
      LshLess(s[n - 1], BASE, 32 * (n - 1));
      LshLimb(1, n - 1);
    }
  }

  lemma {:induction false} PrefixSame(s: seq<uint32>, t: seq<uint32>, n: nat)
    requires n <= |s| && n <= |t| && forall i | 0 <= i < n :: s[i] == t[i]
    ensures Prefix(s, n) == Prefix(t, n)
  {
    if n > 0 { PrefixSame(s, t, n - 1); }
  }

  /** Adding `d` to limb `i`. */
  lemma {:induction false} PrefixUpdate(s: seq<uint32>, n: nat, i: nat, d: int)
    requires n <= |s| && i < |s| && 0 <= s[i] + d < BASE
    ensures Prefix(s[i := s[i] + d], n) == Prefix(s, n) + if i < n then Lsh(d, 32 * i) else 0
  {
    if n > 0 {
      PrefixUpdate(s, n - 1, i, d);
      if i == n - 1 { LshSum(s[i], d, 32 * i); }
    }
  }

  lemma {:induction false} PrefixZero(s: seq<uint32>, n: nat)
    requires n <= |s| && forall i | 0 <= i < n :: s[i] == 0
    ensures Prefix(s, n) == 0
  {
    if n > 0 {
      PrefixZero(s, n - 1);
      LshZero(32 * (n - 1));
    }
  }

  lemma {:induction false} PrefixTail(s: seq<uint32>, t: seq<uint32>, i: nat)
    requires i <= |s| == |t| && forall j | i <= j < |s| :: s[j] == t[j]
    ensures Value(s) - Prefix(s, i) == Value(t) - Prefix(t, i)
    decreases |s| - i
  {
    if i < |s| { PrefixTail(s, t, i + 1); }
  }

  /** Splitting `n` into a limb and a carry. */
  lemma SplitLimb(n: nat, i: nat)
    ensures Lsh(n % BASE, 32 * i) + Lsh(n / BASE, 32 * (i + 1)) == Lsh(n, 32 * i)
  {
    LshLimb(n / BASE, i);
    LshSum(n % BASE, BASE * (n / BASE), 32 * i);
  }

  // ---------- addition, negation, subtraction ----------

  method AddAssign(pn: array<uint32>, b: array<uint32>)
    requires pn.Length == b.Length
    modifies pn
    ensures Value(pn[..]) == (old(Value(pn[..])) + old(Value(b[..]))) % Modulus(pn.Length)
  {
    ghost var a0, b0 := pn[..], b[..];
    var carry := 0;
    LshZero(0);
    for i := 0 to pn.Length
      invariant 0 <= carry <= 1
      invariant Prefix(pn[..], i) + Lsh(carry, 32 * i) == Prefix(a0, i) + Prefix(b0, i)
      invariant forall j | i <= j < pn.Length :: pn[j] == a0[j] && b[j] == b0[j]
    {
      var n := carry + pn[i] + b[i];
      ghost var before := pn[..];
      AddLimb(carry, pn[i], b[i], n, i);
      pn[i] := n % BASE;
      PrefixSame(before, pn[..], i);
      carry := n / BASE;
    }
    PrefixBound(pn[..], pn.Length);
    LshModIsUnique(Value(pn[..]), carry, 32 * pn.Length, Value(a0) + Value(b0));
  }

  lemma AddLimb(carry: nat, x: uint32, y: uint32, n: nat, i: nat)
    requires carry <= 1 && n == carry + x + y
    ensures n / BASE <= 1
    ensures Lsh(n % BASE, 32 * i) + Lsh(n / BASE, 32 * (i + 1)) == Lsh(carry, 32 * i) + Lsh(x, 32 * i) + Lsh(y, 32 * i)
  {
    SplitLimb(n, i);
    LshSum(carry + x, y, 32 * i);
    LshSum(carry, x, 32 * i);
  }

  /** `++`: the carry stops at the first limb that does not wrap. */
  method Increment(pn: array<uint32>)
    modifies pn
    ensures Value(pn[..]) == (old(Value(pn[..])) + 1) % Modulus(pn.Length)
  {
    ghost var a0 := pn[..];
    var i := 0;
    while i < pn.Length
      invariant 0 <= i <= pn.Length
      invariant CarriedTo(pn[..], a0, i)
    {
      ghost var s := pn[..];
      IncrementLimb(s, a0, i);
      pn[i] := (pn[i] + 1) % BASE;
      assert pn[..] == s[i := (s[i] + 1) % BASE];
      if pn[i] != 0 { return; }
      i := i + 1;
    }
    IncrementDone(pn[..], a0, 1);
  }

  /** The first `i` limbs have wrapped to zero, and one is still to be added above them. */
  ghost predicate CarriedTo(s: seq<uint32>, a0: seq<uint32>, i: nat) {
    && i <= |s| == |a0|
    && (forall j | i <= j < |s| :: s[j] == a0[j])
    && Prefix(s, i) + Lsh(1, 32 * i) == Prefix(a0, i) + 1
  }

  lemma IncrementLimb(s: seq<uint32>, a0: seq<uint32>, i: nat)
    requires i < |s| && CarriedTo(s, a0, i)
    ensures var t := s[i := (s[i] + 1) % BASE];
            if t[i] == 0 then CarriedTo(t, a0, i + 1) else Value(t) == (Value(a0) + 1) % Modulus(|t|)
  {
    var t := s[i := (s[i] + 1) % BASE];
    PrefixSame(s, t, i);
    LshSum(a0[i], 1, 32 * i);
    if t[i] == 0 {
      assert a0[i] == BASE - 1;
      LshLimb(1, i);
      LshZero(32 * i);
    } else {
      PrefixTail(t, a0, i + 1);
      LshZero(32 * |t|);
      IncrementDone(t, a0, 0);
    }
  }

  lemma IncrementDone(s: seq<uint32>, a0: seq<uint32>, carry: nat)
    requires |s| == |a0| && Value(s) + Lsh(carry, 32 * |s|) == Value(a0) + 1
    ensures Value(s) == (Value(a0) + 1) % Modulus(|s|)
  {
    PrefixBound(s, |s|);
    LshModIsUnique(Value(s), carry, 32 * |s|, Value(a0) + 1);
  }

  method Complement(b: array<uint32>) returns (ret: array<uint32>)
    ensures fresh(ret) && ret.Length == b.Length
    ensures Value(ret[..]) == Modulus(b.Length) - 1 - Value(b[..])
  {
    ret := new uint32[b.Length](_ => 0);
    for i := 0 to b.Length
      invariant Prefix(ret[..], i) == Lsh(1, 32 * i) - 1 - Prefix(b[..], i)
    {
      ghost var before := ret[..];
      ret[i] := BASE - 1 - b[i];
      PrefixSame(before, ret[..], i);
      LshSum(ret[i] + b[i], 1, 32 * i);
      LshSum(ret[i], b[i], 32 * i);
      LshLimb(1, i);
    }
    LshOne(32 * b.Length);
    assert ret[..ret.Length] == ret[..] && b[..b.Length] == b[..];
  }

  method Negate(b: array<uint32>) returns (ret: array<uint32>)
    ensures fresh(ret) && ret.Length == b.Length
    ensures Value(ret[..]) == (Modulus(b.Length) - Value(b[..])) % Modulus(b.Length)
  {
    ret := Complement(b);
    Increment(ret);
  }

  method SubAssign(pn: array<uint32>, b: array<uint32>)
    requires pn.Length == b.Length
    modifies pn
    ensures Value(pn[..]) == (old(Value(pn[..])) - old(Value(b[..]))) % Modulus(pn.Length)
  {
    ghost var a0, b0, m := Value(pn[..]), Value(b[..]), Modulus(pn.Length);
    assert 0 <= b0 < m by { PrefixBound(b[..], b.Length); }
    var minus := Negate(b);
    ghost var v := Value(minus[..]);
    AddAssign(pn, minus);
    SubtractModulo(a0, b0, m, v, Value(pn[..]));
  }

  lemma SubtractModulo(a: int, b: int, m: nat, v: int, r: int)
    requires 0 <= b < m && v == (m - b) % m && r == (a + v) % m
    ensures r == (a - b) % m
  {
    if b == 0 {
      ModIsUnique(0, 1, m, m);
    } else {
      ModIsUnique(m - b, 0, m, m - b);
      var q := (a + v) / m;
      assert a + v == q * m + r;
      assert (q - 1) * m == q * m - m;
      ModIsUnique(r, q - 1, m, a - b);
    }
  }
}
