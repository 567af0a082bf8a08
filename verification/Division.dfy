/** Comparison, bit length and division of base_uint (src/arith_uint256.cpp). */
module Division {
  import opened Basics
  import opened Bits
  import opened Limbs
  import opened Shifts

  // ---------- comparison ----------

  method CompareTo(pn: array<uint32>, b: array<uint32>) returns (c: int)
    requires pn.Length == b.Length
    ensures c == if Value(pn[..]) < Value(b[..]) then -1 else if Value(pn[..]) > Value(b[..]) then 1 else 0
  {
    var i := pn.Length - 1;
    while i >= 0
      invariant -1 <= i < pn.Length
      invariant forall j | i < j < pn.Length :: pn[j] == b[j]
    {
      if pn[i] < b[i] { LimbDecides(pn[..], b[..], i); return -1; }
      if pn[i] > b[i] { LimbDecides(b[..], pn[..], i); return 1; }
      i := i - 1;
    }
    PrefixSame(pn[..], b[..], pn.Length);
    c := 0;
  }

  lemma LimbDecides(s: seq<uint32>, t: seq<uint32>, i: nat)
    requires i < |s| == |t| && s[i] < t[i] && forall j | i < j < |s| :: s[j] == t[j]
    ensures Value(s) < Value(t)
  {
    PrefixTail(s, t, i + 1);
    PrefixBound(s, i);
    PrefixBound(t, i);
    LshLess(s[i], t[i], 32 * i);
  }

  // ---------- bit length ----------

  /** Below 2^(n+1), the bit test `x & (1 << n)` tells whether x reaches 2^n. */
  lemma {:induction false} TopBit(x: nat, n: nat)
    requires x < Pow2(n + 1)
    ensures And(x, Pow2(n)) != 0 <==> x >= Pow2(n)
  {
    if n > 0 { TopBit(x / 2, n - 1); }
  }

  ghost predicate IsBitLength(v: int, r: nat) {
    if r == 0 then v == 0 else Pow2(r - 1) <= v < Pow2(r)
  }

  lemma LimbLength(s: seq<uint32>, pos: nat, n: nat)
    requires pos < |s| && Pow2(n) <= s[pos] < Pow2(n + 1) && forall j | pos < j < |s| :: s[j] == 0
    ensures IsBitLength(Value(s), 32 * pos + n + 1)
  {
    TopIsPrefix(s, pos + 1);
    PrefixBound(s, pos);
    ShiftedLength(s[pos], n, Prefix(s, pos), 32 * pos);
  }

  lemma ShiftedLength(x: int, n: nat, low: int, e: nat)
    requires Pow2(n) <= x < Pow2(n + 1) && 0 <= low < Lsh(1, e)
    ensures IsBitLength(low + Lsh(x, e), e + n + 1)
  {
    Pow2Add(n, e);
    Pow2Add(n + 1, e);
    LshIsProduct(Pow2(n), e);
    LshIsProduct(Pow2(n + 1), e);
    LshLess(x, Pow2(n + 1), e);
    if x > Pow2(n) { LshLess(Pow2(n), x, e); }
  }

  lemma {:induction false} TopIsPrefix(s: seq<uint32>, n: nat)
    requires n <= |s| && forall j | n <= j < |s| :: s[j] == 0
    ensures Value(s) == Prefix(s, n)
    decreases |s| - n
  {
    if n < |s| {
      TopIsPrefix(s, n + 1);
      LshZero(32 * n);
    }
  }

  /** The position of the highest set bit plus one, or zero. */
  method BitLength(pn: array<uint32>) returns (r: nat)
    ensures IsBitLength(Value(pn[..]), r)
  {
    var pos := pn.Length - 1;
    while pos >= 0
      invariant -1 <= pos < pn.Length
      invariant forall j | pos < j < pn.Length :: pn[j] == 0
    {
      if pn[pos] != 0 {
        var n := LimbBits(pn[pos]);
        LimbLength(pn[..], pos, n);
        return 32 * pos + n + 1;
      }
      pos := pos - 1;
    }
    PrefixZero(pn[..], pn.Length);
    r := 0;
  }

  /** The loop over one non-zero limb, from bit 31 down. */
  method LimbBits(x: uint32) returns (n: nat)
    requires x != 0
    ensures Pow2(n) <= x < Pow2(n + 1)
  {
    Pow2At32();
    var nbits := 31;
    while nbits > 0
      invariant 0 <= nbits <= 31 && x < Pow2(nbits + 1)
    {
      TopBit(x, nbits);
      if And(x, Pow2(nbits)) != 0 { return nbits; }
      nbits := nbits - 1;
    }
    n := 0;
  }

  // ---------- division ----------

  /** The quotient has no bit at or below `shift` yet; `a` is what its current limb holds above. */
  predicate BitsAbove(q: seq<uint32>, shift: nat, a: nat) {
    && shift / 32 < |q| && q[shift / 32] == Lsh(a, shift % 32 + 1)
    && (forall j | 0 <= j < shift / 32 :: q[j] == 0)
  }

  /** `pn[shift / 32] |= 1U << (shift & 31)` adds 2^shift. */
  lemma SetBit(q: seq<uint32>, shift: nat, a: nat)
    requires BitsAbove(q, shift, a)
    ensures var i, n := shift / 32, shift % 32;
      && Pow2(n) < BASE
      && Or32(q[i], Pow2(n)) == q[i] + Pow2(n) == Lsh(2 * a + 1, n)
      && Value(q[i := q[i] + Pow2(n)]) == Value(q) + Pow2(shift)
  {
    var i, n := shift / 32, shift % 32;
    BitFits(n);
    OrIsSum(a, Pow2(n), n + 1);
    OrBelow(q[i], Pow2(n));
    PrefixUpdate(q, |q|, i, Pow2(n));
    LshOne(n);
    LshLsh(1, n, 32 * i);
    LshOne(shift);
    LshSum(2 * a, 1, n);
    LshDouble(a, n);
  }

  lemma BitFits(n: nat)
    requires n < 32
    ensures Pow2(n) < Pow2(n + 1) <= BASE
  {
    Pow2At32();
    Pow2Monotone(n + 1, 32);
  }

  lemma OrBelow(x: uint32, y: uint32)
    ensures Or(x, y) < BASE
  {
    Pow2At32();
    OrBound(x, y, 32);
  }

  lemma LshDouble(a: int, n: nat)
    ensures Lsh(2 * a, n) == Lsh(a, n + 1)
  {
    LshLsh(a, 1, n);
  }

  /** Moving on to the next lower bit, from a limb that now holds a multiple of 2^(shift % 32). */
  lemma NextBit(q: seq<uint32>, shift: nat, a: nat)
    requires shift > 0 && shift / 32 < |q| && q[shift / 32] == Lsh(a, shift % 32)
    requires forall j | 0 <= j < shift / 32 :: q[j] == 0
    ensures BitsAbove(q, shift - 1, if shift % 32 == 0 then 0 else a)
  {
    if shift % 32 == 0 {
      LshZero(32);
      assert (shift - 1) / 32 == shift / 32 - 1 && (shift - 1) % 32 == 31;
    } else {
      assert (shift - 1) / 32 == shift / 32 && (shift - 1) % 32 == shift % 32 - 1;
    }
  }

  /** One round of long division: `div` is the divisor shifted, `num` what is left of the numerator. */
  ghost predicate Dividing(n: int, d: nat, q: int, num: int, shift: nat) {
    && q * d + num == n
    && 0 <= num < Lsh(d, shift + 1)
  }

  lemma SubtractRound(n: int, d: nat, q: int, num: int, shift: nat)
    requires Dividing(n, d, q, num, shift)
    ensures num >= Lsh(d, shift) ==>
      (q + Pow2(shift)) * d + (num - Lsh(d, shift)) == n && 0 <= num - Lsh(d, shift) < Lsh(d, shift)
  {
    LshIsProduct(d, shift);
    assert (q + Pow2(shift)) * d == q * d + d * Pow2(shift);
  }

  lemma HalveDivisor(d: nat, shift: nat)
    requires shift > 0
    ensures Lsh(d, shift) / Pow2(1) == Lsh(d, shift - 1)
  {
    assert Pow2(1) == 2;
  }

  /** Aligning the divisor under the numerator neither overflows nor leaves it too small. */
  lemma Align(n: int, d: nat, nBits: nat, dBits: nat, width: nat)
    requires IsBitLength(n, nBits) && IsBitLength(d, dBits) && 0 < dBits <= nBits && n < Pow2(32 * width)
    ensures 0 <= Lsh(d, nBits - dBits) < Pow2(32 * width)
    ensures Dividing(n, d, 0, n, nBits - dBits)
    ensures nBits - dBits < 32 * width
  {
    var s := nBits - dBits;
    LshNonNegative(d, s);
    LshOne(dBits);
    LshOne(dBits - 1);
    LshOne(nBits);
    LshLess(d, Lsh(1, dBits), s);
    LshLsh(1, dBits, s);
    LshNonNegative(1, s);
    LshLsh(1, dBits - 1, s + 1);
    if d > Pow2(dBits - 1) { LshLess(Pow2(dBits - 1), d, s + 1); LshNonNegative(1, s + 1); }
    assert nBits <= 32 * width by {
      if nBits > 32 * width { Pow2Monotone(32 * width, nBits - 1); }
    }
    Pow2Monotone(nBits, 32 * width);
  }

  method Copy(b: array<uint32>) returns (c: array<uint32>)
    ensures fresh(c) && c[..] == b[..]
  {
    c := new uint32[b.Length](i requires 0 <= i < b.Length reads b => b[i]);
  }

  /** What the loop keeps: quotient and remainder so far, and the divisor shifted into place. */
  ghost predicate LongDivision(n: int, d: nat, q: seq<uint32>, num: int, div: int, shift: nat, a: nat) {
    && BitsAbove(q, shift, a)
    && Dividing(n, d, Value(q), num, shift)
    && div == Lsh(d, shift)
  }

  method SubtractNoWrap(num: array<uint32>, div: array<uint32>)
    requires num.Length == div.Length && num != div && Value(num[..]) >= Value(div[..])
    modifies num
    ensures Value(num[..]) == old(Value(num[..])) - Value(div[..])
  {
    ghost var a, b, m := Value(num[..]), Value(div[..]), Modulus(num.Length);
    assert 0 <= b <= a < m by {
      PrefixBound(num[..], num.Length);
      PrefixBound(div[..], div.Length);
    }
    SubAssign(num, div);
    ModIsUnique(a - b, 0, m, a - b);
  }

  /** `if (num >= div) { num -= div; set bit }` */
  method DivideRound(pn: array<uint32>, num: array<uint32>, div: array<uint32>, shift: nat,
                     ghost n: int, ghost d: nat, ghost a: nat)
    returns (ghost a': nat)
    requires pn.Length == num.Length == div.Length && pn != num && num != div && pn != div
    requires LongDivision(n, d, pn[..], Value(num[..]), Value(div[..]), shift, a)
    modifies pn, num
    ensures Value(pn[..]) * d + Value(num[..]) == n && 0 <= Value(num[..]) < Lsh(d, shift)
    ensures pn[shift / 32] == Lsh(a', shift % 32) && forall j | 0 <= j < shift / 32 :: pn[j] == 0
  {
    ghost var q, left := pn[..], Value(num[..]);
    SubtractRound(n, d, Value(q), left, shift);
    var c := CompareTo(num, div);
    if c >= 0 {
      SubtractNoWrap(num, div);
      SetBit(q, shift, a);
      pn[shift / 32] := Or32(pn[shift / 32], Pow2(shift % 32));
      assert pn[..] == q[shift / 32 := q[shift / 32] + Pow2(shift % 32)];
      a' := 2 * a + 1;
    } else {
      LshDouble(a, shift % 32);
      a' := 2 * a;
    }
  }

  /** Long division: exact quotient, the remainder left in `num`; a zero divisor throws. */
  method DivAssign(pn: array<uint32>, b: array<uint32>) returns (ok: bool, num: array<uint32>)
    requires pn.Length == b.Length
    modifies pn
    ensures fresh(num) && num.Length == pn.Length
    ensures ok == (old(Value(b[..])) != 0)
    ensures ok ==> Value(pn[..]) == old(Value(pn[..])) / old(Value(b[..]))
    ensures ok ==> Value(num[..]) == old(Value(pn[..])) % old(Value(b[..]))
  {
    ghost var n, d := Value(pn[..]), Value(b[..]);
    PrefixBound(pn[..], pn.Length);
    PrefixBound(b[..], b.Length);
    var div := Copy(b);
    num := Copy(pn);
    Clear(pn);
    var numBits := BitLength(num);
    var divBits := BitLength(div);
    if divBits == 0 { return false, num; }
    ok := true;
    if divBits > numBits {
      SmallNumerator(n, d, numBits, divBits);
      return;
    }
    var shift := numBits - divBits;
    Align(n, d, numBits, divBits, pn.Length);
    ModIsUnique(Lsh(d, shift), 0, Modulus(div.Length), Lsh(d, shift));
    ShiftLeftAssign(div, shift);
    LshZero(shift % 32 + 1);
    DivideLoop(pn, num, div, shift, n, d);
  }

  /** The loop: one bit of the quotient a round, from the highest. */
  method DivideLoop(pn: array<uint32>, num: array<uint32>, div: array<uint32>, shift0: nat, ghost n: int,
                    ghost d: nat)
    requires pn.Length == num.Length == div.Length && pn != num && num != div && pn != div
    requires d > 0 && LongDivision(n, d, pn[..], Value(num[..]), Value(div[..]), shift0, 0)
    modifies pn, num, div
    ensures Value(pn[..]) == n / d && Value(num[..]) == n % d
  {
    var shift: int := shift0;
    ghost var a: nat := 0;
    while shift >= 0
      invariant -1 <= shift
      invariant shift >= 0 ==> LongDivision(n, d, pn[..], Value(num[..]), Value(div[..]), shift, a)
      invariant shift == -1 ==> Value(pn[..]) * d + Value(num[..]) == n && 0 <= Value(num[..]) < d
    {
      a := DivideRound(pn, num, div, shift, n, d, a);
      ShiftRightAssign(div, 1);
      if shift > 0 {
        HalveDivisor(d, shift);
        NextBit(pn[..], shift, a);
        a := if shift % 32 == 0 then 0 else a;
      }
      shift := shift - 1;
    }
    ModIsUnique(Value(num[..]), Value(pn[..]), d, n);
  }

  lemma SmallNumerator(n: int, d: int, nBits: nat, dBits: nat)
    requires IsBitLength(n, nBits) && IsBitLength(d, dBits) && nBits < dBits
    ensures 0 <= n < d && n / d == 0 && n % d == n
  {
    Pow2Monotone(nBits, dBits - 1);
    ModIsUnique(n, 0, d, n);
  }
}
