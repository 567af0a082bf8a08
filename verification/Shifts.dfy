/** The shift operators of base_uint (src/arith_uint256.cpp): limbs move by whole words and by bits. */
module Shifts {
  import opened Basics
  import opened Bits
  import opened Limbs

  function Shl32(x: uint32, s: nat): uint32 { Lsh(x, s) % BASE }

  function Shr32(x: uint32, s: nat): uint32 {
    QuotientFits(x, Pow2(s));
    x / Pow2(s)
  }

  function Or32(x: uint32, y: uint32): uint32 {
    Pow2At32();
    OrBound(x, y, 32);
    Or(x, y)
  }

  lemma DivPow2(x: nat, t: nat)
    ensures x == Lsh(x / Pow2(t), t) + x % Pow2(t)
    ensures 0 <= x % Pow2(t) < Pow2(t) && x / Pow2(t) >= 0
  {
    var p := Pow2(t);
    assert x == x / p * p + x % p;
    LshIsProduct(x / p, t);
    QuotientFits(x, p);
  }

  /** `x << s` cuts a limb at bit 32 - s: the high part leaves, the low part makes room below. */
  lemma CutLimb(x: uint32, s: nat)
    requires s < 32
    ensures var h, l := Shr32(x, 32 - s), x % Pow2(32 - s);
      && Lsh(x, s) == BASE * h + Shl32(x, s)
      && 0 <= h < Pow2(s) && 0 <= l && Shl32(x, s) == Lsh(l, s)
  {
    var t := 32 - s;
    var h, l := x / Pow2(t), x % Pow2(t);
    DivPow2(x, t);
    LshSum(Lsh(h, t), l, s);
    LshLsh(h, t, s);
    Lsh32(h);
    LshOne(t);
    LshLess(l, Lsh(1, t), s);
    LshLsh(1, t, s);
    Lsh32(1);
    LshNonNegative(l, s);
    LshNonNegative(1, s);
    assert 0 <= Lsh(l, s) < BASE;
    HighPartFits(h, s);
  }

  lemma HighPartFits(h: nat, s: nat)
    requires s <= 32 && Lsh(h, 32 - s) < BASE
    ensures h < Pow2(s)
  {
    LshOne(s);
    LshLsh(1, s, 32 - s);
    Lsh32(1);
    if Pow2(s) < h { LshLess(Pow2(s), h, 32 - s); LshNonNegative(1, 32 - s); }
  }

  method Clear(pn: array<uint32>)
    modifies pn
    ensures forall j | 0 <= j < pn.Length :: pn[j] == 0
    ensures Value(pn[..]) == 0
  {
    for i := 0 to pn.Length
      invariant forall j | 0 <= j < i :: pn[j] == 0
    {
      pn[i] := 0;
    }
    PrefixZero(pn[..], pn.Length);
  }

  // ---------- left ----------

  /** What the loop body of `<<=` does to the limbs with the one that lands at `pos`. */
  function ShlPut(p: seq<uint32>, pos: nat, x: uint32, s: nat): (r: seq<uint32>)
    requires s < 32
    ensures |r| == |p|
  {
    var p1 := if pos + 1 < |p| && s != 0 then p[pos + 1 := Or32(p[pos + 1], Shr32(x, 32 - s))] else p;
    if pos < |p| then p1[pos := Or32(p1[pos], Shl32(x, s))] else p1
  }

  /** How much of it falls off the top, in units of the modulus. */
  ghost function ShlDropped(p: seq<uint32>, pos: nat, x: uint32, s: nat): int
    requires s < 32
  {
    if pos + 1 < |p| then 0
    else if pos + 1 == |p| then Shr32(x, 32 - s)
    else Lsh(Lsh(x, s), 32 * (pos - |p|))
  }

  /** Room for limb `pos`: what is there is below 2^s, and nothing lies above. */
  predicate ShlRoom(p: seq<uint32>, pos: nat, s: nat) {
    && (pos < |p| ==> p[pos] < Pow2(s))
    && (forall j | pos < j < |p| :: p[j] == 0)
  }

  lemma ShlPutValue(p: seq<uint32>, pos: nat, x: uint32, s: nat)
    requires s < 32 && ShlRoom(p, pos, s)
    ensures var r := ShlPut(p, pos, x, s);
      && Value(r) + Lsh(ShlDropped(p, pos, x, s), 32 * |p|) == Value(p) + Lsh(Lsh(x, s), 32 * pos)
      && ShlRoom(r, pos + 1, s)
  {
    if pos < |p| {
      ShlPutInside(p, pos, x, s);
    } else {
      LshLsh(Lsh(x, s), 32 * (pos - |p|), 32 * |p|);
    }
  }

  /** Adding to two neighbouring limbs. */
  lemma AddTwo(p: seq<uint32>, pos: nat, low: int, high: int)
    requires pos + 1 < |p| && 0 <= p[pos] + low < BASE && 0 <= p[pos + 1] + high < BASE
    ensures Value(p[pos + 1 := p[pos + 1] + high][pos := p[pos] + low]) == Value(p) + Lsh(low + BASE * high, 32 * pos)
  {
    PrefixUpdate(p, |p|, pos + 1, high);
    PrefixUpdate(p[pos + 1 := p[pos + 1] + high], |p|, pos, low);
    LshSum(low, BASE * high, 32 * pos);
    LshLimb(high, pos);
  }

  lemma ShlPutInside(p: seq<uint32>, pos: nat, x: uint32, s: nat)
    requires s < 32 && pos < |p| && ShlRoom(p, pos, s)
    ensures var r := ShlPut(p, pos, x, s);
      && Value(r) + Lsh(ShlDropped(p, pos, x, s), 32 * |p|) == Value(p) + Lsh(Lsh(x, s), 32 * pos)
      && ShlRoom(r, pos + 1, s)
  {
    var h, low := Shr32(x, 32 - s), Shl32(x, s);
    ShlPutShape(p, pos, x, s, h, low);
    AddAtTop(p, pos, low, h);
  }

  /** Adding a two-limb amount at `pos`, where the upper limb may be past the end. */
  lemma AddAtTop(p: seq<uint32>, pos: nat, low: nat, high: nat)
    requires pos < |p| && p[pos] + low < BASE && (pos + 1 < |p| ==> p[pos + 1] + high < BASE)
    ensures var r := if pos + 1 < |p| then p[pos + 1 := p[pos + 1] + high][pos := p[pos] + low]
                     else p[pos := p[pos] + low];
      Value(r) + Lsh(if pos + 1 < |p| then 0 else high, 32 * |p|) == Value(p) + Lsh(low + BASE * high, 32 * pos)
  {
    if pos + 1 < |p| {
      AddTwo(p, pos, low, high);
      LshZero(32 * |p|);
    } else {
      PrefixUpdate(p, |p|, pos, low);
      LshSum(low, BASE * high, 32 * pos);
      LshLimb(high, pos);
    }
  }

  lemma ShlPutShape(p: seq<uint32>, pos: nat, x: uint32, s: nat, h: uint32, low: uint32)
    requires s < 32 && pos < |p| && ShlRoom(p, pos, s) && h == Shr32(x, 32 - s) && low == Shl32(x, s)
    ensures Lsh(x, s) == low + BASE * h && h < Pow2(s) && p[pos] + low < BASE
    ensures ShlPut(p, pos, x, s) ==
      if pos + 1 < |p| then p[pos + 1 := p[pos + 1] + h][pos := p[pos] + low] else p[pos := p[pos] + low]
  {
    CutLimb(x, s);
    OrLow(p[pos], x, s);
    if s == 0 && pos + 1 < |p| { assert p[pos + 1 := 0] == p; }
  }

  lemma OrLow(y: uint32, x: uint32, s: nat)
    requires s < 32 && y < Pow2(s)
    ensures Or32(y, Shl32(x, s)) == y + Shl32(x, s)
  {
    CutLimb(x, s);
    OrIsSum(x % Pow2(32 - s), y, s);
    OrSymmetric(y, Shl32(x, s));
  }

  /** After `i` limbs of `a` have been shifted into `p`. */
  ghost predicate ShlSoFar(p: seq<uint32>, a: seq<uint32>, i: nat, s: nat, k: nat, dropped: int) {
    && i <= |a| && |p| == |a| && s < 32
    && Value(p) + Lsh(dropped, 32 * |p|) == Lsh(Prefix(a, i), s + 32 * k)
    && ShlRoom(p, i + k, s)
  }

  lemma ShlStep(p: seq<uint32>, a: seq<uint32>, i: nat, s: nat, k: nat, dropped: int)
    requires i < |a| && ShlSoFar(p, a, i, s, k, dropped)
    ensures ShlSoFar(ShlPut(p, i + k, a[i], s), a, i + 1, s, k, dropped + ShlDropped(p, i + k, a[i], s))
  {
    var x, d := a[i], ShlDropped(p, i + k, a[i], s);
    ShlPutValue(p, i + k, x, s);
    LshSum(dropped, d, 32 * |p|);
    LshSum(Prefix(a, i), Lsh(x, 32 * i), s + 32 * k);
    LshLsh(x, 32 * i, s + 32 * k);
    LshLsh(x, s, 32 * (i + k));
  }

  method ShiftLeftAssign(pn: array<uint32>, shift: nat)
    modifies pn
    ensures Value(pn[..]) == Lsh(old(Value(pn[..])), shift) % Modulus(pn.Length)
  {
    var a := pn[..];
    Clear(pn);
    var k, s := shift / 32, shift % 32;
    ghost var dropped := 0;
    LshZero(32 * pn.Length);
    LshZero(s + 32 * k);
    for i := 0 to pn.Length
      invariant ShlSoFar(pn[..], a, i, s, k, dropped)
    {
      ghost var p := pn[..];
      ShlStep(p, a, i, s, k, dropped);
      if i + k + 1 < pn.Length && s != 0 { pn[i + k + 1] := Or32(pn[i + k + 1], Shr32(a[i], 32 - s)); }
      if i + k < pn.Length { pn[i + k] := Or32(pn[i + k], Shl32(a[i], s)); }
      assert pn[..] == ShlPut(p, i + k, a[i], s);
      dropped := dropped + ShlDropped(p, i + k, a[i], s);
    }
    PrefixBound(pn[..], pn.Length);
    LshModIsUnique(Value(pn[..]), dropped, 32 * pn.Length, Lsh(Value(a), shift));
  }

  // ---------- right ----------

  /** What the loop body of `>>=` does with limb `i`, which lands `k` limbs lower. */
  function ShrPut(p: seq<uint32>, i: nat, k: nat, x: uint32, s: nat): (r: seq<uint32>)
    requires s < 32 && i < |p|
    ensures |r| == |p|
  {
    var p1 := if i >= k + 1 && s != 0 then p[i - k - 1 := Or32(p[i - k - 1], Shl32(x, 32 - s))] else p;
    if i >= k then p1[i - k := Or32(p1[i - k], Shr32(x, s))] else p1
  }

  /** After `i` limbs: the quotient so far, and a remainder that the shift discards. */
  ghost predicate ShrSoFar(p: seq<uint32>, a: seq<uint32>, i: nat, s: nat, k: nat, rest: int) {
    && i <= |a| && |p| == |a| && s < 32
    && Lsh(Value(p), s + 32 * k) + rest == Prefix(a, i)
    && 0 <= rest < Pow2(s + 32 * k) && (i <= k ==> rest < Pow2(32 * i))
    && ShrRoom(p, i, s, k)
  }

  predicate ShrRoom(p: seq<uint32>, i: nat, s: nat, k: nat)
    requires s < 32
  {
    && (forall j | 0 <= j < |p| && i <= j + k :: p[j] == 0)
    && (forall j | 0 <= j < |p| && j + k + 1 == i :: p[j] < Pow2(32 - s))
  }

  lemma ShrLimb(x: uint32, s: nat)
    requires s < 32
    ensures x == Lsh(Shr32(x, s), s) + x % Pow2(s) && 0 <= x % Pow2(s) < Pow2(s)
    ensures Shr32(x, s) < Pow2(32 - s)
  {
    DivPow2(x, s);
    HighPartFits(Shr32(x, s), 32 - s);
  }

  lemma ShrStep(p: seq<uint32>, a: seq<uint32>, i: nat, s: nat, k: nat, rest: int) returns (rest': int)
    requires i < |a| && ShrSoFar(p, a, i, s, k, rest)
    ensures ShrSoFar(ShrPut(p, i, k, a[i], s), a, i + 1, s, k, rest')
  {
    if i < k {
      rest' := Prefix(a, i + 1);
      ShrBelow(p, a, i, s, k, rest);
    } else if i == k {
      rest' := rest + Lsh(a[i] % Pow2(s), 32 * k);
      ShrAt(p, a, i, s, k, rest);
    } else {
      rest' := rest;
      ShrAbove(p, ShrPut(p, i, k, a[i], s), a, i, s, k, rest);
    }
  }

  lemma ShrBelow(p: seq<uint32>, a: seq<uint32>, i: nat, s: nat, k: nat, rest: int)
    requires i < |a| && ShrSoFar(p, a, i, s, k, rest) && i < k
    ensures ShrSoFar(p, a, i + 1, s, k, Prefix(a, i + 1))
  {
    PrefixZero(p, |p|);
    LshZero(s + 32 * k);
    PrefixBound(a, i + 1);
    Pow2Monotone(32 * (i + 1), s + 32 * k);
  }

  lemma ShrAt(p: seq<uint32>, a: seq<uint32>, i: nat, s: nat, k: nat, rest: int)
    requires i < |a| && ShrSoFar(p, a, i, s, k, rest) && i == k
    ensures ShrSoFar(ShrPut(p, i, k, a[i], s), a, i + 1, s, k, rest + Lsh(a[i] % Pow2(s), 32 * k))
  {
    var h, l := Shr32(a[i], s), a[i] % Pow2(s);
    ShrLimb(a[i], s);
    assert ShrPut(p, i, k, a[i], s) == p[0 := h];
    ShrAtValue(p, h);
    LshZero(s + 32 * k);
    SplitShifted(a[i], h, l, s, 32 * k);
    LshNonNegative(l, 32 * k);
    RemainderFits(l, s, k);
  }

  lemma ShrAtValue(p: seq<uint32>, h: uint32)
    requires p != [] && forall j | 0 <= j < |p| :: p[j] == 0
    ensures Value(p) == 0 && Value(p[0 := h]) == h
  {
    PrefixZero(p, |p|);
    PrefixUpdate(p, |p|, 0, h);
  }

  /** A limb split at bit s, moved up by n bits. */
  lemma SplitShifted(x: int, h: int, l: int, s: nat, n: nat)
    requires x == Lsh(h, s) + l
    ensures Lsh(x, n) == Lsh(h, s + n) + Lsh(l, n)
  {
    LshSum(Lsh(h, s), l, n);
    LshLsh(h, s, n);
  }

  lemma RemainderFits(l: nat, s: nat, k: nat)
    requires l < Pow2(s)
    ensures Lsh(l, 32 * k) + Pow2(32 * k) <= Pow2(s + 32 * k)
  {
    LshOne(s);
    LshOne(32 * k);
    LshOne(s + 32 * k);
    LshLess(l, Lsh(1, s), 32 * k);
    LshLsh(1, s, 32 * k);
  }

  lemma ShrAbove(p: seq<uint32>, r: seq<uint32>, a: seq<uint32>, i: nat, s: nat, k: nat, rest: int)
    requires k < i < |a| && ShrSoFar(p, a, i, s, k, rest)
    requires r == ShrPut(p, i, k, a[i], s)
    ensures ShrSoFar(r, a, i + 1, s, k, rest)
  {
    ShrLimb(a[i], s);
    ShrPutValue(p, i, k, a[i], s, Shr32(a[i], s), Lsh(a[i] % Pow2(s), 32 - s));
    ShrAboveDone(p, r, a, i, s, k, rest, Shr32(a[i], s), a[i] % Pow2(s));
  }

  lemma ShrPutValue(p: seq<uint32>, i: nat, k: nat, x: uint32, s: nat, h: uint32, lt: int)
    requires s < 32 && k < i < |p| && ShrRoom(p, i, s, k) && h == Shr32(x, s) && lt == Lsh(x % Pow2(s), 32 - s)
    ensures Value(ShrPut(p, i, k, x, s)) == Value(p) + Lsh(lt + BASE * h, 32 * (i - k - 1))
    ensures ShrRoom(ShrPut(p, i, k, x, s), i + 1, s, k)
  {
    ShrPutShape(p, i, k, x, s, h, lt);
    ShrTwo(p, ShrPut(p, i, k, x, s), i - k - 1, i - k, lt, h);
  }

  lemma ShrTwo(p: seq<uint32>, r: seq<uint32>, pos: nat, next: nat, lt: nat, h: uint32)
    requires next == pos + 1 < |p| && p[next] == 0 && p[pos] + lt < BASE
    requires r == p[next := p[next] + h][pos := p[pos] + lt]
    ensures Value(r) == Value(p) + Lsh(lt + BASE * h, 32 * pos)
  {
    AddTwo(p, pos, lt, h);
  }

  lemma ShrAboveDone(p: seq<uint32>, r: seq<uint32>, a: seq<uint32>, i: nat, s: nat, k: nat, rest: int,
                     h: int, l: int)
    requires k < i < |a| && ShrSoFar(p, a, i, s, k, rest) && a[i] == Lsh(h, s) + l
    requires |r| == |p| && ShrRoom(r, i + 1, s, k)
    requires Value(r) == Value(p) + Lsh(Lsh(l, 32 - s) + BASE * h, 32 * (i - k - 1))
    ensures ShrSoFar(r, a, i + 1, s, k, rest)
  {
    ShrAboveValue(Value(p), a[i], h, l, s, 32 * (i - k - 1), 32 * k);
  }

  /** The quotient's new part, times what the shift divides by, is exactly the limb that came in. */
  lemma ShrAboveValue(v: int, x: int, h: int, l: int, s: nat, m: nat, n: nat)
    requires s < 32 && x == Lsh(h, s) + l
    ensures Lsh(v + Lsh(Lsh(l, 32 - s) + BASE * h, m), s + n) == Lsh(v, s + n) + Lsh(x, m + 32 + n)
  {
    var y := Lsh(l, 32 - s) + BASE * h;
    LshSum(v, Lsh(y, m), s + n);
    LshLsh(y, m, s + n);
    assert Lsh(y, s) == Lsh(x, 32) by {
      LshSum(Lsh(l, 32 - s), BASE * h, s);
      LshLsh(l, 32 - s, s);
      Lsh32(h);
      LshLsh(h, 32, s);
      SplitShifted(x, h, l, s, 32);
    }
    LshLsh(y, s, m + n);
    LshLsh(x, 32, m + n);
  }

  lemma ShrPutShape(p: seq<uint32>, i: nat, k: nat, x: uint32, s: nat, h: uint32, lt: int)
    requires s < 32 && k < i < |p| && ShrRoom(p, i, s, k) && h == Shr32(x, s) && lt == Lsh(x % Pow2(s), 32 - s)
    ensures 0 <= lt && p[i - k - 1] + lt < BASE && h < Pow2(32 - s)
    ensures ShrPut(p, i, k, x, s) == p[i - k := p[i - k] + h][i - k - 1 := p[i - k - 1] + lt]
    ensures ShrRoom(ShrPut(p, i, k, x, s), i + 1, s, k)
  {
    ShrLimb(x, s);
    LowBitsFit(x, p[i - k - 1], s);
    assert p[i - k - 1 := p[i - k - 1]] == p;
  }

  /** The low bits of a limb land above what its lower neighbour already holds. */
  lemma LowBitsFit(x: uint32, y: uint32, s: nat)
    requires s < 32 && y < Pow2(32 - s)
    ensures var lt := Lsh(x % Pow2(s), 32 - s);
      && 0 <= lt < BASE - y
      && (s == 0 ==> lt == 0)
      && (s > 0 ==> Or32(y, Shl32(x, 32 - s)) == y + lt)
  {
    if s == 0 {
      LshZero(32);
      Pow2At32();
    } else {
      CutLimb(x, 32 - s);
      OrLow(y, x, 32 - s);
    }
  }

  method ShiftRightAssign(pn: array<uint32>, shift: nat)
    modifies pn
    ensures Value(pn[..]) == old(Value(pn[..])) / Pow2(shift)
  {
    var a := pn[..];
    Clear(pn);
    var k, s := shift / 32, shift % 32;
    ghost var rest := 0;
    LshZero(s + 32 * k);
    for i := 0 to pn.Length
      invariant ShrSoFar(pn[..], a, i, s, k, rest)
    {
      ghost var p := pn[..];
      rest := ShrStep(p, a, i, s, k, rest);
      if i - k - 1 >= 0 && s != 0 { pn[i - k - 1] := Or32(pn[i - k - 1], Shl32(a[i], 32 - s)); }
      if i - k >= 0 { pn[i - k] := Or32(pn[i - k], Shr32(a[i], s)); }
      assert pn[..] == ShrPut(p, i, k, a[i], s);
    }
    ShrDone(pn[..], a, shift, rest);
  }

  lemma ShrDone(p: seq<uint32>, a: seq<uint32>, shift: nat, rest: int)
    requires ShrSoFar(p, a, |a|, shift % 32, shift / 32, rest)
    ensures Value(p) == Value(a) / Pow2(shift)
  {
    LshModIsUnique(rest, Value(p), shift, Value(a));
  }
}
