/**
 The field GF(1024) of the Bech32 generator (src/bech32.cpp), as ten bits on which `Times` is the
 multiplication by the primitive element e.  Powers of that map are tabulated as linear maps; the table
 is proved entry by entry, and with it that e has order 1023.
 */
module Galois {
  import opened LinearFold
  import opened Orbits

  /** An element: the coefficients of e^0 to e^9, lowest bit first. */
  type Element = bv10

  function Add(v: Element, w: Element): Element { v ^ w }

  /** Multiplication by e, whose minimal polynomial is z^10 + z^9 + z^5 + z^2 + 1. */
  function Times(v: Element): Element { (v << 1) ^ ((0 - (v >> 9)) & 0x225) }

  lemma AddIsXor()
    ensures IsXor(Add) && ZeroOf(Add, 0)
  {
  }

  lemma TimesAdds()
    ensures Respects(Add, Add, Times)
  {
  }

  // ---------- powers of e ----------

  /** The linear map with the given images of the ten basis elements. */
  function Lin(v: Element, c0: Element, c1: Element, c2: Element, c3: Element, c4: Element,
               c5: Element, c6: Element, c7: Element, c8: Element, c9: Element): Element
  {
    ((0 - (v & 1)) & c0) ^ ((0 - ((v >> 1) & 1)) & c1) ^ ((0 - ((v >> 2) & 1)) & c2) ^
    ((0 - ((v >> 3) & 1)) & c3) ^ ((0 - ((v >> 4) & 1)) & c4) ^ ((0 - ((v >> 5) & 1)) & c5) ^
    ((0 - ((v >> 6) & 1)) & c6) ^ ((0 - ((v >> 7) & 1)) & c7) ^ ((0 - ((v >> 8) & 1)) & c8) ^
    ((0 - ((v >> 9) & 1)) & c9)
  }

  function L2(v: bv10): bv10 { Lin(v, 0x004, 0x008, 0x010, 0x020, 0x040, 0x080, 0x100, 0x200, 0x225, 0x26f) }

  function L3(v: bv10): bv10 { Lin(v, 0x008, 0x010, 0x020, 0x040, 0x080, 0x100, 0x200, 0x225, 0x26f, 0x2fb) }

  function L6(v: bv10): bv10 { Lin(v, 0x040, 0x080, 0x100, 0x200, 0x225, 0x26f, 0x2fb, 0x3d3, 0x183, 0x306) }

  function L12(v: bv10): bv10 { Lin(v, 0x2fb, 0x3d3, 0x183, 0x306, 0x029, 0x052, 0x0a4, 0x148, 0x290, 0x305) }

  function L24(v: bv10): bv10 { Lin(v, 0x0bc, 0x178, 0x2f0, 0x3c5, 0x1af, 0x35e, 0x099, 0x132, 0x264, 0x2ed) }

  function L30(v: bv10): bv10 { Lin(v, 0x099, 0x132, 0x264, 0x2ed, 0x3ff, 0x1db, 0x3b6, 0x149, 0x292, 0x301) }

  function L31(v: bv10): bv10 { Lin(v, 0x132, 0x264, 0x2ed, 0x3ff, 0x1db, 0x3b6, 0x149, 0x292, 0x301, 0x027) }

  function L33(v: bv10): bv10 { Lin(v, 0x2ed, 0x3ff, 0x1db, 0x3b6, 0x149, 0x292, 0x301, 0x027, 0x04e, 0x09c) }

  function L62(v: bv10): bv10 { Lin(v, 0x308, 0x035, 0x06a, 0x0d4, 0x1a8, 0x350, 0x085, 0x10a, 0x214, 0x20d) }

  function L93(v: bv10): bv10 { Lin(v, 0x0d9, 0x1b2, 0x364, 0x0ed, 0x1da, 0x3b4, 0x14d, 0x29a, 0x311, 0x007) }

  function L124(v: bv10): bv10 { Lin(v, 0x0cd, 0x19a, 0x334, 0x04d, 0x09a, 0x134, 0x268, 0x2f5, 0x3cf, 0x1bb) }

  function L248(v: bv10): bv10 { Lin(v, 0x329, 0x077, 0x0ee, 0x1dc, 0x3b8, 0x155, 0x2aa, 0x371, 0x0c7, 0x18e) }

  function L341(v: bv10): bv10 { Lin(v, 0x096, 0x12c, 0x258, 0x295, 0x30f, 0x03b, 0x076, 0x0ec, 0x1d8, 0x3b0) }

  function L682(v: bv10): bv10 { Lin(v, 0x097, 0x12e, 0x25c, 0x29d, 0x31f, 0x01b, 0x036, 0x06c, 0x0d8, 0x1b0) }

  function L930(v: bv10): bv10 { Lin(v, 0x379, 0x0d7, 0x1ae, 0x35c, 0x09d, 0x13a, 0x274, 0x2cd, 0x3bf, 0x15b) }

  function L992(v: bv10): bv10 { Lin(v, 0x1b8, 0x370, 0x0c5, 0x18a, 0x314, 0x00d, 0x01a, 0x034, 0x068, 0x0d0) }

  function L995(v: bv10): bv10 { Lin(v, 0x18a, 0x314, 0x00d, 0x01a, 0x034, 0x068, 0x0d0, 0x1a0, 0x340, 0x0a5) }

  function L997(v: bv10): bv10 { Lin(v, 0x00d, 0x01a, 0x034, 0x068, 0x0d0, 0x1a0, 0x340, 0x0a5, 0x14a, 0x294) }

  function L998(v: bv10): bv10 { Lin(v, 0x01a, 0x034, 0x068, 0x0d0, 0x1a0, 0x340, 0x0a5, 0x14a, 0x294, 0x30d) }

  function L999(v: bv10): bv10 { Lin(v, 0x034, 0x068, 0x0d0, 0x1a0, 0x340, 0x0a5, 0x14a, 0x294, 0x30d, 0x03f) }

  // Each table composed of two earlier ones.

  lemma Compose2(v: Element)
    ensures L2(v) == Times(Times(v))
  {
  }

  lemma Compose3(v: Element)
    ensures L3(v) == L2(Times(v))
  {
  }

  lemma Compose6(v: Element)
    ensures L6(v) == L3(L3(v))
  {
  }

  lemma Compose12(v: Element)
    ensures L12(v) == L6(L6(v))
  {
  }

  lemma Compose24(v: Element)
    ensures L24(v) == L12(L12(v))
  {
  }

  lemma Compose30(v: Element)
    ensures L30(v) == L24(L6(v))
  {
  }

  lemma Compose31(v: Element)
    ensures L31(v) == L30(Times(v))
  {
  }

  lemma Compose33(v: Element)
    ensures L33(v) == L31(L2(v))
  {
  }

  lemma Compose62(v: Element)
    ensures L62(v) == L31(L31(v))
  {
  }

  lemma Compose93(v: Element)
    ensures L93(v) == L62(L31(v))
  {
  }

  lemma Compose124(v: Element)
    ensures L124(v) == L62(L62(v))
  {
  }

  lemma Compose248(v: Element)
    ensures L248(v) == L124(L124(v))
  {
  }

  lemma Compose341(v: Element)
    ensures L341(v) == L248(L93(v))
  {
  }

  lemma Compose682(v: Element)
    ensures L682(v) == L341(L341(v))
  {
  }

  lemma Compose930(v: Element)
    ensures L930(v) == L682(L248(v))
  {
  }

  lemma Compose992(v: Element)
    ensures L992(v) == L930(L62(v))
  {
  }

  lemma Compose995(v: Element)
    ensures L995(v) == L992(L3(v))
  {
  }

  lemma Compose997(v: Element)
    ensures L997(v) == L995(L2(v))
  {
  }

  lemma Compose998(v: Element)
    ensures L998(v) == L997(Times(v))
  {
  }

  lemma Compose999(v: Element)
    ensures L999(v) == L998(Times(v))
  {
  }

  lemma Compose1023(v: Element)
    ensures L682(L341(v)) == v
  {
  }

  lemma PowOne(n: nat, v: Element)
    requires n == 1
    ensures Pow(Times, n, v) == Times(v)
  {
    assert Pow(Times, n - 1, v) == v;
  }

  lemma Pow2(n: nat, v: Element)
    requires n == 2
    ensures Pow(Times, n, v) == L2(v)
  {
    PowAdd(Times, n - 1, n - 1, v);
    PowOne(n - 1, v);
    PowOne(n - 1, Times(v));
    Compose2(v);
  }

  lemma Pow3(n: nat, v: Element)
    requires n == 3
    ensures Pow(Times, n, v) == L3(v)
  {
    PowAdd(Times, n - 1, n - 2, v);
    PowOne(n - 2, v);
    Pow2(n - 1, Times(v));
    Compose3(v);
  }

  lemma Pow6(n: nat, v: Element)
    requires n == 6
    ensures Pow(Times, n, v) == L6(v)
  {
    PowAdd(Times, n - 3, n - 3, v);
    Pow3(n - 3, v);
    Pow3(n - 3, L3(v));
    Compose6(v);
  }

  lemma Pow12(n: nat, v: Element)
    requires n == 12
    ensures Pow(Times, n, v) == L12(v)
  {
    PowAdd(Times, n - 6, n - 6, v);
    Pow6(n - 6, v);
    Pow6(n - 6, L6(v));
    Compose12(v);
  }

  lemma Pow24(n: nat, v: Element)
    requires n == 24
    ensures Pow(Times, n, v) == L24(v)
  {
    PowAdd(Times, n - 12, n - 12, v);
    Pow12(n - 12, v);
    Pow12(n - 12, L12(v));
    Compose24(v);
  }

  lemma Pow30(n: nat, v: Element)
    requires n == 30
    ensures Pow(Times, n, v) == L30(v)
  {
    PowAdd(Times, n - 6, n - 24, v);
    Pow6(n - 24, v);
    Pow24(n - 6, L6(v));
    Compose30(v);
  }

  lemma Pow31(n: nat, v: Element)
    requires n == 31
    ensures Pow(Times, n, v) == L31(v)
  {
    PowAdd(Times, n - 1, n - 30, v);
    PowOne(n - 30, v);
    Pow30(n - 1, Times(v));
    Compose31(v);
  }

  lemma Pow33(n: nat, v: Element)
    requires n == 33
    ensures Pow(Times, n, v) == L33(v)
  {
    PowAdd(Times, n - 2, n - 31, v);
    Pow2(n - 31, v);
    Pow31(n - 2, L2(v));
    Compose33(v);
  }

  lemma Pow62(n: nat, v: Element)
    requires n == 62
    ensures Pow(Times, n, v) == L62(v)
  {
    PowAdd(Times, n - 31, n - 31, v);
    Pow31(n - 31, v);
    Pow31(n - 31, L31(v));
    Compose62(v);
  }

  lemma Pow93(n: nat, v: Element)
    requires n == 93
    ensures Pow(Times, n, v) == L93(v)
  {
    PowAdd(Times, n - 31, n - 62, v);
    Pow31(n - 62, v);
    Pow62(n - 31, L31(v));
    Compose93(v);
  }

  lemma Pow124(n: nat, v: Element)
    requires n == 124
    ensures Pow(Times, n, v) == L124(v)
  {
    PowAdd(Times, n - 62, n - 62, v);
    Pow62(n - 62, v);
    Pow62(n - 62, L62(v));
    Compose124(v);
  }

  lemma Pow248(n: nat, v: Element)
    requires n == 248
    ensures Pow(Times, n, v) == L248(v)
  {
    PowAdd(Times, n - 124, n - 124, v);
    Pow124(n - 124, v);
    Pow124(n - 124, L124(v));
    Compose248(v);
  }

  lemma Pow341(n: nat, v: Element)
    requires n == 341
    ensures Pow(Times, n, v) == L341(v)
  {
    PowAdd(Times, n - 93, n - 248, v);
    Pow93(n - 248, v);
    Pow248(n - 93, L93(v));
    Compose341(v);
  }

  lemma Pow682(n: nat, v: Element)
    requires n == 682
    ensures Pow(Times, n, v) == L682(v)
  {
    PowAdd(Times, n - 341, n - 341, v);
    Pow341(n - 341, v);
    Pow341(n - 341, L341(v));
    Compose682(v);
  }

  lemma Pow930(n: nat, v: Element)
    requires n == 930
    ensures Pow(Times, n, v) == L930(v)
  {
    PowAdd(Times, n - 248, n - 682, v);
    Pow248(n - 682, v);
    Pow682(n - 248, L248(v));
    Compose930(v);
  }

  lemma Pow992(n: nat, v: Element)
    requires n == 992
    ensures Pow(Times, n, v) == L992(v)
  {
    PowAdd(Times, n - 62, n - 930, v);
    Pow62(n - 930, v);
    Pow930(n - 62, L62(v));
    Compose992(v);
  }

  lemma Pow995(n: nat, v: Element)
    requires n == 995
    ensures Pow(Times, n, v) == L995(v)
  {
    PowAdd(Times, n - 3, n - 992, v);
    Pow3(n - 992, v);
    Pow992(n - 3, L3(v));
    Compose995(v);
  }

  lemma Pow997(n: nat, v: Element)
    requires n == 997
    ensures Pow(Times, n, v) == L997(v)
  {
    PowAdd(Times, n - 2, n - 995, v);
    Pow2(n - 995, v);
    Pow995(n - 2, L2(v));
    Compose997(v);
  }

  lemma Pow998(n: nat, v: Element)
    requires n == 998
    ensures Pow(Times, n, v) == L998(v)
  {
    PowAdd(Times, n - 1, n - 997, v);
    PowOne(n - 997, v);
    Pow997(n - 1, Times(v));
    Compose998(v);
  }

  lemma Pow999(n: nat, v: Element)
    requires n == 999
    ensures Pow(Times, n, v) == L999(v)
  {
    PowAdd(Times, n - 1, n - 998, v);
    PowOne(n - 998, v);
    Pow998(n - 1, Times(v));
    Compose999(v);
  }

  // ---------- the order of e ----------

  lemma FullCycle(n: nat)
    requires n == 1023
    ensures Cyclic(Times, n)
  {
    forall v ensures Pow(Times, n, v) == v {
      PowAdd(Times, n - 341, n - 682, v);
      Pow341(n - 682, v);
      Pow682(n - 341, L341(v));
      Compose1023(v);
    }
  }

  lemma NoneFixed33(v: Element)
    requires L33(v) == v
    ensures v == 0
  {
  }

  lemma NoneFixed93(v: Element)
    requires L93(v) == v
    ensures v == 0
  {
  }

  lemma NoneFixed341(v: Element)
    requires L341(v) == v
    ensures v == 0
  {
  }

  /** The inverse of a non-zero residue modulo 11, and modulo 31. */
  function Inverse11(r: nat): nat {
    if r == 2 then 6 else if r == 3 then 4 else if r == 4 then 3 else if r == 5 then 9 else
    if r == 6 then 2 else if r == 7 then 8 else if r == 8 then 7 else if r == 9 then 5 else
    if r == 10 then 10 else 1
  }

  function Inverse31(r: nat): nat {
    if r == 2 then 16 else if r == 3 then 21 else if r == 4 then 8 else if r == 5 then 25 else
    if r == 6 then 26 else if r == 7 then 9 else if r == 8 then 4 else if r == 9 then 7 else
    if r == 10 then 28 else if r == 11 then 17 else if r == 12 then 13 else if r == 13 then 12 else
    if r == 14 then 20 else if r == 15 then 29 else if r == 16 then 2 else if r == 17 then 11 else
    if r == 18 then 19 else if r == 19 then 18 else if r == 20 then 14 else if r == 21 then 3 else
    if r == 22 then 24 else if r == 23 then 27 else if r == 24 then 22 else if r == 25 then 5 else
    if r == 26 then 6 else if r == 27 then 23 else if r == 28 then 10 else if r == 29 then 15 else
    if r == 30 then 30 else 1
  }

  /** If `d` times `u` is one more than a multiple of `p`, a period `d` makes `m` one, for p * m == n. */
  lemma PeriodBelow(n: nat, p: nat, m: nat, d: nat, u: nat, k: nat, v: Element)
    requires Cyclic(Times, n) && Pow(Times, d, v) == v && n == p * m && d * u == p * k + 1
    ensures Pow(Times, m, v) == v
  {
    assert (m * u) * d == m * (d * u) == m * (p * k) + m;
    assert m * (p * k) == k * (p * m);
    PeriodOfRest(Times, n, d, m * u, k, m, v);
  }

  lemma InverseWorks(p: nat, a: nat, r: nat, u: nat, b: nat)
    requires r * u == p * b + 1
    ensures (p * a + r) * u == p * (a * u + b) + 1
  {
    assert (p * a + r) * u == (p * a) * u + r * u;
    assert (p * a) * u == p * (a * u);
    assert p * (a * u + b) == p * (a * u) + p * b;
  }

  lemma Table11(r: nat)
    requires 0 < r < 11
    ensures r * Inverse11(r) % 11 == 1
  {
  }

  lemma Table31(r: nat)
    requires 0 < r < 31
    ensures r * Inverse31(r) % 31 == 1
  {
  }

  lemma ReturnsNotBy3(n: nat, d: nat, v: Element)
    requires n == 1023 && Cyclic(Times, n) && Pow(Times, d, v) == v && d % 3 != 0
    ensures v == 0
  {
    var a, r := d / 3, d % 3;
    InverseWorks(3, a, r, r, r - 1);
    PeriodBelow(n, 3, n - 682, d, r, a * r + (r - 1), v);
    Pow341(n - 682, v);
    NoneFixed341(v);
  }

  lemma ReturnsNotBy11(n: nat, d: nat, v: Element)
    requires n == 1023 && Cyclic(Times, n) && Pow(Times, d, v) == v && d % 11 != 0
    ensures v == 0
  {
    var a, r := d / 11, d % 11;
    var u := Inverse11(r);
    Table11(r);
    InverseWorks(11, a, r, u, r * u / 11);
    PeriodBelow(n, 11, n - 930, d, u, a * u + r * u / 11, v);
    Pow93(n - 930, v);
    NoneFixed93(v);
  }

  lemma ReturnsNotBy31(n: nat, d: nat, v: Element)
    requires n == 1023 && Cyclic(Times, n) && Pow(Times, d, v) == v && d % 31 != 0
    ensures v == 0
  {
    var a, r := d / 31, d % 31;
    var u := Inverse31(r);
    Table31(r);
    InverseWorks(31, a, r, u, r * u / 31);
    PeriodBelow(n, 31, n - 990, d, u, a * u + r * u / 31, v);
    Pow33(n - 990, v);
    NoneFixed33(v);
  }

  /** A number below 1023 is prime to 3, to 11 or to 31. */
  lemma SomeCofactor(d: nat)
    requires 0 < d < 1023
    ensures d % 3 != 0 || d % 11 != 0 || d % 31 != 0
  {
  }

  /** No power of e below 1023 is one: nothing but zero returns earlier. */
  lemma OnlyZeroReturns(n: nat, d: nat, v: Element)
    requires n == 1023 && 0 < d < n && Pow(Times, d, v) == v
    ensures v == 0
  {
    FullCycle(n);
    SomeCofactor(d);
    if d % 3 != 0 {
      ReturnsNotBy3(n, d, v);
    } else if d % 11 != 0 {
      ReturnsNotBy11(n, d, v);
    } else {
      ReturnsNotBy31(n, d, v);
    }
  }

  lemma OrderIsFull(n: nat)
    requires n == 1023
    ensures Cyclic(Times, n) && Free(Times, 0, n)
  {
    FullCycle(n);
    forall d: nat, v | 0 < d < n && Pow(Times, d, v) == v ensures v == 0 {
      OnlyZeroReturns(n, d, v);
    }
  }
}
