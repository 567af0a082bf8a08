/**
 The compact target format of arith_uint256 (SetCompact, GetCompact in src/arith_uint256.cpp) and the
 work a target stands for (GetBlockProof in src/chain.cpp).
 */
module CompactTarget {
  import opened Basics
  import opened Bits
  import opened Limbs
  import opened Shifts
  import opened Division

  const WIDTH: nat := 8

  lemma Pow2At64(n: nat)
    requires n == 64
    ensures Pow2(n) == TWO_TO_64
  {
    Pow2At32();
    Pow2Add(n / 2, n / 2);
  }

  lemma Pow2At256(n: nat)
    requires n == 256
    ensures Pow2(n) == TWO_TO_256
  {
    Pow2At64(n / 4);
    Pow2Add(n / 4, n / 4);
    assert Pow2(n / 2) == TWO_TO_64 * TWO_TO_64;
    Pow2Add(n / 2, n / 2);
  }

  lemma ModulusIs(width: nat)
    requires width == WIDTH
    ensures Modulus(width) == TWO_TO_256
  {
    Pow2At256(32 * width);
  }

  lemma Pow2Above256(n: nat, k: nat)
    requires k == 256 <= n
    ensures Pow2(n) >= TWO_TO_256
  {
    Pow2At256(k);
    Pow2Monotone(k, n);
  }

  lemma Pow2Below256(n: nat, k: nat)
    requires n < k == 256
    ensures 2 * Pow2(n) <= TWO_TO_256
  {
    Pow2At256(k);
    Pow2Monotone(n + 1, k);
  }

  // ---------- the format ----------

  /** The byte exponent: `nCompact >> 24`. */
  function Size(c: uint32): nat { c / 0x100_0000 }

  /** The 23-bit mantissa: `nCompact & 0x007fffff`. */
  function Word(c: uint32): nat { c % 0x80_0000 }

  /** The sign bit: `(nCompact & 0x00800000) != 0`. */
  predicate Sign(c: uint32) { c / 0x80_0000 % 2 == 1 }

  /** The mantissa after SetCompact has moved the bytes of a small exponent out. */
  function Mantissa(c: uint32): nat {
    if Size(c) <= 3 then ShiftDown(Word(c), 8 * (3 - Size(c))) else Word(c)
  }

  function ShiftDown(x: nat, n: nat): nat {
    QuotientFits(x, Pow2(n));
    x / Pow2(n)
  }

  /** mantissa * 256^(exponent - 3), as a whole number. */
  function CompactValue(c: uint32): int {
    if Size(c) <= 3 then Mantissa(c) else Lsh(Word(c), 8 * (Size(c) - 3))
  }

  /** Masking the low k bits keeps the remainder. */
  lemma {:induction false} AndMask(q: nat, r: nat, k: nat)
    requires r < Pow2(k)
    ensures Lsh(q, k) >= 0 && And(Lsh(q, k) + r, Pow2(k) - 1) == r
  {
    LshNonNegative(q, k);
    if k > 0 {
      AndMask(q, r / 2, k - 1);
      var x, y := Lsh(q, k) + r, Lsh(q, k - 1);
      assert x == 2 * y + r;
      assert x / 2 == y + r / 2 && x % 2 == r % 2;
      AndOdd(x, Pow2(k - 1) - 1);
    }
  }

  lemma AndOdd(x: nat, m: nat)
    ensures And(x, 2 * m + 1) == 2 * And(x / 2, m) + x % 2
  {
    assert (2 * m + 1) / 2 == m && (2 * m + 1) % 2 == 1;
  }

  /** Testing bit k looks at the parity of what lies above the low k bits. */
  lemma {:induction false} AndBit(q: nat, r: nat, k: nat)
    requires r < Pow2(k)
    ensures Lsh(q, k) >= 0 && (And(Lsh(q, k) + r, Pow2(k)) != 0 <==> q % 2 == 1)
  {
    LshNonNegative(q, k);
    if k == 0 {
      AndOdd(q, 0);
    } else {
      AndBit(q, r / 2, k - 1);
    }
  }

  lemma MaskFacts(c: uint32)
    ensures And(c, 0x7f_ffff) == Word(c)
    ensures And(c, 0x80_0000) != 0 <==> Sign(c)
  {
    Pow2At23();
    LshIsProduct(c / 0x80_0000, 23);
    AndMask(c / 0x80_0000, c % 0x80_0000, 23);
    AndBit(c / 0x80_0000, c % 0x80_0000, 23);
  }

  lemma Pow2At23()
    ensures Pow2(7) == 128 && Pow2(8) == 256 && Pow2(16) == 0x1_0000 && Pow2(23) == 0x80_0000 && Pow2(24) == 0x100_0000
  {
    assert Pow2(8) == 256;
    Pow2Add(8, 8);
    Pow2Add(16, 7);
    Pow2Add(16, 8);
  }

  // ---------- SetCompact ----------

  method SetUint(pn: array<uint32>, b: uint32)
    requires pn.Length >= 2
    modifies pn
    ensures Value(pn[..]) == b
  {
    Clear(pn);
    ghost var s := pn[..];
    PrefixUpdate(s, |s|, 0, b);
    pn[0] := b;
    assert pn[..] == s[0 := b];
  }

  /** The guard SetCompact reports overflow by. */
  predicate OverflowGuard(word: nat, size: nat) {
    word != 0 && (size > 34 || (word > 0xff && size > 33) || (word > 0xffff && size > 32))
  }

  /** Sets the value modulo 2^256 and reports exactly when it did not fit. */
  method SetCompact(pn: array<uint32>, c: uint32) returns (negative: bool, overflow: bool)
    requires pn.Length == WIDTH
    modifies pn
    ensures Value(pn[..]) == CompactValue(c) % TWO_TO_256
    ensures negative == (Mantissa(c) != 0 && Sign(c))
    ensures overflow == (CompactValue(c) >= TWO_TO_256)
  {
    MaskFacts(c);
    OverflowIsExact(c);
    var size := Size(c);
    var word := And(c, 0x7f_ffff);
    if size <= 3 {
      word := ShiftDown(word, 8 * (3 - size));
      SmallFits(c);
      SetUint(pn, word);
    } else {
      SetUint(pn, word);
      ShiftLeftAssign(pn, 8 * (size - 3));
      ModulusIs(pn.Length);
    }
    negative := word != 0 && And(c, 0x80_0000) != 0;
    overflow := OverflowGuard(word, size);
  }

  lemma SmallFits(c: uint32)
    requires Size(c) <= 3
    ensures 0 <= CompactValue(c) < 0x80_0000 < TWO_TO_256 && CompactValue(c) % TWO_TO_256 == CompactValue(c)
  {
    QuotientFits(Word(c), Pow2(8 * (3 - Size(c))));
    ModIsUnique(CompactValue(c), 0, TWO_TO_256, CompactValue(c));
  }

  /** Overflow is reported exactly when mantissa * 256^(exponent - 3) is at least 2^256. */
  lemma OverflowIsExact(c: uint32)
    ensures OverflowGuard(Mantissa(c), Size(c)) <==> CompactValue(c) >= TWO_TO_256
  {
    if Size(c) <= 3 { SmallFits(c); } else { LargeOverflow(Word(c), Size(c)); }
  }

  lemma LargeOverflow(w: nat, e: nat)
    requires e > 3 && w < 0x80_0000
    ensures OverflowGuard(w, e) <==> Lsh(w, 8 * (e - 3)) >= TWO_TO_256
  {
    var n := 8 * (e - 3);
    if e >= 35 {
      HugeOverflow(w, n);
    } else if e == 34 {
      ReachesPow2(w, n, 8);
      Pow2At23();
      Pow2At256(n + 8);
    } else if e == 33 {
      ReachesPow2(w, n, 16);
      Pow2At23();
      Pow2At256(n + 16);
    } else {
      ReachesPow2(w, n, 23);
      Pow2At23();
      Pow2Below256(n + 23, 256);
    }
  }

  lemma HugeOverflow(w: nat, n: nat)
    requires n >= 256
    ensures w != 0 <==> Lsh(w, n) >= TWO_TO_256
  {
    Pow2Above256(n, 256);
    LshZero(n);
    if w > 0 { ReachesPow2(w, n, 0); }
  }

  lemma ReachesPow2(w: nat, n: nat, k: nat)
    ensures Lsh(w, n) >= Pow2(n + k) <==> w >= Pow2(k)
  {
    LshOne(k);
    LshOne(n + k);
    LshLsh(1, k, n);
    if w < Pow2(k) { LshLess(w, Pow2(k), n); LshNonNegative(1, n); }
    if w > Pow2(k) { LshLess(Pow2(k), w, n); LshNonNegative(1, n); }
  }

  // ---------- GetCompact ----------

  /** The normalised exponent: the least number of bytes that leaves the sign bit clear. */
  function SizeFor(bits: nat): nat { if bits == 0 then 0 else bits / 8 + 1 }

  function MantissaFor(n: nat, size: nat): int {
    if size <= 3 then Lsh(n, 8 * (3 - size)) else ShiftDown(n, 8 * (size - 3))
  }

  /** What GetCompact's mantissa and exponent are worth. */
  function Decoded(n: nat, size: nat): int {
    if size <= 3 then n else Lsh(ShiftDown(n, 8 * (size - 3)), 8 * (size - 3))
  }

  lemma Normalised(n: nat, bits: nat)
    requires IsBitLength(n, bits)
    ensures 0 <= MantissaFor(n, SizeFor(bits)) < 0x80_0000
    ensures n > 0 ==> MantissaFor(n, SizeFor(bits)) >= 0x8000
  {
    if bits > 0 {
      var size := bits / 8 + 1;
      Pow2At15();
      if size <= 3 {
        var k := 8 * (3 - size);
        ScaledLength(n, bits, k);
        Pow2Monotone(15, bits + k - 1);
        Pow2Monotone(bits + k, 23);
      } else {
        var k := 8 * (size - 3);
        DroppedLength(n, bits, k);
        Pow2Monotone(15, bits - k - 1);
        Pow2Monotone(bits - k, 23);
      }
    } else {
      LshZero(24);
    }
  }

  lemma Pow2At15()
    ensures Pow2(15) == 0x8000 && Pow2(23) == 0x80_0000
  {
    Pow2At23();
    Pow2Add(8, 7);
  }

  lemma ScaledLength(n: nat, bits: nat, k: nat)
    requires bits > 0 && IsBitLength(n, bits)
    ensures Pow2(bits + k - 1) <= Lsh(n, k) < Pow2(bits + k)
  {
    ReachesPow2(n, k, bits - 1);
    ReachesPow2(n, k, bits);
  }

  lemma DroppedLength(n: nat, bits: nat, k: nat)
    requires k < bits && IsBitLength(n, bits)
    ensures Pow2(bits - k - 1) <= ShiftDown(n, k) < Pow2(bits - k)
  {
    DivPow2(n, k);
    var q := ShiftDown(n, k);
    ReachesPow2(q, k, bits - k);
    ReachesPow2(q + 1, k, bits - k - 1);
    LshSum(q, 1, k);
    LshOne(k);
    if q + 1 == Pow2(bits - k - 1) {
      LshIsProduct(q + 1, k);
      Pow2Add(bits - k - 1, k);
    }
  }

  function BitLengthOf(n: nat): nat { if n == 0 then 0 else 1 + BitLengthOf(n / 2) }

  lemma {:induction false} BitLengthOfIs(n: nat)
    ensures IsBitLength(n, BitLengthOf(n))
  {
    if n > 0 { BitLengthOfIs(n / 2); }
  }

  lemma BitLengthMonotone(n: nat, m: nat, r: nat, t: nat)
    requires n <= m && IsBitLength(n, r) && IsBitLength(m, t)
    ensures r <= t
  {
    if r > t { Pow2Monotone(t, r - 1); }
  }

  /** Whether `c` is what GetCompact makes of `n`, sign aside. */
  predicate CompactOf(n: nat, c: uint32) {
    var size := SizeFor(BitLengthOf(n));
    Size(c) == size && Word(c) == MantissaFor(n, size)
  }

  /** It decodes to n rounded down to a multiple of 256^(size - 3). */
  lemma CompactOfDecodes(n: nat, c: uint32)
    requires CompactOf(n, c)
    ensures CompactValue(c) == Decoded(n, Size(c)) <= n
  {
    var size := Size(c);
    if size <= 3 {
      var k := 8 * (3 - size);
      LshModIsUnique(0, n, k, Lsh(n, k));
    } else {
      DivPow2(n, 8 * (size - 3));
    }
  }

  /** SetCompact(GetCompact(n)) is the largest compact-representable value not above n. */
  lemma CompactIsLargestBelow(n: nat, c: uint32, other: uint32)
    requires CompactOf(n, c) && CompactValue(other) <= n
    ensures CompactValue(other) <= CompactValue(c) <= n
  {
    CompactOfDecodes(n, c);
    var size := Size(c);
    if size > 3 {
      if Size(other) >= size {
        LargerExponent(n, Word(other), Size(other), size);
      } else {
        SmallerExponent(other, size);
        AtLeastItsTopBit(n, size);
      }
    }
  }

  lemma LargerExponent(n: nat, w: nat, e: nat, size: nat)
    requires e >= size > 3 && Lsh(w, 8 * (e - 3)) <= n
    ensures Lsh(w, 8 * (e - 3)) <= Decoded(n, size)
  {
    var x, k := Lsh(w, 8 * (e - size)), 8 * (size - 3);
    LshLsh(w, 8 * (e - size), k);
    LargestMultiple(n, x, k);
  }

  lemma AtLeastItsTopBit(n: nat, size: nat)
    requires size > 3 && size == SizeFor(BitLengthOf(n))
    ensures Pow2(15 + 8 * (size - 3)) <= Decoded(n, size)
  {
    var bits, k := BitLengthOf(n), 8 * (size - 3);
    BitLengthOfIs(n);
    LshLsh(1, 15, k);
    LshOne(15 + k);
    Pow2Monotone(15 + k, bits - 1);
    LargestMultiple(n, Lsh(1, 15), k);
  }

  lemma LargestMultiple(n: nat, x: int, k: nat)
    requires Lsh(x, k) <= n
    ensures Lsh(x, k) <= Lsh(ShiftDown(n, k), k)
  {
    DivPow2(n, k);
    var q := ShiftDown(n, k);
    LshOne(k);
    if q < x { LshLess(q, x, k); }
    if x < q { LshLess(x, q, k); LshNonNegative(1, k); }
  }

  lemma SmallerExponent(other: uint32, size: nat)
    requires size > 3 && Size(other) < size
    ensures CompactValue(other) <= Pow2(15 + 8 * (size - 3))
  {
    Pow2At15();
    if Size(other) <= 3 {
      SmallFits(other);
      Pow2Monotone(23, 15 + 8 * (size - 3));
    } else {
      BelowPow2(Word(other), 8 * (Size(other) - 3), 15 + 8 * (size - 3));
    }
  }

  lemma BelowPow2(w: nat, e: nat, m: nat)
    requires w < 0x80_0000 && e + 23 <= m
    ensures Lsh(w, e) <= Pow2(m)
  {
    Pow2At23();
    ReachesPow2(w, e, 23);
    Pow2Monotone(e + 23, m);
  }

  /** GetCompact is monotone, read as an unsigned number. */
  lemma CompactMonotone(n: nat, m: nat, c: uint32, d: uint32)
    requires n <= m && CompactOf(n, c) && CompactOf(m, d)
    ensures Size(c) * 0x100_0000 + Word(c) <= Size(d) * 0x100_0000 + Word(d)
  {
    BitLengthOfIs(n);
    BitLengthOfIs(m);
    BitLengthMonotone(n, m, BitLengthOf(n), BitLengthOf(m));
    if Size(c) == Size(d) && n < m {
      if Size(c) <= 3 {
        LshMonotone(n, m, 8 * (3 - Size(c)));
      } else {
        ShiftDownMonotone(n, m, 8 * (Size(c) - 3));
      }
    }
  }

  lemma LshMonotone(n: nat, m: nat, k: nat)
    requires n <= m
    ensures Lsh(n, k) <= Lsh(m, k)
  {
    if n < m {
      LshLess(n, m, k);
      LshNonNegative(1, k);
    }
  }

  lemma ShiftDownMonotone(n: nat, m: nat, k: nat)
    requires n <= m
    ensures ShiftDown(n, k) <= ShiftDown(m, k)
  {
    DivPow2(n, k);
    LargestMultiple(m, ShiftDown(n, k), k);
    if ShiftDown(m, k) < ShiftDown(n, k) {
      LshLess(ShiftDown(m, k), ShiftDown(n, k), k);
      LshNonNegative(1, k);
    }
  }

  // ---------- GetCompact on limbs ----------

  /** `pn[0] | (uint64_t)pn[1] << 32` */
  function GetLow64(s: seq<uint32>): nat
    requires |s| >= 2
  {
    LshNonNegative(s[1], 32);
    Or(s[0], Lsh(s[1], 32))
  }

  lemma Low64IsValue(s: seq<uint32>)
    requires |s| >= 2 && Value(s) < TWO_TO_64
    ensures GetLow64(s) == Value(s)
  {
    LowTwoLimbs(s);
    var h := UpperLimbs(s, |s|);
    PrefixBound(s, 2);
    NoUpperPart(Prefix(s, 2), h, 64);
  }

  lemma NoUpperPart(low: nat, h: nat, k: nat)
    requires k == 64 && low + Lsh(h, k) < TWO_TO_64
    ensures Lsh(h, k) == 0
  {
    LshOne(k);
    LshZero(k);
    Pow2At64(k);
    if h > 0 { LshLess(0, h, k); }
  }

  lemma LowTwoLimbs(s: seq<uint32>)
    requires |s| >= 2
    ensures GetLow64(s) == Prefix(s, 2)
  {
    LshNonNegative(s[1], 32);
    OrSymmetric(s[0], Lsh(s[1], 32));
    Pow2At32();
    OrIsSum(s[1], s[0], 32);
    assert Prefix(s, 1) == s[0];
  }

  lemma {:induction false} UpperLimbs(s: seq<uint32>, n: nat) returns (h: nat)
    requires 2 <= n <= |s|
    ensures Prefix(s, n) == Prefix(s, 2) + Lsh(h, 64)
  {
    if n == 2 {
      LshZero(64);
      h := 0;
    } else {
      var h' := UpperLimbs(s, n - 1);
      var x := Lsh(s[n - 1], 32 * (n - 3));
      LshNonNegative(s[n - 1], 32 * (n - 3));
      LshLsh(s[n - 1], 32 * (n - 3), 64);
      LshSum(h', x, 64);
      h := h' + x;
    }
  }

  lemma BitLengthIsUnique(n: nat, r: nat)
    requires IsBitLength(n, r)
    ensures r == BitLengthOf(n)
  {
    BitLengthOfIs(n);
    BitLengthMonotone(n, n, r, BitLengthOf(n));
    BitLengthMonotone(n, n, BitLengthOf(n), r);
  }

  /** Mantissa and exponent before the sign bit is kept clear. */
  function FirstSize(bits: nat): nat { (bits + 7) / 8 }

  lemma KeepSignClear(n: nat, bits: nat)
    requires IsBitLength(n, bits)
    ensures var size := FirstSize(bits);
            var m := MantissaFor(n, size);
      && 0 <= m < 0x100_0000
      && (m >= 0x80_0000 ==> SizeFor(bits) == size + 1 && MantissaFor(n, size + 1) == m / 256)
      && (m < 0x80_0000 ==> SizeFor(bits) == size)
  {
    var size := FirstSize(bits);
    Pow2At15();
    Pow2At23();
    if bits > 0 {
      if size <= 3 {
        var k := 8 * (3 - size);
        ScaledLength(n, bits, k);
        ScaledWithin(bits + k);
        if size < 3 {
          assert Lsh(n, k) == 256 * Lsh(n, k - 8) by {
            LshLsh(n, k - 8, 8);
            LshIsProduct(Lsh(n, k - 8), 8);
          }
        }
      } else {
        var k := 8 * (size - 3);
        DroppedLength(n, bits, k);
        ScaledWithin(bits - k);
      }
      if size >= 3 { DropByteMore(n, 8 * (size - 3)); }
    } else {
      LshZero(24);
    }
  }

  lemma ScaledWithin(t: nat)
    requires 16 < t <= 24
    ensures Pow2(t) <= 0x100_0000 && (t == 24 ==> Pow2(t - 1) == 0x80_0000) && (t < 24 ==> Pow2(t) <= 0x80_0000)
  {
    Pow2At23();
    Pow2Monotone(t, 24);
    if t < 24 { Pow2Monotone(t, 23); }
  }

  lemma DropByteMore(n: nat, k: nat)
    ensures ShiftDown(n, k + 8) == ShiftDown(n, k) / 256
  {
    DivPow2(n, k);
    var q, r := ShiftDown(n, k), n % Pow2(k);
    var q', r' := q / 256, q % 256;
    Pow2At23();
    LshIsProduct(q', 8);
    LshSum(Lsh(q', 8), r', k);
    LshLsh(q', 8, k);
    LshNonNegative(r', k);
    LshLess(r', 256, k);
    LshOne(k);
    LshOne(k + 8);
    LshLsh(1, 8, k);
    assert Lsh(1, 8) == 256 by { LshOne(8); }
    LshModIsUnique(Lsh(r', k) + r, q', k + 8, n);
  }

  /** The mantissa GetCompact starts from. */
  method LeadingBytes(pn: array<uint32>, size: nat) returns (m: nat)
    requires pn.Length == WIDTH && 0 <= MantissaFor(Value(pn[..]), size) < 0x100_0000
    ensures m == MantissaFor(Value(pn[..]), size)
  {
    if size <= 3 {
      SmallNumber(Value(pn[..]), 8 * (3 - size));
      Low64OfSmall(pn[..]);
      m := Lsh(GetLow64(pn[..]), 8 * (3 - size));
    } else {
      var bn := Copy(pn);
      ShiftRightAssign(bn, 8 * (size - 3));
      Low64OfSmall(bn[..]);
      m := GetLow64(bn[..]);
    }
  }

  lemma Low64OfSmall(s: seq<uint32>)
    requires |s| >= 2 && Value(s) < 0x100_0000
    ensures GetLow64(s) == Value(s)
  {
    Low64IsValue(s);
  }

  lemma SmallNumber(n: nat, k: nat)
    requires Lsh(n, k) < 0x100_0000
    ensures n < 0x100_0000
  {
    LshNonNegative(n, k);
  }

  /** Both asserts hold, and the result is the normalised mantissa and exponent, with the sign on request. */
  method GetCompact(pn: array<uint32>, fNegative: bool) returns (c: uint32)
    requires pn.Length == WIDTH
    ensures CompactOf(Value(pn[..]), c)
    ensures Sign(c) == (fNegative && Word(c) != 0)
  {
    ghost var n := Value(pn[..]);
    var bits := BitLength(pn);
    var size := FirstSize(bits);
    GetCompactFacts(pn[..], bits);
    var nCompact := LeadingBytes(pn, size);
    SignBitOf(nCompact);
    if And(nCompact, 0x80_0000) != 0 {
      nCompact := nCompact / 256;
      size := size + 1;
    }
    assert size == SizeFor(bits) && nCompact == MantissaFor(n, size);
    assert nCompact < 0x80_0000 && size < 256;
    c := Pack(size, nCompact, fNegative && nCompact != 0);
  }

  lemma GetCompactFacts(s: seq<uint32>, bits: nat)
    requires |s| == WIDTH && IsBitLength(Value(s), bits)
    ensures bits == BitLengthOf(Value(s)) && bits <= 256
    ensures var n, size := Value(s), FirstSize(bits);
            var m := MantissaFor(n, size);
      && 0 <= m < 0x100_0000
      && (m >= 0x80_0000 ==> SizeFor(bits) == size + 1 && MantissaFor(n, size + 1) == m / 256)
      && (m < 0x80_0000 ==> SizeFor(bits) == size)
      && MantissaFor(n, SizeFor(bits)) < 0x80_0000
  {
    PrefixBound(s, |s|);
    ModulusIs(|s|);
    BitLengthIsUnique(Value(s), bits);
    AtMost256(Value(s), bits);
    KeepSignClear(Value(s), bits);
    Normalised(Value(s), bits);
  }

  lemma AtMost256(n: nat, bits: nat)
    requires IsBitLength(n, bits) && n < TWO_TO_256
    ensures bits <= 256
  {
    if bits > 256 { Pow2Above256(bits - 1, 256); }
  }

  lemma SignBitOf(m: nat)
    requires m < 0x100_0000
    ensures And(m, 0x80_0000) != 0 <==> m >= 0x80_0000
  {
    Pow2At23();
    TopBit(m, 23);
  }

  /** `nCompact |= nSize << 24`, then the sign bit. */
  function Pack(size: nat, m: nat, negative: bool): (c: uint32)
    requires size < 256 && m < 0x80_0000
    ensures Size(c) == size && Word(c) == m && Sign(c) == negative
  {
    PackArith(size, m);
    Unpack(size, m, if negative then 1 else 0);
    var c := Or(m, size * 0x100_0000);
    if negative then Or(c, 0x80_0000) else c
  }

  lemma Unpack(size: nat, m: nat, sign: nat)
    requires size < 256 && m < 0x80_0000 && sign <= 1
    ensures var c := size * 0x100_0000 + sign * 0x80_0000 + m;
      c < BASE && Size(c) == size && Word(c) == m && (Sign(c) <==> sign == 1)
  {
    var c := size * 0x100_0000 + sign * 0x80_0000 + m;
    ModIsUnique(sign * 0x80_0000 + m, size, 0x100_0000, c);
    ModIsUnique(m, 2 * size + sign, 0x80_0000, c);
  }

  lemma PackArith(size: nat, m: nat)
    requires size < 256 && m < 0x80_0000
    ensures Or(m, size * 0x100_0000) == size * 0x100_0000 + m
    ensures Or(Or(m, size * 0x100_0000), 0x80_0000) == size * 0x100_0000 + m + 0x80_0000
  {
    Pow2At23();
    LshIsProduct(size, 24);
    OrSymmetric(m, size * 0x100_0000);
    OrIsSum(size, m, 24);
    OrMiddle(size, m);
  }

  lemma OrMiddle(size: nat, m: nat)
    requires m < 0x80_0000
    ensures Or(size * 0x100_0000 + m, 0x80_0000) == size * 0x100_0000 + m + 0x80_0000
  {
    Pow2At23();
    LshIsProduct(2 * size, 23);
    LshIsProduct(1, 23);
    OrShifted(2 * size, 1, m, 23);
    assert Or(2 * size, 1) == 2 * size + 1;
    LshIsProduct(2 * size + 1, 23);
  }

  lemma {:induction false} OrShifted(a: nat, b: nat, r: nat, k: nat)
    requires r < Pow2(k)
    ensures Lsh(a, k) >= 0 && Lsh(b, k) >= 0 && Or(Lsh(a, k) + r, Lsh(b, k)) == Lsh(Or(a, b), k) + r
  {
    LshNonNegative(a, k);
    LshNonNegative(b, k);
    if k > 0 {
      OrShifted(a, b, r / 2, k - 1);
      LshNonNegative(a, k - 1);
      LshNonNegative(b, k - 1);
      OrEven(Lsh(a, k) + r, Lsh(b, k - 1));
    }
  }

  lemma OrEven(x: nat, y: nat)
    ensures Or(x, 2 * y) == 2 * Or(x / 2, y) + x % 2
  {
  }

  // ---------- the work a target stands for ----------

  /** Comparison with a 64-bit number. */
  method EqualTo(pn: array<uint32>, b: nat) returns (equal: bool)
    requires pn.Length >= 2 && b < TWO_TO_64
    ensures equal == (Value(pn[..]) == b)
  {
    var i := pn.Length - 1;
    while i >= 2
      invariant 1 <= i < pn.Length
      invariant forall j | i < j < pn.Length :: pn[j] == 0
    {
      if pn[i] != 0 {
        UpperLimbCounts(pn[..], i);
        return false;
      }
      i := i - 1;
    }
    TopIsPrefix(pn[..], 2);
    LowTwoLimbs(pn[..]);
    assert GetLow64(pn[..]) == GetLow64([pn[0], pn[1]]);
    Halves(pn[0], pn[1], b);
    if pn[1] != b / BASE { return false; }
    if pn[0] != b % BASE { return false; }
    equal := true;
  }

  lemma UpperLimbCounts(s: seq<uint32>, i: nat)
    requires 2 <= i < |s| && s[i] != 0 && forall j | i < j < |s| :: s[j] == 0
    ensures Value(s) >= TWO_TO_64
  {
    TopIsPrefix(s, i + 1);
    PrefixBound(s, i);
    assert Lsh(s[i], 32 * i) >= Pow2(32 * i) by {
      LshZero(32 * i);
      LshLess(0, s[i], 32 * i);
      LshOne(32 * i);
    }
    Pow2At64(64);
    Pow2Monotone(64, 32 * i);
  }

  lemma Halves(lo: uint32, hi: uint32, b: nat)
    ensures GetLow64([lo, hi]) == b <==> hi == b / BASE && lo == b % BASE
  {
    LowTwoLimbs([lo, hi]);
    assert Prefix([lo, hi], 1) == lo;
    Lsh32(hi);
  }

  /** floor(2^256 / (target + 1)) for an accepted target; nothing for a rejected one. */
  function BlockProof(c: uint32): int {
    if (Mantissa(c) != 0 && Sign(c)) || CompactValue(c) >= TWO_TO_256 || CompactValue(c) <= 0 then 0
    else TWO_TO_256 / (CompactValue(c) + 1)
  }

  /** target + 1 never wraps to zero: a target has either few bits or an even value. */
  lemma DivisorDoesNotWrap(c: uint32)
    requires CompactValue(c) < TWO_TO_256
    ensures 0 <= CompactValue(c) && CompactValue(c) + 1 < TWO_TO_256
  {
    if Size(c) <= 3 {
      SmallFits(c);
    } else {
      LshNonNegative(Word(c), 8 * (Size(c) - 3));
      assert CompactValue(c) == 2 * Lsh(Word(c), 8 * (Size(c) - 3) - 1);
    }
  }

  lemma ProofArith(t: int, m: nat)
    requires 1 <= t && t + 1 < m
    ensures 0 <= (m - 1 - t) / (t + 1) && (m - 1 - t) / (t + 1) + 1 == m / (t + 1) < m
  {
    var d := t + 1;
    var q, r := (m - d) / d, (m - d) % d;
    assert m - d == q * d + r;
    assert (q + 1) * d == q * d + d;
    ModIsUnique(r, q + 1, d, m);
    QuotientFits(m - d, d);
  }

  method GetBlockProof(nBits: uint32) returns (work: array<uint32>)
    ensures fresh(work) && work.Length == WIDTH && Value(work[..]) == BlockProof(nBits)
  {
    var bnTarget := new uint32[WIDTH](_ => 0);
    var negative, overflow := SetCompact(bnTarget, nBits);
    var zero := EqualTo(bnTarget, 0);
    ghost var t := CompactValue(nBits);
    if !overflow {
      DivisorDoesNotWrap(nBits);
      ModIsUnique(t, 0, TWO_TO_256, t);
    }
    if negative || overflow || zero {
      work := new uint32[WIDTH](_ => 0);
      PrefixZero(work[..], WIDTH);
      return;
    }
    work := WorkOfTarget(bnTarget);
  }

  /** `(~bnTarget / (bnTarget + 1)) + 1` */
  method WorkOfTarget(bnTarget: array<uint32>) returns (work: array<uint32>)
    requires bnTarget.Length == WIDTH && 1 <= Value(bnTarget[..]) && Value(bnTarget[..]) + 1 < TWO_TO_256
    modifies bnTarget
    ensures fresh(work) && work.Length == WIDTH
    ensures Value(work[..]) == TWO_TO_256 / (old(Value(bnTarget[..])) + 1)
  {
    ghost var t := Value(bnTarget[..]);
    ProofArith(t, TWO_TO_256);
    ModulusIs(bnTarget.Length);
    work := Complement(bnTarget);
    AddSmall(bnTarget, 1);
    var ok, _ := DivAssign(work, bnTarget);
    AddSmall(work, 1);
  }

  /** `a + b` for a small b that does not overflow. */
  method AddSmall(pn: array<uint32>, b: uint32)
    requires pn.Length == WIDTH && Value(pn[..]) + b < TWO_TO_256
    modifies pn
    ensures Value(pn[..]) == old(Value(pn[..])) + b
  {
    ghost var v := Value(pn[..]);
    var other := new uint32[WIDTH](_ => 0);
    SetUint(other, b);
    ModulusIs(pn.Length);
    AddAssign(pn, other);
    ModIsUnique(v + b, 0, TWO_TO_256, v + b);
  }
}
