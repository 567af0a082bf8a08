/**
 The Bech32 and Bech32m checksum (src/bech32.cpp; BIP 173 and BIP 350).

 PolyMod is linear over exclusive-or, one step of it is invertible, and six symbols are absorbed
 without reduction.  From these three facts follow the round trip and the detection of every error
 confined to six neighbouring symbols, for symbol lists of any length.
 */
module PolyMod {
  import opened LinearFold

  type Symbol = bv5

  /** The constant added when bit `i` of the five is shifted out. */
  function Generator(i: nat): bv32 {
    if i == 0 then 0x3b6a57b2 else
    if i == 1 then 0x26508e6d else
    if i == 2 then 0x1ea119fa else
    if i == 3 then 0x3d4233dd else 0x2a1462b3
  }

  function Mask(i: nat): bv32 {
    if i == 0 then 1 else if i == 1 then 2 else if i == 2 then 4 else if i == 3 then 8 else 16
  }

  predicate Bit(out: bv32, m: bv32) { out & m != 0 }

  predicate Flag(out: bv32, i: nat) { Bit(out, Mask(i)) }

  function Xor(a: bv32, b: bv32): bv32 { a ^ b }

  function XorSymbol(v: Symbol, w: Symbol): Symbol { v ^ w }

  function Shift(c: bv32, v: Symbol): bv32 {
    ((c & 0x1ffffff) << 5) ^ (v as bv32)
  }

  /** The bits a step shifts out. */
  function Top(c: bv32): bv32 {
    c >> 25
  }

  /** One symbol into the 30-bit remainder. */
  function Step(c: bv32, v: Symbol): bv32 {
    Reduce(Xor, Flag, Generator, Shift(c, v), Top(c), 5)
  }

  /** The remainder after more symbols, from a remainder `c` on. */
  function Remainder(c: bv32, v: seq<Symbol>): bv32 {
    Run(Step, c, v)
  }

  // ---------- the loop, on bytes ----------

  /** The same step for a whole byte, as the code takes it; only the prefix of a string can exceed five bits. */
  function StepByte(c: bv32, b: bv8): bv32 {
    Reduce(Xor, Flag, Generator, ((c & 0x1ffffff) << 5) ^ (b as bv32), Top(c), 5)
  }

  function Wide(v: Symbol): bv8 { v as bv8 }

  function WideAll(v: seq<Symbol>): (r: seq<bv8>)
    ensures |r| == |v|
  {
    seq(|v|, i requires 0 <= i < |v| => Wide(v[i]))
  }

  /** The remainder of a list of bytes. */
  function AfterBytes(v: seq<bv8>): bv32 {
    Run(StepByte, 1, v)
  }

  method PolyMod(v: seq<bv8>) returns (c: bv32)
    ensures c == AfterBytes(v)
  {
    c := 1;
    for i := 0 to |v|
      invariant c == AfterBytes(v[..i])
    {
      assert v[..i + 1][..i] == v[..i];
      c := StepByte(c, v[i]);
    }
    assert v[..|v|] == v;
  }

  lemma WideShift(c: bv32, v: Symbol)
    ensures ((c & 0x1ffffff) << 5) ^ (Wide(v) as bv32) == Shift(c, v)
  {
  }

  lemma StepWide(c: bv32, v: Symbol)
    ensures StepByte(c, Wide(v)) == Step(c, v)
  {
    WideShift(c, v);
  }

  /** On five-bit values the loop computes the remainder. */
  lemma {:induction false} RunWide(c: bv32, v: seq<Symbol>)
    ensures Run(StepByte, c, WideAll(v)) == Remainder(c, v)
  {
    if v != [] {
      var n := |v| - 1;
      RunWide(c, v[..n]);
      assert WideAll(v)[..n] == WideAll(v[..n]);
      StepWide(Remainder(c, v[..n]), v[n]);
    }
  }

  /** After any bytes, five-bit values continue from the remainder reached. */
  lemma BytesThenSymbols(prefix: seq<bv8>, v: seq<Symbol>)
    ensures AfterBytes(prefix + WideAll(v)) == Remainder(AfterBytes(prefix), v)
  {
    RunAppend(StepByte, 1, prefix, WideAll(v));
    RunWide(AfterBytes(prefix), v);
  }

  lemma StepByteBound(c: bv32, b: bv8)
    requires c < 0x4000_0000
    ensures StepByte(c, b) < 0x4000_0000
  {
    ReduceFive(Xor, Flag, Generator, ((c & 0x1ffffff) << 5) ^ (b as bv32), Top(c));
  }

  lemma {:induction false} AfterBytesBound(v: seq<bv8>)
    ensures AfterBytes(v) < 0x4000_0000
  {
    if v != [] {
      AfterBytesBound(v[..|v| - 1]);
      StepByteBound(AfterBytes(v[..|v| - 1]), v[|v| - 1]);
    }
  }

  // ---------- one step ----------

  lemma XorAssociative()
    ensures Associative(Xor)
  {
  }

  lemma XorCommutative()
    ensures Commutative(Xor)
  {
  }

  lemma XorCancels()
    ensures Cancels(Xor)
  {
  }

  lemma XorIsXor()
    ensures IsXor(Xor)
  {
    XorAssociative();
    XorCommutative();
    XorCancels();
  }

  lemma ShiftLinear(a: bv32, b: bv32, v: Symbol, w: Symbol)
    ensures Shift(Xor(a, b), XorSymbol(v, w)) == Xor(Shift(a, v), Shift(b, w))
  {
  }

  lemma FlagLinear()
    ensures FlagsAdd(Xor, Flag)
  {
    forall s, t, i ensures Flag(Xor(s, t), i) == (Flag(s, i) != Flag(t, i)) {
      FlagXor(s, t, i);
    }
  }

  lemma FlagXor(s: bv32, t: bv32, i: nat)
    ensures Flag(Xor(s, t), i) == (Flag(s, i) != Flag(t, i))
  {
    BitXor(s, t, Mask(i));
  }

  lemma BitXor(s: bv32, t: bv32, m: bv32)
    requires m == 1 || m == 2 || m == 4 || m == 8 || m == 16
    ensures Bit(Xor(s, t), m) == (Bit(s, m) != Bit(t, m))
  {
  }

  lemma TopLinear(a: bv32, b: bv32)
    ensures Top(Xor(a, b)) == Xor(Top(a), Top(b))
  {
  }

  lemma ReduceXor(x: bv32, y: bv32, s: bv32, t: bv32, n: nat)
    ensures Reduce(Xor, Flag, Generator, Xor(x, y), Xor(s, t), n)
         == Xor(Reduce(Xor, Flag, Generator, x, s, n), Reduce(Xor, Flag, Generator, y, t, n))
  {
    XorIsXor();
    FlagLinear();
    ReduceLinear(Xor, Flag, Generator, x, y, s, t, n);
  }

  /** One step is linear in the remainder and the symbol together. */
  lemma StepLinear(a: bv32, b: bv32, v: Symbol, w: Symbol)
    ensures Step(Xor(a, b), XorSymbol(v, w)) == Xor(Step(a, v), Step(b, w))
  {
    ShiftLinear(a, b, v, w);
    TopLinear(a, b);
    ReduceXor(Shift(a, v), Shift(b, w), Top(a), Top(b), 5);
  }

  lemma StepIsLinear()
    ensures IsLinear(Xor, XorSymbol, Step)
  {
    forall a, b, v, w ensures Step(Xor(a, b), XorSymbol(v, w)) == Xor(Step(a, v), Step(b, w)) {
      StepLinear(a, b, v, w);
    }
  }

  lemma StepBound(c: bv32, v: Symbol)
    requires c < 0x4000_0000
    ensures Step(c, v) < 0x4000_0000
  {
    ReduceFive(Xor, Flag, Generator, Shift(c, v), Top(c));
  }

  /** The generator's constant term is invertible, so a non-zero remainder stays non-zero. */
  lemma StepKeepsNonZero(c: bv32)
    requires 0 < c < 0x4000_0000
    ensures Step(c, 0) != 0
  {
    ReduceFive(Xor, Flag, Generator, Shift(c, 0), Top(c));
  }

  /** Packing one more symbol, without reduction. */
  function Append(c: bv32, v: Symbol): bv32 {
    (c << 5) ^ (v as bv32)
  }

  /** Below 25 bits nothing is reduced: the symbol is appended. */
  lemma StepShort(c: bv32, v: Symbol)
    requires c < 0x200_0000
    ensures Step(c, v) == Append(c, v)
  {
    ReduceFive(Xor, Flag, Generator, Shift(c, v), Top(c));
  }

  // ---------- what one step means ----------

  /** Doubling in GF(32) with modulus a^5 + a^3 + 1. */
  function Twice(x: Symbol): Symbol {
    (x << 1) ^ (if x & 16 != 0 then 9 else 0)
  }

  /** A symbol doubled `i` times. */
  function Doubled(x: Symbol, i: nat): Symbol {
    if i == 0 then x else Twice(Doubled(x, i - 1))
  }

  /** The product in GF(32) of `x` with the five low bits of `a`, plus `c`. */
  function PlusTimes(c: Symbol, a: bv32, x: Symbol): Symbol {
    Reduce(XorSymbol, Flag, (i: nat) => Doubled(x, i), c, a, 5)
  }

  // The coefficients of x^5 to x^0 of a remainder.

  function X5(c: bv32): Symbol { ((c >> 25) & 31) as Symbol }

  function X4(c: bv32): Symbol { ((c >> 20) & 31) as Symbol }

  function X3(c: bv32): Symbol { ((c >> 15) & 31) as Symbol }

  function X2(c: bv32): Symbol { ((c >> 10) & 31) as Symbol }

  function X1(c: bv32): Symbol { ((c >> 5) & 31) as Symbol }

  function X0(c: bv32): Symbol { (c & 31) as Symbol }

  lemma X5Adds()
    ensures Respects(Xor, XorSymbol, X5)
  {
  }

  lemma X5Reduces(c: bv32, out: bv32)
    ensures X5(Reduce(Xor, Flag, Generator, c, out, 5)) == PlusTimes(X5(c), out, 29)
  {
    X5Adds();
    assert Agrees(X5, Generator, (i: nat) => Doubled(29, i), 5) by { X5Multiples(); }
    ReduceMaps(Xor, XorSymbol, X5, Flag, Generator, (i: nat) => Doubled(29, i), c, out, 5);
  }

  lemma X5Multiples()
    ensures forall i: nat :: i < 5 ==> X5(Generator(i)) == Doubled(29, i)
  {
  }

  lemma X4Adds()
    ensures Respects(Xor, XorSymbol, X4)
  {
  }

  lemma X4Reduces(c: bv32, out: bv32)
    ensures X4(Reduce(Xor, Flag, Generator, c, out, 5)) == PlusTimes(X4(c), out, 22)
  {
    X4Adds();
    assert Agrees(X4, Generator, (i: nat) => Doubled(22, i), 5) by { X4Multiples(); }
    ReduceMaps(Xor, XorSymbol, X4, Flag, Generator, (i: nat) => Doubled(22, i), c, out, 5);
  }

  lemma X4Multiples()
    ensures forall i: nat :: i < 5 ==> X4(Generator(i)) == Doubled(22, i)
  {
  }

  lemma X3Adds()
    ensures Respects(Xor, XorSymbol, X3)
  {
  }

  lemma X3Reduces(c: bv32, out: bv32)
    ensures X3(Reduce(Xor, Flag, Generator, c, out, 5)) == PlusTimes(X3(c), out, 20)
  {
    X3Adds();
    assert Agrees(X3, Generator, (i: nat) => Doubled(20, i), 5) by { X3Multiples(); }
    ReduceMaps(Xor, XorSymbol, X3, Flag, Generator, (i: nat) => Doubled(20, i), c, out, 5);
  }

  lemma X3Multiples()
    ensures forall i: nat :: i < 5 ==> X3(Generator(i)) == Doubled(20, i)
  {
  }

  lemma X2Adds()
    ensures Respects(Xor, XorSymbol, X2)
  {
  }

  lemma X2Reduces(c: bv32, out: bv32)
    ensures X2(Reduce(Xor, Flag, Generator, c, out, 5)) == PlusTimes(X2(c), out, 21)
  {
    X2Adds();
    assert Agrees(X2, Generator, (i: nat) => Doubled(21, i), 5) by { X2Multiples(); }
    ReduceMaps(Xor, XorSymbol, X2, Flag, Generator, (i: nat) => Doubled(21, i), c, out, 5);
  }

  lemma X2Multiples()
    ensures forall i: nat :: i < 5 ==> X2(Generator(i)) == Doubled(21, i)
  {
  }

  lemma X1Adds()
    ensures Respects(Xor, XorSymbol, X1)
  {
  }

  lemma X1Reduces(c: bv32, out: bv32)
    ensures X1(Reduce(Xor, Flag, Generator, c, out, 5)) == PlusTimes(X1(c), out, 29)
  {
    X1Adds();
    assert Agrees(X1, Generator, (i: nat) => Doubled(29, i), 5) by { X1Multiples(); }
    ReduceMaps(Xor, XorSymbol, X1, Flag, Generator, (i: nat) => Doubled(29, i), c, out, 5);
  }

  lemma X1Multiples()
    ensures forall i: nat :: i < 5 ==> X1(Generator(i)) == Doubled(29, i)
  {
  }

  lemma X0Adds()
    ensures Respects(Xor, XorSymbol, X0)
  {
  }

  lemma X0Reduces(c: bv32, out: bv32)
    ensures X0(Reduce(Xor, Flag, Generator, c, out, 5)) == PlusTimes(X0(c), out, 18)
  {
    X0Adds();
    assert Agrees(X0, Generator, (i: nat) => Doubled(18, i), 5) by { X0Multiples(); }
    ReduceMaps(Xor, XorSymbol, X0, Flag, Generator, (i: nat) => Doubled(18, i), c, out, 5);
  }

  lemma X0Multiples()
    ensures forall i: nat :: i < 5 ==> X0(Generator(i)) == Doubled(18, i)
  {
  }

  lemma ShiftMovesUp(c: bv32, v: Symbol)
    ensures X5(Shift(c, v)) == X4(c) && X4(Shift(c, v)) == X3(c) && X3(Shift(c, v)) == X2(c)
    ensures X2(Shift(c, v)) == X1(c) && X1(Shift(c, v)) == X0(c) && X0(Shift(c, v)) == v
  {
  }

  /**
   One step multiplies the remainder by x, adds the symbol and reduces modulo
   x^6 + {29}x^5 + {22}x^4 + {20}x^3 + {21}x^2 + {29}x + {18} over GF(32): every coefficient moves up
   one place and gains the shifted-out one times the generator's.
   */
  lemma StepIsPolynomial(c: bv32, v: Symbol)
    ensures X5(Step(c, v)) == PlusTimes(X4(c), Top(c), 29)
    ensures X4(Step(c, v)) == PlusTimes(X3(c), Top(c), 22)
    ensures X3(Step(c, v)) == PlusTimes(X2(c), Top(c), 20)
    ensures X2(Step(c, v)) == PlusTimes(X1(c), Top(c), 21)
    ensures X1(Step(c, v)) == PlusTimes(X0(c), Top(c), 29)
    ensures X0(Step(c, v)) == PlusTimes(v, Top(c), 18)
  {
    ShiftMovesUp(c, v);
    X5Reduces(Shift(c, v), Top(c));
    X4Reduces(Shift(c, v), Top(c));
    X3Reduces(Shift(c, v), Top(c));
    X2Reduces(Shift(c, v), Top(c));
    X1Reduces(Shift(c, v), Top(c));
    X0Reduces(Shift(c, v), Top(c));
  }

  // ---------- lists of symbols ----------

  function Zeros(n: nat): (r: seq<Symbol>)
    ensures |r| == n
  {
    seq(n, _ => 0)
  }

  /** PolyMod of a symbol-wise exclusive-or is the exclusive-or of the PolyMods. */
  lemma RunXor(a: bv32, b: bv32, v: seq<Symbol>, w: seq<Symbol>, d: seq<Symbol>)
    requires Sums(XorSymbol, v, w, d)
    ensures Run(Step, Xor(a, b), d) == Xor(Run(Step, a, v), Run(Step, b, w))
  {
    StepIsLinear();
    RunLinear(Xor, XorSymbol, Step, a, b, v, w, d);
  }

  lemma {:induction false} RunBound(c: bv32, v: seq<Symbol>)
    requires c < 0x4000_0000
    ensures Run(Step, c, v) < 0x4000_0000
  {
    if v != [] {
      RunBound(c, v[..|v| - 1]);
      StepBound(Run(Step, c, v[..|v| - 1]), v[|v| - 1]);
    }
  }

  lemma {:induction false} ZerosKeepNonZero(c: bv32, n: nat)
    requires 0 < c < 0x4000_0000
    ensures 0 < Run(Step, c, Zeros(n)) < 0x4000_0000
  {
    if n > 0 {
      assert Zeros(n)[..n - 1] == Zeros(n - 1);
      ZerosKeepNonZero(c, n - 1);
      StepKeepsNonZero(Run(Step, c, Zeros(n - 1)));
      StepBound(Run(Step, c, Zeros(n - 1)), 0);
    }
  }

  lemma {:induction false} ZerosKeepZero(n: nat)
    ensures Run(Step, 0, Zeros(n)) == 0
  {
    if n > 0 {
      assert Zeros(n)[..n - 1] == Zeros(n - 1);
      ZerosKeepZero(n - 1);
      StepShort(0, 0);
    }
  }

  /** The bound on the remainder of `n` symbols, before any reduction. */
  function Limit(n: nat): bv32
    requires n <= 6
  {
    if n == 0 then 1 else if n == 1 then 0x20 else if n == 2 then 0x400 else if n == 3 then 0x8000 else
    if n == 4 then 0x10_0000 else if n == 5 then 0x200_0000 else 0x4000_0000
  }

  lemma AppendBound(c: bv32, v: Symbol, n: nat)
    requires n <= 5 && c < Limit(n)
    ensures c < 0x200_0000
    ensures Append(c, v) < Limit(n + 1)
    ensures c != 0 || v != 0 ==> Append(c, v) != 0
  {
  }

  /** Six symbols or fewer are packed unreduced; not all zero, they have a non-zero remainder. */
  lemma {:induction false} WindowIsNonZero(d: seq<Symbol>)
    requires |d| <= 6
    ensures Run(Step, 0, d) == Run(Append, 0, d) < Limit(|d|)
    ensures d != Zeros(|d|) ==> Run(Step, 0, d) != 0
  {
    if d != [] {
      var n := |d| - 1;
      WindowIsNonZero(d[..n]);
      var c := Run(Step, 0, d[..n]);
      AppendBound(c, d[n], n);
      StepShort(c, d[n]);
      if d[n] == 0 && d[..n] == Zeros(n) {
        assert d == Zeros(n + 1);
      }
    }
  }

  lemma BurstIsNonZero(before: nat, d: seq<Symbol>, after: nat)
    requires |d| <= 6 && d != Zeros(|d|)
    ensures Run(Step, 0, Zeros(before) + d + Zeros(after)) != 0
  {
    RunAppend(Step, 0, Zeros(before) + d, Zeros(after));
    RunAppend(Step, 0, Zeros(before), d);
    ZerosKeepZero(before);
    WindowIsNonZero(d);
    RunBound(0, d);
    ZerosKeepNonZero(Run(Step, 0, d), after);
  }

  /** `v` and `w` agree outside the `|d|` positions from `from`. */
  ghost predicate DifferWithin(v: seq<Symbol>, w: seq<Symbol>, from: nat, width: nat) {
    && |v| == |w|
    && from + width <= |v|
    && v[..from] == w[..from]
    && v[from + width..] == w[from + width..]
  }

  lemma XorSelf(v: Symbol, w: Symbol)
    ensures XorSymbol(v, v) == 0
    ensures XorSymbol(v, w) == 0 ==> v == w
  {
  }

  /** The symbol-wise difference of two lists that agree outside a window. */
  lemma DifferenceOfBurst(v: seq<Symbol>, w: seq<Symbol>, from: nat, width: nat) returns (d: seq<Symbol>)
    requires DifferWithin(v, w, from, width) && v != w
    ensures |d| == width && d != Zeros(width)
    ensures Sums(XorSymbol, v, w, Zeros(from) + d + Zeros(|v| - from - width))
  {
    d := seq(width, i requires 0 <= i < width => XorSymbol(v[from + i], w[from + i]));
    var all := Zeros(from) + d + Zeros(|v| - from - width);
    forall i | 0 <= i < |v| ensures all[i] == XorSymbol(v[i], w[i]) {
      XorSelf(v[i], w[i]);
      if i < from {
        assert v[i] == v[..from][i] == w[i];
      } else if i >= from + width {
        assert v[i] == v[from + width..][i - from - width] == w[i];
      }
    }
    var k :| 0 <= k < |v| && v[k] != w[k];
    XorSelf(v[k], w[k]);
    assert all[k] != 0;
    assert from <= k < from + width && d[k - from] != 0;
  }

  lemma XorToZero(a: bv32)
    ensures Xor(a, a) == 0
  {
  }

  /**
   Any error confined to six neighbouring symbols changes the remainder, whatever the length of the
   list: two lists that differ there never have the same checksum constant.
   */
  lemma BurstIsDetected(c: bv32, v: seq<Symbol>, w: seq<Symbol>, from: nat, width: nat)
    requires width <= 6 && DifferWithin(v, w, from, width) && v != w
    ensures Remainder(c, v) != Remainder(c, w)
  {
    var d := DifferenceOfBurst(v, w, from, width);
    var all := Zeros(from) + d + Zeros(|v| - from - width);
    RunXor(c, c, v, w, all);
    XorToZero(c);
    XorToZero(Remainder(c, v));
    BurstIsNonZero(from, d, |v| - from - width);
  }

  // ---------- the six checksum symbols ----------

  /** The six five-bit groups of a remainder, highest first. */
  function Unpack(c: bv32): (r: seq<Symbol>)
    ensures |r| == 6
  {
    [((c >> 25) & 31) as Symbol, ((c >> 20) & 31) as Symbol, ((c >> 15) & 31) as Symbol,
     ((c >> 10) & 31) as Symbol, ((c >> 5) & 31) as Symbol, (c & 31) as Symbol]
  }

  lemma PackedGroups(c: bv32)
    requires c < 0x4000_0000
    ensures Append(Append(Append(Append(Append(Append(0, ((c >> 25) & 31) as Symbol), ((c >> 20) & 31) as Symbol),
      ((c >> 15) & 31) as Symbol), ((c >> 10) & 31) as Symbol), ((c >> 5) & 31) as Symbol), (c & 31) as Symbol) == c
  {
  }

  lemma PackOfUnpack(c: bv32)
    requires c < 0x4000_0000
    ensures Run(Step, 0, Unpack(c)) == c
  {
    WindowIsNonZero(Unpack(c));
    RunSix(Append, 0, Unpack(c));
    PackedGroups(c);
  }

  /** What to append to `v`, after a prefix that left `c`, so that the remainder becomes `constant`. */
  function Checksum(c: bv32, v: seq<Symbol>, constant: bv32): (r: seq<Symbol>)
    ensures |r| == 6
  {
    Unpack(Xor(Remainder(c, v + Zeros(6)), constant))
  }

  lemma XorBound(a: bv32, b: bv32)
    requires a < 0x4000_0000 && b < 0x4000_0000
    ensures Xor(a, b) < 0x4000_0000
    ensures Xor(a, Xor(a, b)) == b
  {
  }

  lemma XorZero(v: Symbol)
    ensures XorSymbol(v, 0) == v == XorSymbol(0, v)
  {
  }

  /** The remainder of a list with six symbols appended. */
  lemma RemainderWithTail(c: bv32, v: seq<Symbol>, tail: seq<Symbol>)
    requires |tail| == 6
    ensures Remainder(c, v + tail) == Xor(Remainder(c, v + Zeros(6)), Run(Step, 0, tail))
  {
    var a, b := v + Zeros(6), Zeros(|v|) + tail;
    forall i | 0 <= i < |v| + 6 ensures (v + tail)[i] == XorSymbol(a[i], b[i]) {
      XorZero((v + tail)[i]);
    }
    RunXor(c, 0, a, b, v + tail);
    XorNothing(c);
    RunAppend(Step, 0, Zeros(|v|), tail);
    ZerosKeepZero(|v|);
  }

  lemma XorNothing(c: bv32)
    ensures Xor(c, 0) == c
  {
  }

  /** The created checksum verifies. */
  lemma ChecksumVerifies(c: bv32, v: seq<Symbol>, constant: bv32)
    requires c < 0x4000_0000 && constant < 0x4000_0000
    ensures Remainder(c, v + Checksum(c, v, constant)) == constant
  {
    var r := Remainder(c, v + Zeros(6));
    RunBound(c, v + Zeros(6));
    XorBound(r, constant);
    RemainderWithTail(c, v, Checksum(c, v, constant));
    PackOfUnpack(Xor(r, constant));
  }

  /** It is the only one that does. */
  lemma ChecksumIsUnique(c: bv32, v: seq<Symbol>, tail: seq<Symbol>, constant: bv32)
    requires |tail| == 6 && c < 0x4000_0000 && constant < 0x4000_0000
    requires Remainder(c, v + tail) == constant
    ensures tail == Checksum(c, v, constant)
  {
    var other := Checksum(c, v, constant);
    ChecksumVerifies(c, v, constant);
    if tail != other {
      assert (v + tail)[|v|..] == tail && (v + other)[|v|..] == other;
      BurstIsDetected(c, v + tail, v + other, |v|, 6);
    }
  }
}
