/**
 The detection promise of the Bech32 generator (src/bech32.cpp): up to three wrong symbols within a
 window of 1023 always change the remainder.

 e^997, e^998 and e^999 are roots of the generator, so the remainder evaluated at them is the whole
 list evaluated at them.  For two lists with the same remainder the difference then vanishes at three
 consecutive powers of e, and with at most three terms in it every term is zero.
 */
module ThreeErrors {
  import opened LinearFold
  import opened Orbits
  import opened Galois
  import opened PolyMod

  // ---------- symbols as field elements ----------

  /** The powers of the element of GF(32) that is written 2. */
  function Unit(i: nat): Element {
    if i == 0 then 0x001 else if i == 1 then 0x14d else if i == 2 then 0x283 else if i == 3 then 0x267 else 0x122
  }

  function Embed(s: Symbol): Element {
    var v := s as Element;
    ((0 - (v & 1)) & 0x001) ^ ((0 - ((v >> 1) & 1)) & 0x14d) ^ ((0 - ((v >> 2) & 1)) & 0x283) ^
    ((0 - ((v >> 3) & 1)) & 0x267) ^ ((0 - ((v >> 4) & 1)) & 0x122)
  }

  lemma EmbedAdds(v: Symbol, w: Symbol)
    ensures Embed(XorSymbol(v, w)) == Add(Embed(v), Embed(w))
  {
  }

  lemma EmbedZero(v: Symbol)
    ensures Embed(v) == 0 <==> v == 0
  {
  }

  /** e is a root of x^2 + {9}x + {23}, as in the code's construction of the field. */
  lemma EmbedIsRoot()
    ensures Add(Times(Times(Embed(1))), Add(Times(Embed(9)), Embed(23))) == 0
  {
  }

  lemma EmbedReduces(out: bv32)
    requires out < 32
    ensures Reduce(Add, Flag, Unit, 0, out, 5) == Embed((out & 31) as Symbol)
  {
    assert Reduce(Add, Flag, Unit, 0, out, 1) == Tap(Add, 0, Flag(out, 0), Unit(0));
  }

  // ---------- a remainder at a power of e ----------

  /** A polynomial of six coefficients, evaluated where multiplication is `t`. */
  function Horner(t: Element -> Element, a0: Element, a1: Element, a2: Element, a3: Element, a4: Element,
                  a5: Element): Element
  {
    Add(a0, t(Add(a1, t(Add(a2, t(Add(a3, t(Add(a4, t(a5))))))))))
  }

  function Eval(t: Element -> Element, c: bv32): Element {
    Horner(t, Embed(X0(c)), Embed(X1(c)), Embed(X2(c)), Embed(X3(c)), Embed(X4(c)), Embed(X5(c)))
  }

  function Six(t: Element -> Element, a: Element): Element { t(t(t(t(t(t(a)))))) }

  lemma AddFour(a: Element, b: Element, c: Element, d: Element)
    ensures Add(Add(a, b), Add(c, d)) == Add(Add(a, c), Add(b, d))
  {
    AddIsXor();
    XorFour(Add, a, b, c, d);
  }

  lemma HornerAdds(t: Element -> Element, a0: Element, a1: Element, a2: Element, a3: Element, a4: Element,
                   a5: Element, b0: Element, b1: Element, b2: Element, b3: Element, b4: Element, b5: Element)
    requires Respects(Add, Add, t)
    ensures Horner(t, Add(a0, b0), Add(a1, b1), Add(a2, b2), Add(a3, b3), Add(a4, b4), Add(a5, b5))
         == Add(Horner(t, a0, a1, a2, a3, a4, a5), Horner(t, b0, b1, b2, b3, b4, b5))
  {
    var p4, q4 := Add(a4, t(a5)), Add(b4, t(b5));
    var p3, q3 := Add(a3, t(p4)), Add(b3, t(q4));
    var p2, q2 := Add(a2, t(p3)), Add(b2, t(q3));
    var p1, q1 := Add(a1, t(p2)), Add(b1, t(q2));
    AddFour(a4, b4, t(a5), t(b5));
    AddFour(a3, b3, t(p4), t(q4));
    AddFour(a2, b2, t(p3), t(q3));
    AddFour(a1, b1, t(p2), t(q2));
    AddFour(a0, b0, t(p1), t(q1));
  }

  lemma EvalAdds(t: Element -> Element, c: bv32, d: bv32)
    requires Respects(Add, Add, t)
    ensures Eval(t, Xor(c, d)) == Add(Eval(t, c), Eval(t, d))
  {
    X0Adds();
    X1Adds();
    X2Adds();
    X3Adds();
    X4Adds();
    X5Adds();
    EmbedAdds(X0(c), X0(d));
    EmbedAdds(X1(c), X1(d));
    EmbedAdds(X2(c), X2(d));
    EmbedAdds(X3(c), X3(d));
    EmbedAdds(X4(c), X4(d));
    EmbedAdds(X5(c), X5(d));
    HornerAdds(t, Embed(X0(c)), Embed(X1(c)), Embed(X2(c)), Embed(X3(c)), Embed(X4(c)), Embed(X5(c)),
               Embed(X0(d)), Embed(X1(d)), Embed(X2(d)), Embed(X3(d)), Embed(X4(d)), Embed(X5(d)));
  }

  /** Moving all coefficients up one place multiplies, but for what is shifted out. */
  lemma HornerShift(t: Element -> Element, v: Element, a0: Element, a1: Element, a2: Element, a3: Element,
                    a4: Element, a5: Element)
    requires Respects(Add, Add, t)
    ensures Add(Horner(t, v, a0, a1, a2, a3, a4), Six(t, a5)) == Add(t(Horner(t, a0, a1, a2, a3, a4, a5)), v)
  {
    var h1 := t(a5);
    var h2 := t(h1);
    var h3 := t(h2);
    var h4 := t(h3);
    var h5 := t(h4);
    var p4 := a4;
    var p3 := Add(a3, t(p4));
    var p2 := Add(a2, t(p3));
    var p1 := Add(a1, t(p2));
    var p0 := Add(a0, t(p1));
    assert t(Add(a4, h1)) == Add(t(p4), h2);
    AddMiddle(a3, t(p4), h2);
    assert t(Add(p3, h2)) == Add(t(p3), h3);
    AddMiddle(a2, t(p3), h3);
    assert t(Add(p2, h3)) == Add(t(p2), h4);
    AddMiddle(a1, t(p2), h4);
    assert t(Add(p1, h4)) == Add(t(p1), h5);
    AddMiddle(a0, t(p1), h5);
    assert t(Add(p0, h5)) == Add(t(p0), t(h5));
    AddMiddle(v, t(p0), t(h5));
  }

  lemma AddMiddle(a: Element, b: Element, c: Element)
    ensures Add(a, Add(b, c)) == Add(Add(a, b), c) == Add(Add(b, c), a)
  {
  }

  /** A multiplication at which the generator vanishes: x^6 times 2^i is what step `i` adds. */
  ghost predicate IsRoot(t: Element -> Element) {
    Respects(Add, Add, t) && Vanishes(t)
  }

  ghost predicate Vanishes(t: Element -> Element) {
    forall i: nat :: i < 5 ==> VanishesFor(t, i)
  }

  predicate VanishesFor(t: Element -> Element, i: nat) {
    Eval(t, Generator(i)) == Six(t, Unit(i))
  }

  lemma SixAdds(t: Element -> Element)
    requires Respects(Add, Add, t)
    ensures Respects(Add, Add, (a: Element) => Six(t, a))
  {
    forall a, b ensures Six(t, Add(a, b)) == Add(Six(t, a), Six(t, b)) {
      assert t(Add(a, b)) == Add(t(a), t(b));
    }
  }

  lemma ZeroIsFixed(t: Element -> Element)
    requires Respects(Add, Add, t)
    ensures t(0) == 0 && Embed(0) == 0
  {
    assert t(Add(0, 0)) == Add(t(0), t(0));
    EmbedZero(0);
  }

  /** The generator's multiples, evaluated. */
  function Added(t: Element -> Element): nat -> Element { (i: nat) => Eval(t, Generator(i)) }

  lemma ReductionMaps(t: Element -> Element, c: bv32, out: bv32)
    requires Respects(Add, Add, t)
    ensures Eval(t, Reduce(Xor, Flag, Generator, c, out, 5)) == Reduce(Add, Flag, Added(t), Eval(t, c), out, 5)
  {
    var f := (x: bv32) => Eval(t, x);
    forall x, y ensures f(Xor(x, y)) == Add(f(x), f(y)) {
      EvalAdds(t, x, y);
    }
    ReduceMaps(Xor, Add, f, Flag, Generator, Added(t), c, out, 5);
  }

  lemma AddedIsSix(t: Element -> Element, out: bv32)
    requires IsRoot(t) && out < 32
    ensures Reduce(Add, Flag, Added(t), 0, out, 5) == Six(t, Embed((out & 31) as Symbol))
  {
    var six := (a: Element) => Six(t, a);
    SixAdds(t);
    forall i: nat | i < 5 ensures six(Unit(i)) == Added(t)(i) {
      assert VanishesFor(t, i);
    }
    ReduceMaps(Add, Add, six, Flag, Unit, Added(t), 0, out, 5);
    EmbedReduces(out);
    ZeroIsFixed(t);
  }

  /** What a step adds for the bits it shifts out. */
  lemma ReductionEvaluates(t: Element -> Element, c: bv32, out: bv32)
    requires IsRoot(t) && out < 32
    ensures Eval(t, Reduce(Xor, Flag, Generator, c, out, 5)) == Add(Eval(t, c), Six(t, Embed((out & 31) as Symbol)))
  {
    ReductionMaps(t, c, out);
    ReduceOffset(Flag, Added(t), Eval(t, c), out, 5);
    AddedIsSix(t, out);
  }

  lemma {:induction false} ReduceOffset(flag: (bv32, nat) -> bool, gen: nat -> Element, c: Element, out: bv32, n: nat)
    ensures Reduce(Add, flag, gen, c, out, n) == Add(c, Reduce(Add, flag, gen, 0, out, n))
  {
    if n > 0 {
      ReduceOffset(flag, gen, c, out, n - 1);
      AddMiddle(c, Reduce(Add, flag, gen, 0, out, n - 1), gen(n - 1));
    }
  }

  lemma TopIsX5(c: bv32)
    requires c < 0x4000_0000
    ensures Top(c) < 32 && (Top(c) & 31) as Symbol == X5(c)
  {
  }

  /** At a root a step is the multiplication, plus the symbol. */
  lemma StepEvaluates(t: Element -> Element, c: bv32, v: Symbol)
    requires IsRoot(t) && c < 0x4000_0000
    ensures Eval(t, Step(c, v)) == Add(t(Eval(t, c)), Embed(v))
  {
    TopIsX5(c);
    ReductionEvaluates(t, Shift(c, v), Top(c));
    ShiftMovesUp(c, v);
    HornerShift(t, Embed(v), Embed(X0(c)), Embed(X1(c)), Embed(X2(c)), Embed(X3(c)), Embed(X4(c)), Embed(X5(c)));
  }

  // ---------- whole lists ----------

  lemma {:induction false} RunEvaluates(t: Element -> Element, d: seq<Symbol>)
    requires IsRoot(t)
    ensures Eval(t, Run(Step, 0, d)) == Run(Absorb(Add, t, Embed), 0, d)
  {
    if d == [] {
      ZeroIsFixed(t);
    } else {
      var init := d[..|d| - 1];
      RunEvaluates(t, init);
      RunBound(0, init);
      StepEvaluates(t, Run(Step, 0, init), d[|d| - 1]);
    }
  }

  lemma RootEvaluates(t: Element -> Element)
    requires IsRoot(t)
    ensures Evaluates(Add, 0, t, Embed, 0) && Eval(t, 0) == 0
  {
    AddIsXor();
    ZeroIsFixed(t);
    forall law ensures Obeys(law, Add, 0, t, Embed, 0) {
    }
  }

  /** A zero remainder is zero at every root. */
  lemma ThreeSumToZero(t: Element -> Element, before: nat, x: Symbol, i: nat, y: Symbol, j: nat, z: Symbol,
                       after: nat, p: nat, q: nat)
    requires IsRoot(t) && Run(Step, 0, ThreeIn(0, before, x, i, y, j, z, after)) == 0
    requires p == after + 1 + (i + j + 1) && q == after + 1 + j
    ensures Pow(t, p, Embed(x)) == Add(Pow(t, q, Embed(y)), Pow(t, after, Embed(z)))
  {
    RootEvaluates(t);
    var all := ThreeIn(0, before, x, i, y, j, z, after);
    RunEvaluates(t, all);
    ThreeEvaluate(Add, 0, t, Embed, 0, all, before, x, i, y, j, z, after, p, q);
    SumIsZero(Pow(t, p, Embed(x)), Pow(t, q, Embed(y)), Pow(t, after, Embed(z)));
  }

  lemma SumIsZero(a: Element, b: Element, c: Element)
    requires Add(Add(a, b), c) == 0
    ensures a == Add(b, c)
  {
  }

  // ---------- the three roots ----------

  lemma VanishesOnFive(t: Element -> Element)
    requires Eval(t, Generator(0)) == Six(t, Unit(0)) && Eval(t, Generator(1)) == Six(t, Unit(1))
    requires Eval(t, Generator(2)) == Six(t, Unit(2)) && Eval(t, Generator(3)) == Six(t, Unit(3))
    requires Eval(t, Generator(4)) == Six(t, Unit(4))
    ensures Vanishes(t)
  {
    FiveCases((i: nat) => VanishesFor(t, i));
    forall i: nat | i < 5 ensures VanishesFor(t, i) {
      assert ((j: nat) => VanishesFor(t, j))(i);
    }
  }

  lemma FiveCases(holds: nat -> bool)
    requires holds(0) && holds(1) && holds(2) && holds(3) && holds(4)
    ensures forall i: nat :: i < 5 ==> holds(i)
  {
  }

  lemma Vanishes997()
    ensures Eval(L997, Generator(0)) == Six(L997, Unit(0)) && Eval(L997, Generator(1)) == Six(L997, Unit(1))
    ensures Eval(L997, Generator(2)) == Six(L997, Unit(2)) && Eval(L997, Generator(3)) == Six(L997, Unit(3))
    ensures Eval(L997, Generator(4)) == Six(L997, Unit(4))
  {
  }

  lemma Root997(n: nat)
    requires n == 997
    ensures IsPower(Times, n, L997) && IsRoot(L997)
  {
    forall v ensures L997(v) == Pow(Times, n, v) { Pow997(n, v); }
    TimesAdds();
    PowerRespects(Add, Times, n, L997);
    Vanishes997();
    VanishesOnFive(L997);
  }

  lemma Vanishes998()
    ensures Eval(L998, Generator(0)) == Six(L998, Unit(0)) && Eval(L998, Generator(1)) == Six(L998, Unit(1))
    ensures Eval(L998, Generator(2)) == Six(L998, Unit(2)) && Eval(L998, Generator(3)) == Six(L998, Unit(3))
    ensures Eval(L998, Generator(4)) == Six(L998, Unit(4))
  {
  }

  lemma Root998(n: nat)
    requires n == 998
    ensures IsPower(Times, n, L998) && IsRoot(L998)
  {
    forall v ensures L998(v) == Pow(Times, n, v) { Pow998(n, v); }
    TimesAdds();
    PowerRespects(Add, Times, n, L998);
    Vanishes998();
    VanishesOnFive(L998);
  }

  lemma Vanishes999()
    ensures Eval(L999, Generator(0)) == Six(L999, Unit(0)) && Eval(L999, Generator(1)) == Six(L999, Unit(1))
    ensures Eval(L999, Generator(2)) == Six(L999, Unit(2)) && Eval(L999, Generator(3)) == Six(L999, Unit(3))
    ensures Eval(L999, Generator(4)) == Six(L999, Unit(4))
  {
  }

  lemma Root999(n: nat)
    requires n == 999
    ensures IsPower(Times, n, L999) && IsRoot(L999)
  {
    forall v ensures L999(v) == Pow(Times, n, v) { Pow999(n, v); }
    TimesAdds();
    PowerRespects(Add, Times, n, L999);
    Vanishes999();
    VanishesOnFive(L999);
  }

  // ---------- three wrong symbols ----------

  function Mul(k: nat, p: nat): nat { k * p }

  /** The terms of the difference at the first root; each next root multiplies them by their own power. */
  lemma NextRoot(k: nat, p: nat, v: Element)
    ensures Pow(Times, Mul(k + 1, p), v) == Pow(Times, p, Pow(Times, Mul(k, p), v))
  {
    assert Mul(k + 1, p) == p + Mul(k, p);
    PowAdd(Times, p, Mul(k, p), v);
  }

  /** The terms `u`, `v` and `w` at powers `p`, `q` and `r` of e^k sum to zero. */
  ghost predicate SumAt(k: nat, p: nat, q: nat, r: nat, u: Element, v: Element, w: Element) {
    Pow(Times, Mul(k, p), u) == Add(Pow(Times, Mul(k, q), v), Pow(Times, Mul(k, r), w))
  }

  lemma SumAtPower(k: nat, t: Element -> Element, p: nat, q: nat, r: nat, u: Element, v: Element, w: Element)
    requires IsPower(Times, k, t) && Pow(t, p, u) == Add(Pow(t, q, v), Pow(t, r, w))
    ensures SumAt(k, p, q, r, u, v, w)
  {
    PowPow(Times, k, t, p, u);
    PowPow(Times, k, t, q, v);
    PowPow(Times, k, t, r, w);
  }

  lemma SumAt997(k: nat, before: nat, x: Symbol, i: nat, y: Symbol, j: nat, z: Symbol, r: nat, p: nat, q: nat)
    requires k == 997 && Run(Step, 0, ThreeIn(0, before, x, i, y, j, z, r)) == 0
    requires p == r + 1 + (i + j + 1) && q == r + 1 + j
    ensures SumAt(k, p, q, r, Embed(x), Embed(y), Embed(z))
  {
    Root997(k);
    ThreeSumToZero(L997, before, x, i, y, j, z, r, p, q);
    SumAtPower(k, L997, p, q, r, Embed(x), Embed(y), Embed(z));
  }

  lemma SumAt998(k: nat, before: nat, x: Symbol, i: nat, y: Symbol, j: nat, z: Symbol, r: nat, p: nat, q: nat)
    requires k == 998 && Run(Step, 0, ThreeIn(0, before, x, i, y, j, z, r)) == 0
    requires p == r + 1 + (i + j + 1) && q == r + 1 + j
    ensures SumAt(k, p, q, r, Embed(x), Embed(y), Embed(z))
  {
    Root998(k);
    ThreeSumToZero(L998, before, x, i, y, j, z, r, p, q);
    SumAtPower(k, L998, p, q, r, Embed(x), Embed(y), Embed(z));
  }

  lemma SumAt999(k: nat, before: nat, x: Symbol, i: nat, y: Symbol, j: nat, z: Symbol, r: nat, p: nat, q: nat)
    requires k == 999 && Run(Step, 0, ThreeIn(0, before, x, i, y, j, z, r)) == 0
    requires p == r + 1 + (i + j + 1) && q == r + 1 + j
    ensures SumAt(k, p, q, r, Embed(x), Embed(y), Embed(z))
  {
    Root999(k);
    ThreeSumToZero(L999, before, x, i, y, j, z, r, p, q);
    SumAtPower(k, L999, p, q, r, Embed(x), Embed(y), Embed(z));
  }

  /** Three symbols within 1023 leave no zero remainder unless all are zero. */
  lemma ThreeSymbolsShow(before: nat, x: Symbol, i: nat, y: Symbol, j: nat, z: Symbol, after: nat)
    requires i + j + 2 < 1023 && Run(Step, 0, ThreeIn(0, before, x, i, y, j, z, after)) == 0
    ensures x == 0 && y == 0 && z == 0
  {
    var k, n, r := 997, 1023, after;
    var p, q := r + 1 + (i + j + 1), r + 1 + j;
    SumAt997(k, before, x, i, y, j, z, r, p, q);
    SumAt998(k + 1, before, x, i, y, j, z, r, p, q);
    SumAt999(k + 2, before, x, i, y, j, z, r, p, q);
    TermsVanish(k, n, p, q, r, Embed(x), Embed(y), Embed(z));
    EmbedZero(x);
    EmbedZero(y);
    EmbedZero(z);
  }

  lemma SumsAtRoots(k: nat, p: nat, q: nat, r: nat, u: Element, v: Element, w: Element)
    requires SumAt(k, p, q, r, u, v, w) && SumAt(k + 1, p, q, r, u, v, w) && SumAt(k + 2, p, q, r, u, v, w)
    ensures SumsVanish(Add, Times, p, q, r, Pow(Times, Mul(k, p), u), Pow(Times, Mul(k, q), v),
                       Pow(Times, Mul(k, r), w))
  {
    NextRoot(k, p, u);
    NextRoot(k, q, v);
    NextRoot(k, r, w);
    NextRoot(k + 1, p, u);
    NextRoot(k + 1, q, v);
    NextRoot(k + 1, r, w);
  }

  lemma TermsVanish(k: nat, n: nat, p: nat, q: nat, r: nat, u: Element, v: Element, w: Element)
    requires n == 1023 && r < q < p < r + n
    requires SumAt(k, p, q, r, u, v, w) && SumAt(k + 1, p, q, r, u, v, w) && SumAt(k + 2, p, q, r, u, v, w)
    ensures u == 0 && v == 0 && w == 0
  {
    var a, b, c := Pow(Times, Mul(k, p), u), Pow(Times, Mul(k, q), v), Pow(Times, Mul(k, r), w);
    SumsAtRoots(k, p, q, r, u, v, w);
    AllZero(n, p, q, r, a, b, c);
    OnlyZeroToZero(n, Mul(k, p), u);
    OnlyZeroToZero(n, Mul(k, q), v);
    OnlyZeroToZero(n, Mul(k, r), w);
  }

  lemma AllZero(n: nat, p: nat, q: nat, r: nat, a: Element, b: Element, c: Element)
    requires n == 1023 && r < q < p < r + n && SumsVanish(Add, Times, p, q, r, a, b, c)
    ensures a == 0 && b == 0 && c == 0
  {
    AddIsXor();
    TimesAdds();
    OrderIsFull(n);
    ThreeTermsVanish(Add, 0, Times, n, p, q, r, a, b, c);
  }

  lemma OnlyZeroToZero(n: nat, m: nat, u: Element)
    requires n == 1023 && Pow(Times, m, u) == 0
    ensures u == 0
  {
    OrderIsFull(n);
    ZeroStays(m);
    PowInjective(Times, n, m, u, 0);
  }

  lemma {:induction false} ZeroStays(m: nat)
    ensures Pow(Times, m, 0) == 0
  {
    if m > 0 { ZeroStays(m - 1); }
  }

  /** `v` and `w` agree except perhaps at three places. */
  ghost predicate DifferAt(v: seq<Symbol>, w: seq<Symbol>, a: nat, b: nat, c: nat) {
    && |v| == |w| && a < b < c < |v|
    && forall k :: 0 <= k < |v| && k != a && k != b && k != c ==> v[k] == w[k]
  }

  lemma NowhereDifferent(v: seq<Symbol>, w: seq<Symbol>, a: nat, b: nat, c: nat)
    requires DifferAt(v, w, a, b, c) && v[a] == w[a] && v[b] == w[b] && v[c] == w[c]
    ensures v == w
  {
  }

  lemma DifferenceOfThree(v: seq<Symbol>, w: seq<Symbol>, a: nat, b: nat, c: nat)
    requires DifferAt(v, w, a, b, c)
    ensures Sums(XorSymbol, v, w, ThreeIn(0, a, XorSymbol(v[a], w[a]), b - a - 1, XorSymbol(v[b], w[b]),
                                          c - b - 1, XorSymbol(v[c], w[c]), |v| - c - 1))
  {
    var d := ThreeIn(0, a, XorSymbol(v[a], w[a]), b - a - 1, XorSymbol(v[b], w[b]), c - b - 1,
                     XorSymbol(v[c], w[c]), |v| - c - 1);
    forall k | 0 <= k < |v| ensures d[k] == XorSymbol(v[k], w[k]) {
      XorSelf(v[k], w[k]);
    }
  }

  /**
   Up to three wrong symbols, no two of them 1023 or more places apart, always change the remainder,
   in lists of any length.
   */
  lemma ThreeErrorsAreDetected(start: bv32, v: seq<Symbol>, w: seq<Symbol>, a: nat, b: nat, c: nat)
    requires DifferAt(v, w, a, b, c) && c - a < 1023 && v != w
    ensures Remainder(start, v) != Remainder(start, w)
  {
    var x, y, z := XorSymbol(v[a], w[a]), XorSymbol(v[b], w[b]), XorSymbol(v[c], w[c]);
    var d := ThreeIn(0, a, x, b - a - 1, y, c - b - 1, z, |v| - c - 1);
    DifferenceOfThree(v, w, a, b, c);
    RunXor(start, start, v, w, d);
    XorToZero(start);
    XorToZero(Remainder(start, v));
    if Run(Step, 0, d) == 0 {
      ThreeSymbolsShow(a, x, b - a - 1, y, c - b - 1, z, |v| - c - 1);
      XorSelf(v[a], w[a]);
      XorSelf(v[b], w[b]);
      XorSelf(v[c], w[c]);
      NowhereDifferent(v, w, a, b, c);
    }
  }
}
