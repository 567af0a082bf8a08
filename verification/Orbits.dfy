/**
 Iterating a map that respects an exclusive-or, on a set where only zero has a short cycle.  The main
 lemma is the elimination behind a code of distance four: three terms whose sums vanish for three
 consecutive powers all vanish.
 */
module Orbits {
  import opened LinearFold

  function Pow<V>(t: V -> V, n: nat, v: V): V {
    if n == 0 then v else t(Pow(t, n - 1, v))
  }

  lemma {:induction false} PowAdd<V>(t: V -> V, m: nat, n: nat, v: V)
    ensures Pow(t, m + n, v) == Pow(t, m, Pow(t, n, v))
  {
    if m > 0 { PowAdd(t, m - 1, n, v); }
  }

  lemma {:induction false} PowXor<V(!new)>(xor: (V, V) -> V, t: V -> V, n: nat, v: V, w: V)
    requires Respects(xor, xor, t)
    ensures Pow(t, n, xor(v, w)) == xor(Pow(t, n, v), Pow(t, n, w))
  {
    if n > 0 { PowXor(xor, t, n - 1, v, w); }
  }

  /** A map that is a power of another. */
  ghost predicate IsPower<V(!new)>(t: V -> V, k: nat, s: V -> V) {
    forall v :: s(v) == Pow(t, k, v)
  }

  lemma PowerRespects<V(!new)>(xor: (V, V) -> V, t: V -> V, k: nat, s: V -> V)
    requires Respects(xor, xor, t) && IsPower(t, k, s)
    ensures Respects(xor, xor, s)
  {
    forall v, w ensures s(xor(v, w)) == xor(s(v), s(w)) {
      PowXor(xor, t, k, v, w);
    }
  }

  lemma {:induction false} PowPow<V(!new)>(t: V -> V, k: nat, s: V -> V, n: nat, v: V)
    requires IsPower(t, k, s)
    ensures Pow(s, n, v) == Pow(t, k * n, v)
  {
    if n > 0 {
      PowPow(t, k, s, n - 1, v);
      PowAdd(t, k, k * (n - 1), v);
      assert k * n == k + k * (n - 1);
    }
  }

  lemma {:induction false} PowFixed<V>(t: V -> V, d: nat, k: nat, v: V)
    requires Pow(t, d, v) == v
    ensures Pow(t, k * d, v) == v
  {
    if k > 0 {
      PowFixed(t, d, k - 1, v);
      PowAdd(t, (k - 1) * d, d, v);
      assert k * d == (k - 1) * d + d;
    }
  }

  // ---------- cycles ----------

  ghost predicate Cyclic<V(!new)>(t: V -> V, n: nat) {
    forall v :: Pow(t, n, v) == v
  }

  /** Nothing but zero returns in fewer than `n` rounds. */
  ghost predicate Free<V(!new)>(t: V -> V, zero: V, n: nat) {
    forall d: nat, v :: 0 < d < n && Pow(t, d, v) == v ==> v == zero
  }

  lemma Injective<V(!new)>(t: V -> V, n: nat, v: V, w: V)
    requires n > 0 && Cyclic(t, n) && t(v) == t(w)
    ensures v == w
  {
    PowAdd(t, n - 1, 1, v);
    PowAdd(t, n - 1, 1, w);
    assert Pow(t, 1, v) == t(Pow(t, 0, v)) && Pow(t, 1, w) == t(Pow(t, 0, w));
  }

  lemma {:induction false} PowInjective<V(!new)>(t: V -> V, n: nat, k: nat, v: V, w: V)
    requires n > 0 && Cyclic(t, n) && Pow(t, k, v) == Pow(t, k, w)
    ensures v == w
    decreases k
  {
    if k > 0 {
      Injective(t, n, Pow(t, k - 1, v), Pow(t, k - 1, w));
      PowInjective(t, n, k - 1, v, w);
    }
  }

  /** Two different powers agree only on zero. */
  lemma ApartOnNonZero<V(!new)>(t: V -> V, zero: V, n: nat, p: nat, q: nat, v: V)
    requires Cyclic(t, n) && Free(t, zero, n) && q < p < q + n && Pow(t, p, v) == Pow(t, q, v)
    ensures v == zero
  {
    var d := p - q;
    PowAdd(t, q, d, v);
    assert q + d == p;
    PowInjective(t, n, q, Pow(t, d, v), v);
  }

  /** A multiple of one period is a full number of cycles and some more: the rest is a period too. */
  lemma PeriodOfRest<V(!new)>(t: V -> V, n: nat, d: nat, x: nat, k: nat, rest: nat, v: V)
    requires Cyclic(t, n) && Pow(t, d, v) == v && x * d == k * n + rest
    ensures Pow(t, rest, v) == v
  {
    PowFixed(t, d, x, v);
    PowAdd(t, k * n, rest, v);
    PowFixed(t, n, k, Pow(t, rest, v));
  }

  // ---------- three terms ----------

  ghost predicate ZeroOf<V(!new)>(xor: (V, V) -> V, zero: V) {
    forall v :: xor(v, v) == zero && xor(v, zero) == v
  }

  lemma SumsSwap<V(!new)>(xor: (V, V) -> V, a: V, b: V, c: V, d: V)
    requires IsXor(xor) && xor(a, b) == xor(c, d)
    ensures xor(a, c) == xor(b, d)
  {
    XorPairs(xor, a, c, b);
    XorPairs(xor, b, d, c);
    assert xor(xor(a, b), xor(c, b)) == xor(xor(c, d), xor(c, b));
    assert xor(xor(c, d), xor(c, b)) == xor(xor(d, c), xor(b, c));
    XorPairs(xor, d, b, c);
  }

  lemma EqualIfSumIsZero<V(!new)>(xor: (V, V) -> V, zero: V, a: V, b: V)
    requires IsXor(xor) && ZeroOf(xor, zero) && xor(a, b) == zero
    ensures a == b
  {
    assert xor(xor(a, b), b) == a;
    assert xor(zero, b) == xor(b, zero);
  }

  /** The three sums with powers 0, 1 and 2 of the terms' own powers. */
  ghost predicate SumsVanish<V>(xor: (V, V) -> V, t: V -> V, p: nat, q: nat, r: nat, a: V, b: V, c: V) {
    && a == xor(b, c)
    && Pow(t, p, a) == xor(Pow(t, q, b), Pow(t, r, c))
    && Pow(t, p, Pow(t, p, a)) == xor(Pow(t, q, Pow(t, q, b)), Pow(t, r, Pow(t, r, c)))
  }

  lemma PowersCommute<V>(t: V -> V, m: nat, n: nat, v: V)
    ensures Pow(t, m, Pow(t, n, v)) == Pow(t, n, Pow(t, m, v))
  {
    PowAdd(t, m, n, v);
    PowAdd(t, n, m, v);
  }

  /** Subtracting `p` times the first sum from the second leaves the same amount of `b` and of `c`. */
  lemma FirstElimination<V(!new)>(xor: (V, V) -> V, t: V -> V, p: nat, q: nat, r: nat, a: V, b: V, c: V)
    requires IsXor(xor) && Respects(xor, xor, t) && SumsVanish(xor, t, p, q, r, a, b, c)
    ensures xor(Pow(t, q, b), Pow(t, p, b)) == xor(Pow(t, r, c), Pow(t, p, c))
  {
    PowXor(xor, t, p, b, c);
    SumsSwap(xor, Pow(t, q, b), Pow(t, r, c), Pow(t, p, b), Pow(t, p, c));
  }

  /** And `p` times the second from the third leaves these amounts at their own powers. */
  lemma SecondElimination<V(!new)>(xor: (V, V) -> V, t: V -> V, p: nat, q: nat, r: nat, a: V, b: V, c: V)
    requires IsXor(xor) && Respects(xor, xor, t) && SumsVanish(xor, t, p, q, r, a, b, c)
    ensures Pow(t, q, xor(Pow(t, q, b), Pow(t, p, b))) == Pow(t, r, xor(Pow(t, r, c), Pow(t, p, c)))
  {
    PowXor(xor, t, p, Pow(t, q, b), Pow(t, r, c));
    PowersCommute(t, p, q, b);
    PowersCommute(t, p, r, c);
    SumsSwap(xor, Pow(t, q, Pow(t, q, b)), Pow(t, r, Pow(t, r, c)), Pow(t, q, Pow(t, p, b)), Pow(t, r, Pow(t, p, c)));
    PowXor(xor, t, q, Pow(t, q, b), Pow(t, p, b));
    PowXor(xor, t, r, Pow(t, r, c), Pow(t, p, c));
  }

  /** Three terms at different powers whose three sums vanish are all zero. */
  lemma ThreeTermsVanish<V(!new)>(xor: (V, V) -> V, zero: V, t: V -> V, n: nat, p: nat, q: nat, r: nat,
                                  a: V, b: V, c: V)
    requires IsXor(xor) && ZeroOf(xor, zero) && Respects(xor, xor, t) && Cyclic(t, n) && Free(t, zero, n)
    requires r < q < p < r + n && SumsVanish(xor, t, p, q, r, a, b, c)
    ensures a == zero && b == zero && c == zero
  {
    FirstElimination(xor, t, p, q, r, a, b, c);
    SecondElimination(xor, t, p, q, r, a, b, c);
    ApartOnNonZero(t, zero, n, q, r, xor(Pow(t, q, b), Pow(t, p, b)));
    EqualIfSumIsZero(xor, zero, Pow(t, q, b), Pow(t, p, b));
    EqualIfSumIsZero(xor, zero, Pow(t, r, c), Pow(t, p, c));
    ApartOnNonZero(t, zero, n, p, q, b);
    ApartOnNonZero(t, zero, n, p, r, c);
  }

  // ---------- lists evaluated from their first symbol on ----------

  function Absorb<V, S>(xor: (V, V) -> V, t: V -> V, embed: S -> V): (V, S) -> V {
    (a: V, x: S) => xor(t(a), embed(x))
  }

  function Blank<S>(o: S, n: nat): (r: seq<S>)
    ensures |r| == n
  {
    seq(n, _ => o)
  }

  datatype Law = Exclusive | Neutral | Additive | Empty

  ghost predicate Obeys<V(!new), S>(law: Law, xor: (V, V) -> V, zero: V, t: V -> V, embed: S -> V, o: S) {
    match law
    case Exclusive => IsXor(xor)
    case Neutral => ZeroOf(xor, zero)
    case Additive => Respects(xor, xor, t)
    case Empty => embed(o) == zero
  }

  /** What the lemmas below ask of the map and the embedding. */
  ghost predicate Evaluates<V(!new), S>(xor: (V, V) -> V, zero: V, t: V -> V, embed: S -> V, o: S) {
    forall law :: Obeys(law, xor, zero, t, embed, o)
  }

  lemma ZeroFacts<V(!new), S>(xor: (V, V) -> V, zero: V, t: V -> V, embed: S -> V, o: S, v: V)
    requires Evaluates(xor, zero, t, embed, o)
    ensures embed(o) == zero && t(zero) == zero && xor(zero, v) == v && xor(v, zero) == v
  {
    assert Obeys(Empty, xor, zero, t, embed, o);
    assert xor(zero, v) == xor(v, zero) == v by {
      assert Obeys(Neutral, xor, zero, t, embed, o);
      assert Obeys(Exclusive, xor, zero, t, embed, o);
    }
    assert t(zero) == zero by {
      assert Obeys(Neutral, xor, zero, t, embed, o);
      assert Obeys(Additive, xor, zero, t, embed, o);
      assert t(xor(zero, zero)) == xor(t(zero), t(zero));
    }
  }

  lemma {:induction false} PowZero<V(!new), S>(xor: (V, V) -> V, zero: V, t: V -> V, embed: S -> V, o: S, n: nat)
    requires Evaluates(xor, zero, t, embed, o)
    ensures Pow(t, n, zero) == zero
  {
    if n > 0 {
      PowZero(xor, zero, t, embed, o, n - 1);
      ZeroFacts(xor, zero, t, embed, o, zero);
    }
  }

  lemma PowSum<V(!new), S>(xor: (V, V) -> V, zero: V, t: V -> V, embed: S -> V, o: S, n: nat, v: V, w: V)
    requires Evaluates(xor, zero, t, embed, o)
    ensures Pow(t, n, xor(v, w)) == xor(Pow(t, n, v), Pow(t, n, w))
  {
    assert Obeys(Additive, xor, zero, t, embed, o);
    PowXor(xor, t, n, v, w);
  }

  lemma {:induction false} AbsorbBlank<V(!new), S>(xor: (V, V) -> V, zero: V, t: V -> V, embed: S -> V, o: S,
                                                   a: V, n: nat)
    requires Evaluates(xor, zero, t, embed, o)
    ensures Run(Absorb(xor, t, embed), a, Blank(o, n)) == Pow(t, n, a)
  {
    if n > 0 {
      assert Blank(o, n)[..n - 1] == Blank(o, n - 1);
      AbsorbBlank(xor, zero, t, embed, o, a, n - 1);
      ZeroFacts(xor, zero, t, embed, o, Pow(t, n, a));
    }
  }

  lemma OneMore<V(!new), S>(xor: (V, V) -> V, zero: V, t: V -> V, embed: S -> V, o: S, s: seq<S>, x: S, n: nat)
    requires Evaluates(xor, zero, t, embed, o)
    ensures var f := Absorb(xor, t, embed);
            Run(f, zero, s + [x] + Blank(o, n)) == xor(Pow(t, n + 1, Run(f, zero, s)), Pow(t, n, embed(x)))
  {
    var f := Absorb(xor, t, embed);
    var a := Run(f, zero, s);
    RunAppend(f, zero, s + [x], Blank(o, n));
    assert (s + [x])[..|s|] == s;
    AbsorbBlank(xor, zero, t, embed, o, xor(t(a), embed(x)), n);
    PowSum(xor, zero, t, embed, o, n, t(a), embed(x));
    PowAdd(t, n, 1, a);
    assert Pow(t, 1, a) == t(Pow(t, 0, a));
  }

  /** A list of zeros but for two symbols, and but for three. */
  function TwoIn<S>(o: S, before: nat, x: S, i: nat, y: S, j: nat): (r: seq<S>)
    ensures |r| == before + i + j + 2
  {
    Blank(o, before) + [x] + Blank(o, i) + [y] + Blank(o, j)
  }

  function ThreeIn<S>(o: S, before: nat, x: S, i: nat, y: S, j: nat, z: S, after: nat): (r: seq<S>)
    ensures |r| == before + i + j + after + 3
  {
    TwoIn(o, before, x, i, y, j) + [z] + Blank(o, after)
  }

  lemma TwoEvaluate<V(!new), S>(xor: (V, V) -> V, zero: V, t: V -> V, embed: S -> V, o: S,
                                before: nat, x: S, i: nat, y: S, j: nat)
    requires Evaluates(xor, zero, t, embed, o)
    ensures Run(Absorb(xor, t, embed), zero, TwoIn(o, before, x, i, y, j))
         == xor(Pow(t, i + j + 1, embed(x)), Pow(t, j, embed(y)))
  {
    AbsorbBlank(xor, zero, t, embed, o, zero, before);
    PowZero(xor, zero, t, embed, o, before);
    OneMore(xor, zero, t, embed, o, Blank(o, before), x, i);
    PowZero(xor, zero, t, embed, o, i + 1);
    ZeroFacts(xor, zero, t, embed, o, Pow(t, i, embed(x)));
    OneMore(xor, zero, t, embed, o, Blank(o, before) + [x] + Blank(o, i), y, j);
    PowAdd(t, j + 1, i, embed(x));
  }

  lemma ThreeEvaluate<V(!new), S>(xor: (V, V) -> V, zero: V, t: V -> V, embed: S -> V, o: S, all: seq<S>,
                                  before: nat, x: S, i: nat, y: S, j: nat, z: S, after: nat, p: nat, q: nat)
    requires Evaluates(xor, zero, t, embed, o) && all == ThreeIn(o, before, x, i, y, j, z, after)
    requires p == after + 1 + (i + j + 1) && q == after + 1 + j
    ensures Run(Absorb(xor, t, embed), zero, all)
         == xor(xor(Pow(t, p, embed(x)), Pow(t, q, embed(y))), Pow(t, after, embed(z)))
  {
    var two := TwoIn(o, before, x, i, y, j);
    TwoEvaluate(xor, zero, t, embed, o, before, x, i, y, j);
    OneMore(xor, zero, t, embed, o, two, z, after);
    TwoMoved(xor, zero, t, embed, o, i + j + 1, embed(x), j, embed(y), after + 1, p, q);
  }

  lemma TwoMoved<V(!new), S>(xor: (V, V) -> V, zero: V, t: V -> V, embed: S -> V, o: S,
                             m: nat, v: V, k: nat, w: V, n: nat, p: nat, q: nat)
    requires Evaluates(xor, zero, t, embed, o) && p == n + m && q == n + k
    ensures Pow(t, n, xor(Pow(t, m, v), Pow(t, k, w))) == xor(Pow(t, p, v), Pow(t, q, w))
  {
    PowSum(xor, zero, t, embed, o, n, Pow(t, m, v), Pow(t, k, w));
    PowAdd(t, n, m, v);
    PowAdd(t, n, k, w);
  }
}
