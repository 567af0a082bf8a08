/** Folding symbols into a state whose addition is an exclusive-or. */
module LinearFold {

  ghost predicate Associative<T(!new)>(xor: (T, T) -> T) {
    forall x, y, z :: xor(xor(x, y), z) == xor(x, xor(y, z))
  }

  ghost predicate Commutative<T(!new)>(xor: (T, T) -> T) {
    forall x, y :: xor(x, y) == xor(y, x)
  }

  ghost predicate Cancels<T(!new)>(xor: (T, T) -> T) {
    forall x, y :: xor(xor(x, y), y) == x
  }

  ghost predicate IsXor<T(!new)>(xor: (T, T) -> T) {
    Associative(xor) && Commutative(xor) && Cancels(xor)
  }

  function Tap<T>(xor: (T, T) -> T, c: T, on: bool, g: T): T {
    if on then xor(c, g) else c
  }

  /** The first `n` conditional additions, by the flags of `out`. */
  function Reduce<T, O>(xor: (T, T) -> T, flag: (O, nat) -> bool, gen: nat -> T, c: T, out: O, n: nat): T {
    if n == 0 then c else
      Tap(xor, Reduce(xor, flag, gen, c, out, n - 1), flag(out, n - 1), gen(n - 1))
  }

  lemma XorPairs<T(!new)>(xor: (T, T) -> T, x: T, y: T, g: T)
    requires IsXor(xor)
    ensures xor(x, y) == xor(xor(x, g), xor(y, g))
    ensures xor(xor(x, y), g) == xor(x, xor(y, g)) == xor(xor(x, g), y)
  {
    assert xor(xor(x, g), xor(y, g)) == xor(x, xor(g, xor(y, g)));
    assert xor(xor(x, g), y) == xor(x, xor(g, y));
  }

  lemma XorFour<T(!new)>(xor: (T, T) -> T, a: T, b: T, c: T, d: T)
    requires IsXor(xor)
    ensures xor(xor(a, b), xor(c, d)) == xor(xor(a, c), xor(b, d))
  {
    assert xor(xor(a, b), xor(c, d)) == xor(a, xor(b, xor(c, d)));
    assert xor(b, xor(c, d)) == xor(xor(b, c), d) == xor(xor(c, b), d) == xor(c, xor(b, d));
    assert xor(xor(a, c), xor(b, d)) == xor(a, xor(c, xor(b, d)));
  }

  lemma TapLinear<T(!new)>(xor: (T, T) -> T, x: T, y: T, s: bool, t: bool, g: T)
    requires IsXor(xor)
    ensures Tap(xor, xor(x, y), s != t, g) == xor(Tap(xor, x, s, g), Tap(xor, y, t, g))
  {
    XorPairs(xor, x, y, g);
  }

  ghost predicate FlagsAdd<T(!new)>(xor: (T, T) -> T, flag: (T, nat) -> bool) {
    forall s, t, i :: flag(xor(s, t), i) == (flag(s, i) != flag(t, i))
  }

  lemma {:induction false} ReduceLinear<T(!new)>(xor: (T, T) -> T, flag: (T, nat) -> bool, gen: nat -> T,
                                                 x: T, y: T, s: T, t: T, n: nat)
    requires IsXor(xor) && FlagsAdd(xor, flag)
    ensures Reduce(xor, flag, gen, xor(x, y), xor(s, t), n)
         == xor(Reduce(xor, flag, gen, x, s, n), Reduce(xor, flag, gen, y, t, n))
  {
    if n > 0 {
      ReduceLinear(xor, flag, gen, x, y, s, t, n - 1);
      TapLinear(xor, Reduce(xor, flag, gen, x, s, n - 1), Reduce(xor, flag, gen, y, t, n - 1),
                flag(s, n - 1), flag(t, n - 1), gen(n - 1));
    }
  }

  ghost predicate Respects<T(!new), U>(xor: (T, T) -> T, yor: (U, U) -> U, f: T -> U) {
    forall x, y :: f(xor(x, y)) == yor(f(x), f(y))
  }

  ghost predicate Agrees<T, U>(f: T -> U, gen: nat -> T, hen: nat -> U, n: nat) {
    forall i: nat :: i < n ==> f(gen(i)) == hen(i)
  }

  /** Additions seen through a map that respects exclusive-or. */
  lemma {:induction false} ReduceMaps<T(!new), U, O>(xor: (T, T) -> T, yor: (U, U) -> U, f: T -> U,
      flag: (O, nat) -> bool, gen: nat -> T, hen: nat -> U, c: T, out: O, n: nat)
    requires Respects(xor, yor, f) && Agrees(f, gen, hen, n)
    ensures f(Reduce(xor, flag, gen, c, out, n)) == Reduce(yor, flag, hen, f(c), out, n)
  {
    if n > 0 {
      ReduceMaps(xor, yor, f, flag, gen, hen, c, out, n - 1);
      assert f(gen(n - 1)) == hen(n - 1);
    }
  }

  lemma ReduceFive<T>(xor: (T, T) -> T, flag: (T, nat) -> bool, gen: nat -> T, c: T, out: T)
    ensures Reduce(xor, flag, gen, c, out, 5)
         == Tap(xor, Tap(xor, Tap(xor, Tap(xor, Tap(xor, c, flag(out, 0), gen(0)), flag(out, 1), gen(1)),
                                  flag(out, 2), gen(2)), flag(out, 3), gen(3)), flag(out, 4), gen(4))
  {
    var r1 := Reduce(xor, flag, gen, c, out, 1);
    var r2 := Reduce(xor, flag, gen, c, out, 2);
    var r3 := Reduce(xor, flag, gen, c, out, 3);
    var r4 := Reduce(xor, flag, gen, c, out, 4);
    assert r1 == Tap(xor, c, flag(out, 0), gen(0));
    assert r2 == Tap(xor, r1, flag(out, 1), gen(1));
    assert r3 == Tap(xor, r2, flag(out, 2), gen(2));
    assert r4 == Tap(xor, r3, flag(out, 3), gen(3));
  }

  /** The state after a list of symbols, starting from `c`. */
  function Run<S, V>(step: (S, V) -> S, c: S, v: seq<V>): S {
    if v == [] then c else step(Run(step, c, v[..|v| - 1]), v[|v| - 1])
  }

  lemma {:induction false} RunAppend<S, V>(step: (S, V) -> S, c: S, v: seq<V>, w: seq<V>)
    ensures Run(step, c, v + w) == Run(step, Run(step, c, v), w)
    decreases |w|
  {
    if w == [] {
      assert v + w == v;
    } else {
      var n := |w| - 1;
      RunAppend(step, c, v, w[..n]);
      assert (v + w)[..|v + w| - 1] == v + w[..n];
    }
  }

  lemma RunSix<S, V>(step: (S, V) -> S, c: S, s: seq<V>)
    requires |s| == 6
    ensures Run(step, c, s) == step(step(step(step(step(step(c, s[0]), s[1]), s[2]), s[3]), s[4]), s[5])
  {
    assert s[..5][..4] == s[..4] && s[..4][..3] == s[..3] && s[..3][..2] == s[..2] && s[..2][..1] == s[..1];
    assert Run(step, c, s[..1]) == step(c, s[0]);
    assert Run(step, c, s[..2]) == step(Run(step, c, s[..1]), s[1]);
    assert Run(step, c, s[..3]) == step(Run(step, c, s[..2]), s[2]);
    assert Run(step, c, s[..4]) == step(Run(step, c, s[..3]), s[3]);
    assert Run(step, c, s[..5]) == step(Run(step, c, s[..4]), s[4]);
  }

  ghost predicate IsLinear<S(!new), V(!new)>(xor: (S, S) -> S, vxor: (V, V) -> V, step: (S, V) -> S) {
    forall a, b, v, w :: step(xor(a, b), vxor(v, w)) == xor(step(a, v), step(b, w))
  }

  ghost predicate Sums<V>(vxor: (V, V) -> V, v: seq<V>, w: seq<V>, d: seq<V>) {
    |v| == |w| == |d| && forall i :: 0 <= i < |d| ==> d[i] == vxor(v[i], w[i])
  }

  /** A fold with a linear step is linear in the whole list. */
  lemma {:induction false} RunLinear<S(!new), V(!new)>(xor: (S, S) -> S, vxor: (V, V) -> V, step: (S, V) -> S,
                                                       a: S, b: S, v: seq<V>, w: seq<V>, d: seq<V>)
    requires IsLinear(xor, vxor, step) && Sums(vxor, v, w, d)
    ensures Run(step, xor(a, b), d) == xor(Run(step, a, v), Run(step, b, w))
    decreases |v|
  {
    if v != [] {
      var n := |v| - 1;
      RunLinear(xor, vxor, step, a, b, v[..n], w[..n], d[..n]);
    }
  }
}
