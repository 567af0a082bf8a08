/** The time a difference in work stands for at the tip's rate (src/chain.cpp). */
module EquivalentTime {
  import opened Basics
  import opened Bits
  import opened Limbs
  import opened Division
  import opened Multiplication
  import opened CompactTarget

  const INT64_MAX: nat := 0x7fff_ffff_ffff_ffff

  function Distance(a: nat, b: nat): nat { if a > b then a - b else b - a }

  function Signed(more: bool, s: int): int { if more then s else -s }

  /** The seconds, before the sign: the product is taken modulo 2^256, the quotient rounded and capped. */
  function Seconds(work: nat, spacing: nat, proof: nat): nat
    requires proof > 0
  {
    Min(work * spacing % TWO_TO_256 / proof, INT64_MAX)
  }

  /** None is the exception of a division by zero. */
  function TimeOf(to: nat, from: nat, spacing: nat, proof: nat): Option<int> {
    if proof == 0 then None else Some(Signed(to > from, Seconds(Distance(to, from), spacing, proof)))
  }

  /** There and back take the same time with opposite signs. */
  lemma TimeIsAntisymmetric(a: nat, b: nat, spacing: nat, proof: nat)
    requires proof > 0
    ensures TimeOf(a, b, spacing, proof).value == -TimeOf(b, a, spacing, proof).value
  {
    if a == b { assert 0 * spacing == 0; }
  }

  /** A block's proof is at most half of 2^256. */
  lemma ProofBound(c: uint32)
    ensures 0 <= BlockProof(c) && 2 * BlockProof(c) <= TWO_TO_256
  {
    if 0 < CompactValue(c) < TWO_TO_256 { HalfAtMost(TWO_TO_256, CompactValue(c) + 1); }
  }

  lemma HalfAtMost(m: nat, d: nat)
    requires d >= 2
    ensures 0 <= m / d && 2 * (m / d) <= m
  {
    var q, r := m / d, m % d;
    assert m == q * d + r;
    assert q * d == 2 * q + q * (d - 2);
  }

  /** The product's wrap-around is harmless exactly when there is none: it always changes the quotient. */
  lemma WrapShows(work: nat, spacing: nat, c: uint32)
    requires BlockProof(c) > 0
    ensures work * spacing % TWO_TO_256 / BlockProof(c) == work * spacing / BlockProof(c)
            <==> work * spacing < TWO_TO_256
  {
    ProofBound(c);
    MulBound(work, spacing, work + spacing);
    QuotientOfRest(work * spacing, TWO_TO_256, BlockProof(c));
  }

  lemma QuotientOfRest(x: nat, m: nat, p: nat)
    requires 0 < p && 2 * p <= m
    ensures x % m / p == x / p <==> x < m
  {
    var q, r := x / m, x % m;
    assert x == q * m + r;
    if x < m {
      ModIsUnique(x, 0, m, x);
    } else {
      QuotientGrows(0, x, m);
      MulAtLeast(q, m);
      QuotientGrows(r, x, p);
    }
  }

  lemma QuotientGrows(r: nat, x: nat, p: nat)
    requires p > 0 && r + p <= x
    ensures 0 <= r / p < x / p
  {
    var a, b := r / p, x / p;
    assert r == a * p + r % p && x == b * p + x % p;
    assert (a - b) * p == a * p - b * p;
    if a > b { MulAtLeast(a - b, p); }
  }

  /** `arith_uint256(b)` for a 64-bit number. */
  method FromUint64(b: nat) returns (pn: array<uint32>)
    requires b < TWO_TO_64
    ensures fresh(pn) && pn.Length == WIDTH && Value(pn[..]) == b
  {
    pn := new uint32[WIDTH](_ => 0);
    pn[0] := b % BASE;
    pn[1] := b / BASE;
    TopIsPrefix(pn[..], 2);
    assert Prefix(pn[..], 1) == pn[0];
    Lsh32(pn[1]);
  }

  /** The absolute difference, and whether `to` has more work. */
  method Difference(to: array<uint32>, from: array<uint32>) returns (r: array<uint32>, more: bool)
    requires to.Length == from.Length == WIDTH
    ensures fresh(r) && r.Length == WIDTH
    ensures Value(r[..]) == Distance(Value(to[..]), Value(from[..]))
    ensures more == (Value(to[..]) > Value(from[..]))
  {
    var c := CompareTo(to, from);
    more := c > 0;
    if more {
      r := Copy(to);
      SubtractNoWrap(r, from);
    } else {
      r := Copy(from);
      SubtractNoWrap(r, to);
    }
  }

  /** `r * rate / proof`, cut to what an int64_t holds. */
  method Scale(r: array<uint32>, rate: array<uint32>, proof: array<uint32>) returns (ok: bool, s: nat)
    requires r.Length == rate.Length == proof.Length == WIDTH && r != rate && r != proof
    modifies r
    ensures ok == (Value(proof[..]) != 0)
    ensures ok ==> s == Seconds(old(Value(r[..])), Value(rate[..]), Value(proof[..]))
  {
    ModulusIs(r.Length);
    MulAssign(r, rate);
    var divided, _ := DivAssign(r, proof);
    if !divided { return false, 0; }
    ok := true;
    var bits := BitLength(r);
    CapBits(Value(r[..]), bits, 63);
    s := INT64_MAX;
    if bits <= 63 {
      Low64IsValue(r[..]);
      s := GetLow64(r[..]);
    }
  }

  method GetBlockProofEquivalentTime(to: array<uint32>, from: array<uint32>, tipBits: uint32, spacing: nat)
    returns (seconds: Option<int>)
    requires to.Length == from.Length == WIDTH && spacing < TWO_TO_64
    ensures BlockProof(tipBits) >= 0
    ensures seconds == TimeOf(Value(to[..]), Value(from[..]), spacing, BlockProof(tipBits))
  {
    var r, more := Difference(to, from);
    var rate := FromUint64(spacing);
    var proof := GetBlockProof(tipBits);
    var ok, s := Scale(r, rate, proof);
    seconds := if ok then Some(Signed(more, s)) else None;
  }

  /** A number has at most 63 bits exactly when an int64_t can hold it. */
  lemma CapBits(n: nat, bits: nat, k: nat)
    requires IsBitLength(n, bits) && k == 63
    ensures bits <= k <==> n <= INT64_MAX
  {
    Pow2At64(k + 1);
    if bits <= k { Pow2Monotone(bits, k); } else { Pow2Monotone(k, bits - 1); }
  }
}
