/**
 Base58 (src/base58.cpp): both directions change base in place in a buffer whose size is estimated
 from a rounded logarithm.  The buffers always suffice, so the two assertions on the carry hold, and
 the two directions undo each other.
 */
module Base58 {
  import opened Basics
  import opened Digits

  type byte = n: nat | n < 256

  // ---------- one digit into a buffer ----------

  /** The buffer holds `v` in its last `length` digits, without a leading zero; the rest is zero. */
  ghost predicate Holds(base: nat, d: seq<nat>, length: nat, v: nat) {
    && length <= |d|
    && AreDigits(base, d)
    && (forall i :: 0 <= i < |d| - length ==> d[i] == 0)
    && (length > 0 ==> d[|d| - length] != 0)
    && Number(base, d) == v
  }

  lemma HoldsDigits(base: nat, d: seq<nat>, length: nat, v: nat)
    requires base >= 2 && Holds(base, d, length, v)
    ensures d[|d| - length..] == ToDigits(base, v)
  {
    var k := |d| - length;
    LeadingZeros(base, d, k);
    DigitsAreUnique(base, d[k..]);
  }

  /** The last `i` digits hold the low part of the product; the carry is what is still to add. */
  ghost predicate Partial(from: nat, to: nat, ch: nat, was: seq<nat>, d: seq<nat>, i: nat, carry: nat) {
    && |d| == |was| && i <= |d|
    && d[..|d| - i] == was[..|d| - i]
    && Number(to, d[|d| - i..]) + carry * Pow(to, i) == from * Number(to, was[|d| - i..]) + ch
  }

  lemma PartialArith(from: nat, to: nat, ch: nat, old_: nat, new_: nat, p: nat, x: nat, carry: nat, sum: nat)
    requires to >= 1 && new_ + carry * p == from * old_ + ch
    requires sum == carry + from * x
    ensures (sum % to) * p + new_ + (sum / to) * (to * p) == from * (x * p + old_) + ch
  {
    DivMod(sum, to);
    var q, r := sum / to, sum % to;
    assert q * (to * p) == (q * to) * p;
    assert r * p + (q * to) * p == sum * p;
    assert sum * p == carry * p + (from * x) * p;
    assert (from * x) * p == from * (x * p);
    assert from * (x * p + old_) == from * (x * p) + from * old_;
  }

  lemma ConsNumber(base: nat, x: nat, d: seq<nat>)
    ensures Number(base, [x] + d) == x * Pow(base, |d|) + Number(base, d)
  {
    NumberAppend(base, [x], d);
    assert Number(base, [x]) == x by { assert [x][..0] == []; }
  }

  lemma PartialStep(from: nat, to: nat, ch: nat, was: seq<nat>, d: seq<nat>, i: nat, carry: nat, sum: nat)
    requires to >= 1 && Partial(from, to, ch, was, d, i, carry) && i < |d|
    requires sum == carry + from * d[|d| - 1 - i]
    ensures Partial(from, to, ch, was, d[|d| - 1 - i := sum % to], i + 1, sum / to)
  {
    var k := |d| - 1 - i;
    var e := d[k := sum % to];
    assert was[k] == was[..k + 1][k] == d[k];
    assert was[k..] == [was[k]] + was[k + 1..] && e[k..] == [e[k]] + d[k + 1..];
    ConsNumber(to, was[k], was[k + 1..]);
    ConsNumber(to, e[k], d[k + 1..]);
    PartialArith(from, to, ch, Number(to, was[k + 1..]), Number(to, d[k + 1..]), Pow(to, i), d[k], carry, sum);
    assert e[..k] == d[..k] == d[..k + 1][..k] == was[..k];
  }

  lemma CarryIsZero(x: nat, carry: nat, p: nat, w: nat)
    requires x + carry * p == w && w < p
    ensures carry == 0 && x == w
  {
    if carry > 0 {
      MulMono(1, p, carry, p);
    }
  }

  /** Where the loop stops, nothing is left to carry and the buffer holds the whole product. */
  lemma PartialEnds(from: nat, to: nat, ch: nat, was: seq<nat>, d: seq<nat>, i: nat, carry: nat, length: nat, v: nat)
    requires to >= 2 && Partial(from, to, ch, was, d, i, carry) && Holds(to, was, length, v)
    requires from * v + ch < Pow(to, |d|)
    requires i == |d| || (carry == 0 && i >= length)
    ensures carry == 0 && Number(to, d) == from * v + ch
  {
    var k := |d| - i;
    if i == |d| {
      assert d[0..] == d && was[0..] == was;
      CarryIsZero(Number(to, d), carry, Pow(to, i), from * v + ch);
    } else {
      assert forall j :: 0 <= j < k ==> d[j] == d[..k][j] == was[..k][j] == was[j];
      LeadingZeros(to, d, k);
      LeadingZeros(to, was, k);
    }
  }

  lemma TopDigit(from: nat, to: nat, carry: nat, x: nat, sum: nat)
    requires to >= 2 && from >= 1 && sum == carry + from * x
    ensures carry != 0 || x != 0 ==> sum != 0
    ensures sum != 0 && sum / to == 0 ==> sum % to != 0
  {
    DivMod(sum, to);
    if x != 0 {
      MulMono(1, 1, from, x);
    }
  }

  /** The state of the loop: a partial product of digits, its top digit not zero once it is done. */
  ghost predicate Working(from: nat, to: nat, ch: nat, was: seq<nat>, length: nat, d: seq<nat>, i: nat, carry: nat) {
    && Partial(from, to, ch, was, d, i, carry)
    && AreDigits(to, d)
    && (i > 0 && i >= length && carry == 0 ==> d[|d| - i] != 0)
    && (i == 0 ==> carry == ch)
  }

  function Total(carry: nat, from: nat, x: nat): nat { carry + from * x }

  function Carry(sum: nat, to: nat): nat
    requires to >= 2
  {
    DivMod(sum, to);
    sum / to
  }

  function Digit(sum: nat, to: nat): nat
    requires to >= 2
  {
    sum % to
  }

  lemma WorkingStep(from: nat, to: nat, ch: nat, was: seq<nat>, length: nat, v: nat, d: seq<nat>, i: nat,
                    carry: nat, sum: nat)
    requires to >= 2 && from >= 1 && Holds(to, was, length, v)
    requires Working(from, to, ch, was, length, d, i, carry) && i < |d| && (carry != 0 || i < length)
    requires sum == Total(carry, from, d[|d| - 1 - i])
    ensures Working(from, to, ch, was, length, d[|d| - 1 - i := Digit(sum, to)], i + 1, Carry(sum, to))
  {
    var k := |d| - 1 - i;
    PartialStep(from, to, ch, was, d, i, carry, sum);
    TopDigit(from, to, carry, d[k], sum);
    assert d[k] == d[..k + 1][k] == was[k];
    DivMod(sum, to);
  }

  lemma WorkingEnds(from: nat, to: nat, ch: nat, was: seq<nat>, length: nat, v: nat, d: seq<nat>, i: nat, carry: nat)
    requires to >= 2 && Working(from, to, ch, was, length, d, i, carry) && Holds(to, was, length, v)
    requires from * v + ch < Pow(to, |d|)
    requires i == |d| || (carry == 0 && i >= length)
    ensures carry == 0 && length <= i && Holds(to, d, i, from * v + ch)
  {
    PartialEnds(from, to, ch, was, d, i, carry, length, v);
    assert forall j :: 0 <= j < |d| - i ==> d[j] == d[..|d| - i][j] == was[j];
  }

  /** Multiply the buffer by `from` and add `ch`, from the last digit up. */
  method Absorb(b: array<nat>, length: nat, from: nat, to: nat, ch: nat, ghost v: nat) returns (newLength: nat)
    requires to >= 2 && from >= 1
    requires Holds(to, b[..], length, v)
    requires from * v + ch < Pow(to, b.Length)
    modifies b
    ensures Holds(to, b[..], newLength, from * v + ch)
    ensures length <= newLength
  {
    var carry: nat := ch;
    var i: nat := 0;
    ghost var was: seq<nat> := b[..];
    assert was[|was|..] == [];
    while (carry != 0 || i < length) && i < b.Length
      invariant i <= b.Length
      invariant Working(from, to, ch, was, length, b[..], i, carry)
      decreases b.Length - i
    {
      ghost var d: seq<nat> := b[..];
      var k := b.Length - 1 - i;
      var sum := Total(carry, from, b[k]);
      WorkingStep(from, to, ch, was, length, v, d, i, carry, sum);
      b[k] := Digit(sum, to);
      assert b[..] == d[k := Digit(sum, to)];
      carry := Carry(sum, to);
      i := i + 1;
    }
    WorkingEnds(from, to, ch, was, length, v, b[..], i, carry);
    assert carry == 0;
    newLength := i;
  }

  // ---------- the buffers suffice ----------

  function EncodeSize(n: nat): nat { n * 138 / 100 + 1 }

  function DecodeSize(n: nat): nat { n * 733 / 1000 + 1 }

  lemma PowOfPow(base: nat, m: nat, k: nat, product: nat)
    requires product == m * k
    ensures Pow(Pow(base, m), k) == Pow(base, product)
  {
    PowMul(base, m, k);
  }

  lemma PowChain(x: nat, y: nat, a: nat, b: nat, n: nat, size: nat, an: nat, bn: nat, sa: nat)
    requires a >= 1 && y >= 1 && Pow(x, a) <= Pow(y, b)
    requires an == a * n == n * a && bn == b * n && sa == size * a && bn <= sa
    ensures Pow(x, n) <= Pow(y, size)
  {
    PowOfPow(x, n, a, an);
    PowOfPow(x, a, n, an);
    PowMonotone(Pow(x, a), Pow(y, b), n);
    PowOfPow(y, b, n, bn);
    PowGrows(y, bn, sa);
    PowOfPow(y, size, a, sa);
    RootOrder(Pow(x, n), Pow(y, size), a);
  }

  lemma Double(base: nat, n: nat, value: nat)
    requires Pow(base, n) == value
    ensures Pow(base, 2 * n) == value * value
  {
    PowAdd(base, n, n);
  }

  lemma EightBytes()
    ensures Pow(256, 8) <= Pow(58, 11)
  {
    assert Pow(256, 2) == 0x1_0000;
    Double(256, 2, 0x1_0000);
    Double(256, 4, 0x1_0000_0000);
    assert Pow(58, 2) == 3364 && Pow(58, 3) == 195112;
    Double(58, 2, 3364);
    Double(58, 4, 11316496);
    PowAdd(58, 8, 3);
  }

  /** 138 hundredths of the bytes, plus one, are enough base-58 digits. */
  lemma EncodeBufferSuffices(n: nat)
    ensures Pow(256, n) <= Pow(58, EncodeSize(n))
  {
    EightBytes();
    PowChain(256, 58, 8, 11, n, EncodeSize(n), 8 * n, 11 * n, EncodeSize(n) * 8);
  }

  lemma SeventyOneDigits()
    ensures Pow(58, 71) <= Pow(256, 52)
  {
    assert Pow(58, 2) == 3364 && Pow(58, 3) == 195112;
    Double(58, 2, 3364);
    Double(58, 4, 11316496);
    Double(58, 8, 128063081718016);
    Double(58, 16, 16400152899115243850138976256);
    Double(58, 32, 268965015114358137726910587140455987105619365599731777536);
    PowAdd(58, 4, 3);
    PowAdd(58, 64, 7);
    assert Pow(256, 2) == 0x1_0000;
    Double(256, 2, 0x1_0000);
    Double(256, 4, 0x1_0000_0000);
    Double(256, 8, 18446744073709551616);
    Double(256, 16, 340282366920938463463374607431768211456);
    PowAdd(256, 32, 16);
    PowAdd(256, 48, 4);
  }

  /** 733 thousandths of the characters, plus one, are enough bytes. */
  lemma DecodeBufferSuffices(n: nat)
    ensures Pow(58, n) <= Pow(256, DecodeSize(n))
  {
    SeventyOneDigits();
    PowChain(58, 256, 71, 52, n, DecodeSize(n), 71 * n, 52 * n, DecodeSize(n) * 71);
  }

  // ---------- the alphabet ----------

  /** The character of a digit: alphanumeric without '0', 'I', 'O' and 'l'. */
  function CharOf(d: nat): char
    requires d < 58
  {
    if d < 9 then ('1' as int + d) as char else
    if d < 17 then ('A' as int + d - 9) as char else
    if d < 22 then ('J' as int + d - 17) as char else
    if d < 33 then ('P' as int + d - 22) as char else
    if d < 44 then ('a' as int + d - 33) as char else ('m' as int + d - 44) as char
  }

  /** The digit of a character, if it has one. */
  function DigitOf(c: char): (r: Option<nat>)
    ensures r.Some? ==> r.value < 58
  {
    if '1' <= c <= '9' then Some(c as int - '1' as int) else
    if 'A' <= c <= 'H' then Some(c as int - 'A' as int + 9) else
    if 'J' <= c <= 'N' then Some(c as int - 'J' as int + 17) else
    if 'P' <= c <= 'Z' then Some(c as int - 'P' as int + 22) else
    if 'a' <= c <= 'k' then Some(c as int - 'a' as int + 33) else
    if 'm' <= c <= 'z' then Some(c as int - 'm' as int + 44) else None
  }

  predicate IsSpace(c: char) { c == ' ' || 9 <= c as int <= 13 }

  lemma DigitOfCharOf(d: nat)
    requires d < 58
    ensures DigitOf(CharOf(d)) == Some(d)
  {
  }

  lemma CharOfDigitOf(c: char)
    requires DigitOf(c).Some?
    ensures CharOf(DigitOf(c).value) == c
    ensures !IsSpace(c) && c as int != 0
    ensures c == '1' <==> DigitOf(c).value == 0
  {
  }

  function Text(d: seq<nat>): (r: string)
    requires AreDigits(58, d)
    ensures |r| == |d|
  {
    seq(|d|, i requires 0 <= i < |d| => CharOf(d[i]))
  }

  predicate AllDigits(s: string) { forall i :: 0 <= i < |s| ==> DigitOf(s[i]).Some? }

  function DigitsOf(s: string): (r: seq<nat>)
    requires AllDigits(s)
    ensures |r| == |s| && AreDigits(58, r)
  {
    seq(|s|, i requires 0 <= i < |s| => DigitOf(s[i]).value)
  }

  lemma DigitsOfText(d: seq<nat>)
    requires AreDigits(58, d)
    ensures AllDigits(Text(d)) && DigitsOf(Text(d)) == d
  {
    forall i | 0 <= i < |d| ensures DigitOf(Text(d)[i]) == Some(d[i]) {
      DigitOfCharOf(d[i]);
    }
  }

  lemma TextOfDigits(s: string)
    requires AllDigits(s)
    ensures Text(DigitsOf(s)) == s
  {
    forall i | 0 <= i < |s| ensures Text(DigitsOf(s))[i] == s[i] {
      CharOfDigitOf(s[i]);
    }
  }

  // ---------- changing base, leading zeros kept ----------

  function Zeros(n: nat): (r: seq<nat>)
    ensures |r| == n
  {
    seq(n, _ => 0)
  }

  function LeadingZeroCount(d: seq<nat>): (z: nat)
    ensures z <= |d| && forall i :: 0 <= i < z ==> d[i] == 0
    ensures z < |d| ==> d[z] != 0
  {
    if d == [] || d[0] != 0 then 0 else 1 + LeadingZeroCount(d[1..])
  }

  /** The digits in base `to` of digits in base `from`, one leading zero for each leading zero. */
  function Rebased(from: nat, to: nat, d: seq<nat>): seq<nat>
    requires to >= 2
  {
    Zeros(LeadingZeroCount(d)) + ToDigits(to, Number(from, d))
  }

  lemma CountZeros(z: nat, d: seq<nat>)
    requires d != [] ==> d[0] != 0
    ensures LeadingZeroCount(Zeros(z) + d) == z
  {
    LeadingZerosAre(Zeros(z) + d, z);
  }

  lemma LeadingZerosAre(d: seq<nat>, z: nat)
    requires z <= |d| && (forall i :: 0 <= i < z ==> d[i] == 0) && (z < |d| ==> d[z] != 0)
    ensures LeadingZeroCount(d) == z
  {
  }

  lemma ZerosThenDigits(d: seq<nat>)
    ensures d == Zeros(LeadingZeroCount(d)) + d[LeadingZeroCount(d)..]
  {
  }

  /** Changing base there and back is the identity on every digit list. */
  lemma RebaseBack(from: nat, to: nat, d: seq<nat>)
    requires from >= 2 && to >= 2 && AreDigits(from, d)
    ensures Rebased(to, from, Rebased(from, to, d)) == d
  {
    var z := LeadingZeroCount(d);
    var v := Number(from, d);
    var e := ToDigits(to, v);
    NumberOfDigits(to, v);
    CountZeros(z, e);
    var all := Zeros(z) + e;
    LeadingZeros(to, all, z);
    assert all[z..] == e;
    LeadingZeros(from, d, z);
    DigitsAreUnique(from, d[z..]);
    ZerosThenDigits(d);
  }

  lemma RebasedDigits(from: nat, to: nat, d: seq<nat>)
    requires to >= 2
    ensures AreDigits(to, Rebased(from, to, d))
  {
    NumberOfDigits(to, Number(from, d));
  }

  // ---------- encoding ----------

  function Encoded(input: seq<byte>): string {
    RebasedDigits(256, 58, input);
    Text(Rebased(256, 58, input))
  }

  method CountLeadingZeros(d: seq<nat>) returns (z: nat)
    ensures z == LeadingZeroCount(d)
  {
    z := 0;
    while z < |d| && d[z] == 0
      invariant z <= |d| && forall i :: 0 <= i < z ==> d[i] == 0
    {
      z := z + 1;
    }
    LeadingZerosAre(d, z);
  }

  /** The value of a prefix fits the buffer of the whole. */
  lemma PrefixFits(from: nat, to: nat, d: seq<nat>, k: nat, size: nat)
    requires from >= 1 && AreDigits(from, d) && k < |d| && Pow(from, |d|) <= Pow(to, size)
    ensures from * Number(from, d[..k]) + d[k] == Number(from, d[..k + 1]) < Pow(to, size)
  {
    assert d[..k + 1][..k] == d[..k];
    NumberBound(from, d[..k + 1]);
    PowGrows(from, k + 1, |d|);
  }

  /** The base-`to` digits of `d`, computed in a buffer of `size` digits. */
  method ChangeBase(d: seq<nat>, from: nat, to: nat, size: nat) returns (r: seq<nat>)
    requires from >= 1 && to >= 2 && AreDigits(from, d) && Pow(from, |d|) <= Pow(to, size)
    ensures r == ToDigits(to, Number(from, d))
  {
    var b := NewBuffer(size);
    var length: nat := 0;
    NumberZeros(to, b[..]);
    for k := 0 to |d|
      invariant length <= b.Length
      invariant Holds(to, b[..], length, Number(from, d[..k]))
    {
      PrefixFits(from, to, d, k, size);
      length := Absorb(b, length, from, to, d[k], Number(from, d[..k]));
    }
    assert d[..|d|] == d;
    HoldsDigits(to, b[..], length, Number(from, d));
    r := b[b.Length - length..];
  }

  method EncodeBase58(input: seq<byte>) returns (str: string)
    ensures str == Encoded(input)
  {
    var zeroes := CountLeadingZeros(input);
    var rest := input[zeroes..];
    EncodeBufferSuffices(|rest|);
    var digits := ChangeBase(rest, 256, 58, EncodeSize(|rest|));
    LeadingZeros(256, input, zeroes);
    RebasedDigits(256, 58, input);
    str := Text(Zeros(zeroes) + digits);
  }

  // ---------- decoding ----------

  /** The number of spaces a string starts with. */
  function SpaceRun(s: string): (n: nat)
    ensures n <= |s| && (forall i :: 0 <= i < n ==> IsSpace(s[i])) && (n < |s| ==> !IsSpace(s[n]))
  {
    if s == [] || !IsSpace(s[0]) then 0 else 1 + SpaceRun(s[1..])
  }

  /** The number of characters before the first space. */
  function WordRun(s: string): (n: nat)
    ensures n <= |s| && (forall i :: 0 <= i < n ==> !IsSpace(s[i])) && (n < |s| ==> IsSpace(s[n]))
  {
    if s == [] || IsSpace(s[0]) then 0 else 1 + WordRun(s[1..])
  }

  function Unpadded(s: string): string { s[SpaceRun(s)..] }

  /** The first word. */
  function Core(s: string): string { Unpadded(s)[..WordRun(Unpadded(s))] }

  function AfterCore(s: string): string { Unpadded(s)[WordRun(Unpadded(s))..] }

  /** The bytes a string decodes to: one word of the alphabet, spaces around it, not too long. */
  function DecodedFrom(str: string, maxLen: int): (r: Option<seq<nat>>) {
    if '\0' in str || SpaceRun(AfterCore(str)) != |AfterCore(str)| || !AllDigits(Core(str)) then None
    else
      var bytes := Rebased(58, 256, DigitsOf(Core(str)));
      if bytes != [] && |bytes| > maxLen then None else Some(bytes)
  }

  lemma {:induction false} DigitsGrow(base: nat, v: nat, w: nat)
    requires base >= 2 && v <= w
    ensures |ToDigits(base, v)| <= |ToDigits(base, w)|
    decreases w
  {
    if v > 0 {
      QuotientIsSmaller(w, base);
      QuotientIsMonotone(v, w, base);
      DigitsGrow(base, v / base, w / base);
    }
  }

  lemma OrderOfQuotients(x: nat, r: nat, y: nat, t: nat, base: nat)
    requires t < base && x * base + r <= y * base + t
    ensures x <= y
  {
    if y < x {
      assert (x - y) * base == x * base - y * base;
      MulMono(1, base, x - y, base);
    }
  }

  lemma QuotientIsMonotone(v: nat, w: nat, base: nat)
    requires base >= 1 && v <= w
    ensures v / base <= w / base
  {
    DivMod(v, base);
    DivMod(w, base);
    OrderOfQuotients(v / base, v % base, w / base, w % base, base);
  }

  lemma NumberGrows(base: nat, d: seq<nat>, k: nat)
    requires base >= 1 && k <= |d|
    ensures Number(base, d[..k]) <= Number(base, d)
  {
    assert d == d[..k] + d[k..];
    NumberAppend(base, d[..k], d[k..]);
    PowPositive(base, |d| - k);
    MulMono(Number(base, d[..k]), 1, Number(base, d[..k]), Pow(base, |d| - k));
  }

  lemma {:induction false} LeadingZeroPrefix(d: seq<nat>, k: nat)
    requires k <= |d|
    ensures LeadingZeroCount(d[..k]) <= LeadingZeroCount(d)
  {
    if k > 0 && d[0] == 0 {
      assert d[..k][1..] == d[1..][..k - 1];
      LeadingZeroPrefix(d[1..], k - 1);
    }
  }

  /** More digits never decode to fewer bytes. */
  lemma RebasedGrows(d: seq<nat>, k: nat)
    requires k <= |d|
    ensures |Rebased(58, 256, d[..k])| <= |Rebased(58, 256, d)|
  {
    NumberGrows(58, d, k);
    DigitsGrow(256, Number(58, d[..k]), Number(58, d));
    LeadingZeroPrefix(d, k);
  }

  /** A prefix of the word that is already too long, or not of the alphabet, refuses the string. */
  lemma PrefixRefuses(str: string, k: nat, maxLen: int)
    requires k <= |Core(str)| && AllDigits(Core(str)[..k])
    requires var r := Rebased(58, 256, DigitsOf(Core(str)[..k])); |r| > 0 && |r| > maxLen
    ensures DecodedFrom(str, maxLen) == None
  {
    var c := Core(str);
    if AllDigits(c) {
      assert DigitsOf(c)[..k] == DigitsOf(c[..k]);
      RebasedGrows(DigitsOf(c), k);
    }
  }

  method SkipSpaces(s: string) returns (n: nat)
    ensures n == SpaceRun(s)
  {
    n := 0;
    while n < |s| && IsSpace(s[n])
      invariant n <= |s| && forall i :: 0 <= i < n ==> IsSpace(s[i])
    {
      n := n + 1;
    }
    SpaceRunIs(s, n);
  }

  lemma SpaceRunIs(s: string, n: nat)
    requires n <= |s| && (forall i :: 0 <= i < n ==> IsSpace(s[i])) && (n < |s| ==> !IsSpace(s[n]))
    ensures SpaceRun(s) == n
  {
  }

  lemma WordRunIs(s: string, n: nat)
    requires n <= |s| && (forall i :: 0 <= i < n ==> !IsSpace(s[i])) && (n < |s| ==> IsSpace(s[n]))
    ensures WordRun(s) == n
  {
  }

  /** What the first `k` characters of the word decode to. */
  ghost function BytesOf(t: string, k: nat): seq<nat>
    requires k <= |t| && AllDigits(t[..k])
  {
    Rebased(58, 256, DigitsOf(t[..k]))
  }

  lemma OnesAreZeros(u: string)
    requires forall i :: 0 <= i < |u| ==> u[i] == '1'
    ensures AllDigits(u) && DigitsOf(u) == Zeros(|u|)
  {
  }

  lemma RebasedZeros(z: nat)
    ensures Rebased(58, 256, Zeros(z)) == Zeros(z)
  {
    LeadingZerosAre(Zeros(z), z);
    NumberZeros(58, Zeros(z));
  }

  /** Leading ones are digits, and decode to as many zero bytes. */
  lemma OnesDecode(t: string, z: nat)
    requires z <= |t| && forall i :: 0 <= i < z ==> t[i] == '1'
    ensures AllDigits(t[..z]) && BytesOf(t, z) == Zeros(z)
    ensures Number(58, DigitsOf(t[..z])) == 0
    ensures z <= WordRun(t)
  {
    OnesAreZeros(t[..z]);
    RebasedZeros(z);
    NumberZeros(58, Zeros(z));
  }

  /** Skip and count leading ones; more of them than bytes allowed is a failure. */
  method CountOnes(t: string, maxLen: int) returns (ok: bool, zeroes: nat)
    ensures zeroes <= |t| && forall i :: 0 <= i < zeroes ==> t[i] == '1'
    ensures ok ==> (zeroes < |t| ==> t[zeroes] != '1') && (zeroes > 0 ==> zeroes <= maxLen)
    ensures !ok ==> zeroes > 0 && zeroes > maxLen
  {
    zeroes := 0;
    while zeroes < |t| && t[zeroes] == '1'
      invariant zeroes <= |t| && forall i :: 0 <= i < zeroes ==> t[i] == '1'
      invariant zeroes > 0 ==> zeroes <= maxLen
    {
      zeroes := zeroes + 1;
      if zeroes > maxLen {
        return false, zeroes;
      }
    }
    ok := true;
  }

  /** The first `k` characters split into `z` ones and digits whose value the buffer holds. */
  ghost predicate Reading(t: string, z: nat, k: nat, d: seq<nat>, length: nat) {
    && z <= k <= WordRun(t)
    && AllDigits(t[..k])
    && (forall i :: 0 <= i < z ==> t[i] == '1')
    && (z < |t| ==> t[z] != '1')
    && Holds(256, d, length, Number(58, DigitsOf(t[..k])))
  }

  lemma ReadingBytes(t: string, z: nat, k: nat, d: seq<nat>, length: nat)
    requires Reading(t, z, k, d, length)
    ensures BytesOf(t, k) == Zeros(z) + d[|d| - length..]
    ensures k > z ==> length > 0
  {
    var e := DigitsOf(t[..k]);
    HoldsDigits(256, d, length, Number(58, e));
    if k > z {
      CharOfDigitOf(t[z]);
      LeadingDigit(58, e[z..]);
      LeadingZeros(58, e, z);
    }
    LeadingZerosAre(e, z);
  }

  lemma ReadingFits(t: string, z: nat, k: nat, size: nat)
    requires z <= k < |t| && AllDigits(t[..k + 1]) && (forall i :: 0 <= i < z ==> t[i] == '1')
    requires size == DecodeSize(|t| - z)
    ensures var e := DigitsOf(t[..k + 1]);
      e[..k] == DigitsOf(t[..k]) && 58 * Number(58, e[..k]) + e[k] == Number(58, e) < Pow(256, size)
  {
    var e := DigitsOf(t[..k + 1]);
    assert e[..k] == DigitsOf(t[..k]);
    LeadingZeros(58, e, z);
    NumberBound(58, e[z..]);
    PowGrows(58, k + 1 - z, |t| - z);
    DecodeBufferSuffices(|t| - z);
  }

  /** The word fails at `k`: not a digit, or with it too many bytes. */
  ghost predicate FailsAt(t: string, k: nat, maxLen: int) {
    && k < WordRun(t)
    && (DigitOf(t[k]) == None
        || (AllDigits(t[..k + 1]) && |BytesOf(t, k + 1)| > 0 && |BytesOf(t, k + 1)| > maxLen))
  }

  method ReadDigit(t: string, zeroes: nat, k: nat, b: array<nat>, length: nat, carry: nat) returns (newLength: nat)
    requires k < WordRun(t) && Reading(t, zeroes, k, b[..], length) && b.Length == DecodeSize(|t| - zeroes)
    requires DigitOf(t[k]) == Some(carry)
    modifies b
    ensures Reading(t, zeroes, k + 1, b[..], newLength)
  {
    assert AllDigits(t[..k + 1]);
    ReadingFits(t, zeroes, k, b.Length);
    newLength := Absorb(b, length, 58, 256, carry, Number(58, DigitsOf(t[..k])));
  }

  lemma WithinWord(t: string, k: nat)
    requires k <= WordRun(t) && k < |t| && !IsSpace(t[k])
    ensures k < WordRun(t)
  {
  }

  /** One character: refused if it is not a digit or makes the result too long. */
  method ReadChar(t: string, zeroes: nat, k: nat, b: array<nat>, length: nat, maxLen: int)
    returns (ok: bool, newLength: nat)
    requires k < WordRun(t) && Reading(t, zeroes, k, b[..], length) && b.Length == DecodeSize(|t| - zeroes)
    modifies b
    ensures ok ==> Reading(t, zeroes, k + 1, b[..], newLength) && zeroes + newLength <= maxLen
    ensures !ok ==> FailsAt(t, k, maxLen)
  {
    var carry := DigitOf(t[k]);
    if carry == None {
      return false, length;
    }
    newLength := ReadDigit(t, zeroes, k, b, length, carry.value);
    ReadingBytes(t, zeroes, k + 1, b[..], newLength);
    ok := newLength + zeroes <= maxLen;
  }

  method NewBuffer(size: nat) returns (b: array<nat>)
    ensures fresh(b) && b.Length == size && b[..] == Zeros(size)
  {
    b := new nat[size](_ => 0);
  }

  lemma StartsReading(t: string, zeroes: nat, size: nat)
    requires zeroes <= |t| && (forall i :: 0 <= i < zeroes ==> t[i] == '1') && (zeroes < |t| ==> t[zeroes] != '1')
    ensures Reading(t, zeroes, zeroes, Zeros(size), 0)
  {
    OnesDecode(t, zeroes);
    NumberZeros(256, Zeros(size));
  }

  ghost predicate ReadWhole(t: string, zeroes: nat, maxLen: int, k: nat, bytes: seq<nat>) {
    && k == WordRun(t)
    && AllDigits(t[..k])
    && Zeros(zeroes) + bytes == BytesOf(t, k)
    && (bytes != [] ==> zeroes + |bytes| <= maxLen)
  }

  lemma ReadingEnds(t: string, zeroes: nat, maxLen: int, k: nat, d: seq<nat>, length: nat)
    requires Reading(t, zeroes, k, d, length) && (k == |t| || IsSpace(t[k]))
    requires length > 0 ==> zeroes + length <= maxLen
    ensures ReadWhole(t, zeroes, maxLen, k, d[|d| - length..])
  {
    WordRunIs(t, k);
    ReadingBytes(t, zeroes, k, d, length);
  }

  /** The loop over the word, from its first character that is not a one. */
  method ReadInto(t: string, zeroes: nat, maxLen: int, b: array<nat>) returns (ok: bool, k: nat, length: nat)
    requires Reading(t, zeroes, zeroes, b[..], 0) && b.Length == DecodeSize(|t| - zeroes)
    modifies b
    ensures ok ==> Reading(t, zeroes, k, b[..], length) && (k == |t| || IsSpace(t[k]))
    ensures ok && length > 0 ==> zeroes + length <= maxLen
    ensures !ok ==> FailsAt(t, k, maxLen)
  {
    k, length, ok := zeroes, 0, true;
    while ok && k < |t| && !IsSpace(t[k])
      invariant zeroes <= k <= |t|
      invariant ok ==> Reading(t, zeroes, k, b[..], length)
      invariant !ok ==> FailsAt(t, k, maxLen)
      invariant ok && length > 0 ==> zeroes + length <= maxLen
      decreases ok, |t| - k
    {
      WithinWord(t, k);
      ok, length := ReadChar(t, zeroes, k, b, length, maxLen);
      if ok {
        k := k + 1;
      }
    }
  }

  method ReadDigits(t: string, zeroes: nat, maxLen: int) returns (ok: bool, k: nat, bytes: seq<nat>)
    requires zeroes <= |t| && (forall i :: 0 <= i < zeroes ==> t[i] == '1') && (zeroes < |t| ==> t[zeroes] != '1')
    ensures ok ==> ReadWhole(t, zeroes, maxLen, k, bytes)
    ensures !ok ==> FailsAt(t, k, maxLen)
  {
    var b := NewBuffer(DecodeSize(|t| - zeroes));
    assert Reading(t, zeroes, zeroes, b[..], 0) by {
      StartsReading(t, zeroes, b.Length);
    }
    var length;
    ok, k, length := ReadInto(t, zeroes, maxLen, b);
    if !ok {
      return false, k, [];
    }
    var digits := b[..];
    ReadingEnds(t, zeroes, maxLen, k, digits, length);
    bytes := digits[|digits| - length..];
  }

  lemma FailureRefuses(str: string, k: nat, maxLen: int)
    requires FailsAt(Unpadded(str), k, maxLen)
    ensures DecodedFrom(str, maxLen) == None
  {
    var t, c := Unpadded(str), Core(str);
    assert c[k] == t[k];
    if DigitOf(t[k]) != None {
      assert c[..k + 1] == t[..k + 1];
      PrefixRefuses(str, k + 1, maxLen);
    }
  }

  lemma OnesRefuse(str: string, z: nat, maxLen: int)
    requires 0 < z <= |Unpadded(str)| && z > maxLen && forall i :: 0 <= i < z ==> Unpadded(str)[i] == '1'
    ensures DecodedFrom(str, maxLen) == None
  {
    OnesDecode(Unpadded(str), z);
    assert Core(str)[..z] == Unpadded(str)[..z];
    PrefixRefuses(str, z, maxLen);
  }

  method DecodeBase58(str: string, maxLen: int) returns (r: Option<seq<nat>>)
    ensures r == DecodedFrom(str, maxLen)
  {
    if '\0' in str {
      return None;
    }
    var start := SkipSpaces(str);
    var t := str[start..];
    var ok, zeroes := CountOnes(t, maxLen);
    if !ok {
      OnesRefuse(str, zeroes, maxLen);
      return None;
    }
    var read, k, bytes := ReadDigits(t, zeroes, maxLen);
    if !read {
      FailureRefuses(str, k, maxLen);
      return None;
    }
    assert t[..k] == Core(str) && t[k..] == AfterCore(str);
    var trailing := SkipSpaces(t[k..]);
    if k + trailing != |t| {
      return None;
    }
    r := Some(Zeros(zeroes) + bytes);
  }

  // ---------- round trips ----------

  ghost predicate AllSpaces(s: string) { forall i :: 0 <= i < |s| ==> IsSpace(s[i]) }

  /** A string padded with spaces has the string as its word, if it is one. */
  lemma PaddedParts(before: string, word: string, after: string)
    requires AllSpaces(before) && AllSpaces(after) && AllDigits(word)
    ensures Core(before + word + after) == word
    ensures SpaceRun(AfterCore(before + word + after)) == |AfterCore(before + word + after)|
    ensures '\0' !in before + word + after
  {
    var s := before + word + after;
    forall i | 0 <= i < |word| ensures !IsSpace(word[i]) && word[i] != '\0' {
      CharOfDigitOf(word[i]);
    }
    if word != [] {
      SpaceRunIs(s, |before|);
      assert Unpadded(s) == word + after;
      WordRunIs(word + after, |word|);
      SpaceRunIs(after, |after|);
      assert AfterCore(s) == after;
    } else {
      SpaceRunIs(s, |s|);
      assert Unpadded(s) == [];
    }
  }

  /**
   Encoding and decoding gives back the bytes, whatever spaces surround the string, exactly when
   there are at most `maxLen` of them or none at all.
   */
  lemma DecodeOfEncode(input: seq<byte>, before: string, after: string, maxLen: int)
    requires AllSpaces(before) && AllSpaces(after)
    ensures DecodedFrom(before + Encoded(input) + after, maxLen)
         == if input == [] || |input| <= maxLen then Some(input) else None
  {
    var d := Rebased(256, 58, input);
    RebasedDigits(256, 58, input);
    DigitsOfText(d);
    PaddedParts(before, Encoded(input), after);
    RebaseBack(256, 58, input);
  }

  /** A string that decodes is the encoding of its bytes with spaces around it. */
  lemma EncodeOfDecode(str: string, maxLen: int)
    requires DecodedFrom(str, maxLen).Some?
    ensures AreDigits(256, DecodedFrom(str, maxLen).value)
    ensures Encoded(DecodedFrom(str, maxLen).value) == Core(str)
    ensures exists before, after :: AllSpaces(before) && AllSpaces(after) && str == before + Core(str) + after
  {
    var d := DigitsOf(Core(str));
    RebasedDigits(58, 256, d);
    RebaseBack(58, 256, d);
    TextOfDigits(Core(str));
    var before, after := str[..SpaceRun(str)], AfterCore(str);
    assert AllSpaces(before) && AllSpaces(after) && str == before + Core(str) + after;
  }
}
