/**
 Bech32 and Bech32m strings (src/bech32.cpp): character checks, encoding and decoding, and the round
 trips between them.
 */
module Bech32 {
  import opened Basics
  import PolyMod
  import ThreeErrors

  /** The two encodings; a failed decoding is None below. */
  datatype Encoding = BECH32 | BECH32M

  datatype Decoded = Decoded(encoding: Encoding, hrp: string, data: seq<Value>)

  type Value = n: nat | n < 32

  const CHECKSUM_SIZE := 6

  function EncodingConstant(e: Encoding): bv32 {
    match e
    case BECH32 => 1
    case BECH32M => 0x2bc830a3
  }

  // ---------- characters ----------

  /** The character of a five-bit value. */
  function CharOf(v: Value): char {
    if v == 0 then 'q' else if v == 1 then 'p' else if v == 2 then 'z' else if v == 3 then 'r' else
    if v == 4 then 'y' else if v == 5 then '9' else if v == 6 then 'x' else if v == 7 then '8' else
    if v == 8 then 'g' else if v == 9 then 'f' else if v == 10 then '2' else if v == 11 then 't' else
    if v == 12 then 'v' else if v == 13 then 'd' else if v == 14 then 'w' else if v == 15 then '0' else
    if v == 16 then 's' else if v == 17 then '3' else if v == 18 then 'j' else if v == 19 then 'n' else
    if v == 20 then '5' else if v == 21 then '4' else if v == 22 then 'k' else if v == 23 then 'h' else
    if v == 24 then 'c' else if v == 25 then 'e' else if v == 26 then '6' else if v == 27 then 'm' else
    if v == 28 then 'u' else if v == 29 then 'a' else if v == 30 then '7' else 'l'
  }

  /** The five-bit value of a character in either case, if it has one. */
  function Rev(c: char): Option<Value> {
    match c
    case 'q' | 'Q' => Some(0) case 'p' | 'P' => Some(1)
    case 'z' | 'Z' => Some(2) case 'r' | 'R' => Some(3)
    case 'y' | 'Y' => Some(4) case '9' => Some(5)
    case 'x' | 'X' => Some(6) case '8' => Some(7)
    case 'g' | 'G' => Some(8) case 'f' | 'F' => Some(9)
    case '2' => Some(10) case 't' | 'T' => Some(11)
    case 'v' | 'V' => Some(12) case 'd' | 'D' => Some(13)
    case 'w' | 'W' => Some(14) case '0' => Some(15)
    case 's' | 'S' => Some(16) case '3' => Some(17)
    case 'j' | 'J' => Some(18) case 'n' | 'N' => Some(19)
    case '5' => Some(20) case '4' => Some(21)
    case 'k' | 'K' => Some(22) case 'h' | 'H' => Some(23)
    case 'c' | 'C' => Some(24) case 'e' | 'E' => Some(25)
    case '6' => Some(26) case 'm' | 'M' => Some(27)
    case 'u' | 'U' => Some(28) case 'a' | 'A' => Some(29)
    case '7' => Some(30) case 'l' | 'L' => Some(31)
    case _ => None
  }

  predicate IsLower(c: char) { 'a' <= c <= 'z' }

  predicate IsUpper(c: char) { 'A' <= c <= 'Z' }

  predicate Printable(c: char) { 33 <= c as int <= 126 }

  function LowerCase(c: char): char {
    if IsUpper(c) then (c as int - 'A' as int + 'a' as int) as char else c
  }

  function Lowered(s: string): (r: string)
    ensures |r| == |s|
  {
    seq(|s|, i requires 0 <= i < |s| => LowerCase(s[i]))
  }

  function Chars(v: seq<Value>): (r: string)
    ensures |r| == |v|
  {
    seq(|v|, i requires 0 <= i < |v| => CharOf(v[i]))
  }

  lemma RevOfCharOf(v: Value)
    ensures Rev(CharOf(v)) == Some(v)
  {
  }

  lemma CharOfIsPlain(v: Value)
    ensures Printable(CharOf(v)) && !IsUpper(CharOf(v)) && CharOf(v) != '1'
  {
  }

  lemma CharOfRev(c: char)
    requires Rev(c).Some?
    ensures CharOf(Rev(c).value) == LowerCase(c)
  {
  }

  lemma LowerCaseIsPlain(c: char)
    ensures !IsUpper(LowerCase(c))
    ensures Printable(c) ==> Printable(LowerCase(c))
    ensures LowerCase(c) == '1' <==> c == '1'
    ensures !IsUpper(c) ==> LowerCase(c) == c
  {
  }

  // ---------- mixed case and unprintable characters ----------

  datatype Case = Unseen | Lower | Upper

  /** The case of the first letter: it decides the case of the whole string. */
  function CaseOf(s: string): Case {
    if s == [] then Unseen else
      var before := CaseOf(s[..|s| - 1]);
      var c := s[|s| - 1];
      if before != Unseen then before else if IsLower(c) then Lower else if IsUpper(c) then Upper else Unseen
  }

  predicate BadAt(s: string, i: nat)
    requires i < |s|
  {
    || (IsLower(s[i]) && CaseOf(s[..i]) == Upper)
    || (IsUpper(s[i]) && CaseOf(s[..i]) == Lower)
    || !Printable(s[i])
  }

  /** The positions of the offending characters among the first `n`, in order. */
  function Errors(s: string, n: nat): seq<nat>
    requires n <= |s|
  {
    if n == 0 then [] else Errors(s, n - 1) + (if BadAt(s, n - 1) then [n - 1] else [])
  }

  /** Every character printable, and letters of one case only. */
  ghost predicate WellCased(s: string) {
    && (forall i :: 0 <= i < |s| ==> Printable(s[i]))
    && ((forall i :: 0 <= i < |s| ==> !IsLower(s[i])) || (forall i :: 0 <= i < |s| ==> !IsUpper(s[i])))
  }

  lemma {:induction false} ErrorsAreBad(s: string, n: nat, i: nat)
    requires n <= |s|
    ensures i in Errors(s, n) <==> i < n && BadAt(s, i)
  {
    if n > 0 {
      ErrorsAreBad(s, n - 1, i);
    }
  }

  lemma {:induction false} CaseIsFirst(s: string)
    ensures CaseOf(s) == Unseen ==> forall i :: 0 <= i < |s| ==> !IsLower(s[i]) && !IsUpper(s[i])
    ensures CaseOf(s) == Lower ==> exists i :: 0 <= i < |s| && IsLower(s[i])
    ensures CaseOf(s) == Upper ==> exists i :: 0 <= i < |s| && IsUpper(s[i])
  {
    if s != [] {
      var t := s[..|s| - 1];
      CaseIsFirst(t);
      assert forall i :: 0 <= i < |t| ==> s[i] == t[i];
    }
  }

  lemma {:induction false} CaseExtends(s: string, n: nat)
    requires n <= |s| && CaseOf(s[..n]) != Unseen
    ensures CaseOf(s) == CaseOf(s[..n])
  {
    if n < |s| {
      assert s[..|s| - 1][..n] == s[..n];
      CaseExtends(s[..|s| - 1], n);
    } else {
      assert s[..n] == s;
    }
  }

  /** A letter that is not flagged has the case of the whole string. */
  lemma LetterHasCase(s: string, i: nat)
    requires i < |s| && !BadAt(s, i)
    ensures IsLower(s[i]) ==> CaseOf(s) == Lower
    ensures IsUpper(s[i]) ==> CaseOf(s) == Upper
  {
    assert s[..i + 1][..i] == s[..i];
    if IsLower(s[i]) || IsUpper(s[i]) {
      CaseExtends(s, i + 1);
    }
  }

  /** No position is flagged exactly when the string is printable and of one case. */
  lemma NoErrorsIsWellCased(s: string)
    ensures Errors(s, |s|) == [] <==> WellCased(s)
  {
    if Errors(s, |s|) == [] {
      forall i: nat | i < |s|
        ensures Printable(s[i]) && (IsLower(s[i]) ==> CaseOf(s) == Lower) && (IsUpper(s[i]) ==> CaseOf(s) == Upper) {
        ErrorsAreBad(s, |s|, i);
        LetterHasCase(s, i);
      }
    } else {
      var i := Errors(s, |s|)[0];
      assert i in Errors(s, |s|);
      ErrorsAreBad(s, |s|, i);
      CaseIsFirst(s[..i]);
    }
  }

  method CheckCharacters(str: string) returns (ok: bool, errors: seq<nat>)
    ensures errors == Errors(str, |str|)
    ensures ok <==> WellCased(str)
  {
    var lower, upper := false, false;
    errors := [];
    for i := 0 to |str|
      invariant errors == Errors(str, i)
      invariant lower == (CaseOf(str[..i]) == Lower) && upper == (CaseOf(str[..i]) == Upper)
    {
      assert str[..i + 1][..i] == str[..i];
      var c := str[i];
      if IsLower(c) {
        if upper {
          errors := errors + [i];
        } else {
          lower := true;
        }
      } else if IsUpper(c) {
        if lower {
          errors := errors + [i];
        } else {
          upper := true;
        }
      } else if c as int < 33 || c as int > 126 {
        errors := errors + [i];
      }
    }
    assert str[..|str|] == str;
    NoErrorsIsWellCased(str);
    ok := errors == [];
  }

  // ---------- the checksum over a prefix and values ----------

  function ToSymbol(v: Value): PolyMod.Symbol { v as bv5 }

  function FromSymbol(s: PolyMod.Symbol): Value { s as nat }

  function Symbols(v: seq<Value>): (r: seq<PolyMod.Symbol>)
    ensures |r| == |v|
  {
    seq(|v|, i requires 0 <= i < |v| => ToSymbol(v[i]))
  }

  function Values(v: seq<PolyMod.Symbol>): (r: seq<Value>)
    ensures |r| == |v|
  {
    seq(|v|, i requires 0 <= i < |v| => FromSymbol(v[i]))
  }

  lemma SymbolOfValue(v: Value)
    ensures FromSymbol(ToSymbol(v)) == v
  {
  }

  lemma SymbolsOfValues(v: seq<PolyMod.Symbol>)
    ensures Symbols(Values(v)) == v
  {
  }

  lemma SymbolsConcat(v: seq<Value>, w: seq<Value>)
    ensures Symbols(v + w) == Symbols(v) + Symbols(w)
  {
  }

  lemma SymbolsInjective(v: seq<Value>, w: seq<Value>)
    requires Symbols(v) == Symbols(w)
    ensures v == w
  {
    forall i | 0 <= i < |v| ensures v[i] == w[i] {
      assert Symbols(v)[i] == Symbols(w)[i];
      SymbolOfValue(v[i]);
      SymbolOfValue(w[i]);
    }
  }

  /** The characters of a std::string, by the byte that holds them. */
  predicate Octets(s: string) { forall i :: 0 <= i < |s| ==> s[i] as int < 256 }

  /** C++ leaves the signedness of char to the platform; what follows holds for both. */
  const CHAR_IS_SIGNED: bool

  /** The number a char converts to in arithmetic. */
  function CharValue(c: char): (r: int)
    requires c as int < 256
    ensures -128 <= r < 256
  {
    if CHAR_IS_SIGNED && c as int >= 128 then c as int - 256 else c as int
  }

  /** The byte that `hrp[i] >> 5` is stored as: not a five-bit value when a signed char is negative. */
  function HighBits(c: char): bv8
    requires c as int < 256
  {
    (CharValue(c) / 32 % 256) as bv8
  }

  function LowBits(c: char): bv8
    requires c as int < 256
  {
    (CharValue(c) % 32) as bv8
  }

  /** The prefix expanded: high bits, a zero, low bits. */
  function Expand(hrp: string): (r: seq<bv8>)
    requires Octets(hrp)
    ensures |r| == 2 * |hrp| + 1
  {
    seq(|hrp|, i requires 0 <= i < |hrp| => HighBits(hrp[i])) + [0]
      + seq(|hrp|, i requires 0 <= i < |hrp| => LowBits(hrp[i]))
  }

  function Bytes(values: seq<Value>): seq<bv8> {
    PolyMod.WideAll(Symbols(values))
  }

  method PreparePolynomialCoefficients(hrp: string, values: seq<Value>) returns (ret: seq<bv8>)
    requires Octets(hrp)
    ensures ret == Expand(hrp) + Bytes(values)
  {
    ret := [];
    for i := 0 to |hrp|
      invariant ret == Expand(hrp)[..i]
    {
      ret := ret + [HighBits(hrp[i])];
    }
    ret := ret + [0];
    for i := 0 to |hrp|
      invariant ret == Expand(hrp)[..|hrp| + 1 + i]
    {
      ret := ret + [LowBits(hrp[i])];
    }
    ret := ret + Bytes(values);
  }

  /** The remainder that the prefix leaves for the values. */
  function Start(hrp: string): bv32
    requires Octets(hrp)
  {
    PolyMod.AfterBytes(Expand(hrp))
  }

  function EncodingOf(check: bv32): (r: Option<Encoding>) {
    if check == EncodingConstant(BECH32) then Some(BECH32) else
    if check == EncodingConstant(BECH32M) then Some(BECH32M) else None
  }

  /** The encoding whose constant the prefix and values sum to. */
  function Verified(hrp: string, values: seq<Value>): (r: Option<Encoding>)
    requires Octets(hrp)
  {
    EncodingOf(PolyMod.Remainder(Start(hrp), Symbols(values)))
  }

  method VerifyChecksum(hrp: string, values: seq<Value>) returns (r: Option<Encoding>)
    requires Octets(hrp)
    ensures r == Verified(hrp, values)
  {
    var enc := PreparePolynomialCoefficients(hrp, values);
    PolyMod.BytesThenSymbols(Expand(hrp), Symbols(values));
    var check := PolyMod.PolyMod(enc);
    if check == EncodingConstant(BECH32) {
      return Some(BECH32);
    }
    if check == EncodingConstant(BECH32M) {
      return Some(BECH32M);
    }
    return None;
  }

  function ChecksumOf(e: Encoding, hrp: string, values: seq<Value>): (r: seq<Value>)
    requires Octets(hrp)
    ensures |r| == CHECKSUM_SIZE
  {
    Values(PolyMod.Checksum(Start(hrp), Symbols(values), EncodingConstant(e)))
  }

  lemma ZeroBytes(prefix: seq<bv8>, values: seq<Value>, zeros: seq<bv8>)
    requires |zeros| == 6 && forall i :: 0 <= i < 6 ==> zeros[i] == 0
    ensures prefix + Bytes(values) + zeros == prefix + PolyMod.WideAll(Symbols(values) + PolyMod.Zeros(6))
  {
    assert PolyMod.Wide(0) == 0;
  }

  method CreateChecksum(e: Encoding, hrp: string, values: seq<Value>) returns (ret: seq<Value>)
    requires Octets(hrp)
    ensures ret == ChecksumOf(e, hrp, values)
  {
    var enc := PreparePolynomialCoefficients(hrp, values);
    var zeros: seq<bv8> := [0, 0, 0, 0, 0, 0];
    ZeroBytes(Expand(hrp), values, zeros);
    PolyMod.BytesThenSymbols(Expand(hrp), Symbols(values) + PolyMod.Zeros(6));
    var rest := PolyMod.PolyMod(enc + zeros);
    var mod := PolyMod.Xor(rest, EncodingConstant(e));
    ret := Values(PolyMod.Unpack(mod));
  }

  lemma ConstantBound(e: Encoding)
    ensures EncodingConstant(e) < 0x4000_0000
  {
  }

  /** The created checksum is the one that verifies under its encoding. */
  lemma ChecksumIsVerified(e: Encoding, hrp: string, values: seq<Value>)
    requires Octets(hrp)
    ensures Verified(hrp, values + ChecksumOf(e, hrp, values)) == Some(e)
  {
    var tail := ChecksumOf(e, hrp, values);
    ConstantBound(e);
    PolyMod.AfterBytesBound(Expand(hrp));
    PolyMod.ChecksumVerifies(Start(hrp), Symbols(values), EncodingConstant(e));
    SymbolsOfValues(PolyMod.Checksum(Start(hrp), Symbols(values), EncodingConstant(e)));
    SymbolsConcat(values, tail);
  }

  /** A verified list ends in the checksum of what precedes it. */
  lemma VerifiedEndsInChecksum(hrp: string, values: seq<Value>)
    requires Octets(hrp) && |values| >= CHECKSUM_SIZE && Verified(hrp, values).Some?
    ensures values[|values| - CHECKSUM_SIZE..]
         == ChecksumOf(Verified(hrp, values).value, hrp, values[..|values| - CHECKSUM_SIZE])
  {
    var data, tail := values[..|values| - 6], values[|values| - 6..];
    var e := Verified(hrp, values).value;
    assert values == data + tail;
    SymbolsConcat(data, tail);
    ConstantBound(e);
    PolyMod.AfterBytesBound(Expand(hrp));
    PolyMod.ChecksumIsUnique(Start(hrp), Symbols(data), Symbols(tail), EncodingConstant(e));
    SymbolsOfValues(PolyMod.Checksum(Start(hrp), Symbols(data), EncodingConstant(e)));
    SymbolsInjective(tail, ChecksumOf(e, hrp, data));
  }

  // ---------- encoding ----------

  function Encoded(e: Encoding, hrp: string, values: seq<Value>): (r: string)
    requires Octets(hrp)
    ensures |r| == |hrp| + 1 + |values| + CHECKSUM_SIZE
  {
    hrp + "1" + Chars(values + ChecksumOf(e, hrp, values))
  }

  method AppendChars(s: string, values: seq<Value>) returns (ret: string)
    ensures ret == s + Chars(values)
  {
    ret := s;
    for i := 0 to |values|
      invariant ret == s + Chars(values)[..i]
    {
      ret := ret + [CharOf(values[i])];
    }
  }

  /** Encoding asserts a prefix without upper case. */
  method Encode(e: Encoding, hrp: string, values: seq<Value>) returns (ret: string)
    requires Octets(hrp)
    requires forall i :: 0 <= i < |hrp| ==> !IsUpper(hrp[i])
    ensures ret == Encoded(e, hrp, values)
  {
    ret := AppendChars(hrp + "1", values);
    var checksum := CreateChecksum(e, hrp, values);
    ret := AppendChars(ret, checksum);
    CharsConcat(hrp + "1", values, checksum);
  }

  lemma CharsConcat(s: string, v: seq<Value>, w: seq<Value>)
    ensures s + Chars(v) + Chars(w) == s + Chars(v + w)
  {
  }

  // ---------- decoding ----------

  /** The last position of '1', or -1. */
  function LastOne(s: string): (r: int)
    ensures -1 <= r < |s|
  {
    if s == [] then -1 else if s[|s| - 1] == '1' then |s| - 1 else LastOne(s[..|s| - 1])
  }

  predicate AllValues(s: string) { forall i :: 0 <= i < |s| ==> Rev(s[i]).Some? }

  function ValuesOf(s: string): (r: seq<Value>)
    requires AllValues(s)
    ensures |r| == |s|
  {
    seq(|s|, i requires 0 <= i < |s| => Rev(s[i]).value)
  }

  /** What a prefix and its values, checksum included, decode to. */
  function DecodedParts(hrp: string, values: seq<Value>): Option<Decoded>
    requires Octets(hrp) && |values| >= CHECKSUM_SIZE
  {
    match Verified(hrp, values)
    case None => None
    case Some(e) => Some(Decoded(e, hrp, values[..|values| - CHECKSUM_SIZE]))
  }

  /** The separator is neither first nor too late for a checksum. */
  predicate HasParts(str: string) {
    var pos := LastOne(str);
    0 < pos && pos + CHECKSUM_SIZE < |str|
  }

  ghost function DecodedFrom(str: string, limit: nat): Option<Decoded> {
    if !WellCased(str) || |str| > limit || !HasParts(str) then None
    else
      var pos := LastOne(str);
      if !AllValues(str[pos + 1..]) then None
      else
        LoweredIsOctets(str[..pos]);
        DecodedParts(Lowered(str[..pos]), ValuesOf(str[pos + 1..]))
  }

  lemma LoweredIsOctets(s: string)
    requires forall i :: 0 <= i < |s| ==> Printable(s[i])
    ensures Octets(Lowered(s))
    ensures forall i :: 0 <= i < |s| ==> Printable(Lowered(s)[i]) && !IsUpper(Lowered(s)[i])
  {
    forall i | 0 <= i < |s| ensures Printable(Lowered(s)[i]) && !IsUpper(Lowered(s)[i]) {
      LowerCaseIsPlain(s[i]);
    }
  }

  method FindLastOne(s: string) returns (pos: int)
    ensures pos == LastOne(s)
  {
    pos := |s| - 1;
    assert s[..|s|] == s;
    while pos >= 0 && s[pos] != '1'
      invariant -1 <= pos < |s|
      invariant LastOne(s) == LastOne(s[..pos + 1])
    {
      assert s[..pos + 1][..pos] == s[..pos];
      pos := pos - 1;
    }
  }

  method ReadValues(tail: string) returns (r: Option<seq<Value>>)
    ensures r == if AllValues(tail) then Some(ValuesOf(tail)) else None
  {
    var values: seq<Value> := [];
    for i := 0 to |tail|
      invariant AllValues(tail[..i]) && values == ValuesOf(tail[..i])
    {
      var rev := Rev(tail[i]);
      if rev == None {
        return None;
      }
      values := values + [rev.value];
    }
    assert tail[..|tail|] == tail;
    return Some(values);
  }

  method ReadPrefix(s: string) returns (hrp: string)
    ensures hrp == Lowered(s)
  {
    hrp := "";
    for i := 0 to |s|
      invariant hrp == Lowered(s)[..i]
    {
      hrp := hrp + [LowerCase(s[i])];
    }
  }

  method DecodeParts(hrp: string, values: seq<Value>) returns (r: Option<Decoded>)
    requires Octets(hrp) && |values| >= CHECKSUM_SIZE
    ensures r == DecodedParts(hrp, values)
  {
    var result := VerifyChecksum(hrp, values);
    if result == None {
      return None;
    }
    return Some(Decoded(result.value, hrp, values[..|values| - CHECKSUM_SIZE]));
  }

  method Decode(str: string, limit: nat) returns (r: Option<Decoded>)
    ensures r == DecodedFrom(str, limit)
  {
    var ok, errors := CheckCharacters(str);
    if !ok {
      return None;
    }
    var pos := FindLastOne(str);
    if |str| > limit {
      return None;
    }
    if pos == -1 || pos == 0 || pos + CHECKSUM_SIZE >= |str| {
      return None;
    }
    var values := ReadValues(str[pos + 1..]);
    if values == None {
      return None;
    }
    var hrp := ReadPrefix(str[..pos]);
    LoweredIsOctets(str[..pos]);
    r := DecodeParts(hrp, values.value);
  }

  // ---------- round trips ----------

  lemma {:induction false} LastOneAfterPrefix(hrp: string, tail: string)
    requires forall i :: 0 <= i < |tail| ==> tail[i] != '1'
    ensures LastOne(hrp + "1" + tail) == |hrp|
    decreases |tail|
  {
    var s := hrp + "1" + tail;
    if tail != [] {
      assert s[..|s| - 1] == hrp + "1" + tail[..|tail| - 1];
      LastOneAfterPrefix(hrp, tail[..|tail| - 1]);
    }
  }

  lemma CharsArePlain(v: seq<Value>)
    ensures forall i :: 0 <= i < |v| ==> Printable(Chars(v)[i]) && !IsUpper(Chars(v)[i]) && Chars(v)[i] != '1'
    ensures AllValues(Chars(v)) && ValuesOf(Chars(v)) == v
  {
    forall i | 0 <= i < |v|
      ensures Printable(Chars(v)[i]) && !IsUpper(Chars(v)[i]) && Chars(v)[i] != '1' && Rev(Chars(v)[i]) == Some(v[i])
    {
      CharOfIsPlain(v[i]);
      RevOfCharOf(v[i]);
    }
  }

  /** A prefix that BIP 173 allows to be encoded. */
  ghost predicate PlainPrefix(hrp: string) {
    hrp != "" && forall i :: 0 <= i < |hrp| ==> Printable(hrp[i]) && !IsUpper(hrp[i])
  }

  lemma LoweredIsSelf(s: string)
    requires forall i :: 0 <= i < |s| ==> !IsUpper(s[i])
    ensures Lowered(s) == s
  {
  }

  /**
   Decoding what was encoded gives back the encoding, the prefix and the values, exactly when the
   prefix is not empty, is printable, and the string fits the limit; otherwise it gives nothing.
   */
  lemma DecodeOfEncode(e: Encoding, hrp: string, values: seq<Value>, limit: nat)
    requires Octets(hrp)
    requires forall i :: 0 <= i < |hrp| ==> !IsUpper(hrp[i])
    ensures DecodedFrom(Encoded(e, hrp, values), limit)
         == if PlainPrefix(hrp) && |hrp| + 1 + |values| + CHECKSUM_SIZE <= limit
            then Some(Decoded(e, hrp, values)) else None
  {
    EncodedSplits(e, hrp, values);
    if hrp != "" { EncodedIsWellCased(e, hrp, values); }
    ChecksumIsVerified(e, hrp, values);
    LoweredIsSelf(hrp);
  }

  lemma EncodedSplits(e: Encoding, hrp: string, values: seq<Value>)
    requires Octets(hrp)
    ensures var str, all := Encoded(e, hrp, values), values + ChecksumOf(e, hrp, values);
      && LastOne(str) == |hrp| && str[..|hrp|] == hrp && str[|hrp| + 1..] == Chars(all)
      && AllValues(Chars(all)) && ValuesOf(Chars(all)) == all && all[..|all| - CHECKSUM_SIZE] == values
  {
    var all := values + ChecksumOf(e, hrp, values);
    CharsArePlain(all);
    LastOneAfterPrefix(hrp, Chars(all));
    assert all[..|all| - 6] == values;
  }

  lemma EncodedIsWellCased(e: Encoding, hrp: string, values: seq<Value>)
    requires Octets(hrp) && hrp != "" && forall i :: 0 <= i < |hrp| ==> !IsUpper(hrp[i])
    ensures WellCased(Encoded(e, hrp, values)) <==> PlainPrefix(hrp)
  {
    var str := Encoded(e, hrp, values);
    CharsArePlain(values + ChecksumOf(e, hrp, values));
    if !PlainPrefix(hrp) {
      var i :| 0 <= i < |hrp| && !Printable(hrp[i]);
      assert str[i] == hrp[i];
    }
  }

  lemma ValuesOfAreLower(s: string)
    requires AllValues(s)
    ensures Chars(ValuesOf(s)) == Lowered(s)
  {
    forall i | 0 <= i < |s| ensures Chars(ValuesOf(s))[i] == LowerCase(s[i]) {
      CharOfRev(s[i]);
    }
  }

  lemma {:induction false} LastOneIsOne(s: string)
    requires LastOne(s) >= 0
    ensures s[LastOne(s)] == '1'
  {
    if s[|s| - 1] != '1' {
      LastOneIsOne(s[..|s| - 1]);
    }
  }

  lemma PartsEncode(hrp: string, values: seq<Value>)
    requires Octets(hrp) && |values| >= CHECKSUM_SIZE && DecodedParts(hrp, values).Some?
    ensures var d := DecodedParts(hrp, values).value;
      d.hrp == hrp && Encoded(d.encoding, hrp, d.data) == hrp + "1" + Chars(values)
  {
    var d := DecodedParts(hrp, values).value;
    VerifiedEndsInChecksum(hrp, values);
    assert values == d.data + ChecksumOf(d.encoding, hrp, d.data);
  }

  lemma LoweredParts(str: string)
    requires LastOne(str) >= 0
    ensures Lowered(str) == Lowered(str[..LastOne(str)]) + "1" + Lowered(str[LastOne(str) + 1..])
  {
    LastOneIsOne(str);
    LowerCaseIsPlain('1');
  }

  /**
   A string that decodes is, in lower case, the encoding of what it decodes to; so every decoded
   triple has one lower-case string.
   */
  lemma EncodeOfDecode(str: string, limit: nat)
    requires DecodedFrom(str, limit).Some?
    ensures var d := DecodedFrom(str, limit).value;
      PlainPrefix(d.hrp) && Octets(d.hrp) && Encoded(d.encoding, d.hrp, d.data) == Lowered(str)
  {
    var pos := LastOne(str);
    LoweredIsOctets(str[..pos]);
    PartsEncode(Lowered(str[..pos]), ValuesOf(str[pos + 1..]));
    ValuesOfAreLower(str[pos + 1..]);
    LoweredParts(str);
  }

  // ---------- error detection ----------

  lemma {:induction false} LastOneIsLast(s: string, i: nat)
    requires i < |s| && s[i] == '1'
    ensures i <= LastOne(s)
  {
    if s[|s| - 1] != '1' {
      LastOneIsLast(s[..|s| - 1], i);
    }
  }

  lemma OneIsKept(s: string, t: string, from: nat)
    requires from <= |s| && from <= |t| && Lowered(s)[..from] == Lowered(t)[..from]
    requires 0 <= LastOne(s) < from
    ensures LastOne(s) <= LastOne(t)
  {
    var p := LastOne(s);
    LastOneIsOne(s);
    assert Lowered(s)[..from][p] == Lowered(t)[..from][p];
    LowerCaseIsPlain(s[p]);
    LowerCaseIsPlain(t[p]);
    LastOneIsLast(t, p);
  }

  lemma ValuesFollowLowered(a: string, b: string)
    requires AllValues(a) && AllValues(b) && Lowered(a) == Lowered(b)
    ensures ValuesOf(a) == ValuesOf(b)
  {
    ValuesOfAreLower(a);
    ValuesOfAreLower(b);
    CharsInjective(ValuesOf(a), ValuesOf(b));
  }

  lemma CharsInjective(v: seq<Value>, w: seq<Value>)
    requires Chars(v) == Chars(w)
    ensures v == w
  {
    CharsArePlain(v);
    CharsArePlain(w);
  }

  lemma VerifiedRemainder(hrp: string, v: seq<Value>)
    requires Octets(hrp) && Verified(hrp, v).Some?
    ensures PolyMod.Remainder(Start(hrp), Symbols(v)) == EncodingConstant(Verified(hrp, v).value)
  {
  }

  lemma BurstAfter(start: bv32, v: seq<Value>, w: seq<Value>, from: nat, width: nat)
    requires |v| == |w| && width <= 6 && from + width <= |v|
    requires v[..from] == w[..from] && v[from + width..] == w[from + width..]
    requires PolyMod.Remainder(start, Symbols(v)) == PolyMod.Remainder(start, Symbols(w))
    ensures v == w
  {
    SymbolsSlice(v, w, from, width);
    if Symbols(v) != Symbols(w) {
      PolyMod.BurstIsDetected(start, Symbols(v), Symbols(w), from, width);
    }
    SymbolsInjective(v, w);
  }

  /** Two verified lists of values under one prefix never differ within six neighbours only. */
  lemma ValuesBurstIsDetected(hrp: string, v: seq<Value>, w: seq<Value>, from: nat, width: nat)
    requires Octets(hrp) && |v| == |w| && width <= 6 && from + width <= |v|
    requires v[..from] == w[..from] && v[from + width..] == w[from + width..]
    requires Verified(hrp, v).Some? && Verified(hrp, v) == Verified(hrp, w)
    ensures v == w
  {
    VerifiedRemainder(hrp, v);
    VerifiedRemainder(hrp, w);
    BurstAfter(Start(hrp), v, w, from, width);
  }

  lemma SymbolsSlice(v: seq<Value>, w: seq<Value>, at: nat, width: nat)
    requires |v| == |w| && at + width <= |v| && v[..at] == w[..at] && v[at + width..] == w[at + width..]
    ensures PolyMod.DifferWithin(Symbols(v), Symbols(w), at, width)
  {
    assert Symbols(v)[..at] == Symbols(v[..at]) && Symbols(w)[..at] == Symbols(w[..at]);
    assert Symbols(v)[at + width..] == Symbols(v[at + width..]) && Symbols(w)[at + width..] == Symbols(w[at + width..]);
  }

  /** Two strings that differ, letter case aside, within a window only. */
  ghost predicate AgreeOutside(a: string, b: string, k: nat, width: nat) {
    && |a| == |b| && k + width <= |a|
    && forall i :: 0 <= i < |a| && !(k <= i < k + width) ==> Lowered(a)[i] == Lowered(b)[i]
  }

  lemma ValuesAgree(a: string, b: string, k: nat, width: nat)
    requires AgreeOutside(a, b, k, width) && AllValues(a) && AllValues(b)
    ensures ValuesOf(a)[..k] == ValuesOf(b)[..k] && ValuesOf(a)[k + width..] == ValuesOf(b)[k + width..]
  {
    assert Lowered(a[..k]) == Lowered(a)[..k] && Lowered(b[..k]) == Lowered(b)[..k];
    assert Lowered(a[k + width..]) == Lowered(a)[k + width..] && Lowered(b[k + width..]) == Lowered(b)[k + width..];
    ValuesFollowLowered(a[..k], b[..k]);
    ValuesFollowLowered(a[k + width..], b[k + width..]);
    assert ValuesOf(a)[..k] == ValuesOf(a[..k]) && ValuesOf(b)[..k] == ValuesOf(b[..k]);
    assert ValuesOf(a)[k + width..] == ValuesOf(a[k + width..]) && ValuesOf(b)[k + width..] == ValuesOf(b[k + width..]);
  }

  /** Cutting both strings at a separator before the window leaves the window inside the tails. */
  lemma LoweredTails(s: string, t: string, pos: nat, from: nat, width: nat)
    requires AgreeOutside(s, t, from, width) && pos < from
    ensures Lowered(s[..pos]) == Lowered(t[..pos])
    ensures AgreeOutside(s[pos + 1..], t[pos + 1..], from - pos - 1, width)
  {
    assert Lowered(s[..pos]) == Lowered(s)[..pos] && Lowered(t[..pos]) == Lowered(t)[..pos];
    var u, w := Lowered(s[pos + 1..]), Lowered(t[pos + 1..]);
    assert u == Lowered(s)[pos + 1..] && w == Lowered(t)[pos + 1..];
    forall i | 0 <= i < |u| && !(from <= pos + 1 + i < from + width) ensures u[i] == w[i] {
      assert Lowered(s)[pos + 1 + i] == Lowered(t)[pos + 1 + i];
    }
  }

  /** A prefix and a tail of characters that verify under `e`. */
  ghost predicate VerifiesAs(hrp: string, tail: string, e: Encoding) {
    AllValues(tail) && Octets(hrp) && Verified(hrp, ValuesOf(tail)) == Some(e)
  }

  lemma PartsVerify(hrp: string, tail: string)
    requires Octets(hrp) && AllValues(tail) && |tail| >= CHECKSUM_SIZE && DecodedParts(hrp, ValuesOf(tail)).Some?
    ensures VerifiesAs(hrp, tail, DecodedParts(hrp, ValuesOf(tail)).value.encoding)
  {
  }

  lemma DecodedSplits(s: string, limit: nat)
    requires DecodedFrom(s, limit).Some?
    ensures HasParts(s)
    ensures var pos := LastOne(s);
      && Octets(Lowered(s[..pos])) && AllValues(s[pos + 1..])
      && DecodedFrom(s, limit) == DecodedParts(Lowered(s[..pos]), ValuesOf(s[pos + 1..]))
  {
    LoweredIsOctets(s[..LastOne(s)]);
  }

  lemma DecodedVerifies(s: string, limit: nat)
    requires DecodedFrom(s, limit).Some?
    ensures var pos := LastOne(s);
      pos > 0 && VerifiesAs(Lowered(s[..pos]), s[pos + 1..], DecodedFrom(s, limit).value.encoding)
  {
    DecodedSplits(s, limit);
    var pos := LastOne(s);
    PartsVerify(Lowered(s[..pos]), s[pos + 1..]);
  }

  lemma SameValuesSameLetters(a: string, b: string)
    requires AllValues(a) && AllValues(b) && ValuesOf(a) == ValuesOf(b)
    ensures Lowered(a) == Lowered(b)
  {
    ValuesOfAreLower(a);
    ValuesOfAreLower(b);
  }

  lemma LettersBurstIsDetected(g: string, h: string, a: string, b: string, e: Encoding, k: nat, width: nat)
    requires g == h && VerifiesAs(g, a, e) && VerifiesAs(h, b, e) && AgreeOutside(a, b, k, width) && width <= 6
    ensures Lowered(a) == Lowered(b)
  {
    ValuesAgree(a, b, k, width);
    ValuesBurstIsDetected(g, ValuesOf(a), ValuesOf(b), k, width);
    SameValuesSameLetters(a, b);
  }

  lemma SplitLowered(s: string, pos: nat)
    requires pos < |s| && s[pos] == '1'
    ensures Lowered(s) == Lowered(s[..pos]) + "1" + Lowered(s[pos + 1..])
  {
    LowerCaseIsPlain('1');
  }

  lemma SameParts(s: string, t: string, pos: nat)
    requires pos < |s| == |t| && s[pos] == t[pos] == '1'
    requires Lowered(s[..pos]) == Lowered(t[..pos]) && Lowered(s[pos + 1..]) == Lowered(t[pos + 1..])
    ensures Lowered(s) == Lowered(t)
  {
    SplitLowered(s, pos);
    SplitLowered(t, pos);
  }

  datatype Half = Separator | Rest

  ghost predicate HalfHolds(half: Half, s: string, e: Encoding) {
    match half
    case Separator => LastOne(s) > 0
    case Rest => LastOne(s) > 0 && VerifiesAs(Lowered(s[..LastOne(s)]), s[LastOne(s) + 1..], e)
  }

  /** A string with a separator whose parts verify under `e`. */
  ghost predicate Splits(s: string, e: Encoding) { forall half :: HalfHolds(half, s, e) }

  lemma DecodedIsSplit(s: string, limit: nat)
    requires DecodedFrom(s, limit).Some?
    ensures Splits(s, DecodedFrom(s, limit).value.encoding)
  {
    DecodedVerifies(s, limit);
  }

  /** Both strings have the separator at the same place, and the same prefix before it. */
  lemma SplitTogether(s: string, t: string, e: Encoding, from: nat)
    requires Splits(s, e) && Splits(t, e) && from <= |s| == |t| && Lowered(s)[..from] == Lowered(t)[..from]
    requires LastOne(s) < from && LastOne(t) < from
    ensures 0 < LastOne(s) == LastOne(t) && s[LastOne(s)] == t[LastOne(s)] == '1'
    ensures Lowered(s[..LastOne(s)]) == Lowered(t[..LastOne(s)])
  {
    assert HalfHolds(Separator, s, e) && HalfHolds(Separator, t, e);
    SameSeparator(s, t, from);
    var pos := LastOne(s);
    assert Lowered(s[..pos]) == Lowered(s)[..from][..pos] && Lowered(t[..pos]) == Lowered(t)[..from][..pos];
  }

  lemma TailVerifies(s: string, e: Encoding)
    requires Splits(s, e)
    ensures 0 < LastOne(s) && VerifiesAs(Lowered(s[..LastOne(s)]), s[LastOne(s) + 1..], e)
  {
    assert HalfHolds(Rest, s, e);
  }

  /** Both strings verify: a difference within the window is none. */
  lemma SplitBurstIsDetected(s: string, t: string, e: Encoding, from: nat, width: nat)
    requires Splits(s, e) && Splits(t, e) && AgreeOutside(s, t, from, width) && width <= 6
    requires LastOne(s) < from && LastOne(t) < from
    ensures Lowered(s) == Lowered(t)
  {
    SplitTogether(s, t, e, from);
    var pos := LastOne(s);
    TailsBurst(s, t, pos, e, from, width);
    SameParts(s, t, pos);
  }

  lemma TailsBurst(s: string, t: string, pos: nat, e: Encoding, from: nat, width: nat)
    requires Splits(s, e) && Splits(t, e) && AgreeOutside(s, t, from, width) && width <= 6
    requires pos == LastOne(s) == LastOne(t) && pos < from
    ensures Lowered(s[pos + 1..]) == Lowered(t[pos + 1..])
  {
    var g, h, u, w := Lowered(s[..pos]), Lowered(t[..pos]), s[pos + 1..], t[pos + 1..];
    assert VerifiesAs(g, u, e) by { TailVerifies(s, e); }
    assert VerifiesAs(h, w, e) by { TailVerifies(t, e); }
    LoweredTails(s, t, pos, from, width);
    LettersBurstIsDetected(g, h, u, w, e, from - pos - 1, width);
  }

  lemma SameSeparator(s: string, t: string, from: nat)
    requires from <= |s| && from <= |t| && Lowered(s)[..from] == Lowered(t)[..from]
    requires 0 <= LastOne(s) < from && 0 <= LastOne(t) < from
    ensures LastOne(s) == LastOne(t) && s[LastOne(s)] == t[LastOne(s)] == '1'
  {
    OneIsKept(s, t, from);
    OneIsKept(t, s, from);
    LastOneIsOne(s);
    LastOneIsOne(t);
  }

  /**
   Two strings of one encoding that both decode and differ, letter case aside, only within six
   neighbouring characters after their separators, do not differ at all.
   */
  lemma NeighbouringErrorsAreDetected(s: string, t: string, from: nat, width: nat, limit: nat)
    requires DecodedFrom(s, limit).Some? && DecodedFrom(t, limit).Some?
    requires DecodedFrom(s, limit).value.encoding == DecodedFrom(t, limit).value.encoding
    requires AgreeOutside(s, t, from, width) && width <= 6
    requires LastOne(s) < from && LastOne(t) < from
    ensures Lowered(s) == Lowered(t)
  {
    DecodedIsSplit(s, limit);
    DecodedIsSplit(t, limit);
    SplitBurstIsDetected(s, t, DecodedFrom(s, limit).value.encoding, from, width);
  }

  // ---------- three wrong characters ----------

  /** Lists that agree except perhaps at three places. */
  ghost predicate AgreeBut<T(!new)>(v: seq<T>, w: seq<T>, a: nat, b: nat, c: nat) {
    && |v| == |w| && a < b < c < |v|
    && forall k :: 0 <= k < |v| && k != a && k != b && k != c ==> v[k] == w[k]
  }

  lemma SymbolsAgreeBut(v: seq<Value>, w: seq<Value>, a: nat, b: nat, c: nat)
    requires AgreeBut(v, w, a, b, c)
    ensures ThreeErrors.DifferAt(Symbols(v), Symbols(w), a, b, c)
  {
    forall k | 0 <= k < |v| && k != a && k != b && k != c ensures Symbols(v)[k] == Symbols(w)[k] {
      assert v[k] == w[k];
    }
  }

  /** Two verified lists of values under one prefix never differ in one to three places within 1023. */
  lemma ValuesThreeErrors(hrp: string, v: seq<Value>, w: seq<Value>, a: nat, b: nat, c: nat)
    requires Octets(hrp) && AgreeBut(v, w, a, b, c) && c - a < 1023
    requires Verified(hrp, v).Some? && Verified(hrp, v) == Verified(hrp, w)
    ensures v == w
  {
    VerifiedRemainder(hrp, v);
    VerifiedRemainder(hrp, w);
    SymbolsAgreeBut(v, w, a, b, c);
    if Symbols(v) != Symbols(w) {
      ThreeErrors.ThreeErrorsAreDetected(Start(hrp), Symbols(v), Symbols(w), a, b, c);
    }
    SymbolsInjective(v, w);
  }

  lemma ValuesAgreeBut(s: string, t: string, a: nat, b: nat, c: nat)
    requires AllValues(s) && AllValues(t) && AgreeBut(Lowered(s), Lowered(t), a, b, c)
    ensures AgreeBut(ValuesOf(s), ValuesOf(t), a, b, c)
  {
    forall k | 0 <= k < |s| && k != a && k != b && k != c ensures ValuesOf(s)[k] == ValuesOf(t)[k] {
      assert Lowered(s)[k] == Lowered(t)[k];
      CharOfRev(s[k]);
      CharOfRev(t[k]);
      RevOfCharOf(Rev(s[k]).value);
      RevOfCharOf(Rev(t[k]).value);
    }
  }

  lemma TailsAgreeBut(s: string, t: string, pos: nat, a: nat, b: nat, c: nat)
    requires AgreeBut(Lowered(s), Lowered(t), a, b, c) && pos < a
    ensures Lowered(s[..pos]) == Lowered(t[..pos])
    ensures AgreeBut(Lowered(s[pos + 1..]), Lowered(t[pos + 1..]), a - pos - 1, b - pos - 1, c - pos - 1)
  {
    var u, w := Lowered(s[pos + 1..]), Lowered(t[pos + 1..]);
    assert Lowered(s[..pos]) == Lowered(s)[..pos] && Lowered(t[..pos]) == Lowered(t)[..pos];
    assert u == Lowered(s)[pos + 1..] && w == Lowered(t)[pos + 1..];
    forall k | 0 <= k < |u| && k != a - pos - 1 && k != b - pos - 1 && k != c - pos - 1 ensures u[k] == w[k] {
      assert Lowered(s)[pos + 1 + k] == Lowered(t)[pos + 1 + k];
    }
  }

  lemma LettersThreeErrors(g: string, h: string, s: string, t: string, e: Encoding, a: nat, b: nat, c: nat)
    requires g == h && VerifiesAs(g, s, e) && VerifiesAs(h, t, e)
    requires AgreeBut(Lowered(s), Lowered(t), a, b, c) && c - a < 1023
    ensures Lowered(s) == Lowered(t)
  {
    ValuesAgreeBut(s, t, a, b, c);
    ValuesThreeErrors(g, ValuesOf(s), ValuesOf(t), a, b, c);
    SameValuesSameLetters(s, t);
  }

  lemma FirstAgree(s: string, t: string, a: nat, b: nat, c: nat)
    requires AgreeBut(Lowered(s), Lowered(t), a, b, c)
    ensures Lowered(s)[..a] == Lowered(t)[..a]
  {
  }

  lemma SplitThreeErrors(s: string, t: string, e: Encoding, a: nat, b: nat, c: nat)
    requires Splits(s, e) && Splits(t, e) && AgreeBut(Lowered(s), Lowered(t), a, b, c) && c - a < 1023
    requires LastOne(s) < a && LastOne(t) < a
    ensures Lowered(s) == Lowered(t)
  {
    FirstAgree(s, t, a, b, c);
    SplitTogether(s, t, e, a);
    var pos := LastOne(s);
    TailsThreeErrors(s, t, pos, e, a, b, c);
    SameParts(s, t, pos);
  }

  lemma TailsThreeErrors(s: string, t: string, pos: nat, e: Encoding, a: nat, b: nat, c: nat)
    requires Splits(s, e) && Splits(t, e) && AgreeBut(Lowered(s), Lowered(t), a, b, c) && c - a < 1023
    requires pos == LastOne(s) == LastOne(t) && pos < a
    ensures Lowered(s[pos + 1..]) == Lowered(t[pos + 1..])
  {
    var g, h, u, w := Lowered(s[..pos]), Lowered(t[..pos]), s[pos + 1..], t[pos + 1..];
    assert VerifiesAs(g, u, e) by { TailVerifies(s, e); }
    assert VerifiesAs(h, w, e) by { TailVerifies(t, e); }
    TailsAgreeBut(s, t, pos, a, b, c);
    LettersThreeErrors(g, h, u, w, e, a - pos - 1, b - pos - 1, c - pos - 1);
  }

  /**
   Two strings of one encoding that both decode and differ, letter case aside, in at most three
   characters after their separators, no two of them 1023 or more apart, do not differ at all.
   */
  lemma ScatteredErrorsAreDetected(s: string, t: string, a: nat, b: nat, c: nat, limit: nat)
    requires DecodedFrom(s, limit).Some? && DecodedFrom(t, limit).Some?
    requires DecodedFrom(s, limit).value.encoding == DecodedFrom(t, limit).value.encoding
    requires AgreeBut(Lowered(s), Lowered(t), a, b, c) && c - a < 1023
    requires LastOne(s) < a && LastOne(t) < a
    ensures Lowered(s) == Lowered(t)
  {
    DecodedIsSplit(s, limit);
    DecodedIsSplit(t, limit);
    SplitThreeErrors(s, t, DecodedFrom(s, limit).value.encoding, a, b, c);
  }
}
