/**
 Differentially coded index lists (src/blockencodings.h, DifferenceFormatter; BIP 152).  A stream is
 the list of the compact sizes written to it.
 */
module Differential {
  import opened Basics

  const U64_MAX := 0xffff_ffff_ffff_ffff

  /** The largest compact size a reader accepts (src/serialize.h). */
  const MAX_SIZE := 0x0200_0000

  function Wrap(n: nat): uint64 { n % TWO_TO_64 }

  class DifferenceFormatter {
    var shift: uint64
    var stream: seq<uint64>

    constructor (s: seq<uint64>)
      ensures shift == 0 && stream == s
    {
      shift, stream := 0, s;
    }

    /** Write one value; false stands for the exception, after which nothing was written. */
    method Ser(v: uint64) returns (ok: bool)
      modifies this
      ensures ok == Written(old(shift), v).Some?
      ensures ok ==> stream == old(stream) + [Written(old(shift), v).value] && shift == v + 1
      ensures !ok ==> stream == old(stream) && shift == old(shift)
    {
      if v < shift || v >= U64_MAX {
        return false;
      }
      stream := stream + [v - shift];
      shift := v + 1;
      ok := true;
    }

    /** Read one value of a type whose largest value is `top`; None stands for the exception. */
    method Unser(top: uint64) returns (v: Option<uint64>)
      requires stream != []
      modifies this
      ensures v == Read(old(shift), old(stream)[0], top)
      ensures v.Some? ==> shift == v.value + 1 && stream == old(stream)[1..]
    {
      var n := stream[0];
      stream := stream[1..];
      if n > MAX_SIZE {
        return None;
      }
      shift := Wrap(shift + n);
      if shift < n || shift >= U64_MAX || shift > top {
        return None;
      }
      v := Some(shift);
      shift := Wrap(shift + 1);
    }
  }

  function Written(shift: uint64, v: uint64): Option<uint64> {
    if v < shift || v >= U64_MAX then None else Some(v - shift)
  }

  /** The value the gap `n` after `shift` stands for, when it is in range. */
  function Read(shift: uint64, n: uint64, top: uint64): Option<uint64> {
    if n > MAX_SIZE || shift + n >= U64_MAX || shift + n > top then None else Some(shift + n)
  }

  /** All values written in turn. */
  function Serialized(shift: uint64, v: seq<uint64>): Option<seq<uint64>>
    decreases |v|
  {
    if v == [] then Some([]) else
      match Written(shift, v[0])
      case None => None
      case Some(n) =>
        match Serialized(v[0] + 1, v[1..])
        case None => None
        case Some(rest) => Some([n] + rest)
  }

  function Unserialized(shift: uint64, s: seq<uint64>, top: uint64): Option<seq<uint64>>
    decreases |s|
  {
    if s == [] then Some([]) else
      match Read(shift, s[0], top)
      case None => None
      case Some(v) =>
        match Unserialized(v + 1, s[1..], top)
        case None => None
        case Some(rest) => Some([v] + rest)
  }

  /** Strictly increasing from `shift` on, below the largest 64-bit value. */
  ghost predicate Increasing(shift: nat, v: seq<uint64>) {
    && (v != [] ==> shift <= v[0])
    && (forall i :: 0 <= i < |v| ==> v[i] < U64_MAX)
    && (forall i, j :: 0 <= i < j < |v| ==> v[i] < v[j])
  }

  /** What a reader whose type ends at `top` also asks: values and gaps in range. */
  ghost predicate Readable(shift: nat, v: seq<uint64>, top: uint64)
    decreases |v|
  {
    v == [] ||
    (var first: nat := v[0];
     first - shift <= MAX_SIZE && first <= top && Readable(first + 1, v[1..], top))
  }

  /** A list written element by element through one formatter. */
  method SerializeList(v: seq<uint64>) returns (r: Option<seq<uint64>>)
    ensures r == Serialized(0, v)
  {
    var f := new DifferenceFormatter([]);
    assert v[0..] == v;
    JoinedEnds([], Serialized(0, v));
    for i := 0 to |v|
      invariant Serialized(0, v) == Joined(f.stream, Serialized(f.shift, v[i..]))
    {
      var shift, stream := f.shift, f.stream;
      assert v[i..][1..] == v[i + 1..];
      var ok := f.Ser(v[i]);
      if !ok {
        return None;
      }
      JoinedStep(stream, v[i] - shift, Serialized(f.shift, v[i + 1..]));
    }
    JoinedEnds(f.stream, None);
    r := Some(f.stream);
  }

  function Joined(done: seq<uint64>, rest: Option<seq<uint64>>): Option<seq<uint64>> {
    match rest
    case None => None
    case Some(more) => Some(done + more)
  }

  lemma JoinedEnds(done: seq<uint64>, rest: Option<seq<uint64>>)
    ensures Joined([], rest) == rest
    ensures Joined(done, Some([])) == Some(done)
  {
    if rest.Some? {
      assert [] + rest.value == rest.value;
    }
    assert done + [] == done;
  }

  lemma JoinedStep(done: seq<uint64>, n: uint64, rest: Option<seq<uint64>>)
    ensures Joined(done + [n], rest)
         == Joined(done, match rest case None => None case Some(more) => Some([n] + more))
  {
    if rest.Some? {
      assert done + [n] + rest.value == done + ([n] + rest.value);
    }
  }

  method UnserializeList(s: seq<uint64>, top: uint64) returns (r: Option<seq<uint64>>)
    ensures r == Unserialized(0, s, top)
  {
    var f := new DifferenceFormatter(s);
    var done: seq<uint64> := [];
    assert s[0..] == s;
    JoinedEnds([], Unserialized(0, s, top));
    for i := 0 to |s|
      invariant f.stream == s[i..]
      invariant Unserialized(0, s, top) == Joined(done, Unserialized(f.shift, s[i..], top))
    {
      var shift := f.shift;
      assert s[i..][1..] == s[i + 1..];
      var v := f.Unser(top);
      if v == None {
        return None;
      }
      JoinedStep(done, v.value, Unserialized(f.shift, s[i + 1..], top));
      done := done + [v.value];
    }
    JoinedEnds(done, None);
    r := Some(done);
  }

  lemma IncreasingTail(shift: nat, v: seq<uint64>)
    requires v != []
    ensures Increasing(shift, v) <==> shift <= v[0] < U64_MAX && Increasing(v[0] + 1, v[1..])
  {
    if shift <= v[0] < U64_MAX && Increasing(v[0] + 1, v[1..]) {
      forall i, j | 0 <= i < j < |v| ensures v[i] < v[j] {
        assert v[j] == v[1..][j - 1];
        assert v[1] == v[1..][0];
        assert i > 0 ==> v[i] == v[1..][i - 1];
        assert j > 1 ==> v[1..][0] < v[1..][j - 1];
      }
      forall i | 0 <= i < |v| ensures v[i] < U64_MAX {
        assert i > 0 ==> v[i] == v[1..][i - 1];
      }
    }
  }

  /** Writing succeeds exactly on the strictly increasing lists. */
  lemma {:induction false} SerializesIncreasing(shift: uint64, v: seq<uint64>)
    ensures Serialized(shift, v).Some? <==> Increasing(shift, v)
    decreases |v|
  {
    if v != [] {
      IncreasingTail(shift, v);
      if v[0] < U64_MAX {
        SerializesIncreasing(v[0] + 1, v[1..]);
      }
    }
  }

  /** A list that was written reads back as itself exactly when its values and gaps are in range. */
  lemma {:induction false} ReadsBack(shift: uint64, v: seq<uint64>, top: uint64)
    requires Serialized(shift, v).Some?
    ensures Unserialized(shift, Serialized(shift, v).value, top)
         == if Readable(shift, v, top) then Some(v) else None
    decreases |v|
  {
    if v != [] {
      var rest := Serialized(v[0] + 1, v[1..]).value;
      var s := Serialized(shift, v).value;
      assert s[0] == v[0] - shift && s[1..] == rest;
      ReadsBack(v[0] + 1, v[1..], top);
      assert v == [v[0]] + v[1..];
    }
  }

  /** Whatever reads successfully is strictly increasing and is written back as the same stream. */
  lemma {:induction false} WritesBack(shift: uint64, s: seq<uint64>, top: uint64)
    requires Unserialized(shift, s, top).Some?
    ensures Serialized(shift, Unserialized(shift, s, top).value) == Some(s)
    ensures Increasing(shift, Unserialized(shift, s, top).value)
    decreases |s|
  {
    var v := Unserialized(shift, s, top).value;
    if s != [] {
      var first := Read(shift, s[0], top).value;
      assert v[0] == first && v[1..] == Unserialized(first + 1, s[1..], top).value;
      WritesBack(first + 1, s[1..], top);
      assert s == [s[0]] + s[1..];
    }
    SerializesIncreasing(shift, v);
  }

  /** Every strictly increasing list of 16-bit indexes round-trips. */
  lemma IndexListsRoundTrip(v: seq<uint64>)
    requires forall i :: 0 <= i < |v| ==> v[i] <= 0xffff
    requires forall i, j :: 0 <= i < j < |v| ==> v[i] < v[j]
    ensures Serialized(0, v).Some? && Unserialized(0, Serialized(0, v).value, 0xffff) == Some(v)
  {
    SerializesIncreasing(0, v);
    SmallIsReadable(0, v);
    ReadsBack(0, v, 0xffff);
  }

  lemma {:induction false} SmallIsReadable(shift: nat, v: seq<uint64>)
    requires forall i :: 0 <= i < |v| ==> v[i] <= 0xffff
    ensures Readable(shift, v, 0xffff)
    decreases |v|
  {
    if v != [] {
      SmallIsReadable(v[0] + 1, v[1..]);
    }
  }
}
