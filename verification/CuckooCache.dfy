/**
 The cuckoo cache (src/cuckoocache.h): a set of elements in a table of slots, each element in one of
 eight slots its hashes name, with lazily collected garbage and ageing epochs.
 */
module CuckooCache {
  import opened Basics
  import opened Bits

  // ---------- bit_packed_atomic_flags ----------

  function BitMask(i: nat): bv8
    requires i < 8
  {
    if i == 0 then 1 else if i == 1 then 2 else if i == 2 then 4 else if i == 3 then 8
    else if i == 4 then 16 else if i == 5 then 32 else if i == 6 then 64 else 128
  }

  predicate BitIn(b: bv8, i: nat)
    requires i < 8
  {
    BitMask(i) & b != 0
  }

  lemma BitSetOnly(b: bv8, i: nat, j: nat)
    requires i < 8 && j < 8
    ensures BitIn(b | BitMask(i), j) == (i == j || BitIn(b, j))
  {
  }

  lemma BitUnsetOnly(b: bv8, i: nat, j: nat)
    requires i < 8 && j < 8
    ensures BitIn(b & !BitMask(i), j) == (i != j && BitIn(b, j))
  {
  }

  /** The bytes for one flag a slot; the padded size is a 32-bit number. */
  function FlagBytes(size: uint32): nat { (size + 7) % 0x1_0000_0000 / 8 }

  /** There is a flag for every slot exactly while the padding does not wrap; beyond, there is none at all. */
  lemma FlagsSuffice(size: uint32)
    ensures size <= 8 * FlagBytes(size) <==> size <= 0xFFFF_FFF8
    ensures size > 0xFFFF_FFF8 ==> FlagBytes(size) == 0
  {
  }

  /** One flag a slot, eight to a byte; a set flag marks a slot that may be overwritten. */
  class BitPackedFlags {
    const mem: array<bv8>

    constructor (size: uint32)
      ensures fresh(mem) && mem.Length == FlagBytes(size)
      ensures forall s | 0 <= s < 8 * mem.Length :: IsSet(s)
    {
      mem := new bv8[FlagBytes(size)](_ => 0xFF);
    }

    predicate IsSet(s: nat)
      requires s < 8 * mem.Length
      reads mem
    {
      BitIn(mem[s / 8], s % 8)
    }

    method BitSet(s: nat)
      requires s < 8 * mem.Length
      modifies mem
      ensures forall t | 0 <= t < 8 * mem.Length :: IsSet(t) == (t == s || old(IsSet(t)))
    {
      forall t | 0 <= t < 8 * mem.Length && t / 8 == s / 8
        ensures BitIn(mem[s / 8] | BitMask(s % 8), t % 8) == (s % 8 == t % 8 || BitIn(mem[t / 8], t % 8))
      {
        BitSetOnly(mem[s / 8], s % 8, t % 8);
      }
      mem[s / 8] := mem[s / 8] | BitMask(s % 8);
    }

    method BitUnset(s: nat)
      requires s < 8 * mem.Length
      modifies mem
      ensures forall t | 0 <= t < 8 * mem.Length :: IsSet(t) == (t != s && old(IsSet(t)))
    {
      forall t | 0 <= t < 8 * mem.Length && t / 8 == s / 8
        ensures BitIn(mem[s / 8] & !BitMask(s % 8), t % 8) == (s % 8 != t % 8 && BitIn(mem[t / 8], t % 8))
      {
        BitUnsetOnly(mem[s / 8], s % 8, t % 8);
      }
      mem[s / 8] := mem[s / 8] & !BitMask(s % 8);
    }
  }

  // ---------- slots ----------

  /** The upper 32 bits of the 64-bit product maps a 32-bit hash onto [0, n). */
  function FastRange32(x: nat, n: nat): (r: nat)
    requires x < 0x1_0000_0000 && n > 0
    ensures r < n
  {
    FastRangeBound(x, n);
    x * n / 0x1_0000_0000
  }

  lemma FastRangeBound(x: nat, n: nat)
    requires x < 0x1_0000_0000 && n > 0
    ensures 0 <= x * n / 0x1_0000_0000 < n
  {
    assert (0x1_0000_0000 - x) * n > 0;
    assert (0x1_0000_0000 - x) * n == 0x1_0000_0000 * n - x * n;
    assert x * n >= 0;
  }

  /** The slots of an element: `hash(i, e)` is the i-th of its eight 32-bit hashes. */
  function ComputeHashes<E>(hash: (nat, E) -> uint32, size: nat, e: E): (locs: seq<nat>)
    requires size > 0
    ensures |locs| == 8 && forall i | 0 <= i < 8 :: locs[i] < size
  {
    [FastRange32(hash(0, e), size), FastRange32(hash(1, e), size), FastRange32(hash(2, e), size),
     FastRange32(hash(3, e), size), FastRange32(hash(4, e), size), FastRange32(hash(5, e), size),
     FastRange32(hash(6, e), size), FastRange32(hash(7, e), size)]
  }

  /** The table as a value: what the slots hold and which are garbage. */
  datatype Slots<E> = Slots(table: seq<E>, garbage: seq<bool>)

  ghost predicate AtOwnSlot<E>(hash: (nat, E) -> uint32, size: nat, e: E, i: nat)
    requires size > 0
  {
    i in ComputeHashes(hash, size, e)
  }

  /**
   Every element that is live or not the default one sits in one of its own slots, and none but the
   default element is in two slots.
   */
  ghost predicate Consistent<E>(hash: (nat, E) -> uint32, dflt: E, s: Slots<E>) {
    && |s.table| == |s.garbage| > 0
    && (forall i | 0 <= i < |s.table| && (s.table[i] != dflt || !s.garbage[i]) ::
          AtOwnSlot(hash, |s.table|, s.table[i], i))
    && (forall i, j | 0 <= i < j < |s.table| && s.table[i] != dflt :: s.table[i] != s.table[j])
  }

  /** The elements in slots that are not garbage. */
  ghost function Live<E>(s: Slots<E>): set<E>
    requires |s.table| == |s.garbage|
  {
    set i | 0 <= i < |s.table| && !s.garbage[i] :: s.table[i]
  }

  /** `e` is in no slot. */
  predicate Absent<E(==)>(s: Slots<E>, e: E) { forall i | 0 <= i < |s.table| :: s.table[i] != e }

  /** `e` is in one of its own eight slots. */
  predicate Found<E(==)>(hash: (nat, E) -> uint32, s: Slots<E>, e: E)
    requires |s.table| > 0
  {
    exists i | i in ComputeHashes(hash, |s.table|, e) :: s.table[i] == e
  }

  /** An element that may be put into a slot without being in two. */
  predicate Free<E(==)>(dflt: E, s: Slots<E>, e: E) { e == dflt || Absent(s, e) }

  // ---------- what insert does to the slots ----------

  /** Looking at an element's own eight slots is looking everywhere, unless it is the default one. */
  lemma OwnSlotsSuffice<E>(hash: (nat, E) -> uint32, dflt: E, s: Slots<E>, e: E)
    requires Consistent(hash, dflt, s)
    ensures e != dflt ==> (Found(hash, s, e) <==> !Absent(s, e))
    ensures e in Live(s) ==> Found(hash, s, e)
    ensures !Found(hash, s, e) ==> Free(dflt, s, e)
  {
    if e != dflt && !Absent(s, e) {
      var i :| 0 <= i < |s.table| && s.table[i] == e;
      assert AtOwnSlot(hash, |s.table|, s.table[i], i);
    }
    if e in Live(s) {
      var i :| 0 <= i < |s.table| && s.table[i] == e && !s.garbage[i];
      assert AtOwnSlot(hash, |s.table|, s.table[i], i);
    }
  }

  /** In an empty table every element but the default one is reported absent, and that one present. */
  lemma EmptyFindsDefault<E>(hash: (nat, E) -> uint32, dflt: E, s: Slots<E>, e: E)
    requires |s.table| > 0 && forall i | 0 <= i < |s.table| :: s.table[i] == dflt
    ensures Found(hash, s, e) <==> e == dflt
  {
    assert ComputeHashes(hash, |s.table|, e)[0] in ComputeHashes(hash, |s.table|, e);
  }

  /** please_keep on a slot that already holds the element. */
  lemma KeepFound<E>(hash: (nat, E) -> uint32, dflt: E, s: Slots<E>, i: nat)
    requires Consistent(hash, dflt, s) && i < |s.table| && AtOwnSlot(hash, |s.table|, s.table[i], i)
    ensures var t := s.(garbage := s.garbage[i := false]);
      Consistent(hash, dflt, t) && Live(t) == Live(s) + {s.table[i]}
  {
    var t := s.(garbage := s.garbage[i := false]);
    assert forall x | x in Live(t) :: x in Live(s) || x == s.table[i];
    forall x | x in Live(s) + {s.table[i]} ensures x in Live(t) {
      var j :| 0 <= j < |s.table| && s.table[j] == x && (j == i || !s.garbage[j]);
      assert !t.garbage[j];
    }
  }

  /** Overwriting a garbage slot of its own. */
  lemma PlaceInGarbage<E>(hash: (nat, E) -> uint32, dflt: E, s: Slots<E>, i: nat, e: E)
    requires Consistent(hash, dflt, s) && Free(dflt, s, e)
    requires i < |s.table| && s.garbage[i] && AtOwnSlot(hash, |s.table|, e, i)
    ensures var t := Slots(s.table[i := e], s.garbage[i := false]);
      Consistent(hash, dflt, t) && Live(t) == Live(s) + {e}
  {
    var t := Slots(s.table[i := e], s.garbage[i := false]);
    forall x | x in Live(s) + {e} ensures x in Live(t) {
      if x == e {
        assert !t.garbage[i] && t.table[i] == e;
      } else {
        var j :| 0 <= j < |s.table| && s.table[j] == x && !s.garbage[j];
        assert !t.garbage[j] && t.table[j] == x;
      }
    }
  }

  /** Displacing the live element of one of its own slots: one goes in, one comes out. */
  lemma Displace<E>(hash: (nat, E) -> uint32, dflt: E, s: Slots<E>, i: nat, e: E)
    requires Consistent(hash, dflt, s) && Free(dflt, s, e)
    requires i < |s.table| && !s.garbage[i] && AtOwnSlot(hash, |s.table|, e, i)
    ensures var t := s.(table := s.table[i := e]);
      && Consistent(hash, dflt, t) && Free(dflt, t, s.table[i])
      && Live(t) + {s.table[i]} == Live(s) + {e}
  {
    var t, out := s.(table := s.table[i := e]), s.table[i];
    forall x | x in Live(s) ensures x in Live(t) + {out} {
      var j :| 0 <= j < |s.table| && s.table[j] == x && !s.garbage[j];
      if j != i { assert t.table[j] == x; }
    }
    assert t.table[i] == e && !t.garbage[i];
    forall x | x in Live(t) ensures x in Live(s) + {e} {
      var j :| 0 <= j < |t.table| && t.table[j] == x && !t.garbage[j];
      if j != i { assert s.table[j] == x; }
    }
    assert out in Live(s);
  }

  // ---------- epochs ----------

  /** Slots of the current epoch that are not garbage, among the first `n`. */
  function RecentCount(epoch: seq<bool>, garbage: seq<bool>, n: nat): nat
    requires n <= |epoch| == |garbage|
  {
    if n == 0 then 0 else RecentCount(epoch, garbage, n - 1) + if epoch[n - 1] && !garbage[n - 1] then 1 else 0
  }

  /** What epoch_check leaves of the live elements: all, or when the epoch turns those of the last one. */
  ghost function LiveAfterEpoch<E>(s: Slots<E>, epoch: seq<bool>, counter: nat, epochSize: nat): set<E>
    requires |s.table| == |s.garbage| == |epoch|
  {
    if counter == 0 && RecentCount(epoch, s.garbage, |epoch|) >= epochSize then
      set i | 0 <= i < |s.table| && !s.garbage[i] && epoch[i] :: s.table[i]
    else Live(s)
  }

  /** Inserts until the next scan, when the current epoch has `count` elements and is not full. */
  function NextScan(epochSize: nat, count: nat): nat
    requires count < epochSize
  {
    Max(1, Max(epochSize / 16, epochSize - count))
  }

  /** floor(log2(n)) */
  function Log2(n: nat): nat { if n < 2 then 0 else 1 + Log2(n / 2) }

  lemma {:induction false} Log2Is(n: nat)
    requires n >= 1
    ensures Pow2(Log2(n)) <= n < Pow2(Log2(n) + 1)
  {
    if n >= 2 { Log2Is(n / 2); }
  }

  /** 45 per cent of the slots, at least one; the product is a 32-bit number. */
  function EpochSize(n: uint32): nat { Max(1, 45 * n % 0x1_0000_0000 / 100) }

  /** It is 45 per cent exactly up to 95,443,717 slots, beyond which the product wraps. */
  lemma EpochIsNearlyHalf(n: uint32)
    ensures EpochSize(n) == Max(1, 45 * n / 100) <==> n <= 95_443_717
  {
  }

  class Cache<E(==)> {
    const hash: (nat, E) -> uint32
    const dflt: E
    const size: uint32
    const collectionFlags: BitPackedFlags
    const epochSize: nat
    const depthLimit: nat
    var table: seq<E>
    var epochFlags: seq<bool>
    var epochHeuristicCounter: nat

    ghost predicate Shaped()
      reads this
    {
      size >= 2 && depthLimit >= 1 && |table| == |epochFlags| == size <= 8 * collectionFlags.mem.Length
    }

    ghost function Garbage(): (g: seq<bool>)
      requires Shaped()
      reads this, collectionFlags.mem
      ensures |g| == size && forall i | 0 <= i < size :: g[i] == collectionFlags.IsSet(i)
    {
      seq(size, i requires 0 <= i < size && Shaped() reads this, collectionFlags.mem => collectionFlags.IsSet(i))
    }

    ghost function State(): Slots<E>
      requires Shaped()
      reads this, collectionFlags.mem
    {
      Slots(table, Garbage())
    }

    ghost predicate Valid()
      reads this, collectionFlags.mem
    {
      Shaped() && Consistent(hash, dflt, State())
    }

    /**
     setup: every slot starts as garbage holding a default element.  From 4,294,967,289 slots on there
     are no flags, and the cache cannot be used.
     */
    constructor (newSize: uint32, hash: (nat, E) -> uint32, dflt: E)
      ensures Valid() <==> newSize <= 0xFFFF_FFF8
      ensures Valid() ==> Live(State()) == {}
      ensures fresh(collectionFlags.mem) && collectionFlags.mem.Length == FlagBytes(size)
      ensures this.hash == hash && this.dflt == dflt
      ensures size == Max(2, newSize) && |table| == |epochFlags| == size && forall i | 0 <= i < size :: table[i] == dflt
      ensures depthLimit >= 1 && Pow2(depthLimit) <= size < Pow2(depthLimit + 1)
      ensures epochSize == epochHeuristicCounter == EpochSize(size)
      ensures forall i | 0 <= i < size :: !epochFlags[i]
    {
      this.hash, this.dflt := hash, dflt;
      var n := Max(2, newSize);
      size := n;
      Log2Is(n);
      FlagsSuffice(n);
      depthLimit := Log2(n);
      table := seq(n, _ => dflt);
      collectionFlags := new BitPackedFlags(n);
      epochFlags := seq(n, _ => false);
      epochSize := EpochSize(n);
      epochHeuristicCounter := EpochSize(n);
    }

    method PleaseKeep(i: nat)
      requires Shaped() && i < size
      modifies collectionFlags.mem
      ensures Garbage() == old(Garbage())[i := false]
    {
      collectionFlags.BitUnset(i);
    }

    method AllowErase(i: nat)
      requires Shaped() && i < size
      modifies collectionFlags.mem
      ensures Garbage() == old(Garbage())[i := true]
    {
      collectionFlags.BitSet(i);
    }

    /**
     Found exactly when the element is in one of its own slots, garbage or not, which for any but the
     default element is in some slot; erasing only marks the slot.
     */
    method Contains(e: E, erase: bool) returns (found: bool)
      requires Valid()
      modifies collectionFlags.mem
      ensures Valid() && found == Found(hash, State(), e)
      ensures e != dflt ==> found == !Absent(State(), e)
      ensures e in old(Live(State())) ==> found
      ensures !erase ==> Live(State()) == old(Live(State()))
      ensures erase && e != dflt ==> Live(State()) == old(Live(State())) - {e}
      ensures erase && e == dflt ==> old(Live(State())) - {e} <= Live(State()) <= old(Live(State()))
    {
      ghost var s := State();
      var locs := ComputeHashes(hash, size, e);
      OwnSlotsSuffice(hash, dflt, s, e);
      var k := FindElement(e, locs);
      if k < 8 {
        if erase {
          AllowErase(locs[k]);
          EraseOne(hash, dflt, s, locs[k]);
          assert State() == s.(garbage := s.garbage[locs[k] := true]);
        }
        return true;
      }
      found := false;
    }

    /** Counts the current epoch and, when it is full, turns the old one into garbage. */
    method EpochCheck()
      requires Valid()
      modifies this`epochFlags, this`epochHeuristicCounter, collectionFlags.mem
      ensures Valid() && Live(State()) <= old(Live(State()))
      ensures Live(State()) == old(LiveAfterEpoch(State(), epochFlags, epochHeuristicCounter, epochSize))
      ensures old(epochHeuristicCounter) != 0 ==>
        epochHeuristicCounter == old(epochHeuristicCounter) - 1 && epochFlags == old(epochFlags)
      ensures old(epochHeuristicCounter) == 0 ==>
        var count := old(RecentCount(epochFlags, Garbage(), size));
        if count >= epochSize then epochHeuristicCounter == epochSize && forall i | 0 <= i < size :: !epochFlags[i]
        else epochHeuristicCounter == NextScan(epochSize, count) && epochFlags == old(epochFlags)
    {
      if epochHeuristicCounter != 0 {
        epochHeuristicCounter := epochHeuristicCounter - 1;
        assert State() == old(State());
        return;
      }
      var count := CountRecent();
      if count >= epochSize {
        ghost var s, epoch := State(), epochFlags;
        TurnEpoch();
        epochHeuristicCounter := epochSize;
        AgedLive(hash, dflt, s, epoch, State());
      } else {
        epochHeuristicCounter := NextScan(epochSize, count);
        assert State() == old(State());
      }
    }

    method CountRecent() returns (count: nat)
      requires Shaped()
      ensures count == RecentCount(epochFlags, Garbage(), size)
    {
      count := 0;
      ghost var garbage := Garbage();
      for i := 0 to size
        invariant count == RecentCount(epochFlags, garbage, i)
      {
        assert garbage[i] == collectionFlags.IsSet(i);
        count := count + if epochFlags[i] && !collectionFlags.IsSet(i) then 1 else 0;
      }
    }

    method TurnEpoch()
      requires Shaped()
      modifies this`epochFlags, collectionFlags.mem
      ensures Shaped() && forall i | 0 <= i < size :: !epochFlags[i]
      ensures forall i | 0 <= i < size :: Garbage()[i] == (old(Garbage())[i] || !old(epochFlags)[i])
    {
      ghost var garbage, epoch := Garbage(), epochFlags;
      for i := 0 to size
        invariant Shaped()
        invariant forall j | 0 <= j < i :: !epochFlags[j]
        invariant forall j | i <= j < size :: epochFlags[j] == epoch[j]
        invariant forall j | 0 <= j < size :: Garbage()[j] == (garbage[j] || (j < i && !epoch[j]))
      {
        if epochFlags[i] {
          epochFlags := epochFlags[i := false];
        } else {
          AllowErase(i);
        }
      }
    }

    /**
     After the epoch check the live elements are the old ones plus the inserted one, less at most one
     that fell out at the end of a chain of displacements.  The default element may be in several
     slots, so when it falls out it may still be live.
     */
    method Insert(e: E) returns (ghost dropped: Option<E>)
      requires Valid()
      modifies this, collectionFlags.mem
      ensures Valid()
      ensures var kept := old(LiveAfterEpoch(State(), epochFlags, epochHeuristicCounter, epochSize)) + {e};
        match dropped
        case None => Live(State()) == kept
        case Some(x) => x in kept && (Live(State()) == kept - {x} || (x == dflt && Live(State()) == kept))
      ensures old(Found(hash, State(), e)) ==> dropped == None
    {
      EpochCheck();
      dropped := InsertAged(e);
    }

    /** The part of insert after the epoch check. */
    method InsertAged(e: E) returns (ghost dropped: Option<E>)
      requires Valid()
      modifies this`table, this`epochFlags, collectionFlags.mem
      ensures Valid()
      ensures var kept := old(Live(State())) + {e};
        match dropped
        case None => Live(State()) == kept
        case Some(x) => x in kept && (Live(State()) == kept - {x} || (x == dflt && Live(State()) == kept))
      ensures old(Found(hash, State(), e)) ==> dropped == None
    {
      var locs := ComputeHashes(hash, size, e);
      OwnSlotsSuffice(hash, dflt, State(), e);
      var k := FindElement(e, locs);
      if k < 8 {
        assert AtOwnSlot(hash, size, e, locs[k]);
        KeepAt(e, locs[k]);
        return None;
      }
      dropped := Settle(e);
    }

    /** The element is there already: make sure it is not overwritten. */
    method KeepAt(e: E, loc: nat)
      requires Valid() && loc < size && table[loc] == e && AtOwnSlot(hash, size, e, loc)
      modifies this`epochFlags, collectionFlags.mem
      ensures Valid() && Live(State()) == old(Live(State())) + {e}
    {
      ghost var s := State();
      KeepFound(hash, dflt, s, loc);
      PleaseKeep(loc);
      epochFlags := epochFlags[loc := true];
      assert State() == s.(garbage := s.garbage[loc := false]);
    }

    /** The displacement loop, for an element that is in none of its slots. */
    method Settle(e: E) returns (ghost dropped: Option<E>)
      requires Valid() && Free(dflt, State(), e)
      modifies this`table, this`epochFlags, collectionFlags.mem
      ensures Valid()
      ensures var kept := old(Live(State())) + {e};
        match dropped
        case None => Live(State()) == kept
        case Some(x) => x in kept && (Live(State()) == kept - {x} || (x == dflt && Live(State()) == kept))
      ensures dropped.Some? ==> NoGarbageAt(old(Garbage()), ComputeHashes(hash, size, e))
    {
      var inHand, lastLoc: Option<nat>, lastEpoch := e, None, true;
      ghost var kept := Live(State()) + {e};
      for depth := 0 to depthLimit
        invariant Valid() && Free(dflt, State(), inHand)
        invariant Live(State()) + {inHand} == kept
        invariant depth == 0 ==> inHand == e && Garbage() == old(Garbage())
        invariant depth > 0 ==> NoGarbageAt(old(Garbage()), ComputeHashes(hash, size, e))
      {
        var placed;
        placed, inHand, lastLoc, lastEpoch := PlaceOrDisplace(inHand, lastLoc, lastEpoch);
        if placed {
          return None;
        }
      }
      if inHand != dflt { NotLive(State(), inHand); }
      LessOne(Live(State()), kept, inHand);
      dropped := Some(inHand);
    }

    /** One round: into a garbage slot, or in exchange for the element at the next place. */
    method PlaceOrDisplace(e: E, lastLoc: Option<nat>, lastEpoch: bool)
      returns (placed: bool, out: E, outLoc: Option<nat>, outEpoch: bool)
      requires Valid() && Free(dflt, State(), e)
      modifies this`table, this`epochFlags, collectionFlags.mem
      ensures Valid()
      ensures placed ==> Live(State()) == old(Live(State())) + {e}
      ensures !placed ==>
        && Free(dflt, State(), out) && Live(State()) + {out} == old(Live(State())) + {e}
        && NoGarbageAt(old(Garbage()), ComputeHashes(hash, size, e))
    {
      var locs := ComputeHashes(hash, size, e);
      var k := FindGarbage(locs);
      if k < 8 {
        assert AtOwnSlot(hash, size, e, locs[k]);
        PutIn(e, locs[k], lastEpoch);
        return true, e, lastLoc, lastEpoch;
      }
      var loc := NextLoc(locs, lastLoc);
      assert AtOwnSlot(hash, size, e, loc) && !Garbage()[loc];
      out, outEpoch := Swap(e, loc, lastEpoch);
      placed, outLoc := false, Some(loc);
    }

    method PutIn(e: E, loc: nat, epoch: bool)
      requires Valid() && Free(dflt, State(), e)
      requires loc < size && Garbage()[loc] && AtOwnSlot(hash, size, e, loc)
      modifies this`table, this`epochFlags, collectionFlags.mem
      ensures Valid() && Live(State()) == old(Live(State())) + {e}
    {
      ghost var s := State();
      PlaceInGarbage(hash, dflt, s, loc, e);
      PleaseKeep(loc);
      table := table[loc := e];
      epochFlags := epochFlags[loc := epoch];
      assert State() == Slots(s.table[loc := e], s.garbage[loc := false]);
    }

    method Swap(e: E, loc: nat, epoch: bool) returns (out: E, outEpoch: bool)
      requires Valid() && Free(dflt, State(), e)
      requires loc < size && !Garbage()[loc] && AtOwnSlot(hash, size, e, loc)
      modifies this`table, this`epochFlags
      ensures Valid() && out == old(table)[loc] && outEpoch == old(epochFlags)[loc]
      ensures Free(dflt, State(), out) && Live(State()) + {out} == old(Live(State())) + {e}
    {
      ghost var s := State();
      Displace(hash, dflt, s, loc, e);
      out, outEpoch := table[loc], epochFlags[loc];
      table := table[loc := e];
      epochFlags := epochFlags[loc := epoch];
      assert State() == s.(table := s.table[loc := e]);
    }

    /** The first of the element's slots that holds it, or 8. */
    method FindElement(e: E, locs: seq<nat>) returns (k: nat)
      requires Shaped() && |locs| == 8 && forall i | 0 <= i < 8 :: locs[i] < size
      ensures k <= 8 && (k < 8 ==> table[locs[k]] == e)
      ensures k == 8 ==> forall i | i in locs :: table[i] != e
    {
      k := 0;
      while k < 8
        invariant 0 <= k <= 8 && forall j | 0 <= j < k :: table[locs[j]] != e
      {
        if table[locs[k]] == e { return; }
        k := k + 1;
      }
    }

    /** The first of the slots that may be overwritten, or 8. */
    method FindGarbage(locs: seq<nat>) returns (k: nat)
      requires Shaped() && |locs| == 8 && forall i | 0 <= i < 8 :: locs[i] < size
      ensures k <= 8 && (k < 8 ==> Garbage()[locs[k]])
      ensures k == 8 ==> NoGarbageAt(Garbage(), locs)
    {
      k := 0;
      while k < 8
        invariant 0 <= k <= 8 && forall j | 0 <= j < k :: !Garbage()[locs[j]]
      {
        if collectionFlags.IsSet(locs[k]) { return; }
        k := k + 1;
      }
    }
  }

  /** The live elements once every slot outside the current epoch has been marked. */
  lemma AgedLive<E>(hash: (nat, E) -> uint32, dflt: E, s: Slots<E>, epoch: seq<bool>, t: Slots<E>)
    requires Consistent(hash, dflt, s) && |epoch| == |s.table| == |t.garbage| && t.table == s.table
    requires forall i | 0 <= i < |epoch| :: t.garbage[i] == (s.garbage[i] || !epoch[i])
    ensures Consistent(hash, dflt, t) && Live(t) <= Live(s)
    ensures Live(t) == set i | 0 <= i < |s.table| && !s.garbage[i] && epoch[i] :: s.table[i]
  {
    var recent := set i | 0 <= i < |s.table| && !s.garbage[i] && epoch[i] :: s.table[i];
    forall x | x in Live(t) ensures x in recent && x in Live(s) {
      var i :| 0 <= i < |t.table| && !t.garbage[i] && t.table[i] == x;
      assert !s.garbage[i] && epoch[i];
    }
    forall x | x in recent ensures x in Live(t) {
      var i :| 0 <= i < |s.table| && !s.garbage[i] && epoch[i] && s.table[i] == x;
      assert !t.garbage[i];
    }
  }

  lemma NotLive<E>(s: Slots<E>, e: E)
    requires |s.table| == |s.garbage| && Absent(s, e)
    ensures e !in Live(s)
  {
  }

  /** None of the places may be overwritten. */
  predicate NoGarbageAt(garbage: seq<bool>, locs: seq<nat>) {
    forall i | i in locs :: i < |garbage| && !garbage[i]
  }

  /** The position displaced next: the one after where the last displacement left off. */
  function NextLoc(locs: seq<nat>, last: Option<nat>): (loc: nat)
    requires |locs| == 8
    ensures loc in locs
  {
    locs[(1 + IndexOf(locs, last, 0)) % 8]
  }

  /** std::find: the first position of `last` from `k` on, or the end. */
  function IndexOf(locs: seq<nat>, last: Option<nat>, k: nat): nat
    requires k <= |locs|
    decreases |locs| - k
  {
    if k == |locs| || last == Some(locs[k]) then k else IndexOf(locs, last, k + 1)
  }

  lemma {:induction false} NotFound(locs: seq<nat>, k: nat)
    requires k <= |locs|
    ensures IndexOf(locs, None, k) == |locs|
    decreases |locs| - k
  {
    if k < |locs| {
      NotFound(locs, k + 1);
    }
  }

  /** With no displacement yet, the search ends past the last location and the second one is displaced. */
  lemma FirstDisplacement(locs: seq<nat>)
    requires |locs| == 8
    ensures NextLoc(locs, None) == locs[1]
  {
    NotFound(locs, 0);
  }

  lemma LessOne<E>(live: set<E>, kept: set<E>, x: E)
    requires live + {x} == kept
    ensures x in kept && (x !in live ==> live == kept - {x}) && (x in live ==> live == kept)
  {
  }

  lemma EraseOne<E>(hash: (nat, E) -> uint32, dflt: E, s: Slots<E>, i: nat)
    requires Consistent(hash, dflt, s) && i < |s.table|
    ensures var t := s.(garbage := s.garbage[i := true]);
      && Consistent(hash, dflt, t) && Live(s) - {s.table[i]} <= Live(t) <= Live(s)
      && (s.table[i] != dflt ==> Live(t) == Live(s) - {s.table[i]})
  {
    var t := s.(garbage := s.garbage[i := true]);
    forall x | x in Live(s) && x != s.table[i] ensures x in Live(t) {
      var j :| 0 <= j < |s.table| && s.table[j] == x && !s.garbage[j];
      assert !t.garbage[j];
    }
    forall x | x in Live(t) ensures x in Live(s) && (s.table[i] != dflt ==> x != s.table[i]) {
      var j :| 0 <= j < |t.table| && t.table[j] == x && !t.garbage[j];
      assert j != i && !s.garbage[j];
    }
  }
}
