/**
 The counter of transactions taken from the extra pool (extra_count in src/blockencodings.cpp), which
 is raised when the extra pool fills a slot and lowered when it clears one, whoever had filled it.
 */
module ExtraPool {
  import opened Basics
  import opened BlockEncodings
  import opened Holding

  // ---------- the scans decide everything ----------

  lemma SlotMapIsUnique(ids: seq<nat>, a: Slots, x: map<nat, nat>, y: map<nat, nat>)
    requires SlotMap(ids, a, x) && SlotMap(ids, a, y)
    ensures x == y
  {
    forall id | id in x ensures id in y && x[id] == y[id] {
      var i :| 0 <= i < |ids| && ids[i] == id;
      NthEmptyUnique(a, i, x[ids[i]], i, y[ids[i]]);
      NthEmptyUnique(a, i, y[ids[i]], i, x[ids[i]]);
    }
  }

  /** A message and the two pools determine the slots and both counters. */
  lemma ScannedIsUnique(ids: seq<nat>, placed: Slots, sid: nat -> nat, pool: seq<Tx>, extra: seq<Option<Tx>>,
                        base: Counts, a: Slots, c: Counts, b: Slots, d: Counts)
    requires Scanned(ids, placed, sid, pool, extra, base, a, c)
    requires Scanned(ids, placed, sid, pool, extra, base, b, d)
    ensures a == b && c == d
  {
    var x :| SlotMap(ids, placed, x) && ScannedBy(placed, x, sid, pool, extra, base, a, c);
    var y :| SlotMap(ids, placed, y) && ScannedBy(placed, y, sid, pool, extra, base, b, d);
    SlotMapIsUnique(ids, placed, x, y);
  }

  // ---------- when the counter wraps ----------

  /** The ids one pool transaction has, and an extra one of another witness hash too. */
  ghost function Lost(sid: nat -> nat, ids: seq<nat>, pool: seq<Tx>, extra: seq<Tx>): set<nat> {
    set id | id in ids && Matches(sid, id, pool) == 1 && !SameHash(sid, id, pool + extra)
  }

  /** The ids no pool transaction has, and extra ones of a single witness hash. */
  ghost function Gained(sid: nat -> nat, ids: seq<nat>, pool: seq<Tx>, extra: seq<Tx>): set<nat> {
    set id | id in ids && Matches(sid, id, pool) == 0 && Matches(sid, id, extra) > 0 && SameHash(sid, id, extra)
  }

  lemma LostOrKept(sid: nat -> nat, id: nat, pool: seq<Tx>, extra: seq<Tx>)
    requires Matches(sid, id, pool) == 1
    ensures Held(sid, id, pool, pool + extra) <==> SameHash(sid, id, pool + extra)
  {
    MatchesAppend(sid, id, pool, extra);
    FirstIs(sid, id, pool + extra);
  }

  lemma GainedOrNot(sid: nat -> nat, id: nat, pool: seq<Tx>, extra: seq<Tx>)
    requires Matches(sid, id, pool) == 0
    ensures Held(sid, id, pool, pool + extra) <==> Matches(sid, id, extra) > 0 && SameHash(sid, id, extra)
  {
    MatchesAppend(sid, id, pool, extra);
    FirstIs(sid, id, pool + extra);
    FirstIs(sid, id, pool);
    assert forall x :: x in pool + extra && sid(x.witnessHash) == id ==> x in extra;
    assert forall x :: x in extra ==> x in pool + extra;
  }

  /** The two sets are what the extra pool takes from and adds to the held ids. */
  lemma Changed(sid: nat -> nat, ids: seq<nat>, pool: seq<Tx>, extra: seq<Tx>)
    ensures Lost(sid, ids, pool, extra) == HeldIds(sid, ids, pool, pool) - HeldIds(sid, ids, pool, pool + extra)
    ensures Gained(sid, ids, pool, extra) == HeldIds(sid, ids, pool, pool + extra) - HeldIds(sid, ids, pool, pool)
  {
    forall id | id in ids
      ensures id in Lost(sid, ids, pool, extra) <==>
        Held(sid, id, pool, pool) && !Held(sid, id, pool, pool + extra)
      ensures id in Gained(sid, ids, pool, extra) <==>
        Held(sid, id, pool, pool + extra) && !Held(sid, id, pool, pool)
    {
      HeldByPool(sid, id, pool);
      if Matches(sid, id, pool) == 1 { LostOrKept(sid, id, pool, extra); }
      if Matches(sid, id, pool) == 0 { GainedOrNot(sid, id, pool, extra); }
    }
  }

  lemma Difference(a: set<nat>, b: set<nat>)
    ensures |b| - |a| == |b - a| - |a - b|
  {
    assert a == (a * b) + (a - b) && b == (a * b) + (b - a);
  }

  lemma {:induction false} NoMoreThanIds(ids: seq<nat>, a: set<nat>)
    requires forall id :: id in a ==> id in ids
    ensures |a| <= |ids|
  {
    if ids == [] {
      assert a == {};
    } else {
      var n := |ids| - 1;
      assert ids == ids[..n] + [ids[n]];
      NoMoreThanIds(ids[..n], a - {ids[n]});
      TakeOut(a, ids[n]);
    }
  }

  /** The counter after `gained` and `lost` ids, as a 64-bit number: right exactly when it stays above zero. */
  predicate CountsTo(extra: uint64, gained: nat, lost: nat, result: uint64) {
    && result == (extra + gained - lost) % TWO_TO_64
    && (result == extra + gained - lost <==> lost <= extra + gained)
  }

  /**
   The counter grows by the ids gained from the extra pool less those lost to it, as a 64-bit number.
   It is right exactly when no more are lost than it held before and are gained, which for a new
   object is: no more lost than gained.
   */
  lemma ExtraCountIsExact(ids: seq<nat>, placed: Slots, sid: nat -> nat, pool: seq<Tx>, extra: seq<Option<Tx>>,
                          base: Counts, avail: Slots, count: Counts)
    requires Scanned(ids, placed, sid, pool, extra, base, avail, count) && base.extra + |ids| < TWO_TO_64
    ensures var p := FromPool(sid, ids, base.mempool, pool);
      var x := FromExtra(sid, ids, base.mempool, pool, extra);
      CountsTo(base.extra, |Gained(sid, ids, p, x)|, |Lost(sid, ids, p, x)|, count.extra)
  {
    var p, x := FromPool(sid, ids, base.mempool, pool), FromExtra(sid, ids, base.mempool, pool, extra);
    var from, to := ScanCounts(ids, placed, sid, pool, extra, base, avail, count);
    ChangedCount(sid, ids, p, x);
    MovedIsExact(base.extra, from, to, |Gained(sid, ids, p, x)|, |Lost(sid, ids, p, x)|, |ids|);
  }

  lemma ScanCounts(ids: seq<nat>, placed: Slots, sid: nat -> nat, pool: seq<Tx>, extra: seq<Option<Tx>>,
                   base: Counts, avail: Slots, count: Counts)
    returns (from: nat, to: nat)
    requires Scanned(ids, placed, sid, pool, extra, base, avail, count)
    ensures count.extra == Moved(base.extra, from, to)
    ensures var p := FromPool(sid, ids, base.mempool, pool);
      && from == base.mempool + |HeldIds(sid, ids, p, p)|
      && to == base.mempool + |HeldIds(sid, ids, p, Candidates(sid, ids, base.mempool, pool, extra))|
  {
    var slots :| SlotMap(ids, placed, slots) && ScannedBy(placed, slots, sid, pool, extra, base, avail, count);
    ScansFollow(ids, placed, slots, sid, base.mempool, pool, extra);
    var m := PoolScan(Untouched(placed, base.mempool), slots, sid, pool);
    var r := ExtraScan(m, slots, sid, extra);
    var p := FromPool(sid, ids, base.mempool, pool);
    FollowsCount(ids, placed, slots, sid, base.mempool, p, p, m);
    FollowsCount(ids, placed, slots, sid, base.mempool, p, Candidates(sid, ids, base.mempool, pool, extra), r);
    from, to := m.count, r.count;
  }

  lemma ChangedCount(sid: nat -> nat, ids: seq<nat>, p: seq<Tx>, x: seq<Tx>)
    ensures |HeldIds(sid, ids, p, p + x)| - |HeldIds(sid, ids, p, p)|
         == |Gained(sid, ids, p, x)| - |Lost(sid, ids, p, x)|
    ensures |Gained(sid, ids, p, x)| <= |ids| && |Lost(sid, ids, p, x)| <= |ids|
  {
    Changed(sid, ids, p, x);
    Difference(HeldIds(sid, ids, p, p), HeldIds(sid, ids, p, p + x));
    NoMoreThanIds(ids, Gained(sid, ids, p, x));
    NoMoreThanIds(ids, Lost(sid, ids, p, x));
  }

  lemma MovedIsExact(extra: uint64, from: nat, to: nat, gained: nat, lost: nat, n: nat)
    requires to - from == gained - lost && gained <= n && lost <= n && extra + n < TWO_TO_64
    ensures CountsTo(extra, gained, lost, Moved(extra, from, to))
  {
  }

  // ---------- without collisions nothing is lost ----------

  /** No transaction of the extra pool has the short id of a different one in the pool. */
  ghost predicate NoCollision(sid: nat -> nat, pool: seq<Tx>, extra: seq<Option<Tx>>) {
    forall t, e :: t in pool && Some(e) in extra && sid(t.witnessHash) == sid(e.witnessHash) ==>
      t.witnessHash == e.witnessHash
  }

  lemma {:induction false} PresentMembers(extra: seq<Option<Tx>>, tx: Tx)
    requires tx in Present(extra)
    ensures Some(tx) in extra
  {
    var n := |extra| - 1;
    if tx in Present(extra[..n]) { PresentMembers(extra[..n], tx); }
  }

  /** Without such a collision the counter never wraps, whatever it held before. */
  lemma NoCollisionNoWrap(ids: seq<nat>, sid: nat -> nat, base: nat, pool: seq<Tx>, extra: seq<Option<Tx>>)
    requires NoCollision(sid, pool, extra)
    ensures Lost(sid, ids, FromPool(sid, ids, base, pool), FromExtra(sid, ids, base, pool, extra)) == {}
  {
    var p, x := FromPool(sid, ids, base, pool), FromExtra(sid, ids, base, pool, extra);
    forall id | Matches(sid, id, p) == 1 ensures SameHash(sid, id, p + x) {
      OneMatchOneHash(sid, id, p);
      FirstIs(sid, id, p);
      var t := First(sid, id, p).value;
      forall y: Tx | y in p + x && sid(y.witnessHash) == id ensures y.witnessHash == t.witnessHash {
        if y in x { PresentMembers(extra[..ExtraSeen(sid, ids, base, p, extra, 0)], y); }
      }
    }
  }

  // ---------- an input on which it does ----------

  /**
   One announced transaction, one transaction in the pool and a different one in the extra pool, all
   of the same short id: the message is accepted, the pool fills the slot, the extra pool clears it,
   and the counter of a new object goes below zero.
   */
  lemma CollisionWraps(header: Header, sid: nat -> nat, a: Tx, b: Tx)
    requires header.bits != 0 && sid(a.witnessHash) == sid(b.witnessHash) && a.witnessHash != b.witnessHash
    ensures var cmpct := CompactBlock(header, [sid(a.witnessHash)], []);
      && InitStatus(Header(0, 0), [], cmpct, {}) == OK
      && Scanned(cmpct.shortTxIds, AllPlaced(cmpct), sid, [a], [Some(b)], Counts(0, 0),
                 [None], Counts(0, TWO_TO_64 - 1))
  {
    var id := sid(a.witnessHash);
    var slots := map[id := 0];
    assert AllPlaced(CompactBlock(header, [id], [])) == [None];
    assert SlotMap([id], [None], slots);
    OneCollision(slots, sid, a, b);
    assert ScannedBy([None], slots, sid, [a], [Some(b)], Counts(0, 0), [None], Counts(0, TWO_TO_64 - 1));
  }

  lemma OneCollision(slots: map<nat, nat>, sid: nat -> nat, a: Tx, b: Tx)
    requires slots == map[sid(a.witnessHash) := 0]
    requires sid(a.witnessHash) == sid(b.witnessHash) && a.witnessHash != b.witnessHash
    ensures Fits(Untouched([None], 0), slots)
    ensures PoolScan(Untouched([None], 0), slots, sid, [a]) == Match([Some(a)], [true], 1)
    ensures ExtraScan(Match([Some(a)], [true], 1), slots, sid, [Some(b)]) == Match([None], [true], 0)
  {
    var m := Untouched([None], 0);
    assert PoolTake(m, slots, sid, a) == Match([Some(a)], [true], 1);
    assert |slots| == 1;
    var n := Match([Some(a)], [true], 1);
    assert ExtraTake(n, slots, sid, b) == Match([None], [true], 0);
  }
}
