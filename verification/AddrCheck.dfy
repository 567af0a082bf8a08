/**
 What the consistency check of the address manager tests (src/addrman.cpp, CheckAddrman), drawn from
 the condition that every run keeps, and when its tests on times hold.
 */
module AddrCheck {
  import opened AddrTables
  import opened AddrSteps
  import opened AddrMoves
  import opened AddrOps

  // ---------- sizes ----------

  lemma {:induction false} ListedOnce(r: seq<nat>, n: nat)
    requires n <= |r| && forall i, j :: 0 <= i < j < |r| ==> r[i] != r[j]
    ensures |set i | 0 <= i < n :: r[i]| == n
  {
    var all := set i | 0 <= i < n :: r[i];
    if n == 0 {
      assert all == {};
    } else {
      ListedOnce(r, n - 1);
      assert all == (set i | 0 <= i < n - 1 :: r[i]) + {r[n - 1]};
    }
  }

  /** The random order has one place for each entry. */
  lemma OrderListsEntries(m: map<nat, Info>, r: seq<nat>)
    requires RandomOk(m, r)
    ensures |r| == |m|
  {
    forall i, j | 0 <= i < j < |r| ensures r[i] != r[j] {
      assert m[r[i]].randomPos == i && m[r[j]].randomPos == j;
    }
    ListedOnce(r, |r|);
    forall id | id in m ensures id in set i | 0 <= i < |r| :: r[i] {
      assert r[m[id].randomPos] == id;
    }
    assert m.Keys == set i | 0 <= i < |r| :: r[i];
    assert |m| == |m.Keys|;
  }

  lemma NewOrTried(h: Hash, m: map<nat, Info>)
    ensures |m| == |Counted(h, m, {}, false, AnyNet)| + |Counted(h, m, {}, true, AnyNet)|
  {
    var a, b := Counted(h, m, {}, false, AnyNet), Counted(h, m, {}, true, AnyNet);
    assert a !! b && m.Keys == a + b;
    assert |m| == |m.Keys|;
  }

  /** Every entry is new or tried, so the two totals add up to the length of the random order. */
  lemma TotalsAddUp(h: Hash, s: State)
    requires Inv(h, s, {}, {})
    ensures |s.vRandom| == s.nNew + s.nTried
  {
    assert |s.vRandom| == |s.mapInfo| by {
      assert Holds(Random, h, s, {}, {});
      OrderListsEntries(s.mapInfo, s.vRandom);
    }
    NewOrTried(h, s.mapInfo);
    assert Holds(Totals, h, s, {}, {});
  }

  /** The buckets of the new table that hold `id`. */
  ghost function BucketsOf(h: Hash, t: Table, addr: nat, id: nat, n: nat): set<nat> {
    set b: nat | b < n && At(t, b, NewPos(h, addr, b)) == id
  }

  lemma {:induction false} RefsCountBuckets(h: Hash, t: Table, addr: nat, id: nat, n: nat)
    ensures Refs(h, t, addr, id, n) == |BucketsOf(h, t, addr, id, n)|
  {
    if n == 0 {
      assert BucketsOf(h, t, addr, id, 0) == {};
    } else {
      RefsCountBuckets(h, t, addr, id, n - 1);
      if At(t, n - 1, NewPos(h, addr, n - 1)) == id {
        assert BucketsOf(h, t, addr, id, n) == BucketsOf(h, t, addr, id, n - 1) + {n - 1};
      } else {
        assert BucketsOf(h, t, addr, id, n) == BucketsOf(h, t, addr, id, n - 1);
      }
    }
  }

  /**
   A new entry is in one to eight buckets of the new table, at its hashed position in each and nowhere
   else in the table; a tried entry is in none, and in exactly its own slot of the tried table.
   */
  lemma EveryEntryIsPlaced(h: Hash, s: State, id: nat)
    requires Inv(h, s, {}, {}) && id in s.mapInfo
    ensures var info := s.mapInfo[id];
      && (forall b: nat, i: nat {:trigger At(s.vvNew, b, i)} ::
            At(s.vvNew, b, i) == id ==>
              b in BucketsOf(h, s.vvNew, info.addr, id, NEW_BUCKETS) && i == NewPos(h, info.addr, b))
      && |BucketsOf(h, s.vvNew, info.addr, id, NEW_BUCKETS)| == info.refCount
      && (if info.inTried then info.refCount == 0 else 1 <= info.refCount <= NEW_BUCKETS_PER_ADDRESS)
      && (forall b: nat, i: nat {:trigger At(s.vvTried, b, i)} ::
            At(s.vvTried, b, i) == id <==>
              info.inTried && b == TriedBucket(h, info.addr) && i == TriedPos(h, info.addr))
  {
    var info := s.mapInfo[id];
    assert Holds(NewSlots, h, s, {}, {}) && Holds(RefCounts, h, s, {}, {});
    assert Holds(TriedSlots, h, s, {}, {}) && Holds(Status, h, s, {}, {});
    RefsCountBuckets(h, s.vvNew, info.addr, id, |s.vvNew|);
  }

  // ---------- times ----------

  /** No time is negative, and a tried entry had a success at a time other than zero. */
  ghost predicate TimesOk(m: map<nat, Info>) {
    forall id :: id in m ==> m[id].lastTry >= 0 && m[id].lastSuccess >= 0 && (m[id].inTried ==> m[id].lastSuccess != 0)
  }

  lemma TimesPersist(m: map<nat, Info>, n: map<nat, Info>, moved: set<nat>)
    requires TimesOk(m) && PersistsBut(m, n, moved) && forall id :: id in moved && id in m ==> m[id].lastSuccess != 0
    ensures TimesOk(n)
  {
  }

  lemma AddTimes(h: Hash, s: State, addr: Address, source: nat, penalty: int, now: int, lucky: bool)
    requires Inv(h, s, {}, {}) && TimesOk(s.mapInfo)
    ensures TimesOk(AddedOne(h, s, addr, source, penalty, now, lucky).0.mapInfo)
  {
    if addr.routable {
      AddIsSafe(h, s, addr, source, penalty, now, lucky);
      var (t, insert, id) := Prepared(h, s, addr, source, penalty, now, lucky);
      assert TimesOk(t.mapInfo);
      if insert {
        TimesPersist(t.mapInfo, Inserted(h, t, id, source, now).0.mapInfo, {});
      }
    }
  }

  /** Whether a success moves an entry to the tried table. */
  ghost predicate Moves(h: Hash, s: State, service: nat, test: bool)
    requires Inv(h, s, {}, {})
  {
    && service in s.mapAddr && s.mapAddr[service] in s.mapInfo
    && var id := s.mapAddr[service];
       !s.mapInfo[id].inTried && s.mapInfo[id].refCount > 0 && !(test && OwnTried(h, s, id) != -1)
  }

  lemma MovedTimes(h: Hash, s: State, id: nat, time: int)
    requires Inv(h, s, {}, {}) && TimesOk(s.mapInfo) && id in s.mapInfo && s.mapInfo[id].refCount > 0
    ensures var t := Updated(s.(lastGood := time), id, Succeeded(s.mapInfo[id], time));
      CanMakeTried(h, t, id) && (TimesOk(MadeTried(h, t, id).mapInfo) <==> time > 0)
  {
    MarkIsSafe(h, s, id, time);
    var t := Updated(s.(lastGood := time), id, Succeeded(s.mapInfo[id], time));
    MakeTriedKeeps(h, t, id);
    var r := MadeTried(h, t, id);
    assert r.mapInfo[id].lastSuccess == time && r.mapInfo[id].inTried;
    if time > 0 {
      TimesPersist(t.mapInfo, r.mapInfo, {id});
    }
  }

  /**
   A success keeps the times in order exactly when its own time is fit: not negative, and not zero if
   the entry is or becomes tried.
   */
  lemma GoodTimes(h: Hash, s: State, service: nat, test: bool, time: int)
    requires Inv(h, s, {}, {}) && TimesOk(s.mapInfo)
    ensures TimesOk(MarkedGood(h, s, service, test, time).0.mapInfo)
       <==> (service !in s.mapAddr || time > 0 ||
             (time == 0 && s.mapAddr[service] in s.mapInfo && !s.mapInfo[s.mapAddr[service]].inTried
               && !Moves(h, s, service, test)))
  {
    if service in s.mapAddr {
      FindIsSafe(h, s, service);
      var id := s.mapAddr[service];
      if Moves(h, s, service, test) {
        MovedTimes(h, s, id, time);
      } else {
        var r := MarkedGood(h, s, service, test, time).0;
        assert r.mapInfo == s.mapInfo[id := Succeeded(s.mapInfo[id], time)];
        assert r.mapInfo[id].lastSuccess == r.mapInfo[id].lastTry == time;
        assert forall x :: x in s.mapInfo && x != id ==> r.mapInfo[x] == s.mapInfo[x];
      }
    }
  }

  /** The times an operation brings are fit. */
  ghost predicate Timely(op: Op) {
    match op
    case Good(_, time) => time > 0
    case Inform(_, note) => note.Attempt? ==> note.time >= 0
    case ResolveCollisions(_, clock, _) => forall k :: clock(k) > 0
    case _ => true
  }

  lemma ResolveOneTimes(h: Hash, s: State, id: nat, now: int, valid: nat -> bool)
    requires Inv(h, s, {}, {}) && TimesOk(s.mapInfo) && now > 0
    ensures TimesOk(ResolvedOne(h, s, id, now, valid).mapInfo)
  {
    SlotIsKnown(h, s, id);
    if Judged(h, s, id, now, valid) == Replace {
      GoodTimes(h, s, s.mapInfo[id].addr, false, now);
    }
  }

  lemma {:induction false} ResolveTimes(h: Hash, s: State, ids: seq<nat>, clock: nat -> int,
                        valid: nat -> bool, n: nat)
    requires Consistent(h, s) && TimesOk(s.mapInfo) && n <= |ids| && forall k :: clock(k) > 0
    ensures TimesOk(ResolvedAll(h, s, ids, clock, valid, n).mapInfo)
  {
    if n > 0 {
      ResolveTimes(h, s, ids, clock, valid, n - 1);
      ResolveOneTimes(h, ResolvedAll(h, s, ids, clock, valid, n - 1), ids[n - 1], clock(n - 1), valid);
    }
  }

  lemma NoteTimes(h: Hash, s: State, service: nat, note: Note)
    requires Inv(h, s, {}, {}) && TimesOk(s.mapInfo) && (note.Attempt? ==> note.time >= 0)
    ensures TimesOk(WithNote(h, s, service, note).mapInfo)
  {
    if service in s.mapAddr {
      FindIsSafe(h, s, service);
    }
  }

  lemma ApplyTimes(h: Hash, s: State, op: Op)
    requires Consistent(h, s) && TimesOk(s.mapInfo) && Timely(op)
    ensures TimesOk(Apply(h, s, op).mapInfo)
  {
    match op
    case Add(addr, source, penalty, now, lucky) => AddTimes(h, s, addr, source, penalty, now, lucky);
    case Good(service, time) => GoodTimes(h, s, service, true, time);
    case Inform(service, note) => NoteTimes(h, s, service, note);
    case GetAddr(draws) => ShuffleReorders(h, s, draws, if |draws| < |s.vRandom| then |draws| else |s.vRandom|);
    case SelectTriedCollision(id) =>
    case ResolveCollisions(ids, clock, valid) => ResolveTimes(h, s, ids, clock, valid, |ids|);
  }

  /** Every run whose operations bring fit times keeps all times in order. */
  lemma {:induction false} EveryRunIsTimely(h: Hash, ops: seq<Op>)
    requires forall i :: 0 <= i < |ops| ==> Timely(ops[i])
    ensures TimesOk(Run(h, Empty(), ops).mapInfo)
  {
    if ops != [] {
      EveryRunIsTimely(h, ops[..|ops| - 1]);
      EveryRunIsConsistent(h, ops[..|ops| - 1]);
      ApplyTimes(h, Run(h, Empty(), ops[..|ops| - 1]), ops[|ops| - 1]);
    }
  }

  lemma FirstAdded(h: Hash, addr: Address, source: nat)
    requires addr.routable
    ensures Inv(h, Empty(), {}, {})
    ensures var s := AddedOne(h, Empty(), addr, source, 0, addr.time, true).0;
      && Inv(h, s, {}, {}) && addr.service in s.mapAddr && s.mapAddr[addr.service] in s.mapInfo
      && s.vvTried == Empty().vvTried
      && var info := s.mapInfo[s.mapAddr[addr.service]];
         !info.inTried && info.refCount == 1 && info.lastTry == info.lastSuccess == 0
  {
    EmptyIsConsistent(h);
    AddKeeps(h, Empty(), addr, source, 0, addr.time, true);
    AddIsSafe(h, Empty(), addr, source, 0, addr.time, true);
    var (t, insert, id) := Prepared(h, Empty(), addr, source, 0, addr.time, true);
    var b := NewBucket(h, addr.service, source);
    assert t.vvNew == Empty().vvNew && At(t.vvNew, b, NewPos(h, addr.service, b)) == -1;
  }

  /** A success reported at time zero moves a fresh entry to tried with no success on record. */
  lemma TimeZeroIsNotFit(h: Hash, addr: Address, source: nat)
    requires addr.routable
    ensures Inv(h, Empty(), {}, {})
    ensures var s := AddedOne(h, Empty(), addr, source, 0, addr.time, true).0;
      Inv(h, s, {}, {}) && TimesOk(s.mapInfo) && !TimesOk(MarkedGood(h, s, addr.service, true, 0).0.mapInfo)
  {
    EmptyIsConsistent(h);
    FirstAdded(h, addr, source);
    AddTimes(h, Empty(), addr, source, 0, addr.time, true);
    var s := AddedOne(h, Empty(), addr, source, 0, addr.time, true).0;
    var id := s.mapAddr[addr.service];
    assert OwnTried(h, s, id) == -1;
    GoodTimes(h, s, addr.service, true, 0);
  }
}
