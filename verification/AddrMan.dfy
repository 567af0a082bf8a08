/**
 The address manager with its fields updated in place (src/addrman.cpp, src/addrman_impl.h).  Each
 method takes the state to the value of the corresponding function, and the assertions in the code
 hold wherever it is called.
 */
module AddrMan {
  import opened Basics
  import opened AddrTables
  import opened AddrSteps
  import opened AddrMoves
  import opened AddrOps

  class AddrManImpl {
    const h: Hash
    var idCount: nat
    var mapInfo: map<nat, Info>
    var mapAddr: map<nat, nat>
    var vRandom: seq<nat>
    var nTried: int
    var vvTried: Table
    var nNew: int
    var vvNew: Table
    var nets: map<nat, Counts>
    var collisions: set<nat>
    var lastGood: int

    ghost function S(): State
      reads this
    {
      State(idCount, mapInfo, mapAddr, vRandom, nTried, vvTried, nNew, vvNew, nets, collisions, lastGood)
    }

    constructor (hash: Hash)
      ensures h == hash && S() == Empty() && Consistent(h, S())
    {
      h := hash;
      idCount, mapInfo, mapAddr, vRandom := 0, map[], map[], [];
      nTried, vvTried := 0, EmptyTable(TRIED_BUCKETS);
      nNew, vvNew := 0, EmptyTable(NEW_BUCKETS);
      nets, collisions, lastGood := map[], {}, 1;
      new;
      EmptyIsConsistent(h);
    }

    method SwapRandom(p: nat, q: nat)
      requires p == q || CanSwap(S(), p, q)
      modifies this`mapInfo, this`vRandom
      ensures S() == if p == q then old(S()) else Swapped(old(S()), p, q)
    {
      if p == q {
        return;
      }
      var id1, id2 := vRandom[p], vRandom[q];
      mapInfo := mapInfo[id1 := mapInfo[id1].(randomPos := q)];
      mapInfo := mapInfo[id2 := mapInfo[id2].(randomPos := p)];
      vRandom := vRandom[p := id2];
      vRandom := vRandom[q := id1];
    }

    method Create(addr: Address, source: nat) returns (id: nat)
      modifies this`idCount, this`mapInfo, this`mapAddr, this`vRandom, this`nNew, this`nets
      ensures id == old(idCount)
      ensures S() == Created(h, old(S()), addr.service, source, addr.time, addr.services)
    {
      id := idCount;
      idCount := idCount + 1;
      mapInfo := mapInfo[id := Info(addr.service, source, addr.time, addr.services, 0, 0, 0, 0, 0, false, |vRandom|)];
      mapAddr := mapAddr[addr.service := id];
      vRandom := vRandom + [id];
      nNew := nNew + 1;
      nets := Bump(nets, h.network(addr.service), 1, 0);
    }

    /** Forget an entry whose id is last in the random order. */
    method Remove(id: nat)
      requires id in mapInfo && vRandom != []
      modifies this`mapInfo, this`mapAddr, this`vRandom, this`nNew, this`nets
      ensures S() == Removed(h, old(S()), id)
    {
      var addr := mapInfo[id].addr;
      nets := Bump(nets, h.network(addr), -1, 0);
      vRandom := vRandom[..|vRandom| - 1];
      mapAddr := mapAddr - {addr};
      mapInfo := mapInfo - {id};
      nNew := nNew - 1;
    }

    method Delete(id: nat)
      requires CanDelete(S(), id)
      modifies this`mapInfo, this`mapAddr, this`vRandom, this`nNew, this`nets
      ensures S() == Deleted(h, old(S()), id)
    {
      SwapRandom(mapInfo[id].randomPos, |vRandom| - 1);
      Remove(id);
    }

    /** Empty a new slot; an entry that loses its last one is deleted. */
    method ClearNew(b: nat, i: nat)
      requires CanClear(S(), b, i)
      modifies this`mapInfo, this`mapAddr, this`vRandom, this`nNew, this`nets, this`vvNew
      ensures S() == Cleared(h, old(S()), b, i)
    {
      if vvNew[b][i] != -1 {
        var id: nat := vvNew[b][i];
        assert mapInfo[id].refCount > 0;
        mapInfo := mapInfo[id := mapInfo[id].(refCount := mapInfo[id].refCount - 1)];
        vvNew := Put(vvNew, b, i, -1);
        assert S() == Dropped(old(S()), b, i);
        if mapInfo[id].refCount == 0 {
          Delete(id);
        }
      }
    }

    /** Leave one bucket; true when that was the last reference. */
    method LeaveBucket(id: nat, b: nat) returns (gone: bool)
      requires CanLeave(h, S(), id, b)
      modifies this`mapInfo, this`vvNew
      ensures S() == Unlist(h, old(S()), id, b)
      ensures gone ==> id in mapInfo && mapInfo[id].refCount == 0
    {
      var i := NewPos(h, mapInfo[id].addr, b);
      if vvNew[b][i] == id {
        vvNew := Put(vvNew, b, i, -1);
        mapInfo := mapInfo[id := mapInfo[id].(refCount := mapInfo[id].refCount - 1)];
        return mapInfo[id].refCount == 0;
      }
      return false;
    }

    /** Leave the next bucket of the rotation. */
    method LeaveNext(id: nat, start: nat, n: nat, ghost s: State) returns (gone: bool)
      requires Inv(h, s, {}, {}) && id in s.mapInfo && s.mapInfo[id].refCount > 0
      requires Leaving(h, s, id, start, n, S())
      modifies this`mapInfo, this`vvNew
      ensures Leaving(h, s, id, start, n + 1, S())
      ensures gone ==> id in mapInfo && mapInfo[id].refCount == 0
    {
      UnlistIsSafe(h, s, id, start, n);
      gone := LeaveBucket(id, Rotated(start, n));
    }

    /** Visit the buckets from the entry's own one on, until the last reference is gone. */
    method LeaveNew(id: nat)
      requires Inv(h, S(), {}, {}) && id in mapInfo && mapInfo[id].refCount > 0
      modifies this`mapInfo, this`vvNew
      ensures Leaving(h, old(S()), id, HomeBucket(h, old(mapInfo[id])), |old(vvNew)|, S())
    {
      ghost var s := S();
      var start, count := HomeBucket(h, mapInfo[id]), |vvNew|;
      InvIsRemovable(h, s, id);
      for n := 0 to count
        invariant Leaving(h, s, id, start, n, S())
      {
        var gone := LeaveNext(id, start, n, s);
        if gone {
          UnlistStops(h, s, id, start, n + 1, count);
          break;
        }
      }
    }

    /** Stop counting an entry as new. */
    method Uncount(id: nat)
      requires id in mapInfo
      modifies this`nNew, this`nets
      ensures S() == Recounted(h, old(S()), id, -1)
    {
      nNew := nNew - 1;
      nets := Bump(nets, h.network(mapInfo[id].addr), -1, 0);
    }

    /** Take the entry out of a tried slot. */
    method LeaveTried(id: nat, b: nat, i: nat)
      requires id in mapInfo && b < |vvTried| && i < |vvTried[b]|
      modifies this`mapInfo, this`vvTried, this`nTried, this`nets
      ensures S() == Untried(h, old(S()), id, b, i)
    {
      nets := Bump(nets, h.network(mapInfo[id].addr), 0, -1);
      mapInfo := mapInfo[id := mapInfo[id].(inTried := false)];
      vvTried := Put(vvTried, b, i, -1);
      nTried := nTried - 1;
    }

    /** Put an entry into an empty new slot and count it as new. */
    method EnterNew(id: nat, b: nat, i: nat)
      requires id in mapInfo && b < |vvNew| && i < |vvNew[b]|
      modifies this`mapInfo, this`vvNew, this`nNew, this`nets
      ensures S() == Referenced(Recounted(h, old(S()), id, 1), id, b, i)
    {
      nNew := nNew + 1;
      nets := Bump(nets, h.network(mapInfo[id].addr), 1, 0);
      mapInfo := mapInfo[id := mapInfo[id].(refCount := mapInfo[id].refCount + 1)];
      vvNew := Put(vvNew, b, i, id);
    }

    method EnterTried(id: nat, b: nat, i: nat)
      requires id in mapInfo && b < |vvTried| && i < |vvTried[b]|
      modifies this`mapInfo, this`vvTried, this`nTried, this`nets
      ensures S() == Retried(h, old(S()), id, b, i)
    {
      nets := Bump(nets, h.network(mapInfo[id].addr), 0, 1);
      vvTried := Put(vvTried, b, i, id);
      nTried := nTried + 1;
      mapInfo := mapInfo[id := mapInfo[id].(inTried := true)];
    }

    /** Move the entry of a tried slot back to the new table, deleting whatever is in its place. */
    method Evict(b: nat, i: nat)
      requires CanEvict(h, S(), b, i)
      modifies this`mapInfo, this`mapAddr, this`vRandom, this`nNew, this`nets, this`vvNew, this`vvTried, this`nTried
      ensures S() == Evicted(h, old(S()), b, i)
    {
      var id: nat := vvTried[b][i];
      var bucket, pos := HomeBucket(h, mapInfo[id]), HomePos(h, mapInfo[id]);
      LeaveTried(id, b, i);
      ClearNew(bucket, pos);
      assert vvNew[bucket][pos] == -1;
      EnterNew(id, bucket, pos);
    }

    /** Move an entry from the new to the tried table. */
    method MakeTried(id: nat)
      requires Inv(h, S(), {}, {}) && id in mapInfo && mapInfo[id].refCount > 0 && CanMakeTried(h, S(), id)
      modifies this`mapInfo, this`mapAddr, this`vRandom, this`nNew, this`nets, this`vvNew, this`vvTried, this`nTried
      ensures S() == MadeTried(h, old(S()), id)
    {
      var b, i := TriedBucket(h, mapInfo[id].addr), TriedPos(h, mapInfo[id].addr);
      LeaveNew(id);
      Uncount(id);
      assert S() == Lifted(h, old(S()), id);
      assert mapInfo[id].refCount == 0;
      if At(vvTried, b, i) != -1 {
        Evict(b, i);
      }
      assert At(vvTried, b, i) == -1;
      EnterTried(id, b, i);
    }

    /** Replace the record of one entry. */
    method Update(id: nat, info: Info)
      modifies this`mapInfo
      ensures S() == Updated(old(S()), id, info)
    {
      mapInfo := mapInfo[id := info];
    }

    method Insert(id: nat, source: nat, now: int) returns (inserted: bool)
      requires CanInsert(h, S(), id, source, now)
      modifies this`mapInfo, this`mapAddr, this`vRandom, this`nNew, this`nets, this`vvNew
      ensures (S(), inserted) == Inserted(h, old(S()), id, source, now)
    {
      var b := NewBucket(h, mapInfo[id].addr, source);
      var i := NewPos(h, mapInfo[id].addr, b);
      inserted := false;
      if At(vvNew, b, i) != id {
        inserted := At(vvNew, b, i) == -1;
        if !inserted && At(vvNew, b, i) >= 0 && At(vvNew, b, i) in mapInfo {
          var existing := mapInfo[At(vvNew, b, i)];
          if IsTerrible(existing, now) || (existing.refCount > 1 && mapInfo[id].refCount == 0) {
            inserted := true;
          }
        }
        if inserted {
          ClearNew(b, i);
          mapInfo := mapInfo[id := mapInfo[id].(refCount := mapInfo[id].refCount + 1)];
          vvNew := Put(vvNew, b, i, id);
        } else if mapInfo[id].refCount == 0 {
          Delete(id);
        }
      }
    }

    /** Learn of an address; `lucky` is whether the draw against further references succeeds. */
    method AddSingle(addr: Address, source: nat, penalty: int, now: int, lucky: bool) returns (added: bool)
      requires Consistent(h, S())
      modifies this
      ensures (S(), added) == AddedOne(h, old(S()), addr, source, penalty, now, lucky)
      ensures Consistent(h, S())
    {
      ghost var s := S();
      AddKeeps(h, s, addr, source, penalty, now, lucky);
      AddIsSafe(h, s, addr, source, penalty, now, lucky);
      CollisionsKept(h, s, AddedOne(h, s, addr, source, penalty, now, lucky).0);
      if !addr.routable {
        return false;
      }
      var p := if addr.host == source then 0 else penalty;
      var id: nat;
      if addr.service in mapAddr {
        id := mapAddr[addr.service];
        var info := Refreshed(mapInfo[id], addr, p, now);
        Update(id, info);
        if addr.time <= info.time || info.inTried || info.refCount == NEW_BUCKETS_PER_ADDRESS
          || (info.refCount > 0 && !lucky) {
          return false;
        }
      } else {
        id := Create(addr.(time := Max(0, addr.time - p)), source);
      }
      assert Prepared(h, s, addr, source, penalty, now, lucky) == (S(), true, id);
      added := Insert(id, source, now);
    }

    /** A connection succeeded: true when the entry was moved to the tried table. */
    method Good_(service: nat, testBeforeEvict: bool, time: int) returns (moved: bool)
      requires Consistent(h, S())
      modifies this
      ensures (S(), moved) == MarkedGood(h, old(S()), service, testBeforeEvict, time)
      ensures Consistent(h, S())
    {
      ghost var s := S();
      GoodKeeps(h, s, service, testBeforeEvict, time);
      lastGood := time;
      if service !in mapAddr {
        return false;
      }
      FindIsSafe(h, s, service);
      var id := mapAddr[service];
      Update(id, Succeeded(mapInfo[id], time));
      if mapInfo[id].inTried {
        return false;
      }
      if mapInfo[id].refCount == 0 {
        return false;
      }
      MarkIsSafe(h, s, id, time);
      if testBeforeEvict && At(vvTried, TriedBucket(h, mapInfo[id].addr), TriedPos(h, mapInfo[id].addr)) != -1 {
        if |collisions| < TRIED_COLLISION_SIZE {
          collisions := collisions + {id};
        }
        return false;
      }
      MakeTried(id);
      moved := true;
    }

    method Attempt_(service: nat, countFailure: bool, time: int)
      requires Consistent(h, S())
      modifies this`mapInfo
      ensures S() == WithNote(h, old(S()), service, Attempt(countFailure, time)) && Consistent(h, S())
    {
      NoteKeeps(h, S(), service, Attempt(countFailure, time));
      if service !in mapAddr {
        return;
      }
      FindIsSafe(h, S(), service);
      var id := mapAddr[service];
      var info := mapInfo[id].(lastTry := time);
      if countFailure && info.lastCountAttempt < lastGood {
        info := info.(lastCountAttempt := time, attempts := info.attempts + 1);
      }
      Update(id, info);
    }

    method Connected_(service: nat, time: int)
      requires Consistent(h, S())
      modifies this`mapInfo
      ensures S() == WithNote(h, old(S()), service, Connected(time)) && Consistent(h, S())
    {
      NoteKeeps(h, S(), service, Connected(time));
      if service !in mapAddr {
        return;
      }
      FindIsSafe(h, S(), service);
      var id := mapAddr[service];
      var info := mapInfo[id];
      if time - info.time > 20 * MINUTE {
        info := info.(time := time);
      }
      Update(id, info);
    }

    method SetServices_(service: nat, services: set<nat>)
      requires Consistent(h, S())
      modifies this`mapInfo
      ensures S() == WithNote(h, old(S()), service, SetServices(services)) && Consistent(h, S())
    {
      NoteKeeps(h, S(), service, SetServices(services));
      if service !in mapAddr {
        return;
      }
      FindIsSafe(h, S(), service);
      Update(mapAddr[service], mapInfo[mapAddr[service]].(services := services));
    }

    /** A collision to test; `id` is the drawn member of the set, if there is one. */
    method SelectTriedCollision_(id: nat) returns (r: Option<(nat, int)>)
      requires Consistent(h, S()) && (collisions != {} ==> id in collisions)
      modifies this`collisions
      ensures S() == (if old(collisions) == {} then old(S()) else Selected(old(S()), id)) && Consistent(h, S())
      ensures r.Some? <==> old(collisions) != {} && id in mapInfo
      ensures r.Some? ==> var other := OwnTried(h, old(S()), id);
        other >= 0 && other in mapInfo && r.value == (mapInfo[other].addr, mapInfo[other].lastTry)
    {
      SelectKeeps(h, S(), id);
      if collisions == {} {
        return None;
      }
      if id !in mapInfo {
        collisions := collisions - {id};
        return None;
      }
      var other := mapInfo[At(vvTried, TriedBucket(h, mapInfo[id].addr), TriedPos(h, mapInfo[id].addr))];
      r := Some((other.addr, other.lastTry));
    }

    /** One noted collision: erased, waited for, or resolved by moving the new entry in. */
    method ResolveCollision(id: nat, now: int, valid: nat -> bool)
      requires Consistent(h, S())
      modifies this
      ensures S() == ResolvedOne(h, old(S()), id, now, valid) && Consistent(h, S())
    {
      ghost var s := S();
      ResolveOneKeeps(h, s, id, now, valid);
      SlotIsKnown(h, s, id);
      var verdict := Drop;
      if id in mapInfo && valid(mapInfo[id].addr) {
        var slot := At(vvTried, TriedBucket(h, mapInfo[id].addr), TriedPos(h, mapInfo[id].addr));
        if slot != -1 {
          verdict := JudgeOccupied(mapInfo[slot], mapInfo[id], now);
        } else {
          verdict := Replace;
        }
      }
      assert verdict == Judged(h, s, id, now, valid);
      if verdict == Replace {
        var moved := Good_(mapInfo[id].addr, false, now);
      }
      if verdict != Wait {
        collisions := collisions - {id};
      }
    }

    /** All noted collisions, in the order in which the set lists them. */
    method ResolveCollisions_(ids: seq<nat>, clock: nat -> int, valid: nat -> bool)
      requires Consistent(h, S()) && (forall id :: id in ids <==> id in collisions)
      modifies this
      ensures S() == ResolvedAll(h, old(S()), ids, clock, valid, |ids|) && Consistent(h, S())
    {
      ghost var s := S();
      for n := 0 to |ids|
        invariant S() == ResolvedAll(h, s, ids, clock, valid, n)
      {
        ResolveCollision(ids[n], clock(n), valid);
      }
    }

    /** Bring a later place to place `n` and list its address if it passes. */
    method Visit(n: nat, q: nat, addresses: seq<nat>, network: Option<nat>, filtered: bool,
                 now: int) returns (r: seq<nat>)
      requires Inv(h, S(), {}, {}) && n <= q < |vRandom|
      requires AllKnown(S()) && addresses == Listed(h, S(), n, network, filtered, now)
      modifies this`mapInfo, this`vRandom
      ensures CanSwap(old(S()), n, q) && S() == Swapped(old(S()), n, q) && |vRandom| == |old(vRandom)|
      ensures AllKnown(S()) && r == Listed(h, S(), n + 1, network, filtered, now) && |r| <= |addresses| + 1
    {
      ghost var t := S();
      ShuffleIsSafe(h, t, n, q);
      SwapRandom(n, q);
      InvKnowsAll(h, S());
      ListedKept(h, t, S(), n, n, q, network, filtered, now);
      var info := mapInfo[vRandom[n]];
      r := if Passes(h, info, network, filtered, now) then addresses + [info.addr] else addresses;
    }

    /** One round: draw a place not yet visited and list its address if it passes. */
    method Round(n: nat, draws: seq<nat>, addresses: seq<nat>, network: Option<nat>, filtered: bool,
                 now: int, ghost s: State)
      returns (more: seq<nat>)
      requires Inv(h, s, {}, {}) && n < |vRandom| == |s.vRandom| && n < |draws|
      requires Listing(h, s, draws, n, S(), addresses, network, filtered, now)
      modifies this`mapInfo, this`vRandom
      ensures Listing(h, s, draws, n + 1, S(), more, network, filtered, now)
      ensures |vRandom| == |old(vRandom)| && |more| <= |addresses| + 1
    {
      ghost var t := S();
      more := Visit(n, Drawn(|vRandom|, draws, n), addresses, network, filtered, now);
      ListingStep(h, s, draws, n, t, S(), more, network, filtered, now);
    }

    /** Visit places of the random order until `nodes` addresses are listed or none is left. */
    method ListAddresses(nodes: nat, network: Option<nat>, filtered: bool, now: int, draws: seq<nat>)
      returns (addresses: seq<nat>, visited: nat)
      requires Inv(h, S(), {}, {}) && |draws| >= |vRandom|
      modifies this`mapInfo, this`vRandom
      ensures Listing(h, old(S()), draws, visited, S(), addresses, network, filtered, now)
      ensures |addresses| <= nodes && (visited == |old(vRandom)| || |addresses| == nodes)
    {
      ghost var s := S();
      addresses, visited := [], 0;
      ListingStarts(h, s, draws, network, filtered, now);
      while visited < |vRandom| && |addresses| < nodes
        invariant visited <= |vRandom| == |s.vRandom| && |addresses| <= nodes
        invariant Listing(h, s, draws, visited, S(), addresses, network, filtered, now)
      {
        addresses := Round(visited, draws, addresses, network, filtered, now, s);
        visited := visited + 1;
      }
    }

    /**
     A random choice of addresses: each round draws one of the places not yet visited.  `draws` are
     the random numbers; `visited` is the number of rounds made.
     */
    method GetAddr_(maxAddresses: nat, maxPct: nat, network: Option<nat>, filtered: bool, now: int, draws: seq<nat>)
      returns (addresses: seq<nat>, visited: nat)
      requires Consistent(h, S()) && |draws| >= |vRandom|
      modifies this`mapInfo, this`vRandom
      ensures visited <= |old(vRandom)| && S() == Shuffled(h, old(S()), draws, visited) && Consistent(h, S())
      ensures visited <= |vRandom| && AllKnown(S()) && addresses == Listed(h, S(), visited, network, filtered, now)
      ensures |addresses| <= Wanted(|old(vRandom)|, maxAddresses, maxPct)
      ensures visited == |old(vRandom)| || |addresses| == Wanted(|old(vRandom)|, maxAddresses, maxPct)
    {
      var nodes := Wanted(|vRandom|, maxAddresses, maxPct);
      addresses, visited := ListAddresses(nodes, network, filtered, now, draws);
      ShuffleReorders(h, old(S()), draws, visited);
      ReorderKeeps(h, old(S()), S());
    }
  }

  /** After `n` rounds: the order is that of the draws, and what passed is listed. */
  ghost predicate Listing(h: Hash, s: State, draws: seq<nat>, n: nat, t: State, addresses: seq<nat>,
                          network: Option<nat>, filtered: bool, now: int)
    requires Inv(h, s, {}, {})
  {
    && n <= |draws| && n <= |s.vRandom| && t == Shuffled(h, s, draws, n)
    && n <= |t.vRandom| && AllKnown(t) && addresses == Listed(h, t, n, network, filtered, now)
  }

  lemma ListingStarts(h: Hash, s: State, draws: seq<nat>, network: Option<nat>, filtered: bool, now: int)
    requires Inv(h, s, {}, {})
    ensures Listing(h, s, draws, 0, s, [], network, filtered, now)
  {
    InvKnowsAll(h, s);
  }

  lemma ListingStep(h: Hash, s: State, draws: seq<nat>, n: nat, t: State, r: State, addresses: seq<nat>,
                    network: Option<nat>, filtered: bool, now: int)
    requires Inv(h, s, {}, {}) && n < |draws| && n < |s.vRandom| == |t.vRandom| == |r.vRandom|
      && t == Shuffled(h, s, draws, n)
    requires CanSwap(t, n, Drawn(|t.vRandom|, draws, n)) && r == Swapped(t, n, Drawn(|t.vRandom|, draws, n))
    requires AllKnown(r) && addresses == Listed(h, r, n + 1, network, filtered, now)
    ensures Listing(h, s, draws, n + 1, r, addresses, network, filtered, now)
  {
  }

  /** How many addresses are wanted at most, of `size` known ones. */
  function Wanted(size: nat, maxAddresses: nat, maxPct: nat): nat {
    var n := if maxPct != 0 then maxPct * size / 100 else size;
    if maxAddresses != 0 && maxAddresses < n then maxAddresses else n
  }

  predicate Passes(h: Hash, info: Info, network: Option<nat>, filtered: bool, now: int) {
    (network.None? || h.netClass(info.addr) == network.value) && !(IsTerrible(info, now) && filtered)
  }

  predicate AllKnown(s: State) {
    forall i :: 0 <= i < |s.vRandom| ==> s.vRandom[i] in s.mapInfo
  }

  /** The addresses among the first `n` places of the random order that pass. */
  function Listed(h: Hash, s: State, n: nat, network: Option<nat>, filtered: bool, now: int): seq<nat>
    requires n <= |s.vRandom| && AllKnown(s)
  {
    if n == 0 then [] else
      var info := s.mapInfo[s.vRandom[n - 1]];
      Listed(h, s, n - 1, network, filtered, now)
        + (if Passes(h, info, network, filtered, now) then [info.addr] else [])
  }

  lemma InvKnowsAll(h: Hash, s: State)
    requires Inv(h, s, {}, {})
    ensures AllKnown(s)
  {
    assert Holds(Random, h, s, {}, {});
  }

  /** Swapping later places leaves the list of the first ones. */
  lemma {:induction false} ListedKept(h: Hash, t: State, r: State, n: nat, p: nat, q: nat,
                        network: Option<nat>, filtered: bool, now: int)
    requires n <= p < |t.vRandom| && n <= q < |t.vRandom| && CanSwap(t, p, q) && r == Swapped(t, p, q)
    requires AllKnown(t) && AllKnown(r)
    ensures |r.vRandom| == |t.vRandom|
      && Listed(h, r, n, network, filtered, now) == Listed(h, t, n, network, filtered, now)
  {
    if n > 0 {
      ListedKept(h, t, r, n - 1, p, q, network, filtered, now);
      EntryKept(h, t, r, n - 1, p, q, network, filtered, now);
    }
  }

  lemma EntryKept(h: Hash, t: State, r: State, i: nat, p: nat, q: nat, network: Option<nat>, filtered: bool, now: int)
    requires i < p < |t.vRandom| && i < q < |t.vRandom| && CanSwap(t, p, q) && r == Swapped(t, p, q)
    requires AllKnown(t) && AllKnown(r)
    ensures |r.vRandom| == |t.vRandom| && r.vRandom[i] == t.vRandom[i]
    ensures r.mapInfo[r.vRandom[i]].addr == t.mapInfo[t.vRandom[i]].addr
    ensures Passes(h, r.mapInfo[r.vRandom[i]], network, filtered, now)
       <==> Passes(h, t.mapInfo[t.vRandom[i]], network, filtered, now)
  {
  }

  /** Every listed address is known and passes, and every visited one that passes is listed. */
  lemma {:induction false} ListedAre(h: Hash, s: State, n: nat, network: Option<nat>, filtered: bool,
                        now: int, x: nat)
    requires n <= |s.vRandom| && AllKnown(s)
    ensures x in Listed(h, s, n, network, filtered, now) <==>
      exists i :: 0 <= i < n && s.mapInfo[s.vRandom[i]].addr == x
        && Passes(h, s.mapInfo[s.vRandom[i]], network, filtered, now)
  {
    if n > 0 {
      ListedAre(h, s, n - 1, network, filtered, now, x);
    }
  }

  /** No address is listed twice. */
  lemma {:induction false} ListedOnce(h: Hash, s: State, n: nat, network: Option<nat>, filtered: bool, now: int)
    requires Inv(h, s, {}, {}) && n <= |s.vRandom| && AllKnown(s)
    ensures var l := Listed(h, s, n, network, filtered, now); forall i, j :: 0 <= i < j < |l| ==> l[i] != l[j]
  {
    if n > 0 {
      ListedOnce(h, s, n - 1, network, filtered, now);
      var id := s.vRandom[n - 1];
      var x := s.mapInfo[id].addr;
      ListedAre(h, s, n - 1, network, filtered, now, x);
      assert Holds(Random, h, s, {}, {}) && Holds(Addrs, h, s, {}, {});
      forall i | 0 <= i < n - 1 ensures s.mapInfo[s.vRandom[i]].addr != x {
        assert s.mapInfo[s.vRandom[i]].randomPos == i && s.mapInfo[id].randomPos == n - 1;
      }
    }
  }

  /** After `n` buckets of the rotation. */
  ghost predicate Leaving(h: Hash, s: State, id: nat, start: nat, n: nat, t: State) {
    Removable(s, id) && t == Unlisted(h, s, id, start, n)
  }

  lemma InvIsRemovable(h: Hash, s: State, id: nat)
    requires Inv(h, s, {}, {}) && id in s.mapInfo
    ensures Removable(s, id)
  {
    InvShape(h, s, {}, {});
  }

  predicate CanLeave(h: Hash, t: State, id: nat, b: nat) {
    && Removable(t, id) && b < NEW_BUCKETS
    && var i := NewPos(h, t.mapInfo[id].addr, b);
       At(t.vvNew, b, i) == id ==> CanDrop(t, b, i)
  }

  /** Wherever the loop meets a slot of the entry, there is a reference to drop. */
  lemma UnlistIsSafe(h: Hash, s: State, id: nat, start: nat, n: nat)
    requires Inv(h, s, {}, {}) && Removable(s, id) && s.mapInfo[id].refCount > 0
    ensures CanLeave(h, Unlisted(h, s, id, start, n), id, Rotated(start, n))
  {
    UnlistKeeps(h, s, id, start, n);
    var t := Unlisted(h, s, id, start, n);
    var b := Rotated(start, n);
    var i := NewPos(h, t.mapInfo[id].addr, b);
    if At(t.vvNew, b, i) == id {
      OccupantIsReferenced(h, t, b, i, LooseOf(t, id), {});
    }
  }
}
