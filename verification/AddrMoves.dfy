/** Clearing new slots and moving entries between the new and the tried table (src/addrman.cpp). */
module AddrMoves {
  import opened AddrTables
  import opened AddrSteps

  // ---------- clearing a new slot ----------

  /** The lookups and assertions of ClearNew and of the Delete it may call. */
  predicate CanClear(s: State, b: nat, i: nat) {
    && b < |s.vvNew| && i < |s.vvNew[b]|
    && (At(s.vvNew, b, i) != -1 ==>
          CanDrop(s, b, i)
          && (s.mapInfo[At(s.vvNew, b, i)].refCount == 1 ==> CanDelete(Dropped(s, b, i), At(s.vvNew, b, i))))
  }

  function Cleared(h: Hash, s: State, b: nat, i: nat): State
    requires CanClear(s, b, i)
  {
    if At(s.vvNew, b, i) == -1 then s else
      var id: nat := At(s.vvNew, b, i);
      var t := Dropped(s, b, i);
      if t.mapInfo[id].refCount == 0 then Deleted(h, t, id) else t
  }

  ghost predicate SameRecord(a: Info, b: Info) {
    a.addr == b.addr && a.source == b.source && a.lastTry == b.lastTry && a.lastSuccess == b.lastSuccess
  }

  /** Entries may go; those that stay keep their record, and none but `moved` becomes tried. */
  ghost predicate PersistsBut(m: map<nat, Info>, n: map<nat, Info>, moved: set<nat>) {
    forall x :: x in n ==> x in m && SameRecord(m[x], n[x]) && (n[x].inTried ==> m[x].inTried || x in moved)
  }

  ghost predicate Persists(m: map<nat, Info>, n: map<nat, Info>) {
    PersistsBut(m, n, {})
  }

  lemma DeletePersists(h: Hash, s: State, id: nat)
    requires CanDelete(s, id)
    ensures Persists(s.mapInfo, Deleted(h, s, id).mapInfo)
    ensures Deleted(h, s, id).vvTried == s.vvTried && Deleted(h, s, id).vvNew == s.vvNew
    ensures Deleted(h, s, id).collisions == s.collisions && Deleted(h, s, id).idCount == s.idCount
  {
  }

  lemma ClearPersists(h: Hash, s: State, b: nat, i: nat)
    requires CanClear(s, b, i)
    ensures var t := Cleared(h, s, b, i);
      && Persists(s.mapInfo, t.mapInfo) && t.vvTried == s.vvTried && At(t.vvNew, b, i) == -1
      && t.collisions == s.collisions && t.idCount == s.idCount
  {
    if At(s.vvNew, b, i) != -1 {
      var id: nat := At(s.vvNew, b, i);
      var t := Dropped(s, b, i);
      if t.mapInfo[id].refCount == 0 {
        DeletePersists(h, t, id);
      }
    }
  }

  lemma InvShape(h: Hash, s: State, loose: set<nat>, uncounted: set<nat>)
    requires Inv(h, s, loose, uncounted)
    ensures Shaped(s.vvNew, NEW_BUCKETS) && Shaped(s.vvTried, TRIED_BUCKETS)
  {
    assert Holds(NewSlots, h, s, loose, uncounted) && Holds(TriedSlots, h, s, loose, uncounted);
  }

  /** Clearing a slot never fails an assertion, and keeps the condition. */
  lemma ClearKeeps(h: Hash, s: State, b: nat, i: nat, loose: set<nat>, uncounted: set<nat>)
    requires Inv(h, s, loose, uncounted) && b < NEW_BUCKETS && i < BUCKET_SIZE
    ensures CanClear(s, b, i) && Inv(h, Cleared(h, s, b, i), loose, uncounted)
  {
    InvShape(h, s, loose, uncounted);
    if At(s.vvNew, b, i) != -1 {
      OccupantIsReferenced(h, s, b, i, loose, uncounted);
      var id: nat := At(s.vvNew, b, i);
      var t := Dropped(s, b, i);
      DropKeeps(h, s, b, i, loose, uncounted);
      if t.mapInfo[id].refCount == 0 {
        assert id !in uncounted by { assert Holds(Status, h, s, loose, uncounted); }
        DeleteKeeps(h, t, id, loose + {id}, uncounted);
        assert loose + {id} - {id} == loose;
      }
    }
  }

  // ---------- taking an entry out of the new table ----------

  function Rotated(start: nat, n: nat): (b: nat)
    ensures b < NEW_BUCKETS
  {
    (start + n) % NEW_BUCKETS
  }

  /** The entry is known and its own slots are within the table. */
  predicate Removable(s: State, id: nat) {
    && id in s.mapInfo && |s.vvNew| == NEW_BUCKETS
    && forall b :: 0 <= b < NEW_BUCKETS ==> |s.vvNew[b]| == BUCKET_SIZE
  }

  /** Empty the slot of `id` in one bucket, if it holds it. */
  function Unlist(h: Hash, t: State, id: nat, b: nat): (r: State)
    requires Removable(t, id)
    ensures Removable(r, id)
  {
    var i := NewPos(h, t.mapInfo[id].addr, b);
    if At(t.vvNew, b, i) == id && CanDrop(t, b, i) then Dropped(t, b, i) else t
  }

  /** Visit `n` buckets from `start`. */
  function Unlisted(h: Hash, s: State, id: nat, start: nat, n: nat): (t: State)
    requires Removable(s, id)
    ensures Removable(t, id)
  {
    if n == 0 then s else Unlist(h, Unlisted(h, s, id, start, n - 1), id, Rotated(start, n - 1))
  }

  ghost predicate Visited(h: Hash, t: State, id: nat, addr: nat, start: nat, n: nat) {
    forall k: nat :: k < n ==> At(t.vvNew, Rotated(start, k), NewPos(h, addr, Rotated(start, k))) != id
  }

  function LooseOf(s: State, id: nat): set<nat> {
    if id in s.mapInfo && s.mapInfo[id].refCount == 0 then {id} else {}
  }

  /** Only the reference count of `id` and slots of the new table change. */
  ghost predicate OnlyUnlists(s: State, t: State, id: nat)
    requires id in s.mapInfo
  {
    && id in t.mapInfo
    && t.mapInfo == s.mapInfo[id := s.mapInfo[id].(refCount := t.mapInfo[id].refCount)]
    && t == s.(mapInfo := t.mapInfo, vvNew := t.vvNew)
  }

  lemma UnlistOnlyOne(h: Hash, s: State, t: State, id: nat, b: nat)
    requires id in s.mapInfo && Removable(t, id) && OnlyUnlists(s, t, id)
    ensures OnlyUnlists(s, Unlist(h, t, id, b), id)
  {
  }

  lemma {:induction false} UnlistOnly(h: Hash, s: State, id: nat, start: nat, n: nat)
    requires Removable(s, id)
    ensures OnlyUnlists(s, Unlisted(h, s, id, start, n), id)
  {
    if n > 0 {
      UnlistOnly(h, s, id, start, n - 1);
      UnlistOnlyOne(h, s, Unlisted(h, s, id, start, n - 1), id, Rotated(start, n - 1));
    }
  }

  lemma UnlistKeepsOne(h: Hash, t: State, id: nat, b: nat)
    requires Removable(t, id) && Inv(h, t, LooseOf(t, id), {})
    ensures var r := Unlist(h, t, id, b); Inv(h, r, LooseOf(r, id), {})
    ensures At(Unlist(h, t, id, b).vvNew, b, NewPos(h, t.mapInfo[id].addr, b)) != id
  {
    var i := NewPos(h, t.mapInfo[id].addr, b);
    if At(t.vvNew, b, i) == id {
      OccupantIsReferenced(h, t, b, i, LooseOf(t, id), {});
      DropKeeps(h, t, b, i, LooseOf(t, id), {});
      assert LooseAfterDrop(t, b, i, LooseOf(t, id)) == LooseOf(Dropped(t, b, i), id);
    }
  }

  lemma UnlistVisits(h: Hash, t: State, id: nat, addr: nat, start: nat, n: nat)
    requires Removable(t, id) && t.mapInfo[id].addr == addr && Visited(h, t, id, addr, start, n)
    requires At(Unlist(h, t, id, Rotated(start, n)).vvNew, Rotated(start, n), NewPos(h, addr, Rotated(start, n))) != id
    ensures Visited(h, Unlist(h, t, id, Rotated(start, n)), id, addr, start, n + 1)
  {
  }

  lemma {:induction false} UnlistKeeps(h: Hash, s: State, id: nat, start: nat, n: nat)
    requires Inv(h, s, {}, {}) && Removable(s, id) && s.mapInfo[id].refCount > 0
    ensures var t := Unlisted(h, s, id, start, n); Inv(h, t, LooseOf(t, id), {})
    ensures Visited(h, Unlisted(h, s, id, start, n), id, s.mapInfo[id].addr, start, n)
  {
    if n > 0 {
      UnlistKeeps(h, s, id, start, n - 1);
      UnlistOnly(h, s, id, start, n - 1);
      var t := Unlisted(h, s, id, start, n - 1);
      UnlistKeepsOne(h, t, id, Rotated(start, n - 1));
      UnlistVisits(h, t, id, s.mapInfo[id].addr, start, n - 1);
    }
  }

  lemma EveryBucketVisited(start: nat, b: nat)
    requires start < NEW_BUCKETS && b < NEW_BUCKETS
    ensures exists k: nat :: k < NEW_BUCKETS && Rotated(start, k) == b
  {
    var k: nat := if b >= start then b - start else b + NEW_BUCKETS - start;
    assert k < NEW_BUCKETS && Rotated(start, k) == b;
  }

  lemma {:induction false} NoOwnSlot(h: Hash, t: Table, addr: nat, id: nat, n: nat)
    requires forall b: nat :: b < n ==> At(t, b, NewPos(h, addr, b)) != id
    ensures Refs(h, t, addr, id, n) == 0
  {
    if n > 0 {
      NoOwnSlot(h, t, addr, id, n - 1);
    }
  }

  /** After all buckets the reference count is zero, as MakeTried asserts. */
  lemma UnlistEnds(h: Hash, s: State, id: nat, start: nat)
    requires Inv(h, s, {}, {}) && Removable(s, id) && s.mapInfo[id].refCount > 0 && start < NEW_BUCKETS
    ensures var t := Unlisted(h, s, id, start, |s.vvNew|); t.mapInfo[id].refCount == 0 && Inv(h, t, {id}, {})
  {
    UnlistKeeps(h, s, id, start, |s.vvNew|);
    UnlistOnly(h, s, id, start, |s.vvNew|);
    var t := Unlisted(h, s, id, start, |s.vvNew|);
    var addr := s.mapInfo[id].addr;
    forall b: nat | b < NEW_BUCKETS ensures At(t.vvNew, b, NewPos(h, addr, b)) != id {
      EveryBucketVisited(start, b);
    }
    NoOwnSlot(h, t.vvNew, addr, id, |t.vvNew|);
    assert Holds(RefCounts, h, t, LooseOf(t, id), {});
  }

  /** Once the count is zero, the remaining buckets change nothing: leaving the loop early is sound. */
  lemma {:induction false} UnlistStops(h: Hash, s: State, id: nat, start: nat, n: nat, m: nat)
    requires Removable(s, id) && n <= m
    requires Unlisted(h, s, id, start, n).mapInfo[id].refCount == 0
    ensures Unlisted(h, s, id, start, m) == Unlisted(h, s, id, start, n)
    decreases m
  {
    if n < m {
      UnlistStops(h, s, id, start, n, m - 1);
    }
  }

  // ---------- evicting a tried entry ----------

  /** Where an entry goes when it returns to the new table. */
  function HomeBucket(h: Hash, info: Info): nat { NewBucket(h, info.addr, info.source) }

  function HomePos(h: Hash, info: Info): nat { NewPos(h, info.addr, HomeBucket(h, info)) }

  /** The lookups and assertions made while evicting. */
  predicate CanEvict(h: Hash, s: State, b: nat, i: nat) {
    && b < |s.vvTried| && i < |s.vvTried[b]| && At(s.vvTried, b, i) >= 0 && At(s.vvTried, b, i) in s.mapInfo
    && var id: nat := At(s.vvTried, b, i);
    && var info := s.mapInfo[id];
    && CanClear(Untried(h, s, id, b, i), HomeBucket(h, info), HomePos(h, info))
    && CanReference(h, Cleared(h, Untried(h, s, id, b, i), HomeBucket(h, info), HomePos(h, info)), id,
                    HomeBucket(h, info), HomePos(h, info))
  }

  /** Move the entry of a tried slot back to the new table, clearing its place there first. */
  function Evicted(h: Hash, s: State, b: nat, i: nat): State
    requires CanEvict(h, s, b, i)
  {
    var id: nat := At(s.vvTried, b, i);
    var info := s.mapInfo[id];
    var t := Cleared(h, Untried(h, s, id, b, i), HomeBucket(h, info), HomePos(h, info));
    Referenced(Recounted(h, t, id, 1), id, HomeBucket(h, info), HomePos(h, info))
  }

  /** Tried slots other than (b, i) are as before. */
  ghost predicate TriedBut(t: Table, r: Table, b: nat, i: nat) {
    forall c: nat, j: nat {:trigger At(r, c, j)} :: (c, j) != (b, i) ==> At(r, c, j) == At(t, c, j)
  }

  lemma TriedOccupant(h: Hash, s: State, b: nat, i: nat, loose: set<nat>, uncounted: set<nat>)
    requires Inv(h, s, loose, uncounted) && At(s.vvTried, b, i) != -1
    ensures b < |s.vvTried| && i < |s.vvTried[b]| && At(s.vvTried, b, i) >= 0
    ensures At(s.vvTried, b, i) in s.mapInfo && s.mapInfo[At(s.vvTried, b, i)].inTried
    ensures At(s.vvTried, b, i) !in loose
  {
    assert Holds(TriedSlots, h, s, loose, uncounted) && Holds(Status, h, s, loose, uncounted);
  }

  /** After the slot is cleared, the entry taken out of tried can be given it. */
  lemma EvictMiddle(h: Hash, s: State, id: nat, b: nat, i: nat, loose: set<nat>, uncounted: set<nat>)
    requires Inv(h, s, loose, uncounted) && At(s.vvTried, b, i) == id && id in s.mapInfo && s.mapInfo[id].inTried
    requires b < |s.vvTried| && i < |s.vvTried[b]|
    ensures var info, u := s.mapInfo[id], Untried(h, s, id, b, i);
      && CanClear(u, HomeBucket(h, info), HomePos(h, info))
      && var t := Cleared(h, u, HomeBucket(h, info), HomePos(h, info));
      && Inv(h, t, loose + {id}, uncounted + {id}) && id in t.mapInfo && Persists(s.mapInfo, t.mapInfo)
      && t.vvTried == u.vvTried && At(t.vvNew, HomeBucket(h, info), HomePos(h, info)) == -1
      && t.collisions == s.collisions && t.idCount == s.idCount
  {
    var info, u := s.mapInfo[id], Untried(h, s, id, b, i);
    UntryKeeps(h, s, id, b, i, loose, uncounted);
    ClearKeeps(h, u, HomeBucket(h, info), HomePos(h, info), loose + {id}, uncounted + {id});
    ClearPersists(h, u, HomeBucket(h, info), HomePos(h, info));
    var t := Cleared(h, u, HomeBucket(h, info), HomePos(h, info));
    assert Holds(Status, h, t, loose + {id}, uncounted + {id});
  }

  lemma EvictEnds(h: Hash, t: State, info: Info, id: nat, loose: set<nat>, uncounted: set<nat>)
    requires Inv(h, t, loose + {id}, uncounted + {id}) && id !in loose && id !in uncounted
    requires id in t.mapInfo && t.mapInfo[id].addr == info.addr
      && At(t.vvNew, HomeBucket(h, info), HomePos(h, info)) == -1
    ensures CanReference(h, t, id, HomeBucket(h, info), HomePos(h, info))
    ensures Inv(h, Referenced(Recounted(h, t, id, 1), id, HomeBucket(h, info), HomePos(h, info)), loose, uncounted)
  {
    var b, i := HomeBucket(h, info), HomePos(h, info);
    InvShape(h, t, loose + {id}, uncounted + {id});
    assert Holds(Status, h, t, loose + {id}, uncounted + {id});
    CountKeeps(h, t, id, loose + {id}, uncounted + {id});
    assert uncounted + {id} - {id} == uncounted && loose + {id} - {id} == loose;
    ReferenceKeeps(h, Recounted(h, t, id, 1), id, b, i, loose + {id}, uncounted);
  }

  /** Evicting never fails an assertion and keeps the condition; the slot is free afterwards. */
  lemma EvictKeeps(h: Hash, s: State, b: nat, i: nat, loose: set<nat>, uncounted: set<nat>)
    requires Inv(h, s, loose, uncounted) && At(s.vvTried, b, i) != -1
    ensures CanEvict(h, s, b, i)
    ensures var r := Evicted(h, s, b, i);
      && Inv(h, r, loose, uncounted) && Persists(s.mapInfo, r.mapInfo)
      && At(r.vvTried, b, i) == -1 && TriedBut(s.vvTried, r.vvTried, b, i)
      && r.collisions == s.collisions && r.idCount == s.idCount
  {
    TriedOccupant(h, s, b, i, loose, uncounted);
    var id: nat := At(s.vvTried, b, i);
    var info := s.mapInfo[id];
    assert id !in uncounted by { assert Holds(Status, h, s, loose, uncounted); }
    EvictMiddle(h, s, id, b, i, loose, uncounted);
    EvictEnds(h, Cleared(h, Untried(h, s, id, b, i), HomeBucket(h, info), HomePos(h, info)), info, id,
              loose, uncounted);
  }

  // ---------- moving an entry to the tried table ----------

  /** The entry out of the new table and no longer counted there. */
  function Lifted(h: Hash, s: State, id: nat): (t: State)
    requires Removable(s, id)
    ensures id in t.mapInfo
  {
    Recounted(h, Unlisted(h, s, id, HomeBucket(h, s.mapInfo[id]), |s.vvNew|), id, -1)
  }

  /** Free the tried slot of an entry. */
  function Vacated(h: Hash, s: State, b: nat, i: nat): State
    requires At(s.vvTried, b, i) != -1 ==> CanEvict(h, s, b, i)
  {
    if At(s.vvTried, b, i) == -1 then s else Evicted(h, s, b, i)
  }

  /** The lookups and assertions of MakeTried. */
  predicate CanMakeTried(h: Hash, s: State, id: nat) {
    && Removable(s, id)
    && var t := Lifted(h, s, id);
    && t.mapInfo[id].refCount == 0
    && var b, i := TriedBucket(h, s.mapInfo[id].addr), TriedPos(h, s.mapInfo[id].addr);
    && (At(t.vvTried, b, i) != -1 ==> CanEvict(h, t, b, i))
    && CanRetry(h, Vacated(h, t, b, i), id, b, i)
  }

  function MadeTried(h: Hash, s: State, id: nat): State
    requires CanMakeTried(h, s, id)
  {
    var b, i := TriedBucket(h, s.mapInfo[id].addr), TriedPos(h, s.mapInfo[id].addr);
    Retried(h, Vacated(h, Lifted(h, s, id), b, i), id, b, i)
  }

  lemma LiftKeeps(h: Hash, s: State, id: nat)
    requires Inv(h, s, {}, {}) && id in s.mapInfo && s.mapInfo[id].refCount > 0
    ensures Removable(s, id)
    ensures var t := Lifted(h, s, id);
      && Inv(h, t, {id}, {id}) && t.mapInfo[id].refCount == 0
      && t.mapInfo[id].addr == s.mapInfo[id].addr && Persists(s.mapInfo, t.mapInfo)
      && t.vvTried == s.vvTried && t.collisions == s.collisions && t.idCount == s.idCount
  {
    InvShape(h, s, {}, {});
    var start := HomeBucket(h, s.mapInfo[id]);
    UnlistEnds(h, s, id, start);
    UnlistOnly(h, s, id, start, |s.vvNew|);
    UncountKeeps(h, Unlisted(h, s, id, start, |s.vvNew|), id, {id}, {});
    assert {} + {id} == {id};
  }

  lemma VacateKeeps(h: Hash, s: State, b: nat, i: nat, loose: set<nat>, uncounted: set<nat>)
    requires Inv(h, s, loose, uncounted)
    ensures At(s.vvTried, b, i) != -1 ==> CanEvict(h, s, b, i)
    ensures var r := Vacated(h, s, b, i);
      && Inv(h, r, loose, uncounted) && Persists(s.mapInfo, r.mapInfo)
      && At(r.vvTried, b, i) == -1 && TriedBut(s.vvTried, r.vvTried, b, i)
      && r.collisions == s.collisions && r.idCount == s.idCount
  {
    if At(s.vvTried, b, i) != -1 {
      EvictKeeps(h, s, b, i, loose, uncounted);
    }
  }

  /** No tried slot becomes empty. */
  ghost predicate StaysOccupied(t: Table, r: Table) {
    forall c: nat, j: nat {:trigger At(r, c, j)} :: At(t, c, j) != -1 ==> At(r, c, j) != -1
  }

  lemma PlaceKeeps(h: Hash, s: State, id: nat, b: nat, i: nat)
    requires Inv(h, s, {id}, {id}) && id in s.mapInfo && At(s.vvTried, b, i) == -1
    requires b == TriedBucket(h, s.mapInfo[id].addr) && i == TriedPos(h, s.mapInfo[id].addr)
    ensures CanRetry(h, s, id, b, i) && Inv(h, Retried(h, s, id, b, i), {}, {})
    ensures TriedBut(s.vvTried, Retried(h, s, id, b, i).vvTried, b, i)
  {
    InvShape(h, s, {id}, {id});
    RetryKeeps(h, s, id, b, i, {id}, {id});
    assert {id} - {id} == {};
  }

  /** The second half of the move, for an entry that has left the new table. */
  lemma PlaceLifted(h: Hash, t: State, id: nat, b: nat, i: nat)
    requires Inv(h, t, {id}, {id}) && id in t.mapInfo
    requires b == TriedBucket(h, t.mapInfo[id].addr) && i == TriedPos(h, t.mapInfo[id].addr)
    ensures (At(t.vvTried, b, i) != -1 ==> CanEvict(h, t, b, i)) && CanRetry(h, Vacated(h, t, b, i), id, b, i)
    ensures var r := Retried(h, Vacated(h, t, b, i), id, b, i);
      && Inv(h, r, {}, {}) && PersistsBut(t.mapInfo, r.mapInfo, {id}) && StaysOccupied(t.vvTried, r.vvTried)
      && id in r.mapInfo && r.mapInfo[id].inTried && At(r.vvTried, b, i) == id
      && r.collisions == t.collisions && r.idCount == t.idCount
  {
    VacateKeeps(h, t, b, i, {id}, {id});
    var v := Vacated(h, t, b, i);
    assert id in v.mapInfo by { assert Holds(Status, h, v, {id}, {id}); }
    PlaceKeeps(h, v, id, b, i);
  }

  /**
   Moving an entry to the tried table: none of its assertions can fail, the condition holds again,
   the entry is in its tried slot, and no tried slot becomes empty.
   */
  lemma MakeTriedKeeps(h: Hash, s: State, id: nat)
    requires Inv(h, s, {}, {}) && id in s.mapInfo && s.mapInfo[id].refCount > 0
    ensures CanMakeTried(h, s, id)
    ensures var r := MadeTried(h, s, id);
      && Inv(h, r, {}, {}) && PersistsBut(s.mapInfo, r.mapInfo, {id}) && StaysOccupied(s.vvTried, r.vvTried)
      && id in r.mapInfo && r.mapInfo[id].inTried
      && At(r.vvTried, TriedBucket(h, s.mapInfo[id].addr), TriedPos(h, s.mapInfo[id].addr)) == id
      && r.collisions == s.collisions && r.idCount == s.idCount
  {
    LiftKeeps(h, s, id);
    PlaceLifted(h, Lifted(h, s, id), id, TriedBucket(h, s.mapInfo[id].addr), TriedPos(h, s.mapInfo[id].addr));
  }
}
