/**
 What the scans of the pools leave, read off the candidates alone: which short ids are held, by which
 transaction, and how far each scan looks before it stops (InitData in src/blockencodings.cpp).
 */
module Holding {
  import opened Basics
  import opened BlockEncodings

  // ---------- held ids ----------

  /** The first candidate with a given short id. */
  function First(sid: nat -> nat, id: nat, all: seq<Tx>): Option<Tx> {
    if all == [] then None
    else
      var before := First(sid, id, all[..|all| - 1]);
      if before.Some? then before
      else if sid(all[|all| - 1].witnessHash) == id then Some(all[|all| - 1]) else None
  }

  ghost predicate SameHash(sid: nat -> nat, id: nat, all: seq<Tx>) {
    forall x, y :: x in all && y in all && sid(x.witnessHash) == id && sid(y.witnessHash) == id ==>
      x.witnessHash == y.witnessHash
  }

  /**
   After the candidates `all`, of which `pool` came from the pool: there is a candidate, no second one
   from the pool, and no two of different witness hashes.
   */
  ghost predicate Held(sid: nat -> nat, id: nat, pool: seq<Tx>, all: seq<Tx>) {
    Matches(sid, id, pool) <= 1 && First(sid, id, all).Some? && SameHash(sid, id, all)
  }

  lemma {:induction false} FirstIs(sid: nat -> nat, id: nat, all: seq<Tx>)
    ensures First(sid, id, all).Some? <==> Matches(sid, id, all) > 0
    ensures First(sid, id, all).Some? ==>
      First(sid, id, all).value in all && sid(First(sid, id, all).value.witnessHash) == id
    ensures First(sid, id, all).None? ==> forall x :: x in all ==> sid(x.witnessHash) != id
  {
    if all != [] {
      var n := |all| - 1;
      FirstIs(sid, id, all[..n]);
      assert all == all[..n] + [all[n]];
    }
  }

  lemma FirstStep(sid: nat -> nat, id: nat, all: seq<Tx>, tx: Tx)
    ensures First(sid, id, all + [tx])
         == if First(sid, id, all).Some? then First(sid, id, all)
            else if sid(tx.witnessHash) == id then Some(tx) else None
  {
    assert (all + [tx])[..|all|] == all;
  }

  /** A candidate keeps the hashes alike exactly when it agrees with the first one. */
  lemma SameHashStep(sid: nat -> nat, id: nat, all: seq<Tx>, tx: Tx)
    ensures SameHash(sid, id, all + [tx]) <==>
      && SameHash(sid, id, all)
      && (sid(tx.witnessHash) == id && First(sid, id, all).Some? ==>
            First(sid, id, all).value.witnessHash == tx.witnessHash)
  {
    FirstIs(sid, id, all);
    if SameHash(sid, id, all + [tx]) {
      assert forall x :: x in all ==> x in all + [tx];
      assert tx in all + [tx];
    }
  }

  lemma {:induction false} OneMatchOneHash(sid: nat -> nat, id: nat, all: seq<Tx>)
    requires Matches(sid, id, all) <= 1
    ensures SameHash(sid, id, all)
  {
    if all != [] {
      var n := |all| - 1;
      OneMatchOneHash(sid, id, all[..n]);
      FirstIs(sid, id, all[..n]);
      SameHashStep(sid, id, all[..n], all[n]);
      assert all == all[..n] + [all[n]];
    }
  }

  /** After the pool alone an id is held exactly when one transaction has it. */
  lemma HeldByPool(sid: nat -> nat, id: nat, pool: seq<Tx>)
    ensures Held(sid, id, pool, pool) <==> Matches(sid, id, pool) == 1
  {
    FirstIs(sid, id, pool);
    if Matches(sid, id, pool) <= 1 { OneMatchOneHash(sid, id, pool); }
  }

  /** A candidate of another id changes nothing. */
  lemma HeldElsewhere(sid: nat -> nat, id: nat, pool: seq<Tx>, all: seq<Tx>, tx: Tx)
    requires sid(tx.witnessHash) != id
    ensures First(sid, id, all + [tx]) == First(sid, id, all)
    ensures Held(sid, id, pool, all + [tx]) <==> Held(sid, id, pool, all)
    ensures Held(sid, id, pool + [tx], all + [tx]) <==> Held(sid, id, pool, all)
  {
    FirstStep(sid, id, all, tx);
    SameHashStep(sid, id, all, tx);
    MatchesStep(sid, id, pool, tx);
  }

  // ---------- one candidate ----------

  /** The slot is as the candidates say: filled by the first of them while the id is held. */
  ghost predicate SlotFollows(sid: nat -> nat, id: nat, pool: seq<Tx>, all: seq<Tx>, m: Match, p: nat) {
    && p < |m.avail| == |m.have|
    && (m.have[p] <==> First(sid, id, all).Some?)
    && m.avail[p] == if Held(sid, id, pool, all) then First(sid, id, all) else None
  }

  lemma PoolSlotStep(sid: nat -> nat, pool: seq<Tx>, m: Match, p: nat, tx: Tx)
    requires SlotFollows(sid, sid(tx.witnessHash), pool, pool, m, p) && (m.avail[p].Some? ==> m.count > 0)
    ensures SlotFollows(sid, sid(tx.witnessHash), pool + [tx], pool + [tx], PoolPut(m, p, tx), p)
    ensures PoolPut(m, p, tx).count == m.count
      - (if Held(sid, sid(tx.witnessHash), pool, pool) then 1 else 0)
      + (if Held(sid, sid(tx.witnessHash), pool + [tx], pool + [tx]) then 1 else 0)
  {
    var id := sid(tx.witnessHash);
    FirstIs(sid, id, pool);
    FirstStep(sid, id, pool, tx);
    MatchesStep(sid, id, pool, tx);
    HeldByPool(sid, id, pool);
    HeldByPool(sid, id, pool + [tx]);
  }

  lemma ExtraSlotStep(sid: nat -> nat, pool: seq<Tx>, all: seq<Tx>, m: Match, p: nat, tx: Tx)
    requires pool <= all
    requires SlotFollows(sid, sid(tx.witnessHash), pool, all, m, p) && (m.avail[p].Some? ==> m.count > 0)
    ensures SlotFollows(sid, sid(tx.witnessHash), pool, all + [tx], ExtraPut(m, p, tx), p)
    ensures ExtraPut(m, p, tx).count == m.count
      - (if Held(sid, sid(tx.witnessHash), pool, all) then 1 else 0)
      + (if Held(sid, sid(tx.witnessHash), pool, all + [tx]) then 1 else 0)
  {
    var id := sid(tx.witnessHash);
    FirstIs(sid, id, all);
    FirstStep(sid, id, all, tx);
    SameHashStep(sid, id, all, tx);
    if First(sid, id, all).None? {
      NoneInPart(sid, id, pool, all);
      assert SameHash(sid, id, all);
    }
  }

  lemma NoneInPart(sid: nat -> nat, id: nat, pool: seq<Tx>, all: seq<Tx>)
    requires pool <= all && First(sid, id, all).None?
    ensures Matches(sid, id, pool) == 0
  {
    FirstIs(sid, id, all);
    FirstIs(sid, id, pool);
  }

  // ---------- all slots ----------

  ghost function HeldIds(sid: nat -> nat, ids: seq<nat>, pool: seq<Tx>, all: seq<Tx>): set<nat> {
    set id | id in ids && Held(sid, id, pool, all)
  }

  datatype Aspect = Shape | Mapped | Counted

  ghost predicate FollowsIn(aspect: Aspect, ids: seq<nat>, placed: Slots, slots: map<nat, nat>, sid: nat -> nat,
                            base: nat, pool: seq<Tx>, all: seq<Tx>, m: Match)
  {
    match aspect
    case Shape =>
      && SlotMap(ids, placed, slots) && |m.avail| == |m.have| == |placed|
      && forall p :: 0 <= p < |placed| && placed[p].Some? ==> m.avail[p] == placed[p]
    case Mapped => forall id :: id in slots ==> SlotFollows(sid, id, pool, all, m, slots[id])
    case Counted => m.count == base + |HeldIds(sid, ids, pool, all)|
  }

  /** Prefilled slots stay, every mapped slot is as the candidates say, and the held ids are counted. */
  ghost predicate Follows(ids: seq<nat>, placed: Slots, slots: map<nat, nat>, sid: nat -> nat, base: nat,
                          pool: seq<Tx>, all: seq<Tx>, m: Match)
  {
    forall aspect :: FollowsIn(aspect, ids, placed, slots, sid, base, pool, all, m)
  }

  lemma FollowsParts(ids: seq<nat>, placed: Slots, slots: map<nat, nat>, sid: nat -> nat, base: nat,
                     pool: seq<Tx>, all: seq<Tx>, m: Match)
    requires Follows(ids, placed, slots, sid, base, pool, all, m)
    ensures SlotMap(ids, placed, slots) && |m.avail| == |m.have| == |placed|
    ensures forall p :: 0 <= p < |placed| && placed[p].Some? ==> m.avail[p] == placed[p]
    ensures forall id :: id in slots ==> SlotFollows(sid, id, pool, all, m, slots[id])
    ensures m.count == base + |HeldIds(sid, ids, pool, all)|
  {
    assert FollowsIn(Shape, ids, placed, slots, sid, base, pool, all, m);
    assert FollowsIn(Mapped, ids, placed, slots, sid, base, pool, all, m);
    assert FollowsIn(Counted, ids, placed, slots, sid, base, pool, all, m);
  }

  lemma FollowsCount(ids: seq<nat>, placed: Slots, slots: map<nat, nat>, sid: nat -> nat, base: nat,
                     pool: seq<Tx>, all: seq<Tx>, m: Match)
    requires Follows(ids, placed, slots, sid, base, pool, all, m)
    ensures m.count == base + |HeldIds(sid, ids, pool, all)|
  {
    FollowsParts(ids, placed, slots, sid, base, pool, all, m);
  }

  /** The held ids differ at one id only. */
  lemma HeldIdsStep(sid: nat -> nat, ids: seq<nat>, pool: seq<Tx>, all: seq<Tx>,
                    pool': seq<Tx>, all': seq<Tx>, own: nat)
    requires own in ids
    requires forall id :: id in ids && id != own ==> (Held(sid, id, pool', all') <==> Held(sid, id, pool, all))
    ensures |HeldIds(sid, ids, pool', all')| == |HeldIds(sid, ids, pool, all)|
      - (if Held(sid, own, pool, all) then 1 else 0) + (if Held(sid, own, pool', all') then 1 else 0)
  {
    var before, after := HeldIds(sid, ids, pool, all), HeldIds(sid, ids, pool', all');
    assert before - {own} == after - {own};
    TakeOut(before, own);
    TakeOut(after, own);
  }

  lemma TakeOut(a: set<nat>, x: nat)
    ensures |a| == |a - {x}| + (if x in a then 1 else 0)
  {
    if x !in a { assert a - {x} == a; }
  }

  lemma PoolTakeFollows(ids: seq<nat>, placed: Slots, slots: map<nat, nat>, sid: nat -> nat, base: nat,
                        pool: seq<Tx>, m: Match, tx: Tx)
    requires Follows(ids, placed, slots, sid, base, pool, pool, m) && Fits(m, slots)
    ensures Follows(ids, placed, slots, sid, base, pool + [tx], pool + [tx], PoolTake(m, slots, sid, tx))
  {
    var own, r := sid(tx.witnessHash), PoolTake(m, slots, sid, tx);
    FollowsParts(ids, placed, slots, sid, base, pool, pool, m);
    forall id | id in ids && id != own
      ensures Held(sid, id, pool + [tx], pool + [tx]) <==> Held(sid, id, pool, pool)
      ensures SlotFollows(sid, id, pool + [tx], pool + [tx], r, slots[id])
    {
      HeldElsewhere(sid, id, pool, pool, tx);
      assert SlotFollows(sid, id, pool, pool, m, slots[id]);
      if own in slots { SlotsAreApart(ids, placed, slots, id, own); }
    }
    if own in slots {
      SlotIsOfId(ids, placed, slots, own);
      HeldIsCounted(ids, placed, slots, sid, base, pool, pool, m, own);
      PoolSlotStep(sid, pool, m, slots[own], tx);
      HeldIdsStep(sid, ids, pool, pool, pool + [tx], pool + [tx], own);
    } else {
      assert HeldIds(sid, ids, pool + [tx], pool + [tx]) == HeldIds(sid, ids, pool, pool);
    }
  }

  lemma ExtraTakeFollows(ids: seq<nat>, placed: Slots, slots: map<nat, nat>, sid: nat -> nat, base: nat,
                         pool: seq<Tx>, all: seq<Tx>, m: Match, tx: Tx)
    requires Follows(ids, placed, slots, sid, base, pool, all, m) && Fits(m, slots) && pool <= all
    ensures Follows(ids, placed, slots, sid, base, pool, all + [tx], ExtraTake(m, slots, sid, tx))
  {
    var own, r := sid(tx.witnessHash), ExtraTake(m, slots, sid, tx);
    FollowsParts(ids, placed, slots, sid, base, pool, all, m);
    forall id | id in ids && id != own
      ensures Held(sid, id, pool, all + [tx]) <==> Held(sid, id, pool, all)
      ensures SlotFollows(sid, id, pool, all + [tx], r, slots[id])
    {
      HeldElsewhere(sid, id, pool, all, tx);
      assert SlotFollows(sid, id, pool, all, m, slots[id]);
      if own in slots { SlotsAreApart(ids, placed, slots, id, own); }
    }
    if own in slots {
      SlotIsOfId(ids, placed, slots, own);
      HeldIsCounted(ids, placed, slots, sid, base, pool, all, m, own);
      ExtraSlotStep(sid, pool, all, m, slots[own], tx);
      HeldIdsStep(sid, ids, pool, all, pool, all + [tx], own);
    } else {
      assert HeldIds(sid, ids, pool, all + [tx]) == HeldIds(sid, ids, pool, all);
    }
  }

  lemma HeldIsCounted(ids: seq<nat>, placed: Slots, slots: map<nat, nat>, sid: nat -> nat, base: nat,
                      pool: seq<Tx>, all: seq<Tx>, m: Match, id: nat)
    requires Follows(ids, placed, slots, sid, base, pool, all, m) && id in slots
    ensures SlotFollows(sid, id, pool, all, m, slots[id]) && (m.avail[slots[id]].Some? ==> m.count > 0)
  {
    FollowsParts(ids, placed, slots, sid, base, pool, all, m);
    if m.avail[slots[id]].Some? {
      assert SlotFollows(sid, id, pool, all, m, slots[id]);
      assert id in HeldIds(sid, ids, pool, all);
    }
  }

  // ---------- how far the scans look ----------

  /** The length of the part of the pool that is looked at, from `n` on: up to the first full count. */
  ghost function PoolSeen(sid: nat -> nat, ids: seq<nat>, base: nat, pool: seq<Tx>, n: nat): (r: nat)
    requires n <= |pool|
    ensures n <= r <= |pool|
    decreases |pool| - n
  {
    if n == |pool| then n
    else if base + |HeldIds(sid, ids, pool[..n + 1], pool[..n + 1])| == |ids| then n + 1
    else PoolSeen(sid, ids, base, pool, n + 1)
  }

  /** The same for the extra pool after `pool`; gaps are passed over without a look at the count. */
  ghost function ExtraSeen(sid: nat -> nat, ids: seq<nat>, base: nat, pool: seq<Tx>, extra: seq<Option<Tx>>,
                           n: nat): (r: nat)
    requires n <= |extra|
    ensures n <= r <= |extra|
    decreases |extra| - n
  {
    if n == |extra| then n
    else if extra[n].Some? && base + |HeldIds(sid, ids, pool, pool + Present(extra[..n + 1]))| == |ids| then n + 1
    else ExtraSeen(sid, ids, base, pool, extra, n + 1)
  }

  /** The pool transactions that are looked at. */
  ghost function FromPool(sid: nat -> nat, ids: seq<nat>, base: nat, pool: seq<Tx>): seq<Tx> {
    pool[..PoolSeen(sid, ids, base, pool, 0)]
  }

  /** The extra transactions that are looked at after them. */
  ghost function FromExtra(sid: nat -> nat, ids: seq<nat>, base: nat, pool: seq<Tx>, extra: seq<Option<Tx>>): seq<Tx> {
    Present(extra[..ExtraSeen(sid, ids, base, FromPool(sid, ids, base, pool), extra, 0)])
  }

  ghost function Candidates(sid: nat -> nat, ids: seq<nat>, base: nat, pool: seq<Tx>, extra: seq<Option<Tx>>): seq<Tx> {
    FromPool(sid, ids, base, pool) + FromExtra(sid, ids, base, pool, extra)
  }

  // ---------- the scans ----------

  ghost function Elements(ids: seq<nat>): set<nat> { set id | id in ids }

  lemma {:induction false} ElementsCount(ids: seq<nat>)
    requires Distinct(ids)
    ensures |Elements(ids)| == |ids|
  {
    if ids != [] {
      var n := |ids| - 1;
      ElementsCount(ids[..n]);
      assert Elements(ids) == Elements(ids[..n]) + {ids[n]};
      assert ids[n] !in Elements(ids[..n]);
    }
  }

  lemma SlotsCount(ids: seq<nat>, placed: Slots, slots: map<nat, nat>)
    requires SlotMap(ids, placed, slots)
    ensures |slots| == |ids|
  {
    ElementsCount(ids);
    assert slots.Keys == Elements(ids);
    assert |slots| == |slots.Keys|;
  }

  lemma {:induction false} PoolScanFollows(ids: seq<nat>, placed: Slots, slots: map<nat, nat>, sid: nat -> nat,
                                           base: nat, pool: seq<Tx>, n: nat, m: Match)
    requires n <= |pool| && Follows(ids, placed, slots, sid, base, pool[..n], pool[..n], m) && Fits(m, slots)
    requires |slots| == |ids|
    ensures var seen := pool[..PoolSeen(sid, ids, base, pool, n)];
            Follows(ids, placed, slots, sid, base, seen, seen, PoolScan(m, slots, sid, pool[n..]))
    decreases |pool| - n
  {
    if n < |pool| {
      PoolTakeFollows(ids, placed, slots, sid, base, pool[..n], m, pool[n]);
      assert pool[..n] + [pool[n]] == pool[..n + 1];
      var next := PoolTake(m, slots, sid, pool[n]);
      FollowsCount(ids, placed, slots, sid, base, pool[..n + 1], pool[..n + 1], next);
      assert pool[n..][1..] == pool[n + 1..];
      if next.count != |slots| { PoolScanFollows(ids, placed, slots, sid, base, pool, n + 1, next); }
    }
  }

  lemma {:induction false} ExtraScanFollows(ids: seq<nat>, placed: Slots, slots: map<nat, nat>, sid: nat -> nat,
                                            base: nat, pool: seq<Tx>, extra: seq<Option<Tx>>, n: nat, m: Match)
    requires n <= |extra| && |slots| == |ids| && Fits(m, slots)
    requires Follows(ids, placed, slots, sid, base, pool, pool + Present(extra[..n]), m)
    ensures var seen := Present(extra[..ExtraSeen(sid, ids, base, pool, extra, n)]);
            Follows(ids, placed, slots, sid, base, pool, pool + seen, ExtraScan(m, slots, sid, extra[n..]))
    decreases |extra| - n
  {
    if n < |extra| {
      PresentStep(pool, extra, n);
      assert extra[n..][1..] == extra[n + 1..];
      if extra[n].None? {
        ExtraScanFollows(ids, placed, slots, sid, base, pool, extra, n + 1, m);
      } else {
        ExtraTakeFollows(ids, placed, slots, sid, base, pool, pool + Present(extra[..n]), m, extra[n].value);
        var next := ExtraTake(m, slots, sid, extra[n].value);
        FollowsCount(ids, placed, slots, sid, base, pool, pool + Present(extra[..n + 1]), next);
        if next.count != |slots| { ExtraScanFollows(ids, placed, slots, sid, base, pool, extra, n + 1, next); }
      }
    }
  }

  lemma NothingHeld(ids: seq<nat>, placed: Slots, slots: map<nat, nat>, sid: nat -> nat, base: nat)
    requires SlotMap(ids, placed, slots)
    ensures Fits(Untouched(placed, base), slots)
    ensures Follows(ids, placed, slots, sid, base, [], [], Untouched(placed, base))
  {
    SlotsFit(ids, placed, slots, Untouched(placed, base).have, base);
    assert HeldIds(sid, ids, [], []) == {};
    forall id | id in slots ensures SlotFollows(sid, id, [], [], Untouched(placed, base), slots[id]) {
      SlotIsOfId(ids, placed, slots, id);
    }
  }

  /** Both scans in terms of the candidates they look at. */
  lemma ScansFollow(ids: seq<nat>, placed: Slots, slots: map<nat, nat>, sid: nat -> nat, base: nat,
                    pool: seq<Tx>, extra: seq<Option<Tx>>)
    requires SlotMap(ids, placed, slots)
    ensures Fits(Untouched(placed, base), slots)
    ensures var p := PoolScan(Untouched(placed, base), slots, sid, pool);
      var seen, all := FromPool(sid, ids, base, pool), Candidates(sid, ids, base, pool, extra);
      && Follows(ids, placed, slots, sid, base, seen, seen, p)
      && Follows(ids, placed, slots, sid, base, seen, all, ExtraScan(p, slots, sid, extra))
  {
    SlotsCount(ids, placed, slots);
    NothingHeld(ids, placed, slots, sid, base);
    assert pool[..0] == [] && pool[0..] == pool && extra[0..] == extra;
    PoolScanFollows(ids, placed, slots, sid, base, pool, 0, Untouched(placed, base));
    var p := PoolScan(Untouched(placed, base), slots, sid, pool);
    var seen := FromPool(sid, ids, base, pool);
    assert seen + Present(extra[..0]) == seen;
    ExtraScanFollows(ids, placed, slots, sid, base, seen, extra, 0, p);
  }

  /**
   What InitData leaves, for every message it accepts and whatever the pools hold: a slot is filled
   exactly when its id is held, by the first candidate, and mempool_count grows by the held ids.
   */
  lemma SlotsAreHeld(ids: seq<nat>, placed: Slots, sid: nat -> nat, pool: seq<Tx>, extra: seq<Option<Tx>>,
                     base: Counts, avail: Slots, count: Counts)
    requires Scanned(ids, placed, sid, pool, extra, base, avail, count)
    ensures var seen := FromPool(sid, ids, base.mempool, pool);
      var all := Candidates(sid, ids, base.mempool, pool, extra);
      && |avail| == |placed| && (forall p :: 0 <= p < |placed| && placed[p].Some? ==> avail[p] == placed[p])
      && (forall i: nat, p: nat :: i < |ids| && NthEmpty(placed, i, p) ==>
            avail[p] == if Held(sid, ids[i], seen, all) then First(sid, ids[i], all) else None)
      && count.mempool == base.mempool + |HeldIds(sid, ids, seen, all)|
  {
    var slots :| SlotMap(ids, placed, slots) && ScannedBy(placed, slots, sid, pool, extra, base, avail, count);
    ScansFollow(ids, placed, slots, sid, base.mempool, pool, extra);
    var seen, all := FromPool(sid, ids, base.mempool, pool), Candidates(sid, ids, base.mempool, pool, extra);
    var r := ExtraScan(PoolScan(Untouched(placed, base.mempool), slots, sid, pool), slots, sid, extra);
    FollowsParts(ids, placed, slots, sid, base.mempool, seen, all, r);
    forall i: nat, p: nat | i < |ids| && NthEmpty(placed, i, p)
      ensures avail[p] == if Held(sid, ids[i], seen, all) then First(sid, ids[i], all) else None
    {
      SlotOfRank(ids, placed, slots, i, p);
      assert SlotFollows(sid, ids[i], seen, all, r, slots[ids[i]]);
    }
  }
}
