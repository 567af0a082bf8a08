/**
 Compact blocks (src/blockencodings.cpp; BIP 152): placing prefilled transactions, mapping short ids
 to the remaining slots, matching pool transactions, and rebuilding the block.

 A transaction is known by its witness hash; the salted short id is an arbitrary function of it.
 */
module BlockEncodings {
  import opened Basics

  datatype Tx = Tx(witnessHash: nat, isNull: bool, body: nat)

  /** A header is null when its bits are zero. */
  datatype Header = Header(bits: nat, rest: nat)

  datatype Block = Block(header: Header, vtx: seq<Tx>)

  type uint16 = n: nat | n < 0x1_0000

  datatype Prefilled = Prefilled(index: uint16, tx: Tx)

  datatype CompactBlock = CompactBlock(header: Header, shortTxIds: seq<nat>, prefilled: seq<Prefilled>)

  datatype ReadStatus = OK | INVALID | FAILED | CHECKBLOCK_FAILED

  type Slots = seq<Option<Tx>>

  const MAX_BLOCK_WEIGHT := 400000
  const MIN_SERIALIZABLE_TRANSACTION_WEIGHT := 40
  const MAX_TRANSACTIONS := MAX_BLOCK_WEIGHT / MIN_SERIALIZABLE_TRANSACTION_WEIGHT

  // ---------- counting empty slots ----------

  function CountNone(a: Slots): (n: nat)
    ensures n <= |a|
  {
    if a == [] then 0 else CountNone(a[..|a| - 1]) + (if a[|a| - 1].None? then 1 else 0)
  }

  lemma {:induction false} CountUpdate(a: Slots, i: nat, v: Option<Tx>)
    requires i < |a|
    ensures CountNone(a[i := v]) == CountNone(a) - (if a[i].None? then 1 else 0) + (if v.None? then 1 else 0)
  {
    var n := |a| - 1;
    if i < n {
      assert a[i := v][..n] == a[..n][i := v];
      CountUpdate(a[..n], i, v);
    } else {
      assert a[i := v][..n] == a[..n];
    }
  }

  lemma {:induction false} CountPrefix(a: Slots, n: nat)
    requires n <= |a|
    ensures CountNone(a[..n]) <= CountNone(a)
    ensures CountNone(a[..n]) == CountNone(a) ==> forall i :: n <= i < |a| ==> a[i].Some?
    decreases |a|
  {
    if n == |a| {
      assert a[..n] == a;
    } else {
      var b := a[..|a| - 1];
      assert b[..n] == a[..n];
      CountPrefix(b, n);
    }
  }

  /** `p` is the empty slot with exactly `i` empty slots before it. */
  ghost predicate NthEmpty(a: Slots, i: nat, p: nat) {
    p < |a| && a[p].None? && CountNone(a[..p]) == i
  }

  lemma NthEmptyUnique(a: Slots, i: nat, p: nat, j: nat, q: nat)
    requires NthEmpty(a, i, p) && NthEmpty(a, j, q)
    ensures p < q <==> i < j
  {
    if p < q {
      NthEmptyOrder(a, i, p, j, q);
    } else if q < p {
      NthEmptyOrder(a, j, q, i, p);
    }
  }

  lemma NthEmptyOrder(a: Slots, i: nat, p: nat, j: nat, q: nat)
    requires NthEmpty(a, i, p) && NthEmpty(a, j, q) && p < q
    ensures i < j
  {
    assert a[..q][..p + 1] == a[..p + 1] && a[..p + 1][..p] == a[..p];
    CountPrefix(a[..q], p + 1);
  }

  // ---------- prefilled transactions ----------

  /** The slot of the `n`-th prefilled transaction, offsets being relative to the one before. */
  function LastIndex(pf: seq<Prefilled>, n: nat): (r: int)
    requires n <= |pf|
    ensures n - 1 <= r
  {
    if n == 0 then -1 else LastIndex(pf, n - 1) + pf[n - 1].index + 1
  }

  /** The first `n` prefilled transactions are accepted, with `shorts` short ids beside them. */
  predicate PrefilledOk(pf: seq<Prefilled>, shorts: nat, n: nat)
    requires n <= |pf|
  {
    n == 0 ||
    (&& PrefilledOk(pf, shorts, n - 1)
     && !pf[n - 1].tx.isNull
     && LastIndex(pf, n) <= 0xffff
     && LastIndex(pf, n) <= shorts + n - 1)
  }

  function Placed(pf: seq<Prefilled>, shorts: nat, n: nat): (r: Slots)
    requires n <= |pf| && PrefilledOk(pf, shorts, n)
    ensures |r| == shorts + |pf|
  {
    if n == 0 then seq(shorts + |pf|, _ => None)
    else Placed(pf, shorts, n - 1)[LastIndex(pf, n) := Some(pf[n - 1].tx)]
  }

  lemma {:induction false} AllNone(a: Slots)
    requires forall i :: 0 <= i < |a| ==> a[i].None?
    ensures CountNone(a) == |a|
  {
    if a != [] {
      AllNone(a[..|a| - 1]);
    }
  }

  /** Each accepted one fills a slot of its own, so exactly as many slots stay empty as there are short ids. */
  lemma {:induction false} PlacedLeaves(pf: seq<Prefilled>, shorts: nat, n: nat)
    requires n <= |pf| && PrefilledOk(pf, shorts, n)
    ensures CountNone(Placed(pf, shorts, n)) == shorts + |pf| - n
    ensures forall p :: LastIndex(pf, n) < p < shorts + |pf| ==> Placed(pf, shorts, n)[p].None?
  {
    var a := Placed(pf, shorts, n);
    if n == 0 {
      AllNone(a);
    } else {
      PlacedLeaves(pf, shorts, n - 1);
      CountUpdate(Placed(pf, shorts, n - 1), LastIndex(pf, n), Some(pf[n - 1].tx));
    }
  }

  lemma {:induction false} PrefilledOkPrefix(pf: seq<Prefilled>, shorts: nat, m: nat, n: nat)
    requires m <= n <= |pf| && PrefilledOk(pf, shorts, n)
    ensures PrefilledOk(pf, shorts, m)
  {
    if m < n {
      PrefilledOkPrefix(pf, shorts, m, n - 1);
    }
  }

  // ---------- short ids ----------

  ghost predicate Distinct(ids: seq<nat>) {
    forall i, j :: 0 <= i < j < |ids| ==> ids[i] != ids[j]
  }

  lemma DistinctStep(ids: seq<nat>, id: nat)
    ensures Distinct(ids + [id]) <==> Distinct(ids) && id !in ids
  {
    var all := ids + [id];
    assert forall i :: 0 <= i < |ids| ==> all[i] == ids[i];
    if Distinct(all) {
      forall i, j | 0 <= i < j < |ids| ensures ids[i] != ids[j] {
        assert all[i] != all[j];
      }
      forall i | 0 <= i < |ids| ensures ids[i] != id {
        assert all[i] != all[|ids|];
      }
    }
  }

  /** The keys are the ids, as many as ids exactly when no id repeats. */
  ghost predicate KeyedBy(ids: seq<nat>, slots: map<nat, nat>) {
    && (forall id :: id in slots <==> id in ids)
    && |slots| <= |ids|
    && (|slots| == |ids| <==> Distinct(ids))
  }

  /** Every mapped id is mapped to the empty slot of its rank. */
  ghost predicate Ranked(ids: seq<nat>, a: Slots, slots: map<nat, nat>) {
    forall id :: id in slots ==> HasRank(ids, a, id, slots[id])
  }

  ghost predicate HasRank(ids: seq<nat>, a: Slots, id: nat, p: nat) {
    exists i :: 0 <= i < |ids| && ids[i] == id && NthEmpty(a, i, p)
  }

  lemma KeyedByStep(ids: seq<nat>, slots: map<nat, nat>, id: nat, p: nat)
    requires KeyedBy(ids, slots)
    ensures KeyedBy(ids + [id], slots[id := p])
  {
    var m := slots[id := p];
    DistinctStep(ids, id);
    if id in slots {
      assert m.Keys == slots.Keys;
      assert |m| == |slots|;
    } else {
      assert m.Keys == slots.Keys + {id};
      assert |m| == |slots| + 1;
    }
  }

  lemma RankedStep(ids: seq<nat>, a: Slots, slots: map<nat, nat>, id: nat, p: nat)
    requires Ranked(ids, a, slots) && NthEmpty(a, |ids|, p)
    ensures Ranked(ids + [id], a, slots[id := p])
  {
    var all, m := ids + [id], slots[id := p];
    forall x | x in m ensures HasRank(all, a, x, m[x]) {
      if x == id {
        assert all[|ids|] == id;
      } else {
        var i :| 0 <= i < |ids| && ids[i] == x && NthEmpty(a, i, slots[x]);
        assert all[i] == x;
      }
    }
  }

  /** With as many entries as ids, the map is a bijection onto the empty slots. */
  ghost predicate SlotMap(ids: seq<nat>, a: Slots, slots: map<nat, nat>) {
    && (forall id :: id in slots <==> id in ids)
    && Distinct(ids)
    && (forall i :: 0 <= i < |ids| ==> NthEmpty(a, i, slots[ids[i]]))
  }

  lemma FullMap(ids: seq<nat>, a: Slots, slots: map<nat, nat>)
    requires KeyedBy(ids, slots) && Ranked(ids, a, slots) && |slots| == |ids|
    ensures SlotMap(ids, a, slots)
  {
    forall i | 0 <= i < |ids| ensures NthEmpty(a, i, slots[ids[i]]) {
      assert HasRank(ids, a, ids[i], slots[ids[i]]);
      var j :| 0 <= j < |ids| && ids[j] == ids[i] && NthEmpty(a, j, slots[ids[i]]);
    }
  }

  lemma SlotsAreApart(ids: seq<nat>, a: Slots, slots: map<nat, nat>, x: nat, y: nat)
    requires SlotMap(ids, a, slots) && x in slots && y in slots && x != y
    ensures slots[x] != slots[y]
  {
    var i :| 0 <= i < |ids| && ids[i] == x;
    var j :| 0 <= j < |ids| && ids[j] == y;
    NthEmptyUnique(a, i, slots[x], j, slots[y]);
    NthEmptyUnique(a, j, slots[y], i, slots[x]);
  }

  // ---------- matching transactions to slots ----------

  /** The number of candidates with a given short id. */
  function Matches(sid: nat -> nat, id: nat, log: seq<Tx>): nat {
    if log == [] then 0
    else Matches(sid, id, log[..|log| - 1]) + (if sid(log[|log| - 1].witnessHash) == id then 1 else 0)
  }

  datatype Match = Match(avail: Slots, have: seq<bool>, count: nat)

  /**
   The slot `p` of short id `id`, after the candidates in `log`: it was matched if one of them has
   the id, and it is given up only if two of them have.
   */
  ghost predicate SlotOk(sid: nat -> nat, log: seq<Tx>, m: Match, id: nat, p: nat)
    requires p < |m.avail| == |m.have|
  {
    && (m.have[p] <==> Matches(sid, id, log) > 0)
    && (m.avail[p].Some? ==> m.have[p] && sid(m.avail[p].value.witnessHash) == id && m.avail[p].value in log)
    && (m.avail[p].None? && m.have[p] ==> Matches(sid, id, log) >= 2)
  }

  /** Prefilled slots are as placed, every other slot is as the candidates say, and the count is exact. */
  ghost predicate MatchOk(ids: seq<nat>, placed: Slots, slots: map<nat, nat>, sid: nat -> nat, base: nat,
                          log: seq<Tx>, m: Match)
  {
    && SlotMap(ids, placed, slots)
    && |m.avail| == |m.have| == |placed|
    && (forall p :: 0 <= p < |placed| && placed[p].Some? ==> m.avail[p] == placed[p])
    && (forall id :: id in slots ==> slots[id] < |placed| && SlotOk(sid, log, m, id, slots[id]))
    && m.count == base + CountNone(placed) - CountNone(m.avail)
  }

  lemma SlotIsOfId(ids: seq<nat>, a: Slots, slots: map<nat, nat>, id: nat)
    requires SlotMap(ids, a, slots) && id in slots
    ensures slots[id] < |a| && a[slots[id]].None?
  {
    var i :| 0 <= i < |ids| && ids[i] == id;
    assert NthEmpty(a, i, slots[ids[i]]);
  }

  lemma MatchesStep(sid: nat -> nat, id: nat, log: seq<Tx>, tx: Tx)
    ensures Matches(sid, id, log + [tx]) == Matches(sid, id, log) + (if sid(tx.witnessHash) == id then 1 else 0)
  {
    assert (log + [tx])[..|log|] == log;
  }

  /** A filled slot is counted, so the count can always be lowered for it. */
  lemma CountCovers(ids: seq<nat>, placed: Slots, slots: map<nat, nat>, sid: nat -> nat, base: nat,
                    log: seq<Tx>, m: Match, id: nat)
    requires MatchOk(ids, placed, slots, sid, base, log, m) && id in slots && m.avail[slots[id]].Some?
    ensures m.count > base
  {
    SlotIsOfId(ids, placed, slots, id);
    FilledIsFewer(placed, m.avail, slots[id]);
  }

  lemma {:induction false} FilledIsFewer(a: Slots, b: Slots, p: nat)
    requires p < |a| == |b| && a[p].None? && b[p].Some?
    requires forall i :: 0 <= i < |a| && a[i].Some? ==> b[i].Some?
    ensures CountNone(b) < CountNone(a)
  {
    var n := |a| - 1;
    if p < n {
      FilledIsFewer(a[..n], b[..n], p);
    } else {
      FilledIsNoMore(a[..n], b[..n]);
    }
  }

  lemma {:induction false} FilledIsNoMore(a: Slots, b: Slots)
    requires |a| == |b| && forall i :: 0 <= i < |a| && a[i].Some? ==> b[i].Some?
    ensures CountNone(b) <= CountNone(a)
  {
    if a != [] {
      FilledIsNoMore(a[..|a| - 1], b[..|b| - 1]);
    }
  }

  /** What one lookup leaves: only the slot of the candidate's id may change, and in one of three ways. */
  ghost predicate Changes(m: Match, r: Match, p: nat, tx: Tx)
    requires p < |m.avail| == |m.have|
  {
    || (!m.have[p] && r == Match(m.avail[p := Some(tx)], m.have[p := true], m.count + 1))
    || (m.have[p] && m.avail[p].Some? && m.count > 0 && r == Match(m.avail[p := None], m.have, m.count - 1))
    || (m.have[p] && r == m)
  }

  lemma SlotOkStep(sid: nat -> nat, log: seq<Tx>, m: Match, r: Match, id: nat, p: nat, tx: Tx)
    requires p < |m.avail| == |m.have| && SlotOk(sid, log, m, id, p)
    requires sid(tx.witnessHash) == id && Changes(m, r, p, tx)
    ensures SlotOk(sid, log + [tx], r, id, p)
  {
    MatchesStep(sid, id, log, tx);
  }

  lemma SlotOkElsewhere(sid: nat -> nat, log: seq<Tx>, m: Match, r: Match, id: nat, p: nat, tx: Tx)
    requires p < |m.avail| == |m.have| == |r.avail| == |r.have| && SlotOk(sid, log, m, id, p)
    requires sid(tx.witnessHash) != id && m.avail[p] == r.avail[p] && m.have[p] == r.have[p]
    ensures SlotOk(sid, log + [tx], r, id, p)
  {
    MatchesStep(sid, id, log, tx);
  }

  /** A candidate whose id is announced. */
  lemma MatchStep(ids: seq<nat>, placed: Slots, slots: map<nat, nat>, sid: nat -> nat, base: nat,
                  log: seq<Tx>, m: Match, r: Match, tx: Tx)
    requires MatchOk(ids, placed, slots, sid, base, log, m)
    requires sid(tx.witnessHash) in slots && Changes(m, r, slots[sid(tx.witnessHash)], tx)
    ensures MatchOk(ids, placed, slots, sid, base, log + [tx], r)
  {
    var own := sid(tx.witnessHash);
    var p := slots[own];
    SlotIsOfId(ids, placed, slots, own);
    forall id | id in slots ensures slots[id] < |placed| && SlotOk(sid, log + [tx], r, id, slots[id]) {
      if id == own {
        SlotOkStep(sid, log, m, r, id, p, tx);
      } else {
        SlotsAreApart(ids, placed, slots, id, own);
        SlotOkElsewhere(sid, log, m, r, id, slots[id], tx);
      }
    }
    CountUpdate(m.avail, p, r.avail[p]);
    assert SlotOk(sid, log, m, own, p);
  }

  /** A candidate whose id is not announced. */
  lemma NoMatchStep(ids: seq<nat>, placed: Slots, slots: map<nat, nat>, sid: nat -> nat, base: nat,
                    log: seq<Tx>, m: Match, tx: Tx)
    requires MatchOk(ids, placed, slots, sid, base, log, m) && sid(tx.witnessHash) !in slots
    ensures MatchOk(ids, placed, slots, sid, base, log + [tx], m)
  {
    forall id | id in slots ensures slots[id] < |placed| && SlotOk(sid, log + [tx], m, id, slots[id]) {
      SlotOkElsewhere(sid, log, m, m, id, slots[id], tx);
    }
  }

  // ---------- the two scans ----------

  ghost predicate Fits(m: Match, slots: map<nat, nat>) {
    && |m.avail| == |m.have|
    && forall id :: id in slots ==> slots[id] < |m.avail|
  }

  /** A first match fills the slot; a second one empties it again, to be requested. */
  ghost function PoolPut(m: Match, p: nat, tx: Tx): Match
    requires p < |m.avail| == |m.have|
  {
    if !m.have[p] then Match(m.avail[p := Some(tx)], m.have[p := true], m.count + 1)
    else if m.avail[p].Some? && m.count > 0 then Match(m.avail[p := None], m.have, m.count - 1)
    else m
  }

  /** In the extra pool the transaction already in the slot is no second match. */
  ghost function ExtraPut(m: Match, p: nat, tx: Tx): Match
    requires p < |m.avail| == |m.have|
  {
    if m.have[p] && m.avail[p].Some? && m.avail[p].value.witnessHash == tx.witnessHash then m else PoolPut(m, p, tx)
  }

  ghost function PoolTake(m: Match, slots: map<nat, nat>, sid: nat -> nat, tx: Tx): (r: Match)
    requires Fits(m, slots)
    ensures Fits(r, slots)
  {
    if sid(tx.witnessHash) in slots then PoolPut(m, slots[sid(tx.witnessHash)], tx) else m
  }

  ghost function ExtraTake(m: Match, slots: map<nat, nat>, sid: nat -> nat, tx: Tx): (r: Match)
    requires Fits(m, slots)
    ensures Fits(r, slots)
  {
    if sid(tx.witnessHash) in slots then ExtraPut(m, slots[sid(tx.witnessHash)], tx) else m
  }

  /** The scan of the pool, which stops once every short id is matched. */
  ghost function PoolScan(m: Match, slots: map<nat, nat>, sid: nat -> nat, pool: seq<Tx>): (r: Match)
    requires Fits(m, slots)
    ensures Fits(r, slots)
    decreases |pool|
  {
    if pool == [] then m
    else
      var next := PoolTake(m, slots, sid, pool[0]);
      if next.count == |slots| then next else PoolScan(next, slots, sid, pool[1..])
  }

  /** The scan of the extra pool, which has gaps. */
  ghost function ExtraScan(m: Match, slots: map<nat, nat>, sid: nat -> nat, extra: seq<Option<Tx>>): (r: Match)
    requires Fits(m, slots)
    ensures Fits(r, slots)
    decreases |extra|
  {
    if extra == [] then m
    else if extra[0].None? then ExtraScan(m, slots, sid, extra[1..])
    else
      var next := ExtraTake(m, slots, sid, extra[0].value);
      if next.count == |slots| then next else ExtraScan(next, slots, sid, extra[1..])
  }

  ghost function Untouched(placed: Slots, base: nat): Match {
    Match(placed, seq(|placed|, _ => false), base)
  }

  /**
   What both scans leave, exactly.  The extra counter moves with the other one during the second
   scan, as a 64-bit number.
   */
  ghost predicate Scanned(ids: seq<nat>, placed: Slots, sid: nat -> nat, pool: seq<Tx>, extra: seq<Option<Tx>>,
                          base: Counts, avail: Slots, count: Counts)
  {
    exists slots :: SlotMap(ids, placed, slots) && ScannedBy(placed, slots, sid, pool, extra, base, avail, count)
  }

  /** mempool_count and extra_count. */
  datatype Counts = Counts(mempool: nat, extra: uint64)

  ghost predicate ScannedBy(placed: Slots, slots: map<nat, nat>, sid: nat -> nat, pool: seq<Tx>,
                            extra: seq<Option<Tx>>, base: Counts, avail: Slots, count: Counts)
  {
    && Fits(Untouched(placed, base.mempool), slots)
    && var p := PoolScan(Untouched(placed, base.mempool), slots, sid, pool);
       var r := ExtraScan(p, slots, sid, extra);
       && avail == r.avail && count.mempool == r.count
       && count.extra == Moved(base.extra, p.count, r.count)
  }

  lemma PutChanges(m: Match, p: nat, tx: Tx)
    requires p < |m.avail| == |m.have|
    ensures Changes(m, PoolPut(m, p, tx), p, tx) && Changes(m, ExtraPut(m, p, tx), p, tx)
  {
  }

  lemma TakeIsOk(ids: seq<nat>, placed: Slots, slots: map<nat, nat>, sid: nat -> nat, base: nat,
                 log: seq<Tx>, m: Match, tx: Tx)
    requires MatchOk(ids, placed, slots, sid, base, log, m) && Fits(m, slots)
    ensures MatchOk(ids, placed, slots, sid, base, log + [tx], PoolTake(m, slots, sid, tx))
    ensures MatchOk(ids, placed, slots, sid, base, log + [tx], ExtraTake(m, slots, sid, tx))
  {
    var id := sid(tx.witnessHash);
    if id in slots {
      PutChanges(m, slots[id], tx);
      MatchStep(ids, placed, slots, sid, base, log, m, PoolPut(m, slots[id], tx), tx);
      MatchStep(ids, placed, slots, sid, base, log, m, ExtraPut(m, slots[id], tx), tx);
    } else {
      NoMatchStep(ids, placed, slots, sid, base, log, m, tx);
    }
  }

  /** The 64-bit extra counter after the other counter went from `from` to `to`. */
  function Moved(extra: uint64, from: nat, to: nat): uint64 { (extra + to - from) % TWO_TO_64 }

  lemma MovedOn(extra: uint64, from: nat, mid: nat, to: nat)
    ensures Moved(Moved(extra, from, mid), mid, to) == Moved(extra, from, to)
  {
  }

  // ---------- the partially downloaded block ----------

  /** The transactions present in a list with gaps. */
  function Present(extra: seq<Option<Tx>>): seq<Tx> {
    if extra == [] then []
    else Present(extra[..|extra| - 1]) + (if extra[|extra| - 1].Some? then [extra[|extra| - 1].value] else [])
  }

  class PartiallyDownloadedBlock {
    var header: Header
    var txnAvailable: Slots
    var prefilledCount: nat
    var mempoolCount: nat
    var extraCount: uint64

    constructor ()
      ensures header == Header(0, 0) && txnAvailable == [] && prefilledCount == mempoolCount == extraCount == 0
    {
      header, txnAvailable := Header(0, 0), [];
      prefilledCount, mempoolCount, extraCount := 0, 0, 0;
    }

    ghost function Counted(): Counts
      reads this
    {
      Counts(mempoolCount, extraCount)
    }

    /** Place the prefilled transactions; each index is checked before it is used. */
    method PlacePrefilled(pf: seq<Prefilled>, shorts: nat) returns (ok: bool)
      requires txnAvailable == Placed(pf, shorts, 0)
      modifies this`txnAvailable
      ensures ok == PrefilledOk(pf, shorts, |pf|)
      ensures ok ==> txnAvailable == Placed(pf, shorts, |pf|)
      ensures !ok ==> exists n :: 0 <= n < |pf| && PrefilledOk(pf, shorts, n) && !PrefilledOk(pf, shorts, n + 1)
                                && txnAvailable == Placed(pf, shorts, n)
    {
      var last: int := -1;
      for i := 0 to |pf|
        invariant PrefilledOk(pf, shorts, i) && txnAvailable == Placed(pf, shorts, i) && last == LastIndex(pf, i)
      {
        if pf[i].tx.isNull || last + pf[i].index + 1 > 0xffff || last + pf[i].index + 1 > shorts + i {
          NotOkLater(pf, shorts, i + 1);
          return false;
        }
        last := last + pf[i].index + 1;
        txnAvailable := txnAvailable[last := Some(pf[i].tx)];
      }
      ok := true;
    }

    method PoolLookup(p: nat, tx: Tx, have: seq<bool>) returns (r: seq<bool>)
      requires p < |txnAvailable| == |have| && (have[p] && txnAvailable[p].Some? ==> mempoolCount > 0)
      modifies this`txnAvailable, this`mempoolCount
      ensures Match(txnAvailable, r, mempoolCount) == PoolPut(old(Match(txnAvailable, have, mempoolCount)), p, tx)
    {
      r := have;
      if !have[p] {
        txnAvailable := txnAvailable[p := Some(tx)];
        r := have[p := true];
        mempoolCount := mempoolCount + 1;
      } else if txnAvailable[p].Some? {
        txnAvailable := txnAvailable[p := None];
        mempoolCount := mempoolCount - 1;
      }
    }

    method ExtraLookup(p: nat, tx: Tx, have: seq<bool>) returns (r: seq<bool>)
      requires p < |txnAvailable| == |have| && (have[p] && txnAvailable[p].Some? ==> mempoolCount > 0)
      modifies this`txnAvailable, this`mempoolCount, this`extraCount
      ensures Match(txnAvailable, r, mempoolCount) == ExtraPut(old(Match(txnAvailable, have, mempoolCount)), p, tx)
      ensures extraCount == Moved(old(extraCount), old(mempoolCount), mempoolCount)
    {
      r := have;
      if !have[p] {
        txnAvailable := txnAvailable[p := Some(tx)];
        r := have[p := true];
        mempoolCount := mempoolCount + 1;
        extraCount := (extraCount + 1) % TWO_TO_64;
      } else if txnAvailable[p].Some? && txnAvailable[p].value.witnessHash != tx.witnessHash {
        txnAvailable := txnAvailable[p := None];
        mempoolCount := mempoolCount - 1;
        extraCount := (extraCount + TWO_TO_64 - 1) % TWO_TO_64;
      }
    }

    method PoolCandidate(ids: seq<nat>, slots: map<nat, nat>, sid: nat -> nat, tx: Tx, soFar: seq<bool>,
                         ghost placed: Slots, ghost base: nat, ghost seen: seq<Tx>)
      returns (have: seq<bool>)
      requires MatchOk(ids, placed, slots, sid, base, seen, Match(txnAvailable, soFar, mempoolCount))
      requires Fits(Match(txnAvailable, soFar, mempoolCount), slots)
      modifies this`txnAvailable, this`mempoolCount
      ensures MatchOk(ids, placed, slots, sid, base, seen + [tx], Match(txnAvailable, have, mempoolCount))
      ensures Match(txnAvailable, have, mempoolCount)
              == PoolTake(old(Match(txnAvailable, soFar, mempoolCount)), slots, sid, tx)
    {
      have := soFar;
      ghost var m := Match(txnAvailable, have, mempoolCount);
      TakeIsOk(ids, placed, slots, sid, base, seen, m, tx);
      var id := sid(tx.witnessHash);
      if id in slots {
        LookupIsSafe(ids, placed, slots, sid, base, seen, m, id);
        have := PoolLookup(slots[id], tx, have);
      }
    }

    method MatchPool(ids: seq<nat>, slots: map<nat, nat>, sid: nat -> nat, pool: seq<Tx>, noneYet: seq<bool>,
                     ghost placed: Slots, ghost base: nat)
      returns (have: seq<bool>, ghost scanned: nat)
      requires MatchOk(ids, placed, slots, sid, base, [], Match(txnAvailable, noneYet, mempoolCount))
      requires Fits(Match(txnAvailable, noneYet, mempoolCount), slots)
      modifies this`txnAvailable, this`mempoolCount
      ensures scanned <= |pool| && (scanned == |pool| || mempoolCount == |slots|)
      ensures MatchOk(ids, placed, slots, sid, base, pool[..scanned], Match(txnAvailable, have, mempoolCount))
      ensures Match(txnAvailable, have, mempoolCount)
              == PoolScan(old(Match(txnAvailable, noneYet, mempoolCount)), slots, sid, pool)
    {
      have := noneYet;
      ghost var start := Match(txnAvailable, noneYet, mempoolCount);
      var i := 0;
      assert pool[..0] == [] && pool[0..] == pool;
      while i < |pool|
        invariant i <= |pool|
        invariant MatchOk(ids, placed, slots, sid, base, pool[..i], Match(txnAvailable, have, mempoolCount))
        invariant Fits(Match(txnAvailable, have, mempoolCount), slots)
        invariant PoolScan(start, slots, sid, pool)
                  == PoolScan(Match(txnAvailable, have, mempoolCount), slots, sid, pool[i..])
      {
        assert pool[..i + 1] == pool[..i] + [pool[i]] && pool[i..][1..] == pool[i + 1..];
        have := PoolCandidate(ids, slots, sid, pool[i], have, placed, base, pool[..i]);
        i := i + 1;
        if mempoolCount == |slots| {
          break;
        }
      }
      scanned := i;
    }

    method ExtraCandidate(ids: seq<nat>, slots: map<nat, nat>, sid: nat -> nat, tx: Tx, soFar: seq<bool>,
                          ghost placed: Slots, ghost base: nat, ghost seen: seq<Tx>)
      returns (have: seq<bool>)
      requires MatchOk(ids, placed, slots, sid, base, seen, Match(txnAvailable, soFar, mempoolCount))
      requires Fits(Match(txnAvailable, soFar, mempoolCount), slots)
      modifies this`txnAvailable, this`mempoolCount, this`extraCount
      ensures MatchOk(ids, placed, slots, sid, base, seen + [tx], Match(txnAvailable, have, mempoolCount))
      ensures Match(txnAvailable, have, mempoolCount)
              == ExtraTake(old(Match(txnAvailable, soFar, mempoolCount)), slots, sid, tx)
      ensures extraCount == Moved(old(extraCount), old(mempoolCount), mempoolCount)
    {
      have := soFar;
      ghost var m := Match(txnAvailable, have, mempoolCount);
      TakeIsOk(ids, placed, slots, sid, base, seen, m, tx);
      var id := sid(tx.witnessHash);
      if id in slots {
        LookupIsSafe(ids, placed, slots, sid, base, seen, m, id);
        have := ExtraLookup(slots[id], tx, have);
      }
    }

    method MatchExtra(ids: seq<nat>, slots: map<nat, nat>, sid: nat -> nat, extra: seq<Option<Tx>>, soFar: seq<bool>,
                      ghost placed: Slots, ghost base: nat, ghost log: seq<Tx>)
      returns (have: seq<bool>, ghost scanned: nat)
      requires MatchOk(ids, placed, slots, sid, base, log, Match(txnAvailable, soFar, mempoolCount))
      requires Fits(Match(txnAvailable, soFar, mempoolCount), slots)
      modifies this`txnAvailable, this`mempoolCount, this`extraCount
      ensures scanned <= |extra| && (scanned == |extra| || mempoolCount == |slots|)
      ensures MatchOk(ids, placed, slots, sid, base, log + Present(extra[..scanned]),
                      Match(txnAvailable, have, mempoolCount))
      ensures Match(txnAvailable, have, mempoolCount)
              == ExtraScan(old(Match(txnAvailable, soFar, mempoolCount)), slots, sid, extra)
      ensures extraCount == Moved(old(extraCount), old(mempoolCount), mempoolCount)
    {
      have := soFar;
      ghost var start := Match(txnAvailable, soFar, mempoolCount);
      var i := 0;
      assert log + Present(extra[..0]) == log && extra[0..] == extra;
      while i < |extra|
        invariant i <= |extra|
        invariant MatchOk(ids, placed, slots, sid, base, log + Present(extra[..i]),
                          Match(txnAvailable, have, mempoolCount))
        invariant Fits(Match(txnAvailable, have, mempoolCount), slots)
        invariant ExtraScan(start, slots, sid, extra)
                  == ExtraScan(Match(txnAvailable, have, mempoolCount), slots, sid, extra[i..])
        invariant extraCount == Moved(old(extraCount), start.count, mempoolCount)
      {
        PresentStep(log, extra, i);
        assert extra[i..][1..] == extra[i + 1..];
        if extra[i] == None {
          i := i + 1;
          continue;
        }
        ghost var before := mempoolCount;
        have := ExtraCandidate(ids, slots, sid, extra[i].value, have, placed, base, log + Present(extra[..i]));
        MovedOn(old(extraCount), start.count, before, mempoolCount);
        i := i + 1;
        if mempoolCount == |slots| {
          break;
        }
      }
      scanned := i;
    }

    /** Match the pool and then the extra pool against the mapped short ids. */
    method MatchAll(ids: seq<nat>, slots: map<nat, nat>, sid: nat -> nat, pool: seq<Tx>, extra: seq<Option<Tx>>)
      requires SlotMap(ids, txnAvailable, slots) && CountNone(txnAvailable) == |ids| && |slots| == |ids|
      modifies this`txnAvailable, this`mempoolCount, this`extraCount
      ensures Matched(ids, old(txnAvailable), sid, pool, extra, old(mempoolCount), txnAvailable, mempoolCount)
      ensures Scanned(ids, old(txnAvailable), sid, pool, extra, old(Counted()), txnAvailable, Counted())
    {
      ghost var placed, base, counts := txnAvailable, mempoolCount, Counted();
      var noneYet := seq(|txnAvailable|, _ => false);
      SlotsFit(ids, placed, slots, noneYet, base);
      MatchStarts(ids, placed, slots, sid, base, noneYet);
      var have, a := MatchPool(ids, slots, sid, pool, noneYet, placed, base);
      ghost var m := Match(txnAvailable, have, mempoolCount);
      var haveAll, b := MatchExtra(ids, slots, sid, extra, have, placed, base, pool[..a]);
      MatchEnds(ids, placed, slots, sid, base, pool, extra, a, b, m, Match(txnAvailable, haveAll, mempoolCount));
      assert ScannedBy(placed, slots, sid, pool, extra, counts, txnAvailable, Counted());
    }

    /** Map the short ids of a well-formed message to the empty slots and match the pools. */
    method FillFromPools(cmpct: CompactBlock, sid: nat -> nat, pool: seq<Tx>, extra: seq<Option<Tx>>,
                        crowded: set<nat>)
      returns (status: ReadStatus)
      requires WellFormed(cmpct) && txnAvailable == AllPlaced(cmpct)
      modifies this`txnAvailable, this`mempoolCount, this`extraCount
      ensures status == if NoneCrowded(crowded, |cmpct.shortTxIds|) && Distinct(cmpct.shortTxIds) then OK else FAILED
      ensures status == OK ==>
        && Matched(cmpct.shortTxIds, AllPlaced(cmpct), sid, pool, extra, old(mempoolCount), txnAvailable, mempoolCount)
        && Scanned(cmpct.shortTxIds, AllPlaced(cmpct), sid, pool, extra, old(Counted()), txnAvailable, Counted())
      ensures status == FAILED ==> txnAvailable == old(txnAvailable) && Counted() == old(Counted())
    {
      PlacedLeaves(cmpct.prefilled, |cmpct.shortTxIds|, |cmpct.prefilled|);
      var slots := MapShortIds(cmpct.shortTxIds, txnAvailable, crowded);
      if slots == None {
        return FAILED;
      }
      WholeMap(cmpct.shortTxIds, txnAvailable, slots.value);
      if |slots.value| != |cmpct.shortTxIds| {
        return FAILED;
      }
      MatchAll(cmpct.shortTxIds, slots.value, sid, pool, extra);
      status := OK;
    }

    /**
     Prepare for a compact block.  `crowded` lists the insertions after which a bucket of the hash
     map is too full; it is arbitrary.
     */
    method InitData(cmpct: CompactBlock, sid: nat -> nat, pool: seq<Tx>, extra: seq<Option<Tx>>, crowded: set<nat>)
      returns (status: ReadStatus)
      modifies this
      ensures status == InitStatus(old(header), old(txnAvailable), cmpct, crowded)
      ensures status == OK ==>
        && header == cmpct.header && prefilledCount == |cmpct.prefilled|
        && Matched(cmpct.shortTxIds, AllPlaced(cmpct), sid, pool, extra, old(mempoolCount), txnAvailable, mempoolCount)
        && Scanned(cmpct.shortTxIds, AllPlaced(cmpct), sid, pool, extra, old(Counted()), txnAvailable, Counted())
      ensures status != OK ==> Counted() == old(Counted())
      ensures status == FAILED ==> header == cmpct.header && txnAvailable == AllPlaced(cmpct)
      ensures !Sized(old(header), old(txnAvailable), cmpct) ==>
        header == old(header) && txnAvailable == old(txnAvailable)
    {
      if cmpct.header.bits == 0 || (cmpct.shortTxIds == [] && cmpct.prefilled == []) {
        return INVALID;
      }
      if |cmpct.shortTxIds| + |cmpct.prefilled| > MAX_TRANSACTIONS {
        return INVALID;
      }
      if header.bits != 0 || txnAvailable != [] {
        return INVALID;
      }
      header := cmpct.header;
      txnAvailable := seq(|cmpct.shortTxIds| + |cmpct.prefilled|, _ => None);
      var ok := PlacePrefilled(cmpct.prefilled, |cmpct.shortTxIds|);
      if !ok {
        return INVALID;
      }
      prefilledCount := |cmpct.prefilled|;
      status := FillFromPools(cmpct, sid, pool, extra, crowded);
    }

    /** Move the available transactions into the block and the missing ones between them. */
    method TakeTransactions(missing: seq<Tx>) returns (ok: bool, vtx: seq<Tx>, used: nat)
      modifies this`txnAvailable
      ensures ok == (CountNone(old(txnAvailable)) <= |missing|)
      ensures ok ==> vtx == Completed(old(txnAvailable), missing) && used == CountNone(old(txnAvailable))
      ensures !ok ==> exists n :: StoppedAt(old(txnAvailable), |missing|, n, txnAvailable)
    {
      ghost var was := txnAvailable;
      vtx, used := [], 0;
      assert txnAvailable == Emptied(was, 0);
      for i := 0 to |txnAvailable|
        invariant |txnAvailable| == |was| && Taking(was, missing, i, txnAvailable, vtx, used)
      {
        TakeStep(was, missing, i, txnAvailable, vtx, used);
        if txnAvailable[i].None? {
          if |missing| <= used { return false, vtx, used; }
          vtx := vtx + [missing[used]];
          used := used + 1;
        } else {
          vtx := vtx + [txnAvailable[i].value];
          txnAvailable := txnAvailable[i := None];
        }
      }
      assert was[..|was|] == was;
      ok := true;
    }

    /** Complete the block; `check` is what the block check reports. */
    method FillBlock(missing: seq<Tx>, check: CheckResult) returns (status: ReadStatus, block: Block)
      modifies this`header, this`txnAvailable
      ensures old(header).bits == 0 ==> status == INVALID && header == old(header) && txnAvailable == old(txnAvailable)
      ensures old(header).bits != 0 ==>
        && status == FillStatus(CountNone(old(txnAvailable)), |missing|, check)
        && (CountNone(old(txnAvailable)) <= |missing| ==>
              header.bits == 0 && txnAvailable == []
              && block == Block(old(header), Completed(old(txnAvailable), missing)))
        && (|missing| < CountNone(old(txnAvailable)) ==>
              header == old(header) && exists n :: StoppedAt(old(txnAvailable), |missing|, n, txnAvailable))
    {
      block := Block(header, []);
      if header.bits == 0 {
        return INVALID, block;
      }
      var ok, vtx, used := TakeTransactions(missing);
      block := Block(header, vtx);
      if !ok {
        return INVALID, block;
      }
      header := Header(0, 0);
      txnAvailable := [];
      if |missing| != used {
        return INVALID, block;
      }
      match check {
        case Passed => status := OK;
        case Mutated => status := FAILED;
        case Refused => status := CHECKBLOCK_FAILED;
      }
    }
  }

  datatype CheckResult = Passed | Mutated | Refused

  function FillStatus(empty: nat, missing: nat, check: CheckResult): ReadStatus {
    if missing != empty then INVALID else
    match check
    case Passed => OK
    case Mutated => FAILED
    case Refused => CHECKBLOCK_FAILED
  }

  /** The first `n` transactions of the completed block. */
  function Filled(avail: Slots, missing: seq<Tx>, n: nat): (r: seq<Tx>)
    requires n <= |avail| && CountNone(avail[..n]) <= |missing|
    ensures |r| == n
  {
    if n == 0 then [] else
      assert avail[..n][..n - 1] == avail[..n - 1];
      Filled(avail, missing, n - 1)
        + [if avail[n - 1].Some? then avail[n - 1].value else missing[CountNone(avail[..n - 1])]]
  }

  function Completed(avail: Slots, missing: seq<Tx>): (r: seq<Tx>)
    requires CountNone(avail) <= |missing|
    ensures |r| == |avail|
  {
    assert avail[..|avail|] == avail;
    Filled(avail, missing, |avail|)
  }

  /** The slots after running out of missing transactions at slot `n`: what came before is gone. */
  ghost predicate StoppedAt(was: Slots, missing: nat, n: nat, now: Slots) {
    NthEmpty(was, missing, n) && now == Emptied(was, n)
  }

  /** After `i` slots: what was moved out, the block so far and the missing transactions used up. */
  ghost predicate Taking(was: Slots, missing: seq<Tx>, i: nat, now: Slots, vtx: seq<Tx>, used: nat) {
    && i <= |was| && now == Emptied(was, i)
    && used == CountNone(was[..i]) <= |missing|
    && vtx == Filled(was, missing, i)
  }

  lemma TakeStep(was: Slots, missing: seq<Tx>, i: nat, now: Slots, vtx: seq<Tx>, used: nat)
    requires i < |was| && Taking(was, missing, i, now, vtx, used)
    ensures |now| == |was| && now[i] == was[i]
    ensures was[i].None? && used == |missing| ==>
      StoppedAt(was, |missing|, i, now) && |missing| < CountNone(was)
    ensures was[i].None? && used < |missing| ==>
      Taking(was, missing, i + 1, now, vtx + [missing[used]], used + 1)
    ensures was[i].Some? ==> Taking(was, missing, i + 1, now[i := None], vtx + [was[i].value], used)
  {
    assert was[..i + 1][..i] == was[..i];
    CountPrefix(was, i + 1);
    assert Emptied(was, i + 1) == now[i := None];
    if was[i].None? { assert now[i := None] == now; }
  }

  /** The slots after the first `n` were moved out. */
  function Emptied(avail: Slots, n: nat): (r: Slots)
    requires n <= |avail|
  {
    seq(|avail|, i requires 0 <= i < |avail| => if i < n then None else avail[i])
  }

  /** The size and state checks, before any slot is touched. */
  predicate Sized(header: Header, avail: Slots, cmpct: CompactBlock) {
    && cmpct.header.bits != 0
    && (cmpct.shortTxIds != [] || cmpct.prefilled != [])
    && |cmpct.shortTxIds| + |cmpct.prefilled| <= MAX_TRANSACTIONS
    && header.bits == 0 && avail == []
  }

  ghost predicate WellFormed(cmpct: CompactBlock) {
    PrefilledOk(cmpct.prefilled, |cmpct.shortTxIds|, |cmpct.prefilled|)
  }

  ghost function AllPlaced(cmpct: CompactBlock): Slots
  {
    if WellFormed(cmpct) then Placed(cmpct.prefilled, |cmpct.shortTxIds|, |cmpct.prefilled|) else []
  }

  /** Which of the three outcomes a message has. */
  ghost function InitStatus(header: Header, avail: Slots, cmpct: CompactBlock, crowded: set<nat>): ReadStatus {
    if !Sized(header, avail, cmpct) || !WellFormed(cmpct) then INVALID
    else if !NoneCrowded(crowded, |cmpct.shortTxIds|) || !Distinct(cmpct.shortTxIds) then FAILED
    else OK
  }

  lemma WholeMap(ids: seq<nat>, a: Slots, m: map<nat, nat>)
    requires MapsFirst(ids, |ids|, a, m)
    ensures |m| == |ids| <==> Distinct(ids)
    ensures |m| == |ids| ==> SlotMap(ids, a, m)
  {
    assert ids[..|ids|] == ids;
    if |m| == |ids| {
      FullMap(ids, a, m);
    }
  }

  // ---------- what matching achieves ----------

  /**
   Every slot is its prefilled transaction, or a pool transaction with its short id, or empty; the
   count is the number of pool transactions placed.  For a new object, an empty slot has no
   candidate or at least two.
   */
  ghost predicate Matched(ids: seq<nat>, placed: Slots, sid: nat -> nat, pool: seq<Tx>,
                        extra: seq<Option<Tx>>, base: nat,
                          avail: Slots, count: nat)
  {
    && |avail| == |placed|
    && (forall p :: 0 <= p < |placed| && placed[p].Some? ==> avail[p] == placed[p])
    && (forall i: nat, p: nat :: i < |ids| && NthEmpty(placed, i, p) ==>
        SlotMatched(ids[i], sid, pool + Present(extra), base, avail[p]))
    && count == base + CountNone(placed) - CountNone(avail)
  }

  ghost predicate SlotMatched(id: nat, sid: nat -> nat, candidates: seq<Tx>, base: nat, slot: Option<Tx>) {
    && (slot.Some? ==> sid(slot.value.witnessHash) == id && slot.value in candidates)
    && (slot.None? && base == 0 ==> Matches(sid, id, candidates) != 1)
  }

  lemma SlotsFit(ids: seq<nat>, placed: Slots, slots: map<nat, nat>, noneYet: seq<bool>, base: nat)
    requires SlotMap(ids, placed, slots) && noneYet == seq(|placed|, _ => false)
    ensures Fits(Match(placed, noneYet, base), slots) && Match(placed, noneYet, base) == Untouched(placed, base)
  {
    forall id | id in slots ensures slots[id] < |placed| {
      SlotIsOfId(ids, placed, slots, id);
    }
  }

  lemma MatchStarts(ids: seq<nat>, placed: Slots, slots: map<nat, nat>, sid: nat -> nat, base: nat,
                    noneYet: seq<bool>)
    requires SlotMap(ids, placed, slots) && |noneYet| == |placed|
    requires forall p :: 0 <= p < |noneYet| ==> !noneYet[p]
    ensures MatchOk(ids, placed, slots, sid, base, [], Match(placed, noneYet, base))
  {
    forall id | id in slots
      ensures slots[id] < |placed| && SlotOk(sid, [], Match(placed, noneYet, base), id, slots[id]) {
      SlotIsOfId(ids, placed, slots, id);
    }
  }

  lemma {:induction false} MatchesAppend(sid: nat -> nat, id: nat, x: seq<Tx>, y: seq<Tx>)
    ensures Matches(sid, id, x + y) == Matches(sid, id, x) + Matches(sid, id, y)
    decreases |y|
  {
    if y == [] {
      assert x + y == x;
    } else {
      var n := |y| - 1;
      assert (x + y)[..|x + y| - 1] == x + y[..n];
      MatchesAppend(sid, id, x, y[..n]);
    }
  }

  lemma {:induction false} PresentPrefix(extra: seq<Option<Tx>>, b: nat)
    requires b <= |extra|
    ensures exists more :: Present(extra) == Present(extra[..b]) + more
    decreases |extra|
  {
    if b == |extra| {
      assert extra[..b] == extra;
      assert Present(extra) == Present(extra[..b]) + [];
    } else {
      var e := extra[..|extra| - 1];
      assert e[..b] == extra[..b];
      PresentPrefix(e, b);
      var more :| Present(e) == Present(e[..b]) + more;
      var last := if extra[|extra| - 1].Some? then [extra[|extra| - 1].value] else [];
      assert Present(extra) == Present(extra[..b]) + (more + last);
    }
  }

  lemma MatchesFewer(sid: nat -> nat, id: nat, x: seq<Tx>, y: seq<Tx>, z: seq<Tx>, more: seq<Tx>)
    ensures Matches(sid, id, x + z) <= Matches(sid, id, (x + y) + (z + more))
    ensures Matches(sid, id, x) <= Matches(sid, id, x + z)
  {
    MatchesAppend(sid, id, x, z);
    MatchesAppend(sid, id, x, y);
    MatchesAppend(sid, id, z, more);
    MatchesAppend(sid, id, x + y, z + more);
  }

  /** The candidates looked at are among all of them, with at most as many matches. */
  lemma ScannedIsPart(sid: nat -> nat, id: nat, pool: seq<Tx>, extra: seq<Option<Tx>>, a: nat, b: nat)
    requires a <= |pool| && b <= |extra|
    ensures Matches(sid, id, pool[..a] + Present(extra[..b])) <= Matches(sid, id, pool + Present(extra))
    ensures Matches(sid, id, pool[..a]) <= Matches(sid, id, pool[..a] + Present(extra[..b]))
  {
    PresentPrefix(extra, b);
    var more :| Present(extra) == Present(extra[..b]) + more;
    assert pool == pool[..a] + pool[a..];
    MatchesFewer(sid, id, pool[..a], pool[a..], Present(extra[..b]), more);
  }

  lemma ScannedMembers(pool: seq<Tx>, extra: seq<Option<Tx>>, a: nat, b: nat, tx: Tx)
    requires a <= |pool| && b <= |extra| && tx in pool[..a] + Present(extra[..b])
    ensures tx in pool + Present(extra)
  {
    if tx !in pool[..a] {
      PresentPrefix(extra, b);
      var more :| Present(extra) == Present(extra[..b]) + more;
      assert tx in Present(extra);
    }
  }

  lemma {:induction false} NoneLeft(a: Slots, p: nat)
    requires CountNone(a) == 0 && p < |a|
    ensures a[p].Some?
  {
    if p < |a| - 1 {
      NoneLeft(a[..|a| - 1], p);
    }
  }

  lemma {:induction false} NotOkLater(pf: seq<Prefilled>, shorts: nat, n: nat)
    requires n <= |pf| && !PrefilledOk(pf, shorts, n)
    ensures !PrefilledOk(pf, shorts, |pf|)
  {
    if PrefilledOk(pf, shorts, |pf|) {
      PrefilledOkPrefix(pf, shorts, n, |pf|);
    }
  }

  lemma PresentStep(log: seq<Tx>, extra: seq<Option<Tx>>, i: nat)
    requires i < |extra|
    ensures extra[i].None? ==> log + Present(extra[..i + 1]) == log + Present(extra[..i])
    ensures extra[i].Some? ==> log + Present(extra[..i + 1]) == log + Present(extra[..i]) + [extra[i].value]
  {
    assert extra[..i + 1][..i] == extra[..i];
  }

  lemma LookupIsSafe(ids: seq<nat>, placed: Slots, slots: map<nat, nat>, sid: nat -> nat, base: nat,
                     log: seq<Tx>, m: Match, id: nat)
    requires MatchOk(ids, placed, slots, sid, base, log, m) && id in slots
    ensures slots[id] < |m.avail| == |m.have|
    ensures m.avail[slots[id]].Some? ==> m.count > 0
  {
    SlotIsOfId(ids, placed, slots, id);
    if m.avail[slots[id]].Some? {
      CountCovers(ids, placed, slots, sid, base, log, m, id);
    }
  }

  /** The next empty slot from `n` on. */
  method NextEmpty(a: Slots, n: nat) returns (p: nat)
    requires n <= |a| && CountNone(a[..n]) < CountNone(a)
    ensures n <= p && NthEmpty(a, CountNone(a[..n]), p)
    ensures CountNone(a[..p + 1]) == CountNone(a[..n]) + 1
  {
    p := n;
    NotAtEnd(a, p);
    while a[p].Some?
      invariant n <= p < |a| && CountNone(a[..p]) == CountNone(a[..n])
      decreases |a| - p
    {
      assert a[..p + 1][..p] == a[..p];
      p := p + 1;
      NotAtEnd(a, p);
    }
    assert a[..p + 1][..p] == a[..p];
  }

  /** Map one short id to the next empty slot, and step past it. */
  method MapShortId(ids: seq<nat>, i: nat, a: Slots, m: map<nat, nat>, next: nat)
    returns (newMap: map<nat, nat>, newNext: nat)
    requires CountNone(a) == |ids| && i < |ids| && Mapping(ids, i, a, m, next)
    ensures Mapping(ids, i + 1, a, newMap, newNext)
  {
    var p := NextEmpty(a, next);
    MapsFirstStep(ids, i, a, m, p);
    newMap, newNext := m[ids[i] := p], p + 1;
  }

  /**
   Map each short id to the next empty slot; the slots never run out.  `next` is the position the
   scan has reached: the number of ids before it plus the offset skipped over filled slots.
   */
  method MapShortIds(ids: seq<nat>, a: Slots, crowded: set<nat>) returns (slots: Option<map<nat, nat>>)
    requires CountNone(a) == |ids|
    ensures slots.Some? <==> NoneCrowded(crowded, |ids|)
    ensures slots.Some? ==> MapsFirst(ids, |ids|, a, slots.value)
  {
    var m: map<nat, nat> := map[];
    var next: nat := 0;
    for i := 0 to |ids|
      invariant Mapping(ids, i, a, m, next)
      invariant NoneCrowded(crowded, i)
    {
      m, next := MapShortId(ids, i, a, m, next);
      if i in crowded {
        return None;
      }
    }
    slots := Some(m);
  }

  ghost predicate Mapping(ids: seq<nat>, i: nat, a: Slots, m: map<nat, nat>, next: nat) {
    MapsFirst(ids, i, a, m) && next <= |a| && CountNone(a[..next]) == i
  }

  /** `crowded` lists the insertions that leave an overfull bucket; none is among the first `n`. */
  ghost predicate NoneCrowded(crowded: set<nat>, n: nat) {
    forall i :: i in crowded ==> n <= i
  }

  ghost predicate MapsFirst(ids: seq<nat>, n: nat, a: Slots, m: map<nat, nat>) {
    n <= |ids| && KeyedBy(ids[..n], m) && Ranked(ids[..n], a, m)
  }

  lemma MapsFirstStep(ids: seq<nat>, n: nat, a: Slots, m: map<nat, nat>, p: nat)
    requires n < |ids| && MapsFirst(ids, n, a, m) && NthEmpty(a, n, p)
    ensures MapsFirst(ids, n + 1, a, m[ids[n] := p])
  {
    assert ids[..n + 1] == ids[..n] + [ids[n]];
    KeyedByStep(ids[..n], m, ids[n], p);
    RankedStep(ids[..n], a, m, ids[n], p);
  }

  lemma NotAtEnd(a: Slots, n: nat)
    requires n <= |a| && CountNone(a[..n]) < CountNone(a)
    ensures n < |a|
  {
    assert a[..|a|] == a;
  }

  /** When the count says that every announced slot is filled, they all are. */
  lemma AllFilled(ids: seq<nat>, placed: Slots, slots: map<nat, nat>, sid: nat -> nat, log: seq<Tx>,
                  m: Match, id: nat)
    requires MatchOk(ids, placed, slots, sid, 0, log, m) && id in slots
    requires m.count == CountNone(placed)
    ensures m.avail[slots[id]].Some? && Matches(sid, id, log) > 0
  {
    NoneLeft(m.avail, slots[id]);
    assert SlotOk(sid, log, m, id, slots[id]);
  }

  /** An empty slot is explained by the candidates, looked at or skipped. */
  lemma EmptyIsExplained(ids: seq<nat>, placed: Slots, slots: map<nat, nat>, sid: nat -> nat,
                         pool: seq<Tx>, extra: seq<Option<Tx>>, a: nat, b: nat, m: Match, r: Match, id: nat)
    requires a <= |pool| && b <= |extra| && id in slots
    requires MatchOk(ids, placed, slots, sid, 0, pool[..a], m) && (a == |pool| || m.count == CountNone(placed))
    requires MatchOk(ids, placed, slots, sid, 0, pool[..a] + Present(extra[..b]), r)
    requires b == |extra| || r.count == CountNone(placed)
    requires r.avail[slots[id]].None?
    ensures Matches(sid, id, pool + Present(extra)) != 1
  {
    var log := pool[..a] + Present(extra[..b]);
    ScannedIsPart(sid, id, pool, extra, a, b);
    assert SlotOk(sid, log, r, id, slots[id]);
    if b < |extra| {
      AllFilled(ids, placed, slots, sid, log, r, id);
    } else if a < |pool| {
      AllFilled(ids, placed, slots, sid, pool[..a], m, id);
    } else {
      assert pool[..a] == pool && extra[..b] == extra;
    }
  }

  lemma SlotEnds(ids: seq<nat>, placed: Slots, slots: map<nat, nat>, sid: nat -> nat, base: nat,
                 pool: seq<Tx>, extra: seq<Option<Tx>>, a: nat, b: nat, m: Match, r: Match, id: nat)
    requires a <= |pool| && b <= |extra| && id in slots
    requires MatchOk(ids, placed, slots, sid, base, pool[..a], m) && (a == |pool| || m.count == CountNone(placed))
    requires MatchOk(ids, placed, slots, sid, base, pool[..a] + Present(extra[..b]), r)
    requires b == |extra| || r.count == CountNone(placed)
    ensures SlotMatched(id, sid, pool + Present(extra), base, r.avail[slots[id]])
  {
    var slot := r.avail[slots[id]];
    if slot.Some? {
      assert SlotOk(sid, pool[..a] + Present(extra[..b]), r, id, slots[id]);
      ScannedMembers(pool, extra, a, b, slot.value);
    } else if base == 0 {
      EmptyIsExplained(ids, placed, slots, sid, pool, extra, a, b, m, r, id);
    }
  }

  lemma SlotOfRank(ids: seq<nat>, placed: Slots, slots: map<nat, nat>, i: nat, p: nat)
    requires SlotMap(ids, placed, slots) && i < |ids| && NthEmpty(placed, i, p)
    ensures ids[i] in slots && slots[ids[i]] == p
  {
    NthEmptyUnique(placed, i, p, i, slots[ids[i]]);
    NthEmptyUnique(placed, i, slots[ids[i]], i, p);
  }

  lemma MatchEnds(ids: seq<nat>, placed: Slots, slots: map<nat, nat>, sid: nat -> nat, base: nat,
                  pool: seq<Tx>, extra: seq<Option<Tx>>, a: nat, b: nat, m: Match, r: Match)
    requires a <= |pool| && b <= |extra| && |slots| == |ids| == CountNone(placed)
    requires MatchOk(ids, placed, slots, sid, base, pool[..a], m) && (a == |pool| || m.count == |slots|)
    requires MatchOk(ids, placed, slots, sid, base, pool[..a] + Present(extra[..b]), r)
    requires b == |extra| || r.count == |slots|
    ensures Matched(ids, placed, sid, pool, extra, base, r.avail, r.count)
  {
    forall i: nat, p: nat | i < |ids| && NthEmpty(placed, i, p)
      ensures SlotMatched(ids[i], sid, pool + Present(extra), base, r.avail[p])
    {
      SlotOfRank(ids, placed, slots, i, p);
      SlotEnds(ids, placed, slots, sid, base, pool, extra, a, b, m, r, ids[i]);
    }
  }
}
