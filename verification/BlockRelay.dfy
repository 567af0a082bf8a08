/** Sending a block in compact form and rebuilding it (src/blockencodings.cpp; BIP 152). */
module BlockRelay {
  import opened Basics
  import opened BlockEncodings
  import opened Holding

  function ShortIdOf(sid: nat -> nat, tx: Tx): nat { sid(tx.witnessHash) }

  function ShortIds(sid: nat -> nat, vtx: seq<Tx>): (r: seq<nat>)
    ensures |r| == |vtx|
  {
    seq(|vtx|, i requires 0 <= i < |vtx| => ShortIdOf(sid, vtx[i]))
  }

  /** The compact form of a block: the coinbase in full, the rest as short ids. */
  method Compact(block: Block, sid: nat -> nat) returns (c: CompactBlock)
    requires block.vtx != []
    ensures c == CompactOf(block, sid)
  {
    var ids := [];
    for i := 1 to |block.vtx|
      invariant ids == ShortIds(sid, block.vtx[1..i])
    {
      assert block.vtx[1..i + 1] == block.vtx[1..i] + [block.vtx[i]];
      ids := ids + [sid(block.vtx[i].witnessHash)];
    }
    assert block.vtx[1..|block.vtx|] == block.vtx[1..];
    c := CompactBlock(block.header, ids, [Prefilled(0, block.vtx[0])]);
  }

  function CompactOf(block: Block, sid: nat -> nat): CompactBlock
    requires block.vtx != []
  {
    CompactBlock(block.header, ShortIds(sid, block.vtx[1..]), [Prefilled(0, block.vtx[0])])
  }

  /** The block's transactions that are not available, in order: what is requested and sent. */
  function MissingOf(vtx: seq<Tx>, avail: Slots, n: nat): (r: seq<Tx>)
    requires n <= |avail| == |vtx|
    ensures |r| == CountNone(avail[..n])
  {
    if n == 0 then [] else
      assert avail[..n][..n - 1] == avail[..n - 1];
      MissingOf(vtx, avail, n - 1) + (if avail[n - 1].None? then [vtx[n - 1]] else [])
  }

  /** Slots that are empty or hold the block's own transaction are completed to the block. */
  lemma {:induction false} FilledIsBlock(vtx: seq<Tx>, avail: Slots, missing: seq<Tx>, n: nat)
    requires n <= |avail| == |vtx| && (forall p :: 0 <= p < |vtx| && avail[p].Some? ==> avail[p].value == vtx[p])
    requires MissingOf(vtx, avail, n) <= missing
    ensures CountNone(avail[..n]) <= |missing| && Filled(avail, missing, n) == vtx[..n]
  {
    if n > 0 {
      assert avail[..n][..n - 1] == avail[..n - 1];
      FilledIsBlock(vtx, avail, missing, n - 1);
      assert vtx[..n] == vtx[..n - 1] + [vtx[n - 1]];
      if avail[n - 1].None? {
        assert missing[CountNone(avail[..n - 1])] == MissingOf(vtx, avail, n)[CountNone(avail[..n - 1])];
      }
    }
  }

  /** The compact form has its coinbase in slot 0 and an empty slot for each short id. */
  lemma CompactIsPlaced(block: Block, sid: nat -> nat)
    requires block.vtx != [] && !block.vtx[0].isNull
    ensures var c := CompactOf(block, sid);
      && WellFormed(c) && |AllPlaced(c)| == |block.vtx| && AllPlaced(c)[0] == Some(block.vtx[0])
      && forall p :: 1 <= p < |block.vtx| ==> AllPlaced(c)[p].None?
  {
    var c := CompactOf(block, sid);
    var pf := c.prefilled;
    assert LastIndex(pf, 0) == -1 && LastIndex(pf, 1) == 0;
    assert PrefilledOk(pf, |c.shortTxIds|, 0) && PrefilledOk(pf, |c.shortTxIds|, 1);
    var a := AllPlaced(c);
    assert a == Placed(pf, |c.shortTxIds|, 0)[0 := Some(block.vtx[0])];
  }

  lemma {:induction false} OneFilled(a: Slots)
    requires a != [] && a[0].Some? && forall i :: 1 <= i < |a| ==> a[i].None?
    ensures CountNone(a) == |a| - 1
  {
    if |a| > 1 {
      OneFilled(a[..|a| - 1]);
    }
  }

  lemma {:induction false} FilledAt(avail: Slots, missing: seq<Tx>, n: nat, p: nat)
    requires p < n <= |avail| && CountNone(avail[..n]) <= |missing| && avail[p].Some?
    ensures Filled(avail, missing, n)[p] == avail[p].value
  {
    assert avail[..n][..n - 1] == avail[..n - 1];
    if p < n - 1 { FilledAt(avail, missing, n - 1, p); }
  }

  /** Every filled slot holds the block's own transaction. */
  ghost predicate AllOwn(vtx: seq<Tx>, avail: Slots)
    requires |avail| == |vtx|
  {
    forall p :: 0 <= p < |vtx| && avail[p].Some? ==> avail[p].value == vtx[p]
  }

  /** Sent what is missing, the receiver completes the block exactly when every filled slot holds its own. */
  lemma CompletedIffOwn(vtx: seq<Tx>, avail: Slots)
    requires |avail| == |vtx|
    ensures |MissingOf(vtx, avail, |avail|)| == CountNone(avail)
    ensures Completed(avail, MissingOf(vtx, avail, |avail|)) == vtx <==> AllOwn(vtx, avail)
  {
    var missing := MissingOf(vtx, avail, |avail|);
    assert avail[..|avail|] == avail && vtx[..|avail|] == vtx;
    if AllOwn(vtx, avail) { FilledIsBlock(vtx, avail, missing, |avail|); }
    forall p | 0 <= p < |vtx| && avail[p].Some? ensures Completed(avail, missing)[p] == avail[p].value {
      FilledAt(avail, missing, |avail|, p);
    }
  }

  /**
   For every transaction after the coinbase whose short id is held by the candidates, the first
   candidate is that transaction.  A foreign transaction next to the own one does no harm: the id is
   then not held, and the transaction is requested.
   */
  ghost predicate OwnAreFirst(vtx: seq<Tx>, sid: nat -> nat, pool: seq<Tx>, all: seq<Tx>) {
    forall p :: 1 <= p < |vtx| && Held(sid, ShortIdOf(sid, vtx[p]), pool, all) ==>
      First(sid, ShortIdOf(sid, vtx[p]), all) == Some(vtx[p])
  }

  lemma SlotOfTransaction(block: Block, sid: nat -> nat, p: nat)
    requires block.vtx != [] && !block.vtx[0].isNull && 1 <= p < |block.vtx|
    ensures NthEmpty(AllPlaced(CompactOf(block, sid)), p - 1, p)
    ensures CompactOf(block, sid).shortTxIds[p - 1] == ShortIdOf(sid, block.vtx[p])
  {
    CompactIsPlaced(block, sid);
    OneFilled(AllPlaced(CompactOf(block, sid))[..p]);
  }

  /** What the scans make of the slots of a block's compact form. */
  lemma SlotsOfBlock(block: Block, sid: nat -> nat, pool: seq<Tx>, extra: seq<Option<Tx>>, base: Counts,
                     avail: Slots, count: Counts)
    requires block.vtx != [] && !block.vtx[0].isNull
    requires var c := CompactOf(block, sid); Scanned(c.shortTxIds, AllPlaced(c), sid, pool, extra, base, avail, count)
    ensures |avail| == |block.vtx| && avail[0] == Some(block.vtx[0])
    ensures var ids := CompactOf(block, sid).shortTxIds;
      var seen, all := FromPool(sid, ids, base.mempool, pool), Candidates(sid, ids, base.mempool, pool, extra);
      forall p :: 1 <= p < |block.vtx| ==>
        avail[p] == if Held(sid, ShortIdOf(sid, block.vtx[p]), seen, all)
                    then First(sid, ShortIdOf(sid, block.vtx[p]), all) else None
  {
    var c := CompactOf(block, sid);
    CompactIsPlaced(block, sid);
    SlotsAreHeld(c.shortTxIds, AllPlaced(c), sid, pool, extra, base, avail, count);
    var ids := c.shortTxIds;
    var seen, all := FromPool(sid, ids, base.mempool, pool), Candidates(sid, ids, base.mempool, pool, extra);
    forall p | 1 <= p < |block.vtx|
      ensures avail[p] == if Held(sid, ShortIdOf(sid, block.vtx[p]), seen, all)
                          then First(sid, ShortIdOf(sid, block.vtx[p]), all) else None
    {
      SlotOfTransaction(block, sid, p);
    }
  }

  /**
   A receiver that accepted the compact form of a block and is sent exactly the transactions it
   lacks, in order, completes the block as it was if and only if no short id of the block is held by
   a foreign transaction.
   */
  lemma BlockIsRebuilt(block: Block, sid: nat -> nat, pool: seq<Tx>, extra: seq<Option<Tx>>, base: Counts,
                       avail: Slots, count: Counts)
    requires block.vtx != [] && !block.vtx[0].isNull
    requires var c := CompactOf(block, sid); Scanned(c.shortTxIds, AllPlaced(c), sid, pool, extra, base, avail, count)
    ensures |avail| == |block.vtx| && |MissingOf(block.vtx, avail, |avail|)| == CountNone(avail)
    ensures var ids := CompactOf(block, sid).shortTxIds;
      Completed(avail, MissingOf(block.vtx, avail, |avail|)) == block.vtx <==>
        OwnAreFirst(block.vtx, sid, FromPool(sid, ids, base.mempool, pool),
                    Candidates(sid, ids, base.mempool, pool, extra))
  {
    SlotsOfBlock(block, sid, pool, extra, base, avail, count);
    CompletedIffOwn(block.vtx, avail);
    var ids := CompactOf(block, sid).shortTxIds;
    OwnOnTheInputs(block.vtx, sid, FromPool(sid, ids, base.mempool, pool),
                   Candidates(sid, ids, base.mempool, pool, extra), avail);
  }

  lemma OwnOnTheInputs(vtx: seq<Tx>, sid: nat -> nat, seen: seq<Tx>, all: seq<Tx>, avail: Slots)
    requires |avail| == |vtx| > 0 && avail[0] == Some(vtx[0])
    requires forall p :: 1 <= p < |vtx| ==>
      avail[p] == if Held(sid, ShortIdOf(sid, vtx[p]), seen, all) then First(sid, ShortIdOf(sid, vtx[p]), all) else None
    ensures AllOwn(vtx, avail) <==> OwnAreFirst(vtx, sid, seen, all)
  {
    if AllOwn(vtx, avail) {
      forall p | 1 <= p < |vtx| && Held(sid, ShortIdOf(sid, vtx[p]), seen, all)
        ensures First(sid, ShortIdOf(sid, vtx[p]), all) == Some(vtx[p])
      {
        assert avail[p] == First(sid, ShortIdOf(sid, vtx[p]), all);
      }
    }
  }

  /** Whoever in the pools shares a short id with a transaction of the block is that transaction. */
  ghost predicate OnlyOwn(vtx: seq<Tx>, sid: nat -> nat, candidates: seq<Tx>) {
    forall p, tx :: 1 <= p < |vtx| && tx in candidates && sid(tx.witnessHash) == sid(vtx[p].witnessHash) ==>
      tx == vtx[p]
  }

  /** In particular without any foreign transaction of the block's short ids. */
  lemma OnlyOwnIsEnough(vtx: seq<Tx>, sid: nat -> nat, ids: seq<nat>, base: nat, pool: seq<Tx>,
                        extra: seq<Option<Tx>>)
    requires OnlyOwn(vtx, sid, pool + Present(extra))
    ensures OwnAreFirst(vtx, sid, FromPool(sid, ids, base, pool), Candidates(sid, ids, base, pool, extra))
  {
    var all := Candidates(sid, ids, base, pool, extra);
    forall p | 1 <= p < |vtx| && First(sid, ShortIdOf(sid, vtx[p]), all).Some?
      ensures First(sid, ShortIdOf(sid, vtx[p]), all) == Some(vtx[p])
    {
      FirstIs(sid, ShortIdOf(sid, vtx[p]), all);
      var a := PoolSeen(sid, ids, base, pool, 0);
      ScannedMembers(pool, extra, a, ExtraSeen(sid, ids, base, pool[..a], extra, 0),
                     First(sid, ShortIdOf(sid, vtx[p]), all).value);
    }
  }

  /** The receiver accepts the compact form exactly under these conditions. */
  lemma CompactIsAccepted(block: Block, sid: nat -> nat, crowded: set<nat>)
    requires block.vtx != []
    ensures InitStatus(Header(0, 0), [], CompactOf(block, sid), crowded)
         == if block.header.bits == 0 || |block.vtx| > MAX_TRANSACTIONS || block.vtx[0].isNull then INVALID
            else if NoneCrowded(crowded, |block.vtx| - 1) && Distinct(ShortIds(sid, block.vtx[1..])) then OK
            else FAILED
  {
    var c := CompactOf(block, sid);
    if block.vtx[0].isNull {
      assert !PrefilledOk(c.prefilled, |c.shortTxIds|, 1);
    } else {
      CompactIsPlaced(block, sid);
    }
  }

  /** Sending, receiving and completing a block; `check` is what the block check reports. */
  method Relay(block: Block, sid: nat -> nat, pool: seq<Tx>, extra: seq<Option<Tx>>, crowded: set<nat>,
               check: CheckResult)
    returns (accepted: ReadStatus, status: ReadStatus, received: Block)
    requires block.vtx != []
    ensures accepted == InitStatus(Header(0, 0), [], CompactOf(block, sid), crowded)
    ensures accepted == OK ==>
      && status == FillStatus(0, 0, check)
      && var ids := CompactOf(block, sid).shortTxIds;
         (received == block <==>
            OwnAreFirst(block.vtx, sid, FromPool(sid, ids, 0, pool), Candidates(sid, ids, 0, pool, extra)))
  {
    var c := Compact(block, sid);
    var partial := new PartiallyDownloadedBlock();
    accepted := partial.InitData(c, sid, pool, extra, crowded);
    status, received := accepted, Block(Header(0, 0), []);
    CompactIsAccepted(block, sid, crowded);
    if accepted == OK {
      BlockIsRebuilt(block, sid, pool, extra, Counts(0, 0), partial.txnAvailable, partial.Counted());
      var missing := MissingOf(block.vtx, partial.txnAvailable, |partial.txnAvailable|);
      status, received := partial.FillBlock(missing, check);
    }
  }
}
