/**
 The block index tree and the active chain (src/chain.h, src/chain.cpp).

 A block's parent and height never change; its skip pointer is set once by BuildSkip.  Every fast
 walk below is proved to end where plain parent steps end.
 */
module Chain {
  import opened Bits

  class BlockIndex {
    const pprev: BlockIndex?
    const nHeight: nat
    const hash: nat
    var pskip: BlockIndex?

    constructor (pprev: BlockIndex?, hash: nat)
      ensures this.pprev == pprev && this.hash == hash && pskip == null
      ensures nHeight == if pprev == null then 0 else pprev.nHeight + 1
    {
      this.pprev, this.hash, this.pskip := pprev, hash, null;
      this.nHeight := if pprev == null then 0 else pprev.nHeight + 1;
    }

    /** The walk mixes skip and parent pointers, but ends where nHeight - height parent steps end. */
    method GetAncestor(height: int, ghost tree: set<BlockIndex>) returns (r: BlockIndex?)
      requires IsTree(tree) && this in tree
      ensures height < 0 || height > nHeight ==> r == null
      ensures 0 <= height <= nHeight ==> r == Path(this)[height] && r in tree
    {
      if height > nHeight || height < 0 { return null; }
      ghost var path := Path(this);
      var pindexWalk, heightWalk := this, nHeight;
      while heightWalk > height
        invariant height <= heightWalk < |path| && pindexWalk == path[heightWalk] && pindexWalk in tree
        decreases heightWalk
      {
        var heightSkip := GetSkipHeight(heightWalk);
        var heightSkipPrev := GetSkipHeight(heightWalk - 1);
        if pindexWalk.pskip != null
           && (heightSkip == height
               || (heightSkip > height && !(heightSkipPrev < heightSkip - 2 && heightSkipPrev >= height))) {
          PathOfAncestor(this, heightWalk);
          PathInTree(tree, pindexWalk);
          pindexWalk := pindexWalk.pskip;
          heightWalk := heightSkip;
        } else {
          ParentOnPath(path, heightWalk);
          pindexWalk := pindexWalk.pprev;
          heightWalk := heightWalk - 1;
        }
      }
      r := pindexWalk;
    }

    /** Called once when a block enters the tree. */
    method BuildSkip(ghost tree: set<BlockIndex>)
      requires IsTree(tree) && this in tree
      modifies this`pskip
      ensures IsTree(tree)
      ensures pskip == if pprev == null then old(pskip) else Path(this)[GetSkipHeight(nHeight)]
    {
      if pprev != null {
        var skip := pprev.GetAncestor(GetSkipHeight(nHeight), tree);
        pskip := skip;
      }
    }
  }

  // ---------- the tree ----------

  ghost predicate WellFormed(b: BlockIndex)
    decreases b.nHeight
  {
    if b.pprev == null then b.nHeight == 0
    else b.nHeight == b.pprev.nHeight + 1 && WellFormed(b.pprev)
  }

  /** The blocks from genesis to `b` along parent links; `Path(b)[h]` is b's ancestor at height h. */
  ghost function Path(b: BlockIndex): (p: seq<BlockIndex>)
    requires WellFormed(b)
    ensures |p| == b.nHeight + 1 && p[b.nHeight] == b && IsPath(p)
    decreases b.nHeight
  {
    if b.pprev == null then [b]
    else
      var p := Path(b.pprev);
      assert forall i | 0 <= i < |p| :: (p + [b])[i] == p[i];
      p + [b]
  }

  ghost predicate IsPath(p: seq<BlockIndex>) {
    && (forall i | 0 <= i < |p| :: p[i].nHeight == i)
    && (p != [] ==> p[0].pprev == null)
    && (forall i, j | 0 <= i < |p| && 0 <= j < |p| && j == i + 1 :: p[j].pprev == p[i])
  }

  lemma ParentOnPath(p: seq<BlockIndex>, h: nat)
    requires IsPath(p) && h < |p|
    ensures p[h].nHeight == h
    ensures h == 0 ==> p[h].pprev == null
    ensures h > 0 ==> p[h].pprev == p[h - 1] && p[h - 1].nHeight == h - 1
  {
  }

  /** Closed under parents, and every skip pointer set so far leads to the ancestor it should. */
  ghost predicate IsTree(tree: set<BlockIndex>)
    reads tree
  {
    forall b | b in tree ::
      && WellFormed(b)
      && (b.pprev != null ==> b.pprev in tree)
      && (b.pskip != null ==> b.nHeight > 0 && b.pskip == Path(b)[GetSkipHeight(b.nHeight)])
  }

  method AddBlock(pprev: BlockIndex?, hash: nat, ghost tree: set<BlockIndex>) returns (b: BlockIndex)
    requires IsTree(tree) && (pprev != null ==> pprev in tree)
    ensures fresh(b) && b.pprev == pprev && b.hash == hash && IsTree(tree + {b})
    ensures pprev != null ==> b.pskip == Path(b)[GetSkipHeight(b.nHeight)]
  {
    b := new BlockIndex(pprev, hash);
    b.BuildSkip(tree + {b});
  }

  lemma {:induction false} PathOfAncestor(b: BlockIndex, h: nat)
    requires WellFormed(b) && h <= b.nHeight
    ensures WellFormed(Path(b)[h]) && Path(Path(b)[h]) == Path(b)[..h + 1]
    decreases b.nHeight
  {
    if h < b.nHeight { PathOfAncestor(b.pprev, h); }
  }

  lemma {:induction false} PathInTree(tree: set<BlockIndex>, b: BlockIndex)
    requires IsTree(tree) && b in tree
    ensures forall i | 0 <= i < |Path(b)| :: Path(b)[i] in tree
    decreases b.nHeight
  {
    if b.pprev != null { PathInTree(tree, b.pprev); }
  }

  // ---------- skip heights ----------

  function InvertLowestOne(n: nat): (r: nat)
    ensures n > 0 ==> r < n
  {
    if n == 0 then 0 else
      AndBound(n, n - 1);
      And(n, n - 1)
  }

  /** It clears the lowest set bit and no other: (2q + 1) * 2^k becomes 2q * 2^k. */
  lemma {:induction false} InvertLowestOneClearsLowestBit(q: nat, k: nat)
    ensures Lsh(2 * q + 1, k) > 0 && InvertLowestOne(Lsh(2 * q + 1, k)) == Lsh(2 * q, k)
  {
    LshNonNegative(2 * q + 1, k);
    if k == 0 {
      AndSelf(q);
      assert And(2 * q + 1, 2 * q) == 2 * And(q, q);
    } else {
      var n, m := Lsh(2 * q + 1, k), Lsh(2 * q + 1, k - 1);
      InvertLowestOneClearsLowestBit(q, k - 1);
      assert n == 2 * m && (n - 1) / 2 == m - 1;
    }
  }

  lemma {:induction false} AndSelf(n: nat)
    ensures And(n, n) == n
  {
    if n > 0 { AndSelf(n / 2); }
  }

  function GetSkipHeight(height: nat): (r: nat)
    ensures height > 0 ==> r < height
  {
    if height < 2 then 0
    else if height % 2 == 1 then InvertLowestOne(InvertLowestOne(height - 1)) + 1
    else InvertLowestOne(height)
  }

  // ---------- locators ----------

  /** How far below the tip the `n`-th entry of a locator is, before stopping at genesis. */
  function LocatorOffset(n: nat): nat {
    if n <= 10 then n else 9 + Pow2(n - 10)
  }

  /** The height of that entry. */
  function LocatorHeight(height: nat, n: nat): nat {
    if LocatorOffset(n) <= height then height - LocatorOffset(n) else 0
  }

  function LocatorStep(n: nat): nat {
    if n <= 10 then 1 else Pow2(n - 10)
  }

  lemma NextLocatorHeight(height: nat, n: nat)
    requires LocatorHeight(height, n) > 0
    ensures LocatorHeight(height, n + 1) ==
      if LocatorHeight(height, n) > LocatorStep(n) then LocatorHeight(height, n) - LocatorStep(n) else 0
    ensures LocatorStep(n + 1) == if n + 1 > 10 then LocatorStep(n) * 2 else LocatorStep(n)
  {
    assert LocatorOffset(n + 1) == LocatorOffset(n) + LocatorStep(n);
  }

  /** What a locator for the last block of `path` holds: the blocks at those heights, down to genesis. */
  ghost predicate IsLocator(path: seq<BlockIndex>, have: seq<nat>) {
    && |have| > 0
    && LocatorPrefix(path, have)
    && LocatorHeight(|path| - 1, |have| - 1) == 0
    && AboveGenesis(|path| - 1, |have| - 1)
  }

  predicate AboveGenesis(height: nat, entries: nat) {
    forall n | 0 <= n < entries :: LocatorHeight(height, n) > 0
  }

  ghost predicate LocatorPrefix(path: seq<BlockIndex>, have: seq<nat>) {
    path != [] && forall n | 0 <= n < |have| :: have[n] == path[LocatorHeight(|path| - 1, n)].hash
  }

  /** A locator in progress: the walk stands at the height of the next entry. */
  ghost predicate LocatorInProgress(path: seq<BlockIndex>, have: seq<nat>, height: nat, step: nat) {
    && LocatorPrefix(path, have) && AboveGenesis(|path| - 1, |have|)
    && height == LocatorHeight(|path| - 1, |have|)
    && step == LocatorStep(|have|)
  }

  function StepBack(height: nat, step: nat): nat {
    if height > step then height - step else 0
  }

  lemma LocatorPush(path: seq<BlockIndex>, have: seq<nat>, height: nat, step: nat)
    requires LocatorInProgress(path, have, height, step) && height < |path|
    ensures var have' := have + [path[height].hash];
      if height == 0 then IsLocator(path, have')
      else LocatorInProgress(path, have', StepBack(height, step), if |have'| > 10 then step * 2 else step)
  {
    if height > 0 { NextLocatorHeight(|path| - 1, |have|); }
  }

  method LocatorEntries(index: BlockIndex?, ghost tree: set<BlockIndex>) returns (have: seq<nat>)
    requires IsTree(tree) && (index != null ==> index in tree)
    ensures index == null ==> have == []
    ensures index != null ==> IsLocator(Path(index), have)
  {
    have := [];
    if index == null { return; }
    ghost var path := Path(index);
    var walk, step: nat := index, 1;
    while true
      invariant walk in tree && walk.nHeight < |path| && walk == path[walk.nHeight]
      invariant LocatorInProgress(path, have, walk.nHeight, step)
      decreases walk.nHeight
    {
      LocatorPush(path, have, walk.nHeight, step);
      have := have + [walk.hash];
      if walk.nHeight == 0 { break; }
      PathOfAncestor(index, walk.nHeight);
      walk := walk.GetAncestor(StepBack(walk.nHeight, step), tree);
      if |have| > 10 { step := step * 2; }
    }
  }

  /** Heights in a locator strictly decrease. */
  lemma LocatorHeightsDecrease(height: nat, n: nat)
    requires LocatorHeight(height, n) > 0
    ensures LocatorHeight(height, n + 1) < LocatorHeight(height, n)
  {
    NextLocatorHeight(height, n);
  }

  /** A locator of more than 11 entries has 11 plus the rounded-up binary logarithm of height - 9. */
  lemma LocatorLength(path: seq<BlockIndex>, have: seq<nat>)
    requires path != [] && IsLocator(path, have)
    ensures var height, length := |path| - 1, |have|;
      if height <= 10 then length == height + 1
      else length > 11 && Pow2(length - 12) < height - 9 <= Pow2(length - 11)
  {
    if |have| > 1 { assert LocatorHeight(|path| - 1, |have| - 2) > 0; }
    if |have| > 12 { assert Pow2(|have| - 12) >= 2; }
  }

  // ---------- the active chain ----------

  class ActiveChain {
    var vChain: seq<BlockIndex?>

    /** The chain is the whole path to its tip. */
    ghost predicate Valid()
      reads this
    {
      vChain != [] ==> vChain[|vChain| - 1] != null && IsChainOf(vChain[|vChain| - 1], vChain)
    }

    constructor ()
      ensures Valid() && vChain == []
    {
      vChain := [];
    }

    /** The loop stops as soon as it meets a block already in place. */
    method SetTip(block: BlockIndex)
      requires Valid() && WellFormed(block)
      modifies this
      ensures Valid() && IsChainOf(block, vChain) && vChain[block.nHeight] == block
    {
      ghost var before, path := vChain, Path(block);
      var n := block.nHeight + 1;
      vChain := Resized(vChain, n);
      var pindex: BlockIndex? := block;
      while pindex != null && vChain[pindex.nHeight] != pindex
        invariant |vChain| == n == |path|
        invariant pindex != null ==> pindex.nHeight < n && pindex == path[pindex.nHeight]
        invariant PartlyMoved(vChain, before, path, if pindex == null then 0 else pindex.nHeight + 1)
        decreases if pindex == null then 0 else pindex.nHeight + 1
      {
        ParentOnPath(path, pindex.nHeight);
        vChain := vChain[pindex.nHeight := pindex];
        pindex := pindex.pprev;
      }
      if pindex != null { SharedBelow(before, block, pindex.nHeight); }
    }

    function At(height: int): BlockIndex?
      reads this
    {
      if height < 0 || height >= |vChain| then null else vChain[height]
    }

    predicate Contains(pindex: BlockIndex)
      reads this
    {
      At(pindex.nHeight) == pindex
    }

    /** The last block of this chain that is the given block or an ancestor of it, if any. */
    method FindFork(block: BlockIndex?, ghost tree: set<BlockIndex>) returns (r: BlockIndex?)
      requires Valid() && IsTree(tree) && (block != null ==> block in tree)
      ensures block == null ==> r == null
      ensures block != null && r != null ==> r in Path(block) && Contains(r)
      ensures block != null ==> forall b | b in Path(block) && Contains(b) :: r != null && b.nHeight <= r.nHeight
    {
      if block == null { return null; }
      ghost var path := Path(block);
      r := block;
      if block.nHeight > |vChain| - 1 { r := block.GetAncestor(|vChain| - 1, tree); }
      while r != null && !Contains(r)
        invariant r != null ==> r.nHeight < |path| && r == path[r.nHeight]
        invariant Apart(path, vChain, if r == null then 0 else r.nHeight + 1)
        decreases if r == null then 0 else r.nHeight + 1
      {
        ParentOnPath(path, r.nHeight);
        r := r.pprev;
      }
      forall b | b in path && Contains(b) ensures r != null && b.nHeight <= r.nHeight {
        var h :| 0 <= h < |path| && path[h] == b;
        assert path[h].nHeight == h;
      }
    }
  }

  /** The two have different blocks at every height from `h` on that both reach. */
  ghost predicate Apart(p: seq<BlockIndex>, q: seq<BlockIndex?>, h: nat) {
    forall i | h <= i < |p| && i < |q| :: p[i] != q[i]
  }

  /** std::vector::resize: cut, or filled up with nullptr. */
  function Resized(chain: seq<BlockIndex?>, n: nat): (r: seq<BlockIndex?>)
    ensures |r| == n && forall i | 0 <= i < n :: r[i] == if i < |chain| then chain[i] else null
  {
    seq(n, i requires 0 <= i => if i < |chain| then chain[i] else null)
  }

  ghost predicate IsChainOf(tip: BlockIndex, chain: seq<BlockIndex?>) {
    && WellFormed(tip) && |chain| == tip.nHeight + 1
    && forall i | 0 <= i < |chain| :: chain[i] == Path(tip)[i]
  }

  /** SetTip in progress: entries from `h` on are the new path's, the ones below still the old chain's. */
  ghost predicate PartlyMoved(chain: seq<BlockIndex?>, before: seq<BlockIndex?>, path: seq<BlockIndex>, h: nat) {
    && |chain| == |path|
    && (forall i | h <= i < |chain| :: chain[i] == path[i])
    && (forall i | 0 <= i < h && i < |chain| :: chain[i] == if i < |before| then before[i] else null)
  }

  /** Two chains that agree at a height agree below it. */
  lemma SharedBelow(chain: seq<BlockIndex?>, b: BlockIndex, h: nat)
    requires chain != [] && chain[|chain| - 1] != null && IsChainOf(chain[|chain| - 1], chain)
    requires WellFormed(b) && h < |chain| && h <= b.nHeight && chain[h] == Path(b)[h]
    ensures forall i | 0 <= i <= h :: chain[i] == Path(b)[i]
  {
    var tip := chain[|chain| - 1];
    PathOfAncestor(tip, h);
    PathOfAncestor(b, h);
    assert Path(tip)[..h + 1] == Path(b)[..h + 1];
    forall i | 0 <= i <= h ensures chain[i] == Path(b)[i] {
      assert Path(tip)[i] == Path(tip)[..h + 1][i] == Path(b)[..h + 1][i];
    }
  }

  /** The highest block that is an ancestor of both; null exactly when they share no genesis. */
  method LastCommonAncestor(a: BlockIndex, b: BlockIndex, ghost tree: set<BlockIndex>) returns (r: BlockIndex?)
    requires IsTree(tree) && a in tree && b in tree
    ensures r != null ==> r in Path(a) && r in Path(b)
    ensures forall c | c in Path(a) && c in Path(b) :: r != null && c.nHeight <= r.nHeight
  {
    ghost var pathA, pathB := Path(a), Path(b);
    var pa: BlockIndex?, pb: BlockIndex? := a, b;
    if a.nHeight > b.nHeight {
      pa := a.GetAncestor(b.nHeight, tree);
    } else if b.nHeight > a.nHeight {
      pb := b.GetAncestor(a.nHeight, tree);
    }
    while pa != pb && pa != null && pb != null
      invariant (pa == null) == (pb == null)
      invariant pa != null ==> pa.nHeight == pb.nHeight < |pathA| && pa.nHeight < |pathB|
      invariant pa != null ==> pa == pathA[pa.nHeight] && pb == pathB[pa.nHeight]
      invariant Apart(pathA, pathB, if pa == null then 0 else pa.nHeight + 1)
      decreases if pa == null then 0 else pa.nHeight + 1
    {
      ParentOnPath(pathA, pa.nHeight);
      ParentOnPath(pathB, pb.nHeight);
      pa, pb := pa.pprev, pb.pprev;
    }
    assert pa == pb;
    r := pa;
    forall c | c in pathA && c in pathB ensures r != null && c.nHeight <= r.nHeight {
      var i :| 0 <= i < |pathA| && pathA[i] == c;
      var j :| 0 <= j < |pathB| && pathB[j] == c;
      assert pathA[i].nHeight == i && pathB[j].nHeight == j;
    }
  }
}
