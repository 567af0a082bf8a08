/**
 The two-phase headers sync (src/headerssync.h, src/headerssync.cpp).

 PRESYNC walks a peer's headers keeping one salted bit every HEADER_COMMITMENT_PERIOD of them;
 REDOWNLOAD walks them again, checks the bits and hands headers out of a lookahead buffer in which
 the previous hash is not stored.  The object's ghost fields record the headers each phase accepted
 and those handed out; everything the code keeps is tied to them by `Valid`.
 */
module HeadersSync {
  import opened Basics

  const HEADER_COMMITMENT_PERIOD: nat := 606
  const REDOWNLOAD_BUFFER_SIZE: nat := 14441
  const MAX_FUTURE_BLOCK_TIME: nat := 2 * 60 * 60

  datatype Header = Header(
    nVersion: int, hashPrevBlock: nat, hashMerkleRoot: nat, nTime: nat, nBits: nat, nNonce: nat)

  datatype CompressedHeader = CompressedHeader(
    nVersion: int, hashMerkleRoot: nat, nTime: nat, nBits: nat, nNonce: nat)
  {
    function GetFullHeader(hashPrevBlock: nat): Header {
      Header(nVersion, hashPrevBlock, hashMerkleRoot, nTime, nBits, nNonce)
    }
  }

  function Compress(h: Header): CompressedHeader {
    CompressedHeader(h.nVersion, h.hashMerkleRoot, h.nTime, h.nBits, h.nNonce)
  }

  /** `buffer` holds the headers of `hs` from position `n` on, without their previous hashes. */
  predicate Buffered(buffer: seq<CompressedHeader>, hs: seq<Header>, n: nat) {
    && |buffer| + n == |hs|
    && forall i | 0 <= i < |buffer| :: buffer[i] == Compress(hs[n + i])
  }

  /**
   What one sync is constructed with; hashing, the difficulty rule and block proof are arbitrary.
   `now` is the clock at that moment and `startTime` the median time past of the start, in seconds.
   */
  datatype Params = Params(
    hash: Header -> nat,
    saltedBit: nat -> bool,
    permitted: (nat, nat, nat) -> bool,
    proof: nat -> nat,
    start: Header,
    startHeight: nat,
    startWork: nat,
    minimumWork: nat,
    commitOffset: nat,
    now: int,
    startTime: int)
  {
    /** Seconds in which blocks can have been mined. */
    function Elapsed(): int { now - startTime + MAX_FUTURE_BLOCK_TIME }

    /** Six blocks a second; the signed product becomes an unsigned 64-bit number before the division. */
    function MaxCommitments(): nat { (6 * Elapsed()) % TWO_TO_64 / HEADER_COMMITMENT_PERIOD }
  }

  // ---------- chains of headers on top of the start ----------

  /** The header before position `i` of a chain `hs` on top of the start. */
  function Before(p: Params, hs: seq<Header>, i: nat): Header
    requires i <= |hs|
  {
    if i == 0 then p.start else hs[i - 1]
  }

  function Last(p: Params, hs: seq<Header>): Header { Before(p, hs, |hs|) }

  function HeightOf(p: Params, i: nat): nat { p.startHeight + 1 + i }

  predicate Linked(p: Params, hs: seq<Header>) {
    forall i | 0 <= i < |hs| :: hs[i].hashPrevBlock == p.hash(Before(p, hs, i))
  }

  predicate DifficultyOk(p: Params, hs: seq<Header>) {
    forall i | 0 <= i < |hs| :: p.permitted(HeightOf(p, i), Before(p, hs, i).nBits, hs[i].nBits)
  }

  function Work(p: Params, hs: seq<Header>): nat {
    if hs == [] then p.startWork
    else (Work(p, Init(hs)) + p.proof(hs[|hs| - 1].nBits)) % TWO_TO_256
  }

  /** Some non-empty prefix of the chain has had the required work. */
  predicate Reached(p: Params, hs: seq<Header>) {
    hs != [] && (Work(p, hs) >= p.minimumWork || Reached(p, Init(hs)))
  }

  predicate CommitAt(p: Params, i: nat) { HeightOf(p, i) % HEADER_COMMITMENT_PERIOD == p.commitOffset }

  function Bit(p: Params, h: Header): bool { p.saltedBit(p.hash(h)) }

  /** The commitment bits of the headers of `hs` at commit heights, from position `from` on. */
  function Bits(p: Params, hs: seq<Header>, from: nat): seq<bool>
    decreases |hs| - from
  {
    if from >= |hs| then []
    else (if CommitAt(p, from) then [Bit(p, hs[from])] else []) + Bits(p, hs, from + 1)
  }

  // ---------- what each phase accepts ----------

  predicate PresyncHeaderOk(p: Params, hs: seq<Header>, h: Header) {
    && h.hashPrevBlock == p.hash(Last(p, hs))
    && p.permitted(HeightOf(p, |hs|), Last(p, hs).nBits, h.nBits)
    && (CommitAt(p, |hs|) ==> |Bits(p, hs, 0)| < p.MaxCommitments())
  }

  /** The chains PRESYNC can have walked. */
  predicate Presynced(p: Params, hs: seq<Header>) {
    hs == [] || (Presynced(p, Init(hs)) && PresyncHeaderOk(p, Init(hs), hs[|hs| - 1]))
  }

  /** A redownloaded header must link, move difficulty lawfully and match its bit while below the work. */
  predicate RedownloadHeaderOk(p: Params, presync: seq<Header>, hs: seq<Header>, h: Header) {
    && h.hashPrevBlock == p.hash(Last(p, hs))
    && p.permitted(HeightOf(p, |hs|), Last(p, hs).nBits, h.nBits)
    && (CommitAt(p, |hs|) && !Reached(p, hs + [h]) ==> |hs| < |presync| && Bit(p, h) == Bit(p, presync[|hs|]))
  }

  /** The chains REDOWNLOAD can have accepted after PRESYNC walked `presync`. */
  predicate Redownloaded(p: Params, presync: seq<Header>, hs: seq<Header>) {
    hs == [] || (Redownloaded(p, presync, Init(hs)) && RedownloadHeaderOk(p, presync, Init(hs), hs[|hs| - 1]))
  }

  function Init(hs: seq<Header>): seq<Header>
    requires hs != []
  {
    hs[..|hs| - 1]
  }

  /** The caller has checked that a message's headers follow one another. */
  predicate Continuous(p: Params, received: seq<Header>) {
    forall i | 0 < i < |received| :: received[i].hashPrevBlock == p.hash(received[i - 1])
  }

  // ---------- the promises of the protocol ----------

  /** Every accepted header at a commit height, below the work threshold, matches the presync bit there. */
  predicate MatchesCommitments(p: Params, presync: seq<Header>, hs: seq<Header>) {
    forall i | 0 <= i < |hs| && CommitAt(p, i) && !Reached(p, hs[..i + 1]) ::
      i < |presync| && Bit(p, hs[i]) == Bit(p, presync[i])
  }

  /** `released` was handed out in order, and only on enough work or under enough accepted headers. */
  predicate ReleaseRule(p: Params, accepted: seq<Header>, released: seq<Header>) {
    && released <= accepted
    && (Reached(p, accepted) || released == [] || |released| + REDOWNLOAD_BUFFER_SIZE <= |accepted|)
  }

  /** An acceptable chain is linked from the start, moves difficulty lawfully and matches every bit it must. */
  lemma {:induction false} RedownloadedIsGood(p: Params, presync: seq<Header>, hs: seq<Header>)
    requires Redownloaded(p, presync, hs)
    ensures Linked(p, hs) && DifficultyOk(p, hs) && MatchesCommitments(p, presync, hs)
  {
    forall i | 0 <= i < |hs|
      ensures hs[i].hashPrevBlock == p.hash(Before(p, hs, i))
      ensures p.permitted(HeightOf(p, i), Before(p, hs, i).nBits, hs[i].nBits)
      ensures CommitAt(p, i) && !Reached(p, hs[..i + 1]) ==> i < |presync| && Bit(p, hs[i]) == Bit(p, presync[i])
    {
      RedownloadedPrefix(p, presync, hs, i + 1);
      assert Init(hs[..i + 1]) == hs[..i] && hs[..i] + [hs[i]] == hs[..i + 1];
      assert Last(p, hs[..i]) == Before(p, hs, i);
    }
  }

  lemma {:induction false} PresyncedIsGood(p: Params, hs: seq<Header>)
    requires Presynced(p, hs)
    ensures Linked(p, hs) && DifficultyOk(p, hs) && |Bits(p, hs, 0)| <= p.MaxCommitments()
  {
    forall i | 0 <= i < |hs|
      ensures hs[i].hashPrevBlock == p.hash(Before(p, hs, i))
      ensures p.permitted(HeightOf(p, i), Before(p, hs, i).nBits, hs[i].nBits)
    {
      PresyncedPrefix(p, hs, i + 1);
      assert Init(hs[..i + 1]) == hs[..i];
      assert Last(p, hs[..i]) == Before(p, hs, i);
    }
    PresyncedBits(p, hs);
  }

  lemma {:induction false} PresyncedBits(p: Params, hs: seq<Header>)
    requires Presynced(p, hs)
    ensures |Bits(p, hs, 0)| <= p.MaxCommitments()
  {
    if hs != [] {
      PresyncedBits(p, Init(hs));
      BitsExtend(p, Init(hs), hs[|hs| - 1], 0);
      assert Init(hs) + [hs[|hs| - 1]] == hs;
    }
  }

  /** Among any 606 neighbouring headers one is committed to. */
  lemma {:induction false} BitsAreDense(p: Params, hs: seq<Header>, from: nat, k: nat)
    requires p.commitOffset < HEADER_COMMITMENT_PERIOD && from + k * HEADER_COMMITMENT_PERIOD <= |hs|
    ensures |Bits(p, hs, from)| >= k
    decreases k
  {
    if k > 0 {
      var c := (p.commitOffset + 606 - HeightOf(p, from) % 606) % 606;
      assert CommitAt(p, from + c);
      BitsShrink(p, hs, from, c);
      BitsShrink(p, hs, from + c + 1, 605 - c);
      BitsAreDense(p, hs, from + 606, k - 1);
    }
  }

  lemma {:induction false} BitsShrink(p: Params, hs: seq<Header>, from: nat, n: nat)
    requires from + n <= |hs|
    ensures |Bits(p, hs, from)| >= |Bits(p, hs, from + n)|
    decreases n
  {
    if n > 0 { BitsShrink(p, hs, from + 1, n - 1); }
  }

  /**
   What the largest number of commitments is for: PRESYNC gives up on every chain longer than six
   blocks a second could have made it, unless the clock is so far behind that the formula wraps.
   */
  lemma PresyncIsShort(p: Params, hs: seq<Header>)
    requires Presynced(p, hs) && p.commitOffset < HEADER_COMMITMENT_PERIOD
    ensures |hs| < HEADER_COMMITMENT_PERIOD * (p.MaxCommitments() + 1)
    ensures 0 <= 6 * p.Elapsed() < TWO_TO_64 ==> |hs| < 6 * p.Elapsed() + HEADER_COMMITMENT_PERIOD
  {
    PresyncedBits(p, hs);
    BitsAreDense(p, hs, 0, |hs| / 606);
  }

  /** The bound is at most six a second exactly when the clock is at most two hours behind the start. */
  lemma MaxCommitmentsIsExact(p: Params)
    requires -0x8000_0000_0000_0000 <= 6 * p.Elapsed() < 0x8000_0000_0000_0000
    ensures HEADER_COMMITMENT_PERIOD * p.MaxCommitments() <= 6 * p.Elapsed()
            <==> p.now + MAX_FUTURE_BLOCK_TIME >= p.startTime
    ensures p.now + MAX_FUTURE_BLOCK_TIME < p.startTime ==> p.MaxCommitments() >= 0x8000_0000_0000_0000 / 606
  {
    var e := 6 * p.Elapsed();
    if e < 0 {
      assert e % TWO_TO_64 == e + TWO_TO_64;
    } else {
      assert e % TWO_TO_64 == e;
    }
  }

  lemma {:induction false} RedownloadedPrefix(p: Params, presync: seq<Header>, hs: seq<Header>, n: nat)
    requires Redownloaded(p, presync, hs) && n <= |hs|
    ensures Redownloaded(p, presync, hs[..n])
  {
    if n == |hs| {
      assert hs[..n] == hs;
    } else {
      RedownloadedPrefix(p, presync, Init(hs), n);
      assert Init(hs)[..n] == hs[..n];
    }
  }

  lemma {:induction false} PresyncedPrefix(p: Params, hs: seq<Header>, n: nat)
    requires Presynced(p, hs) && n <= |hs|
    ensures Presynced(p, hs[..n])
  {
    if n == |hs| {
      assert hs[..n] == hs;
    } else {
      PresyncedPrefix(p, Init(hs), n);
      assert Init(hs)[..n] == hs[..n];
    }
  }

  // ---------- lemmas ----------

  lemma {:induction false} BitsExtend(p: Params, hs: seq<Header>, h: Header, from: nat)
    requires from <= |hs|
    ensures Bits(p, hs + [h], from) == Bits(p, hs, from) + (if CommitAt(p, |hs|) then [Bit(p, h)] else [])
    decreases |hs| - from
  {
    if from < |hs| {
      BitsExtend(p, hs, h, from + 1);
      assert (hs + [h])[from] == hs[from];
    } else {
      assert Bits(p, hs + [h], from + 1) == [];
    }
  }

  lemma WorkExtend(p: Params, hs: seq<Header>, h: Header)
    ensures Work(p, hs + [h]) == (Work(p, hs) + p.proof(h.nBits)) % TWO_TO_256
    ensures Reached(p, hs + [h]) <==> Work(p, hs + [h]) >= p.minimumWork || Reached(p, hs)
  {
    assert Init(hs + [h]) == hs;
  }

  lemma PresyncedExtend(p: Params, hs: seq<Header>, h: Header)
    ensures Presynced(p, hs + [h]) <==> Presynced(p, hs) && PresyncHeaderOk(p, hs, h)
  {
    assert Init(hs + [h]) == hs;
  }

  lemma RedownloadedExtend(p: Params, presync: seq<Header>, hs: seq<Header>, h: Header)
    ensures Redownloaded(p, presync, hs + [h]) <==>
      Redownloaded(p, presync, hs) && RedownloadHeaderOk(p, presync, hs, h)
  {
    assert Init(hs + [h]) == hs;
  }

  /** Enough work, once reached, stays reached. */
  lemma {:induction false} ReachedExtend(p: Params, hs: seq<Header>, more: seq<Header>)
    requires Reached(p, hs)
    ensures Reached(p, hs + more)
    decreases |more|
  {
    if more == [] {
      assert hs + more == hs;
    } else {
      ReachedExtend(p, hs, more[..|more| - 1]);
      assert Init(hs + more) == hs + more[..|more| - 1];
    }
  }

  lemma PresyncFails(p: Params, hs: seq<Header>, received: seq<Header>, i: nat)
    requires i < |received| && !PresyncHeaderOk(p, hs + received[..i], received[i])
    ensures !Presynced(p, hs + received)
  {
    PresyncedExtend(p, hs + received[..i], received[i]);
    assert hs + received[..i] + [received[i]] == (hs + received)[..|hs| + i + 1];
    if Presynced(p, hs + received) { PresyncedPrefix(p, hs + received, |hs| + i + 1); }
  }

  lemma RedownloadFails(p: Params, presync: seq<Header>, hs: seq<Header>, received: seq<Header>, i: nat)
    requires i < |received| && !RedownloadHeaderOk(p, presync, hs + received[..i], received[i])
    ensures !Redownloaded(p, presync, hs + received)
  {
    RedownloadedExtend(p, presync, hs + received[..i], received[i]);
    assert hs + received[..i] + [received[i]] == (hs + received)[..|hs| + i + 1];
    if Redownloaded(p, presync, hs + received) { RedownloadedPrefix(p, presync, hs + received, |hs| + i + 1); }
  }

  /** The front of the buffer with the kept previous hash is the header that was accepted. */
  lemma BufferPop(p: Params, hs: seq<Header>, presync: seq<Header>, n: nat, buffer: seq<CompressedHeader>)
    requires Redownloaded(p, presync, hs) && Buffered(buffer, hs, n) && buffer != []
    ensures buffer[0].GetFullHeader(p.hash(Before(p, hs, n))) == hs[n]
    ensures Buffered(buffer[1..], hs, n + 1)
  {
    RedownloadedIsGood(p, presync, hs);
  }

  lemma BufferPush(p: Params, hs: seq<Header>, h: Header, released: seq<Header>, buffer: seq<CompressedHeader>)
    requires released <= hs && Buffered(buffer, hs, |released|)
    ensures Buffered(buffer + [Compress(h)], hs + [h], |released|)
    ensures released <= hs + [h] && Last(p, hs + [h]) == h
    ensures Before(p, hs + [h], |released|) == Before(p, hs, |released|)
  {
  }

  lemma AppendOne(hs: seq<Header>, more: seq<Header>, i: nat)
    requires i < |more|
    ensures hs + more[..i + 1] == hs + more[..i] + [more[i]]
  {
  }

  lemma Assoc(a: seq<Header>, b: seq<Header>, c: seq<Header>)
    ensures (a + b) + c == a + (b + c)
  {
  }

  lemma ReleaseStays(p: Params, hs: seq<Header>, hs': seq<Header>, released: seq<Header>)
    requires hs <= hs' && ReleaseRule(p, hs, released)
    ensures ReleaseRule(p, hs', released)
  {
    if Reached(p, hs) {
      ReachedExtend(p, hs, hs'[|hs|..]);
      assert hs + hs'[|hs|..] == hs';
    }
  }

  /** What a caller gets: a chain linked from the start, lawful, and matching its commitments. */
  lemma ReleasedIsGood(p: Params, presync: seq<Header>, accepted: seq<Header>, released: seq<Header>)
    requires Redownloaded(p, presync, accepted) && ReleaseRule(p, accepted, released)
    ensures Linked(p, released) && DifficultyOk(p, released) && MatchesCommitments(p, presync, released)
  {
    RedownloadedPrefix(p, presync, accepted, |released|);
    assert accepted[..|released|] == released;
    RedownloadedIsGood(p, presync, released);
  }

  /** The `j`-th position after `k` whose height is a commit height. */
  function CommitAfter(p: Params, k: nat, j: nat): nat {
    k + 1 + (p.commitOffset + HEADER_COMMITMENT_PERIOD - HeightOf(p, k + 1) % HEADER_COMMITMENT_PERIOD)
            % HEADER_COMMITMENT_PERIOD
    + j * HEADER_COMMITMENT_PERIOD
  }

  /**
   What the lookahead is for: below the work threshold, every header handed out has 23 later accepted
   headers (one commitment period apart) whose bits were checked against the presync chain.
   */
  lemma TwentyThreeCommitmentsOnTop(
    p: Params, presync: seq<Header>, accepted: seq<Header>, released: seq<Header>, k: nat, j: nat)
    requires Redownloaded(p, presync, accepted) && ReleaseRule(p, accepted, released) && !Reached(p, accepted)
    requires p.commitOffset < HEADER_COMMITMENT_PERIOD && k < |released| && j < 23
    ensures var c := CommitAfter(p, k, j);
      k < c < |accepted| && c < |presync| && CommitAt(p, c) && Bit(p, accepted[c]) == Bit(p, presync[c])
  {
    var c := CommitAfter(p, k, j);
    CommitAfterIsCommit(p, k, j);
    CommitmentChecked(p, presync, accepted, c);
  }

  lemma CommitmentChecked(p: Params, presync: seq<Header>, accepted: seq<Header>, c: nat)
    requires Redownloaded(p, presync, accepted) && !Reached(p, accepted)
    ensures c < |accepted| && CommitAt(p, c) ==> c < |presync| && Bit(p, accepted[c]) == Bit(p, presync[c])
  {
    if c < |accepted| {
      var upTo := accepted[..c + 1];
      UnreachedPrefix(p, accepted, c + 1);
      RedownloadedPrefix(p, presync, accepted, c + 1);
      assert Init(upTo) == accepted[..c] && Init(upTo) + [accepted[c]] == upTo;
    }
  }

  lemma UnreachedPrefix(p: Params, hs: seq<Header>, n: nat)
    requires !Reached(p, hs) && n <= |hs|
    ensures !Reached(p, hs[..n])
  {
    assert hs[..n] + hs[n..] == hs;
    if Reached(p, hs[..n]) { ReachedExtend(p, hs[..n], hs[n..]); }
  }

  lemma CommitAfterIsCommit(p: Params, k: nat, j: nat)
    requires p.commitOffset < HEADER_COMMITMENT_PERIOD
    ensures CommitAt(p, CommitAfter(p, k, j))
    ensures k < CommitAfter(p, k, j) <= k + 606 + j * 606
  {
    var h := HeightOf(p, k + 1);
    var d := (p.commitOffset + 606 - h % 606) % 606;
    assert (h + d) % 606 == p.commitOffset;
    AddMultiple(h + d, j);
  }

  lemma {:induction false} AddMultiple(n: nat, j: nat)
    ensures (n + j * 606) % 606 == n % 606
  {
    if j > 0 { AddMultiple(n, j - 1); }
  }

  /** What PRESYNC keeps of the chain it has walked. */
  predicate Walked(p: Params, hs: seq<Header>, last: Header, height: nat, work: nat, bits: seq<bool>) {
    && Presynced(p, hs)
    && last == Last(p, hs)
    && height == p.startHeight + |hs|
    && work == Work(p, hs)
    && bits == Bits(p, hs, 0)
  }

  /** The bits after one more header. */
  function MoreBits(p: Params, height: nat, bits: seq<bool>, h: Header): seq<bool> {
    if height % HEADER_COMMITMENT_PERIOD == p.commitOffset then bits + [Bit(p, h)] else bits
  }

  lemma WalkOn(p: Params, hs: seq<Header>, h: Header, last: Header, height: nat, work: nat, bits: seq<bool>)
    requires Walked(p, hs, last, height, work, bits) && h.hashPrevBlock == p.hash(last)
    ensures PresyncHeaderOk(p, hs, h) <==>
      && p.permitted(height + 1, last.nBits, h.nBits)
      && ((height + 1) % HEADER_COMMITMENT_PERIOD == p.commitOffset ==> |bits| < p.MaxCommitments())
    ensures PresyncHeaderOk(p, hs, h) ==>
      Walked(p, hs + [h], h, height + 1, (work + p.proof(h.nBits)) % TWO_TO_256, MoreBits(p, height + 1, bits, h))
  {
    BitsExtend(p, hs, h, 0);
    WorkExtend(p, hs, h);
    PresyncedExtend(p, hs, h);
  }

  /** The buffer is exactly the accepted headers not yet handed out. */
  predicate BuffersExactly(p: Params, presync: seq<Header>, accepted: seq<Header>, released: seq<Header>,
                           buffer: seq<CompressedHeader>, lastHeight: nat, lastHash: nat, firstPrevHash: nat)
  {
    && Presynced(p, presync) && Work(p, presync) >= p.minimumWork
    && Redownloaded(p, presync, accepted) && released <= accepted
    && Buffered(buffer, accepted, |released|)
    && lastHeight == p.startHeight + |accepted|
    && lastHash == p.hash(Last(p, accepted))
    && firstPrevHash == p.hash(Before(p, accepted, |released|))
  }

  // ---------- the object ----------

  datatype State = PRESYNC | REDOWNLOAD | FINAL

  datatype ProcessingResult = ProcessingResult(
    powValidatedHeaders: seq<Header>, success: bool, requestMore: bool)

  class HeadersSyncState {
    const p: Params

    var downloadState: State
    var currentChainWork: nat
    var headerCommitments: seq<bool>
    var lastHeaderReceived: Header
    var currentHeight: nat
    var redownloadedHeaders: seq<CompressedHeader>
    var redownloadBufferLastHeight: nat
    var redownloadBufferLastHash: nat
    var redownloadBufferFirstPrevHash: nat
    var redownloadChainWork: nat
    var processAllRemainingHeaders: bool

    ghost var presync: seq<Header>    // accepted in PRESYNC
    ghost var accepted: seq<Header>   // accepted in REDOWNLOAD
    ghost var released: seq<Header>   // handed out

    ghost predicate InPresync()
      reads this
    {
      && downloadState == PRESYNC && accepted == [] && released == []
      && Walked(p, presync, lastHeaderReceived, currentHeight, currentChainWork, headerCommitments)
      && redownloadedHeaders == [] && !processAllRemainingHeaders
    }

    /** The work so far, whether it was ever enough, and the bits still to come. */
    ghost predicate Tracks(hs: seq<Header>)
      reads this
    {
      && redownloadChainWork == Work(p, hs)
      && processAllRemainingHeaders == Reached(p, hs)
      && (!processAllRemainingHeaders ==> headerCommitments == Bits(p, presync, |hs|))
    }

    ghost predicate InRedownload()
      reads this
    {
      Buffers() && Tracks(accepted)
    }

    ghost predicate Buffers()
      reads this
    {
      downloadState == REDOWNLOAD &&
      BuffersExactly(p, presync, accepted, released, redownloadedHeaders,
                     redownloadBufferLastHeight, redownloadBufferLastHash, redownloadBufferFirstPrevHash)
    }

    /** What holds between calls. */
    ghost predicate Valid()
      reads this
    {
      && Presynced(p, presync)
      && Redownloaded(p, presync, accepted)
      && ReleaseRule(p, accepted, released)
      && match downloadState
         case PRESYNC => InPresync() && (presync == [] || Work(p, presync) < p.minimumWork)
         case REDOWNLOAD =>
           && InRedownload() && !processAllRemainingHeaders
           && |released| == if |accepted| > REDOWNLOAD_BUFFER_SIZE then |accepted| - REDOWNLOAD_BUFFER_SIZE else 0
         case FINAL => true
    }

    constructor (p: Params)
      ensures Valid() && this.p == p && downloadState == PRESYNC
      ensures presync == [] && accepted == [] && released == []
    {
      this.p := p;
      downloadState := PRESYNC;
      currentChainWork, headerCommitments := p.startWork, [];
      lastHeaderReceived, currentHeight := p.start, p.startHeight;
      redownloadedHeaders, redownloadBufferLastHeight := [], 0;
      redownloadBufferLastHash, redownloadBufferFirstPrevHash, redownloadChainWork := 0, 0, 0;
      processAllRemainingHeaders := false;
      presync, accepted, released := [], [], [];
    }

    /** Drops all download state; what was handed out stays handed out. */
    method Finalize()
      modifies this
      ensures downloadState == FINAL && headerCommitments == [] && redownloadedHeaders == []
      ensures lastHeaderReceived == Header(0, 0, 0, 0, 0, 0) && currentHeight == 0
      ensures redownloadBufferLastHash == 0 && redownloadBufferFirstPrevHash == 0 && !processAllRemainingHeaders
      ensures currentChainWork == old(currentChainWork) && redownloadChainWork == old(redownloadChainWork)
      ensures redownloadBufferLastHeight == old(redownloadBufferLastHeight)
      ensures presync == old(presync) && accepted == old(accepted) && released == old(released)
    {
      headerCommitments := [];
      lastHeaderReceived := Header(0, 0, 0, 0, 0, 0);
      redownloadedHeaders := [];
      redownloadBufferLastHash, redownloadBufferFirstPrevHash := 0, 0;
      processAllRemainingHeaders := false;
      currentHeight := 0;
      downloadState := FINAL;
    }

    method ValidateAndProcessSingleHeader(current: Header) returns (ok: bool)
      requires InPresync() && current.hashPrevBlock == p.hash(Last(p, presync))
      modifies this
      ensures ok == old(PresyncHeaderOk(p, presync, current))
      ensures presync == if ok then old(presync) + [current] else old(presync)
      ensures accepted == old(accepted) && released == old(released)
      ensures ok ==> InPresync()
    {
      WalkOn(p, presync, current, lastHeaderReceived, currentHeight, currentChainWork, headerCommitments);
      var nextHeight := currentHeight + 1;
      if !p.permitted(nextHeight, lastHeaderReceived.nBits, current.nBits) { return false; }
      if nextHeight % HEADER_COMMITMENT_PERIOD == p.commitOffset {
        headerCommitments := headerCommitments + [p.saltedBit(p.hash(current))];
        if |headerCommitments| > p.MaxCommitments() { return false; }
      }
      currentChainWork := (currentChainWork + p.proof(current.nBits)) % TWO_TO_256;
      lastHeaderReceived := current;
      currentHeight := nextHeight;
      presync := presync + [current];
      ok := true;
    }

    method ValidateAndStoreHeadersCommitments(headers: seq<Header>) returns (ok: bool)
      requires InPresync() && headers != [] && Continuous(p, headers)
      modifies this
      ensures ok == old(Presynced(p, presync + headers))
      ensures Presynced(p, presync) && accepted == [] && released == []
      ensures ok ==> presync == old(presync) + headers
      ensures ok ==> if Work(p, presync) >= p.minimumWork then InRedownload() else InPresync()
    {
      ok := ProcessHeaders(headers);
      if !ok { return; }
      if currentChainWork >= p.minimumWork {
        redownloadedHeaders := [];
        redownloadBufferLastHeight := p.startHeight;
        redownloadBufferFirstPrevHash := p.hash(p.start);
        redownloadBufferLastHash := p.hash(p.start);
        redownloadChainWork := p.startWork;
        downloadState := REDOWNLOAD;
      }
    }

    /** The link check and the loop of ValidateAndStoreHeadersCommitments. */
    method ProcessHeaders(headers: seq<Header>) returns (ok: bool)
      requires InPresync() && headers != [] && Continuous(p, headers)
      modifies this
      ensures ok == old(Presynced(p, presync + headers))
      ensures Presynced(p, presync) && accepted == [] && released == []
      ensures ok ==> presync == old(presync) + headers && InPresync()
    {
      ghost var before := presync;
      assert before + headers[..0] == before;
      if headers[0].hashPrevBlock != p.hash(lastHeaderReceived) {
        PresyncFails(p, before, headers, 0);
        return false;
      }
      for i := 0 to |headers|
        invariant InPresync() && presync == before + headers[..i]
      {
        ok := ValidateAndProcessSingleHeader(headers[i]);
        if !ok {
          PresyncFails(p, before, headers, i);
          return;
        }
        AppendOne(before, headers, i);
      }
      assert headers[..|headers|] == headers;
      ok := true;
    }

    /** Takes the next commitment off the queue and compares it with the header's. */
    method CheckCommitment(header: Header) returns (ok: bool)
      requires headerCommitments == Bits(p, presync, |accepted|) && CommitAt(p, |accepted|)
      modifies this`headerCommitments
      ensures ok == (|accepted| < |presync| && Bit(p, header) == Bit(p, presync[|accepted|]))
      ensures ok ==> headerCommitments == Bits(p, presync, |accepted| + 1)
    {
      if |headerCommitments| == 0 { return false; }
      var commitment := p.saltedBit(p.hash(header));
      var expectedCommitment := headerCommitments[0];
      headerCommitments := headerCommitments[1..];
      ok := commitment == expectedCommitment;
    }

    /** Adds the header's work and, below the threshold and at a commit height, checks its commitment. */
    method TrackHeader(header: Header) returns (ok: bool)
      requires Tracks(accepted) && redownloadBufferLastHeight == p.startHeight + |accepted|
      modifies this`headerCommitments, this`redownloadChainWork, this`processAllRemainingHeaders
      ensures ok == (CommitAt(p, |accepted|) && !Reached(p, accepted + [header])
                     ==> |accepted| < |presync| && Bit(p, header) == Bit(p, presync[|accepted|]))
      ensures ok ==> Tracks(accepted + [header])
    {
      var nextHeight := redownloadBufferLastHeight + 1;
      WorkExtend(p, accepted, header);
      redownloadChainWork := (redownloadChainWork + p.proof(header.nBits)) % TWO_TO_256;
      if redownloadChainWork >= p.minimumWork { processAllRemainingHeaders := true; }
      ok := true;
      if !processAllRemainingHeaders && nextHeight % HEADER_COMMITMENT_PERIOD == p.commitOffset {
        ok := CheckCommitment(header);
      }
    }

    /** The nBits of the last accepted header, or of the start: the buffer is empty only before the first. */
    method PreviousBits() returns (bits: nat)
      requires Buffers() && (accepted != [] ==> |released| < |accepted|)
      ensures bits == Last(p, accepted).nBits
    {
      bits := p.start.nBits;
      if redownloadedHeaders != [] {
        bits := redownloadedHeaders[|redownloadedHeaders| - 1].nBits;
      }
    }

    /** Stores a header that passed its checks. */
    method Store(header: Header)
      requires Buffers() && Tracks(accepted + [header]) && RedownloadHeaderOk(p, presync, accepted, header)
      modifies this
      ensures InRedownload() && accepted == old(accepted) + [header]
      ensures presync == old(presync) && released == old(released)
    {
      RedownloadedExtend(p, presync, accepted, header);
      BufferPush(p, accepted, header, released, redownloadedHeaders);
      ghost var extended := accepted + [header];
      redownloadedHeaders := redownloadedHeaders + [Compress(header)];
      redownloadBufferLastHeight := redownloadBufferLastHeight + 1;
      redownloadBufferLastHash := p.hash(header);
      accepted := extended;
    }

    /** The header's link and difficulty, the latter against the true predecessor's nBits. */
    method ConnectsLawfully(header: Header) returns (ok: bool)
      requires Buffers() && (accepted != [] ==> |released| < |accepted|)
      ensures ok == (&& header.hashPrevBlock == p.hash(Last(p, accepted))
                     && p.permitted(HeightOf(p, |accepted|), Last(p, accepted).nBits, header.nBits))
    {
      var nextHeight := redownloadBufferLastHeight + 1;
      if header.hashPrevBlock != redownloadBufferLastHash { return false; }
      var previousBits := PreviousBits();
      ok := p.permitted(nextHeight, previousBits, header.nBits);
    }

    method ValidateAndStoreRedownloadedHeader(header: Header) returns (ok: bool)
      requires InRedownload() && (accepted != [] ==> |released| < |accepted|)
      modifies this
      ensures ok == old(RedownloadHeaderOk(p, presync, accepted, header))
      ensures presync == old(presync) && released == old(released)
      ensures accepted == if ok then old(accepted) + [header] else old(accepted)
      ensures ok ==> InRedownload()
    {
      ghost var good := RedownloadHeaderOk(p, presync, accepted, header);
      ok := ConnectsLawfully(header);
      if ok { ok := TrackHeader(header); }
      assert ok == good;
      if ok { Store(header); }
    }

    /** Rebuilds the front of the buffer with the previous hash kept for it. */
    method PopFront() returns (full: Header)
      requires InRedownload() && redownloadedHeaders != []
      modifies this`redownloadedHeaders, this`redownloadBufferFirstPrevHash, this`released
      ensures InRedownload() && released == old(released) + [full]
      ensures |redownloadedHeaders| == old(|redownloadedHeaders|) - 1
    {
      full := redownloadedHeaders[0].GetFullHeader(redownloadBufferFirstPrevHash);
      BufferPop(p, accepted, presync, |released|, redownloadedHeaders);
      redownloadedHeaders := redownloadedHeaders[1..];
      redownloadBufferFirstPrevHash := p.hash(full);
      released := released + [full];
    }

    method PopHeadersReadyForAcceptance() returns (ret: seq<Header>)
      requires InRedownload()
      modifies this`redownloadedHeaders, this`redownloadBufferFirstPrevHash, this`released
      ensures InRedownload() && released == old(released) + ret
      ensures Reached(p, accepted) ==> released == accepted
      ensures !Reached(p, accepted) ==>
        |released| == if |accepted| - old(|released|) > REDOWNLOAD_BUFFER_SIZE
          then |accepted| - REDOWNLOAD_BUFFER_SIZE else old(|released|)
    {
      ret := [];
      while |redownloadedHeaders| > REDOWNLOAD_BUFFER_SIZE || (|redownloadedHeaders| > 0 && processAllRemainingHeaders)
        invariant InRedownload()
        invariant released == old(released) + ret
        invariant ret != [] ==> |redownloadedHeaders| >= REDOWNLOAD_BUFFER_SIZE || processAllRemainingHeaders
        decreases |redownloadedHeaders|
      {
        var full := PopFront();
        Assoc(old(released), ret, [full]);
        ret := ret + [full];
      }
    }

    /** The loop over a message in REDOWNLOAD. */
    method StoreHeaders(received: seq<Header>) returns (success: bool)
      requires InRedownload() && (accepted != [] ==> |released| < |accepted|) && received != []
      modifies this
      ensures success == old(Redownloaded(p, presync, accepted + received))
      ensures presync == old(presync) && released == old(released)
      ensures old(accepted) <= accepted && Redownloaded(p, presync, accepted)
      ensures success ==> InRedownload() && accepted == old(accepted) + received
    {
      ghost var before := accepted;
      assert before + received[..0] == before;
      for i := 0 to |received|
        invariant InRedownload() && presync == old(presync) && released == old(released)
        invariant accepted == before + received[..i] && (accepted != [] ==> |released| < |accepted|)
      {
        success := ValidateAndStoreRedownloadedHeader(received[i]);
        if !success {
          RedownloadFails(p, presync, before, received, i);
          return;
        }
        AppendOne(before, received, i);
      }
      assert received[..|received|] == received;
      success := true;
    }

    /** The REDOWNLOAD branch of ProcessNextHeaders. */
    method Redownload(received: seq<Header>) returns (success: bool, ret: seq<Header>)
      requires Valid() && downloadState == REDOWNLOAD && received != []
      modifies this
      ensures success == old(Redownloaded(p, presync, accepted + received))
      ensures presync == old(presync) && released == old(released) + ret
      ensures Redownloaded(p, presync, accepted) && ReleaseRule(p, accepted, released)
      ensures success ==> accepted == old(accepted) + received && InRedownload()
      ensures success ==> if Reached(p, accepted) then released == accepted else Valid()
      ensures !success ==> ret == []
    {
      ghost var before := accepted;
      success := StoreHeaders(received);
      ReleaseStays(p, before, accepted, released);
      ret := [];
      if success { ret := PopHeadersReadyForAcceptance(); }
    }

    /**
     One message.  The answer and the next state are exactly determined by the histories: success is
     the phase's acceptance of every header, and the sync goes on only while more is to come.
     */
    method ProcessNextHeaders(received: seq<Header>, fullHeadersMessage: bool) returns (r: ProcessingResult)
      requires Valid() && (downloadState == PRESYNC ==> Continuous(p, received))
      modifies this
      ensures Valid()
      ensures released == old(released) + r.powValidatedHeaders
      ensures received == [] || old(downloadState) == FINAL ==>
        r == ProcessingResult([], false, false) && downloadState == old(downloadState)
      ensures received != [] && old(downloadState) == PRESYNC ==>
        && r.success == old(Presynced(p, presync + received))
        && r.powValidatedHeaders == []
        && (r.success ==> presync == old(presync) + received)
        && downloadState == if !r.success then FINAL
                            else if Work(p, presync) >= p.minimumWork then REDOWNLOAD
                            else if fullHeadersMessage then PRESYNC else FINAL
      ensures received != [] && old(downloadState) == REDOWNLOAD ==>
        && r.success == old(Redownloaded(p, presync, accepted + received))
        && (r.success ==> accepted == old(accepted) + received)
        && (!r.success ==> r.powValidatedHeaders == [])
        && (r.success && Reached(p, accepted) ==> released == accepted)
        && downloadState == if r.success && !Reached(p, accepted) && fullHeadersMessage then REDOWNLOAD else FINAL
      ensures received != [] && old(downloadState) != FINAL ==> (r.requestMore <==> downloadState != FINAL)
    {
      r := ProcessingResult([], false, false);
      if received == [] || downloadState == FINAL { return; }
      if downloadState == PRESYNC {
        var ok := ValidateAndStoreHeadersCommitments(received);
        r := r.(success := ok, requestMore := ok && (fullHeadersMessage || downloadState == REDOWNLOAD));
      } else {
        var ok, ret := Redownload(received);
        var complete := redownloadedHeaders == [] && processAllRemainingHeaders;
        r := ProcessingResult(ret, ok, ok && !complete && fullHeadersMessage);
      }
      if !(r.success && r.requestMore) { Finalize(); }
    }
  }
}
