# Verified models of Bitgesell node logic

This project models eight parts of the Bitgesell node (a C++ full node descended from Bitcoin Core) in
Dafny 4.11 and proves what they promise. Each part is stated in the node's own terms: objects that the
code updates in place are classes with the same fields, loops are loops with invariants, and protocols
between threads or calls are state machines. Every method is proved against a function or predicate on
values, and the properties are lemmas about those. `dafny verify dfyconfig.toml` checks everything.

| part | files | main results |
|---|---|---|
| UTXO cache stack | `Coins.dfy`, `CoinsViews.dfy` | every run of calls on caches over caches acts as on flat maps; flags, memory totals and the FRESH exception |
| script check queue | `CheckQueue.dfy` | exact verdicts and counts under every interleaving, no lost wake-up, bounded rounds |
| address manager | `AddrTables.dfy`, `AddrSteps.dfy`, `AddrMoves.dfy`, `AddrOps.dfy`, `AddrCheck.dfy`, `CheckAddrman.dfy`, `AddrMan.dfy` | the whole consistency condition over every run of operations; no assertion fails; occupied tried slots stay occupied; exactly what the built-in check accepts |
| headers sync | `HeadersSync.dfy` | what is handed out is linked, lawful, committed to and buried; exact acceptance in both phases |
| block index and targets | `Bits.dfy`, `Chain.dfy`, `Limbs.dfy`, `Shifts.dfy`, `Multiplication.dfy`, `Division.dfy`, `CompactTarget.dfy`, `EquivalentTime.dfy` | skip-list ancestors, locators, limb arithmetic with exact product and division, compact targets, block proof |
| signature cache | `CuckooCache.dfy` | an insertion loses at most one live element, across any displacements |
| address encodings | `LinearFold.dfy`, `PolyMod.dfy`, `Orbits.dfy`, `Galois.dfy`, `ThreeErrors.dfy`, `Bech32.dfy`, `Digits.dfy`, `Base58.dfy` | round trips both ways with exact conditions, three errors anywhere within 1023 symbols and bursts of six detected, buffers always large enough |
| compact blocks | `Differential.dfy`, `BlockEncodings.dfy`, `Holding.dfy`, `ExtraPool.dfy`, `BlockRelay.dfy` | safe indexes for every message, exact statuses, what the pools leave in the slots read off their contents, exactly when a block sent in compact form is rebuilt |

Conventions. Hashes, salts, clocks, random draws, the difficulty rule, the block check and the order of
unordered containers are parameters and arbitrary. A thrown exception is a result (`threw`, `ok`, or an
`Option`). A failed assertion is ruled out by a precondition that is then proved at every call. Integers
are unbounded except where the code's width matters: limbs, carries, wrapping differences and 64-bit
counters are written out. `Basics.dfy` holds what several parts share.

The address manager's condition is a conjunction of eight parts, `Inv`, relative to two sets of entries
that an operation may hold outside both tables or leave uncounted for a moment; between operations both
are empty. Its operations are functions of a `State` in `AddrOps.dfy`, and the class in `AddrMan.dfy` is
proved to take the same steps on its fields.

## Model

| member | source | states |
|---|---|---|
| `Coins.RunRefinesFlat` | src/coins.cpp:43-296 | for a stack of any depth and every run of fetches, adds, spends, flushes, syncs, uncaches and new or dropped caches at its levels, no call throws and the view of every level equals the flat outpoint-to-coin map left by the same calls on plain maps |
| `Coins.StepRefinesFlat` | src/coins.cpp:43-296 | the same for one call at any level: caches above the level do not notice it, and calls that only move entries leave every view alone |
| `Coins.ApplyRefinesFlat` | src/coins.cpp:43-296 | one call on the top cache keeps the flag conditions, does not throw, and acts on the flat maps; Flush and Sync make the parent's view the child's |
| `Coins.FetchKeeps` | src/coins.cpp:43-58 | caching what the base answers keeps the flag conditions and changes no view |
| `Coins.FetchStack` | src/coins.cpp:43-67 | a fetch fills every level it passes and changes the view of none; afterwards the outpoint is cached or the base has no such coin |
| `Coins.AddKeeps` | src/coins.cpp:69-107 | adding an unspent coin, with overwriting announced where one exists, never throws, keeps the flag conditions and adds exactly that coin to the view |
| `Coins.SpendKeeps` | src/coins.cpp:128-148 | spending a fetched outpoint keeps the flag conditions and removes exactly that outpoint from the view, whether the entry is erased or kept as spent |
| `Coins.UncacheKeeps` | src/coins.cpp:283-296 | dropping an unmodified entry changes no view |
| `Coins.SyncKeeps` | src/coins.cpp:266-281 | after Sync the kept entries agree with the parent, which now has the child's view |
| `Coins.MergeTakesChildView` | src/coins.cpp:181-251 | writing a child cache into a parent cache: the FRESH-misapplied exception cannot occur, the parent's flags stay valid, and its view becomes the child's |
| `Coins.WriteBatchTakesChildView` | src/txdb.cpp:117-126 | writing a child cache into the database gives the database the child's view |
| `Coins.WriteToBase` | src/coins.cpp:181-251 | the same for whatever the cache is backed by, all other levels unchanged |
| `Coins.SoundIsSane` | src/coins.h:89-128 | in every state a run reaches, an entry passes the flag assertion, a non-DIRTY one agrees with the parent, and a FRESH one has no coin there |
| `Coins.SpendAnswerIsExact` | src/coins.cpp:128-148 | SpendCoin's answer says whether there was a coin to spend if and only if this cache does not hold the outpoint as already spent |
| `Coins.SpendAnswerCanMislead` | src/coins.cpp:128-148 | a second spend through a cache over an unspent coin is answered with true although the coin is gone |
| `CoinsViews.UsageOfUpdate` | src/coins.cpp:324-339 | the recomputed memory total changes by the old and the new coin of the entry that is replaced |
| `CoinsViews.CoinsViewDB.BatchWrite` | src/txdb.cpp:91-150 | the loop over a batch, in any order and committing partial batches whenever they grow too large, leaves exactly the stored coins with every DIRTY entry written or erased and the others ignored; the child's map is emptied entry by entry when erasing is asked for |
| `CoinsViews.CoinsViewCache.OverDatabase` | src/coins.cpp:34-37 | a new cache over a database is empty and consistent |
| `CoinsViews.CoinsViewCache.OverCache` | src/coins.cpp:34-37 | a new cache over another is empty, consistent and shows the other's view |
| `CoinsViews.CoinsViewCache.FetchCoin` | src/coins.cpp:43-58 | takes the whole stack of objects to the state the fetch specifies, memory totals exact at every level |
| `CoinsViews.CoinsViewCache.GetCoin` | src/coins.cpp:60-67 | answers exactly with the coin in the represented view, or nothing |
| `CoinsViews.CoinsViewCache.AddCoin` | src/coins.cpp:69-107 | throws exactly when a cached unspent coin would be overwritten unannounced, otherwise takes the specified step; on the throwing path the memory total is left too low by the heap memory of the cached coin |
| `CoinsViews.AddTwice` | src/coins.cpp:69-107 | adding an outpoint the cache already has, unannounced, throws and keeps the first coin; the memory total is exact afterwards if and only if that coin uses no heap memory |
| `CoinsViews.CoinsViewCache.SpendCoin` | src/coins.cpp:128-148 | takes the specified step and moves out exactly the coin the view had, or an empty one |
| `CoinsViews.CoinsViewCache.Uncache` | src/coins.cpp:283-296 | takes the specified step and keeps the memory total exact |
| `CoinsViews.CoinsViewCache.WriteEntry` | src/coins.cpp:183-246 | one entry of a batch: throws exactly in the FRESH-misapplied case, otherwise merges the entry with the memory total exact |
| `CoinsViews.CoinsViewCache.BatchWrite` | src/coins.cpp:181-251 | the loop over a batch, in any order, throws exactly when some entry is misapplied and otherwise leaves the merged cache |
| `CoinsViews.CoinsViewCache.Flush` | src/coins.cpp:253-264 | never throws on a consistent stack; the parent takes the view and the cache is empty |
| `CoinsViews.CoinsViewCache.Sync` | src/coins.cpp:266-281 | never throws on a consistent stack; the parent takes the view, spent entries go and the others lose their flags |
| `CoinsViews.CoinsViewCache.SanityCheck` | src/coins.cpp:324-339 | the recomputation of flags and memory total succeeds in every consistent state |
| `CoinsViews.CoinsViewCache.CallBelow` | src/coins.cpp:43-296 | a fetch, flush, sync or uncache made directly on a cache further down leaves the cache objects above it valid: each has taken the step of the same call one level deeper, and its view is unchanged |
| `CoinsViews.AllBatched` | src/txdb.cpp:117-148 | once every entry has been passed, the last batch on top of what was committed is the whole batch written |
| `CoinsViews.AllWritten` | src/coins.cpp:181-251 | the loop's progress condition with nothing left to write is the merged cache, and no entry was misapplied |
| `CheckQueue.EveryRunIsSafe` | src/checkqueue.h:66-173 | under every interleaving of master and workers, with any wake-ups: the outstanding count equals queued plus in-flight checks, the idle and total counts are exact, no wake-up is lost, and every finished Wait returned true exactly when all checks of its round are true |
| `CheckQueue.StepKeepsInv` | src/checkqueue.h:66-173 | every single step of every thread keeps these conditions |
| `CheckQueue.AddKeepsInv` | src/checkqueue.h:156-173 | queueing checks keeps them |
| `CheckQueue.NotifyKeepsInv` | src/checkqueue.h:168-172 | waking one, all or no worker after queueing keeps them |
| `CheckQueue.CriticalKeepsInv` | src/checkqueue.h:74-116 | a pass through the mutex, which settles the finished batch and then returns, blocks or takes a batch, keeps them |
| `CheckQueue.RunCheckKeepsInv` | src/checkqueue.h:117-121 | running or skipping one check outside the mutex keeps them |
| `CheckQueue.SettlePromise` | src/checkqueue.h:76-86 | folding a batch's result into the shared flag loses no failure and invents none |
| `CheckQueue.SomeThreadCanStep` | src/checkqueue.h:73-173 | whenever the master waits, or work is outstanding with workers present, some thread can step: no deadlock and no lost wake-up |
| `CheckQueue.OwnStepDecreases` | src/checkqueue.h:74-123 | each step of a thread either finishes the round with the exact verdict or lowers a measure |
| `CheckQueue.RoundsAreBounded` | src/checkqueue.h:74-123 | a round ends after at most as many thread steps as its measure, whatever the schedule |
| `CheckQueue.WaitCanFinish` | src/checkqueue.h:150-153 | from every reachable waiting state there is a run to the end of the round, and it records the verdict that all added checks are true exactly when they are |
| `AddrOps.EveryRunIsConsistent` | src/addrman.cpp:417-993 | every sequence of adds, successes, attempts, connections, service updates, listings, collision selections and resolutions on a new address manager keeps the whole consistency condition and the condition on collisions |
| `AddrOps.ApplyKeeps` | src/addrman.cpp:417-993 | one operation keeps the condition and leaves no tried slot empty that was occupied |
| `AddrOps.OccupiedForever` | src/addrman.cpp:492-549 | a tried slot once occupied is never empty after any further run |
| `AddrOps.EmptyIsConsistent` | src/addrman.cpp:110-126 | a new address manager satisfies the condition |
| `AddrSteps.SwapKeeps` | src/addrman.cpp:433-455 | exchanging two places keeps vRandom and the stored positions inverse, and all else |
| `AddrSteps.CreateKeeps` | src/addrman.cpp:417-431 | a new entry keeps everything, being in no table until it is given a slot |
| `AddrSteps.DeleteKeeps` | src/addrman.cpp:457-472 | the assertions of Delete hold for an entry without references outside the tried table, and the rest of the condition is kept |
| `AddrSteps.DropKeeps` | src/addrman.cpp:474-490 | emptying a new slot keeps every reference count equal to the number of slots |
| `AddrSteps.ReferenceKeeps` | src/addrman.cpp:611-614 | filling an empty slot at the hashed position keeps every reference count equal to the number of slots and at most eight |
| `AddrSteps.UntryKeeps` | src/addrman.cpp:523-527 | taking an entry out of its tried slot keeps the totals and per-network counts exact |
| `AddrSteps.RetryKeeps` | src/addrman.cpp:543-548 | putting a free entry into its empty tried slot keeps the totals and per-network counts exact |
| `AddrMoves.ClearKeeps` | src/addrman.cpp:474-490 | ClearNew never fails its assertions, nor those of the Delete it calls, and keeps the condition |
| `AddrMoves.UnlistEnds` | src/addrman.cpp:496-510 | after visiting all 1024 buckets from any start the reference count is zero, as MakeTried asserts |
| `AddrMoves.UnlistStops` | src/addrman.cpp:504 | leaving that loop as soon as the count is zero changes nothing |
| `AddrMoves.EvictKeeps` | src/addrman.cpp:516-543 | moving the occupant of a tried slot back to the new table never fails an assertion and frees exactly that slot |
| `AddrMoves.MakeTriedKeeps` | src/addrman.cpp:492-549 | none of MakeTried's assertions can fail, the condition holds again, the entry is in its tried slot, no other entry becomes tried and no tried slot becomes empty |
| `AddrOps.InsertKeeps` | src/addrman.cpp:600-624 | inserting into the slot of the source, overwriting or giving up, keeps the condition and leaves the tried table alone |
| `AddrOps.AddKeeps` | src/addrman.cpp:551-625 | AddSingle keeps the condition, the tried table and the noted collisions, for known and unknown addresses |
| `AddrOps.GoodKeeps` | src/addrman.cpp:627-680 | Good keeps the condition; when it reports true the entry is tried; without test-before-evict the noted collisions are unchanged |
| `AddrOps.NoteKeeps` | src/addrman.cpp:694-712 | updates of an entry's statistics keep the condition |
| `AddrOps.ShuffleReorders` | src/addrman.cpp:807-843 | the draws of GetAddr change nothing but the order in vRandom and the stored positions |
| `AddrOps.ResolveOneKeeps` | src/addrman.cpp:908-963 | handling one noted collision keeps the condition and forgets no other one |
| `AddrOps.NeverEmpty` | src/addrman.cpp:953-956 | while collisions are resolved, a noted id that still exists finds its tried slot occupied, so the branch for an empty slot is never taken |
| `AddrOps.SelectKeeps` | src/addrman.cpp:967-993 | a selected id that still exists hashes to a slot holding a known entry, so mapInfo is never indexed with -1 |
| `AddrCheck.TotalsAddUp` | src/addrman.cpp:1066-1067 | vRandom is as long as the new and tried totals together |
| `AddrCheck.EveryEntryIsPlaced` | src/addrman.cpp:1069-1140 | a new entry is in one to eight buckets, as many as its reference count, at its hashed position and nowhere else; a tried entry is in exactly its own tried slot and in no new slot |
| `AddrCheck.GoodTimes` | src/addrman.cpp:1072-1075 | the check's tests on times survive a success if and only if its time is positive, or zero for an entry that neither is nor becomes tried, or the address is unknown |
| `AddrCheck.TimeZeroIsNotFit` | src/addrman.cpp:627-680 | a success reported at time zero for a freshly added address fails the check: tried with no success on record |
| `AddrCheck.EveryRunIsTimely` | src/addrman.cpp:1072-1099 | a run whose successes and resolutions carry positive times, and whose attempts carry none that is negative, passes the tests on times throughout |
| `CheckAddrman.CheckAddrman` | src/addrman.cpp:1055-1158 | with its collecting loop, both table sweeps, decrements and early returns, returns 0 if and only if every one of its tests holds of the data: sizes, each entry, each slot, each reference count, the key and the networks on record |
| `CheckAddrman.CollectEntries` | src/addrman.cpp:1069-1100 | collects exactly the tried ids, the new ids with their counts and the counts of every network, or fails with the code of an entry that fails |
| `CheckAddrman.SweepTried` | src/addrman.cpp:1107-1122 | fails exactly when some slot holds something other than a tried entry at its own place, and otherwise leaves nothing over exactly when every tried entry is held |
| `CheckAddrman.SweepNew` | src/addrman.cpp:1124-1137 | the shrinking map ends empty without a failure exactly when every slot holds a new entry at its position for the bucket and every new entry is referenced as often as it says |
| `CheckAddrman.CheckNets` | src/addrman.cpp:1146-1155 | passes exactly when as many networks are on record as have entries and every one on record has exact counts |
| `CheckAddrman.ConsistentPasses` | src/addrman.cpp:1055-1158 | every state that satisfies the condition all runs keep, with times in order and a key, passes the check |
| `CheckAddrman.CheckIsExact` | src/addrman.cpp:1055-1158 | a state passes the check and has no stale address, no id from the future and no entry on a network without record, if and only if it satisfies the condition all runs keep and its times are in order |
| `CheckAddrman.OrderIsFull` | src/addrman.cpp:1092-1093 | entries that each hold their own place in a random order as long as their number leave no place over |
| `CheckAddrman.MissingNetworkPasses` | src/addrman.cpp:1146-1155 | the check compares only the number of networks on record: from any consistent state, replacing the record of a network that has entries by an empty record of another one still passes |
| `AddrMan.AddrManImpl.constructor` | src/addrman.cpp:110-126 | starts in the empty, consistent state |
| `AddrMan.AddrManImpl.SwapRandom` | src/addrman.cpp:433-455 | takes the state to the specified one; its assertions are what it requires |
| `AddrMan.AddrManImpl.Create` | src/addrman.cpp:417-431 | takes the state to the specified one under a new id |
| `AddrMan.AddrManImpl.Delete` | src/addrman.cpp:457-472 | takes the state to the specified one; its assertions are what it requires |
| `AddrMan.AddrManImpl.ClearNew` | src/addrman.cpp:474-490 | takes the state to the specified one, deleting an entry that loses its last slot |
| `AddrMan.AddrManImpl.LeaveNew` | src/addrman.cpp:496-506 | the loop with its early exit reaches the state in which all buckets were visited |
| `AddrMan.AddrManImpl.Evict` | src/addrman.cpp:516-543 | the occupant goes from its tried slot to its new slot, whatever was there deleted |
| `AddrMan.AddrManImpl.MakeTried` | src/addrman.cpp:492-549 | takes the state to the specified one from every consistent state |
| `AddrMan.AddrManImpl.AddSingle` | src/addrman.cpp:551-625 | takes a consistent state to the specified consistent one and reports whether a slot was given |
| `AddrMan.AddrManImpl.Good_` | src/addrman.cpp:627-680 | takes a consistent state to the specified consistent one and reports whether the entry was moved |
| `AddrMan.AddrManImpl.Attempt_` | src/addrman.cpp:694-712 | last try and, when counted since the last success anywhere, the attempt counters are updated; nothing else |
| `AddrMan.AddrManImpl.Connected_` | src/addrman.cpp:869-886 | the time seen is renewed only after twenty minutes; nothing else changes |
| `AddrMan.AddrManImpl.SetServices_` | src/addrman.cpp:888-902 | the services of a known address are replaced; nothing else changes |
| `AddrMan.AddrManImpl.GetAddr_` | src/addrman.cpp:807-843 | the list is what passes the filters among the places visited, at most the wanted number, and falls short of it only after all places were visited |
| `AddrMan.ListedOnce` | src/addrman.cpp:807-843 | no address is listed twice |
| `AddrMan.ListedAre` | src/addrman.cpp:807-843 | an address is listed if and only if a visited entry has it and passes the filters |
| `AddrMan.AddrManImpl.SelectTriedCollision_` | src/addrman.cpp:967-993 | answers with the occupant of the slot the chosen id collides at, or forgets an id that no longer exists |
| `AddrMan.AddrManImpl.ResolveCollision` | src/addrman.cpp:908-963 | one noted collision is erased, kept or resolved as specified, from and to a consistent state |
| `AddrMan.AddrManImpl.ResolveCollisions_` | src/addrman.cpp:904-965 | all noted collisions in turn, from and to a consistent state |
| `HeadersSync.HeadersSyncState.ProcessNextHeaders` | src/headerssync.cpp:69-138 | for every message: success, new phase, request for more and returned headers are exact in each phase; the returned headers extend what was handed out before; FINAL is absorbing |
| `HeadersSync.ReleasedIsGood` | src/headerssync.cpp:216-295 | all headers handed out over a sync are linked from the start, keep the difficulty rule, and match the stored bit of the presync header of the same height |
| `HeadersSync.RedownloadedIsGood` | src/headerssync.cpp:216-279 | the same for all headers accepted in the second phase |
| `HeadersSync.PresyncedIsGood` | src/headerssync.cpp:140-214 | headers accepted in the first phase are linked, keep the difficulty rule and never store more bits than allowed |
| `HeadersSync.PresyncIsShort` | src/headerssync.cpp:37-44 | a chain accepted in the first phase is shorter than the period times one more than the largest number of commitments, hence than six headers a second since the start plus one period, as long as the formula does not wrap |
| `HeadersSync.BitsAreDense` | src/headerssync.cpp:194-196 | any 606 neighbouring heights contain a commit height |
| `HeadersSync.MaxCommitmentsIsExact` | src/headerssync.cpp:44-44 | the bound means six blocks a second if and only if the clock is at most two hours behind the start's median time; otherwise the unsigned conversion makes it at least 2^63 / 606 |
| `HeadersSync.TwentyThreeCommitmentsOnTop` | src/headerssync.cpp:281-295 | a header handed out before the work suffices has at least 23 matching commitments above it |
| `HeadersSync.BufferPop` | src/headerssync.h:34-52 | a buffered header with the previous hash filled in from the buffer's start is the accepted header, field for field |
| `HeadersSync.HeadersSyncState.constructor` | src/headerssync.cpp:26-47 | a new sync is in the first phase with nothing accepted, no commitment and the work, height and header of the start |
| `HeadersSync.HeadersSyncState.ValidateAndStoreHeadersCommitments` | src/headerssync.cpp:140-176 | succeeds exactly when every header is lawful on top of the presync chain, and enters the second phase exactly when the work suffices |
| `HeadersSync.HeadersSyncState.ValidateAndProcessSingleHeader` | src/headerssync.cpp:178-214 | accepts exactly the lawful headers and appends the bit at commit heights |
| `HeadersSync.HeadersSyncState.ValidateAndStoreRedownloadedHeader` | src/headerssync.cpp:216-279 | accepts exactly the headers that connect, keep the difficulty rule against the true predecessor and match the commitment |
| `HeadersSync.HeadersSyncState.CheckCommitment` | src/headerssync.cpp:257-271 | passes exactly when the presync chain reaches this height and its bit agrees |
| `HeadersSync.HeadersSyncState.PreviousBits` | src/headerssync.cpp:230-236 | the difficulty taken from the buffer, or from the start when nothing was accepted, is the true predecessor's |
| `HeadersSync.HeadersSyncState.PopHeadersReadyForAcceptance` | src/headerssync.cpp:281-295 | hands out all accepted headers once the work suffices, and otherwise leaves the last 14441 in the buffer |
| `HeadersSync.HeadersSyncState.Finalize` | src/headerssync.cpp:52-64 | resets every field it names, leaves the three it does not, and what was handed out stays handed out |
| `Chain.BlockIndex.GetAncestor` | src/chain.cpp:93-118 | whatever mix of skip and parent links it follows, it ends and returns exactly the block of that height on the path to genesis, or nothing outside the range |
| `Chain.BlockIndex.BuildSkip` | src/chain.cpp:125-129 | the skip link is the ancestor at the skip height, and the tree stays a tree |
| `Chain.AddBlock` | src/chain.cpp:125-129 | a block linked by height and skip to its parent extends the tree |
| `Chain.PathOfAncestor` | src/chain.cpp:93-118 | the path of an ancestor is the beginning of the path |
| `Chain.InvertLowestOneClearsLowestBit` | src/chain.cpp:80 | clears exactly the lowest set bit of every positive number |
| `Chain.LocatorEntries` | src/chain.cpp:31-48 | the entries are the hashes at the locator heights of the path and end with genesis; none for no block |
| `Chain.LocatorHeightsDecrease` | src/chain.cpp:31-48 | locator heights strictly decrease |
| `Chain.LocatorLength` | src/chain.cpp:31-48 | a locator for a height of at most 10 has one entry per block; above that it has 11 entries plus the logarithm of the height less 9, rounded up |
| `Chain.ActiveChain.SetTip` | src/chain.cpp:21-29 | the vector becomes exactly the path to the new tip although only the differing part is rewritten |
| `Chain.ActiveChain.FindFork` | src/chain.cpp:60-69 | returns the highest block of the other branch that is in this chain |
| `Chain.LastCommonAncestor` | src/chain.cpp:165-180 | returns the highest block on both paths, or nothing when there is none |
| `Limbs.AddAssign` | src/arith_uint256.h:127-137 | limb-wise addition with carry is addition modulo the width |
| `Limbs.Increment` | src/arith_uint256.h:165-172 | increment is addition of one modulo the width |
| `Limbs.Complement` | src/arith_uint256.h:61-67 | the complement is the largest value less the number |
| `Limbs.Negate` | src/arith_uint256.h:69-76 | negation is subtraction from zero modulo the width |
| `Limbs.SubAssign` | src/arith_uint256.h:139-143 | subtraction by adding the negation is subtraction modulo the width |
| `Multiplication.MulAssign32` | src/arith_uint256.cpp:47-57 | multiplying by a 32-bit number limb by limb with a carry is multiplication modulo the width |
| `Multiplication.MulAssign` | src/arith_uint256.cpp:59-73 | the nested loops compute the product modulo the width, the operand itself included as second factor |
| `Multiplication.AddRow` | src/arith_uint256.cpp:64-69 | one row adds a limb times the other number, shifted, up to what is cut off at the width |
| `Multiplication.Fits64` | src/arith_uint256.cpp:51-66 | carry plus limb plus product of limbs never leaves 64 bits, and its upper half is a limb |
| `Shifts.ShiftLeftAssign` | src/arith_uint256.cpp:13-28 | shifting left multiplies by the power of two modulo the width, for every distance |
| `Shifts.ShiftRightAssign` | src/arith_uint256.cpp:30-45 | shifting right divides by the power of two, rounding down, for every distance |
| `Division.CompareTo` | src/arith_uint256.cpp:101-111 | comparison from the top limb orders the numbers |
| `Division.BitLength` | src/arith_uint256.cpp:155-168 | the position of the highest set bit plus one, zero for zero |
| `Division.DivAssign` | src/arith_uint256.cpp:75-99 | division by shifted subtraction leaves the exact quotient and the exact remainder; it fails exactly for a zero divisor |
| `CompactTarget.SetCompact` | src/arith_uint256.cpp:175-193 | decodes mantissa and exponent modulo 2^256, with the sign and overflow answers exact |
| `CompactTarget.OverflowIsExact` | src/arith_uint256.cpp:188-191 | the byte-wise overflow test holds if and only if the decoded value is at least 2^256 |
| `CompactTarget.GetCompact` | src/arith_uint256.cpp:195-216 | encodes every 256-bit number with its normalised mantissa and the sign bit only for a non-zero mantissa |
| `CompactTarget.CompactOfDecodes` | src/arith_uint256.cpp:195-216 | decoding the encoding gives the number with its low bytes dropped, never more than it |
| `CompactTarget.CompactIsLargestBelow` | src/arith_uint256.cpp:175-216 | it is the largest number with a compact form that is not above it |
| `CompactTarget.CompactMonotone` | src/arith_uint256.cpp:195-216 | the encoding is monotone |
| `CompactTarget.EqualTo` | src/arith_uint256.cpp:113-125 | equality with a 64-bit number looks at all limbs |
| `CompactTarget.GetBlockProof` | src/chain.cpp:131-144 | the work of a target is 2^256 divided by the target plus one, rounded down, and zero for a negative, overflowing or zero target |
| `CompactTarget.DivisorDoesNotWrap` | src/chain.cpp:139-143 | the target plus one never wraps to zero |
| `CompactTarget.ProofArith` | src/chain.cpp:139-143 | dividing the complement of the target and adding one is the division of 2^256 that does not fit |
| `EquivalentTime.GetBlockProofEquivalentTime` | src/chain.cpp:146-161 | the limb computation gives the signed number of seconds, rounded down and capped at the largest 64-bit integer, and fails exactly when the tip's bits stand for no work |
| `EquivalentTime.WrapShows` | src/chain.cpp:156-156 | the quotient of the wrapped product is that of the true one if and only if the product did not wrap, because no block proof exceeds half of 2^256 |
| `CuckooCache.Cache.Insert` | src/cuckoocache.h:399-447 | for every element: after the epoch check the live set is the old one plus the element less at most one element, across any chain of displacements; every live element is at one of its own eight places, and none but the default one is in two slots |
| `CuckooCache.Cache.Contains` | src/cuckoocache.h:476-486 | found exactly when the element is at one of its own eight places, which for all but the default element means in the table; asked to erase, it stops being live and nothing else changes, except that another copy of the default element may stay |
| `CuckooCache.Cache.EpochCheck` | src/cuckoocache.h:287-319 | entries of the old epoch become garbage exactly when the recent ones fill the epoch; live entries that stay are unchanged |
| `CuckooCache.Cache.constructor` | src/cuckoocache.h:337-350 | a new cache has at least two slots, all of them default, a depth limit that is the binary logarithm of the size, and epoch size and counter of 45 per cent in 32-bit arithmetic; it is usable, with every slot garbage and no live element, if and only if at most 4,294,967,288 slots are asked for |
| `CuckooCache.FlagsSuffice` | src/cuckoocache.h:64-71 | the flag bytes, counted in 32-bit arithmetic, hold a flag for every slot if and only if there are at most 4,294,967,288 slots; beyond that there is no byte at all |
| `CuckooCache.BitPackedFlags.BitSet` | src/cuckoocache.h:94-97 | sets one flag and no other |
| `CuckooCache.BitPackedFlags.BitUnset` | src/cuckoocache.h:105-108 | clears one flag and no other |
| `CuckooCache.FastRangeBound` | src/util/fastrange.h:18-22 | the scaled hash is below the range for every hash and range |
| `CuckooCache.OwnSlotsSuffice` | src/cuckoocache.h:476-486 | an element other than the default one is in the table if and only if it is at one of its own eight places; a live element always is |
| `CuckooCache.PlaceInGarbage` | src/cuckoocache.h:414-422 | filling a garbage slot adds exactly the element to the live set |
| `CuckooCache.Displace` | src/cuckoocache.h:437-445 | exchanging an element with a live one exchanges exactly these two in the live set |
| `CuckooCache.AgedLive` | src/cuckoocache.h:287-319 | marking old entries as garbage keeps exactly the recent ones live |
| `CuckooCache.FirstDisplacement` | src/cuckoocache.h:427-437 | the first displacement is at the second of the eight places |
| `CuckooCache.EmptyFindsDefault` | src/cuckoocache.h:476-486 | in an empty table the default element, and no other, is reported as contained |
| `CuckooCache.EpochIsNearlyHalf` | src/cuckoocache.h:346-346 | the epoch size is 45 per cent of the slots if and only if there are at most 95,443,717 of them, beyond which the 32-bit product wraps |
| `PolyMod.PolyMod` | src/bech32.cpp:133-219 | for every list of bytes, also bytes above 31, the loop computes the remainder that the step function folds |
| `PolyMod.BytesThenSymbols` | src/bech32.cpp:133-219 | after any bytes, five-bit values continue from the 30-bit remainder reached, by the step that is linear over the field |
| `PolyMod.AfterBytesBound` | src/bech32.cpp:181-219 | the remainder of any bytes fits 30 bits |
| `PolyMod.StepIsPolynomial` | src/bech32.cpp:182-215 | one step multiplies the remainder by x, adds the symbol and reduces modulo the generator x^6 + 29x^5 + 22x^4 + 20x^3 + 21x^2 + 29x + 18 over GF(32), coefficient by coefficient |
| `PolyMod.StepLinear` | src/bech32.cpp:196-215 | one step is linear over exclusive-or in remainder and symbol together |
| `PolyMod.RunXor` | src/bech32.cpp:133-219 | the remainder of a symbol-wise exclusive-or of lists is the exclusive-or of their remainders |
| `PolyMod.StepKeepsNonZero` | src/bech32.cpp:196-215 | a step on the zero symbol never takes a non-zero 30-bit remainder to zero |
| `PolyMod.BurstIsDetected` | src/bech32.cpp:129-219 | two lists of any length that differ, and only within six neighbouring symbols, have different remainders, whatever remainder they start from |
| `ThreeErrors.ThreeErrorsAreDetected` | src/bech32.cpp:143-145 | two lists of any length that differ, and in at most three symbols no two of which are 1023 or more places apart, have different remainders, whatever remainder they start from |
| `ThreeErrors.ThreeSymbolsShow` | src/bech32.cpp:143-145 | a list of zeros but for three symbols within 1023 places has remainder zero only if the three are zero |
| `ThreeErrors.StepEvaluates` | src/bech32.cpp:182-215 | at a root of the generator, one step multiplies the value of the remainder by the root and adds the symbol |
| `ThreeErrors.Root997` | src/bech32.cpp:172-175 | the 997th power of the primitive element is a root of the generator |
| `ThreeErrors.Root998` | src/bech32.cpp:172-175 | so is the 998th |
| `ThreeErrors.Root999` | src/bech32.cpp:172-175 | and the 999th |
| `ThreeErrors.EmbedIsRoot` | src/bech32.cpp:168-169 | the primitive element is a root of x^2 + 9x + 23 over GF(32) |
| `Galois.OrderIsFull` | src/bech32.cpp:170-171 | the primitive element has order 1023: its 1023rd power is one, and nothing but zero is fixed by a smaller one |
| `Galois.OnlyZeroReturns` | src/bech32.cpp:170-171 | for every exponent below 1023, by reduction to 341, 93 and 33 |
| `Orbits.ThreeTermsVanish` | src/bech32.cpp:175-177 | three terms at different powers whose sums vanish at three consecutive powers are all zero, which is the distance of four |
| `PolyMod.ChecksumVerifies` | src/bech32.cpp:344-356 | after any 30-bit remainder, appending the computed six symbols gives exactly the wanted constant |
| `PolyMod.ChecksumIsUnique` | src/bech32.cpp:344-356 | no other six symbols do |
| `Bech32.RevOfCharOf` | src/bech32.cpp:25-38 | the decoding table undoes the character set |
| `Bech32.CharOfRev` | src/bech32.cpp:25-38 | every character with a value is, in lower case, the character of that value |
| `Bech32.CheckCharacters` | src/bech32.cpp:290-312 | reports exactly the offending positions, and none if and only if all characters are printable and of one case |
| `Bech32.NoErrorsIsWellCased` | src/bech32.cpp:290-312 | no position is flagged if and only if the string is printable and not of mixed case |
| `Bech32.PreparePolynomialCoefficients` | src/bech32.cpp:314-327 | the two loops produce the high bits of the prefix as stored in a byte, whether char is signed or not, a zero, the low bits and then the values |
| `Bech32.VerifyChecksum` | src/bech32.cpp:330-342 | answers with the encoding whose constant the prefix bytes and values sum to, and with none otherwise |
| `Bech32.CreateChecksum` | src/bech32.cpp:345-356 | computes the six values that, after any prefix bytes and values, make the list sum to the constant |
| `Bech32.VerifiedEndsInChecksum` | src/bech32.cpp:330-356 | a list that verifies ends in the checksum of what precedes it |
| `Bech32.Encode` | src/bech32.cpp:361-374 | produces the specified string |
| `Bech32.Decode` | src/bech32.cpp:377-403 | for every string and limit, decodes exactly as specified |
| `Bech32.DecodeOfEncode` | src/bech32.cpp:361-403 | decoding an encoding gives back encoding, prefix and values if the prefix is non-empty and printable and the string fits the limit, and nothing otherwise |
| `Bech32.EncodeOfDecode` | src/bech32.cpp:361-403 | a string that decodes is, in lower case, the encoding of what it decodes to |
| `Bech32.NeighbouringErrorsAreDetected` | src/bech32.cpp:377-403 | two strings of one encoding that both decode and differ only within six neighbouring characters after their separators do not differ at all, letter case aside |
| `Bech32.ScatteredErrorsAreDetected` | src/bech32.cpp:377-403 | two strings of one encoding that both decode and differ in at most three characters after their separators, no two of them 1023 or more apart, do not differ at all, letter case aside |
| `Digits.DigitsAreUnique` | src/base58.cpp:77-86 | a number has one list of digits without leading zeros |
| `Base58.Absorb` | src/base58.cpp:103-113 | multiplying the buffer in place and adding a digit leaves the product, without a leading zero in the used part, and nothing to carry |
| `Base58.EncodeBufferSuffices` | src/base58.cpp:98-100 | 138 hundredths of the bytes plus one are enough base-58 digits, for every length |
| `Base58.DecodeBufferSuffices` | src/base58.cpp:53-55 | 733 thousandths of the characters plus one are enough bytes, for every length |
| `Base58.DigitOfCharOf` | src/base58.cpp:20-38 | the decoding table undoes the alphabet |
| `Base58.CharOfDigitOf` | src/base58.cpp:20-38 | the alphabet undoes the decoding table; no space or zero character has a digit |
| `Base58.RebaseBack` | src/base58.cpp:40-126 | changing base with leading zeros kept, there and back, is the identity on every digit list |
| `Base58.EncodeBase58` | src/base58.cpp:89-126 | computes the specified string in the estimated buffer |
| `Base58.ReadChar` | src/base58.cpp:58-73 | one character: refused exactly if it is no digit or makes the result too long, otherwise absorbed |
| `Base58.DecodeBase58` | src/base58.cpp:40-87 | for every string and limit, decodes exactly as specified, spaces, zero characters and early refusals included |
| `Base58.RebasedGrows` | src/base58.cpp:71 | more characters never decode to fewer bytes, so refusing early is right |
| `Base58.DecodeOfEncode` | src/base58.cpp:40-135 | an encoding with any spaces around it decodes to the bytes if there are at most the allowed number or none, and to nothing otherwise |
| `Base58.EncodeOfDecode` | src/base58.cpp:40-135 | a string that decodes is the encoding of its bytes with spaces around it |
| `Differential.DifferenceFormatter.Ser` | src/blockencodings.h:28-33 | writes the gap and advances, or fails exactly for a value that does not increase or is the largest 64-bit number |
| `Differential.DifferenceFormatter.Unser` | src/blockencodings.h:35-41 | reads the value a gap stands for, or fails exactly when gap, sum or target type overflows |
| `Differential.SerializeList` | src/blockencodings.h:22-42 | element by element, writes the gaps of the whole list or fails |
| `Differential.UnserializeList` | src/blockencodings.h:22-42 | element by element, reads the whole list or fails |
| `Differential.SerializesIncreasing` | src/blockencodings.h:28-33 | writing succeeds if and only if the list strictly increases and stays below the largest 64-bit number |
| `Differential.ReadsBack` | src/blockencodings.h:22-42 | a written list reads back as itself if all its values and gaps are in the reader's range, and fails otherwise |
| `Differential.WritesBack` | src/blockencodings.h:22-42 | whatever reads is strictly increasing and is written as the same stream |
| `Differential.IndexListsRoundTrip` | src/blockencodings.h:44-54 | every strictly increasing list of 16-bit indexes round-trips |
| `BlockEncodings.PlacedLeaves` | src/blockencodings.cpp:61-76 | accepted prefilled transactions fill one slot each, so as many stay empty as there are short ids |
| `BlockEncodings.PartiallyDownloadedBlock.PlacePrefilled` | src/blockencodings.cpp:61-76 | accepts exactly the well-formed lists, stopping at the first bad one, with every slot access in range |
| `BlockEncodings.MapShortIds` | src/blockencodings.cpp:83-101 | maps each short id to the empty slot of its rank, the scan for it never leaving the table, unless a bucket is too full |
| `BlockEncodings.WholeMap` | src/blockencodings.cpp:83-105 | the map has as many entries as there are ids if and only if no id repeats, and is then a bijection onto the empty slots |
| `BlockEncodings.PartiallyDownloadedBlock.PoolLookup` | src/blockencodings.cpp:113-127 | one lookup is the specified one: a first match fills its slot, a second empties it, later ones change nothing |
| `BlockEncodings.PartiallyDownloadedBlock.ExtraLookup` | src/blockencodings.cpp:142-162 | the same, except that the transaction already in the slot is no second match; the extra counter moves with the other one, as a 64-bit number |
| `BlockEncodings.PartiallyDownloadedBlock.MatchPool` | src/blockencodings.cpp:107-134 | the loop is the specified scan of the pool, early exit included, with every access in range |
| `BlockEncodings.PartiallyDownloadedBlock.MatchExtra` | src/blockencodings.cpp:136-168 | the same for the extra pool and its gaps; the extra counter changes by slots filled less slots cleared, modulo 2^64 |
| `BlockEncodings.MatchEnds` | src/blockencodings.cpp:107-168 | afterwards every slot holds its prefilled transaction, a candidate with its short id, or nothing; the count is exact; an empty slot of a new object has no candidate or at least two, early exits included |
| `ExtraPool.ScannedIsUnique` | src/blockencodings.cpp:107-168 | a message and the two pools determine the slots and both counters |
| `Holding.SlotsAreHeld` | src/blockencodings.cpp:107-168 | which slots are filled, by what, and mempool_count, read off the pools: of the candidates the early exits let the scans see, the first with the slot's short id fills it, if the mempool has no second one and no two witness hashes differ; otherwise the slot is empty |
| `Holding.ScansFollow` | src/blockencodings.cpp:107-168 | the same after each of the two scans, from any starting count |
| `ExtraPool.Changed` | src/blockencodings.cpp:136-168 | the extra pool takes the slots of exactly the ids that one mempool transaction has and an extra one of another witness hash, and adds those of exactly the ids that no mempool transaction has and extra ones of a single witness hash |
| `ExtraPool.ExtraCountIsExact` | src/blockencodings.cpp:136-168 | extra_count grows by the ids gained less the ids lost, both read off the pools, as a 64-bit number; it is right if and only if no more are lost than it held before and are gained, and for a new object, than are gained |
| `ExtraPool.NoCollisionNoWrap` | src/blockencodings.cpp:136-168 | no id is lost when no extra transaction has the short id of a different one in the pool |
| `ExtraPool.CollisionWraps` | src/blockencodings.cpp:142-162 | one short id, one pool transaction and a different extra one with that id: the message is accepted, the slot is empty and extra_count is 2^64 - 1 |
| `BlockEncodings.PartiallyDownloadedBlock.InitData` | src/blockencodings.cpp:50-173 | for every message, valid or malformed, the status is exact and all accesses stay in range; on success slots and both counters are exactly those of the two scans, and otherwise the counters are unchanged |
| `BlockEncodings.PartiallyDownloadedBlock.TakeTransactions` | src/blockencodings.cpp:189-199 | fills the block in order with available and missing transactions; with too few missing ones, what was moved out stays moved out |
| `BlockEncodings.PartiallyDownloadedBlock.FillBlock` | src/blockencodings.cpp:183-228 | the status is exact in all cases, and a completed object cannot be completed again |
| `BlockRelay.Compact` | src/blockencodings.cpp:20-30 | the coinbase is sent in full and every other transaction as its short id |
| `BlockRelay.CompactIsAccepted` | src/blockencodings.cpp:20-105 | the compact form of a block is accepted exactly if header and coinbase are not null, it is not too large, no bucket is too full and no two short ids agree |
| `BlockRelay.FilledIsBlock` | src/blockencodings.cpp:189-199 | slots that are empty or hold the block's own transaction are completed to the block by the missing transactions in order |
| `BlockRelay.CompletedIffOwn` | src/blockencodings.cpp:189-199 | for any slots: completed with what the sender sees missing, they give the block if and only if every filled slot holds the block's own transaction |
| `BlockRelay.BlockIsRebuilt` | src/blockencodings.cpp:20-206 | a receiver of the compact form, sent the transactions it lacks, completes the block in its order if and only if every short id of the block that the candidates hold is held by the block's own transaction; which ids those are depends on the two pools alone |
| `BlockRelay.OnlyOwnIsEnough` | src/blockencodings.cpp:107-168 | which is so in particular when no foreign transaction in the pools has a short id of the block |
| `BlockRelay.Relay` | src/blockencodings.cpp:20-228 | the three operations composed, for all pools and every outcome of the block check: the statuses are exact, and whenever the compact form is accepted the completed block is the block if and only if the same condition on the pools holds |

## Where the code differs from its comments, or answers more than it should

- The cuckoo cache's comment says that the first displacement is at the first of the eight places; the code
  takes the second (`FirstDisplacement`).
- Of the five flag combinations that `src/coins.h` lists, "spent, FRESH, not DIRTY" cannot arise over a base
  whose GetCoin returns only unspent coins; the model's condition excludes it.
- SpendCoin answers true for an outpoint that its cache already holds as spent (`SpendAnswerIsExact`).
- AddCoin lowers the memory total before it throws for an unannounced overwrite, so the total is too low
  afterwards when the cached coin uses heap memory, and exact when it uses none (`AddTwice`).
- The branch of ResolveCollisions for a collision that "is not actually a collision anymore" is never taken
  (`NeverEmpty`).
- A success at time zero makes the address manager's own check fail (`GoodTimes` gives the exact condition).
- Base58 decoding returns the empty result even for a negative maximum length, since no length is compared
  when nothing is decoded (`DecodeOfEncode`).
- In InitData, extra_count is also lowered when the transaction that an extra one displaces came from the
  mempool, so it can wrap below zero (`CollisionWraps` is such an input, `ExtraCountIsExact` the exact
  condition on the two pools); it is only logged.
- The address manager's check compares how many networks are on record, not which (`MissingNetworkPasses`).
- The signature cache reports its default element as contained before anything was inserted
  (`EmptyFindsDefault`), its epoch is 45 per cent only up to 95,443,717 slots (`EpochIsNearlyHalf`), and from
  4,294,967,289 slots on it has no flags at all (`FlagsSuffice`).
- The bound on header commitments wraps to an enormous one when the clock is more than two hours behind the
  start of the sync (`MaxCommitmentsIsExact`).
- When FillBlock runs out of missing transactions, the slots before that point have been moved out while the
  object stays usable (`TakeTransactions`).

## Left out

- Address manager: Select, the serialised formats, the lookups GetEntries, FindAddressEntry and Size, and locking; Select ends only with probability one, the others add no harder property.
- AddrMan.AddrManImpl.ResolveCollisions_: the order of the set is a parameter; any order of its members is covered, not only the ascending one.
- AddrMan.AddrManImpl.AddSingle: the draw against further references is a boolean parameter; its probability is not modelled.
- UTXO caches: the best-block hash and the markers for an interrupted write, AccessCoin's reference, EmplaceCoinInternalDANGER, AddCoins, HaveInputs and memory pools; a base whose read or batch write fails, for which the code declares the state undefined.
- CoinsViews.CoinsViewCache.AddCoin: an unspent coin is required, as the code asserts.
- Check queue: the stop request and the control object around a queue; after a stop request no verdict is promised.
- Headers sync: the locator for the next request.
- HeadersSync.HeadersSyncState.ProcessNextHeaders: in the first phase received headers are required to connect to each other, as the caller checks before the call; heights are unbounded where the code uses 64-bit numbers.
- Chain: FindEarliestAtLeast and the skipping by time; they add easier members.
- Chain.LocatorEntries: the step is unbounded where the code uses an int, which would overflow only beyond 2^31 blocks.
- Arithmetic: the bitwise operators and decrement, conversion to hexadecimal and to floating point, and the relation operators built on CompareTo.
- CuckooCache.Cache.constructor: the depth limit is the exact integer logarithm where the code rounds one in floating point; atomicity and memory order of the flags are not modelled.
- ThreeErrors.ThreeErrorsAreDetected: that any four errors within 89 symbols are detected is not stated; it rests on a fixed search in GF(1024), not on an argument for all lengths.
- Bech32.Encode: values are below 32, since others would index outside the character set. LocateErrors is not part of this model.
- Base58.EncodeBase58: sizes are unbounded where the code uses int; the loop that skips leading zero digits is absent because the used part never starts with one. The variants with a hash appended are not part of this model.
- Compact blocks: the bytes of compact sizes and of the messages, GetShortID's hash, and CheckBlock, whose outcome is a parameter.
- BlockEncodings.PartiallyDownloadedBlock.InitData: the number of elements in a hash bucket is arbitrary; nothing is claimed about how often it is too large.
