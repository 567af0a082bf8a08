/**
 The operations of the address manager as functions of its state (src/addrman.cpp), and the theorem
 that every run of them keeps the consistency condition.
 */
module AddrOps {
  import opened Basics
  import opened AddrTables
  import opened AddrSteps
  import opened AddrMoves

  /** An announced address: its service key, its host without the port, and what was said of it. */
  datatype Address = Address(service: nat, host: nat, time: int, services: set<nat>, routable: bool)

  const MINUTE := 60
  const HOUR := 3600
  const DAY := 86400

  /** Whether the statistics of an entry are so bad that it may be overwritten. */
  predicate IsTerrible(info: Info, now: int) {
    if now - info.lastTry <= MINUTE then false
    else if info.time > now + 10 * MINUTE then true
    else if now - info.time > 30 * DAY then true
    else if info.lastSuccess == 0 && info.attempts >= 3 then true
    else now - info.lastSuccess > 7 * DAY && info.attempts >= 10
  }

  // ---------- adding ----------

  /** Whether an entry of the new table at the wanted slot gives way. */
  predicate GivesWay(s: State, id: nat, b: nat, i: nat, now: int)
    requires id in s.mapInfo
  {
    At(s.vvNew, b, i) == -1 ||
    (&& At(s.vvNew, b, i) >= 0 && At(s.vvNew, b, i) in s.mapInfo
     && var existing := s.mapInfo[At(s.vvNew, b, i)];
        IsTerrible(existing, now) || (existing.refCount > 1 && s.mapInfo[id].refCount == 0))
  }

  /** Give an entry the new slot its source hashes to, unless that is taken. */
  function Inserted(h: Hash, s: State, id: nat, source: nat, now: int): (State, bool)
    requires CanInsert(h, s, id, source, now)
  {
    var b := NewBucket(h, s.mapInfo[id].addr, source);
    var i := NewPos(h, s.mapInfo[id].addr, b);
    if At(s.vvNew, b, i) == id then (s, false)
    else if GivesWay(s, id, b, i, now) then (Referenced(Cleared(h, s, b, i), id, b, i), true)
    else if s.mapInfo[id].refCount == 0 then (Deleted(h, s, id), false)
    else (s, false)
  }

  predicate CanInsert(h: Hash, s: State, id: nat, source: nat, now: int) {
    && id in s.mapInfo
    && var b := NewBucket(h, s.mapInfo[id].addr, source);
    && var i := NewPos(h, s.mapInfo[id].addr, b);
    && (At(s.vvNew, b, i) != id && GivesWay(s, id, b, i, now) ==>
          CanClear(s, b, i) && CanReference(h, Cleared(h, s, b, i), id, b, i))
    && (At(s.vvNew, b, i) != id && !GivesWay(s, id, b, i, now) && s.mapInfo[id].refCount == 0 ==> CanDelete(s, id))
  }

  /** Entries may go, keep their address and source, and leave the rest of the state alone. */
  ghost predicate Quiet(s: State, t: State) {
    Persists(s.mapInfo, t.mapInfo) && t.vvTried == s.vvTried && t.collisions == s.collisions && t.idCount == s.idCount
  }

  lemma ClearForInsert(h: Hash, s: State, id: nat, b: nat, i: nat, loose: set<nat>)
    requires Inv(h, s, loose, {}) && id in s.mapInfo && !s.mapInfo[id].inTried
    requires s.mapInfo[id].refCount < NEW_BUCKETS_PER_ADDRESS && At(s.vvNew, b, i) != id
    requires b < NEW_BUCKETS && i == NewPos(h, s.mapInfo[id].addr, b)
    ensures CanClear(s, b, i) && CanReference(h, Cleared(h, s, b, i), id, b, i)
    ensures Inv(h, Cleared(h, s, b, i), loose, {}) && Quiet(s, Cleared(h, s, b, i))
  {
    ClearKeeps(h, s, b, i, loose, {});
    ClearPersists(h, s, b, i);
    ClearLeavesOthers(h, s, b, i, id);
    InvShape(h, Cleared(h, s, b, i), loose, {});
  }

  /** Clearing a slot touches no entry but the one in it, apart from random positions. */
  lemma ClearLeavesOthers(h: Hash, s: State, b: nat, i: nat, id: nat)
    requires CanClear(s, b, i) && id in s.mapInfo && At(s.vvNew, b, i) != id
    ensures var t := Cleared(h, s, b, i);
      && id in t.mapInfo && t.mapInfo[id].refCount == s.mapInfo[id].refCount
      && t.mapInfo[id].inTried == s.mapInfo[id].inTried
      && t.mapInfo[id].addr == s.mapInfo[id].addr
  {
  }

  lemma PersistTwice(m: map<nat, Info>, n: map<nat, Info>, r: map<nat, Info>)
    requires Persists(m, n) && Persists(n, r)
    ensures Persists(m, r)
  {
  }

  lemma OverwriteKeeps(h: Hash, s: State, id: nat, b: nat, i: nat, loose: set<nat>)
    requires Inv(h, s, loose, {}) && id in s.mapInfo && !s.mapInfo[id].inTried
    requires s.mapInfo[id].refCount < NEW_BUCKETS_PER_ADDRESS && At(s.vvNew, b, i) != id
    requires b < NEW_BUCKETS && i == NewPos(h, s.mapInfo[id].addr, b)
    ensures CanClear(s, b, i) && CanReference(h, Cleared(h, s, b, i), id, b, i)
    ensures var t := Referenced(Cleared(h, s, b, i), id, b, i); Inv(h, t, loose - {id}, {}) && Quiet(s, t)
  {
    ClearForInsert(h, s, id, b, i, loose);
    var c := Cleared(h, s, b, i);
    ReferenceKeeps(h, c, id, b, i, loose, {});
    PersistTwice(s.mapInfo, c.mapInfo, Referenced(c, id, b, i).mapInfo);
  }

  lemma WithdrawKeeps(h: Hash, s: State, id: nat)
    requires Inv(h, s, {id}, {})
    ensures CanDelete(s, id) && Inv(h, Deleted(h, s, id), {}, {}) && Quiet(s, Deleted(h, s, id))
  {
    DeleteKeeps(h, s, id, {id}, {});
    assert {id} - {id} == {};
    DeletePersists(h, s, id);
  }

  lemma InsertKeeps(h: Hash, s: State, id: nat, source: nat, now: int, loose: set<nat>)
    requires Inv(h, s, loose, {}) && id in s.mapInfo && !s.mapInfo[id].inTried
    requires s.mapInfo[id].refCount < NEW_BUCKETS_PER_ADDRESS
      && loose == (if s.mapInfo[id].refCount == 0 then {id} else {})
    ensures CanInsert(h, s, id, source, now)
    ensures var t := Inserted(h, s, id, source, now).0; Inv(h, t, {}, {}) && Quiet(s, t)
  {
    var b := NewBucket(h, s.mapInfo[id].addr, source);
    var i := NewPos(h, s.mapInfo[id].addr, b);
    assert loose - {id} == {};
    if At(s.vvNew, b, i) == id {
      OccupantIsReferenced(h, s, b, i, loose, {});
    } else if GivesWay(s, id, b, i, now) {
      OverwriteKeeps(h, s, id, b, i, loose);
    } else if s.mapInfo[id].refCount == 0 {
      WithdrawKeeps(h, s, id);
    }
  }

  /** A known entry after a new announcement: time and services brought up to date. */
  function Refreshed(info: Info, addr: Address, penalty: int, now: int): Info {
    var interval := if now - addr.time < DAY then HOUR else DAY;
    var time := if info.time < addr.time - interval - penalty then Max(0, addr.time - penalty) else info.time;
    info.(time := time, services := info.services + addr.services)
  }

  /** Whether a known entry may get another new slot; `lucky` is the outcome of the draw. */
  predicate WantsSlot(info: Info, addr: Address, lucky: bool) {
    && addr.time > info.time && !info.inTried && info.refCount != NEW_BUCKETS_PER_ADDRESS
    && (info.refCount > 0 ==> lucky)
  }

  function Updated(s: State, id: nat, info: Info): State {
    s.(mapInfo := s.mapInfo[id := info])
  }

  /** The state in which AddSingle tries to insert, and the id it inserts, if it does. */
  function Prepared(h: Hash, s: State, addr: Address, source: nat, penalty: int, now: int,
                    lucky: bool): (State, bool, nat)
    requires addr.service in s.mapAddr ==> s.mapAddr[addr.service] in s.mapInfo
  {
    var p := if addr.host == source then 0 else penalty;
    if addr.service in s.mapAddr then
      var id := s.mapAddr[addr.service];
      var info := Refreshed(s.mapInfo[id], addr, p, now);
      (Updated(s, id, info), WantsSlot(info, addr, lucky), id)
    else
      (Created(h, s, addr.service, source, Max(0, addr.time - p), addr.services), true, s.idCount)
  }

  function AddedOne(h: Hash, s: State, addr: Address, source: nat, penalty: int, now: int, lucky: bool): (State, bool)
    requires Inv(h, s, {}, {})
  {
    if !addr.routable then (s, false)
    else
      AddIsSafe(h, s, addr, source, penalty, now, lucky);
      var (t, insert, id) := Prepared(h, s, addr, source, penalty, now, lucky);
      if insert then Inserted(h, t, id, source, now) else (t, false)
  }

  /** New ids are at least the old count, and old entries keep their address. */
  ghost predicate Grows(s: State, t: State) {
    && s.idCount <= t.idCount
    && (forall x :: x in t.mapInfo && x in s.mapInfo ==> t.mapInfo[x].addr == s.mapInfo[x].addr)
    && (forall x :: x in t.mapInfo && x !in s.mapInfo ==> s.idCount <= x)
  }

  lemma FindIsSafe(h: Hash, s: State, service: nat)
    requires Inv(h, s, {}, {}) && service in s.mapAddr
    ensures s.mapAddr[service] in s.mapInfo && s.mapInfo[s.mapAddr[service]].addr == service
  {
    assert Holds(Addrs, h, s, {}, {});
  }

  /** An update of times, services and attempts keeps the condition. */
  lemma UpdateKeeps(h: Hash, s: State, id: nat, info: Info)
    requires Inv(h, s, {}, {}) && id in s.mapInfo && SameEntry(s.mapInfo[id], info)
    ensures Inv(h, Updated(s, id, info), {}, {})
  {
    KeepInv(h, s, Updated(s, id, info), {}, {});
  }

  lemma PrepareKeeps(h: Hash, s: State, addr: Address, source: nat, penalty: int, now: int, lucky: bool)
    requires Inv(h, s, {}, {})
    ensures addr.service in s.mapAddr ==> s.mapAddr[addr.service] in s.mapInfo
    ensures var (t, insert, id) := Prepared(h, s, addr, source, penalty, now, lucky);
      && id in t.mapInfo && Grows(s, t) && t.vvTried == s.vvTried && t.collisions == s.collisions
      && (insert ==> !t.mapInfo[id].inTried && t.mapInfo[id].refCount < NEW_BUCKETS_PER_ADDRESS
                     && Inv(h, t, if t.mapInfo[id].refCount == 0 then {id} else {}, {}))
      && (!insert ==> Inv(h, t, {}, {}))
  {
    var p := if addr.host == source then 0 else penalty;
    if addr.service in s.mapAddr {
      FindIsSafe(h, s, addr.service);
      var id := s.mapAddr[addr.service];
      var info := Refreshed(s.mapInfo[id], addr, p, now);
      UpdateKeeps(h, s, id, info);
      assert Holds(Status, h, s, {}, {});
    } else {
      CreateKeeps(h, s, addr.service, source, Max(0, addr.time - p), addr.services, {}, {});
      assert {} + {s.idCount} == {s.idCount};
      assert Holds(Ids, h, s, {}, {});
    }
  }

  lemma AddIsSafe(h: Hash, s: State, addr: Address, source: nat, penalty: int, now: int, lucky: bool)
    requires Inv(h, s, {}, {})
    ensures addr.service in s.mapAddr ==> s.mapAddr[addr.service] in s.mapInfo
    ensures var (t, insert, id) := Prepared(h, s, addr, source, penalty, now, lucky);
      insert ==> CanInsert(h, t, id, source, now) && Inv(h, Inserted(h, t, id, source, now).0, {}, {})
                 && Quiet(t, Inserted(h, t, id, source, now).0)
  {
    PrepareKeeps(h, s, addr, source, penalty, now, lucky);
    var (t, insert, id) := Prepared(h, s, addr, source, penalty, now, lucky);
    if insert {
      InsertKeeps(h, t, id, source, now, if t.mapInfo[id].refCount == 0 then {id} else {});
    }
  }

  /** Adding an address keeps the condition and leaves the tried table and the collisions alone. */
  lemma AddKeeps(h: Hash, s: State, addr: Address, source: nat, penalty: int, now: int, lucky: bool)
    requires Inv(h, s, {}, {})
    ensures var t := AddedOne(h, s, addr, source, penalty, now, lucky).0;
      Inv(h, t, {}, {}) && Grows(s, t) && t.vvTried == s.vvTried && t.collisions == s.collisions
  {
    if addr.routable {
      PrepareKeeps(h, s, addr, source, penalty, now, lucky);
      AddIsSafe(h, s, addr, source, penalty, now, lucky);
      var (t, insert, id) := Prepared(h, s, addr, source, penalty, now, lucky);
      if insert {
        QuietGrows(s, t, Inserted(h, t, id, source, now).0);
      }
    }
  }

  lemma QuietGrows(s: State, t: State, r: State)
    requires Grows(s, t) && Quiet(t, r)
    ensures Grows(s, r)
  {
  }

  // ---------- a successful connection ----------

  function Succeeded(info: Info, time: int): Info {
    info.(lastSuccess := time, lastTry := time, attempts := 0)
  }

  /** The entry's own tried slot. */
  function OwnTried(h: Hash, s: State, id: nat): int
    requires id in s.mapInfo
  {
    At(s.vvTried, TriedBucket(h, s.mapInfo[id].addr), TriedPos(h, s.mapInfo[id].addr))
  }

  function Noted(collisions: set<nat>, id: nat): set<nat> {
    if |collisions| < TRIED_COLLISION_SIZE then collisions + {id} else collisions
  }

  /** A connection to an address succeeded: note a collision, or move the entry to the tried table. */
  function MarkedGood(h: Hash, s: State, service: nat, test: bool, time: int): (State, bool)
    requires Inv(h, s, {}, {})
  {
    var l := s.(lastGood := time);
    if service !in s.mapAddr then (l, false)
    else
      FindIsSafe(h, s, service);
      var id := s.mapAddr[service];
      var t := Updated(l, id, Succeeded(s.mapInfo[id], time));
      if s.mapInfo[id].inTried then (t, false)
      else if s.mapInfo[id].refCount == 0 then (t, false)
      else if test && OwnTried(h, t, id) != -1 then (t.(collisions := Noted(t.collisions, id)), false)
      else
        MarkIsSafe(h, s, id, time);
        (MadeTried(h, t, id), true)
  }

  lemma MarkIsSafe(h: Hash, s: State, id: nat, time: int)
    requires Inv(h, s, {}, {}) && id in s.mapInfo
    ensures var t := Updated(s.(lastGood := time), id, Succeeded(s.mapInfo[id], time));
      Inv(h, t, {}, {}) && (s.mapInfo[id].refCount > 0 ==> CanMakeTried(h, t, id))
  {
    var t := Updated(s.(lastGood := time), id, Succeeded(s.mapInfo[id], time));
    KeepInv(h, s, t, {}, {});
    if s.mapInfo[id].refCount > 0 {
      MakeTriedKeeps(h, t, id);
    }
  }

  /** Every id in the set that still exists hashes to an occupied tried slot; there are at most ten. */
  ghost predicate CollisionsOk(h: Hash, s: State) {
    && |s.collisions| <= TRIED_COLLISION_SIZE
    && (forall id :: id in s.collisions ==> id < s.idCount && (id in s.mapInfo ==> OwnTried(h, s, id) != -1))
  }

  /** The two conditions together: what holds between any two operations. */
  ghost predicate Consistent(h: Hash, s: State) {
    Inv(h, s, {}, {}) && CollisionsOk(h, s)
  }

  /** Entries that keep their address and a table that keeps its slots occupied keep the collisions. */
  lemma CollisionsKept(h: Hash, s: State, t: State)
    requires CollisionsOk(h, s) && Grows(s, t) && StaysOccupied(s.vvTried, t.vvTried) && t.collisions <= s.collisions
    ensures CollisionsOk(h, t)
  {
    SubsetIsNoLarger(t.collisions, s.collisions);
    forall id | id in t.collisions ensures id < t.idCount && (id in t.mapInfo ==> OwnTried(h, t, id) != -1) {
      if id in t.mapInfo {
        assert id in s.mapInfo;
      }
    }
  }

  lemma MarkMoves(h: Hash, s: State, id: nat, time: int)
    requires Inv(h, s, {}, {}) && id in s.mapInfo && s.mapInfo[id].refCount > 0
    ensures var t := Updated(s.(lastGood := time), id, Succeeded(s.mapInfo[id], time));
      && CanMakeTried(h, t, id)
      && var r := MadeTried(h, t, id);
      && Inv(h, r, {}, {}) && Grows(s, r) && StaysOccupied(s.vvTried, r.vvTried) && r.collisions == s.collisions
      && id in r.mapInfo && r.mapInfo[id].inTried
  {
    MarkIsSafe(h, s, id, time);
    var t := Updated(s.(lastGood := time), id, Succeeded(s.mapInfo[id], time));
    MakeTriedKeeps(h, t, id);
  }

  /** A success keeps everything; when it reports true the entry is now tried. */
  lemma GoodKeeps(h: Hash, s: State, service: nat, test: bool, time: int)
    requires Consistent(h, s)
    ensures var (r, moved) := MarkedGood(h, s, service, test, time);
      && Consistent(h, r) && Grows(s, r) && StaysOccupied(s.vvTried, r.vvTried)
      && (moved ==> service in s.mapAddr && s.mapAddr[service] in r.mapInfo && r.mapInfo[s.mapAddr[service]].inTried)
      && (!test ==> r.collisions == s.collisions)
  {
    var (r, moved) := MarkedGood(h, s, service, test, time);
    if service !in s.mapAddr {
      KeepInv(h, s, r, {}, {});
    } else {
      FindIsSafe(h, s, service);
      var id := s.mapAddr[service];
      MarkIsSafe(h, s, id, time);
      if moved {
        MarkMoves(h, s, id, time);
        CollisionsKept(h, s, r);
      } else {
        GoodNotes(h, s, id, time, r);
      }
    }
  }

  lemma GoodNotes(h: Hash, s: State, id: nat, time: int, r: State)
    requires Consistent(h, s) && id in s.mapInfo
    requires var t := Updated(s.(lastGood := time), id, Succeeded(s.mapInfo[id], time));
      r == t || (r == t.(collisions := Noted(t.collisions, id)) && OwnTried(h, t, id) != -1)
    ensures Consistent(h, r) && Grows(s, r) && r.vvTried == s.vvTried
  {
    KeepInv(h, s, r, {}, {});
    assert Holds(Ids, h, s, {}, {});
  }

  // ---------- statistics ----------

  function Tried(info: Info, countFailure: bool, lastGood: int, time: int): Info {
    var i := info.(lastTry := time);
    if countFailure && i.lastCountAttempt < lastGood then i.(lastCountAttempt := time, attempts := i.attempts + 1)
      else i
  }

  function Seen(info: Info, time: int): Info {
    if time - info.time > 20 * MINUTE then info.(time := time) else info
  }

  /** Statistics of one entry replaced, when the address is known. */
  datatype Note = Attempt(countFailure: bool, time: int) | Connected(time: int) | SetServices(services: set<nat>)

  function NotedInfo(info: Info, lastGood: int, note: Note): Info {
    match note
    case Attempt(countFailure, time) => Tried(info, countFailure, lastGood, time)
    case Connected(time) => Seen(info, time)
    case SetServices(services) => info.(services := services)
  }

  function WithNote(h: Hash, s: State, service: nat, note: Note): State
    requires Inv(h, s, {}, {})
  {
    if service !in s.mapAddr then s
    else
      FindIsSafe(h, s, service);
      var id := s.mapAddr[service];
      Updated(s, id, NotedInfo(s.mapInfo[id], s.lastGood, note))
  }

  lemma NoteKeeps(h: Hash, s: State, service: nat, note: Note)
    requires Consistent(h, s)
    ensures Consistent(h, WithNote(h, s, service, note)) && Grows(s, WithNote(h, s, service, note))
  {
    if service in s.mapAddr {
      FindIsSafe(h, s, service);
      var id := s.mapAddr[service];
      UpdateKeeps(h, s, id, NotedInfo(s.mapInfo[id], s.lastGood, note));
    }
  }

  // ---------- listing addresses ----------

  /** The random order after `n` draws of GetAddr, each swapping a later position to the front. */
  function Shuffled(h: Hash, s: State, draws: seq<nat>, n: nat): (t: State)
    requires Inv(h, s, {}, {}) && n <= |draws| && n <= |s.vRandom|
    ensures Inv(h, t, {}, {}) && |t.vRandom| == |s.vRandom|
    decreases n
  {
    if n == 0 then s else
      var t := Shuffled(h, s, draws, n - 1);
      ShuffleIsSafe(h, t, n - 1, Drawn(|t.vRandom|, draws, n - 1));
      Swapped(t, n - 1, Drawn(|t.vRandom|, draws, n - 1))
  }

  /** The position drawn for place `n`: one of those from `n` on. */
  function Drawn(size: nat, draws: seq<nat>, n: nat): (q: nat)
    requires n < |draws| && n < size
    ensures n <= q < size
  {
    n + draws[n] % (size - n)
  }

  lemma ShuffleIsSafe(h: Hash, t: State, p: nat, q: nat)
    requires Inv(h, t, {}, {}) && p < |t.vRandom| && q < |t.vRandom|
    ensures CanSwap(t, p, q) && Inv(h, Swapped(t, p, q), {}, {}) && |Swapped(t, p, q).vRandom| == |t.vRandom|
  {
    assert Holds(Random, h, t, {}, {});
    SwapKeeps(h, t, p, q, {}, {});
  }

  /** Only the order changes: entries keep all but their random position. */
  ghost predicate Reordered(s: State, t: State) {
    && t == s.(mapInfo := t.mapInfo, vRandom := t.vRandom)
    && (forall id :: id in s.mapInfo <==> id in t.mapInfo)
    && (forall id :: id in s.mapInfo ==> t.mapInfo[id] == s.mapInfo[id].(randomPos := t.mapInfo[id].randomPos))
  }

  lemma SwapReorders(s: State, t: State, p: nat, q: nat)
    requires Reordered(s, t) && CanSwap(t, p, q)
    ensures Reordered(s, Swapped(t, p, q))
  {
  }

  lemma {:induction false} ShuffleReorders(h: Hash, s: State, draws: seq<nat>, n: nat)
    requires Inv(h, s, {}, {}) && n <= |draws| && n <= |s.vRandom|
    ensures Reordered(s, Shuffled(h, s, draws, n))
  {
    if n > 0 {
      ShuffleReorders(h, s, draws, n - 1);
      var t := Shuffled(h, s, draws, n - 1);
      ShuffleIsSafe(h, t, n - 1, Drawn(|t.vRandom|, draws, n - 1));
      SwapReorders(s, t, n - 1, Drawn(|t.vRandom|, draws, n - 1));
    }
  }

  lemma ReorderKeeps(h: Hash, s: State, t: State)
    requires Consistent(h, s) && Reordered(s, t) && Inv(h, t, {}, {})
    ensures Consistent(h, t) && Grows(s, t)
  {
  }

  // ---------- collisions in the tried table ----------

  /** What to do with a noted collision: keep waiting, drop it, or move the new entry in. */
  datatype Verdict = Wait | Drop | Replace

  function Judged(h: Hash, s: State, id: nat, now: int, valid: nat -> bool): Verdict
    requires TriedSlotKnown(h, s, id)
  {
    if id !in s.mapInfo then Drop
    else if !valid(s.mapInfo[id].addr) then Drop
    else if OwnTried(h, s, id) != -1 then
      JudgeOccupied(s.mapInfo[OwnTried(h, s, id)], s.mapInfo[id], now)
    else Replace
  }

  /** The choice when the slot of a noted entry is occupied by another. */
  function JudgeOccupied(other: Info, info: Info, now: int): Verdict {
    if now - other.lastSuccess < 4 * HOUR then Drop
    else if now - other.lastTry < 4 * HOUR then (if now - other.lastTry > MINUTE then Replace else Wait)
    else if now - info.lastSuccess > 40 * MINUTE then Replace
    else Wait
  }

  /** The slot an existing id hashes to is empty or holds a known entry. */
  predicate TriedSlotKnown(h: Hash, s: State, id: nat) {
    id in s.mapInfo && OwnTried(h, s, id) != -1 ==> OwnTried(h, s, id) >= 0 && OwnTried(h, s, id) in s.mapInfo
  }

  lemma SlotIsKnown(h: Hash, s: State, id: nat)
    requires Inv(h, s, {}, {})
    ensures TriedSlotKnown(h, s, id)
  {
    assert Holds(TriedSlots, h, s, {}, {});
  }

  function ResolvedOne(h: Hash, s: State, id: nat, now: int, valid: nat -> bool): State
    requires Inv(h, s, {}, {})
  {
    SlotIsKnown(h, s, id);
    match Judged(h, s, id, now, valid)
    case Wait => s
    case Drop => s.(collisions := s.collisions - {id})
    case Replace =>
      var t := MarkedGood(h, s, s.mapInfo[id].addr, false, now).0;
      t.(collisions := t.collisions - {id})
  }

  lemma ResolveOneKeeps(h: Hash, s: State, id: nat, now: int, valid: nat -> bool)
    requires Consistent(h, s)
    ensures var t := ResolvedOne(h, s, id, now, valid);
      && Consistent(h, t) && Grows(s, t) && StaysOccupied(s.vvTried, t.vvTried)
      && s.collisions - {id} <= t.collisions <= s.collisions
  {
    SlotIsKnown(h, s, id);
    var t := ResolvedOne(h, s, id, now, valid);
    match Judged(h, s, id, now, valid)
    case Wait =>
    case Drop =>
      KeepInv(h, s, t, {}, {});
      CollisionsKept(h, s, t);
    case Replace =>
      var g := MarkedGood(h, s, s.mapInfo[id].addr, false, now).0;
      GoodKeeps(h, s, s.mapInfo[id].addr, false, now);
      KeepInv(h, g, t, {}, {});
      CollisionsKept(h, g, t);
  }

  /** All noted collisions in turn; the clock may advance between them. */
  function ResolvedAll(h: Hash, s: State, ids: seq<nat>, clock: nat -> int, valid: nat -> bool, n: nat): (t: State)
    requires Consistent(h, s) && n <= |ids|
    ensures Consistent(h, t) && t.collisions <= s.collisions
    ensures forall x :: x in s.collisions && x !in ids[..n] ==> x in t.collisions
    decreases n
  {
    if n == 0 then s else
      assert ids[..n] == ids[..n - 1] + [ids[n - 1]];
      var t := ResolvedAll(h, s, ids, clock, valid, n - 1);
      ResolveOneKeeps(h, t, ids[n - 1], clock(n - 1), valid);
      ResolvedOne(h, t, ids[n - 1], clock(n - 1), valid)
  }

  /** A noted id that still exists meets an occupied slot: the branch for an empty one is never taken. */
  lemma NeverEmpty(h: Hash, s: State, ids: seq<nat>, clock: nat -> int, valid: nat -> bool, n: nat)
    requires Consistent(h, s) && n < |ids| && ids[n] in s.collisions && ids[n] !in ids[..n]
    ensures var t := ResolvedAll(h, s, ids, clock, valid, n);
      ids[n] in t.mapInfo ==> OwnTried(h, t, ids[n]) != -1
  {
    var t := ResolvedAll(h, s, ids, clock, valid, n);
    assert ids[n] in t.collisions;
  }

  /** Asking for a collision to test: a vanished id is forgotten, another names the occupant of its slot. */
  function Selected(s: State, id: nat): State {
    if id in s.collisions && id !in s.mapInfo then s.(collisions := s.collisions - {id}) else s
  }

  lemma SelectKeeps(h: Hash, s: State, id: nat)
    requires Consistent(h, s)
    ensures Consistent(h, Selected(s, id))
    ensures id in s.collisions && id in s.mapInfo ==> OwnTried(h, s, id) >= 0 && OwnTried(h, s, id) in s.mapInfo
  {
    KeepInv(h, s, Selected(s, id), {}, {});
    CollisionsKept(h, s, Selected(s, id));
    SlotIsKnown(h, s, id);
  }

  // ---------- every run ----------

  datatype Op =
    | Add(addr: Address, source: nat, penalty: int, now: int, lucky: bool)
    | Good(service: nat, time: int)
    | Inform(service: nat, note: Note)
    | GetAddr(draws: seq<nat>)
    | SelectTriedCollision(id: nat)
    | ResolveCollisions(ids: seq<nat>, clock: nat -> int, valid: nat -> bool)

  /** One operation; an inconsistent state, which never arises, is left as it is. */
  ghost function Apply(h: Hash, s: State, op: Op): State {
    if !Consistent(h, s) then s else
    match op
    case Add(addr, source, penalty, now, lucky) => AddedOne(h, s, addr, source, penalty, now, lucky).0
    case Good(service, time) => MarkedGood(h, s, service, true, time).0
    case Inform(service, note) => WithNote(h, s, service, note)
    case GetAddr(draws) => Shuffled(h, s, draws, if |draws| < |s.vRandom| then |draws| else |s.vRandom|)
    case SelectTriedCollision(id) => Selected(s, id)
    case ResolveCollisions(ids, clock, valid) => ResolvedAll(h, s, ids, clock, valid, |ids|)
  }

  lemma {:induction false} ResolveStaysOccupied(h: Hash, s: State, ids: seq<nat>, clock: nat -> int,
                        valid: nat -> bool, n: nat)
    requires Consistent(h, s) && n <= |ids|
    ensures StaysOccupied(s.vvTried, ResolvedAll(h, s, ids, clock, valid, n).vvTried)
  {
    if n > 0 {
      ResolveStaysOccupied(h, s, ids, clock, valid, n - 1);
      ResolveOneKeeps(h, ResolvedAll(h, s, ids, clock, valid, n - 1), ids[n - 1], clock(n - 1), valid);
    }
  }

  lemma ApplyKeeps(h: Hash, s: State, op: Op)
    requires Consistent(h, s)
    ensures Consistent(h, Apply(h, s, op)) && StaysOccupied(s.vvTried, Apply(h, s, op).vvTried)
  {
    match op
    case Add(addr, source, penalty, now, lucky) =>
      AddKeeps(h, s, addr, source, penalty, now, lucky);
      CollisionsKept(h, s, Apply(h, s, op));
    case Good(service, time) => GoodKeeps(h, s, service, true, time);
    case Inform(service, note) => NoteKeeps(h, s, service, note);
    case GetAddr(draws) =>
      var n := if |draws| < |s.vRandom| then |draws| else |s.vRandom|;
      ShuffleReorders(h, s, draws, n);
      ReorderKeeps(h, s, Shuffled(h, s, draws, n));
    case SelectTriedCollision(id) => SelectKeeps(h, s, id);
    case ResolveCollisions(ids, clock, valid) => ResolveStaysOccupied(h, s, ids, clock, valid, |ids|);
  }

  /** The state of a new address manager. */
  function Empty(): State {
    State(0, map[], map[], [], 0, EmptyTable(TRIED_BUCKETS), 0, EmptyTable(NEW_BUCKETS), map[], {}, 1)
  }

  function EmptyTable(buckets: nat): (t: Table)
    ensures |t| == buckets
  {
    seq(buckets, _ => seq(BUCKET_SIZE, _ => -1))
  }

  lemma EmptyIsConsistent(h: Hash)
    ensures Consistent(h, Empty())
  {
    var s := Empty();
    forall part ensures Holds(part, h, s, {}, {}) {
      match part {
        case NewSlots => assert forall b: nat, i: nat {:trigger At(s.vvNew, b, i)} :: At(s.vvNew, b, i) == -1;
        case TriedSlots => assert forall b: nat, i: nat {:trigger At(s.vvTried, b, i)} :: At(s.vvTried, b, i) == -1;
        case Totals => NothingCounted(h);
        case _ =>
      }
    }
  }

  lemma NothingCounted(h: Hash)
    ensures CountsOk(h, map[], {}, 0, 0, map[])
  {
    assert forall tried, net :: Counted(h, map[], {}, tried, net) == {};
  }

  ghost function Run(h: Hash, s: State, ops: seq<Op>): State {
    if ops == [] then s else Apply(h, Run(h, s, ops[..|ops| - 1]), ops[|ops| - 1])
  }

  /** Whatever is done with a new address manager, in whatever order, it stays consistent. */
  lemma {:induction false} EveryRunIsConsistent(h: Hash, ops: seq<Op>)
    ensures Consistent(h, Run(h, Empty(), ops))
  {
    if ops == [] {
      EmptyIsConsistent(h);
    } else {
      EveryRunIsConsistent(h, ops[..|ops| - 1]);
      ApplyKeeps(h, Run(h, Empty(), ops[..|ops| - 1]), ops[|ops| - 1]);
    }
  }

  /** A tried slot that was ever occupied is never found empty again. */
  lemma {:induction false} OccupiedForever(h: Hash, s: State, ops: seq<Op>)
    requires Consistent(h, s)
    ensures Consistent(h, Run(h, s, ops)) && StaysOccupied(s.vvTried, Run(h, s, ops).vvTried)
  {
    if ops != [] {
      OccupiedForever(h, s, ops[..|ops| - 1]);
      ApplyKeeps(h, Run(h, s, ops[..|ops| - 1]), ops[|ops| - 1]);
    }
  }
}
