/**
 The consistency check itself (src/addrman.cpp, CheckAddrman): it collects the entries, sweeps both
 tables with a set and a map that shrink as slots are met, and compares the counts.  It is proved to
 return 0 exactly when a condition on the data holds, and that condition is compared with the one
 every run keeps.
 */
module CheckAddrman {
  import opened Basics
  import opened AddrTables
  import opened AddrMoves
  import opened AddrCheck

  // ---------- what is tested ----------

  /** The first test an entry fails, as the code numbers them; 0 is none. */
  function EntryCode(s: State, id: nat): int
    requires id in s.mapInfo
  {
    var info := s.mapInfo[id];
    if info.inTried && info.lastSuccess == 0 then -1
    else if info.inTried && info.refCount != 0 then -2
    else if !info.inTried && info.refCount > NEW_BUCKETS_PER_ADDRESS then -3
    else if !info.inTried && info.refCount == 0 then -4
    else if info.addr !in s.mapAddr || s.mapAddr[info.addr] != id then -5
    else if info.randomPos >= |s.vRandom| || s.vRandom[info.randomPos] != id then -14
    else if info.lastTry < 0 then -6
    else if info.lastSuccess < 0 then -8
    else 0
  }

  ghost predicate EntriesOk(s: State) {
    forall id :: id in s.mapInfo ==> EntryCode(s, id) == 0
  }

  /** A tried slot is empty or holds a tried entry at its own place. */
  ghost predicate TriedSlotOk(h: Hash, m: map<nat, Info>, t: Table, b: nat, i: nat) {
    At(t, b, i) != -1 ==>
      && At(t, b, i) >= 0 && At(t, b, i) in m && m[At(t, b, i)].inTried
      && b == TriedBucket(h, m[At(t, b, i)].addr) && i == TriedPos(h, m[At(t, b, i)].addr)
  }

  /** A new slot is empty or holds an entry that is not tried, at its position for the bucket. */
  ghost predicate NewSlotOk(h: Hash, m: map<nat, Info>, t: Table, b: nat, i: nat) {
    At(t, b, i) != -1 ==>
      && At(t, b, i) >= 0 && At(t, b, i) in m && !m[At(t, b, i)].inTried
      && i == NewPos(h, m[At(t, b, i)].addr, b)
  }

  ghost predicate TriedTableOk(h: Hash, m: map<nat, Info>, t: Table) {
    forall b: nat, i: nat :: TriedSlotOk(h, m, t, b, i)
  }

  ghost predicate NewTableOk(h: Hash, m: map<nat, Info>, t: Table) {
    forall b: nat, i: nat :: NewSlotOk(h, m, t, b, i)
  }

  ghost predicate TriedAreHeld(h: Hash, m: map<nat, Info>, t: Table) {
    forall id :: id in m && m[id].inTried ==> At(t, TriedBucket(h, m[id].addr), TriedPos(h, m[id].addr)) == id
  }

  /** Every new entry is referenced as often as it says. */
  ghost predicate NewAreHeld(h: Hash, m: map<nat, Info>, t: Table) {
    forall id :: id in m && !m[id].inTried ==> m[id].refCount == Refs(h, t, m[id].addr, id, |t|)
  }

  /** The networks that have an entry. */
  ghost function Networks(h: Hash, m: map<nat, Info>): set<nat> {
    set id | id in m :: h.network(m[id].addr)
  }

  ghost function ExactCounts(h: Hash, m: map<nat, Info>, n: nat): Counts {
    Counts(|Counted(h, m, {}, false, OneNet(n))|, |Counted(h, m, {}, true, OneNet(n))|)
  }

  /** There are enough networks on record, and what is on record is exact. */
  ghost predicate NetsOk(h: Hash, m: map<nat, Info>, nets: map<nat, Counts>) {
    && |Networks(h, m)| <= |nets|
    && forall n :: n in nets ==> nets[n] == ExactCounts(h, m, n)
  }

  datatype Test = Sizes | Entries | TriedSweep | NewSweep | Key | Nets

  ghost predicate Passes(test: Test, h: Hash, s: State, keyIsNull: bool) {
    match test
    case Sizes =>
      && |s.vRandom| == s.nTried + s.nNew
      && s.nTried == |Counted(h, s.mapInfo, {}, true, AnyNet)|
      && s.nNew == |Counted(h, s.mapInfo, {}, false, AnyNet)|
    case Entries => EntriesOk(s)
    case TriedSweep => TriedTableOk(h, s.mapInfo, s.vvTried) && TriedAreHeld(h, s.mapInfo, s.vvTried)
    case NewSweep => NewTableOk(h, s.mapInfo, s.vvNew) && NewAreHeld(h, s.mapInfo, s.vvNew)
    case Key => !keyIsNull
    case Nets => NetsOk(h, s.mapInfo, s.nets)
  }

  /** All the tests. */
  ghost predicate Checked(h: Hash, s: State, keyIsNull: bool) {
    forall test :: Passes(test, h, s, keyIsNull)
  }

  // ---------- collecting the entries ----------

  /** The entries among `seen` that are new, or tried, on a network. */
  ghost function CountedIn(h: Hash, m: map<nat, Info>, seen: set<nat>, tried: bool, net: Net): set<nat> {
    set id | id in m && id in seen && m[id].inTried == tried && On(h, m[id].addr, net)
  }

  ghost predicate LocalOk(h: Hash, m: map<nat, Info>, seen: set<nat>, local: map<nat, Counts>) {
    && (forall n :: CountsOn(local, n) ==
          Counts(|CountedIn(h, m, seen, false, OneNet(n))|, |CountedIn(h, m, seen, true, OneNet(n))|))
    && local.Keys == set id | id in m && id in seen :: h.network(m[id].addr)
  }

  function CountOne(h: Hash, info: Info, local: map<nat, Counts>): map<nat, Counts> {
    var n := h.network(info.addr);
    var c := CountsOn(local, n);
    local[n := if info.inTried then Counts(c.isNew, c.isTried + 1) else Counts(c.isNew + 1, c.isTried)]
  }

  lemma CountedInSplits(h: Hash, m: map<nat, Info>, seen: set<nat>, id: nat, tried: bool, net: Net)
    requires id in m && id !in seen
    ensures CountedIn(h, m, seen + {id}, tried, net) ==
            CountedIn(h, m, seen, tried, net) + (if m[id].inTried == tried && On(h, m[id].addr, net) then {id} else {})
    ensures id !in CountedIn(h, m, seen, tried, net)
  {
  }

  lemma CountedInGrows(h: Hash, m: map<nat, Info>, seen: set<nat>, id: nat, tried: bool, net: Net)
    requires id in m && id !in seen
    ensures |CountedIn(h, m, seen + {id}, tried, net)| ==
            |CountedIn(h, m, seen, tried, net)| + (if m[id].inTried == tried && On(h, m[id].addr, net) then 1 else 0)
  {
    CountedInSplits(h, m, seen, id, tried, net);
    AddsOne(CountedIn(h, m, seen, tried, net), id);
  }

  lemma AddsOne(a: set<nat>, id: nat)
    requires id !in a
    ensures |a + {id}| == |a| + 1 && a + {} == a
  {
  }

  lemma LocalStep(h: Hash, m: map<nat, Info>, seen: set<nat>, id: nat, local: map<nat, Counts>)
    requires LocalOk(h, m, seen, local) && id in m && id !in seen
    ensures LocalOk(h, m, seen + {id}, CountOne(h, m[id], local))
  {
    var next := CountOne(h, m[id], local);
    forall n
      ensures CountsOn(next, n) ==
        Counts(|CountedIn(h, m, seen + {id}, false, OneNet(n))|, |CountedIn(h, m, seen + {id}, true, OneNet(n))|)
    {
      CountedInGrows(h, m, seen, id, false, OneNet(n));
      CountedInGrows(h, m, seen, id, true, OneNet(n));
      assert CountsOn(local, n) ==
        Counts(|CountedIn(h, m, seen, false, OneNet(n))|, |CountedIn(h, m, seen, true, OneNet(n))|);
    }
  }

  ghost function TriedIn(m: map<nat, Info>, seen: set<nat>): set<nat> {
    set id | id in seen && id in m && m[id].inTried
  }

  ghost function NewIn(m: map<nat, Info>, seen: set<nat>): map<nat, nat> {
    map id | id in seen && id in m && !m[id].inTried :: m[id].refCount
  }

  ghost predicate SeenOk(s: State, seen: set<nat>) {
    forall id :: id in seen ==> id in s.mapInfo && EntryCode(s, id) == 0
  }

  datatype Found = Found(setTried: set<nat>, mapNew: map<nat, nat>, local: map<nat, Counts>)

  datatype Aspect = Verdicts | TriedOnes | NewOnes | Networked

  ghost predicate AspectOk(aspect: Aspect, h: Hash, s: State, seen: set<nat>, found: Found) {
    match aspect
    case Verdicts => SeenOk(s, seen)
    case TriedOnes => found.setTried == TriedIn(s.mapInfo, seen)
    case NewOnes => found.mapNew == NewIn(s.mapInfo, seen)
    case Networked => LocalOk(h, s.mapInfo, seen, found.local)
  }

  /** What the loop over the entries has collected. */
  ghost predicate Collected(h: Hash, s: State, seen: set<nat>, found: Found) {
    forall aspect :: AspectOk(aspect, h, s, seen, found)
  }

  /** What the loop body does with an entry that passes. */
  function Collect(h: Hash, info: Info, id: nat, found: Found): Found {
    if info.inTried then Found(found.setTried + {id}, found.mapNew, CountOne(h, info, found.local))
    else Found(found.setTried, found.mapNew[id := info.refCount], CountOne(h, info, found.local))
  }

  method CheckEntry(s: State, id: nat) returns (code: int)
    requires id in s.mapInfo
    ensures code == EntryCode(s, id)
  {
    var info := s.mapInfo[id];
    if info.inTried {
      if info.lastSuccess == 0 { return -1; }
      if info.refCount != 0 { return -2; }
    } else {
      if info.refCount > NEW_BUCKETS_PER_ADDRESS { return -3; }
      if info.refCount == 0 { return -4; }
    }
    if info.addr !in s.mapAddr || s.mapAddr[info.addr] != id { return -5; }
    if info.randomPos >= |s.vRandom| || s.vRandom[info.randomPos] != id { return -14; }
    if info.lastTry < 0 { return -6; }
    if info.lastSuccess < 0 { return -8; }
    return 0;
  }

  method CollectEntries(h: Hash, s: State) returns (code: int, found: Found)
    ensures code == 0 ==> Collected(h, s, s.mapInfo.Keys, found)
    ensures code != 0 ==> exists id :: id in s.mapInfo && code == EntryCode(s, id)
  {
    found := Found({}, map[], map[]);
    var todo := s.mapInfo.Keys;
    NothingCollected(h, s);
    assert s.mapInfo.Keys - todo == {};
    while todo != {}
      invariant todo <= s.mapInfo.Keys && Collected(h, s, s.mapInfo.Keys - todo, found)
      decreases |todo|
    {
      var id :| id in todo;
      code := CheckEntry(s, id);
      if code != 0 { return; }
      CollectStep(h, s, s.mapInfo.Keys - todo, found, id);
      assert s.mapInfo.Keys - (todo - {id}) == s.mapInfo.Keys - todo + {id};
      found := Collect(h, s.mapInfo[id], id, found);
      todo := todo - {id};
    }
    assert s.mapInfo.Keys - todo == s.mapInfo.Keys;
    code := 0;
  }

  lemma NothingCollected(h: Hash, s: State)
    ensures Collected(h, s, {}, Found({}, map[], map[]))
  {
    assert forall n :: CountedIn(h, s.mapInfo, {}, false, OneNet(n)) == {};
    assert forall n :: CountedIn(h, s.mapInfo, {}, true, OneNet(n)) == {};
    forall aspect ensures AspectOk(aspect, h, s, {}, Found({}, map[], map[])) {
    }
  }

  lemma TriedStep(m: map<nat, Info>, seen: set<nat>, id: nat)
    requires id in m
    ensures TriedIn(m, seen + {id}) == if m[id].inTried then TriedIn(m, seen) + {id} else TriedIn(m, seen)
  {
  }

  lemma NewStep(m: map<nat, Info>, seen: set<nat>, id: nat)
    requires id in m
    ensures NewIn(m, seen + {id}) == if m[id].inTried then NewIn(m, seen) else NewIn(m, seen)[id := m[id].refCount]
  {
  }

  lemma CollectStep(h: Hash, s: State, seen: set<nat>, found: Found, id: nat)
    requires Collected(h, s, seen, found) && id in s.mapInfo && id !in seen && EntryCode(s, id) == 0
    ensures Collected(h, s, seen + {id}, Collect(h, s.mapInfo[id], id, found))
  {
    var next := Collect(h, s.mapInfo[id], id, found);
    forall aspect ensures AspectOk(aspect, h, s, seen + {id}, next) {
      assert AspectOk(aspect, h, s, seen, found);
      match aspect
      case Verdicts =>
      case TriedOnes => TriedStep(s.mapInfo, seen, id);
      case NewOnes => NewStep(s.mapInfo, seen, id);
      case Networked => LocalStep(h, s.mapInfo, seen, id, found.local);
    }
  }

  // ---------- sweeping the tried table ----------

  /** The slots before slot `i` of bucket `n`, in the order of the loops. */
  predicate Before(b: nat, j: nat, n: nat, i: nat) { b < n || (b == n && j < i) }

  ghost predicate HeldBefore(h: Hash, t: Table, addr: nat, id: nat, n: nat, i: nat) {
    Before(TriedBucket(h, addr), TriedPos(h, addr), n, i) && At(t, TriedBucket(h, addr), TriedPos(h, addr)) == id
  }

  ghost predicate TriedPassed(h: Hash, m: map<nat, Info>, t: Table, n: nat, i: nat) {
    forall b: nat, j: nat :: Before(b, j, n, i) ==> TriedSlotOk(h, m, t, b, j)
  }

  ghost function TriedLeft(h: Hash, m: map<nat, Info>, t: Table, n: nat, i: nat): set<nat> {
    set id | id in m && m[id].inTried && !HeldBefore(h, t, m[id].addr, id, n, i)
  }

  /** So far every slot was right, and the tried entries not met yet are left. */
  ghost predicate TriedSwept(h: Hash, m: map<nat, Info>, t: Table, n: nat, i: nat, left: set<nat>) {
    TriedPassed(h, m, t, n, i) && left == TriedLeft(h, m, t, n, i)
  }

  lemma TriedEmptySlot(h: Hash, m: map<nat, Info>, t: Table, n: nat, i: nat, left: set<nat>)
    requires TriedSwept(h, m, t, n, i, left) && At(t, n, i) == -1
    ensures TriedSwept(h, m, t, n, i + 1, left)
  {
  }

  lemma TriedRightSlot(h: Hash, m: map<nat, Info>, t: Table, n: nat, i: nat, left: set<nat>)
    requires TriedSwept(h, m, t, n, i, left) && At(t, n, i) != -1
    ensures TriedSlotOk(h, m, t, n, i) <==>
      At(t, n, i) in left && TriedBucket(h, m[At(t, n, i)].addr) == n && TriedPos(h, m[At(t, n, i)].addr) == i
    ensures TriedSlotOk(h, m, t, n, i) ==> TriedSwept(h, m, t, n, i + 1, left - {At(t, n, i)})
  {
    var v := At(t, n, i);
    if TriedSlotOk(h, m, t, n, i) {
      forall id | id in m && m[id].inTried
        ensures HeldBefore(h, t, m[id].addr, id, n, i + 1) <==> HeldBefore(h, t, m[id].addr, id, n, i) || id == v
      {
      }
    }
  }

  method SweepTriedBucket(h: Hash, s: State, n: nat, setTried: set<nat>) returns (code: int, left: set<nat>)
    requires n < |s.vvTried| && |s.vvTried[n]| == BUCKET_SIZE
    requires TriedSwept(h, s.mapInfo, s.vvTried, n, 0, setTried)
    ensures code == 0 ==> TriedSwept(h, s.mapInfo, s.vvTried, n, BUCKET_SIZE, left)
    ensures code != 0 ==> code in {-11, -17, -18} && exists i: nat :: !TriedSlotOk(h, s.mapInfo, s.vvTried, n, i)
  {
    left := setTried;
    for i := 0 to BUCKET_SIZE
      invariant TriedSwept(h, s.mapInfo, s.vvTried, n, i, left)
    {
      var id := s.vvTried[n][i];
      assert id == At(s.vvTried, n, i);
      if id != -1 {
        TriedRightSlot(h, s.mapInfo, s.vvTried, n, i, left);
        if id !in left { return -11, left; }
        if TriedBucket(h, s.mapInfo[id].addr) != n { return -17, left; }
        if TriedPos(h, s.mapInfo[id].addr) != i { return -18, left; }
        left := left - {id};
      } else {
        TriedEmptySlot(h, s.mapInfo, s.vvTried, n, i, left);
      }
    }
    code := 0;
  }

  method SweepTried(h: Hash, s: State, setTried: set<nat>) returns (code: int, left: set<nat>)
    requires Shaped(s.vvTried, TRIED_BUCKETS) && setTried == TriedIn(s.mapInfo, s.mapInfo.Keys)
    ensures code == 0 <==> TriedTableOk(h, s.mapInfo, s.vvTried)
    ensures code == 0 ==> (left == {} <==> TriedAreHeld(h, s.mapInfo, s.vvTried))
    ensures code in {0, -11, -17, -18}
  {
    left := setTried;
    assert TriedSwept(h, s.mapInfo, s.vvTried, 0, 0, left);
    for n := 0 to TRIED_BUCKETS
      invariant TriedSwept(h, s.mapInfo, s.vvTried, n, 0, left)
    {
      code, left := SweepTriedBucket(h, s, n, left);
      if code != 0 { return; }
      NextTriedBucket(h, s.mapInfo, s.vvTried, n, left);
    }
    TriedSweepEnds(h, s.mapInfo, s.vvTried, left);
    code := 0;
  }

  lemma NextTriedBucket(h: Hash, m: map<nat, Info>, t: Table, n: nat, left: set<nat>)
    requires Shaped(t, TRIED_BUCKETS) && TriedSwept(h, m, t, n, BUCKET_SIZE, left)
    ensures TriedSwept(h, m, t, n + 1, 0, left)
  {
  }

  lemma TriedSweepEnds(h: Hash, m: map<nat, Info>, t: Table, left: set<nat>)
    requires Shaped(t, TRIED_BUCKETS) && TriedSwept(h, m, t, TRIED_BUCKETS, 0, left)
    ensures TriedTableOk(h, m, t)
    ensures left == {} <==> TriedAreHeld(h, m, t)
  {
    if left == {} {
      forall id | id in m && m[id].inTried
        ensures At(t, TriedBucket(h, m[id].addr), TriedPos(h, m[id].addr)) == id
      {
        assert id !in left;
      }
    }
  }

  // ---------- sweeping the new table ----------

  /** The references to `id` before slot `i` of bucket `n`, if all of them are at its own positions. */
  function RefsBefore(h: Hash, t: Table, addr: nat, id: nat, n: nat, i: nat): nat {
    Refs(h, t, addr, id, n)
      + (if NewPos(h, addr, n) < i && At(t, n, NewPos(h, addr, n)) == id then 1 else 0)
  }

  ghost predicate NewPassed(h: Hash, m: map<nat, Info>, t: Table, n: nat, i: nat) {
    && (forall b: nat, j: nat :: Before(b, j, n, i) ==> NewSlotOk(h, m, t, b, j))
    && (forall id :: id in m && !m[id].inTried ==> RefsBefore(h, t, m[id].addr, id, n, i) <= m[id].refCount)
  }

  ghost function NewLeft(h: Hash, m: map<nat, Info>, t: Table, n: nat, i: nat): map<nat, nat> {
    map id | id in m && !m[id].inTried && RefsBefore(h, t, m[id].addr, id, n, i) < m[id].refCount
      :: m[id].refCount - RefsBefore(h, t, m[id].addr, id, n, i)
  }

  /** So far every slot was right and no entry met too often; the references still to be met are left. */
  ghost predicate NewSwept(h: Hash, m: map<nat, Info>, t: Table, n: nat, i: nat, left: map<nat, nat>) {
    NewPassed(h, m, t, n, i) && left == NewLeft(h, m, t, n, i)
  }

  lemma NewEmptySlot(h: Hash, m: map<nat, Info>, t: Table, n: nat, i: nat, left: map<nat, nat>)
    requires NewSwept(h, m, t, n, i, left) && At(t, n, i) == -1
    ensures NewSwept(h, m, t, n, i + 1, left)
  {
    forall id | id in m ensures RefsBefore(h, t, m[id].addr, id, n, i + 1) == RefsBefore(h, t, m[id].addr, id, n, i) {
    }
  }

  /** One met less of `id`. */
  function MetOne(left: map<nat, nat>, id: nat): map<nat, nat>
    requires id in left
  {
    if left[id] <= 1 then left - {id} else left[id := left[id] - 1]
  }

  lemma NewRightSlot(h: Hash, m: map<nat, Info>, t: Table, n: nat, i: nat, left: map<nat, nat>)
    requires NewSwept(h, m, t, n, i, left) && At(t, n, i) in left && i == NewPos(h, m[At(t, n, i)].addr, n)
    ensures NewSwept(h, m, t, n, i + 1, MetOne(left, At(t, n, i)))
  {
    var v := At(t, n, i);
    forall id | id in m && !m[id].inTried
      ensures RefsBefore(h, t, m[id].addr, id, n, i + 1)
           == RefsBefore(h, t, m[id].addr, id, n, i) + (if id == v then 1 else 0)
    {
    }
  }

  /** A reference that is not left over shows a wrong slot or a wrong count. */
  lemma NewWrongSlot(h: Hash, m: map<nat, Info>, t: Table, n: nat, i: nat, left: map<nat, nat>)
    requires NewSwept(h, m, t, n, i, left) && n < |t| && At(t, n, i) != -1 && At(t, n, i) !in left
    ensures !NewSlotOk(h, m, t, n, i) || !NewAreHeld(h, m, t)
  {
    if NewSlotOk(h, m, t, n, i) {
      var v := At(t, n, i);
      assert RefsBefore(h, t, m[v].addr, v, n, i) >= m[v].refCount;
      RefsGrow(h, t, m[v].addr, v, n + 1, |t|);
    }
  }

  lemma {:induction false} RefsGrow(h: Hash, t: Table, addr: nat, id: nat, n: nat, k: nat)
    requires n <= k
    ensures Refs(h, t, addr, id, n) <= Refs(h, t, addr, id, k)
    decreases k
  {
    if n < k { RefsGrow(h, t, addr, id, n, k - 1); }
  }

  /** One slot, whichever way it goes. */
  lemma NewSlotStep(h: Hash, m: map<nat, Info>, t: Table, n: nat, i: nat, left: map<nat, nat>, id: int)
    requires NewSwept(h, m, t, n, i, left) && n < |t| && id == At(t, n, i)
    ensures id == -1 ==> NewSwept(h, m, t, n, i + 1, left)
    ensures id != -1 && id !in left ==> !NewSlotOk(h, m, t, n, i) || !NewAreHeld(h, m, t)
    ensures id in left ==> id >= 0 && id in m
    ensures id != -1 && id in left && NewPos(h, m[id].addr, n) != i ==> !NewSlotOk(h, m, t, n, i)
    ensures id in left && NewPos(h, m[id].addr, n) == i ==> NewSwept(h, m, t, n, i + 1, MetOne(left, id))
  {
    if id == -1 {
      NewEmptySlot(h, m, t, n, i, left);
    } else if id !in left {
      NewWrongSlot(h, m, t, n, i, left);
    } else if NewPos(h, m[id].addr, n) == i {
      NewRightSlot(h, m, t, n, i, left);
    }
  }

  method SweepNewBucket(h: Hash, s: State, n: nat, mapNew: map<nat, nat>) returns (code: int, left: map<nat, nat>)
    requires n < |s.vvNew| && |s.vvNew[n]| == BUCKET_SIZE
    requires NewSwept(h, s.mapInfo, s.vvNew, n, 0, mapNew)
    ensures code == 0 ==> NewSwept(h, s.mapInfo, s.vvNew, n, BUCKET_SIZE, left)
    ensures code in {0, -12, -19}
    ensures code != 0 ==>
      !NewAreHeld(h, s.mapInfo, s.vvNew) || exists i: nat :: !NewSlotOk(h, s.mapInfo, s.vvNew, n, i)
  {
    left := mapNew;
    for i := 0 to BUCKET_SIZE
      invariant NewSwept(h, s.mapInfo, s.vvNew, n, i, left)
    {
      var id := s.vvNew[n][i];
      NewSlotStep(h, s.mapInfo, s.vvNew, n, i, left, id);
      if id != -1 {
        if id !in left { return -12, left; }
        if NewPos(h, s.mapInfo[id].addr, n) != i { return -19, left; }
        left := MetOne(left, id);
      }
    }
    code := 0;
  }

  method SweepNew(h: Hash, s: State, mapNew: map<nat, nat>) returns (code: int, left: map<nat, nat>)
    requires Shaped(s.vvNew, NEW_BUCKETS) && mapNew == NewIn(s.mapInfo, s.mapInfo.Keys) && EntriesOk(s)
    ensures code == 0 && left == map[] <==> NewTableOk(h, s.mapInfo, s.vvNew) && NewAreHeld(h, s.mapInfo, s.vvNew)
    ensures code in {0, -12, -19}
  {
    left := mapNew;
    NewSweepStarts(h, s, left);
    for n := 0 to NEW_BUCKETS
      invariant NewSwept(h, s.mapInfo, s.vvNew, n, 0, left)
    {
      code, left := SweepNewBucket(h, s, n, left);
      if code != 0 { return; }
      NextNewBucket(h, s.mapInfo, s.vvNew, n, left);
    }
    NewSweepEnds(h, s.mapInfo, s.vvNew, left);
    code := 0;
  }

  lemma NewSweepStarts(h: Hash, s: State, left: map<nat, nat>)
    requires left == NewIn(s.mapInfo, s.mapInfo.Keys) && EntriesOk(s)
    ensures NewSwept(h, s.mapInfo, s.vvNew, 0, 0, left)
  {
    forall id | id in s.mapInfo
      ensures RefsBefore(h, s.vvNew, s.mapInfo[id].addr, id, 0, 0) == 0
      ensures !s.mapInfo[id].inTried ==> s.mapInfo[id].refCount > 0
    {
      assert EntryCode(s, id) == 0;
    }
  }

  lemma NextNewBucket(h: Hash, m: map<nat, Info>, t: Table, n: nat, left: map<nat, nat>)
    requires Shaped(t, NEW_BUCKETS) && NewSwept(h, m, t, n, BUCKET_SIZE, left)
    ensures NewSwept(h, m, t, n + 1, 0, left)
  {
    forall id | id in m
      ensures RefsBefore(h, t, m[id].addr, id, n + 1, 0) == RefsBefore(h, t, m[id].addr, id, n, BUCKET_SIZE)
    {
    }
    forall b: nat, j: nat | Before(b, j, n + 1, 0) ensures NewSlotOk(h, m, t, b, j) {
      if !Before(b, j, n, BUCKET_SIZE) { assert At(t, b, j) == -1; }
    }
  }

  lemma NewSweepEnds(h: Hash, m: map<nat, Info>, t: Table, left: map<nat, nat>)
    requires Shaped(t, NEW_BUCKETS) && NewSwept(h, m, t, NEW_BUCKETS, 0, left)
    ensures NewTableOk(h, m, t)
    ensures left == map[] <==> NewAreHeld(h, m, t)
  {
    if left == map[] {
      forall id | id in m && !m[id].inTried ensures m[id].refCount == Refs(h, t, m[id].addr, id, |t|) {
        assert id !in left;
      }
    }
  }

  // ---------- the whole check ----------

  /** -20 for too few networks on record, -21 for one that is not exact. */
  method CheckNets(h: Hash, s: State, local: map<nat, Counts>) returns (code: int)
    requires LocalOk(h, s.mapInfo, s.mapInfo.Keys, local)
    ensures code == 0 <==> NetsOk(h, s.mapInfo, s.nets)
    ensures code in {0, -20, -21}
  {
    LocalIsExact(h, s.mapInfo, local);
    if |s.nets| < |local| { return -20; }
    var todo := s.nets.Keys;
    while todo != {}
      invariant todo <= s.nets.Keys
      invariant forall n :: n in s.nets && n !in todo ==> s.nets[n] == ExactCounts(h, s.mapInfo, n)
      decreases |todo|
    {
      var n :| n in todo;
      if CountsOn(local, n) != s.nets[n] { return -21; }
      todo := todo - {n};
    }
    code := 0;
  }

  lemma LocalIsExact(h: Hash, m: map<nat, Info>, local: map<nat, Counts>)
    requires LocalOk(h, m, m.Keys, local)
    ensures forall n :: CountsOn(local, n) == ExactCounts(h, m, n)
    ensures |local| == |Networks(h, m)|
  {
    forall n ensures CountsOn(local, n) == ExactCounts(h, m, n) {
      assert CountedIn(h, m, m.Keys, false, OneNet(n)) == Counted(h, m, {}, false, OneNet(n));
      assert CountedIn(h, m, m.Keys, true, OneNet(n)) == Counted(h, m, {}, true, OneNet(n));
    }
    assert local.Keys == Networks(h, m);
    assert |local| == |local.Keys|;
  }

  lemma CollectedSizes(h: Hash, m: map<nat, Info>)
    ensures TriedIn(m, m.Keys) == Counted(h, m, {}, true, AnyNet)
    ensures |NewIn(m, m.Keys)| == |Counted(h, m, {}, false, AnyNet)|
  {
    assert NewIn(m, m.Keys).Keys == Counted(h, m, {}, false, AnyNet);
    assert |NewIn(m, m.Keys)| == |NewIn(m, m.Keys).Keys|;
  }

  /** Returns 0 exactly when every test holds; the tables have the sizes the code declares them with. */
  method CheckAddrman(h: Hash, s: State, keyIsNull: bool) returns (code: int)
    requires Shaped(s.vvTried, TRIED_BUCKETS) && Shaped(s.vvNew, NEW_BUCKETS)
    ensures code == 0 <==> Checked(h, s, keyIsNull)
  {
    if |s.vRandom| != s.nTried + s.nNew {
      assert !Passes(Sizes, h, s, keyIsNull);
      return -7;
    }
    var found;
    code, found := CollectEntries(h, s);
    if code != 0 {
      assert !Passes(Entries, h, s, keyIsNull);
      return;
    }
    CollectedSizes(h, s.mapInfo);
    assert AspectOk(TriedOnes, h, s, s.mapInfo.Keys, found) && AspectOk(NewOnes, h, s, s.mapInfo.Keys, found);
    if |found.setTried| != s.nTried {
      assert !Passes(Sizes, h, s, keyIsNull);
      return -9;
    }
    if |found.mapNew| != s.nNew {
      assert !Passes(Sizes, h, s, keyIsNull);
      return -10;
    }
    code := CheckTables(h, s, keyIsNull, found);
  }

  /** The two sweeps and what they leave over. */
  method Sweep(h: Hash, s: State, found: Found) returns (code: int)
    requires Shaped(s.vvTried, TRIED_BUCKETS) && Shaped(s.vvNew, NEW_BUCKETS)
    requires Collected(h, s, s.mapInfo.Keys, found)
    ensures code == 0 <==> Passes(TriedSweep, h, s, false) && Passes(NewSweep, h, s, false)
  {
    CollectedParts(h, s, found);
    var left, rest;
    code, left := SweepTried(h, s, found.setTried);
    if code != 0 { return; }
    code, rest := SweepNew(h, s, found.mapNew);
    if code != 0 { return; }
    if left != {} { return -13; }
    if rest != map[] { return -15; }
  }

  /** The part after the collected sizes have been compared. */
  method CheckTables(h: Hash, s: State, keyIsNull: bool, found: Found) returns (code: int)
    requires Shaped(s.vvTried, TRIED_BUCKETS) && Shaped(s.vvNew, NEW_BUCKETS)
    requires Collected(h, s, s.mapInfo.Keys, found) && Passes(Sizes, h, s, keyIsNull)
    ensures code == 0 <==> Checked(h, s, keyIsNull)
  {
    AllTests(h, s, keyIsNull);
    code := Sweep(h, s, found);
    if code != 0 { return; }
    if keyIsNull { return -16; }
    CollectedPasses(h, s, keyIsNull, found);
    code := CheckNets(h, s, found.local);
  }

  lemma CollectedPasses(h: Hash, s: State, keyIsNull: bool, found: Found)
    requires Collected(h, s, s.mapInfo.Keys, found)
    ensures Passes(Entries, h, s, keyIsNull) && LocalOk(h, s.mapInfo, s.mapInfo.Keys, found.local)
  {
    CollectedParts(h, s, found);
  }

  lemma CollectedParts(h: Hash, s: State, found: Found)
    requires Collected(h, s, s.mapInfo.Keys, found)
    ensures EntriesOk(s)
    ensures found.setTried == TriedIn(s.mapInfo, s.mapInfo.Keys) && found.mapNew == NewIn(s.mapInfo, s.mapInfo.Keys)
    ensures LocalOk(h, s.mapInfo, s.mapInfo.Keys, found.local)
  {
    assert AspectOk(Verdicts, h, s, s.mapInfo.Keys, found) && AspectOk(Networked, h, s, s.mapInfo.Keys, found);
    assert AspectOk(TriedOnes, h, s, s.mapInfo.Keys, found) && AspectOk(NewOnes, h, s, s.mapInfo.Keys, found);
  }

  lemma AllTests(h: Hash, s: State, keyIsNull: bool)
    ensures Checked(h, s, keyIsNull) <==>
      && Passes(Sizes, h, s, keyIsNull) && Passes(Entries, h, s, keyIsNull) && Passes(TriedSweep, h, s, keyIsNull)
      && Passes(NewSweep, h, s, keyIsNull) && Passes(Key, h, s, keyIsNull) && Passes(Nets, h, s, keyIsNull)
  {
    forall test
      ensures Passes(Sizes, h, s, keyIsNull) && Passes(Entries, h, s, keyIsNull) && Passes(TriedSweep, h, s, keyIsNull)
        && Passes(NewSweep, h, s, keyIsNull) && Passes(Key, h, s, keyIsNull) && Passes(Nets, h, s, keyIsNull)
        ==> Passes(test, h, s, keyIsNull)
    {
      match test
      case Sizes => case Entries => case TriedSweep => case NewSweep => case Key => case Nets =>
    }
  }

  // ---------- the check and the condition every run keeps ----------

  lemma EntryPasses(h: Hash, s: State, id: nat)
    requires Inv(h, s, {}, {}) && TimesOk(s.mapInfo) && id in s.mapInfo
    ensures EntryCode(s, id) == 0
  {
    assert Holds(Status, h, s, {}, {}) && Holds(Addrs, h, s, {}, {}) && Holds(Random, h, s, {}, {});
  }

  lemma NewSlotPasses(h: Hash, s: State, b: nat, i: nat)
    requires Inv(h, s, {}, {})
    ensures NewSlotOk(h, s.mapInfo, s.vvNew, b, i)
  {
    var id := At(s.vvNew, b, i);
    if id != -1 {
      assert Holds(NewSlots, h, s, {}, {}) && Holds(RefCounts, h, s, {}, {}) && Holds(Status, h, s, {}, {});
      RefsPositive(h, s.vvNew, s.mapInfo[id].addr, id, |s.vvNew|, b);
    }
  }

  lemma NetworkIsOnRecord(h: Hash, s: State, id: nat)
    requires Holds(Totals, h, s, {}, {}) && id in s.mapInfo
    ensures h.network(s.mapInfo[id].addr) in s.nets
  {
    var n, tried := h.network(s.mapInfo[id].addr), s.mapInfo[id].inTried;
    assert id in Counted(h, s.mapInfo, {}, tried, OneNet(n));
    assert CountsOn(s.nets, n) == ExactCounts(h, s.mapInfo, n);
  }

  lemma NetsPass(h: Hash, s: State)
    requires Holds(Totals, h, s, {}, {})
    ensures Networks(h, s.mapInfo) <= s.nets.Keys && NetsOk(h, s.mapInfo, s.nets)
  {
    forall n | n in Networks(h, s.mapInfo) ensures n in s.nets {
      var id :| id in s.mapInfo && h.network(s.mapInfo[id].addr) == n;
      NetworkIsOnRecord(h, s, id);
    }
    SubsetIsNoLarger(Networks(h, s.mapInfo), s.nets.Keys);
    assert |s.nets| == |s.nets.Keys|;
    forall n | n in s.nets ensures s.nets[n] == ExactCounts(h, s.mapInfo, n) {
      assert CountsOn(s.nets, n) == s.nets[n];
    }
  }

  /** Every state that runs reach, with fit times and a key, passes the check. */
  lemma ConsistentPasses(h: Hash, s: State)
    requires Inv(h, s, {}, {}) && TimesOk(s.mapInfo)
    ensures Checked(h, s, false)
  {
    forall test ensures Passes(test, h, s, false) {
      match test
      case Sizes =>
        TotalsAddUp(h, s);
        assert Holds(Totals, h, s, {}, {});
      case Entries => forall id | id in s.mapInfo ensures EntryCode(s, id) == 0 { EntryPasses(h, s, id); }
      case TriedSweep => assert Holds(TriedSlots, h, s, {}, {});
      case NewSweep =>
        forall b: nat, i: nat ensures NewSlotOk(h, s.mapInfo, s.vvNew, b, i) { NewSlotPasses(h, s, b, i); }
        assert Holds(RefCounts, h, s, {}, {});
      case Key =>
      case Nets =>
        assert Holds(Totals, h, s, {}, {});
        NetsPass(h, s);
    }
  }

  /** What the check leaves out: stale addresses, ids from the future, and networks not on record. */
  ghost predicate Unchecked(h: Hash, s: State) {
    && (forall x :: x in s.mapAddr ==> s.mapAddr[x] in s.mapInfo && s.mapInfo[s.mapAddr[x]].addr == x)
    && IdsOk(s.mapInfo, s.idCount)
    && Networks(h, s.mapInfo) <= s.nets.Keys
  }

  lemma {:induction false} PositionsCount(m: map<nat, Info>, r: seq<nat>, a: set<nat>)
    requires forall id :: id in a ==> id in m && m[id].randomPos < |r| && r[m[id].randomPos] == id
    ensures |set id | id in a && id in m :: m[id].randomPos| == |a|
    decreases |a|
  {
    var all := set id | id in a && id in m :: m[id].randomPos;
    if a == {} {
      assert all == {};
    } else {
      var x :| x in a;
      var b := a - {x};
      PositionsCount(m, r, b);
      var rest := set id | id in b && id in m :: m[id].randomPos;
      assert all == rest + {m[x].randomPos};
      assert m[x].randomPos !in rest;
    }
  }

  ghost function Below(n: nat): set<nat> { if n == 0 then {} else Below(n - 1) + {n - 1} }

  lemma {:induction false} BelowIs(n: nat)
    ensures |Below(n)| == n && forall i: nat :: i in Below(n) <==> i < n
  {
    if n > 0 { BelowIs(n - 1); }
  }

  lemma FullSubset(a: set<nat>, b: set<nat>)
    requires a <= b && |a| == |b|
    ensures a == b
  {
    if x :| x in b && x !in a {
      SubsetIsNoLarger(a, b - {x});
    }
  }

  /** With as many places as entries, entries that hold their places leave none over. */
  lemma OrderIsFull(m: map<nat, Info>, r: seq<nat>)
    requires |r| == |m| && forall id :: id in m ==> m[id].randomPos < |r| && r[m[id].randomPos] == id
    ensures RandomOk(m, r)
  {
    var all := set id | id in m.Keys && id in m :: m[id].randomPos;
    PositionsCount(m, r, m.Keys);
    BelowIs(|r|);
    assert |m| == |m.Keys|;
    FullSubset(all, Below(|r|));
    forall i: nat | i < |r| ensures r[i] in m && m[r[i]].randomPos == i {
      assert i in all;
    }
  }

  lemma RefsFollow(h: Hash, s: State)
    requires EntriesOk(s) && NewTableOk(h, s.mapInfo, s.vvNew) && NewAreHeld(h, s.mapInfo, s.vvNew)
    ensures RefsOk(h, s.mapInfo, s.vvNew)
  {
    forall id | id in s.mapInfo
      ensures s.mapInfo[id].refCount == Refs(h, s.vvNew, s.mapInfo[id].addr, id, |s.vvNew|)
    {
      assert EntryCode(s, id) == 0;
      if s.mapInfo[id].inTried {
        forall b: nat | b < |s.vvNew| ensures At(s.vvNew, b, NewPos(h, s.mapInfo[id].addr, b)) != id {
          assert NewSlotOk(h, s.mapInfo, s.vvNew, b, NewPos(h, s.mapInfo[id].addr, b));
        }
        NoOwnSlot(h, s.vvNew, s.mapInfo[id].addr, id, |s.vvNew|);
      }
    }
  }

  lemma CountsFollow(h: Hash, s: State)
    requires Passes(Sizes, h, s, false) && Passes(Nets, h, s, false) && Networks(h, s.mapInfo) <= s.nets.Keys
    ensures Holds(Totals, h, s, {}, {})
  {
    forall n ensures CountsOn(s.nets, n) == ExactCounts(h, s.mapInfo, n) {
      if n !in s.nets {
        NoEntriesElsewhere(h, s.mapInfo, n);
      }
    }
  }

  lemma NoEntriesElsewhere(h: Hash, m: map<nat, Info>, n: nat)
    requires n !in Networks(h, m)
    ensures ExactCounts(h, m, n) == Counts(0, 0)
  {
    assert forall id :: id in m ==> h.network(m[id].addr) in Networks(h, m);
    assert Counted(h, m, {}, false, OneNet(n)) == {};
    assert Counted(h, m, {}, true, OneNet(n)) == {};
  }

  lemma SlotsFollow(h: Hash, s: State)
    requires Shaped(s.vvTried, TRIED_BUCKETS) && Shaped(s.vvNew, NEW_BUCKETS)
    requires Passes(TriedSweep, h, s, false) && Passes(NewSweep, h, s, false)
    ensures TriedOk(h, s.mapInfo, s.vvTried) && NewSlotsOk(h, s.mapInfo, s.vvNew)
  {
    var m := s.mapInfo;
    forall b: nat, i: nat | At(s.vvTried, b, i) != -1
      ensures At(s.vvTried, b, i) >= 0 && At(s.vvTried, b, i) in m && m[At(s.vvTried, b, i)].inTried
      ensures b == TriedBucket(h, m[At(s.vvTried, b, i)].addr) && i == TriedPos(h, m[At(s.vvTried, b, i)].addr)
    {
      assert TriedSlotOk(h, m, s.vvTried, b, i);
    }
    forall b: nat, i: nat | At(s.vvNew, b, i) != -1
      ensures At(s.vvNew, b, i) >= 0 && At(s.vvNew, b, i) in m && i == NewPos(h, m[At(s.vvNew, b, i)].addr, b)
    {
      assert NewSlotOk(h, m, s.vvNew, b, i);
    }
  }

  lemma OrderFollows(h: Hash, s: State)
    requires Passes(Sizes, h, s, false) && Passes(Entries, h, s, false)
    ensures RandomOk(s.mapInfo, s.vRandom)
  {
    NewOrTried(h, s.mapInfo);
    forall id | id in s.mapInfo
      ensures s.mapInfo[id].randomPos < |s.vRandom| && s.vRandom[s.mapInfo[id].randomPos] == id
    {
      assert EntryCode(s, id) == 0;
    }
    OrderIsFull(s.mapInfo, s.vRandom);
  }

  /** Passing the check is the condition every run keeps, but for the three things it leaves out. */
  lemma CheckIsExact(h: Hash, s: State)
    requires Shaped(s.vvTried, TRIED_BUCKETS) && Shaped(s.vvNew, NEW_BUCKETS)
    ensures Checked(h, s, false) && Unchecked(h, s) <==> Inv(h, s, {}, {}) && TimesOk(s.mapInfo)
  {
    if Inv(h, s, {}, {}) && TimesOk(s.mapInfo) {
      ConsistentPasses(h, s);
      assert Holds(Addrs, h, s, {}, {}) && Holds(Ids, h, s, {}, {}) && Holds(Totals, h, s, {}, {});
      NetsPass(h, s);
    }
    if Checked(h, s, false) && Unchecked(h, s) { PassingIsConsistent(h, s); }
  }

  lemma EntriesFollow(s: State)
    requires EntriesOk(s)
    ensures forall id :: id in s.mapInfo ==> s.mapInfo[id].addr in s.mapAddr && s.mapAddr[s.mapInfo[id].addr] == id
    ensures StatusOk(s.mapInfo, {}) && TimesOk(s.mapInfo)
  {
    forall id | id in s.mapInfo ensures EntryCode(s, id) == 0 {
    }
  }

  lemma PassingIsConsistent(h: Hash, s: State)
    requires Shaped(s.vvTried, TRIED_BUCKETS) && Shaped(s.vvNew, NEW_BUCKETS)
    requires Checked(h, s, false) && Unchecked(h, s)
    ensures Inv(h, s, {}, {}) && TimesOk(s.mapInfo)
  {
    assert Passes(Entries, h, s, false);
    EntriesFollow(s);
    forall part ensures Holds(part, h, s, {}, {}) {
      PartFollows(part, h, s);
    }
  }

  lemma PartFollows(part: Part, h: Hash, s: State)
    requires Shaped(s.vvTried, TRIED_BUCKETS) && Shaped(s.vvNew, NEW_BUCKETS)
    requires Checked(h, s, false) && Unchecked(h, s)
    ensures Holds(part, h, s, {}, {})
  {
    match part
    case Addrs =>
      assert Passes(Entries, h, s, false);
      EntriesFollow(s);
    case Random =>
      assert Passes(Sizes, h, s, false) && Passes(Entries, h, s, false);
      OrderFollows(h, s);
    case NewSlots =>
      assert Passes(TriedSweep, h, s, false) && Passes(NewSweep, h, s, false);
      SlotsFollow(h, s);
    case RefCounts =>
      assert Passes(Entries, h, s, false) && Passes(NewSweep, h, s, false);
      RefsFollow(h, s);
    case TriedSlots =>
      assert Passes(TriedSweep, h, s, false) && Passes(NewSweep, h, s, false);
      SlotsFollow(h, s);
    case Status =>
      assert Passes(Entries, h, s, false);
      EntriesFollow(s);
    case Totals =>
      assert Passes(Sizes, h, s, false) && Passes(Nets, h, s, false);
      CountsFollow(h, s);
    case Ids =>
  }

  /**
   The number of networks on record is compared, not which they are: an entry's network can be
   missing from the record, with an empty one in its place, and the check passes.
   */
  lemma MissingNetworkPasses(h: Hash, s: State, x: nat, y: nat)
    requires Inv(h, s, {}, {}) && TimesOk(s.mapInfo)
    requires x in Networks(h, s.mapInfo) && y !in Networks(h, s.mapInfo) && y !in s.nets
    ensures var t := s.(nets := (s.nets - {x})[y := Counts(0, 0)]);
            Checked(h, t, false) && CountsOn(t.nets, x) != ExactCounts(h, s.mapInfo, x)
  {
    var t := s.(nets := (s.nets - {x})[y := Counts(0, 0)]);
    ConsistentPasses(h, s);
    assert Holds(Totals, h, s, {}, {});
    NetsPass(h, s);
    SwappedNet(h, s.mapInfo, s.nets, x, y);
    OtherTestsStay(h, s, t);
    SomeEntryCounts(h, s.mapInfo, x);
  }

  lemma SomeEntryCounts(h: Hash, m: map<nat, Info>, x: nat)
    requires x in Networks(h, m)
    ensures ExactCounts(h, m, x) != Counts(0, 0)
  {
    var id :| id in m && h.network(m[id].addr) == x;
    assert id in Counted(h, m, {}, m[id].inTried, OneNet(x));
  }

  lemma OtherTestsStay(h: Hash, s: State, t: State)
    requires Checked(h, s, false) && t == s.(nets := t.nets) && NetsOk(h, t.mapInfo, t.nets)
    ensures Checked(h, t, false)
  {
    forall test ensures Passes(test, h, t, false) {
      assert Passes(test, h, s, false);
      if test == Entries { SameEntries(s, t); }
    }
  }

  lemma SameEntries(s: State, t: State)
    requires EntriesOk(s) && t == s.(nets := t.nets)
    ensures EntriesOk(t)
  {
    forall id | id in t.mapInfo ensures EntryCode(t, id) == 0 {
      assert EntryCode(s, id) == 0;
    }
  }

  lemma SwappedNet(h: Hash, m: map<nat, Info>, nets: map<nat, Counts>, x: nat, y: nat)
    requires NetsOk(h, m, nets) && x in nets && y !in nets && y !in Networks(h, m)
    ensures NetsOk(h, m, (nets - {x})[y := Counts(0, 0)])
  {
    var next := (nets - {x})[y := Counts(0, 0)];
    SwappedSize(nets, x, y);
    forall n | n in next ensures next[n] == ExactCounts(h, m, n) {
      if n == y { NoEntriesElsewhere(h, m, y); } else { assert n in nets && next[n] == nets[n]; }
    }
  }

  lemma SwappedSize(nets: map<nat, Counts>, x: nat, y: nat)
    requires x in nets && y !in nets
    ensures |(nets - {x})[y := Counts(0, 0)]| == |nets|
  {
    var next := (nets - {x})[y := Counts(0, 0)];
    assert next.Keys == nets.Keys - {x} + {y};
    assert |next| == |next.Keys| && |nets| == |nets.Keys|;
  }
}
