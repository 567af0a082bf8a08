/** The elementary steps of the address manager and what each of them keeps. */
module AddrSteps {
  import opened AddrTables

  // ---------- the steps ----------

  function Bump(nets: map<nat, Counts>, network: nat, dNew: int, dTried: int): map<nat, Counts> {
    var c := CountsOn(nets, network);
    nets[network := Counts(c.isNew + dNew, c.isTried + dTried)]
  }

  predicate CanSwap(s: State, p: nat, q: nat) {
    p < |s.vRandom| && q < |s.vRandom| && s.vRandom[p] in s.mapInfo && s.vRandom[q] in s.mapInfo
  }

  /** Exchange two positions of the random order. */
  function Swapped(s: State, p: nat, q: nat): State
    requires CanSwap(s, p, q)
  {
    if p == q then s else
      var a, b := s.vRandom[p], s.vRandom[q];
      var m := s.mapInfo[a := s.mapInfo[a].(randomPos := q)];
      s.(mapInfo := m[b := m[b].(randomPos := p)], vRandom := s.vRandom[p := b][q := a])
  }

  /** A new entry, in no table yet but counted as new. */
  function Created(h: Hash, s: State, addr: nat, source: nat, time: int, services: set<nat>): State {
    s.(idCount := s.idCount + 1,
       mapInfo := s.mapInfo[s.idCount := Info(addr, source, time, services, 0, 0, 0, 0, 0, false, |s.vRandom|)],
       mapAddr := s.mapAddr[addr := s.idCount],
       vRandom := s.vRandom + [s.idCount],
       nNew := s.nNew + 1,
       nets := Bump(s.nets, h.network(addr), 1, 0))
  }

  /** What Delete asserts of its entry, and the lookups it makes. */
  predicate CanDelete(s: State, id: nat) {
    && id in s.mapInfo && !s.mapInfo[id].inTried && s.mapInfo[id].refCount == 0
    && |s.vRandom| > 0 && CanSwap(s, s.mapInfo[id].randomPos, |s.vRandom| - 1)
  }

  /** Forget the entry that is last in the random order. */
  function Removed(h: Hash, t: State, id: nat): State
    requires id in t.mapInfo && t.vRandom != []
  {
    t.(nets := Bump(t.nets, h.network(t.mapInfo[id].addr), -1, 0),
       vRandom := t.vRandom[..|t.vRandom| - 1],
       mapAddr := t.mapAddr - {t.mapInfo[id].addr},
       mapInfo := t.mapInfo - {id},
       nNew := t.nNew - 1)
  }

  function Deleted(h: Hash, s: State, id: nat): State
    requires CanDelete(s, id)
  {
    Removed(h, Swapped(s, s.mapInfo[id].randomPos, |s.vRandom| - 1), id)
  }

  /** A new slot that holds a referenced entry. */
  predicate CanDrop(s: State, b: nat, i: nat) {
    && b < |s.vvNew| && i < |s.vvNew[b]| && At(s.vvNew, b, i) >= 0
    && At(s.vvNew, b, i) in s.mapInfo && s.mapInfo[At(s.vvNew, b, i)].refCount > 0
  }

  /** Empty one new slot. */
  function Dropped(s: State, b: nat, i: nat): State
    requires CanDrop(s, b, i)
  {
    var id: nat := At(s.vvNew, b, i);
    s.(mapInfo := s.mapInfo[id := s.mapInfo[id].(refCount := s.mapInfo[id].refCount - 1)],
       vvNew := Put(s.vvNew, b, i, -1))
  }

  /** Fill one empty new slot. */
  function Referenced(s: State, id: nat, b: nat, i: nat): State
    requires id in s.mapInfo && b < |s.vvNew| && i < |s.vvNew[b]|
  {
    s.(mapInfo := s.mapInfo[id := s.mapInfo[id].(refCount := s.mapInfo[id].refCount + 1)],
       vvNew := Put(s.vvNew, b, i, id))
  }

  /** Count an entry as new, or no longer. */
  function Recounted(h: Hash, s: State, id: nat, d: int): State
    requires id in s.mapInfo
  {
    s.(nNew := s.nNew + d, nets := Bump(s.nets, h.network(s.mapInfo[id].addr), d, 0))
  }

  /** Take an entry out of its tried slot. */
  function Untried(h: Hash, s: State, id: nat, b: nat, i: nat): State
    requires id in s.mapInfo && b < |s.vvTried| && i < |s.vvTried[b]|
  {
    s.(mapInfo := s.mapInfo[id := s.mapInfo[id].(inTried := false)], vvTried := Put(s.vvTried, b, i, -1),
       nTried := s.nTried - 1, nets := Bump(s.nets, h.network(s.mapInfo[id].addr), 0, -1))
  }

  /** Put an entry into an empty tried slot. */
  function Retried(h: Hash, s: State, id: nat, b: nat, i: nat): State
    requires id in s.mapInfo && b < |s.vvTried| && i < |s.vvTried[b]|
  {
    s.(mapInfo := s.mapInfo[id := s.mapInfo[id].(inTried := true)], vvTried := Put(s.vvTried, b, i, id),
       nTried := s.nTried + 1, nets := Bump(s.nets, h.network(s.mapInfo[id].addr), 0, 1))
  }

  // ---------- parts that a step does not touch ----------

  /** The same ids with the same addresses. */
  ghost predicate SameAddrs(m: map<nat, Info>, n: map<nat, Info>) {
    (forall id :: id in m <==> id in n) && (forall id :: id in m ==> m[id].addr == n[id].addr)
  }

  ghost predicate SameRandom(m: map<nat, Info>, n: map<nat, Info>) {
    forall id :: id in m && id in n ==> m[id].randomPos == n[id].randomPos
  }

  ghost predicate SameTried(m: map<nat, Info>, n: map<nat, Info>) {
    forall id :: id in m && id in n ==> m[id].inTried == n[id].inTried
  }

  ghost predicate SameRefs(m: map<nat, Info>, n: map<nat, Info>) {
    forall id :: id in m && id in n ==> m[id].refCount == n[id].refCount
  }

  lemma KeepAddrs(m: map<nat, Info>, n: map<nat, Info>, a: map<nat, nat>)
    requires SameAddrs(m, n) && AddrsOk(m, a)
    ensures AddrsOk(n, a)
  {
  }

  lemma KeepRandom(m: map<nat, Info>, n: map<nat, Info>, r: seq<nat>)
    requires SameAddrs(m, n) && SameRandom(m, n) && RandomOk(m, r)
    ensures RandomOk(n, r)
  {
  }

  lemma KeepNewSlots(h: Hash, m: map<nat, Info>, n: map<nat, Info>, t: Table)
    requires SameAddrs(m, n) && NewSlotsOk(h, m, t)
    ensures NewSlotsOk(h, n, t)
  {
  }

  lemma KeepRefs(h: Hash, m: map<nat, Info>, n: map<nat, Info>, t: Table)
    requires SameAddrs(m, n) && SameRefs(m, n) && RefsOk(h, m, t)
    ensures RefsOk(h, n, t)
  {
  }

  lemma KeepTried(h: Hash, m: map<nat, Info>, n: map<nat, Info>, t: Table)
    requires SameAddrs(m, n) && SameTried(m, n) && TriedOk(h, m, t)
    ensures TriedOk(h, n, t)
  {
  }

  lemma KeepStatus(m: map<nat, Info>, n: map<nat, Info>, loose: set<nat>)
    requires SameAddrs(m, n) && SameTried(m, n) && SameRefs(m, n) && StatusOk(m, loose)
    ensures StatusOk(n, loose)
  {
  }

  lemma KeepCounted(h: Hash, m: map<nat, Info>, n: map<nat, Info>, uncounted: set<nat>, tried: bool, net: Net)
    requires SameAddrs(m, n) && SameTried(m, n)
    ensures Counted(h, m, uncounted, tried, net) == Counted(h, n, uncounted, tried, net)
  {
  }

  lemma KeepCounts(h: Hash, m: map<nat, Info>, n: map<nat, Info>, uncounted: set<nat>, nNew: int,
                   nTried: int, nets: map<nat, Counts>)
    requires SameAddrs(m, n) && SameTried(m, n) && CountsOk(h, m, uncounted, nNew, nTried, nets)
    ensures CountsOk(h, n, uncounted, nNew, nTried, nets)
  {
    KeepCounted(h, m, n, uncounted, false, AnyNet);
    KeepCounted(h, m, n, uncounted, true, AnyNet);
    forall x ensures CountsOn(nets, x)
      == Counts(|Counted(h, n, uncounted, false, OneNet(x))|, |Counted(h, n, uncounted, true, OneNet(x))|)
    {
      KeepCounted(h, m, n, uncounted, false, OneNet(x));
      KeepCounted(h, m, n, uncounted, true, OneNet(x));
    }
  }

  /** A change to times, services or attempts keeps everything. */
  lemma KeepInv(h: Hash, s: State, t: State, loose: set<nat>, uncounted: set<nat>)
    requires Inv(h, s, loose, uncounted)
    requires SameAddrs(s.mapInfo, t.mapInfo) && SameRandom(s.mapInfo, t.mapInfo)
    requires SameTried(s.mapInfo, t.mapInfo) && SameRefs(s.mapInfo, t.mapInfo)
    requires t == s.(mapInfo := t.mapInfo, collisions := t.collisions, lastGood := t.lastGood)
    ensures Inv(h, t, loose, uncounted)
  {
    forall part ensures Holds(part, h, t, loose, uncounted) {
      assert Holds(part, h, s, loose, uncounted);
      match part {
        case Addrs => KeepAddrs(s.mapInfo, t.mapInfo, s.mapAddr);
        case Random => KeepRandom(s.mapInfo, t.mapInfo, s.vRandom);
        case NewSlots => KeepNewSlots(h, s.mapInfo, t.mapInfo, s.vvNew);
        case RefCounts => KeepRefs(h, s.mapInfo, t.mapInfo, s.vvNew);
        case TriedSlots => KeepTried(h, s.mapInfo, t.mapInfo, s.vvTried);
        case Status => KeepStatus(s.mapInfo, t.mapInfo, loose);
        case Totals => KeepCounts(h, s.mapInfo, t.mapInfo, uncounted, s.nNew, s.nTried, s.nets);
        case Ids =>
      }
    }
  }

  // ---------- counts when one id enters or leaves a class ----------

  /** Between `m` and `n`, `id` enters the class of new (or tried) ids and nothing else moves. */
  ghost predicate Enters(h: Hash, m: map<nat, Info>, u: set<nat>, n: map<nat, Info>, v: set<nat>, id: nat,
                         tried: bool, net: Net) {
    && id in n
    && id !in Counted(h, m, u, tried, net)
    && Counted(h, n, v, tried, net) == Counted(h, m, u, tried, net) + (if On(h, n[id].addr, net) then {id} else {})
    && Counted(h, n, v, !tried, net) == Counted(h, m, u, !tried, net)
  }

  ghost predicate EntersAll(h: Hash, m: map<nat, Info>, u: set<nat>, n: map<nat, Info>, v: set<nat>, id: nat,
                            tried: bool) {
    id in n && forall net :: Enters(h, m, u, n, v, id, tried, net)
  }

  lemma EnterOne(h: Hash, m: map<nat, Info>, u: set<nat>, n: map<nat, Info>, v: set<nat>, id: nat,
                 tried: bool, net: Net)
    requires Enters(h, m, u, n, v, id, tried, net)
    ensures |Counted(h, n, v, tried, net)| == |Counted(h, m, u, tried, net)| + (if On(h, n[id].addr, net) then 1 else 0)
    ensures |Counted(h, n, v, !tried, net)| == |Counted(h, m, u, !tried, net)|
  {
  }

  lemma BumpOn(nets: map<nat, Counts>, network: nat, dNew: int, dTried: int, n: nat)
    ensures CountsOn(Bump(nets, network, dNew, dTried), n) ==
      (if n == network then Counts(CountsOn(nets, n).isNew + dNew, CountsOn(nets, n).isTried + dTried)
        else CountsOn(nets, n))
  {
  }

  lemma CountsEnter(h: Hash, m: map<nat, Info>, u: set<nat>, n: map<nat, Info>, v: set<nat>, id: nat, tried: bool,
                    nNew: int, nTried: int, nets: map<nat, Counts>)
    requires EntersAll(h, m, u, n, v, id, tried) && CountsOk(h, m, u, nNew, nTried, nets)
    ensures var d, e := if tried then 0 else 1, if tried then 1 else 0;
      CountsOk(h, n, v, nNew + d, nTried + e, Bump(nets, h.network(n[id].addr), d, e))
  {
    var d, e := if tried then 0 else 1, if tried then 1 else 0;
    var after := Bump(nets, h.network(n[id].addr), d, e);
    assert Enters(h, m, u, n, v, id, tried, AnyNet);
    EnterOne(h, m, u, n, v, id, tried, AnyNet);
    forall x
      ensures CountsOn(after, x) == Counts(|Counted(h, n, v, false, OneNet(x))|, |Counted(h, n, v, true, OneNet(x))|) {
      assert Enters(h, m, u, n, v, id, tried, OneNet(x));
      EnterOne(h, m, u, n, v, id, tried, OneNet(x));
      BumpOn(nets, h.network(n[id].addr), d, e, x);
    }
  }

  lemma CountsLeave(h: Hash, m: map<nat, Info>, u: set<nat>, n: map<nat, Info>, v: set<nat>, id: nat, tried: bool,
                    nNew: int, nTried: int, nets: map<nat, Counts>)
    requires EntersAll(h, m, u, n, v, id, tried) && CountsOk(h, n, v, nNew, nTried, nets)
    ensures var d, e := if tried then 0 else -1, if tried then -1 else 0;
      CountsOk(h, m, u, nNew + d, nTried + e, Bump(nets, h.network(n[id].addr), d, e))
  {
    var d, e := if tried then 0 else -1, if tried then -1 else 0;
    var after := Bump(nets, h.network(n[id].addr), d, e);
    assert Enters(h, m, u, n, v, id, tried, AnyNet);
    EnterOne(h, m, u, n, v, id, tried, AnyNet);
    forall x
      ensures CountsOn(after, x) == Counts(|Counted(h, m, u, false, OneNet(x))|, |Counted(h, m, u, true, OneNet(x))|) {
      assert Enters(h, m, u, n, v, id, tried, OneNet(x));
      EnterOne(h, m, u, n, v, id, tried, OneNet(x));
      BumpOn(nets, h.network(n[id].addr), d, e, x);
    }
  }

  ghost predicate SameEntry(a: Info, b: Info) {
    a.addr == b.addr && a.inTried == b.inTried && a.refCount == b.refCount && a.randomPos == b.randomPos
  }

  /** `n` has the same entries as `m` apart from `id`. */
  ghost predicate SameBut(m: map<nat, Info>, n: map<nat, Info>, id: nat) {
    && (forall x :: x != id ==> (x in m <==> x in n))
    && (forall x :: x != id && x in m ==> SameEntry(m[x], n[x]))
  }

  /** An id that was absent or uncounted and is now counted. */
  lemma EntersWhen(h: Hash, m: map<nat, Info>, u: set<nat>, n: map<nat, Info>, v: set<nat>, id: nat)
    requires SameBut(m, n, id) && (forall x :: x != id ==> (x in u <==> x in v))
    requires id in n && id !in v && (id !in m || id in u)
    ensures EntersAll(h, m, u, n, v, id, n[id].inTried)
  {
    forall net ensures Enters(h, m, u, n, v, id, n[id].inTried, net) {
      assert forall x :: x != id && x in m ==> On(h, m[x].addr, net) == On(h, n[x].addr, net);
    }
  }

  // ---------- one lemma for each step ----------

  lemma SwapEntries(m: map<nat, Info>, r: seq<nat>, p: nat, q: nat, n: map<nat, Info>, t: seq<nat>)
    requires RandomOk(m, r) && p < |r| && q < |r| && p != q
    requires n == m[r[p] := m[r[p]].(randomPos := q)][r[q] := m[r[q]].(randomPos := p)]
    requires t == r[p := r[q]][q := r[p]]
    ensures RandomOk(n, t)
  {
    assert r[p] != r[q];
    forall i | 0 <= i < |t| ensures t[i] in n && n[t[i]].randomPos == i {
      assert r[i] in m && m[r[i]].randomPos == i;
    }
    forall id | id in n ensures n[id].randomPos < |t| && t[n[id].randomPos] == id {
      assert m[id].randomPos < |r| && r[m[id].randomPos] == id;
    }
  }

  lemma SwapKeepsRandom(s: State, p: nat, q: nat)
    requires CanSwap(s, p, q) && RandomOk(s.mapInfo, s.vRandom)
    ensures var t := Swapped(s, p, q); RandomOk(t.mapInfo, t.vRandom) && |t.vRandom| == |s.vRandom|
  {
    if p != q {
      var t := Swapped(s, p, q);
      var a, b := s.vRandom[p], s.vRandom[q];
      assert a != b;
      assert s.mapInfo[a := s.mapInfo[a].(randomPos := q)][b] == s.mapInfo[b];
      SwapEntries(s.mapInfo, s.vRandom, p, q, t.mapInfo, t.vRandom);
    }
  }

  lemma SwapIsSame(s: State, p: nat, q: nat)
    requires CanSwap(s, p, q)
    ensures var t := Swapped(s, p, q);
      SameAddrs(s.mapInfo, t.mapInfo) && SameTried(s.mapInfo, t.mapInfo) && SameRefs(s.mapInfo, t.mapInfo)
  {
  }

  /** Reordering vRandom keeps it the list of ids. */
  lemma SwapKeeps(h: Hash, s: State, p: nat, q: nat, loose: set<nat>, uncounted: set<nat>)
    requires CanSwap(s, p, q) && Inv(h, s, loose, uncounted)
    ensures Inv(h, Swapped(s, p, q), loose, uncounted)
  {
    var t := Swapped(s, p, q);
    SwapIsSame(s, p, q);
    forall part ensures Holds(part, h, t, loose, uncounted) {
      assert Holds(part, h, s, loose, uncounted);
      match part {
        case Addrs => KeepAddrs(s.mapInfo, t.mapInfo, s.mapAddr);
        case Random => SwapKeepsRandom(s, p, q);
        case NewSlots => KeepNewSlots(h, s.mapInfo, t.mapInfo, s.vvNew);
        case RefCounts => KeepRefs(h, s.mapInfo, t.mapInfo, s.vvNew);
        case TriedSlots => KeepTried(h, s.mapInfo, t.mapInfo, s.vvTried);
        case Status => KeepStatus(s.mapInfo, t.mapInfo, loose);
        case Totals => KeepCounts(h, s.mapInfo, t.mapInfo, uncounted, s.nNew, s.nTried, s.nets);
        case Ids =>
      }
    }
  }

  lemma {:induction false} NoRefs(h: Hash, t: Table, addr: nat, id: nat, n: nat)
    requires forall b: nat, i: nat {:trigger At(t, b, i)} :: At(t, b, i) != id
    ensures Refs(h, t, addr, id, n) == 0
  {
    if n > 0 {
      NoRefs(h, t, addr, id, n - 1);
    }
  }

  lemma AddrsWith(m: map<nat, Info>, a: map<nat, nat>, id: nat, info: Info)
    requires AddrsOk(m, a) && id !in m && info.addr !in a
    ensures AddrsOk(m[id := info], a[info.addr := id])
  {
  }

  lemma RandomWith(m: map<nat, Info>, r: seq<nat>, id: nat, info: Info)
    requires RandomOk(m, r) && id !in m && info.randomPos == |r|
    ensures RandomOk(m[id := info], r + [id])
  {
    var n, t := m[id := info], r + [id];
    forall i | 0 <= i < |t| ensures t[i] in n && n[t[i]].randomPos == i {
      assert i < |r| ==> r[i] in m;
    }
  }

  lemma NewSlotsWith(h: Hash, m: map<nat, Info>, t: Table, id: nat, info: Info)
    requires NewSlotsOk(h, m, t) && id !in m
    ensures NewSlotsOk(h, m[id := info], t)
  {
  }

  lemma RefsWith(h: Hash, m: map<nat, Info>, t: Table, id: nat, info: Info)
    requires NewSlotsOk(h, m, t) && RefsOk(h, m, t) && id !in m && info.refCount == 0
    ensures RefsOk(h, m[id := info], t)
  {
    forall b: nat, i: nat {:trigger At(t, b, i)} ensures At(t, b, i) != id {
      assert At(t, b, i) != -1 ==> At(t, b, i) in m;
    }
    NoRefs(h, t, info.addr, id, |t|);
  }

  lemma TriedWith(h: Hash, m: map<nat, Info>, t: Table, id: nat, info: Info)
    requires TriedOk(h, m, t) && id !in m && !info.inTried
    ensures TriedOk(h, m[id := info], t)
  {
  }

  lemma StatusWith(m: map<nat, Info>, loose: set<nat>, id: nat, info: Info)
    requires StatusOk(m, loose) && id !in m && !info.inTried && info.refCount == 0
    ensures StatusOk(m[id := info], loose + {id})
  {
  }

  lemma CountsWith(h: Hash, m: map<nat, Info>, u: set<nat>, id: nat, info: Info, nNew: int, nTried: int,
                   nets: map<nat, Counts>)
    requires CountsOk(h, m, u, nNew, nTried, nets) && id !in m && id !in u && !info.inTried
    ensures CountsOk(h, m[id := info], u, nNew + 1, nTried, Bump(nets, h.network(info.addr), 1, 0))
  {
    EntersWhen(h, m, u, m[id := info], u, id);
    CountsEnter(h, m, u, m[id := info], u, id, false, nNew, nTried, nets);
  }

  /** A new entry is loose until it is given a slot. */
  lemma CreateKeeps(h: Hash, s: State, addr: nat, source: nat, time: int, services: set<nat>,
                    loose: set<nat>, uncounted: set<nat>)
    requires Inv(h, s, loose, uncounted) && addr !in s.mapAddr
    ensures Inv(h, Created(h, s, addr, source, time, services), loose + {s.idCount}, uncounted)
  {
    var id, info := s.idCount, Info(addr, source, time, services, 0, 0, 0, 0, 0, false, |s.vRandom|);
    var t := Created(h, s, addr, source, time, services);
    assert id !in s.mapInfo by { assert Holds(Ids, h, s, loose, uncounted); }
    forall part ensures Holds(part, h, t, loose + {id}, uncounted) {
      assert Holds(part, h, s, loose, uncounted);
      match part {
        case Addrs => AddrsWith(s.mapInfo, s.mapAddr, id, info);
        case Random => RandomWith(s.mapInfo, s.vRandom, id, info);
        case NewSlots => NewSlotsWith(h, s.mapInfo, s.vvNew, id, info);
        case RefCounts =>
          assert Holds(NewSlots, h, s, loose, uncounted);
          RefsWith(h, s.mapInfo, s.vvNew, id, info);
        case TriedSlots => TriedWith(h, s.mapInfo, s.vvTried, id, info);
        case Status => StatusWith(s.mapInfo, loose, id, info);
        case Totals =>
          assert Holds(Status, h, s, loose, uncounted);
          CountsWith(h, s.mapInfo, uncounted, id, info, s.nNew, s.nTried, s.nets);
        case Ids =>
      }
    }
  }

  // ---------- deleting ----------

  lemma AddrsWithout(m: map<nat, Info>, a: map<nat, nat>, id: nat)
    requires AddrsOk(m, a) && id in m
    ensures AddrsOk(m - {id}, a - {m[id].addr})
  {
  }

  lemma RandomWithout(m: map<nat, Info>, r: seq<nat>, id: nat)
    requires RandomOk(m, r) && r != [] && r[|r| - 1] == id
    ensures RandomOk(m - {id}, r[..|r| - 1])
  {
    forall x | x in m - {id} ensures m[x].randomPos < |r| - 1 {
      assert r[m[x].randomPos] == x;
    }
    forall i | 0 <= i < |r| - 1 ensures r[i] != id {
      assert m[r[i]].randomPos == i;
    }
  }

  /** An entry without references is in no new slot. */
  lemma NotInNew(h: Hash, m: map<nat, Info>, t: Table, id: nat)
    requires NewSlotsOk(h, m, t) && RefsOk(h, m, t) && id in m && m[id].refCount == 0
    ensures forall b: nat, i: nat {:trigger At(t, b, i)} :: At(t, b, i) != id
  {
    forall b: nat, i: nat {:trigger At(t, b, i)} ensures At(t, b, i) != id {
      if At(t, b, i) == id {
        assert i == NewPos(h, m[id].addr, b) && b < NEW_BUCKETS;
        RefsPositive(h, t, m[id].addr, id, |t|, b);
      }
    }
  }

  lemma NewSlotsWithout(h: Hash, m: map<nat, Info>, t: Table, id: nat)
    requires NewSlotsOk(h, m, t) && RefsOk(h, m, t) && id in m && m[id].refCount == 0
    ensures NewSlotsOk(h, m - {id}, t) && RefsOk(h, m - {id}, t)
  {
    NotInNew(h, m, t, id);
  }

  lemma TriedWithout(h: Hash, m: map<nat, Info>, t: Table, id: nat)
    requires TriedOk(h, m, t) && id in m && !m[id].inTried
    ensures TriedOk(h, m - {id}, t)
  {
  }

  lemma StatusWithout(m: map<nat, Info>, loose: set<nat>, id: nat)
    requires StatusOk(m, loose)
    ensures StatusOk(m - {id}, loose - {id})
  {
  }

  lemma CountsWithout(h: Hash, m: map<nat, Info>, u: set<nat>, id: nat, nNew: int, nTried: int,
                      nets: map<nat, Counts>)
    requires CountsOk(h, m, u, nNew, nTried, nets) && id in m && id !in u && !m[id].inTried
    ensures CountsOk(h, m - {id}, u, nNew - 1, nTried, Bump(nets, h.network(m[id].addr), -1, 0))
  {
    EntersWhen(h, m - {id}, u, m, u, id);
    CountsLeave(h, m - {id}, u, m, u, id, false, nNew, nTried, nets);
  }

  lemma SwapMovesLast(s: State, id: nat)
    requires RandomOk(s.mapInfo, s.vRandom) && id in s.mapInfo
    requires |s.vRandom| > 0 && CanSwap(s, s.mapInfo[id].randomPos, |s.vRandom| - 1)
    ensures var t := Swapped(s, s.mapInfo[id].randomPos, |s.vRandom| - 1);
      |t.vRandom| == |s.vRandom| && t.vRandom[|t.vRandom| - 1] == id
  {
  }

  lemma RemoveKeeps(h: Hash, t: State, id: nat, loose: set<nat>, uncounted: set<nat>)
    requires Inv(h, t, loose, uncounted) && id in loose && id !in uncounted
    requires id in t.mapInfo && t.vRandom != [] && t.vRandom[|t.vRandom| - 1] == id
    ensures Inv(h, Removed(h, t, id), loose - {id}, uncounted)
  {
    var r := Removed(h, t, id);
    assert id in t.mapInfo && !t.mapInfo[id].inTried && t.mapInfo[id].refCount == 0 by {
      assert Holds(Status, h, t, loose, uncounted);
    }
    forall part ensures Holds(part, h, r, loose - {id}, uncounted) {
      assert Holds(part, h, t, loose, uncounted);
      match part {
        case Addrs => AddrsWithout(t.mapInfo, t.mapAddr, id);
        case Random => RandomWithout(t.mapInfo, t.vRandom, id);
        case NewSlots =>
          assert Holds(RefCounts, h, t, loose, uncounted);
          NewSlotsWithout(h, t.mapInfo, t.vvNew, id);
        case RefCounts =>
          assert Holds(NewSlots, h, t, loose, uncounted);
          NewSlotsWithout(h, t.mapInfo, t.vvNew, id);
        case TriedSlots => TriedWithout(h, t.mapInfo, t.vvTried, id);
        case Status => StatusWithout(t.mapInfo, loose, id);
        case Totals => CountsWithout(h, t.mapInfo, uncounted, id, t.nNew, t.nTried, t.nets);
        case Ids =>
      }
    }
  }

  lemma LooseCanBeDeleted(h: Hash, s: State, id: nat, loose: set<nat>, uncounted: set<nat>)
    requires Inv(h, s, loose, uncounted) && id in loose
    ensures CanDelete(s, id) && RandomOk(s.mapInfo, s.vRandom)
  {
    assert Holds(Status, h, s, loose, uncounted);
    assert Holds(Random, h, s, loose, uncounted);
    assert s.vRandom[s.mapInfo[id].randomPos] == id;
  }

  lemma SwapForDelete(h: Hash, s: State, id: nat, loose: set<nat>, uncounted: set<nat>)
    requires Inv(h, s, loose, uncounted) && id in loose
    ensures CanDelete(s, id)
    ensures var t := Swapped(s, s.mapInfo[id].randomPos, |s.vRandom| - 1);
      Inv(h, t, loose, uncounted) && id in t.mapInfo && t.vRandom != [] && t.vRandom[|t.vRandom| - 1] == id
  {
    LooseCanBeDeleted(h, s, id, loose, uncounted);
    SwapKeeps(h, s, s.mapInfo[id].randomPos, |s.vRandom| - 1, loose, uncounted);
    SwapMovesLast(s, id);
  }

  /** Deleting a loose entry: the assertions hold and the rest is kept. */
  lemma DeleteKeeps(h: Hash, s: State, id: nat, loose: set<nat>, uncounted: set<nat>)
    requires Inv(h, s, loose, uncounted) && id in loose && id !in uncounted
    ensures CanDelete(s, id) && Inv(h, Deleted(h, s, id), loose - {id}, uncounted)
  {
    SwapForDelete(h, s, id, loose, uncounted);
    RemoveKeeps(h, Swapped(s, s.mapInfo[id].randomPos, |s.vRandom| - 1), id, loose, uncounted);
  }

  // ---------- new slots ----------

  lemma OccupantIsReferenced(h: Hash, s: State, b: nat, i: nat, loose: set<nat>, uncounted: set<nat>)
    requires Inv(h, s, loose, uncounted) && At(s.vvNew, b, i) != -1
    ensures CanDrop(s, b, i) && !s.mapInfo[At(s.vvNew, b, i)].inTried && At(s.vvNew, b, i) !in loose
    ensures i == NewPos(h, s.mapInfo[At(s.vvNew, b, i)].addr, b) && b < NEW_BUCKETS
  {
    assert Holds(NewSlots, h, s, loose, uncounted) && Holds(RefCounts, h, s, loose, uncounted);
    assert Holds(Status, h, s, loose, uncounted);
    var id: nat := At(s.vvNew, b, i);
    RefsPositive(h, s.vvNew, s.mapInfo[id].addr, id, |s.vvNew|, b);
  }

  /** Writing a slot leaves the counts of all ids but the two involved. */
  lemma RefsElsewhere(h: Hash, t: Table, b: nat, i: nat, v: int, addr: nat, id: nat)
    requires b < |t| && i < |t[b]| && At(t, b, i) != id && v != id
    ensures Refs(h, Put(t, b, i, v), addr, id, |t|) == Refs(h, t, addr, id, |t|)
  {
    RefsSame(h, t, Put(t, b, i, v), addr, id, |t|);
  }

  lemma DropRefs(h: Hash, s: State, b: nat, i: nat)
    requires NewSlotsOk(h, s.mapInfo, s.vvNew) && RefsOk(h, s.mapInfo, s.vvNew) && CanDrop(s, b, i)
    ensures RefsOk(h, Dropped(s, b, i).mapInfo, Dropped(s, b, i).vvNew)
  {
    var t := Dropped(s, b, i);
    var id: nat := At(s.vvNew, b, i);
    forall x | x in t.mapInfo ensures t.mapInfo[x].refCount == Refs(h, t.vvNew, t.mapInfo[x].addr, x, |t.vvNew|) {
      if x == id {
        RefsPut(h, s.vvNew, b, -1, s.mapInfo[id].addr, id, |s.vvNew|);
      } else {
        RefsElsewhere(h, s.vvNew, b, i, -1, s.mapInfo[x].addr, x);
      }
    }
  }

  lemma DropSlots(h: Hash, s: State, b: nat, i: nat)
    requires NewSlotsOk(h, s.mapInfo, s.vvNew) && CanDrop(s, b, i)
    ensures NewSlotsOk(h, Dropped(s, b, i).mapInfo, Dropped(s, b, i).vvNew)
  {
    var t := Dropped(s, b, i);
    forall c: nat, j: nat {:trigger At(t.vvNew, c, j)} | At(t.vvNew, c, j) != -1
      ensures At(t.vvNew, c, j) >= 0 && At(t.vvNew, c, j) in t.mapInfo
        && j == NewPos(h, t.mapInfo[At(t.vvNew, c, j)].addr, c)
    {
      assert At(t.vvNew, c, j) == At(s.vvNew, c, j);
    }
  }

  lemma DropStatus(s: State, b: nat, i: nat, loose: set<nat>)
    requires CanDrop(s, b, i) && StatusOk(s.mapInfo, loose)
    ensures StatusOk(Dropped(s, b, i).mapInfo, LooseAfterDrop(s, b, i, loose))
  {
  }

  function LooseAfterDrop(s: State, b: nat, i: nat, loose: set<nat>): set<nat>
    requires CanDrop(s, b, i)
  {
    var id: nat := At(s.vvNew, b, i);
    if s.mapInfo[id].refCount == 1 then loose + {id} else loose
  }

  lemma DropIsSame(s: State, b: nat, i: nat)
    requires CanDrop(s, b, i)
    ensures var t := Dropped(s, b, i);
      SameAddrs(s.mapInfo, t.mapInfo) && SameTried(s.mapInfo, t.mapInfo) && SameRandom(s.mapInfo, t.mapInfo)
  {
  }

  /** Emptying a new slot leaves its entry loose when it was the last one. */
  lemma DropKeeps(h: Hash, s: State, b: nat, i: nat, loose: set<nat>, uncounted: set<nat>)
    requires Inv(h, s, loose, uncounted) && CanDrop(s, b, i)
    ensures Inv(h, Dropped(s, b, i), LooseAfterDrop(s, b, i, loose), uncounted)
  {
    var t := Dropped(s, b, i);
    DropIsSame(s, b, i);
    forall part ensures Holds(part, h, t, LooseAfterDrop(s, b, i, loose), uncounted) {
      assert Holds(part, h, s, loose, uncounted);
      match part {
        case Addrs => KeepAddrs(s.mapInfo, t.mapInfo, s.mapAddr);
        case Random => KeepRandom(s.mapInfo, t.mapInfo, s.vRandom);
        case NewSlots => DropSlots(h, s, b, i);
        case RefCounts =>
          assert Holds(NewSlots, h, s, loose, uncounted);
          DropRefs(h, s, b, i);
        case TriedSlots => KeepTried(h, s.mapInfo, t.mapInfo, s.vvTried);
        case Status => DropStatus(s, b, i, loose);
        case Totals => KeepCounts(h, s.mapInfo, t.mapInfo, uncounted, s.nNew, s.nTried, s.nets);
        case Ids =>
      }
    }
  }

  predicate CanReference(h: Hash, s: State, id: nat, b: nat, i: nat) {
    && id in s.mapInfo && !s.mapInfo[id].inTried && s.mapInfo[id].refCount < NEW_BUCKETS_PER_ADDRESS
    && b < |s.vvNew| && i < |s.vvNew[b]| && At(s.vvNew, b, i) == -1 && i == NewPos(h, s.mapInfo[id].addr, b)
  }

  lemma ReferenceRefs(h: Hash, s: State, id: nat, b: nat, i: nat)
    requires CanReference(h, s, id, b, i) && NewSlotsOk(h, s.mapInfo, s.vvNew) && RefsOk(h, s.mapInfo, s.vvNew)
    ensures RefsOk(h, Referenced(s, id, b, i).mapInfo, Referenced(s, id, b, i).vvNew)
  {
    var t := Referenced(s, id, b, i);
    forall x | x in t.mapInfo ensures t.mapInfo[x].refCount == Refs(h, t.vvNew, t.mapInfo[x].addr, x, |t.vvNew|) {
      if x == id {
        RefsPut(h, s.vvNew, b, id, s.mapInfo[id].addr, id, |s.vvNew|);
      } else {
        RefsElsewhere(h, s.vvNew, b, i, id, s.mapInfo[x].addr, x);
      }
    }
  }

  lemma ReferenceSlots(h: Hash, s: State, id: nat, b: nat, i: nat)
    requires CanReference(h, s, id, b, i) && NewSlotsOk(h, s.mapInfo, s.vvNew)
    ensures NewSlotsOk(h, Referenced(s, id, b, i).mapInfo, Referenced(s, id, b, i).vvNew)
  {
    var t := Referenced(s, id, b, i);
    forall c: nat, j: nat {:trigger At(t.vvNew, c, j)} | At(t.vvNew, c, j) != -1
      ensures At(t.vvNew, c, j) >= 0 && At(t.vvNew, c, j) in t.mapInfo
        && j == NewPos(h, t.mapInfo[At(t.vvNew, c, j)].addr, c)
    {
      if (c, j) != (b, i) {
        assert At(t.vvNew, c, j) == At(s.vvNew, c, j);
      }
    }
  }

  lemma ReferenceStatus(h: Hash, s: State, id: nat, b: nat, i: nat, loose: set<nat>)
    requires CanReference(h, s, id, b, i) && StatusOk(s.mapInfo, loose)
    ensures StatusOk(Referenced(s, id, b, i).mapInfo, loose - {id})
  {
  }

  lemma ReferenceIsSame(h: Hash, s: State, id: nat, b: nat, i: nat)
    requires CanReference(h, s, id, b, i)
    ensures var t := Referenced(s, id, b, i);
      SameAddrs(s.mapInfo, t.mapInfo) && SameTried(s.mapInfo, t.mapInfo) && SameRandom(s.mapInfo, t.mapInfo)
  {
  }

  /** Filling an empty new slot at its hashed position ends looseness. */
  lemma ReferenceKeeps(h: Hash, s: State, id: nat, b: nat, i: nat, loose: set<nat>, uncounted: set<nat>)
    requires Inv(h, s, loose, uncounted) && CanReference(h, s, id, b, i) && id !in uncounted
    ensures Inv(h, Referenced(s, id, b, i), loose - {id}, uncounted)
  {
    var t := Referenced(s, id, b, i);
    ReferenceIsSame(h, s, id, b, i);
    forall part ensures Holds(part, h, t, loose - {id}, uncounted) {
      assert Holds(part, h, s, loose, uncounted);
      match part {
        case Addrs => KeepAddrs(s.mapInfo, t.mapInfo, s.mapAddr);
        case Random => KeepRandom(s.mapInfo, t.mapInfo, s.vRandom);
        case NewSlots => ReferenceSlots(h, s, id, b, i);
        case RefCounts =>
          assert Holds(NewSlots, h, s, loose, uncounted);
          ReferenceRefs(h, s, id, b, i);
        case TriedSlots => KeepTried(h, s.mapInfo, t.mapInfo, s.vvTried);
        case Status => ReferenceStatus(h, s, id, b, i, loose);
        case Totals => KeepCounts(h, s.mapInfo, t.mapInfo, uncounted, s.nNew, s.nTried, s.nets);
        case Ids =>
      }
    }
  }

  // ---------- counting and tried slots ----------

  /** A loose entry counted as new stops being counted. */
  lemma UncountKeeps(h: Hash, s: State, id: nat, loose: set<nat>, uncounted: set<nat>)
    requires Inv(h, s, loose, uncounted) && id in loose && id !in uncounted && id in s.mapInfo
    ensures Inv(h, Recounted(h, s, id, -1), loose, uncounted + {id})
  {
    var t := Recounted(h, s, id, -1);
    assert Holds(Status, h, s, loose, uncounted);
    forall part ensures Holds(part, h, t, loose, uncounted + {id}) {
      assert Holds(part, h, s, loose, uncounted);
      if part == Totals {
        EntersWhen(h, s.mapInfo, uncounted + {id}, s.mapInfo, uncounted, id);
        CountsLeave(h, s.mapInfo, uncounted + {id}, s.mapInfo, uncounted, id, false, s.nNew, s.nTried, s.nets);
      }
    }
  }

  /** An uncounted entry is counted as new again. */
  lemma CountKeeps(h: Hash, s: State, id: nat, loose: set<nat>, uncounted: set<nat>)
    requires Inv(h, s, loose, uncounted) && id in uncounted && id in s.mapInfo
    ensures Inv(h, Recounted(h, s, id, 1), loose, uncounted - {id})
  {
    var t := Recounted(h, s, id, 1);
    assert Holds(Status, h, s, loose, uncounted);
    forall part ensures Holds(part, h, t, loose, uncounted - {id}) {
      assert Holds(part, h, s, loose, uncounted);
      if part == Totals {
        EntersWhen(h, s.mapInfo, uncounted, s.mapInfo, uncounted - {id}, id);
        CountsEnter(h, s.mapInfo, uncounted, s.mapInfo, uncounted - {id}, id, false, s.nNew, s.nTried, s.nets);
      }
    }
  }

  lemma UntryTried(h: Hash, s: State, id: nat, b: nat, i: nat)
    requires TriedOk(h, s.mapInfo, s.vvTried) && At(s.vvTried, b, i) == id && id in s.mapInfo
    requires b < |s.vvTried| && i < |s.vvTried[b]|
    ensures TriedOk(h, Untried(h, s, id, b, i).mapInfo, Untried(h, s, id, b, i).vvTried)
  {
    var t := Untried(h, s, id, b, i);
    forall c: nat, j: nat {:trigger At(t.vvTried, c, j)} | At(t.vvTried, c, j) != -1
      ensures && At(t.vvTried, c, j) >= 0 && At(t.vvTried, c, j) in t.mapInfo && t.mapInfo[At(t.vvTried, c, j)].inTried
              && c == TriedBucket(h, t.mapInfo[At(t.vvTried, c, j)].addr)
              && j == TriedPos(h, t.mapInfo[At(t.vvTried, c, j)].addr)
    {
      assert At(t.vvTried, c, j) == At(s.vvTried, c, j);
    }
    forall x | x in t.mapInfo && t.mapInfo[x].inTried
      ensures At(t.vvTried, TriedBucket(h, t.mapInfo[x].addr), TriedPos(h, t.mapInfo[x].addr)) == x
    {
      assert At(s.vvTried, TriedBucket(h, s.mapInfo[x].addr), TriedPos(h, s.mapInfo[x].addr)) == x;
    }
  }

  lemma UntryIsSame(h: Hash, s: State, id: nat, b: nat, i: nat)
    requires id in s.mapInfo && b < |s.vvTried| && i < |s.vvTried[b]|
    ensures var t := Untried(h, s, id, b, i);
      && SameAddrs(s.mapInfo, t.mapInfo) && SameRefs(s.mapInfo, t.mapInfo) && SameRandom(s.mapInfo, t.mapInfo)
      && SameBut(s.mapInfo, t.mapInfo, id)
  {
  }

  lemma UntryCounts(h: Hash, s: State, id: nat, b: nat, i: nat, uncounted: set<nat>)
    requires id in s.mapInfo && s.mapInfo[id].inTried && id !in uncounted && b < |s.vvTried| && i < |s.vvTried[b]|
    requires CountsOk(h, s.mapInfo, uncounted, s.nNew, s.nTried, s.nets)
    ensures var t := Untried(h, s, id, b, i); CountsOk(h, t.mapInfo, uncounted + {id}, t.nNew, t.nTried, t.nets)
  {
    var t := Untried(h, s, id, b, i);
    UntryIsSame(h, s, id, b, i);
    EntersWhen(h, t.mapInfo, uncounted + {id}, s.mapInfo, uncounted, id);
    CountsLeave(h, t.mapInfo, uncounted + {id}, s.mapInfo, uncounted, id, true, s.nNew, s.nTried, s.nets);
  }

  /** The entry of a tried slot is taken out: loose and uncounted. */
  lemma UntryKeeps(h: Hash, s: State, id: nat, b: nat, i: nat, loose: set<nat>, uncounted: set<nat>)
    requires Inv(h, s, loose, uncounted) && At(s.vvTried, b, i) == id
    requires id in s.mapInfo && s.mapInfo[id].inTried && b < |s.vvTried| && i < |s.vvTried[b]|
    ensures Inv(h, Untried(h, s, id, b, i), loose + {id}, uncounted + {id})
  {
    var t := Untried(h, s, id, b, i);
    UntryIsSame(h, s, id, b, i);
    assert id !in uncounted && s.mapInfo[id].refCount == 0 by { assert Holds(Status, h, s, loose, uncounted); }
    forall part ensures Holds(part, h, t, loose + {id}, uncounted + {id}) {
      assert Holds(part, h, s, loose, uncounted);
      match part {
        case Addrs => KeepAddrs(s.mapInfo, t.mapInfo, s.mapAddr);
        case Random => KeepRandom(s.mapInfo, t.mapInfo, s.vRandom);
        case NewSlots => KeepNewSlots(h, s.mapInfo, t.mapInfo, s.vvNew);
        case RefCounts => KeepRefs(h, s.mapInfo, t.mapInfo, s.vvNew);
        case TriedSlots => UntryTried(h, s, id, b, i);
        case Status =>
        case Totals => UntryCounts(h, s, id, b, i, uncounted);
        case Ids =>
      }
    }
  }

  predicate CanRetry(h: Hash, s: State, id: nat, b: nat, i: nat) {
    && id in s.mapInfo && b < |s.vvTried| && i < |s.vvTried[b]| && At(s.vvTried, b, i) == -1
    && b == TriedBucket(h, s.mapInfo[id].addr) && i == TriedPos(h, s.mapInfo[id].addr)
  }

  lemma RetryTried(h: Hash, s: State, id: nat, b: nat, i: nat)
    requires CanRetry(h, s, id, b, i) && TriedOk(h, s.mapInfo, s.vvTried) && !s.mapInfo[id].inTried
    ensures TriedOk(h, Retried(h, s, id, b, i).mapInfo, Retried(h, s, id, b, i).vvTried)
  {
    var t := Retried(h, s, id, b, i);
    forall c: nat, j: nat {:trigger At(t.vvTried, c, j)} | At(t.vvTried, c, j) != -1
      ensures && At(t.vvTried, c, j) >= 0 && At(t.vvTried, c, j) in t.mapInfo && t.mapInfo[At(t.vvTried, c, j)].inTried
              && c == TriedBucket(h, t.mapInfo[At(t.vvTried, c, j)].addr)
              && j == TriedPos(h, t.mapInfo[At(t.vvTried, c, j)].addr)
    {
      if (c, j) != (b, i) {
        assert At(t.vvTried, c, j) == At(s.vvTried, c, j);
      }
    }
    forall x | x in t.mapInfo && t.mapInfo[x].inTried
      ensures At(t.vvTried, TriedBucket(h, t.mapInfo[x].addr), TriedPos(h, t.mapInfo[x].addr)) == x
    {
      if x != id {
        assert At(s.vvTried, TriedBucket(h, s.mapInfo[x].addr), TriedPos(h, s.mapInfo[x].addr)) == x;
      }
    }
  }

  lemma RetryIsSame(h: Hash, s: State, id: nat, b: nat, i: nat)
    requires CanRetry(h, s, id, b, i)
    ensures var t := Retried(h, s, id, b, i);
      && SameAddrs(s.mapInfo, t.mapInfo) && SameRefs(s.mapInfo, t.mapInfo) && SameRandom(s.mapInfo, t.mapInfo)
      && SameBut(s.mapInfo, t.mapInfo, id)
  {
  }

  lemma RetryCounts(h: Hash, s: State, id: nat, b: nat, i: nat, uncounted: set<nat>)
    requires CanRetry(h, s, id, b, i) && id in uncounted && CountsOk(h, s.mapInfo, uncounted, s.nNew, s.nTried, s.nets)
    ensures var t := Retried(h, s, id, b, i); CountsOk(h, t.mapInfo, uncounted - {id}, t.nNew, t.nTried, t.nets)
  {
    var t := Retried(h, s, id, b, i);
    RetryIsSame(h, s, id, b, i);
    EntersWhen(h, s.mapInfo, uncounted, t.mapInfo, uncounted - {id}, id);
    CountsEnter(h, s.mapInfo, uncounted, t.mapInfo, uncounted - {id}, id, true, s.nNew, s.nTried, s.nets);
  }

  /** A loose, uncounted entry is put into its empty tried slot. */
  lemma RetryKeeps(h: Hash, s: State, id: nat, b: nat, i: nat, loose: set<nat>, uncounted: set<nat>)
    requires Inv(h, s, loose, uncounted) && CanRetry(h, s, id, b, i) && id in uncounted
    ensures Inv(h, Retried(h, s, id, b, i), loose - {id}, uncounted - {id})
  {
    var t := Retried(h, s, id, b, i);
    RetryIsSame(h, s, id, b, i);
    assert !s.mapInfo[id].inTried && s.mapInfo[id].refCount == 0 by { assert Holds(Status, h, s, loose, uncounted); }
    forall part ensures Holds(part, h, t, loose - {id}, uncounted - {id}) {
      assert Holds(part, h, s, loose, uncounted);
      match part {
        case Addrs => KeepAddrs(s.mapInfo, t.mapInfo, s.mapAddr);
        case Random => KeepRandom(s.mapInfo, t.mapInfo, s.vRandom);
        case NewSlots => KeepNewSlots(h, s.mapInfo, t.mapInfo, s.vvNew);
        case RefCounts => KeepRefs(h, s.mapInfo, t.mapInfo, s.vvNew);
        case TriedSlots => RetryTried(h, s, id, b, i);
        case Status =>
        case Totals => RetryCounts(h, s, id, b, i, uncounted);
        case Ids =>
      }
    }
  }
}
