/**
 The data of the address manager (src/addrman.cpp, src/addrman_impl.h) and its consistency condition.

 An address is a number; the salted hashes that choose buckets and positions, and the network of an
 address, are arbitrary functions of it.  Times are seconds.
 */
module AddrTables {

  const TRIED_BUCKETS := 256
  const NEW_BUCKETS := 1024
  const BUCKET_SIZE := 64
  const NEW_BUCKETS_PER_ADDRESS := 8
  const TRIED_COLLISION_SIZE := 10

  /** The salted hashes of an address, the network it is counted under and the one it is filtered by. */
  datatype Hash = Hash(
    tried: nat -> nat, triedSlot: nat -> nat, newFrom: (nat, nat) -> nat, newSlot: (nat, nat) -> nat,
    network: nat -> nat, netClass: nat -> nat)

  datatype Info = Info(
    addr: nat, source: nat, time: int, services: set<nat>,
    lastTry: int, lastCountAttempt: int, lastSuccess: int, attempts: nat,
    refCount: nat, inTried: bool, randomPos: nat)

  datatype Counts = Counts(isNew: int, isTried: int)

  /** Slots hold an id, or -1. */
  type Table = seq<seq<int>>

  datatype State = State(
    idCount: nat, mapInfo: map<nat, Info>, mapAddr: map<nat, nat>, vRandom: seq<nat>,
    nTried: int, vvTried: Table, nNew: int, vvNew: Table, nets: map<nat, Counts>,
    collisions: set<nat>, lastGood: int)

  // ---------- hashed places ----------

  function TriedBucket(h: Hash, addr: nat): (b: nat)
    ensures b < TRIED_BUCKETS
  {
    h.tried(addr) % TRIED_BUCKETS
  }

  function TriedPos(h: Hash, addr: nat): (i: nat)
    ensures i < BUCKET_SIZE
  {
    h.triedSlot(addr) % BUCKET_SIZE
  }

  function NewBucket(h: Hash, addr: nat, source: nat): (b: nat)
    ensures b < NEW_BUCKETS
  {
    h.newFrom(addr, source) % NEW_BUCKETS
  }

  function NewPos(h: Hash, addr: nat, bucket: nat): (i: nat)
    ensures i < BUCKET_SIZE
  {
    h.newSlot(addr, bucket) % BUCKET_SIZE
  }

  // ---------- tables ----------

  ghost predicate Shaped(t: Table, buckets: nat) {
    |t| == buckets && forall b :: 0 <= b < buckets ==> |t[b]| == BUCKET_SIZE
  }

  function At(t: Table, b: nat, i: nat): int {
    if b < |t| && i < |t[b]| then t[b][i] else -1
  }

  function Put(t: Table, b: nat, i: nat, v: int): (r: Table)
    requires b < |t| && i < |t[b]|
    ensures At(r, b, i) == v && |r| == |t|
    ensures forall c: nat, j: nat :: (c, j) != (b, i) ==> At(r, c, j) == At(t, c, j)
    ensures forall n: nat :: Shaped(t, n) ==> Shaped(r, n)
  {
    t[b := t[b][i := v]]
  }

  /** The number of the first `n` buckets in which `id` holds its own position. */
  function Refs(h: Hash, t: Table, addr: nat, id: nat, n: nat): nat {
    if n == 0 then 0
    else Refs(h, t, addr, id, n - 1) + (if At(t, n - 1, NewPos(h, addr, n - 1)) == id then 1 else 0)
  }

  lemma {:induction false} RefsSame(h: Hash, t: Table, r: Table, addr: nat, id: nat, n: nat)
    requires forall b: nat :: b < n ==> (At(t, b, NewPos(h, addr, b)) == id <==> At(r, b, NewPos(h, addr, b)) == id)
    ensures Refs(h, t, addr, id, n) == Refs(h, r, addr, id, n)
  {
    if n > 0 {
      RefsSame(h, t, r, addr, id, n - 1);
    }
  }

  /** Writing one slot changes the count by the slot's share. */
  lemma {:induction false} RefsPut(h: Hash, t: Table, b: nat, v: int, addr: nat, id: nat, n: nat)
    requires b < |t| && NewPos(h, addr, b) < |t[b]| && b < n
    ensures var i := NewPos(h, addr, b);
      Refs(h, Put(t, b, i, v), addr, id, n)
        == Refs(h, t, addr, id, n) - (if At(t, b, i) == id then 1 else 0) + (if v == id then 1 else 0)
  {
    var r := Put(t, b, NewPos(h, addr, b), v);
    if b < n - 1 {
      RefsPut(h, t, b, v, addr, id, n - 1);
    } else {
      RefsSame(h, t, r, addr, id, n - 1);
    }
  }

  lemma {:induction false} RefsPositive(h: Hash, t: Table, addr: nat, id: nat, n: nat, b: nat)
    requires b < n && At(t, b, NewPos(h, addr, b)) == id
    ensures Refs(h, t, addr, id, n) > 0
  {
    if b < n - 1 {
      RefsPositive(h, t, addr, id, n - 1, b);
    }
  }

  // ---------- the parts of the consistency condition ----------

  /** mapAddr is the inverse of mapInfo. */
  ghost predicate AddrsOk(m: map<nat, Info>, a: map<nat, nat>) {
    && (forall id :: id in m ==> m[id].addr in a && a[m[id].addr] == id)
    && (forall x :: x in a ==> a[x] in m && m[a[x]].addr == x)
  }

  /** vRandom lists the ids, each at its own random position. */
  ghost predicate RandomOk(m: map<nat, Info>, r: seq<nat>) {
    && (forall id :: id in m ==> m[id].randomPos < |r| && r[m[id].randomPos] == id)
    && (forall i :: 0 <= i < |r| ==> r[i] in m && m[r[i]].randomPos == i)
  }

  /** New slots hold known ids at their hashed positions. */
  ghost predicate NewSlotsOk(h: Hash, m: map<nat, Info>, t: Table) {
    && Shaped(t, NEW_BUCKETS)
    && (forall b: nat, i: nat {:trigger At(t, b, i)} :: At(t, b, i) != -1 ==>
          At(t, b, i) >= 0 && At(t, b, i) in m && i == NewPos(h, m[At(t, b, i)].addr, b))
  }

  /** Every reference count is the number of slots. */
  ghost predicate RefsOk(h: Hash, m: map<nat, Info>, t: Table) {
    forall id :: id in m ==> m[id].refCount == Refs(h, t, m[id].addr, id, |t|)
  }

  /** Tried slots hold tried ids at their hashed places, and every tried id holds its own. */
  ghost predicate TriedOk(h: Hash, m: map<nat, Info>, t: Table) {
    && Shaped(t, TRIED_BUCKETS)
    && (forall b: nat, i: nat {:trigger At(t, b, i)} :: At(t, b, i) != -1 ==>
          && At(t, b, i) >= 0 && At(t, b, i) in m && m[At(t, b, i)].inTried
          && b == TriedBucket(h, m[At(t, b, i)].addr) && i == TriedPos(h, m[At(t, b, i)].addr))
    && (forall id :: id in m && m[id].inTried ==>
          At(t, TriedBucket(h, m[id].addr), TriedPos(h, m[id].addr)) == id)
  }

  /** `loose` ids are in neither table for the moment; every other one is in exactly one. */
  ghost predicate StatusOk(m: map<nat, Info>, loose: set<nat>) {
    && (forall id :: id in loose ==> id in m && !m[id].inTried && m[id].refCount == 0)
    && (forall id :: id in m && m[id].inTried ==> m[id].refCount == 0)
    && (forall id :: id in m && !m[id].inTried ==>
          m[id].refCount <= NEW_BUCKETS_PER_ADDRESS && (m[id].refCount > 0 || id in loose))
  }

  /** The ids counted as new, or as tried, on a network or on all; `uncounted` ids are counted nowhere. */
  ghost function Counted(h: Hash, m: map<nat, Info>, uncounted: set<nat>, tried: bool, net: Net): set<nat> {
    set id | id in m && id !in uncounted && m[id].inTried == tried && On(h, m[id].addr, net)
  }

  datatype Net = AnyNet | OneNet(network: nat)

  ghost predicate On(h: Hash, addr: nat, net: Net) {
    net == AnyNet || h.network(addr) == net.network
  }

  function CountsOn(nets: map<nat, Counts>, network: nat): Counts {
    if network in nets then nets[network] else Counts(0, 0)
  }

  /** The totals and the totals of every network are exact. */
  ghost predicate CountsOk(h: Hash, m: map<nat, Info>, uncounted: set<nat>, nNew: int, nTried: int,
                           nets: map<nat, Counts>) {
    && nNew == |Counted(h, m, uncounted, false, AnyNet)|
    && nTried == |Counted(h, m, uncounted, true, AnyNet)|
    && (forall n ::
          CountsOn(nets, n) ==
          Counts(|Counted(h, m, uncounted, false, OneNet(n))|, |Counted(h, m, uncounted, true, OneNet(n))|))
  }

  ghost predicate IdsOk(m: map<nat, Info>, idCount: nat) {
    forall id :: id in m ==> id < idCount
  }

  datatype Part = Addrs | Random | NewSlots | RefCounts | TriedSlots | Status | Totals | Ids

  /** One part of the condition, relative to the entries an operation holds loose or uncounted. */
  ghost predicate Holds(part: Part, h: Hash, s: State, loose: set<nat>, uncounted: set<nat>) {
    match part
    case Addrs => AddrsOk(s.mapInfo, s.mapAddr)
    case Random => RandomOk(s.mapInfo, s.vRandom)
    case NewSlots => NewSlotsOk(h, s.mapInfo, s.vvNew)
    case RefCounts => RefsOk(h, s.mapInfo, s.vvNew)
    case TriedSlots => TriedOk(h, s.mapInfo, s.vvTried)
    case Status => StatusOk(s.mapInfo, loose) && uncounted <= loose
    case Totals => CountsOk(h, s.mapInfo, uncounted, s.nNew, s.nTried, s.nets)
    case Ids => IdsOk(s.mapInfo, s.idCount)
  }

  /** The whole condition. */
  ghost predicate Inv(h: Hash, s: State, loose: set<nat>, uncounted: set<nat>) {
    forall part :: Holds(part, h, s, loose, uncounted)
  }
}
