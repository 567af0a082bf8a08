/**
 The UTXO cache hierarchy as a value: a stack of write-back caches on top of a database.

 Every level maps outpoints to entries carrying DIRTY and FRESH flags.  The functions below are
 what one call does to one level, or to a level and the one it is backed by; the theorems say that
 whatever the flags do, each level always represents one flat map from outpoint to unspent coin.
 */
module Coins {
  import opened Basics

  datatype OutPoint = OutPoint(hash: nat, n: nat)

  /** `heap` is what DynamicMemoryUsage reports for the script; a nulled-out coin holds none. */
  datatype Coin =
    | NullCoin
    | Coin(amount: int, script: seq<nat>, coinbase: bool, height: nat, heap: nat)
  {
    predicate IsSpent() { NullCoin? }

    function DynamicMemoryUsage(): nat { if NullCoin? then 0 else heap }

    predicate IsUnspendable() {
      Coin? && ((|script| > 0 && script[0] == OP_RETURN) || |script| > MAX_SCRIPT_SIZE)
    }
  }

  const OP_RETURN: nat := 0x6a
  const MAX_SCRIPT_SIZE: nat := 10000

  datatype Entry = Entry(coin: Coin, isDirty: bool, isFresh: bool)

  const EMPTY_ENTRY := Entry(NullCoin, false, false)

  /** One level's cacheCoins. */
  type Cache = map<OutPoint, Entry>

  /** What a level represents: exactly its unspent coins. */
  type View = v: map<OutPoint, Coin> | forall k | k in v :: !v[k].IsSpent()

  function Lookup(v: View, k: OutPoint): Option<Coin> {
    if k in v then Some(v[k]) else None
  }

  function Cached(c: Cache, k: OutPoint): Option<Entry> {
    if k in c then Some(c[k]) else None
  }

  /** The view of a cache with content `c` backed by a view `base`: cached entries win. */
  function Overlay(c: Cache, base: View): View {
    map k | k in c.Keys + base.Keys && (k in c ==> !c[k].coin.IsSpent())
      :: if k in c then c[k].coin else base[k]
  }

  // ---------- what one level must satisfy relative to the view it is backed by ----------

  /**
   A non-DIRTY entry agrees with the parent, a FRESH one is for a coin the parent does not have.
   Of the five spent/DIRTY/FRESH combinations the source documents, "spent, FRESH, not DIRTY" is
   excluded too: FetchCoin would only create it from a base whose GetCoin returns a spent coin.
   */
  ghost predicate EntryCoherent(e: Entry, parent: Option<Coin>) {
    && (!e.isDirty ==> !e.coin.IsSpent() && !e.isFresh && parent == Some(e.coin))
    && (e.isFresh ==> !e.coin.IsSpent() && parent == None)
  }

  ghost predicate Coherent(c: Cache, base: View) {
    forall k | k in c :: EntryCoherent(c[k], Lookup(base, k))
  }

  /** The assertion of SanityCheck on one entry: attr is DIRTY + 2*FRESH + 4*spent. */
  predicate SaneFlags(e: Entry) {
    var attr := (if e.isDirty then 1 else 0) + (if e.isFresh then 2 else 0) + (if e.coin.IsSpent() then 4 else 0);
    attr != 2 && attr != 4 && attr != 7
  }

  // ---------- one call on one level ----------

  /** FetchCoin, given what the base's GetCoin answers. */
  function FetchInto(c: Cache, k: OutPoint, found: Option<Coin>): Cache {
    if k in c || found.None? then c
    else c[k := Entry(found.value, false, found.value.IsSpent())]
  }

  /** AddCoin refuses to overwrite a cached unspent coin unless told it may. */
  predicate AddThrows(c: Cache, k: OutPoint, possibleOverwrite: bool) {
    !possibleOverwrite && k in c && !c[k].coin.IsSpent()
  }

  function AddInto(c: Cache, k: OutPoint, coin: Coin, possibleOverwrite: bool): Cache {
    var prev := if k in c then c[k] else EMPTY_ENTRY;
    c[k := Entry(coin, true, prev.isFresh || (!possibleOverwrite && !prev.isDirty))]
  }

  function SpendFrom(c: Cache, k: OutPoint): Cache {
    if k !in c then c
    else if c[k].isFresh then c - {k}
    else c[k := Entry(NullCoin, true, false)]
  }

  function UncacheFrom(c: Cache, k: OutPoint): Cache {
    if k in c && !c[k].isDirty && !c[k].isFresh then c - {k} else c
  }

  /** What Sync leaves behind: unspent entries with their flags cleared. */
  function Synced(c: Cache): Cache {
    map k | k in c && !c[k].coin.IsSpent() :: Entry(c[k].coin, false, false)
  }

  // ---------- BatchWrite ----------

  /** BatchWrite's "FRESH flag misapplied" condition on one entry. */
  predicate Misapplied(us: Option<Entry>, child: Entry) {
    child.isDirty && child.isFresh && us.Some? && !us.value.coin.IsSpent()
  }

  /** What BatchWrite makes of the parent's entry for a key the child holds; None is no entry. */
  function MergeEntry(us: Option<Entry>, child: Entry): Option<Entry> {
    if !child.isDirty then us
    else if us.None? then
      if child.isFresh && child.coin.IsSpent() then None else Some(Entry(child.coin, true, child.isFresh))
    else if us.value.isFresh && child.coin.IsSpent() then None
    else Some(Entry(child.coin, true, us.value.isFresh))
  }

  function MergedAt(c: Cache, child: Cache, k: OutPoint): Option<Entry> {
    if k in child then MergeEntry(Cached(c, k), child[k]) else Cached(c, k)
  }

  function Merge(c: Cache, child: Cache): Cache {
    map k | k in c.Keys + child.Keys && MergedAt(c, child, k).Some? :: MergedAt(c, child, k).value
  }

  /** The database's BatchWrite: DIRTY entries are erased or written. */
  function WriteBatch(db: View, child: Cache): View {
    map k | k in db.Keys + child.Keys
            && (if k in child && child[k].isDirty then !child[k].coin.IsSpent() else k in db)
      :: if k in child && child[k].isDirty then child[k].coin else db[k]
  }

  // ---------- the stack ----------

  datatype Stack = Database(coins: View) | Level(cache: Cache, base: Stack)

  function ViewOf(s: Stack): View {
    match s
    case Database(coins) => coins
    case Level(cache, base) => Overlay(cache, ViewOf(base))
  }

  /** The view of every level, from the database up. */
  function Views(s: Stack): (vs: seq<View>)
    ensures |vs| > 0 && vs[|vs| - 1] == ViewOf(s)
  {
    match s
    case Database(coins) => [coins]
    case Level(_, base) => Views(base) + [ViewOf(s)]
  }

  ghost predicate Sound(s: Stack) {
    match s
    case Database(_) => true
    case Level(cache, base) => Sound(base) && Coherent(cache, ViewOf(base))
  }

  /** GetCoin, HaveCoin and AccessCoin fill every cache from the first one that has the coin. */
  function Fetch(s: Stack, k: OutPoint): Stack {
    match s
    case Database(_) => s
    case Level(cache, base) =>
      if k in cache then s
      else Level(FetchInto(cache, k, Lookup(ViewOf(base), k)), Fetch(base, k))
  }

  function WriteTo(base: Stack, child: Cache): Stack {
    match base
    case Database(coins) => Database(WriteBatch(coins, child))
    case Level(cache, base') => Level(Merge(cache, child), base')
  }

  /** The key, if any, at which BatchWrite into `base` would throw. */
  ghost predicate WriteThrows(base: Stack, child: Cache) {
    base.Level? && exists k | k in child :: Misapplied(Cached(base.cache, k), child[k])
  }

  /** A call on the cache at the top of `s`; Push and Discard create and drop a top cache. */
  datatype Op =
    | Get(k: OutPoint)
    | Add(k: OutPoint, coin: Coin, possibleOverwrite: bool)
    | Spend(k: OutPoint)
    | Flush
    | Sync
    | Uncache(k: OutPoint)
    | Push
    | Discard

  function Apply(s: Stack, op: Op): Stack {
    if op.Push? then Level(map[], s)
    else if op.Get? then Fetch(s, op.k)
    else if s.Database? then s
    else ApplyToCache(s, op)
  }

  function ApplyToCache(s: Stack, op: Op): Stack
    requires s.Level?
  {
    match op
    case Add(k, coin, over) =>
      if coin.IsUnspendable() then s else s.(cache := AddInto(s.cache, k, coin, over))
    case Spend(k) => var f := Fetch(s, k); if f.Level? then f.(cache := SpendFrom(f.cache, k)) else f
    case Flush => Level(map[], WriteTo(s.base, s.cache))
    case Sync => Level(Synced(s.cache), WriteTo(s.base, s.cache))
    case Uncache(k) => s.(cache := UncacheFrom(s.cache, k))
    case Discard => s.base
    case _ => s
  }

  /** Whether the call ends in an exception. */
  ghost predicate Throws(s: Stack, op: Op) {
    s.Level? &&
    match op
    case Add(k, coin, over) => !coin.IsUnspendable() && AddThrows(s.cache, k, over)
    case Flush => WriteThrows(s.base, s.cache)
    case Sync => WriteThrows(s.base, s.cache)
    case _ => false
  }

  /** What callers promise: AddCoin gets an unspent coin, and says when it may overwrite one. */
  predicate Promised(s: Stack, op: Op) {
    match op
    case Add(k, coin, over) => s.Level? && !coin.IsSpent() && (over || k !in ViewOf(s))
    case Push => true
    case Get(_) => true
    case _ => s.Level?
  }

  /** A call `down` levels below the top: only calls that do not change the base of another cache. */
  datatype Call = Call(down: nat, op: Op)

  predicate Allowed(s: Stack, c: Call)
    decreases c.down
  {
    if c.down == 0 then Promised(s, c.op)
    else s.Level? && KeepsOwnView(c.op) && Allowed(s.base, Call(c.down - 1, c.op))
  }

  function Step(s: Stack, c: Call): Stack
    decreases c.down
  {
    if c.down == 0 || s.Database? then Apply(s, c.op)
    else s.(base := Step(s.base, Call(c.down - 1, c.op)))
  }

  ghost predicate StepThrows(s: Stack, c: Call)
    decreases c.down
  {
    if c.down == 0 || s.Database? then Throws(s, c.op) else StepThrows(s.base, Call(c.down - 1, c.op))
  }

  // ---------- the flat specification ----------

  /** The same call on a pile of flat maps, one a level: no caches, no flags. */
  function Flat(vs: seq<View>, op: Op): seq<View>
    requires |vs| > 0
  {
    var n := |vs| - 1;
    match op
    case Add(k, coin, _) =>
      if coin.IsUnspendable() || coin.IsSpent() then vs else vs[n := vs[n][k := coin]]
    case Spend(k) => vs[n := vs[n] - {k}]
    case Flush => if n == 0 then vs else vs[n - 1 := vs[n]]
    case Sync => if n == 0 then vs else vs[n - 1 := vs[n]]
    case Push => vs + [vs[n]]
    case Discard => if n == 0 then vs else vs[..n]
    case Get(_) => vs
    case Uncache(_) => vs
  }

  function FlatStep(vs: seq<View>, c: Call): seq<View>
    requires |vs| > 0
    decreases c.down
  {
    var n := |vs| - 1;
    if c.down == 0 || n == 0 then Flat(vs, c.op)
    else FlatStep(vs[..n], Call(c.down - 1, c.op)) + [vs[n]]
  }

  // ---------- one level ----------

  /** What an entry over the answer of the base shows; a spent entry hides the base's coin. */
  function Shown(e: Option<Entry>, base: Option<Coin>): Option<Coin> {
    if e.None? then base else if e.value.coin.IsSpent() then None else Some(e.value.coin)
  }

  lemma LookupOverlay(c: Cache, base: View, k: OutPoint)
    ensures Lookup(Overlay(c, base), k) == Shown(Cached(c, k), Lookup(base, k))
  {
  }

  lemma SameLookups(v: View, w: View)
    requires forall k :: Lookup(v, k) == Lookup(w, k)
    ensures v == w
  {
    forall k
      ensures k in v <==> k in w
      ensures k in v ==> v[k] == w[k]
    {
      assert Lookup(v, k) == Lookup(w, k);
    }
  }

  lemma FetchKeeps(c: Cache, base: View, k: OutPoint)
    requires Coherent(c, base)
    ensures Coherent(FetchInto(c, k, Lookup(base, k)), base)
    ensures Overlay(FetchInto(c, k, Lookup(base, k)), base) == Overlay(c, base)
  {
  }

  lemma AddKeeps(c: Cache, base: View, k: OutPoint, coin: Coin, over: bool)
    requires Coherent(c, base) && !coin.IsSpent()
    requires over || k !in Overlay(c, base)
    ensures !AddThrows(c, k, over)
    ensures Coherent(AddInto(c, k, coin, over), base)
    ensures Overlay(AddInto(c, k, coin, over), base) == Overlay(c, base)[k := coin]
  {
    LookupOverlay(c, base, k);
    var d := AddInto(c, k, coin, over);
    forall j
      ensures j in d ==> EntryCoherent(d[j], Lookup(base, j))
      ensures Lookup(Overlay(d, base), j) == Lookup(Overlay(c, base)[k := coin], j)
    {
      LookupOverlay(c, base, j);
      LookupOverlay(d, base, j);
    }
    SameLookups(Overlay(d, base), Overlay(c, base)[k := coin]);
  }

  lemma SpendKeeps(c: Cache, base: View, k: OutPoint)
    requires Coherent(c, base)
    requires k in c || k !in base
    ensures Coherent(SpendFrom(c, k), base)
    ensures Overlay(SpendFrom(c, k), base) == Overlay(c, base) - {k}
  {
    if k in c && c[k].isFresh { assert Lookup(base, k) == None; }
  }

  lemma UncacheKeeps(c: Cache, base: View, k: OutPoint)
    requires Coherent(c, base)
    ensures Coherent(UncacheFrom(c, k), base)
    ensures Overlay(UncacheFrom(c, k), base) == Overlay(c, base)
  {
    if k in c && !c[k].isDirty { assert Lookup(base, k) == Some(c[k].coin); }
  }

  lemma SyncKeeps(c: Cache, base: View)
    ensures Coherent(Synced(c), Overlay(c, base))
    ensures Overlay(Synced(c), Overlay(c, base)) == Overlay(c, base)
  {
  }

  /** One outpoint of a BatchWrite: the parent's entry, the view below it and the child's entry. */
  lemma MergeEntryTakesChild(us: Option<Entry>, base: Option<Coin>, child: Entry)
    requires us.Some? ==> EntryCoherent(us.value, base)
    requires base.Some? ==> !base.value.IsSpent()
    requires EntryCoherent(child, Shown(us, base))
    ensures !Misapplied(us, child)
    ensures var m := MergeEntry(us, child);
            (m.Some? ==> EntryCoherent(m.value, base)) && Shown(m, base) == Shown(Some(child), Shown(us, base))
  {
  }

  lemma MergeAt(c: Cache, base: View, child: Cache, k: OutPoint)
    requires Coherent(c, base) && Coherent(child, Overlay(c, base))
    ensures k in child ==> !Misapplied(Cached(c, k), child[k])
    ensures Cached(Merge(c, child), k) == MergedAt(c, child, k)
    ensures k in Merge(c, child) ==> EntryCoherent(Merge(c, child)[k], Lookup(base, k))
    ensures Lookup(Overlay(Merge(c, child), base), k) == Lookup(Overlay(child, Overlay(c, base)), k)
  {
    LookupOverlay(c, base, k);
    LookupOverlay(child, Overlay(c, base), k);
    LookupOverlay(Merge(c, child), base, k);
    if k in child { MergeEntryTakesChild(Cached(c, k), Lookup(base, k), child[k]); }
  }

  /** BatchWrite into a cache: the FRESH exception cannot fire, and the parent takes the child's view. */
  lemma MergeTakesChildView(c: Cache, base: View, child: Cache)
    requires Coherent(c, base) && Coherent(child, Overlay(c, base))
    ensures forall k | k in child :: !Misapplied(Cached(c, k), child[k])
    ensures Coherent(Merge(c, child), base)
    ensures Overlay(Merge(c, child), base) == Overlay(child, Overlay(c, base))
  {
    forall k
      ensures k in child ==> !Misapplied(Cached(c, k), child[k])
      ensures k in Merge(c, child) ==> EntryCoherent(Merge(c, child)[k], Lookup(base, k))
      ensures Lookup(Overlay(Merge(c, child), base), k) == Lookup(Overlay(child, Overlay(c, base)), k)
    {
      MergeAt(c, base, child, k);
    }
    SameLookups(Overlay(Merge(c, child), base), Overlay(child, Overlay(c, base)));
  }

  lemma WriteBatchTakesChildView(db: View, child: Cache)
    requires Coherent(child, db)
    ensures WriteBatch(db, child) == Overlay(child, db)
  {
    var w, o := WriteBatch(db, child), Overlay(child, db);
    forall k
      ensures k in w <==> k in o
      ensures k in w ==> w[k] == o[k]
    {
      if k in child { assert EntryCoherent(child[k], Lookup(db, k)); }
    }
  }

  // ---------- the stack ----------

  lemma {:induction false} FetchStack(s: Stack, k: OutPoint)
    requires Sound(s)
    ensures Sound(Fetch(s, k)) && Views(Fetch(s, k)) == Views(s) && ViewOf(Fetch(s, k)) == ViewOf(s)
    ensures Fetch(s, k).Level? == s.Level?
    ensures s.Level? ==> k in Fetch(s, k).cache || k !in ViewOf(Fetch(s, k).base)
  {
    if s.Level? && k !in s.cache {
      FetchStack(s.base, k);
      FetchKeeps(s.cache, ViewOf(s.base), k);
    }
  }

  lemma WriteToBase(s: Stack)
    requires s.Level? && Sound(s)
    ensures !WriteThrows(s.base, s.cache)
    ensures Sound(WriteTo(s.base, s.cache)) && ViewOf(WriteTo(s.base, s.cache)) == ViewOf(s)
    ensures Views(WriteTo(s.base, s.cache)) == Views(s.base)[|Views(s.base)| - 1 := ViewOf(s)]
  {
    match s.base
    case Database(coins) => WriteBatchTakesChildView(coins, s.cache);
    case Level(cache, base) => MergeTakesChildView(cache, ViewOf(base), s.cache);
  }

  lemma EmptyCacheIsTransparent(v: View)
    ensures Coherent(map[], v) && Overlay(map[], v) == v
  {
  }

  lemma FetchBase(s: Stack, k: OutPoint)
    requires s.Level? && Sound(s)
    ensures Views(Fetch(s, k).base) == Views(s.base)
  {
    FetchStack(s.base, k);
  }

  lemma SpendStack(s: Stack, k: OutPoint)
    requires s.Level? && Sound(s)
    ensures Sound(Apply(s, Spend(k))) && Views(Apply(s, Spend(k))) == Flat(Views(s), Spend(k))
  {
    FetchStack(s, k);
    FetchBase(s, k);
    SpendKeeps(Fetch(s, k).cache, ViewOf(Fetch(s, k).base), k);
  }

  lemma FlatWrite(base: seq<View>, top: View)
    requires |base| > 0
    ensures Flat(base + [top], Flush) == base[|base| - 1 := top] + [top]
    ensures Flat(base + [top], Sync) == Flat(base + [top], Flush)
  {
  }

  /** Flush and Sync: the base takes this cache's view, and `kept` is what the cache goes on with. */
  lemma WriteStack(s: Stack, kept: Cache)
    requires s.Level? && Sound(s)
    requires Coherent(kept, ViewOf(s)) && Overlay(kept, ViewOf(s)) == ViewOf(s)
    ensures !WriteThrows(s.base, s.cache)
    ensures Sound(Level(kept, WriteTo(s.base, s.cache)))
    ensures Views(Level(kept, WriteTo(s.base, s.cache))) == Flat(Views(s), Flush)
    ensures Flat(Views(s), Sync) == Flat(Views(s), Flush)
  {
    WriteToBase(s);
    FlatWrite(Views(s.base), ViewOf(s));
  }

  /** One call on the top cache keeps the stack sound, does not throw and acts on the flat maps. */
  lemma ApplyRefinesFlat(s: Stack, op: Op)
    requires Sound(s) && Promised(s, op)
    ensures !Throws(s, op)
    ensures Sound(Apply(s, op)) && Views(Apply(s, op)) == Flat(Views(s), op)
  {
    match op
    case Push => EmptyCacheIsTransparent(ViewOf(s));
    case Get(k) => FetchStack(s, k);
    case Add(k, coin, over) =>
      AddKeeps(s.cache, ViewOf(s.base), k, coin, over);
    case Spend(k) =>
      SpendStack(s, k);
    case Flush =>
      EmptyCacheIsTransparent(ViewOf(s));
      WriteStack(s, map[]);
    case Sync =>
      SyncKeeps(s.cache, ViewOf(s.base));
      WriteStack(s, Synced(s.cache));
    case Uncache(k) => UncacheKeeps(s.cache, ViewOf(s.base), k);
    case Discard =>
  }

  /** A cache does not notice that the stack below it changed while its view stayed the same. */
  lemma BaseReplaced(s: Stack, base: Stack)
    requires s.Level? && Sound(s) && Sound(base) && ViewOf(base) == ViewOf(s.base)
    ensures Sound(s.(base := base)) && ViewOf(s.(base := base)) == ViewOf(s)
    ensures Views(s.(base := base)) == Views(base) + [ViewOf(s)]
    ensures |Views(s)| > 1 && Views(s)[..|Views(s)| - 1] == Views(s.base)
    ensures Views(s)[|Views(s)| - 1] == ViewOf(s)
  {
  }

  lemma ApplyKeepsOwnView(s: Stack, op: Op)
    requires Sound(s) && Promised(s, op) && KeepsOwnView(op)
    ensures ViewOf(Apply(s, op)) == ViewOf(s)
  {
    ApplyRefinesFlat(s, op);
    assert Views(Apply(s, op))[|Views(Apply(s, op))| - 1] == Views(s)[|Views(s)| - 1];
  }

  /** The same for a call at any level: no cache above it notices. */
  lemma {:induction false} StepRefinesFlat(s: Stack, c: Call)
    requires Sound(s) && Allowed(s, c)
    ensures !StepThrows(s, c)
    ensures Sound(Step(s, c)) && Views(Step(s, c)) == FlatStep(Views(s), c)
    ensures KeepsOwnView(c.op) ==> ViewOf(Step(s, c)) == ViewOf(s)
    decreases c.down
  {
    if c.down == 0 {
      ApplyRefinesFlat(s, c.op);
      if KeepsOwnView(c.op) { ApplyKeepsOwnView(s, c.op); }
    } else {
      var below := Call(c.down - 1, c.op);
      StepRefinesFlat(s.base, below);
      BaseReplaced(s, Step(s.base, below));
    }
  }

  /** A call on the stack below the top, read as a call one level deeper on the whole. */
  lemma StepBelow(s: Stack, c: Call)
    requires s.Level? && Sound(s) && KeepsOwnView(c.op) && Allowed(s.base, c)
    ensures Allowed(s, Call(c.down + 1, c.op))
    ensures Step(s, Call(c.down + 1, c.op)) == s.(base := Step(s.base, c))
    ensures Sound(s.(base := Step(s.base, c))) && ViewOf(s.(base := Step(s.base, c))) == ViewOf(s)
  {
    StepRefinesFlat(s.base, c);
    BaseReplaced(s, Step(s.base, c));
  }

  /** Calls that leave the view of the cache they are made on alone. */
  predicate KeepsOwnView(op: Op) {
    !op.Add? && !op.Spend? && !op.Push? && !op.Discard?
  }

  // ---------- whole runs ----------

  ghost predicate IsRun(ss: seq<Stack>, cs: seq<Call>) {
    && |ss| == |cs| + 1
    && forall i | 0 <= i < |cs| :: Allowed(ss[i], cs[i]) && ss[i + 1] == Step(ss[i], cs[i])
  }

  function FlatRun(vs: seq<View>, cs: seq<Call>): seq<View>
    requires |vs| > 0
  {
    if cs == [] then vs
    else
      var before := FlatRun(vs, cs[..|cs| - 1]);
      if before == [] then [] else FlatStep(before, cs[|cs| - 1])
  }

  lemma {:induction false} RunPrefix(ss: seq<Stack>, cs: seq<Call>, n: nat)
    requires IsRun(ss, cs) && Sound(ss[0]) && n <= |cs|
    ensures Sound(ss[n]) && Views(ss[n]) == FlatRun(Views(ss[0]), cs[..n])
  {
    if n > 0 {
      RunPrefix(ss, cs, n - 1);
      StepRefinesFlat(ss[n - 1], cs[n - 1]);
      assert cs[..n][..n - 1] == cs[..n - 1];
    }
  }

  /**
   For a stack of any depth and every run of calls at its levels, no call throws and the view of
   every level is the flat map that the same calls, made on flat maps, leave there.
   */
  lemma {:induction false} RunRefinesFlat(ss: seq<Stack>, cs: seq<Call>)
    requires IsRun(ss, cs) && Sound(ss[0])
    ensures Sound(ss[|cs|])
    ensures Views(ss[|cs|]) == FlatRun(Views(ss[0]), cs)
    ensures forall i | 0 <= i < |cs| :: !StepThrows(ss[i], cs[i])
  {
    RunPrefix(ss, cs, |cs|);
    assert cs[..|cs|] == cs;
    forall i | 0 <= i < |cs| ensures !StepThrows(ss[i], cs[i]) {
      RunPrefix(ss, cs, i);
      StepRefinesFlat(ss[i], cs[i]);
    }
  }

  /** In a sound stack SanityCheck's flag assertion holds of every entry at every level. */
  lemma {:induction false} SoundIsSane(s: Stack, k: OutPoint)
    requires s.Level? && Sound(s) && k in s.cache
    ensures SaneFlags(s.cache[k])
    ensures !s.cache[k].isDirty ==> Lookup(ViewOf(s.base), k) == Some(s.cache[k].coin)
    ensures s.cache[k].isFresh ==> k !in ViewOf(s.base)
  {
    assert EntryCoherent(s.cache[k], Lookup(ViewOf(s.base), k));
  }

  /**
   SpendCoin answers whether the fetched cache has an entry, which is not whether there was a coin
   to spend: it differs exactly when this cache holds the outpoint as spent.
   */
  predicate SpendAnswer(s: Stack, k: OutPoint)
    requires s.Level?
  {
    k in Fetch(s, k).cache
  }

  lemma SpendAnswerIsExact(s: Stack, k: OutPoint)
    requires s.Level? && Sound(s)
    ensures (SpendAnswer(s, k) == (k in ViewOf(s))) <==> !(k in s.cache && s.cache[k].coin.IsSpent())
  {
  }

  /** Spending twice at the top of a cache over an unspent coin is such a case. */
  lemma SpendAnswerCanMislead(k: OutPoint, coin: Coin)
    requires !coin.IsSpent()
    ensures var s := Apply(Level(map[], Database(map[k := coin])), Spend(k));
            Sound(s) && k !in ViewOf(s) && SpendAnswer(s, k)
  {
    var s0 := Level(map[], Database(map[k := coin]));
    assert Fetch(s0, k).cache == map[k := Entry(coin, false, false)];
    ApplyRefinesFlat(s0, Spend(k));
  }
}
