/**
 The cache objects themselves (src/coins.cpp): each holds its entries, a running total of the heap
 its coins use, and a pointer to the view it is backed by, which a fetch also fills.  `Abs` reads
 the whole hierarchy as a `Stack`; every method is proved to take the step of that name on it.
 */
module CoinsViews {
  import opened Basics
  import opened Coins

  /** The sum of DynamicMemoryUsage over the entries, which SanityCheck recomputes. */
  ghost function Usage(c: Cache): nat
    decreases |c|
  {
    if c == map[] then 0
    else
      var k :| k in c;
      c[k].coin.DynamicMemoryUsage() + Usage(c - {k})
  }

  lemma {:induction false} UsageSplits(c: Cache, k: OutPoint)
    requires k in c
    ensures Usage(c) == c[k].coin.DynamicMemoryUsage() + Usage(c - {k})
    decreases |c|
  {
    var j :| j in c && Usage(c) == c[j].coin.DynamicMemoryUsage() + Usage(c - {j});
    if j != k {
      UsageSplits(c - {j}, k);
      UsageSplits(c - {k}, j);
      assert c - {j} - {k} == c - {k} - {j};
    }
  }

  lemma UsageOfUpdate(c: Cache, k: OutPoint, e: Entry)
    ensures Usage(c[k := e]) == Usage(c - {k}) + e.coin.DynamicMemoryUsage()
    ensures k in c ==> Usage(c) == Usage(c - {k}) + c[k].coin.DynamicMemoryUsage()
    ensures k !in c ==> Usage(c - {k}) == Usage(c)
  {
    UsageSplits(c[k := e], k);
    assert c[k := e] - {k} == c - {k};
    if k in c { UsageSplits(c, k); } else { assert c - {k} == c; }
  }

  /** What a `CCoinsView*` may point to. */
  datatype CoinsView = FromDatabase(db: CoinsViewDB) | FromCache(cache: CoinsViewCache)

  /** Pending writes and erasures of a CDBBatch. */
  type Batch = b: map<OutPoint, Option<Coin>> | forall k | k in b :: b[k].Some? ==> !b[k].value.IsSpent()

  /** What m_db->WriteBatch makes of the stored coins. */
  function Commit(db: View, batch: Batch): View {
    map k | k in db.Keys + batch.Keys && (k in batch ==> batch[k].Some?)
      :: if k in batch then batch[k].value else db[k]
  }

  class CoinsViewDB {
    var coins: View

    /** Whether SizeEstimate of a batch is above batch_write_bytes. */
    const full: Batch -> bool

    constructor (coins: View, full: Batch -> bool)
      ensures this.coins == coins && this.full == full
    {
      this.coins, this.full := coins, full;
    }

    method GetCoin(k: OutPoint) returns (coin: Option<Coin>)
      ensures coin == Lookup(coins, k)
    {
      coin := Lookup(coins, k);
    }

    /** One pass in no particular order, committing a partial batch whenever it has become too large. */
    method BatchWrite(mapCoins: Cache, erase: bool) returns (rest: Cache)
      modifies this
      ensures coins == WriteBatch(old(coins), mapCoins)
      ensures rest == if erase then map[] else mapCoins
    {
      var batch: Batch := map[];
      var todo := mapCoins.Keys;
      rest := mapCoins;
      while todo != {}
        invariant todo <= mapCoins.Keys
        invariant BatchedSoFar(old(coins), mapCoins, todo, coins, batch)
        invariant if erase then rest.Keys == todo else rest == mapCoins
        decreases |todo|
      {
        var k :| k in todo;
        OneBatched(old(coins), mapCoins, todo, coins, batch, k);
        if mapCoins[k].isDirty {
          batch := batch[k := Stored(mapCoins[k])];
        }
        todo := todo - {k};
        if erase { rest := rest - {k}; }
        if full(batch) {
          Committed(old(coins), mapCoins, todo, coins, batch);
          coins := Commit(coins, batch);
          batch := map[];
        }
      }
      AllBatched(old(coins), mapCoins, coins, batch);
      coins := Commit(coins, batch);
    }
  }

  class CoinsViewCache {
    const base: CoinsView
    var cacheCoins: Cache
    var cachedCoinsUsage: nat

    ghost const depth: nat
    ghost const Repr: set<object>

    /** The hierarchy is a chain down to a database, and every level's running total is exact. */
    ghost predicate Shaped()
      reads this, Repr
      decreases depth
    {
      && this in Repr
      && cachedCoinsUsage == Usage(cacheCoins)
      && match base
         case FromDatabase(db) => db in Repr && Repr == {this, db}
         case FromCache(c) =>
           && c in Repr && c.depth < depth
           && this !in c.Repr && Repr == {this} + c.Repr
           && c.Shaped()
    }

    ghost function Abs(): (s: Stack)
      requires Shaped()
      reads this, Repr
      ensures s.Level? && s.cache == cacheCoins
      decreases depth
    {
      match base
      case FromDatabase(db) => Level(cacheCoins, Database(db.coins))
      case FromCache(c) => Level(cacheCoins, c.Abs())
    }

    ghost predicate Valid()
      reads this, Repr
    {
      Shaped() && Sound(Abs())
    }

    constructor OverDatabase(db: CoinsViewDB)
      ensures Valid() && fresh(Repr - {db})
      ensures Abs() == Level(map[], Database(db.coins))
    {
      base, cacheCoins, cachedCoinsUsage := FromDatabase(db), map[], 0;
      depth, Repr := 0, {this, db};
    }

    constructor OverCache(c: CoinsViewCache)
      requires c.Valid()
      ensures Valid() && fresh(Repr - c.Repr)
      ensures Abs() == Apply(c.Abs(), Push)
    {
      base, cacheCoins, cachedCoinsUsage := FromCache(c), map[], 0;
      depth, Repr := c.depth + 1, {this} + c.Repr;
    }

    /** A change of this cache's own fields that keeps its total exact moves only the top of the stack. */
    twostate lemma OnlyTopMoved()
      requires old(Shaped())
      requires forall o | o in Repr && o != this :: unchanged(o)
      requires cachedCoinsUsage == Usage(cacheCoins)
      ensures Shaped() && old(Abs()).Level? && Abs() == old(Abs()).(cache := cacheCoins)
    {
    }

    twostate lemma OnlyBelowMoved()
      requires old(Shaped()) && base.FromCache? && unchanged(this) && base.cache.Shaped()
      ensures old(Abs()).Level? && Shaped() && Abs() == old(Abs()).(base := base.cache.Abs())
      ensures old(Abs()).base == old(base.cache.Abs())
    {
    }

    /**
     A call on a cache further down, which changes no field of this one: if the cache below has taken
     the step of a call that leaves views alone, this one has taken the step of the same call one
     level deeper, and is still valid.
     */
    twostate lemma CallBelow(c: Call)
      requires old(Valid()) && base.FromCache? && unchanged(this)
      requires KeepsOwnView(c.op) && Allowed(old(base.cache.Abs()), c)
      requires base.cache.Shaped() && base.cache.Abs() == Step(old(base.cache.Abs()), c)
      ensures Allowed(old(Abs()), Call(c.down + 1, c.op))
      ensures Valid() && Abs() == Step(old(Abs()), Call(c.down + 1, c.op))
      ensures ViewOf(Abs()) == old(ViewOf(Abs()))
    {
      OnlyBelowMoved();
      StepBelow(old(Abs()), c);
    }

    /** Stores an entry, charging the new coin and releasing the one it replaces. */
    method Put(k: OutPoint, entry: Entry)
      requires cachedCoinsUsage == Usage(cacheCoins)
      modifies this
      ensures cacheCoins == old(cacheCoins)[k := entry] && cachedCoinsUsage == Usage(cacheCoins)
    {
      UsageOfUpdate(cacheCoins, k, entry);
      if k in cacheCoins { cachedCoinsUsage := cachedCoinsUsage - cacheCoins[k].coin.DynamicMemoryUsage(); }
      cacheCoins := cacheCoins[k := entry];
      cachedCoinsUsage := cachedCoinsUsage + entry.coin.DynamicMemoryUsage();
    }

    method Erase(k: OutPoint)
      requires cachedCoinsUsage == Usage(cacheCoins) && k in cacheCoins
      modifies this
      ensures cacheCoins == old(cacheCoins) - {k} && cachedCoinsUsage == Usage(cacheCoins)
    {
      UsageSplits(cacheCoins, k);
      cachedCoinsUsage := cachedCoinsUsage - cacheCoins[k].coin.DynamicMemoryUsage();
      cacheCoins := cacheCoins - {k};
    }

    method FetchCoin(k: OutPoint) returns (found: bool)
      requires Valid()
      modifies Repr
      ensures Valid() && Abs() == Fetch(old(Abs()), k)
      ensures found == (k in cacheCoins)
      decreases depth, 1
    {
      FetchStack(Abs(), k);
      if k in cacheCoins { return true; }
      var tmp := GetFromBase(k);
      label fetched:
      if tmp.None? { return false; }
      Put(k, Entry(tmp.value, false, tmp.value.IsSpent()));
      OnlyTopMoved@fetched();
      found := true;
    }

    /** The virtual call `base->GetCoin(outpoint, tmp)`. */
    method GetFromBase(k: OutPoint) returns (coin: Option<Coin>)
      requires Valid()
      modifies Repr - {this}
      ensures Shaped() && Abs() == old(Abs()).(base := Fetch(old(Abs()).base, k))
      ensures coin == Lookup(ViewOf(old(Abs()).base), k)
      decreases depth, 0
    {
      match base {
        case FromDatabase(db) => coin := db.GetCoin(k);
        case FromCache(c) => coin := c.GetCoin(k);
      }
    }

    /** Also HaveCoin and AccessCoin, which look at the same fetched entry. */
    method GetCoin(k: OutPoint) returns (coin: Option<Coin>)
      requires Valid()
      modifies Repr
      ensures Valid() && Abs() == Fetch(old(Abs()), k)
      ensures coin == Lookup(old(ViewOf(Abs())), k)
      decreases depth, 2
    {
      FetchStack(Abs(), k);
      var found := FetchCoin(k);
      coin := if found && !cacheCoins[k].coin.IsSpent() then Some(cacheCoins[k].coin) else None;
    }

    /** The source asserts the coin is unspent; the throwing path leaves the running total too low. */
    method AddCoin(k: OutPoint, coin: Coin, possibleOverwrite: bool) returns (threw: bool)
      requires Shaped() && !coin.IsSpent()
      modifies this
      ensures threw == old(Throws(Abs(), Add(k, coin, possibleOverwrite)))
      ensures !threw ==> Shaped() && Abs() == Apply(old(Abs()), Add(k, coin, possibleOverwrite))
      ensures old(Valid() && Promised(Abs(), Add(k, coin, possibleOverwrite))) ==> !threw && Valid()
      ensures threw ==>
        && cacheCoins == old(cacheCoins)
        && cachedCoinsUsage == old(cachedCoinsUsage) - cacheCoins[k].coin.DynamicMemoryUsage()
    {
      if Valid() && Promised(Abs(), Add(k, coin, possibleOverwrite)) {
        ApplyRefinesFlat(Abs(), Add(k, coin, possibleOverwrite));
      }
      if coin.IsUnspendable() { return false; }
      var inserted := k !in cacheCoins;
      var entry := if inserted then EMPTY_ENTRY else cacheCoins[k];
      UsageOfUpdate(cacheCoins, k, entry.(coin := coin));
      var isFresh := false;
      if !inserted { cachedCoinsUsage := cachedCoinsUsage - entry.coin.DynamicMemoryUsage(); }
      if !possibleOverwrite {
        if !entry.coin.IsSpent() { return true; }
        isFresh := !entry.isDirty;
      }
      entry := Entry(coin, true, entry.isFresh || isFresh);
      UsageOfUpdate(cacheCoins, k, entry);
      cacheCoins := cacheCoins[k := entry];
      cachedCoinsUsage := cachedCoinsUsage + coin.DynamicMemoryUsage();
      OnlyTopMoved();
      threw := false;
    }

    method SpendCoin(k: OutPoint) returns (answer: bool, moveout: Coin)
      requires Valid()
      modifies Repr
      ensures Valid() && Abs() == Apply(old(Abs()), Spend(k))
      ensures answer == SpendAnswer(old(Abs()), k)
      ensures moveout == match Lookup(old(ViewOf(Abs())), k) case Some(c) => c case None => NullCoin
    {
      ghost var s := Abs();
      assert Sound(Apply(s, Spend(k))) by { ApplyRefinesFlat(s, Spend(k)); }
      answer := FetchCoin(k);
      label fetched:
      moveout := NullCoin;
      FetchStack(s, k);
      if !answer { return; }
      var entry := cacheCoins[k];
      moveout := entry.coin;
      if entry.isFresh {
        Erase(k);
      } else {
        Put(k, Entry(NullCoin, true, false));
      }
      OnlyTopMoved@fetched();
    }

    method Uncache(k: OutPoint)
      requires Valid()
      modifies this
      ensures Valid() && Abs() == Apply(old(Abs()), Op.Uncache(k))
    {
      assert Sound(Apply(Abs(), Op.Uncache(k))) by { ApplyRefinesFlat(Abs(), Op.Uncache(k)); }
      if k in cacheCoins && !cacheCoins[k].isDirty && !cacheCoins[k].isFresh { Erase(k); }
      OnlyTopMoved();
    }

    /** One entry of a BatchWrite. */
    method WriteEntry(k: OutPoint, child: Entry) returns (threw: bool)
      requires cachedCoinsUsage == Usage(cacheCoins)
      modifies this
      ensures threw == Misapplied(old(Cached(cacheCoins, k)), child)
      ensures !threw ==> cachedCoinsUsage == Usage(cacheCoins)
      ensures !threw ==> cacheCoins == With(old(cacheCoins), k, MergeEntry(old(Cached(cacheCoins, k)), child))
    {
      threw := false;
      if !child.isDirty { return; }
      if k !in cacheCoins {
        if !(child.isFresh && child.coin.IsSpent()) { Put(k, Entry(child.coin, true, child.isFresh)); }
      } else {
        var us := cacheCoins[k];
        if child.isFresh && !us.coin.IsSpent() { return true; }
        if us.isFresh && child.coin.IsSpent() {
          Erase(k);
        } else {
          Put(k, us.(coin := child.coin, isDirty := true));
        }
      }
    }

    /** One pass over the child's entries in no particular order; what is left of the map is returned. */
    method BatchWrite(mapCoins: Cache, erase: bool) returns (rest: Cache, threw: bool)
      requires cachedCoinsUsage == Usage(cacheCoins)
      modifies this
      ensures threw <==> exists k | k in mapCoins :: Misapplied(Cached(old(cacheCoins), k), mapCoins[k])
      ensures !threw ==> cachedCoinsUsage == Usage(cacheCoins) && cacheCoins == Merge(old(cacheCoins), mapCoins)
      ensures !threw ==> rest == if erase then map[] else mapCoins
    {
      ghost var before := cacheCoins;
      rest, threw := mapCoins, false;
      var todo := mapCoins.Keys;
      while todo != {}
        invariant todo <= mapCoins.Keys
        invariant WrittenSoFar(before, mapCoins, todo, cacheCoins)
        invariant cachedCoinsUsage == Usage(cacheCoins)
        invariant if erase then rest.Keys == todo else rest == mapCoins
        decreases |todo|
      {
        var k :| k in todo;
        threw := WriteEntry(k, mapCoins[k]);
        if threw { return; }
        todo := todo - {k};
        if erase { rest := rest - {k}; }
      }
      AllWritten(before, mapCoins, cacheCoins);
    }

    /** The virtual call `base->BatchWrite(cacheCoins, ...)`. */
    method WriteBase(erase: bool) returns (rest: Cache, threw: bool)
      requires Valid()
      modifies Repr - {this}
      ensures !threw && Shaped() && Abs() == old(Abs()).(base := WriteTo(old(Abs()).base, cacheCoins))
      ensures rest == if erase then map[] else cacheCoins
    {
      assert !WriteThrows(Abs().base, cacheCoins) by { WriteToBase(Abs()); }
      match base {
        case FromDatabase(db) =>
          rest := db.BatchWrite(cacheCoins, erase);
          threw := false;
        case FromCache(c) =>
          assert c.Shaped();
          rest, threw := c.BatchWrite(cacheCoins, erase);
          c.OnlyTopMoved();
      }
    }

    method Flush() returns (threw: bool)
      requires Valid()
      modifies Repr
      ensures !threw && Valid() && Abs() == Apply(old(Abs()), Op.Flush)
    {
      assert Sound(Apply(Abs(), Op.Flush)) by { ApplyRefinesFlat(Abs(), Op.Flush); }
      var rest: Cache;
      rest, threw := WriteBase(true);
      label written:
      if rest != map[] { return true; }
      cacheCoins := rest;
      cachedCoinsUsage := 0;
      OnlyTopMoved@written();
    }

    method Sync() returns (threw: bool)
      requires Valid()
      modifies Repr
      ensures !threw && Valid() && Abs() == Apply(old(Abs()), Op.Sync)
    {
      assert Sound(Apply(Abs(), Op.Sync)) by { ApplyRefinesFlat(Abs(), Op.Sync); }
      var rest;
      rest, threw := WriteBase(false);
      label written:
      ClearFlags();
      OnlyTopMoved@written();
    }

    /** The loop at the end of Sync. */
    method ClearFlags()
      requires cachedCoinsUsage == Usage(cacheCoins)
      modifies this
      ensures cachedCoinsUsage == Usage(cacheCoins) && cacheCoins == Synced(old(cacheCoins))
    {
      ghost var before := cacheCoins;
      var todo := cacheCoins.Keys;
      while todo != {}
        invariant todo <= cacheCoins.Keys <= before.Keys
        invariant cachedCoinsUsage == Usage(cacheCoins)
        invariant forall k | k in todo :: cacheCoins[k] == before[k]
        invariant forall k | k in before && k !in todo ::
          if before[k].coin.IsSpent() then k !in cacheCoins
          else k in cacheCoins && cacheCoins[k] == Entry(before[k].coin, false, false)
        decreases |todo|
      {
        var k :| k in todo;
        var coin := cacheCoins[k].coin;
        if coin.IsSpent() {
          Erase(k);
        } else {
          Put(k, Entry(coin, false, false));
        }
        todo := todo - {k};
      }
    }

    /** Both assertions of SanityCheck hold in every valid cache. */
    method SanityCheck() returns (ok: bool)
      requires Valid()
      ensures ok
    {
      var todo, recomputed := cacheCoins.Keys, 0;
      ok := true;
      assert MapWithout(cacheCoins, todo) == map[];
      while todo != {}
        invariant todo <= cacheCoins.Keys && ok
        invariant recomputed == Usage(MapWithout(cacheCoins, todo))
        decreases |todo|
      {
        var k :| k in todo;
        SoundIsSane(Abs(), k);
        UsageSplits(MapWithout(cacheCoins, todo - {k}), k);
        assert MapWithout(cacheCoins, todo - {k}) - {k} == MapWithout(cacheCoins, todo);
        ok := ok && SaneFlags(cacheCoins[k]);
        recomputed := recomputed + cacheCoins[k].coin.DynamicMemoryUsage();
        todo := todo - {k};
      }
      assert MapWithout(cacheCoins, {}) == cacheCoins;
      ok := ok && recomputed == cachedCoinsUsage;
    }
  }

  function Pending(db: View, batch: Batch, k: OutPoint): Option<Coin> {
    if k in batch then batch[k] else Lookup(db, k)
  }

  /** What the database holds for a DIRTY entry once it is written. */
  function Stored(e: Entry): Option<Coin> {
    if e.coin.IsSpent() then None else Some(e.coin)
  }

  /** A database write in progress: stored coins with the batch on top show every entry passed so far. */
  ghost predicate BatchedSoFar(before: View, child: Cache, todo: set<OutPoint>, now: View, batch: Batch) {
    forall k {:trigger Pending(now, batch, k)} ::
      Pending(now, batch, k) ==
      if k in child && k !in todo && child[k].isDirty then Stored(child[k]) else Lookup(before, k)
  }

  lemma LookupCommit(db: View, batch: Batch, k: OutPoint)
    ensures Lookup(Commit(db, batch), k) == Pending(db, batch, k)
  {
  }

  lemma OneBatched(before: View, child: Cache, todo: set<OutPoint>, now: View, batch: Batch, k: OutPoint)
    requires BatchedSoFar(before, child, todo, now, batch) && k in todo && k in child
    ensures !child[k].isDirty ==> BatchedSoFar(before, child, todo - {k}, now, batch)
    ensures child[k].isDirty ==> BatchedSoFar(before, child, todo - {k}, now, batch[k := Stored(child[k])])
  {
    if child[k].isDirty {
      var next: Batch := batch[k := Stored(child[k])];
      forall j
        ensures Pending(now, next, j) ==
                if j in child && j !in todo - {k} && child[j].isDirty then Stored(child[j]) else Lookup(before, j)
      {
        assert j != k ==> Pending(now, next, j) == Pending(now, batch, j);
      }
    }
  }

  /** A committed batch may be cleared. */
  lemma Committed(before: View, child: Cache, todo: set<OutPoint>, now: View, batch: Batch)
    requires BatchedSoFar(before, child, todo, now, batch)
    ensures BatchedSoFar(before, child, todo, Commit(now, batch), map[])
  {
    forall k ensures Pending(Commit(now, batch), map[], k) == Pending(now, batch, k) {
      LookupCommit(now, batch, k);
    }
  }

  lemma AllBatched(before: View, child: Cache, now: View, batch: Batch)
    requires BatchedSoFar(before, child, {}, now, batch)
    ensures Commit(now, batch) == WriteBatch(before, child)
  {
    forall k ensures Lookup(Commit(now, batch), k) == Lookup(WriteBatch(before, child), k) {
      LookupCommit(now, batch, k);
    }
    SameLookups(Commit(now, batch), WriteBatch(before, child));
  }

  /**
   Adding an outpoint that this cache just got, without announcing an overwrite: the second call
   throws, and the memory total is then wrong exactly when the cached coin uses heap memory.
   */
  method AddTwice(db: CoinsViewDB, k: OutPoint, first: Coin, second: Coin) returns (cache: CoinsViewCache, threw: bool)
    requires !first.IsSpent() && !first.IsUnspendable() && !second.IsSpent() && !second.IsUnspendable()
    requires k !in db.coins
    ensures threw && k in cache.cacheCoins && cache.cacheCoins[k].coin == first
    ensures cache.cachedCoinsUsage == Usage(cache.cacheCoins) <==> first.DynamicMemoryUsage() == 0
  {
    cache := new CoinsViewCache.OverDatabase(db);
    EmptyCacheIsTransparent(db.coins);
    var _ := cache.AddCoin(k, first, false);
    threw := cache.AddCoin(k, second, false);
  }

  /** BatchWrite in progress: keys in `todo` still have the entry they started with. */
  ghost predicate WrittenSoFar(before: Cache, child: Cache, todo: set<OutPoint>, now: Cache) {
    forall k {:trigger Cached(before, k)} ::
      if k in child && k !in todo then
        !Misapplied(Cached(before, k), child[k]) && Cached(now, k) == MergeEntry(Cached(before, k), child[k])
      else
        Cached(now, k) == Cached(before, k)
  }

  lemma AllWritten(before: Cache, child: Cache, now: Cache)
    requires WrittenSoFar(before, child, {}, now)
    ensures now == Merge(before, child)
    ensures forall k | k in child :: !Misapplied(Cached(before, k), child[k])
  {
    var m := Merge(before, child);
    forall k
      ensures k in now <==> k in m
      ensures k in now ==> now[k] == m[k]
    {
      assert Cached(now, k) == MergedAt(before, child, k) by { var _ := Cached(before, k); }
    }
  }

  function With(c: Cache, k: OutPoint, e: Option<Entry>): Cache {
    match e
    case None => c - {k}
    case Some(entry) => c[k := entry]
  }

  ghost function MapWithout(c: Cache, todo: set<OutPoint>): Cache {
    map k | k in c && k !in todo :: c[k]
  }
}
