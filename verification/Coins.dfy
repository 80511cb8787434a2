/**
  The UTXO cache stack: write-back caches with DIRTY and FRESH flags, each one on top
  of the next, over the coin database.

  The caches of a stack are numbered from the bottom; the base of cache 0 is the
  database, the base of cache i + 1 is cache i.
 */
module Coins {

  datatype OutPoint = OutPoint(hash: nat, n: nat)

  datatype Coin = Coin(nValue: int, scriptPubKey: seq<nat>, nHeight: nat, fCoinBase: bool, fGameTx: bool)

  /** A cleared coin. */
  const EMPTY_COIN := Coin(-1, [], 0, false, false)

  predicate IsSpent(c: Coin) { c.nValue == -1 }

  const OP_RETURN: nat := 0x6a
  const MAX_SCRIPT_SIZE: nat := 10000

  predicate IsUnspendable(c: Coin)
  {
    (|c.scriptPubKey| > 0 && c.scriptPubKey[0] == OP_RETURN) || |c.scriptPubKey| > MAX_SCRIPT_SIZE
  }

  datatype Entry = Entry(coin: Coin, isDirty: bool, isFresh: bool)

  type CoinsMap = map<OutPoint, Entry>

  /** The fields of one cache; block hash 0 is the null hash. */
  datatype Cache = Cache(cacheCoins: CoinsMap, cachedCoinsUsage: int, hashBlock: nat)

  const EMPTY_CACHE := Cache(map[], 0, 0)

  /** A set of visible unspent coins. */
  type Utxos = map<OutPoint, Coin>

  datatype Outcome = Ok | ThrewLogicError | AssertFailed

  // ----- What a stack shows -----

  /** The coins seen through a cache: its own entries first, then its base. */
  function Overlay(cache: CoinsMap, base: Utxos): Utxos
  {
    map o | o in cache.Keys + base.Keys && (o in cache ==> !IsSpent(cache[o].coin)) ::
      if o in cache then cache[o].coin else base[o]
  }

  function View(db: Utxos, caches: seq<Cache>): Utxos
  {
    if caches == [] then db
    else Overlay(caches[|caches| - 1].cacheCoins, View(db, caches[..|caches| - 1]))
  }

  function BestBlock(dbBest: nat, caches: seq<Cache>): nat
  {
    if caches == [] then dbBest
    else if caches[|caches| - 1].hashBlock != 0 then caches[|caches| - 1].hashBlock
    else BestBlock(dbBest, caches[..|caches| - 1])
  }

  /** Two stacks of the same height that show the same at every level. */
  ghost predicate SameViews(db: Utxos, caches: seq<Cache>, db': Utxos, caches': seq<Cache>)
  {
    |caches| == |caches'| && forall j :: 0 <= j <= |caches| ==> View(db, caches[..j]) == View(db', caches'[..j])
  }

  // ----- What the flags promise -----

  /** FRESH: the base has no unspent coin here.  Not DIRTY: the entry is what the base shows. */
  ghost predicate EntryOk(o: OutPoint, e: Entry, base: Utxos)
  {
    && (e.isFresh ==> o !in base)
    && (!e.isDirty ==> if o in base then e.coin == base[o] else IsSpent(e.coin))
  }

  ghost predicate FlagsOk(cache: CoinsMap, base: Utxos)
  {
    forall o :: o in cache ==> EntryOk(o, cache[o], base)
  }

  ghost function UsageSum(cache: CoinsMap, usage: Coin -> nat): nat
  {
    if cache == map[] then 0
    else
      var o :| o in cache;
      usage(cache[o].coin) + UsageSum(cache - {o}, usage)
  }

  ghost predicate Unspent(u: Utxos)
  {
    forall o :: o in u ==> !IsSpent(u[o])
  }

  ghost predicate CacheOk(c: Cache, base: Utxos, usage: Coin -> nat)
  {
    FlagsOk(c.cacheCoins, base) && c.cachedCoinsUsage == UsageSum(c.cacheCoins, usage)
  }

  ghost predicate LevelOk(db: Utxos, caches: seq<Cache>, i: nat, usage: Coin -> nat)
    requires i < |caches|
  {
    CacheOk(caches[i], View(db, caches[..i]), usage)
  }

  ghost predicate StackOk(db: Utxos, caches: seq<Cache>, usage: Coin -> nat)
  {
    && Unspent(db)
    && forall i :: 0 <= i < |caches| ==> LevelOk(db, caches, i, usage)
  }

  lemma TopLevel(db: Utxos, caches: seq<Cache>, top: nat, usage: Coin -> nat)
    requires StackOk(db, caches, usage) && |caches| == top + 1
    ensures CacheOk(caches[top], View(db, caches[..top]), usage)
    ensures View(db, caches[..top + 1]) == Overlay(caches[top].cacheCoins, View(db, caches[..top]))
  {
    assert LevelOk(db, caches, top, usage);
    ViewStep(db, caches, top);
  }

  lemma {:induction false} ViewUnspent(db: Utxos, caches: seq<Cache>)
    requires Unspent(db)
    ensures Unspent(View(db, caches))
  {
    if caches != [] { ViewUnspent(db, caches[..|caches| - 1]); }
  }

  lemma ViewStep(db: Utxos, caches: seq<Cache>, i: nat)
    requires i < |caches|
    ensures View(db, caches[..i + 1]) == Overlay(caches[i].cacheCoins, View(db, caches[..i]))
  {
    assert caches[..i + 1][..i] == caches[..i];
  }

  /** Where two stacks show the same at level m and agree above it, they show the same above it. */
  lemma {:induction false} AboveSame(db: Utxos, caches: seq<Cache>, db': Utxos, caches': seq<Cache>, m: nat, j: nat)
    requires |caches| == |caches'| && m <= j <= |caches|
    requires View(db, caches[..m]) == View(db', caches'[..m])
    requires forall i :: m <= i < |caches| ==> SameCoins(caches, caches', i)
    ensures View(db, caches[..j]) == View(db', caches'[..j])
    decreases j
  {
    if j > m {
      var i := j - 1;
      AboveSame(db, caches, db', caches', m, i);
      assert SameCoins(caches, caches', i);
      SameStep(db, caches, db', caches', i);
    }
  }

  predicate SameCoins(caches: seq<Cache>, caches': seq<Cache>, i: nat)
    requires i < |caches| == |caches'|
  {
    caches[i].cacheCoins == caches'[i].cacheCoins
  }

  lemma SameStep(db: Utxos, caches: seq<Cache>, db': Utxos, caches': seq<Cache>, i: nat)
    requires i < |caches| == |caches'|
    requires View(db, caches[..i]) == View(db', caches'[..i]) && caches[i].cacheCoins == caches'[i].cacheCoins
    ensures View(db, caches[..i + 1]) == View(db', caches'[..i + 1])
  {
    ViewStep(db, caches, i);
    ViewStep(db', caches', i);
  }

  lemma AboveSameEverywhere(db: Utxos, caches: seq<Cache>, caches': seq<Cache>)
    requires |caches| == |caches'|
    requires forall i :: 0 <= i < |caches| ==> caches[i].cacheCoins == caches'[i].cacheCoins
    ensures SameViews(db, caches, db, caches')
  {
    forall i | 0 <= i < |caches| ensures SameCoins(caches, caches', i) {}
    forall j | 0 <= j <= |caches| ensures View(db, caches[..j]) == View(db, caches'[..j]) {
      AboveSame(db, caches, db, caches', 0, j);
    }
  }

  /** A change below level m that leaves what level m shows keeps the stack consistent and all views from m on. */
  lemma AboveKeeps(db: Utxos, caches: seq<Cache>, db': Utxos, caches': seq<Cache>, m: nat, usage: Coin -> nat)
    requires StackOk(db, caches, usage) && Unspent(db')
    requires |caches| == |caches'| && m <= |caches|
    requires View(db, caches[..m]) == View(db', caches'[..m])
    requires forall i :: m <= i < |caches| ==> caches[i] == caches'[i]
    requires forall i :: 0 <= i < m ==> LevelOk(db', caches', i, usage)
    ensures StackOk(db', caches', usage)
    ensures forall j :: m <= j <= |caches| ==> View(db, caches[..j]) == View(db', caches'[..j])
  {
    forall i | m <= i < |caches| ensures SameCoins(caches, caches', i) {}
    forall j | m <= j <= |caches| ensures View(db, caches[..j]) == View(db', caches'[..j]) {
      AboveSame(db, caches, db', caches', m, j);
    }
    forall i | m <= i < |caches| ensures LevelOk(db', caches', i, usage) {
      assert LevelOk(db, caches, i, usage);
    }
  }

  /** Exchanging one cache for a consistent one that shows the same changes no view. */
  lemma ReplaceKeeps(db: Utxos, caches: seq<Cache>, i: nat, c: Cache, usage: Coin -> nat)
    requires StackOk(db, caches, usage) && i < |caches|
    requires CacheOk(c, View(db, caches[..i]), usage)
    requires Overlay(c.cacheCoins, View(db, caches[..i])) == Overlay(caches[i].cacheCoins, View(db, caches[..i]))
    ensures StackOk(db, caches[i := c], usage)
    ensures forall j :: 0 <= j <= |caches| ==> View(db, caches[i := c][..j]) == View(db, caches[..j])
  {
    var caches' := caches[i := c];
    forall j | 0 <= j <= i ensures caches'[..j] == caches[..j] {}
    ViewStep(db, caches, i);
    ViewStep(db, caches', i);
    forall j | 0 <= j < i ensures LevelOk(db, caches', j, usage) {
      assert LevelOk(db, caches, j, usage);
    }
    AboveKeeps(db, caches, db, caches', i + 1, usage);
  }

  /** Exchanging the topmost cache changes only the topmost view. */
  lemma ReplaceTop(db: Utxos, caches: seq<Cache>, c: Cache, caches': seq<Cache>, usage: Coin -> nat)
    requires |caches| > 0 && caches' == caches[|caches| - 1 := c]
    ensures View(db, caches'[..|caches'|]) == Overlay(c.cacheCoins, View(db, caches[..|caches| - 1]))
    ensures forall j :: 0 <= j < |caches| ==> View(db, caches'[..j]) == View(db, caches[..j])
    ensures StackOk(db, caches, usage) ==>
      (StackOk(db, caches', usage) <==> CacheOk(c, View(db, caches[..|caches| - 1]), usage))
  {
    forall j | 0 <= j < |caches| ensures caches'[..j] == caches[..j] {}
    ViewStep(db, caches', |caches| - 1);
    if StackOk(db, caches, usage) { ReplaceTopOk(db, caches, c, caches', |caches| - 1, usage); }
  }

  lemma ReplaceTopOk(db: Utxos, caches: seq<Cache>, c: Cache, caches': seq<Cache>, top: nat, usage: Coin -> nat)
    requires StackOk(db, caches, usage) && |caches| == top + 1 && caches' == caches[top := c]
    ensures StackOk(db, caches', usage) <==> CacheOk(c, View(db, caches[..top]), usage)
  {
    forall i | 0 <= i < top ensures LevelOk(db, caches', i, usage) {
      assert caches'[..i] == caches[..i];
      assert LevelOk(db, caches, i, usage);
    }
    assert caches'[..top] == caches[..top];
    assert StackOk(db, caches', usage) <==> LevelOk(db, caches', top, usage);
  }

  /** An entry without flags can be dropped: the base shows the same coin. */
  lemma DropUnmodified(cache: CoinsMap, base: Utxos, o: OutPoint)
    requires FlagsOk(cache, base) && Unspent(base)
    requires o in cache && !cache[o].isDirty
    ensures FlagsOk(cache - {o}, base) && Overlay(cache - {o}, base) == Overlay(cache, base)
  {
    assert EntryOk(o, cache[o], base);
  }

  lemma PushKeeps(db: Utxos, caches: seq<Cache>, caches': seq<Cache>, usage: Coin -> nat)
    requires StackOk(db, caches, usage) && caches' == caches + [EMPTY_CACHE]
    ensures StackOk(db, caches', usage)
    ensures forall j :: 0 <= j <= |caches| ==> View(db, caches'[..j]) == View(db, caches[..j])
    ensures View(db, caches'[..|caches| + 1]) == View(db, caches[..|caches|])
  {
    forall j | 0 <= j <= |caches| ensures caches'[..j] == caches[..j] {}
    ViewStep(db, caches', |caches|);
    OverlayEmpty(View(db, caches[..|caches|]));
    forall i | 0 <= i < |caches'| ensures LevelOk(db, caches', i, usage) {
      if i < |caches| { assert LevelOk(db, caches, i, usage); }
    }
  }

  lemma OverlayEmpty(base: Utxos)
    ensures Overlay(map[], base) == base
  {
  }

  lemma PopKeeps(db: Utxos, caches: seq<Cache>, usage: Coin -> nat)
    requires StackOk(db, caches, usage) && |caches| > 0
    ensures StackOk(db, caches[..|caches| - 1], usage)
    ensures forall j :: 0 <= j < |caches| ==> View(db, caches[..|caches| - 1][..j]) == View(db, caches[..j])
  {
    var lower := caches[..|caches| - 1];
    forall j | 0 <= j < |caches| ensures lower[..j] == caches[..j] {}
    forall i | 0 <= i < |lower| ensures LevelOk(db, lower, i, usage) {
      assert LevelOk(db, caches, i, usage);
    }
  }

  // ----- The memory accounting -----

  lemma {:induction false} UsageRemove(cache: CoinsMap, o: OutPoint, usage: Coin -> nat)
    requires o in cache
    ensures UsageSum(cache, usage) == usage(cache[o].coin) + UsageSum(cache - {o}, usage)
    decreases |cache|
  {
    var p :| p in cache && UsageSum(cache, usage) == usage(cache[p].coin) + UsageSum(cache - {p}, usage);
    if p != o {
      UsageRemove(cache - {p}, o, usage);
      UsageRemove(cache - {o}, p, usage);
      assert cache - {p} - {o} == cache - {o} - {p};
    }
  }

  lemma UsageInsert(cache: CoinsMap, o: OutPoint, e: Entry, usage: Coin -> nat)
    ensures UsageSum(cache[o := e], usage) ==
            UsageSum(cache, usage) + usage(e.coin) - (if o in cache then usage(cache[o].coin) else 0)
  {
    UsageRemove(cache[o := e], o, usage);
    assert cache[o := e] - {o} == cache - {o};
    if o in cache { UsageRemove(cache, o, usage); } else { assert cache - {o} == cache; }
  }

  /** A cache after looking for an outpoint. */
  function Fetched(cache: CoinsMap, base: Utxos, o: OutPoint): CoinsMap
  {
    if o in cache || o !in base then cache else cache[o := Entry(base[o], false, false)]
  }

  lemma InsertFetched(cache: CoinsMap, base: Utxos, o: OutPoint)
    requires FlagsOk(cache, base) && Unspent(base) && o !in cache && o in base
    ensures var cache' := cache[o := Entry(base[o], false, false)];
            FlagsOk(cache', base) && Overlay(cache', base) == Overlay(cache, base)
  {
  }

  /** Copying a visible coin from the base into a cache without flags changes no view. */
  lemma InsertFetchedKeeps(db: Utxos, caches: seq<Cache>, i: nat, o: OutPoint, c: Cache, usage: Coin -> nat)
    requires StackOk(db, caches, usage) && i < |caches|
    requires o !in caches[i].cacheCoins && o in View(db, caches[..i])
    requires c.cacheCoins == caches[i].cacheCoins[o := Entry(View(db, caches[..i])[o], false, false)]
    requires c.cachedCoinsUsage == caches[i].cachedCoinsUsage + usage(View(db, caches[..i])[o])
    ensures StackOk(db, caches[i := c], usage) && SameViews(db, caches, db, caches[i := c])
  {
    var base := View(db, caches[..i]);
    ViewUnspent(db, caches[..i]);
    assert LevelOk(db, caches, i, usage);
    UsageInsert(caches[i].cacheCoins, o, Entry(base[o], false, false), usage);
    InsertFetched(caches[i].cacheCoins, base, o);
    ReplaceKeeps(db, caches, i, c, usage);
  }

  /** The entry that adding a coin starts from. */
  function Existing(cache: CoinsMap, o: OutPoint): Entry
  {
    if o in cache then cache[o] else Entry(EMPTY_COIN, false, false)
  }

  function AddedEntry(cache: CoinsMap, o: OutPoint, coin: Coin, overwrite: bool): Entry
  {
    var e := Existing(cache, o);
    Entry(coin, true, e.isFresh || (!overwrite && !e.isDirty))
  }

  /**
    Adding shows the coin at once.  The flags stay truthful exactly when an addition without
    `overwrite` replaces no visible coin.
   */
  lemma AddedShows(cache: CoinsMap, base: Utxos, o: OutPoint, coin: Coin, overwrite: bool)
    requires !IsSpent(coin) && (overwrite || IsSpent(Existing(cache, o).coin))
    ensures var cache' := cache[o := AddedEntry(cache, o, coin, overwrite)];
      && Overlay(cache', base) == Overlay(cache, base)[o := coin]
      && (FlagsOk(cache, base) && Unspent(base) ==>
            (FlagsOk(cache', base) <==> overwrite || o !in Overlay(cache, base)))
  {
    var cache' := cache[o := AddedEntry(cache, o, coin, overwrite)];
    if FlagsOk(cache, base) && Unspent(base) {
      assert forall p :: p in cache ==> EntryOk(p, cache[p], base);
      assert FlagsOk(cache', base) <==> EntryOk(o, cache'[o], base);
    }
  }

  /** Add a coin to a cache; when it throws, the usage is already reduced. */
  method AddTo(c0: Cache, o: OutPoint, coin: Coin, overwrite: bool, usage: Coin -> nat) returns (thrown: bool, c: Cache)
    ensures thrown <==> !overwrite && !IsSpent(Existing(c0.cacheCoins, o).coin)
    ensures c.cacheCoins ==
            if thrown then c0.cacheCoins else c0.cacheCoins[o := AddedEntry(c0.cacheCoins, o, coin, overwrite)]
    ensures c.cachedCoinsUsage ==
            c0.cachedCoinsUsage - (if o in c0.cacheCoins then usage(c0.cacheCoins[o].coin) else 0)
            + (if thrown then 0 else usage(coin))
    ensures c.hashBlock == c0.hashBlock
  {
    c := c0;
    var e := Existing(c.cacheCoins, o);
    var isFresh := false;
    if o in c.cacheCoins {
      c := c.(cachedCoinsUsage := c.cachedCoinsUsage - usage(e.coin));
    }
    if !overwrite {
      if !IsSpent(e.coin) {
        return true, c;
      }
      isFresh := !e.isDirty;
    }
    c := c.(cacheCoins := c.cacheCoins[o := Entry(coin, true, e.isFresh || isFresh)],
            cachedCoinsUsage := c.cachedCoinsUsage + usage(coin));
    thrown := false;
  }

  /** The same with the memory accounting. */
  lemma AddedCache(c: Cache, base: Utxos, o: OutPoint, coin: Coin, overwrite: bool, usage: Coin -> nat, c': Cache)
    requires !IsSpent(coin) && (overwrite || IsSpent(Existing(c.cacheCoins, o).coin))
    requires c'.cacheCoins == c.cacheCoins[o := AddedEntry(c.cacheCoins, o, coin, overwrite)]
    requires c'.cachedCoinsUsage ==
             c.cachedCoinsUsage - (if o in c.cacheCoins then usage(c.cacheCoins[o].coin) else 0) + usage(coin)
    ensures Overlay(c'.cacheCoins, base) == Overlay(c.cacheCoins, base)[o := coin]
    ensures CacheOk(c, base, usage) && Unspent(base) ==>
      (CacheOk(c', base, usage) <==> overwrite || o !in Overlay(c.cacheCoins, base))
  {
    AddedShows(c.cacheCoins, base, o, coin, overwrite);
    UsageInsert(c.cacheCoins, o, AddedEntry(c.cacheCoins, o, coin, overwrite), usage);
  }

  function SpentCache(cache: CoinsMap, o: OutPoint): CoinsMap
    requires o in cache
  {
    if cache[o].isFresh then cache - {o} else cache[o := Entry(EMPTY_COIN, true, false)]
  }

  lemma SpentShows(cache: CoinsMap, base: Utxos, o: OutPoint)
    requires FlagsOk(cache, base) && o in cache
    ensures FlagsOk(SpentCache(cache, o), base)
    ensures Overlay(SpentCache(cache, o), base) == Overlay(cache, base) - {o}
  {
    assert EntryOk(o, cache[o], base);
  }

  lemma SpentCacheOk(c: Cache, base: Utxos, o: OutPoint, usage: Coin -> nat, c': Cache)
    requires CacheOk(c, base, usage) && o in c.cacheCoins && usage(EMPTY_COIN) == 0
    requires c'.cacheCoins == SpentCache(c.cacheCoins, o)
    requires c'.cachedCoinsUsage == c.cachedCoinsUsage - usage(c.cacheCoins[o].coin)
    ensures CacheOk(c', base, usage) && Overlay(c'.cacheCoins, base) == Overlay(c.cacheCoins, base) - {o}
  {
    SpentShows(c.cacheCoins, base, o);
    UsageRemove(c.cacheCoins, o, usage);
    UsageInsert(c.cacheCoins, o, Entry(EMPTY_COIN, true, false), usage);
  }

  /** What writing one entry of a child cache does to the entry of its base. */
  datatype Merged = Misapplied | Absent | Present(entry: Entry)

  function MergeEntry(child: Entry, us: CoinsMap, o: OutPoint): Merged
  {
    if o !in us then
      if child.isFresh && IsSpent(child.coin) then Absent
      else Present(Entry(child.coin, true, child.isFresh))
    else if child.isFresh && !IsSpent(us[o].coin) then Misapplied
    else if us[o].isFresh && IsSpent(child.coin) then Absent
    else Present(Entry(child.coin, true, us[o].isFresh))
  }

  /**
    Writing a dirty entry of a child makes the base show what the child shows there, and keeps the flags of the
    base truthful.
   */
  lemma MergeShows(child: Entry, us: CoinsMap, base: Utxos, o: OutPoint)
    requires EntryOk(o, child, Overlay(us, base)) && child.isDirty && FlagsOk(us, base) && Unspent(base)
    ensures match MergeEntry(child, us, o)
      case Misapplied => false
      case Absent => IsSpent(child.coin) && o !in base
      case Present(e) => e.coin == child.coin && EntryOk(o, e, base)
  {
    if o in us { assert EntryOk(o, us[o], base); }
  }

  ghost predicate WrittenAt(mapCoins: CoinsMap, todo: CoinsMap, was: CoinsMap, now: CoinsMap, o: OutPoint)
  {
    if o in mapCoins && o !in todo && mapCoins[o].isDirty then
      match MergeEntry(mapCoins[o], was, o)
      case Misapplied => false
      case Absent => o !in now
      case Present(e) => o in now && now[o] == e
    else (o in now <==> o in was) && (o in now ==> now[o] == was[o])
  }

  /** Cache `now` is cache `was` with the entries of `mapCoins` written, except those still in `todo`. */
  ghost predicate Written(mapCoins: CoinsMap, todo: CoinsMap, was: CoinsMap, now: CoinsMap)
  {
    forall o :: WrittenAt(mapCoins, todo, was, now, o)
  }

  /** Cache `now'` is cache `now` with one entry written. */
  ghost predicate WroteOne(child: Entry, now: CoinsMap, o: OutPoint, now': CoinsMap)
  {
    if !child.isDirty then now' == now
    else match MergeEntry(child, now, o)
      case Misapplied => now' == now
      case Absent => now' == now - {o}
      case Present(e) => now' == now[o := e]
  }

  lemma WrittenStep(mapCoins: CoinsMap, todo: CoinsMap, was: CoinsMap, now: CoinsMap, o: OutPoint, now': CoinsMap)
    requires Written(mapCoins, todo, was, now) && o in todo && o in mapCoins
    requires WroteOne(mapCoins[o], now, o, now')
    requires mapCoins[o].isDirty ==> MergeEntry(mapCoins[o], now, o) != Misapplied
    ensures Written(mapCoins, todo - {o}, was, now')
  {
    assert WrittenAt(mapCoins, todo, was, now, o);
    forall p ensures WrittenAt(mapCoins, todo - {o}, was, now', p) {
      assert WrittenAt(mapCoins, todo, was, now, p);
    }
  }

  lemma NeverMisapplied(mapCoins: CoinsMap, was: CoinsMap, base: Utxos)
    requires FlagsOk(was, base) && Unspent(base)
    ensures FlagsOk(mapCoins, Overlay(was, base)) ==>
      forall o :: o in mapCoins && mapCoins[o].isDirty ==> MergeEntry(mapCoins[o], was, o) != Misapplied
  {
    if FlagsOk(mapCoins, Overlay(was, base)) {
      forall o | o in mapCoins && mapCoins[o].isDirty ensures MergeEntry(mapCoins[o], was, o) != Misapplied {
        MergeShows(mapCoins[o], was, base, o);
      }
    }
  }

  /** After writing all entries the base shows what the child showed. */
  lemma WrittenShows(mapCoins: CoinsMap, was: CoinsMap, now: CoinsMap, base: Utxos)
    requires FlagsOk(was, base) && Unspent(base) && Written(mapCoins, map[], was, now)
    ensures FlagsOk(mapCoins, Overlay(was, base)) ==>
      FlagsOk(now, base) && Overlay(now, base) == Overlay(mapCoins, Overlay(was, base))
  {
    if FlagsOk(mapCoins, Overlay(was, base)) {
      forall o | o in mapCoins && mapCoins[o].isDirty
        ensures match MergeEntry(mapCoins[o], was, o)
          case Misapplied => false
          case Absent => IsSpent(mapCoins[o].coin) && o !in base
          case Present(e) => e.coin == mapCoins[o].coin && EntryOk(o, e, base)
      {
        MergeShows(mapCoins[o], was, base, o);
      }
      forall o | o in now ensures EntryOk(o, now[o], base) {
        assert WrittenAt(mapCoins, map[], was, now, o);
      }
      forall o
        ensures o in Overlay(now, base) <==> o in Overlay(mapCoins, Overlay(was, base))
        ensures o in Overlay(now, base) ==> Overlay(now, base)[o] == Overlay(mapCoins, Overlay(was, base))[o]
      {
        assert WrittenAt(mapCoins, map[], was, now, o);
      }
    }
  }

  /** Emptying cache i after its base has come to show the same keeps every view from there on. */
  lemma FlushedKeeps(db: Utxos, caches: seq<Cache>, db': Utxos, caches': seq<Cache>, i: nat, usage: Coin -> nat)
    requires StackOk(db, caches, usage) && Unspent(db') && i < |caches| == |caches'|
    requires caches'[i].cacheCoins == map[] && caches'[i].cachedCoinsUsage == 0
    requires forall j :: i < j < |caches| ==> caches'[j] == caches[j]
    requires forall j :: 0 <= j < i ==> LevelOk(db', caches', j, usage)
    requires View(db', caches'[..i]) == View(db, caches[..i + 1])
    ensures StackOk(db', caches', usage)
    ensures forall j :: i < j <= |caches| ==> View(db', caches'[..j]) == View(db, caches[..j])
  {
    ViewStep(db', caches', i);
    OverlayEmpty(View(db', caches'[..i]));
    assert LevelOk(db', caches', i, usage);
    AboveKeeps(db, caches, db', caches', i + 1, usage);
  }

  lemma FlushedIntoCache(db: Utxos, caches: seq<Cache>, caches': seq<Cache>, i: nat, usage: Coin -> nat)
    requires StackOk(db, caches, usage) && 0 < i < |caches| == |caches'|
    requires caches'[i].cacheCoins == map[] && caches'[i].cachedCoinsUsage == 0
    requires forall j :: 0 <= j < |caches| && j != i && j != i - 1 ==> caches'[j] == caches[j]
    requires CacheOk(caches'[i - 1], View(db, caches[..i - 1]), usage)
    requires Overlay(caches'[i - 1].cacheCoins, View(db, caches[..i - 1])) == View(db, caches[..i + 1])
    ensures StackOk(db, caches', usage)
    ensures forall j :: 0 <= j <= |caches| && j != i ==> View(db, caches'[..j]) == View(db, caches[..j])
    ensures View(db, caches'[..i]) == View(db, caches[..i + 1])
  {
    forall j | 0 <= j < i ensures View(db, caches'[..j]) == View(db, caches[..j]) {
      assert caches'[..j] == caches[..j];
    }
    forall j | 0 <= j < i ensures LevelOk(db, caches', j, usage) {
      assert j < i - 1 ==> LevelOk(db, caches, j, usage);
    }
    ViewStep(db, caches', i - 1);
    FlushedKeeps(db, caches, db, caches', i, usage);
  }

  lemma {:induction false} BestStep(dbBest: nat, caches: seq<Cache>, j: nat)
    requires j < |caches|
    ensures BestBlock(dbBest, caches[..j + 1]) ==
            if caches[j].hashBlock != 0 then caches[j].hashBlock else BestBlock(dbBest, caches[..j])
  {
    assert caches[..j + 1][..j] == caches[..j];
  }

  lemma {:induction false} BestAbove(dbBest: nat, caches: seq<Cache>, dbBest': nat, caches': seq<Cache>, m: nat, j: nat)
    requires |caches| == |caches'| && m <= j <= |caches|
    requires BestBlock(dbBest, caches[..m]) == BestBlock(dbBest', caches'[..m])
    requires forall i :: m <= i < |caches| ==> caches[i].hashBlock == caches'[i].hashBlock
    ensures BestBlock(dbBest, caches[..j]) == BestBlock(dbBest', caches'[..j])
    decreases j
  {
    if j > m {
      BestAbove(dbBest, caches, dbBest', caches', m, j - 1);
      BestStep(dbBest, caches, j - 1);
      BestStep(dbBest', caches', j - 1);
    }
  }

  /**
    Flushing a cache whose block hash is set makes its base report the same best block and changes it nowhere
    above.
   */
  lemma FlushedBest(dbBest: nat, caches: seq<Cache>, dbBest': nat, caches': seq<Cache>, i: nat)
    requires i < |caches| == |caches'|
    requires forall j :: i <= j < |caches| ==> caches'[j].hashBlock == caches[j].hashBlock
    requires if i == 0 then dbBest' == caches[0].hashBlock else caches'[i - 1].hashBlock == caches[i].hashBlock
    ensures caches[i].hashBlock != 0 ==>
      && BestBlock(dbBest', caches'[..i]) == BestBlock(dbBest, caches[..i + 1])
      && forall j :: i < j <= |caches| ==> BestBlock(dbBest', caches'[..j]) == BestBlock(dbBest, caches[..j])
  {
    if caches[i].hashBlock != 0 {
      BestStep(dbBest, caches, i);
      BestStep(dbBest', caches', i);
      if i > 0 { BestStep(dbBest', caches', i - 1); }
      forall j | i < j <= |caches| ensures BestBlock(dbBest', caches'[..j]) == BestBlock(dbBest, caches[..j]) {
        BestAbove(dbBest, caches, dbBest', caches', i + 1, j);
      }
    }
  }

  ghost predicate StoredAt(mapCoins: CoinsMap, todo: CoinsMap, was: Utxos, now: Utxos, o: OutPoint)
  {
    if o in mapCoins && o !in todo && mapCoins[o].isDirty then
      (o in now <==> !IsSpent(mapCoins[o].coin)) && (o in now ==> now[o] == mapCoins[o].coin)
    else (o in now <==> o in was) && (o in now ==> now[o] == was[o])
  }

  /** Database `now` is `was` with the dirty entries of `mapCoins` stored, except those still in `todo`. */
  ghost predicate Stored(mapCoins: CoinsMap, todo: CoinsMap, was: Utxos, now: Utxos)
  {
    forall o :: StoredAt(mapCoins, todo, was, now, o)
  }

  lemma StoredStep(mapCoins: CoinsMap, todo: CoinsMap, was: Utxos, now: Utxos, o: OutPoint, now': Utxos)
    requires Stored(mapCoins, todo, was, now) && o in todo && o in mapCoins
    requires now' == if !mapCoins[o].isDirty then now
                     else if IsSpent(mapCoins[o].coin) then now - {o} else now[o := mapCoins[o].coin]
    ensures Stored(mapCoins, todo - {o}, was, now')
  {
    forall p ensures StoredAt(mapCoins, todo - {o}, was, now', p) {
      assert StoredAt(mapCoins, todo, was, now, p);
    }
  }

  lemma StoredShows(mapCoins: CoinsMap, was: Utxos, now: Utxos)
    requires Unspent(was) && Stored(mapCoins, map[], was, now)
    ensures Unspent(now)
    ensures FlagsOk(mapCoins, was) ==> now == Overlay(mapCoins, was)
  {
    forall o | o in now ensures !IsSpent(now[o]) {
      assert StoredAt(mapCoins, map[], was, now, o);
    }
    if FlagsOk(mapCoins, was) {
      forall o
        ensures o in now <==> o in Overlay(mapCoins, was)
        ensures o in now ==> now[o] == Overlay(mapCoins, was)[o]
      {
        assert StoredAt(mapCoins, map[], was, now, o);
        if o in mapCoins { assert EntryOk(o, mapCoins[o], was); }
      }
    }
  }

  function WithOutput(view: Utxos, o: OutPoint, coin: Coin): Utxos
  {
    if IsUnspendable(coin) then view else view[o := coin]
  }

  /** Adding an output throws: it is held unspent, and nothing announces that it is replaced. */
  predicate IsRefused(cache: CoinsMap, o: OutPoint, coin: Coin, fCoinbase: bool, check: bool)
  {
    !check && !fCoinbase && !IsUnspendable(coin) && !IsSpent(Existing(cache, o).coin)
  }

  function WithOutputs(view: Utxos, txid: nat, outs: seq<Coin>): Utxos
  {
    if outs == [] then view
    else
      var n := |outs| - 1;
      WithOutput(WithOutputs(view, txid, outs[..n]), OutPoint(txid, n), outs[n])
  }

  /** An output of a transaction that cannot be added without notice: the cache holds it unspent. */
  ghost predicate Blocked(cache: CoinsMap, txid: nat, outs: seq<Coin>, k: nat)
  {
    k < |outs| && !IsUnspendable(outs[k]) && !IsSpent(Existing(cache, OutPoint(txid, k)).coin)
  }

  ghost predicate SomeBlocked(cache: CoinsMap, txid: nat, outs: seq<Coin>)
  {
    exists k: nat :: Blocked(cache, txid, outs, k)
  }

  /** None of the first n outputs, but for those that are not stored, is visible. */
  ghost predicate NoneVisible(view: Utxos, txid: nat, outs: seq<Coin>, n: nat)
    requires n <= |outs|
  {
    forall k {:trigger outs[k]} :: 0 <= k < n && !IsUnspendable(outs[k]) ==> OutPoint(txid, k) !in view
  }

  /** An outpoint that the base shows is in the cache with the FRESH flag. */
  ghost predicate WronglyFresh(c: CoinsMap, base: Utxos, o: OutPoint)
  {
    o in c && c[o].isFresh && o in base
  }

  /** The entries of two caches at an outpoint are the same. */
  predicate SameAt(c0: CoinsMap, c: CoinsMap, o: OutPoint)
  {
    (o in c <==> o in c0) && (o in c ==> c[o] == c0[o])
  }

  /** An output has been added without notice, to a cache that did not hold it unspent. */
  ghost predicate PlainAt(c0: CoinsMap, c: CoinsMap, base: Utxos, txid: nat, outs: seq<Coin>, k: nat)
    requires k < |outs|
  {
    && !Blocked(c0, txid, outs, k)
    && (!IsUnspendable(outs[k]) && OutPoint(txid, k) in Overlay(c0, base) ==> WronglyFresh(c, base, OutPoint(txid, k)))
  }

  /** The first i outputs have been added without notice. */
  ghost predicate PlainSoFar(c0: CoinsMap, c: CoinsMap, base: Utxos, txid: nat, outs: seq<Coin>, i: nat)
  {
    && (forall k: nat :: i <= k < |outs| ==> SameAt(c0, c, OutPoint(txid, k)))
    && (forall k: nat :: k < i && k < |outs| ==> PlainAt(c0, c, base, txid, outs, k))
  }

  lemma PlainNext(c0: CoinsMap, c: CoinsMap, base: Utxos, txid: nat, outs: seq<Coin>, i: nat, c': CoinsMap)
    requires i < |outs| && PlainSoFar(c0, c, base, txid, outs, i) && !Blocked(c, txid, outs, i)
    requires var o := OutPoint(txid, i);
      c' == if IsUnspendable(outs[i]) then c else c[o := AddedEntry(c, o, outs[i], false)]
    ensures PlainSoFar(c0, c', base, txid, outs, i + 1)
  {
    assert SameAt(c0, c, OutPoint(txid, i));
    forall k: nat | i + 1 <= k < |outs| ensures SameAt(c0, c', OutPoint(txid, k)) {
      assert SameAt(c0, c, OutPoint(txid, k));
    }
    forall k: nat | k < i + 1 ensures PlainAt(c0, c', base, txid, outs, k) {
      assert k < i ==> PlainAt(c0, c, base, txid, outs, k);
    }
  }

  /** Outputs that are not among the first n are visible as before. */
  lemma {:induction false} OtherOutputs(view: Utxos, txid: nat, outs: seq<Coin>, n: nat, k: nat)
    requires n <= |outs| && k >= n
    ensures OutPoint(txid, k) in WithOutputs(view, txid, outs[..n]) <==> OutPoint(txid, k) in view
  {
    if n > 0 {
      OtherOutputs(view, txid, outs, n - 1, k);
      assert outs[..n][..n - 1] == outs[..n - 1];
    }
  }

  // ----- The plain model: a stack of maps -----

  datatype Op =
    | Push
    | Pop
    | Add(o: OutPoint, coin: Coin, overwrite: bool)
    | Spend(o: OutPoint)
    | Read(i: nat, o: OutPoint)
    | Drop(i: nat, o: OutPoint)
    | FlushAt(i: nat, hash: nat)

  /** What callers may do: an addition without `overwrite` must not hit a visible coin, and a flush states its block. */
  predicate Legal(views: seq<Utxos>, op: Op)
  {
    match op
    case Push => |views| > 0
    case Pop => |views| > 1
    case Add(o, coin, overwrite) => |views| > 1 && !IsSpent(coin) && (overwrite || o !in views[|views| - 1])
    case Spend(_) => |views| > 1
    case Read(i, _) => i + 1 < |views|
    case Drop(i, _) => i + 1 < |views|
    case FlushAt(i, hash) => i + 1 < |views| && hash != 0
  }

  function PlainStep(views: seq<Utxos>, op: Op): seq<Utxos>
    requires Legal(views, op)
  {
    var top := |views| - 1;
    match op
    case Push => views + [views[top]]
    case Pop => views[..top]
    case Add(o, coin, _) => if IsUnspendable(coin) then views else views[top := views[top][o := coin]]
    case Spend(o) => views[top := views[top] - {o}]
    case Read(_, _) => views
    case Drop(_, _) => views
    case FlushAt(i, _) => views[i := views[i + 1]]
  }

  predicate LegalRun(views: seq<Utxos>, ops: seq<Op>)
    decreases |ops|, 0
  {
    ops == [] || (LegalRun(views, ops[..|ops| - 1]) && Legal(PlainRun(views, ops[..|ops| - 1]), ops[|ops| - 1]))
  }

  function PlainRun(views: seq<Utxos>, ops: seq<Op>): seq<Utxos>
    requires LegalRun(views, ops)
    decreases |ops|, 1
  {
    if ops == [] then views else PlainStep(PlainRun(views, ops[..|ops| - 1]), ops[|ops| - 1])
  }

  lemma {:induction false} LegalPrefix(views: seq<Utxos>, ops: seq<Op>, n: nat)
    requires LegalRun(views, ops) && n <= |ops|
    ensures LegalRun(views, ops[..n])
    decreases |ops|
  {
    if n < |ops| {
      LegalPrefix(views, ops[..|ops| - 1], n);
      assert ops[..|ops| - 1][..n] == ops[..n];
    } else {
      assert ops[..n] == ops;
    }
  }

  /**
    Leaving out `overwrite` for a coin that is visible but not cached is not caught: the new
    entry is marked FRESH, and spending it then brings back the old coin.
   */
  lemma UnmarkedOverwriteLosesASpend(coin: Coin, other: Coin, o: OutPoint)
    requires !IsSpent(coin) && !IsSpent(other)
    ensures var base: Utxos := map[o := coin];
      var added: CoinsMap := map[o := AddedEntry(map[], o, other, false)];
      && Overlay(added, base) == map[o := other]
      && !FlagsOk(added, base)
      && Overlay(SpentCache(added, o), base) == map[o := coin]
  {
    var base: Utxos := map[o := coin];
    var added: CoinsMap := map[o := AddedEntry(map[], o, other, false)];
    assert !EntryOk(o, added[o], base);
    assert added - {o} == map[];
    OverlayEmpty(base);
  }

  // ----- The operations -----

  class CoinsStack {
    var db: Utxos
    var dbBest: nat
    var caches: seq<Cache>
    const usage: Coin -> nat

    ghost predicate Valid()
      reads this
    {
      StackOk(db, caches, usage) && usage(EMPTY_COIN) == 0
    }

    /** What is visible at level i: 0 is the database, i + 1 is cache i. */
    ghost function ViewAt(i: nat): Utxos
      reads this
      requires i <= |caches|
    {
      View(db, caches[..i])
    }

    ghost function BestAt(i: nat): nat
      reads this
      requires i <= |caches|
    {
      BestBlock(dbBest, caches[..i])
    }

    ghost function TopCoins(): CoinsMap
      reads this
      requires |caches| > 0
    {
      caches[|caches| - 1].cacheCoins
    }

    ghost function Views(): seq<Utxos>
      reads this
    {
      seq(|caches| + 1, i requires 0 <= i <= |caches| reads this => View(db, caches[..i]))
    }

    constructor (usage: Coin -> nat)
      requires usage(EMPTY_COIN) == 0
      ensures Valid() && Views() == [map[]] && caches == [] && dbBest == 0
    {
      this.usage := usage;
      db, dbBest, caches := map[], 0, [];
    }

    /** A new cache on top shows what the one below shows. */
    method PushCache()
      requires Valid()
      modifies this
      ensures Valid() && Views() == old(Views()) + [old(Views())[|old(caches)|]]
    {
      var caches' := caches + [EMPTY_CACHE];
      PushKeeps(db, caches, caches', usage);
      caches := caches';
    }

    /** Destroying the topmost cache forgets its changes. */
    method PopCache()
      requires Valid() && |caches| > 0
      modifies this
      ensures Valid() && Views() == old(Views())[..|old(caches)|]
    {
      PopKeeps(db, caches, usage);
      caches := caches[..|caches| - 1];
    }

    method SetBestBlock(i: nat, hash: nat)
      requires Valid() && i < |caches|
      modifies this`caches
      ensures Valid() && SameViews(old(db), old(caches), db, caches)
      ensures caches == old(caches)[i := old(caches)[i].(hashBlock := hash)]
    {
      assert LevelOk(db, caches, i, usage);
      ReplaceKeeps(db, caches, i, caches[i].(hashBlock := hash), usage);
      caches := caches[i := caches[i].(hashBlock := hash)];
    }

    /** `base->GetCoin` of cache i. */
    method GetCoinFromBase(i: nat, o: OutPoint) returns (found: bool, coin: Coin)
      requires Valid() && i <= |caches|
      modifies this`caches
      ensures Valid() && SameViews(db, old(caches), db, caches) && caches[i..] == old(caches)[i..]
      ensures found <==> o in old(ViewAt(i))
      ensures found ==> coin == old(ViewAt(i))[o]
      decreases i, 0
    {
      if i == 0 {
        found := o in db;
        coin := if found then db[o] else EMPTY_COIN;
      } else {
        found, coin := GetCoin(i - 1, o);
      }
    }

    /** Bring an outpoint into cache i if the base has it. */
    method FetchCoin(i: nat, o: OutPoint) returns (found: bool)
      requires Valid() && i < |caches|
      modifies this`caches
      ensures Valid() && SameViews(db, old(caches), db, caches) && caches[i + 1..] == old(caches)[i + 1..]
      ensures caches[i].cacheCoins == Fetched(old(caches)[i].cacheCoins, old(ViewAt(i)), o)
      ensures caches[i].hashBlock == old(caches)[i].hashBlock
      ensures found <==> o in caches[i].cacheCoins
      decreases i, 1
    {
      if o in caches[i].cacheCoins {
        return true;
      }
      var tmp;
      found, tmp := GetCoinFromBase(i, o);
      assert caches[i] == caches[i..][0];
      assert View(db, caches[..i]) == old(ViewAt(i));
      if !found {
        return false;
      }
      // An empty entry from the base would be FRESH; the base never returns one.
      var entry := Entry(tmp, false, IsSpent(tmp));
      var c := caches[i];
      c := c.(cacheCoins := c.cacheCoins[o := entry], cachedCoinsUsage := c.cachedCoinsUsage + usage(tmp));
      ViewUnspent(db, caches[..i]);
      InsertFetchedKeeps(db, caches, i, o, c, usage);
      caches := caches[i := c];
    }

    /** Returns exactly the visible unspent coin. */
    method GetCoin(i: nat, o: OutPoint) returns (found: bool, coin: Coin)
      requires Valid() && i < |caches|
      modifies this`caches
      ensures Valid() && SameViews(db, old(caches), db, caches) && caches[i + 1..] == old(caches)[i + 1..]
      ensures found <==> o in old(ViewAt(i + 1))
      ensures found ==> coin == old(ViewAt(i + 1))[o]
      decreases i, 2
    {
      ViewStep(db, caches, i);
      var cached := FetchCoin(i, o);
      ViewStep(db, caches, i);
      if cached {
        coin := caches[i].cacheCoins[o].coin;
        found := !IsSpent(coin);
      } else {
        found, coin := false, EMPTY_COIN;
      }
    }

    method HaveCoin(i: nat, o: OutPoint) returns (have: bool)
      requires Valid() && i < |caches|
      modifies this`caches
      ensures Valid() && SameViews(old(db), old(caches), db, caches)
      ensures have <==> o in ViewAt(i + 1)
    {
      var coin;
      have, coin := GetCoin(i, o);
    }

    /** Dropping an unmodified entry changes no view. */
    method Uncache(i: nat, o: OutPoint)
      requires Valid() && i < |caches|
      modifies this`caches
      ensures Valid() && SameViews(old(db), old(caches), db, caches)
      ensures forall p :: p in caches[i].cacheCoins <==>
        && p in old(caches)[i].cacheCoins
        && !(p == o && !old(caches)[i].cacheCoins[o].isDirty && !old(caches)[i].cacheCoins[o].isFresh)
    {
      var c := caches[i];
      if o in c.cacheCoins && !c.cacheCoins[o].isDirty && !c.cacheCoins[o].isFresh {
        var c' := c.(cacheCoins := c.cacheCoins - {o},
                     cachedCoinsUsage := c.cachedCoinsUsage - usage(c.cacheCoins[o].coin));
        assert LevelOk(db, caches, i, usage);
        UsageRemove(c.cacheCoins, o, usage);
        ViewUnspent(db, caches[..i]);
        DropUnmodified(c.cacheCoins, View(db, caches[..i]), o);
        ReplaceKeeps(db, caches, i, c', usage);
        caches := caches[i := c'];
      }
    }
  
    /**
      Add a coin to the topmost cache.  It throws exactly when `overwrite` is not set and the cache holds an
      unspent entry; otherwise the coin is visible afterwards, and the stack stays consistent exactly when the
      caller was right not to set `overwrite`.
     */
    method AddCoin(o: OutPoint, coin: Coin, overwrite: bool) returns (outcome: Outcome)
      requires |caches| > 0
      modifies this`caches
      ensures |caches| == |old(caches)|
      ensures outcome == AssertFailed <==> IsSpent(coin)
      ensures outcome == ThrewLogicError <==>
        && !IsSpent(coin) && !IsUnspendable(coin) && !overwrite
        && !IsSpent(Existing(old(caches)[|old(caches)| - 1].cacheCoins, o).coin)
      ensures outcome == AssertFailed || (outcome == Ok && IsUnspendable(coin)) ==> caches == old(caches)
      ensures outcome == Ok && !IsUnspendable(coin) ==>
        && ViewAt(|caches|) == old(ViewAt(|caches|))[o := coin]
        && (forall j :: 0 <= j < |caches| ==> ViewAt(j) == old(ViewAt(j)))
        && (old(Valid()) ==> (Valid() <==> overwrite || o !in old(ViewAt(|caches|))))
        && TopCoins() == old(TopCoins())[o := AddedEntry(old(TopCoins()), o, coin, overwrite)]
      ensures overwrite || o !in old(ViewAt(|caches|)) ==> outcome != ThrewLogicError
      ensures outcome == ThrewLogicError ==> SameViews(db, old(caches), db, caches)
    {
      if IsSpent(coin) {
        return AssertFailed;
      }
      TopShows(o);
      if IsUnspendable(coin) {
        return Ok;
      }
      var top := |caches| - 1;
      var thrown, c := AddTo(caches[top], o, coin, overwrite, usage);
      if thrown {
        caches := caches[top := c];
        AboveSameEverywhere(db, old(caches), caches);
        return ThrewLogicError;
      }
      AddedTop(o, coin, overwrite, c);
      SetTop(c);
      outcome := Ok;
    }

    lemma TopShows(o: OutPoint)
      requires |caches| > 0
      ensures !IsSpent(Existing(TopCoins(), o).coin) ==> o in ViewAt(|caches|)
    {
      ViewStep(db, caches, |caches| - 1);
    }

    /** What the topmost cache shows with a coin added, and when its flags are truthful. */
    lemma AddedTop(o: OutPoint, coin: Coin, overwrite: bool, c: Cache)
      requires |caches| > 0 && !IsSpent(coin) && (overwrite || IsSpent(Existing(TopCoins(), o).coin))
      requires c.cacheCoins == TopCoins()[o := AddedEntry(TopCoins(), o, coin, overwrite)]
      requires c.cachedCoinsUsage == caches[|caches| - 1].cachedCoinsUsage
                                     - (if o in TopCoins() then usage(TopCoins()[o].coin) else 0) + usage(coin)
      ensures Overlay(c.cacheCoins, ViewAt(|caches| - 1)) == ViewAt(|caches|)[o := coin]
      ensures Valid() ==> (CacheOk(c, ViewAt(|caches| - 1), usage) <==> overwrite || o !in ViewAt(|caches|))
    {
      var top := |caches| - 1;
      ViewStep(db, caches, top);
      AddedCache(caches[top], ViewAt(top), o, coin, overwrite, usage, c);
      if Valid() {
        TopView();
        ViewUnspent(db, caches[..top]);
      }
    }

    lemma TopView()
      requires Valid() && |caches| > 0
      ensures CacheOk(caches[|caches| - 1], ViewAt(|caches| - 1), usage)
      ensures ViewAt(|caches|) == Overlay(caches[|caches| - 1].cacheCoins, ViewAt(|caches| - 1))
    {
      TopLevel(db, caches, |caches| - 1, usage);
    }

    /** Exchange the topmost cache. */
    method SetTop(c: Cache)
      requires |caches| > 0
      modifies this`caches
      ensures caches == old(caches)[|old(caches)| - 1 := c]
      ensures ViewAt(|caches|) == Overlay(c.cacheCoins, old(ViewAt(|caches| - 1)))
      ensures forall j :: 0 <= j < |caches| ==> ViewAt(j) == old(ViewAt(j))
      ensures old(Valid()) ==> (Valid() <==> CacheOk(c, old(ViewAt(|caches| - 1)), usage))
    {
      var caches' := caches[|caches| - 1 := c];
      ReplaceTop(db, caches, c, caches', usage);
      caches := caches';
    }

    /** Spend a coin of the topmost cache: it is gone from the view and from no other. */
    method SpendCoin(o: OutPoint) returns (spent: bool, moveout: Coin)
      requires Valid() && |caches| > 0
      modifies this`caches
      ensures Valid() && |caches| == |old(caches)|
      ensures ViewAt(|caches|) == old(ViewAt(|caches|)) - {o}
      ensures forall j :: 0 <= j < |caches| ==> ViewAt(j) == old(ViewAt(j))
      ensures o in old(ViewAt(|caches|)) ==> spent && moveout == old(ViewAt(|caches|))[o]
      ensures spent <==> o in old(ViewAt(|caches|)) || o in old(caches)[|old(caches)| - 1].cacheCoins
    {
      var top := |caches| - 1;
      TopView();
      spent := FetchCoin(top, o);
      TopView();
      if !spent {
        assert ViewAt(|caches|) - {o} == ViewAt(|caches|);
        return false, EMPTY_COIN;
      }
      var c := caches[top];
      ghost var base, c0 := ViewAt(top), c;
      moveout := c.cacheCoins[o].coin;
      c := c.(cacheCoins := if c.cacheCoins[o].isFresh then c.cacheCoins - {o}
                            else c.cacheCoins[o := Entry(EMPTY_COIN, true, false)],
              cachedCoinsUsage := c.cachedCoinsUsage - usage(moveout));
      SpentCacheOk(c0, base, o, usage, c);
      SetTop(c);
    }

    /** Write one dirty entry of the cache above into cache i. */
    method WriteEntry(i: nat, o: OutPoint, e: Entry) returns (thrown: bool)
      requires i < |caches| && e.isDirty && caches[i].cachedCoinsUsage == UsageSum(caches[i].cacheCoins, usage)
      modifies this`caches
      ensures |caches| == |old(caches)| && forall j :: 0 <= j < |caches| && j != i ==> caches[j] == old(caches)[j]
      ensures thrown <==> MergeEntry(e, old(caches)[i].cacheCoins, o) == Misapplied
      ensures WroteOne(e, old(caches)[i].cacheCoins, o, caches[i].cacheCoins)
      ensures caches[i].cachedCoinsUsage == UsageSum(caches[i].cacheCoins, usage)
    {
      var c := caches[i];
      if o !in c.cacheCoins {
        if !(e.isFresh && IsSpent(e.coin)) {
          UsageInsert(c.cacheCoins, o, Entry(e.coin, true, e.isFresh), usage);
          c := c.(cacheCoins := c.cacheCoins[o := Entry(e.coin, true, e.isFresh)],
                  cachedCoinsUsage := c.cachedCoinsUsage + usage(e.coin));
        } else {
          assert c.cacheCoins - {o} == c.cacheCoins;
        }
      } else {
        var us := c.cacheCoins[o];
        if e.isFresh && !IsSpent(us.coin) {
          return true;
        }
        if us.isFresh && IsSpent(e.coin) {
          UsageRemove(c.cacheCoins, o, usage);
          c := c.(cacheCoins := c.cacheCoins - {o}, cachedCoinsUsage := c.cachedCoinsUsage - usage(us.coin));
        } else {
          UsageInsert(c.cacheCoins, o, Entry(e.coin, true, us.isFresh), usage);
          c := c.(cacheCoins := c.cacheCoins[o := Entry(e.coin, true, us.isFresh)],
                  cachedCoinsUsage := c.cachedCoinsUsage - usage(us.coin) + usage(e.coin));
        }
      }
      caches := caches[i := c];
      thrown := false;
    }

    /**
      Write the entries of the cache above into cache i.  It throws exactly when an entry marked FRESH meets an
      unspent entry; if the flags of the written entries are truthful it does not, and cache i then shows what
      the cache above showed.
     */
    method BatchWrite(i: nat, mapCoins: CoinsMap, hashBlockIn: nat) returns (outcome: Outcome)
      requires Valid() && i < |caches|
      modifies this`caches
      ensures outcome == Ok || outcome == ThrewLogicError
      ensures outcome == ThrewLogicError <==>
        exists o ::
          o in mapCoins && mapCoins[o].isDirty && MergeEntry(mapCoins[o], old(caches)[i].cacheCoins, o) == Misapplied
      ensures |caches| == |old(caches)| && forall j :: 0 <= j < |caches| && j != i ==> caches[j] == old(caches)[j]
      ensures FlagsOk(mapCoins, old(ViewAt(i + 1))) ==>
        && outcome == Ok
        && caches[i].hashBlock == hashBlockIn
        && CacheOk(caches[i], old(ViewAt(i)), usage)
        && Overlay(caches[i].cacheCoins, old(ViewAt(i))) == Overlay(mapCoins, old(ViewAt(i + 1)))
    {
      ghost var base := View(db, caches[..i]);
      ghost var was := caches[i].cacheCoins;
      assert LevelOk(db, caches, i, usage);
      ViewStep(db, caches, i);
      ViewUnspent(db, caches[..i]);
      NeverMisapplied(mapCoins, was, base);
      var todo := mapCoins;
      while todo != map[]
        invariant |caches| == |old(caches)| && forall j :: 0 <= j < |caches| && j != i ==> caches[j] == old(caches)[j]
        invariant forall o :: o in todo ==> o in mapCoins && todo[o] == mapCoins[o]
        invariant Written(mapCoins, todo, was, caches[i].cacheCoins)
        invariant caches[i].cachedCoinsUsage == UsageSum(caches[i].cacheCoins, usage)
        decreases |todo|
      {
        var o :| o in todo;
        var e := todo[o];
        ghost var before, now := todo, caches[i].cacheCoins;
        assert WrittenAt(mapCoins, todo, was, now, o);
        todo := todo - {o};
        if e.isDirty {
          var thrown := WriteEntry(i, o, e);
          if thrown {
            return ThrewLogicError;
          }
        }
        WrittenStep(mapCoins, before, was, now, o, caches[i].cacheCoins);
      }
      caches := caches[i := caches[i].(hashBlock := hashBlockIn)];
      WrittenShows(mapCoins, was, caches[i].cacheCoins, base);
      outcome := Ok;
      forall o | o in mapCoins && mapCoins[o].isDirty ensures MergeEntry(mapCoins[o], was, o) != Misapplied {
        assert WrittenAt(mapCoins, todo, was, caches[i].cacheCoins, o);
      }
    }
  
    /** Write the entries of cache 0 into the database. */
    method BatchWriteDb(mapCoins: CoinsMap, hashBlock: nat) returns (outcome: Outcome)
      requires Unspent(db)
      modifies this`db, this`dbBest
      ensures outcome == if hashBlock == 0 then AssertFailed else Ok
      ensures outcome == AssertFailed ==> db == old(db) && dbBest == old(dbBest)
      ensures outcome == Ok ==> dbBest == hashBlock && Unspent(db)
      ensures outcome == Ok && FlagsOk(mapCoins, old(db)) ==> db == Overlay(mapCoins, old(db))
    {
      if hashBlock == 0 {
        return AssertFailed;
      }
      var todo := mapCoins;
      while todo != map[]
        invariant forall o :: o in todo ==> o in mapCoins && todo[o] == mapCoins[o]
        invariant Stored(mapCoins, todo, old(db), db)
        decreases |todo|
      {
        var o :| o in todo;
        var e := todo[o];
        ghost var before, now := todo, db;
        if e.isDirty {
          if IsSpent(e.coin) {
            db := db - {o};
          } else {
            db := db[o := e.coin];
          }
        }
        todo := todo - {o};
        StoredStep(mapCoins, before, old(db), now, o, db);
      }
      dbBest := hashBlock;
      outcome := Ok;
      StoredShows(mapCoins, old(db), db);
    }

    /**
      Push the changes of cache i into its base.  Afterwards the base shows what cache i shows, and nothing
      else changes at any level; the FRESH check in the base never throws.  Only the database refuses, when
      there is something to write and no block hash has been set.
     */
    method Flush(i: nat) returns (outcome: Outcome)
      requires Valid() && i < |caches|
      modifies this
      ensures outcome == AssertFailed <==> i == 0 && old(caches)[0].hashBlock == 0 && old(caches)[0].cacheCoins != map[]
      ensures outcome == AssertFailed ==> db == old(db) && dbBest == old(dbBest) && caches == old(caches)
      ensures outcome != ThrewLogicError
      ensures Valid() && |caches| == |old(caches)|
      ensures outcome == Ok ==> caches[i].cacheCoins == map[] && ViewAt(i) == old(ViewAt(i + 1))
      ensures forall j :: 0 <= j <= |caches| && j != i ==> ViewAt(j) == old(ViewAt(j))
      ensures old(caches)[i].hashBlock != 0 ==>
        BestAt(i) == old(BestAt(i + 1)) && forall j :: i < j <= |caches| ==> BestAt(j) == old(BestAt(j))
    {
      var c := caches[i];
      ViewStep(db, caches, i);
      if c.hashBlock == 0 && c.cacheCoins == map[] {
        OverlayEmpty(View(db, caches[..i]));
        return Ok;
      }
      outcome := PushDown(i);
      if outcome == Ok {
        FlushedBest(old(dbBest), old(caches), dbBest, caches, i);
      }
    }

    /** The part of `Flush` that writes. */
    method PushDown(i: nat) returns (outcome: Outcome)
      requires Valid() && i < |caches|
      modifies this
      ensures outcome == if i == 0 && old(caches)[0].hashBlock == 0 then AssertFailed else Ok
      ensures outcome == AssertFailed ==> db == old(db) && dbBest == old(dbBest) && caches == old(caches)
      ensures Valid() && |caches| == |old(caches)|
      ensures outcome == Ok ==> caches[i].cacheCoins == map[] && ViewAt(i) == old(ViewAt(i + 1))
      ensures forall j :: 0 <= j <= |caches| && j != i ==> ViewAt(j) == old(ViewAt(j))
      ensures forall j :: i <= j < |caches| ==> caches[j].hashBlock == old(caches)[j].hashBlock
      ensures outcome == Ok ==>
        if i == 0 then dbBest == old(caches)[0].hashBlock else caches[i - 1].hashBlock == old(caches)[i].hashBlock
    {
      var c := caches[i];
      ViewStep(db, caches, i);
      assert LevelOk(db, caches, i, usage);
      if i == 0 {
        outcome := BatchWriteDb(c.cacheCoins, c.hashBlock);
        if outcome == AssertFailed {
          return;
        }
        caches := caches[i := Cache(map[], 0, c.hashBlock)];
        FlushedKeeps(old(db), old(caches), db, caches, i, usage);
      } else {
        outcome := BatchWrite(i - 1, c.cacheCoins, c.hashBlock);
        caches := caches[i := Cache(map[], 0, c.hashBlock)];
        FlushedIntoCache(db, old(caches), caches, i, usage);
      }
    }

    /**
      Add all outputs of a transaction. With `check`, or for a coinbase, what they replace is announced. Otherwise it
      throws exactly if the cache holds one of them unspent, and the stack stays consistent exactly if none of them
      was visible.
     */
    method AddCoins(txid: nat, outs: seq<Coin>, fCoinbase: bool, check: bool) returns (outcome: Outcome)
      requires Valid() && |caches| > 0
      requires forall k :: 0 <= k < |outs| ==> !IsSpent(outs[k])
      modifies this`caches
      ensures |caches| == |old(caches)| && (outcome == Ok || outcome == ThrewLogicError)
      ensures outcome == ThrewLogicError <==> !check && !fCoinbase && SomeBlocked(old(TopCoins()), txid, outs)
      ensures outcome == Ok ==>
        && ViewAt(|caches|) == WithOutputs(old(ViewAt(|caches|)), txid, outs)
        && (forall j :: 0 <= j < |caches| ==> ViewAt(j) == old(ViewAt(j)))
        && (Valid() <==> check || fCoinbase || NoneVisible(old(ViewAt(|caches|)), txid, outs, |outs|))
    {
      ghost var plain := !check && !fCoinbase;
      ghost var c0, base := TopCoins(), ViewAt(|caches| - 1);
      ViewStep(db, caches, |caches| - 1);
      var i := 0;
      while i < |outs|
        invariant 0 <= i <= |outs| && |caches| == |old(caches)|
        invariant ViewAt(|caches|) == WithOutputs(old(ViewAt(|caches|)), txid, outs[..i])
        invariant forall j :: 0 <= j < |caches| ==> ViewAt(j) == old(ViewAt(j))
        invariant !plain || NoneVisible(old(ViewAt(|caches|)), txid, outs, i) ==> Valid()
        invariant plain ==> PlainSoFar(c0, TopCoins(), base, txid, outs, i)
      {
        OtherOutputs(old(ViewAt(|caches|)), txid, outs, i, i);
        ghost var c := TopCoins();
        assert plain ==> SameAt(c0, c, OutPoint(txid, i));
        outcome := AddOutput(OutPoint(txid, i), outs[i], fCoinbase, check);
        if outcome != Ok {
          assert Blocked(c0, txid, outs, i);
          return;
        }
        if plain { PlainNext(c0, c, base, txid, outs, i, TopCoins()); }
        assert outs[..i + 1][..i] == outs[..i];
        i := i + 1;
      }
      assert outs[..i] == outs;
      outcome := Ok;
      if plain { PlainEnds(txid, outs, c0, base); }
    }

    /** Add one output. */
    method AddOutput(o: OutPoint, coin: Coin, fCoinbase: bool, check: bool) returns (outcome: Outcome)
      requires |caches| > 0 && !IsSpent(coin) && (check ==> Valid())
      modifies this`caches
      ensures |caches| == |old(caches)|
      ensures outcome == if IsRefused(old(TopCoins()), o, coin, fCoinbase, check) then ThrewLogicError else Ok
      ensures outcome == Ok ==> ViewAt(|caches|) == WithOutput(old(ViewAt(|caches|)), o, coin)
      ensures outcome == Ok ==> forall j :: 0 <= j < |caches| ==> ViewAt(j) == old(ViewAt(j))
      ensures old(Valid()) && (check || fCoinbase || IsUnspendable(coin) || o !in old(ViewAt(|caches|))) ==> Valid()
      ensures outcome == Ok && !check && !fCoinbase ==>
        TopCoins() == if IsUnspendable(coin) then old(TopCoins())
                      else old(TopCoins())[o := AddedEntry(old(TopCoins()), o, coin, false)]
    {
      var overwrite := fCoinbase;
      if check {
        overwrite := HaveCoin(|caches| - 1, o);
      }
      outcome := AddCoin(o, coin, overwrite);
    }

    /** A visible output that was replaced without notice is marked FRESH over a coin in the base. */
    lemma PlainEnds(txid: nat, outs: seq<Coin>, c0: CoinsMap, base: Utxos)
      requires |caches| > 0 && base == ViewAt(|caches| - 1) && PlainSoFar(c0, TopCoins(), base, txid, outs, |outs|)
      ensures !SomeBlocked(c0, txid, outs)
      ensures Valid() ==> NoneVisible(Overlay(c0, base), txid, outs, |outs|)
    {
      if Valid() {
        TopView();
        forall k | 0 <= k < |outs| && !IsUnspendable(outs[k]) ensures OutPoint(txid, k) !in Overlay(c0, base) {
          assert PlainAt(c0, TopCoins(), base, txid, outs, k);
          assert WronglyFresh(TopCoins(), base, OutPoint(txid, k)) ==>
            !EntryOk(OutPoint(txid, k), TopCoins()[OutPoint(txid, k)], base);
        }
      }
      forall k: nat | k < |outs| ensures !Blocked(c0, txid, outs, k) {
        assert PlainAt(c0, TopCoins(), base, txid, outs, k);
      }
    }

    lemma ViewsAre(v: seq<Utxos>)
      requires |v| == |caches| + 1 && forall j :: 0 <= j <= |caches| ==> v[j] == ViewAt(j)
      ensures Views() == v
    {
    }

    method PerformWrite(op: Op) returns (outcome: Outcome)
      requires Valid() && Legal(Views(), op) && (op.Add? || op.Spend?)
      modifies this
      ensures outcome == Ok && Valid() && Views() == PlainStep(old(Views()), op)
    {
      assert Views()[|caches|] == ViewAt(|caches|);
      ghost var v := PlainStep(Views(), op);
      if op.Add? {
        outcome := AddCoin(op.o, op.coin, op.overwrite);
      } else {
        var _, _ := SpendCoin(op.o);
        outcome := Ok;
      }
      ViewsAre(v);
    }

    method PerformFlush(i: nat, hash: nat) returns (outcome: Outcome)
      requires Valid() && Legal(Views(), FlushAt(i, hash))
      modifies this
      ensures outcome == Ok && Valid() && Views() == PlainStep(old(Views()), FlushAt(i, hash))
    {
      ghost var v := PlainStep(Views(), FlushAt(i, hash));
      SetBestBlock(i, hash);
      outcome := Flush(i);
      ViewsAre(v);
    }

    method PerformRead(op: Op)
      requires Valid() && Legal(Views(), op) && (op.Read? || op.Drop?)
      modifies this
      ensures Valid() && Views() == old(Views())
    {
      ghost var v := Views();
      if op.Read? {
        var _, _ := GetCoin(op.i, op.o);
      } else {
        Uncache(op.i, op.o);
      }
      ViewsAre(v);
    }

    method Perform(op: Op) returns (outcome: Outcome)
      requires Valid() && Legal(Views(), op)
      modifies this
      ensures outcome == Ok && Valid() && Views() == PlainStep(old(Views()), op)
    {
      outcome := Ok;
      match op
      case Push => PushCache();
      case Pop => PopCache();
      case FlushAt(i, hash) => outcome := PerformFlush(i, hash);
      case Read(_, _) => PerformRead(op);
      case Drop(_, _) => PerformRead(op);
      case _ => outcome := PerformWrite(op);
    }

    /** Any sequence of legal operations shows at every level what the stack of maps holds. */
    method Run(ops: seq<Op>)
      requires Valid() && LegalRun(Views(), ops)
      modifies this
      ensures Valid() && Views() == PlainRun(old(Views()), ops)
    {
      for n := 0 to |ops|
        invariant Valid() && LegalRun(old(Views()), ops[..n]) && Views() == PlainRun(old(Views()), ops[..n])
      {
        LegalPrefix(old(Views()), ops, n + 1);
        assert ops[..n + 1][..n] == ops[..n];
        var _ := Perform(ops[n]);
      }
      assert ops[..|ops|] == ops;
    }
  }
}
