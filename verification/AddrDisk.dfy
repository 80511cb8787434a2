/**
  Saving the address manager and loading it again.

  The saved form is a record of what the stream holds in order; the byte encoding of its
  numbers and addresses is not part of this model.
 */
module AddrDisk {
  import opened AddrTables
  import AddrMan
  import SetSums

  // ----- Ranks -----

  /** How many elements of a set are natural numbers below n. */
  function Rank(s: set<int>, n: int): nat
    decreases n
  {
    if n <= 0 then 0 else Rank(s, n - 1) + if n - 1 in s then 1 else 0
  }

  lemma {:induction false} RankGrows(s: set<int>, x: int, y: int)
    requires x <= y
    ensures Rank(s, x) <= Rank(s, y)
    ensures 0 <= x < y && x in s ==> Rank(s, x) < Rank(s, y)
    decreases y
  {
    if 0 < y && x < y { RankGrows(s, x, y - 1); }
  }

  lemma {:induction false} RankTotal(s: set<int>, n: int)
    requires forall x :: x in s ==> 0 <= x < n
    ensures Rank(s, n) == |s|
    decreases n
  {
    if n <= 0 {
      assert forall x :: x !in s;
      assert s == {};
    } else {
      RankWithout(s, n - 1, n - 1);
      RankTotal(s - {n - 1}, n - 1);
    }
  }

  lemma {:induction false} RankWithout(s: set<int>, x: int, n: int)
    requires n <= x
    ensures Rank(s - {x}, n) == Rank(s, n)
    decreases n
  {
    if n > 0 { RankWithout(s, x, n - 1); }
  }

  /** The element of a given rank. */
  function Nth(s: set<int>, n: int, r: nat): (x: int)
    requires r < Rank(s, n)
    ensures 0 <= x < n && x in s && Rank(s, x) == r
    decreases n
  {
    if r < Rank(s, n - 1) then Nth(s, n - 1, r) else n - 1
  }

  lemma RankInjective(s: set<int>, x: int, y: int)
    requires x in s && y in s && 0 <= x && 0 <= y && Rank(s, x) == Rank(s, y)
    ensures x == y
  {
    RankGrows(s, if x < y then x else y, if x < y then y else x);
  }

  // ----- The saved form -----

  /** What is written of an entry. */
  datatype StoredInfo = StoredInfo(service: Service, nServices: set<nat>, nTime: int, source: NetAddr,
                                   nLastSuccess: int, nAttempts: int)

  function Stored(i: AddrInfo): StoredInfo
  {
    StoredInfo(i.service, i.nServices, i.nTime, i.source, i.nLastSuccess, i.nAttempts)
  }

  /** An entry as it is read, everything else being as in a new entry. */
  function Loaded(s: StoredInfo, nRandomPos: int, fInTried: bool): AddrInfo
  {
    AddrInfo(s.service, s.nServices, s.nTime, s.source, 0, 0, s.nLastSuccess, s.nAttempts, 0, fInTried, nRandomPos)
  }

  datatype Saved = Saved(
    nVersion: nat,
    nKeySize: nat,
    nKey: Hasher,
    nUBuckets: int,
    news: seq<StoredInfo>,
    trieds: seq<StoredInfo>,
    buckets: seq<seq<int>>)

  /** Exclusive or with 2^30, for numbers below 2^31. */
  function Flip30(x: nat): nat
  {
    if x / 0x4000_0000 % 2 == 0 then x + 0x4000_0000 else x - 0x4000_0000
  }

  // ----- Numbering -----

  /** The id an entry gets when it is loaded again: new entries first, then tried ones. */
  function Renumbered(m: Infos, id: int): int
  {
    if id !in m then -1
    else if m[id].fInTried then |Untried(m)| + Rank(Tried(m), id)
    else Rank(Untried(m), id)
  }

  ghost predicate IdsInRange(m: Infos, nIdCount: int)
  {
    forall id :: id in m ==> 0 <= id < nIdCount
  }

  /** The entry that was given an id. */
  ghost function IdAt(m: Infos, nIdCount: int, j: nat): (id: int)
    requires IdsInRange(m, nIdCount) && j < |Untried(m)| + |Tried(m)|
    ensures id in m && Renumbered(m, id) == j && (m[id].fInTried <==> j >= |Untried(m)|)
  {
    RankTotal(Untried(m), nIdCount);
    RankTotal(Tried(m), nIdCount);
    if j < |Untried(m)| then Nth(Untried(m), nIdCount, j) else Nth(Tried(m), nIdCount, j - |Untried(m)|)
  }

  lemma RenumberedBounds(m: Infos, nIdCount: int, id: int)
    requires IdsInRange(m, nIdCount) && id in m
    ensures m[id].fInTried ==> |Untried(m)| <= Renumbered(m, id) < |Untried(m)| + |Tried(m)|
    ensures !m[id].fInTried ==> 0 <= Renumbered(m, id) < |Untried(m)|
  {
    RankTotal(Untried(m), nIdCount);
    RankTotal(Tried(m), nIdCount);
    RankGrows(Untried(m), id, nIdCount);
    RankGrows(Tried(m), id, nIdCount);
  }

  lemma RenumberedInjective(m: Infos, nIdCount: int, x: int, y: int)
    requires IdsInRange(m, nIdCount) && x in m && y in m && Renumbered(m, x) == Renumbered(m, y)
    ensures x == y
  {
    RenumberedBounds(m, nIdCount, x);
    RenumberedBounds(m, nIdCount, y);
    if m[x].fInTried { RankInjective(Tried(m), x, y); } else { RankInjective(Untried(m), x, y); }
  }

  // ----- What is saved -----

  ghost predicate SavedAs(m: Infos, s: set<int>, stored: seq<StoredInfo>, id: int)
    requires id in m
  {
    Rank(s, id) < |stored| && stored[Rank(s, id)] == Stored(m[id])
  }

  /** The entries of a set, in the order of their ids. */
  ghost predicate EntriesSaved(m: Infos, s: set<int>, stored: seq<StoredInfo>)
    requires s <= m.Keys
  {
    |stored| == |s| && forall id {:trigger SavedAs(m, s, stored, id)} :: id in s ==> SavedAs(m, s, stored, id)
  }

  /** A bucket is saved as the new ids of what it holds. */
  ghost predicate BucketSaved(t: Tables, b: nat, items: seq<int>)
    requires Shape(t) && b < ADDRMAN_NEW_BUCKET_COUNT
  {
    forall x :: x in items <==> HeldIn(t, b, x)
  }

  ghost predicate HeldIn(t: Tables, b: nat, x: int)
    requires Shape(t) && b < ADDRMAN_NEW_BUCKET_COUNT
  {
    exists p :: 0 <= p < ADDRMAN_BUCKET_SIZE && t.vvNew[b][p] != -1 && x == Renumbered(t.mapInfo, t.vvNew[b][p])
  }

  ghost predicate IsSaved(h: Hasher, t: Tables, d: Saved)
    requires Shape(t)
  {
    && d.nVersion == 1 && d.nKeySize == 32 && d.nKey == h && d.nUBuckets == Flip30(ADDRMAN_NEW_BUCKET_COUNT)
    && EntriesSaved(t.mapInfo, Untried(t.mapInfo), d.news)
    && EntriesSaved(t.mapInfo, Tried(t.mapInfo), d.trieds)
    && |d.buckets| == ADDRMAN_NEW_BUCKET_COUNT
    && forall b {:trigger BucketSaved(t, b, d.buckets[b])} :: 0 <= b < ADDRMAN_NEW_BUCKET_COUNT ==>
         BucketSaved(t, b, d.buckets[b])
  }

  // ----- What is loaded -----

  /** The same entry under its new id. */
  ghost predicate SameAs(t: Tables, t': Tables, id: int)
    requires id in t.mapInfo
  {
    var j := Renumbered(t.mapInfo, id);
    && j in t'.mapInfo
    && Stored(t'.mapInfo[j]) == Stored(t.mapInfo[id])
    && t'.mapInfo[j].nRefCount == t.mapInfo[id].nRefCount
    && t'.mapInfo[j].fInTried == t.mapInfo[id].fInTried
  }

  ghost predicate SlotsRenumbered(m: Infos, g: Grid, g': Grid, rows: nat)
    requires Dim(g, rows) && Dim(g', rows)
  {
    forall b, p :: 0 <= b < rows && 0 <= p < ADDRMAN_BUCKET_SIZE ==> g'[b][p] == Renumbered(m, g[b][p])
  }

  /** The tables are the same up to the numbering of ids, and no entry is lost. */
  ghost predicate Reloaded(t: Tables, t': Tables)
    requires Shape(t) && Shape(t')
  {
    && t'.nNew == t.nNew && t'.nTried == t.nTried && |t'.mapInfo| == |t.mapInfo|
    && (forall id {:trigger SameAs(t, t', id)} :: id in t.mapInfo ==> SameAs(t, t', id))
    && (forall x, y :: x in t.mapInfo && y in t.mapInfo && Renumbered(t.mapInfo, x) == Renumbered(t.mapInfo, y) ==>
          x == y)
    && SlotsRenumbered(t.mapInfo, t.vvNew, t'.vvNew, ADDRMAN_NEW_BUCKET_COUNT)
    && SlotsRenumbered(t.mapInfo, t.vvTried, t'.vvTried, ADDRMAN_TRIED_BUCKET_COUNT)
  }

  // ----- Saving -----

  lemma ConsistentIds(h: Hasher, t: Tables)
    requires Consistent(h, t, {}, {})
    ensures IdsInRange(t.mapInfo, t.nIdCount)
    ensures forall id :: id in t.mapInfo ==> (t.mapInfo[id].nRefCount != 0 <==> !t.mapInfo[id].fInTried)
    ensures |Untried(t.mapInfo)| == t.nNew && |Tried(t.mapInfo)| == t.nTried
  {
    forall id | id in t.mapInfo
      ensures 0 <= id < t.nIdCount && (t.mapInfo[id].nRefCount != 0 <==> !t.mapInfo[id].fInTried)
    {
      assert IdOk(h, t, {}, id);
    }
    assert Untried(t.mapInfo) - {} == Untried(t.mapInfo);
  }

  /** The entries of a set among the ids below n, in the order of their ids. */
  ghost predicate SavedSoFar(m: Infos, s: set<int>, n: int, stored: seq<StoredInfo>)
    requires s <= m.Keys
  {
    && |stored| == Rank(s, n)
    && forall id {:trigger SavedAs(m, s, stored, id)} :: id in s && 0 <= id < n ==> SavedAs(m, s, stored, id)
  }

  lemma SavedAll(m: Infos, s: set<int>, n: int, stored: seq<StoredInfo>)
    requires s <= m.Keys && IdsInRange(m, n) && SavedSoFar(m, s, n, stored)
    ensures EntriesSaved(m, s, stored)
  {
    RankTotal(s, n);
    forall id | id in s ensures SavedAs(m, s, stored, id) { assert 0 <= id < n; }
  }

  lemma SavedOneMore(m: Infos, s: set<int>, n: int, stored: seq<StoredInfo>)
    requires s <= m.Keys && n >= 0 && SavedSoFar(m, s, n, stored)
    ensures n in s ==> SavedSoFar(m, s, n + 1, stored + [Stored(m[n])])
    ensures n !in s ==> SavedSoFar(m, s, n + 1, stored)
  {
    if n in s {
      var stored' := stored + [Stored(m[n])];
      forall id | id in s && 0 <= id < n + 1 ensures SavedAs(m, s, stored', id) {
        assert id < n ==> SavedAs(m, s, stored, id);
      }
    }
  }

  /** The number an entry of the new table is given. */
  ghost predicate MappedTo(mapUnkIds: map<int, int>, m: Infos, id: int)
  {
    id in mapUnkIds && mapUnkIds[id] == Rank(Untried(m), id)
  }

  /** Write all entries of the new table; `mapUnkIds` remembers the numbers they get. */
  method SaveNew(m: Infos, nIdCount: int, nNew: int) returns (news: seq<StoredInfo>, mapUnkIds: map<int, int>)
    requires nIdCount >= 0 && IdsInRange(m, nIdCount) && |Untried(m)| == nNew
    requires forall id :: id in m ==> (m[id].nRefCount != 0 <==> !m[id].fInTried)
    ensures EntriesSaved(m, Untried(m), news)
    ensures forall id {:trigger MappedTo(mapUnkIds, m, id)} :: id in Untried(m) ==> MappedTo(mapUnkIds, m, id)
  {
    ghost var s := Untried(m);
    news, mapUnkIds := [], map[];
    for id := 0 to nIdCount
      invariant SavedSoFar(m, s, id, news)
      invariant forall x {:trigger MappedTo(mapUnkIds, m, x)} :: x in s && 0 <= x < id ==> MappedTo(mapUnkIds, m, x)
    {
      ghost var before := mapUnkIds;
      SavedOneMore(m, s, id, news);
      if id in m {
        mapUnkIds := mapUnkIds[id := |news|];
        if m[id].nRefCount != 0 {
          assert |news| != nNew by { RankGrows(s, id, nIdCount); RankTotal(s, nIdCount); }
          news := news + [Stored(m[id])];
        }
      }
      forall x | x in s && 0 <= x < id + 1 ensures MappedTo(mapUnkIds, m, x) {
        assert x < id ==> MappedTo(before, m, x);
      }
    }
    SavedAll(m, s, nIdCount, news);
    forall x | x in s ensures MappedTo(mapUnkIds, m, x) { assert 0 <= x < nIdCount; }
  }

  method SaveTried(m: Infos, nIdCount: int, nTried: int) returns (trieds: seq<StoredInfo>)
    requires nIdCount >= 0 && IdsInRange(m, nIdCount) && |Tried(m)| == nTried
    ensures EntriesSaved(m, Tried(m), trieds)
  {
    ghost var s := Tried(m);
    trieds := [];
    for id := 0 to nIdCount
      invariant SavedSoFar(m, s, id, trieds)
    {
      SavedOneMore(m, s, id, trieds);
      if id in m && m[id].fInTried {
        assert |trieds| != nTried by { RankGrows(s, id, nIdCount); RankTotal(s, nIdCount); }
        trieds := trieds + [Stored(m[id])];
      }
    }
    SavedAll(m, s, nIdCount, trieds);
  }

  /** A slot of the new table holds an entry that is not tried. */
  lemma NewSlotUntried(h: Hasher, t: Tables, b: nat, p: nat)
    requires Consistent(h, t, {}, {}) && b < ADDRMAN_NEW_BUCKET_COUNT && p < ADDRMAN_BUCKET_SIZE && t.vvNew[b][p] != -1
    ensures t.vvNew[b][p] in t.mapInfo && !t.mapInfo[t.vvNew[b][p]].fInTried
    ensures p == NewPos(h, b, t.mapInfo[t.vvNew[b][p]].service)
  {
    assert NewSlotOk(h, t, b, p);
    var id := t.vvNew[b][p];
    assert IdOk(h, t, {}, id);
    RefsZero(h, t.mapInfo[id].service, t.vvNew, id, ADDRMAN_NEW_BUCKET_COUNT);
  }

  ghost predicate HeldBefore(t: Tables, b: nat, n: nat, x: int)
    requires Shape(t) && b < ADDRMAN_NEW_BUCKET_COUNT && n <= ADDRMAN_BUCKET_SIZE
  {
    exists p :: 0 <= p < n && t.vvNew[b][p] != -1 && x == Renumbered(t.mapInfo, t.vvNew[b][p])
  }

  method SaveBucket(a: AddrMan.AddrMan, b: nat, mapUnkIds: map<int, int>) returns (items: seq<int>)
    requires a.Valid() && b < ADDRMAN_NEW_BUCKET_COUNT
    requires forall id {:trigger MappedTo(mapUnkIds, a.mapInfo, id)} :: id in Untried(a.mapInfo) ==>
      MappedTo(mapUnkIds, a.mapInfo, id)
    ensures BucketSaved(a.T(), b, items)
  {
    items := [];
    for i := 0 to ADDRMAN_BUCKET_SIZE
      invariant forall x :: x in items <==> HeldBefore(a.T(), b, i, x)
    {
      ghost var before := items;
      if a.vvNew[b, i] != -1 {
        NewSlotUntried(a.h, a.T(), b, i);
        assert MappedTo(mapUnkIds, a.mapInfo, a.vvNew[b, i]);
        items := items + [mapUnkIds[a.vvNew[b, i]]];
      }
      forall x ensures x in items <==> HeldBefore(a.T(), b, i + 1, x) {
        assert x in before <==> HeldBefore(a.T(), b, i, x);
      }
    }
    forall x ensures x in items <==> HeldIn(a.T(), b, x) {
      assert x in items <==> HeldBefore(a.T(), b, ADDRMAN_BUCKET_SIZE, x);
    }
  }

  /** Write everything. The counts agree with what is written, so neither assertion fires. */
  method Serialize(a: AddrMan.AddrMan) returns (d: Saved)
    requires a.Valid()
    ensures IsSaved(a.h, a.T(), d)
  {
    ConsistentIds(a.h, a.T());
    var news, mapUnkIds := SaveNew(a.mapInfo, a.nIdCount, a.nNew);
    var trieds := SaveTried(a.mapInfo, a.nIdCount, a.nTried);
    var buckets: seq<seq<int>> := [];
    for b := 0 to ADDRMAN_NEW_BUCKET_COUNT
      invariant |buckets| == b
      invariant forall k {:trigger BucketSaved(a.T(), k, buckets[k])} :: 0 <= k < b ==>
        BucketSaved(a.T(), k, buckets[k])
    {
      ghost var before := buckets;
      var items := SaveBucket(a, b, mapUnkIds);
      buckets := buckets + [items];
      forall k | 0 <= k <= b ensures BucketSaved(a.T(), k, buckets[k]) {
        if k < b { assert BucketSaved(a.T(), k, before[k]); }
      }
    }
    d := Saved(1, 32, a.h, Flip30(ADDRMAN_NEW_BUCKET_COUNT), news, trieds, buckets);
  }

  // ----- Loading: what the tables hold on the way -----

  /** Ids 0 to k - 1 are used, and vRandom lists them in order. */
  ghost predicate Numbered(m: Infos, vRandom: seq<int>, k: int)
  {
    && |vRandom| == k
    && (forall j :: j in m <==> 0 <= j < k)
    && (forall j :: 0 <= j < k ==> vRandom[j] == j && m[j].nRandomPos == j)
  }

  /** The ghost of a saved manager: its tables were consistent and are what the data was made from. */
  ghost predicate Origin(h: Hasher, t: Tables, d: Saved)
  {
    Consistent(h, t, {}, {}) && IsSaved(h, t, d)
  }

  lemma OriginIds(h: Hasher, t: Tables, d: Saved)
    requires Origin(h, t, d)
    ensures IdsInRange(t.mapInfo, t.nIdCount)
    ensures |Untried(t.mapInfo)| == |d.news| == t.nNew && |Tried(t.mapInfo)| == |d.trieds| == t.nTried
  {
    ConsistentIds(h, t);
  }

  /** Entry j is the one that was given number j. */
  ghost predicate EntryLoaded(t: Tables, m: Infos, j: nat)
    requires IdsInRange(t.mapInfo, t.nIdCount) && j < |Untried(t.mapInfo)| + |Tried(t.mapInfo)|
  {
    var id := IdAt(t.mapInfo, t.nIdCount, j);
    j in m && Stored(m[j]) == Stored(t.mapInfo[id]) && m[j].fInTried == t.mapInfo[id].fInTried
  }

  ghost predicate EntriesLoaded(t: Tables, m: Infos, k: nat)
  {
    && IdsInRange(t.mapInfo, t.nIdCount) && k <= |Untried(t.mapInfo)| + |Tried(t.mapInfo)|
    && forall j: nat {:trigger EntryLoaded(t, m, j)} :: j < k ==> EntryLoaded(t, m, j)
  }

  ghost predicate NetLoaded(m: Infos, mapAddr: map<NetAddr, int>, j: int)
    requires j in m
  {
    m[j].service.net in mapAddr && mapAddr[m[j].service.net] == j
  }

  ghost predicate AddrLoaded(m: Infos, mapAddr: map<NetAddr, int>, k: nat)
  {
    && (forall j {:trigger NetLoaded(m, mapAddr, j)} :: 0 <= j < k ==> j in m && NetLoaded(m, mapAddr, j))
    && (forall n {:trigger mapAddr[n]} :: n in mapAddr ==>
          0 <= mapAddr[n] < k && mapAddr[n] in m && m[mapAddr[n]].service.net == n)
  }

  /** What the data holds under a number is the entry that was given that number. */
  lemma SavedAt(h: Hasher, t: Tables, d: Saved, j: nat)
    requires Origin(h, t, d) && j < |d.news| + |d.trieds|
    ensures IdsInRange(t.mapInfo, t.nIdCount) && |Untried(t.mapInfo)| == |d.news| && |Tried(t.mapInfo)| == |d.trieds|
    ensures (d.news + d.trieds)[j] == Stored(t.mapInfo[IdAt(t.mapInfo, t.nIdCount, j)])
  {
    OriginIds(h, t, d);
    var id := IdAt(t.mapInfo, t.nIdCount, j);
    if j < |d.news| {
      assert SavedAs(t.mapInfo, Untried(t.mapInfo), d.news, id);
    } else {
      assert SavedAs(t.mapInfo, Tried(t.mapInfo), d.trieds, id);
    }
  }

  /** Two numbers stand for entries with different addresses. */
  lemma NetsDiffer(h: Hasher, t: Tables, i: nat, j: nat)
    requires Consistent(h, t, {}, {}) && IdsInRange(t.mapInfo, t.nIdCount) && i != j
    requires i < |Untried(t.mapInfo)| + |Tried(t.mapInfo)| && j < |Untried(t.mapInfo)| + |Tried(t.mapInfo)|
    ensures t.mapInfo[IdAt(t.mapInfo, t.nIdCount, i)].service.net !=
      t.mapInfo[IdAt(t.mapInfo, t.nIdCount, j)].service.net
  {
    var x, y := IdAt(t.mapInfo, t.nIdCount, i), IdAt(t.mapInfo, t.nIdCount, j);
    assert IdOk(h, t, {}, x) && IdOk(h, t, {}, y);
  }

  /** Loading the next entry. */
  lemma EntriesNext(h: Hasher, t: Tables, m: Infos, mapAddr: map<NetAddr, int>, k: nat, info: AddrInfo)
    requires Consistent(h, t, {}, {}) && EntriesLoaded(t, m, k) && AddrLoaded(m, mapAddr, k)
    requires k < |Untried(t.mapInfo)| + |Tried(t.mapInfo)| && k !in m
    requires var id := IdAt(t.mapInfo, t.nIdCount, k);
             Stored(info) == Stored(t.mapInfo[id]) && info.fInTried == t.mapInfo[id].fInTried
    ensures EntriesLoaded(t, m[k := info], k + 1)
    ensures AddrLoaded(m[k := info], mapAddr[info.service.net := k], k + 1)
  {
    var m', mapAddr' := m[k := info], mapAddr[info.service.net := k];
    forall j: nat | j < k + 1 ensures EntryLoaded(t, m', j) {
      assert j < k ==> EntryLoaded(t, m, j);
    }
    forall j | 0 <= j < k + 1 ensures j in m' && NetLoaded(m', mapAddr', j) {
      if j < k {
        assert EntryLoaded(t, m, j);
        assert NetLoaded(m, mapAddr, j);
        NetsDiffer(h, t, j, k);
      }
    }
    forall n | n in mapAddr' ensures 0 <= mapAddr'[n] < k + 1 && mapAddr'[n] in m' && m'[mapAddr'[n]].service.net == n {
      assert n != info.service.net ==> mapAddr'[n] == mapAddr[n];
    }
  }

  // ----- Tried slots -----

  /** A tried slot once the entries numbered below k are loaded. */
  ghost predicate TriedCell(m: Infos, g: Grid, g': Grid, k: int, b: nat, p: nat)
    requires Dim(g, ADDRMAN_TRIED_BUCKET_COUNT) && Dim(g', ADDRMAN_TRIED_BUCKET_COUNT)
    requires b < ADDRMAN_TRIED_BUCKET_COUNT && p < ADDRMAN_BUCKET_SIZE
  {
    g'[b][p] == if Renumbered(m, g[b][p]) < k then Renumbered(m, g[b][p]) else -1
  }

  ghost predicate TriedFilled(m: Infos, g: Grid, g': Grid, k: int)
  {
    && Dim(g, ADDRMAN_TRIED_BUCKET_COUNT) && Dim(g', ADDRMAN_TRIED_BUCKET_COUNT)
    && forall b: nat, p: nat {:trigger TriedCell(m, g, g', k, b, p)} ::
         b < ADDRMAN_TRIED_BUCKET_COUNT && p < ADDRMAN_BUCKET_SIZE ==> TriedCell(m, g, g', k, b, p)
  }

  /** Loading a tried entry finds its slot free and fills it. */
  lemma TriedNext(h: Hasher, t: Tables, g': Grid, k: nat)
    requires Consistent(h, t, {}, {}) && IdsInRange(t.mapInfo, t.nIdCount)
    requires |Untried(t.mapInfo)| <= k < |Untried(t.mapInfo)| + |Tried(t.mapInfo)|
    requires TriedFilled(t.mapInfo, t.vvTried, g', k)
    ensures var s := t.mapInfo[IdAt(t.mapInfo, t.nIdCount, k)].service;
      && g'[TriedBucket(h, s)][TriedPos(h, s)] == -1
      && TriedFilled(t.mapInfo, t.vvTried, Put(g', TriedBucket(h, s), TriedPos(h, s), k), k + 1)
  {
    var m, id := t.mapInfo, IdAt(t.mapInfo, t.nIdCount, k);
    var b0, p0 := TriedBucket(h, m[id].service), TriedPos(h, m[id].service);
    assert IdOk(h, t, {}, id);
    assert TriedCell(m, t.vvTried, g', k, b0, p0);
    var g'', k' := Put(g', b0, p0, k), k + 1;
    forall b: nat, p: nat | b < ADDRMAN_TRIED_BUCKET_COUNT && p < ADDRMAN_BUCKET_SIZE
      ensures TriedCell(m, t.vvTried, g'', k', b, p)
    {
      assert TriedCell(m, t.vvTried, g', k, b, p) && TriedSlotOk(h, t, b, p);
      if Renumbered(m, t.vvTried[b][p]) == k {
        RenumberedInjective(m, t.nIdCount, t.vvTried[b][p], id);
      }
    }
  }

  lemma TriedStart(h: Hasher, t: Tables, g': Grid)
    requires Consistent(h, t, {}, {}) && IdsInRange(t.mapInfo, t.nIdCount) && Blank(g', ADDRMAN_TRIED_BUCKET_COUNT)
    ensures TriedFilled(t.mapInfo, t.vvTried, g', |Untried(t.mapInfo)|)
  {
    var m, k := t.mapInfo, |Untried(t.mapInfo)|;
    forall b: nat, p: nat | b < ADDRMAN_TRIED_BUCKET_COUNT && p < ADDRMAN_BUCKET_SIZE
      ensures TriedCell(m, t.vvTried, g', k, b, p)
    {
      assert TriedSlotOk(h, t, b, p);
      if t.vvTried[b][p] != -1 { RenumberedBounds(m, t.nIdCount, t.vvTried[b][p]); }
    }
  }

  ghost predicate Blank(g: Grid, rows: nat)
  {
    Dim(g, rows) && forall b, p :: 0 <= b < rows && 0 <= p < ADDRMAN_BUCKET_SIZE ==> g[b][p] == -1
  }

  // ----- New slots -----

  /** A new slot once the buckets before cb, and the items `done` of bucket cb, are loaded. */
  ghost predicate NewCell(m: Infos, g: Grid, g': Grid, cb: nat, done: set<int>, b: nat, p: nat)
    requires Dim(g, ADDRMAN_NEW_BUCKET_COUNT) && Dim(g', ADDRMAN_NEW_BUCKET_COUNT)
    requires b < ADDRMAN_NEW_BUCKET_COUNT && p < ADDRMAN_BUCKET_SIZE
  {
    var x := Renumbered(m, g[b][p]);
    g'[b][p] == if b < cb || (b == cb && x in done) then x else -1
  }

  ghost predicate NewFilled(m: Infos, g: Grid, g': Grid, cb: nat, done: set<int>)
  {
    && Dim(g, ADDRMAN_NEW_BUCKET_COUNT) && Dim(g', ADDRMAN_NEW_BUCKET_COUNT)
    && forall b: nat, p: nat {:trigger NewCell(m, g, g', cb, done, b, p)} ::
         b < ADDRMAN_NEW_BUCKET_COUNT && p < ADDRMAN_BUCKET_SIZE ==> NewCell(m, g, g', cb, done, b, p)
  }

  lemma NewStart(m: Infos, g: Grid, g': Grid)
    requires Dim(g, ADDRMAN_NEW_BUCKET_COUNT) && Blank(g', ADDRMAN_NEW_BUCKET_COUNT)
    ensures NewFilled(m, g, g', 0, {})
  {
    var cb := 0;
    forall b: nat, p: nat | b < ADDRMAN_NEW_BUCKET_COUNT && p < ADDRMAN_BUCKET_SIZE
      ensures NewCell(m, g, g', cb, {}, b, p)
    {
      assert Renumbered(m, g[b][p]) !in {};
    }
  }

  /** A bucket all of whose items are loaded is complete. */
  lemma NewBucketDone(t: Tables, g': Grid, cb: nat, items: seq<int>)
    requires Shape(t) && IdsInRange(t.mapInfo, t.nIdCount) && cb < ADDRMAN_NEW_BUCKET_COUNT && BucketSaved(t, cb, items)
    requires NewFilled(t.mapInfo, t.vvNew, g', cb, set x | x in items)
    ensures NewFilled(t.mapInfo, t.vvNew, g', cb + 1, {})
  {
    var m, done, next := t.mapInfo, (set x | x in items), cb + 1;
    forall b: nat, p: nat | b < ADDRMAN_NEW_BUCKET_COUNT && p < ADDRMAN_BUCKET_SIZE
      ensures NewCell(m, t.vvNew, g', next, {}, b, p)
    {
      assert NewCell(m, t.vvNew, g', cb, done, b, p);
      var x := Renumbered(m, t.vvNew[b][p]);
      assert b == cb && t.vvNew[b][p] != -1 ==> HeldIn(t, cb, x);
    }
  }

  /** An item of a bucket: where it was, and what it stands for. */
  lemma ItemAt(h: Hasher, t: Tables, cb: nat, items: seq<int>, x: int) returns (p: nat, id: int)
    requires Consistent(h, t, {}, {}) && IdsInRange(t.mapInfo, t.nIdCount)
    requires cb < ADDRMAN_NEW_BUCKET_COUNT && BucketSaved(t, cb, items) && x in items
    ensures p < ADDRMAN_BUCKET_SIZE && id == t.vvNew[cb][p] && id in t.mapInfo && !t.mapInfo[id].fInTried
    ensures x == Renumbered(t.mapInfo, id) && 0 <= x < |Untried(t.mapInfo)|
    ensures id == IdAt(t.mapInfo, t.nIdCount, x) && p == NewPos(h, cb, t.mapInfo[id].service)
  {
    assert HeldIn(t, cb, x);
    p :| 0 <= p < ADDRMAN_BUCKET_SIZE && t.vvNew[cb][p] != -1 && x == Renumbered(t.mapInfo, t.vvNew[cb][p]);
    id := t.vvNew[cb][p];
    NewSlotUntried(h, t, cb, p);
    RenumberedBounds(t.mapInfo, t.nIdCount, id);
    RenumberedInjective(t.mapInfo, t.nIdCount, id, IdAt(t.mapInfo, t.nIdCount, x));
  }

  /** Loading an item that is not loaded yet finds its slot free and fills it. */
  lemma NewNext(h: Hasher, t: Tables, g': Grid, cb: nat, done: set<int>, p0: nat, id: int, x: int)
    requires Consistent(h, t, {}, {}) && IdsInRange(t.mapInfo, t.nIdCount)
    requires cb < ADDRMAN_NEW_BUCKET_COUNT && p0 < ADDRMAN_BUCKET_SIZE && id == t.vvNew[cb][p0] && id in t.mapInfo
    requires x == Renumbered(t.mapInfo, id) >= 0 && p0 == NewPos(h, cb, t.mapInfo[id].service)
    requires NewFilled(t.mapInfo, t.vvNew, g', cb, done)
    ensures g'[cb][p0] == if x in done then x else -1
    ensures x !in done ==> NewFilled(t.mapInfo, t.vvNew, Put(g', cb, p0, x), cb, done + {x})
  {
    var m, g'', done' := t.mapInfo, Put(g', cb, p0, x), done + {x};
    assert NewCell(m, t.vvNew, g', cb, done, cb, p0);
    if x !in done {
      forall b: nat, p: nat | b < ADDRMAN_NEW_BUCKET_COUNT && p < ADDRMAN_BUCKET_SIZE
        ensures NewCell(m, t.vvNew, g'', cb, done', b, p)
      {
        assert NewCell(m, t.vvNew, g', cb, done, b, p) && NewSlotOk(h, t, b, p);
        if b == cb && Renumbered(m, t.vvNew[b][p]) == x {
          RenumberedInjective(m, t.nIdCount, t.vvNew[b][p], id);
        }
      }
    }
  }

  // ----- Reference counts -----

  lemma {:induction false} RefsCompare(h: Hasher, s: Service, g: Grid, x: int, g': Grid, y: int, n: nat)
    requires Dim(g, ADDRMAN_NEW_BUCKET_COUNT) && Dim(g', ADDRMAN_NEW_BUCKET_COUNT) && n <= ADDRMAN_NEW_BUCKET_COUNT
    requires forall b :: 0 <= b < n && g[b][NewPos(h, b, s)] == x ==> g'[b][NewPos(h, b, s)] == y
    ensures Refs(h, s, g, x, n) <= Refs(h, s, g', y, n)
  {
    if n > 0 { RefsCompare(h, s, g, x, g', y, n - 1); }
  }

  /** On the way there are never more references than there were, and at the end as many. */
  lemma RefsLoaded(h: Hasher, t: Tables, g': Grid, cb: nat, done: set<int>, id: int)
    requires Shape(t) && IdsInRange(t.mapInfo, t.nIdCount) && id in t.mapInfo
    requires NewFilled(t.mapInfo, t.vvNew, g', cb, done)
    ensures var s, x := t.mapInfo[id].service, Renumbered(t.mapInfo, id);
      && Refs(h, s, g', x, ADDRMAN_NEW_BUCKET_COUNT) <= Refs(h, s, t.vvNew, id, ADDRMAN_NEW_BUCKET_COUNT)
      && (cb == ADDRMAN_NEW_BUCKET_COUNT ==>
            Refs(h, s, g', x, ADDRMAN_NEW_BUCKET_COUNT) == Refs(h, s, t.vvNew, id, ADDRMAN_NEW_BUCKET_COUNT))
  {
    var m, s, x := t.mapInfo, t.mapInfo[id].service, Renumbered(t.mapInfo, id);
    RenumberedBounds(m, t.nIdCount, id);
    forall b | 0 <= b < ADDRMAN_NEW_BUCKET_COUNT && g'[b][NewPos(h, b, s)] == x
      ensures t.vvNew[b][NewPos(h, b, s)] == id
    {
      assert NewCell(m, t.vvNew, g', cb, done, b, NewPos(h, b, s));
      RenumberedInjective(m, t.nIdCount, t.vvNew[b][NewPos(h, b, s)], id);
    }
    RefsCompare(h, s, g', x, t.vvNew, id, ADDRMAN_NEW_BUCKET_COUNT);
    if cb == ADDRMAN_NEW_BUCKET_COUNT {
      forall b | 0 <= b < ADDRMAN_NEW_BUCKET_COUNT && t.vvNew[b][NewPos(h, b, s)] == id
        ensures g'[b][NewPos(h, b, s)] == x
      {
        assert NewCell(m, t.vvNew, g', cb, done, b, NewPos(h, b, s));
      }
      RefsCompare(h, s, t.vvNew, id, g', x, ADDRMAN_NEW_BUCKET_COUNT);
    }
  }

  // ----- The loaded tables -----

  ghost predicate RefAt(h: Hasher, m: Infos, g: Grid, j: int)
    requires Dim(g, ADDRMAN_NEW_BUCKET_COUNT) && j in m
  {
    m[j].nRefCount == Refs(h, m[j].service, g, j, ADDRMAN_NEW_BUCKET_COUNT)
  }

  /** Every reference count counts the slots filled so far. */
  ghost predicate RefsOk(h: Hasher, m: Infos, g: Grid)
  {
    Dim(g, ADDRMAN_NEW_BUCKET_COUNT) && forall j {:trigger RefAt(h, m, g, j)} :: j in m ==> RefAt(h, m, g, j)
  }

  /** All data has been read. */
  ghost predicate AllRead(h: Hasher, t: Tables, t': Tables)
  {
    var total := t.nNew + t.nTried;
    && Consistent(h, t, {}, {}) && Shape(t') && total >= 0
    && Numbered(t'.mapInfo, t'.vRandom, total) && t'.nIdCount == total
    && EntriesLoaded(t, t'.mapInfo, total) && AddrLoaded(t'.mapInfo, t'.mapAddr, total)
    && TriedFilled(t.mapInfo, t.vvTried, t'.vvTried, total)
    && NewFilled(t.mapInfo, t.vvNew, t'.vvNew, ADDRMAN_NEW_BUCKET_COUNT, {})
    && RefsOk(h, t'.mapInfo, t'.vvNew)
    && t'.nNew == t.nNew && t'.nTried == t.nTried
  }

  lemma LoadedSame(h: Hasher, t: Tables, t': Tables, id: int)
    requires AllRead(h, t, t') && id in t.mapInfo
    ensures 0 <= Renumbered(t.mapInfo, id) < t.nNew + t.nTried && SameAs(t, t', id)
  {
    ConsistentIds(h, t);
    var j := Renumbered(t.mapInfo, id);
    RenumberedBounds(t.mapInfo, t.nIdCount, id);
    RenumberedInjective(t.mapInfo, t.nIdCount, id, IdAt(t.mapInfo, t.nIdCount, j));
    assert EntryLoaded(t, t'.mapInfo, j) && RefAt(h, t'.mapInfo, t'.vvNew, j) && IdOk(h, t, {}, id);
    RefsLoaded(h, t, t'.vvNew, ADDRMAN_NEW_BUCKET_COUNT, {}, id);
  }

  lemma LoadedId(h: Hasher, t: Tables, t': Tables, j: int)
    requires AllRead(h, t, t') && j in t'.mapInfo
    ensures IdOk(h, t', {}, j)
  {
    ConsistentIds(h, t);
    var id := IdAt(t.mapInfo, t.nIdCount, j);
    LoadedSame(h, t, t', id);
    assert IdOk(h, t, {}, id) && RefAt(h, t'.mapInfo, t'.vvNew, j) && NetLoaded(t'.mapInfo, t'.mapAddr, j);
    var b, p := TriedBucket(h, t.mapInfo[id].service), TriedPos(h, t.mapInfo[id].service);
    assert TriedCell(t.mapInfo, t.vvTried, t'.vvTried, t.nNew + t.nTried, b, p);
  }

  lemma LoadedNewSlot(h: Hasher, t: Tables, t': Tables, b: nat, p: nat)
    requires AllRead(h, t, t') && b < ADDRMAN_NEW_BUCKET_COUNT && p < ADDRMAN_BUCKET_SIZE
    ensures NewSlotOk(h, t', b, p) && t'.vvNew[b][p] == Renumbered(t.mapInfo, t.vvNew[b][p])
  {
    assert NewCell(t.mapInfo, t.vvNew, t'.vvNew, ADDRMAN_NEW_BUCKET_COUNT, {}, b, p) && NewSlotOk(h, t, b, p);
    if t.vvNew[b][p] in t.mapInfo { LoadedSame(h, t, t', t.vvNew[b][p]); }
  }

  lemma LoadedTriedSlot(h: Hasher, t: Tables, t': Tables, b: nat, p: nat)
    requires AllRead(h, t, t') && b < ADDRMAN_TRIED_BUCKET_COUNT && p < ADDRMAN_BUCKET_SIZE
    ensures TriedSlotOk(h, t', b, p) && t'.vvTried[b][p] == Renumbered(t.mapInfo, t.vvTried[b][p])
  {
    assert TriedCell(t.mapInfo, t.vvTried, t'.vvTried, t.nNew + t.nTried, b, p) && TriedSlotOk(h, t, b, p);
    if t.vvTried[b][p] in t.mapInfo { LoadedSame(h, t, t', t.vvTried[b][p]); }
  }

  lemma {:induction false} RangeSize(s: set<int>, lo: int, hi: int)
    requires lo <= hi && forall x :: x in s <==> lo <= x < hi
    ensures |s| == hi - lo
    decreases hi - lo
  {
    if lo == hi {
      assert s == {};
    } else {
      RangeSize(s - {lo}, lo + 1, hi);
    }
  }

  lemma LoadedCounts(h: Hasher, t: Tables, t': Tables)
    requires AllRead(h, t, t')
    ensures CountsOk(t', {}) && |t'.mapInfo| == |t.mapInfo|
  {
    ConsistentIds(h, t);
    var m := t'.mapInfo;
    forall j | j in m ensures m[j].fInTried <==> j >= t.nNew {
      assert EntryLoaded(t, m, j);
    }
    RangeSize(Untried(m), 0, t.nNew);
    RangeSize(Tried(m), t.nNew, t.nNew + t.nTried);
    FlagsSplit(m);
    FlagsSplit(t.mapInfo);
    assert Untried(m) - {} == Untried(m);
  }

  lemma LoadedLinks(h: Hasher, t: Tables, t': Tables)
    requires AllRead(h, t, t')
    ensures LinksOk(t')
  {
    forall n | n in t'.mapAddr ensures NetOk(t', n) { }
    forall i | 0 <= i < |t'.vRandom| ensures PosOk(t', i) { }
  }

  /** Saving and loading gives back consistent tables that are the same up to numbering. */
  lemma RoundTrip(h: Hasher, t: Tables, t': Tables)
    requires AllRead(h, t, t')
    ensures Consistent(h, t', {}, {}) && Reloaded(t, t')
  {
    forall j | j in t'.mapInfo ensures IdOk(h, t', {}, j) { LoadedId(h, t, t', j); }
    LoadedLinks(h, t, t');
    LoadedCounts(h, t, t');
    forall b: nat, p: nat | b < ADDRMAN_NEW_BUCKET_COUNT && p < ADDRMAN_BUCKET_SIZE
      ensures NewSlotOk(h, t', b, p) && t'.vvNew[b][p] == Renumbered(t.mapInfo, t.vvNew[b][p])
    {
      LoadedNewSlot(h, t, t', b, p);
    }
    forall b: nat, p: nat | b < ADDRMAN_TRIED_BUCKET_COUNT && p < ADDRMAN_BUCKET_SIZE
      ensures TriedSlotOk(h, t', b, p) && t'.vvTried[b][p] == Renumbered(t.mapInfo, t.vvTried[b][p])
    {
      LoadedTriedSlot(h, t, t', b, p);
    }
    forall id | id in t.mapInfo ensures SameAs(t, t', id) { LoadedSame(h, t, t', id); }
    ConsistentIds(h, t);
    forall x, y | x in t.mapInfo && y in t.mapInfo && Renumbered(t.mapInfo, x) == Renumbered(t.mapInfo, y)
      ensures x == y
    {
      RenumberedInjective(t.mapInfo, t.nIdCount, x, y);
    }
  }

  // ----- The size limits -----

  lemma {:induction false} RowBound(s: set<int>, row: seq<int>)
    requires forall x :: x in s ==> x in row
    ensures |s| <= |row|
  {
    if row == [] {
      assert forall x :: x !in s;
      assert s == {};
    } else {
      var last := |row| - 1;
      var s' := s - {row[last]};
      forall x | x in s' ensures x in row[..last] {
        assert x in row;
      }
      RowBound(s', row[..last]);
      assert s <= s' + {row[last]};
      SetSums.SubsetSize(s, s' + {row[last]});
    }
  }

  lemma {:induction false} GridBound(s: set<int>, g: Grid, n: nat)
    requires Dim(g, n) && forall x :: x in s ==> exists b :: 0 <= b < n && x in g[b]
    ensures |s| <= n * ADDRMAN_BUCKET_SIZE
    decreases n
  {
    if n == 0 {
      assert forall x :: x !in s;
      assert s == {};
    } else {
      var inRow := set x | x in s && x in g[n - 1];
      RowBound(inRow, g[n - 1]);
      var n', g' := n - 1, g[..n - 1];
      forall x | x in s - inRow ensures exists b :: 0 <= b < n' && x in g'[b] {
        var b :| 0 <= b < n && x in g[b];
        assert b < n' && x in g'[b];
      }
      GridBound(s - inRow, g', n');
      assert s == inRow + (s - inRow);
    }
  }

  /** A consistent manager is never too large to be loaded. */
  lemma WithinLimits(h: Hasher, t: Tables)
    requires Consistent(h, t, {}, {})
    ensures t.nNew <= ADDRMAN_NEW_BUCKET_COUNT * ADDRMAN_BUCKET_SIZE
    ensures t.nTried <= ADDRMAN_TRIED_BUCKET_COUNT * ADDRMAN_BUCKET_SIZE
  {
    ConsistentIds(h, t);
    forall id | id in Untried(t.mapInfo) ensures exists b :: 0 <= b < ADDRMAN_NEW_BUCKET_COUNT && id in t.vvNew[b] {
      assert IdOk(h, t, {}, id);
      RefsZero(h, t.mapInfo[id].service, t.vvNew, id, ADDRMAN_NEW_BUCKET_COUNT);
    }
    GridBound(Untried(t.mapInfo), t.vvNew, ADDRMAN_NEW_BUCKET_COUNT);
    forall id | id in Tried(t.mapInfo) ensures exists b :: 0 <= b < ADDRMAN_TRIED_BUCKET_COUNT && id in t.vvTried[b] {
      assert IdOk(h, t, {}, id);
      assert id in t.vvTried[TriedBucket(h, t.mapInfo[id].service)];
    }
    GridBound(Tried(t.mapInfo), t.vvTried, ADDRMAN_TRIED_BUCKET_COUNT);
  }

  // ----- Loading -----

  // ----- What any record makes -----

  /** The tables while a record is read. */
  datatype Draft = Draft(mapInfo: Infos, mapAddr: map<NetAddr, int>, vvNew: Grid, vvTried: Grid, nIdCount: int) {
    ghost predicate Shaped()
    {
      Dim(vvNew, ADDRMAN_NEW_BUCKET_COUNT) && Dim(vvTried, ADDRMAN_TRIED_BUCKET_COUNT)
    }
  }

  ghost function D(a: AddrMan.AddrMan): Draft
    reads a
  {
    Draft(a.mapInfo, a.mapAddr, a.newGrid, a.triedGrid, a.nIdCount)
  }

  /** An entry of the new table; without its positions it takes the slot of its source, if that is free. */
  ghost function ReadNew(h: Hasher, s: Draft, x: StoredInfo, n: int, rebuild: bool): (r: Draft)
    requires s.Shaped()
    ensures r.Shaped() && r.vvTried == s.vvTried && r.nIdCount == s.nIdCount
  {
    var b := NewBucket(h, x.service, x.source);
    var p := NewPos(h, b, x.service);
    var info := Loaded(x, n, false);
    if rebuild && s.vvNew[b][p] == -1
    then s.(mapInfo := s.mapInfo[n := info.(nRefCount := 1)], mapAddr := s.mapAddr[x.service.net := n],
            vvNew := Put(s.vvNew, b, p, n))
    else s.(mapInfo := s.mapInfo[n := info], mapAddr := s.mapAddr[x.service.net := n])
  }

  ghost function ReadNews(h: Hasher, s: Draft, d: Saved, rebuild: bool, n: nat): (r: Draft)
    requires s.Shaped() && n <= |d.news|
    ensures r.Shaped() && r.vvTried == s.vvTried && r.nIdCount == s.nIdCount
  {
    if n == 0 then s else ReadNew(h, ReadNews(h, s, d, rebuild, n - 1), d.news[n - 1], n - 1, rebuild)
  }

  /** An entry of the tried table takes its slot and the next id, or is lost. */
  ghost function ReadTried(h: Hasher, s: Draft, x: StoredInfo): (r: Draft)
    requires s.Shaped()
    ensures r.Shaped() && r.vvNew == s.vvNew && r.nIdCount >= s.nIdCount
  {
    var b, p := TriedBucket(h, x.service), TriedPos(h, x.service);
    if s.vvTried[b][p] != -1 then s
    else s.(mapInfo := s.mapInfo[s.nIdCount := Loaded(x, s.nIdCount, true)],
            mapAddr := s.mapAddr[x.service.net := s.nIdCount],
            vvTried := Put(s.vvTried, b, p, s.nIdCount), nIdCount := s.nIdCount + 1)
  }

  ghost function ReadTrieds(h: Hasher, s: Draft, d: Saved, n: nat): (r: Draft)
    requires s.Shaped() && n <= |d.trieds|
    ensures r.Shaped() && r.vvNew == s.vvNew && r.nIdCount >= s.nIdCount
  {
    if n == 0 then s else ReadTried(h, ReadTrieds(h, s, d, n - 1), d.trieds[n - 1])
  }

  /** A position in the new table, if it is used. */
  ghost function ReadItem(h: Hasher, s: Draft, useSlots: bool, bucket: nat, x: int, nNew: nat): (r: Draft)
    requires s.Shaped() && (useSlots ==> bucket < ADDRMAN_NEW_BUCKET_COUNT)
    ensures r.Shaped() && r.vvTried == s.vvTried && r.nIdCount == s.nIdCount
  {
    if !IsUsed(h, s.mapInfo, s.vvNew, useSlots, bucket, x, nNew) then s
    else
      var info := s.mapInfo[x];
      s.(mapInfo := s.mapInfo[x := info.(nRefCount := info.nRefCount + 1)],
         vvNew := Put(s.vvNew, bucket, NewPos(h, bucket, info.service), x))
  }

  ghost function ReadItems(h: Hasher, s: Draft, useSlots: bool, bucket: nat, items: seq<int>, nNew: nat,
                           n: nat): (r: Draft)
    requires s.Shaped() && (useSlots ==> bucket < ADDRMAN_NEW_BUCKET_COUNT) && n <= |items|
    ensures r.Shaped() && r.vvTried == s.vvTried && r.nIdCount == s.nIdCount
  {
    if n == 0 then s
    else ReadItem(h, ReadItems(h, s, useSlots, bucket, items, nNew, n - 1), useSlots, bucket, items[n - 1], nNew)
  }

  ghost function ReadBuckets(h: Hasher, s: Draft, d: Saved, useSlots: bool, n: nat): (r: Draft)
    requires s.Shaped() && n <= |d.buckets| && (useSlots ==> |d.buckets| == ADDRMAN_NEW_BUCKET_COUNT)
    ensures r.Shaped() && r.vvTried == s.vvTried && r.nIdCount == s.nIdCount
  {
    if n == 0 then s
    else ReadItems(h, ReadBuckets(h, s, d, useSlots, n - 1), useSlots, n - 1, d.buckets[n - 1], |d.news|,
                   |d.buckets[n - 1]|)
  }

  /** The positions in the new table are used only for the present version and bucket count. */
  predicate UsesSlots(d: Saved)
    requires d.nUBuckets >= 0
  {
    d.nVersion == 1 && UBuckets(d) == ADDRMAN_NEW_BUCKET_COUNT
  }

  ghost function ReadEntries(h: Hasher, s: Draft, d: Saved, useSlots: bool): (r: Draft)
    requires s.Shaped()
    ensures r.Shaped()
  {
    var news := ReadNews(h, s, d, !useSlots, |d.news|);
    ReadTrieds(h, news.(nIdCount := |d.news|), d, |d.trieds|)
  }

  /** All of a record, before entries without a place are removed. */
  ghost function ReadAll(h: Hasher, s: Draft, d: Saved): (r: Draft)
    requires s.Shaped() && d.nUBuckets >= 0 && |d.buckets| == UBuckets(d)
    ensures r.Shaped()
  {
    ReadBuckets(h, ReadEntries(h, s, d, UsesSlots(d)), d, UsesSlots(d), |d.buckets|)
  }

  ghost predicate IsEmptyDraft(s: Draft)
  {
    && s.mapInfo == map[] && s.mapAddr == map[] && s.nIdCount == 0
    && Blank(s.vvNew, ADDRMAN_NEW_BUCKET_COUNT) && Blank(s.vvTried, ADDRMAN_TRIED_BUCKET_COUNT)
  }

  // ----- What becomes of the entries of any record -----

  ghost predicate LivesAt(h: Hasher, x: StoredInfo, b: int, p: int)
  {
    b == NewBucket(h, x.service, x.source) && p == NewPos(h, NewBucket(h, x.service, x.source), x.service)
  }

  ghost predicate TriesAt(h: Hasher, x: StoredInfo, b: int, p: int)
  {
    b == TriedBucket(h, x.service) && p == TriedPos(h, x.service)
  }

  /** Entry k is the first new one for which this is the slot of its source. */
  ghost predicate IsFirstNew(h: Hasher, xs: seq<StoredInfo>, k: int, b: int, p: int)
  {
    0 <= k < |xs| && LivesAt(h, xs[k], b, p) && forall j :: 0 <= j < k ==> !LivesAt(h, xs[j], b, p)
  }

  ghost predicate IsFirstTried(h: Hasher, xs: seq<StoredInfo>, k: int, b: int, p: int)
  {
    0 <= k < |xs| && TriesAt(h, xs[k], b, p) && forall j :: 0 <= j < k ==> !TriesAt(h, xs[j], b, p)
  }

  ghost predicate InNewTable(b: int, p: int)
  {
    0 <= b < ADDRMAN_NEW_BUCKET_COUNT && 0 <= p < ADDRMAN_BUCKET_SIZE
  }

  /** Without stored positions a slot goes to the first entry that lives there. */
  lemma {:induction false} RebuiltSlot(h: Hasher, s: Draft, d: Saved, n: nat, b: int, p: int)
    requires IsEmptyDraft(s) && n <= |d.news| && InNewTable(b, p)
    ensures var v := ReadNews(h, s, d, true, n).vvNew[b][p];
      && (v == -1 <==> forall j :: 0 <= j < n ==> !LivesAt(h, d.news[j], b, p))
      && (v != -1 ==> v < n && IsFirstNew(h, d.news, v, b, p))
  {
    if n > 0 { RebuiltSlot(h, s, d, n - 1, b, p); }
  }

  /** ... and exactly that entry has a reference. */
  lemma {:induction false} RebuiltEntry(h: Hasher, s: Draft, d: Saved, n: nat, k: nat, b: int, p: int)
    requires IsEmptyDraft(s) && k < n <= |d.news| && LivesAt(h, d.news[k], b, p)
    ensures var m := ReadNews(h, s, d, true, n).mapInfo;
      k in m && m[k] == Loaded(d.news[k], k, false).(nRefCount := if IsFirstNew(h, d.news, k, b, p) then 1 else 0)
  {
    if k < n - 1 {
      RebuiltEntry(h, s, d, n - 1, k, b, p);
    } else {
      RebuiltSlot(h, s, d, k, b, p);
    }
  }

  lemma {:induction false} NewsRead(h: Hasher, s: Draft, d: Saved, rebuild: bool, n: nat)
    requires IsEmptyDraft(s) && n <= |d.news|
    ensures forall id :: id in ReadNews(h, s, d, rebuild, n).mapInfo <==> 0 <= id < n
  {
    if n > 0 { NewsRead(h, s, d, rebuild, n - 1); }
  }

  ghost predicate InTriedTable(b: int, p: int)
  {
    0 <= b < ADDRMAN_TRIED_BUCKET_COUNT && 0 <= p < ADDRMAN_BUCKET_SIZE
  }

  /** A tried slot goes to the first entry for it, under a new id. */
  ghost predicate TriedSlotRead(h: Hasher, s: Draft, r: Draft, xs: seq<StoredInfo>, n: nat, b: int, p: int)
    requires InTriedTable(b, p) && r.Shaped() && n <= |xs|
  {
    var id := r.vvTried[b][p];
    && (id == -1 <==> forall j :: 0 <= j < n ==> !TriesAt(h, xs[j], b, p))
    && (id != -1 ==> s.nIdCount <= id < r.nIdCount && id in r.mapInfo)
    && (forall k :: k < n && IsFirstTried(h, xs, k, b, p) ==> id != -1 && r.mapInfo[id] == Loaded(xs[k], id, true))
  }

  lemma TriedSlotNext(h: Hasher, s: Draft, q: Draft, xs: seq<StoredInfo>, n: nat, b: int, p: int)
    requires n < |xs| && InTriedTable(b, p) && q.Shaped() && 0 <= s.nIdCount <= q.nIdCount
    requires TriedSlotRead(h, s, q, xs, n, b, p)
    ensures TriedSlotRead(h, s, ReadTried(h, q, xs[n]), xs, n + 1, b, p)
  {
    var x, r := xs[n], ReadTried(h, q, xs[n]);
    if TriesAt(h, x, b, p) && q.vvTried[b][p] == -1 {
      assert r.vvTried[b][p] == q.nIdCount;
      assert forall k :: 0 <= k < n ==> !TriesAt(h, xs[k], b, p);
    } else {
      assert r.vvTried[b][p] == q.vvTried[b][p];
    }
  }

  lemma {:induction false} TriedsRead(h: Hasher, s: Draft, d: Saved, n: nat, b: int, p: int)
    requires s.Shaped() && Blank(s.vvTried, ADDRMAN_TRIED_BUCKET_COUNT) && s.nIdCount >= 0
    requires n <= |d.trieds| && InTriedTable(b, p)
    ensures TriedSlotRead(h, s, ReadTrieds(h, s, d, n), d.trieds, n, b, p)
  {
    if n == 0 {
      assert s.vvTried[b][p] == -1;
    } else {
      TriedsRead(h, s, d, n - 1, b, p);
      TriedSlotNext(h, s, ReadTrieds(h, s, d, n - 1), d.trieds, n - 1, b, p);
    }
  }

  /** Reading tried entries leaves the entries before them. */
  lemma {:induction false} NewsStay(h: Hasher, s: Draft, d: Saved, n: nat, id: int)
    requires s.Shaped() && n <= |d.trieds| && id < s.nIdCount && id in s.mapInfo
    ensures var r := ReadTrieds(h, s, d, n);
      id in r.mapInfo && r.mapInfo[id] == s.mapInfo[id]
  {
    if n > 0 { NewsStay(h, s, d, n - 1, id); }
  }

  // ----- What any record keeps -----

  /** One entry: the reference count counts the slots that hold it; the tried ones are those after the first nNew. */
  ghost predicate EntrySound(h: Hasher, s: Draft, nNew: nat, id: int)
    requires s.Shaped() && id in s.mapInfo
  {
    var info := s.mapInfo[id];
    && RefAt(h, s.mapInfo, s.vvNew, id) && info.nRefCount <= ADDRMAN_NEW_BUCKETS_PER_ADDRESS
    && (info.fInTried <==> id >= nNew)
    && (info.fInTried ==>
          info.nRefCount == 0 && s.vvTried[TriedBucket(h, info.service)][TriedPos(h, info.service)] == id)
    && info.service.net in s.mapAddr
  }

  ghost predicate NewSlotSound(h: Hasher, s: Draft, b: nat, p: nat)
    requires s.Shaped() && InNewTable(b, p)
  {
    s.vvNew[b][p] != -1 ==> s.vvNew[b][p] in s.mapInfo && p == NewPos(h, b, s.mapInfo[s.vvNew[b][p]].service)
  }

  ghost predicate TriedSlotSound(h: Hasher, s: Draft, b: nat, p: nat)
    requires s.Shaped() && InTriedTable(b, p)
  {
    var id := s.vvTried[b][p];
    id != -1 ==>
      && id in s.mapInfo && s.mapInfo[id].fInTried
      && b == TriedBucket(h, s.mapInfo[id].service) && p == TriedPos(h, s.mapInfo[id].service)
  }

  ghost predicate NetSound(s: Draft, net: NetAddr)
    requires net in s.mapAddr
  {
    s.mapAddr[net] in s.mapInfo && s.mapInfo[s.mapAddr[net]].service.net == net
  }

  /** All that holds for the first k ids, whatever the record. */
  ghost predicate Sound(h: Hasher, s: Draft, nNew: nat, k: nat)
  {
    && s.Shaped() && (forall id :: id in s.mapInfo <==> 0 <= id < k)
    && (forall id {:trigger EntrySound(h, s, nNew, id)} :: id in s.mapInfo ==> EntrySound(h, s, nNew, id))
    && (forall b: nat, p: nat {:trigger NewSlotSound(h, s, b, p)} :: InNewTable(b, p) ==> NewSlotSound(h, s, b, p))
    && (forall b: nat, p: nat {:trigger TriedSlotSound(h, s, b, p)} ::
          InTriedTable(b, p) ==> TriedSlotSound(h, s, b, p))
    && (forall net {:trigger NetSound(s, net)} :: net in s.mapAddr ==> NetSound(s, net))
  }

  /** No slot holds an id that is not there yet. */
  lemma NoRefsYet(h: Hasher, s: Draft, nNew: nat, k: nat, x: Service)
    requires Sound(h, s, nNew, k)
    ensures Refs(h, x, s.vvNew, k, ADDRMAN_NEW_BUCKET_COUNT) == 0
  {
    forall b | 0 <= b < ADDRMAN_NEW_BUCKET_COUNT ensures s.vvNew[b][NewPos(h, b, x)] != k {
      assert NewSlotSound(h, s, b, NewPos(h, b, x));
    }
    RefsZero(h, x, s.vvNew, k, ADDRMAN_NEW_BUCKET_COUNT);
  }

  lemma NewEntrySound(h: Hasher, s: Draft, x: StoredInfo, nNew: nat, k: nat, rebuild: bool, id: int)
    requires Sound(h, s, nNew, k) && k < nNew && 0 <= id <= k
    ensures var r := ReadNew(h, s, x, k, rebuild); id in r.mapInfo && EntrySound(h, r, nNew, id)
  {
    var b := NewBucket(h, x.service, x.source);
    var p := NewPos(h, b, x.service);
    if id < k {
      assert EntrySound(h, s, nNew, id);
      RefsPut(h, s.mapInfo[id].service, s.vvNew, id, ADDRMAN_NEW_BUCKET_COUNT, b, p, k);
    } else {
      NoRefsYet(h, s, nNew, k, x.service);
      RefsPut(h, x.service, s.vvNew, id, ADDRMAN_NEW_BUCKET_COUNT, b, p, k);
    }
  }

  lemma NewSound(h: Hasher, s: Draft, x: StoredInfo, nNew: nat, k: nat, rebuild: bool)
    requires Sound(h, s, nNew, k) && k < nNew
    ensures Sound(h, ReadNew(h, s, x, k, rebuild), nNew, k + 1)
  {
    var r := ReadNew(h, s, x, k, rebuild);
    forall id | id in r.mapInfo ensures EntrySound(h, r, nNew, id) { NewEntrySound(h, s, x, nNew, k, rebuild, id); }
    forall b: nat, p: nat | InNewTable(b, p) ensures NewSlotSound(h, r, b, p) { assert NewSlotSound(h, s, b, p); }
    forall b: nat, p: nat | InTriedTable(b, p) ensures TriedSlotSound(h, r, b, p) {
      assert TriedSlotSound(h, s, b, p);
    }
    forall net | net in r.mapAddr ensures NetSound(r, net) {
      if net != x.service.net { assert NetSound(s, net); }
    }
  }

  lemma {:induction false} NewsSound(h: Hasher, s: Draft, d: Saved, rebuild: bool, n: nat)
    requires IsEmptyDraft(s) && n <= |d.news|
    ensures Sound(h, ReadNews(h, s, d, rebuild, n), |d.news|, n)
  {
    if n > 0 {
      NewsSound(h, s, d, rebuild, n - 1);
      NewSound(h, ReadNews(h, s, d, rebuild, n - 1), d.news[n - 1], |d.news|, n - 1, rebuild);
    }
  }

  lemma TriedEntrySound(h: Hasher, s: Draft, x: StoredInfo, nNew: nat, id: int)
    requires s.nIdCount >= nNew && Sound(h, s, nNew, s.nIdCount) && 0 <= id <= s.nIdCount
    ensures var r := ReadTried(h, s, x); id in r.mapInfo ==> EntrySound(h, r, nNew, id)
  {
    if id < s.nIdCount {
      assert EntrySound(h, s, nNew, id);
    } else {
      NoRefsYet(h, s, nNew, id, x.service);
    }
  }

  lemma TriedSound(h: Hasher, s: Draft, x: StoredInfo, nNew: nat)
    requires s.nIdCount >= nNew && Sound(h, s, nNew, s.nIdCount)
    ensures var r := ReadTried(h, s, x); r.nIdCount >= nNew && Sound(h, r, nNew, r.nIdCount)
  {
    var r := ReadTried(h, s, x);
    forall id | id in r.mapInfo ensures EntrySound(h, r, nNew, id) { TriedEntrySound(h, s, x, nNew, id); }
    forall b: nat, p: nat | InNewTable(b, p) ensures NewSlotSound(h, r, b, p) { assert NewSlotSound(h, s, b, p); }
    forall b: nat, p: nat | InTriedTable(b, p) ensures TriedSlotSound(h, r, b, p) {
      assert TriedSlotSound(h, s, b, p);
    }
    forall net | net in r.mapAddr ensures NetSound(r, net) {
      assert net in s.mapAddr ==> NetSound(s, net);
    }
  }

  lemma {:induction false} TriedsSound(h: Hasher, s: Draft, d: Saved, n: nat)
    requires s.nIdCount == |d.news| && Sound(h, s, |d.news|, |d.news|) && n <= |d.trieds|
    ensures var r := ReadTrieds(h, s, d, n); r.nIdCount >= |d.news| && Sound(h, r, |d.news|, r.nIdCount)
  {
    if n > 0 {
      TriedsSound(h, s, d, n - 1);
      TriedSound(h, ReadTrieds(h, s, d, n - 1), d.trieds[n - 1], |d.news|);
    }
  }

  lemma ItemEntrySound(h: Hasher, s: Draft, useSlots: bool, bucket: nat, x: int, nNew: nat, k: nat, id: int)
    requires Sound(h, s, nNew, k) && id in s.mapInfo && bucket < ADDRMAN_NEW_BUCKET_COUNT
    requires IsUsed(h, s.mapInfo, s.vvNew, useSlots, bucket, x, nNew)
    ensures EntrySound(h, ReadItem(h, s, useSlots, bucket, x, nNew), nNew, id)
  {
    assert EntrySound(h, s, nNew, id);
    RefsPut(h, s.mapInfo[id].service, s.vvNew, id, ADDRMAN_NEW_BUCKET_COUNT, bucket,
            NewPos(h, bucket, s.mapInfo[x].service), x);
  }

  lemma ItemSound(h: Hasher, s: Draft, useSlots: bool, bucket: nat, x: int, nNew: nat, k: nat)
    requires Sound(h, s, nNew, k) && (useSlots ==> bucket < ADDRMAN_NEW_BUCKET_COUNT)
    ensures Sound(h, ReadItem(h, s, useSlots, bucket, x, nNew), nNew, k)
  {
    var r := ReadItem(h, s, useSlots, bucket, x, nNew);
    if IsUsed(h, s.mapInfo, s.vvNew, useSlots, bucket, x, nNew) {
      forall id | id in r.mapInfo ensures EntrySound(h, r, nNew, id) {
        ItemEntrySound(h, s, useSlots, bucket, x, nNew, k, id);
      }
      forall b: nat, p: nat | InNewTable(b, p) ensures NewSlotSound(h, r, b, p) { assert NewSlotSound(h, s, b, p); }
      forall b: nat, p: nat | InTriedTable(b, p) ensures TriedSlotSound(h, r, b, p) {
        assert TriedSlotSound(h, s, b, p);
      }
      forall net | net in r.mapAddr ensures NetSound(r, net) { assert NetSound(s, net); }
    }
  }

  lemma {:induction false} ItemsSound(h: Hasher, s: Draft, useSlots: bool, bucket: nat, items: seq<int>, nNew: nat,
                                      n: nat, k: nat)
    requires Sound(h, s, nNew, k) && (useSlots ==> bucket < ADDRMAN_NEW_BUCKET_COUNT) && n <= |items|
    ensures Sound(h, ReadItems(h, s, useSlots, bucket, items, nNew, n), nNew, k)
  {
    if n > 0 {
      ItemsSound(h, s, useSlots, bucket, items, nNew, n - 1, k);
      ItemSound(h, ReadItems(h, s, useSlots, bucket, items, nNew, n - 1), useSlots, bucket, items[n - 1], nNew, k);
    }
  }

  lemma {:induction false} BucketsSound(h: Hasher, s: Draft, d: Saved, useSlots: bool, n: nat, k: nat)
    requires Sound(h, s, |d.news|, k) && n <= |d.buckets|
    requires useSlots ==> |d.buckets| == ADDRMAN_NEW_BUCKET_COUNT
    ensures Sound(h, ReadBuckets(h, s, d, useSlots, n), |d.news|, k)
  {
    if n > 0 {
      BucketsSound(h, s, d, useSlots, n - 1, k);
      ItemsSound(h, ReadBuckets(h, s, d, useSlots, n - 1), useSlots, n - 1, d.buckets[n - 1], |d.news|,
                 |d.buckets[n - 1]|, k);
    }
  }

  /** Whatever the record holds, the counts and slots that were read agree. */
  lemma AllSound(h: Hasher, s: Draft, d: Saved)
    requires IsEmptyDraft(s) && d.nUBuckets >= 0 && |d.buckets| == UBuckets(d)
    ensures var r := ReadAll(h, s, d); r.nIdCount >= |d.news| && Sound(h, r, |d.news|, r.nIdCount)
  {
    var useSlots := UsesSlots(d);
    NewsSound(h, s, d, !useSlots, |d.news|);
    var news := ReadNews(h, s, d, !useSlots, |d.news|);
    var begun := news.(nIdCount := |d.news|);
    SoundRenamed(h, news, begun, |d.news|, |d.news|);
    TriedsSound(h, begun, d, |d.trieds|);
    var entries := ReadTrieds(h, begun, d, |d.trieds|);
    BucketsSound(h, entries, d, useSlots, |d.buckets|, entries.nIdCount);
  }

  lemma SoundRenamed(h: Hasher, s: Draft, r: Draft, nNew: nat, k: nat)
    requires Sound(h, s, nNew, k) && r == s.(nIdCount := r.nIdCount)
    ensures Sound(h, r, nNew, k)
  {
    forall id | id in r.mapInfo ensures EntrySound(h, r, nNew, id) { assert EntrySound(h, s, nNew, id); }
    forall b: nat, p: nat | InNewTable(b, p) ensures NewSlotSound(h, r, b, p) { assert NewSlotSound(h, s, b, p); }
    forall b: nat, p: nat | InTriedTable(b, p) ensures TriedSlotSound(h, r, b, p) {
      assert TriedSlotSound(h, s, b, p);
    }
    forall net | net in r.mapAddr ensures NetSound(r, net) { assert NetSound(s, net); }
  }

  /** Read one entry of the new table. */
  method LoadOneNew(a: AddrMan.AddrMan, x: StoredInfo, rebuild: bool, n: nat)
    requires a.Mirrors() && Numbered(a.mapInfo, a.vRandom, n)
    modifies a`mapInfo, a`mapAddr, a`vRandom, a`newGrid, a.vvNew
    ensures a.Mirrors() && Numbered(a.mapInfo, a.vRandom, n + 1)
    ensures D(a) == ReadNew(a.h, old(D(a)), x, n, rebuild)
  {
    var info := Loaded(x, |a.vRandom|, false);
    a.mapAddr := a.mapAddr[info.service.net := n];
    a.vRandom := a.vRandom + [n];
    if rebuild {
      var nUBucket := NewBucket(a.h, info.service, info.source);
      var nUBucketPos := NewPos(a.h, nUBucket, info.service);
      if a.vvNew[nUBucket, nUBucketPos] == -1 {
        a.SetNew(nUBucket, nUBucketPos, n);
        info := info.(nRefCount := info.nRefCount + 1);
      }
    }
    a.mapInfo := a.mapInfo[n := info];
  }

  /** Read the entries of the new table. */
  method LoadNew(a: AddrMan.AddrMan, d: Saved, rebuild: bool, ghost t: Tables, ghost good: bool)
    requires a.Mirrors() && a.mapInfo == map[] && a.mapAddr == map[] && a.vRandom == []
    requires good ==> Origin(a.h, t, d) && !rebuild
    modifies a`mapInfo, a`mapAddr, a`vRandom, a`newGrid, a.vvNew
    ensures a.Mirrors() && Numbered(a.mapInfo, a.vRandom, |d.news|)
    ensures good ==> a.newGrid == old(a.newGrid) && ReadSoFar(t, a.mapInfo, a.mapAddr, |d.news|)
    ensures D(a) == ReadNews(a.h, old(D(a)), d, rebuild, |d.news|)
  {
    if good { ConsistentIds(a.h, t); }
    for n := 0 to |d.news|
      invariant D(a) == ReadNews(a.h, old(D(a)), d, rebuild, n)
      invariant a.Mirrors() && Numbered(a.mapInfo, a.vRandom, n)
      invariant good ==> a.newGrid == old(a.newGrid) && ReadSoFar(t, a.mapInfo, a.mapAddr, n)
    {
      if good { ReadNext(a.h, t, d, a.mapInfo, a.mapAddr, n, Loaded(d.news[n], n, false)); }
      LoadOneNew(a, d.news[n], rebuild, n);
    }
  }

  /** The first k entries are loaded and have no references yet. */
  ghost predicate ReadSoFar(t: Tables, m: Infos, mapAddr: map<NetAddr, int>, k: nat)
  {
    EntriesLoaded(t, m, k) && AddrLoaded(m, mapAddr, k) && forall j :: j in m ==> m[j].nRefCount == 0
  }

  lemma ReadNext(h: Hasher, t: Tables, d: Saved, m: Infos, mapAddr: map<NetAddr, int>, k: nat, info: AddrInfo)
    requires Origin(h, t, d) && ReadSoFar(t, m, mapAddr, k) && k !in m && k < |d.news| + |d.trieds|
    requires info == Loaded((d.news + d.trieds)[k], info.nRandomPos, k >= |d.news|)
    ensures ReadSoFar(t, m[k := info], mapAddr[info.service.net := k], k + 1)
  {
    SavedAt(h, t, d, k);
    EntriesNext(h, t, m, mapAddr, k, info);
  }

  /** What holds once k entries have been read, the tried ones with their slots. */
  ghost predicate TriedSoFar(h: Hasher, t: Tables, d: Saved, m: Infos, mapAddr: map<NetAddr, int>, triedGrid: Grid,
                             k: nat)
  {
    && Origin(h, t, d) && ReadSoFar(t, m, mapAddr, k)
    && TriedFilled(t.mapInfo, t.vvTried, triedGrid, k)
  }

  /** The first n tried entries of a saved manager are read, and none is lost. */
  ghost predicate AllTriedRead(h: Hasher, t: Tables, d: Saved, s: Draft, n: nat)
  {
    s.nIdCount == |d.news| + n && TriedSoFar(h, t, d, s.mapInfo, s.mapAddr, s.vvTried, s.nIdCount)
  }

  lemma AllTriedNext(h: Hasher, t: Tables, d: Saved, s: Draft, n: nat)
    requires n < |d.trieds| && AllTriedRead(h, t, d, s, n) && s.nIdCount !in s.mapInfo && s.Shaped()
    ensures AllTriedRead(h, t, d, ReadTried(h, s, d.trieds[n]), n + 1)
  {
    var k, info := |d.news| + n, Loaded(d.trieds[n], s.nIdCount, true);
    assert (d.news + d.trieds)[k] == d.trieds[n];
    SavedAt(h, t, d, k);
    ReadNext(h, t, d, s.mapInfo, s.mapAddr, k, info);
    TriedNext(h, t, s.vvTried, k);
  }

  /** Read one entry of the tried table: it takes its slot and the next id, or is lost if the slot is taken. */
  method LoadOneTried(a: AddrMan.AddrMan, x: StoredInfo) returns (lost: bool)
    requires a.Mirrors() && a.nIdCount >= 0 && Numbered(a.mapInfo, a.vRandom, a.nIdCount)
    modifies a`mapInfo, a`mapAddr, a`vRandom, a`triedGrid, a`nIdCount, a.vvTried
    ensures a.Mirrors() && Numbered(a.mapInfo, a.vRandom, a.nIdCount)
    ensures D(a) == ReadTried(a.h, old(D(a)), x) && a.nIdCount == old(a.nIdCount) + (if lost then 0 else 1)
  {
    var info := Loaded(x, |a.vRandom|, true);
    var nKBucket := TriedBucket(a.h, info.service);
    var nKBucketPos := TriedPos(a.h, info.service);
    lost := a.vvTried[nKBucket, nKBucketPos] != -1;
    if !lost {
      a.vRandom := a.vRandom + [a.nIdCount];
      a.mapInfo := a.mapInfo[a.nIdCount := info];
      a.mapAddr := a.mapAddr[info.service.net := a.nIdCount];
      a.SetTried(nKBucket, nKBucketPos, a.nIdCount);
      a.nIdCount := a.nIdCount + 1;
    }
  }

  /** Read the entries of the tried table; an entry whose slot is taken is lost. */
  method LoadTried(a: AddrMan.AddrMan, d: Saved, ghost t: Tables, ghost good: bool) returns (nLost: nat)
    requires a.Mirrors() && Numbered(a.mapInfo, a.vRandom, |d.news|) && a.nIdCount == |d.news|
    requires good ==> AllTriedRead(a.h, t, d, D(a), 0)
    modifies a`mapInfo, a`mapAddr, a`vRandom, a`triedGrid, a`nIdCount, a.vvTried
    ensures a.Mirrors() && Numbered(a.mapInfo, a.vRandom, a.nIdCount)
    ensures nLost <= |d.trieds| && a.nIdCount == |d.news| + |d.trieds| - nLost
    ensures good ==> AllTriedRead(a.h, t, d, D(a), |d.trieds|)
    ensures D(a) == ReadTrieds(a.h, old(D(a)), d, |d.trieds|)
  {
    nLost := 0;
    for n := 0 to |d.trieds|
      invariant a.Mirrors() && Numbered(a.mapInfo, a.vRandom, a.nIdCount)
      invariant nLost <= n && a.nIdCount == |d.news| + n - nLost
      invariant D(a) == ReadTrieds(a.h, old(D(a)), d, n)
      invariant good ==> AllTriedRead(a.h, t, d, D(a), n)
    {
      if good { AllTriedNext(a.h, t, d, D(a), n); }
      var lost := LoadOneTried(a, d.trieds[n]);
      if lost { nLost := nLost + 1; }
    }
  }

  /** What holds while the slots of the new table are read. */
  ghost predicate SlotsSoFar(h: Hasher, t: Tables, d: Saved, m: Infos, newGrid: Grid, cb: nat, done: set<int>)
  {
    && Origin(h, t, d) && EntriesLoaded(t, m, |d.news| + |d.trieds|)
    && (forall j :: j in m ==> 0 <= j < |d.news| + |d.trieds|)
    && NewFilled(t.mapInfo, t.vvNew, newGrid, cb, done) && RefsOk(h, m, newGrid)
  }

  lemma SlotsStart(h: Hasher, t: Tables, d: Saved, m: Infos, mapAddr: map<NetAddr, int>, newGrid: Grid)
    requires Origin(h, t, d) && ReadSoFar(t, m, mapAddr, |d.news| + |d.trieds|)
    requires Blank(newGrid, ADDRMAN_NEW_BUCKET_COUNT)
    requires forall j :: j in m ==> 0 <= j < |d.news| + |d.trieds|
    ensures SlotsSoFar(h, t, d, m, newGrid, 0, {})
  {
    NewStart(t.mapInfo, t.vvNew, newGrid);
    forall j | j in m ensures RefAt(h, m, newGrid, j) {
      RefsZero(h, m[j].service, newGrid, j, ADDRMAN_NEW_BUCKET_COUNT);
    }
  }

  /** One more reference for x. */
  lemma RefsOkNext(h: Hasher, m: Infos, g: Grid, b: nat, x: int)
    requires RefsOk(h, m, g) && x in m && b < ADDRMAN_NEW_BUCKET_COUNT && g[b][NewPos(h, b, m[x].service)] == -1
    requires -1 !in m
    ensures RefsOk(h, m[x := m[x].(nRefCount := m[x].nRefCount + 1)], Put(g, b, NewPos(h, b, m[x].service), x))
  {
    var p := NewPos(h, b, m[x].service);
    var m', g' := m[x := m[x].(nRefCount := m[x].nRefCount + 1)], Put(g, b, p, x);
    forall j | j in m' ensures RefAt(h, m', g', j) {
      assert RefAt(h, m, g, j);
      RefsPut(h, m[j].service, g, j, ADDRMAN_NEW_BUCKET_COUNT, b, p, x);
    }
  }

  /**
    Reading the next item of a bucket: its slot is free exactly when it is the first time, and then the count
    allows it.
   */
  lemma SlotsNext(h: Hasher, t: Tables, d: Saved, m: Infos, g: Grid, cb: nat, done: set<int>, x: int)
    requires cb < ADDRMAN_NEW_BUCKET_COUNT && SlotsSoFar(h, t, d, m, g, cb, done) && x in d.buckets[cb]
    ensures 0 <= x < |d.news| && x in m
    ensures var p := NewPos(h, cb, m[x].service);
      && (g[cb][p] == -1 <==> x !in done)
      && (x !in done ==>
            && m[x].nRefCount < ADDRMAN_NEW_BUCKETS_PER_ADDRESS
            && SlotsSoFar(h, t, d, m[x := m[x].(nRefCount := m[x].nRefCount + 1)], Put(g, cb, p, x), cb, done + {x}))
  {
    OriginIds(h, t, d);
    assert BucketSaved(t, cb, d.buckets[cb]);
    var p, id := ItemAt(h, t, cb, d.buckets[cb], x);
    assert EntryLoaded(t, m, x);
    NewNext(h, t, g, cb, done, p, id, x);
    if x !in done {
      var m', g' := m[x := m[x].(nRefCount := m[x].nRefCount + 1)], Put(g, cb, p, x);
      RefsOkNext(h, m, g, cb, x);
      RefsLoaded(h, t, g', cb, done + {x}, id);
      assert RefAt(h, m', g', x) && IdOk(h, t, {}, id);
      forall j: nat | j < |d.news| + |d.trieds| ensures EntryLoaded(t, m', j) {
        assert EntryLoaded(t, m, j);
      }
    }
  }

  /** An item of a bucket is used: it is a new entry, its slot is free, and it has fewer than eight references. */
  predicate IsUsed(h: Hasher, m: Infos, g: Grid, useSlots: bool, bucket: nat, nIndex: int, nNew: nat)
    requires useSlots ==> bucket < ADDRMAN_NEW_BUCKET_COUNT && Dim(g, ADDRMAN_NEW_BUCKET_COUNT)
  {
    && useSlots && 0 <= nIndex < nNew && nIndex in m
    && g[bucket][NewPos(h, bucket, m[nIndex].service)] == -1
    && m[nIndex].nRefCount < ADDRMAN_NEW_BUCKETS_PER_ADDRESS
  }

  lemma ItemRead(h: Hasher, t: Tables, d: Saved, s: Draft, cb: nat, done: set<int>, x: int)
    requires cb < ADDRMAN_NEW_BUCKET_COUNT && SlotsSoFar(h, t, d, s.mapInfo, s.vvNew, cb, done) && x in d.buckets[cb]
    requires s.Shaped()
    ensures var r := ReadItem(h, s, true, cb, x, |d.news|);
      SlotsSoFar(h, t, d, r.mapInfo, r.vvNew, cb, done + {x})
  {
    SlotsNext(h, t, d, s.mapInfo, s.vvNew, cb, done, x);
    assert x in done ==> done + {x} == done;
  }

  /** Read the next item of a bucket. */
  method LoadItem(a: AddrMan.AddrMan, useSlots: bool, bucket: nat, nIndex: int, nNew: nat)
    requires a.Mirrors() && Numbered(a.mapInfo, a.vRandom, a.nIdCount) && nNew <= a.nIdCount
    requires useSlots ==> bucket < ADDRMAN_NEW_BUCKET_COUNT
    modifies a`mapInfo, a`newGrid, a.vvNew
    ensures a.Mirrors() && Numbered(a.mapInfo, a.vRandom, a.nIdCount)
    ensures SameNets(old(a.mapInfo), a.mapInfo)
    ensures D(a) == ReadItem(a.h, old(D(a)), useSlots, bucket, nIndex, nNew)
  {
    if 0 <= nIndex < nNew {
      var info := a.mapInfo[nIndex];
      var nUBucketPos := NewPos(a.h, bucket, info.service);
      if useSlots && a.vvNew[bucket, nUBucketPos] == -1 && info.nRefCount < ADDRMAN_NEW_BUCKETS_PER_ADDRESS {
        a.mapInfo := a.mapInfo[nIndex := info.(nRefCount := info.nRefCount + 1)];
        a.SetNew(bucket, nUBucketPos, nIndex);
      }
    }
  }

  ghost predicate SameNets(m: Infos, m': Infos)
  {
    m.Keys == m'.Keys && forall j :: j in m ==> m'[j].service == m[j].service
  }

  lemma AddrLoadedSame(m: Infos, m': Infos, mapAddr: map<NetAddr, int>, k: nat)
    requires SameNets(m, m') && AddrLoaded(m, mapAddr, k) && forall j :: 0 <= j < k ==> j in m
    ensures AddrLoaded(m', mapAddr, k)
  {
    forall j | 0 <= j < k ensures j in m' && NetLoaded(m', mapAddr, j) { assert NetLoaded(m, mapAddr, j); }
  }

  method LoadBucket(a: AddrMan.AddrMan, d: Saved, useSlots: bool, bucket: nat, ghost t: Tables, ghost good: bool)
    requires a.Mirrors() && Numbered(a.mapInfo, a.vRandom, a.nIdCount) && |d.news| <= a.nIdCount
    requires bucket < |d.buckets| && (useSlots ==> bucket < ADDRMAN_NEW_BUCKET_COUNT)
    requires good ==> useSlots && SlotsSoFar(a.h, t, d, a.mapInfo, a.newGrid, bucket, {})
    modifies a`mapInfo, a`newGrid, a.vvNew
    ensures a.Mirrors() && Numbered(a.mapInfo, a.vRandom, a.nIdCount) && SameNets(old(a.mapInfo), a.mapInfo)
    ensures good ==> SlotsSoFar(a.h, t, d, a.mapInfo, a.newGrid, bucket + 1, {})
    ensures D(a) == ReadItems(a.h, old(D(a)), useSlots, bucket, d.buckets[bucket], |d.news|, |d.buckets[bucket]|)
  {
    var items := d.buckets[bucket];
    ghost var done: set<int> := {};
    for n := 0 to |items|
      invariant D(a) == ReadItems(a.h, old(D(a)), useSlots, bucket, items, |d.news|, n)
      invariant a.Mirrors() && Numbered(a.mapInfo, a.vRandom, a.nIdCount) && SameNets(old(a.mapInfo), a.mapInfo)
      invariant done == set x | x in items[..n]
      invariant good ==> SlotsSoFar(a.h, t, d, a.mapInfo, a.newGrid, bucket, done)
    {
      if good { ItemRead(a.h, t, d, D(a), bucket, done, items[n]); }
      LoadItem(a, useSlots, bucket, items[n], |d.news|);
      assert items[..n + 1] == items[..n] + [items[n]];
      done := done + {items[n]};
    }
    if good {
      assert items[..|items|] == items;
      OriginIds(a.h, t, d);
      assert BucketSaved(t, bucket, d.buckets[bucket]);
      NewBucketDone(t, a.newGrid, bucket, items);
    }
  }

  /** Read the positions in the new table; they are used only if the bucket count is the same. */
  method LoadBuckets(a: AddrMan.AddrMan, d: Saved, useSlots: bool, ghost t: Tables, ghost good: bool)
    requires a.Mirrors() && Numbered(a.mapInfo, a.vRandom, a.nIdCount) && |d.news| <= a.nIdCount
    requires useSlots ==> |d.buckets| == ADDRMAN_NEW_BUCKET_COUNT
    requires good ==> useSlots && SlotsSoFar(a.h, t, d, a.mapInfo, a.newGrid, 0, {})
    modifies a`mapInfo, a`newGrid, a.vvNew
    ensures a.Mirrors() && Numbered(a.mapInfo, a.vRandom, a.nIdCount) && SameNets(old(a.mapInfo), a.mapInfo)
    ensures good ==> SlotsSoFar(a.h, t, d, a.mapInfo, a.newGrid, ADDRMAN_NEW_BUCKET_COUNT, {})
    ensures D(a) == ReadBuckets(a.h, old(D(a)), d, useSlots, |d.buckets|)
  {
    for bucket := 0 to |d.buckets|
      invariant D(a) == ReadBuckets(a.h, old(D(a)), d, useSlots, bucket)
      invariant a.Mirrors() && Numbered(a.mapInfo, a.vRandom, a.nIdCount) && SameNets(old(a.mapInfo), a.mapInfo)
      invariant good ==> SlotsSoFar(a.h, t, d, a.mapInfo, a.newGrid, bucket, {})
    {
      LoadBucket(a, d, useSlots, bucket, t, good);
    }
  }

  // ----- Pruning -----

  /** vRandom and mapInfo list each other. */
  ghost predicate Listed(m: Infos, vRandom: seq<int>)
  {
    && (forall id :: id in m ==> 0 <= m[id].nRandomPos < |vRandom| && vRandom[m[id].nRandomPos] == id)
    && (forall i :: 0 <= i < |vRandom| ==> vRandom[i] in m && m[vRandom[i]].nRandomPos == i)
  }

  ghost predicate IsLost(info: AddrInfo) { !info.fInTried && info.nRefCount == 0 }

  /** Remove an entry that found no slot. */
  method Prune(a: AddrMan.AddrMan, id: int)
    requires id in a.mapInfo && Listed(a.mapInfo, a.vRandom) && IsLost(a.mapInfo[id])
    modifies a`mapInfo, a`mapAddr, a`vRandom, a`nNew
    ensures Listed(a.mapInfo, a.vRandom) && a.mapInfo.Keys == old(a.mapInfo.Keys) - {id}
    ensures forall x :: x in a.mapInfo ==> SameInfo(old(a.mapInfo)[x], a.mapInfo[x])
    ensures a.mapAddr == old(a.mapAddr) - {old(a.mapInfo)[id].service.net} && a.nNew == old(a.nNew) - 1
  {
    var last := |a.vRandom| - 1;
    var pos, other := a.mapInfo[id].nRandomPos, a.vRandom[last];
    a.mapInfo := a.mapInfo[other := a.mapInfo[other].(nRandomPos := pos)];
    a.vRandom := a.vRandom[pos := other];
    a.vRandom := a.vRandom[..last];
    a.mapAddr := a.mapAddr - {a.mapInfo[id].service.net};
    a.mapInfo := a.mapInfo - {id};
    a.nNew := a.nNew - 1;
  }

  /** An entry below n that found no slot has this address. */
  ghost predicate LostNet(m: Infos, n: int, net: NetAddr)
  {
    exists id :: id in m && id < n && IsLost(m[id]) && m[id].service.net == net
  }

  /** The entries below n that found no slot are gone, and no others; what is left is as it was. */
  ghost predicate IsPruned(m: Infos, m': Infos, n: int)
  {
    && (forall id :: id in m' <==> id in m && !(id < n && IsLost(m[id])))
    && (forall id :: id in m' ==> SameInfo(m[id], m'[id]))
  }

  /** ... and so are the links from their addresses. */
  ghost predicate NetsPruned(m: Infos, addr: map<NetAddr, int>, addr': map<NetAddr, int>, n: int)
  {
    && (forall net :: net in addr' <==> net in addr && !LostNet(m, n, net))
    && (forall net :: net in addr' ==> addr'[net] == addr[net])
  }

  lemma NetsPrunedNext(m: Infos, addr: map<NetAddr, int>, addr': map<NetAddr, int>, n: int, gone: bool)
    requires NetsPruned(m, addr, addr', n) && (gone <==> n in m && IsLost(m[n]))
    ensures NetsPruned(m, addr, if gone then addr' - {m[n].service.net} else addr', n + 1)
  {
    forall net ensures LostNet(m, n + 1, net) <==> LostNet(m, n, net) || (gone && m[n].service.net == net) {
      if LostNet(m, n + 1, net) {
        var id :| id in m && id < n + 1 && IsLost(m[id]) && m[id].service.net == net;
        assert id < n || id == n;
      }
    }
  }

  lemma UntriedPruned(m: Infos, m': Infos, id: int)
    requires id in m && IsLost(m[id]) && m'.Keys == m.Keys - {id} && forall x :: x in m' ==> SameInfo(m[x], m'[x])
    ensures |Untried(m')| == |Untried(m)| - 1
  {
    forall x ensures x in Untried(m') <==> x in Untried(m) - {id} {
      if x in m' { assert SameInfo(m[x], m'[x]); }
    }
    assert Untried(m') == Untried(m) - {id};
  }

  /** Remove all entries that found no slot, and no others. */
  method PruneAll(a: AddrMan.AddrMan, ghost good: bool)
    requires a.nIdCount >= 0 && Listed(a.mapInfo, a.vRandom) && forall id :: id in a.mapInfo ==> 0 <= id < a.nIdCount
    requires good ==> forall id :: id in a.mapInfo ==> !IsLost(a.mapInfo[id])
    modifies a`mapInfo, a`mapAddr, a`vRandom, a`nNew
    ensures Listed(a.mapInfo, a.vRandom) && IsPruned(old(a.mapInfo), a.mapInfo, a.nIdCount)
    ensures NetsPruned(old(a.mapInfo), old(a.mapAddr), a.mapAddr, a.nIdCount)
    ensures a.nNew - |Untried(a.mapInfo)| == old(a.nNew - |Untried(a.mapInfo)|)
    ensures good ==> unchanged(a)
  {
    assert forall net :: !LostNet(a.mapInfo, 0, net);
    for id := 0 to a.nIdCount
      invariant Listed(a.mapInfo, a.vRandom) && IsPruned(old(a.mapInfo), a.mapInfo, id)
      invariant NetsPruned(old(a.mapInfo), old(a.mapAddr), a.mapAddr, id)
      invariant a.nNew - |Untried(a.mapInfo)| == old(a.nNew - |Untried(a.mapInfo)|)
      invariant good ==> unchanged(a)
    {
      PruneNext(a, id, old(a.mapInfo), old(a.mapAddr));
    }
  }

  method PruneNext(a: AddrMan.AddrMan, id: int, ghost m: Infos, ghost addr: map<NetAddr, int>)
    requires Listed(a.mapInfo, a.vRandom) && IsPruned(m, a.mapInfo, id) && NetsPruned(m, addr, a.mapAddr, id)
    modifies a`mapInfo, a`mapAddr, a`vRandom, a`nNew
    ensures Listed(a.mapInfo, a.vRandom) && IsPruned(m, a.mapInfo, id + 1) && NetsPruned(m, addr, a.mapAddr, id + 1)
    ensures a.nNew - |Untried(a.mapInfo)| == old(a.nNew - |Untried(a.mapInfo)|)
    ensures !(id in m && IsLost(m[id])) ==> unchanged(a)
  {
    ghost var gone := id in m && IsLost(m[id]);
    NetsPrunedNext(m, addr, a.mapAddr, id, gone);
    if id in a.mapInfo && !a.mapInfo[id].fInTried && a.mapInfo[id].nRefCount == 0 {
      Prune(a, id);
      UntriedPruned(old(a.mapInfo), a.mapInfo, id);
    }
  }

  lemma EmptyBlank(h: Hasher, t: Tables)
    requires Consistent(h, t, {}, {}) && t.mapInfo == map[]
    ensures Blank(t.vvNew, ADDRMAN_NEW_BUCKET_COUNT) && Blank(t.vvTried, ADDRMAN_TRIED_BUCKET_COUNT)
    ensures t.mapAddr == map[] && t.vRandom == []
  {
    forall b, p | 0 <= b < ADDRMAN_NEW_BUCKET_COUNT && 0 <= p < ADDRMAN_BUCKET_SIZE ensures t.vvNew[b][p] == -1 {
      assert NewSlotOk(h, t, b, p);
    }
    forall b, p | 0 <= b < ADDRMAN_TRIED_BUCKET_COUNT && 0 <= p < ADDRMAN_BUCKET_SIZE ensures t.vvTried[b][p] == -1 {
      assert TriedSlotOk(h, t, b, p);
    }
    forall n ensures n !in t.mapAddr { assert n in t.mapAddr ==> NetOk(t, n); }
    RandomSize(h, t, {}, {});
  }

  /** The number of buckets the data announces. */
  function UBuckets(d: Saved): nat
    requires d.nUBuckets >= 0
  {
    if d.nVersion != 0 then Flip30(d.nUBuckets) else d.nUBuckets
  }

  /** Where the source throws while loading. */
  predicate Refused(d: Saved)
  {
    || d.nKeySize != 32
    || |d.news| > ADDRMAN_NEW_BUCKET_COUNT * ADDRMAN_BUCKET_SIZE
    || |d.trieds| > ADDRMAN_TRIED_BUCKET_COUNT * ADDRMAN_BUCKET_SIZE
  }

  lemma NothingLost(h: Hasher, t: Tables, t': Tables)
    requires AllRead(h, t, t')
    ensures forall id :: id in t'.mapInfo ==> !IsLost(t'.mapInfo[id])
  {
    forall id | id in t'.mapInfo ensures !IsLost(t'.mapInfo[id]) { LoadedId(h, t, t', id); }
  }

  /** Read all entries into an empty manager. */
  method LoadEntries(a: AddrMan.AddrMan, d: Saved, useSlots: bool, ghost t: Tables, ghost good: bool)
    requires a.Mirrors() && Consistent(a.h, a.T(), {}, {}) && a.mapInfo == map[]
    requires good ==> Origin(a.h, t, d) && useSlots
    modifies a`mapInfo, a`mapAddr, a`vRandom, a`newGrid, a`triedGrid, a`nIdCount, a`nNew, a`nTried, a.vvNew, a.vvTried
    ensures a.Mirrors() && |d.news| <= a.nIdCount && Numbered(a.mapInfo, a.vRandom, a.nIdCount)
    ensures a.nNew == |d.news| && a.nTried == a.nIdCount - |d.news|
    ensures good ==> AllTriedRead(a.h, t, d, D(a), |d.trieds|) && SlotsSoFar(a.h, t, d, a.mapInfo, a.newGrid, 0, {})
    ensures D(a) == ReadEntries(a.h, old(D(a)), d, useSlots)
  {
    EmptyBlank(a.h, a.T());
    ghost var blank := a.newGrid;
    a.nNew, a.nTried := |d.news|, |d.trieds|;
    LoadNew(a, d, !useSlots, t, good);
    a.nIdCount := a.nNew;
    if good { TriedBegins(a.h, t, d, a.mapInfo, a.mapAddr, a.triedGrid); }
    var nLost := LoadTried(a, d, t, good);
    a.nTried := a.nTried - nLost;
    if good { SlotsStart(a.h, t, d, a.mapInfo, a.mapAddr, blank); }
  }

  lemma TriedBegins(h: Hasher, t: Tables, d: Saved, m: Infos, mapAddr: map<NetAddr, int>, triedGrid: Grid)
    requires Origin(h, t, d) && ReadSoFar(t, m, mapAddr, |d.news|) && Blank(triedGrid, ADDRMAN_TRIED_BUCKET_COUNT)
    ensures TriedSoFar(h, t, d, m, mapAddr, triedGrid, |d.news|)
  {
    OriginIds(h, t, d);
    TriedStart(h, t, triedGrid);
  }

  /** What has been read from a saved manager; m are the entries before the slots of the new table. */
  ghost predicate PartsRead(h: Hasher, t: Tables, d: Saved, m: Infos, s: Draft)
  {
    && s.nIdCount == |d.news| + |d.trieds| && SameNets(m, s.mapInfo)
    && TriedSoFar(h, t, d, m, s.mapAddr, s.vvTried, s.nIdCount)
    && SlotsSoFar(h, t, d, s.mapInfo, s.vvNew, ADDRMAN_NEW_BUCKET_COUNT, {})
  }

  /** Read all parts into an empty manager. */
  method LoadAll(a: AddrMan.AddrMan, d: Saved, ghost t: Tables, ghost good: bool) returns (ghost m: Infos)
    requires a.Mirrors() && Consistent(a.h, a.T(), {}, {}) && a.mapInfo == map[]
    requires d.nUBuckets >= 0 && |d.buckets| == UBuckets(d)
    requires good ==> Origin(a.h, t, d)
    modifies a`mapInfo, a`mapAddr, a`vRandom, a`newGrid, a`triedGrid, a`nIdCount, a`nNew, a`nTried, a.vvNew, a.vvTried
    ensures a.Mirrors() && a.nIdCount >= 0 && Numbered(a.mapInfo, a.vRandom, a.nIdCount)
    ensures good ==> PartsRead(a.h, t, d, m, D(a))
    ensures D(a) == ReadAll(a.h, old(D(a)), d) && a.nNew == |d.news| && a.nTried == a.nIdCount - |d.news|
  {
    var useSlots := d.nVersion == 1 && UBuckets(d) == ADDRMAN_NEW_BUCKET_COUNT;
    LoadEntries(a, d, useSlots, t, good);
    m := a.mapInfo;
    LoadBuckets(a, d, useSlots, t, good);
  }

  lemma ReadsAll(h: Hasher, t: Tables, d: Saved, m: Infos, s: Draft, t': Tables)
    requires PartsRead(h, t, d, m, s) && Shape(t') && Numbered(t'.mapInfo, t'.vRandom, t'.nIdCount)
    requires t'.mapInfo == s.mapInfo && t'.mapAddr == s.mapAddr && t'.vvNew == s.vvNew && t'.vvTried == s.vvTried
    requires t'.nIdCount == s.nIdCount && t'.nNew == |d.news| && t'.nTried == |d.trieds|
    ensures AllRead(h, t, t')
  {
    OriginIds(h, t, d);
    AddrLoadedSame(m, t'.mapInfo, t'.mapAddr, |d.news| + |d.trieds|);
  }

  /** Everything is read into a new manager, and nothing removed yet. */
  method LoadNewManager(d: Saved, ghost t: Tables, ghost good: bool) returns (a: AddrMan.AddrMan, ghost s: Draft)
    requires d.nUBuckets >= 0 && |d.buckets| == UBuckets(d)
    requires good ==> Origin(d.nKey, t, d)
    ensures fresh(a) && fresh(a.vvNew) && fresh(a.vvTried) && a.h == d.nKey && a.Mirrors() && a.nIdCount >= 0
    ensures a.triedCollisions == {} && Numbered(a.mapInfo, a.vRandom, a.nIdCount)
    ensures good ==> AllRead(d.nKey, t, a.T())
    ensures IsEmptyDraft(s) && D(a) == ReadAll(d.nKey, s, d) && a.nNew == |d.news| && a.nTried == a.nIdCount - |d.news|
  {
    a := new AddrMan.AddrMan(d.nKey);
    EmptyBlank(a.h, a.T());
    s := D(a);
    ghost var m := LoadAll(a, d, t, good);
    if good { ReadsAll(a.h, t, d, m, D(a), a.T()); }
  }

  /** What was read from a consistent manager has lost nothing. */
  method LoadUnpruned(d: Saved, ghost t: Tables, ghost good: bool) returns (a: AddrMan.AddrMan, ghost s: Draft)
    requires d.nUBuckets >= 0 && |d.buckets| == UBuckets(d)
    requires good ==> Origin(d.nKey, t, d)
    ensures fresh(a) && fresh(a.vvNew) && fresh(a.vvTried) && a.h == d.nKey && a.Mirrors() && a.nIdCount >= 0
    ensures a.triedCollisions == {} && Listed(a.mapInfo, a.vRandom)
    ensures forall id :: id in a.mapInfo ==> 0 <= id < a.nIdCount
    ensures IsEmptyDraft(s) && D(a) == ReadAll(d.nKey, s, d) && a.nNew == |d.news| && a.nTried == a.nIdCount - |d.news|
    ensures good ==> a.Valid() && Reloaded(t, a.T()) && forall id :: id in a.mapInfo ==> !IsLost(a.mapInfo[id])
  {
    a, s := LoadNewManager(d, t, good);
    if good {
      RoundTrip(d.nKey, t, a.T());
      NothingLost(d.nKey, t, a.T());
    }
  }

  // ----- When the manager a record makes is valid -----

  /** Entries that share an address have both found no place. */
  ghost predicate IsClean(m: Infos)
  {
    forall i, j :: i in m && j in m && i != j && m[i].service.net == m[j].service.net ==> IsLost(m[i]) && IsLost(m[j])
  }

  /** The tables made from what was read. */
  ghost predicate TablesMade(s: Draft, t: Tables)
  {
    && s.Shaped() && Shape(t) && t.vvNew == s.vvNew && t.vvTried == s.vvTried && t.nIdCount == s.nIdCount
    && IsPruned(s.mapInfo, t.mapInfo, s.nIdCount) && NetsPruned(s.mapInfo, s.mapAddr, t.mapAddr, s.nIdCount)
    && Listed(t.mapInfo, t.vRandom) && CountsOk(t, {})
  }

  lemma MadeSlot(h: Hasher, s: Draft, nNew: nat, t: Tables, b: nat, p: nat)
    requires s.nIdCount >= 0 && Sound(h, s, nNew, s.nIdCount) && TablesMade(s, t) && InNewTable(b, p)
    ensures NewSlotOk(h, t, b, p)
  {
    var id := s.vvNew[b][p];
    assert NewSlotSound(h, s, b, p);
    if id != -1 {
      assert EntrySound(h, s, nNew, id);
      RefsZero(h, s.mapInfo[id].service, s.vvNew, id, ADDRMAN_NEW_BUCKET_COUNT);
      assert !IsLost(s.mapInfo[id]);
    }
  }

  lemma MadeLinks(h: Hasher, s: Draft, nNew: nat, t: Tables)
    requires s.nIdCount >= 0 && Sound(h, s, nNew, s.nIdCount) && TablesMade(s, t)
    ensures LinksOk(t) && SlotsOk(h, t)
  {
    forall net | net in t.mapAddr ensures NetOk(t, net) {
      assert NetSound(s, net);
      var id := s.mapAddr[net];
      assert IsLost(s.mapInfo[id]) ==> LostNet(s.mapInfo, s.nIdCount, net);
    }
    forall b: nat, p: nat | b < ADDRMAN_NEW_BUCKET_COUNT && p < ADDRMAN_BUCKET_SIZE ensures NewSlotOk(h, t, b, p) {
      MadeSlot(h, s, nNew, t, b, p);
    }
    forall b: nat, p: nat | b < ADDRMAN_TRIED_BUCKET_COUNT && p < ADDRMAN_BUCKET_SIZE ensures TriedSlotOk(h, t, b, p) {
      assert TriedSlotSound(h, s, b, p);
    }
  }

  lemma MadeId(h: Hasher, s: Draft, nNew: nat, t: Tables, id: int)
    requires s.nIdCount >= 0 && Sound(h, s, nNew, s.nIdCount) && TablesMade(s, t) && id in t.mapInfo
    requires IsClean(s.mapInfo)
    ensures IdOk(h, t, {}, id)
  {
    var net := s.mapInfo[id].service.net;
    assert EntrySound(h, s, nNew, id) && NetSound(s, net);
    assert s.mapAddr[net] == id;
    assert !LostNet(s.mapInfo, s.nIdCount, net);
  }

  /** The tables agree exactly when entries with one address are either alone or all without a place. */
  lemma MadeConsistent(h: Hasher, s: Draft, nNew: nat, t: Tables)
    requires s.nIdCount >= 0 && Sound(h, s, nNew, s.nIdCount) && TablesMade(s, t)
    ensures Consistent(h, t, {}, {}) <==> IsClean(s.mapInfo)
  {
    if IsClean(s.mapInfo) {
      MadeLinks(h, s, nNew, t);
      forall id | id in t.mapInfo ensures IdOk(h, t, {}, id) { MadeId(h, s, nNew, t, id); }
    } else {
      var i, j :| i in s.mapInfo && j in s.mapInfo && i != j && s.mapInfo[i].service.net == s.mapInfo[j].service.net
        && !IsLost(s.mapInfo[i]);
      var net := s.mapInfo[i].service.net;
      assert IsLost(s.mapInfo[j]) ==> LostNet(s.mapInfo, s.nIdCount, net);
      assert Consistent(h, t, {}, {}) ==> IdOk(h, t, {}, i) && (j in t.mapInfo ==> IdOk(h, t, {}, j));
    }
  }

  // ----- Which entries come back -----

  lemma {:induction false} BucketsKeepOthers(h: Hasher, s: Draft, d: Saved, useSlots: bool, n: nat, id: int)
    requires s.Shaped() && n <= |d.buckets| && (useSlots ==> |d.buckets| == ADDRMAN_NEW_BUCKET_COUNT)
    requires id in s.mapInfo && (useSlots ==> id >= |d.news|)
    ensures var r := ReadBuckets(h, s, d, useSlots, n);
      id in r.mapInfo && r.mapInfo[id] == s.mapInfo[id] && (!useSlots ==> r == s)
  {
    if n > 0 {
      BucketsKeepOthers(h, s, d, useSlots, n - 1, id);
      ItemsKeepOthers(h, ReadBuckets(h, s, d, useSlots, n - 1), useSlots, n - 1, d.buckets[n - 1], |d.news|,
                      |d.buckets[n - 1]|, id);
    }
  }

  lemma {:induction false} ItemsKeepOthers(h: Hasher, s: Draft, useSlots: bool, bucket: nat, items: seq<int>,
                                           nNew: nat, n: nat, id: int)
    requires s.Shaped() && (useSlots ==> bucket < ADDRMAN_NEW_BUCKET_COUNT) && n <= |items|
    requires id in s.mapInfo && (useSlots ==> id >= nNew)
    ensures var r := ReadItems(h, s, useSlots, bucket, items, nNew, n);
      id in r.mapInfo && r.mapInfo[id] == s.mapInfo[id] && (!useSlots ==> r == s)
  {
    if n > 0 { ItemsKeepOthers(h, s, useSlots, bucket, items, nNew, n - 1, id); }
  }

  /** The first tried entry for a slot comes back there, whatever the record. */
  lemma TriedComesBack(h: Hasher, s: Draft, d: Saved, t: Tables, k: nat, b: int, p: int)
    requires IsEmptyDraft(s) && d.nUBuckets >= 0 && |d.buckets| == UBuckets(d) && TablesMade(ReadAll(h, s, d), t)
    requires InTriedTable(b, p) && IsFirstTried(h, d.trieds, k, b, p)
    ensures var id := t.vvTried[b][p];
      id in t.mapInfo && SameInfo(Loaded(d.trieds[k], id, true), t.mapInfo[id])
  {
    var useSlots := UsesSlots(d);
    var begun := ReadNews(h, s, d, !useSlots, |d.news|).(nIdCount := |d.news|);
    TriedsRead(h, begun, d, |d.trieds|, b, p);
    var entries := ReadTrieds(h, begun, d, |d.trieds|);
    BucketsKeepOthers(h, entries, d, useSlots, |d.buckets|, entries.vvTried[b][p]);
  }

  /**
    If the positions cannot be used, a new entry comes back exactly when it is the first for the slot of its source,
    and then it is there.
   */
  lemma NewComesBack(h: Hasher, s: Draft, d: Saved, t: Tables, k: nat, b: int, p: int)
    requires IsEmptyDraft(s) && d.nUBuckets >= 0 && |d.buckets| == UBuckets(d) && TablesMade(ReadAll(h, s, d), t)
    requires !UsesSlots(d) && k < |d.news| && LivesAt(h, d.news[k], b, p)
    ensures k in t.mapInfo <==> IsFirstNew(h, d.news, k, b, p)
    ensures k in t.mapInfo ==>
      t.vvNew[b][p] == k && SameInfo(Loaded(d.news[k], k, false).(nRefCount := 1), t.mapInfo[k])
  {
    RebuiltSlot(h, s, d, |d.news|, b, p);
    RebuiltEntry(h, s, d, |d.news|, k, b, p);
    var begun := ReadNews(h, s, d, true, |d.news|).(nIdCount := |d.news|);
    NewsStay(h, begun, d, |d.trieds|, k);
    BucketsKeepOthers(h, ReadTrieds(h, begun, d, |d.trieds|), d, false, |d.buckets|, k);
    AllSound(h, s, d);
  }

  /** If the positions cannot be used, two new entries with one address make the tables disagree. */
  lemma RepeatSpoils(h: Hasher, s: Draft, d: Saved, k: nat)
    requires IsEmptyDraft(s) && d.nUBuckets >= 0 && |d.buckets| == UBuckets(d)
    requires !UsesSlots(d) && 0 < k < |d.news| && d.news[k].service.net == d.news[0].service.net
    ensures !IsClean(ReadAll(h, s, d).mapInfo)
  {
    var begun := ReadNews(h, s, d, true, |d.news|).(nIdCount := |d.news|);
    forall i | i == 0 || i == k
      ensures var m := ReadAll(h, s, d).mapInfo;
        i in m && m[i].service == d.news[i].service && (i == 0 ==> !IsLost(m[i]))
    {
      var x := d.news[i];
      var b := NewBucket(h, x.service, x.source);
      RebuiltEntry(h, s, d, |d.news|, i, b, NewPos(h, b, x.service));
      NewsStay(h, begun, d, |d.trieds|, i);
      BucketsKeepOthers(h, ReadTrieds(h, begun, d, |d.trieds|), d, false, |d.buckets|, i);
    }
  }

  // ----- Records in which no address repeats -----

  ghost predicate NoAddressRepeats(xs: seq<StoredInfo>)
  {
    forall i, j :: 0 <= i < j < |xs| ==> xs[i].service.net != xs[j].service.net
  }

  ghost predicate IsNetOf(xs: seq<StoredInfo>, n: nat, net: NetAddr)
    requires n <= |xs|
  {
    exists k :: 0 <= k < n && xs[k].service.net == net
  }

  /** The entries come from the first n, and no two share an address. */
  ghost predicate ReadOnce(m: Infos, xs: seq<StoredInfo>, n: nat)
    requires n <= |xs|
  {
    && (forall id :: id in m ==> IsNetOf(xs, n, m[id].service.net))
    && (forall i, j :: i in m && j in m && i != j ==> m[i].service.net != m[j].service.net)
  }

  lemma ReadOnceNext(m: Infos, xs: seq<StoredInfo>, n: nat, id: int, info: AddrInfo)
    requires n < |xs| && NoAddressRepeats(xs) && ReadOnce(m, xs, n) && id !in m && info.service == xs[n].service
    ensures ReadOnce(m[id := info], xs, n + 1) && ReadOnce(m, xs, n + 1)
  {
    forall i | i in m ensures m[i].service.net != info.service.net && IsNetOf(xs, n + 1, m[i].service.net) {
      assert IsNetOf(xs, n, m[i].service.net);
    }
    assert IsNetOf(xs, n + 1, xs[n].service.net);
  }

  lemma {:induction false} NewsReadOnce(h: Hasher, s: Draft, d: Saved, rebuild: bool, n: nat)
    requires IsEmptyDraft(s) && n <= |d.news| && NoAddressRepeats(d.news + d.trieds)
    ensures ReadOnce(ReadNews(h, s, d, rebuild, n).mapInfo, d.news + d.trieds, n)
  {
    if n > 0 {
      NewsReadOnce(h, s, d, rebuild, n - 1);
      NewsRead(h, s, d, rebuild, n - 1);
      var q, r := ReadNews(h, s, d, rebuild, n - 1), ReadNews(h, s, d, rebuild, n);
      ReadOnceNext(q.mapInfo, d.news + d.trieds, n - 1, n - 1, r.mapInfo[n - 1]);
    }
  }

  lemma {:induction false} TriedsReadOnce(h: Hasher, s: Draft, d: Saved, n: nat)
    requires s.nIdCount == |d.news| && Sound(h, s, |d.news|, |d.news|) && n <= |d.trieds|
    requires NoAddressRepeats(d.news + d.trieds) && ReadOnce(s.mapInfo, d.news + d.trieds, |d.news|)
    ensures ReadOnce(ReadTrieds(h, s, d, n).mapInfo, d.news + d.trieds, |d.news| + n)
  {
    if n > 0 {
      TriedsReadOnce(h, s, d, n - 1);
      TriedsSound(h, s, d, n - 1);
      var q := ReadTrieds(h, s, d, n - 1);
      ReadOnceNext(q.mapInfo, d.news + d.trieds, |d.news| + n - 1, q.nIdCount,
                   Loaded(d.trieds[n - 1], q.nIdCount, true));
    }
  }

  lemma {:induction false} ItemsKeepNets(h: Hasher, s: Draft, useSlots: bool, bucket: nat, items: seq<int>, nNew: nat,
                                         n: nat)
    requires s.Shaped() && (useSlots ==> bucket < ADDRMAN_NEW_BUCKET_COUNT) && n <= |items|
    ensures SameNets(s.mapInfo, ReadItems(h, s, useSlots, bucket, items, nNew, n).mapInfo)
  {
    if n > 0 { ItemsKeepNets(h, s, useSlots, bucket, items, nNew, n - 1); }
  }

  lemma {:induction false} BucketsKeepNets(h: Hasher, s: Draft, d: Saved, useSlots: bool, n: nat)
    requires s.Shaped() && n <= |d.buckets| && (useSlots ==> |d.buckets| == ADDRMAN_NEW_BUCKET_COUNT)
    ensures SameNets(s.mapInfo, ReadBuckets(h, s, d, useSlots, n).mapInfo)
  {
    if n > 0 {
      BucketsKeepNets(h, s, d, useSlots, n - 1);
      ItemsKeepNets(h, ReadBuckets(h, s, d, useSlots, n - 1), useSlots, n - 1, d.buckets[n - 1], |d.news|,
                    |d.buckets[n - 1]|);
    }
  }

  /** No two entries that were read share an address, if none in the record do. */
  lemma CleanRecord(h: Hasher, s: Draft, d: Saved)
    requires IsEmptyDraft(s) && d.nUBuckets >= 0 && |d.buckets| == UBuckets(d) && NoAddressRepeats(d.news + d.trieds)
    ensures IsClean(ReadAll(h, s, d).mapInfo)
  {
    var useSlots := UsesSlots(d);
    var news := ReadNews(h, s, d, !useSlots, |d.news|);
    var begun := news.(nIdCount := |d.news|);
    NewsSound(h, s, d, !useSlots, |d.news|);
    SoundRenamed(h, news, begun, |d.news|, |d.news|);
    NewsReadOnce(h, s, d, !useSlots, |d.news|);
    TriedsReadOnce(h, begun, d, |d.trieds|);
    BucketsKeepNets(h, ReadEntries(h, s, d, useSlots), d, useSlots, |d.buckets|);
  }

  /** The first nNew ids are the new ones, the others are the tried ones. */
  lemma CountsRead(s: Draft, h: Hasher, nNew: nat)
    requires s.nIdCount >= nNew && Sound(h, s, nNew, s.nIdCount)
    ensures |Untried(s.mapInfo)| == nNew && |Tried(s.mapInfo)| == s.nIdCount - nNew
  {
    forall id
      ensures id in Untried(s.mapInfo) <==> 0 <= id < nNew
      ensures id in Tried(s.mapInfo) <==> nNew <= id < s.nIdCount
    {
      if id in s.mapInfo { assert EntrySound(h, s, nNew, id); }
    }
    RangeSize(Untried(s.mapInfo), 0, nNew);
    RangeSize(Tried(s.mapInfo), nNew, s.nIdCount);
  }

  lemma TriedPruned(m: Infos, m': Infos, n: int)
    requires IsPruned(m, m', n)
    ensures Tried(m') == Tried(m)
  {
    forall id ensures id in Tried(m') <==> id in Tried(m) {
      if id in m' { assert SameInfo(m[id], m'[id]); }
    }
  }

  /** What is left after pruning. */
  lemma PrunedMade(h: Hasher, r: Draft, t: Tables, nNew: nat, n: int)
    requires r.nIdCount >= nNew && Sound(h, r, nNew, r.nIdCount)
    requires Shape(t) && t.vvNew == r.vvNew && t.vvTried == r.vvTried && t.nIdCount == r.nIdCount == n
    requires IsPruned(r.mapInfo, t.mapInfo, n) && NetsPruned(r.mapInfo, r.mapAddr, t.mapAddr, n)
    requires Listed(t.mapInfo, t.vRandom) && t.nNew - |Untried(t.mapInfo)| == nNew - |Untried(r.mapInfo)|
    requires t.nTried == n - nNew
    ensures TablesMade(r, t) && (Consistent(h, t, {}, {}) <==> IsClean(r.mapInfo))
  {
    CountsRead(r, h, nNew);
    TriedPruned(r.mapInfo, t.mapInfo, n);
    assert Untried(t.mapInfo) - {} == Untried(t.mapInfo);
    MadeConsistent(h, r, nNew, t);
  }

  lemma ValidTables(a: AddrMan.AddrMan)
    requires a.Mirrors() && a.triedCollisions == {}
    ensures a.Valid() <==> Consistent(a.h, a.T(), {}, {})
  {
  }

  method LoadFresh(d: Saved, ghost t: Tables, ghost good: bool) returns (a: AddrMan.AddrMan, ghost s: Draft)
    requires d.nUBuckets >= 0 && |d.buckets| == UBuckets(d)
    requires good ==> Origin(d.nKey, t, d)
    ensures fresh(a) && a.h == d.nKey && a.Mirrors() && a.triedCollisions == {} && IsEmptyDraft(s)
    ensures TablesMade(ReadAll(d.nKey, s, d), a.T())
    ensures Consistent(d.nKey, a.T(), {}, {}) <==> IsClean(ReadAll(d.nKey, s, d).mapInfo)
    ensures good ==> a.Valid() && Reloaded(t, a.T())
  {
    a, s := LoadUnpruned(d, t, good);
    ghost var r := ReadAll(d.nKey, s, d);
    AllSound(d.nKey, s, d);
    PruneAll(a, good);
    PrunedMade(a.h, r, a.T(), |d.news|, a.nIdCount);
  }

  /**
    Load a manager. It is refused exactly for a wrong key size or too many entries. Otherwise it holds what the record
    makes of empty tables, without the entries that found no place; and it is valid exactly when no entry that found a
    place shares its address with another one. What was saved from a consistent manager comes back complete.
   */
  method Unserialize(d: Saved, ghost t: Tables) returns (r: AddrMan.Option<AddrMan.AddrMan>, ghost s: Draft)
    requires d.nUBuckets >= 0 && |d.buckets| == UBuckets(d)
    ensures r.None? <==> Refused(d)
    ensures r.Some? ==>
      && fresh(r.value) && r.value.h == d.nKey && r.value.Mirrors() && IsEmptyDraft(s)
      && TablesMade(ReadAll(d.nKey, s, d), r.value.T())
      && (r.value.Valid() <==> IsClean(ReadAll(d.nKey, s, d).mapInfo))
    ensures Origin(d.nKey, t, d) ==> r.Some? && r.value.Valid() && Reloaded(t, r.value.T())
  {
    ghost var good := Origin(d.nKey, t, d);
    if good {
      OriginIds(d.nKey, t, d);
      WithinLimits(d.nKey, t);
    }
    r, s := AddrMan.None, Draft(map[], map[], [], [], 0);
    if d.nKeySize != 32 { return; }
    if |d.news| > ADDRMAN_NEW_BUCKET_COUNT * ADDRMAN_BUCKET_SIZE { return; }
    if |d.trieds| > ADDRMAN_TRIED_BUCKET_COUNT * ADDRMAN_BUCKET_SIZE { return; }
    var a;
    a, s := LoadFresh(d, t, good);
    ValidTables(a);
    r := AddrMan.Some(a);
  }

  /** Saving any valid manager and loading it again. */
  method SaveAndLoad(a: AddrMan.AddrMan) returns (b: AddrMan.AddrMan)
    requires a.Valid()
    ensures b.Valid() && b.h == a.h && Reloaded(a.T(), b.T())
  {
    var d := Serialize(a);
    ghost var s;
    var r;
    r, s := Unserialize(d, a.T());
    b := r.value;
  }
}
