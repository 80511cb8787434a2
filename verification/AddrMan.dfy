/** The address manager: its in-memory tables and the operations that move addresses between them. */
module AddrMan {
  import opened AddrTables
  import SetSums

  const ADDRMAN_HORIZON_DAYS: int := 30
  const ADDRMAN_RETRIES: int := 3
  const ADDRMAN_MAX_FAILURES: int := 10
  const ADDRMAN_MIN_FAIL_DAYS: int := 7
  const ADDRMAN_REPLACEMENT_HOURS: int := 4
  const ADDRMAN_GETADDR_MAX_PCT: nat := 23
  const ADDRMAN_GETADDR_MAX: nat := 2500
  const ADDRMAN_SET_TRIED_COLLISION_SIZE: nat := 10

  predicate IsTerrible(info: AddrInfo, nNow: int)
  {
    if info.nLastTry != 0 && info.nLastTry >= nNow - 60 then false
    else if info.nTime > nNow + 10 * 60 then true
    else if info.nTime == 0 || nNow - info.nTime > ADDRMAN_HORIZON_DAYS * 24 * 60 * 60 then true
    else if info.nLastSuccess == 0 && info.nAttempts >= ADDRMAN_RETRIES then true
    else nNow - info.nLastSuccess > ADDRMAN_MIN_FAIL_DAYS * 24 * 60 * 60 && info.nAttempts >= ADDRMAN_MAX_FAILURES
  }

  /** How a call of `Good_` ended. */
  datatype GoodOutcome = NotKnown | OtherService | AlreadyTried | NoBucketFound | Collided | MovedToTried

  /** An address as announced. */
  datatype Address = Address(service: Service, nServices: set<nat>, nTime: int)

  /** The n-th bucket of a search that starts at nRnd. */
  function BucketAt(n: nat, nRnd: nat): (b: nat)
    ensures b < ADDRMAN_NEW_BUCKET_COUNT
  {
    (n + nRnd) % ADDRMAN_NEW_BUCKET_COUNT
  }

  lemma EveryBucketVisited(nRnd: nat, b: nat) returns (n: nat)
    requires nRnd < ADDRMAN_NEW_BUCKET_COUNT && b < ADDRMAN_NEW_BUCKET_COUNT
    ensures n < ADDRMAN_NEW_BUCKET_COUNT && BucketAt(n, nRnd) == b
  {
    n := if b >= nRnd then b - nRnd else b + ADDRMAN_NEW_BUCKET_COUNT - nRnd;
  }

  function Max(a: int, b: int): int { if a < b then b else a }

  /** What a repeated announcement does to the statistics of a known address. */
  function Refreshed(info: AddrInfo, addr: Address, nTimePenalty: int, nNow: int): AddrInfo
  {
    var fCurrentlyOnline := nNow - addr.nTime < 24 * 60 * 60;
    var nUpdateInterval := if fCurrentlyOnline then 60 * 60 else 24 * 60 * 60;
    var nTime := if addr.nTime != 0 && (info.nTime == 0 || info.nTime < addr.nTime - nUpdateInterval - nTimePenalty)
                 then Max(0, addr.nTime - nTimePenalty) else info.nTime;
    info.(nTime := nTime, nServices := info.nServices + addr.nServices)
  }

  /** A slot of the new table is free, or its occupant is terrible or has other places while the newcomer has none. */
  predicate IsOpenFor(t: Tables, b: nat, p: nat, nRefCount: int, nNow: int)
    requires Shape(t) && b < ADDRMAN_NEW_BUCKET_COUNT && p < ADDRMAN_BUCKET_SIZE
  {
    var d := t.vvNew[b][p];
    || d == -1
    || (d in t.mapInfo && (IsTerrible(t.mapInfo[d], nNow) || (t.mapInfo[d].nRefCount > 1 && nRefCount == 0)))
  }

  /** An id gains a reference at the slot that a source gives it. */
  predicate TakesSlot(h: Hasher, t: Tables, id: int, source: NetAddr, nNow: int)
    requires Shape(t) && id in t.mapInfo
  {
    var s := t.mapInfo[id].service;
    var b := NewBucket(h, s, source);
    var p := NewPos(h, b, s);
    t.vvNew[b][p] != id && IsOpenFor(t, b, p, t.mapInfo[id].nRefCount, nNow)
  }

  /** The slot is taken from what was there. */
  ghost predicate IsTaken(h: Hasher, t: Tables, t': Tables, id: int, source: NetAddr)
    requires Shape(t) && id in t.mapInfo
  {
    var s := t.mapInfo[id].service;
    var b := NewBucket(h, s, source);
    var p := NewPos(h, b, s);
    && t.vvNew[b][p] != id && t'.vvNew == Put(t.vvNew, b, p, id) && t'.nIdCount == t.nIdCount
    && IsInserted(t.mapInfo, t'.mapInfo, t.vvNew[b][p], id,
                  t.mapInfo[id].(nRefCount := t.mapInfo[id].nRefCount + 1))
  }

  /** An id gains a reference, or stays as it is; one without any reference goes. */
  ghost predicate IsPlaced(h: Hasher, t: Tables, t': Tables, id: int, source: NetAddr, nNow: int)
    requires Shape(t) && id in t.mapInfo
  {
    if TakesSlot(h, t, id, source, nNow) then IsTaken(h, t, t', id, source)
    else if t.mapInfo[id].nRefCount != 0 then t' == t
    else |t.vRandom| > 0 && t' == Deleted(t, id)
  }

  /** There is no penalty for a source's own announcement. */
  function Penalty(addr: Address, source: NetAddr, penalty: int): int
  {
    if addr.service.net == source then 0 else penalty
  }

  /** The entry that an announcement of an unknown address makes. */
  function Announced(addr: Address, source: NetAddr, nTimePenalty: int): AddrInfo
  {
    AddrInfo(addr.service, addr.nServices, Max(0, addr.nTime - nTimePenalty), source, 0, 0, 0, 0, 0, false, 0)
  }

  /**
    An unknown address gets the next id, with one reference, if the slot is open to it. Otherwise nothing is left of
    it but the count.
   */
  ghost predicate IsAdded(h: Hasher, t: Tables, t': Tables, info: AddrInfo, source: NetAddr, nNow: int)
    requires Shape(t)
  {
    var b := NewBucket(h, info.service, source);
    var p := NewPos(h, b, info.service);
    if IsOpenFor(t, b, p, 0, nNow) then
      && t'.vvNew == Put(t.vvNew, b, p, t.nIdCount) && t'.nIdCount == t.nIdCount + 1
      && IsInserted(t.mapInfo, t'.mapInfo, t.vvNew[b][p], t.nIdCount, info.(nRefCount := 1))
    else t' == t.(nIdCount := t.nIdCount + 1)
  }

  /** How many times harder each further reference is to get. */
  function Factor(nRefCount: int): (f: nat)
    ensures f >= 1
  {
    if nRefCount <= 0 then 1 else 2 * Factor(nRefCount - 1)
  }

  /** An announcement has a newer time, and the address may have another reference, and chance allows it. */
  predicate MayGain(info: AddrInfo, addr: Address, random: nat)
  {
    && addr.nTime != 0 && (info.nTime == 0 || addr.nTime > info.nTime)
    && !info.fInTried && info.nRefCount != ADDRMAN_NEW_BUCKETS_PER_ADDRESS && random % Factor(info.nRefCount) == 0
  }

  /** A known address is refreshed, and may gain a reference. */
  ghost predicate IsAnnouncedAgain(h: Hasher, t: Tables, t': Tables, id: int, addr: Address, source: NetAddr,
                                   nTimePenalty: int, nNow: int, random: nat)
    requires Shape(t) && id in t.mapInfo
  {
    var info := Refreshed(t.mapInfo[id], addr, nTimePenalty, nNow);
    var t1 := t.(mapInfo := t.mapInfo[id := info]);
    if MayGain(info, addr, random) then IsPlaced(h, t1, t', id, source, nNow) else t' == t1
  }

  lemma PlacedIsAdded(h: Hasher, t: Tables, t': Tables, info: AddrInfo, source: NetAddr, nNow: int)
    requires Consistent(h, t, {}, {}) && info.service.net !in t.mapAddr && info.nRefCount == 0
    requires Shape(Created(t, info)) && IsPlaced(h, Created(t, info), t', t.nIdCount, source, nNow)
    ensures IsAdded(h, t, t', info.(nRandomPos := 0), source, nNow)
  {
    var b := NewBucket(h, info.service, source);
    var p := NewPos(h, b, info.service);
    var id, d := t.nIdCount, t.vvNew[b][p];
    FreshId(h, t, {}, info.service);
    RefsZero(h, info.service, t.vvNew, id, ADDRMAN_NEW_BUCKET_COUNT);
    CreatedDeleted(h, t, info);
    if IsOpenFor(t, b, p, 0, nNow) {
      var m, m' := Created(t, info).mapInfo, t'.mapInfo;
      forall x ensures Meets(m', x, Replaced(t.mapInfo, d, id, info.(nRandomPos := 0, nRefCount := 1), x)) {
        assert Meets(m', x, Replaced(m, d, id, m[id].(nRefCount := m[id].nRefCount + 1), x));
      }
    }
  }

  /** What an addition leaves of the other ids. */
  lemma AddedEvolves(h: Hasher, t: Tables, t': Tables, info: AddrInfo, source: NetAddr, nNow: int)
    requires Consistent(h, t, {}, {}) && IsAdded(h, t, t', info, source, nNow)
    ensures var b := NewBucket(h, info.service, source); var p := NewPos(h, b, info.service);
      && Displaced(t.mapInfo, t'.mapInfo, t.vvNew[b][p])
      && (t.nIdCount in t'.mapInfo <==> IsOpenFor(t, b, p, 0, nNow))
      && (t.nIdCount in t'.mapInfo ==> t'.vvNew == Put(t.vvNew, b, p, t.nIdCount))
    ensures Evolves(t, t') && forall x :: x in t'.mapInfo && x !in t.mapInfo ==>
      x == t.nIdCount && SameInfo(info.(nRefCount := 1), t'.mapInfo[x])
  {
    var b := NewBucket(h, info.service, source);
    var p := NewPos(h, b, info.service);
    var d := t.vvNew[b][p];
    FreshId(h, t, {}, info.service);
    SlotNotTried(h, t, b, p, {});
    if IsOpenFor(t, b, p, 0, nNow) {
      var info1 := info.(nRefCount := 1);
      forall x | x in t'.mapInfo
        ensures EvolvesAt(t, t', x)
        ensures x !in t.mapInfo ==> x == t.nIdCount && SameInfo(info1, t'.mapInfo[x])
      {
        assert Meets(t'.mapInfo, x, Replaced(t.mapInfo, d, t.nIdCount, info1, x));
      }
      forall x | x in t.mapInfo && x != d ensures x in t'.mapInfo {
        assert Meets(t'.mapInfo, x, Replaced(t.mapInfo, d, t.nIdCount, info1, x));
      }
      assert Meets(t'.mapInfo, d, Replaced(t.mapInfo, d, t.nIdCount, info1, d));
      assert Meets(t'.mapInfo, t.nIdCount, Replaced(t.mapInfo, d, t.nIdCount, info1, t.nIdCount));
    } else {
      EvolvesAlike(t, t');
    }
  }

  /** An id that was selected with its address. */
  predicate Selected(m: Infos, id: int, s: Service, nNow: int)
  {
    id in m && m[id].service == s && !IsTerrible(m[id], nNow)
  }

  /** The ids gathered so far sit at increasing positions of the part of vRandom already passed. */
  predicate Gathered(v: seq<int>, n: nat, ids: seq<int>, at: seq<nat>)
    requires n <= |v|
  {
    && |at| == |ids|
    && (forall k :: 0 <= k < |at| ==> at[k] < n && v[at[k]] == ids[k])
    && (forall j, k :: 0 <= j < k < |at| ==> at[j] < at[k])
  }

  lemma GatheredSwap(v: seq<int>, v': seq<int>, n: nat, j: nat, ids: seq<int>, at: seq<nat>)
    requires n <= j < |v| && Gathered(v, n, ids, at) && v' == v[n := v[j]][j := v[n]]
    ensures Gathered(v', n, ids, at)
  {
  }

  lemma SelectedStays(m: Infos, v: seq<int>, i: nat, j: nat, m': Infos, ids: seq<int>, vAddr: seq<Service>, nNow: int)
    requires i < |v| && j < |v| && (i != j ==> v[i] in m && v[j] in m)
    requires m' == if i == j then m else Swapped(m, v, i, j)
    requires |ids| == |vAddr| && forall k :: 0 <= k < |ids| ==> Selected(m, ids[k], vAddr[k], nNow)
    ensures forall k :: 0 <= k < |ids| ==> Selected(m', ids[k], vAddr[k], nNow)
  {
    forall k | 0 <= k < |ids| ensures Selected(m', ids[k], vAddr[k], nNow) {
      assert Selected(m, ids[k], vAddr[k], nNow);
    }
  }

  lemma GatheredNext(v: seq<int>, n: nat, ids: seq<int>, at: seq<nat>)
    requires n < |v| && Gathered(v, n, ids, at)
    ensures Gathered(v, n + 1, ids, at) && Gathered(v, n + 1, ids + [v[n]], at + [n])
  {
  }

  lemma SelectedAppend(m: Infos, ids: seq<int>, vAddr: seq<Service>, id: int, nNow: int)
    requires |ids| == |vAddr| && forall k :: 0 <= k < |ids| ==> Selected(m, ids[k], vAddr[k], nNow)
    requires id in m && !IsTerrible(m[id], nNow)
    ensures forall k :: 0 <= k <= |ids| ==> Selected(m, (ids + [id])[k], (vAddr + [m[id].service])[k], nNow)
  {
  }

  lemma AlikeTransitive(m0: Infos, m1: Infos, m2: Infos)
    requires Alike(m0, m1) && Alike(m1, m2)
    ensures Alike(m0, m2)
  {
    forall id | id in m0 ensures SameEntry(m0[id], m2[id]) {
      assert SameEntry(m0[id], m1[id]) && SameEntry(m1[id], m2[id]);
    }
  }

  lemma GatheredDistinct(h: Hasher, t: Tables, n: nat, ids: seq<int>, at: seq<nat>, vAddr: seq<Service>, nNow: int)
    requires Consistent(h, t, {}, {}) && n <= |t.vRandom| && Gathered(t.vRandom, n, ids, at) && |vAddr| == |ids|
    requires forall k :: 0 <= k < |ids| ==> Selected(t.mapInfo, ids[k], vAddr[k], nNow)
    ensures forall j, k :: 0 <= j < k < |vAddr| ==> vAddr[j] != vAddr[k]
  {
    forall j, k | 0 <= j < k < |vAddr| ensures vAddr[j] != vAddr[k] {
      assert Selected(t.mapInfo, ids[j], vAddr[j], nNow) && Selected(t.mapInfo, ids[k], vAddr[k], nNow);
      assert IdOk(h, t, {}, ids[j]) && IdOk(h, t, {}, ids[k]);
      assert PosOk(t, at[j]) && PosOk(t, at[k]);
    }
  }

  /** The addresses that are not terrible. */
  function GoodIds(m: Infos, nNow: int): set<int> { set id | id in m && !IsTerrible(m[id], nNow) }

  predicate TakenAt(m: Infos, v: seq<int>, k: nat, ids: seq<int>, nNow: int)
  {
    k < |v| && v[k] in m && (IsTerrible(m[v[k]], nNow) || v[k] in ids)
  }

  /** Up to a position of vRandom every address that is not terrible has been gathered. */
  ghost predicate AllTaken(m: Infos, v: seq<int>, n: nat, ids: seq<int>, nNow: int)
  {
    forall k: nat {:trigger TakenAt(m, v, k, ids, nNow)} :: k < n ==> TakenAt(m, v, k, ids, nNow)
  }

  lemma TakenStays(m: Infos, v: seq<int>, m': Infos, v': seq<int>, n: nat, j: nat, ids: seq<int>, nNow: int)
    requires n <= j < |v| && v' == v[n := v[j]][j := v[n]] && Undisturbed(m, m') && AllTaken(m, v, n, ids, nNow)
    ensures AllTaken(m', v', n, ids, nNow)
  {
    forall k: nat | k < n ensures TakenAt(m', v', k, ids, nNow) {
      assert TakenAt(m, v, k, ids, nNow);
      assert Meets(m', v[k], Unchanged(m, v[k]));
    }
  }

  lemma TakenNext(m: Infos, v: seq<int>, n: nat, ids: seq<int>, nNow: int)
    requires n < |v| && v[n] in m && AllTaken(m, v, n, ids, nNow)
    ensures AllTaken(m, v, n + 1, if IsTerrible(m[v[n]], nNow) then ids else ids + [v[n]], nNow)
  {
    var ids' := if IsTerrible(m[v[n]], nNow) then ids else ids + [v[n]];
    forall k: nat | k < n + 1 ensures TakenAt(m, v, k, ids', nNow) {
      if k < n { assert TakenAt(m, v, k, ids, nNow); }
    }
  }

  /** Either enough have been gathered, or all. */
  lemma GatheredCount(h: Hasher, t: Tables, ids: seq<int>, at: seq<nat>, vAddr: seq<Service>, nNow: int, nNodes: nat)
    requires Consistent(h, t, {}, {}) && Gathered(t.vRandom, |t.vRandom|, ids, at) && |vAddr| == |ids| <= nNodes
    requires forall k :: 0 <= k < |ids| ==> Selected(t.mapInfo, ids[k], vAddr[k], nNow)
    requires |ids| == nNodes || AllTaken(t.mapInfo, t.vRandom, |t.vRandom|, ids, nNow)
    ensures |ids| == Min(nNodes, |GoodIds(t.mapInfo, nNow)|)
  {
    var all, good := (set x | x in ids), GoodIds(t.mapInfo, nNow);
    forall j, k | 0 <= j < k < |ids| ensures ids[j] != ids[k] { assert PosOk(t, at[j]) && PosOk(t, at[k]); }
    DistinctCount(ids);
    forall x | x in all ensures x in good {
      var k :| 0 <= k < |ids| && ids[k] == x;
      assert Selected(t.mapInfo, ids[k], vAddr[k], nNow);
    }
    SetSums.SubsetSize(all, good);
    if |ids| < nNodes {
      forall x | x in good ensures x in all {
        assert IdOk(h, t, {}, x);
        assert TakenAt(t.mapInfo, t.vRandom, t.mapInfo[x].nRandomPos, ids, nNow);
      }
      assert all == good;
    }
  }

  function Min(a: nat, b: nat): nat { if a < b then a else b }

  lemma SomeElement(s: set<int>)
    requires s != {}
    ensures exists x :: x in s
  {
    assert (forall x :: x !in s) ==> s == {};
  }

  /** The pending collisions after an attempt to move an id: one more, as long as there are fewer than ten. */
  function Recorded(collisions: set<int>, outcome: GoodOutcome, id: int): set<int>
  {
    if outcome == Collided && |collisions| < ADDRMAN_SET_TRIED_COLLISION_SIZE then collisions + {id} else collisions
  }

  /** What becomes of a known id: it is tried already, or its slot is taken and tested first, or it is moved. */
  ghost predicate Decided(h: Hasher, t: Tables, id: int, test_before_evict: bool, outcome: GoodOutcome)
  {
    && Shape(t) && id in t.mapInfo
    && outcome ==
       if t.mapInfo[id].fInTried then AlreadyTried
       else if test_before_evict && Facing(h, t, t.mapInfo[id].service) != -1 then Collided
       else MovedToTried
  }

  ghost predicate IsMoved(h: Hasher, t: Tables, t': Tables, id: int)
    requires Shape(t) && id in t.mapInfo
  {
    var s := t.mapInfo[id].service;
    && t'.vvTried == Put(t.vvTried, TriedBucket(h, s), TriedPos(h, s), id)
    && id in t'.mapInfo && t'.mapInfo[id].fInTried
  }

  /** An id has moved to the tried table, what it faced has gone back to the new one, and `gone` has made room. */
  ghost predicate IsPromoted(h: Hasher, t: Tables, t': Tables, id: int, gone: int)
    requires Shape(t) && id in t.mapInfo
  {
    var e := Facing(h, t, t.mapInfo[id].service);
    && e != id && gone != id && (e in t.mapInfo ==> e != gone) && t'.nIdCount == t.nIdCount
    && (gone in t.mapInfo ==> !t.mapInfo[gone].fInTried)
    && IsPromotion(t.mapInfo, t'.mapInfo, id, e, gone)
  }

  /** The tables and the pending collisions afterwards. */
  ghost predicate Settles(h: Hasher, t: Tables, collisions: set<int>, t': Tables, collisions': set<int>, id: int,
                          outcome: GoodOutcome, gone: int)
    requires Shape(t) && id in t.mapInfo
  {
    && collisions' == Recorded(collisions, outcome, id)
    && (outcome == MovedToTried ==> IsMoved(h, t, t', id) && IsPromoted(h, t, t', id, gone))
    && (outcome != MovedToTried ==> t' == t)
  }

  lemma MovedEvolves(h: Hasher, t: Tables, t': Tables, id: int, gone: int)
    requires Consistent(h, t, {}, {}) && id in t.mapInfo && IsPromoted(h, t, t', id, gone)
    ensures Evolves(t, t') && Displaced(t.mapInfo, t'.mapInfo, gone)
    ensures id in t'.mapInfo && SameInfo(t.mapInfo[id].(nRefCount := 0, fInTried := true), t'.mapInfo[id])
  {
    var s := t.mapInfo[id].service;
    NoFreeId(h, t, {}, {});
    if Facing(h, t, s) != -1 { TriedOccupant(h, t, TriedBucket(h, s), TriedPos(h, s), {}, {}); }
    PromotedEvolves(t, t', id, Facing(h, t, s), gone);
  }

  /** The statistics after a successful connection; the time of the announcement stays. */
  function Marked(info: AddrInfo, nTime: int): AddrInfo
  {
    info.(nLastSuccess := nTime, nLastTry := nTime, nAttempts := 0)
  }

  ghost function MarkedAt(t: Tables, id: int, nTime: int): Tables
    requires id in t.mapInfo
  {
    t.(mapInfo := t.mapInfo[id := Marked(t.mapInfo[id], nTime)])
  }

  lemma LeftIsPromoted(h: Hasher, t: Tables, t1: Tables, t': Tables, id: int, gone: int)
    requires Shape(t) && Shape(t1) && id in t.mapInfo && t1.mapInfo == t.mapInfo[id := t.mapInfo[id].(nRefCount := 0)]
    requires t1.vvTried == t.vvTried && t1.nIdCount == t.nIdCount && IsPromoted(h, t1, t', id, gone)
    ensures IsPromoted(h, t, t', id, gone)
  {
    var e := Facing(h, t, t.mapInfo[id].service);
    PromotionFrom(t.mapInfo, t1.mapInfo, t'.mapInfo, id, e, gone);
  }

  /** No tried id disappears, and none is evicted where it is to be tested first. */
  ghost predicate TriedStay(m: Infos, m': Infos, test_before_evict: bool)
  {
    forall id :: id in m && m[id].fInTried ==> id in m' && (test_before_evict ==> m'[id].fInTried)
  }

  /** New statistics make no difference to what becomes of an id. */
  lemma SameStart(h: Hasher, t0: Tables, t: Tables, t': Tables, id: int, test_before_evict: bool, outcome: GoodOutcome,
                  gone: int)
    requires Shape(t0) && Shape(t) && id in t.mapInfo
    requires Alike(t0.mapInfo, t.mapInfo) && t0.vvTried == t.vvTried
    requires Decided(h, t, id, test_before_evict, outcome)
    requires TriedStay(t.mapInfo, t'.mapInfo, test_before_evict) && Displaced(t.mapInfo, t'.mapInfo, gone)
    ensures Decided(h, t0, id, test_before_evict, outcome)
    ensures TriedStay(t0.mapInfo, t'.mapInfo, test_before_evict) && Displaced(t0.mapInfo, t'.mapInfo, gone)
  {
  }

  /** The id in the tried slot of an address. */
  function Facing(h: Hasher, t: Tables, s: Service): int
    requires Shape(t)
  {
    t.vvTried[TriedBucket(h, s)][TriedPos(h, s)]
  }

  /** The slot is free, or its occupant was tried without success more than a minute and less than four hours ago. */
  predicate IsReplaced(h: Hasher, t: Tables, id: int, invalid: set<Service>, nNow: int)
    requires Shape(t) && id in t.mapInfo
  {
    var other := Facing(h, t, t.mapInfo[id].service);
    && t.mapInfo[id].service !in invalid
    && (|| other == -1
        || (&& other in t.mapInfo
            && nNow - t.mapInfo[other].nLastSuccess >= ADDRMAN_REPLACEMENT_HOURS * (60 * 60)
            && 60 < nNow - t.mapInfo[other].nLastTry < ADDRMAN_REPLACEMENT_HOURS * (60 * 60)))
  }

  /** A collision is over: the id is gone or invalid, the occupant has answered lately, or it is replaced. */
  predicate IsSettled(h: Hasher, t: Tables, id: int, invalid: set<Service>, nNow: int)
    requires Shape(t)
  {
    || id !in t.mapInfo
    || t.mapInfo[id].service in invalid
    || IsReplaced(h, t, id, invalid, nNow)
    || (var other := Facing(h, t, t.mapInfo[id].service);
        && other != -1 && other in t.mapInfo
        && nNow - t.mapInfo[other].nLastSuccess < ADDRMAN_REPLACEMENT_HOURS * (60 * 60))
  }

  /** A collision is still there exactly if it was not settled in the state in which it was looked at. */
  ghost predicate Judged(h: Hasher, t: Tables, id: int, invalid: set<Service>, nNow: int, collisions: set<int>)
  {
    Shape(t) && (id in collisions <==> !IsSettled(h, t, id, invalid, nNow))
  }

  datatype Op =
    | Add(announced: Address, isRoutable: bool, source: NetAddr, penalty: int, nNow: int, random: nat)
    | Good(addr: Service, test_before_evict: bool, nTime: int, nRnd: nat)
    | Attempt(addr: Service, fCountFailure: bool, nTime: int)
    | GetAddr(nNow: int)
    | ResolveCollisions(invalid: set<Service>, nNow: int)
    | SelectTriedCollision

  datatype Option<T> = None | Some(value: T)

  /** An entry after a connection attempt: a failure counts once for every success of any other address. */
  function Attempted(info: AddrInfo, fCountFailure: bool, nTime: int, nLastGood: int): AddrInfo
  {
    if fCountFailure && info.nLastCountAttempt < nLastGood
    then info.(nLastTry := nTime, nLastCountAttempt := nTime, nAttempts := info.nAttempts + 1)
    else info.(nLastTry := nTime)
  }

  class AddrMan {
    const h: Hasher
    var nIdCount: int
    var mapInfo: Infos
    var mapAddr: map<NetAddr, int>
    var vRandom: seq<int>
    var nTried: int
    const vvTried: array2<int>
    var nNew: int
    const vvNew: array2<int>
    var nLastGood: int
    var triedCollisions: set<int>

    /** The contents of vvNew and vvTried. */
    ghost var newGrid: Grid
    ghost var triedGrid: Grid

    ghost predicate Mirrors()
      reads this, vvNew, vvTried
    {
      && vvNew != vvTried
      && vvNew.Length0 == ADDRMAN_NEW_BUCKET_COUNT && vvNew.Length1 == ADDRMAN_BUCKET_SIZE
      && vvTried.Length0 == ADDRMAN_TRIED_BUCKET_COUNT && vvTried.Length1 == ADDRMAN_BUCKET_SIZE
      && Dim(newGrid, ADDRMAN_NEW_BUCKET_COUNT) && Dim(triedGrid, ADDRMAN_TRIED_BUCKET_COUNT)
      && (forall b, p :: 0 <= b < vvNew.Length0 && 0 <= p < vvNew.Length1 ==> vvNew[b, p] == newGrid[b][p])
      && (forall b, p :: 0 <= b < vvTried.Length0 && 0 <= p < vvTried.Length1 ==> vvTried[b, p] == triedGrid[b][p])
    }

    ghost function T(): Tables
      reads this
    {
      Tables(mapInfo, mapAddr, vRandom, newGrid, triedGrid, nIdCount, nNew, nTried)
    }

    /** The tables agree, up to ids in `loose` and `aside` that are between them. */
    ghost predicate Inv(loose: set<int>, aside: set<int>)
      reads this, vvNew, vvTried
    {
      Mirrors() && Consistent(h, T(), loose, aside)
    }

    ghost predicate Valid()
      reads this, vvNew, vvTried
    {
      && Inv({}, {})
      && CollisionsOk(h, T(), triedCollisions)
      && |triedCollisions| <= ADDRMAN_SET_TRIED_COLLISION_SIZE
    }

    constructor (h: Hasher)
      ensures Valid() && mapInfo == map[] && nIdCount == 0 && triedCollisions == {} && this.h == h
      ensures fresh(vvNew) && fresh(vvTried)
    {
      this.h := h;
      vvNew := new int[ADDRMAN_NEW_BUCKET_COUNT, ADDRMAN_BUCKET_SIZE]((_, _) => -1);
      vvTried := new int[ADDRMAN_TRIED_BUCKET_COUNT, ADDRMAN_BUCKET_SIZE]((_, _) => -1);
      newGrid := seq(ADDRMAN_NEW_BUCKET_COUNT, _ => seq(ADDRMAN_BUCKET_SIZE, _ => -1));
      triedGrid := seq(ADDRMAN_TRIED_BUCKET_COUNT, _ => seq(ADDRMAN_BUCKET_SIZE, _ => -1));
      mapInfo, mapAddr, vRandom := map[], map[], [];
      nIdCount, nTried, nNew, nLastGood := 0, 0, 0, 1;
      triedCollisions := {};
      new;
      assert Untried(mapInfo) == {} && Tried(mapInfo) == {};
    }

    method SetNew(b: nat, p: nat, id: int)
      requires Mirrors() && b < ADDRMAN_NEW_BUCKET_COUNT && p < ADDRMAN_BUCKET_SIZE
      modifies vvNew, this`newGrid
      ensures Mirrors() && newGrid == Put(old(newGrid), b, p, id)
    {
      vvNew[b, p] := id;
      newGrid := Put(newGrid, b, p, id);
    }

    method SetTried(b: nat, p: nat, id: int)
      requires Mirrors() && b < ADDRMAN_TRIED_BUCKET_COUNT && p < ADDRMAN_BUCKET_SIZE
      modifies vvTried, this`triedGrid
      ensures Mirrors() && triedGrid == Put(old(triedGrid), b, p, id)
    {
      vvTried[b, p] := id;
      triedGrid := Put(triedGrid, b, p, id);
    }

    /** Swap two elements of vRandom. */
    method SwapRandom(nRndPos1: nat, nRndPos2: nat, ghost loose: set<int>, ghost aside: set<int>)
      requires Inv(loose, aside) && nRndPos1 < |vRandom| && nRndPos2 < |vRandom|
      modifies this`mapInfo, this`vRandom
      ensures Inv(loose, aside) && Alike(old(mapInfo), mapInfo) && Undisturbed(old(mapInfo), mapInfo)
      ensures vRandom == old(vRandom)[nRndPos1 := old(vRandom)[nRndPos2]][nRndPos2 := old(vRandom)[nRndPos1]]
      ensures nRndPos1 == nRndPos2 ==> mapInfo == old(mapInfo)
      ensures nRndPos1 != nRndPos2 ==>
        && old(vRandom)[nRndPos1] in old(mapInfo) && old(vRandom)[nRndPos2] in old(mapInfo)
        && mapInfo == Swapped(old(mapInfo), old(vRandom), nRndPos1, nRndPos2)
    {
      if nRndPos1 == nRndPos2 {
        return;
      }
      var nId1 := vRandom[nRndPos1];
      var nId2 := vRandom[nRndPos2];
      SwapKeeps(h, T(), nRndPos1, nRndPos2, loose, aside);
      ghost var t' := T().(mapInfo := Swapped(mapInfo, vRandom, nRndPos1, nRndPos2),
                           vRandom := vRandom[nRndPos1 := nId2][nRndPos2 := nId1]);
      assert nId1 in mapInfo;
      assert nId2 in mapInfo;
      mapInfo := mapInfo[nId1 := mapInfo[nId1].(nRandomPos := nRndPos2)];
      mapInfo := mapInfo[nId2 := mapInfo[nId2].(nRandomPos := nRndPos1)];
      vRandom := vRandom[nRndPos1 := nId2];
      vRandom := vRandom[nRndPos2 := nId1];
      assert T() == t';
    }

    /** Delete an id that is in no table and is the last one of vRandom. */
    method DeleteLast(nId: int, ghost loose: set<int>, ghost aside: set<int>)
      requires Inv(loose + {nId}, aside) && nId !in aside
      requires nId in mapInfo && !mapInfo[nId].fInTried && mapInfo[nId].nRefCount == 0
      requires |vRandom| > 0 && mapInfo[nId].nRandomPos == |vRandom| - 1
      modifies this`mapInfo, this`vRandom, this`mapAddr, this`nNew
      ensures Inv(loose, aside) && T() == Deleted(old(T()), nId)
    {
      DeleteKeeps(h, T(), nId, loose, aside);
      ghost var t' := Deleted(T(), nId);
      vRandom := vRandom[..|vRandom| - 1];
      mapAddr := mapAddr - {mapInfo[nId].service.net};
      mapInfo := mapInfo - {nId};
      nNew := nNew - 1;
      assert T() == t';
    }

    /** Delete an id that is in no table. */
    method Delete(nId: int, ghost loose: set<int>, ghost aside: set<int>)
      requires Inv(loose + {nId}, aside) && nId !in aside
      requires nId in mapInfo && !mapInfo[nId].fInTried && mapInfo[nId].nRefCount == 0
      modifies this`mapInfo, this`vRandom, this`mapAddr, this`nNew
      ensures Inv(loose, aside)
      ensures IsDropped(old(mapInfo), mapInfo, nId)
      ensures |old(vRandom)| > 0 && old(mapInfo)[nId].nRandomPos == |old(vRandom)| - 1 ==>
        T() == Deleted(old(T()), nId)
    {
      assert IdOk(h, T(), loose + {nId}, nId);
      SwapRandom(mapInfo[nId].nRandomPos, |vRandom| - 1, loose + {nId}, aside);
      assert PosOk(T(), |vRandom| - 1);
      ghost var m := mapInfo;
      assert old(mapInfo)[nId].nRandomPos == |old(vRandom)| - 1 ==> vRandom == old(vRandom);
      DeleteLast(nId, loose, aside);
      forall x ensures Meets(mapInfo, x, Dropped(old(mapInfo), nId, x)) {
        assert Meets(m, x, Unchanged(old(mapInfo), x));
      }
    }

    /** Take the id out of an occupied slot of the new table. */
    method TakeFromNew(nUBucket: nat, nUBucketPos: nat, ghost loose: set<int>, ghost loose': set<int>,
                       ghost aside: set<int>)
      requires Inv(loose, aside) && nUBucket < ADDRMAN_NEW_BUCKET_COUNT && nUBucketPos < ADDRMAN_BUCKET_SIZE
      requires newGrid[nUBucket][nUBucketPos] != -1
      requires forall x :: x in loose ==> x in loose'
      requires newGrid[nUBucket][nUBucketPos] in mapInfo && mapInfo[newGrid[nUBucket][nUBucketPos]].nRefCount <= 1 ==>
        newGrid[nUBucket][nUBucketPos] in loose'
      modifies this`mapInfo, this`newGrid, vvNew
      ensures Inv(loose', aside)
      ensures newGrid == Put(old(newGrid), nUBucket, nUBucketPos, -1)
      ensures var d := old(newGrid)[nUBucket][nUBucketPos];
        && d in old(mapInfo) && old(mapInfo)[d].nRefCount > 0 && !old(mapInfo)[d].fInTried
        && mapInfo == old(mapInfo)[d := old(mapInfo)[d].(nRefCount := old(mapInfo)[d].nRefCount - 1)]
    {
      var nId := vvNew[nUBucket, nUBucketPos];
      NewOccupant(h, T(), nUBucket, nUBucketPos, loose, aside);
      assert IdOk(h, T(), loose, nId);
      var info := mapInfo[nId];
      info := info.(nRefCount := info.nRefCount - 1);
      ghost var t' := T().(mapInfo := mapInfo[nId := info], vvNew := Put(newGrid, nUBucket, nUBucketPos, -1));
      NewSlotKeeps(h, T(), nId, info, nUBucket, nUBucketPos, -1, t', loose, loose', aside);
      mapInfo := mapInfo[nId := info];
      SetNew(nUBucket, nUBucketPos, -1);
      assert T() == t';
    }

    /** Take an id out of the only slot of the new table it is in, and delete it. */
    method TakeAndDelete(nIdDelete: int, nUBucket: nat, nUBucketPos: nat, ghost loose: set<int>, ghost aside: set<int>)
      requires Inv(loose, aside) && nUBucket < ADDRMAN_NEW_BUCKET_COUNT && nUBucketPos < ADDRMAN_BUCKET_SIZE
      requires nIdDelete == newGrid[nUBucket][nUBucketPos] != -1 && nIdDelete !in loose + aside
      requires nIdDelete in mapInfo && mapInfo[nIdDelete].nRefCount == 1
      modifies this`mapInfo, this`vRandom, this`mapAddr, this`nNew, this`newGrid, vvNew
      ensures Inv(loose, aside)
      ensures newGrid == Put(old(newGrid), nUBucket, nUBucketPos, -1)
      ensures IsDropped(old(mapInfo), mapInfo, nIdDelete)
    {
      TakeFromNew(nUBucket, nUBucketPos, loose, loose + {nIdDelete}, aside);
      ghost var m := mapInfo;
      Delete(nIdDelete, loose, aside);
      forall x ensures Meets(mapInfo, x, Dropped(old(mapInfo), nIdDelete, x)) {
        assert Meets(mapInfo, x, Dropped(m, nIdDelete, x));
      }
    }

    /** Free a slot of the new table; an id that loses its last reference is deleted. */
    method ClearNew(nUBucket: nat, nUBucketPos: nat, ghost loose: set<int>, ghost aside: set<int>)
      requires Inv(loose, aside) && nUBucket < ADDRMAN_NEW_BUCKET_COUNT && nUBucketPos < ADDRMAN_BUCKET_SIZE
      requires newGrid[nUBucket][nUBucketPos] != -1 ==> newGrid[nUBucket][nUBucketPos] !in loose + aside
      modifies this`mapInfo, this`vRandom, this`mapAddr, this`nNew, this`newGrid, vvNew
      ensures Inv(loose, aside)
      ensures newGrid == Put(old(newGrid), nUBucket, nUBucketPos, -1)
      ensures var d := old(newGrid)[nUBucket][nUBucketPos];
        IsReleased(old(mapInfo), mapInfo, d) && (d != -1 ==> d in old(mapInfo) && !old(mapInfo)[d].fInTried)
    {
      var nIdDelete := vvNew[nUBucket, nUBucketPos];
      if nIdDelete != -1 {
        NewOccupant(h, T(), nUBucket, nUBucketPos, loose, aside);
        assert mapInfo[nIdDelete].nRefCount > 0;
        if mapInfo[nIdDelete].nRefCount == 1 {
          TakeAndDelete(nIdDelete, nUBucket, nUBucketPos, loose, aside);
          DroppedIsReleased(old(mapInfo), mapInfo, nIdDelete);
        } else {
          TakeFromNew(nUBucket, nUBucketPos, loose, loose, aside);
          TakenIsReleased(old(mapInfo), mapInfo, nIdDelete);
        }
      } else {
        PutSame(newGrid, nUBucket, nUBucketPos);
        NoFreeId(h, T(), loose, aside);
        SameIsReleased(mapInfo, -1);
      }
    }

    /** Put an id into its free slot of a new bucket. */
    method PutIntoNew(nId: int, nUBucket: nat, nUBucketPos: nat, ghost loose: set<int>, ghost aside: set<int>)
      requires Inv(loose, aside) && nUBucket < ADDRMAN_NEW_BUCKET_COUNT
      requires nId in mapInfo && !mapInfo[nId].fInTried && mapInfo[nId].nRefCount < ADDRMAN_NEW_BUCKETS_PER_ADDRESS
      requires nUBucketPos == NewPos(h, nUBucket, mapInfo[nId].service) && newGrid[nUBucket][nUBucketPos] == -1
      modifies this`mapInfo, this`newGrid, vvNew
      ensures Inv(loose - {nId}, aside)
      ensures newGrid == Put(old(newGrid), nUBucket, nUBucketPos, nId)
      ensures mapInfo == old(mapInfo)[nId := old(mapInfo)[nId].(nRefCount := old(mapInfo)[nId].nRefCount + 1)]
    {
      assert IdOk(h, T(), loose, nId);
      var info := mapInfo[nId];
      info := info.(nRefCount := info.nRefCount + 1);
      ghost var t' := T().(mapInfo := mapInfo[nId := info], vvNew := Put(newGrid, nUBucket, nUBucketPos, nId));
      NewSlotKeeps(h, T(), nId, info, nUBucket, nUBucketPos, nId, t', loose, loose - {nId}, aside);
      mapInfo := mapInfo[nId := info];
      SetNew(nUBucket, nUBucketPos, nId);
      assert T() == t';
    }

    /** Take an id out of all new buckets. */
    method RemoveFromNew(nId: int)
      requires Inv({}, {}) && nId in mapInfo && !mapInfo[nId].fInTried
      modifies this`mapInfo, this`newGrid, vvNew
      ensures Inv({nId}, {})
      ensures mapInfo == old(mapInfo)[nId := old(mapInfo)[nId].(nRefCount := 0)]
    {
      var s := mapInfo[nId].service;
      LooserKeeps(h, T(), {}, {nId}, {});
      for bucket := 0 to ADDRMAN_NEW_BUCKET_COUNT
        invariant Inv({nId}, {})
        invariant nId in mapInfo
        invariant mapInfo == old(mapInfo)[nId := old(mapInfo)[nId].(nRefCount := mapInfo[nId].nRefCount)]
        invariant forall b :: 0 <= b < bucket ==> newGrid[b][NewPos(h, b, s)] != nId
      {
        var pos := NewPos(h, bucket, s);
        assert IdOk(h, T(), {nId}, nId);
        if vvNew[bucket, pos] == nId {
          TakeFromNew(bucket, pos, {nId}, {nId}, {});
        }
      }
      assert IdOk(h, T(), {nId}, nId);
      RefsZero(h, s, newGrid, nId, ADDRMAN_NEW_BUCKET_COUNT);
    }
  
    /** Take an id out of the tried table; it is then between the tables. */
    method TakeFromTried(id: int, b: nat, p: nat, ghost loose: set<int>, ghost aside: set<int>)
      requires Inv(loose, aside) && id in mapInfo && mapInfo[id].fInTried && mapInfo[id].nRefCount == 0 && id !in aside
      requires b == TriedBucket(h, mapInfo[id].service) && p == TriedPos(h, mapInfo[id].service)
      modifies this`mapInfo, this`triedGrid, this`nTried, vvTried
      ensures Inv(loose + {id}, aside + {id})
      ensures triedGrid == Put(old(triedGrid), b, p, -1)
      ensures mapInfo == old(mapInfo)[id := old(mapInfo)[id].(fInTried := false)]
    {
      var info := mapInfo[id].(fInTried := false);
      ghost var t' := T().(mapInfo := mapInfo[id := info], vvTried := Put(triedGrid, b, p, -1), nTried := nTried - 1);
      TriedSlotKeeps(h, T(), id, info, b, p, t', loose, loose + {id}, aside, aside + {id});
      mapInfo := mapInfo[id := info];
      SetTried(b, p, -1);
      nTried := nTried - 1;
      assert T() == t';
    }

    /** Put an id that is between the tables into its free tried slot. */
    method PutIntoTried(id: int, b: nat, p: nat, ghost loose: set<int>, ghost aside: set<int>)
      requires Inv(loose, aside) && id in mapInfo && !mapInfo[id].fInTried && mapInfo[id].nRefCount == 0 && id in aside
      requires b == TriedBucket(h, mapInfo[id].service) && p == TriedPos(h, mapInfo[id].service)
      requires triedGrid[b][p] == -1
      modifies this`mapInfo, this`triedGrid, this`nTried, vvTried
      ensures Inv(loose - {id}, aside - {id})
      ensures triedGrid == Put(old(triedGrid), b, p, id)
      ensures mapInfo == old(mapInfo)[id := old(mapInfo)[id].(fInTried := true)]
    {
      var info := mapInfo[id].(fInTried := true);
      ghost var t' := T().(mapInfo := mapInfo[id := info], vvTried := Put(triedGrid, b, p, id), nTried := nTried + 1);
      TriedSlotKeeps(h, T(), id, info, b, p, t', loose, loose - {id}, aside, aside - {id});
      SetTried(b, p, id);
      nTried := nTried + 1;
      mapInfo := mapInfo[id := info];
      assert T() == t';
    }

    /** Free a slot of the new table for another id; ids that are between the tables survive this. */
    method ClearFor(id: int, nUBucket: nat, nUBucketPos: nat, ghost loose: set<int>, ghost aside: set<int>)
      requires Inv(loose, aside) && nUBucket < ADDRMAN_NEW_BUCKET_COUNT && nUBucketPos < ADDRMAN_BUCKET_SIZE
      requires forall x :: x in loose + aside && x in mapInfo ==> mapInfo[x].nRefCount == 0
      requires id in mapInfo && (id in loose || newGrid[nUBucket][nUBucketPos] != id)
      modifies this`mapInfo, this`vRandom, this`mapAddr, this`nNew, this`newGrid, vvNew
      ensures Inv(loose, aside) && newGrid == Put(old(newGrid), nUBucket, nUBucketPos, -1)
      ensures id in mapInfo && SameInfo(old(mapInfo)[id], mapInfo[id])
      ensures var d := old(newGrid)[nUBucket][nUBucketPos];
        && d != id && IsReleased(old(mapInfo), mapInfo, d)
        && (d in old(mapInfo) ==> d !in loose + aside && !old(mapInfo)[d].fInTried)
    {
      ghost var d := newGrid[nUBucket][nUBucketPos];
      SlotNotLoose(h, T(), nUBucket, nUBucketPos, loose, aside);
      NoFreeId(h, T(), loose, aside);
      ClearNew(nUBucket, nUBucketPos, loose, aside);
      assert Meets(mapInfo, id, Released(old(mapInfo), d, id));
    }

    /** Enter an id that is between the tables into its free slot of a new bucket and count it again. */
    method EnterNew(id: int, nUBucket: nat, nUBucketPos: nat, ghost loose: set<int>, ghost aside: set<int>)
      requires Inv(loose + {id}, aside + {id}) && id !in aside && id !in loose && nUBucket < ADDRMAN_NEW_BUCKET_COUNT
      requires id in mapInfo && !mapInfo[id].fInTried && mapInfo[id].nRefCount == 0
      requires nUBucketPos == NewPos(h, nUBucket, mapInfo[id].service) && newGrid[nUBucket][nUBucketPos] == -1
      modifies this`mapInfo, this`nNew, this`newGrid, vvNew
      ensures Inv(loose, aside)
      ensures mapInfo == old(mapInfo)[id := old(mapInfo)[id].(nRefCount := old(mapInfo)[id].nRefCount + 1)]
    {
      PutIntoNew(id, nUBucket, nUBucketPos, loose + {id}, aside + {id});
      assert (loose + {id}) - {id} == loose;
      CountAgain(h, T(), id, loose, aside);
      ghost var t' := T().(nNew := nNew + 1);
      nNew := nNew + 1;
      assert T() == t';
    }

    /** Free the slot of its own source for an id that is between the tables, as another may be. */
    method MakeRoom(id: int, ghost nId: int) returns (nUBucket: nat, nUBucketPos: nat, ghost gone: int)
      requires Inv({nId} + {id}, {nId} + {id}) && id in mapInfo && nId in mapInfo
      requires mapInfo[id].nRefCount == 0 && mapInfo[nId].nRefCount == 0
      modifies this`mapInfo, this`vRandom, this`mapAddr, this`nNew, this`newGrid, vvNew
      ensures Inv({nId} + {id}, {nId} + {id}) && nUBucket < ADDRMAN_NEW_BUCKET_COUNT
      ensures id in mapInfo && SameInfo(old(mapInfo)[id], mapInfo[id])
      ensures nUBucketPos == NewPos(h, nUBucket, mapInfo[id].service) && newGrid[nUBucket][nUBucketPos] == -1
      ensures gone != id && IsReleased(old(mapInfo), mapInfo, gone)
      ensures gone != nId && (gone in old(mapInfo) ==> !old(mapInfo)[gone].fInTried)
    {
      var infoOld := mapInfo[id];
      nUBucket := NewBucket(h, infoOld.service, infoOld.source);
      nUBucketPos := NewPos(h, nUBucket, infoOld.service);
      gone := newGrid[nUBucket][nUBucketPos];
      ClearFor(id, nUBucket, nUBucketPos, {nId} + {id}, {nId} + {id});
    }

    /** Enter an id that is between the tables into the new table. */
    method ReturnToNew(id: int, ghost nId: int) returns (ghost gone: int)
      requires Inv({nId} + {id}, {nId} + {id}) && id != nId && id in mapInfo && nId in mapInfo
      requires !mapInfo[id].fInTried && mapInfo[id].nRefCount == 0 && mapInfo[nId].nRefCount == 0
      modifies this`mapInfo, this`vRandom, this`mapAddr, this`nNew, this`newGrid, vvNew
      ensures Inv({nId}, {nId})
      ensures gone != id &&
        IsInserted(old(mapInfo), mapInfo, gone, id, old(mapInfo)[id].(nRefCount := old(mapInfo)[id].nRefCount + 1))
      ensures gone != nId && (gone in old(mapInfo) ==> !old(mapInfo)[gone].fInTried)
    {
      var nUBucket, nUBucketPos;
      nUBucket, nUBucketPos, gone := MakeRoom(id, nId);
      ghost var m := mapInfo;
      EnterNew(id, nUBucket, nUBucketPos, {nId}, {nId});
      InsertedBy(old(mapInfo), m, mapInfo, gone, id, old(mapInfo)[id].(nRefCount := old(mapInfo)[id].nRefCount + 1));
    }

    /**
      Move the id in an occupied tried slot back to the new table, making room for `nId`, which is between the
      tables.
     */
    method EvictTried(nKBucket: nat, nKBucketPos: nat, ghost nId: int) returns (ghost gone: int)
      requires Inv({nId}, {nId}) && nKBucket < ADDRMAN_TRIED_BUCKET_COUNT && nKBucketPos < ADDRMAN_BUCKET_SIZE
      requires triedGrid[nKBucket][nKBucketPos] != -1
      requires nId in mapInfo && !mapInfo[nId].fInTried && mapInfo[nId].nRefCount == 0
      modifies this`mapInfo, this`vRandom, this`mapAddr, this`nNew, this`nTried, this`newGrid, this`triedGrid, vvNew,
               vvTried
      ensures Inv({nId}, {nId})
      ensures triedGrid == Put(old(triedGrid), nKBucket, nKBucketPos, -1)
      ensures var e := old(triedGrid)[nKBucket][nKBucketPos];
        && e in old(mapInfo) && old(mapInfo)[e].fInTried && gone != e && gone != nId
        && (gone in old(mapInfo) ==> !old(mapInfo)[gone].fInTried)
        && var m := old(mapInfo)[e := old(mapInfo)[e].(fInTried := false)];
           IsInserted(m, mapInfo, gone, e, m[e].(nRefCount := m[e].nRefCount + 1))
      ensures nId in mapInfo && SameInfo(old(mapInfo)[nId], mapInfo[nId])
    {
      var nIdEvict := vvTried[nKBucket, nKBucketPos];
      TriedOccupant(h, T(), nKBucket, nKBucketPos, {nId}, {nId});
      TakeFromTried(nIdEvict, nKBucket, nKBucketPos, {nId}, {nId});
      ghost var m := mapInfo;
      gone := ReturnToNew(nIdEvict, nId);
      EvictedKeeps(old(mapInfo), m, mapInfo, nIdEvict, gone, nId);
    }
  
    /**
      Move an id from the new table to the tried table.  Whatever was in its tried slot goes back to the new
      table, which may displace one new id with a single reference; nothing else changes.
     */
    method MakeTried(nId: int) returns (ghost gone: int)
      requires Inv({}, {}) && nId in mapInfo && !mapInfo[nId].fInTried
      modifies this`mapInfo, this`vRandom, this`mapAddr, this`nNew, this`nTried, this`newGrid, this`triedGrid, vvNew,
               vvTried
      ensures Inv({}, {})
      ensures var s := old(mapInfo)[nId].service;
        triedGrid == Put(old(triedGrid), TriedBucket(h, s), TriedPos(h, s), nId)
      ensures IsPromoted(h, old(T()), T(), nId, gone)
    {
      LeaveNew(nId);
      assert mapInfo[nId].nRefCount == 0;
      ghost var t := T();
      gone := MoveToTried(nId);
      LeftIsPromoted(h, old(T()), t, T(), nId, gone);
    }

    /** Take an id out of the new table altogether and stop counting it. */
    method LeaveNew(nId: int)
      requires Inv({}, {}) && nId in mapInfo && !mapInfo[nId].fInTried
      modifies this`mapInfo, this`newGrid, this`nNew, vvNew
      ensures Inv({nId}, {nId})
      ensures mapInfo == old(mapInfo)[nId := old(mapInfo)[nId].(nRefCount := 0)]
    {
      RemoveFromNew(nId);
      SetAside(h, T(), nId, {nId}, {});
      ghost var t' := T().(nNew := nNew - 1);
      nNew := nNew - 1;
      assert T() == t' && {} + {nId} == {nId};
    }

    /** Put an id that is between the tables into the tried table, evicting what is in its slot. */
    method MoveToTried(nId: int) returns (ghost gone: int)
      requires Inv({nId}, {nId}) && nId in mapInfo && !mapInfo[nId].fInTried && mapInfo[nId].nRefCount == 0
      modifies this`mapInfo, this`vRandom, this`mapAddr, this`nNew, this`nTried, this`newGrid, this`triedGrid, vvNew,
               vvTried
      ensures Inv({}, {})
      ensures var s := old(mapInfo)[nId].service;
        triedGrid == Put(old(triedGrid), TriedBucket(h, s), TriedPos(h, s), nId)
      ensures IsPromoted(h, old(T()), T(), nId, gone)
    {
      var nKBucket := TriedBucket(h, mapInfo[nId].service);
      var nKBucketPos := TriedPos(h, mapInfo[nId].service);
      gone := -1;
      NoFreeId(h, T(), {nId}, {nId});
      if vvTried[nKBucket, nKBucketPos] != -1 {
        gone := EvictTried(nKBucket, nKBucketPos, nId);
      }
      assert vvTried[nKBucket, nKBucketPos] == -1;
      PutTwice(old(triedGrid), nKBucket, nKBucketPos, nId);
      ghost var m := mapInfo;
      PutIntoTried(nId, nKBucket, nKBucketPos, {nId}, {nId});
      PromotedBy(old(mapInfo), m, mapInfo, nId, old(triedGrid)[nKBucket][nKBucketPos], gone);
      assert {nId} - {nId} == {};
    }
  
    /** Change statistics of an id. */
    method SetInfo(nId: int, info: AddrInfo, ghost loose: set<int>, ghost aside: set<int>)
      requires Inv(loose, aside) && nId in mapInfo
      requires SameEntry(mapInfo[nId], info) && info.nRandomPos == mapInfo[nId].nRandomPos
      modifies this`mapInfo
      ensures Inv(loose, aside) && Alike(old(mapInfo), mapInfo) && mapInfo == old(mapInfo)[nId := info]
    {
      StatisticsKeep(h, T(), nId, info, loose, aside);
      ghost var t' := T().(mapInfo := mapInfo[nId := info]);
      mapInfo := mapInfo[nId := info];
      assert T() == t';
    }

    /** Search the new buckets for an id, starting anywhere: there is always one that holds it. */
    method FindBucket(nId: int, nRnd: nat) returns (nUBucket: int)
      requires Inv({}, {}) && nId in mapInfo && !mapInfo[nId].fInTried && nRnd < ADDRMAN_NEW_BUCKET_COUNT
      ensures 0 <= nUBucket < ADDRMAN_NEW_BUCKET_COUNT
      ensures newGrid[nUBucket][NewPos(h, nUBucket, mapInfo[nId].service)] == nId
    {
      nUBucket := -1;
      var s := mapInfo[nId].service;
      var n := 0;
      while n < ADDRMAN_NEW_BUCKET_COUNT && nUBucket == -1
        invariant 0 <= n <= ADDRMAN_NEW_BUCKET_COUNT
        invariant nUBucket != -1 ==>
          0 <= nUBucket < ADDRMAN_NEW_BUCKET_COUNT && newGrid[nUBucket][NewPos(h, nUBucket, s)] == nId
        invariant nUBucket == -1 ==> forall k: nat :: k < n ==>
          newGrid[BucketAt(k, nRnd)][NewPos(h, BucketAt(k, nRnd), s)] != nId
      {
        var nB := BucketAt(n, nRnd);
        var nBpos := NewPos(h, nB, s);
        if vvNew[nB, nBpos] == nId {
          nUBucket := nB;
        }
        n := n + 1;
      }
      if nUBucket == -1 {
        assert IdOk(h, T(), {}, nId);
        forall b | 0 <= b < ADDRMAN_NEW_BUCKET_COUNT ensures newGrid[b][NewPos(h, b, s)] != nId {
          var k := EveryBucketVisited(nRnd, b);
        }
        RefsZero(h, s, newGrid, nId, ADDRMAN_NEW_BUCKET_COUNT);
      }
    }

    /**
      Mark an address as good.  Its id is moved to the tried table unless it is there already, or the slot is
      taken and the occupant is to be tested first.  The search for its new bucket never fails.
     */
    method Good_(addr: Service, test_before_evict: bool, nTime: int, nRnd: nat)
      returns (outcome: GoodOutcome, ghost gone: int)
      requires Valid() && nRnd < ADDRMAN_NEW_BUCKET_COUNT
      modifies this, vvNew, vvTried
      ensures Valid() && nLastGood == nTime && Evolves(old(T()), T()) && Displaced(old(mapInfo), mapInfo, gone)
      ensures outcome == NotKnown <==> addr.net !in old(mapAddr)
      ensures outcome != NoBucketFound
      ensures addr.net in old(mapAddr) ==>
        && old(mapAddr)[addr.net] in old(mapInfo)
        && (outcome == OtherService <==> old(mapInfo)[old(mapAddr)[addr.net]].service != addr)
      ensures outcome.NotKnown? || outcome.OtherService? ==> T() == old(T()) && triedCollisions == old(triedCollisions)
      ensures !outcome.NotKnown? && !outcome.OtherService? ==>
        && Decided(h, old(T()), old(mapAddr)[addr.net], test_before_evict, outcome)
        && Settles(h, MarkedAt(old(T()), old(mapAddr)[addr.net], nTime), old(triedCollisions), T(), triedCollisions,
                   old(mapAddr)[addr.net], outcome, gone)
      ensures TriedStay(old(mapInfo), mapInfo, test_before_evict)
    {
      nLastGood := nTime;
      EvolvesAlike(T(), T());
      if addr.net !in mapAddr {
        return NotKnown, -1;
      }
      assert NetOk(T(), addr.net);
      var nId := mapAddr[addr.net];
      if mapInfo[nId].service != addr {
        return OtherService, -1;
      }
      outcome, gone := Promote(nId, test_before_evict, nTime, nRnd);
    }

    /** The part of `Good_` for a known address. */
    method Promote(nId: int, test_before_evict: bool, nTime: int, nRnd: nat)
      returns (outcome: GoodOutcome, ghost gone: int)
      requires Valid() && nRnd < ADDRMAN_NEW_BUCKET_COUNT && nId in mapInfo
      modifies this`mapInfo, this`vRandom, this`mapAddr, this`nNew, this`nTried, this`newGrid, this`triedGrid,
               this`triedCollisions, vvNew, vvTried
      ensures Valid() && Evolves(old(T()), T()) && Displaced(old(mapInfo), mapInfo, gone)
      ensures Decided(h, old(T()), nId, test_before_evict, outcome)
      ensures Settles(h, MarkedAt(old(T()), nId, nTime), old(triedCollisions), T(), triedCollisions, nId, outcome, gone)
      ensures TriedStay(old(mapInfo), mapInfo, test_before_evict)
    {
      var info := mapInfo[nId];
      SetInfo(nId, info.(nLastSuccess := nTime, nLastTry := nTime, nAttempts := 0), {}, {});
      ghost var t := T();
      EvolvesAlike(old(T()), t);
      CollisionsKeep(h, old(T()), T(), triedCollisions);
      if info.fInTried {
        return AlreadyTried, -1;
      }
      var nUBucket := FindBucket(nId, nRnd);
      if nUBucket == -1 {
        return NoBucketFound, -1;
      }
      outcome, gone := TryToMove(nId, test_before_evict);
      EvolvesTransitive(h, old(T()), t, T(), {}, {});
      SameStart(h, old(T()), t, T(), nId, test_before_evict, outcome, gone);
    }

    method TryToMove(nId: int, test_before_evict: bool) returns (outcome: GoodOutcome, ghost gone: int)
      requires Valid() && nId in mapInfo && !mapInfo[nId].fInTried
      modifies this`mapInfo, this`vRandom, this`mapAddr, this`nNew, this`nTried, this`newGrid, this`triedGrid,
               this`triedCollisions, vvNew, vvTried
      ensures Valid() && Evolves(old(T()), T()) && Displaced(old(mapInfo), mapInfo, gone)
      ensures Decided(h, old(T()), nId, test_before_evict, outcome)
      ensures Settles(h, old(T()), old(triedCollisions), T(), triedCollisions, nId, outcome, gone)
      ensures TriedStay(old(mapInfo), mapInfo, test_before_evict)
    {
      var info := mapInfo[nId];
      var tried_bucket := TriedBucket(h, info.service);
      var tried_bucket_pos := TriedPos(h, info.service);
      assert IdOk(h, T(), {}, nId);
      EvolvesAlike(T(), T());
      if test_before_evict && vvTried[tried_bucket, tried_bucket_pos] != -1 {
        if |triedCollisions| < ADDRMAN_SET_TRIED_COLLISION_SIZE {
          AddCollision(nId);
        }
        outcome, gone := Collided, -1;
      } else {
        gone := MakeTried(nId);
        MovedEvolves(h, old(T()), T(), nId, gone);
        CollisionsKeep(h, old(T()), T(), triedCollisions);
        StillTried(h, old(T()), T(), tried_bucket, tried_bucket_pos, nId);
        outcome := MovedToTried;
      }
    }

    method AddCollision(nId: int)
      requires Valid() && |triedCollisions| < ADDRMAN_SET_TRIED_COLLISION_SIZE && nId in mapInfo
      requires triedGrid[TriedBucket(h, mapInfo[nId].service)][TriedPos(h, mapInfo[nId].service)] != -1
      modifies this`triedCollisions
      ensures Valid() && triedCollisions == old(triedCollisions) + {nId}
    {
      assert IdOk(h, T(), {}, nId);
      triedCollisions := triedCollisions + {nId};
      forall id | id in triedCollisions ensures CollisionOk(h, T(), id) {
        if id != nId { assert old(CollisionOk(h, T(), id)); }
      }
    }
  
    /** Create an id for an unknown address; it is not in any table yet. */
    method Create(addr: Address, addrSource: NetAddr, nTimePenalty: int) returns (nId: int)
      requires Inv({}, {}) && addr.service.net !in mapAddr
      modifies this`mapInfo, this`mapAddr, this`vRandom, this`nIdCount, this`nNew
      ensures nId == old(nIdCount) && Inv({nId}, {})
      ensures T() == Created(old(T()), Announced(addr, addrSource, nTimePenalty).(nRandomPos := |old(vRandom)|))
    {
      nId := nIdCount;
      var info := AddrInfo(addr.service, addr.nServices, addr.nTime, addrSource, 0, 0, 0, 0, 0, false, |vRandom|);
      info := info.(nTime := Max(0, info.nTime - nTimePenalty));
      CreateKeeps(h, T(), info, {}, {});
      ghost var t' := Created(T(), info);
      nIdCount := nIdCount + 1;
      mapInfo := mapInfo[nId := info];
      mapAddr := mapAddr[addr.service.net := nId];
      vRandom := vRandom + [nId];
      nNew := nNew + 1;
      assert T() == t' && {} + {nId} == {nId};
    }

    /** Give an id one more reference in place of whatever is in a slot. */
    method InsertNew(nId: int, nUBucket: nat, nUBucketPos: nat, ghost loose: set<int>)
      requires Inv(loose, {}) && nId in mapInfo && !mapInfo[nId].fInTried
      requires mapInfo[nId].nRefCount < ADDRMAN_NEW_BUCKETS_PER_ADDRESS
      requires loose == if mapInfo[nId].nRefCount == 0 then {nId} else {}
      requires nUBucket < ADDRMAN_NEW_BUCKET_COUNT && nUBucketPos == NewPos(h, nUBucket, mapInfo[nId].service)
      requires newGrid[nUBucket][nUBucketPos] != nId
      modifies this`mapInfo, this`vRandom, this`mapAddr, this`nNew, this`newGrid, vvNew
      ensures Inv({}, {}) && newGrid == Put(old(newGrid), nUBucket, nUBucketPos, nId)
      ensures IsInserted(old(mapInfo), mapInfo, old(newGrid)[nUBucket][nUBucketPos], nId,
                         old(mapInfo)[nId].(nRefCount := old(mapInfo)[nId].nRefCount + 1))
    {
      ghost var d := newGrid[nUBucket][nUBucketPos];
      ClearFor(nId, nUBucket, nUBucketPos, loose, {});
      ghost var m := mapInfo;
      PutTwice(old(newGrid), nUBucket, nUBucketPos, nId);
      PutIntoNew(nId, nUBucket, nUBucketPos, loose, {});
      InsertedBy(old(mapInfo), m, mapInfo, d, nId, old(mapInfo)[nId].(nRefCount := old(mapInfo)[nId].nRefCount + 1));
      assert loose - {nId} == {};
    }

    /** Drop an id that got no reference. */
    method DropNew(nId: int)
      requires Inv({nId}, {}) && nId in mapInfo && !mapInfo[nId].fInTried && mapInfo[nId].nRefCount == 0
      requires |vRandom| > 0 && mapInfo[nId].nRandomPos == |vRandom| - 1
      modifies this`mapInfo, this`vRandom, this`mapAddr, this`nNew
      ensures Inv({}, {}) && T() == Deleted(old(T()), nId) && Evolves(old(T()), T())
    {
      assert {} + {nId} == {nId};
      Delete(nId, {}, {});
      forall x | x in mapInfo ensures EvolvesAt(old(T()), T(), x) {}
    }

    method CanTake(nId: int, nUBucket: nat, nUBucketPos: nat, nNow: int, ghost loose: set<int>) returns (fInsert: bool)
      requires Inv(loose, {}) && nId in mapInfo
      requires nUBucket < ADDRMAN_NEW_BUCKET_COUNT && nUBucketPos < ADDRMAN_BUCKET_SIZE
      ensures fInsert == IsOpenFor(T(), nUBucket, nUBucketPos, mapInfo[nId].nRefCount, nNow)
    {
      fInsert := vvNew[nUBucket, nUBucketPos] == -1;
      if !fInsert {
        NewOccupant(h, T(), nUBucket, nUBucketPos, loose, {});
        var infoExisting := mapInfo[vvNew[nUBucket, nUBucketPos]];
        if IsTerrible(infoExisting, nNow) || (infoExisting.nRefCount > 1 && mapInfo[nId].nRefCount == 0) {
          fInsert := true;
        }
      }
    }

    /** Give an id one more reference at the slot of a source, or drop it if it gets none. */
    method PlaceNew(nId: int, source: NetAddr, nNow: int, ghost loose: set<int>) returns (ghost gone: int)
      requires Inv(loose, {}) && loose <= {nId} && nId in mapInfo && !mapInfo[nId].fInTried
      requires mapInfo[nId].nRefCount < ADDRMAN_NEW_BUCKETS_PER_ADDRESS
      requires mapInfo[nId].nRefCount == 0 <==> nId in loose
      requires nId in loose ==> |vRandom| > 0 && mapInfo[nId].nRandomPos == |vRandom| - 1
      modifies this`mapInfo, this`vRandom, this`mapAddr, this`nNew, this`newGrid, vvNew
      ensures Inv({}, {}) && IsPlaced(h, old(T()), T(), nId, source, nNow)
      ensures gone != nId ==> Displaced(old(mapInfo), mapInfo, gone)
      ensures LostAtMost(old(mapInfo), mapInfo, gone) && Evolves(old(T()), T()) && mapInfo.Keys <= old(mapInfo).Keys
      ensures nId !in loose ==> nId in mapInfo
    {
      gone := nId;
      EvolvesAlike(T(), T());
      assert IdOk(h, T(), loose, nId);
      RefsZero(h, mapInfo[nId].service, newGrid, nId, ADDRMAN_NEW_BUCKET_COUNT);
      var nUBucket := NewBucket(h, mapInfo[nId].service, source);
      var nUBucketPos := NewPos(h, nUBucket, mapInfo[nId].service);
      assert loose == if mapInfo[nId].nRefCount == 0 then {nId} else {};
      if vvNew[nUBucket, nUBucketPos] != nId {
        var fInsert := CanTake(nId, nUBucket, nUBucketPos, nNow, loose);
        if fInsert {
          gone := newGrid[nUBucket][nUBucketPos];
          SlotNotTried(h, T(), nUBucket, nUBucketPos, loose);
          InsertNew(nId, nUBucket, nUBucketPos, loose);
          InsertedEvolves(old(T()), T(), gone, nId,
                          old(mapInfo)[nId].(nRefCount := old(mapInfo)[nId].nRefCount + 1));
        } else if mapInfo[nId].nRefCount == 0 {
          DropNew(nId);
        }
      }
    }

    /**
      Add an address heard of from a source. An unknown routable one gets an id and one reference exactly if its slot
      is open; a known one is refreshed and may gain a reference. At most one other id, a new one with a single
      reference, makes room, and the tried table does not change. `random` stands for the random number.
     */
    method Add_(addr: Address, isRoutable: bool, source: NetAddr, penalty: int, nNow: int, random: nat)
      returns (fNew: bool, ghost gone: int)
      requires Valid()
      modifies this`mapInfo, this`vRandom, this`mapAddr, this`nIdCount, this`nNew, this`newGrid, vvNew
      ensures Valid() && Evolves(old(T()), T()) && Displaced(old(mapInfo), mapInfo, gone)
      ensures fNew <==> isRoutable && addr.service.net !in old(mapAddr)
      ensures !isRoutable ==> T() == old(T())
      ensures fNew ==>
        var b := NewBucket(h, addr.service, source); var p := NewPos(h, b, addr.service); var id := old(nIdCount);
        && IsAdded(h, old(T()), T(), Announced(addr, source, Penalty(addr, source, penalty)), source, nNow)
        && (id in mapInfo <==> IsOpenFor(old(T()), b, p, 0, nNow))
        && (id in mapInfo ==> newGrid == Put(old(newGrid), b, p, id))
      ensures isRoutable && !fNew ==>
        var id := old(mapAddr)[addr.service.net];
        && id in old(mapInfo)
        && IsAnnouncedAgain(h, old(T()), T(), id, addr, source, Penalty(addr, source, penalty), nNow, random)
      ensures forall x :: x in mapInfo && x !in old(mapInfo) ==>
        fNew && x == old(nIdCount) &&
        SameInfo(Announced(addr, source, Penalty(addr, source, penalty)).(nRefCount := 1), mapInfo[x])
    {
      EvolvesAlike(T(), T());
      if !isRoutable {
        return false, -1;
      }
      var nTimePenalty := Penalty(addr, source, penalty);
      if addr.service.net in mapAddr {
        gone := AddKnown(addr, source, nTimePenalty, nNow, random);
        fNew := false;
      } else {
        gone := AddUnknown(addr, source, nTimePenalty, nNow);
        fNew := true;
      }
      CollisionsKeep(h, old(T()), T(), triedCollisions);
    }

    method AddUnknown(addr: Address, source: NetAddr, nTimePenalty: int, nNow: int) returns (ghost gone: int)
      requires Inv({}, {}) && addr.service.net !in mapAddr
      modifies this`mapInfo, this`vRandom, this`mapAddr, this`nIdCount, this`nNew, this`newGrid, vvNew
      ensures Inv({}, {}) && Evolves(old(T()), T()) && Displaced(old(mapInfo), mapInfo, gone)
      ensures var b := NewBucket(h, addr.service, source); var p := NewPos(h, b, addr.service); var id := old(nIdCount);
        && IsAdded(h, old(T()), T(), Announced(addr, source, nTimePenalty), source, nNow)
        && (id in mapInfo <==> IsOpenFor(old(T()), b, p, 0, nNow))
        && (id in mapInfo ==> newGrid == Put(old(newGrid), b, p, id))
      ensures forall x :: x in mapInfo && x !in old(mapInfo) ==>
        x == old(nIdCount) && SameInfo(Announced(addr, source, nTimePenalty).(nRefCount := 1), mapInfo[x])
    {
      ghost var info := Announced(addr, source, nTimePenalty);
      var nUBucket := NewBucket(h, addr.service, source);
      gone := newGrid[nUBucket][NewPos(h, nUBucket, addr.service)];
      var nId := Create(addr, source, nTimePenalty);
      ghost var _ := PlaceNew(nId, source, nNow, {nId});
      PlacedIsAdded(h, old(T()), T(), info.(nRandomPos := |old(vRandom)|), source, nNow);
      AddedEvolves(h, old(T()), T(), info, source, nNow);
    }

    method AddKnown(addr: Address, source: NetAddr, nTimePenalty: int, nNow: int, random: nat) returns (ghost gone: int)
      requires Inv({}, {}) && addr.service.net in mapAddr
      modifies this`mapInfo, this`vRandom, this`mapAddr, this`nNew, this`newGrid, vvNew
      ensures Inv({}, {}) && Evolves(old(T()), T()) && Displaced(old(mapInfo), mapInfo, gone)
      ensures old(mapAddr)[addr.service.net] in old(mapInfo) && mapInfo.Keys <= old(mapInfo).Keys
      ensures IsAnnouncedAgain(h, old(T()), T(), old(mapAddr)[addr.service.net], addr, source, nTimePenalty, nNow,
                               random)
    {
      gone := -1;
      assert NetOk(T(), addr.service.net);
      var nId := mapAddr[addr.service.net];
      SetInfo(nId, Refreshed(mapInfo[nId], addr, nTimePenalty, nNow), {}, {});
      ghost var m, t := mapInfo, T();
      EvolvesAlike(old(T()), t);
      var info := mapInfo[nId];
      assert IdOk(h, T(), {}, nId);
      var gains := CheckGain(info, addr, random);
      if gains {
        gone := PlaceNew(nId, source, nNow, {});
        EvolvesTransitive(h, old(T()), t, T(), {}, {});
        assert gone in m ==> SameEntry(old(mapInfo)[gone], m[gone]);
      }
    }

    method CheckGain(info: AddrInfo, addr: Address, random: nat) returns (gains: bool)
      ensures gains == MayGain(info, addr, random)
    {
      if addr.nTime == 0 || (info.nTime != 0 && addr.nTime <= info.nTime) {
        return false;
      }
      if info.fInTried {
        return false;
      }
      if info.nRefCount == ADDRMAN_NEW_BUCKETS_PER_ADDRESS {
        return false;
      }
      var nFactor := 1;
      var n := 0;
      while n < info.nRefCount
        invariant 0 <= n && (n <= info.nRefCount || n == 0) && nFactor == Factor(n)
      {
        n := n + 1;
        nFactor := nFactor * 2;
      }
      gains := !(nFactor > 1 && random % nFactor != 0);
    }
  
    /** Record an attempted connection. */
    method Attempt_(addr: Service, fCountFailure: bool, nTime: int)
      requires Valid()
      modifies this`mapInfo
      ensures Valid() && Alike(old(mapInfo), mapInfo)
      ensures mapInfo ==
        if addr.net in mapAddr && mapAddr[addr.net] in old(mapInfo) && old(mapInfo)[mapAddr[addr.net]].service == addr
        then old(mapInfo)[mapAddr[addr.net] :=
                            Attempted(old(mapInfo)[mapAddr[addr.net]], fCountFailure, nTime, nLastGood)]
        else old(mapInfo)
    {
      if addr.net !in mapAddr {
        return;
      }
      assert NetOk(T(), addr.net);
      var nId := mapAddr[addr.net];
      var info := mapInfo[nId];
      if info.service != addr {
        return;
      }
      info := info.(nLastTry := nTime);
      if fCountFailure && info.nLastCountAttempt < nLastGood {
        info := info.(nLastCountAttempt := nTime, nAttempts := info.nAttempts + 1);
      }
      SetInfo(nId, info, {}, {});
      EvolvesAlike(old(T()), T());
      CollisionsKeep(h, old(T()), T(), triedCollisions);
    }

    /** Swap a random remaining element of vRandom to position n; what was gathered before stays. */
    method DrawNext(n: nat, ghost ids: seq<int>, ghost at: seq<nat>, ghost vAddr: seq<Service>, nNow: int)
      requires Inv({}, {}) && n < |vRandom| && Gathered(vRandom, n, ids, at) && |ids| == |vAddr|
      requires forall k :: 0 <= k < |ids| ==> Selected(mapInfo, ids[k], vAddr[k], nNow)
      requires AllTaken(mapInfo, vRandom, n, ids, nNow)
      modifies this`mapInfo, this`vRandom
      ensures Inv({}, {}) && Alike(old(mapInfo), mapInfo) && AllTaken(mapInfo, vRandom, n, ids, nNow)
      ensures |vRandom| == |old(vRandom)| && Gathered(vRandom, n, ids, at) && vRandom[n] in mapInfo
      ensures forall k :: 0 <= k < |ids| ==> Selected(mapInfo, ids[k], vAddr[k], nNow)
    {
      var random: nat :| random < |vRandom| - n;
      var nRndPos := random + n;
      SwapRandom(n, nRndPos, {}, {});
      GatheredSwap(old(vRandom), vRandom, n, nRndPos, ids, at);
      SelectedStays(old(mapInfo), old(vRandom), n, nRndPos, mapInfo, ids, vAddr, nNow);
      TakenStays(old(mapInfo), old(vRandom), mapInfo, vRandom, n, nRndPos, ids, nNow);
      assert PosOk(T(), n);
    }

    /** Walk through vRandom in random order until enough good addresses are found. */
    method Gather(nNodes: nat, nNow: int) returns (vAddr: seq<Service>, ghost ids: seq<int>, ghost at: seq<nat>)
      requires Inv({}, {})
      modifies this`mapInfo, this`vRandom
      ensures Inv({}, {}) && Alike(old(mapInfo), mapInfo)
      ensures |ids| == |vAddr| <= nNodes && Gathered(vRandom, |vRandom|, ids, at)
      ensures forall k :: 0 <= k < |ids| ==> Selected(mapInfo, ids[k], vAddr[k], nNow)
      ensures |ids| == nNodes || AllTaken(mapInfo, vRandom, |vRandom|, ids, nNow)
    {
      vAddr, ids, at := [], [], [];
      var n: nat := 0;
      while n < |vRandom| && |vAddr| < nNodes
        invariant 0 <= n <= |vRandom| == |old(vRandom)|
        invariant Inv({}, {}) && Alike(old(mapInfo), mapInfo)
        invariant |ids| == |vAddr| <= nNodes
        invariant Gathered(vRandom, n, ids, at) && AllTaken(mapInfo, vRandom, n, ids, nNow)
        invariant forall k :: 0 <= k < |ids| ==> Selected(mapInfo, ids[k], vAddr[k], nNow)
      {
        ghost var m := mapInfo;
        vAddr, ids, at := GatherNext(n, vAddr, ids, at, nNow);
        AlikeTransitive(old(mapInfo), m, mapInfo);
        n := n + 1;
      }
    }

    /** Draw the next one, and take it unless it is terrible. */
    method GatherNext(n: nat, vAddr: seq<Service>, ghost ids: seq<int>, ghost at: seq<nat>, nNow: int)
      returns (vAddr': seq<Service>, ghost ids': seq<int>, ghost at': seq<nat>)
      requires Inv({}, {}) && n < |vRandom| && Gathered(vRandom, n, ids, at) && |ids| == |vAddr|
      requires forall k :: 0 <= k < |ids| ==> Selected(mapInfo, ids[k], vAddr[k], nNow)
      requires AllTaken(mapInfo, vRandom, n, ids, nNow)
      modifies this`mapInfo, this`vRandom
      ensures Inv({}, {}) && Alike(old(mapInfo), mapInfo) && |vRandom| == |old(vRandom)|
      ensures |ids'| == |vAddr'| <= |vAddr| + 1 && Gathered(vRandom, n + 1, ids', at')
      ensures AllTaken(mapInfo, vRandom, n + 1, ids', nNow)
      ensures forall k :: 0 <= k < |ids'| ==> Selected(mapInfo, ids'[k], vAddr'[k], nNow)
    {
      DrawNext(n, ids, at, vAddr, nNow);
      var ai := mapInfo[vRandom[n]];
      vAddr', ids', at' := vAddr, ids, at;
      GatheredNext(vRandom, n, ids, at);
      TakenNext(mapInfo, vRandom, n, ids, nNow);
      if !IsTerrible(ai, nNow) {
        SelectedAppend(mapInfo, ids, vAddr, vRandom[n], nNow);
        vAddr' := vAddr + [ai.service];
        ids' := ids + [vRandom[n]];
        at' := at + [n];
      }
    }

    /**
      Select some addresses at random: known ones that are not terrible, no two of them equal, at most 23
      percent of all and at most 2500.
     */
    method GetAddr_(nNow: int) returns (vAddr: seq<Service>, ghost ids: seq<int>)
      requires Valid()
      modifies this`mapInfo, this`vRandom
      ensures Valid() && Alike(old(mapInfo), mapInfo)
      ensures |ids| == |vAddr| && 100 * |vAddr| <= ADDRMAN_GETADDR_MAX_PCT * |mapInfo| && |vAddr| <= ADDRMAN_GETADDR_MAX
      ensures forall k :: 0 <= k < |ids| ==> Selected(mapInfo, ids[k], vAddr[k], nNow)
      ensures forall j, k :: 0 <= j < k < |vAddr| ==> vAddr[j] != vAddr[k]
      ensures |vAddr| ==
        Min(Min(ADDRMAN_GETADDR_MAX_PCT * |old(mapInfo)| / 100, ADDRMAN_GETADDR_MAX), |GoodIds(mapInfo, nNow)|)
    {
      var nNodes := ADDRMAN_GETADDR_MAX_PCT * |vRandom| / 100;
      if nNodes > ADDRMAN_GETADDR_MAX {
        nNodes := ADDRMAN_GETADDR_MAX;
      }
      RandomSize(h, T(), {}, {});
      ghost var at;
      vAddr, ids, at := Gather(nNodes, nNow);
      EvolvesAlike(old(T()), T());
      CollisionsKeep(h, old(T()), T(), triedCollisions);
      GatheredDistinct(h, T(), |vRandom|, ids, at, vAddr, nNow);
      GatheredCount(h, T(), ids, at, vAddr, nNow, nNodes);
      assert mapInfo.Keys == old(mapInfo).Keys;
    }

    /**
      Look at every recorded collision: drop it, wait, or put the colliding id into the tried slot.  No
      collision is added, and one stays exactly if it was not settled when its turn came.
     */
    method ResolveCollisions_(invalid: set<Service>, nNow: int) returns (ghost turn: map<int, Tables>)
      requires Valid()
      modifies this, vvNew, vvTried
      ensures Valid() && triedCollisions <= old(triedCollisions) && Evolves(old(T()), T())
      ensures turn.Keys == old(triedCollisions)
      ensures forall id :: id in turn ==> Judged(h, turn[id], id, invalid, nNow, triedCollisions)
    {
      EvolvesAlike(T(), T());
      var todo := triedCollisions;
      turn := map[];
      while todo != {}
        invariant Valid() && todo <= triedCollisions <= old(triedCollisions) && Evolves(old(T()), T())
        invariant turn.Keys == old(triedCollisions) - todo
        invariant forall id :: id in turn ==> Judged(h, turn[id], id, invalid, nNow, triedCollisions)
        decreases |todo|
      {
        SomeElement(todo);
        var id_new :| id_new in todo;
        ghost var t := T();
        ghost var before := turn;
        var erase_collision := ResolveCollision(id_new, invalid, nNow);
        EvolvesTransitive(h, old(T()), t, T(), {}, {});
        todo := todo - {id_new};
        if erase_collision {
          DropCollision(id_new);
        }
        turn := turn[id_new := t];
        forall id | id in turn ensures Judged(h, turn[id], id, invalid, nNow, triedCollisions) {
          assert id != id_new ==> id in before && turn[id] == before[id];
        }
      }
    }

    method ResolveCollision(id_new: int, invalid: set<Service>, nNow: int) returns (erase_collision: bool)
      requires Valid() && id_new in triedCollisions
      modifies this, vvNew, vvTried
      ensures Valid() && triedCollisions == old(triedCollisions) && Evolves(old(T()), T())
      ensures erase_collision <==> IsSettled(h, old(T()), id_new, invalid, nNow)
      ensures id_new !in old(mapInfo) || !IsReplaced(h, old(T()), id_new, invalid, nNow) ==> T() == old(T())
      ensures id_new in old(mapInfo) && IsReplaced(h, old(T()), id_new, invalid, nNow) ==>
        id_new in mapInfo && mapInfo[id_new].fInTried && Facing(h, T(), mapInfo[id_new].service) == id_new
    {
      EvolvesAlike(T(), T());
      erase_collision := false;
      if id_new !in mapInfo {
        return true;
      }
      var info_new := mapInfo[id_new];
      var tried_bucket := TriedBucket(h, info_new.service);
      var tried_bucket_pos := TriedPos(h, info_new.service);
      assert IdOk(h, T(), {}, id_new);
      assert Facing(h, T(), info_new.service) == vvTried[tried_bucket, tried_bucket_pos];
      var random: nat :| random < ADDRMAN_NEW_BUCKET_COUNT;
      if info_new.service in invalid {
        erase_collision := true;
      } else if vvTried[tried_bucket, tried_bucket_pos] != -1 {
        var id_old := vvTried[tried_bucket, tried_bucket_pos];
        TriedOccupant(h, T(), tried_bucket, tried_bucket_pos, {}, {});
        var info_old := mapInfo[id_old];
        if nNow - info_old.nLastSuccess < ADDRMAN_REPLACEMENT_HOURS * (60 * 60) {
          erase_collision := true;
        } else if nNow - info_old.nLastTry < ADDRMAN_REPLACEMENT_HOURS * (60 * 60) {
          if nNow - info_old.nLastTry > 60 {
            MoveCollided(id_new, nNow, random);
            erase_collision := true;
          }
        }
      } else {
        MoveCollided(id_new, nNow, random);
        erase_collision := true;
      }
    }

    /** The colliding id takes its tried slot. */
    method MoveCollided(id: int, nNow: int, random: nat)
      requires Valid() && id in mapInfo && random < ADDRMAN_NEW_BUCKET_COUNT
      modifies this, vvNew, vvTried
      ensures Valid() && triedCollisions == old(triedCollisions) && Evolves(old(T()), T())
      ensures id in mapInfo && mapInfo[id].fInTried && Facing(h, T(), mapInfo[id].service) == id
    {
      assert IdOk(h, T(), {}, id);
      var _, _ := Good_(mapInfo[id].service, false, nNow, random);
      assert IdOk(h, T(), {}, id);
    }

    method DropCollision(id: int)
      requires Valid() && id in triedCollisions
      modifies this`triedCollisions
      ensures Valid() && triedCollisions == old(triedCollisions) - {id}
    {
      triedCollisions := triedCollisions - {id};
      forall x | x in triedCollisions ensures CollisionOk(h, T(), x) {
        assert old(CollisionOk(h, T(), x));
      }
    }

    /**
      The tried address that some colliding id faces: it always exists, as long as the id does; otherwise the
      collision is forgotten.
     */
    method SelectTriedCollision_() returns (info: Option<AddrInfo>, ghost id_new: int)
      requires Valid()
      modifies this`triedCollisions
      ensures Valid()
      ensures old(triedCollisions) == {} ==> info == None && triedCollisions == {}
      ensures old(triedCollisions) != {} ==> id_new in old(triedCollisions)
      ensures old(triedCollisions) != {} && id_new !in mapInfo ==>
        info == None && triedCollisions == old(triedCollisions) - {id_new}
      ensures old(triedCollisions) != {} && id_new in mapInfo ==>
        && triedCollisions == old(triedCollisions)
        && Facing(h, T(), mapInfo[id_new].service) in mapInfo
        && info == Some(mapInfo[Facing(h, T(), mapInfo[id_new].service)]) && info.value.fInTried
    {
      id_new := -1;
      if triedCollisions == {} {
        return None, id_new;
      }
      SomeElement(triedCollisions);
      var id :| id in triedCollisions;
      id_new := id;
      if id !in mapInfo {
        DropCollision(id);
        return None, id_new;
      }
      var newInfo := mapInfo[id];
      var tried_bucket := TriedBucket(h, newInfo.service);
      var tried_bucket_pos := TriedPos(h, newInfo.service);
      var id_old := vvTried[tried_bucket, tried_bucket_pos];
      assert CollisionOk(h, T(), id);
      assert id_old != -1;
      TriedOccupant(h, T(), tried_bucket, tried_bucket_pos, {}, {});
      info := Some(mapInfo[id_old]);
    }

    /** Any sequence of operations keeps the tables in agreement. */
    method Run(ops: seq<Op>)
      requires Valid()
      modifies this, vvNew, vvTried
      ensures Valid()
    {
      for k := 0 to |ops|
        invariant Valid()
      {
        match ops[k]
        case Add(announced, isRoutable, source, penalty, nNow, random) =>
          var _, _ := Add_(announced, isRoutable, source, penalty, nNow, random);
        case Good(addr, test_before_evict, nTime, nRnd) =>
          var _, _ := Good_(addr, test_before_evict, nTime, nRnd % ADDRMAN_NEW_BUCKET_COUNT);
        case Attempt(addr, fCountFailure, nTime) => Attempt_(addr, fCountFailure, nTime);
        case GetAddr(nNow) => var _, _ := GetAddr_(nNow);
        case ResolveCollisions(invalid, nNow) => var _ := ResolveCollisions_(invalid, nNow);
        case SelectTriedCollision => var _, _ := SelectTriedCollision_();
      }
    }
  }
}
