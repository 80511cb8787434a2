/**
  The tables of the address manager as values: what it means for them to agree, and how
  each elementary change keeps them in agreement.

  Bucket and position hashes are the fields of a Hasher, arbitrary functions reduced to
  the table sizes.
 */
module AddrTables {

  const ADDRMAN_TRIED_BUCKET_COUNT: nat := 256
  const ADDRMAN_NEW_BUCKET_COUNT: nat := 1024
  const ADDRMAN_BUCKET_SIZE: nat := 64
  const ADDRMAN_NEW_BUCKETS_PER_ADDRESS: nat := 8

  type NetAddr = nat

  /** An address with a port. */
  datatype Service = Service(net: NetAddr, port: nat)

  datatype AddrInfo = AddrInfo(
    service: Service,
    nServices: set<nat>,
    nTime: int,
    source: NetAddr,
    nLastTry: int,
    nLastCountAttempt: int,
    nLastSuccess: int,
    nAttempts: int,
    nRefCount: int,
    fInTried: bool,
    nRandomPos: int)

  /** What the position hash is taken of. */
  datatype PositionKey = PositionKey(fNew: bool, bucket: nat, service: Service)

  /** What the hash for new buckets is taken of. */
  datatype SourceKey = SourceKey(net: NetAddr, source: NetAddr)

  /** The keyed hashes that choose buckets and positions, as tables of their values. */
  datatype HashValues = HashValues(
    tried: imap<Service, nat>,
    new_: imap<SourceKey, nat>,
    position: imap<PositionKey, nat>)

  ghost predicate IsTotal(v: HashValues)
  {
    (forall s :: s in v.tried) && (forall k :: k in v.new_) && (forall k :: k in v.position)
  }

  type Hasher = v: HashValues | IsTotal(v)
    ghost witness HashValues(imap s: Service :: 0, imap k: SourceKey :: 0, imap k: PositionKey :: 0)

  function TriedBucket(h: Hasher, s: Service): (b: nat)
    ensures b < ADDRMAN_TRIED_BUCKET_COUNT
  {
    h.tried[s] % ADDRMAN_TRIED_BUCKET_COUNT
  }

  function NewBucket(h: Hasher, s: Service, source: NetAddr): (b: nat)
    ensures b < ADDRMAN_NEW_BUCKET_COUNT
  {
    h.new_[SourceKey(s.net, source)] % ADDRMAN_NEW_BUCKET_COUNT
  }

  function NewPos(h: Hasher, b: nat, s: Service): (p: nat)
    ensures p < ADDRMAN_BUCKET_SIZE
  {
    h.position[PositionKey(true, b, s)] % ADDRMAN_BUCKET_SIZE
  }

  function TriedPos(h: Hasher, s: Service): (p: nat)
    ensures p < ADDRMAN_BUCKET_SIZE
  {
    h.position[PositionKey(false, TriedBucket(h, s), s)] % ADDRMAN_BUCKET_SIZE
  }

  /** A table of ids by bucket and position; -1 marks a free slot. */
  type Grid = seq<seq<int>>

  type Infos = map<int, AddrInfo>

  predicate Dim(g: Grid, rows: nat)
  {
    |g| == rows && forall b :: 0 <= b < rows ==> |g[b]| == ADDRMAN_BUCKET_SIZE
  }

  function Put(g: Grid, b: nat, p: nat, id: int): Grid
    requires b < |g| && p < |g[b]|
  {
    g[b := g[b][p := id]]
  }

  lemma PutSame(g: Grid, b: nat, p: nat)
    requires b < |g| && p < |g[b]|
    ensures Put(g, b, p, g[b][p]) == g
  {
    assert g[b][p := g[b][p]] == g[b];
  }

  lemma PutTwice(g: Grid, b: nat, p: nat, id: int)
    requires b < |g| && p < |g[b]|
    ensures Put(Put(g, b, p, -1), b, p, id) == Put(g, b, p, id)
  {
    assert g[b][p := -1][p := id] == g[b][p := id];
  }

  /** Everything the address manager keeps about addresses. */
  datatype Tables = Tables(
    mapInfo: Infos,
    mapAddr: map<NetAddr, int>,
    vRandom: seq<int>,
    vvNew: Grid,
    vvTried: Grid,
    nIdCount: int,
    nNew: int,
    nTried: int)

  // ----- Agreement -----

  /** How many of the first n new buckets hold an id. */
  function Refs(h: Hasher, s: Service, g: Grid, id: int, n: nat): nat
    requires Dim(g, ADDRMAN_NEW_BUCKET_COUNT) && n <= ADDRMAN_NEW_BUCKET_COUNT
  {
    if n == 0 then 0 else Refs(h, s, g, id, n - 1) + if g[n - 1][NewPos(h, n - 1, s)] == id then 1 else 0
  }

  predicate Shape(t: Tables)
  {
    t.nIdCount >= 0 && Dim(t.vvNew, ADDRMAN_NEW_BUCKET_COUNT) && Dim(t.vvTried, ADDRMAN_TRIED_BUCKET_COUNT)
  }

  /**
    One id: it is found by its address and in vRandom; its reference count counts the new
    slots that hold it; a tried id has no references and is in its tried slot; any other
    one has one to eight.  Ids in `loose` may have none: they are between the tables.
   */
  predicate IdOk(h: Hasher, t: Tables, loose: set<int>, id: int)
    requires Shape(t) && id in t.mapInfo
  {
    var info := t.mapInfo[id];
    && 0 <= id < t.nIdCount
    && info.service.net in t.mapAddr && t.mapAddr[info.service.net] == id
    && 0 <= info.nRandomPos < |t.vRandom| && t.vRandom[info.nRandomPos] == id
    && info.nRefCount == Refs(h, info.service, t.vvNew, id, ADDRMAN_NEW_BUCKET_COUNT)
    && info.nRefCount <= ADDRMAN_NEW_BUCKETS_PER_ADDRESS
    && (info.fInTried ==>
          info.nRefCount == 0 && t.vvTried[TriedBucket(h, info.service)][TriedPos(h, info.service)] == id)
    && (!info.fInTried && id !in loose ==> info.nRefCount >= 1)
  }

  predicate NetOk(t: Tables, n: NetAddr)
    requires n in t.mapAddr
  {
    t.mapAddr[n] in t.mapInfo && t.mapInfo[t.mapAddr[n]].service.net == n
  }

  predicate PosOk(t: Tables, i: int)
    requires 0 <= i < |t.vRandom|
  {
    t.vRandom[i] in t.mapInfo && t.mapInfo[t.vRandom[i]].nRandomPos == i
  }

  predicate NewSlotOk(h: Hasher, t: Tables, b: nat, p: nat)
    requires Shape(t) && b < ADDRMAN_NEW_BUCKET_COUNT && p < ADDRMAN_BUCKET_SIZE
  {
    var id := t.vvNew[b][p];
    id != -1 ==> id in t.mapInfo && p == NewPos(h, b, t.mapInfo[id].service)
  }

  predicate TriedSlotOk(h: Hasher, t: Tables, b: nat, p: nat)
    requires Shape(t) && b < ADDRMAN_TRIED_BUCKET_COUNT && p < ADDRMAN_BUCKET_SIZE
  {
    var id := t.vvTried[b][p];
    id != -1 ==>
      && id in t.mapInfo && t.mapInfo[id].fInTried
      && b == TriedBucket(h, t.mapInfo[id].service) && p == TriedPos(h, t.mapInfo[id].service)
  }

  function Untried(m: Infos): set<int> { set id | id in m && !m[id].fInTried }

  function Tried(m: Infos): set<int> { set id | id in m && m[id].fInTried }

  /** nNew and nTried are true counts; ids in `aside` are not counted as new at the moment. */
  predicate CountsOk(t: Tables, aside: set<int>)
  {
    t.nNew == |Untried(t.mapInfo) - aside| && t.nTried == |Tried(t.mapInfo)|
  }

  predicate IdsOk(h: Hasher, t: Tables, loose: set<int>)
    requires Shape(t)
  {
    forall id {:trigger IdOk(h, t, loose, id)} :: id in t.mapInfo ==> IdOk(h, t, loose, id)
  }

  predicate LinksOk(t: Tables)
  {
    && (forall n {:trigger NetOk(t, n)} :: n in t.mapAddr ==> NetOk(t, n))
    && (forall i {:trigger PosOk(t, i)} :: 0 <= i < |t.vRandom| ==> PosOk(t, i))
  }

  predicate SlotsOk(h: Hasher, t: Tables)
    requires Shape(t)
  {
    && (forall b: nat, p: nat {:trigger NewSlotOk(h, t, b, p)} ::
          b < ADDRMAN_NEW_BUCKET_COUNT && p < ADDRMAN_BUCKET_SIZE ==> NewSlotOk(h, t, b, p))
    && (forall b: nat, p: nat {:trigger TriedSlotOk(h, t, b, p)} ::
          b < ADDRMAN_TRIED_BUCKET_COUNT && p < ADDRMAN_BUCKET_SIZE ==> TriedSlotOk(h, t, b, p))
  }

  /** The tables agree, up to ids that are between them. */
  predicate Consistent(h: Hasher, t: Tables, loose: set<int>, aside: set<int>)
  {
    Shape(t) && IdsOk(h, t, loose) && LinksOk(t) && SlotsOk(h, t) && CountsOk(t, aside)
  }

  /** An id that collided in the tried table still faces an occupied slot. */
  predicate CollisionOk(h: Hasher, t: Tables, id: int)
    requires Shape(t)
  {
    && 0 <= id < t.nIdCount
    && (id in t.mapInfo ==> t.vvTried[TriedBucket(h, t.mapInfo[id].service)][TriedPos(h, t.mapInfo[id].service)] != -1)
  }

  predicate CollisionsOk(h: Hasher, t: Tables, collisions: set<int>)
    requires Shape(t)
  {
    forall id {:trigger CollisionOk(h, t, id)} :: id in collisions ==> CollisionOk(h, t, id)
  }

  // ----- References -----

  /** Exchanging what one slot holds. */
  lemma {:induction false} RefsPut(h: Hasher, s: Service, g: Grid, id: int, n: nat, b: nat, p: nat, v: int)
    requires Dim(g, ADDRMAN_NEW_BUCKET_COUNT) && n <= ADDRMAN_NEW_BUCKET_COUNT
    requires b < ADDRMAN_NEW_BUCKET_COUNT && p < ADDRMAN_BUCKET_SIZE
    ensures Dim(Put(g, b, p, v), ADDRMAN_NEW_BUCKET_COUNT)
    ensures Refs(h, s, Put(g, b, p, v), id, n) == Refs(h, s, g, id, n)
      - (if b < n && p == NewPos(h, b, s) && g[b][p] == id then 1 else 0)
      + (if b < n && p == NewPos(h, b, s) && v == id then 1 else 0)
  {
    if n > 0 { RefsPut(h, s, g, id, n - 1, b, p, v); }
  }

  /** An id has no references exactly when none of its slots holds it. */
  lemma {:induction false} RefsZero(h: Hasher, s: Service, g: Grid, id: int, n: nat)
    requires Dim(g, ADDRMAN_NEW_BUCKET_COUNT) && n <= ADDRMAN_NEW_BUCKET_COUNT
    ensures Refs(h, s, g, id, n) == 0 <==> forall b :: 0 <= b < n ==> g[b][NewPos(h, b, s)] != id
  {
    if n > 0 { RefsZero(h, s, g, id, n - 1); }
  }

  // ----- Counts -----

  lemma UntriedWithout(m: Infos, id: int, aside: set<int>)
    requires id in m && !m[id].fInTried && id !in aside
    ensures |Untried(m - {id}) - aside| == |Untried(m) - aside| - 1
    ensures Tried(m - {id}) == Tried(m)
  {
    assert Untried(m - {id}) - aside == (Untried(m) - aside) - {id};
  }

  lemma FlagsInsert(m: Infos, id: int, info: AddrInfo)
    requires id !in m && !info.fInTried
    ensures Untried(m[id := info]) == Untried(m) + {id}
    ensures Tried(m[id := info]) == Tried(m)
  {
    var m' := m[id := info];
    forall x ensures x in Untried(m') <==> x == id || x in Untried(m) {}
    forall x ensures x in Tried(m') <==> x in Tried(m) {}
  }

  lemma CardPlus(a: set<int>, id: int, aside: set<int>)
    requires id !in a && id !in aside
    ensures |(a + {id}) - aside| == |a - aside| + 1
  {
    assert (a + {id}) - aside == (a - aside) + {id};
  }

  lemma UntriedWith(m: Infos, id: int, info: AddrInfo, aside: set<int>)
    requires id !in m && !info.fInTried && id !in aside
    ensures |Untried(m[id := info]) - aside| == |Untried(m) - aside| + 1
    ensures Tried(m[id := info]) == Tried(m)
  {
    FlagsInsert(m, id, info);
    CardPlus(Untried(m), id, aside);
  }

  /** Moving an id that is set aside into tried counts it there. */
  lemma CountsIntoTried(m: Infos, id: int, info: AddrInfo, aside: set<int>)
    requires id in m && !m[id].fInTried && id in aside && info.fInTried
    ensures |Untried(m[id := info]) - (aside - {id})| == |Untried(m) - aside|
    ensures |Tried(m[id := info])| == |Tried(m)| + 1
  {
    assert Untried(m[id := info]) - (aside - {id}) == Untried(m) - aside;
    assert Tried(m[id := info]) == Tried(m) + {id};
  }

  /** Taking an id out of tried sets it aside. */
  lemma CountsOutOfTried(m: Infos, id: int, info: AddrInfo, aside: set<int>)
    requires id in m && m[id].fInTried && id !in aside && !info.fInTried
    ensures |Untried(m[id := info]) - (aside + {id})| == |Untried(m) - aside|
    ensures |Tried(m[id := info])| == |Tried(m)| - 1
  {
    assert Untried(m[id := info]) - (aside + {id}) == Untried(m) - aside;
    assert Tried(m[id := info]) == Tried(m) - {id};
  }

  lemma SetsSameFlags(m: Infos, m': Infos)
    requires m.Keys == m'.Keys && forall id :: id in m ==> m'[id].fInTried == m[id].fInTried
    ensures Untried(m') == Untried(m) && Tried(m') == Tried(m)
  {
    forall id ensures id in Untried(m') <==> id in Untried(m) {
      if id in m { assert m'[id].fInTried == m[id].fInTried; }
    }
    forall id ensures id in Tried(m') <==> id in Tried(m) {
      if id in m { assert m'[id].fInTried == m[id].fInTried; }
    }
  }

  // ----- Elementary changes -----

  /** Two infos that differ at most in statistics. */
  predicate SameEntry(i: AddrInfo, j: AddrInfo)
  {
    i.service == j.service && i.source == j.source && i.nRefCount == j.nRefCount && i.fInTried == j.fInTried
  }

  /** Two tables of infos that differ at most in statistics and positions in vRandom. */
  predicate Alike(m: Infos, m': Infos)
  {
    m.Keys == m'.Keys && forall id :: id in m ==> SameEntry(m[id], m'[id])
  }

  /** Equal but for the position in vRandom. */
  predicate SameInfo(i: AddrInfo, j: AddrInfo) { i == j.(nRandomPos := i.nRandomPos) }

  /** What is to become of an id. */
  datatype Fate = Gone | Stays(info: AddrInfo)

  predicate Meets(m: Infos, id: int, fate: Fate)
  {
    match fate
    case Gone => id !in m
    case Stays(info) => id in m && SameInfo(info, m[id])
  }

  function Unchanged(m: Infos, id: int): Fate { if id in m then Stays(m[id]) else Gone }

  /** Nothing has changed but positions in vRandom. */
  ghost predicate Undisturbed(m: Infos, m': Infos)
  {
    forall id {:trigger Meets(m', id, Unchanged(m, id))} :: Meets(m', id, Unchanged(m, id))
  }

  predicate SamePlace(i: AddrInfo, j: AddrInfo) { i.service == j.service && i.nRandomPos == j.nRandomPos }

  /** The place of every id in the indexes is as before. */
  predicate SamePlaces(m: Infos, m': Infos)
  {
    m.Keys == m'.Keys && forall id :: id in m ==> SamePlace(m[id], m'[id])
  }

  lemma SamePlaceAt(m: Infos, m': Infos, id: int)
    requires SamePlaces(m, m') && id in m
    ensures id in m' && SamePlace(m[id], m'[id])
  {
  }

  lemma LinksFrame(t: Tables, t': Tables)
    requires LinksOk(t) && t'.mapAddr == t.mapAddr && t'.vRandom == t.vRandom && SamePlaces(t.mapInfo, t'.mapInfo)
    ensures LinksOk(t')
  {
    forall n | n in t'.mapAddr ensures NetOk(t', n) {
      assert NetOk(t, n);
      SamePlaceAt(t.mapInfo, t'.mapInfo, t.mapAddr[n]);
    }
    forall i | 0 <= i < |t'.vRandom| ensures PosOk(t', i) {
      assert PosOk(t, i);
      SamePlaceAt(t.mapInfo, t'.mapInfo, t.vRandom[i]);
    }
  }

  lemma SlotsFrame(h: Hasher, t: Tables, t': Tables)
    requires Shape(t) && SlotsOk(h, t) && t'.vvNew == t.vvNew && t'.vvTried == t.vvTried && t'.nIdCount == t.nIdCount
    requires Alike(t.mapInfo, t'.mapInfo)
    ensures SlotsOk(h, t')
  {
    forall b: nat, p: nat | b < ADDRMAN_NEW_BUCKET_COUNT && p < ADDRMAN_BUCKET_SIZE ensures NewSlotOk(h, t', b, p) {
      assert NewSlotOk(h, t, b, p);
    }
    forall b: nat, p: nat | b < ADDRMAN_TRIED_BUCKET_COUNT && p < ADDRMAN_BUCKET_SIZE ensures TriedSlotOk(h, t', b, p) {
      assert TriedSlotOk(h, t, b, p);
    }
  }

  lemma CountsFrame(t: Tables, t': Tables, aside: set<int>)
    requires CountsOk(t, aside) && Alike(t.mapInfo, t'.mapInfo) && t'.nNew == t.nNew && t'.nTried == t.nTried
    ensures CountsOk(t', aside)
  {
    forall id | id in t.mapInfo ensures t'.mapInfo[id].fInTried == t.mapInfo[id].fInTried {
      assert SameEntry(t.mapInfo[id], t'.mapInfo[id]);
    }
    SetsSameFlags(t.mapInfo, t'.mapInfo);
  }

  /** Changing the statistics of one id. */
  lemma StatisticsKeep(h: Hasher, t: Tables, id: int, info: AddrInfo, loose: set<int>, aside: set<int>)
    requires Consistent(h, t, loose, aside) && id in t.mapInfo
    requires SameEntry(t.mapInfo[id], info) && info.nRandomPos == t.mapInfo[id].nRandomPos
    ensures Consistent(h, t.(mapInfo := t.mapInfo[id := info]), loose, aside)
    ensures Alike(t.mapInfo, t.mapInfo[id := info])
  {
    var t' := t.(mapInfo := t.mapInfo[id := info]);
    forall x | x in t'.mapInfo ensures IdOk(h, t', loose, x) { assert IdOk(h, t, loose, x); }
    LinksFrame(t, t');
    SlotsFrame(h, t, t');
    CountsFrame(t, t', aside);
  }

  function Swapped(m: Infos, v: seq<int>, i: nat, j: nat): Infos
    requires i < |v| && j < |v| && v[i] in m && v[j] in m
  {
    m[v[i] := m[v[i]].(nRandomPos := j)][v[j] := m[v[j]].(nRandomPos := i)]
  }

  lemma SwapAlike(t: Tables, i: nat, j: nat)
    requires LinksOk(t) && i < |t.vRandom| && j < |t.vRandom| && i != j
    ensures t.vRandom[i] in t.mapInfo && t.vRandom[j] in t.mapInfo && t.vRandom[i] != t.vRandom[j]
    ensures Alike(t.mapInfo, Swapped(t.mapInfo, t.vRandom, i, j))
  {
    assert PosOk(t, i) && PosOk(t, j);
  }

  lemma SwapLinks(t: Tables, i: nat, j: nat, t': Tables)
    requires LinksOk(t) && i < |t.vRandom| && j < |t.vRandom| && i != j
    requires t.vRandom[i] in t.mapInfo && t.vRandom[j] in t.mapInfo
    requires t' ==
      t.(mapInfo := Swapped(t.mapInfo, t.vRandom, i, j),
         vRandom := t.vRandom[i := t.vRandom[j]][j := t.vRandom[i]])
    ensures LinksOk(t')
  {
    assert PosOk(t, i) && PosOk(t, j);
    forall n | n in t'.mapAddr ensures NetOk(t', n) { assert NetOk(t, n); }
    forall k | 0 <= k < |t'.vRandom| ensures PosOk(t', k) { assert PosOk(t, k); }
  }

  lemma SwapIds(h: Hasher, t: Tables, i: nat, j: nat, t': Tables, loose: set<int>)
    requires Shape(t) && IdsOk(h, t, loose) && LinksOk(t) && i < |t.vRandom| && j < |t.vRandom| && i != j
    requires t.vRandom[i] in t.mapInfo && t.vRandom[j] in t.mapInfo
    requires t' ==
      t.(mapInfo := Swapped(t.mapInfo, t.vRandom, i, j),
         vRandom := t.vRandom[i := t.vRandom[j]][j := t.vRandom[i]])
    ensures IdsOk(h, t', loose)
  {
    assert PosOk(t, i) && PosOk(t, j);
    forall x | x in t'.mapInfo ensures IdOk(h, t', loose, x) { assert IdOk(h, t, loose, x); }
  }

  /** Swapping two elements of vRandom and their recorded positions. */
  lemma SwapKeeps(h: Hasher, t: Tables, i: nat, j: nat, loose: set<int>, aside: set<int>)
    requires Consistent(h, t, loose, aside) && i < |t.vRandom| && j < |t.vRandom| && i != j
    ensures t.vRandom[i] in t.mapInfo && t.vRandom[j] in t.mapInfo && t.vRandom[i] != t.vRandom[j]
    ensures Alike(t.mapInfo, Swapped(t.mapInfo, t.vRandom, i, j))
    ensures Consistent(h, t.(mapInfo := Swapped(t.mapInfo, t.vRandom, i, j),
                             vRandom := t.vRandom[i := t.vRandom[j]][j := t.vRandom[i]]), loose, aside)
  {
    SwapAlike(t, i, j);
    var t' := t.(mapInfo := Swapped(t.mapInfo, t.vRandom, i, j),
                 vRandom := t.vRandom[i := t.vRandom[j]][j := t.vRandom[i]]);
    SwapIds(h, t, i, j, t', loose);
    SwapLinks(t, i, j, t');
    SlotsFrame(h, t, t');
    CountsFrame(t, t', aside);
  }

  function Deleted(t: Tables, id: int): Tables
    requires id in t.mapInfo && |t.vRandom| > 0
  {
    t.(mapInfo := t.mapInfo - {id}, mapAddr := t.mapAddr - {t.mapInfo[id].service.net},
       vRandom := t.vRandom[..|t.vRandom| - 1], nNew := t.nNew - 1)
  }

  lemma DeleteSlots(h: Hasher, t: Tables, id: int, loose: set<int>)
    requires Shape(t) && IdsOk(h, t, loose) && SlotsOk(h, t) && id in t.mapInfo && |t.vRandom| > 0
    requires !t.mapInfo[id].fInTried && t.mapInfo[id].nRefCount == 0
    ensures SlotsOk(h, Deleted(t, id))
  {
    var s, t' := t.mapInfo[id].service, Deleted(t, id);
    assert IdOk(h, t, loose, id);
    RefsZero(h, s, t.vvNew, id, ADDRMAN_NEW_BUCKET_COUNT);
    forall b: nat, p: nat | b < ADDRMAN_NEW_BUCKET_COUNT && p < ADDRMAN_BUCKET_SIZE ensures NewSlotOk(h, t', b, p) {
      assert NewSlotOk(h, t, b, p);
      assert t.vvNew[b][NewPos(h, b, s)] != id;
    }
    forall b: nat, p: nat | b < ADDRMAN_TRIED_BUCKET_COUNT && p < ADDRMAN_BUCKET_SIZE ensures TriedSlotOk(h, t', b, p) {
      assert TriedSlotOk(h, t, b, p);
    }
  }

  /** Forgetting an id without references that is the last one of vRandom. */
  lemma DeleteKeeps(h: Hasher, t: Tables, id: int, loose: set<int>, aside: set<int>)
    requires Consistent(h, t, loose + {id}, aside) && id !in aside && id in t.mapInfo && |t.vRandom| > 0
    requires !t.mapInfo[id].fInTried && t.mapInfo[id].nRefCount == 0 && t.mapInfo[id].nRandomPos == |t.vRandom| - 1
    ensures Consistent(h, Deleted(t, id), loose, aside)
  {
    var t' := Deleted(t, id);
    assert IdOk(h, t, loose + {id}, id);
    forall x | x in t'.mapInfo ensures IdOk(h, t', loose, x) { assert IdOk(h, t, loose + {id}, x); }
    forall n | n in t'.mapAddr ensures NetOk(t', n) { assert NetOk(t, n); }
    forall i | 0 <= i < |t'.vRandom| ensures PosOk(t', i) { assert PosOk(t, i); }
    DeleteSlots(h, t, id, loose + {id});
    UntriedWithout(t.mapInfo, id, aside);
  }

  function Created(t: Tables, info: AddrInfo): Tables
  {
    t.(mapInfo := t.mapInfo[t.nIdCount := info], mapAddr := t.mapAddr[info.service.net := t.nIdCount],
       vRandom := t.vRandom + [t.nIdCount], nIdCount := t.nIdCount + 1, nNew := t.nNew + 1)
  }

  lemma FreshId(h: Hasher, t: Tables, loose: set<int>, s: Service)
    requires Shape(t) && IdsOk(h, t, loose) && SlotsOk(h, t)
    ensures t.nIdCount !in t.mapInfo
    ensures Refs(h, s, t.vvNew, t.nIdCount, ADDRMAN_NEW_BUCKET_COUNT) == 0
  {
    assert t.nIdCount in t.mapInfo ==> IdOk(h, t, loose, t.nIdCount);
    forall b: nat | b < ADDRMAN_NEW_BUCKET_COUNT ensures t.vvNew[b][NewPos(h, b, s)] != t.nIdCount {
      assert NewSlotOk(h, t, b, NewPos(h, b, s));
    }
    RefsZero(h, s, t.vvNew, t.nIdCount, ADDRMAN_NEW_BUCKET_COUNT);
  }

  lemma CreateSlots(h: Hasher, t: Tables, info: AddrInfo)
    requires Shape(t) && SlotsOk(h, t) && t.nIdCount !in t.mapInfo
    ensures SlotsOk(h, Created(t, info))
  {
    var t' := Created(t, info);
    forall b: nat, p: nat | b < ADDRMAN_NEW_BUCKET_COUNT && p < ADDRMAN_BUCKET_SIZE ensures NewSlotOk(h, t', b, p) {
      assert NewSlotOk(h, t, b, p);
    }
    forall b: nat, p: nat | b < ADDRMAN_TRIED_BUCKET_COUNT && p < ADDRMAN_BUCKET_SIZE ensures TriedSlotOk(h, t', b, p) {
      assert TriedSlotOk(h, t, b, p);
    }
  }

  lemma CreateLinks(t: Tables, info: AddrInfo)
    requires LinksOk(t) && t.nIdCount !in t.mapInfo && info.nRandomPos == |t.vRandom|
    ensures LinksOk(Created(t, info))
  {
    var t' := Created(t, info);
    forall n | n in t'.mapAddr ensures NetOk(t', n) {
      if n != info.service.net { assert NetOk(t, n); }
    }
    forall i | 0 <= i < |t'.vRandom| ensures PosOk(t', i) {
      if i < |t.vRandom| { assert PosOk(t, i); }
    }
  }

  /** A new id without references. */
  lemma CreateKeeps(h: Hasher, t: Tables, info: AddrInfo, loose: set<int>, aside: set<int>)
    requires Consistent(h, t, loose, aside) && t.nIdCount !in aside
    requires info.service.net !in t.mapAddr && info.nRandomPos == |t.vRandom| && info.nRefCount == 0 && !info.fInTried
    ensures t.nIdCount !in t.mapInfo
    ensures Consistent(h, Created(t, info), loose + {t.nIdCount}, aside)
  {
    var id, t' := t.nIdCount, Created(t, info);
    FreshId(h, t, loose, info.service);
    forall x | x in t'.mapInfo ensures IdOk(h, t', loose + {id}, x) {
      if x != id { assert IdOk(h, t, loose, x); }
    }
    CreateLinks(t, info);
    CreateSlots(h, t, info);
    UntriedWith(t.mapInfo, id, info, aside);
  }

  /** A change of the content of a new slot by one id, together with its reference count. */
  predicate IsNewSlotChange(h: Hasher, t: Tables, id: int, info: AddrInfo, b: nat, p: nat, v: int, t': Tables)
    requires Shape(t)
  {
    && b < ADDRMAN_NEW_BUCKET_COUNT && id in t.mapInfo && id != -1
    && p == NewPos(h, b, t.mapInfo[id].service)
    && ((t.vvNew[b][p] == id && v == -1) || (t.vvNew[b][p] == -1 && v == id))
    && info == t.mapInfo[id].(nRefCount := t.mapInfo[id].nRefCount + if v == id then 1 else -1)
    && t' == t.(mapInfo := t.mapInfo[id := info], vvNew := Put(t.vvNew, b, p, v))
  }

  lemma NewSlotIds(h: Hasher, t: Tables, id: int, info: AddrInfo, b: nat, p: nat, v: int, t': Tables, loose: set<int>,
                   loose': set<int>)
    requires Shape(t) && IdsOk(h, t, loose) && IsNewSlotChange(h, t, id, info, b, p, v, t')
    requires info.nRefCount <= ADDRMAN_NEW_BUCKETS_PER_ADDRESS && !info.fInTried
    requires forall x :: x in loose && x != id ==> x in loose'
    requires id in loose' || info.nRefCount >= 1
    ensures Shape(t') && IdsOk(h, t', loose')
  {
    forall x | x in t'.mapInfo ensures IdOk(h, t', loose', x) {
      assert IdOk(h, t, loose, x);
      RefsPut(h, t.mapInfo[x].service, t.vvNew, x, ADDRMAN_NEW_BUCKET_COUNT, b, p, v);
    }
  }

  lemma NewSlotSlots(h: Hasher, t: Tables, id: int, info: AddrInfo, b: nat, p: nat, v: int, t': Tables)
    requires Shape(t) && Shape(t') && SlotsOk(h, t) && IsNewSlotChange(h, t, id, info, b, p, v, t')
    ensures SlotsOk(h, t')
  {
    forall c: nat, q: nat | c < ADDRMAN_NEW_BUCKET_COUNT && q < ADDRMAN_BUCKET_SIZE ensures NewSlotOk(h, t', c, q) {
      assert NewSlotOk(h, t, c, q);
    }
    forall c: nat, q: nat | c < ADDRMAN_TRIED_BUCKET_COUNT && q < ADDRMAN_BUCKET_SIZE ensures TriedSlotOk(h, t', c, q) {
      assert TriedSlotOk(h, t, c, q);
    }
  }

  /** Putting an id into one of its free new slots, or taking it out of one. */
  lemma NewSlotKeeps(h: Hasher, t: Tables, id: int, info: AddrInfo, b: nat, p: nat, v: int, t': Tables,
                     loose: set<int>, loose': set<int>, aside: set<int>)
    requires Consistent(h, t, loose, aside) && IsNewSlotChange(h, t, id, info, b, p, v, t')
    requires info.nRefCount <= ADDRMAN_NEW_BUCKETS_PER_ADDRESS && !info.fInTried
    requires forall x :: x in loose && x != id ==> x in loose'
    requires id in loose' || info.nRefCount >= 1
    ensures Consistent(h, t', loose', aside)
  {
    NewSlotIds(h, t, id, info, b, p, v, t', loose, loose');
    LinksFrame(t, t');
    NewSlotSlots(h, t, id, info, b, p, v, t');
    SetsSameFlags(t.mapInfo, t'.mapInfo);
  }

  /** What sits in an occupied new slot. */
  lemma NewOccupant(h: Hasher, t: Tables, b: nat, p: nat, loose: set<int>, aside: set<int>)
    requires Consistent(h, t, loose, aside) && b < ADDRMAN_NEW_BUCKET_COUNT && p < ADDRMAN_BUCKET_SIZE
    requires t.vvNew[b][p] != -1
    ensures var id := t.vvNew[b][p];
      && id in t.mapInfo && p == NewPos(h, b, t.mapInfo[id].service) && 0 < t.mapInfo[id].nRefCount <= 8
      && !t.mapInfo[id].fInTried
  {
    assert NewSlotOk(h, t, b, p);
    var id := t.vvNew[b][p];
    assert IdOk(h, t, loose, id);
    RefsZero(h, t.mapInfo[id].service, t.vvNew, id, ADDRMAN_NEW_BUCKET_COUNT);
  }

  /** A move of an id without references into its free tried slot, or out of it. */
  predicate IsTriedSlotChange(h: Hasher, t: Tables, id: int, info: AddrInfo, b: nat, p: nat, t': Tables)
    requires Shape(t)
  {
    && id in t.mapInfo && t.mapInfo[id].nRefCount == 0
    && info == t.mapInfo[id].(fInTried := !t.mapInfo[id].fInTried)
    && b == TriedBucket(h, info.service) && p == TriedPos(h, info.service)
    && (info.fInTried ==> t.vvTried[b][p] == -1)
    && t' == t.(mapInfo := t.mapInfo[id := info], vvTried := Put(t.vvTried, b, p, if info.fInTried then id else -1),
                nTried := t.nTried + if info.fInTried then 1 else -1)
  }

  lemma TriedSlotIds(h: Hasher, t: Tables, id: int, info: AddrInfo, b: nat, p: nat, t': Tables, loose: set<int>,
                     loose': set<int>)
    requires Shape(t) && IdsOk(h, t, loose) && SlotsOk(h, t) && IsTriedSlotChange(h, t, id, info, b, p, t')
    requires forall x :: x in loose && x != id ==> x in loose'
    requires info.fInTried || id in loose'
    ensures Shape(t') && IdsOk(h, t', loose')
  {
    assert IdOk(h, t, loose, id);
    forall x | x in t'.mapInfo ensures IdOk(h, t', loose', x) {
      assert IdOk(h, t, loose, x);
    }
  }

  lemma TriedSlotSlots(h: Hasher, t: Tables, id: int, info: AddrInfo, b: nat, p: nat, t': Tables, loose: set<int>)
    requires Shape(t) && Shape(t') && IdsOk(h, t, loose) && SlotsOk(h, t) && IsTriedSlotChange(h, t, id, info, b, p, t')
    ensures SlotsOk(h, t')
  {
    assert IdOk(h, t, loose, id);
    forall c: nat, q: nat | c < ADDRMAN_NEW_BUCKET_COUNT && q < ADDRMAN_BUCKET_SIZE ensures NewSlotOk(h, t', c, q) {
      assert NewSlotOk(h, t, c, q);
    }
    forall c: nat, q: nat | c < ADDRMAN_TRIED_BUCKET_COUNT && q < ADDRMAN_BUCKET_SIZE ensures TriedSlotOk(h, t', c, q) {
      assert TriedSlotOk(h, t, c, q);
    }
  }

  lemma TriedSlotKeeps(h: Hasher, t: Tables, id: int, info: AddrInfo, b: nat, p: nat, t': Tables,
                       loose: set<int>, loose': set<int>, aside: set<int>, aside': set<int>)
    requires Consistent(h, t, loose, aside) && IsTriedSlotChange(h, t, id, info, b, p, t')
    requires if info.fInTried then id in aside && loose' == loose - {id} && aside' == aside - {id}
             else id !in aside && loose' == loose + {id} && aside' == aside + {id}
    ensures Consistent(h, t', loose', aside')
  {
    TriedSlotIds(h, t, id, info, b, p, t', loose, loose');
    LinksFrame(t, t');
    TriedSlotSlots(h, t, id, info, b, p, t', loose);
    if info.fInTried {
      CountsIntoTried(t.mapInfo, id, info, aside);
    } else {
      CountsOutOfTried(t.mapInfo, id, info, aside);
    }
  }

  /** What sits in an occupied tried slot. */
  lemma TriedOccupant(h: Hasher, t: Tables, b: nat, p: nat, loose: set<int>, aside: set<int>)
    requires Consistent(h, t, loose, aside) && b < ADDRMAN_TRIED_BUCKET_COUNT && p < ADDRMAN_BUCKET_SIZE
    requires t.vvTried[b][p] != -1
    ensures var id := t.vvTried[b][p];
      && id in t.mapInfo && t.mapInfo[id].fInTried && t.mapInfo[id].nRefCount == 0
      && b == TriedBucket(h, t.mapInfo[id].service) && p == TriedPos(h, t.mapInfo[id].service)
  {
    assert TriedSlotOk(h, t, b, p);
    assert IdOk(h, t, loose, t.vvTried[b][p]);
  }

  lemma OtherCountKeeps(h: Hasher, t: Tables, t': Tables, loose: set<int>)
    requires Shape(t) && IdsOk(h, t, loose) && LinksOk(t) && SlotsOk(h, t) && t' == t.(nNew := t'.nNew)
    ensures Shape(t') && IdsOk(h, t', loose) && LinksOk(t') && SlotsOk(h, t')
  {
    forall x | x in t'.mapInfo ensures IdOk(h, t', loose, x) { assert IdOk(h, t, loose, x); }
    LinksFrame(t, t');
    SlotsFrame(h, t, t');
  }

  /** Not counting a new id for the moment. */
  lemma SetAside(h: Hasher, t: Tables, id: int, loose: set<int>, aside: set<int>)
    requires Consistent(h, t, loose, aside) && id in t.mapInfo && !t.mapInfo[id].fInTried && id !in aside
    ensures Consistent(h, t.(nNew := t.nNew - 1), loose, aside + {id})
  {
    OtherCountKeeps(h, t, t.(nNew := t.nNew - 1), loose);
    assert Untried(t.mapInfo) - (aside + {id}) == (Untried(t.mapInfo) - aside) - {id};
    assert id in Untried(t.mapInfo) - aside;
  }

  /** Counting it again. */
  lemma CountAgain(h: Hasher, t: Tables, id: int, loose: set<int>, aside: set<int>)
    requires Consistent(h, t, loose, aside + {id}) && id in t.mapInfo && !t.mapInfo[id].fInTried && id !in aside
    ensures Consistent(h, t.(nNew := t.nNew + 1), loose, aside)
  {
    OtherCountKeeps(h, t, t.(nNew := t.nNew + 1), loose);
    assert Untried(t.mapInfo) - aside == (Untried(t.mapInfo) - (aside + {id})) + {id};
    assert id in Untried(t.mapInfo) - aside;
  }

  /** An id is deleted. */
  ghost predicate IsDropped(m: Infos, m': Infos, d: int)
  {
    forall id {:trigger Meets(m', id, Dropped(m, d, id))} :: Meets(m', id, Dropped(m, d, id))
  }

  function Dropped(m: Infos, d: int, id: int): Fate { if id == d then Gone else Unchanged(m, id) }

  /** The id in a slot loses its reference there, and goes with the last one. */
  function Released(m: Infos, d: int, id: int): Fate
  {
    if id != d || id !in m then Unchanged(m, id)
    else if m[id].nRefCount == 1 then Gone
    else Stays(m[id].(nRefCount := m[id].nRefCount - 1))
  }

  ghost predicate IsReleased(m: Infos, m': Infos, d: int)
  {
    forall id {:trigger Meets(m', id, Released(m, d, id))} :: Meets(m', id, Released(m, d, id))
  }

  lemma DroppedIsReleased(m: Infos, m': Infos, d: int)
    requires d in m && m[d].nRefCount == 1 && IsDropped(m, m', d)
    ensures IsReleased(m, m', d)
  {
    forall x ensures Meets(m', x, Released(m, d, x)) { assert Meets(m', x, Dropped(m, d, x)); }
  }

  lemma TakenIsReleased(m: Infos, m': Infos, d: int)
    requires d in m && m[d].nRefCount != 1 && m' == m[d := m[d].(nRefCount := m[d].nRefCount - 1)]
    ensures IsReleased(m, m', d)
  {
  }

  lemma SameIsReleased(m: Infos, d: int)
    requires d !in m
    ensures IsReleased(m, m, d)
  {
  }

  /** An id takes the slot, and its entry is now `info`. */
  function Replaced(m: Infos, d: int, id: int, info: AddrInfo, x: int): Fate
  {
    if x == id then Stays(info) else Released(m, d, x)
  }

  ghost predicate IsInserted(m: Infos, m': Infos, d: int, id: int, info: AddrInfo)
  {
    forall x {:trigger Meets(m', x, Replaced(m, d, id, info, x))} :: Meets(m', x, Replaced(m, d, id, info, x))
  }

  lemma InsertedBy(m: Infos, m': Infos, m'': Infos, d: int, id: int, info: AddrInfo)
    requires IsReleased(m, m', d) && id in m' && id != d && id in m'' && m'' == m'[id := m''[id]]
    requires SameInfo(info, m''[id])
    ensures IsInserted(m, m'', d, id, info)
  {
    forall x ensures Meets(m'', x, Replaced(m, d, id, info, x)) {
      if x != id { assert Meets(m', x, Released(m, d, x)); }
    }
  }

  /** An id moves to the tried table, and `e`, if it is there, leaves it for the slot of `d`. */
  function Promoted(m: Infos, id: int, e: int, d: int, x: int): Fate
  {
    if x == id && x in m then Stays(m[x].(nRefCount := 0, fInTried := true))
    else if e !in m then Unchanged(m, x)
    else if x == e then Stays(m[x].(fInTried := false, nRefCount := m[x].nRefCount + 1))
    else Released(m, d, x)
  }

  ghost predicate IsPromotion(m: Infos, m': Infos, id: int, e: int, d: int)
  {
    forall x {:trigger Meets(m', x, Promoted(m, id, e, d, x))} :: Meets(m', x, Promoted(m, id, e, d, x))
  }

  lemma EvictedKeeps(m: Infos, m1: Infos, m': Infos, e: int, d: int, id: int)
    requires id in m && e in m && e != d && id != e && id != d && m1 == m[e := m[e].(fInTried := false)]
    requires IsInserted(m1, m', d, e, m1[e].(nRefCount := m1[e].nRefCount + 1))
    ensures id in m' && SameInfo(m[id], m'[id])
  {
    assert Meets(m', id, Replaced(m1, d, e, m1[e].(nRefCount := m1[e].nRefCount + 1), id));
  }

  lemma PromotedBy(m: Infos, m': Infos, m'': Infos, id: int, e: int, d: int)
    requires id in m && m[id].nRefCount == 0 && e != id && d != id && (e in m ==> e != d)
    requires if e in m then
               var m1 := m[e := m[e].(fInTried := false)];
               IsInserted(m1, m', d, e, m1[e].(nRefCount := m1[e].nRefCount + 1))
             else m' == m
    requires id in m' && SameInfo(m[id], m'[id]) && m'' == m'[id := m'[id].(fInTried := true)]
    ensures IsPromotion(m, m'', id, e, d)
  {
    forall x ensures Meets(m'', x, Promoted(m, id, e, d, x)) {
      if e in m {
        var m1 := m[e := m[e].(fInTried := false)];
        assert Meets(m', x, Replaced(m1, d, e, m1[e].(nRefCount := m1[e].nRefCount + 1), x));
      }
    }
  }

  lemma PromotionFrom(m: Infos, m1: Infos, m': Infos, id: int, e: int, d: int)
    requires id in m && m1 == m[id := m[id].(nRefCount := 0)] && e != id && d != id && IsPromotion(m1, m', id, e, d)
    ensures IsPromotion(m, m', id, e, d)
  {
    forall x ensures Meets(m', x, Promoted(m, id, e, d, x)) { assert Meets(m', x, Promoted(m1, id, e, d, x)); }
  }

  /** What a promotion leaves of the ids. */
  lemma PromotedEvolves(t: Tables, t': Tables, id: int, e: int, d: int)
    requires id in t.mapInfo && e != id && d != id && (e in t.mapInfo ==> e != d) && t.nIdCount == t'.nIdCount
    requires d in t.mapInfo ==> !t.mapInfo[d].fInTried
    requires IsPromotion(t.mapInfo, t'.mapInfo, id, e, d)
    ensures Evolves(t, t') && Displaced(t.mapInfo, t'.mapInfo, d)
    ensures id in t'.mapInfo && SameInfo(t.mapInfo[id].(nRefCount := 0, fInTried := true), t'.mapInfo[id])
  {
    forall x | x in t'.mapInfo ensures EvolvesAt(t, t', x) {
      assert Meets(t'.mapInfo, x, Promoted(t.mapInfo, id, e, d, x));
    }
    forall x | x in t.mapInfo && x != d ensures x in t'.mapInfo {
      assert Meets(t'.mapInfo, x, Promoted(t.mapInfo, id, e, d, x));
    }
    assert Meets(t'.mapInfo, d, Promoted(t.mapInfo, id, e, d, d));
    assert Meets(t'.mapInfo, id, Promoted(t.mapInfo, id, e, d, id));
  }

  /** An address that was created and deleted again leaves nothing but the counter. */
  lemma CreatedDeleted(h: Hasher, t: Tables, info: AddrInfo)
    requires t.nIdCount !in t.mapInfo && info.service.net !in t.mapAddr
    ensures Deleted(Created(t, info), t.nIdCount) == t.(nIdCount := t.nIdCount + 1)
  {
    var t' := Created(t, info);
    assert t'.mapInfo - {t.nIdCount} == t.mapInfo;
    assert t'.mapAddr - {info.service.net} == t.mapAddr;
    assert t'.vRandom[..|t'.vRandom| - 1] == t.vRandom;
  }

  predicate EvolvesAt(t: Tables, t': Tables, id: int)
    requires id in t'.mapInfo
  {
    if id in t.mapInfo then
      t'.mapInfo[id].service == t.mapInfo[id].service && t'.mapInfo[id].source == t.mapInfo[id].source
    else
      t.nIdCount <= id
  }

  /** Surviving ids keep their address; others are newer than all before. */
  predicate Evolves(t: Tables, t': Tables)
  {
    && t.nIdCount <= t'.nIdCount
    && forall id {:trigger EvolvesAt(t, t', id)} :: id in t'.mapInfo ==> EvolvesAt(t, t', id)
  }

  lemma EvolvesAlike(t: Tables, t': Tables)
    requires t.nIdCount <= t'.nIdCount && Alike(t.mapInfo, t'.mapInfo)
    ensures Evolves(t, t')
  {
    forall id | id in t'.mapInfo ensures EvolvesAt(t, t', id) {
      assert SameEntry(t.mapInfo[id], t'.mapInfo[id]);
    }
  }

  lemma EvolvesTransitive(h: Hasher, t0: Tables, t1: Tables, t2: Tables, loose: set<int>, aside: set<int>)
    requires Consistent(h, t0, loose, aside) && Evolves(t0, t1) && Evolves(t1, t2)
    ensures Evolves(t0, t2)
  {
    forall id | id in t2.mapInfo ensures EvolvesAt(t0, t2, id) {
      assert EvolvesAt(t1, t2, id);
      if id in t1.mapInfo { assert EvolvesAt(t0, t1, id); } else { assert id in t0.mapInfo ==> IdOk(h, t0, loose, id); }
    }
  }

  /** Tried slots that were occupied still are. */
  predicate StaysFull(g: Grid, g': Grid)
    requires Dim(g, ADDRMAN_TRIED_BUCKET_COUNT) && Dim(g', ADDRMAN_TRIED_BUCKET_COUNT)
  {
    forall b: nat, p: nat :: b < ADDRMAN_TRIED_BUCKET_COUNT && p < ADDRMAN_BUCKET_SIZE && g[b][p] != -1 ==>
      g'[b][p] != -1
  }

  lemma CollisionsKeep(h: Hasher, t: Tables, t': Tables, collisions: set<int>)
    requires Shape(t) && Shape(t') && CollisionsOk(h, t, collisions) && Evolves(t, t')
    requires StaysFull(t.vvTried, t'.vvTried)
    ensures CollisionsOk(h, t', collisions)
  {
    forall id | id in collisions ensures CollisionOk(h, t', id) {
      assert CollisionOk(h, t, id);
      if id in t'.mapInfo { assert EvolvesAt(t, t', id); }
    }
  }

  /** Allowing more ids to be loose. */
  lemma LooserKeeps(h: Hasher, t: Tables, loose: set<int>, loose': set<int>, aside: set<int>)
    requires Consistent(h, t, loose, aside) && loose <= loose'
    ensures Consistent(h, t, loose', aside)
  {
    forall x | x in t.mapInfo ensures IdOk(h, t, loose', x) { assert IdOk(h, t, loose, x); }
  }

  lemma NoFreeId(h: Hasher, t: Tables, loose: set<int>, aside: set<int>)
    requires Consistent(h, t, loose, aside)
    ensures -1 !in t.mapInfo
  {
    assert -1 in t.mapInfo ==> IdOk(h, t, loose, -1);
  }

  /** Nothing has gone but perhaps one id. */
  predicate LostAtMost(m: Infos, m': Infos, gone: int)
  {
    forall id :: id in m && id != gone ==> id in m'
  }

  /** Nothing has gone but perhaps one new id with a single reference. */
  predicate Displaced(m: Infos, m': Infos, gone: int)
  {
    LostAtMost(m, m', gone) && (gone in m && gone !in m' ==> !m[gone].fInTried && m[gone].nRefCount == 1)
  }

  /** What an insertion leaves of the other ids. */
  lemma InsertedEvolves(t: Tables, t': Tables, d: int, id: int, info: AddrInfo)
    requires id in t.mapInfo && id != d && t.nIdCount == t'.nIdCount && (d in t.mapInfo ==> !t.mapInfo[d].fInTried)
    requires info.service == t.mapInfo[id].service && info.source == t.mapInfo[id].source
    requires IsInserted(t.mapInfo, t'.mapInfo, d, id, info)
    ensures Evolves(t, t') && Displaced(t.mapInfo, t'.mapInfo, d) && id in t'.mapInfo
    ensures t'.mapInfo.Keys <= t.mapInfo.Keys
  {
    forall x | x in t'.mapInfo ensures EvolvesAt(t, t', x) {
      assert Meets(t'.mapInfo, x, Replaced(t.mapInfo, d, id, info, x));
    }
    forall x | x in t'.mapInfo ensures x in t.mapInfo {
      assert Meets(t'.mapInfo, x, Replaced(t.mapInfo, d, id, info, x));
    }
    forall x | x in t.mapInfo && x != d ensures x in t'.mapInfo {
      assert Meets(t'.mapInfo, x, Replaced(t.mapInfo, d, id, info, x));
    }
    assert Meets(t'.mapInfo, d, Replaced(t.mapInfo, d, id, info, d));
    assert Meets(t'.mapInfo, id, Replaced(t.mapInfo, d, id, info, id));
  }

  /** The id in a new slot has references, so it is none of those between the tables. */
  lemma SlotNotLoose(h: Hasher, t: Tables, b: nat, p: nat, loose: set<int>, aside: set<int>)
    requires Consistent(h, t, loose, aside) && b < ADDRMAN_NEW_BUCKET_COUNT && p < ADDRMAN_BUCKET_SIZE
    requires forall x :: x in loose + aside && x in t.mapInfo ==> t.mapInfo[x].nRefCount == 0
    ensures t.vvNew[b][p] in loose + aside ==> t.vvNew[b][p] == -1
    ensures t.vvNew[b][p] != -1 ==> t.vvNew[b][p] in t.mapInfo && !t.mapInfo[t.vvNew[b][p]].fInTried
  {
    if t.vvNew[b][p] != -1 { NewOccupant(h, t, b, p, loose, aside); }
  }

  lemma SlotNotTried(h: Hasher, t: Tables, b: nat, p: nat, loose: set<int>)
    requires Consistent(h, t, loose, {}) && b < ADDRMAN_NEW_BUCKET_COUNT && p < ADDRMAN_BUCKET_SIZE
    ensures t.vvNew[b][p] in t.mapInfo ==> !t.mapInfo[t.vvNew[b][p]].fInTried
  {
    NoFreeId(h, t, loose, {});
    if t.vvNew[b][p] != -1 { NewOccupant(h, t, b, p, loose, {}); }
  }

  /** Filling a free tried slot leaves every tried id where it is. */
  lemma StillTried(h: Hasher, t: Tables, t': Tables, b: nat, p: nat, id: int)
    requires Consistent(h, t, {}, {}) && Consistent(h, t', {}, {}) && Evolves(t, t')
    requires b < ADDRMAN_TRIED_BUCKET_COUNT && p < ADDRMAN_BUCKET_SIZE && t'.vvTried == Put(t.vvTried, b, p, id)
    requires forall x :: x in t.mapInfo && t.mapInfo[x].fInTried ==> x in t'.mapInfo
    ensures t.vvTried[b][p] == -1 ==> forall x :: x in t.mapInfo && t.mapInfo[x].fInTried ==> t'.mapInfo[x].fInTried
  {
    if t.vvTried[b][p] == -1 {
      forall x | x in t.mapInfo && t.mapInfo[x].fInTried ensures t'.mapInfo[x].fInTried {
        assert IdOk(h, t, {}, x);
        var c, q := TriedBucket(h, t.mapInfo[x].service), TriedPos(h, t.mapInfo[x].service);
        assert EvolvesAt(t, t', x);
        assert TriedSlotOk(h, t', c, q);
      }
    }
  }

  // ----- Sizes -----

  lemma {:induction false} DistinctCount(v: seq<int>)
    requires forall i, j :: 0 <= i < j < |v| ==> v[i] != v[j]
    ensures |set x | x in v| == |v|
  {
    if v != [] {
      var last := |v| - 1;
      DistinctCount(v[..last]);
      assert (set x | x in v) == (set x | x in v[..last]) + {v[last]};
    }
  }

  /** vRandom has one entry for every id, so its size is the sum of the counters. */
  lemma RandomSize(h: Hasher, t: Tables, loose: set<int>, aside: set<int>)
    requires Consistent(h, t, loose, aside)
    ensures |t.vRandom| == |t.mapInfo|
    ensures aside == {} ==> |t.vRandom| == t.nTried + t.nNew
  {
    forall i, j | 0 <= i < j < |t.vRandom| ensures t.vRandom[i] != t.vRandom[j] {
      assert PosOk(t, i) && PosOk(t, j);
    }
    DistinctCount(t.vRandom);
    forall id ensures id in t.mapInfo <==> id in t.vRandom {
      if id in t.mapInfo { assert IdOk(h, t, loose, id); }
      if id in t.vRandom { var i :| 0 <= i < |t.vRandom| && t.vRandom[i] == id; assert PosOk(t, i); }
    }
    assert (set x | x in t.vRandom) == t.mapInfo.Keys;
    FlagsSplit(t.mapInfo);
    assert Untried(t.mapInfo) - {} == Untried(t.mapInfo);
  }

  lemma FlagsSplit(m: Infos)
    ensures |m| == |Untried(m)| + |Tried(m)|
  {
    assert Untried(m) + Tried(m) == m.Keys;
    assert Untried(m) !! Tried(m);
  }
}
