/**
  The address manager's own consistency check. In every valid state it finds nothing wrong with the tables; what it
  can still report are times that were never set, and a null key.
 */
module AddrCheck {

  import opened AddrTables
  import AddrMan

  /** The times of an entry are what the check wants. */
  predicate TimesOk(info: AddrInfo)
  {
    info.nLastTry >= 0 && info.nLastSuccess >= 0 && (info.fInTried ==> info.nLastSuccess != 0)
  }

  predicate IsTimeError(code: int) { code == -1 || code == -6 || code == -8 }

  ghost predicate AllTimesOk(m: Infos) { forall id :: id in m ==> TimesOk(m[id]) }

  // ----- The entries -----

  method CheckEntry(a: AddrMan.AddrMan, n: int) returns (code: int)
    requires a.Valid() && n in a.mapInfo
    ensures code == 0 <==> TimesOk(a.mapInfo[n])
    ensures code != 0 ==> IsTimeError(code)
  {
    var info := a.mapInfo[n];
    assert IdOk(a.h, a.T(), {}, n);
    if info.fInTried {
      if info.nLastSuccess == 0 { return -1; }
      if info.nRefCount != 0 { return -2; }
    } else {
      if info.nRefCount < 0 || info.nRefCount > ADDRMAN_NEW_BUCKETS_PER_ADDRESS { return -3; }
      if info.nRefCount == 0 { return -4; }
    }
    if info.service.net !in a.mapAddr || a.mapAddr[info.service.net] != n { return -5; }
    if info.nRandomPos < 0 || info.nRandomPos >= |a.vRandom| || a.vRandom[info.nRandomPos] != n { return -14; }
    if info.nLastTry < 0 { return -6; }
    if info.nLastSuccess < 0 { return -8; }
    code := 0;
  }

  /** The reference counts of the ids that are not tried. */
  predicate IsCounts(m: Infos, mapNew: map<int, int>)
  {
    mapNew.Keys == Untried(m) && forall id :: id in mapNew ==> mapNew[id] == m[id].nRefCount
  }

  /** The ids outside `rest` have been sorted into the tried ones and the others. */
  predicate Sorted(m: Infos, rest: set<int>, setTried: set<int>, mapNew: map<int, int>)
  {
    && setTried == Tried(m) - rest && mapNew.Keys == Untried(m) - rest
    && forall id :: id in mapNew ==> mapNew[id] == m[id].nRefCount
  }

  lemma SortedOneMore(m: Infos, rest: set<int>, setTried: set<int>, mapNew: map<int, int>, n: int)
    requires Sorted(m, rest, setTried, mapNew) && n in rest && n in m
    ensures m[n].fInTried ==> Sorted(m, rest - {n}, setTried + {n}, mapNew)
    ensures !m[n].fInTried ==> Sorted(m, rest - {n}, setTried, mapNew[n := m[n].nRefCount])
  {
    assert m[n].fInTried ==>
      Untried(m) - (rest - {n}) == Untried(m) - rest && Tried(m) - (rest - {n}) == Tried(m) - rest + {n};
    assert !m[n].fInTried ==>
      Untried(m) - (rest - {n}) == Untried(m) - rest + {n} && Tried(m) - (rest - {n}) == Tried(m) - rest;
  }

  /** All tried ids, and all others with their reference counts. */
  method CheckEntries(a: AddrMan.AddrMan) returns (code: int, setTried: set<int>, mapNew: map<int, int>)
    requires a.Valid()
    ensures code != 0 ==> IsTimeError(code) && !AllTimesOk(a.mapInfo)
    ensures code == 0 ==> AllTimesOk(a.mapInfo) && setTried == Tried(a.mapInfo)
    ensures code == 0 ==> IsCounts(a.mapInfo, mapNew)
  {
    var m := a.mapInfo;
    var rest := m.Keys;
    code, setTried, mapNew := 0, {}, map[];
    while rest != {}
      invariant rest <= m.Keys
      invariant forall id :: id in m && id !in rest ==> TimesOk(m[id])
      invariant Sorted(m, rest, setTried, mapNew)
      decreases rest
    {
      AddrMan.SomeElement(rest);
      var n :| n in rest;
      SortedOneMore(m, rest, setTried, mapNew, n);
      rest := rest - {n};
      code := CheckEntry(a, n);
      if code != 0 { return code, {}, map[]; }
      if m[n].fInTried {
        setTried := setTried + {n};
      } else {
        mapNew := mapNew[n := m[n].nRefCount];
      }
    }
  }

  // ----- The tried table -----

  predicate Before(b: nat, p: nat, n: nat, i: nat) { b < n || (b == n && p < i) }

  /** A tried id whose slot is still to come. */
  predicate ToCome(h: Hasher, m: Infos, n: nat, i: nat, id: int)
  {
    id in m && m[id].fInTried && !Before(TriedBucket(h, m[id].service), TriedPos(h, m[id].service), n, i)
  }

  predicate TriedLeftAt(h: Hasher, m: Infos, setTried: set<int>, n: nat, i: nat, id: int)
  {
    id in setTried <==> ToCome(h, m, n, i, id)
  }

  ghost predicate TriedLeft(h: Hasher, m: Infos, setTried: set<int>, n: nat, i: nat)
  {
    forall id {:trigger TriedLeftAt(h, m, setTried, n, i, id)} :: TriedLeftAt(h, m, setTried, n, i, id)
  }

  /** A slot of the tried table takes out the id in it, and nothing if it is free. */
  lemma TriedSlotDone(h: Hasher, t: Tables, setTried: set<int>, n: nat, i: nat)
    requires Consistent(h, t, {}, {}) && n < ADDRMAN_TRIED_BUCKET_COUNT && i < ADDRMAN_BUCKET_SIZE
    requires TriedLeft(h, t.mapInfo, setTried, n, i)
    ensures TriedLeft(h, t.mapInfo, setTried - {t.vvTried[n][i]}, n, i + 1)
    ensures t.vvTried[n][i] == -1 ==> TriedLeft(h, t.mapInfo, setTried, n, i + 1)
    ensures t.vvTried[n][i] != -1 ==> t.vvTried[n][i] in setTried
  {
    assert TriedSlotOk(h, t, n, i);
    assert TriedLeftAt(h, t.mapInfo, setTried, n, i, t.vvTried[n][i]);
    var next, left := i + 1, setTried - {t.vvTried[n][i]};
    forall id ensures TriedLeftAt(h, t.mapInfo, left, n, next, id) {
      assert TriedLeftAt(h, t.mapInfo, setTried, n, i, id);
      if id in t.mapInfo { assert IdOk(h, t, {}, id); }
    }
    assert t.vvTried[n][i] == -1 ==> left == setTried by {
      if -1 in t.mapInfo { assert IdOk(h, t, {}, -1); }
    }
  }

  lemma TriedStarts(h: Hasher, m: Infos)
    ensures TriedLeft(h, m, Tried(m), 0, 0)
  {
    forall id ensures TriedLeftAt(h, m, Tried(m), 0, 0, id) { }
  }

  lemma TriedRowDone(h: Hasher, m: Infos, setTried: set<int>, n: nat)
    requires TriedLeft(h, m, setTried, n, ADDRMAN_BUCKET_SIZE)
    ensures TriedLeft(h, m, setTried, n + 1, 0)
  {
    var next := n + 1;
    forall id ensures TriedLeftAt(h, m, setTried, next, 0, id) {
      assert TriedLeftAt(h, m, setTried, n, ADDRMAN_BUCKET_SIZE, id);
    }
  }

  lemma TriedEnds(h: Hasher, m: Infos, setTried: set<int>)
    requires TriedLeft(h, m, setTried, ADDRMAN_TRIED_BUCKET_COUNT, 0)
    ensures setTried == {}
  {
    forall id ensures id !in setTried { assert TriedLeftAt(h, m, setTried, ADDRMAN_TRIED_BUCKET_COUNT, 0, id); }
  }

  method CheckTried(a: AddrMan.AddrMan, tried: set<int>) returns (code: int, setTried: set<int>)
    requires a.Valid() && tried == Tried(a.mapInfo)
    ensures code == 0 && setTried == {}
  {
    setTried := tried;
    TriedStarts(a.h, a.mapInfo);
    for n := 0 to ADDRMAN_TRIED_BUCKET_COUNT
      invariant TriedLeft(a.h, a.mapInfo, setTried, n, 0)
    {
      for i := 0 to ADDRMAN_BUCKET_SIZE
        invariant TriedLeft(a.h, a.mapInfo, setTried, n, i)
      {
        var id := a.vvTried[n, i];
        TriedSlotDone(a.h, a.T(), setTried, n, i);
        assert TriedSlotOk(a.h, a.T(), n, i);
        if id != -1 {
          if id !in setTried { return -11, setTried; }
          if TriedBucket(a.h, a.mapInfo[id].service) != n { return -17, setTried; }
          if TriedPos(a.h, a.mapInfo[id].service) != i { return -18, setTried; }
          setTried := setTried - {id};
        }
      }
      TriedRowDone(a.h, a.mapInfo, setTried, n);
    }
    TriedEnds(a.h, a.mapInfo, setTried);
    code := 0;
  }

  // ----- The new table -----

  /** The references to an id in the slots of the new table that are still to come. */
  function RefsLeft(h: Hasher, t: Tables, id: int, n: nat, i: nat): int
    requires Shape(t) && id in t.mapInfo && n <= ADDRMAN_NEW_BUCKET_COUNT
  {
    var s := t.mapInfo[id].service;
    Refs(h, s, t.vvNew, id, ADDRMAN_NEW_BUCKET_COUNT) - Refs(h, s, t.vvNew, id, n)
    - if n < ADDRMAN_NEW_BUCKET_COUNT && NewPos(h, n, s) < i && t.vvNew[n][NewPos(h, n, s)] == id then 1 else 0
  }

  lemma {:induction false} RefsGrow(h: Hasher, s: Service, g: Grid, id: int, n: nat, k: nat)
    requires Dim(g, ADDRMAN_NEW_BUCKET_COUNT) && n <= k <= ADDRMAN_NEW_BUCKET_COUNT
    ensures Refs(h, s, g, id, n) <= Refs(h, s, g, id, k)
    decreases k
  {
    if n < k { RefsGrow(h, s, g, id, n, k - 1); }
  }

  /** What mapNew holds for one id when the slots before bucket n, position i are done. */
  predicate LeftAt(h: Hasher, t: Tables, mapNew: map<int, int>, n: nat, i: nat, id: int)
    requires Shape(t) && n <= ADDRMAN_NEW_BUCKET_COUNT
  {
    if id in t.mapInfo && !t.mapInfo[id].fInTried && RefsLeft(h, t, id, n, i) > 0
    then id in mapNew && mapNew[id] == RefsLeft(h, t, id, n, i)
    else id !in mapNew
  }

  ghost predicate Left(h: Hasher, t: Tables, mapNew: map<int, int>, n: nat, i: nat)
    requires Shape(t) && n <= ADDRMAN_NEW_BUCKET_COUNT
  {
    forall id {:trigger LeftAt(h, t, mapNew, n, i, id)} :: LeftAt(h, t, mapNew, n, i, id)
  }

  lemma LeftStarts(h: Hasher, t: Tables, mapNew: map<int, int>)
    requires Consistent(h, t, {}, {}) && IsCounts(t.mapInfo, mapNew)
    ensures Left(h, t, mapNew, 0, 0)
  {
    forall id ensures LeftAt(h, t, mapNew, 0, 0, id) {
      if id in t.mapInfo { assert IdOk(h, t, {}, id); }
    }
  }

  lemma LeftEnds(h: Hasher, t: Tables, mapNew: map<int, int>)
    requires Shape(t) && Left(h, t, mapNew, ADDRMAN_NEW_BUCKET_COUNT, 0)
    ensures mapNew == map[]
  {
    forall id ensures id !in mapNew { assert LeftAt(h, t, mapNew, ADDRMAN_NEW_BUCKET_COUNT, 0, id); }
  }

  lemma LeftRow(h: Hasher, t: Tables, mapNew: map<int, int>, n: nat)
    requires Shape(t) && n < ADDRMAN_NEW_BUCKET_COUNT && Left(h, t, mapNew, n, ADDRMAN_BUCKET_SIZE)
    ensures Left(h, t, mapNew, n + 1, 0)
  {
    var next := n + 1;
    forall id ensures LeftAt(h, t, mapNew, next, 0, id) { assert LeftAt(h, t, mapNew, n, ADDRMAN_BUCKET_SIZE, id); }
  }

  /** The id in a slot has a reference left there, and is not tried. */
  lemma SlotCounts(h: Hasher, t: Tables, n: nat, i: nat, id: int)
    requires Consistent(h, t, {}, {}) && n < ADDRMAN_NEW_BUCKET_COUNT && i < ADDRMAN_BUCKET_SIZE
    requires id == t.vvNew[n][i] != -1
    ensures id in t.mapInfo && !t.mapInfo[id].fInTried && NewPos(h, n, t.mapInfo[id].service) == i
    ensures RefsLeft(h, t, id, n, i) > 0 && RefsLeft(h, t, id, n, i + 1) == RefsLeft(h, t, id, n, i) - 1
  {
    assert NewSlotOk(h, t, n, i);
    assert IdOk(h, t, {}, id);
    RefsGrow(h, t.mapInfo[id].service, t.vvNew, id, n + 1, ADDRMAN_NEW_BUCKET_COUNT);
  }

  lemma OthersCount(h: Hasher, t: Tables, n: nat, i: nat, id: int)
    requires Shape(t) && n < ADDRMAN_NEW_BUCKET_COUNT && i < ADDRMAN_BUCKET_SIZE && id in t.mapInfo
    requires id != t.vvNew[n][i]
    ensures RefsLeft(h, t, id, n, i + 1) == RefsLeft(h, t, id, n, i)
  {
  }

  /** mapNew after a slot: one reference less of the id in it, and no entry once none is left. */
  function Counted(mapNew: map<int, int>, id: int): map<int, int>
    requires id in mapNew
  {
    if mapNew[id] == 1 then mapNew - {id} else mapNew[id := mapNew[id] - 1]
  }

  lemma LeftStep(h: Hasher, t: Tables, mapNew: map<int, int>, n: nat, i: nat, id: int)
    requires Consistent(h, t, {}, {}) && n < ADDRMAN_NEW_BUCKET_COUNT && i < ADDRMAN_BUCKET_SIZE && id == t.vvNew[n][i]
    requires Left(h, t, mapNew, n, i)
    ensures id == -1 ==> Left(h, t, mapNew, n, i + 1)
    ensures id != -1 ==>
      && id in mapNew && id in t.mapInfo && NewPos(h, n, t.mapInfo[id].service) == i
      && Left(h, t, Counted(mapNew, id), n, i + 1)
  {
    if id != -1 {
      SlotCounts(h, t, n, i, id);
      assert LeftAt(h, t, mapNew, n, i, id);
    }
    var mapNew' := if id == -1 then mapNew else Counted(mapNew, id);
    var next := i + 1;
    forall x ensures LeftAt(h, t, mapNew', n, next, x) {
      assert LeftAt(h, t, mapNew, n, i, x);
      if x in t.mapInfo && x != id { OthersCount(h, t, n, i, x); }
      assert id == -1 ==> id !in t.mapInfo by { if id in t.mapInfo { assert IdOk(h, t, {}, id); } }
    }
  }

  method CheckNew(a: AddrMan.AddrMan, counts: map<int, int>) returns (code: int, mapNew: map<int, int>)
    requires a.Valid() && IsCounts(a.mapInfo, counts)
    ensures code == 0 && mapNew == map[]
  {
    mapNew := counts;
    LeftStarts(a.h, a.T(), counts);
    for n := 0 to ADDRMAN_NEW_BUCKET_COUNT
      invariant Left(a.h, a.T(), mapNew, n, 0)
    {
      for i := 0 to ADDRMAN_BUCKET_SIZE
        invariant Left(a.h, a.T(), mapNew, n, i)
      {
        var id := a.vvNew[n, i];
        LeftStep(a.h, a.T(), mapNew, n, i, id);
        if id != -1 {
          if id !in mapNew { return -12, mapNew; }
          if NewPos(a.h, n, a.mapInfo[id].service) != i { return -19, mapNew; }
          mapNew := Counted(mapNew, id);
        }
      }
      LeftRow(a.h, a.T(), mapNew, n);
    }
    LeftEnds(a.h, a.T(), mapNew);
    code := 0;
  }

  /** The check of a valid manager succeeds, but for times that were never set and a null key. */
  method Check_(a: AddrMan.AddrMan, keyIsNull: bool) returns (code: int)
    requires a.Valid()
    ensures code == 0 <==> AllTimesOk(a.mapInfo) && !keyIsNull
    ensures code != 0 ==> if AllTimesOk(a.mapInfo) then code == -16 else IsTimeError(code)
  {
    RandomSize(a.h, a.T(), {}, {});
    if |a.vRandom| != a.nTried + a.nNew { return -7; }
    var setTried, mapNew;
    code, setTried, mapNew := CheckEntries(a);
    if code != 0 { return; }
    assert |mapNew| == |mapNew.Keys| && Untried(a.mapInfo) - {} == Untried(a.mapInfo);
    if |setTried| != a.nTried { return -9; }
    if |mapNew| != a.nNew { return -10; }
    code, setTried := CheckTried(a, setTried);
    if code != 0 { return; }
    code, mapNew := CheckNew(a, mapNew);
    if code != 0 { return; }
    if |setTried| != 0 { return -13; }
    if |mapNew| != 0 { return -15; }
    if keyIsNull { return -16; }
    code := 0;
  }
}
