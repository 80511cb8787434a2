/**
  Compact blocks: the sender names transactions by short ids, the receiver finds them among what it
  has and asks for the rest. A transaction is named by its witness hash; the keyed hash that makes
  short ids is a parameter.
 */
module CompactBlocks {

  import SetSums

  type Tx = nat

  datatype Option<T> = None | Some(value: T)

  const MAX_INDEX: nat := 65535
  const INDEX_RANGE: nat := 65536
  const MAX_TRANSACTIONS: nat := 4000000 / 40   // MAX_BLOCK_WEIGHT / MIN_SERIALIZABLE_TRANSACTION_WEIGHT

  /** The results of the reconstruction, and `NeverReturns` for a call that does not come back. */
  datatype ReadStatus = ReadOk | ReadInvalid | ReadFailed | ReadCheckBlockFailed | NeverReturns

  // ----- Differential coding of indexes -----

  ghost predicate Increasing(ix: seq<int>)
  {
    forall i :: 0 <= i < |ix| - 1 ==> ix[i] < ix[i + 1]
  }

  ghost predicate InRange(ix: seq<int>)
  {
    forall i :: 0 <= i < |ix| ==> 0 <= ix[i] <= MAX_INDEX
  }

  /** The distance of each index from the one that would follow the previous index. */
  function Diffs(ix: seq<int>, offset: int): seq<int>
  {
    if ix == [] then [] else [ix[0] - offset] + Diffs(ix[1..], ix[0] + 1)
  }

  /** Indexes from distances; the running offset has sixteen bits. */
  function DecodeFrom(diffs: seq<int>, offset: nat): Option<seq<int>>
  {
    if diffs == [] then Some([])
    else if diffs[0] + offset > MAX_INDEX || diffs[0] < 0 then None
    else Prepend([diffs[0] + offset], DecodeFrom(diffs[1..], (diffs[0] + offset + 1) % 65536))
  }

  function Prepend(ix: seq<int>, r: Option<seq<int>>): Option<seq<int>>
  {
    match r
    case None => None
    case Some(rest) => Some(ix + rest)
  }

  lemma PrependTwice(a: seq<int>, b: seq<int>, r: Option<seq<int>>)
    ensures Prepend(a, Prepend(b, r)) == Prepend(a + b, r)
  {
    if r.Some? { assert a + (b + r.value) == a + b + r.value; }
  }

  lemma PrependNothing(r: Option<seq<int>>)
    ensures Prepend([], r) == r
  {
    if r.Some? { assert [] + r.value == r.value; }
  }

  method EncodeIndexes(ix: seq<int>) returns (diffs: seq<int>)
    requires Increasing(ix) && InRange(ix)
    ensures diffs == Diffs(ix, 0) && forall i :: 0 <= i < |diffs| ==> diffs[i] >= 0
  {
    diffs := [];
    assert ix[0..] == ix;
    for i := 0 to |ix|
      invariant Diffs(ix, 0) == diffs + Diffs(ix[i..], if i == 0 then 0 else ix[i - 1] + 1)
      invariant forall k :: 0 <= k < |diffs| ==> diffs[k] >= 0
    {
      var index := ix[i] - if i == 0 then 0 else ix[i - 1] + 1;
      assert ix[i..][1..] == ix[i + 1..];
      diffs := diffs + [index];
    }
  }

  /** Turn distances back into indexes, in place, or fail. */
  method DecodeIndexes(diffs: seq<int>) returns (r: Option<seq<int>>)
    requires forall k :: 0 <= k < |diffs| ==> diffs[k] >= 0
    ensures r == DecodeFrom(diffs, 0)
  {
    for i := 0 to |diffs|
      invariant forall k :: 0 <= k < i ==> diffs[k] <= MAX_INDEX
    {
      if diffs[i] > MAX_INDEX {
        TooLarge(diffs, 0, i);
        return None;
      }
    }
    var ix := diffs;
    var offset := 0;
    assert diffs[0..] == diffs;
    PrependNothing(DecodeFrom(diffs, 0));
    for j := 0 to |ix|
      invariant |ix| == |diffs| && 0 <= offset && ix[j..] == diffs[j..]
      invariant DecodeFrom(diffs, 0) == Prepend(ix[..j], DecodeFrom(diffs[j..], offset))
    {
      assert diffs[j..][1..] == diffs[j + 1..] && diffs[j..][0] == diffs[j] == ix[j];
      if ix[j] + offset > MAX_INDEX { return None; }
      PrependTwice(ix[..j], [ix[j] + offset], DecodeFrom(diffs[j + 1..], (ix[j] + offset + 1) % 65536));
      ghost var before := ix;
      ix := ix[j := ix[j] + offset];
      assert ix[..j + 1] == before[..j] + [ix[j]];
      offset := (ix[j] + 1) % 65536;
    }
    assert ix[..|ix|] == ix && diffs[|ix|..] == [];
    assert ix + [] == ix;
    r := Some(ix);
  }

  lemma {:induction false} TooLarge(diffs: seq<int>, offset: nat, i: nat)
    requires i < |diffs| && diffs[i] > MAX_INDEX
    ensures DecodeFrom(diffs, offset) == None
  {
    if i > 0 && !(diffs[0] + offset > MAX_INDEX || diffs[0] < 0) {
      TooLarge(diffs[1..], (diffs[0] + offset + 1) % 65536, i - 1);
    }
  }

  /** Decoding gives back any increasing list of sixteen-bit indexes. */
  lemma {:induction false} IndexRoundTrip(ix: seq<int>, offset: nat)
    requires Increasing(ix) && InRange(ix) && (ix != [] ==> offset <= ix[0])
    ensures DecodeFrom(Diffs(ix, offset), offset) == Some(ix)
  {
    if ix != [] {
      var rest := ix[1..];
      assert forall i :: 0 <= i < |rest| ==> rest[i] == ix[i + 1];
      assert Diffs(ix, offset)[1..] == Diffs(rest, ix[0] + 1);
      assert ix == [ix[0]] + rest;
      if rest != [] { IndexRoundTrip(rest, ix[0] + 1); }
    }
  }

  lemma {:induction false} DecodedRange(diffs: seq<int>, offset: nat, ix: seq<int>)
    requires DecodeFrom(diffs, offset) == Some(ix)
    ensures |ix| == |diffs| && InRange(ix) && (ix != [] ==> offset <= ix[0])
    ensures forall i :: 0 < i < |ix| ==> (ix[i - 1] + 1) % 65536 <= ix[i]
    decreases |diffs|
  {
    if diffs != [] {
      var next := (diffs[0] + offset + 1) % 65536;
      var rest := DecodeFrom(diffs[1..], next).value;
      DecodedRange(diffs[1..], next, rest);
      assert ix == [diffs[0] + offset] + rest;
      assert forall i :: 0 <= i < |rest| ==> rest[i] == ix[i + 1];
      forall i | 0 < i < |ix| ensures (ix[i - 1] + 1) % 65536 <= ix[i] {
        assert i > 1 ==> (rest[i - 2] + 1) % 65536 <= rest[i - 1];
      }
    }
  }

  /** The first i + 1 distances and i: where the i-th distance leads, as long as the offset does not wrap around. */
  function RunningSum(diffs: seq<int>, i: nat): int
    requires i < |diffs|
  {
    if i == 0 then diffs[0] else diffs[0] + 1 + RunningSum(diffs[1..], i - 1)
  }

  /** Some distance but the last leads to index 65535, where the offset wraps around. */
  ghost predicate Wraps(diffs: seq<int>)
  {
    exists i :: 0 <= i < |diffs| - 1 && RunningSum(diffs, i) == MAX_INDEX
  }

  /** Up to the first wrap-around the indexes are the running sums. */
  lemma {:induction false} DecodedSum(diffs: seq<int>, offset: nat, ix: seq<int>, k: nat)
    requires DecodeFrom(diffs, offset) == Some(ix) && k < |diffs| == |ix|
    requires forall i :: 0 <= i < k ==> RunningSum(diffs, i) + offset != MAX_INDEX
    ensures ix[k] == RunningSum(diffs, k) + offset
    decreases |diffs|
  {
    var next := (diffs[0] + offset + 1) % 65536;
    var rest := DecodeFrom(diffs[1..], next).value;
    assert ix == [diffs[0] + offset] + rest;
    if k > 0 {
      DecodedRange(diffs[1..], next, rest);
      assert RunningSum(diffs, 0) == diffs[0];
      forall i | 0 <= i < k - 1 ensures RunningSum(diffs[1..], i) + next != MAX_INDEX {
        assert RunningSum(diffs, i + 1) + offset != MAX_INDEX;
      }
      DecodedSum(diffs[1..], next, rest, k - 1);
    }
  }

  /** What is decoded increases exactly if no running sum of the distances but the last is 65535. */
  lemma DecodedIncreases(diffs: seq<int>, ix: seq<int>)
    requires DecodeFrom(diffs, 0) == Some(ix)
    ensures Increasing(ix) <==> !Wraps(diffs)
  {
    DecodedRange(diffs, 0, ix);
    if Wraps(diffs) {
      var i := FirstWrap(diffs, |diffs| - 1);
      DecodedSum(diffs, 0, ix, i);
      assert !(ix[i] < ix[i + 1]);
    } else {
      forall i | 0 <= i < |ix| - 1 ensures ix[i] < ix[i + 1] {
        DecodedSum(diffs, 0, ix, i);
        assert RunningSum(diffs, i) != MAX_INDEX;
        assert (ix[i + 1 - 1] + 1) % 65536 <= ix[i + 1];
      }
    }
  }

  lemma {:induction false} FirstWrap(diffs: seq<int>, n: nat) returns (i: nat)
    requires n < |diffs| && exists j :: 0 <= j < n && RunningSum(diffs, j) == MAX_INDEX
    ensures i < n && RunningSum(diffs, i) == MAX_INDEX
    ensures forall j :: 0 <= j < i ==> RunningSum(diffs, j) != MAX_INDEX
  {
    if exists j :: 0 <= j < n - 1 && RunningSum(diffs, j) == MAX_INDEX {
      i := FirstWrap(diffs, n - 1);
    } else {
      i := n - 1;
    }
  }

  /** Two distances that decode to indexes that do not increase. */
  lemma DecodedWraps()
    ensures DecodeFrom([65535, 5], 0) == Some([65535, 5]) && !Increasing([65535, 5])
  {
    var five: seq<int> := [5];
    var both: seq<int> := [65535, 5];
    assert both[1..] == five && five[1..] == [];
    assert five + [] == five;
    assert DecodeFrom(five, 0) == Prepend([5], Some([]));
    assert [65535] + five == both;
    assert both[0] > both[0 + 1];
  }

  // ----- Compact blocks -----

  /** A transaction sent in full; `index` is the distance from the previous one. */
  datatype Prefilled = Prefilled(index: nat, tx: Option<Tx>)

  datatype Compact = Compact(headerIsNull: bool, shorttxids: seq<nat>, prefilledtxn: seq<Prefilled>)

  function BlockTxCount(c: Compact): nat { |c.shorttxids| + |c.prefilledtxn| }

  type Slots = seq<Option<Tx>>

  /** How many of the first n slots are empty. */
  function Empty(a: Slots, n: nat): nat
    requires n <= |a|
  {
    if n == 0 then 0 else Empty(a, n - 1) + if a[n - 1].None? then 1 else 0
  }

  lemma {:induction false} EmptySet(a: Slots, p: nat, tx: Tx, n: nat)
    requires p < |a| && n <= |a| && a[p].None?
    ensures Empty(a[p := Some(tx)], n) == Empty(a, n) - if p < n then 1 else 0
  {
    if n > 0 { EmptySet(a, p, tx, n - 1); }
  }

  lemma {:induction false} EmptyGrows(a: Slots, m: nat, n: nat)
    requires m <= n <= |a|
    ensures Empty(a, m) <= Empty(a, n) && (m < n && a[m].None? ==> Empty(a, m) < Empty(a, n))
  {
    if m < n { EmptyGrows(a, m, n - 1); }
  }

  lemma {:induction false} EmptyAll(n: nat, k: nat)
    requires k <= n
    ensures Empty(seq(n, _ => None), k) == k
  {
    if k > 0 { EmptyAll(n, k - 1); }
  }

  /** Slot p is the j-th empty one. */
  ghost predicate IsFree(a: Slots, j: nat, p: nat)
  {
    p < |a| && a[p].None? && Empty(a, p) == j
  }

  // ----- Prefilled transactions -----

  /** Where the i-th prefilled transaction goes. */
  function PrefilledAt(pre: seq<Prefilled>, i: nat): nat
    requires i < |pre|
  {
    pre[i].index + if i == 0 then 0 else PrefilledAt(pre, i - 1) + 1
  }

  ghost predicate PrefilledOk(c: Compact, i: nat)
    requires i < |c.prefilledtxn|
  {
    && c.prefilledtxn[i].tx.Some?
    && PrefilledAt(c.prefilledtxn, i) <= MAX_INDEX
    && PrefilledAt(c.prefilledtxn, i) <= |c.shorttxids| + i
  }

  ghost predicate Holds(c: Compact, a: Slots, i: nat)
    requires i < |c.prefilledtxn|
  {
    PrefilledAt(c.prefilledtxn, i) < |a| && a[PrefilledAt(c.prefilledtxn, i)] == c.prefilledtxn[i].tx
  }

  ghost predicate AllHeld(c: Compact, a: Slots, n: nat)
    requires n <= |c.prefilledtxn|
  {
    forall i: nat {:trigger Holds(c, a, i)} :: i < n ==> Holds(c, a, i)
  }

  ghost predicate IsPrefilledSlot(c: Compact, n: nat, p: nat)
    requires n <= |c.prefilledtxn|
  {
    exists i: nat :: i < n && PrefilledAt(c.prefilledtxn, i) == p
  }

  ghost predicate OnlyPrefilled(c: Compact, a: Slots, n: nat)
    requires n <= |c.prefilledtxn|
  {
    forall p: nat {:trigger IsPrefilledSlot(c, n, p)} :: p < |a| && a[p].Some? ==> IsPrefilledSlot(c, n, p)
  }

  /** Put the prefilled transactions into their slots; it fails exactly if one of them is null or does not fit. */
  method Prefill(c: Compact) returns (ok: bool, a: Slots)
    ensures ok <==> forall i: nat :: i < |c.prefilledtxn| ==> PrefilledOk(c, i)
    ensures ok ==> |a| == BlockTxCount(c) && Empty(a, |a|) == |c.shorttxids|
    ensures ok ==> AllHeld(c, a, |c.prefilledtxn|) && OnlyPrefilled(c, a, |c.prefilledtxn|)
  {
    var pre := c.prefilledtxn;
    a := seq(BlockTxCount(c), _ => None);
    EmptyAll(|a|, |a|);
    var lastprefilledindex: int := -1;
    for i := 0 to |pre|
      invariant |a| == BlockTxCount(c) && Empty(a, |a|) == |a| - i && AllHeld(c, a, i) && OnlyPrefilled(c, a, i)
      invariant lastprefilledindex == if i == 0 then -1 else PrefilledAt(pre, i - 1)
      invariant forall k: nat :: k < i ==> PrefilledOk(c, k)
      invariant forall p :: lastprefilledindex < p < |a| ==> a[p].None?
    {
      if pre[i].tx.None? {
        assert !PrefilledOk(c, i);
        return false, a;
      }
      lastprefilledindex := lastprefilledindex + pre[i].index + 1;
      assert lastprefilledindex == PrefilledAt(pre, i);
      if lastprefilledindex > MAX_INDEX {
        assert !PrefilledOk(c, i);
        return false, a;
      }
      if lastprefilledindex > |c.shorttxids| + i {
        assert !PrefilledOk(c, i);
        return false, a;
      }
      assert PrefilledOk(c, i);
      EmptySet(a, lastprefilledindex, pre[i].tx.value, |a|);
      ghost var before := a;
      a := a[lastprefilledindex := pre[i].tx];
      forall k: nat | k < i + 1 ensures Holds(c, a, k) {
        if k < i {
          assert Holds(c, before, k);
          PrefilledGrows(pre, k, i);
        }
      }
      forall p: nat | p < |a| && a[p].Some? ensures IsPrefilledSlot(c, i + 1, p) {
        assert p != lastprefilledindex ==> IsPrefilledSlot(c, i, p);
      }
    }
    ok := true;
  }

  lemma {:induction false} PrefilledGrows(pre: seq<Prefilled>, i: nat, j: nat)
    requires i < j < |pre|
    ensures PrefilledAt(pre, i) < PrefilledAt(pre, j)
  {
    if i < j - 1 { PrefilledGrows(pre, i, j - 1); }
  }

  lemma {:induction false} PrefilledAtLeast(pre: seq<Prefilled>, i: nat)
    requires i < |pre|
    ensures PrefilledAt(pre, i) >= i
  {
    if i > 0 { PrefilledAtLeast(pre, i - 1); }
  }

  /** What makes a compact block invalid. */
  ghost predicate IsInvalid(c: Compact)
  {
    || c.headerIsNull || BlockTxCount(c) == 0 || BlockTxCount(c) > MAX_TRANSACTIONS
    || !forall i: nat :: i < |c.prefilledtxn| ==> PrefilledOk(c, i)
  }

  // ----- Short ids -----

  /** A map gives a short id the slot of one of its occurrences, in sixteen bits. */
  ghost predicate Located(c: Compact, a: Slots, n: nat, key: nat, p: nat)
    requires n <= |c.shorttxids|
  {
    exists j: nat, q: nat :: j < n && c.shorttxids[j] == key && IsFree(a, j, q) && p == q % INDEX_RANGE
  }

  ghost predicate AllLocated(c: Compact, a: Slots, n: nat, ids: map<nat, nat>)
    requires n <= |c.shorttxids|
  {
    forall key {:trigger ids[key]} :: key in ids ==> Located(c, a, n, key, ids[key])
  }

  /** Where the scan for the i-th short id looks after k more steps; the offset has sixteen bits. */
  function Probe(i: nat, offset: nat, k: nat): nat { i + (offset + k) % INDEX_RANGE }

  predicate ProbesFilled(a: Slots, i: nat, offset: nat, k: nat)
  {
    Probe(i, offset, k) < |a| && a[Probe(i, offset, k)].Some?
  }

  /** The scan goes over k filled slots, all of them inside, and finds an empty one. */
  ghost predicate StopsAfter(a: Slots, i: nat, offset: nat, k: nat)
  {
    && (forall m: nat {:trigger ProbesFilled(a, i, offset, m)} :: m < k ==> ProbesFilled(a, i, offset, m))
    && Probe(i, offset, k) < |a| && a[Probe(i, offset, k)].None?
  }

  /** Every slot the scan looks at, for ever, is filled. */
  ghost predicate NeverStops(a: Slots, i: nat, offset: nat)
  {
    forall k: nat :: ProbesFilled(a, i, offset, k)
  }

  ghost predicate HasStop(a: Slots, i: nat, offset: nat)
  {
    exists k: nat :: StopsAfter(a, i, offset, k)
  }

  ghost function StepsToStop(a: Slots, i: nat, offset: nat): (k: nat)
    requires HasStop(a, i, offset)
    ensures StopsAfter(a, i, offset, k)
  {
    var k: nat :| StopsAfter(a, i, offset, k); k
  }

  /** The offset at which the scan for the i-th short id stops, if it stops and those before it do. */
  ghost function OffsetAfter(a: Slots, i: nat): Option<nat>
  {
    var start := if i == 0 then Some(0) else OffsetAfter(a, i - 1);
    if start.None? then None
    else if !HasStop(a, i, start.value) then None
    else Some((start.value + StepsToStop(a, i, start.value)) % INDEX_RANGE)
  }

  /** The scan for the i-th short id stops, at the i-th empty slot. */
  ghost predicate ScanStops(a: Slots, i: nat)
  {
    OffsetAfter(a, i).Some? && IsFree(a, i, i + OffsetAfter(a, i).value)
  }

  lemma StopsOnce(a: Slots, i: nat, offset: nat, k: nat, m: nat)
    requires StopsAfter(a, i, offset, k) && StopsAfter(a, i, offset, m)
    ensures k == m
  {
    assert !ProbesFilled(a, i, offset, k) && !ProbesFilled(a, i, offset, m);
  }

  lemma StopsIsEnd(a: Slots, i: nat, offset: nat, k: nat)
    requires StopsAfter(a, i, offset, k)
    ensures !NeverStops(a, i, offset)
  {
    assert !ProbesFilled(a, i, offset, k);
  }

  /** The slots after the prefilled transactions of an acceptable message are in place. */
  ghost predicate IsPrefilled(c: Compact, a: Slots)
  {
    && |a| == BlockTxCount(c) && Empty(a, |a|) == |c.shorttxids|
    && AllHeld(c, a, |c.prefilledtxn|) && OnlyPrefilled(c, a, |c.prefilledtxn|)
    && forall i: nat :: i < |c.prefilledtxn| ==> PrefilledOk(c, i)
  }

  /** Every slot that a sixteen-bit offset reaches is prefilled, and there is a short id to find a slot for. */
  predicate IsEndless(c: Compact)
  {
    c.shorttxids != [] && |c.prefilledtxn| == INDEX_RANGE
  }

  lemma {:induction false} PrefilledSpread(pre: seq<Prefilled>, i: nat, j: nat)
    requires i <= j < |pre|
    ensures PrefilledAt(pre, j) - PrefilledAt(pre, i) >= j - i
  {
    if i < j { PrefilledSpread(pre, i, j - 1); }
  }

  /** No more than 65536 prefilled transactions are acceptable, and with so many all of those slots are filled. */
  lemma PrefilledFill(c: Compact, a: Slots)
    requires IsPrefilled(c, a)
    ensures |c.prefilledtxn| <= INDEX_RANGE <= |a| || |c.prefilledtxn| < INDEX_RANGE
    ensures |c.prefilledtxn| == INDEX_RANGE ==> forall p :: 0 <= p < INDEX_RANGE ==> a[p].Some?
  {
    var n := |c.prefilledtxn|;
    if n > 0 {
      assert PrefilledOk(c, n - 1);
      PrefilledAtLeast(c.prefilledtxn, n - 1);
    }
    if n == INDEX_RANGE {
      forall p: nat | p < INDEX_RANGE ensures a[p].Some? {
        PrefilledAtLeast(c.prefilledtxn, p);
        PrefilledSpread(c.prefilledtxn, p, n - 1);
        assert Holds(c, a, p) && PrefilledOk(c, p);
      }
    }
  }

  lemma EndlessNeverStops(c: Compact, a: Slots)
    requires IsPrefilled(c, a) && IsEndless(c)
    ensures NeverStops(a, 0, 0) && OffsetAfter(a, 0) == None
  {
    PrefilledFill(c, a);
    forall k: nat ensures ProbesFilled(a, 0, 0, k) {
      assert a[k % INDEX_RANGE].Some?;
    }
    forall k: nat ensures !StopsAfter(a, 0, 0, k) { assert ProbesFilled(a, 0, 0, k); }
  }

  /** With fewer prefilled transactions the offset does not wrap around before the next empty slot. */
  lemma {:induction false} ScanFinds(c: Compact, a: Slots, i: nat, offset: nat) returns (k: nat)
    requires |a| == BlockTxCount(c) && Empty(a, |a|) == |c.shorttxids| && |c.prefilledtxn| <= MAX_INDEX
    requires i < |c.shorttxids| && i + offset <= |a| && Empty(a, i + offset) == i
    ensures StopsAfter(a, i, offset, k) && offset + k < INDEX_RANGE && IsFree(a, i, i + offset + k)
    decreases |a| - offset
  {
    EmptyRest(a, i + offset);
    if a[i + offset].None? {
      k := 0;
    } else {
      var n := ScanFinds(c, a, i, offset + 1);
      k := n + 1;
      forall m: nat | m < k ensures ProbesFilled(a, i, offset, m) {
        assert m > 0 ==> ProbesFilled(a, i, offset + 1, m - 1);
      }
    }
  }

  lemma {:induction false} ScanStopsAt(c: Compact, a: Slots, i: nat)
    requires |a| == BlockTxCount(c) && Empty(a, |a|) == |c.shorttxids| && |c.prefilledtxn| <= MAX_INDEX
    requires i < |c.shorttxids|
    ensures ScanStops(a, i)
  {
    if i > 0 { ScanStopsAt(c, a, i - 1); }
    var start := if i == 0 then 0 else OffsetAfter(a, i - 1).value;
    var k := ScanFinds(c, a, i, start);
    StopsOnce(a, i, start, k, StepsToStop(a, i, start));
  }

  /** Every short id finds its slot exactly if there is none or fewer than 65536 transactions are prefilled. */
  lemma ScansStop(c: Compact, a: Slots)
    requires IsPrefilled(c, a)
    ensures (forall i: nat :: i < |c.shorttxids| ==> ScanStops(a, i)) <==>
            c.shorttxids == [] || |c.prefilledtxn| <= MAX_INDEX
  {
    PrefilledFill(c, a);
    if IsEndless(c) {
      EndlessNeverStops(c, a);
      assert !ScanStops(a, 0);
    } else if c.shorttxids != [] {
      forall i: nat | i < |c.shorttxids| ensures ScanStops(a, i) { ScanStopsAt(c, a, i); }
    }
  }

  /** Prefilled transactions without a distance between them are next to each other. */
  lemma {:induction false} PrefilledDense(pre: seq<Prefilled>, i: nat)
    requires i < |pre| && forall k :: 0 <= k < |pre| ==> pre[k].index == 0
    ensures PrefilledAt(pre, i) == i
  {
    if i > 0 { PrefilledDense(pre, i - 1); }
  }

  /** A message that is not invalid and whose first short id never finds a slot. */
  lemma EndlessMessage()
    ensures var c := Compact(false, [7], seq(65536, _ => Prefilled(0, Some(1))));
      !IsInvalid(c) && forall a :: IsPrefilled(c, a) ==> NeverStops(a, 0, 0) && !ScanStops(a, 0)
  {
    var c := Compact(false, [7], seq(65536, _ => Prefilled(0, Some(1))));
    forall i: nat | i < |c.prefilledtxn| ensures PrefilledOk(c, i) { PrefilledDense(c.prefilledtxn, i); }
    forall a | IsPrefilled(c, a) ensures NeverStops(a, 0, 0) && !ScanStops(a, 0) { EndlessNeverStops(c, a); }
  }

  /**
    Give each short id the next empty slot. The scan never leaves the slots; it ends exactly if there is no short id
    or a slot is left for it among those a sixteen-bit offset reaches.
   */
  method MapShortIds(c: Compact, a: Slots) returns (ends: bool, ids: map<nat, nat>)
    requires IsPrefilled(c, a)
    ensures ends <==> !IsEndless(c)
    ensures ends <==> forall i: nat :: i < |c.shorttxids| ==> ScanStops(a, i)
    ensures !ends ==> NeverStops(a, 0, 0)
    ensures ends ==> ids.Keys == (set j | 0 <= j < |c.shorttxids| :: c.shorttxids[j])
    ensures ends ==> AllLocated(c, a, |c.shorttxids|, ids)
  {
    ids := map[];
    var indexOffset: nat := 0;
    PrefilledFill(c, a);
    ScansStop(c, a);
    for i := 0 to |c.shorttxids|
      invariant i > 0 ==> !IsEndless(c)
      invariant indexOffset < INDEX_RANGE && (i == 0 ==> indexOffset == 0)
      invariant i + indexOffset <= |a| && Empty(a, i + indexOffset) == i
      invariant ids.Keys == (set j | 0 <= j < i :: c.shorttxids[j])
      invariant AllLocated(c, a, i, ids)
    {
      ghost var last := 0;
      if IsEndless(c) {
        EndlessNeverStops(c, a);
      } else {
        last := ScanFinds(c, a, i, indexOffset);
        StopsIsEnd(a, i, indexOffset, last);
      }
      ends, indexOffset := SkipFilled(a, i, indexOffset, last);
      if !ends {
        return;
      }
      ghost var before := ids;
      ids := ids[c.shorttxids[i] := (i + indexOffset) % INDEX_RANGE];
      assert IsFree(a, i, i + indexOffset);
      forall key | key in ids ensures Located(c, a, i + 1, key, ids[key]) {
        if key != c.shorttxids[i] {
          assert Located(c, a, i, key, before[key]);
        }
      }
    }
    ends := true;
  }

  lemma NextProbe(i: nat, offset: nat, k: nat)
    ensures Probe(i, offset, k + 1) == i + (Probe(i, offset, k) - i + 1) % INDEX_RANGE
  {
  }

  /** The scan for one short id. When the offset has been everywhere without success, the source goes on for ever. */
  method SkipFilled(a: Slots, i: nat, offset: nat, ghost last: nat) returns (ends: bool, indexOffset: nat)
    requires offset < INDEX_RANGE && last < INDEX_RANGE
    requires NeverStops(a, i, offset) || StopsAfter(a, i, offset, last)
    ensures ends <==> !NeverStops(a, i, offset)
    ensures ends ==> indexOffset == (offset + last) % INDEX_RANGE
  {
    indexOffset := offset;
    var steps := 0;
    assert NeverStops(a, i, offset) || last > 0 ==> ProbesFilled(a, i, offset, 0);
    while a[i + indexOffset].Some?
      invariant steps < INDEX_RANGE && i + indexOffset == Probe(i, offset, steps) < |a|
      invariant NeverStops(a, i, offset) || steps <= last
      invariant NeverStops(a, i, offset) || steps < last ==> ProbesFilled(a, i, offset, steps)
      decreases INDEX_RANGE - steps
    {
      NextProbe(i, offset, steps);
      indexOffset := (indexOffset + 1) % INDEX_RANGE;
      steps := steps + 1;
      if steps == INDEX_RANGE {
        return false, indexOffset;
      }
      assert NeverStops(a, i, offset) || steps < last ==> ProbesFilled(a, i, offset, steps);
    }
    assert !ProbesFilled(a, i, offset, steps);
    ends := true;
  }

  /** What is empty from a place on is at most what is there. */
  lemma {:induction false} EmptyRest(a: Slots, n: nat)
    requires n <= |a|
    ensures Empty(a, |a|) - Empty(a, n) <= |a| - n
    ensures n < |a| && a[n].Some? ==> Empty(a, |a|) - Empty(a, n) < |a| - n
    decreases |a| - n
  {
    if n < |a| { EmptyRest(a, n + 1); }
  }

  /** Every empty slot has a sixteen-bit position exactly if there are at most 65536 slots. */
  lemma PositionsFit(c: Compact, a: Slots)
    requires |a| == BlockTxCount(c) && OnlyPrefilled(c, a, |c.prefilledtxn|)
    requires forall i: nat :: i < |c.prefilledtxn| ==> PrefilledOk(c, i)
    ensures (forall j: nat, q: nat :: IsFree(a, j, q) ==> q % INDEX_RANGE == q) <==> |a| <= INDEX_RANGE
  {
    if |a| > INDEX_RANGE {
      var q := |a| - 1;
      assert a[q].Some? ==> IsPrefilledSlot(c, |c.prefilledtxn|, q);
      forall i: nat | i < |c.prefilledtxn| ensures PrefilledAt(c.prefilledtxn, i) < q { assert PrefilledOk(c, i); }
      assert IsFree(a, Empty(a, q), q);
    }
  }

  // ----- Reconstruction -----

  /** What is there is what the block has there. */
  ghost predicate Agrees(a: Slots, block: seq<Tx>)
  {
    |a| == |block| && forall p :: 0 <= p < |a| ==> a[p].None? || a[p] == Some(block[p])
  }

  /**
    A compact block describes a block: its prefilled transactions are in place, and the j-th other one has the j-th
    short id.
   */
  ghost predicate Describes(c: Compact, short: Tx -> nat, block: seq<Tx>)
  {
    && |block| == BlockTxCount(c)
    && (forall i: nat :: i < |c.prefilledtxn| ==>
          && PrefilledAt(c.prefilledtxn, i) < |block|
          && c.prefilledtxn[i].tx == Some(block[PrefilledAt(c.prefilledtxn, i)]))
    && (forall a: Slots, j: nat, p: nat ::
          (&& |a| == |block| && AllHeld(c, a, |c.prefilledtxn|) && Empty(a, |a|) == |c.shorttxids|
           && IsFree(a, j, p) && j < |c.shorttxids|) ==>
          c.shorttxids[j] == short(block[p]))
  }

  /** No transaction the receiver has collides with another one of the block. */
  ghost predicate NoCollision(short: Tx -> nat, block: seq<Tx>, have: seq<Tx>)
  {
    forall k, p :: 0 <= k < |have| && 0 <= p < |block| && short(have[k]) == short(block[p]) ==> have[k] == block[p]
  }

  /** Every id leads to a slot whose transaction has that id. */
  ghost predicate Leads(short: Tx -> nat, block: seq<Tx>, ids: map<nat, nat>)
  {
    forall key {:trigger ids[key]} :: key in ids ==> ids[key] < |block| && short(block[ids[key]]) == key
  }

  lemma LocatedLeads(c: Compact, short: Tx -> nat, block: seq<Tx>, a: Slots, ids: map<nat, nat>)
    requires Describes(c, short, block) && |a| == |block| && AllHeld(c, a, |c.prefilledtxn|)
    requires Empty(a, |a|) == |c.shorttxids|
    requires AllLocated(c, a, |c.shorttxids|, ids) && |a| <= INDEX_RANGE
    ensures Leads(short, block, ids)
  {
    forall key | key in ids ensures ids[key] < |block| && short(block[ids[key]]) == key {
      assert Located(c, a, |c.shorttxids|, key, ids[key]);
      var j: nat, q: nat :|
        j < |c.shorttxids| && c.shorttxids[j] == key && IsFree(a, j, q) && ids[key] == q % INDEX_RANGE;
    }
  }

  lemma LocatedInside(c: Compact, a: Slots, key: nat, p: nat)
    requires Located(c, a, |c.shorttxids|, key, p)
    ensures p < |a|
  {
    var j: nat, q: nat :| j < |c.shorttxids| && c.shorttxids[j] == key && IsFree(a, j, q) && p == q % INDEX_RANGE;
  }

  predicate Distinct(s: seq<nat>) { forall i, j :: 0 <= i < j < |s| ==> s[i] != s[j] }

  /** A list has as many elements as it is long exactly if none is there twice. */
  lemma {:induction false} DistinctCount(s: seq<nat>)
    ensures |set j | 0 <= j < |s| :: s[j]| <= |s|
    ensures |set j | 0 <= j < |s| :: s[j]| == |s| <==> Distinct(s)
  {
    if s != [] {
      var n := |s| - 1;
      var t := s[..n];
      DistinctCount(t);
      var all, before := (set j | 0 <= j < |s| :: s[j]), (set j | 0 <= j < |t| :: t[j]);
      assert forall j :: 0 <= j < n ==> s[j] == t[j];
      assert all == before + {s[n]};
      if Distinct(s) {
        assert s[n] !in before;
      } else if Distinct(t) {
        var i, j :| 0 <= i < j < |s| && s[i] == s[j];
        assert j == n && t[i] in before;
      }
    }
  }

  method CreateCompact(block: seq<Tx>, short: Tx -> nat) returns (c: Compact)
    requires |block| > 0
    ensures c ==
      Compact(false, seq(|block| - 1, i requires 0 <= i < |block| - 1 => short(block[i + 1])),
              [Prefilled(0, Some(block[0]))])
    ensures Describes(c, short, block)
  {
    var shorttxids: seq<nat> := [];
    for i := 1 to |block|
      invariant |shorttxids| == i - 1 && forall k :: 0 <= k < i - 1 ==> shorttxids[k] == short(block[k + 1])
    {
      shorttxids := shorttxids + [short(block[i])];
    }
    c := Compact(false, shorttxids, [Prefilled(0, Some(block[0]))]);
    SentDescribes(c, short, block);
  }

  lemma SentDescribes(c: Compact, short: Tx -> nat, block: seq<Tx>)
    requires |block| > 0 && c.prefilledtxn == [Prefilled(0, Some(block[0]))] && |c.shorttxids| == |block| - 1
    requires forall k :: 0 <= k < |block| - 1 ==> c.shorttxids[k] == short(block[k + 1])
    ensures Describes(c, short, block)
  {
    assert PrefilledAt(c.prefilledtxn, 0) == 0;
    forall a: Slots, j: nat, p: nat |
      && |a| == |block| && AllHeld(c, a, |c.prefilledtxn|) && Empty(a, |a|) == |c.shorttxids|
      && IsFree(a, j, p) && j < |c.shorttxids|
      ensures c.shorttxids[j] == short(block[p])
    {
      assert Holds(c, a, 0);
      AllButFirst(a, |a|, p);
    }
  }

  /** With one slot taken, the first, every other slot is free. */
  lemma {:induction false} AllButFirst(a: Slots, n: nat, p: nat)
    requires 0 < n <= |a| && a[0].Some? && Empty(a, n) == n - 1 && 0 < p < n
    ensures a[p].None? && Empty(a, p) == p - 1
  {
    EmptyAtMost(a, n - 1);
    if p < n - 1 { AllButFirst(a, n - 1, p); }
  }

  lemma {:induction false} EmptyAtMost(a: Slots, n: nat)
    requires n <= |a|
    ensures Empty(a, n) <= n && (n > 0 && a[0].Some? ==> Empty(a, n) <= n - 1)
  {
    if n > 0 { EmptyAtMost(a, n - 1); }
  }

  /** The transactions that are missing, in order. */
  ghost function MissingOf(a: Slots, block: seq<Tx>, n: nat): seq<Tx>
    requires n <= |a| == |block|
  {
    if n == 0 then [] else MissingOf(a, block, n - 1) + if a[n - 1].None? then [block[n - 1]] else []
  }

  lemma {:induction false} MissingCount(a: Slots, block: seq<Tx>, n: nat)
    requires n <= |a| == |block|
    ensures |MissingOf(a, block, n)| == Empty(a, n)
  {
    if n > 0 { MissingCount(a, block, n - 1); }
  }

  /** The indexes of the empty slots. */
  function EmptyIndexes(a: Slots, n: nat): seq<int>
    requires n <= |a|
  {
    if n == 0 then [] else EmptyIndexes(a, n - 1) + if a[n - 1].None? then [n - 1] else []
  }

  /** Indexes cut down to sixteen bits. */
  function Short16(ix: seq<int>): seq<int> { seq(|ix|, i requires 0 <= i < |ix| => ix[i] % INDEX_RANGE) }

  lemma {:induction false} EmptyIndexesIncrease(a: Slots, n: nat)
    requires n <= |a|
    ensures Increasing(EmptyIndexes(a, n))
    ensures forall k :: 0 <= k < |EmptyIndexes(a, n)| ==> 0 <= EmptyIndexes(a, n)[k] < n
  {
    if n > 0 { EmptyIndexesIncrease(a, n - 1); }
  }

  /** The transactions at the requested indexes are the missing ones. */
  lemma {:induction false} AnswerIsMissing(a: Slots, block: seq<Tx>, n: nat, answer: seq<Tx>)
    requires n <= |a| == |block| && |answer| == |EmptyIndexes(a, n)|
    requires forall k :: 0 <= k < |answer| ==>
      0 <= EmptyIndexes(a, n)[k] < |block| && answer[k] == block[EmptyIndexes(a, n)[k]]
    ensures answer == MissingOf(a, block, n)
  {
    if n > 0 {
      var ix := EmptyIndexes(a, n - 1);
      assert forall k :: 0 <= k < |ix| ==> EmptyIndexes(a, n)[k] == ix[k];
      AnswerIsMissing(a, block, n - 1, answer[..|ix|]);
      if a[n - 1].None? {
        assert EmptyIndexes(a, n)[|ix|] == n - 1;
        assert answer == answer[..|ix|] + [block[n - 1]];
      } else {
        assert answer == answer[..|ix|];
      }
    }
  }

  /**
    A compact block that describes a block of at most 65536 transactions, none of which collides with what is
    there.
   */
  ghost predicate Receivable(c: Compact, short: Tx -> nat, block: seq<Tx>, pool: seq<Tx>, extra: seq<Tx>)
  {
    && |block| <= INDEX_RANGE && Describes(c, short, block)
    && NoCollision(short, block, pool) && NoCollision(short, block, extra)
  }

  // ----- What is found in the mempool -----

  datatype Found = Found(slots: Slots, have: seq<bool>, count: int)

  /** A transaction goes where its short id leads; a second one for the same place takes the first away again. */
  function FindOne(short: Tx -> nat, ids: map<nat, nat>, f: Found, tx: Tx): (g: Found)
    requires |f.slots| == |f.have| && forall key {:trigger ids[key]} :: key in ids ==> ids[key] < |f.slots|
    ensures |g.slots| == |g.have| == |f.slots|
  {
    if short(tx) !in ids then f
    else
      var p := ids[short(tx)];
      if !f.have[p] then Found(f.slots[p := Some(tx)], f.have[p := true], f.count + 1)
      else if f.slots[p].Some? then Found(f.slots[p := None], f.have, f.count - 1)
      else f
  }

  /** All transactions in turn, until as many are found as there are ids. */
  function FindAll(short: Tx -> nat, ids: map<nat, nat>, f: Found, pool: seq<Tx>): (g: Found)
    requires |f.slots| == |f.have| && forall key {:trigger ids[key]} :: key in ids ==> ids[key] < |f.slots|
    ensures |g.slots| == |g.have| == |f.slots|
    decreases |pool|
  {
    if pool == [] then f
    else
      var g := FindOne(short, ids, f, pool[0]);
      if g.count == |ids| then g else FindAll(short, ids, g, pool[1..])
  }

  /** The same for other transactions; here only a different one for the same place takes the first away again. */
  function FindOther(short: Tx -> nat, ids: map<nat, nat>, f: Found, tx: Tx): (g: Found)
    requires |f.slots| == |f.have| && forall key {:trigger ids[key]} :: key in ids ==> ids[key] < |f.slots|
    ensures |g.slots| == |g.have| == |f.slots|
  {
    if short(tx) !in ids then f
    else
      var p := ids[short(tx)];
      if !f.have[p] then Found(f.slots[p := Some(tx)], f.have[p := true], f.count + 1)
      else if f.slots[p].Some? && f.slots[p].value != tx then Found(f.slots[p := None], f.have, f.count - 1)
      else f
  }

  function FindOthers(short: Tx -> nat, ids: map<nat, nat>, f: Found, extra: seq<Tx>): (g: Found)
    requires |f.slots| == |f.have| && forall key {:trigger ids[key]} :: key in ids ==> ids[key] < |f.slots|
    ensures |g.slots| == |g.have| == |f.slots|
    decreases |extra|
  {
    if extra == [] then f
    else
      var g := FindOther(short, ids, f, extra[0]);
      if g.count == |ids| then g else FindOthers(short, ids, g, extra[1..])
  }

  // ----- What is found of a block -----

  ghost function Elements(s: seq<Tx>): set<Tx> { set k | 0 <= k < |s| :: s[k] }

  ghost predicate NoRepeats(s: seq<Tx>) { forall i, j :: 0 <= i < j < |s| ==> s[i] != s[j] }

  /** A slot holds its transaction if that has been seen. */
  ghost predicate SlotSeen(block: seq<Tx>, f: Found, p: nat, seen: set<Tx>)
  {
    && p < |block| == |f.slots| == |f.have| && (f.have[p] <==> block[p] in seen)
    && f.slots[p] == if block[p] in seen then Some(block[p]) else None
  }

  ghost function KeysSeen(ids: map<nat, nat>, block: seq<Tx>, seen: set<Tx>): set<nat>
  {
    set key | key in ids && ids[key] < |block| && block[ids[key]] in seen
  }

  /** The slots of the ids hold what has been seen; the others are as before. */
  ghost predicate Reached(ids: map<nat, nat>, block: seq<Tx>, a: Slots, f: Found, seen: set<Tx>)
  {
    && |f.slots| == |f.have| == |a| == |block| && f.count == |KeysSeen(ids, block, seen)|
    && (forall key {:trigger ids[key]} :: key in ids ==> SlotSeen(block, f, ids[key], seen))
    && (forall p {:trigger f.slots[p]} :: 0 <= p < |a| && p !in ids.Values ==> f.slots[p] == a[p])
  }

  /** A transaction without an id is at none of the places, and one with an id at its place only. */
  lemma KeysSeenMore(short: Tx -> nat, ids: map<nat, nat>, block: seq<Tx>, seen: set<Tx>, tx: Tx)
    requires Leads(short, block, ids) && NoCollision(short, block, [tx])
    ensures KeysSeen(ids, block, seen + {tx}) ==
      KeysSeen(ids, block, seen) + if short(tx) in ids then {short(tx)} else {}
    ensures short(tx) in ids ==> block[ids[short(tx)]] == tx
  {
    if short(tx) in ids {
      var p := ids[short(tx)];
      assert [tx][0] == tx;
      assert short(block[p]) == short(tx);
    }
  }

  lemma ReachedOne(short: Tx -> nat, ids: map<nat, nat>, block: seq<Tx>, a: Slots, f: Found, seen: set<Tx>, tx: Tx)
    requires Leads(short, block, ids) && NoCollision(short, block, [tx]) && Reached(ids, block, a, f, seen)
    ensures tx !in seen ==> Reached(ids, block, a, FindOne(short, ids, f, tx), seen + {tx})
    ensures Reached(ids, block, a, FindOther(short, ids, f, tx), seen + {tx})
  {
    KeysSeenMore(short, ids, block, seen, tx);
    assert tx in seen ==> seen + {tx} == seen;
    if short(tx) in ids {
      var p := ids[short(tx)];
      assert SlotSeen(block, f, p, seen);
      if tx !in seen {
        PlacedReached(short, ids, block, a, f, seen, tx);
      }
    } else {
      forall key | key in ids ensures SlotSeen(block, f, ids[key], seen + {tx}) {
        assert SlotSeen(block, f, ids[key], seen);
      }
    }
  }

  lemma PlacedReached(short: Tx -> nat, ids: map<nat, nat>, block: seq<Tx>, a: Slots, f: Found, seen: set<Tx>, tx: Tx)
    requires Leads(short, block, ids) && Reached(ids, block, a, f, seen) && short(tx) in ids
    requires tx !in seen && block[ids[short(tx)]] == tx
    requires KeysSeen(ids, block, seen + {tx}) == KeysSeen(ids, block, seen) + {short(tx)}
    ensures var p := ids[short(tx)];
      Reached(ids, block, a, Found(f.slots[p := Some(tx)], f.have[p := true], f.count + 1), seen + {tx})
  {
    var p := ids[short(tx)];
    var g := Found(f.slots[p := Some(tx)], f.have[p := true], f.count + 1);
    forall key | key in ids ensures SlotSeen(block, g, ids[key], seen + {tx}) {
      assert SlotSeen(block, f, ids[key], seen);
      assert short(block[ids[key]]) == key;
    }
  }

  /** When all ids are found, seeing more changes nothing. */
  lemma ReachedAll(ids: map<nat, nat>, block: seq<Tx>, a: Slots, f: Found, seen: set<Tx>, more: set<Tx>)
    requires Reached(ids, block, a, f, seen) && f.count == |ids|
    ensures Reached(ids, block, a, f, seen + more)
  {
    var keys := KeysSeen(ids, block, seen);
    assert keys <= ids.Keys && |keys| == |ids.Keys|;
    SetSums.SameSize(keys, ids.Keys);
    forall key | key in ids ensures SlotSeen(block, f, ids[key], seen + more) {
      assert key in keys && SlotSeen(block, f, ids[key], seen);
    }
    assert KeysSeen(ids, block, seen + more) == keys;
  }

  lemma {:induction false} ReachedPool(short: Tx -> nat, ids: map<nat, nat>, block: seq<Tx>, a: Slots, f: Found,
                                       seen: set<Tx>, pool: seq<Tx>)
    requires Leads(short, block, ids) && NoCollision(short, block, pool) && Reached(ids, block, a, f, seen)
    requires NoRepeats(pool) && Elements(pool) !! seen
    ensures Reached(ids, block, a, FindAll(short, ids, f, pool), seen + Elements(pool))
    decreases |pool|
  {
    if pool == [] {
      assert seen + Elements(pool) == seen;
    } else {
      var tx, rest := pool[0], pool[1..];
      var g := FindOne(short, ids, f, tx);
      SplitElements(pool);
      ReachedOne(short, ids, block, a, f, seen, tx);
      assert seen + Elements(pool) == seen + {tx} + Elements(rest);
      if g.count == |ids| {
        ReachedAll(ids, block, a, g, seen + {tx}, Elements(rest));
      } else {
        ReachedPool(short, ids, block, a, g, seen + {tx}, rest);
      }
    }
  }

  lemma SplitElements(s: seq<Tx>)
    requires s != []
    ensures Elements(s) == {s[0]} + Elements(s[1..])
    ensures NoRepeats(s) ==> s[0] !in Elements(s[1..]) && NoRepeats(s[1..])
  {
    var t := s[1..];
    forall x | x in Elements(s) ensures x == s[0] || x in Elements(t) {
      var k :| 0 <= k < |s| && s[k] == x;
      assert k > 0 ==> t[k - 1] == x;
    }
    forall x | x in Elements(t) ensures x in Elements(s) {
      var k :| 0 <= k < |t| && t[k] == x;
      assert s[k + 1] == x;
    }
  }

  lemma {:induction false} ReachedExtra(short: Tx -> nat, ids: map<nat, nat>, block: seq<Tx>, a: Slots, f: Found,
                                        seen: set<Tx>, extra: seq<Tx>)
    requires Leads(short, block, ids) && NoCollision(short, block, extra) && Reached(ids, block, a, f, seen)
    ensures Reached(ids, block, a, FindOthers(short, ids, f, extra), seen + Elements(extra))
    decreases |extra|
  {
    if extra == [] {
      assert seen + Elements(extra) == seen;
    } else {
      var tx, rest := extra[0], extra[1..];
      var g := FindOther(short, ids, f, tx);
      SplitElements(extra);
      ReachedOne(short, ids, block, a, f, seen, tx);
      assert seen + Elements(extra) == seen + {tx} + Elements(rest);
      if g.count == |ids| {
        ReachedAll(ids, block, a, g, seen + {tx}, Elements(rest));
      } else {
        ReachedExtra(short, ids, block, a, g, seen + {tx}, rest);
      }
    }
  }

  ghost predicate IsRight(c: Compact, block: seq<Tx>, pool: seq<Tx>, extra: seq<Tx>, a: Slots, p: nat)
  {
    p < |a| == |block| &&
    a[p] == if IsPrefilledSlot(c, |c.prefilledtxn|, p) || block[p] in pool || block[p] in extra then Some(block[p])
            else None
  }

  /** Exactly the prefilled transactions and those the receiver has are in place. */
  ghost predicate IsLookedUp(c: Compact, block: seq<Tx>, pool: seq<Tx>, extra: seq<Tx>, a: Slots)
  {
    |a| == |block| &&
    forall p: nat {:trigger IsRight(c, block, pool, extra, a, p)} :: p < |a| ==> IsRight(c, block, pool, extra, a, p)
  }

  /** Short ids lead to empty slots. */
  lemma LocatedEmpty(c: Compact, a: Slots, ids: map<nat, nat>, key: nat)
    requires AllLocated(c, a, |c.shorttxids|, ids) && |a| <= INDEX_RANGE && key in ids
    ensures ids[key] < |a| && a[ids[key]].None?
  {
    assert Located(c, a, |c.shorttxids|, key, ids[key]);
  }

  /** Different short ids lead to every empty slot. */
  lemma EmptyLocated(c: Compact, a: Slots, ids: map<nat, nat>, p: nat)
    requires AllLocated(c, a, |c.shorttxids|, ids) && |a| <= INDEX_RANGE && Distinct(c.shorttxids)
    requires ids.Keys == (set j | 0 <= j < |c.shorttxids| :: c.shorttxids[j]) && Empty(a, |a|) == |c.shorttxids|
    requires p < |a| && a[p].None?
    ensures p in ids.Values
  {
    var j := Empty(a, p);
    EmptyGrows(a, p, |a|);
    var key := c.shorttxids[j];
    assert Located(c, a, |c.shorttxids|, key, ids[key]);
    var k: nat, q: nat :|
      k < |c.shorttxids| && c.shorttxids[k] == key && IsFree(a, k, q) && ids[key] == q % INDEX_RANGE;
    assert k == j;
    FreeOnce(a, j, p, q);
  }

  lemma NothingSeen(c: Compact, block: seq<Tx>, a: Slots, ids: map<nat, nat>)
    requires AllLocated(c, a, |c.shorttxids|, ids) && |a| == |block| <= INDEX_RANGE
    ensures Reached(ids, block, a, Found(a, seq(|a|, _ => false), 0), {})
  {
    forall key | key in ids ensures SlotSeen(block, Found(a, seq(|a|, _ => false), 0), ids[key], {}) {
      LocatedEmpty(c, a, ids, key);
    }
    assert KeysSeen(ids, block, {}) == {};
  }

  /** What the two searches come to. */
  lemma LookedUp(c: Compact, short: Tx -> nat, block: seq<Tx>, a: Slots, ids: map<nat, nat>, pool: seq<Tx>,
                 extra: seq<Tx>, f: Found)
    requires Receivable(c, short, block, pool, extra) && IsPrefilled(c, a) && Distinct(c.shorttxids)
    requires IsMapped(c, a, ids)
    requires Reached(ids, block, a, f, {} + Elements(pool) + Elements(extra))
    ensures IsLookedUp(c, block, pool, extra, f.slots)
  {
    PrefilledAgrees(c, block, a);
    forall p: nat | p < |a| ensures IsRight(c, block, pool, extra, f.slots, p) {
      if a[p].None? {
        EmptyIsRight(c, block, a, ids, pool, extra, f, p);
      } else {
        assert IsPrefilledSlot(c, |c.prefilledtxn|, p);
        if p in ids.Values {
          var key :| key in ids && ids[key] == p;
          LocatedEmpty(c, a, ids, key);
        }
      }
    }
  }

  lemma EmptyIsRight(c: Compact, block: seq<Tx>, a: Slots, ids: map<nat, nat>, pool: seq<Tx>, extra: seq<Tx>, f: Found,
                     p: nat)
    requires IsPrefilled(c, a) && Distinct(c.shorttxids) && IsMapped(c, a, ids) && |a| == |block| <= INDEX_RANGE
    requires Reached(ids, block, a, f, {} + Elements(pool) + Elements(extra)) && p < |a| && a[p].None?
    ensures IsRight(c, block, pool, extra, f.slots, p)
  {
    EmptyLocated(c, a, ids, p);
    EmptyNotPrefilled(c, a, p);
    var key :| key in ids && ids[key] == p;
    assert SlotSeen(block, f, p, {} + Elements(pool) + Elements(extra));
  }

  /** Every short id has its place, among the empty slots. */
  ghost predicate IsMapped(c: Compact, a: Slots, ids: map<nat, nat>)
  {
    && AllLocated(c, a, |c.shorttxids|, ids) && (forall key {:trigger ids[key]} :: key in ids ==> ids[key] < |a|)
    && ids.Keys == (set j | 0 <= j < |c.shorttxids| :: c.shorttxids[j])
  }

  /** The search in the mempool and then among the other transactions. */
  ghost function Searched(short: Tx -> nat, a: Slots, ids: map<nat, nat>, count: int, pool: seq<Tx>,
                          extra: seq<Tx>): Found
    requires forall key {:trigger ids[key]} :: key in ids ==> ids[key] < |a|
  {
    FindOthers(short, ids, FindAll(short, ids, Found(a, seq(|a|, _ => false), count), pool), extra)
  }

  lemma {:induction false} FoundAgrees(short: Tx -> nat, ids: map<nat, nat>, block: seq<Tx>, f: Found, pool: seq<Tx>)
    requires Leads(short, block, ids) && NoCollision(short, block, pool) && Agrees(f.slots, block)
    requires |f.slots| == |f.have|
    ensures Agrees(FindAll(short, ids, f, pool).slots, block) && Agrees(FindOthers(short, ids, f, pool).slots, block)
    decreases |pool|
  {
    if pool != [] {
      assert NoCollision(short, block, pool[1..]);
      FoundAgrees(short, ids, block, FindOne(short, ids, f, pool[0]), pool[1..]);
      FoundAgrees(short, ids, block, FindOther(short, ids, f, pool[0]), pool[1..]);
    }
  }

  lemma FoundOfBlock(c: Compact, short: Tx -> nat, block: seq<Tx>, a: Slots, ids: map<nat, nat>, pool: seq<Tx>,
                     extra: seq<Tx>)
    requires Receivable(c, short, block, pool, extra) && IsPrefilled(c, a) && Distinct(c.shorttxids) && NoRepeats(pool)
    requires IsMapped(c, a, ids) && Leads(short, block, ids)
    ensures IsLookedUp(c, block, pool, extra, Searched(short, a, ids, 0, pool, extra).slots)
  {
    var f := Found(a, seq(|a|, _ => false), 0);
    NothingSeen(c, block, a, ids);
    ReachedPool(short, ids, block, a, f, {}, pool);
    var g := FindAll(short, ids, f, pool);
    ReachedExtra(short, ids, block, a, g, {} + Elements(pool), extra);
    LookedUp(c, short, block, a, ids, pool, extra, FindOthers(short, ids, g, extra));
  }

  /** What the searches come to for a block that the message describes. */
  lemma SearchedOfBlock(c: Compact, short: Tx -> nat, block: seq<Tx>, a: Slots, ids: map<nat, nat>, count: int,
                        pool: seq<Tx>, extra: seq<Tx>)
    requires Receivable(c, short, block, pool, extra) && IsPrefilled(c, a) && Distinct(c.shorttxids)
    requires IsMapped(c, a, ids)
    ensures Agrees(Searched(short, a, ids, count, pool, extra).slots, block)
    ensures NoRepeats(pool) && count == 0 ==>
      IsLookedUp(c, block, pool, extra, Searched(short, a, ids, count, pool, extra).slots)
  {
    LocatedLeads(c, short, block, a, ids);
    PrefilledAgrees(c, block, a);
    var f := Found(a, seq(|a|, _ => false), count);
    FoundAgrees(short, ids, block, f, pool);
    FoundAgrees(short, ids, block, FindAll(short, ids, f, pool), extra);
    if NoRepeats(pool) && count == 0 { FoundOfBlock(c, short, block, a, ids, pool, extra); }
  }

  lemma EmptyNotPrefilled(c: Compact, a: Slots, p: nat)
    requires IsPrefilled(c, a) && p < |a| && a[p].None?
    ensures !IsPrefilledSlot(c, |c.prefilledtxn|, p)
  {
    forall i: nat | i < |c.prefilledtxn| ensures PrefilledAt(c.prefilledtxn, i) != p {
      assert Holds(c, a, i) && PrefilledOk(c, i);
    }
  }

  /**
    A block of 65537 transactions: the last short id is recorded at position 0, and its transaction, when found in
    the mempool, overwrites the coinbase.
   */
  lemma LastPositionWraps(c: Compact, a: Slots, ids: map<nat, nat>, short: Tx -> nat, tx: Tx)
    requires |c.shorttxids| == 65536 && Distinct(c.shorttxids) && |c.prefilledtxn| == 1 && IsPrefilled(c, a)
    requires c.prefilledtxn[0].index == 0 && short(tx) == c.shorttxids[65535]
    requires ids.Keys == (set j | 0 <= j < |c.shorttxids| :: c.shorttxids[j]) && AllLocated(c, a, |c.shorttxids|, ids)
    ensures ids[c.shorttxids[65535]] == 0 && a[0] == c.prefilledtxn[0].tx
    ensures (forall key {:trigger ids[key]} :: key in ids ==> ids[key] < |a|)
    ensures FindAll(short, ids, Found(a, seq(|a|, _ => false), 0), [tx]).slots == a[0 := Some(tx)]
  {
    assert PrefilledAt(c.prefilledtxn, 0) == 0 && PrefilledOk(c, 0);
    assert Holds(c, a, 0);
    AllButFirst(a, |a|, 65536);
    forall key | key in ids ensures ids[key] < |a| { LocatedInside(c, a, key, ids[key]); }
    var key := c.shorttxids[65535];
    assert key in ids && Located(c, a, |c.shorttxids|, key, ids[key]);
    var j: nat, q: nat :|
      j < |c.shorttxids| && c.shorttxids[j] == key && IsFree(a, j, q) && ids[key] == q % INDEX_RANGE;
    assert j == 65535;
    FreeOnce(a, j, q, 65536);
  }

  lemma FreeOnce(a: Slots, j: nat, p: nat, q: nat)
    requires IsFree(a, j, p) && IsFree(a, j, q)
    ensures p == q
  {
    if p < q { EmptyGrows(a, p, q); } else { EmptyGrows(a, q, p); }
  }

  /** A slot keeps its transaction, or gets the next one of those given. */
  ghost predicate FillsAt(a: Slots, missing: seq<Tx>, vtx: seq<Tx>, j: nat)
    requires j < |a| && j < |vtx|
  {
    match a[j]
    case Some(tx) => vtx[j] == tx
    case None => Empty(a, j) < |missing| && vtx[j] == missing[Empty(a, j)]
  }

  ghost predicate IsFilled(a: Slots, missing: seq<Tx>, vtx: seq<Tx>, n: nat)
  {
    n == |vtx| <= |a| && forall j: nat {:trigger FillsAt(a, missing, vtx, j)} :: j < n ==> FillsAt(a, missing, vtx, j)
  }

  lemma FilledNext(a: Slots, missing: seq<Tx>, vtx: seq<Tx>, tx: Tx)
    requires |vtx| < |a| && IsFilled(a, missing, vtx, |vtx|) && FillsAt(a, missing, vtx + [tx], |vtx|)
    ensures IsFilled(a, missing, vtx + [tx], |vtx| + 1)
  {
    forall j: nat | j < |vtx| ensures FillsAt(a, missing, vtx + [tx], j) { assert FillsAt(a, missing, vtx, j); }
  }

  lemma MissingAt(a: Slots, block: seq<Tx>, j: nat)
    requires j < |a| == |block| && a[j].None?
    ensures Empty(a, j) < |MissingOf(a, block, |block|)| && MissingOf(a, block, |block|)[Empty(a, j)] == block[j]
  {
    MissingCount(a, block, j);
    assert MissingOf(a, block, j + 1)[Empty(a, j)] == block[j];
    MissingPrefix(a, block, j + 1);
  }

  /** The missing transactions of a block, given in order, complete it. */
  lemma FilledIsBlock(a: Slots, block: seq<Tx>, vtx: seq<Tx>)
    requires Agrees(a, block) && IsFilled(a, MissingOf(a, block, |block|), vtx, |a|)
    ensures vtx == block
  {
    forall j: nat | j < |a| ensures vtx[j] == block[j] {
      assert FillsAt(a, MissingOf(a, block, |block|), vtx, j);
      if a[j].None? { MissingAt(a, block, j); }
    }
  }

  class PartiallyDownloadedBlock {
    const short: Tx -> nat                 // GetShortID for the header and nonce of the block
    var headerIsNull: bool
    var txnAvailable: Slots
    var prefilledCount: nat
    var mempoolCount: int
    var extraCount: int

    constructor (short: Tx -> nat)
      ensures headerIsNull && txnAvailable == [] && this.short == short && mempoolCount == 0
    {
      this.short := short;
      headerIsNull, txnAvailable := true, [];
      prefilledCount, mempoolCount, extraCount := 0, 0, 0;
    }

    /** Look for the ids among the transactions of the mempool. */
    method MatchPool(ids: map<nat, nat>, pool: seq<Tx>) returns (haveTxn: seq<bool>)
      requires forall key {:trigger ids[key]} :: key in ids ==> ids[key] < |txnAvailable|
      modifies this`txnAvailable, this`mempoolCount
      ensures |txnAvailable| == |old(txnAvailable)| == |haveTxn|
      ensures Found(txnAvailable, haveTxn, mempoolCount) ==
        FindAll(short, ids, Found(old(txnAvailable), seq(|old(txnAvailable)|, _ => false), old(mempoolCount)), pool)
    {
      haveTxn := seq(|txnAvailable|, _ => false);
      ghost var all := FindAll(short, ids, Found(txnAvailable, haveTxn, mempoolCount), pool);
      for i := 0 to |pool|
        invariant |txnAvailable| == |old(txnAvailable)| == |haveTxn|
        invariant FindAll(short, ids, Found(txnAvailable, haveTxn, mempoolCount), pool[i..]) == all
      {
        assert pool[i..][1..] == pool[i + 1..];
        var shortid := short(pool[i]);
        if shortid in ids {
          var p := ids[shortid];
          if !haveTxn[p] {
            txnAvailable := txnAvailable[p := Some(pool[i])];
            haveTxn := haveTxn[p := true];
            mempoolCount := mempoolCount + 1;
          } else if txnAvailable[p].Some? {
            txnAvailable := txnAvailable[p := None];
            mempoolCount := mempoolCount - 1;
          }
        }
        if mempoolCount == |ids| { break; }
      }
    }

    /** Look for the ids among other transactions that were seen recently. */
    method MatchExtra(ids: map<nat, nat>, extra: seq<Tx>, haveIn: seq<bool>)
      requires forall key {:trigger ids[key]} :: key in ids ==> ids[key] < |txnAvailable|
      requires |haveIn| == |txnAvailable|
      modifies this`txnAvailable, this`mempoolCount, this`extraCount
      ensures |txnAvailable| == |old(txnAvailable)|
      ensures var f := FindOthers(short, ids, Found(old(txnAvailable), haveIn, old(mempoolCount)), extra);
        && txnAvailable == f.slots && mempoolCount == f.count
        && extraCount - old(extraCount) == f.count - old(mempoolCount)
    {
      var haveTxn := haveIn;
      ghost var all := FindOthers(short, ids, Found(txnAvailable, haveTxn, mempoolCount), extra);
      for i := 0 to |extra|
        invariant |txnAvailable| == |old(txnAvailable)| == |haveTxn|
        invariant FindOthers(short, ids, Found(txnAvailable, haveTxn, mempoolCount), extra[i..]) == all
        invariant extraCount - old(extraCount) == mempoolCount - old(mempoolCount)
      {
        assert extra[i..][1..] == extra[i + 1..];
        var shortid := short(extra[i]);
        if shortid in ids {
          var p := ids[shortid];
          if !haveTxn[p] {
            txnAvailable := txnAvailable[p := Some(extra[i])];
            haveTxn := haveTxn[p := true];
            mempoolCount := mempoolCount + 1;
            extraCount := extraCount + 1;
          } else if txnAvailable[p].Some? && txnAvailable[p].value != extra[i] {
            txnAvailable := txnAvailable[p := None];
            mempoolCount := mempoolCount - 1;
            extraCount := extraCount - 1;
          }
        }
        if mempoolCount == |ids| { break; }
      }
    }

    /**
      Start from a compact block and what the receiver has. With all 65536 positions prefilled and a short id left
      the sixteen-bit offset runs in circles and the call does not return. When it succeeds the slots are the
      prefilled ones `a` after the two searches with the positions `ids`. If moreover the compact block describes a
      block, and nothing collides with that block, every slot is empty or holds the right transaction; on a fresh
      object it holds it exactly if the receiver has it.
     */
    method InitData(c: Compact, pool: seq<Tx>, extra: seq<Tx>, bucketTooLarge: bool, ghost block: seq<Tx>)
      returns (status: ReadStatus, ghost a: Slots, ghost ids: map<nat, nat>)
      requires headerIsNull && txnAvailable == []
      modifies this
      ensures status == ReadInvalid <==> IsInvalid(c)
      ensures status == NeverReturns <==> !IsInvalid(c) && IsEndless(c)
      ensures status == ReadFailed <==> !IsInvalid(c) && !IsEndless(c) && (bucketTooLarge || !Distinct(c.shorttxids))
      ensures status == ReadOk <==> !IsInvalid(c) && !IsEndless(c) && !bucketTooLarge && Distinct(c.shorttxids)
      ensures status == ReadOk ==> !headerIsNull && |txnAvailable| == BlockTxCount(c)
      ensures status == ReadOk ==>
        && IsPrefilled(c, a) && IsMapped(c, a, ids)
        && txnAvailable == Searched(short, a, ids, old(mempoolCount), pool, extra).slots
      ensures status == ReadOk && Receivable(c, short, block, pool, extra) ==> Agrees(txnAvailable, block)
      ensures status == ReadOk && old(mempoolCount) == 0 && NoRepeats(pool) ==>
        Receivable(c, short, block, pool, extra) ==> IsLookedUp(c, block, pool, extra, txnAvailable)
    {
      a, ids := [], map[];
      if c.headerIsNull || (c.shorttxids == [] && c.prefilledtxn == []) {
        return ReadInvalid, a, ids;
      }
      if |c.shorttxids| + |c.prefilledtxn| > MAX_TRANSACTIONS {
        return ReadInvalid, a, ids;
      }
      headerIsNull := false;
      var ok, slots := Prefill(c);
      if !ok {
        return ReadInvalid, a, ids;
      }
      txnAvailable := slots;
      prefilledCount := |c.prefilledtxn|;
      var ends, positions := MapShortIds(c, slots);
      if !ends {
        return NeverReturns, a, ids;
      }
      DistinctCount(c.shorttxids);
      if bucketTooLarge || |positions| != |c.shorttxids| {
        return ReadFailed, a, ids;
      }
      a, ids := slots, positions;
      LookForBlock(c, positions, pool, extra, block);
      status := ReadOk;
    }

    /** The search, and what it finds of a described block. */
    method LookForBlock(c: Compact, ids: map<nat, nat>, pool: seq<Tx>, extra: seq<Tx>, ghost block: seq<Tx>)
      requires IsMapped(c, txnAvailable, ids) && IsPrefilled(c, txnAvailable) && Distinct(c.shorttxids)
      modifies this`txnAvailable, this`mempoolCount, this`extraCount
      ensures |txnAvailable| == |old(txnAvailable)|
      ensures txnAvailable == Searched(short, old(txnAvailable), ids, old(mempoolCount), pool, extra).slots
      ensures Receivable(c, short, block, pool, extra) ==> Agrees(txnAvailable, block)
      ensures old(mempoolCount) == 0 && NoRepeats(pool) ==>
        Receivable(c, short, block, pool, extra) ==> IsLookedUp(c, block, pool, extra, txnAvailable)
    {
      LookFor(c, ids, pool, extra);
      if Receivable(c, short, block, pool, extra) {
        SearchedOfBlock(c, short, block, old(txnAvailable), ids, old(mempoolCount), pool, extra);
      }
    }

    /** Look for the transactions of the short ids in the mempool and among the others. */
    method LookFor(c: Compact, ids: map<nat, nat>, pool: seq<Tx>, extra: seq<Tx>)
      requires IsMapped(c, txnAvailable, ids)
      modifies this`txnAvailable, this`mempoolCount, this`extraCount
      ensures |txnAvailable| == |old(txnAvailable)|
      ensures var f := Searched(short, old(txnAvailable), ids, old(mempoolCount), pool, extra);
        txnAvailable == f.slots && mempoolCount == f.count
    {
      forall key | key in ids ensures ids[key] < |txnAvailable| { LocatedInside(c, txnAvailable, key, ids[key]); }
      var haveTxn := MatchPool(ids, pool);
      MatchExtra(ids, extra, haveTxn);
    }

    predicate IsTxAvailable(index: nat)
      reads this
      requires !headerIsNull && index < |txnAvailable|
    {
      txnAvailable[index].Some?
    }

    /** What to ask the sender for, in sixteen bits. Up to 65536 transactions these are the empty slots. */
    method MissingIndexes() returns (indexes: seq<int>)
      requires !headerIsNull
      ensures indexes == Short16(EmptyIndexes(txnAvailable, |txnAvailable|)) && InRange(indexes)
      ensures |txnAvailable| <= INDEX_RANGE ==>
        indexes == EmptyIndexes(txnAvailable, |txnAvailable|) && Increasing(indexes)
    {
      indexes := [];
      for i := 0 to |txnAvailable|
        invariant indexes == Short16(EmptyIndexes(txnAvailable, i))
      {
        if !IsTxAvailable(i) { indexes := indexes + [i % INDEX_RANGE]; }
      }
      EmptyIndexesIncrease(txnAvailable, |txnAvailable|);
    }

    /** Fill the gaps with the transactions sent on request; CheckBlock is a parameter. */
    method FillBlock(vtxMissing: seq<Tx>, checkBlock: seq<Tx> -> ReadStatus, ghost block: seq<Tx>)
      returns (status: ReadStatus, vtx: seq<Tx>)
      requires !headerIsNull
      requires forall v ::
        checkBlock(v) == ReadOk || checkBlock(v) == ReadFailed || checkBlock(v) == ReadCheckBlockFailed
      modifies this
      ensures status == ReadInvalid <==> |vtxMissing| != Empty(old(txnAvailable), |old(txnAvailable)|)
      ensures status != ReadInvalid ==> status == checkBlock(vtx) && headerIsNull && txnAvailable == []
      ensures status != ReadInvalid ==> IsFilled(old(txnAvailable), vtxMissing, vtx, |old(txnAvailable)|)
      ensures Agrees(old(txnAvailable), block) && vtxMissing == MissingOf(old(txnAvailable), block, |block|) ==>
        status != ReadInvalid && vtx == block
    {
      ghost var a := txnAvailable;
      vtx := [];
      var offset := 0;
      if Agrees(a, block) { MissingCount(a, block, |a|); }
      for i := 0 to |txnAvailable|
        invariant txnAvailable == a && offset == Empty(a, i) <= |vtxMissing| && IsFilled(a, vtxMissing, vtx, i)
      {
        EmptyGrows(a, i, |a|);
        if txnAvailable[i].None? {
          if |vtxMissing| <= offset {
            return ReadInvalid, vtx;
          }
          FilledNext(a, vtxMissing, vtx, vtxMissing[offset]);
          vtx := vtx + [vtxMissing[offset]];
          offset := offset + 1;
        } else {
          FilledNext(a, vtxMissing, vtx, txnAvailable[i].value);
          vtx := vtx + [txnAvailable[i].value];
        }
      }
      headerIsNull, txnAvailable := true, [];
      if |vtxMissing| != offset {
        return ReadInvalid, vtx;
      }
      status := checkBlock(vtx);
      if Agrees(a, block) && vtxMissing == MissingOf(a, block, |block|) { FilledIsBlock(a, block, vtx); }
    }
  }

  lemma {:induction false} MissingPrefix(a: Slots, block: seq<Tx>, n: nat)
    requires n <= |a| == |block|
    ensures MissingOf(a, block, n) <= MissingOf(a, block, |a|)
    decreases |a| - n
  {
    if n < |a| { MissingPrefix(a, block, n + 1); }
  }

  lemma PrefilledAgrees(c: Compact, block: seq<Tx>, a: Slots)
    requires |a| == |block| == BlockTxCount(c) && AllHeld(c, a, |c.prefilledtxn|)
    requires OnlyPrefilled(c, a, |c.prefilledtxn|)
    requires forall i: nat :: i < |c.prefilledtxn| ==>
      && PrefilledAt(c.prefilledtxn, i) < |block|
      && c.prefilledtxn[i].tx == Some(block[PrefilledAt(c.prefilledtxn, i)])
    ensures Agrees(a, block)
  {
    forall p: nat | p < |a| && a[p].Some? ensures a[p] == Some(block[p]) {
      assert IsPrefilledSlot(c, |c.prefilledtxn|, p);
      var i: nat :| i < |c.prefilledtxn| && PrefilledAt(c.prefilledtxn, i) == p;
      assert Holds(c, a, i);
    }
  }

  /** The sender answers a request. */
  method AnswerRequest(block: seq<Tx>, indexes: seq<int>) returns (txn: seq<Tx>)
    requires forall k :: 0 <= k < |indexes| ==> 0 <= indexes[k] < |block|
    ensures |txn| == |indexes| && forall k :: 0 <= k < |txn| ==> txn[k] == block[indexes[k]]
  {
    txn := [];
    for i := 0 to |indexes|
      invariant |txn| == i && forall k :: 0 <= k < i ==> txn[k] == block[indexes[k]]
    {
      txn := txn + [block[indexes[i]]];
    }
  }

  /** No two transactions but the coinbase have the same short id. */
  predicate AllShortDiffer(short: Tx -> nat, block: seq<Tx>)
  {
    forall i, j :: 0 < i < j < |block| ==> short(block[i]) != short(block[j])
  }

  lemma ShortDiffer(short: Tx -> nat, block: seq<Tx>, ids: seq<nat>)
    requires |block| == |ids| + 1 && forall k :: 0 <= k < |ids| ==> ids[k] == short(block[k + 1])
    ensures Distinct(ids) <==> AllShortDiffer(short, block)
  {
    if Distinct(ids) {
      forall i, j | 0 < i < j < |block| ensures short(block[i]) != short(block[j]) {
        assert ids[i - 1] == short(block[i]) && ids[j - 1] == short(block[j]);
      }
    }
  }

  lemma {:induction false} InEmptyIndexes(a: Slots, n: nat, p: int)
    requires n <= |a|
    ensures p in EmptyIndexes(a, n) <==> 0 <= p < n && a[p].None?
  {
    if n > 0 { InEmptyIndexes(a, n - 1, p); }
  }

  /** Of a block with its coinbase prefilled, what the receiver does not have is requested. */
  lemma RequestedOnly(c: Compact, block: seq<Tx>, pool: seq<Tx>, extra: seq<Tx>, a: Slots)
    requires IsLookedUp(c, block, pool, extra, a) && |c.prefilledtxn| == 1 && c.prefilledtxn[0].index == 0
    ensures forall p: int ::
      p in EmptyIndexes(a, |a|) <==> 0 < p < |block| && block[p] !in pool && block[p] !in extra
  {
    assert PrefilledAt(c.prefilledtxn, 0) == 0;
    forall p: int
      ensures p in EmptyIndexes(a, |a|) <==> 0 < p < |block| && block[p] !in pool && block[p] !in extra
    {
      InEmptyIndexes(a, |a|, p);
      if 0 <= p < |a| { assert IsRight(c, block, pool, extra, a, p) && (IsPrefilledSlot(c, 1, p) <==> p == 0); }
    }
  }

  /**
    The whole exchange: the compact block, the request with its differential coding, the answer, the block.
    The receiver gives up exactly if a bucket is too large or two transactions of the block have one short id;
    otherwise it ends with the sender's exact list of transactions, and with what CheckBlock says of it.
   */
  method Relay(block: seq<Tx>, short: Tx -> nat, pool: seq<Tx>, extra: seq<Tx>, bucketTooLarge: bool,
               checkBlock: seq<Tx> -> ReadStatus)
    returns (status: ReadStatus, indexes: seq<int>, vtx: seq<Tx>)
    requires 0 < |block| <= INDEX_RANGE && NoCollision(short, block, pool) && NoCollision(short, block, extra)
    requires forall v :: checkBlock(v) == ReadOk || checkBlock(v) == ReadFailed || checkBlock(v) == ReadCheckBlockFailed
    ensures if bucketTooLarge || !AllShortDiffer(short, block) then status == ReadFailed && vtx == []
            else vtx == block && status == checkBlock(block)
    ensures NoRepeats(pool) && !bucketTooLarge && AllShortDiffer(short, block) ==>
      && Increasing(indexes)
      && forall p: int :: p in indexes <==> 0 < p < |block| && block[p] !in pool && block[p] !in extra
  {
    var c := CreateCompact(block, short);
    var partial := new PartiallyDownloadedBlock(short);
    assert forall i: nat :: i < |c.prefilledtxn| ==> PrefilledOk(c, i);
    ShortDiffer(short, block, c.shorttxids);
    ghost var a, ids;
    status, a, ids := partial.InitData(c, pool, extra, bucketTooLarge, block);
    indexes, vtx := [], [];
    if status != ReadOk { return; }
    a := partial.txnAvailable;
    indexes := partial.MissingIndexes();
    EmptyIndexesIncrease(a, |a|);
    if NoRepeats(pool) { RequestedOnly(c, block, pool, extra, a); }
    var diffs := EncodeIndexes(indexes);
    var decoded := DecodeIndexes(diffs);
    IndexRoundTrip(indexes, 0);
    var txn := AnswerRequest(block, decoded.value);
    AnswerIsMissing(a, block, |a|, txn);
    status, vtx := partial.FillBlock(txn, checkBlock, block);
  }
}
