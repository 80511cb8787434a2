/**
  The cuckoo cache: eight locations per element, garbage collection flags packed eight to a byte,
  and two live epochs. The hash functions are parameters; element 0 stands for the value that
  empty slots hold.
 */
module CuckooCache {
  import opened Numbers

  type Element = nat

  const DEFAULT: Element := 0

  // ----- Packed flags -----

  function Flag(k: nat): bv8
    requires k < 8
  {
    match k
    case 0 => 1
    case 1 => 2
    case 2 => 4
    case 3 => 8
    case 4 => 16
    case 5 => 32
    case 6 => 64
    case _ => 128
  }

  lemma FlagIsShift(k: nat)
    requires k < 8
    ensures Flag(k) == 1 << k
  {
    assert 1 as bv8 << 0 == 1 && 1 as bv8 << 1 == 2 && 1 as bv8 << 2 == 4 && 1 as bv8 << 3 == 8;
    assert 1 as bv8 << 4 == 16 && 1 as bv8 << 5 == 32 && 1 as bv8 << 6 == 64 && 1 as bv8 << 7 == 128;
  }

  lemma FlagSet(m: bv8, j: nat, k: nat)
    requires j < 8 && k < 8
    ensures Flag(k) & (m | Flag(j)) != 0 <==> j == k || Flag(k) & m != 0
  {
  }

  lemma FlagUnset(m: bv8, j: nat, k: nat)
    requires j < 8 && k < 8
    ensures Flag(k) & (m & !Flag(j)) != 0 <==> j != k && Flag(k) & m != 0
  {
  }

  predicate Has(m: bv8, k: nat)
    requires k < 8
  {
    Flag(k) & m != 0
  }

  method WithFlag(m: bv8, j: nat) returns (r: bv8)
    requires j < 8
    ensures forall k {:trigger Has(r, k)} :: 0 <= k < 8 ==> (Has(r, k) <==> k == j || Has(m, k))
  {
    r := m | Flag(j);
    forall k | 0 <= k < 8 ensures Has(r, k) <==> k == j || Has(m, k) { FlagSet(m, j, k); }
  }

  method WithoutFlag(m: bv8, j: nat) returns (r: bv8)
    requires j < 8
    ensures forall k {:trigger Has(r, k)} :: 0 <= k < 8 ==> (Has(r, k) <==> k != j && Has(m, k))
  {
    r := m & !Flag(j);
    forall k | 0 <= k < 8 ensures Has(r, k) <==> k != j && Has(m, k) { FlagUnset(m, j, k); }
  }

  predicate IsSetIn(mem: seq<bv8>, s: nat)
    requires s / 8 < |mem|
  {
    Has(mem[s / 8], s % 8)
  }

  /** One byte of the flags has changed, by the flag of s. */
  lemma Changed(mem: seq<bv8>, i: nat, m: bv8, s: nat, t: nat, value: bool)
    requires i == s / 8 < |mem| && t / 8 < |mem|
    requires forall k {:trigger Has(m, k)} :: 0 <= k < 8 ==>
      (Has(m, k) <==> if k == s % 8 then value else Has(mem[i], k))
    ensures IsSetIn(mem[i := m], t) == if t == s then value else IsSetIn(mem, t)
  {
    assert t / 8 == i && t % 8 == s % 8 ==> t == s;
  }

  /** Flags for garbage collection. */
  class BitPackedFlags {
    var mem: seq<bv8>

    predicate BitIsSet(s: nat)
      reads this
      requires s / 8 < |mem|
    {
      IsSetIn(mem, s)
    }

    ghost predicate Holds(flags: seq<bool>)
      reads this
    {
      |flags| <= 8 * |mem| && forall s :: 0 <= s < |flags| ==> BitIsSet(s) == flags[s]
    }

    /** All entries are marked. */
    constructor (size: nat)
      ensures Holds(seq(size, _ => true))
    {
      mem := seq((size + 7) / 8, _ => 0xFF);
      new;
      forall s | 0 <= s < size ensures BitIsSet(s) { }
    }

    method BitSet(s: nat, ghost flags: seq<bool>)
      requires s < |flags| && Holds(flags)
      modifies this
      ensures Holds(flags[s := true])
    {
      var m := WithFlag(mem[s / 8], s % 8);
      mem := mem[s / 8 := m];
      forall t | 0 <= t < |flags| ensures BitIsSet(t) == flags[s := true][t] {
        Changed(old(mem), s / 8, m, s, t, true);
        assert old(BitIsSet(t)) == flags[t];
      }
    }

    method BitUnset(s: nat, ghost flags: seq<bool>)
      requires s < |flags| && Holds(flags)
      modifies this
      ensures Holds(flags[s := false])
    {
      var m := WithoutFlag(mem[s / 8], s % 8);
      mem := mem[s / 8 := m];
      forall t | 0 <= t < |flags| ensures BitIsSet(t) == flags[s := false][t] {
        Changed(old(mem), s / 8, m, s, t, false);
        assert old(BitIsSet(t)) == flags[t];
      }
    }
  }

  // ----- Locations -----

  function Location(hash: (nat, Element) -> bv32, size: nat, e: Element, k: nat): (loc: nat)
    requires size > 0
    ensures loc < size
  {
    Scaled(hash(k, e) as nat, size)
  }

  function ComputeHashes(hash: (nat, Element) -> bv32, size: nat, e: Element): (locs: seq<nat>)
    requires size > 0
    ensures |locs| == 8 && forall k :: 0 <= k < 8 ==> locs[k] < size
  {
    seq<nat>(8, k requires 0 <= k < 8 => Location(hash, size, e, k))
  }

  // ----- Live elements of the current epoch -----

  function LiveCount(epoch: seq<bool>, collected: seq<bool>): nat
    requires |epoch| == |collected|
  {
    if epoch == [] then 0
    else
      var last := |epoch| - 1;
      LiveCount(epoch[..last], collected[..last]) + if epoch[last] && !collected[last] then 1 else 0
  }

  /** Changing the flags of one slot changes the count by what that slot counts. */
  lemma {:induction false} LiveUpdate(epoch: seq<bool>, collected: seq<bool>, i: nat, x: bool, y: bool)
    requires |epoch| == |collected| && i < |epoch|
    ensures LiveCount(epoch[i := x], collected[i := y]) ==
      LiveCount(epoch, collected) + (if x && !y then 1 else 0) - (if epoch[i] && !collected[i] then 1 else 0)
  {
    var last := |epoch| - 1;
    if i < last {
      LiveUpdate(epoch[..last], collected[..last], i, x, y);
      assert epoch[i := x][..last] == epoch[..last][i := x] && collected[i := y][..last] == collected[..last][i := y];
    } else {
      assert epoch[i := x][..last] == epoch[..last] && collected[i := y][..last] == collected[..last];
    }
  }

  lemma {:induction false} LiveNone(epoch: seq<bool>, collected: seq<bool>)
    requires |epoch| == |collected| && forall i :: 0 <= i < |epoch| ==> !epoch[i]
    ensures LiveCount(epoch, collected) == 0
  {
    if epoch != [] {
      var last := |epoch| - 1;
      forall i | 0 <= i < last ensures !epoch[..last][i] { assert !epoch[i]; }
      LiveNone(epoch[..last], collected[..last]);
    }
  }

  // ----- What the table keeps -----

  /** An element is in one of its locations; an empty slot is open. */
  predicate SlotOk(hash: (nat, Element) -> bv32, table: seq<Element>, collected: seq<bool>, i: nat)
    requires i < |table| == |collected|
  {
    if table[i] == DEFAULT then collected[i] else i in ComputeHashes(hash, |table|, table[i])
  }

  ghost predicate SlotsOk(hash: (nat, Element) -> bv32, table: seq<Element>, collected: seq<bool>)
  {
    && |table| == |collected|
    && forall i: nat {:trigger SlotOk(hash, table, collected, i)} :: i < |table| ==> SlotOk(hash, table, collected, i)
  }

  /** No element is there twice. */
  ghost predicate OnceEach(m: multiset<Element>)
  {
    forall x :: x != DEFAULT ==> m[x] <= 1
  }

  lemma MultisetUpdate(s: seq<Element>, i: nat, x: Element)
    requires i < |s|
    ensures s[i] in multiset(s) && multiset(s[i := x]) == multiset(s) - multiset{s[i]} + multiset{x}
  {
    assert s == s[..i] + [s[i]] + s[i + 1..];
    assert s[i := x] == s[..i] + [x] + s[i + 1..];
  }

  /** Writing an element into one of its locations. */
  lemma WriteKeeps(hash: (nat, Element) -> bv32, table: seq<Element>, collected: seq<bool>, loc: nat, e: Element,
                   keep: bool)
    requires SlotsOk(hash, table, collected) && loc < |table| && e != DEFAULT && loc in ComputeHashes(hash, |table|, e)
    ensures SlotsOk(hash, table[loc := e], collected[loc := keep])
  {
    var table', collected' := table[loc := e], collected[loc := keep];
    forall i: nat | i < |table'| ensures SlotOk(hash, table', collected', i) {
      assert SlotOk(hash, table, collected, i);
    }
  }

  /** Changing one collection flag of an occupied slot, or setting any. */
  lemma FlagKeeps(hash: (nat, Element) -> bv32, table: seq<Element>, collected: seq<bool>, loc: nat, y: bool)
    requires SlotsOk(hash, table, collected) && loc < |table| && (table[loc] != DEFAULT || y)
    ensures SlotsOk(hash, table, collected[loc := y])
  {
    var collected' := collected[loc := y];
    forall i: nat | i < |table| ensures SlotOk(hash, table, collected', i) {
      assert SlotOk(hash, table, collected, i);
    }
  }

  /** An element that is in none of its locations is nowhere. */
  lemma NotElsewhere(hash: (nat, Element) -> bv32, table: seq<Element>, collected: seq<bool>, e: Element)
    requires SlotsOk(hash, table, collected) && |table| > 0 && e != DEFAULT
    requires forall k :: 0 <= k < 8 ==> table[ComputeHashes(hash, |table|, e)[k]] != e
    ensures e !in table
  {
    forall i | 0 <= i < |table| ensures table[i] != e {
      assert SlotOk(hash, table, collected, i);
    }
  }

  // ----- The cache -----

  function Max(a: nat, b: nat): nat { if a < b then b else a }

  /** How many live elements the current epoch may have. */
  function EpochBound(epochSize: nat): nat { epochSize + Max(1, epochSize / 16) }

  /** The first index from k on where a location is, or the length. */
  function IndexIn(locs: seq<nat>, loc: int, k: nat := 0): (i: nat)
    requires k <= |locs|
    ensures k <= i <= |locs| && (i < |locs| ==> locs[i] == loc)
    decreases |locs| - k
  {
    if k == |locs| || locs[k] == loc then k else IndexIn(locs, loc, k + 1)
  }

  // ----- The displacement chain -----

  /** An element in hand, with the epoch it belongs to. */
  datatype Held = Held(e: Element, epoch: bool)

  /** The table and the epoch flags. */
  datatype Slots = Slots(table: seq<Element>, epochs: seq<bool>) {
    predicate Of(size: nat) { |table| == |epochs| == size > 0 }

    function Put(loc: nat, h: Held): (r: Slots)
      requires Of(|table|) && loc < |table|
      ensures r.Of(|table|)
    {
      Slots(table[loc := h.e], epochs[loc := h.epoch])
    }

    function At(loc: nat): Held
      requires Of(|table|) && loc < |table|
    {
      Held(table[loc], epochs[loc])
    }
  }

  /** The slots, the element in hand and the location it was taken from, or -1. */
  datatype Hand = Hand(s: Slots, h: Held, last: int)

  /** No location of an element is open. */
  predicate AllInUse(hash: (nat, Element) -> bv32, open: seq<bool>, e: Element)
    requires |open| > 0
  {
    forall k :: 0 <= k < 8 ==> !open[ComputeHashes(hash, |open|, e)[k]]
  }

  predicate HasOpen(hash: (nat, Element) -> bv32, open: seq<bool>, e: Element)
    requires |open| > 0
  {
    !AllInUse(hash, open, e)
  }

  /** The first open location from index k on. */
  function FirstOpen(locs: seq<nat>, open: seq<bool>, k: nat := 0): (loc: nat)
    requires forall i :: 0 <= i < |locs| ==> locs[i] < |open|
    requires exists i :: k <= i < |locs| && open[locs[i]]
    ensures loc in locs && loc < |open| && open[loc]
    decreases |locs| - k
  {
    if open[locs[k]] then locs[k] else FirstOpen(locs, open, k + 1)
  }

  /** The location after the last one, or the second if there is none yet. */
  function NextLocation(locs: seq<nat>, last: int): (loc: nat)
    requires |locs| == 8
    ensures loc in locs
  {
    locs[(1 + IndexIn(locs, last)) % 8]
  }

  /** One move: the element in hand is exchanged for that at its next location. */
  function Exchange(hash: (nat, Element) -> bv32, p: Hand): (r: Hand)
    requires p.s.Of(|p.s.table|)
    ensures r.s.Of(|p.s.table|)
  {
    var loc := NextLocation(ComputeHashes(hash, |p.s.table|, p.h.e), p.last);
    Hand(p.s.Put(loc, p.h), p.s.At(loc), loc)
  }

  /** After n moves, starting with a new element in hand. */
  ghost function After(hash: (nat, Element) -> bv32, s: Slots, e: Element, n: nat): (p: Hand)
    requires s.Of(|s.table|)
    ensures p.s.Of(|s.table|)
  {
    if n == 0 then Hand(s, Held(e, true), -1) else Exchange(hash, After(hash, s, e, n - 1))
  }

  /** The element in hand after i moves finds its eight locations in use. */
  ghost predicate Blocked(hash: (nat, Element) -> bv32, s: Slots, open: seq<bool>, e: Element, i: nat)
    requires s.Of(|open|)
  {
    AllInUse(hash, open, After(hash, s, e, i).h.e)
  }

  /** Each of the first n moves is blocked. */
  ghost predicate AllBlocked(hash: (nat, Element) -> bv32, s: Slots, open: seq<bool>, e: Element, n: nat)
    requires s.Of(|open|)
  {
    forall i: nat {:trigger Blocked(hash, s, open, e, i)} :: i < n ==> Blocked(hash, s, open, e, i)
  }

  lemma BlockedAgain(hash: (nat, Element) -> bv32, s: Slots, open: seq<bool>, e: Element, n: nat,
                     table: seq<Element>, table': seq<Element>)
    requires s.Of(|open|) && AllBlocked(hash, s, open, e, n) && AllInUse(hash, open, After(hash, s, e, n).h.e)
    requires OpenStays(s.table, table, open) && OpenStays(table, table', open)
    ensures AllBlocked(hash, s, open, e, n + 1) && OpenStays(s.table, table', open)
  {
    assert Blocked(hash, s, open, e, n);
  }

  /** The element in hand has been put into its first open location. */
  ghost predicate IsPlaced(hash: (nat, Element) -> bv32, p: Hand, open: seq<bool>, s': Slots, open': seq<bool>,
                           dropped: Element)
    requires p.s.Of(|open|)
  {
    && HasOpen(hash, open, p.h.e)
    && var loc := FirstOpen(ComputeHashes(hash, |open|, p.h.e), open);
       s' == p.s.Put(loc, p.h) && open' == open[loc := false] && dropped == p.s.table[loc]
  }

  /** Moves go through locations in use, so what lies in an open one stays. */
  ghost predicate OpenStays(table: seq<Element>, table': seq<Element>, open: seq<bool>)
  {
    |table| == |table'| == |open| && forall i :: 0 <= i < |open| && open[i] ==> table'[i] == table[i]
  }

  /**
    What insertion makes of the slots. Elements are moved on until the one in hand has an open location, or `limit`
    times; then that is dropped.
   */
  ghost predicate IsMoved(hash: (nat, Element) -> bv32, s: Slots, open: seq<bool>, e: Element, limit: nat, n: nat,
                          s': Slots, open': seq<bool>, dropped: Element)
    requires s.Of(|open|)
  {
    && n <= limit && AllBlocked(hash, s, open, e, n)
    && var p := After(hash, s, e, n);
       OpenStays(s.table, p.s.table, open) &&
       if n < limit then IsPlaced(hash, p, open, s', open', dropped)
       else s' == p.s && open' == open && dropped == p.h.e
  }

  /** An element was there and in use. */
  predicate WasKept(table: seq<Element>, open: seq<bool>, e: Element)
    requires |table| == |open|
  {
    exists i :: 0 <= i < |table| && table[i] == e && !open[i]
  }

  /** An element in two slots is there twice. */
  lemma Twice(table: seq<Element>, i: nat, j: nat)
    requires i < |table| && j < |table| && i != j && table[i] == table[j]
    ensures multiset(table)[table[i]] >= 2
  {
    var other := table[i := table[i] + 1];
    MultisetUpdate(table, i, table[i] + 1);
    assert other[j] == table[j];
    assert table[j] in multiset(other);
  }

  /** An element in use, or the new one, is dropped only if every move met eight locations in use. */
  lemma KeptDropped(hash: (nat, Element) -> bv32, s: Slots, open: seq<bool>, e: Element, limit: nat, n: nat, s': Slots,
                    open': seq<bool>, dropped: Element)
    requires s.Of(|open|) && SlotsOk(hash, s.table, open) && OnceEach(multiset(s.table)) && e != DEFAULT
    requires e !in s.table && IsMoved(hash, s, open, e, limit, n, s', open', dropped)
    ensures dropped == e || WasKept(s.table, open, dropped) ==> AllBlocked(hash, s, open, e, limit)
  {
    if n < limit {
      var p := After(hash, s, e, n);
      var loc := FirstOpen(ComputeHashes(hash, |open|, p.h.e), open);
      if i :| 0 <= i < |open| && s.table[i] == s.table[loc] && !open[i] {
        assert SlotOk(hash, s.table, open, i);
        Twice(s.table, loc, i);
      }
    }
  }

  /** If the new element has an open location it is put there, and nothing else changes. */
  lemma OpenTaken(hash: (nat, Element) -> bv32, s: Slots, open: seq<bool>, e: Element, limit: nat, n: nat, s': Slots,
                  open': seq<bool>, dropped: Element)
    requires s.Of(|open|) && IsMoved(hash, s, open, e, limit, n, s', open', dropped) && limit > 0
    requires HasOpen(hash, open, e)
    ensures n == 0 && IsPlaced(hash, Hand(s, Held(e, true), -1), open, s', open', dropped)
  {
    assert n != 0 ==> Blocked(hash, s, open, e, 0);
  }

  /**
    What insertion of a new element promises beyond the moves. If the element has an open location that is where it
    goes, and nothing else moves. An element in use, or the new one, is dropped only if all moves were blocked.
   */
  ghost predicate IsInserted(hash: (nat, Element) -> bv32, s: Slots, open: seq<bool>, e: Element, limit: nat, n: nat,
                             s': Slots, open': seq<bool>, dropped: Element)
  {
    && s.Of(|open|) && IsMoved(hash, s, open, e, limit, n, s', open', dropped)
    && (HasOpen(hash, open, e) ==> IsPlaced(hash, Hand(s, Held(e, true), -1), open, s', open', dropped))
    && (dropped == e || WasKept(s.table, open, dropped) ==> AllBlocked(hash, s, open, e, limit))
  }

  lemma InsertedBy(hash: (nat, Element) -> bv32, s: Slots, open: seq<bool>, e: Element, limit: nat, n: nat, s': Slots,
                   open': seq<bool>, dropped: Element)
    requires s.Of(|open|) && SlotsOk(hash, s.table, open) && OnceEach(multiset(s.table)) && e != DEFAULT && limit > 0
    requires e !in s.table && IsMoved(hash, s, open, e, limit, n, s', open', dropped)
    ensures IsInserted(hash, s, open, e, limit, n, s', open', dropped)
  {
    KeptDropped(hash, s, open, e, limit, n, s', open', dropped);
    if HasOpen(hash, open, e) { OpenTaken(hash, s, open, e, limit, n, s', open', dropped); }
  }

  // ----- Aging -----

  /** When a new epoch starts, what was in the old one is open, and what was in the current one is in the old one. */
  ghost predicate IsAged(epochs: seq<bool>, open: seq<bool>, epochs': seq<bool>, open': seq<bool>, aged: bool)
  {
    && |epochs| == |open| == |epochs'| == |open'|
    && if aged then forall i :: 0 <= i < |open| ==> !epochs'[i] && open'[i] == (open[i] || !epochs[i])
       else epochs' == epochs && open' == open
  }

  /** Aging leaves open what was open. */
  lemma AgedOpen(hash: (nat, Element) -> bv32, epochs: seq<bool>, open: seq<bool>, epochs': seq<bool>,
                 open': seq<bool>, aged: bool, e: Element)
    requires IsAged(epochs, open, epochs', open', aged) && |open| > 0
    ensures HasOpen(hash, open, e) ==> HasOpen(hash, open', e)
  {
  }

  class Cache {
    var table: seq<Element>
    const size: nat
    const collectionFlags: BitPackedFlags
    var epochFlags: seq<bool>
    var epochHeuristicCounter: nat
    const epochSize: nat
    const depthLimit: nat
    const hash: (nat, Element) -> bv32
    ghost var collected: seq<bool>         // what the collection flags hold
    ghost var inserted: set<Element>       // everything inserted so far

    /** Only what was inserted. */
    ghost predicate Known(m: multiset<Element>)
      reads this`inserted
    {
      forall x :: x in m ==> x == DEFAULT || x in inserted
    }

    ghost predicate Valid()
      reads this, collectionFlags
    {
      && size >= 2 && |table| == |epochFlags| == |collected| == size && epochSize >= 1 && depthLimit >= 1
      && collectionFlags.Holds(collected)
      && SlotsOk(hash, table, collected)
      && OnceEach(multiset(table))
      && Known(multiset(table))
      && LiveCount(epochFlags, collected) + epochHeuristicCounter <= EpochBound(epochSize)
    }

    /** A cache for newSize elements; `depthLimit` is the logarithm of the size. */
    constructor (newSize: nat, depthLimit: nat, hash: (nat, Element) -> bv32)
      requires depthLimit >= 1
      ensures Valid() && inserted == {} && size == Max(2, newSize) && fresh(collectionFlags)
      ensures this.hash == hash && this.depthLimit == depthLimit
    {
      size := Max(2, newSize);
      table := seq(Max(2, newSize), _ => DEFAULT);
      epochFlags := seq(Max(2, newSize), _ => false);
      collected := seq(Max(2, newSize), _ => true);
      collectionFlags := new BitPackedFlags(Max(2, newSize));
      epochSize := Max(1, 45 * Max(2, newSize) / 100);
      epochHeuristicCounter := Max(1, 45 * Max(2, newSize) / 100);
      this.depthLimit, this.hash := depthLimit, hash;
      inserted := {};
      new;
      LiveNone(epochFlags, collected);
      forall x | x != DEFAULT ensures multiset(table)[x] == 0 { assert x !in table; }
    }

    method AllowErase(n: nat)
      requires n < |collected| && collectionFlags.Holds(collected)
      modifies collectionFlags, this`collected
      ensures collectionFlags.Holds(collected) && collected == old(collected)[n := true]
    {
      collectionFlags.BitSet(n, collected);
      collected := collected[n := true];
    }

    method PleaseKeep(n: nat)
      requires n < |collected| && collectionFlags.Holds(collected)
      modifies collectionFlags, this`collected
      ensures collectionFlags.Holds(collected) && collected == old(collected)[n := false]
    {
      collectionFlags.BitUnset(n, collected);
      collected := collected[n := false];
    }

    /** Count the live elements of the current epoch. */
    method CountLive() returns (epochUnusedCount: nat)
      requires Valid()
      ensures epochUnusedCount == LiveCount(epochFlags, collected)
    {
      epochUnusedCount := 0;
      for i := 0 to size
        invariant epochUnusedCount == LiveCount(epochFlags[..i], collected[..i])
      {
        assert epochFlags[..i + 1][..i] == epochFlags[..i] && collected[..i + 1][..i] == collected[..i];
        if epochFlags[i] && !collectionFlags.BitIsSet(i) { epochUnusedCount := epochUnusedCount + 1; }
      }
      assert epochFlags[..size] == epochFlags && collected[..size] == collected;
    }

    /** Start a new epoch: what was in the old one may be erased, what is in the current one becomes old. */
    method NewEpoch()
      requires Valid()
      modifies this`epochFlags, this`collected, collectionFlags
      ensures |epochFlags| == |collected| == size && collectionFlags.Holds(collected) && SlotsOk(hash, table, collected)
      ensures LiveCount(epochFlags, collected) == 0
      ensures IsAged(old(epochFlags), old(collected), epochFlags, collected, true)
    {
      for i := 0 to size
        invariant |epochFlags| == |collected| == size && collectionFlags.Holds(collected)
        invariant SlotsOk(hash, table, collected)
        invariant forall k :: 0 <= k < i ==>
          !epochFlags[k] && collected[k] == (old(collected)[k] || !old(epochFlags)[k])
        invariant forall k :: i <= k < size ==> epochFlags[k] == old(epochFlags)[k] && collected[k] == old(collected)[k]
      {
        if epochFlags[i] {
          epochFlags := epochFlags[i := false];
        } else {
          FlagKeeps(hash, table, collected, i, true);
          AllowErase(i);
        }
      }
      LiveNone(epochFlags, collected);
    }

    /** The heuristic has run out, and there are enough live elements in the current epoch. */
    ghost predicate IsFull()
      reads this
      requires |epochFlags| == |collected|
    {
      epochHeuristicCounter == 0 && LiveCount(epochFlags, collected) >= epochSize
    }

    /** Age the epochs if the current one is full. Afterwards there is room for one more element. */
    method EpochCheck()
      requires Valid()
      modifies this`epochFlags, this`collected, this`epochHeuristicCounter, collectionFlags
      ensures Valid() && LiveCount(epochFlags, collected) + epochHeuristicCounter < EpochBound(epochSize)
      ensures IsAged(old(epochFlags), old(collected), epochFlags, collected, old(IsFull()))
      ensures epochHeuristicCounter ==
        if old(epochHeuristicCounter) != 0 then old(epochHeuristicCounter) - 1 else if old(IsFull()) then epochSize
        else Max(1, Max(epochSize / 16, epochSize - LiveCount(epochFlags, collected)))
    {
      if epochHeuristicCounter != 0 {
        epochHeuristicCounter := epochHeuristicCounter - 1;
        return;
      }
      var epochUnusedCount := CountLive();
      if epochUnusedCount >= epochSize {
        NewEpoch();
        epochHeuristicCounter := epochSize;
      } else {
        epochHeuristicCounter := Max(1, Max(epochSize / 16, epochSize - epochUnusedCount));
      }
    }

    /** The location of an element, or -1. */
    method Find(e: Element) returns (loc: int)
      requires |table| == size > 0
      ensures loc == -1 || (0 <= loc < size && table[loc] == e && loc in ComputeHashes(hash, size, e))
      ensures loc == -1 ==> forall k :: 0 <= k < 8 ==> table[ComputeHashes(hash, size, e)[k]] != e
    {
      var locs := ComputeHashes(hash, size, e);
      for k := 0 to 8
        invariant forall j :: 0 <= j < k ==> table[locs[j]] != e
      {
        if table[locs[k]] == e { return locs[k]; }
      }
      return -1;
    }

    /**
      Whether an element is stored. Nothing is reported that was not inserted; with `erase` the slot
      becomes garbage, but the element stays until the space is needed.
     */
    method Contains(e: Element, erase: bool) returns (found: bool, ghost loc: int)
      requires Valid() && e != DEFAULT
      modifies this`collected, collectionFlags
      ensures Valid() && (found <==> e in table) && (found ==> e in inserted)
      ensures if found && erase then 0 <= loc < size && table[loc] == e && collected == old(collected)[loc := true]
              else collected == old(collected)
    {
      var at := Find(e);
      found, loc := at != -1, at;
      if !found {
        NotElsewhere(hash, table, collected, e);
      } else if erase {
        LiveUpdate(epochFlags, collected, at, epochFlags[at], true);
        FlagKeeps(hash, table, collected, at, true);
        assert epochFlags[at := epochFlags[at]] == epochFlags;
        AllowErase(at);
      }
    }

    /** The element was there; it is kept, and in the current epoch. */
    ghost predicate IsRenewed(e: Element, epochs: seq<bool>, open: seq<bool>)
      reads this
    {
      exists loc :: 0 <= loc < |table| == |epochs| == |open| && table[loc] == e && epochFlags == epochs[loc := true] &&
                    collected == open[loc := false]
    }

    method Renew(loc: nat)
      requires Valid() && loc < size && table[loc] != DEFAULT
      requires LiveCount(epochFlags, collected) + epochHeuristicCounter < EpochBound(epochSize)
      modifies this`epochFlags, this`collected, collectionFlags
      ensures Valid() && epochFlags == old(epochFlags)[loc := true] && collected == old(collected)[loc := false]
    {
      LiveUpdate(epochFlags, collected, loc, true, false);
      FlagKeeps(hash, table, collected, loc, false);
      PleaseKeep(loc);
      epochFlags := epochFlags[loc := true];
    }

    /**
      Insert. First the epochs may age, to `epochs` and `open`. An element that is there is renewed; for another a slot
      is found by moves. Of the contents nothing but `dropped` is lost. If the element has an open location that is
      where it goes, and nothing else moves; an element in use, or the new one, is dropped only if all moves were
      blocked.
     */
    method Insert(e: Element)
      returns (ghost dropped: Element, ghost epochs: seq<bool>, ghost open: seq<bool>, ghost n: nat)
      requires Valid() && e != DEFAULT
      modifies this`table, this`epochFlags, this`collected, this`epochHeuristicCounter, this`inserted, collectionFlags
      ensures Valid() && inserted == old(inserted) + {e}
      ensures IsAged(old(epochFlags), old(collected), epochs, open, old(IsFull())) && |open| == size
      ensures HasOpen(hash, old(collected), e) ==> HasOpen(hash, open, e)
      ensures e in old(table) ==> table == old(table) && IsRenewed(e, epochs, open)
      ensures e !in old(table) ==>
        && dropped in multiset(old(table)) + multiset{e}
        && multiset(table) == multiset(old(table)) + multiset{e} - multiset{dropped}
        && IsInserted(hash, Slots(old(table), epochs), open, e, depthLimit, n, Slots(table, epochFlags), collected,
                      dropped)
    {
      EpochCheck();
      epochs, open := epochFlags, collected;
      AgedOpen(hash, old(epochFlags), old(collected), epochs, open, old(IsFull()), e);
      inserted := inserted + {e};
      dropped, n := InsertAged(e);
    }

    /** Renew the element where it is, or find a place for it. */
    method InsertAged(e: Element) returns (ghost dropped: Element, ghost n: nat)
      requires Valid() && e != DEFAULT && e in inserted
      requires LiveCount(epochFlags, collected) + epochHeuristicCounter < EpochBound(epochSize)
      modifies this`table, this`epochFlags, this`collected, collectionFlags
      ensures Valid()
      ensures e in old(table) ==> table == old(table) && IsRenewed(e, old(epochFlags), old(collected))
      ensures e !in old(table) ==>
        && dropped in multiset(old(table)) + multiset{e}
        && multiset(table) == multiset(old(table)) + multiset{e} - multiset{dropped}
        && IsInserted(hash, Slots(old(table), old(epochFlags)), old(collected), e, depthLimit, n,
                      Slots(table, epochFlags), collected, dropped)
    {
      dropped, n := e, 0;
      var loc := Find(e);
      if loc != -1 {
        Renew(loc);
        return;
      }
      NotElsewhere(hash, table, collected, e);
      dropped, n := Displace(e);
    }

    /** What holds while element `e` of epoch `epoch` is in hand, looking for a slot. */
    ghost predicate InHand(e: Element, epoch: bool, all: multiset<Element>, live: nat)
      reads this, collectionFlags
    {
      && size >= 2 && |table| == |epochFlags| == |collected| == size && e != DEFAULT
      && collectionFlags.Holds(collected) && SlotsOk(hash, table, collected)
      && multiset(table) + multiset{e} == all
      && LiveCount(epochFlags, collected) + (if epoch then 1 else 0) == live
    }

    /** Of all elements one is dropped, and at most `live` are live. */
    ghost predicate IsSettled(all: multiset<Element>, live: nat, dropped: Element)
      reads this, collectionFlags
    {
      && |table| == |epochFlags| == |collected| == size
      && collectionFlags.Holds(collected) && SlotsOk(hash, table, collected)
      && dropped in all && multiset(table) == all - multiset{dropped}
      && LiveCount(epochFlags, collected) <= live
    }

    /** An open slot among the locations, or -1. */
    method FindOpen(locs: seq<nat>) returns (loc: int)
      requires |locs| == 8 && |collected| == size && collectionFlags.Holds(collected)
      requires forall k :: 0 <= k < 8 ==> locs[k] < size
      ensures if exists k :: 0 <= k < 8 && collected[locs[k]] then loc == FirstOpen(locs, collected) else loc == -1
    {
      for k := 0 to 8
        invariant forall j :: 0 <= j < k ==> !collected[locs[j]]
        invariant (exists j :: k <= j < 8 && collected[locs[j]]) ==>
          FirstOpen(locs, collected) == FirstOpen(locs, collected, k)
      {
        if collectionFlags.BitIsSet(locs[k]) { return locs[k]; }
      }
      return -1;
    }

    /** Put the element in hand into an open slot. */
    method Place(e: Element, epoch: bool, loc: nat, ghost all: multiset<Element>, ghost live: nat)
      returns (dropped: Element, epoch': bool)
      requires InHand(e, epoch, all, live) && loc < size && loc in ComputeHashes(hash, size, e) && collected[loc]
      modifies this`table, this`epochFlags, this`collected, collectionFlags
      ensures IsSettled(all, live, dropped)
      ensures table == old(table)[loc := e] && epochFlags == old(epochFlags)[loc := epoch]
      ensures collected == old(collected)[loc := false] && dropped == old(table)[loc]
    {
      dropped, epoch' := table[loc], epochFlags[loc];
      MultisetUpdate(table, loc, e);
      WriteKeeps(hash, table, collected, loc, e, false);
      LiveUpdate(epochFlags, collected, loc, epoch, false);
      table := table[loc := e];
      PleaseKeep(loc);
      epochFlags := epochFlags[loc := epoch];
    }

    /** Exchange the element in hand with the one at a location. */
    method Swap(e: Element, epoch: bool, loc: nat, ghost all: multiset<Element>, ghost live: nat)
      returns (e': Element, epoch': bool)
      requires InHand(e, epoch, all, live) && loc < size && loc in ComputeHashes(hash, size, e) && !collected[loc]
      modifies this`table, this`epochFlags
      ensures InHand(e', epoch', all, live)
      ensures table == old(table)[loc := e] && epochFlags == old(epochFlags)[loc := epoch]
      ensures e' == old(table)[loc] && epoch' == old(epochFlags)[loc]
    {
      assert SlotOk(hash, table, collected, loc);
      MultisetUpdate(table, loc, e);
      WriteKeeps(hash, table, collected, loc, e, false);
      LiveUpdate(epochFlags, collected, loc, epoch, false);
      assert collected[loc := false] == collected;
      e', epoch' := table[loc], epochFlags[loc];
      table := table[loc := e];
      epochFlags := epochFlags[loc := epoch];
    }

    /** Exchange at the location after the last one. */
    method MoveOn(e: Element, epoch: bool, locs: seq<nat>, lastLoc: int, ghost all: multiset<Element>, ghost live: nat)
      returns (e': Element, epoch': bool, loc: nat)
      requires InHand(e, epoch, all, live) && locs == ComputeHashes(hash, size, e)
      requires forall k :: 0 <= k < 8 ==> !collected[locs[k]]
      modifies this`table, this`epochFlags
      ensures InHand(e', epoch', all, live) && loc == NextLocation(locs, lastLoc) < size
      ensures table == old(table)[loc := e] && epochFlags == old(epochFlags)[loc := epoch]
      ensures e' == old(table)[loc] && epoch' == old(epochFlags)[loc]
    {
      loc := NextLocation(locs, lastLoc);
      e', epoch' := Swap(e, epoch, loc, all, live);
    }

    /** Find a slot for a new element, moving others on; what is in hand after depthLimit moves is dropped. */
    method Displace(e0: Element) returns (ghost dropped: Element, ghost n: nat)
      requires Valid() && e0 != DEFAULT && e0 !in table && e0 in inserted
      requires LiveCount(epochFlags, collected) + epochHeuristicCounter < EpochBound(epochSize)
      modifies this`table, this`epochFlags, this`collected, collectionFlags
      ensures Valid()
      ensures dropped in multiset(old(table)) + multiset{e0}
      ensures multiset(table) == multiset(old(table)) + multiset{e0} - multiset{dropped}
      ensures IsInserted(hash, Slots(old(table), old(epochFlags)), old(collected), e0, depthLimit, n,
                         Slots(table, epochFlags), collected, dropped)
    {
      ghost var before := multiset(table);
      ghost var s, open := Slots(table, epochFlags), collected;
      ghost var live := LiveCount(epochFlags, collected) + 1;
      dropped, n := Shuffle(e0, before + multiset{e0}, live);
      Contents(before, e0, dropped, live);
      InsertedBy(hash, s, open, e0, depthLimit, n, Slots(table, epochFlags), collected, dropped);
    }

    /** Put the element in hand into an open slot and take out what is there, or exchange it for another. */
    method Settle(e: Element, epoch: bool, lastLoc: int, ghost all: multiset<Element>, ghost live: nat)
      returns (placed: bool, e': Element, epoch': bool, loc: int)
      requires InHand(e, epoch, all, live)
      modifies this`table, this`epochFlags, this`collected, collectionFlags
      ensures placed ==> IsSettled(all, live, e')
      ensures !placed ==> InHand(e', epoch', all, live)
      ensures var p := Hand(Slots(old(table), old(epochFlags)), Held(e, epoch), lastLoc);
        if placed then IsPlaced(hash, p, old(collected), Slots(table, epochFlags), collected, e')
        else
          && AllInUse(hash, collected, e) && collected == old(collected) && OpenStays(old(table), table, collected)
          && Hand(Slots(table, epochFlags), Held(e', epoch'), loc) == Exchange(hash, p)
    {
      var locs := ComputeHashes(hash, size, e);
      loc := FindOpen(locs);
      placed := loc != -1;
      if placed {
        e', epoch' := Place(e, epoch, loc, all, live);
      } else {
        e', epoch', loc := MoveOn(e, epoch, locs, lastLoc, all, live);
      }
    }

    /** The moves, at most depthLimit of them. */
    method Shuffle(e0: Element, ghost all: multiset<Element>, ghost live: nat) returns (dropped: Element, ghost n: nat)
      requires InHand(e0, true, all, live)
      modifies this`table, this`epochFlags, this`collected, collectionFlags
      ensures IsSettled(all, live, dropped)
      ensures IsMoved(hash, Slots(old(table), old(epochFlags)), old(collected), e0, depthLimit, n,
                      Slots(table, epochFlags), collected, dropped)
    {
      var e, epoch := e0, true;
      var lastLoc: int := -1;
      ghost var s := Slots(table, epochFlags);
      for depth := 0 to depthLimit
        invariant InHand(e, epoch, all, live) && collected == old(collected)
        invariant Hand(Slots(table, epochFlags), Held(e, epoch), lastLoc) == After(hash, s, e0, depth)
        invariant AllBlocked(hash, s, collected, e0, depth) && OpenStays(s.table, table, collected)
      {
        n := depth;
        ghost var was := table;
        var placed;
        placed, e, epoch, lastLoc := Settle(e, epoch, lastLoc, all, live);
        if placed { return e, n; }
        BlockedAgain(hash, s, collected, e0, depth, was, table);
      }
      n := depthLimit;
      dropped := e;
      assert multiset(table) == all - multiset{dropped};
    }

    /** What the contents keep when one element is added and one is dropped. */
    lemma Contents(before: multiset<Element>, e: Element, dropped: Element, live: nat)
      requires IsSettled(before + multiset{e}, live, dropped)
      requires OnceEach(before) && e !in before && e in inserted && Known(before)
      requires size >= 2 && epochSize >= 1 && depthLimit >= 1 && live + epochHeuristicCounter <= EpochBound(epochSize)
      ensures Valid()
    {
    }
  }
}
