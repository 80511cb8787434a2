/**
  The rolling Bloom filter: two bits per position say in which of three generations it was last
  set. The hash functions are parameters.
 */
module RollingBloom {
  import opened Numbers

  type Key = seq<bv8>

  // ----- Bits of a word -----

  function BitOf(x: bv64, b: bv64): bv64
    requires b < 64
  {
    (x >> b) & 1
  }

  lemma BitBinary(x: bv64, b: bv64)
    requires b < 64
    ensures BitOf(x, b) == 0 || BitOf(x, b) == 1
  {
  }

  lemma SetSame(x: bv64, b: bv64, g: bv64)
    requires b < 64 && g < 2
    ensures BitOf((x & !(1 << b)) | (g << b), b) == g
  {
  }

  lemma SetOther(x: bv64, b: bv64, g: bv64, c: bv64)
    requires b < 64 && g < 2 && c < 64 && c != b
    ensures BitOf((x & !(1 << b)) | (g << b), c) == BitOf(x, c)
  {
  }

  /** Wiping clears exactly the positions whose two bits are those of the generation. */
  lemma WipeFirst(p1: bv64, p2: bv64, g1: bv64, g2: bv64, c: bv64)
    requires g1 < 2 && g2 < 2 && c < 64
    ensures BitOf(p1 & ((p1 ^ (0 - g1)) | (p2 ^ (0 - g2))), c) ==
      if BitOf(p1, c) == g1 && BitOf(p2, c) == g2 then 0 else BitOf(p1, c)
  {
  }

  lemma WipeSecond(p1: bv64, p2: bv64, g1: bv64, g2: bv64, c: bv64)
    requires g1 < 2 && g2 < 2 && c < 64
    ensures BitOf(p2 & ((p1 ^ (0 - g1)) | (p2 ^ (0 - g2))), c) ==
      if BitOf(p1, c) == g1 && BitOf(p2, c) == g2 then 0 else BitOf(p2, c)
  {
  }

  lemma EitherBit(p1: bv64, p2: bv64, c: bv64)
    requires c < 64
    ensures ((p1 | p2) >> c) & 1 != 0 <==> BitOf(p1, c) != 0 || BitOf(p2, c) != 0
  {
  }

  /** The generation number that two words hold at a bit. */
  function Stamp(p1: bv64, p2: bv64, c: bv64): nat
    requires c < 64
  {
    (if BitOf(p1, c) == 1 then 1 else 0) + (if BitOf(p2, c) == 1 then 2 else 0)
  }

  function Low(g: nat): bv64 { if g % 2 == 1 then 1 else 0 }

  function High(g: nat): bv64 { if g / 2 == 1 then 1 else 0 }

  lemma WordSet(p: bv64, b: bv64, g: bv64, c: bv64)
    requires b < 64 && c < 64 && g < 2
    ensures BitOf((p & !(1 << b)) | (g << b), c) == if c == b then g else BitOf(p, c)
  {
    if c == b { SetSame(p, b, g); } else { SetOther(p, b, g, c); }
  }

  /** A word with one bit set to a value. */
  method SetWord(p: bv64, b: bv64, g: bv64) returns (q: bv64)
    requires b < 64 && g < 2
    ensures forall c: bv64 {:trigger BitOf(q, c)} :: c < 64 ==> BitOf(q, c) == if c == b then g else BitOf(p, c)
  {
    q := (p & !(1 << b)) | (g << b);
    forall c: bv64 | c < 64 ensures BitOf(q, c) == if c == b then g else BitOf(p, c) { WordSet(p, b, g, c); }
  }

  lemma StampSeen(p1: bv64, p2: bv64, c: bv64)
    requires c < 64
    ensures ((p1 | p2) >> c) & 1 != 0 <==> Stamp(p1, p2, c) != 0
  {
    EitherBit(p1, p2, c);
    BitBinary(p1, c);
    BitBinary(p2, c);
  }

  // ----- Positions -----

  /** The pair of words and the bit within it. */
  datatype Position = Position(pair: nat, bit: bv64)

  function PositionOf(h: bv32, size: nat): (p: Position)
    requires size > 0 && size % 2 == 0
    ensures p.bit < 64 && 2 * p.pair + 1 < size
  {
    var x := Scaled(WordOf(h), size);
    PairBelow(x, size);
    Position(x / 2, LowBits(h))
  }

  lemma PairBelow(x: nat, size: nat)
    requires x < size && size % 2 == 0
    ensures 2 * (x / 2) + 1 < size
  {
  }

  function WordOf(h: bv32): (n: nat)
    ensures n < 0x1_0000_0000
  {
    h as nat
  }

  function LowBits(h: bv32): (b: bv64)
    ensures b < 64
  {
    (h & 0x3F) as bv64
  }

  /** Whether inserting a key touches a position. */
  ghost predicate Touches(hash: (nat, Key) -> bv32, nHashFuncs: nat, size: nat, key: Key, p: Position)
    requires size > 0 && size % 2 == 0
  {
    exists n :: 0 <= n < nHashFuncs && PositionOf(hash(n, key), size) == p
  }

  // ----- Generations -----

  /** The generation, counted from 1 without wrapping, of the i-th insertion. */
  function GenerationOf(i: nat, perGeneration: nat): nat
    requires perGeneration > 0
  {
    i / perGeneration + 1
  }

  /** The generation after n insertions. */
  function CurrentGeneration(n: nat, perGeneration: nat): nat
    requires perGeneration > 0
  {
    if n == 0 then 1 else GenerationOf(n - 1, perGeneration)
  }

  /** How a generation is numbered in two bits. */
  function Wrapped(g: nat): nat
    requires g > 0
  {
    (g - 1) % 3 + 1
  }

  /** The generation of the last insertion that touched a position, or 0. */
  ghost function LastTouch(hash: (nat, Key) -> bv32, nHashFuncs: nat, size: nat, log: seq<Key>, perGeneration: nat,
                           p: Position): nat
    requires size > 0 && size % 2 == 0 && perGeneration > 0
  {
    if log == [] then 0
    else
      var last := |log| - 1;
      if Touches(hash, nHashFuncs, size, log[last], p) then GenerationOf(last, perGeneration)
      else LastTouch(hash, nHashFuncs, size, log[..last], perGeneration, p)
  }

  /** What a position must show: the last touch if it was in the current or one of the two previous generations. */
  function Shown(last: nat, current: nat): nat
  {
    if last == 0 || last + 3 <= current then 0 else Wrapped(last)
  }

  lemma {:induction false} LastTouchBound(hash: (nat, Key) -> bv32, nHashFuncs: nat, size: nat, log: seq<Key>,
                                          perGeneration: nat, p: Position)
    requires size > 0 && size % 2 == 0 && perGeneration > 0
    ensures LastTouch(hash, nHashFuncs, size, log, perGeneration, p) <= CurrentGeneration(|log|, perGeneration)
  {
    if log != [] {
      LastTouchBound(hash, nHashFuncs, size, log[..|log| - 1], perGeneration, p);
      GenerationsGrow(|log| - 2, |log| - 1, perGeneration);
    }
  }

  lemma GenerationsGrow(i: int, j: nat, perGeneration: nat)
    requires i <= j && perGeneration > 0
    ensures i >= 0 ==> GenerationOf(i, perGeneration) <= GenerationOf(j, perGeneration)
  {
    if i >= 0 { DivMonotone(i, j, perGeneration); }
  }

  /** Everything touched by an insertion was last touched in its generation or later. */
  lemma {:induction false} TouchedSince(hash: (nat, Key) -> bv32, nHashFuncs: nat, size: nat, log: seq<Key>,
                                        perGeneration: nat, i: nat, p: Position)
    requires size > 0 && size % 2 == 0 && perGeneration > 0 && i < |log| && Touches(hash, nHashFuncs, size, log[i], p)
    ensures LastTouch(hash, nHashFuncs, size, log, perGeneration, p) >= GenerationOf(i, perGeneration)
  {
    var last := |log| - 1;
    if i == last || Touches(hash, nHashFuncs, size, log[last], p) {
      GenerationsGrow(i, last, perGeneration);
    } else {
      TouchedSince(hash, nHashFuncs, size, log[..last], perGeneration, i, p);
    }
  }

  /** The last 2 * perGeneration insertions are in the current or one of the two previous generations. */
  lemma RecentGeneration(i: nat, n: nat, perGeneration: nat)
    requires perGeneration > 0 && i < n && n <= i + 2 * perGeneration
    ensures CurrentGeneration(n, perGeneration) < GenerationOf(i, perGeneration) + 3
    ensures GenerationOf(i, perGeneration) > 0
  {
    DivMonotone(n - 1, i + 2 * perGeneration, perGeneration);
    DivPlus(i, perGeneration, 2);
  }

  lemma ShownRecent(last: nat, g: nat, current: nat)
    requires 0 < g <= last && current < g + 3
    ensures Shown(last, current) != 0
  {
  }

  // ----- Turning to the next generation -----

  /** Wiping the number that is about to be reused shows what the next generation must show. */
  lemma ShownNext(last: nat, current: nat)
    requires last <= current && current > 0
    ensures (if Shown(last, current) == Wrapped(current + 1) then 0 else Shown(last, current)) ==
      Shown(last, current + 1)
  {
  }

  method WipedFirst(p1: bv64, p2: bv64, g1: bv64, g2: bv64) returns (q: bv64)
    requires g1 < 2 && g2 < 2
    ensures forall c: bv64 {:trigger BitOf(q, c)} :: c < 64 ==>
      BitOf(q, c) == if BitOf(p1, c) == g1 && BitOf(p2, c) == g2 then 0 else BitOf(p1, c)
  {
    q := p1 & ((p1 ^ (0 - g1)) | (p2 ^ (0 - g2)));
    forall c: bv64 | c < 64
      ensures BitOf(q, c) == if BitOf(p1, c) == g1 && BitOf(p2, c) == g2 then 0 else BitOf(p1, c)
    {
      WipeFirst(p1, p2, g1, g2, c);
    }
  }

  method WipedSecond(p1: bv64, p2: bv64, g1: bv64, g2: bv64) returns (q: bv64)
    requires g1 < 2 && g2 < 2
    ensures forall c: bv64 {:trigger BitOf(q, c)} :: c < 64 ==>
      BitOf(q, c) == if BitOf(p1, c) == g1 && BitOf(p2, c) == g2 then 0 else BitOf(p2, c)
  {
    q := p2 & ((p1 ^ (0 - g1)) | (p2 ^ (0 - g2)));
    forall c: bv64 | c < 64
      ensures BitOf(q, c) == if BitOf(p1, c) == g1 && BitOf(p2, c) == g2 then 0 else BitOf(p2, c)
    {
      WipeSecond(p1, p2, g1, g2, c);
    }
  }

  /** Two words without the positions that hold a generation number. */
  method WipedPair(p1: bv64, p2: bv64, g: nat) returns (q1: bv64, q2: bv64)
    requires 0 < g < 4
    ensures forall c: bv64 {:trigger Stamp(q1, q2, c)} :: c < 64 ==>
      Stamp(q1, q2, c) == if Stamp(p1, p2, c) == g then 0 else Stamp(p1, p2, c)
  {
    q1 := WipedFirst(p1, p2, Low(g), High(g));
    q2 := WipedSecond(p1, p2, Low(g), High(g));
    forall c: bv64 | c < 64 ensures Stamp(q1, q2, c) == if Stamp(p1, p2, c) == g then 0 else Stamp(p1, p2, c) {
      StampGone(p1, p2, q1, q2, g, c);
    }
  }

  // ----- The filter -----

  class RollingBloomFilter {
    const nEntriesPerGeneration: nat
    var nEntriesThisGeneration: nat
    var nGeneration: nat
    const data: array<bv64>
    const nHashFuncs: nat
    var hash: (nat, Key) -> bv32           // the hash functions with the current tweak
    ghost var log: seq<Key>                // all keys inserted since the last reset

    /** The number at a position. */
    function StampAt(p: Position): nat
      reads data
      requires 2 * p.pair + 1 < data.Length && p.bit < 64
    {
      Stamp(data[2 * p.pair], data[2 * p.pair + 1], p.bit)
    }

    ghost predicate InRange(p: Position)
    {
      2 * p.pair + 1 < data.Length && p.bit < 64
    }

    ghost predicate Sized()
    {
      data.Length > 0 && data.Length % 2 == 0 && nEntriesPerGeneration > 0
    }

    ghost function Expected(keys: seq<Key>, current: nat, p: Position): nat
      reads this`hash
      requires Sized()
    {
      Shown(LastTouch(hash, nHashFuncs, data.Length, keys, nEntriesPerGeneration, p), current)
    }

    ghost predicate ShowsAt(keys: seq<Key>, current: nat, p: Position)
      reads this`hash, data
      requires Sized() && InRange(p)
    {
      StampAt(p) == Expected(keys, current, p)
    }

    ghost predicate Shows(keys: seq<Key>, current: nat)
      reads this`hash, data
      requires Sized()
    {
      forall p {:trigger ShowsAt(keys, current, p)} :: InRange(p) ==> ShowsAt(keys, current, p)
    }

    ghost predicate Valid()
      reads this, data
    {
      && Sized()
      && nEntriesThisGeneration <= nEntriesPerGeneration
      && nGeneration == Wrapped(CurrentGeneration(|log|, nEntriesPerGeneration))
      && Counts(|log|, nEntriesPerGeneration, nEntriesThisGeneration, CurrentGeneration(|log|, nEntriesPerGeneration))
      && Shows(log, CurrentGeneration(|log|, nEntriesPerGeneration))
    }

    /** A filter for nElements keys, with the number of words and hash functions computed elsewhere. */
    constructor (nElements: nat, size: nat, nHashFuncs: nat, hash: (nat, Key) -> bv32)
      requires nElements > 0 && size > 0 && size % 2 == 0
      ensures Valid() && log == [] && nElements <= 2 * nEntriesPerGeneration
      ensures this.hash == hash && this.nHashFuncs == nHashFuncs && data.Length == size && fresh(data)
    {
      nEntriesPerGeneration := (nElements + 1) / 2;
      data := new bv64[size](_ => 0);
      this.nHashFuncs, this.hash := nHashFuncs, hash;
      nEntriesThisGeneration, nGeneration := 0, 1;
      log := [];
      new;
      forall p | InRange(p) ensures ShowsAt(log, 1, p) { ZeroStamp(p.bit); }
    }

    method SetBit(i: nat, b: bv64, g: bv64)
      requires i < data.Length && b < 64 && g < 2
      modifies data
      ensures forall j :: 0 <= j < data.Length && j != i ==> data[j] == old(data[j])
      ensures forall c: bv64 {:trigger BitOf(data[i], c)} :: c < 64 ==>
        BitOf(data[i], c) == if c == b then g else old(BitOf(data[i], c))
    {
      data[i] := SetWord(data[i], b, g);
    }

    /** Write a generation number at a position. */
    method SetStamp(p: Position, g: nat)
      requires InRange(p) && 0 < g < 4
      modifies data
      ensures forall q {:trigger StampAt(q)} :: InRange(q) ==> StampAt(q) == if q == p then g else old(StampAt(q))
    {
      SetBit(2 * p.pair, p.bit, Low(g));
      SetBit(2 * p.pair + 1, p.bit, High(g));
      forall q | InRange(q) ensures StampAt(q) == if q == p then g else old(StampAt(q)) {
        if q.pair == p.pair {
          assert BitOf(data[2 * q.pair], q.bit) ==
            if q.bit == p.bit then Low(g) else old(BitOf(data[2 * q.pair], q.bit));
          assert BitOf(data[2 * q.pair + 1], q.bit) ==
            if q.bit == p.bit then High(g) else old(BitOf(data[2 * q.pair + 1], q.bit));
        }
      }
    }

    /** Clear one pair of words where it holds a generation number. */
    method WipePair(i: nat, g: nat)
      requires 2 * i + 1 < data.Length && 0 < g < 4
      modifies data
      ensures forall q {:trigger StampAt(q)} :: InRange(q) ==>
        StampAt(q) == if q.pair == i && old(StampAt(q)) == g then 0 else old(StampAt(q))
    {
      var q1, q2 := WipedPair(data[2 * i], data[2 * i + 1], g);
      data[2 * i] := q1;
      data[2 * i + 1] := q2;
      forall q | InRange(q) ensures StampAt(q) == if q.pair == i && old(StampAt(q)) == g then 0 else old(StampAt(q)) {
        if q.pair == i {
          assert StampAt(q) == Stamp(q1, q2, q.bit);
        } else {
          OtherPair(q.pair, i);
          assert data[2 * q.pair] == old(data[2 * q.pair]) && data[2 * q.pair + 1] == old(data[2 * q.pair + 1]);
        }
      }
    }

    /** Clear all positions that hold a generation number. */
    method Wipe(g: nat)
      requires data.Length % 2 == 0 && 0 < g < 4
      modifies data
      ensures forall q {:trigger StampAt(q)} :: InRange(q) ==>
        StampAt(q) == if old(StampAt(q)) == g then 0 else old(StampAt(q))
    {
      for i := 0 to data.Length / 2
        invariant forall q {:trigger StampAt(q)} :: InRange(q) ==>
          StampAt(q) == if q.pair < i && old(StampAt(q)) == g then 0 else old(StampAt(q))
      {
        WipePair(i, g);
      }
    }

    /** Clear the entries of the oldest generation, whose number is about to be used again. */
    method WipeOldest(g: nat, ghost current: nat)
      requires Sized() && Shows(log, current) && current == CurrentGeneration(|log|, nEntriesPerGeneration)
      requires g == Wrapped(current + 1)
      modifies data
      ensures Shows(log, current + 1)
    {
      Wipe(g);
      ghost var next := current + 1;
      forall p | InRange(p) ensures ShowsAt(log, next, p) {
        assert old(ShowsAt(log, current, p));
        LastTouchBound(hash, nHashFuncs, data.Length, log, nEntriesPerGeneration, p);
        ShownNext(LastTouch(hash, nHashFuncs, data.Length, log, nEntriesPerGeneration, p), current);
      }
    }

    /** Turn to the next generation if the current one is full. */
    method Turn()
      requires Valid()
      modifies this`nEntriesThisGeneration, this`nGeneration, data
      ensures Sized() && Shows(log, GenerationOf(|log|, nEntriesPerGeneration))
      ensures nGeneration == Wrapped(GenerationOf(|log|, nEntriesPerGeneration))
      ensures Counts(|log|, nEntriesPerGeneration, nEntriesThisGeneration, GenerationOf(|log|, nEntriesPerGeneration))
      ensures nEntriesThisGeneration < nEntriesPerGeneration
    {
      ghost var current := CurrentGeneration(|log|, nEntriesPerGeneration);
      TurnCounts(|log|, nEntriesPerGeneration, nEntriesThisGeneration, current);
      if nEntriesThisGeneration == nEntriesPerGeneration {
        nEntriesThisGeneration := 0;
        nGeneration := nGeneration + 1;
        if nGeneration == 4 {
          nGeneration := 1;
        }
        WipeOldest(nGeneration, current);
      }
    }

    /** Stamp the positions of a key. */
    method Mark(vKey: Key)
      requires Sized() && Shows(log, GenerationOf(|log|, nEntriesPerGeneration))
      requires nGeneration == Wrapped(GenerationOf(|log|, nEntriesPerGeneration))
      modifies data
      ensures Shows(log + [vKey], GenerationOf(|log|, nEntriesPerGeneration))
    {
      ghost var current := GenerationOf(|log|, nEntriesPerGeneration);
      forall q | InRange(q) ensures MarkedAt(vKey, 0, current, q) { assert ShowsAt(log, current, q); }
      for n := 0 to nHashFuncs
        invariant forall p {:trigger MarkedAt(vKey, n, current, p)} :: InRange(p) ==> MarkedAt(vKey, n, current, p)
      {
        var p := PositionOf(hash(n, vKey), data.Length);
        label before:
        SetStamp(p, nGeneration);
        forall q | InRange(q) ensures MarkedAt(vKey, n + 1, current, q) {
          assert old@before(MarkedAt(vKey, n, current, q));
          assert Touches(hash, n + 1, data.Length, vKey, q) <==> Touches(hash, n, data.Length, vKey, q) || q == p;
        }
      }
      forall p | InRange(p) ensures ShowsAt(log + [vKey], current, p) {
        assert MarkedAt(vKey, nHashFuncs, current, p);
        assert (log + [vKey])[..|log|] == log;
      }
    }

    /** A position once the first n hash functions have been applied. */
    ghost predicate MarkedAt(vKey: Key, n: nat, current: nat, p: Position)
      reads data, this`log, this`hash
      requires Sized() && InRange(p) && current > 0
    {
      StampAt(p) == if Touches(hash, n, data.Length, vKey, p) then Wrapped(current) else Expected(log, current, p)
    }

    /** Insert a key. */
    method Insert(vKey: Key)
      requires Valid()
      modifies this`nEntriesThisGeneration, this`nGeneration, this`log, data
      ensures Valid() && log == old(log) + [vKey]
    {
      Turn();
      nEntriesThisGeneration := nEntriesThisGeneration + 1;
      Mark(vKey);
      log := log + [vKey];
    }

    /**
      A key is reported exactly when all of its positions were touched in the current or one of the
      two previous generations; in particular every key among the last 2 * nEntriesPerGeneration.
     */
    method Contains(vKey: Key) returns (found: bool)
      requires Valid()
      ensures found <==> forall n :: 0 <= n < nHashFuncs ==>
        Expected(log, CurrentGeneration(|log|, nEntriesPerGeneration), PositionOf(hash(n, vKey), data.Length)) != 0
      ensures forall i :: 0 <= i < |log| && |log| <= i + 2 * nEntriesPerGeneration && log[i] == vKey ==> found
    {
      ghost var current := CurrentGeneration(|log|, nEntriesPerGeneration);
      found := true;
      for n := 0 to nHashFuncs
        invariant found
        invariant forall k :: 0 <= k < n ==> Expected(log, current, PositionOf(hash(k, vKey), data.Length)) != 0
      {
        var p := PositionOf(hash(n, vKey), data.Length);
        assert ShowsAt(log, current, p);
        found := IsSet(p);
        if !found { break; }
      }
      forall i | 0 <= i < |log| && |log| <= i + 2 * nEntriesPerGeneration && log[i] == vKey ensures found {
        RecentlyInserted(log, i);
      }
    }

    /** Whether either bit of a position is set. */
    method IsSet(p: Position) returns (r: bool)
      requires InRange(p)
      ensures r == (StampAt(p) != 0)
    {
      StampSeen(data[2 * p.pair], data[2 * p.pair + 1], p.bit);
      r := ((data[2 * p.pair] | data[2 * p.pair + 1]) >> p.bit) & 1 != 0;
    }

    lemma RecentlyInserted(keys: seq<Key>, i: nat)
      requires Sized() && i < |keys| && |keys| <= i + 2 * nEntriesPerGeneration
      ensures forall n :: 0 <= n < nHashFuncs ==>
        Expected(keys, CurrentGeneration(|keys|, nEntriesPerGeneration), PositionOf(hash(n, keys[i]), data.Length)) != 0
    {
      forall n | 0 <= n < nHashFuncs
        ensures Expected(keys, CurrentGeneration(|keys|, nEntriesPerGeneration),
                 PositionOf(hash(n, keys[i]), data.Length)) != 0
      {
        RecentlyTouched(keys, i, PositionOf(hash(n, keys[i]), data.Length));
      }
    }

    lemma RecentlyTouched(keys: seq<Key>, i: nat, p: Position)
      requires Sized() && i < |keys| && |keys| <= i + 2 * nEntriesPerGeneration
      requires Touches(hash, nHashFuncs, data.Length, keys[i], p)
      ensures Expected(keys, CurrentGeneration(|keys|, nEntriesPerGeneration), p) != 0
    {
      RecentGeneration(i, |keys|, nEntriesPerGeneration);
      TouchedSince(hash, nHashFuncs, data.Length, keys, nEntriesPerGeneration, i, p);
      ShownRecent(LastTouch(hash, nHashFuncs, data.Length, keys, nEntriesPerGeneration, p),
                  GenerationOf(i, nEntriesPerGeneration), CurrentGeneration(|keys|, nEntriesPerGeneration));
    }

    /** Forget everything, and hash with another tweak from now on. */
    method Reset(tweaked: (nat, Key) -> bv32)
      requires Sized()
      modifies this`hash, this`nEntriesThisGeneration, this`nGeneration, this`log, data
      ensures Valid() && log == [] && hash == tweaked
    {
      hash := tweaked;
      for i := 0 to data.Length
        modifies data
        invariant forall j :: 0 <= j < i ==> data[j] == 0
      {
        data[i] := 0;
      }
      nEntriesThisGeneration, nGeneration, log := 0, 1, [];
      forall p | InRange(p) ensures ShowsAt(log, 1, p) { ZeroStamp(p.bit); }
    }
  }

  /** n insertions are full generations before the current one, and those of the current one. */
  predicate Counts(n: nat, perGeneration: nat, thisGeneration: nat, current: nat)
  {
    n == (current - 1) * perGeneration + thisGeneration
  }

  /** The counters after the decision whether to turn. */
  lemma TurnCounts(n: nat, perGeneration: nat, thisGeneration: nat, current: nat)
    requires perGeneration > 0 && thisGeneration <= perGeneration && current == CurrentGeneration(n, perGeneration)
    requires Counts(n, perGeneration, thisGeneration, current)
    ensures thisGeneration == perGeneration ==>
      GenerationOf(n, perGeneration) == current + 1 && Counts(n, perGeneration, 0, current + 1)
    ensures thisGeneration < perGeneration ==> GenerationOf(n, perGeneration) == current
  {
    if thisGeneration == perGeneration {
      assert n == current * perGeneration;
      QuotientIs(n, perGeneration, current, 0);
    } else {
      QuotientIs(n, perGeneration, current - 1, thisGeneration);
    }
  }

  lemma StampGone(a: bv64, b: bv64, x: bv64, y: bv64, g: nat, c: bv64)
    requires c < 64 && 0 < g < 4
    requires BitOf(x, c) == if BitOf(a, c) == Low(g) && BitOf(b, c) == High(g) then 0 else BitOf(a, c)
    requires BitOf(y, c) == if BitOf(a, c) == Low(g) && BitOf(b, c) == High(g) then 0 else BitOf(b, c)
    ensures Stamp(x, y, c) == if Stamp(a, b, c) == g then 0 else Stamp(a, b, c)
  {
    BitBinary(a, c);
    BitBinary(b, c);
  }

  lemma OtherPair(i: nat, j: nat)
    requires i != j
    ensures 2 * i != 2 * j && 2 * i + 1 != 2 * j && 2 * i != 2 * j + 1
  {
  }

  lemma ZeroStamp(c: bv64)
    requires c < 64
    ensures Stamp(0, 0, c) == 0
  {
  }
}
