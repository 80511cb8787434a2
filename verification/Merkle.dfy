/**
  Merkle roots: the definition level by level, the calculation in constant space with its flag for
  repeated subtrees, and branches. The hash of two concatenated hashes is the parameter `hash`.
 */
module Merkle {
  import opened Numbers

  // ----- Level by level -----

  /** Neighbours are hashed together; the last of an odd number is paired with itself. */
  function Combined<H>(hash: (H, H) -> H, s: seq<H>, i: nat): H
    requires 2 * i < |s|
  {
    if 2 * i + 1 < |s| then hash(s[2 * i], s[2 * i + 1]) else hash(s[2 * i], s[2 * i])
  }

  function NextLevel<H>(hash: (H, H) -> H, s: seq<H>): (r: seq<H>)
    ensures |r| == (|s| + 1) / 2
  {
    seq((|s| + 1) / 2, i requires 0 <= i < (|s| + 1) / 2 => Combined(hash, s, i))
  }

  /** The root is what is left when one is left. */
  function Root<H>(hash: (H, H) -> H, s: seq<H>): H
    requires |s| > 0
    decreases |s|
  {
    if |s| == 1 then s[0] else Root(hash, NextLevel(hash, s))
  }

  function Level<H>(hash: (H, H) -> H, s: seq<H>, l: nat): (r: seq<H>)
    ensures |s| > 0 ==> |r| > 0
  {
    if l == 0 then s else NextLevel(hash, Level(hash, s, l - 1))
  }

  lemma PairedUp<H>(hash: (H, H) -> H, s: seq<H>, l: nat, q: nat)
    requires 2 * q + 1 < |Level(hash, s, l)|
    ensures q < |Level(hash, s, l + 1)|
    ensures Level(hash, s, l + 1)[q] == hash(Level(hash, s, l)[2 * q], Level(hash, s, l)[2 * q + 1])
  {
    var x := Level(hash, s, l);
    assert NextLevel(hash, x)[q] == Combined(hash, x, q);
  }

  lemma PairedWithItself<H>(hash: (H, H) -> H, s: seq<H>, l: nat, q: nat)
    requires 2 * q + 1 == |Level(hash, s, l)|
    ensures q + 1 == |Level(hash, s, l + 1)|
    ensures Level(hash, s, l + 1)[q] == hash(Level(hash, s, l)[2 * q], Level(hash, s, l)[2 * q])
  {
    var x := Level(hash, s, l);
    assert NextLevel(hash, x)[q] == Combined(hash, x, q);
  }

  /** As long as more than one is left, going up a level keeps the root. */
  lemma {:induction false} RootOfLevel<H>(hash: (H, H) -> H, s: seq<H>, l: nat)
    requires |s| > 0 && (l > 0 ==> |Level(hash, s, l - 1)| > 1)
    ensures Root(hash, Level(hash, s, l)) == Root(hash, s)
  {
    if l > 0 { RootOfLevel(hash, s, l - 1); }
  }

  // ----- Binary numbers -----

  /** A number shifted to the right. */
  function Shifted(c: nat, l: nat): nat
  {
    if l == 0 then c else Shifted(c, l - 1) / 2
  }

  /** How many complete subtrees of 2^l leaves there are. */
  lemma {:induction false} CompleteNodes<H>(hash: (H, H) -> H, s: seq<H>, l: nat)
    ensures Shifted(|s|, l) <= |Level(hash, s, l)| <= Shifted(|s|, l) + 1
  {
    if l > 0 { CompleteNodes(hash, s, l - 1); }
  }

  lemma {:induction false} ShiftedMonotone(c: nat, d: nat, l: nat)
    requires c <= d
    ensures Shifted(c, l) <= Shifted(d, l)
  {
    if l > 0 { ShiftedMonotone(c, d, l - 1); }
  }

  predicate BitIsZero(c: nat, k: nat) { Shifted(c, k) % 2 == 0 }

  /** Bits below l are zero. */
  ghost predicate LowZero(c: nat, l: nat)
  {
    forall k: nat {:trigger BitIsZero(c, k)} :: k < l ==> BitIsZero(c, k)
  }

  lemma {:induction false} LowZeroIs(c: nat, l: nat)
    requires LowZero(c, l)
    ensures c == Shifted(c, l) * Pow2(l)
  {
    if l > 0 {
      LowZeroIs(c, l - 1);
      var x := Shifted(c, l - 1);
      assert BitIsZero(c, l - 1);
      MulAssoc(x / 2, 2, Pow2(l - 1));
    }
  }

  /** Adding 1 carries through the zeros that it leaves. */
  lemma {:induction false} CarryLow(c: nat, l: nat)
    requires LowZero(c + 1, l)
    ensures Shifted(c + 1, l) == Shifted(c, l) + 1
  {
    if l > 0 {
      CarryLow(c, l - 1);
      assert BitIsZero(c + 1, l - 1);
    }
  }

  /** Beyond the first one it leaves, adding 1 changes nothing. */
  lemma {:induction false} CarryHigh(c: nat, l: nat, k: nat)
    requires LowZero(c + 1, l) && Shifted(c + 1, l) % 2 == 1 && l < k
    ensures Shifted(c + 1, k) == Shifted(c, k)
    decreases k
  {
    if k == l + 1 { CarryLow(c, l); } else { CarryHigh(c, l, k - 1); }
  }

  lemma {:induction false} ShiftedBounds(c: nat, l: nat)
    ensures Shifted(c, l) * Pow2(l) <= c < (Shifted(c, l) + 1) * Pow2(l)
  {
    if l > 0 {
      ShiftedBounds(c, l - 1);
      var x, p := Shifted(c, l - 1), Pow2(l - 1);
      MulAssoc(x / 2, 2, p);
      MulAssoc(x / 2 + 1, 2, p);
      MulMonotone(x / 2 * 2, x, p);
      MulMonotone(x + 1, (x / 2 + 1) * 2, p);
    }
  }

  // ----- Widths -----

  const WORD: nat := 0x1_0000_0000

  /** Addition of 32-bit numbers. */
  function Add32(a: nat, b: nat): nat { if a + b < WORD then a + b else a + b - WORD }

  /** How many entries a level has. */
  function Width(n: nat, l: nat): nat
  {
    if l == 0 then n else (Width(n, l - 1) + 1) / 2
  }

  lemma {:induction false} WidthOfLevel<H>(hash: (H, H) -> H, s: seq<H>, l: nat)
    ensures |Level(hash, s, l)| == Width(|s|, l)
  {
    if l > 0 { WidthOfLevel(hash, s, l - 1); }
  }

  lemma {:induction false} WidthMonotone(m: nat, n: nat, l: nat)
    requires m <= n
    ensures Width(m, l) <= Width(n, l)
  {
    if l > 0 { WidthMonotone(m, n, l - 1); }
  }

  lemma {:induction false} WidthOfPower(k: nat, l: nat)
    requires l <= k
    ensures Width(Pow2(k), l) == Pow2(k - l) && Pow2(k - l) * Pow2(l) == Pow2(k)
  {
    if l > 0 {
      WidthOfPower(k, l - 1);
      MulAssoc(Pow2(k - l), 2, Pow2(l - 1));
    }
  }

  lemma Power31()
    ensures Pow2(31) == 0x8000_0000
  {
    assert Pow2(8) == 256;
    assert Pow2(16) == 65536;
    assert Pow2(24) == 0x100_0000;
  }

  /** The counter of the sweep stays within 32 bits if there are at most 2^31 leaves. */
  lemma CounterFits(n: nat, l: nat)
    requires n <= 0x8000_0000 && l <= 31
    ensures Width(n, l) * Pow2(l) <= 0x8000_0000
  {
    Power31();
    WidthOfPower(31, l);
    WidthMonotone(n, Pow2(31), l);
    MulMonotone(Width(n, l), Pow2(31 - l), Pow2(l));
  }

  /** With more leaves it does not: at level 31 it is 2^32. */
  lemma CounterWraps(n: nat)
    requires 0x8000_0000 < n < WORD
    ensures Width(n, 31) * Pow2(31) == WORD
  {
    Power31();
    WidthOfPower(32, 31);
    WidthMonotone(n, Pow2(32), 31);
    WidthAbove(31, n);
  }

  lemma {:induction false} WidthAbove(l: nat, n: nat)
    requires n > Pow2(l)
    ensures Width(n, l) > 1
  {
    if l > 0 { WidthLater(n, l); WidthAbove(l - 1, (n + 1) / 2); }
  }

  lemma {:induction false} WidthLater(n: nat, l: nat)
    requires l > 0
    ensures Width(n, l) == Width((n + 1) / 2, l - 1)
  {
    if l > 1 { WidthLater(n, l - 1); }
  }

  // ----- The calculation -----

  /** What the subtree hash kept for a level is, if the count has that bit. */
  ghost predicate InnerAt<H>(hash: (H, H) -> H, s: seq<H>, inner: seq<H>, c: nat, l: nat)
  {
    Shifted(c, l) % 2 == 1 ==>
      l < |inner| && Shifted(c, l) <= |Level(hash, s, l)| && inner[l] == Level(hash, s, l)[Shifted(c, l) - 1]
  }

  ghost predicate InnerOk<H>(hash: (H, H) -> H, s: seq<H>, inner: seq<H>, c: nat)
  {
    |inner| == 32 && forall l: nat {:trigger InnerAt(hash, s, inner, c, l)} :: InnerAt(hash, s, inner, c, l)
  }

  /** The complete subtrees 2 q and 2 q + 1 of the first c leaves at a level have one hash. */
  ghost predicate Twins<H>(hash: (H, H) -> H, s: seq<H>, c: nat, l: nat, q: nat)
  {
    2 * q + 2 <= Shifted(c, l) && Shifted(c, l) <= |Level(hash, s, l)| &&
    Level(hash, s, l)[2 * q] == Level(hash, s, l)[2 * q + 1]
  }

  ghost predicate HasTwins<H(!new)>(hash: (H, H) -> H, s: seq<H>, c: nat)
  {
    exists l: nat, q: nat :: Twins(hash, s, c, l, q)
  }

  /** The hash in hand is that of the node after the complete ones of c leaves. */
  ghost predicate InHand<H>(hash: (H, H) -> H, s: seq<H>, c: nat, l: nat, h: H)
  {
    Shifted(c, l) < |Level(hash, s, l)| && h == Level(hash, s, l)[Shifted(c, l)]
  }

  /** The complete node before that in hand has the same hash. */
  ghost predicate TwinInHand<H>(hash: (H, H) -> H, s: seq<H>, c: nat, l: nat)
  {
    0 < Shifted(c, l) < |Level(hash, s, l)| && Level(hash, s, l)[Shifted(c, l) - 1] == Level(hash, s, l)[Shifted(c, l)]
  }

  /** Hashing it with the node before it. */
  lemma HandMerged<H>(hash: (H, H) -> H, s: seq<H>, inner: seq<H>, c: nat, l: nat, h: H)
    requires InnerAt(hash, s, inner, c, l) && InHand(hash, s, c, l, h) && Shifted(c, l) % 2 == 1
    ensures l < |inner| && InHand(hash, s, c, l + 1, hash(inner[l], h))
    ensures TwinInHand(hash, s, c, l) <==> inner[l] == h
  {
    PairedUp(hash, s, l, Shifted(c, l) / 2);
  }

  // ----- Branches -----

  lemma {:induction false} AncestorIsNode<H>(hash: (H, H) -> H, s: seq<H>, p: nat, l: nat)
    requires p < |s|
    ensures Shifted(p, l) < |Level(hash, s, l)|
  {
    if l > 0 { AncestorIsNode(hash, s, p, l - 1); }
  }

  /** The node that a node is hashed with. */
  function Sibling<H>(v: seq<H>, x: nat): H
    requires x < |v|
  {
    if x % 2 == 1 then v[x - 1] else if x + 1 < |v| then v[x + 1] else v[x]
  }

  /** The siblings of the ancestors of leaf p below a level. */
  function BranchTo<H>(hash: (H, H) -> H, s: seq<H>, p: nat, l: nat): (r: seq<H>)
    requires p < |s|
    ensures |r| == l
  {
    if l == 0 then []
    else
      AncestorIsNode(hash, s, p, l - 1);
      BranchTo(hash, s, p, l - 1) + [Sibling(Level(hash, s, l - 1), Shifted(p, l - 1))]
  }

  /** The match level is that of the kept subtree with leaf p, and the branch goes up to there. */
  ghost predicate Tracked<H>(hash: (H, H) -> H, s: seq<H>, c: nat, p: nat, matchLevel: int, branch: seq<H>)
  {
    if p < c then
      && p < |s| && matchLevel >= 0 && Shifted(c, matchLevel) % 2 == 1
      && Shifted(p, matchLevel) + 1 == Shifted(c, matchLevel) && branch == BranchTo(hash, s, p, matchLevel)
    else matchLevel == -1 && branch == []
  }

  /** The same while a node at a level is in hand; `matched` is whether it has leaf p. */
  ghost predicate Rising<H>(hash: (H, H) -> H, s: seq<H>, c: nat, p: nat, l: nat, matched: bool, matchLevel: int,
                            branch: seq<H>)
  {
    if matched then p < |s| && Shifted(p, l) == Shifted(c, l) && branch == BranchTo(hash, s, p, l)
    else if p < c then Tracked(hash, s, c, p, matchLevel, branch) && matchLevel >= l
    else matchLevel == -1 && branch == []
  }

  lemma RisingMerged<H>(hash: (H, H) -> H, s: seq<H>, c: nat, p: nat, l: nat, matched: bool, matchLevel: int,
                        branch: seq<H>, left: H, h: H)
    requires Rising(hash, s, c, p, l, matched, matchLevel, branch) && InHand(hash, s, c, l, h)
    requires Shifted(c, l) % 2 == 1 && left == Level(hash, s, l)[Shifted(c, l) - 1]
    ensures Rising(hash, s, c, p, l + 1, matched || matchLevel == l, matchLevel,
                   if matched then branch + [left] else if matchLevel == l then branch + [h] else branch)
  {
    if matched || matchLevel == l { AncestorIsNode(hash, s, p, l); }
  }

  lemma CarryOn(count: nat, c: nat, l: nat)
    requires LowZero(count, l) && Shifted(count, l) == Shifted(c, l) + 1 && Shifted(count, l) % 2 == 0
    ensures LowZero(count, l + 1) && Shifted(count, l + 1) == Shifted(c, l + 1) + 1
    ensures Shifted(count, l + 1) < Shifted(count, l)
  {
  }

  ghost predicate TwinsBetween<H>(hash: (H, H) -> H, s: seq<H>, c: nat, l0: nat, l: nat)
  {
    exists k: nat :: l0 <= k < l && TwinInHand(hash, s, c, k)
  }

  lemma TwinsOnce<H>(hash: (H, H) -> H, s: seq<H>, c: nat, l0: nat, l: nat)
    requires l0 <= l
    ensures !TwinsBetween(hash, s, c, l0, l0)
    ensures TwinsBetween(hash, s, c, l0, l + 1) <==> TwinsBetween(hash, s, c, l0, l) || TwinInHand(hash, s, c, l)
  {
  }

  /** The while loop of both phases: combine the hash in hand with those kept, for each zero bit of the count. */
  method Climb<H(==)>(hash: (H, H) -> H, ghost s: seq<H>, inner: seq<H>, count: nat, ghost c: nat, h0: H, l0: nat,
                      p: nat, matched0: bool, matchLevel: int, branch0: seq<H>)
    returns (h: H, level: nat, twin: bool, matched: bool, branch: seq<H>)
    requires InnerOk(hash, s, inner, c) && InHand(hash, s, c, l0, h0) && Shifted(count, l0) == Shifted(c, l0) + 1
    requires LowZero(count, l0) && Rising(hash, s, c, p, l0, matched0, matchLevel, branch0)
    ensures l0 <= level && LowZero(count, level) && Shifted(count, level) % 2 == 1
    ensures InHand(hash, s, c, level, h) && Shifted(count, level) == Shifted(c, level) + 1
    ensures (twin <==> TwinsBetween(hash, s, c, l0, level)) && (matched0 ==> matched)
    ensures Rising(hash, s, c, p, level, matched, matchLevel, branch)
  {
    h, level, twin, matched, branch := h0, l0, false, matched0, branch0;
    while Shifted(count, level) % 2 == 0
      invariant l0 <= level && LowZero(count, level) && Shifted(count, level) == Shifted(c, level) + 1
      invariant InHand(hash, s, c, level, h)
      invariant twin <==> TwinsBetween(hash, s, c, l0, level)
      invariant Rising(hash, s, c, p, level, matched, matchLevel, branch) && (matched0 ==> matched)
      decreases Shifted(count, level)
    {
      assert InnerAt(hash, s, inner, c, level);
      CarryOn(count, c, level);
      TwinsOnce(hash, s, c, l0, level);
      RisingMerged(hash, s, c, p, level, matched, matchLevel, branch, inner[level], h);
      HandMerged(hash, s, inner, c, level, h);
      if matched {
        branch := branch + [inner[level]];
      } else if matchLevel == level {
        branch := branch + [h];
        matched := true;
      }
      twin := twin || inner[level] == h;
      h := hash(inner[level], h);
      level := level + 1;
    }
  }

  // ----- First phase: one leaf after another -----

  /** Where the carry stops the hash in hand is kept. */
  lemma InnerStored<H>(hash: (H, H) -> H, s: seq<H>, inner: seq<H>, c: nat, l: nat, h: H)
    requires InnerOk(hash, s, inner, c) && LowZero(c + 1, l) && Shifted(c + 1, l) % 2 == 1 && l < 32
    requires InHand(hash, s, c, l, h) && Shifted(c + 1, l) == Shifted(c, l) + 1
    ensures InnerOk(hash, s, inner[l := h], c + 1)
  {
    var inner', c' := inner[l := h], c + 1;
    forall k: nat ensures InnerAt(hash, s, inner', c', k) {
      assert InnerAt(hash, s, inner, c, k);
      if k > l {
        CarryHigh(c, l, k);
      } else if k < l {
        assert BitIsZero(c', k);
      }
    }
  }

  lemma RisingStored<H>(hash: (H, H) -> H, s: seq<H>, c: nat, p: nat, l: nat, matched: bool, matchLevel: int,
                        branch: seq<H>)
    requires Rising(hash, s, c, p, l, matched, matchLevel, branch) && LowZero(c + 1, l) && Shifted(c + 1, l) % 2 == 1
    requires matched || p != c
    ensures Tracked(hash, s, c + 1, p, if matched then l else matchLevel, branch)
  {
    CarryLow(c, l);
    if matched {
      ShiftedBounds(p, l);
      LowZeroIs(c + 1, l);
    } else if p < c && matchLevel > l {
      CarryHigh(c, l, matchLevel);
    }
  }

  lemma CountedNodes<H>(hash: (H, H) -> H, s: seq<H>, c: nat, l: nat)
    requires c <= |s|
    ensures Shifted(c, l) <= |Level(hash, s, l)|
  {
    CompleteNodes(hash, s, l);
    ShiftedMonotone(c, |s|, l);
  }

  lemma TwinsBefore<H>(hash: (H, H) -> H, s: seq<H>, c: nat, l: nat, k: nat, q: nat)
    requires c < |s| && LowZero(c + 1, l) && Shifted(c + 1, l) % 2 == 1 && Twins(hash, s, c + 1, k, q)
    ensures Twins(hash, s, c, k, q) || (k < l && TwinInHand(hash, s, c, k))
  {
    if k <= l { CarryLow(c, k); } else { CarryHigh(c, l, k); }
    if Shifted(c, k) < 2 * q + 2 {
      assert Shifted(c, k) == 2 * q + 1;
    }
  }

  lemma TwinsStay<H>(hash: (H, H) -> H, s: seq<H>, c: nat, k: nat, q: nat)
    requires c < |s| && Twins(hash, s, c, k, q)
    ensures Twins(hash, s, c + 1, k, q)
  {
    ShiftedMonotone(c, c + 1, k);
    CountedNodes(hash, s, c + 1, k);
  }

  lemma TwinsCome<H>(hash: (H, H) -> H, s: seq<H>, c: nat, l: nat, k: nat)
    requires c < |s| && LowZero(c + 1, l) && k < l && TwinInHand(hash, s, c, k)
    ensures Twins(hash, s, c + 1, k, Shifted(c, k) / 2)
  {
    CarryLow(c, k);
    CountedNodes(hash, s, c + 1, k);
    var q := Shifted(c, k) / 2;
    assert BitIsZero(c + 1, k);
    assert Shifted(c, k) == 2 * q + 1;
  }

  /** New twins are those that were hashed. */
  lemma TwinsAdded<H(!new)>(hash: (H, H) -> H, s: seq<H>, c: nat, l: nat)
    requires c < |s| && LowZero(c + 1, l) && Shifted(c + 1, l) % 2 == 1
    ensures HasTwins(hash, s, c + 1) <==> HasTwins(hash, s, c) || TwinsBetween(hash, s, c, 0, l)
  {
    var c' := c + 1;
    forall k: nat, q: nat | Twins(hash, s, c', k, q)
      ensures HasTwins(hash, s, c) || TwinsBetween(hash, s, c, 0, l)
    {
      TwinsBefore(hash, s, c, l, k, q);
    }
    forall k: nat, q: nat | Twins(hash, s, c, k, q) ensures HasTwins(hash, s, c + 1) { TwinsStay(hash, s, c, k, q); }
    forall k: nat | k < l && TwinInHand(hash, s, c, k) ensures HasTwins(hash, s, c + 1) { TwinsCome(hash, s, c, l, k); }
  }

  /** One more leaf. */
  method Absorb<H(==,!new)>(hash: (H, H) -> H, leaves: seq<H>, inner: seq<H>, c: nat, p: nat, matchLevel: int,
                            branch: seq<H>)
    returns (inner': seq<H>, twin: bool, matchLevel': int, branch': seq<H>)
    requires c < |leaves| < WORD && InnerOk(hash, leaves, inner, c)
    requires Tracked(hash, leaves, c, p, matchLevel, branch)
    ensures InnerOk(hash, leaves, inner', c + 1) && Tracked(hash, leaves, c + 1, p, matchLevel', branch')
    ensures HasTwins(hash, leaves, c + 1) <==> HasTwins(hash, leaves, c) || twin
  {
    var h, level, matched;
    h, level, twin, matched, branch' := Climb(hash, leaves, inner, c + 1, c, leaves[c], 0, p, c == p, matchLevel,
                                              branch);
    LevelFits(c + 1, level);
    InnerStored(hash, leaves, inner, c, level, h);
    inner' := inner[level := h];
    matchLevel' := if matched then level else matchLevel;
    RisingStored(hash, leaves, c, p, level, matched, matchLevel, branch');
    TwinsAdded(hash, leaves, c, level);
  }

  lemma LevelFits(c: nat, l: nat)
    requires 0 < c < WORD && Shifted(c, l) > 0
    ensures l < 32
  {
    if l >= 32 {
      ShiftedBounds(c, l);
      Power31();
      Pow2Grows(32, l);
      MulMonotone(1, Shifted(c, l), Pow2(l));
    }
  }

  // ----- Second phase: the right edge -----

  lemma {:induction false} ShiftedOfMultiple(c: nat, x: nat, l: nat)
    requires c == x * Pow2(l)
    ensures Shifted(c, l) == x && LowZero(c, l)
    decreases l
  {
    if l > 0 {
      MulAssoc(x, 2, Pow2(l - 1));
      ShiftedOfMultiple(c, 2 * x, l - 1);
      forall k: nat | k < l ensures BitIsZero(c, k) { assert Shifted(c, l - 1) == 2 * x; }
    }
  }

  /** While the width is even it is halved. */
  lemma {:induction false} EvenWidths(n: nat, count: nat, l0: nat, l: nat)
    requires l0 <= l && LowZero(count, l) && Shifted(count, l0) == Width(n, l0)
    ensures Shifted(count, l) == Width(n, l)
  {
    if l0 < l {
      EvenWidths(n, count, l0, l - 1);
      assert BitIsZero(count, l - 1);
    }
  }

  /** A level has an odd number of nodes, and the count is as if they were complete. */
  ghost predicate AtEdge(n: nat, l: nat, count: nat)
  {
    && l <= 31 && Width(n, l) % 2 == 1 && LowZero(count, l) && Shifted(count, l) == Width(n, l)
    && (l > 0 ==> Width(n, l - 1) > 1)
  }

  /** Doubling the last of w nodes at a level below 2^31 leaves. */
  lemma EdgeNumbers(w: nat, l: nat)
    requires w % 2 == 1 && w > 1 && w * Pow2(l) <= 0x8000_0000
    ensures l < 30 && w * Pow2(l) != Pow2(l) && w * Pow2(l) + Pow2(l) == (w + 1) / 2 * Pow2(l + 1)
  {
    var p := Pow2(l);
    MulMonotone(3, w, p);
    Power31();
    if l >= 30 { Pow2Grows(30, l); }
    MulAssoc((w + 1) / 2, 2, p);
    MulAdd(w, 1, p);
  }

  lemma EdgeDoubled(c: nat, w: nat, l: nat)
    requires w % 2 == 1 && w > 1 && c == w * Pow2(l) <= 0x8000_0000
    ensures c != Pow2(l) && c + Pow2(l) < WORD
    ensures Shifted(c + Pow2(l), l + 1) == (w + 1) / 2 && LowZero(c + Pow2(l), l + 1)
  {
    EdgeNumbers(w, l);
    ShiftedOfMultiple(c + Pow2(l), (w + 1) / 2, l + 1);
    MulMonotone(1, w, Pow2(l));
  }

  /** The count after doubling, with 32 bits. */
  lemma EdgeUp(n: nat, l: nat, count: nat)
    requires AtEdge(n, l, count) && n <= 0x8000_0000 && Width(n, l) > 1
    ensures count != Pow2(l) && count + Pow2(l) < WORD
    ensures Shifted(count + Pow2(l), l + 1) == Width(n, l + 1) && LowZero(count + Pow2(l), l + 1)
  {
    var w := Width(n, l);
    assert count == w * Pow2(l) <= 0x8000_0000 by {
      LowZeroIs(count, l);
      CounterFits(n, l);
    }
    EdgeDoubled(count, w, l);
  }

  lemma EdgeEnds(n: nat, l: nat, count: nat)
    requires AtEdge(n, l, count) && Width(n, l) == 1
    ensures count == Pow2(l)
  {
    LowZeroIs(count, l);
  }

  lemma StillWide(n: nat, l: nat, l': nat, count: nat)
    requires l < l' && Width(n, l) > 1 && Shifted(count, l + 1) == Width(n, l + 1)
    requires LowZero(count, l') && Shifted(count, l') > 0
    ensures Width(n, l' - 1) > 1
  {
    if l' > l + 1 { EvenWidths(n, count, l + 1, l' - 1); }
  }

  /** Where the climb from a doubled node ends. */
  lemma EdgeReached(n: nat, l: nat, l': nat, count: nat)
    requires l < l' <= 31 && Width(n, l) > 1 && Shifted(count, l + 1) == Width(n, l + 1)
    requires LowZero(count, l') && Shifted(count, l') % 2 == 1
    ensures AtEdge(n, l', count)
  {
    StillWide(n, l, l', count);
    EvenWidths(n, count, l + 1, l');
  }

  /** The last node of a level. */
  ghost predicate IsLast<H>(hash: (H, H) -> H, s: seq<H>, l: nat, h: H)
  {
    |Level(hash, s, l)| == Width(|s|, l) > 0 && h == Level(hash, s, l)[Width(|s|, l) - 1]
  }

  ghost predicate EdgeTracked<H>(hash: (H, H) -> H, s: seq<H>, p: nat, l: nat, matched: bool, matchLevel: int,
                                 branch: seq<H>)
  {
    if matched then p < |s| && Shifted(p, l) + 1 == Width(|s|, l) && branch == BranchTo(hash, s, p, l)
    else Tracked(hash, s, |s|, p, matchLevel, branch) && (p < |s| ==> matchLevel > l)
  }

  /** The last node of an odd level is hashed with itself. */
  lemma HandDoubled<H>(hash: (H, H) -> H, s: seq<H>, l: nat, h: H)
    requires Width(|s|, l) % 2 == 1 && IsLast(hash, s, l, h)
    ensures Width(|s|, l + 1) == Shifted(|s|, l + 1) + 1 && InHand(hash, s, |s|, l + 1, hash(h, h))
  {
    CompleteNodes(hash, s, l);
    PairedWithItself(hash, s, l, Width(|s|, l) / 2);
  }

  lemma RisingDoubled<H>(hash: (H, H) -> H, s: seq<H>, p: nat, l: nat, matched: bool, matchLevel: int, branch: seq<H>,
                         h: H)
    requires Width(|s|, l) % 2 == 1 && IsLast(hash, s, l, h)
    requires EdgeTracked(hash, s, p, l, matched, matchLevel, branch)
    ensures Rising(hash, s, |s|, p, l + 1, matched, matchLevel, if matched then branch + [h] else branch)
  {
    CompleteNodes(hash, s, l);
    if matched { AncestorIsNode(hash, s, p, l); }
  }

  lemma EdgeHeld<H>(hash: (H, H) -> H, s: seq<H>, l: nat, h: H, p: nat, matched: bool, matchLevel: int, branch: seq<H>)
    requires Width(|s|, l) % 2 == 1 && Width(|s|, l) == Shifted(|s|, l) + 1
    requires InHand(hash, s, |s|, l, h) && Rising(hash, s, |s|, p, l, matched, matchLevel, branch)
    ensures IsLast(hash, s, l, h) && EdgeTracked(hash, s, p, l, matched, matchLevel, branch)
  {
    WidthOfLevel(hash, s, l);
  }

  /** Hash the last node with itself, and go up as far as there are nodes to its left. */
  method Double<H(==)>(hash: (H, H) -> H, ghost s: seq<H>, inner: seq<H>, l: nat, h: H, count: nat, p: nat,
                       matched: bool, matchLevel: int, branch: seq<H>)
    returns (l': nat, h': H, count': nat, matched': bool, branch': seq<H>)
    requires |s| <= 0x8000_0000 && InnerOk(hash, s, inner, |s|) && AtEdge(|s|, l, count) && IsLast(hash, s, l, h)
    requires EdgeTracked(hash, s, p, l, matched, matchLevel, branch) && count != Pow2(l)
    ensures AtEdge(|s|, l', count') && IsLast(hash, s, l', h') && l < l'
    ensures EdgeTracked(hash, s, p, l', matched', matchLevel, branch')
  {
    if Width(|s|, l) == 1 { EdgeEnds(|s|, l, count); }
    EdgeUp(|s|, l, count);
    RisingDoubled(hash, s, p, l, matched, matchLevel, branch, h);
    HandDoubled(hash, s, l, h);
    branch' := if matched then branch + [h] else branch;
    count' := Add32(count, Pow2(l));
    assert count' == count + Pow2(l);
    var twin;
    h', l', twin, matched', branch' := Climb(hash, s, inner, count', |s|, hash(h, h), l + 1, p, matched, matchLevel,
                                             branch');
    LevelFits(count', l');
    EdgeReached(|s|, l, l', count');
    EdgeHeld(hash, s, l', h', p, matched', matchLevel, branch');
  }

  // ----- The whole calculation -----

  /** The lowest level with a one in the number of leaves. */
  method LowestBit(count: nat) returns (level: nat)
    requires count > 0
    ensures LowZero(count, level) && Shifted(count, level) % 2 == 1
  {
    level := 0;
    while Shifted(count, level) % 2 == 0
      invariant LowZero(count, level) && Shifted(count, level) > 0
      decreases Shifted(count, level)
    {
      level := level + 1;
    }
  }

  /** The height of a tree: the first level with one node. */
  ghost predicate IsHeight(n: nat, l: nat)
  {
    Width(n, l) == 1 && (l > 0 ==> Width(n, l - 1) > 1)
  }

  /**
    Root, flag and branch in constant space, for at most 2^31 leaves. The flag says whether two complete subtrees
    that are hashed together are the same; the branch is that of leaf `branchPos`, if there is one.
   */
  method MerkleComputation<H(==,!new)>(hash: (H, H) -> H, leaves: seq<H>, zero: H, branchPos: nat)
    returns (root: H, mutated: bool, branch: seq<H>, ghost height: nat)
    requires |leaves| <= 0x8000_0000
    ensures leaves == [] ==> root == zero && branch == []
    ensures leaves != [] ==> root == Root(hash, leaves) && IsHeight(|leaves|, height)
    ensures mutated <==> HasTwins(hash, leaves, |leaves|)
    ensures branchPos < |leaves| ==> branch == BranchTo(hash, leaves, branchPos, height)
    ensures branchPos >= |leaves| ==> branch == []
  {
    mutated, branch, height := false, [], 0;
    var inner := seq(32, _ => zero);
    NothingYet(hash, leaves, inner);
    if leaves == [] { return zero, mutated, branch, height; }
    var matchLevel: int := -1;
    for count := 0 to |leaves|
      invariant InnerOk(hash, leaves, inner, count) && (mutated <==> HasTwins(hash, leaves, count))
      invariant Tracked(hash, leaves, count, branchPos, matchLevel, branch)
    {
      var twin;
      inner, twin, matchLevel, branch := Absorb(hash, leaves, inner, count, branchPos, matchLevel, branch);
      mutated := mutated || twin;
    }
    root, branch, height := Sweep(hash, leaves, |leaves|, inner, branchPos, matchLevel, branch);
  }

  lemma NothingYet<H(!new)>(hash: (H, H) -> H, s: seq<H>, inner: seq<H>)
    ensures !HasTwins(hash, s, 0) && (|inner| == 32 ==> InnerOk(hash, s, inner, 0))
  {
    forall l: nat ensures Shifted(0, l) == 0 { ShiftedZero(l); }
  }

  lemma {:induction false} ShiftedZero(l: nat)
    ensures Shifted(0, l) == 0
  {
    if l > 0 { ShiftedZero(l - 1); }
  }

  /** The state that the sweep starts from. */
  lemma EdgeStart<H>(hash: (H, H) -> H, s: seq<H>, inner: seq<H>, l: nat, p: nat, matchLevel: int, branch: seq<H>)
    requires |s| > 0 && LowZero(|s|, l) && Shifted(|s|, l) % 2 == 1 && l < 32
    requires InnerOk(hash, s, inner, |s|) && Tracked(hash, s, |s|, p, matchLevel, branch)
    ensures AtEdge(|s|, l, |s|) && IsLast(hash, s, l, inner[l])
    ensures EdgeTracked(hash, s, p, l, matchLevel == l, matchLevel, branch)
  {
    EvenWidths(|s|, |s|, 0, l);
    if l > 0 {
      EvenWidths(|s|, |s|, 0, l - 1);
      assert BitIsZero(|s|, l - 1);
    }
    WidthOfLevel(hash, s, l);
    assert InnerAt(hash, s, inner, |s|, l);
    if matchLevel >= 0 && p < |s| { assert !BitIsZero(|s|, matchLevel); }
  }

  /** At the level with one node that is the root. */
  lemma EdgeIsRoot<H>(hash: (H, H) -> H, s: seq<H>, l: nat, count: nat, h: H)
    requires 0 < |s| <= 0x8000_0000 && AtEdge(|s|, l, count) && IsLast(hash, s, l, h) && count == Pow2(l)
    ensures IsHeight(|s|, l) && h == Root(hash, s)
  {
    if Width(|s|, l) > 1 { EdgeUp(|s|, l, count); }
    if l > 0 { WidthOfLevel(hash, s, l - 1); }
    RootOfLevel(hash, s, l);
  }

  /** Reduce everything to the top value. */
  method Sweep<H(==)>(hash: (H, H) -> H, ghost s: seq<H>, n: nat, inner: seq<H>, p: nat, matchLevel: int,
                      branch0: seq<H>)
    returns (root: H, branch: seq<H>, ghost height: nat)
    requires 0 < n == |s| <= 0x8000_0000 && InnerOk(hash, s, inner, n) && Tracked(hash, s, n, p, matchLevel, branch0)
    ensures root == Root(hash, s) && IsHeight(n, height)
    ensures branch == if p < n then BranchTo(hash, s, p, height) else []
  {
    var level := LowestBit(n);
    LevelFits(n, level);
    EdgeStart(hash, s, inner, level, p, matchLevel, branch0);
    var h, matched, count := inner[level], matchLevel == level, n;
    branch := branch0;
    while count != Pow2(level)
      invariant AtEdge(n, level, count) && IsLast(hash, s, level, h)
      invariant EdgeTracked(hash, s, p, level, matched, matchLevel, branch)
      decreases 31 - level
    {
      level, h, count, matched, branch := Double(hash, s, inner, level, h, count, p, matched, matchLevel, branch);
    }
    EdgeIsRoot(hash, s, level, count, h);
    EdgeBranch(hash, s, level, p, matched, matchLevel, branch);
    root, height := h, level;
  }

  /** There the branch is complete. */
  lemma EdgeBranch<H>(hash: (H, H) -> H, s: seq<H>, l: nat, p: nat, matched: bool, matchLevel: int, branch: seq<H>)
    requires Width(|s|, l) == 1 && EdgeTracked(hash, s, p, l, matched, matchLevel, branch)
    ensures branch == if p < |s| then BranchTo(hash, s, p, l) else []
  {
    if p < |s| && !matched {
      CompleteNodes(hash, s, l);
      WidthOfLevel(hash, s, l);
      ShiftedFalls(|s|, l, matchLevel);
    }
  }

  /** Above a level with at most one complete node there is none. */
  lemma {:induction false} ShiftedFalls(c: nat, l: nat, k: nat)
    requires Shifted(c, l) <= 1 && l < k
    ensures Shifted(c, k) == 0
    decreases k
  {
    if k > l + 1 { ShiftedFalls(c, l, k - 1); }
  }

  // ----- Branches lead to the root -----

  /** What a branch makes of a leaf: bit k of the index says on which side the k-th sibling is. */
  function FromBranch<H>(hash: (H, H) -> H, leaf: H, branch: seq<H>, index: nat): H
  {
    if branch == [] then leaf
    else
      var last := |branch| - 1;
      var below := FromBranch(hash, leaf, branch[..last], index);
      if Shifted(index, last) % 2 == 1 then hash(branch[last], below) else hash(below, branch[last])
  }

  method ComputeMerkleRootFromBranch<H>(hash: (H, H) -> H, leaf: H, branch: seq<H>, index: nat) returns (h: H)
    ensures h == FromBranch(hash, leaf, branch, index)
  {
    h := leaf;
    var nIndex := index;
    for i := 0 to |branch|
      invariant h == FromBranch(hash, leaf, branch[..i], index) && nIndex == Shifted(index, i)
    {
      assert branch[..i + 1][..i] == branch[..i];
      h := if nIndex % 2 == 1 then hash(branch[i], h) else hash(h, branch[i]);
      nIndex := nIndex / 2;
    }
    assert branch[..|branch|] == branch;
  }

  lemma {:induction false} BranchLeadsUp<H>(hash: (H, H) -> H, s: seq<H>, p: nat, l: nat)
    requires p < |s|
    ensures Shifted(p, l) < |Level(hash, s, l)|
    ensures FromBranch(hash, s[p], BranchTo(hash, s, p, l), p) == Level(hash, s, l)[Shifted(p, l)]
  {
    if l > 0 {
      BranchLeadsUp(hash, s, p, l - 1);
      var b := BranchTo(hash, s, p, l);
      assert b[..l - 1] == BranchTo(hash, s, p, l - 1);
      NodeFromSibling(hash, s, l - 1, Shifted(p, l - 1));
    }
  }

  lemma NodeFromSibling<H>(hash: (H, H) -> H, s: seq<H>, l: nat, x: nat)
    requires x < |Level(hash, s, l)|
    ensures x / 2 < |Level(hash, s, l + 1)|
    ensures Level(hash, s, l + 1)[x / 2] ==
      var v := Level(hash, s, l); if x % 2 == 1 then hash(Sibling(v, x), v[x]) else hash(v[x], Sibling(v, x))
  {
    var q := x / 2;
    if x % 2 == 1 {
      assert x == 2 * q + 1;
      PairedUp(hash, s, l, q);
    } else {
      assert x == 2 * q;
      if x + 1 < |Level(hash, s, l)| { PairedUp(hash, s, l, q); } else { PairedWithItself(hash, s, l, q); }
    }
  }

  /** The branch of a leaf leads from the leaf to the root. */
  lemma BranchLeadsToRoot<H>(hash: (H, H) -> H, s: seq<H>, p: nat, height: nat)
    requires p < |s| && IsHeight(|s|, height)
    ensures FromBranch(hash, s[p], BranchTo(hash, s, p, height), p) == Root(hash, s)
  {
    BranchLeadsUp(hash, s, p, height);
    TopIsRoot(hash, s, height);
  }

  // ----- Repeated subtrees -----

  datatype Pair<H> = Pair(left: H, right: H)

  predicate Collide<H(==)>(hash: (H, H) -> H, p: Pair<H>, q: Pair<H>)
  {
    p != q && hash(p.left, p.right) == hash(q.left, q.right)
  }

  /** The pair that is hashed for entry q of the next level. */
  function PairOf<H>(v: seq<H>, q: nat): Pair<H>
    requires 2 * q < |v|
  {
    Pair(v[2 * q], if 2 * q + 1 < |v| then v[2 * q + 1] else v[2 * q])
  }

  lemma PairHashed<H>(hash: (H, H) -> H, s: seq<H>, l: nat, q: nat)
    requires q < |Level(hash, s, l + 1)|
    ensures 2 * q < |Level(hash, s, l)|
    ensures var p := PairOf(Level(hash, s, l), q); Level(hash, s, l + 1)[q] == hash(p.left, p.right)
  {
    if 2 * q + 1 < |Level(hash, s, l)| { PairedUp(hash, s, l, q); } else { PairedWithItself(hash, s, l, q); }
  }

  ghost predicate CollideAt<H>(hash: (H, H) -> H, s: seq<H>, t: seq<H>, l: nat, p: nat, q: nat)
  {
    && 2 * p < |Level(hash, s, l)| && 2 * q < |Level(hash, t, l)|
    && Collide(hash, PairOf(Level(hash, s, l), p), PairOf(Level(hash, t, l), q))
  }

  /** Two different pairs, hashed at one level for one list and for another, have one hash. */
  ghost predicate Collision<H(!new)>(hash: (H, H) -> H, s: seq<H>, t: seq<H>)
  {
    exists l: nat, p: nat, q: nat :: CollideAt(hash, s, t, l, p, q)
  }

  /** Equal hashes are of equal pairs, unless there is a collision. */
  lemma PairsEqual<H(!new)>(hash: (H, H) -> H, s: seq<H>, t: seq<H>, l: nat, p: nat, q: nat)
    requires p < |Level(hash, s, l + 1)| && q < |Level(hash, t, l + 1)|
    requires Level(hash, s, l + 1)[p] == Level(hash, t, l + 1)[q] && !Collision(hash, s, t)
    ensures 2 * p < |Level(hash, s, l)| && 2 * q < |Level(hash, t, l)|
    ensures PairOf(Level(hash, s, l), p) == PairOf(Level(hash, t, l), q)
  {
    PairHashed(hash, s, l, p);
    PairHashed(hash, t, l, q);
    assert !CollideAt(hash, s, t, l, p, q);
  }

  /** The children of an incomplete node. */
  lemma IncompleteNode<H>(hash: (H, H) -> H, s: seq<H>, l: nat, b: nat)
    requires b == Shifted(|s|, l + 1) && |Level(hash, s, l + 1)| == b + 1
    ensures 2 * b < |Level(hash, s, l)|
    ensures if |Level(hash, s, l)| == 2 * b + 1 then 2 * b <= Shifted(|s|, l) <= 2 * b + 1
            else |Level(hash, s, l)| == 2 * b + 2 == Shifted(|s|, l) + 1
  {
    CompleteNodes(hash, s, l);
  }

  /** Two complete nodes that are hashed like one that is paired with itself. */
  lemma TwinsOfPair<H>(hash: (H, H) -> H, s: seq<H>, l: nat, a: nat, b: nat)
    requires a < b && 2 * b <= Shifted(|s|, l) <= |Level(hash, s, l)| == 2 * b + 1
    requires PairOf(Level(hash, s, l), a) == PairOf(Level(hash, s, l), b)
    ensures Twins(hash, s, |s|, l, a)
  {
  }

  /** The last node is incomplete, and has the hash of a complete one. */
  ghost predicate LastRepeats<H>(hash: (H, H) -> H, s: seq<H>, l: nat, a: nat, b: nat)
  {
    && a < b == Shifted(|s|, l) && |Level(hash, s, l)| == b + 1
    && Level(hash, s, l)[a] == Level(hash, s, l)[b]
  }

  lemma RepeatsBelow<H(!new)>(hash: (H, H) -> H, s: seq<H>, l: nat, a: nat, b: nat)
    requires LastRepeats(hash, s, l + 1, a, b) && !Collision(hash, s, s)
    ensures Twins(hash, s, |s|, l, a) || LastRepeats(hash, s, l, 2 * a + 1, 2 * b + 1)
  {
    IncompleteNode(hash, s, l, b);
    PairsEqual(hash, s, s, l, a, b);
    if |Level(hash, s, l)| == 2 * b + 1 { TwinsOfPair(hash, s, l, a, b); }
  }

  /** If an incomplete subtree has the hash of a complete one, then that one repeats itself. */
  lemma {:induction false} IncompleteTwin<H(!new)>(hash: (H, H) -> H, s: seq<H>, l: nat, a: nat, b: nat)
    requires LastRepeats(hash, s, l, a, b) && !Collision(hash, s, s)
    ensures HasTwins(hash, s, |s|)
    decreases l
  {
    if l > 0 {
      RepeatsBelow(hash, s, l - 1, a, b);
      if LastRepeats(hash, s, l - 1, 2 * a + 1, 2 * b + 1) {
        IncompleteTwin(hash, s, l - 1, 2 * a + 1, 2 * b + 1);
      }
    }
  }

  predicate EndsTwice<H(==)>(v: seq<H>)
  {
    |v| >= 2 && |v| % 2 == 0 && v[|v| - 2] == v[|v| - 1]
  }

  /** Of two different lists with the same pairs the longer one ends in two equal entries. */
  lemma SamePairs<H>(v: seq<H>, w: seq<H>)
    requires |v| >= |w| && (|v| + 1) / 2 == (|w| + 1) / 2
    requires forall q: nat :: 2 * q < |w| ==> PairOf(v, q) == PairOf(w, q)
    ensures v == w || EndsTwice(v)
  {
    if |v| == |w| {
      forall i | 0 <= i < |v| ensures v[i] == w[i] { assert PairOf(v, i / 2) == PairOf(w, i / 2); }
    } else {
      var q := |w| / 2;
      assert PairOf(v, q) == PairOf(w, q);
    }
  }

  /** The same for levels with the same level above. */
  lemma SameBelow<H(!new)>(hash: (H, H) -> H, s: seq<H>, t: seq<H>, l: nat)
    requires Level(hash, s, l + 1) == Level(hash, t, l + 1) && !Collision(hash, s, t)
    requires |Level(hash, s, l)| >= |Level(hash, t, l)|
    ensures Level(hash, s, l) == Level(hash, t, l) || EndsTwice(Level(hash, s, l))
  {
    var v, w := Level(hash, s, l), Level(hash, t, l);
    forall q: nat | 2 * q < |w| ensures PairOf(v, q) == PairOf(w, q) { PairsEqual(hash, s, t, l, q, q); }
    SamePairs(v, w);
  }

  /** A level that ends in two equal nodes belongs to a list with a repeated subtree. */
  lemma EndsInTwins<H(!new)>(hash: (H, H) -> H, s: seq<H>, l: nat)
    requires EndsTwice(Level(hash, s, l)) && !Collision(hash, s, s)
    ensures HasTwins(hash, s, |s|)
  {
    CompleteNodes(hash, s, l);
    var m := |Level(hash, s, l)|;
    if Shifted(|s|, l) == m {
      assert Twins(hash, s, |s|, l, m / 2 - 1);
    } else {
      IncompleteTwin(hash, s, l, m - 2, m - 1);
    }
  }

  ghost predicate NoCollisions<H(!new)>(hash: (H, H) -> H, s: seq<H>, t: seq<H>)
  {
    !Collision(hash, s, s) && !Collision(hash, t, t) && !Collision(hash, s, t) && !Collision(hash, t, s)
  }

  lemma SameOrTwins<H(!new)>(hash: (H, H) -> H, s: seq<H>, t: seq<H>, l: nat)
    requires Level(hash, s, l + 1) == Level(hash, t, l + 1) && NoCollisions(hash, s, t)
    ensures Level(hash, s, l) == Level(hash, t, l) || HasTwins(hash, s, |s|) || HasTwins(hash, t, |t|)
  {
    if |Level(hash, s, l)| >= |Level(hash, t, l)| {
      SameBelow(hash, s, t, l);
      if EndsTwice(Level(hash, s, l)) { EndsInTwins(hash, s, l); }
    } else {
      SameBelow(hash, t, s, l);
      if EndsTwice(Level(hash, t, l)) { EndsInTwins(hash, t, l); }
    }
  }

  /** Down from a level where they are the same, two lists are the same or one has a repeated subtree. */
  lemma {:induction false} SameFrom<H(!new)>(hash: (H, H) -> H, s: seq<H>, t: seq<H>, l: nat)
    requires Level(hash, s, l) == Level(hash, t, l) && NoCollisions(hash, s, t)
    ensures s == t || HasTwins(hash, s, |s|) || HasTwins(hash, t, |t|)
    decreases l
  {
    if l > 0 {
      SameOrTwins(hash, s, t, l - 1);
      if Level(hash, s, l - 1) == Level(hash, t, l - 1) { SameFrom(hash, s, t, l - 1); }
    }
  }

  /**
    The flag detects every change of a list that keeps the height of the tree and the root: of two different lists
    of one height with one root, one has a repeated subtree, unless two pairs collide.
   */
  lemma ChangesDetected<H(!new)>(hash: (H, H) -> H, s: seq<H>, t: seq<H>, height: nat)
    requires |s| > 0 && |t| > 0 && IsHeight(|s|, height) && IsHeight(|t|, height)
    requires Root(hash, s) == Root(hash, t) && s != t && NoCollisions(hash, s, t)
    ensures HasTwins(hash, s, |s|) || HasTwins(hash, t, |t|)
  {
    TopIsRoot(hash, s, height);
    TopIsRoot(hash, t, height);
    SameFrom(hash, s, t, height);
  }

  lemma TopIsRoot<H>(hash: (H, H) -> H, s: seq<H>, height: nat)
    requires |s| > 0 && IsHeight(|s|, height)
    ensures Level(hash, s, height) == [Root(hash, s)]
  {
    WidthOfLevel(hash, s, height);
    if height > 0 { WidthOfLevel(hash, s, height - 1); }
    RootOfLevel(hash, s, height);
  }

  /** Without the same height it does not: a list of two has the root of the list of their hash. */
  lemma HeightsMatter<H(!new)>(hash: (H, H) -> H, a: H, b: H)
    requires a != b
    ensures Root(hash, [a, b]) == Root(hash, [hash(a, b)])
    ensures !HasTwins(hash, [a, b], 2) && !HasTwins(hash, [hash(a, b)], 1)
  {
    var s, t := [a, b], [hash(a, b)];
    assert NextLevel(hash, s) == t;
    forall l: nat, q: nat ensures !Twins(hash, s, 2, l, q) && !Twins(hash, t, 1, l, q) {
      if l > 0 {
        ShiftedFalls(1, 0, l);
        if l > 1 { ShiftedFalls(2, 1, l); }
      }
    }
  }

  /** Repeating the last of an odd number of entries keeps the root, and is detected. */
  lemma LastRepeated<H(!new)>(hash: (H, H) -> H, s: seq<H>)
    requires |s| % 2 == 1 && |s| > 1
    ensures var t := s + [s[|s| - 1]]; Root(hash, t) == Root(hash, s) && HasTwins(hash, t, |t|)
  {
    var t := s + [s[|s| - 1]];
    assert NextLevel(hash, t) == NextLevel(hash, s) by {
      forall i | 0 <= i < (|s| + 1) / 2 ensures NextLevel(hash, t)[i] == NextLevel(hash, s)[i] {
        assert Combined(hash, t, i) == Combined(hash, s, i);
      }
    }
    assert Twins(hash, t, |t|, 0, |s| / 2);
  }
}
