/**
  Partial Merkle trees: the encoder, the packing of the flag bits, and the decoder.

  The double SHA-256 of two concatenated hashes is the parameter `hash`; 256-bit
  hashes are numbers, and 0 is the null hash the decoder returns on failure.
 */
module PartialMerkle {
  import opened Numbers
  import opened Merkle

  type Hash = nat

  const MAX_BLOCK_WEIGHT: nat := 4000000
  const MIN_TRANSACTION_WEIGHT: nat := 4 * 60

  predicate Distinct(txids: seq<Hash>)
  {
    forall i, j :: 0 <= i < j < |txids| ==> txids[i] != txids[j]
  }

  // ----- The shape of the tree -----

  /** How many nodes the tree over n leaves has at a height. */
  function CalcTreeWidth(n: nat, height: nat): nat
  {
    (n + Pow2(height) - 1) / Pow2(height)
  }

  lemma WidthHalves(n: nat, h: nat)
    requires h > 0
    ensures CalcTreeWidth(n, h) == (CalcTreeWidth(n, h - 1) + 1) / 2
  {
    HalvedQuotient(n + Pow2(h - 1) - 1, Pow2(h - 1));
  }

  /** Rounding up in two steps. */
  lemma HalvedQuotient(a: nat, p: nat)
    requires p > 0
    ensures (a + p) / (2 * p) == (a / p + 1) / 2
  {
    var q, r := a / p, a % p;
    var s, t := (q + 1) / 2, (q + 1) % 2;
    assert a == q * p + r;
    assert (q + 1) * p == q * p + p;
    assert (2 * s + t) * p == s * (2 * p) + t * p;
    QuotientIs(a + p, 2 * p, s, t * p + r);
  }

  lemma WidthOfLeaves(n: nat)
    ensures CalcTreeWidth(n, 0) == n
  {
  }

  /** A node covers the leaves from FirstLeaf(pos) to FirstLeaf(pos + 1). */
  function FirstLeaf(n: nat, h: nat, pos: nat): nat
  {
    if pos * Pow2(h) < n then pos * Pow2(h) else n
  }

  lemma FirstLeafOfChild(n: nat, h: nat, pos: nat)
    requires h > 0
    ensures FirstLeaf(n, h, pos) == FirstLeaf(n, h - 1, 2 * pos)
  {
    assert pos * (2 * Pow2(h - 1)) == (2 * pos) * Pow2(h - 1);
  }

  /** Exactly the positions below the width cover a leaf. */
  lemma WidthCovers(n: nat, h: nat, pos: nat)
    ensures pos < CalcTreeWidth(n, h) <==> pos * Pow2(h) < n
  {
    var p := Pow2(h);
    var w, r := (n + p - 1) / p, (n + p - 1) % p;
    assert n + p - 1 == w * p + r;
    if pos < w {
      MulMonotone(pos + 1, w, p);
      assert (pos + 1) * p == pos * p + p;
    } else {
      MulMonotone(w, pos, p);
    }
  }

  lemma FirstLeafMonotone(n: nat, h: nat, pos: nat)
    ensures FirstLeaf(n, h, pos) <= FirstLeaf(n, h, pos + 1) <= n
  {
    assert (pos + 1) * Pow2(h) == pos * Pow2(h) + Pow2(h);
  }

  predicate HasRightChild(n: nat, h: nat, pos: nat)
    requires h > 0
  {
    2 * pos + 1 < CalcTreeWidth(n, h - 1)
  }

  predicate IsNode(n: nat, h: nat, pos: nat) { pos < CalcTreeWidth(n, h) }

  lemma LeftChildIsNode(n: nat, h: nat, pos: nat)
    requires h > 0 && IsNode(n, h, pos)
    ensures IsNode(n, h - 1, 2 * pos)
  {
    WidthHalves(n, h);
  }

  function TreeHeightFrom(n: nat, h: nat): (r: nat)
    ensures h <= r && CalcTreeWidth(n, r) <= 1
    ensures forall k :: h <= k < r ==> CalcTreeWidth(n, k) > 1
    decreases CalcTreeWidth(n, h)
  {
    if CalcTreeWidth(n, h) > 1 then
      WidthHalves(n, h + 1);
      TreeHeightFrom(n, h + 1)
    else h
  }

  /** The height of the root. */
  function TreeHeight(n: nat): (r: nat)
    ensures n > 0 ==> CalcTreeWidth(n, r) == 1
  {
    var r := TreeHeightFrom(n, 0);
    WidthCovers(n, r, 0);
    r
  }

  // ----- The full tree -----

  function CalcHash(hash: (Hash, Hash) -> Hash, txids: seq<Hash>, h: nat, pos: nat): Hash
    requires IsNode(|txids|, h, pos)
    decreases h
  {
    if h == 0 then WidthOfLeaves(|txids|); txids[pos]
    else
      LeftChildIsNode(|txids|, h, pos);
      var left := CalcHash(hash, txids, h - 1, 2 * pos);
      var right := if HasRightChild(|txids|, h, pos) then CalcHash(hash, txids, h - 1, 2 * pos + 1) else left;
      hash(left, right)
  }

  /** The pair that is hashed for a node. */
  function NodePair(hash: (Hash, Hash) -> Hash, txids: seq<Hash>, h: nat, pos: nat): (r: Pair<Hash>)
    requires h > 0 && IsNode(|txids|, h, pos)
    ensures CalcHash(hash, txids, h, pos) == hash(r.left, r.right)
  {
    LeftChildIsNode(|txids|, h, pos);
    var left := CalcHash(hash, txids, h - 1, 2 * pos);
    Pair(left, if HasRightChild(|txids|, h, pos) then CalcHash(hash, txids, h - 1, 2 * pos + 1) else left)
  }

  ghost predicate CollidesAt(hash: (Hash, Hash) -> Hash, txids: seq<Hash>, h: nat, p: nat, q: nat)
  {
    && h > 0 && IsNode(|txids|, h, p) && IsNode(|txids|, h, q)
    && Collide(hash, NodePair(hash, txids, h, p), NodePair(hash, txids, h, q))
  }

  /** Two of the pairs hashed for the tree of a block collide. */
  ghost predicate TreeCollides(hash: (Hash, Hash) -> Hash, txids: seq<Hash>)
  {
    exists h: nat, p: nat, q: nat :: CollidesAt(hash, txids, h, p, q)
  }

  /** With distinct leaves, two nodes at one height have different hashes, unless two pairs of the tree collide. */
  lemma {:induction false} NodesDiffer(hash: (Hash, Hash) -> Hash, txids: seq<Hash>, h: nat, p: nat, q: nat)
    requires Distinct(txids) && IsNode(|txids|, h, p) && IsNode(|txids|, h, q) && p != q
    ensures CalcHash(hash, txids, h, p) != CalcHash(hash, txids, h, q) || TreeCollides(hash, txids)
    decreases h
  {
    if h == 0 {
      WidthOfLeaves(|txids|);
    } else if NodePair(hash, txids, h, p) != NodePair(hash, txids, h, q) {
      assert CalcHash(hash, txids, h, p) != CalcHash(hash, txids, h, q) || CollidesAt(hash, txids, h, p, q);
    } else {
      LeftChildIsNode(|txids|, h, p);
      LeftChildIsNode(|txids|, h, q);
      NodesDiffer(hash, txids, h - 1, 2 * p, 2 * q);
    }
  }

  // ----- The encoder -----

  /** Whether a node is above a matched leaf. */
  predicate ParentOfMatch(vMatch: seq<bool>, h: nat, pos: nat)
  {
    exists p :: FirstLeaf(|vMatch|, h, pos) <= p < FirstLeaf(|vMatch|, h, pos + 1) && vMatch[p]
  }

  lemma ParentOfMatchSplits(vMatch: seq<bool>, h: nat, pos: nat)
    requires h > 0
    ensures ParentOfMatch(vMatch, h, pos) <==>
            ParentOfMatch(vMatch, h - 1, 2 * pos) || ParentOfMatch(vMatch, h - 1, 2 * pos + 1)
  {
    FirstLeafOfChild(|vMatch|, h, pos);
    FirstLeafOfChild(|vMatch|, h, pos + 1);
    FirstLeafMonotone(|vMatch|, h - 1, 2 * pos);
    FirstLeafMonotone(|vMatch|, h - 1, 2 * pos + 1);
  }

  lemma NoRightChildNoLeaves(n: nat, h: nat, pos: nat)
    requires h > 0 && !HasRightChild(n, h, pos)
    ensures FirstLeaf(n, h - 1, 2 * pos + 1) == n == FirstLeaf(n, h - 1, 2 * pos + 2)
  {
    WidthCovers(n, h - 1, 2 * pos + 1);
    FirstLeafMonotone(n, h - 1, 2 * pos + 1);
  }

  datatype Encoding = Encoding(bits: seq<bool>, hashes: seq<Hash>)

  function Join(a: Encoding, b: Encoding): Encoding
  {
    Encoding(a.bits + b.bits, a.hashes + b.hashes)
  }

  /** The flag bits and hashes of the subtree at a node, in depth-first order. */
  ghost function Encode(hash: (Hash, Hash) -> Hash, txids: seq<Hash>, vMatch: seq<bool>, h: nat, pos: nat): Encoding
    requires |txids| == |vMatch| && IsNode(|txids|, h, pos)
    decreases h
  {
    var parent := ParentOfMatch(vMatch, h, pos);
    if h == 0 || !parent then Encoding([parent], [CalcHash(hash, txids, h, pos)])
    else
      LeftChildIsNode(|txids|, h, pos);
      var left := Join(Encoding([true], []), Encode(hash, txids, vMatch, h - 1, 2 * pos));
      if HasRightChild(|txids|, h, pos) then Join(left, Encode(hash, txids, vMatch, h - 1, 2 * pos + 1)) else left
  }

  lemma AppendAssociates<T>(a: seq<T>, b: seq<T>, c: seq<T>, d: seq<T>)
    ensures ((a + b) + c) + d == a + (b + c + d)
    ensures d == [] ==> (a + b) + c == a + (b + c + d)
    ensures b == [] ==> (a + c) + d == a + (c + d)
    ensures b == [] && d == [] ==> a + c == a + (c + d)
  {
  }

  lemma EncodeDescends(hash: (Hash, Hash) -> Hash, txids: seq<Hash>, vMatch: seq<bool>, h: nat, pos: nat)
    returns (bits: seq<bool>, hashes: seq<Hash>)
    requires |txids| == |vMatch| && h > 0 && IsNode(|txids|, h, pos) && ParentOfMatch(vMatch, h, pos)
    ensures IsNode(|txids|, h - 1, 2 * pos)
    ensures Encode(hash, txids, vMatch, h, pos) == Encoding(bits, hashes)
    ensures bits == [true] + Encode(hash, txids, vMatch, h - 1, 2 * pos).bits +
                    if HasRightChild(|txids|, h, pos) then Encode(hash, txids, vMatch, h - 1, 2 * pos + 1).bits else []
    ensures hashes == Encode(hash, txids, vMatch, h - 1, 2 * pos).hashes +
                      if HasRightChild(|txids|, h, pos) then Encode(hash, txids, vMatch, h - 1, 2 * pos + 1).hashes
                      else []
  {
    LeftChildIsNode(|txids|, h, pos);
    var left := Encode(hash, txids, vMatch, h - 1, 2 * pos);
    var none := Encoding([], []);
    var right := if HasRightChild(|txids|, h, pos) then Encode(hash, txids, vMatch, h - 1, 2 * pos + 1) else none;
    JoinedParts(left, right);
    JoinedParts(left, none);
    bits, hashes := [true] + left.bits + right.bits, left.hashes + right.hashes;
  }

  lemma JoinedParts(left: Encoding, right: Encoding)
    ensures Join(Join(Encoding([true], []), left), right) ==
            Encoding([true] + left.bits + right.bits, left.hashes + right.hashes)
    ensures right == Encoding([], []) ==>
      Join(Join(Encoding([true], []), left), right) == Join(Encoding([true], []), left)
  {
  }

  // ----- The decoder -----

  /** A matched transaction and its index. */
  datatype Match = Match(txid: Hash, index: nat)

  datatype Extracted = Extracted(fBad: bool, hash: Hash, nBitsUsed: nat, nHashUsed: nat, matches: seq<Match>)

  /** The traversal of given bits and hashes from given counters. */
  function Extract(hash: (Hash, Hash) -> Hash, n: nat, e: Encoding, h: nat, pos: nat, nBitsUsed: nat,
                   nHashUsed: nat): Extracted
    decreases h
  {
    if nBitsUsed >= |e.bits| then Extracted(true, 0, nBitsUsed, nHashUsed, [])
    else
      var parent := e.bits[nBitsUsed];
      if h == 0 || !parent then
        if nHashUsed >= |e.hashes| then Extracted(true, 0, nBitsUsed + 1, nHashUsed, [])
        else Extracted(false, e.hashes[nHashUsed], nBitsUsed + 1, nHashUsed + 1,
                       if h == 0 && parent then [Match(e.hashes[nHashUsed], pos)] else [])
      else
        var left := Extract(hash, n, e, h - 1, 2 * pos, nBitsUsed + 1, nHashUsed);
        if HasRightChild(n, h, pos) then
          var right := Extract(hash, n, e, h - 1, 2 * pos + 1, left.nBitsUsed, left.nHashUsed);
          Extracted(left.fBad || right.fBad || right.hash == left.hash, hash(left.hash, right.hash),
                    right.nBitsUsed, right.nHashUsed, left.matches + right.matches)
        else
          Extracted(left.fBad, hash(left.hash, left.hash), left.nBitsUsed, left.nHashUsed, left.matches)
  }

  // ----- Authentication -----

  /** A match that names the transaction really at its index. */
  predicate IsReal(m: Match, txids: seq<Hash>)
  {
    m.index < |txids| && m.txid == txids[m.index]
  }

  predicate AllReal(ms: seq<Match>, txids: seq<Hash>)
  {
    forall k :: 0 <= k < |ms| ==> IsReal(ms[k], txids)
  }

  /** The pair that the traversal hashes for a node it descends into. */
  function ExtractedPair(hash: (Hash, Hash) -> Hash, n: nat, e: Encoding, h: nat, pos: nat, nBitsUsed: nat,
                         nHashUsed: nat): Pair<Hash>
    requires h > 0
  {
    var left := Extract(hash, n, e, h - 1, 2 * pos, nBitsUsed + 1, nHashUsed);
    Pair(left.hash,
         if HasRightChild(n, h, pos) then
           Extract(hash, n, e, h - 1, 2 * pos + 1, left.nBitsUsed, left.nHashUsed).hash
         else left.hash)
  }

  /** All pairs that the traversal of a subtree hashes. */
  function HashedBy(hash: (Hash, Hash) -> Hash, n: nat, e: Encoding, h: nat, pos: nat, nBitsUsed: nat,
                    nHashUsed: nat): set<Pair<Hash>>
    decreases h
  {
    if nBitsUsed >= |e.bits| || h == 0 || !e.bits[nBitsUsed] then {}
    else
      var left := Extract(hash, n, e, h - 1, 2 * pos, nBitsUsed + 1, nHashUsed);
      {ExtractedPair(hash, n, e, h, pos, nBitsUsed, nHashUsed)} +
      HashedBy(hash, n, e, h - 1, 2 * pos, nBitsUsed + 1, nHashUsed) +
      if HasRightChild(n, h, pos) then HashedBy(hash, n, e, h - 1, 2 * pos + 1, left.nBitsUsed, left.nHashUsed) else {}
  }

  ghost predicate CollidesWithNode(hash: (Hash, Hash) -> Hash, txids: seq<Hash>, h: nat, pos: nat, q: Pair<Hash>)
  {
    h > 0 && IsNode(|txids|, h, pos) && Collide(hash, NodePair(hash, txids, h, pos), q)
  }

  /** One of the pairs collides with one that is hashed for the tree of a block. */
  ghost predicate CollidesWith(hash: (Hash, Hash) -> Hash, txids: seq<Hash>, pairs: set<Pair<Hash>>)
  {
    exists h: nat, pos: nat, q :: q in pairs && CollidesWithNode(hash, txids, h, pos, q)
  }

  /**
    Whatever bits and hashes are given: where the traversal of a node arrives at the true
    hash of that node, every match below it is real.
   */
  lemma {:induction false} ExtractAuthentic(hash: (Hash, Hash) -> Hash, txids: seq<Hash>, e: Encoding,
                                            h: nat, pos: nat, nBitsUsed: nat, nHashUsed: nat)
    requires IsNode(|txids|, h, pos)
    requires var r := Extract(hash, |txids|, e, h, pos, nBitsUsed, nHashUsed);
             !r.fBad && r.hash == CalcHash(hash, txids, h, pos)
    ensures
      || AllReal(Extract(hash, |txids|, e, h, pos, nBitsUsed, nHashUsed).matches, txids)
      || CollidesWith(hash, txids, HashedBy(hash, |txids|, e, h, pos, nBitsUsed, nHashUsed))
    decreases h
  {
    if h == 0 {
      WidthOfLeaves(|txids|);
    } else if e.bits[nBitsUsed] {
      LeftChildIsNode(|txids|, h, pos);
      var left := Extract(hash, |txids|, e, h - 1, 2 * pos, nBitsUsed + 1, nHashUsed);
      var q := ExtractedPair(hash, |txids|, e, h, pos, nBitsUsed, nHashUsed);
      if q != NodePair(hash, txids, h, pos) {
        assert CollidesWithNode(hash, txids, h, pos, q);
      } else {
        ExtractAuthentic(hash, txids, e, h - 1, 2 * pos, nBitsUsed + 1, nHashUsed);
        if HasRightChild(|txids|, h, pos) {
          ExtractAuthentic(hash, txids, e, h - 1, 2 * pos + 1, left.nBitsUsed, left.nHashUsed);
        }
      }
    }
  }

  // ----- Refusal -----

  /** A node that the traversal descends into, and the counters there. */
  datatype Visit = Visit(h: nat, pos: nat, nBitsUsed: nat, nHashUsed: nat)

  function Visited(hash: (Hash, Hash) -> Hash, n: nat, e: Encoding, h: nat, pos: nat, nBitsUsed: nat,
                   nHashUsed: nat): set<Visit>
    decreases h
  {
    if nBitsUsed >= |e.bits| || h == 0 || !e.bits[nBitsUsed] then {}
    else
      var left := Extract(hash, n, e, h - 1, 2 * pos, nBitsUsed + 1, nHashUsed);
      {Visit(h, pos, nBitsUsed, nHashUsed)} +
      Visited(hash, n, e, h - 1, 2 * pos, nBitsUsed + 1, nHashUsed) +
      if HasRightChild(n, h, pos) then Visited(hash, n, e, h - 1, 2 * pos + 1, left.nBitsUsed, left.nHashUsed) else {}
  }

  /** Whatever the data: a node that is descended into and has two children of one hash makes the traversal fail. */
  lemma {:induction false} TwinsRefused(hash: (Hash, Hash) -> Hash, n: nat, e: Encoding, h: nat, pos: nat,
                                        nBitsUsed: nat, nHashUsed: nat, v: Visit)
    requires v in Visited(hash, n, e, h, pos, nBitsUsed, nHashUsed) && v.h > 0 && HasRightChild(n, v.h, v.pos)
    requires var p := ExtractedPair(hash, n, e, v.h, v.pos, v.nBitsUsed, v.nHashUsed); p.left == p.right
    ensures Extract(hash, n, e, h, pos, nBitsUsed, nHashUsed).fBad
    decreases h
  {
    if v != Visit(h, pos, nBitsUsed, nHashUsed) {
      var left := Extract(hash, n, e, h - 1, 2 * pos, nBitsUsed + 1, nHashUsed);
      if v in Visited(hash, n, e, h - 1, 2 * pos, nBitsUsed + 1, nHashUsed) {
        TwinsRefused(hash, n, e, h - 1, 2 * pos, nBitsUsed + 1, nHashUsed, v);
      } else {
        TwinsRefused(hash, n, e, h - 1, 2 * pos + 1, left.nBitsUsed, left.nHashUsed, v);
      }
    }
  }

  // ----- Round trip -----

  /** The matched leaves from lo up to hi, in order. */
  function MatchesIn(txids: seq<Hash>, vMatch: seq<bool>, lo: nat, hi: nat): seq<Match>
    requires |txids| == |vMatch| && hi <= |txids|
    decreases hi - lo
  {
    if lo >= hi then []
    else (if vMatch[lo] then [Match(txids[lo], lo)] else []) + MatchesIn(txids, vMatch, lo + 1, hi)
  }

  lemma {:induction false} MatchesSplit(txids: seq<Hash>, vMatch: seq<bool>, lo: nat, mid: nat, hi: nat)
    requires |txids| == |vMatch| && lo <= mid <= hi <= |txids|
    ensures MatchesIn(txids, vMatch, lo, hi) == MatchesIn(txids, vMatch, lo, mid) + MatchesIn(txids, vMatch, mid, hi)
    decreases mid - lo
  {
    if lo < mid { MatchesSplit(txids, vMatch, lo + 1, mid, hi); }
  }

  lemma {:induction false} NoMatches(txids: seq<Hash>, vMatch: seq<bool>, lo: nat, hi: nat)
    requires |txids| == |vMatch| && hi <= |txids|
    ensures MatchesIn(txids, vMatch, lo, hi) == [] <==> forall p :: lo <= p < hi ==> !vMatch[p]
    decreases hi - lo
  {
    if lo < hi { NoMatches(txids, vMatch, lo + 1, hi); }
  }

  function MatchesUnder(txids: seq<Hash>, vMatch: seq<bool>, h: nat, pos: nat): seq<Match>
    requires |txids| == |vMatch|
  {
    FirstLeafMonotone(|txids|, h, pos);
    MatchesIn(txids, vMatch, FirstLeaf(|txids|, h, pos), FirstLeaf(|txids|, h, pos + 1))
  }

  lemma MatchesUnderChildren(txids: seq<Hash>, vMatch: seq<bool>, h: nat, pos: nat)
    requires |txids| == |vMatch| && h > 0
    ensures MatchesUnder(txids, vMatch, h, pos) ==
            MatchesUnder(txids, vMatch, h - 1, 2 * pos) + MatchesUnder(txids, vMatch, h - 1, 2 * pos + 1)
    ensures !HasRightChild(|txids|, h, pos) ==> MatchesUnder(txids, vMatch, h - 1, 2 * pos + 1) == []
  {
    var n := |txids|;
    FirstLeafOfChild(n, h, pos);
    FirstLeafOfChild(n, h, pos + 1);
    FirstLeafMonotone(n, h - 1, 2 * pos);
    FirstLeafMonotone(n, h - 1, 2 * pos + 1);
    MatchesSplit(txids, vMatch, FirstLeaf(n, h - 1, 2 * pos), FirstLeaf(n, h - 1, 2 * pos + 1),
                 FirstLeaf(n, h - 1, 2 * pos + 2));
    if !HasRightChild(n, h, pos) { NoRightChildNoLeaves(n, h, pos); }
  }

  lemma NoMatchesUnder(txids: seq<Hash>, vMatch: seq<bool>, h: nat, pos: nat)
    requires |txids| == |vMatch|
    ensures MatchesUnder(txids, vMatch, h, pos) == [] <==> !ParentOfMatch(vMatch, h, pos)
  {
    FirstLeafMonotone(|txids|, h, pos);
    NoMatches(txids, vMatch, FirstLeaf(|txids|, h, pos), FirstLeaf(|txids|, h, pos + 1));
  }

  lemma MatchesAtLeaf(txids: seq<Hash>, vMatch: seq<bool>, pos: nat)
    requires |txids| == |vMatch| && pos < |txids|
    ensures MatchesUnder(txids, vMatch, 0, pos) ==
      if ParentOfMatch(vMatch, 0, pos) then [Match(txids[pos], pos)] else []
  {
    assert Pow2(0) == 1;
    NoMatchesUnder(txids, vMatch, 0, pos);
    assert MatchesIn(txids, vMatch, pos + 1, pos + 1) == [];
  }

  /** `part` sits in `e` from the given counters on. */
  predicate Placed(e: Encoding, part: Encoding, nBitsUsed: nat, nHashUsed: nat)
  {
    && nBitsUsed + |part.bits| <= |e.bits| && e.bits[nBitsUsed..nBitsUsed + |part.bits|] == part.bits
    && nHashUsed + |part.hashes| <= |e.hashes| && e.hashes[nHashUsed..nHashUsed + |part.hashes|] == part.hashes
  }

  lemma PlacedJoin(e: Encoding, a: Encoding, b: Encoding, nBitsUsed: nat, nHashUsed: nat)
    requires Placed(e, Join(a, b), nBitsUsed, nHashUsed)
    ensures Placed(e, a, nBitsUsed, nHashUsed)
    ensures Placed(e, b, nBitsUsed + |a.bits|, nHashUsed + |a.hashes|)
  {
    var ab := Join(a, b);
    var bits := e.bits[nBitsUsed..nBitsUsed + |ab.bits|];
    var hashes := e.hashes[nHashUsed..nHashUsed + |ab.hashes|];
    assert bits[..|a.bits|] == a.bits && bits[|a.bits|..] == b.bits;
    assert hashes[..|a.hashes|] == a.hashes && hashes[|a.hashes|..] == b.hashes;
  }

  /** The traversal for the matches meets a node with two children of one hash, at or below this one. */
  ghost predicate MeetsTwins(hash: (Hash, Hash) -> Hash, txids: seq<Hash>, vMatch: seq<bool>, h: nat, pos: nat)
    requires |txids| == |vMatch| && IsNode(|txids|, h, pos)
    decreases h
  {
    h > 0 && ParentOfMatch(vMatch, h, pos) &&
    (LeftChildIsNode(|txids|, h, pos);
     || MeetsTwins(hash, txids, vMatch, h - 1, 2 * pos)
     || (HasRightChild(|txids|, h, pos) &&
         (|| MeetsTwins(hash, txids, vMatch, h - 1, 2 * pos + 1)
          || CalcHash(hash, txids, h - 1, 2 * pos) == CalcHash(hash, txids, h - 1, 2 * pos + 1))))
  }

  /** What decoding a node must give. */
  ghost function Expected(hash: (Hash, Hash) -> Hash, txids: seq<Hash>, vMatch: seq<bool>, h: nat, pos: nat,
                          nBitsUsed: nat, nHashUsed: nat): Extracted
    requires |txids| == |vMatch| && IsNode(|txids|, h, pos)
  {
    var part := Encode(hash, txids, vMatch, h, pos);
    Extracted(MeetsTwins(hash, txids, vMatch, h, pos), CalcHash(hash, txids, h, pos), nBitsUsed + |part.bits|,
              nHashUsed + |part.hashes|, MatchesUnder(txids, vMatch, h, pos))
  }

  lemma ExtractStored(hash: (Hash, Hash) -> Hash, txids: seq<Hash>, vMatch: seq<bool>, h: nat, pos: nat,
                      e: Encoding, nBitsUsed: nat, nHashUsed: nat)
    requires |txids| == |vMatch| && IsNode(|txids|, h, pos)
    requires Placed(e, Encode(hash, txids, vMatch, h, pos), nBitsUsed, nHashUsed)
    requires h == 0 || !ParentOfMatch(vMatch, h, pos)
    ensures Extract(hash, |txids|, e, h, pos, nBitsUsed, nHashUsed) ==
            Expected(hash, txids, vMatch, h, pos, nBitsUsed, nHashUsed)
  {
    var part := Encode(hash, txids, vMatch, h, pos);
    assert e.bits[nBitsUsed] == e.bits[nBitsUsed..nBitsUsed + |part.bits|][0];
    assert e.hashes[nHashUsed] == e.hashes[nHashUsed..nHashUsed + |part.hashes|][0];
    if h == 0 {
      WidthOfLeaves(|txids|);
      MatchesAtLeaf(txids, vMatch, pos);
    } else {
      NoMatchesUnder(txids, vMatch, h, pos);
    }
  }

  lemma PlacedTop(e: Encoding, part: Encoding, nBitsUsed: nat, nHashUsed: nat)
    requires Placed(e, Join(Encoding([true], []), part), nBitsUsed, nHashUsed)
    ensures nBitsUsed < |e.bits| && e.bits[nBitsUsed]
    ensures Placed(e, part, nBitsUsed + 1, nHashUsed)
  {
    PlacedJoin(e, Encoding([true], []), part, nBitsUsed, nHashUsed);
    assert e.bits[nBitsUsed] == e.bits[nBitsUsed..nBitsUsed + 1][0];
  }

  lemma ExtractTwoChildren(hash: (Hash, Hash) -> Hash, txids: seq<Hash>, vMatch: seq<bool>, h: nat, pos: nat,
                           e: Encoding, nBitsUsed: nat, nHashUsed: nat, l: Extracted, r: Extracted)
    requires |txids| == |vMatch| && h > 0 && IsNode(|txids|, h, pos) && IsNode(|txids|, h - 1, 2 * pos)
    requires HasRightChild(|txids|, h, pos) && ParentOfMatch(vMatch, h, pos)
    requires nBitsUsed < |e.bits| && e.bits[nBitsUsed]
    requires l == Extract(hash, |txids|, e, h - 1, 2 * pos, nBitsUsed + 1, nHashUsed)
               == Expected(hash, txids, vMatch, h - 1, 2 * pos, nBitsUsed + 1, nHashUsed)
    requires r == Extract(hash, |txids|, e, h - 1, 2 * pos + 1, l.nBitsUsed, l.nHashUsed)
               == Expected(hash, txids, vMatch, h - 1, 2 * pos + 1, l.nBitsUsed, l.nHashUsed)
    ensures Extract(hash, |txids|, e, h, pos, nBitsUsed, nHashUsed) ==
            Expected(hash, txids, vMatch, h, pos, nBitsUsed, nHashUsed)
  {
    MatchesUnderChildren(txids, vMatch, h, pos);
  }

  lemma ExtractOneChild(hash: (Hash, Hash) -> Hash, txids: seq<Hash>, vMatch: seq<bool>, h: nat, pos: nat,
                        e: Encoding, nBitsUsed: nat, nHashUsed: nat, l: Extracted)
    requires |txids| == |vMatch| && h > 0 && IsNode(|txids|, h, pos) && IsNode(|txids|, h - 1, 2 * pos)
    requires !HasRightChild(|txids|, h, pos) && ParentOfMatch(vMatch, h, pos)
    requires nBitsUsed < |e.bits| && e.bits[nBitsUsed]
    requires l == Extract(hash, |txids|, e, h - 1, 2 * pos, nBitsUsed + 1, nHashUsed)
               == Expected(hash, txids, vMatch, h - 1, 2 * pos, nBitsUsed + 1, nHashUsed)
    ensures Extract(hash, |txids|, e, h, pos, nBitsUsed, nHashUsed) ==
            Expected(hash, txids, vMatch, h, pos, nBitsUsed, nHashUsed)
  {
    MatchesUnderChildren(txids, vMatch, h, pos);
  }

  /** The parts of the children follow the flag of their parent. */
  lemma PlacedChildren(hash: (Hash, Hash) -> Hash, txids: seq<Hash>, vMatch: seq<bool>, h: nat, pos: nat,
                       e: Encoding, nBitsUsed: nat, nHashUsed: nat)
    requires |txids| == |vMatch| && h > 0 && IsNode(|txids|, h, pos) && ParentOfMatch(vMatch, h, pos)
    requires Placed(e, Encode(hash, txids, vMatch, h, pos), nBitsUsed, nHashUsed)
    ensures IsNode(|txids|, h - 1, 2 * pos) && nBitsUsed < |e.bits| && e.bits[nBitsUsed]
    ensures Placed(e, Encode(hash, txids, vMatch, h - 1, 2 * pos), nBitsUsed + 1, nHashUsed)
    ensures HasRightChild(|txids|, h, pos) ==>
      var el := Expected(hash, txids, vMatch, h - 1, 2 * pos, nBitsUsed + 1, nHashUsed);
      Placed(e, Encode(hash, txids, vMatch, h - 1, 2 * pos + 1), el.nBitsUsed, el.nHashUsed)
  {
    LeftChildIsNode(|txids|, h, pos);
    var l := Encode(hash, txids, vMatch, h - 1, 2 * pos);
    if HasRightChild(|txids|, h, pos) {
      PlacedTwo(e, l, Encode(hash, txids, vMatch, h - 1, 2 * pos + 1), nBitsUsed, nHashUsed);
    } else {
      PlacedTop(e, l, nBitsUsed, nHashUsed);
    }
  }

  lemma PlacedTwo(e: Encoding, l: Encoding, r: Encoding, nBitsUsed: nat, nHashUsed: nat)
    requires Placed(e, Join(Join(Encoding([true], []), l), r), nBitsUsed, nHashUsed)
    ensures nBitsUsed < |e.bits| && e.bits[nBitsUsed]
    ensures Placed(e, l, nBitsUsed + 1, nHashUsed)
    ensures Placed(e, r, nBitsUsed + 1 + |l.bits|, nHashUsed + |l.hashes|)
  {
    PlacedJoin(e, Join(Encoding([true], []), l), r, nBitsUsed, nHashUsed);
    PlacedTop(e, l, nBitsUsed, nHashUsed);
  }

  /**
    Decoding what was encoded for a node gives back its hash and exactly the matches under it; it fails exactly if it
    meets two children of one hash.
   */
  lemma {:induction false} ExtractEncoded(hash: (Hash, Hash) -> Hash, txids: seq<Hash>, vMatch: seq<bool>, h: nat,
                                          pos: nat,
                                          e: Encoding, nBitsUsed: nat, nHashUsed: nat)
    requires |txids| == |vMatch| && IsNode(|txids|, h, pos)
    requires Placed(e, Encode(hash, txids, vMatch, h, pos), nBitsUsed, nHashUsed)
    ensures Extract(hash, |txids|, e, h, pos, nBitsUsed, nHashUsed) ==
            Expected(hash, txids, vMatch, h, pos, nBitsUsed, nHashUsed)
    decreases h, 1
  {
    if h == 0 || !ParentOfMatch(vMatch, h, pos) {
      ExtractStored(hash, txids, vMatch, h, pos, e, nBitsUsed, nHashUsed);
    } else {
      PlacedChildren(hash, txids, vMatch, h, pos, e, nBitsUsed, nHashUsed);
      var el := ExpectChild(hash, txids, vMatch, h - 1, 2 * pos, e, nBitsUsed + 1, nHashUsed);
      if HasRightChild(|txids|, h, pos) {
        var er := ExpectChild(hash, txids, vMatch, h - 1, 2 * pos + 1, e, el.nBitsUsed, el.nHashUsed);
        ExtractTwoChildren(hash, txids, vMatch, h, pos, e, nBitsUsed, nHashUsed, el, er);
      } else {
        ExtractOneChild(hash, txids, vMatch, h, pos, e, nBitsUsed, nHashUsed, el);
      }
    }
  }

  lemma {:induction false} ExpectChild(hash: (Hash, Hash) -> Hash, txids: seq<Hash>, vMatch: seq<bool>, h: nat,
                                       pos: nat,
                                       e: Encoding, nBitsUsed: nat, nHashUsed: nat) returns (r: Extracted)
    requires |txids| == |vMatch| && IsNode(|txids|, h, pos)
    requires Placed(e, Encode(hash, txids, vMatch, h, pos), nBitsUsed, nHashUsed)
    ensures r == Extract(hash, |txids|, e, h, pos, nBitsUsed, nHashUsed) ==
            Expected(hash, txids, vMatch, h, pos, nBitsUsed, nHashUsed)
    ensures r.hash == CalcHash(hash, txids, h, pos)
    decreases h, 2
  {
    ExtractEncoded(hash, txids, vMatch, h, pos, e, nBitsUsed, nHashUsed);
    r := Expected(hash, txids, vMatch, h, pos, nBitsUsed, nHashUsed);
  }

  /** A node above a match has two children of one hash. */
  ghost predicate IsTwinNode(hash: (Hash, Hash) -> Hash, txids: seq<Hash>, vMatch: seq<bool>, h: nat, pos: nat)
    requires |txids| == |vMatch|
  {
    && h > 0 && IsNode(|txids|, h, pos) && HasRightChild(|txids|, h, pos) && ParentOfMatch(vMatch, h, pos)
    && NodePair(hash, txids, h, pos).left == NodePair(hash, txids, h, pos).right
  }

  ghost predicate HasTwinNode(hash: (Hash, Hash) -> Hash, txids: seq<Hash>, vMatch: seq<bool>)
    requires |txids| == |vMatch|
  {
    exists h: nat, pos: nat :: IsTwinNode(hash, txids, vMatch, h, pos)
  }

  /** With distinct transactions there is none, unless two of the pairs hashed for the tree collide. */
  lemma DistinctNoTwins(hash: (Hash, Hash) -> Hash, txids: seq<Hash>, vMatch: seq<bool>)
    requires |txids| == |vMatch| && Distinct(txids)
    ensures !HasTwinNode(hash, txids, vMatch) || TreeCollides(hash, txids)
  {
    if HasTwinNode(hash, txids, vMatch) {
      var h: nat, pos: nat :| IsTwinNode(hash, txids, vMatch, h, pos);
      LeftChildIsNode(|txids|, h, pos);
      NodesDiffer(hash, txids, h - 1, 2 * pos, 2 * pos + 1);
    }
  }

  lemma {:induction false} TwinsAreNodes(hash: (Hash, Hash) -> Hash, txids: seq<Hash>, vMatch: seq<bool>, h: nat,
                                         pos: nat)
    requires |txids| == |vMatch| && IsNode(|txids|, h, pos) && MeetsTwins(hash, txids, vMatch, h, pos)
    ensures HasTwinNode(hash, txids, vMatch)
    decreases h
  {
    LeftChildIsNode(|txids|, h, pos);
    if MeetsTwins(hash, txids, vMatch, h - 1, 2 * pos) {
      TwinsAreNodes(hash, txids, vMatch, h - 1, 2 * pos);
    } else if MeetsTwins(hash, txids, vMatch, h - 1, 2 * pos + 1) {
      TwinsAreNodes(hash, txids, vMatch, h - 1, 2 * pos + 1);
    } else {
      assert IsTwinNode(hash, txids, vMatch, h, pos);
    }
  }

  lemma {:induction false} TwinsAreMet(hash: (Hash, Hash) -> Hash, txids: seq<Hash>, vMatch: seq<bool>, h: nat,
                                       pos: nat)
    requires |txids| == |vMatch| > 0 && IsNode(|txids|, h, pos) && MeetsTwins(hash, txids, vMatch, h, pos)
    requires h <= TreeHeight(|txids|)
    ensures MeetsTwins(hash, txids, vMatch, TreeHeight(|txids|), 0)
    decreases TreeHeight(|txids|) - h
  {
    if h < TreeHeight(|txids|) {
      WidthHalves(|txids|, h + 1);
      ParentOfMatchSplits(vMatch, h + 1, pos / 2);
      assert pos == 2 * (pos / 2) || pos == 2 * (pos / 2) + 1;
      TwinsAreMet(hash, txids, vMatch, h + 1, pos / 2);
    }
  }

  /** Above the root no node has two children. */
  lemma {:induction false} TwoChildrenBelowRoot(n: nat, h: nat, pos: nat)
    requires n > 0 && h > 0 && IsNode(n, h, pos) && HasRightChild(n, h, pos)
    ensures h <= TreeHeight(n)
  {
    if h > TreeHeight(n) { OneAbove(n, TreeHeight(n), h - 1); }
  }

  lemma {:induction false} OneAbove(n: nat, h: nat, k: nat)
    requires CalcTreeWidth(n, h) == 1 && h <= k
    ensures CalcTreeWidth(n, k) == 1
  {
    if h < k {
      OneAbove(n, h, k - 1);
      WidthHalves(n, k);
    }
  }

  lemma TwinsMetExactly(hash: (Hash, Hash) -> Hash, txids: seq<Hash>, vMatch: seq<bool>)
    requires |txids| == |vMatch| > 0
    ensures MeetsTwins(hash, txids, vMatch, TreeHeight(|txids|), 0) <==> HasTwinNode(hash, txids, vMatch)
  {
    if MeetsTwins(hash, txids, vMatch, TreeHeight(|txids|), 0) {
      TwinsAreNodes(hash, txids, vMatch, TreeHeight(|txids|), 0);
    }
    if HasTwinNode(hash, txids, vMatch) {
      var h: nat, pos: nat :| IsTwinNode(hash, txids, vMatch, h, pos);
      TwoChildrenBelowRoot(|txids|, h, pos);
      TwinsAreMet(hash, txids, vMatch, h, pos);
    }
  }

  // ----- Sizes -----

  ghost predicate CountsAt(hash: (Hash, Hash) -> Hash, txids: seq<Hash>, vMatch: seq<bool>, h: nat, pos: nat)
    requires |txids| == |vMatch| && IsNode(|txids|, h, pos)
  {
    var part := Encode(hash, txids, vMatch, h, pos);
    && 1 <= |part.hashes| <= |part.bits|
    && |part.hashes| <= FirstLeaf(|txids|, h, pos + 1) - FirstLeaf(|txids|, h, pos)
    && |part.hashes| <= 1 + |MatchesUnder(txids, vMatch, h, pos)| * h
  }

  lemma CountsStored(hash: (Hash, Hash) -> Hash, txids: seq<Hash>, vMatch: seq<bool>, h: nat, pos: nat)
    requires |txids| == |vMatch| && IsNode(|txids|, h, pos) && (h == 0 || !ParentOfMatch(vMatch, h, pos))
    ensures CountsAt(hash, txids, vMatch, h, pos)
  {
    WidthCovers(|txids|, h, pos);
    assert (pos + 1) * Pow2(h) == pos * Pow2(h) + Pow2(h);
    NoMatchesUnder(txids, vMatch, h, pos);
  }

  lemma CountsOne(hash: (Hash, Hash) -> Hash, txids: seq<Hash>, vMatch: seq<bool>, h: nat, pos: nat)
    requires |txids| == |vMatch| && h > 0 && IsNode(|txids|, h, pos) && ParentOfMatch(vMatch, h, pos)
    requires IsNode(|txids|, h - 1, 2 * pos) && CountsAt(hash, txids, vMatch, h - 1, 2 * pos)
    requires !HasRightChild(|txids|, h, pos)
    ensures CountsAt(hash, txids, vMatch, h, pos)
  {
    var bits, hashes := EncodeDescends(hash, txids, vMatch, h, pos);
    NoMatchesUnder(txids, vMatch, h, pos);
    MatchesUnderChildren(txids, vMatch, h, pos);
    FirstLeafOfChild(|txids|, h, pos);
    FirstLeafOfChild(|txids|, h, pos + 1);
    NoRightChildNoLeaves(|txids|, h, pos);
    BoundsAdd(|MatchesUnder(txids, vMatch, h - 1, 2 * pos)|, 0, h);
  }

  lemma CountsTwo(hash: (Hash, Hash) -> Hash, txids: seq<Hash>, vMatch: seq<bool>, h: nat, pos: nat)
    requires |txids| == |vMatch| && h > 0 && IsNode(|txids|, h, pos) && ParentOfMatch(vMatch, h, pos)
    requires IsNode(|txids|, h - 1, 2 * pos) && CountsAt(hash, txids, vMatch, h - 1, 2 * pos)
    requires HasRightChild(|txids|, h, pos) && CountsAt(hash, txids, vMatch, h - 1, 2 * pos + 1)
    ensures CountsAt(hash, txids, vMatch, h, pos)
  {
    var bits, hashes := EncodeDescends(hash, txids, vMatch, h, pos);
    NoMatchesUnder(txids, vMatch, h, pos);
    MatchesUnderChildren(txids, vMatch, h, pos);
    FirstLeafOfChild(|txids|, h, pos);
    FirstLeafOfChild(|txids|, h, pos + 1);
    BoundsAdd(|MatchesUnder(txids, vMatch, h - 1, 2 * pos)|, |MatchesUnder(txids, vMatch, h - 1, 2 * pos + 1)|, h);
  }

  /**
    One hash per covered leaf at most, and not more than one plus the height for every match; never more hashes
    than bits.
   */
  lemma {:induction false} HashCount(hash: (Hash, Hash) -> Hash, txids: seq<Hash>, vMatch: seq<bool>, h: nat, pos: nat)
    requires |txids| == |vMatch| && IsNode(|txids|, h, pos)
    ensures CountsAt(hash, txids, vMatch, h, pos)
    decreases h
  {
    if h == 0 || !ParentOfMatch(vMatch, h, pos) {
      CountsStored(hash, txids, vMatch, h, pos);
    } else {
      LeftChildIsNode(|txids|, h, pos);
      HashCount(hash, txids, vMatch, h - 1, 2 * pos);
      if HasRightChild(|txids|, h, pos) {
        HashCount(hash, txids, vMatch, h - 1, 2 * pos + 1);
        CountsTwo(hash, txids, vMatch, h, pos);
      } else {
        CountsOne(hash, txids, vMatch, h, pos);
      }
    }
  }

  lemma BoundsAdd(ml: nat, mr: nat, h: nat)
    requires h > 0 && ml + mr > 0
    ensures ml * (h - 1) + mr * (h - 1) + 2 <= 1 + (ml + mr) * h
    ensures ml == 0 ==> ml * (h - 1) == 0
    ensures mr == 0 ==> mr * (h - 1) == 0
  {
    assert (ml + mr) * h == ml * (h - 1) + mr * (h - 1) + ml + mr;
  }

  /** Whether the rightmost node at a height has one child and lies above a match. */
  predicate HasSingleAt(vMatch: seq<bool>, h: nat)
    requires h > 0 && |vMatch| > 0
  {
    var last := CalcTreeWidth(|vMatch|, h) - 1;
    CalcTreeWidth(|vMatch|, h - 1) % 2 == 1 && last >= 0 && ParentOfMatch(vMatch, h, last)
  }

  function SinglesUpTo(vMatch: seq<bool>, h: nat): nat
    requires |vMatch| > 0
  {
    if h == 0 then 0 else SinglesUpTo(vMatch, h - 1) + if HasSingleAt(vMatch, h) then 1 else 0
  }

  lemma {:induction false} NoSinglesBelow(vMatch: seq<bool>, h: nat)
    requires |vMatch| > 0 && CalcTreeWidth(|vMatch|, h) > 0
    requires !ParentOfMatch(vMatch, h, CalcTreeWidth(|vMatch|, h) - 1)
    ensures SinglesUpTo(vMatch, h) == 0
    decreases h
  {
    if h > 0 {
      var n, last := |vMatch|, CalcTreeWidth(|vMatch|, h) - 1;
      WidthHalves(n, h);
      ParentOfMatchSplits(vMatch, h, last);
      NoSinglesBelow(vMatch, h - 1);
    }
  }

  datatype Size = Size(bits: nat, hashes: nat)

  /** How many bits and hashes a node contributes. */
  function SizeOf(vMatch: seq<bool>, h: nat, pos: nat): Size
  {
    if h == 0 || !ParentOfMatch(vMatch, h, pos) then Size(1, 1)
    else
      var l := SizeOf(vMatch, h - 1, 2 * pos);
      if HasRightChild(|vMatch|, h, pos) then
        var r := SizeOf(vMatch, h - 1, 2 * pos + 1);
        Size(1 + l.bits + r.bits, l.hashes + r.hashes)
      else Size(1 + l.bits, l.hashes)
  }

  lemma {:induction false} SizeOfEncoding(hash: (Hash, Hash) -> Hash, txids: seq<Hash>, vMatch: seq<bool>, h: nat,
                                          pos: nat)
    requires |txids| == |vMatch| && IsNode(|txids|, h, pos)
    ensures var part := Encode(hash, txids, vMatch, h, pos); SizeOf(vMatch, h, pos) == Size(|part.bits|, |part.hashes|)
    decreases h
  {
    if h > 0 && ParentOfMatch(vMatch, h, pos) {
      LeftChildIsNode(|txids|, h, pos);
      SizeOfEncoding(hash, txids, vMatch, h - 1, 2 * pos);
      if HasRightChild(|txids|, h, pos) { SizeOfEncoding(hash, txids, vMatch, h - 1, 2 * pos + 1); }
    }
  }

  /** A subtree has one bit less than twice its hashes, and on the right edge one more for each node with one child. */
  ghost predicate BitsAt(vMatch: seq<bool>, h: nat, pos: nat)
    requires |vMatch| > 0
  {
    var size := SizeOf(vMatch, h, pos);
    size.bits == 2 * size.hashes - 1 + if pos == CalcTreeWidth(|vMatch|, h) - 1 then SinglesUpTo(vMatch, h) else 0
  }

  lemma BitsOfOne(vMatch: seq<bool>, h: nat, pos: nat)
    requires |vMatch| > 0 && h > 0 && IsNode(|vMatch|, h, pos) && ParentOfMatch(vMatch, h, pos)
    requires !HasRightChild(|vMatch|, h, pos) && BitsAt(vMatch, h - 1, 2 * pos)
    ensures BitsAt(vMatch, h, pos)
  {
    WidthHalves(|vMatch|, h);
    assert CalcTreeWidth(|vMatch|, h - 1) == 2 * pos + 1 && pos == CalcTreeWidth(|vMatch|, h) - 1;
    assert HasSingleAt(vMatch, h);
  }

  lemma BitsOfTwo(vMatch: seq<bool>, h: nat, pos: nat)
    requires |vMatch| > 0 && h > 0 && IsNode(|vMatch|, h, pos) && ParentOfMatch(vMatch, h, pos)
    requires HasRightChild(|vMatch|, h, pos) && BitsAt(vMatch, h - 1, 2 * pos) && BitsAt(vMatch, h - 1, 2 * pos + 1)
    ensures BitsAt(vMatch, h, pos)
  {
    WidthHalves(|vMatch|, h);
    var last := CalcTreeWidth(|vMatch|, h) - 1;
    assert pos == last ==> CalcTreeWidth(|vMatch|, h - 1) == 2 * pos + 2 && !HasSingleAt(vMatch, h);
    assert pos != last ==> 2 * pos + 2 < CalcTreeWidth(|vMatch|, h - 1);
  }

  /** Only the rightmost path can have nodes with one child, and each adds one bit to those of a full binary tree. */
  lemma {:induction false} BitCount(vMatch: seq<bool>, h: nat, pos: nat)
    requires |vMatch| > 0 && IsNode(|vMatch|, h, pos)
    ensures BitsAt(vMatch, h, pos)
    decreases h
  {
    if h > 0 {
      if !ParentOfMatch(vMatch, h, pos) {
        if pos == CalcTreeWidth(|vMatch|, h) - 1 { NoSinglesBelow(vMatch, h); }
      } else {
        LeftChildIsNode(|vMatch|, h, pos);
        BitCount(vMatch, h - 1, 2 * pos);
        if HasRightChild(|vMatch|, h, pos) {
          BitCount(vMatch, h - 1, 2 * pos + 1);
          BitsOfTwo(vMatch, h, pos);
        } else {
          BitsOfOne(vMatch, h, pos);
        }
      }
    }
  }

  lemma {:induction false} SinglesNone(vMatch: seq<bool>, h: nat)
    requires |vMatch| > 0
    ensures SinglesUpTo(vMatch, h) == 0 <==> forall k :: 0 < k <= h ==> !HasSingleAt(vMatch, k)
  {
    if h > 0 { SinglesNone(vMatch, h - 1); }
  }

  /** The encoding of a whole block. */
  ghost function EncodeBlock(hash: (Hash, Hash) -> Hash, txids: seq<Hash>, vMatch: seq<bool>): Encoding
    requires |txids| == |vMatch| > 0
  {
    Encode(hash, txids, vMatch, TreeHeight(|txids|), 0)
  }

  /**
    The format comment promises at most 2N - 1 flag bits for N hashes.  That holds exactly
    when no node with a single child lies above a match.
   */
  lemma FlagBitBound(hash: (Hash, Hash) -> Hash, txids: seq<Hash>, vMatch: seq<bool>)
    requires |txids| == |vMatch| > 0
    ensures var e := EncodeBlock(hash, txids, vMatch);
      |e.bits| <= 2 * |e.hashes| - 1 <==> forall h :: 0 < h <= TreeHeight(|txids|) ==> !HasSingleAt(vMatch, h)
  {
    SizeOfEncoding(hash, txids, vMatch, TreeHeight(|txids|), 0);
    BitCount(vMatch, TreeHeight(|txids|), 0);
    SinglesNone(vMatch, TreeHeight(|txids|));
  }

  /** Three transactions of which the last is matched need 4 bits for 2 hashes. */
  lemma FlagBitBoundFails(hash: (Hash, Hash) -> Hash, a: Hash, b: Hash, c: Hash)
    ensures var e := EncodeBlock(hash, [a, b, c], [false, false, true]);
      |e.hashes| == 2 && |e.bits| == 4
  {
    SmallTree();
    SizeOfEncoding(hash, [a, b, c], [false, false, true], 2, 0);
    SmallSizes([false, false, true]);
  }

  lemma SmallSizes(vMatch: seq<bool>)
    requires |vMatch| == 3 && !vMatch[0] && !vMatch[1] && vMatch[2]
    ensures SizeOf(vMatch, 2, 0) == Size(4, 2)
  {
    SmallTree();
    assert FirstLeaf(3, 1, 1) <= 2 < FirstLeaf(3, 1, 2);
    assert ParentOfMatch(vMatch, 1, 1);
    ParentOfMatchSplits(vMatch, 2, 0);
    assert SizeOf(vMatch, 0, 2) == Size(1, 1);
    assert SizeOf(vMatch, 1, 0) == Size(1, 1);
    assert SizeOf(vMatch, 1, 1) == Size(2, 1);
  }

  lemma SmallTree()
    ensures Pow2(0) == 1 && Pow2(1) == 2 && Pow2(2) == 4
    ensures CalcTreeWidth(3, 0) == 3 && CalcTreeWidth(3, 1) == 2 && CalcTreeWidth(3, 2) == 1
    ensures TreeHeight(3) == 2
  {
    assert TreeHeightFrom(3, 2) == 2;
  }

  // ----- Packing the flag bits -----

  /** Bit k of a byte, least significant first. */
  predicate BitOf(b: bv8, k: nat)
    requires k < 8
  {
    b & (1 << k) != 0
  }

  lemma SetBit(b: bv8, k: nat, j: nat)
    requires k < 8 && j < 8
    ensures BitOf(b | (1 << k), j) <==> BitOf(b, j) || j == k
  {
    SetBitBv(b, 1 << k, 1 << j);
    MaskOf(k);
    MaskOf(j);
  }

  lemma MaskOf(k: nat)
    requires k < 8
    ensures (1 as bv8 << k) == if k == 0 then 1 else if k == 1 then 2 else if k == 2 then 4 else if k == 3 then 8
                               else if k == 4 then 16 else if k == 5 then 32 else if k == 6 then 64 else 128
  {
  }

  lemma SetBitBv(b: bv8, m: bv8, n: bv8)
    ensures (b | m) & n != 0 <==> b & n != 0 || m & n != 0
  {
  }

  /** The bits of a byte sequence. */
  function Unpack(bytes: seq<bv8>): seq<bool>
  {
    seq(8 * |bytes|, p requires 0 <= p < 8 * |bytes| => BitOf(bytes[p / 8], p % 8))
  }

  /** Bits filled up with zeros to whole bytes. */
  function Padded(bits: seq<bool>): seq<bool>
  {
    seq(8 * ((|bits| + 7) / 8), p requires 0 <= p < 8 * ((|bits| + 7) / 8) => p < |bits| && bits[p])
  }

  // ----- Whole blocks -----

  datatype Decoded = Failed | Decoded(root: Hash, matches: seq<Match>)

  /** `ExtractMatches` as a function of the received fields. */
  function DecodeBlock(hash: (Hash, Hash) -> Hash, n: nat, e: Encoding): Decoded
  {
    if n == 0 || n > MAX_BLOCK_WEIGHT / MIN_TRANSACTION_WEIGHT || |e.hashes| > n || |e.bits| < |e.hashes| then Failed
    else
      var r := Extract(hash, n, e, TreeHeight(n), 0, 0, 0);
      if r.fBad || (r.nBitsUsed + 7) / 8 != (|e.bits| + 7) / 8 || r.nHashUsed != |e.hashes| then Failed
      else Decoded(r.hash, r.matches)
  }

  lemma {:induction false} WidthOfHeight(n: nat, h: nat)
    ensures CalcTreeWidth(n, h) == Width(n, h)
  {
    if h == 0 {
      WidthOfLeaves(n);
    } else {
      WidthOfHeight(n, h - 1);
      WidthHalves(n, h);
    }
  }

  lemma SizeOfLevel(hash: (Hash, Hash) -> Hash, txids: seq<Hash>, h: nat)
    ensures |Level(hash, txids, h)| == CalcTreeWidth(|txids|, h)
  {
    WidthOfHeight(|txids|, h);
    WidthOfLevel(hash, txids, h);
  }

  /** The nodes of the tree at a height are the entries of a level. */
  ghost predicate IsEntry(hash: (Hash, Hash) -> Hash, txids: seq<Hash>, h: nat, pos: nat)
    requires IsNode(|txids|, h, pos)
  {
    pos < |Level(hash, txids, h)| && CalcHash(hash, txids, h, pos) == Level(hash, txids, h)[pos]
  }

  lemma EntryOfOne(hash: (Hash, Hash) -> Hash, txids: seq<Hash>, h: nat, pos: nat)
    requires h > 0 && IsNode(|txids|, h, pos) && IsNode(|txids|, h - 1, 2 * pos) && !HasRightChild(|txids|, h, pos)
    requires IsEntry(hash, txids, h - 1, 2 * pos)
    ensures IsEntry(hash, txids, h, pos)
  {
    SizeOfLevel(hash, txids, h - 1);
    PairedWithItself(hash, txids, h - 1, pos);
  }

  lemma EntryOfTwo(hash: (Hash, Hash) -> Hash, txids: seq<Hash>, h: nat, pos: nat)
    requires h > 0 && IsNode(|txids|, h, pos) && IsNode(|txids|, h - 1, 2 * pos) && HasRightChild(|txids|, h, pos)
    requires IsEntry(hash, txids, h - 1, 2 * pos) && IsEntry(hash, txids, h - 1, 2 * pos + 1)
    ensures IsEntry(hash, txids, h, pos)
  {
    PairedUp(hash, txids, h - 1, pos);
  }

  lemma {:induction false} NodeOfLevel(hash: (Hash, Hash) -> Hash, txids: seq<Hash>, h: nat, pos: nat)
    requires IsNode(|txids|, h, pos)
    ensures IsEntry(hash, txids, h, pos)
    decreases h
  {
    if h == 0 {
      WidthOfLeaves(|txids|);
    } else {
      LeftChildIsNode(|txids|, h, pos);
      NodeOfLevel(hash, txids, h - 1, 2 * pos);
      if HasRightChild(|txids|, h, pos) {
        NodeOfLevel(hash, txids, h - 1, 2 * pos + 1);
        EntryOfTwo(hash, txids, h, pos);
      } else {
        EntryOfOne(hash, txids, h, pos);
      }
    }
  }

  /** The node at the top is the Merkle root of the block. */
  lemma TopNode(hash: (Hash, Hash) -> Hash, txids: seq<Hash>)
    requires |txids| > 0
    ensures CalcHash(hash, txids, TreeHeight(|txids|), 0) == Root(hash, txids)
  {
    var n, h := |txids|, TreeHeight(|txids|);
    WidthOfHeight(n, h);
    if h > 0 { WidthOfHeight(n, h - 1); }
    TopIsRoot(hash, txids, h);
    NodeOfLevel(hash, txids, h, 0);
  }

  lemma RootCoversAll(n: nat)
    requires n > 0
    ensures FirstLeaf(n, TreeHeight(n), 0) == 0 && FirstLeaf(n, TreeHeight(n), 1) == n
  {
    WidthCovers(n, TreeHeight(n), 1);
  }

  /**
    For every block within the size limit and every choice of its transactions: encoding, packing into bytes,
    unpacking and decoding gives the Merkle root and exactly the chosen transactions with their indices, in order.
    It fails exactly if some node above a chosen transaction has two children of one hash.
   */
  lemma DecodeEncoded(hash: (Hash, Hash) -> Hash, txids: seq<Hash>, vMatch: seq<bool>, bytes: seq<bv8>)
    requires 0 < |txids| == |vMatch| <= MAX_BLOCK_WEIGHT / MIN_TRANSACTION_WEIGHT
    requires Unpack(bytes) == Padded(EncodeBlock(hash, txids, vMatch).bits)
    ensures DecodeBlock(hash, |txids|, Encoding(Unpack(bytes), EncodeBlock(hash, txids, vMatch).hashes)) ==
      if HasTwinNode(hash, txids, vMatch) then Failed
      else Decoded(Root(hash, txids), MatchesIn(txids, vMatch, 0, |txids|))
  {
    var n, part := |txids|, EncodeBlock(hash, txids, vMatch);
    var e := Encoding(Unpack(bytes), part.hashes);
    assert e.bits[..|part.bits|] == part.bits;
    RootCoversAll(n);
    HashCount(hash, txids, vMatch, TreeHeight(n), 0);
    ExtractEncoded(hash, txids, vMatch, TreeHeight(n), 0, e, 0, 0);
    TwinsMetExactly(hash, txids, vMatch);
    TopNode(hash, txids);
  }

  lemma TwinsNotDecoded(hash: (Hash, Hash) -> Hash, n: nat, e: Encoding, v: Visit)
    requires v in Visited(hash, n, e, TreeHeight(n), 0, 0, 0) && v.h > 0 && HasRightChild(n, v.h, v.pos)
    requires var p := ExtractedPair(hash, n, e, v.h, v.pos, v.nBitsUsed, v.nHashUsed); p.left == p.right
    ensures DecodeBlock(hash, n, e) == Failed
  {
    TwinsRefused(hash, n, e, TreeHeight(n), 0, 0, 0, v);
  }

  /** For a block with distinct transactions it does not fail, unless two of the pairs hashed for the tree collide. */
  lemma RoundTrip(hash: (Hash, Hash) -> Hash, txids: seq<Hash>, vMatch: seq<bool>, bytes: seq<bv8>)
    requires Distinct(txids)
    requires 0 < |txids| == |vMatch| <= MAX_BLOCK_WEIGHT / MIN_TRANSACTION_WEIGHT
    requires Unpack(bytes) == Padded(EncodeBlock(hash, txids, vMatch).bits)
    ensures
      || DecodeBlock(hash, |txids|, Encoding(Unpack(bytes), EncodeBlock(hash, txids, vMatch).hashes)) ==
         Decoded(Root(hash, txids), MatchesIn(txids, vMatch, 0, |txids|))
      || TreeCollides(hash, txids)
  {
    DistinctNoTwins(hash, txids, vMatch);
    DecodeEncoded(hash, txids, vMatch, bytes);
  }

  /** The encoding of a block uses at most one hash per transaction and at most 1 + matches * height. */
  lemma HashBound(hash: (Hash, Hash) -> Hash, txids: seq<Hash>, vMatch: seq<bool>)
    requires |txids| == |vMatch| > 0
    ensures var hashes := EncodeBlock(hash, txids, vMatch).hashes;
      && 1 <= |hashes| <= |txids|
      && |hashes| <= 1 + |MatchesIn(txids, vMatch, 0, |txids|)| * TreeHeight(|txids|)
  {
    RootCoversAll(|txids|);
    HashCount(hash, txids, vMatch, TreeHeight(|txids|), 0);
  }

  /**
    For arbitrary received bits and hashes: if decoding yields the true Merkle root for that
    number of transactions, every transaction it reports is really in the block at the
    index reported, unless a pair hashed by the decoder collides with one of the tree.
   */
  lemma Authentic(hash: (Hash, Hash) -> Hash, txids: seq<Hash>, e: Encoding)
    requires |txids| > 0
    requires DecodeBlock(hash, |txids|, e).Decoded? && DecodeBlock(hash, |txids|, e).root == Root(hash, txids)
    ensures
      || AllReal(DecodeBlock(hash, |txids|, e).matches, txids)
      || CollidesWith(hash, txids, HashedBy(hash, |txids|, e, TreeHeight(|txids|), 0, 0, 0))
  {
    TopNode(hash, txids);
    ExtractAuthentic(hash, txids, e, TreeHeight(|txids|), 0, 0, 0);
  }

  // ----- The object -----

  function Txids(ms: seq<Match>): seq<Hash> { seq(|ms|, i requires 0 <= i < |ms| => ms[i].txid) }

  function Indices(ms: seq<Match>): seq<nat> { seq(|ms|, i requires 0 <= i < |ms| => ms[i].index) }

  lemma MatchesAppend(txids: seq<Hash>, indices: seq<nat>, a: seq<Match>, b: seq<Match>)
    ensures txids + Txids(a) + Txids(b) == txids + Txids(a + b)
    ensures indices + Indices(a) + Indices(b) == indices + Indices(a + b)
  {
  }

  /** The loop that finds the height of the root. */
  method FindHeight(n: nat) returns (nHeight: nat)
    ensures nHeight == TreeHeight(n)
  {
    nHeight := 0;
    while CalcTreeWidth(n, nHeight) > 1
      invariant TreeHeightFrom(n, nHeight) == TreeHeight(n)
      decreases CalcTreeWidth(n, nHeight)
    {
      WidthHalves(n, nHeight + 1);
      nHeight := nHeight + 1;
    }
  }

  class PartialMerkleTree {
    var nTransactions: nat
    var vBits: seq<bool>
    var vHash: seq<Hash>
    var fBad: bool
    const hash: (Hash, Hash) -> Hash

    /** Select transactions of a block. */
    constructor (hash: (Hash, Hash) -> Hash, vTxid: seq<Hash>, vMatch: seq<bool>)
      requires |vTxid| == |vMatch| > 0
      ensures this.hash == hash && nTransactions == |vTxid| && !fBad
      ensures Encoding(vBits, vHash) == EncodeBlock(hash, vTxid, vMatch)
    {
      this.hash := hash;
      nTransactions, fBad := |vTxid|, false;
      vBits, vHash := [], [];
      new;
      var nHeight := FindHeight(nTransactions);
      TraverseAndBuild(nHeight, 0, vTxid, vMatch);
    }

    /** Read a serialized tree. */
    constructor Unserialize(hash: (Hash, Hash) -> Hash, nTransactions: nat, vHash: seq<Hash>, vBytes: seq<bv8>)
      ensures this.hash == hash && this.nTransactions == nTransactions && !fBad
      ensures this.vHash == vHash && vBits == Unpack(vBytes)
    {
      this.hash := hash;
      this.nTransactions, this.vHash := nTransactions, vHash;
      fBad := false;
      var bits: seq<bool> := [];
      for p := 0 to |vBytes| * 8
        invariant |bits| == p && forall q :: 0 <= q < p ==> bits[q] == BitOf(vBytes[q / 8], q % 8)
      {
        bits := bits + [vBytes[p / 8] & (1 << (p % 8)) != 0];
      }
      vBits := bits;
    }

    /** The flag bytes of the serialization. */
    method PackBits() returns (vBytes: seq<bv8>)
      ensures |vBytes| == (|vBits| + 7) / 8 && Unpack(vBytes) == Padded(vBits)
    {
      vBytes := seq((|vBits| + 7) / 8, _ => 0);
      for p := 0 to |vBits|
        invariant |vBytes| == (|vBits| + 7) / 8
        invariant forall q :: 0 <= q < 8 * |vBytes| ==> (BitOf(vBytes[q / 8], q % 8) <==> q < p && vBits[q])
      {
        ghost var before := vBytes;
        vBytes := vBytes[p / 8 := vBytes[p / 8] | (if vBits[p] then 1 << (p % 8) else 0)];
        forall q | 0 <= q < 8 * |vBytes| ensures BitOf(vBytes[q / 8], q % 8) <==> q < p + 1 && vBits[q] {
          if vBits[p] && q / 8 == p / 8 { SetBit(before[p / 8], p % 8, q % 8); }
        }
      }
    }

    /** Whether a node is the parent of at least one matched txid. */
    method IsParentOfMatch(height: nat, pos: nat, vMatch: seq<bool>) returns (fParentOfMatch: bool)
      requires |vMatch| == nTransactions && IsNode(nTransactions, height, pos)
      ensures fParentOfMatch == ParentOfMatch(vMatch, height, pos)
    {
      fParentOfMatch := false;
      var p := pos * Pow2(height);
      FirstLeafMonotone(nTransactions, height, pos);
      WidthCovers(nTransactions, height, pos);
      while p < (pos + 1) * Pow2(height) && p < nTransactions
        invariant FirstLeaf(nTransactions, height, pos) <= p <= FirstLeaf(nTransactions, height, pos + 1)
        invariant fParentOfMatch <==> exists q :: FirstLeaf(nTransactions, height, pos) <= q < p && vMatch[q]
      {
        fParentOfMatch := fParentOfMatch || vMatch[p];
        p := p + 1;
      }
    }

    method TraverseAndBuild(height: nat, pos: nat, vTxid: seq<Hash>, vMatch: seq<bool>)
      requires |vTxid| == |vMatch| == nTransactions && IsNode(nTransactions, height, pos)
      modifies this`vBits, this`vHash
      ensures vBits == old(vBits) + Encode(hash, vTxid, vMatch, height, pos).bits
      ensures vHash == old(vHash) + Encode(hash, vTxid, vMatch, height, pos).hashes
      decreases height
    {
      var fParentOfMatch := IsParentOfMatch(height, pos, vMatch);
      vBits := vBits + [fParentOfMatch];
      if height == 0 || !fParentOfMatch {
        vHash := vHash + [CalcHash(hash, vTxid, height, pos)];
      } else {
        LeftChildIsNode(nTransactions, height, pos);
        ghost var bits, hashes := EncodeDescends(hash, vTxid, vMatch, height, pos);
        ghost var l := Encode(hash, vTxid, vMatch, height - 1, 2 * pos);
        ghost var r := Encoding([], []);
        TraverseAndBuild(height - 1, pos * 2, vTxid, vMatch);
        if pos * 2 + 1 < CalcTreeWidth(nTransactions, height - 1) {
          r := Encode(hash, vTxid, vMatch, height - 1, 2 * pos + 1);
          TraverseAndBuild(height - 1, pos * 2 + 1, vTxid, vMatch);
        }
        AppendAssociates(old(vBits), [true], l.bits, r.bits);
        AppendAssociates(old(vHash), [], l.hashes, r.hashes);
      }
    }

    method TraverseAndExtract(height: nat, pos: nat, bitsUsed: nat, hashUsed: nat, matchIn: seq<Hash>,
                              indexIn: seq<nat>)
      returns (node: Hash, nBitsUsed: nat, nHashUsed: nat, vMatch: seq<Hash>, vnIndex: seq<nat>)
      modifies this`fBad
      ensures var r := Extract(hash, nTransactions, Encoding(vBits, vHash), height, pos, bitsUsed, hashUsed);
        && fBad == (old(fBad) || r.fBad)
        && node == r.hash && nBitsUsed == r.nBitsUsed && nHashUsed == r.nHashUsed
        && vMatch == matchIn + Txids(r.matches) && vnIndex == indexIn + Indices(r.matches)
      decreases height
    {
      nBitsUsed, nHashUsed, vMatch, vnIndex := bitsUsed, hashUsed, matchIn, indexIn;
      if nBitsUsed >= |vBits| {
        fBad := true;
        return 0, nBitsUsed, nHashUsed, vMatch, vnIndex;
      }
      var fParentOfMatch := vBits[nBitsUsed];
      nBitsUsed := nBitsUsed + 1;
      if height == 0 || !fParentOfMatch {
        if nHashUsed >= |vHash| {
          fBad := true;
          return 0, nBitsUsed, nHashUsed, vMatch, vnIndex;
        }
        node := vHash[nHashUsed];
        nHashUsed := nHashUsed + 1;
        if height == 0 && fParentOfMatch {
          vMatch := vMatch + [node];
          vnIndex := vnIndex + [pos];
        }
      } else {
        ghost var l := Extract(hash, nTransactions, Encoding(vBits, vHash), height - 1, 2 * pos, nBitsUsed, nHashUsed);
        ghost var r := Extract(hash, nTransactions, Encoding(vBits, vHash), height - 1, 2 * pos + 1, l.nBitsUsed,
                               l.nHashUsed);
        MatchesAppend(matchIn, indexIn, l.matches, r.matches);
        var left, right;
        left, nBitsUsed, nHashUsed, vMatch, vnIndex := TraverseAndExtract(height - 1, pos * 2, nBitsUsed, nHashUsed,
                                                                          vMatch, vnIndex);
        if pos * 2 + 1 < CalcTreeWidth(nTransactions, height - 1) {
          right, nBitsUsed, nHashUsed, vMatch, vnIndex := TraverseAndExtract(height - 1, pos * 2 + 1, nBitsUsed,
                                                                             nHashUsed, vMatch, vnIndex);
          if right == left {
            fBad := true;
          }
        } else {
          right := left;
        }
        node := hash(left, right);
      }
    }

    /** Returns the root and appends the matches, or 0 if the data is not a well-formed partial tree. */
    method ExtractMatches(indexIn: seq<nat>) returns (root: Hash, vMatch: seq<Hash>, vnIndex: seq<nat>)
      modifies this`fBad
      ensures match DecodeBlock(hash, nTransactions, Encoding(vBits, vHash))
        case Failed => root == 0
        case Decoded(r, ms) =>
          if old(fBad) then root == 0 else root == r && vMatch == Txids(ms) && vnIndex == indexIn + Indices(ms)
    {
      vMatch, vnIndex := [], indexIn;
      if nTransactions == 0 {
        return 0, vMatch, vnIndex;
      }
      if nTransactions > MAX_BLOCK_WEIGHT / MIN_TRANSACTION_WEIGHT {
        return 0, vMatch, vnIndex;
      }
      if |vHash| > nTransactions {
        return 0, vMatch, vnIndex;
      }
      if |vBits| < |vHash| {
        return 0, vMatch, vnIndex;
      }
      var nHeight := FindHeight(nTransactions);
      var hashMerkleRoot, nBitsUsed, nHashUsed;
      hashMerkleRoot, nBitsUsed, nHashUsed, vMatch, vnIndex := TraverseAndExtract(nHeight, 0, 0, 0, vMatch, vnIndex);
      if fBad || (nBitsUsed + 7) / 8 != (|vBits| + 7) / 8 || nHashUsed != |vHash| {
        return 0, vMatch, vnIndex;
      }
      root := hashMerkleRoot;
    }
  }
}
