/**
  The block tree with its skip pointers, and the active chain. Block index entries are numbered in
  the order of their creation; a pointer is the number of an entry, and -1 is the null pointer.
 */
module Chain {
  import opened Numbers
  import opened SkipHeights

  datatype Node = Node(nHeight: nat, pprev: int, pskip: int)

  // ----- The tree -----

  predicate LinkOk(t: seq<Node>, i: nat)
    requires i < |t|
  {
    && -1 <= t[i].pprev < i
    && (if t[i].pprev == -1 then t[i].nHeight == 0 else t[i].nHeight == t[t[i].pprev].nHeight + 1)
  }

  ghost predicate LinksOk(t: seq<Node>)
  {
    forall i: nat {:trigger LinkOk(t, i)} :: i < |t| ==> LinkOk(t, i)
  }

  /** The ancestor at a height, by walking back one block at a time. */
  ghost function Ancestor(t: seq<Node>, p: nat, h: nat): (r: nat)
    requires LinksOk(t) && p < |t| && h <= t[p].nHeight
    ensures r <= p && t[r].nHeight == h
    decreases p
  {
    assert LinkOk(t, p);
    if t[p].nHeight == h then p else Ancestor(t, t[p].pprev, h)
  }

  lemma {:induction false} AncestorOfAncestor(t: seq<Node>, p: nat, h: nat, k: nat)
    requires LinksOk(t) && p < |t| && k <= h <= t[p].nHeight
    ensures Ancestor(t, Ancestor(t, p, h), k) == Ancestor(t, p, k)
    decreases p
  {
    assert LinkOk(t, p);
    if t[p].nHeight > h { AncestorOfAncestor(t, t[p].pprev, h, k); }
  }

  /** A tree that agrees on the links up to an entry has the same ancestors of it. */
  lemma {:induction false} AncestorSame(t: seq<Node>, t': seq<Node>, p: nat, h: nat)
    requires LinksOk(t) && LinksOk(t') && p < |t| <= |t'| && h <= t[p].nHeight
    requires forall i :: 0 <= i < |t| ==> t'[i].nHeight == t[i].nHeight && t'[i].pprev == t[i].pprev
    ensures Ancestor(t', p, h) == Ancestor(t, p, h)
    decreases p
  {
    assert LinkOk(t, p);
    if t[p].nHeight > h { AncestorSame(t, t', t[p].pprev, h); }
  }

  ghost predicate SkipOk(t: seq<Node>, i: nat)
    requires LinksOk(t) && i < |t|
  {
    t[i].pskip == -1 || t[i].pskip == Ancestor(t, i, GetSkipHeight(t[i].nHeight))
  }

  ghost predicate TreeOk(t: seq<Node>)
  {
    LinksOk(t) && forall i: nat {:trigger SkipOk(t, i)} :: i < |t| ==> SkipOk(t, i)
  }

  /** Every entry up to p but a genesis block has its skip pointer. */
  ghost predicate HasSkips(t: seq<Node>, p: nat)
    requires p <= |t|
  {
    forall i :: 0 <= i < p && t[i].pprev != -1 ==> t[i].pskip != -1
  }

  /**
    Find an ancestor with the help of the skip pointers. With all of them set, the number of steps from height n is
    at most quadratic in its logarithm.
   */
  method GetAncestor(t: seq<Node>, p: nat, height: int) returns (r: int, ghost steps: nat)
    requires TreeOk(t) && p < |t|
    ensures if 0 <= height <= t[p].nHeight then r == Ancestor(t, p, height) else r == -1
    ensures HasSkips(t, p + 1) && t[p].nHeight > 0 ==>
      var n := Log2(t[p].nHeight); 4 * steps <= n * n + 16 * n + 20
  {
    steps := 0;
    if height > t[p].nHeight || height < 0 {
      if t[p].nHeight > 0 { MulNonNegative(Log2(t[p].nHeight), Log2(t[p].nHeight)); }
      return -1, 0;
    }
    var walk, heightWalk := p, t[p].nHeight;
    while heightWalk > height
      invariant 0 <= walk <= p && heightWalk == t[walk].nHeight >= height
      invariant Ancestor(t, walk, height) == Ancestor(t, p, height)
      invariant HasSkips(t, p + 1) ==> steps + Steps(heightWalk, height) == Steps(t[p].nHeight, height)
      decreases heightWalk
    {
      assert SkipOk(t, walk) && LinkOk(t, walk);
      if t[walk].pskip != -1 && FollowsSkip(heightWalk, height) {
        AncestorOfAncestor(t, walk, GetSkipHeight(heightWalk), height);
        walk, heightWalk := t[walk].pskip, GetSkipHeight(heightWalk);
      } else {
        assert t[walk].pprev != -1;
        walk, heightWalk := t[walk].pprev, heightWalk - 1;
      }
      steps := steps + 1;
    }
    r := walk;
    if t[p].nHeight > 0 { StepsBound(t[p].nHeight, height); }
  }

  /** Appending an entry without a skip pointer. */
  lemma AppendKeeps(t: seq<Node>, n: Node)
    requires TreeOk(t) && n.pskip == -1 && LinkOk(t + [n], |t|)
    ensures TreeOk(t + [n])
  {
    var t' := t + [n];
    forall i: nat | i < |t'| ensures LinkOk(t', i) { assert i < |t| ==> LinkOk(t, i); }
    forall i: nat | i < |t'| ensures SkipOk(t', i) {
      if i < |t| {
        assert SkipOk(t, i) && LinkOk(t, i);
        if t[i].pskip != -1 { AncestorSame(t, t', i, GetSkipHeight(t[i].nHeight)); }
      }
    }
  }

  /** Setting the skip pointer of an entry. */
  lemma SkipKeeps(t: seq<Node>, p: nat, q: nat)
    requires TreeOk(t) && p < |t| && t[p].pprev >= 0
    requires q == Ancestor(t, p, GetSkipHeight(t[p].nHeight))
    ensures TreeOk(t[p := t[p].(pskip := q)])
  {
    var t' := t[p := t[p].(pskip := q)];
    forall i: nat | i < |t'| ensures LinkOk(t', i) { assert LinkOk(t, i); }
    forall i: nat | i < |t'| ensures SkipOk(t', i) {
      assert SkipOk(t, i) && LinkOk(t, i);
      AncestorSame(t, t', i, GetSkipHeight(t[i].nHeight));
    }
  }

  class BlockTree {
    var nodes: seq<Node>

    ghost predicate Valid()
      reads this
    {
      TreeOk(nodes) && HasSkips(nodes, |nodes|)
    }

    constructor ()
      ensures Valid() && nodes == []
    {
      nodes := [];
    }

    /** Add a block on top of another one, or a genesis block. */
    method AddBlock(pprev: int) returns (p: nat)
      requires Valid() && -1 <= pprev < |nodes|
      modifies this
      ensures Valid() && p == |old(nodes)| && |nodes| == p + 1
      ensures nodes[..p] == old(nodes) && nodes[p].pprev == pprev
      ensures pprev >= 0 ==> nodes[p].nHeight == nodes[pprev].nHeight + 1
      ensures pprev >= 0 ==> nodes[p].pskip == Ancestor(nodes, p, GetSkipHeight(nodes[p].nHeight))
    {
      p := |nodes|;
      var n := Node(if pprev == -1 then 0 else nodes[pprev].nHeight + 1, pprev, -1);
      AppendKeeps(nodes, n);
      nodes := nodes + [n];
      BuildSkip(p);
    }

    method BuildSkip(p: nat)
      requires TreeOk(nodes) && p < |nodes|
      modifies this
      ensures TreeOk(nodes) && |nodes| == |old(nodes)|
      ensures forall i :: 0 <= i < |nodes| && i != p ==> nodes[i] == old(nodes)[i]
      ensures if old(nodes)[p].pprev == -1 then nodes == old(nodes)
              else nodes[p] == old(nodes)[p].(pskip := nodes[p].pskip) &&
                   nodes[p].pskip == Ancestor(nodes, p, GetSkipHeight(nodes[p].nHeight))
    {
      var pprev := nodes[p].pprev;
      if pprev != -1 {
        assert LinkOk(nodes, p);
        var q, _ := GetAncestor(nodes, pprev, GetSkipHeight(nodes[p].nHeight));
        SkipKeeps(nodes, p, q);
        nodes := nodes[p := nodes[p].(pskip := q)];
        AncestorSame(old(nodes), nodes, p, GetSkipHeight(nodes[p].nHeight));
      }
    }
  }

  // ----- Common ancestors -----

  function Min(a: nat, b: nat): nat { if a < b then a else b }

  /** r is the highest block that both descend from, or -1 if there is none. */
  ghost predicate IsLastCommon(t: seq<Node>, a: nat, b: nat, r: int)
    requires LinksOk(t) && a < |t| && b < |t|
  {
    var top := Min(t[a].nHeight, t[b].nHeight);
    if r == -1 then forall h :: 0 <= h <= top ==> Ancestor(t, a, h) != Ancestor(t, b, h)
    else
      && 0 <= r < |t| && t[r].nHeight <= top
      && Ancestor(t, a, t[r].nHeight) == r == Ancestor(t, b, t[r].nHeight)
      && forall h :: t[r].nHeight < h <= top ==> Ancestor(t, a, h) != Ancestor(t, b, h)
  }

  lemma LastCommonUnique(t: seq<Node>, a: nat, b: nat, r: int, q: int)
    requires LinksOk(t) && a < |t| && b < |t| && IsLastCommon(t, a, b, r) && IsLastCommon(t, a, b, q)
    ensures r == q
  {
    assert r != -1 ==> Ancestor(t, a, t[r].nHeight) == Ancestor(t, b, t[r].nHeight);
    assert q != -1 ==> Ancestor(t, a, t[q].nHeight) == Ancestor(t, b, t[q].nHeight);
  }

  /** Walk back from both blocks until they meet; the closing assertion never fires. */
  method LastCommonAncestor(t: seq<Node>, a: nat, b: nat) returns (r: int)
    requires TreeOk(t) && a < |t| && b < |t|
    ensures IsLastCommon(t, a, b, r)
  {
    ghost var top := Min(t[a].nHeight, t[b].nHeight);
    var pa: int, pb: int := a, b;
    if t[pa].nHeight > t[pb].nHeight {
      var ancestor, _ := GetAncestor(t, pa, t[pb].nHeight);
      pa := ancestor;
    } else if t[pb].nHeight > t[pa].nHeight {
      var ancestor, _ := GetAncestor(t, pb, t[pa].nHeight);
      pb := ancestor;
    }
    ghost var h: int := top;
    while pa != pb && pa != -1 && pb != -1
      invariant -1 <= h <= top && -1 <= pa < |t| && -1 <= pb < |t|
      invariant if h == -1 then pa == -1 == pb else pa == Ancestor(t, a, h) && pb == Ancestor(t, b, h)
      invariant forall k :: h < k <= top ==> Ancestor(t, a, k) != Ancestor(t, b, k)
      decreases h
    {
      assert LinkOk(t, pa) && LinkOk(t, pb);
      if h > 0 {
        AncestorOfAncestor(t, a, h, h - 1);
        AncestorOfAncestor(t, b, h, h - 1);
      }
      pa := t[pa].pprev;
      pb := t[pb].pprev;
      h := h - 1;
    }
    assert pa == pb;
    r := pa;
  }

  // ----- The active chain -----

  /** vChain holds the ancestors of its last entry. */
  ghost predicate ChainOk(t: seq<Node>, v: seq<int>)
    requires LinksOk(t)
  {
    v == [] || (
      var tip := v[|v| - 1];
      && 0 <= tip < |t| && t[tip].nHeight == |v| - 1
      && forall h :: 0 <= h < |v| ==> v[h] == Ancestor(t, tip, h))
  }

  /** A chain stays what it is when the tree grows. */
  lemma ChainKept(t: seq<Node>, t': seq<Node>, v: seq<int>)
    requires LinksOk(t) && LinksOk(t') && |t| <= |t'| && ChainOk(t, v)
    requires forall i :: 0 <= i < |t| ==> t'[i].nHeight == t[i].nHeight && t'[i].pprev == t[i].pprev
    ensures ChainOk(t', v)
  {
    forall h | 0 <= h < |v| ensures v[h] == Ancestor(t', v[|v| - 1], h) {
      AncestorSame(t, t', v[|v| - 1], h);
    }
  }

  class ActiveChain {
    var vChain: seq<int>

    ghost predicate Valid(t: seq<Node>)
      reads this
    {
      TreeOk(t) && ChainOk(t, vChain)
    }

    constructor ()
      ensures vChain == []
    {
      vChain := [];
    }

    function Tip(): int
      reads this
    {
      if |vChain| > 0 then vChain[|vChain| - 1] else -1
    }

    function At(nHeight: int): int
      reads this
    {
      if nHeight < 0 || nHeight >= |vChain| then -1 else vChain[nHeight]
    }

    predicate Contains(t: seq<Node>, p: nat)
      reads this
      requires p < |t|
    {
      At(t[p].nHeight) == p
    }

    /** What is in the chain are the ancestors of the tip. */
    lemma ContainsIffAncestor(t: seq<Node>, p: nat)
      requires Valid(t) && p < |t|
      ensures Contains(t, p) <==> vChain != [] && t[p].nHeight < |vChain| && Ancestor(t, Tip(), t[p].nHeight) == p
    {
    }

    /** Make the chain end in a block; the entries below the first common one stay as they are. */
    method SetTip(t: seq<Node>, p: int)
      requires Valid(t) && -1 <= p < |t|
      modifies this
      ensures Valid(t) && Tip() == p
    {
      if p == -1 {
        vChain := [];
        return;
      }
      var n := t[p].nHeight + 1;
      ghost var before := vChain;
      vChain := if n <= |vChain| then vChain[..n] else vChain + seq(n - |vChain|, _ => -1);
      var q: int := p;
      ghost var h: int := t[p].nHeight;
      while q != -1 && vChain[t[q].nHeight] != q
        invariant -1 <= h < n == |vChain| && -1 <= q < |t|
        invariant if h == -1 then q == -1 else q == Ancestor(t, p, h)
        invariant forall k :: h < k < n ==> vChain[k] == Ancestor(t, p, k)
        invariant forall k :: 0 <= k <= h ==> vChain[k] == if k < |before| then before[k] else -1
        decreases h
      {
        assert LinkOk(t, q);
        if h > 0 { AncestorOfAncestor(t, p, h, h - 1); }
        vChain := vChain[t[q].nHeight := q];
        q := t[q].pprev;
        h := h - 1;
      }
      if q != -1 { SameBelow(t, before, p, q, h); }
    }

    /** Below a block of the old chain, the old chain has the ancestors of that block. */
    lemma SameBelow(t: seq<Node>, before: seq<int>, p: nat, q: nat, h: nat)
      requires TreeOk(t) && ChainOk(t, before) && p < |t| && h <= t[p].nHeight && q == Ancestor(t, p, h) && h < |before|
      requires before[h] == q
      ensures forall k :: 0 <= k <= h ==> before[k] == Ancestor(t, p, k)
    {
      forall k | 0 <= k <= h ensures before[k] == Ancestor(t, p, k) {
        AncestorOfAncestor(t, p, h, k);
        AncestorOfAncestor(t, before[|before| - 1], h, k);
      }
    }

    /** The last block of the chain that a block descends from. */
    method FindFork(t: seq<Node>, p: int) returns (r: int)
      requires Valid(t) && -1 <= p < |t|
      ensures p == -1 || vChain == [] ==> r == -1
      ensures p != -1 && vChain != [] ==> IsLastCommon(t, p, Tip(), r)
    {
      if p == -1 {
        return -1;
      }
      r := p;
      if t[p].nHeight > |vChain| - 1 {
        var ancestor, _ := GetAncestor(t, p, |vChain| - 1);
        r := ancestor;
      }
      ghost var top := if vChain == [] then -1 else Min(t[p].nHeight, |vChain| - 1);
      ghost var h: int := top;
      while r != -1 && !Contains(t, r)
        invariant -1 <= h <= top && -1 <= r < |t|
        invariant if h == -1 then r == -1 else r == Ancestor(t, p, h)
        invariant forall k :: h < k <= top ==> Ancestor(t, p, k) != vChain[k]
        decreases h
      {
        assert LinkOk(t, r);
        if h > 0 { AncestorOfAncestor(t, p, h, h - 1); }
        r := t[r].pprev;
        h := h - 1;
      }
    }

    /** What is known of a locator before its next entry, at height h, is appended. */
    ghost predicate Located(t: seq<Node>, start: nat, have: seq<nat>, h: nat, nStep: nat)
      requires LinksOk(t) && start < |t|
    {
      var h0 := t[start].nHeight;
      && (forall i :: 0 <= i < |have| ==>
            have[i] < |t| && h < t[have[i]].nHeight <= h0 && have[i] == Ancestor(t, start, t[have[i]].nHeight))
      && (forall i, j :: 0 <= i < j < |have| ==> t[have[i]].nHeight > t[have[j]].nHeight)
      && (forall i :: 0 <= i < |have| && i <= 11 ==> t[have[i]].nHeight == h0 - i)
      && (|have| <= 10 ==> nStep == 1 && h == h0 - |have|)
      && (|have| >= 11 ==> nStep == Pow2(|have| - 10) && (h == 0 || h + nStep + 9 <= h0))
      && (|have| == 11 ==> h == h0 - 11)
      && (|have| > 11 ==> Pow2(|have| - 11) <= h0)
    }

    /** A locator: ancestors at falling heights, the first twelve of them consecutive, down to the genesis block. */
    ghost predicate IsLocator(t: seq<Node>, start: nat, have: seq<nat>)
      requires LinksOk(t) && start < |t|
    {
      var h0 := t[start].nHeight;
      && |have| > 0 && have[0] == start
      && (forall i :: 0 <= i < |have| ==>
            have[i] < |t| && t[have[i]].nHeight <= h0 && have[i] == Ancestor(t, start, t[have[i]].nHeight))
      && (forall i, j :: 0 <= i < j < |have| ==> t[have[i]].nHeight > t[have[j]].nHeight)
      && (forall i :: 0 <= i < |have| && i <= 11 ==> t[have[i]].nHeight == h0 - i)
      && t[have[|have| - 1]].nHeight == 0
      && |have| <= 12 + (if h0 == 0 then 0 else Log2(h0))
    }

    /** The hashes of a locator, named by their blocks. */
    method GetLocator(t: seq<Node>, p: int) returns (have: seq<nat>)
      requires Valid(t) && -1 <= p < |t|
      ensures var start := if p == -1 then Tip() else p; if start == -1 then have == [] else IsLocator(t, start, have)
    {
      have := [];
      var nStep: nat := 1;
      var start := if p == -1 then Tip() else p;
      if start == -1 { return; }
      var q: int := start;
      while true
        invariant 0 <= q < |t| && t[q].nHeight <= t[start].nHeight && q == Ancestor(t, start, t[q].nHeight)
        invariant Located(t, start, have, t[q].nHeight, nStep)
        decreases t[q].nHeight
      {
        ghost var before, h := have, t[q].nHeight;
        have := have + [q];
        if t[q].nHeight == 0 {
          LocatorEnds(t, start, before, q, nStep);
          return;
        }
        var nHeight: nat := if t[q].nHeight > nStep then t[q].nHeight - nStep else 0;
        AncestorOfAncestor(t, start, t[q].nHeight, nHeight);
        LocatedNext(t, start, before, q, h, nStep, nHeight);
        if Contains(t, q) {
          ContainsIffAncestor(t, q);
          AncestorOfAncestor(t, Tip(), t[q].nHeight, nHeight);
          q := At(nHeight);
        } else {
          var ancestor, _ := GetAncestor(t, q, nHeight);
          q := ancestor;
        }
        if |have| > 10 { nStep := nStep * 2; }
      }
    }

    lemma LocatorEnds(t: seq<Node>, start: nat, have: seq<nat>, q: nat, nStep: nat)
      requires LinksOk(t) && start < |t| && q < |t| && t[q].nHeight == 0 && q == Ancestor(t, start, 0)
      requires Located(t, start, have, 0, nStep)
      ensures IsLocator(t, start, have + [q])
    {
      var h0 := t[start].nHeight;
      if |have| > 11 { Log2Bound(|have| - 11, h0); }
    }

    lemma LocatedNext(t: seq<Node>, start: nat, have: seq<nat>, q: nat, h: nat, nStep: nat, nHeight: nat)
      requires LinksOk(t) && start < |t| && q < |t| && h == t[q].nHeight > 0 && h <= t[start].nHeight
      requires q == Ancestor(t, start, h)
      requires Located(t, start, have, h, nStep) && nHeight == if h > nStep then h - nStep else 0
      ensures Located(t, start, have + [q], nHeight, if |have| + 1 > 10 then nStep * 2 else nStep)
    {
      var have', h0 := have + [q], t[start].nHeight;
      assert |have| >= 11 ==> nStep == Pow2(|have| - 10) && Pow2(|have'| - 10) == 2 * nStep;
    }
  }

  // ----- Runs -----

  datatype Op = AddBlock(pprev: nat) | AddGenesis | SetTip(p: int)

  /** Add blocks and move the tip, in any order: tree and chain stay what they are meant to be. */
  method Run(tree: BlockTree, chain: ActiveChain, ops: seq<Op>)
    requires tree.Valid() && chain.Valid(tree.nodes)
    modifies tree, chain
    ensures tree.Valid() && chain.Valid(tree.nodes) && old(tree.nodes) <= tree.nodes
  {
    for k := 0 to |ops|
      invariant tree.Valid() && chain.Valid(tree.nodes) && old(tree.nodes) <= tree.nodes
    {
      ghost var before := tree.nodes;
      match ops[k]
      case AddBlock(pprev) =>
        if pprev < |tree.nodes| {
          var _ := tree.AddBlock(pprev);
          ChainKept(before, tree.nodes, chain.vChain);
        }
      case AddGenesis =>
        var _ := tree.AddBlock(-1);
        ChainKept(before, tree.nodes, chain.vChain);
      case SetTip(p) =>
        if -1 <= p < |tree.nodes| { chain.SetTip(tree.nodes, p); }
    }
  }
}
