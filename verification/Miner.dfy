/**
  Block assembly: the greedy choice of packages of mempool transactions.

  The mempool is a finite directed acyclic graph with its cached ancestor aggregates;
  transactions are numbered by their hash.
 */
module Miner {
  import opened SetSums
  import opened Numbers

  type Tx = nat

  const WITNESS_SCALE_FACTOR: nat := 4
  const MAX_BLOCK_WEIGHT: nat := 4000000
  const MAX_BLOCK_SIGOPS_COST: nat := 80000
  const MAX_CONSECUTIVE_FAILURES: int := 1000

  /** The entries of the mempool and what it caches about them; `byScore` is the index by ancestor score. */
  datatype Mempool = Mempool(
    txSize: map<Tx, nat>,
    txWeight: map<Tx, nat>,
    sigOpCost: map<Tx, nat>,
    fee: map<Tx, nat>,
    modifiedFee: map<Tx, int>,
    ancestors: map<Tx, set<Tx>>,
    sizeWithAncestors: map<Tx, nat>,
    modFeesWithAncestors: map<Tx, int>,
    sigOpCostWithAncestors: map<Tx, nat>,
    countWithAncestors: map<Tx, nat>,
    byScore: seq<Tx>)

  function Txs(mp: Mempool): set<Tx> { mp.ancestors.Keys }

  /** A transaction with its ancestors. */
  function Package(mp: Mempool, t: Tx): set<Tx>
    requires t in Txs(mp)
  {
    mp.ancestors[t] + {t}
  }

  ghost predicate HasAll(mp: Mempool)
  {
    && mp.txSize.Keys == mp.txWeight.Keys == mp.sigOpCost.Keys == mp.fee.Keys == mp.modifiedFee.Keys == Txs(mp)
    && mp.sizeWithAncestors.Keys == mp.modFeesWithAncestors.Keys == Txs(mp)
    && mp.sigOpCostWithAncestors.Keys == mp.countWithAncestors.Keys == Txs(mp)
    && (forall i :: 0 <= i < |mp.byScore| ==> mp.byScore[i] in Txs(mp))
  }

  /** The ancestors of an ancestor are ancestors. */
  ghost predicate Nested(mp: Mempool, t: Tx, a: Tx)
    requires t in Txs(mp)
  {
    a in Txs(mp) && mp.ancestors[a] <= mp.ancestors[t]
  }

  ghost predicate AncestorsOk(mp: Mempool, t: Tx)
    requires t in Txs(mp)
  {
    && mp.ancestors[t] <= Txs(mp)
    && t !in mp.ancestors[t]
    && (forall a {:trigger Nested(mp, t, a)} :: a in mp.ancestors[t] ==> Nested(mp, t, a))
  }

  /** Ancestors are in the mempool, closed, and never include the transaction itself. */
  ghost predicate IsDag(mp: Mempool)
  {
    forall t {:trigger AncestorsOk(mp, t)} :: t in Txs(mp) ==> AncestorsOk(mp, t)
  }

  /** No fee has been changed by hand. */
  ghost predicate Unprioritised(mp: Mempool)
    requires HasAll(mp)
  {
    forall t {:trigger mp.modifiedFee[t]} :: t in Txs(mp) ==> mp.modifiedFee[t] == mp.fee[t]
  }

  /** The cached aggregates of one entry are exact. */
  ghost predicate CachesExact(mp: Mempool, t: Tx)
    requires HasAll(mp) && t in Txs(mp) && AncestorsOk(mp, t)
  {
    && mp.sizeWithAncestors[t] == Sum(Package(mp, t), mp.txSize)
    && mp.sigOpCostWithAncestors[t] == Sum(Package(mp, t), mp.sigOpCost)
    && mp.countWithAncestors[t] == |Package(mp, t)|
    && (Unprioritised(mp) ==> mp.modFeesWithAncestors[t] == Sum(Package(mp, t), mp.fee))
  }

  /** The index by ancestor score has the better one first. */
  ghost predicate InScoreOrder(mp: Mempool, i: nat, j: nat)
  {
    && HasAll(mp) && i < |mp.byScore| && j < |mp.byScore|
    && Better(mp, mp.byScore[i], Cached(mp, mp.byScore[i]), mp.byScore[j], Cached(mp, mp.byScore[j]))
  }

  ghost predicate WellFormed(mp: Mempool)
  {
    && HasAll(mp) && IsDag(mp)
    && (forall t {:trigger CachesExact(mp, t)} :: t in Txs(mp) ==> AncestorsOk(mp, t) && CachesExact(mp, t))
    && (forall t {:trigger mp.txWeight[t]} :: t in Txs(mp) ==> mp.txWeight[t] <= 4 * mp.txSize[t])
    && (forall t {:trigger t in mp.byScore} :: t in Txs(mp) ==> t in mp.byScore)
    && (forall t {:trigger mp.txSize[t]} :: t in Txs(mp) ==> mp.txSize[t] > 0)
    && (forall i: nat, j: nat {:trigger InScoreOrder(mp, i, j)} :: i < j < |mp.byScore| ==> InScoreOrder(mp, i, j))
  }

  // ----- Ancestor counts order a package -----

  lemma AncestorCountSmaller(mp: Mempool, t: Tx, a: Tx)
    requires WellFormed(mp) && t in Txs(mp) && a in mp.ancestors[t]
    ensures a in Txs(mp) && mp.countWithAncestors[a] < mp.countWithAncestors[t]
  {
    assert AncestorsOk(mp, t) && CachesExact(mp, t);
    assert Nested(mp, t, a);
    assert AncestorsOk(mp, a) && CachesExact(mp, a);
    SubsetSmaller(Package(mp, a), mp.ancestors[t]);
    assert t !in mp.ancestors[t];
  }

  lemma {:induction false} SubsetSmaller(a: set<Tx>, b: set<Tx>)
    requires a <= b
    ensures |a| <= |b|
  {
    if a != {} {
      var x :| x in a;
      SubsetSmaller(a - {x}, b - {x});
    }
  }

  // ----- What is still missing from the block -----

  /** The part of a package that is not in the block yet. */
  function Missing(mp: Mempool, t: Tx, inBlock: set<Tx>): set<Tx>
    requires t in Txs(mp)
  {
    Package(mp, t) - inBlock
  }

  ghost predicate ClosedAt(mp: Mempool, s: set<Tx>, t: Tx)
    requires t in Txs(mp)
  {
    mp.ancestors[t] <= s
  }

  ghost predicate AncestorClosed(mp: Mempool, s: set<Tx>)
  {
    s <= Txs(mp) && forall t {:trigger ClosedAt(mp, s, t)} :: t in s ==> ClosedAt(mp, s, t)
  }

  /** An entry of mapModifiedTx; `iter` is its key. */
  datatype Modified = Modified(nSizeWithAncestors: int, nModFeesWithAncestors: int, nSigOpCostWithAncestors: int)

  function Cached(mp: Mempool, t: Tx): Modified
    requires t in mp.sizeWithAncestors && t in mp.modFeesWithAncestors && t in mp.sigOpCostWithAncestors
  {
    Modified(mp.sizeWithAncestors[t], mp.modFeesWithAncestors[t], mp.sigOpCostWithAncestors[t])
  }

  /**
    What one entry says bounds what is missing; it is exact, and its fees are those that are left, unless the
    transaction has failed before.
   */
  ghost predicate BoundsMissing(mp: Mempool, inBlock: set<Tx>, t: Tx, m: Modified, failed: set<Tx>)
    requires HasAll(mp) && t in Txs(mp) && AncestorsOk(mp, t)
  {
    SizesBound(mp, inBlock, t, m, failed) && FeesExact(mp, inBlock, t, m, failed)
  }

  ghost predicate FeesExact(mp: Mempool, inBlock: set<Tx>, t: Tx, m: Modified, failed: set<Tx>)
    requires HasAll(mp) && t in Txs(mp) && AncestorsOk(mp, t)
  {
    t !in failed ==> FeesLeft(mp, t, mp.ancestors[t] * inBlock, m.nModFeesWithAncestors)
  }

  /** The cached fees without those of the included ancestors. */
  ghost predicate FeesLeft(mp: Mempool, t: Tx, inc: set<Tx>, fees: int)
    requires HasAll(mp) && t in Txs(mp) && inc <= Txs(mp)
  {
    if inc == {} then fees == mp.modFeesWithAncestors[t]
    else FeeAccounted(mp, mp.modFeesWithAncestors[t], true, inc, fees)
  }

  ghost predicate SizesBound(mp: Mempool, inBlock: set<Tx>, t: Tx, m: Modified, failed: set<Tx>)
    requires HasAll(mp) && t in Txs(mp) && AncestorsOk(mp, t)
  {
    var size, sigOps := Sum(Missing(mp, t, inBlock), mp.txSize), Sum(Missing(mp, t, inBlock), mp.sigOpCost);
    && m.nSizeWithAncestors >= size && m.nSigOpCostWithAncestors >= sigOps
    && (t !in failed ==> m.nSizeWithAncestors == size && m.nSigOpCostWithAncestors == sigOps)
  }

  /** A transaction outside the block with an ancestor inside is in mapModifiedTx, or has failed. */
  ghost predicate Covered(mp: Mempool, inBlock: set<Tx>, mod: map<Tx, Modified>, failed: set<Tx>, t: Tx)
    requires t in Txs(mp)
  {
    t in inBlock || mp.ancestors[t] * inBlock == {} || t in mod || t in failed
  }

  ghost predicate ModOk(mp: Mempool, inBlock: set<Tx>, mod: map<Tx, Modified>, failed: set<Tx>)
    requires HasAll(mp)
  {
    && mod.Keys <= Txs(mp) && mod.Keys !! inBlock
    && (forall t {:trigger BoundsMissing(mp, inBlock, t, mod[t], failed)} :: t in mod ==>
          AncestorsOk(mp, t) && mp.ancestors[t] * inBlock != {} && BoundsMissing(mp, inBlock, t, mod[t], failed))
    && (forall t {:trigger Covered(mp, inBlock, mod, failed, t)} :: t in Txs(mp) ==>
          Covered(mp, inBlock, mod, failed, t))
  }

  // ----- Accounting for a package that has been added -----

  /**
    The fees of an entry when those of `inc` have been taken away: the modified fee of the one that made the entry,
    and the plain fees of the others.
   */
  ghost predicate FeeAccounted(mp: Mempool, start: int, isNew: bool, inc: set<Tx>, fees: int)
    requires HasAll(mp) && inc <= Txs(mp)
  {
    if isNew then exists x :: x in inc && fees == start - Sum(inc, mp.fee) - (mp.modifiedFee[x] - mp.fee[x])
    else fees == start - Sum(inc, mp.fee)
  }

  /** An entry after the members of `done` have been accounted for. */
  ghost predicate AccountedAt(mp: Mempool, before: map<Tx, Modified>, after: map<Tx, Modified>, added: set<Tx>,
                              done: set<Tx>, d: Tx)
    requires HasAll(mp) && d in Txs(mp) && AncestorsOk(mp, d) && done <= Txs(mp)
  {
    var inc := mp.ancestors[d] * done;
    if d in added || inc == {} then (d in after <==> d in before) && (d in after ==> after[d] == before[d])
    else
      var start := if d in before then before[d] else Cached(mp, d);
      && d in after
      && after[d].nSizeWithAncestors == start.nSizeWithAncestors - Sum(inc, mp.txSize)
      && after[d].nSigOpCostWithAncestors == start.nSigOpCostWithAncestors - Sum(inc, mp.sigOpCost)
      && FeeAccounted(mp, start.nModFeesWithAncestors, d !in before, inc, after[d].nModFeesWithAncestors)
  }

  ghost predicate Accounted(mp: Mempool, before: map<Tx, Modified>, after: map<Tx, Modified>, added: set<Tx>,
                            done: set<Tx>)
    requires HasAll(mp) && done <= Txs(mp)
  {
    && after.Keys <= Txs(mp)
    && forall d {:trigger AccountedAt(mp, before, after, added, done, d)} :: d in Txs(mp) ==>
         AncestorsOk(mp, d) && AccountedAt(mp, before, after, added, done, d)
  }

  lemma MissingAfter(mp: Mempool, t: Tx, inBlock: set<Tx>, added: set<Tx>, w: map<Tx, nat>)
    requires HasAll(mp) && t in Txs(mp) && AncestorsOk(mp, t) && t !in added && inBlock !! added && w.Keys == Txs(mp)
    ensures mp.ancestors[t] * added <= w.Keys
    ensures Sum(Missing(mp, t, inBlock + added), w) == Sum(Missing(mp, t, inBlock), w) - Sum(mp.ancestors[t] * added, w)
    ensures Sum(Missing(mp, t, inBlock), w) <= Sum(Package(mp, t), w)
    ensures mp.ancestors[t] * inBlock == {} && t !in inBlock ==> Missing(mp, t, inBlock) == Package(mp, t)
  {
    var missing, inc := Missing(mp, t, inBlock), mp.ancestors[t] * added;
    assert Missing(mp, t, inBlock + added) == missing - inc;
    SumMinus(missing, inc, w);
    SumMinus(Package(mp, t), Package(mp, t) * inBlock, w);
    assert missing == Package(mp, t) - Package(mp, t) * inBlock;
  }

  lemma MissingSame(mp: Mempool, t: Tx, inBlock: set<Tx>, added: set<Tx>)
    requires t in Txs(mp) && t !in added && mp.ancestors[t] * added == {}
    ensures Missing(mp, t, inBlock + added) == Missing(mp, t, inBlock)
  {
    var package := Package(mp, t);
    assert package * added == mp.ancestors[t] * added == {};
    assert package - (inBlock + added) == package - inBlock - package * added;
  }

  /** The entry of a transaction, or what one is made from. */
  function Entry(mp: Mempool, mod: map<Tx, Modified>, d: Tx): Modified
    requires HasAll(mp) && d in Txs(mp)
  {
    if d in mod then mod[d] else Cached(mp, d)
  }

  /** What an entry says after a package has been added and accounted for. */
  lemma AccountedBounds(mp: Mempool, inBlock: set<Tx>, added: set<Tx>, mod: map<Tx, Modified>, mod': map<Tx, Modified>,
                        failed: set<Tx>, t: Tx)
    requires HasAll(mp) && t in Txs(mp) && AncestorsOk(mp, t) && CachesExact(mp, t)
    requires inBlock !! added && added <= Txs(mp) && t !in added && t !in inBlock
    requires t in mod ==> SizesBound(mp, inBlock, t, mod[t], failed)
    requires Covered(mp, inBlock, mod, failed, t)
    requires AccountedAt(mp, mod - added, mod', added, added, t) && t in mod'
    ensures SizesBound(mp, inBlock + added, t, mod'[t], failed)
  {
    if mp.ancestors[t] * added == {} {
      MissingSame(mp, t, inBlock, added);
    } else {
      MissingAfter(mp, t, inBlock, added, mp.txSize);
      MissingAfter(mp, t, inBlock, added, mp.sigOpCost);
    }
  }

  lemma AccountedFees(mp: Mempool, inBlock: set<Tx>, added: set<Tx>, mod: map<Tx, Modified>, mod': map<Tx, Modified>,
                      failed: set<Tx>, t: Tx)
    requires HasAll(mp) && t in Txs(mp) && AncestorsOk(mp, t)
    requires inBlock !! added && added <= Txs(mp) && t !in added && t !in inBlock
    requires t in mod ==> mp.ancestors[t] * inBlock != {} && FeesExact(mp, inBlock, t, mod[t], failed)
    requires Covered(mp, inBlock, mod, failed, t)
    requires AccountedAt(mp, mod - added, mod', added, added, t) && t in mod'
    ensures FeesExact(mp, inBlock + added, t, mod'[t], failed)
  {
    if t !in failed {
      var before, inc := mp.ancestors[t] * inBlock, mp.ancestors[t] * added;
      assert mp.ancestors[t] * (inBlock + added) == before + inc;
      if t !in mod {
        assert before + inc == inc;
      } else if inc == {} {
        assert before + inc == before;
      } else {
        FeesFall(mp, mp.modFeesWithAncestors[t], before, inc, mod[t].nModFeesWithAncestors);
      }
    }
  }

  /** Later ancestors take their plain fees away. */
  lemma FeesFall(mp: Mempool, start: int, before: set<Tx>, inc: set<Tx>, fees: int)
    requires HasAll(mp) && before <= Txs(mp) && inc <= Txs(mp) && before !! inc
    requires FeeAccounted(mp, start, true, before, fees)
    ensures FeeAccounted(mp, start, true, before + inc, fees - Sum(inc, mp.fee))
  {
    var x :| x in before && fees == start - Sum(before, mp.fee) - (mp.modifiedFee[x] - mp.fee[x]);
    SumUnion(before, inc, mp.fee);
    assert x in before + inc;
  }

  /** If no fee was changed by hand, what is left are the fees of what is missing. */
  lemma FeesOfMissing(mp: Mempool, inBlock: set<Tx>, t: Tx, m: Modified)
    requires HasAll(mp) && t in Txs(mp) && AncestorsOk(mp, t) && CachesExact(mp, t) && t !in inBlock
    requires Unprioritised(mp) && FeesExact(mp, inBlock, t, m, {})
    ensures m.nModFeesWithAncestors == Sum(Missing(mp, t, inBlock), mp.fee)
  {
    var inc := mp.ancestors[t] * inBlock;
    assert Missing(mp, t, inBlock) == Package(mp, t) - inc;
    SumMinus(Package(mp, t), inc, mp.fee);
  }

  /** Entries of mapModifiedTx stay outside the block. */
  lemma AccountedOutside(mp: Mempool, inBlock: set<Tx>, added: set<Tx>, mod: map<Tx, Modified>, mod': map<Tx, Modified>,
                         t: Tx)
    requires HasAll(mp) && t in Txs(mp) && AncestorsOk(mp, t) && AncestorClosed(mp, inBlock)
    requires inBlock !! added && added <= Txs(mp) && mod.Keys !! inBlock
    requires AccountedAt(mp, mod - added, mod', added, added, t) && t in mod'
    ensures t !in added && t !in inBlock
  {
    assert t in inBlock ==> ClosedAt(mp, inBlock, t);
    assert mp.ancestors[t] * added == {} || t !in inBlock;
  }

  lemma AccountedCovers(mp: Mempool, inBlock: set<Tx>, added: set<Tx>, mod: map<Tx, Modified>, mod': map<Tx, Modified>,
                        failed: set<Tx>, t: Tx)
    requires HasAll(mp) && t in Txs(mp) && AncestorsOk(mp, t) && added <= Txs(mp)
    requires Covered(mp, inBlock, mod, failed, t)
    requires AccountedAt(mp, mod - added, mod', added, added, t)
    ensures Covered(mp, inBlock + added, mod', failed, t)
  {
    assert mp.ancestors[t] * (inBlock + added) == mp.ancestors[t] * inBlock + mp.ancestors[t] * added;
  }

  /** Adding a package and accounting for it keeps the bounds. */
  lemma AccountedKeeps(mp: Mempool, inBlock: set<Tx>, added: set<Tx>, mod: map<Tx, Modified>, mod': map<Tx, Modified>,
                       failed: set<Tx>)
    requires WellFormed(mp) && AncestorClosed(mp, inBlock) && inBlock !! added && added <= Txs(mp)
    requires ModOk(mp, inBlock, mod, failed)
    requires Accounted(mp, mod - added, mod', added, added)
    ensures ModOk(mp, inBlock + added, mod', failed)
  {
    forall t | t in mod'
      ensures t !in inBlock + added && AncestorsOk(mp, t) && mp.ancestors[t] * (inBlock + added) != {}
      ensures BoundsMissing(mp, inBlock + added, t, mod'[t], failed)
    {
      assert CachesExact(mp, t) && AccountedAt(mp, mod - added, mod', added, added, t);
      assert Covered(mp, inBlock, mod, failed, t);
      assert t in mod ==> BoundsMissing(mp, inBlock, t, mod[t], failed);
      assert mp.ancestors[t] * (inBlock + added) == mp.ancestors[t] * inBlock + mp.ancestors[t] * added;
      AccountedOutside(mp, inBlock, added, mod, mod', t);
      AccountedBounds(mp, inBlock, added, mod, mod', failed, t);
      AccountedFees(mp, inBlock, added, mod, mod', failed, t);
    }
    forall t | t in Txs(mp) ensures Covered(mp, inBlock + added, mod', failed, t) {
      assert AccountedAt(mp, mod - added, mod', added, added, t) && Covered(mp, inBlock, mod, failed, t);
      AccountedCovers(mp, inBlock, added, mod, mod', failed, t);
    }
  }

  // ----- The block under construction -----

  /** Position `i` holds a transaction not seen before, after all of its ancestors. */
  ghost predicate PlacedAt(mp: Mempool, vtx: seq<Tx>, i: nat)
    requires i < |vtx|
  {
    && vtx[i] in Txs(mp)
    && vtx[i] !in vtx[..i]
    && (forall a :: a in mp.ancestors[vtx[i]] ==> a in vtx[..i])
  }

  ghost predicate Ordered(mp: Mempool, vtx: seq<Tx>)
  {
    forall i {:trigger PlacedAt(mp, vtx, i)} :: 0 <= i < |vtx| ==> PlacedAt(mp, vtx, i)
  }

  ghost function Elements(s: seq<Tx>): set<Tx> { set x | x in s }

  lemma OrderedClosed(mp: Mempool, vtx: seq<Tx>)
    requires Ordered(mp, vtx)
    ensures AncestorClosed(mp, Elements(vtx))
  {
    forall t | t in Elements(vtx) ensures t in Txs(mp) && ClosedAt(mp, Elements(vtx), t) {
      var i :| 0 <= i < |vtx| && vtx[i] == t;
      assert PlacedAt(mp, vtx, i);
    }
  }

  lemma OrderedAppend(mp: Mempool, vtx: seq<Tx>, t: Tx)
    requires Ordered(mp, vtx) && t in Txs(mp) && t !in vtx && mp.ancestors[t] <= Elements(vtx)
    ensures Ordered(mp, vtx + [t]) && Elements(vtx + [t]) == Elements(vtx) + {t}
  {
    var vtx' := vtx + [t];
    forall i | 0 <= i < |vtx'| ensures PlacedAt(mp, vtx', i) {
      assert vtx'[..i] == vtx[..i];
      assert i < |vtx| ==> PlacedAt(mp, vtx, i);
    }
  }

  /** The order of SortForBlock: by ancestor count, then by hash. */
  predicate Before(mp: Mempool, a: Tx, b: Tx)
    requires a in mp.countWithAncestors && b in mp.countWithAncestors
  {
    || mp.countWithAncestors[a] < mp.countWithAncestors[b]
    || (mp.countWithAncestors[a] == mp.countWithAncestors[b] && a < b)
  }

  ghost predicate InOrder(mp: Mempool, s: seq<Tx>)
  {
    && (forall i :: 0 <= i < |s| ==> s[i] in mp.countWithAncestors)
    && (forall i, j :: 0 <= i < j < |s| ==> Before(mp, s[i], s[j]))
  }

  lemma InsertedInOrder(mp: Mempool, s: seq<Tx>, t: Tx, k: nat)
    requires InOrder(mp, s) && t in mp.countWithAncestors && t !in Elements(s) && k <= |s|
    requires forall i :: 0 <= i < k ==> Before(mp, s[i], t)
    requires k < |s| ==> !Before(mp, s[k], t)
    ensures InOrder(mp, s[..k] + [t] + s[k..]) && Elements(s[..k] + [t] + s[k..]) == Elements(s) + {t}
  {
    var r := s[..k] + [t] + s[k..];
    assert forall i :: 0 <= i < |r| ==> r[i] == if i < k then s[i] else if i == k then t else s[i - 1];
    assert k < |s| ==> s[k] in Elements(s);
    assert forall j :: k <= j < |s| ==> Before(mp, t, s[j]);
    InsertedElements(s, t, k);
  }

  lemma InsertedElements(s: seq<Tx>, t: Tx, k: nat)
    requires k <= |s|
    ensures Elements(s[..k] + [t] + s[k..]) == Elements(s) + {t}
  {
    forall x ensures x in Elements(s[..k] + [t] + s[k..]) <==> x in Elements(s) + {t} {
      assert s == s[..k] + s[k..];
      assert x in s <==> x in s[..k] || x in s[k..];
    }
  }

  lemma ElementsNext(s: seq<Tx>, i: nat, prefix: seq<Tx>, mod: map<Tx, Modified>)
    requires i < |s|
    ensures prefix + s[..i + 1] == prefix + s[..i] + [s[i]]
    ensures Elements(s[..i + 1]) == Elements(s[..i]) + {s[i]} && s[i] in Elements(s)
    ensures mod - Elements(s[..i + 1]) == mod - Elements(s[..i]) - {s[i]}
  {
    assert s[..i + 1] == s[..i] + [s[i]];
    assert Elements(s[..i + 1]) == Elements(s[..i]) + {s[i]};
  }

  /** In a sorted package every transaction finds its ancestors in the block or before itself. */
  lemma SortedPackage(mp: Mempool, inBlock: set<Tx>, t: Tx, s: seq<Tx>, i: nat)
    requires WellFormed(mp) && t in Txs(mp)
    requires InOrder(mp, s) && Elements(s) == Missing(mp, t, inBlock) && i < |s|
    ensures s[i] in Txs(mp) && mp.ancestors[s[i]] <= inBlock + Elements(s[..i])
    ensures s[i] !in s[..i] && s[i] !in inBlock
  {
    assert s[i] in Elements(s);
    assert AncestorsOk(mp, t);
    assert s[i] == t || Nested(mp, t, s[i]);
    forall a | a in mp.ancestors[s[i]] ensures a in inBlock + Elements(s[..i]) {
      AncestorCountSmaller(mp, s[i], a);
      if a !in inBlock {
        assert a in Elements(s);
        var j :| 0 <= j < |s| && s[j] == a;
        assert j < i;
        assert s[..i][j] == a;
      }
    }
  }

  /** What a package adds to the block is bounded by the size and sigops it was tested with. */
  lemma PackageFits(mp: Mempool, inBlock: set<Tx>, package: set<Tx>, packageSize: int, packageSigOps: int)
    requires WellFormed(mp) && inBlock <= Txs(mp) && package <= Txs(mp) && inBlock !! package
    requires Sum(package, mp.txSize) <= packageSize && Sum(package, mp.sigOpCost) <= packageSigOps
    ensures Sum(inBlock + package, mp.txWeight) <= Sum(inBlock, mp.txWeight) + 4 * packageSize
    ensures Sum(inBlock + package, mp.sigOpCost) <= Sum(inBlock, mp.sigOpCost) + packageSigOps
  {
    SumUnion(inBlock, package, mp.txWeight);
    SumUnion(inBlock, package, mp.sigOpCost);
    forall x | x in package ensures mp.txWeight[x] <= 4 * mp.txSize[x] { }
    SumScaled(package, mp.txWeight, mp.txSize);
  }

  /** A transaction that is not in mapModifiedTx and has not failed has its whole package missing. */
  lemma FreshPackage(mp: Mempool, inBlock: set<Tx>, mod: map<Tx, Modified>, failed: set<Tx>, t: Tx)
    requires WellFormed(mp) && t in Txs(mp) && t !in inBlock && t !in mod && t !in failed
    requires ModOk(mp, inBlock, mod, failed)
    ensures AncestorsOk(mp, t) && BoundsMissing(mp, inBlock, t, Cached(mp, t), failed)
  {
    assert CachesExact(mp, t) && Covered(mp, inBlock, mod, failed, t);
    assert Missing(mp, t, inBlock) == Package(mp, t);
  }

  /** Giving up on an entry of mapModifiedTx keeps the bounds. */
  lemma FailedKeeps(mp: Mempool, inBlock: set<Tx>, mod: map<Tx, Modified>, failed: set<Tx>, t: Tx)
    requires HasAll(mp) && IsDag(mp) && ModOk(mp, inBlock, mod, failed) && t in mod
    ensures ModOk(mp, inBlock, mod - {t}, failed + {t})
  {
    forall x | x in mod - {t}
      ensures AncestorsOk(mp, x) && mp.ancestors[x] * inBlock != {}
      ensures BoundsMissing(mp, inBlock, x, (mod - {t})[x], failed + {t})
    {
      assert AncestorsOk(mp, x) && BoundsMissing(mp, inBlock, x, mod[x], failed);
    }
    forall x | x in Txs(mp) ensures Covered(mp, inBlock, mod - {t}, failed + {t}, x) {
      assert Covered(mp, inBlock, mod, failed, x);
    }
  }

  // ----- One descendant accounted for -----

  /** The fee that is taken away: the modified one where the entry is made, and then the plain one. */
  function FirstFee(mp: Mempool, isNew: bool, x: Tx): int
    requires x in mp.fee && x in mp.modifiedFee
  {
    if isNew then mp.modifiedFee[x] else mp.fee[x]
  }

  /** An entry with one included ancestor taken away. */
  function Reduced(mp: Mempool, isNew: bool, start: Modified, x: Tx): Modified
    requires HasAll(mp) && x in Txs(mp)
  {
    Modified(start.nSizeWithAncestors - mp.txSize[x], start.nModFeesWithAncestors - FirstFee(mp, isNew, x),
             start.nSigOpCostWithAncestors - mp.sigOpCost[x])
  }

  lemma AccountedNothing(mp: Mempool, mod: map<Tx, Modified>, added: set<Tx>)
    requires HasAll(mp) && IsDag(mp) && mod.Keys <= Txs(mp)
    ensures Accounted(mp, mod, mod, added, {})
  {
    forall d | d in Txs(mp) ensures AncestorsOk(mp, d) && AccountedAt(mp, mod, mod, added, {}, d) {
      assert AncestorsOk(mp, d);
      assert mp.ancestors[d] * {} == {};
    }
  }

  /** Entry `d` after one more included ancestor. */
  lemma AccountedOneMore(mp: Mempool, before: map<Tx, Modified>, m: map<Tx, Modified>, m': map<Tx, Modified>,
                         added: set<Tx>, done: set<Tx>, x: Tx, d: Tx)
    requires HasAll(mp) && d in Txs(mp) && AncestorsOk(mp, d) && done <= Txs(mp) && x in Txs(mp) && x !in done
    requires AccountedAt(mp, before, m, added, done, d)
    requires x in mp.ancestors[d] && d !in added && d in m'
    requires m'[d] == Reduced(mp, d !in m, Entry(mp, m, d), x)
    ensures AccountedAt(mp, before, m', added, done + {x}, d)
  {
    var inc := mp.ancestors[d] * done;
    assert mp.ancestors[d] * (done + {x}) == inc + {x};
    SumInsert(inc, mp.txSize, x);
    SumInsert(inc, mp.sigOpCost, x);
    SumInsert(inc, mp.fee, x);
    assert inc == {} ==> Sum(inc, mp.txSize) == 0 && Sum(inc, mp.sigOpCost) == 0 && Sum(inc, mp.fee) == 0;
    assert inc == {} ==> x in inc + {x};
  }

  /** An entry that does not descend from the included transaction. */
  lemma AccountedUnrelated(mp: Mempool, before: map<Tx, Modified>, m: map<Tx, Modified>, m': map<Tx, Modified>,
                           added: set<Tx>, done: set<Tx>, x: Tx, d: Tx)
    requires HasAll(mp) && d in Txs(mp) && AncestorsOk(mp, d) && done <= Txs(mp) && x in Txs(mp)
    requires AccountedAt(mp, before, m, added, done, d)
    requires x !in mp.ancestors[d] || d in added
    requires (d in m' <==> d in m) && (d in m ==> m'[d] == m[d])
    ensures AccountedAt(mp, before, m', added, done + {x}, d)
  {
    assert x !in mp.ancestors[d] ==> mp.ancestors[d] * (done + {x}) == mp.ancestors[d] * done;
  }

  /** Entry `d` when `it` has been accounted for in the entries of `seen`. */
  ghost predicate UpdatedAt(mp: Mempool, it: Tx, seen: set<Tx>, mod: map<Tx, Modified>, m: map<Tx, Modified>, d: Tx)
    requires HasAll(mp) && it in Txs(mp) && d in Txs(mp)
  {
    if d in seen then d in m && m[d] == Reduced(mp, d !in mod, Entry(mp, mod, d), it)
    else (d in m <==> d in mod) && (d in m ==> m[d] == mod[d])
  }

  ghost predicate Updated(mp: Mempool, it: Tx, seen: set<Tx>, mod: map<Tx, Modified>, m: map<Tx, Modified>)
    requires HasAll(mp) && it in Txs(mp)
  {
    forall d {:trigger UpdatedAt(mp, it, seen, mod, m, d)} :: d in Txs(mp) ==> UpdatedAt(mp, it, seen, mod, m, d)
  }

  lemma UpdatedOneMore(mp: Mempool, it: Tx, seen: set<Tx>, mod: map<Tx, Modified>, m: map<Tx, Modified>,
                       m': map<Tx, Modified>, desc: Tx)
    requires HasAll(mp) && it in Txs(mp) && desc in Txs(mp) && desc !in seen && m.Keys <= Txs(mp)
    requires Updated(mp, it, seen, mod, m)
    requires m'.Keys == m.Keys + {desc} && m' - {desc} == m - {desc}
    requires m'[desc] == Reduced(mp, desc !in m, Entry(mp, m, desc), it)
    ensures Updated(mp, it, seen + {desc}, mod, m') && m'.Keys <= Txs(mp) && |seen + {desc}| == |seen| + 1
  {
    forall d | d in Txs(mp) ensures UpdatedAt(mp, it, seen + {desc}, mod, m', d) {
      assert UpdatedAt(mp, it, seen, mod, m, d);
      assert d != desc && d in m ==> m'[d] == (m' - {desc})[d] == (m - {desc})[d];
    }
  }

  lemma StartOk(mp: Mempool)
    requires HasAll(mp)
    ensures ModOk(mp, {}, map[], {})
  {
    forall t | t in Txs(mp) ensures Covered(mp, {}, map[], {}, t) {
      assert mp.ancestors[t] * {} == {};
    }
  }

  // ----- Scores -----

  /** A fee for a size. */
  datatype Rate = Rate(fee: int, size: int)

  /** What an entry is sorted by: the lower of the fee rates of the transaction and of its package. */
  function RateOf(mp: Mempool, t: Tx, m: Modified): Rate
    requires t in mp.modifiedFee && t in mp.txSize
  {
    if mp.modifiedFee[t] * m.nSizeWithAncestors > m.nModFeesWithAncestors * mp.txSize[t]
    then Rate(m.nModFeesWithAncestors, m.nSizeWithAncestors)
    else Rate(mp.modifiedFee[t], mp.txSize[t])
  }

  predicate Above(a: Rate, b: Rate) { a.fee * b.size > a.size * b.fee }

  /** The higher rate comes first; among equals the smaller hash. */
  predicate Better(mp: Mempool, t: Tx, m: Modified, u: Tx, n: Modified)
    requires t in mp.modifiedFee && t in mp.txSize && u in mp.modifiedFee && u in mp.txSize
  {
    var a, b := RateOf(mp, t, m), RateOf(mp, u, n);
    if a.fee * b.size == a.size * b.fee then t < u else Above(a, b)
  }

  lemma Product3(x: int, y: int, z: int)
    ensures (x * y) * z == (x * z) * y && x * (y * z) == (x * y) * z
  {
  }

  lemma ProductsInOrder(x: int, y: int, d: int)
    requires d > 0
    ensures x <= y <==> x * d <= y * d
    ensures x < y <==> x * d < y * d
  {
    if x <= y { MulMonotone(x, y, d); } else { MulMonotone(y, x, d); }
    if x < y { MulMonotone(x + 1, y, d); } else { MulMonotone(y, x, d); }
    assert (x + 1) * d == x * d + d;
    if x > y {
      MulMonotone(y + 1, x, d);
      assert (y + 1) * d == y * d + d;
    }
  }

  /** Fee rates are in order like fractions. */
  lemma RatesTransitive(a: Rate, b: Rate, c: Rate)
    requires a.size > 0 && b.size > 0 && c.size > 0
    requires a.fee * b.size >= a.size * b.fee && b.fee * c.size >= b.size * c.fee
    ensures a.fee * c.size >= a.size * c.fee
    ensures Above(a, b) || Above(b, c) ==> Above(a, c)
  {
    ProductsInOrder(a.size * b.fee, a.fee * b.size, c.size);
    ProductsInOrder(b.size * c.fee, b.fee * c.size, a.size);
    ProductsInOrder(a.size * c.fee, a.fee * c.size, b.size);
    Product3(a.fee, b.size, c.size);
    Product3(a.size, b.fee, c.size);
    Product3(b.fee, c.size, a.size);
    Product3(b.size, c.fee, a.size);
    Product3(a.size, c.fee, b.size);
  }

  /** An entry of a transaction outside the block has a positive size. */
  lemma EntrySize(mp: Mempool, inBlock: set<Tx>, t: Tx, m: Modified, failed: set<Tx>)
    requires WellFormed(mp) && t in Txs(mp) && t !in inBlock && AncestorsOk(mp, t)
    requires BoundsMissing(mp, inBlock, t, m, failed)
    ensures RateOf(mp, t, m).size > 0
  {
    SumRemove(Missing(mp, t, inBlock), mp.txSize, t);
  }

  lemma BetterTransitive(mp: Mempool, t: Tx, m: Modified, u: Tx, n: Modified, v: Tx, o: Modified)
    requires HasAll(mp) && t in Txs(mp) && u in Txs(mp) && v in Txs(mp)
    requires RateOf(mp, t, m).size > 0 && RateOf(mp, u, n).size > 0 && RateOf(mp, v, o).size > 0
    requires Better(mp, t, m, u, n) && Better(mp, u, n, v, o)
    ensures Better(mp, t, m, v, o)
  {
    RatesTransitive(RateOf(mp, t, m), RateOf(mp, u, n), RateOf(mp, v, o));
    var a, b, c := RateOf(mp, t, m), RateOf(mp, u, n), RateOf(mp, v, o);
    if a.fee * b.size == a.size * b.fee && b.fee * c.size == b.size * c.fee { RatesAntisymmetric(a, b, c); }
  }

  lemma RatesAntisymmetric(a: Rate, b: Rate, c: Rate)
    requires a.size > 0 && b.size > 0 && c.size > 0
    requires a.fee * b.size == a.size * b.fee && b.fee * c.size == b.size * c.fee
    ensures a.fee * c.size == a.size * c.fee
  {
    RatesTransitive(a, b, c);
    RatesTransitive(c, b, a);
  }

  /** Of two different transactions one is better. */
  lemma BetterTotal(mp: Mempool, t: Tx, m: Modified, u: Tx, n: Modified)
    requires HasAll(mp) && t in Txs(mp) && u in Txs(mp) && t != u && !Better(mp, t, m, u, n)
    ensures Better(mp, u, n, t, m)
  {
  }

  // ----- A mempool that fits into one block -----

  /** Everything fits at once and is allowed. */
  ghost predicate Roomy(mp: Mempool, nBlockMaxWeight: nat, allowed: set<Tx>)
    requires HasAll(mp)
  {
    && 4000 + 4 * Sum(Txs(mp), mp.txSize) < nBlockMaxWeight
    && 400 + Sum(Txs(mp), mp.sigOpCost) < MAX_BLOCK_SIGOPS_COST
    && Txs(mp) <= allowed
  }

  lemma SumPart(a: set<Tx>, b: set<Tx>, all: set<Tx>, w: map<Tx, nat>)
    requires all <= w.Keys && a <= all && b <= all && a !! b
    ensures Sum(a, w) + Sum(b, w) <= Sum(all, w)
  {
    SumUnion(a, b, w);
    SumMinus(all, a + b, w);
  }

  /** Then every candidate that has not failed before fits. */
  lemma RoomyFits(mp: Mempool, inBlock: set<Tx>, nBlockMaxWeight: nat, allowed: set<Tx>, t: Tx, m: Modified)
    requires WellFormed(mp) && Roomy(mp, nBlockMaxWeight, allowed) && inBlock <= Txs(mp)
    requires t in Txs(mp) && AncestorsOk(mp, t) && BoundsMissing(mp, inBlock, t, m, {})
    ensures 4000 + Sum(inBlock, mp.txWeight) + 4 * m.nSizeWithAncestors < nBlockMaxWeight
    ensures 400 + Sum(inBlock, mp.sigOpCost) + m.nSigOpCostWithAncestors < MAX_BLOCK_SIGOPS_COST
    ensures Missing(mp, t, inBlock) <= allowed
  {
    SumPart(inBlock, Missing(mp, t, inBlock), Txs(mp), mp.txSize);
    SumPart(inBlock, Missing(mp, t, inBlock), Txs(mp), mp.sigOpCost);
    forall x | x in inBlock ensures mp.txWeight[x] <= 4 * mp.txSize[x] { }
    SumScaled(inBlock, mp.txWeight, mp.txSize);
  }

  /** A transaction outside the block whose missing package pays less than its size asks for, as far as is known. */
  ghost predicate PaysTooLittle(mp: Mempool, inBlock: set<Tx>, minFee: int -> int, t: Tx, m: Modified)
    requires HasAll(mp)
  {
    && t in Txs(mp) && t !in inBlock && AncestorsOk(mp, t) && BoundsMissing(mp, inBlock, t, m, {})
    && m.nModFeesWithAncestors < minFee(m.nSizeWithAncestors)
  }

  /** In its actual fees. */
  ghost predicate IsCheap(mp: Mempool, inBlock: set<Tx>, minFee: int -> int, t: Tx)
    requires HasAll(mp)
  {
    && t in Txs(mp) && t !in inBlock && Missing(mp, t, inBlock) <= Txs(mp)
    && Sum(Missing(mp, t, inBlock), mp.fee) < minFee(Sum(Missing(mp, t, inBlock), mp.txSize))
  }

  ghost predicate SomePaysTooLittle(mp: Mempool, inBlock: set<Tx>, minFee: int -> int)
    requires HasAll(mp)
  {
    exists t, m :: PaysTooLittle(mp, inBlock, minFee, t, m)
  }

  ghost predicate SomeIsCheap(mp: Mempool, inBlock: set<Tx>, minFee: int -> int)
    requires HasAll(mp)
  {
    exists t :: IsCheap(mp, inBlock, minFee, t)
  }

  /** Without fees changed by hand, what pays too little as far as is known does so in its actual fees. */
  lemma TooLittleIsCheap(mp: Mempool, inBlock: set<Tx>, minFee: int -> int)
    requires WellFormed(mp) && Unprioritised(mp) && SomePaysTooLittle(mp, inBlock, minFee)
    ensures SomeIsCheap(mp, inBlock, minFee)
  {
    var t, m :| PaysTooLittle(mp, inBlock, minFee, t, m);
    assert CachesExact(mp, t);
    FeesOfMissing(mp, inBlock, t, m);
    assert IsCheap(mp, inBlock, minFee, t);
  }

  // ----- Runs -----

  /** What a block is made under: the mempool, the weight limit, the fee floor, and what may be included. */
  datatype Rules = Rules(mp: Mempool, nBlockMaxWeight: nat, blockMinFee: int -> int, allowed: set<Tx>)

  /** What becomes of a candidate. */
  datatype Verdict = BelowFloor | DoesNotFit | NotAllowed | Included

  /** A package of the given size and cost fits on top of a block. */
  ghost predicate Fits(c: Rules, s: set<Tx>, m: Modified)
    requires HasAll(c.mp) && s <= Txs(c.mp)
  {
    && 4000 + Sum(s, c.mp.txWeight) + WITNESS_SCALE_FACTOR * m.nSizeWithAncestors < c.nBlockMaxWeight
    && 400 + Sum(s, c.mp.sigOpCost) + m.nSigOpCostWithAncestors < MAX_BLOCK_SIGOPS_COST
  }

  ghost function Judge(c: Rules, s: set<Tx>, t: Tx, m: Modified): Verdict
    requires HasAll(c.mp) && s <= Txs(c.mp) && t in Txs(c.mp)
  {
    if m.nModFeesWithAncestors < c.blockMinFee(m.nSizeWithAncestors) then BelowFloor
    else if !Fits(c, s, m) then DoesNotFit
    else if Missing(c.mp, t, s) <= c.allowed then Included
    else NotAllowed
  }

  /**
    One round: transaction `t` was the candidate with entry `m` when the block had `k` transactions. The entry is
    `exact` unless the transaction had failed before.
   */
  datatype Round = Round(t: Tx, m: Modified, exact: bool, k: nat, verdict: Verdict)

  ghost predicate IsRefusal(x: Round, t: Tx)
  {
    x.t == t && x.exact && (x.verdict == DoesNotFit || x.verdict == NotAllowed)
  }

  /** A transaction was refused in some round, on exact information. */
  ghost predicate RefusedIn(rounds: seq<Round>, t: Tx)
  {
    exists i :: 0 <= i < |rounds| && IsRefusal(rounds[i], t)
  }

  ghost predicate RoundOk(c: Rules, vtx: seq<Tx>, x: Round)
  {
    && HasAll(c.mp) && x.k <= |vtx| && x.t in Txs(c.mp) && AncestorsOk(c.mp, x.t)
    && Elements(vtx[..x.k]) <= Txs(c.mp) && x.t !in Elements(vtx[..x.k])
    && BoundsMissing(c.mp, Elements(vtx[..x.k]), x.t, x.m, if x.exact then {} else {x.t})
    && x.verdict == Judge(c, Elements(vtx[..x.k]), x.t, x.m)
  }

  /** A transaction outside the block scores less, as far as is known about it. */
  ghost predicate IsOutdone(mp: Mempool, s: set<Tx>, t: Tx, m: Modified, u: Tx)
    requires HasAll(mp) && t in Txs(mp) && u in Txs(mp)
  {
    exists n :: AncestorsOk(mp, u) && BoundsMissing(mp, s, u, n, {}) && Better(mp, t, m, u, n)
  }

  /** The candidate is the best of all that are not in the block and have not been refused. */
  ghost predicate IsBest(mp: Mempool, s: set<Tx>, h: seq<Round>, t: Tx, m: Modified)
    requires HasAll(mp) && t in Txs(mp)
  {
    forall u {:trigger IsOutdone(mp, s, t, m, u)} :: u in Txs(mp) && u !in s && u != t ==>
      RefusedIn(h, u) || IsOutdone(mp, s, t, m, u)
  }

  /** No transaction is considered twice for the same block. */
  ghost predicate IsFirst(h: seq<Round>, x: Round)
  {
    forall i :: 0 <= i < |h| && h[i].k == x.k ==> h[i].t != x.t
  }

  ghost predicate StepOk(c: Rules, vtx: seq<Tx>, h: seq<Round>, x: Round)
  {
    && RoundOk(c, vtx, x) && (x.exact || RefusedIn(h, x.t))
    && IsBest(c.mp, Elements(vtx[..x.k]), h, x.t, x.m) && IsFirst(h, x)
  }

  /** What a round adds to the block: the missing package, or nothing. */
  ghost predicate Adds(c: Rules, vtx: seq<Tx>, x: Round, upto: nat)
    requires x.t in Txs(c.mp)
  {
    if x.verdict == Included then
      x.k < upto <= |vtx| && Elements(vtx[x.k..upto]) == Missing(c.mp, x.t, Elements(vtx[..x.k]))
    else upto == x.k
  }

  /** How many did not fit since the last one that was included. */
  ghost function Misses(rounds: seq<Round>): nat
  {
    if rounds == [] then 0
    else
      var h, x := rounds[..|rounds| - 1], rounds[|rounds| - 1];
      match x.verdict
      case Included => 0
      case DoesNotFit => Misses(h) + 1
      case _ => Misses(h)
  }

  ghost function Inclusions(rounds: seq<Round>): nat
  {
    if rounds == [] then 0
    else Inclusions(rounds[..|rounds| - 1]) + if rounds[|rounds| - 1].verdict == Included then 1 else 0
  }

  /** The assembler stops: at the fee floor, or when many in a row did not fit into a nearly full block. */
  ghost predicate Stops(c: Rules, vtx: seq<Tx>, rounds: seq<Round>)
  {
    rounds != [] &&
    var x := rounds[|rounds| - 1];
    || x.verdict == BelowFloor
    || (&& x.verdict == DoesNotFit && Misses(rounds) > MAX_CONSECUTIVE_FAILURES
        && x.k <= |vtx| && Elements(vtx[..x.k]) <= c.mp.txWeight.Keys
        && 4000 + Sum(Elements(vtx[..x.k]), c.mp.txWeight) > c.nBlockMaxWeight - 4000)
  }

  /** Where the block is after a round. */
  function NextK(rounds: seq<Round>, upto: nat, i: nat): nat
  {
    if i + 1 < |rounds| then rounds[i + 1].k else upto
  }

  ghost predicate RunStep(c: Rules, vtx: seq<Tx>, rounds: seq<Round>, upto: nat, i: nat)
  {
    && i < |rounds| && !Stops(c, vtx, rounds[..i]) && StepOk(c, vtx, rounds[..i], rounds[i])
    && Adds(c, vtx, rounds[i], NextK(rounds, upto, i))
  }

  /** Rounds that lead from the first `from` transactions of a block to the first `upto`. */
  ghost predicate IsRun(c: Rules, vtx: seq<Tx>, from: nat, rounds: seq<Round>, upto: nat)
  {
    && from == (if rounds == [] then upto else rounds[0].k)
    && forall i: nat {:trigger RunStep(c, vtx, rounds, upto, i)} :: i < |rounds| ==> RunStep(c, vtx, rounds, upto, i)
  }

  /** One more round. */
  lemma RunGrows(c: Rules, vtx: seq<Tx>, from: nat, rounds: seq<Round>, x: Round, upto: nat)
    requires IsRun(c, vtx, from, rounds, x.k) && !Stops(c, vtx, rounds) && StepOk(c, vtx, rounds, x)
    requires Adds(c, vtx, x, upto)
    ensures IsRun(c, vtx, from, rounds + [x], upto)
    ensures Misses(rounds + [x]) ==
      if x.verdict == Included then 0 else if x.verdict == DoesNotFit then Misses(rounds) + 1 else Misses(rounds)
    ensures Inclusions(rounds + [x]) == Inclusions(rounds) + if x.verdict == Included then 1 else 0
  {
    var all := rounds + [x];
    assert all[..|rounds|] == rounds;
    forall i: nat | i < |all| ensures RunStep(c, vtx, all, upto, i) {
      if i < |rounds| {
        assert RunStep(c, vtx, rounds, x.k, i);
        assert all[..i] == rounds[..i] && all[i] == rounds[i] && NextK(all, upto, i) == NextK(rounds, x.k, i);
      }
    }
  }

  /** A run stays one when the block grows. */
  lemma RunStays(c: Rules, vtx: seq<Tx>, vtx': seq<Tx>, from: nat, rounds: seq<Round>, upto: nat)
    requires IsRun(c, vtx, from, rounds, upto) && vtx <= vtx'
    ensures IsRun(c, vtx', from, rounds, upto) && (Stops(c, vtx', rounds) <==> Stops(c, vtx, rounds))
  {
    forall i: nat | i < |rounds| ensures RunStep(c, vtx', rounds, upto, i) { StepStays(c, vtx, vtx', rounds, upto, i); }
    if rounds != [] {
      assert RunStep(c, vtx, rounds, upto, |rounds| - 1);
      StopStays(c, vtx, vtx', rounds);
    }
  }

  lemma StopStays(c: Rules, vtx: seq<Tx>, vtx': seq<Tx>, h: seq<Round>)
    requires vtx <= vtx' && (h != [] ==> h[|h| - 1].k <= |vtx|)
    ensures Stops(c, vtx', h) <==> Stops(c, vtx, h)
  {
    if h != [] { assert vtx'[..h[|h| - 1].k] == vtx[..h[|h| - 1].k]; }
  }

  lemma StepStays(c: Rules, vtx: seq<Tx>, vtx': seq<Tx>, rounds: seq<Round>, upto: nat, i: nat)
    requires vtx <= vtx' && i < |rounds| && RunStep(c, vtx, rounds, upto, i)
    requires forall j: nat {:trigger RunStep(c, vtx, rounds, upto, j)} ::
      j < |rounds| ==> RunStep(c, vtx, rounds, upto, j)
    ensures RunStep(c, vtx', rounds, upto, i)
  {
    var x, next := rounds[i], NextK(rounds, upto, i);
    assert vtx'[..x.k] == vtx[..x.k];
    assert x.verdict == Included ==> vtx'[x.k..next] == vtx[x.k..next];
    if i > 0 { assert RunStep(c, vtx, rounds, upto, i - 1) && rounds[..i][i - 1] == rounds[i - 1]; }
    StopStays(c, vtx, vtx', rounds[..i]);
  }

  lemma RefusedStays(rounds: seq<Round>, x: Round, t: Tx)
    ensures RefusedIn(rounds, t) ==> RefusedIn(rounds + [x], t)
    ensures IsRefusal(x, t) ==> RefusedIn(rounds + [x], t)
  {
    var all := rounds + [x];
    if RefusedIn(rounds, t) {
      var i :| 0 <= i < |rounds| && IsRefusal(rounds[i], t);
      assert all[i] == rounds[i];
    }
    assert all[|rounds|] == x;
  }

  lemma RoundOfRun(c: Rules, vtx: seq<Tx>, from: nat, rounds: seq<Round>, upto: nat, i: nat)
    requires IsRun(c, vtx, from, rounds, upto) && i < |rounds|
    ensures RoundOk(c, vtx, rounds[i]) && (rounds[i].exact || RefusedIn(rounds[..i], rounds[i].t))
  {
    assert RunStep(c, vtx, rounds, upto, i);
  }

  /** On top of some first transactions of the block, what is missing for a transaction does not fit or may not. */
  ghost predicate DoesNotGo(c: Rules, vtx: seq<Tx>, k: nat, t: Tx)
  {
    && HasAll(c.mp) && k <= |vtx| && t in Txs(c.mp) && Elements(vtx[..k]) <= Txs(c.mp)
    && Missing(c.mp, t, Elements(vtx[..k])) <= Txs(c.mp)
    && var s, rest := Elements(vtx[..k]), Missing(c.mp, t, Elements(vtx[..k]));
       || 4000 + Sum(s, c.mp.txWeight) + WITNESS_SCALE_FACTOR * Sum(rest, c.mp.txSize) >= c.nBlockMaxWeight
       || 400 + Sum(s, c.mp.sigOpCost) + Sum(rest, c.mp.sigOpCost) >= MAX_BLOCK_SIGOPS_COST
       || !(rest <= c.allowed)
  }

  ghost predicate WasRefused(c: Rules, vtx: seq<Tx>, t: Tx)
  {
    exists k: nat :: DoesNotGo(c, vtx, k, t)
  }

  /** Everything outside the block was. */
  ghost predicate AllWereRefused(c: Rules, vtx: seq<Tx>, inBlock: set<Tx>)
  {
    forall t {:trigger WasRefused(c, vtx, t)} :: t in Txs(c.mp) && t !in inBlock ==> WasRefused(c, vtx, t)
  }

  lemma RefusedBecause(c: Rules, vtx: seq<Tx>, from: nat, rounds: seq<Round>, upto: nat, t: Tx)
    requires IsRun(c, vtx, from, rounds, upto) && RefusedIn(rounds, t)
    ensures WasRefused(c, vtx, t)
  {
    var i :| 0 <= i < |rounds| && IsRefusal(rounds[i], t);
    RoundOfRun(c, vtx, from, rounds, upto, i);
    assert DoesNotGo(c, vtx, rounds[i].k, t);
  }

  // ----- What the loop has seen -----

  /** Entries of the score index that were passed are in the block or in mapModifiedTx, or were refused. */
  ghost predicate PassedAt(byScore: seq<Tx>, inBlock: set<Tx>, mod: map<Tx, Modified>, rounds: seq<Round>, j: nat)
  {
    j < |byScore| && (byScore[j] in inBlock || byScore[j] in mod || RefusedIn(rounds, byScore[j]))
  }

  ghost predicate Passed(byScore: seq<Tx>, mi: nat, inBlock: set<Tx>, mod: map<Tx, Modified>, rounds: seq<Round>)
  {
    forall j: nat {:trigger PassedAt(byScore, inBlock, mod, rounds, j)} :: j < mi ==>
      PassedAt(byScore, inBlock, mod, rounds, j)
  }

  ghost predicate AllRefused(failed: set<Tx>, rounds: seq<Round>)
  {
    forall t {:trigger RefusedIn(rounds, t)} :: t in failed ==> RefusedIn(rounds, t)
  }

  /** What was considered for the present block is not considered again. */
  ghost predicate IsSpent(mp: Mempool, mi: nat, mod: map<Tx, Modified>, failed: set<Tx>, t: Tx)
  {
    mi <= |mp.byScore| && t !in mod && (t in failed || t in mp.byScore[..mi])
  }

  ghost predicate AllSpent(mp: Mempool, mi: nat, mod: map<Tx, Modified>, failed: set<Tx>, rounds: seq<Round>, n: nat)
  {
    forall i {:trigger rounds[i]} :: 0 <= i < |rounds| && rounds[i].k == n ==> IsSpent(mp, mi, mod, failed, rounds[i].t)
  }

  ghost predicate Seen(mp: Mempool, mi: nat, inBlock: set<Tx>, mod: map<Tx, Modified>, failed: set<Tx>,
                       rounds: seq<Round>, n: nat)
  {
    && Passed(mp.byScore, mi, inBlock, mod, rounds) && AllRefused(failed, rounds)
    && AllSpent(mp, mi, mod, failed, rounds, n) && forall i :: 0 <= i < |rounds| ==> rounds[i].k <= n
  }

  lemma SeenStart(mp: Mempool, inBlock: set<Tx>, mod: map<Tx, Modified>, n: nat)
    ensures Seen(mp, 0, inBlock, mod, {}, [], n)
  {
  }

  lemma SeenSkipped(mp: Mempool, mi: nat, inBlock: set<Tx>, mod: map<Tx, Modified>, failed: set<Tx>, rounds: seq<Round>,
                    n: nat)
    requires Seen(mp, mi, inBlock, mod, failed, rounds, n) && mi < |mp.byScore|
    requires mp.byScore[mi] in mod || mp.byScore[mi] in inBlock || mp.byScore[mi] in failed
    ensures Seen(mp, mi + 1, inBlock, mod, failed, rounds, n)
  {
    forall j: nat | j < mi + 1 ensures PassedAt(mp.byScore, inBlock, mod, rounds, j) {
      if j < mi { assert PassedAt(mp.byScore, inBlock, mod, rounds, j); }
    }
    forall i | 0 <= i < |rounds| && rounds[i].k == n ensures IsSpent(mp, mi + 1, mod, failed, rounds[i].t) {
      assert IsSpent(mp, mi, mod, failed, rounds[i].t);
    }
  }

  lemma SeenRefused(mp: Mempool, mi: nat, inBlock: set<Tx>, mod: map<Tx, Modified>, failed: set<Tx>, rounds: seq<Round>,
                    x: Round, usingModified: bool)
    requires Seen(mp, mi, inBlock, mod, failed, rounds, x.k) && (x.exact <==> x.t !in failed)
    requires mi <= |mp.byScore| && (x.verdict == DoesNotFit || x.verdict == NotAllowed)
    requires if usingModified then x.t in mod
             else mi < |mp.byScore| && x.t == mp.byScore[mi] && x.t !in failed && x.t !in mod
    ensures
      if usingModified then Seen(mp, mi, inBlock, mod - {x.t}, failed + {x.t}, rounds + [x], x.k)
      else Seen(mp, mi + 1, inBlock, mod, failed, rounds + [x], x.k)
  {
    var all := rounds + [x];
    var mi' := if usingModified then mi else mi + 1;
    var mod' := if usingModified then mod - {x.t} else mod;
    var failed' := if usingModified then failed + {x.t} else failed;
    assert RefusedIn(all, x.t) by {
      assert x.t in failed ==> RefusedIn(rounds, x.t);
      RefusedStays(rounds, x, x.t);
    }
    forall j: nat | j < mi' ensures PassedAt(mp.byScore, inBlock, mod', all, j) {
      if j < mi { assert PassedAt(mp.byScore, inBlock, mod, rounds, j); }
      RefusedStays(rounds, x, mp.byScore[j]);
    }
    forall t | t in failed' ensures RefusedIn(all, t) {
      assert t in failed ==> RefusedIn(rounds, t);
      RefusedStays(rounds, x, t);
    }
    forall i | 0 <= i < |all| && all[i].k == x.k ensures IsSpent(mp, mi', mod', failed', all[i].t) {
      if i < |rounds| {
        assert rounds[i] == all[i] && IsSpent(mp, mi, mod, failed, rounds[i].t);
      } else if !usingModified {
        assert mp.byScore[..mi'][mi] == x.t;
      }
    }
    forall i | 0 <= i < |all| ensures all[i].k <= x.k { if i < |rounds| { assert all[i] == rounds[i]; } }
  }

  lemma SeenIncluded(mp: Mempool, mi: nat, mi': nat, inBlock: set<Tx>, inBlock': set<Tx>, mod: map<Tx, Modified>,
                     mod': map<Tx, Modified>, failed: set<Tx>, rounds: seq<Round>, x: Round, n: nat)
    requires Seen(mp, mi, inBlock, mod, failed, rounds, x.k) && x.k < n && mi <= |mp.byScore|
    requires inBlock <= inBlock' && mod.Keys <= mod'.Keys + inBlock'
    requires mi' == mi || (mi' == mi + 1 <= |mp.byScore| && mp.byScore[mi] in inBlock')
    ensures Seen(mp, mi', inBlock', mod', failed, rounds + [x], n)
  {
    var all := rounds + [x];
    forall j: nat | j < mi' ensures PassedAt(mp.byScore, inBlock', mod', all, j) {
      if j < mi { assert PassedAt(mp.byScore, inBlock, mod, rounds, j); }
      assert mp.byScore[j] in mod ==> mp.byScore[j] in mod'.Keys + inBlock';
      RefusedStays(rounds, x, mp.byScore[j]);
    }
    forall t | t in failed ensures RefusedIn(all, t) {
      assert RefusedIn(rounds, t);
      RefusedStays(rounds, x, t);
    }
    forall i | 0 <= i < |all| ensures all[i].k < n { if i < |rounds| { assert all[i] == rounds[i]; } }
  }

  /** At the end every transaction is in the block or was refused. */
  lemma SeenAll(mp: Mempool, inBlock: set<Tx>, failed: set<Tx>, rounds: seq<Round>, n: nat, t: Tx)
    requires WellFormed(mp) && Seen(mp, |mp.byScore|, inBlock, map[], failed, rounds, n) && t in Txs(mp)
    ensures t in inBlock || RefusedIn(rounds, t)
  {
    assert t in mp.byScore;
    var j :| 0 <= j < |mp.byScore| && mp.byScore[j] == t;
    assert PassedAt(mp.byScore, inBlock, map[], rounds, j);
  }

  // ----- The candidate is the best -----

  /** A transaction that is still to be considered. */
  ghost predicate IsOpen(mp: Mempool, mi: nat, mod: map<Tx, Modified>, failed: set<Tx>, u: Tx)
  {
    u !in failed && (u in mod || (mi <= |mp.byScore| && u !in mp.byScore[..mi]))
  }

  /** The candidate scores more than all that are still to be considered. */
  ghost predicate OutdoesOpen(mp: Mempool, mi: nat, inBlock: set<Tx>, mod: map<Tx, Modified>, failed: set<Tx>, t: Tx,
                              m: Modified)
    requires HasAll(mp) && t in Txs(mp)
  {
    forall u {:trigger IsOutdone(mp, inBlock, t, m, u)} ::
      u in Txs(mp) && u !in inBlock && u != t && IsOpen(mp, mi, mod, failed, u) ==> IsOutdone(mp, inBlock, t, m, u)
  }

  /** The best of mapModifiedTx. */
  ghost predicate IsBestOf(mp: Mempool, mod: map<Tx, Modified>, among: set<Tx>, t: Tx)
    requires HasAll(mp) && t in mod && mod.Keys <= Txs(mp) && among <= mod.Keys
  {
    forall u {:trigger mod[u]} :: u in among && u != t ==> Better(mp, t, mod[t], u, mod[u])
  }

  lemma BestOfMore(mp: Mempool, inBlock: set<Tx>, mod: map<Tx, Modified>, failed: set<Tx>, among: set<Tx>, t: Tx, u: Tx)
    requires WellFormed(mp) && ModOk(mp, inBlock, mod, failed) && t in mod && u in mod && among <= mod.Keys
    requires IsBestOf(mp, mod, among, t)
    ensures Better(mp, u, mod[u], t, mod[t]) ==> IsBestOf(mp, mod, among + {u}, u)
    ensures !Better(mp, u, mod[u], t, mod[t]) ==> IsBestOf(mp, mod, among + {u}, t)
  {
    ModSize(mp, inBlock, mod, failed, t);
    ModSize(mp, inBlock, mod, failed, u);
    if Better(mp, u, mod[u], t, mod[t]) {
      forall v | v in among + {u} && v != u ensures Better(mp, u, mod[u], v, mod[v]) {
        if v != t {
          ModSize(mp, inBlock, mod, failed, v);
          BetterTransitive(mp, u, mod[u], t, mod[t], v, mod[v]);
        }
      }
    } else if u != t {
      BetterTotal(mp, u, mod[u], t, mod[t]);
    }
  }

  lemma ModSize(mp: Mempool, inBlock: set<Tx>, mod: map<Tx, Modified>, failed: set<Tx>, t: Tx)
    requires WellFormed(mp) && ModOk(mp, inBlock, mod, failed) && t in mod
    ensures RateOf(mp, t, mod[t]).size > 0 && AncestorsOk(mp, t) && BoundsMissing(mp, inBlock, t, mod[t], failed)
  {
    assert BoundsMissing(mp, inBlock, t, mod[t], failed);
    EntrySize(mp, inBlock, t, mod[t], failed);
  }

  /** What is known of a transaction that has not failed is exact. */
  lemma BoundsExact(mp: Mempool, inBlock: set<Tx>, t: Tx, m: Modified, failed: set<Tx>)
    requires HasAll(mp) && t in Txs(mp) && AncestorsOk(mp, t) && BoundsMissing(mp, inBlock, t, m, failed)
    ensures BoundsMissing(mp, inBlock, t, m, if t in failed then {t} else {})
  {
  }

  /** Two steps of the order, or one. */
  lemma BetterThan(mp: Mempool, t: Tx, m: Modified, u: Tx, n: Modified, v: Tx, o: Modified)
    requires HasAll(mp) && t in Txs(mp) && u in Txs(mp) && v in Txs(mp) && v != t
    requires RateOf(mp, t, m).size > 0 && RateOf(mp, u, n).size > 0 && RateOf(mp, v, o).size > 0
    requires (t == u && m == n) || Better(mp, t, m, u, n)
    requires (u == v && n == o) || Better(mp, u, n, v, o)
    ensures Better(mp, t, m, v, o)
  {
    if !(t == u && m == n) && !(u == v && n == o) { BetterTransitive(mp, t, m, u, n, v, o); }
  }

  lemma OutdoneBy(mp: Mempool, s: set<Tx>, t: Tx, m: Modified, u: Tx, n: Modified)
    requires HasAll(mp) && t in Txs(mp) && u in Txs(mp)
    requires AncestorsOk(mp, u) && BoundsMissing(mp, s, u, n, {}) && Better(mp, t, m, u, n)
    ensures IsOutdone(mp, s, t, m, u)
  {
  }

  /** It beats an entry of mapModifiedTx if it is not worse than the best of those. */
  lemma OutdoesModified(mp: Mempool, inBlock: set<Tx>, mod: map<Tx, Modified>, failed: set<Tx>, best: Tx, t: Tx,
                        m: Modified, u: Tx)
    requires WellFormed(mp) && ModOk(mp, inBlock, mod, failed) && best in mod && IsBestOf(mp, mod, mod.Keys, best)
    requires t in Txs(mp) && t !in inBlock && AncestorsOk(mp, t) && BoundsMissing(mp, inBlock, t, m, failed)
    requires (t == best && m == mod[t]) || Better(mp, t, m, best, mod[best])
    requires u in mod && u != t && u !in failed
    ensures IsOutdone(mp, inBlock, t, m, u)
  {
    ModSize(mp, inBlock, mod, failed, u);
    ModSize(mp, inBlock, mod, failed, best);
    EntrySize(mp, inBlock, t, m, failed);
    BetterThan(mp, t, m, best, mod[best], u, mod[u]);
    BoundsExact(mp, inBlock, u, mod[u], failed);
    OutdoneBy(mp, inBlock, t, m, u, mod[u]);
  }

  /** It beats a later entry of the score index if it is not worse than the next one. */
  lemma OutdoesLater(mp: Mempool, inBlock: set<Tx>, mod: map<Tx, Modified>, failed: set<Tx>, mi: nat, j: nat, t: Tx,
                     m: Modified)
    requires WellFormed(mp) && ModOk(mp, inBlock, mod, failed) && mi <= j < |mp.byScore|
    requires t in Txs(mp) && t !in inBlock && AncestorsOk(mp, t) && BoundsMissing(mp, inBlock, t, m, failed)
    requires mp.byScore[mi] !in inBlock && mp.byScore[mi] !in mod && mp.byScore[mi] !in failed
    requires var first := mp.byScore[mi];
      (t == first && m == Cached(mp, first)) || Better(mp, t, m, first, Cached(mp, first))
    requires mp.byScore[j] !in inBlock && mp.byScore[j] !in mod && mp.byScore[j] !in failed && mp.byScore[j] != t
    ensures IsOutdone(mp, inBlock, t, m, mp.byScore[j])
  {
    var first, u := mp.byScore[mi], mp.byScore[j];
    FreshPackage(mp, inBlock, mod, failed, first);
    FreshPackage(mp, inBlock, mod, failed, u);
    EntrySize(mp, inBlock, first, Cached(mp, first), failed);
    EntrySize(mp, inBlock, u, Cached(mp, u), failed);
    EntrySize(mp, inBlock, t, m, failed);
    assert j > mi ==> InScoreOrder(mp, mi, j);
    BetterThan(mp, t, m, first, Cached(mp, first), u, Cached(mp, u));
    BoundsExact(mp, inBlock, u, Cached(mp, u), failed);
    OutdoneBy(mp, inBlock, t, m, u, Cached(mp, u));
  }

  /** Entries of the score index are different. */
  lemma ScoreOrderStrict(mp: Mempool, i: nat, j: nat)
    requires WellFormed(mp) && i < j < |mp.byScore|
    ensures mp.byScore[i] != mp.byScore[j]
  {
    assert InScoreOrder(mp, i, j);
  }

  lemma LaterIndex(s: seq<Tx>, mi: nat, u: Tx) returns (j: nat)
    requires mi <= |s| && u in s && u !in s[..mi]
    ensures mi <= j < |s| && s[j] == u
  {
    assert s == s[..mi] + s[mi..];
    var k :| 0 <= k < |s[mi..]| && s[mi..][k] == u;
    j := mi + k;
  }

  lemma CandidateOutdoes(mp: Mempool, inBlock: set<Tx>, mod: map<Tx, Modified>, failed: set<Tx>, mi: nat, best: Tx,
                         t: Tx, m: Modified)
    requires WellFormed(mp) && ModOk(mp, inBlock, mod, failed) && mi <= |mp.byScore|
    requires mod != map[] ==> best in mod && IsBestOf(mp, mod, mod.Keys, best)
    requires t in Txs(mp) && t !in inBlock && AncestorsOk(mp, t) && BoundsMissing(mp, inBlock, t, m, failed)
    requires mi < |mp.byScore| ==>
      mp.byScore[mi] !in inBlock && mp.byScore[mi] !in mod && mp.byScore[mi] !in failed
    requires mod != map[] ==> (t == best && m == mod[t]) || Better(mp, t, m, best, mod[best])
    requires mi < |mp.byScore| ==>
      var first := mp.byScore[mi]; (t == first && m == Cached(mp, first)) || Better(mp, t, m, first, Cached(mp, first))
    ensures OutdoesOpen(mp, mi, inBlock, mod, failed, t, m)
  {
    forall u | u in Txs(mp) && u !in inBlock && u != t && IsOpen(mp, mi, mod, failed, u)
      ensures IsOutdone(mp, inBlock, t, m, u)
    {
      if u in mod {
        OutdoesModified(mp, inBlock, mod, failed, best, t, m, u);
      } else {
        assert u in mp.byScore;
        var j := LaterIndex(mp.byScore, mi, u);
        OutdoesLater(mp, inBlock, mod, failed, mi, j, t, m);
      }
    }
  }

  /** The candidate makes a step of the run. */
  lemma CandidateStep(c: Rules, vtx: seq<Tx>, mi: nat, inBlock: set<Tx>, mod: map<Tx, Modified>, failed: set<Tx>,
                      rounds: seq<Round>, x: Round, usingModified: bool)
    requires WellFormed(c.mp) && inBlock == Elements(vtx) <= Txs(c.mp) && mi <= |c.mp.byScore|
    requires Seen(c.mp, mi, inBlock, mod, failed, rounds, |vtx|)
    requires x.t in Txs(c.mp) && x.t !in inBlock && AncestorsOk(c.mp, x.t)
    requires BoundsMissing(c.mp, inBlock, x.t, x.m, failed) && OutdoesOpen(c.mp, mi, inBlock, mod, failed, x.t, x.m)
    requires x.k == |vtx| && (x.exact <==> x.t !in failed) && x.verdict == Judge(c, inBlock, x.t, x.m)
    requires if usingModified then x.t in mod
             else mi < |c.mp.byScore| && x.t == c.mp.byScore[mi] && x.t !in failed && x.t !in mod
    ensures StepOk(c, vtx, rounds, x)
  {
    assert vtx[..x.k] == vtx;
    BoundsExact(c.mp, inBlock, x.t, x.m, failed);
    assert x.t in failed ==> RefusedIn(rounds, x.t);
    forall u | u in Txs(c.mp) && u !in inBlock && u != x.t
      ensures RefusedIn(rounds, u) || IsOutdone(c.mp, inBlock, x.t, x.m, u)
    {
      RefusedOrOpen(c.mp, mi, inBlock, mod, failed, rounds, |vtx|, u);
    }
    forall i | 0 <= i < |rounds| && rounds[i].k == x.k ensures rounds[i].t != x.t {
      assert IsSpent(c.mp, mi, mod, failed, rounds[i].t);
      if !usingModified && rounds[i].t in c.mp.byScore[..mi] {
        var j :| 0 <= j < mi && c.mp.byScore[..mi][j] == rounds[i].t;
        ScoreOrderStrict(c.mp, j, mi);
      }
    }
  }

  lemma RefusedOrOpen(mp: Mempool, mi: nat, inBlock: set<Tx>, mod: map<Tx, Modified>, failed: set<Tx>,
                      rounds: seq<Round>, n: nat, u: Tx)
    requires mi <= |mp.byScore| && Seen(mp, mi, inBlock, mod, failed, rounds, n) && u !in inBlock
    ensures RefusedIn(rounds, u) || IsOpen(mp, mi, mod, failed, u)
  {
    if u in failed {
      assert RefusedIn(rounds, u);
    } else if u !in mod && u in mp.byScore[..mi] {
      var j :| 0 <= j < mi && mp.byScore[..mi][j] == u;
      assert PassedAt(mp.byScore, inBlock, mod, rounds, j);
    }
  }

  lemma IncludedStep(c: Rules, vtx: seq<Tx>, vtx': seq<Tx>, inBlock: set<Tx>, inBlock': set<Tx>, mi: nat, mi': nat,
                     mod: map<Tx, Modified>, mod': map<Tx, Modified>, failed: set<Tx>, rounds: seq<Round>, x: Round)
    requires StepOk(c, vtx, rounds, x) && x.k == |vtx| && inBlock == Elements(vtx) && x.verdict == Included
    requires vtx <= vtx' && Elements(vtx'[|vtx|..]) == Missing(c.mp, x.t, inBlock) && x.t !in inBlock
    requires inBlock' == inBlock + Missing(c.mp, x.t, inBlock) <= Txs(c.mp) && mod.Keys <= mod'.Keys + inBlock'
    requires Seen(c.mp, mi, inBlock, mod, failed, rounds, |vtx|) && mi <= |c.mp.byScore|
    requires mi' == mi || (mi' == mi + 1 <= |c.mp.byScore| && c.mp.byScore[mi] == x.t)
    ensures StepOk(c, vtx', rounds, x) && Adds(c, vtx', x, |vtx'|)
    ensures Seen(c.mp, mi', inBlock', mod', failed, rounds + [x], |vtx'|)
    ensures Txs(c.mp) - inBlock' < Txs(c.mp) - inBlock
  {
    assert vtx[..x.k] == vtx && vtx'[..x.k] == vtx;
    assert x.t in Missing(c.mp, x.t, inBlock);
    assert vtx'[|vtx|..] != [];
    SeenIncluded(c.mp, mi, mi', inBlock, inBlock', mod, mod', failed, rounds, x, |vtx'|);
    assert x.t in Txs(c.mp) - inBlock && x.t !in Txs(c.mp) - inBlock';
  }

  /**
    Where everything fits, everything is included if the loop came to its end, and otherwise what is missing for some
    transaction pays too little, in its actual fees if none was changed by hand.
   */
  ghost predicate TakesAllThatPays(c: Rules, inBlock: set<Tx>, exhausted: bool)
  {
    HasAll(c.mp) && (Roomy(c.mp, c.nBlockMaxWeight, c.allowed) ==>
      && (exhausted ==> inBlock == Txs(c.mp))
      && (!exhausted ==> SomePaysTooLittle(c.mp, inBlock, c.blockMinFee))
      && (Unprioritised(c.mp) && inBlock != Txs(c.mp) ==> SomeIsCheap(c.mp, inBlock, c.blockMinFee)))
  }

  lemma RoomyRound(c: Rules, vtx: seq<Tx>, x: Round)
    requires WellFormed(c.mp) && RoundOk(c, vtx, x) && x.exact && Roomy(c.mp, c.nBlockMaxWeight, c.allowed)
    ensures x.verdict == BelowFloor || x.verdict == Included
  {
    RoomyFits(c.mp, Elements(vtx[..x.k]), c.nBlockMaxWeight, c.allowed, x.t, x.m);
  }

  /** Where everything fits nothing is refused. */
  lemma RoomyRefuses(c: Rules, vtx: seq<Tx>, from: nat, rounds: seq<Round>, upto: nat, t: Tx)
    requires WellFormed(c.mp) && IsRun(c, vtx, from, rounds, upto) && Roomy(c.mp, c.nBlockMaxWeight, c.allowed)
    ensures !RefusedIn(rounds, t)
  {
    if RefusedIn(rounds, t) {
      var i :| 0 <= i < |rounds| && IsRefusal(rounds[i], t);
      RoundOfRun(c, vtx, from, rounds, upto, i);
      RoomyRound(c, vtx, rounds[i]);
    }
  }

  lemma RunEnds(c: Rules, vtx: seq<Tx>, inBlock: set<Tx>, failed: set<Tx>, from: nat, rounds: seq<Round>)
    requires WellFormed(c.mp) && IsRun(c, vtx, from, rounds, |vtx|) && inBlock <= Txs(c.mp)
    requires Seen(c.mp, |c.mp.byScore|, inBlock, map[], failed, rounds, |vtx|)
    ensures AllWereRefused(c, vtx, inBlock) && TakesAllThatPays(c, inBlock, true)
  {
    forall t | t in Txs(c.mp) && t !in inBlock ensures WasRefused(c, vtx, t) {
      SeenAll(c.mp, inBlock, failed, rounds, |vtx|, t);
      RefusedBecause(c, vtx, from, rounds, |vtx|, t);
    }
    if Roomy(c.mp, c.nBlockMaxWeight, c.allowed) {
      forall t | t in Txs(c.mp) ensures t in inBlock {
        SeenAll(c.mp, inBlock, failed, rounds, |vtx|, t);
        RoomyRefuses(c, vtx, from, rounds, |vtx|, t);
      }
    }
  }

  lemma EarlierRefused(rounds: seq<Round>, i: nat, t: Tx)
    requires i <= |rounds| && RefusedIn(rounds[..i], t)
    ensures RefusedIn(rounds, t)
  {
    var j :| 0 <= j < i && IsRefusal(rounds[..i][j], t);
    assert rounds[j] == rounds[..i][j];
  }

  /** Where everything fits the only reason to stop is the fee floor. */
  lemma RoomyStops(c: Rules, vtx: seq<Tx>, inBlock: set<Tx>, from: nat, rounds: seq<Round>)
    requires WellFormed(c.mp) && IsRun(c, vtx, from, rounds, |vtx|) && inBlock == Elements(vtx) && Stops(c, vtx, rounds)
    ensures TakesAllThatPays(c, inBlock, false)
  {
    if Roomy(c.mp, c.nBlockMaxWeight, c.allowed) {
      var i := |rounds| - 1;
      var x := rounds[i];
      RoundOfRun(c, vtx, from, rounds, |vtx|, i);
      RoomyRefuses(c, vtx, from, rounds, |vtx|, x.t);
      if RefusedIn(rounds[..i], x.t) { EarlierRefused(rounds, i, x.t); }
      RoomyRound(c, vtx, x);
      assert RunStep(c, vtx, rounds, |vtx|, i);
      assert vtx[..|vtx|] == vtx;
      assert PaysTooLittle(c.mp, inBlock, c.blockMinFee, x.t, x.m);
      if Unprioritised(c.mp) { TooLittleIsCheap(c.mp, inBlock, c.blockMinFee); }
    }
  }

  // ----- The assembler -----

  /** The descendants that were not added have been visited, but for the rest. */
  ghost predicate Visited(seen: set<Tx>, rest: set<Tx>, descendants: set<Tx>, added: set<Tx>)
  {
    seen !! rest && seen <= descendants - added <= seen + rest
  }

  lemma VisitedAll(seen: set<Tx>, descendants: set<Tx>, added: set<Tx>)
    requires Visited(seen, {}, descendants, added)
    ensures seen == descendants - added
  {
  }

  lemma SeenNext(seen: set<Tx>, rest: set<Tx>, desc: Tx, descendants: set<Tx>, added: set<Tx>)
    requires Visited(seen, rest, descendants, added) && rest <= descendants && desc in rest
    ensures desc in added ==> Visited(seen, rest - {desc}, descendants, added)
    ensures desc !in added ==>
      Visited(seen + {desc}, rest - {desc}, descendants, added) && |seen + {desc}| == |seen| + 1
  {
  }

  class BlockAssembler {
    const mp: Mempool
    const nBlockMaxWeight: nat
    const blockMinFee: int -> int          // CFeeRate::GetFee
    const allowed: set<Tx>                 // what TestPackageTransactions accepts one by one
    var vtx: seq<Tx>                       // the block, without its coinbase
    var vTxFees: seq<nat>
    var vTxSigOpsCost: seq<nat>
    var nBlockWeight: nat
    var nBlockTx: nat
    var nBlockSigOpsCost: nat
    var nFees: nat
    var inBlock: set<Tx>

    /** The counters and the template describe the transactions that were added. */
    ghost predicate Counted()
      reads this
      requires HasAll(mp) && inBlock <= Txs(mp)
    {
      && nBlockTx == |vtx| == |vTxFees| == |vTxSigOpsCost|
      && nBlockWeight == 4000 + Sum(inBlock, mp.txWeight)
      && nBlockSigOpsCost == 400 + Sum(inBlock, mp.sigOpCost)
      && nFees == Sum(inBlock, mp.fee)
      && (forall i :: 0 <= i < |vtx| ==> vtx[i] in mp.fee && vtx[i] in mp.sigOpCost)
      && (forall i :: 0 <= i < |vtx| ==> vTxFees[i] == mp.fee[vtx[i]] && vTxSigOpsCost[i] == mp.sigOpCost[vtx[i]])
    }

    ghost function R(): Rules
      reads this
    {
      Rules(mp, nBlockMaxWeight, blockMinFee, allowed)
    }

    ghost predicate Tracks()
      reads this
    {
      && WellFormed(mp) && 4000 <= nBlockMaxWeight <= MAX_BLOCK_WEIGHT - 4000
      && Ordered(mp, vtx) && inBlock == Elements(vtx) && inBlock <= Txs(mp)
      && inBlock <= allowed
      && Counted()
    }

    ghost predicate WithinLimits()
      reads this
    {
      inBlock == {} || (nBlockWeight < nBlockMaxWeight && nBlockSigOpsCost < MAX_BLOCK_SIGOPS_COST)
    }

    constructor (mp: Mempool, maxWeight: nat, blockMinFee: int -> int, allowed: set<Tx>)
      requires WellFormed(mp)
      ensures Tracks() && WithinLimits() && vtx == []
      ensures this.mp == mp && this.allowed == allowed && this.blockMinFee == blockMinFee
      ensures 4000 <= maxWeight <= MAX_BLOCK_WEIGHT - 4000 ==> nBlockMaxWeight == maxWeight
    {
      this.mp, this.blockMinFee, this.allowed := mp, blockMinFee, allowed;
      var least := if maxWeight < MAX_BLOCK_WEIGHT - 4000 then maxWeight else MAX_BLOCK_WEIGHT - 4000;
      nBlockMaxWeight := if 4000 < least then least else 4000;
      vtx, vTxFees, vTxSigOpsCost := [], [], [];
      nBlockWeight, nBlockTx, nBlockSigOpsCost, nFees, inBlock := 4000, 0, 400, 0, {};
    }

    /** Remove from a set what the block already has. */
    method OnlyUnconfirmed(testSet: set<Tx>) returns (r: set<Tx>)
      ensures r == testSet - inBlock
    {
      r := testSet;
      var rest := testSet;
      while rest != {}
        invariant rest <= testSet && r == testSet - ((testSet - rest) * inBlock)
        decreases rest
      {
        var t :| t in rest;
        if t in inBlock { r := r - {t}; }
        rest := rest - {t};
      }
    }

    method TestPackage(packageSize: int, packageSigOpsCost: int) returns (fits: bool)
      ensures fits <==>
        && nBlockWeight + WITNESS_SCALE_FACTOR * packageSize < nBlockMaxWeight
        && nBlockSigOpsCost + packageSigOpsCost < MAX_BLOCK_SIGOPS_COST
    {
      if nBlockWeight + WITNESS_SCALE_FACTOR * packageSize >= nBlockMaxWeight { return false; }
      if nBlockSigOpsCost + packageSigOpsCost >= MAX_BLOCK_SIGOPS_COST { return false; }
      return true;
    }

    method TestPackageTransactions(package: set<Tx>) returns (ok: bool)
      ensures ok <==> package <= allowed
    {
      var rest := package;
      while rest != {}
        invariant rest <= package && package - rest <= allowed
        decreases rest
      {
        var t :| t in rest;
        if t !in allowed { return false; }
        rest := rest - {t};
      }
      return true;
    }

    /** The package in the order of ancestor counts. */
    method SortForBlock(package: set<Tx>) returns (sorted: seq<Tx>)
      requires package <= mp.countWithAncestors.Keys
      ensures InOrder(mp, sorted) && Elements(sorted) == package
    {
      sorted := [];
      var rest := package;
      while rest != {}
        invariant rest <= package && Elements(sorted) == package - rest && InOrder(mp, sorted)
        decreases rest
      {
        var t :| t in rest;
        assert t !in Elements(sorted);
        sorted := InsertSorted(sorted, t);
        rest := rest - {t};
      }
    }

    method InsertSorted(s: seq<Tx>, t: Tx) returns (r: seq<Tx>)
      requires InOrder(mp, s) && t in mp.countWithAncestors && t !in Elements(s)
      ensures InOrder(mp, r) && Elements(r) == Elements(s) + {t}
    {
      var k := 0;
      while k < |s| && Before(mp, s[k], t)
        invariant 0 <= k <= |s|
        invariant forall i :: 0 <= i < k ==> Before(mp, s[i], t)
      {
        k := k + 1;
      }
      r := s[..k] + [t] + s[k..];
      InsertedInOrder(mp, s, t, k);
    }

    method AddToBlock(t: Tx)
      requires Tracks() && t in Txs(mp) && t in allowed && t !in inBlock && mp.ancestors[t] <= inBlock
      modifies this
      ensures Tracks() && vtx == old(vtx) + [t] && inBlock == old(inBlock) + {t}
    {
      OrderedAppend(mp, vtx, t);
      SumInsert(inBlock, mp.txWeight, t);
      SumInsert(inBlock, mp.sigOpCost, t);
      SumInsert(inBlock, mp.fee, t);
      vtx := vtx + [t];
      vTxFees := vTxFees + [mp.fee[t]];
      vTxSigOpsCost := vTxSigOpsCost + [mp.sigOpCost[t]];
      nBlockWeight := nBlockWeight + mp.txWeight[t];
      nBlockTx := nBlockTx + 1;
      nBlockSigOpsCost := nBlockSigOpsCost + mp.sigOpCost[t];
      nFees := nFees + mp.fee[t];
      inBlock := inBlock + {t};
    }

    /** A transaction with all that spend from it, directly or not. */
    function CalculateDescendants(t: Tx): set<Tx>
    {
      set d | d in mp.ancestors && (d == t || t in mp.ancestors[d])
    }

    /** Account for one included transaction in one descendant. */
    method UpdateDescendant(it: Tx, desc: Tx, mod: map<Tx, Modified>) returns (mod': map<Tx, Modified>)
      requires HasAll(mp) && it in Txs(mp) && desc in Txs(mp)
      ensures mod'.Keys == mod.Keys + {desc} && mod' - {desc} == mod - {desc}
      ensures mod'[desc] == Reduced(mp, desc !in mod, Entry(mp, mod, desc), it)
    {
      if desc !in mod {
        var e := Cached(mp, desc);
        mod' := mod[desc := Modified(e.nSizeWithAncestors - mp.txSize[it], e.nModFeesWithAncestors - mp.modifiedFee[it],
                                     e.nSigOpCostWithAncestors - mp.sigOpCost[it])];
      } else {
        var e := mod[desc];
        mod' := mod[desc := Modified(e.nSizeWithAncestors - mp.txSize[it], e.nModFeesWithAncestors - mp.fee[it],
                                     e.nSigOpCostWithAncestors - mp.sigOpCost[it])];
      }
    }

    /** Account for one included transaction in all those descendants that were not added with it. */
    method WalkDescendants(it: Tx, added: set<Tx>, descendants: set<Tx>, mod: map<Tx, Modified>)
      returns (mod': map<Tx, Modified>, nDescendantsUpdated: nat)
      requires HasAll(mp) && it in Txs(mp) && mod.Keys <= Txs(mp) && descendants <= Txs(mp)
      ensures mod'.Keys <= Txs(mp) && Updated(mp, it, descendants - added, mod, mod')
      ensures nDescendantsUpdated == |descendants - added|
    {
      var rest := descendants;
      ghost var seen := {};
      mod', nDescendantsUpdated := mod, 0;
      while rest != {}
        invariant rest <= descendants && mod'.Keys <= Txs(mp)
        invariant Visited(seen, rest, descendants, added) && nDescendantsUpdated == |seen|
        invariant Updated(mp, it, seen, mod, mod')
        decreases rest
      {
        var desc :| desc in rest;
        SeenNext(seen, rest, desc, descendants, added);
        rest := rest - {desc};
        if desc !in added {
          ghost var prev := mod';
          nDescendantsUpdated := nDescendantsUpdated + 1;
          mod' := UpdateDescendant(it, desc, mod');
          UpdatedOneMore(mp, it, seen, mod, prev, mod', desc);
          seen := seen + {desc};
        }
      }
      VisitedAll(seen, descendants, added);
    }

    /** The same, in terms of the ancestors accounted for so far. */
    method UpdateDescendants(it: Tx, added: set<Tx>, ghost before: map<Tx, Modified>, ghost done: set<Tx>,
                             mod: map<Tx, Modified>)
      returns (mod': map<Tx, Modified>, nDescendantsUpdated: nat)
      requires HasAll(mp) && IsDag(mp) && added <= Txs(mp) && it in added && done <= Txs(mp) && it !in done
      requires Accounted(mp, before, mod, added, done)
      ensures Accounted(mp, before, mod', added, done + {it})
      ensures nDescendantsUpdated == |CalculateDescendants(it) - added|
    {
      var descendants := CalculateDescendants(it);
      mod', nDescendantsUpdated := WalkDescendants(it, added, descendants, mod);
      forall d | d in Txs(mp) ensures AncestorsOk(mp, d) && AccountedAt(mp, before, mod', added, done + {it}, d) {
        assert AncestorsOk(mp, d) && AccountedAt(mp, before, mod, added, done, d);
        assert UpdatedAt(mp, it, descendants - added, mod, mod', d);
        if it in mp.ancestors[d] && d !in added {
          AccountedOneMore(mp, before, mod, mod', added, done, it, d);
        } else {
          AccountedUnrelated(mp, before, mod, mod', added, done, it, d);
        }
      }
    }

    /** Account for added transactions in everything that descends from them. */
    method UpdatePackagesForAdded(alreadyAdded: set<Tx>, mod: map<Tx, Modified>)
      returns (mod': map<Tx, Modified>, nDescendantsUpdated: nat)
      requires HasAll(mp) && IsDag(mp) && alreadyAdded <= Txs(mp) && mod.Keys <= Txs(mp)
      ensures Accounted(mp, mod, mod', alreadyAdded, alreadyAdded)
    {
      mod', nDescendantsUpdated := mod, 0;
      var rest := alreadyAdded;
      AccountedNothing(mp, mod, alreadyAdded);
      assert alreadyAdded - rest == {};
      while rest != {}
        invariant rest <= alreadyAdded && Accounted(mp, mod, mod', alreadyAdded, alreadyAdded - rest)
        decreases rest
      {
        var it :| it in rest;
        var n;
        mod', n := UpdateDescendants(it, alreadyAdded, mod, alreadyAdded - rest, mod');
        nDescendantsUpdated := nDescendantsUpdated + n;
        assert alreadyAdded - (rest - {it}) == alreadyAdded - rest + {it};
        rest := rest - {it};
      }
      assert alreadyAdded - rest == alreadyAdded;
    }

    /** A sorted package goes into the block one by one. */
    method AddSorted(ghost t: Tx, sorted: seq<Tx>, mod: map<Tx, Modified>) returns (mod': map<Tx, Modified>)
      requires Tracks() && t in Txs(mp)
      requires InOrder(mp, sorted) && Elements(sorted) == Missing(mp, t, inBlock) && Elements(sorted) <= allowed
      modifies this
      ensures Tracks() && vtx == old(vtx) + sorted && inBlock == old(inBlock) + Elements(sorted)
      ensures mod' == mod - Elements(sorted)
    {
      mod' := mod;
      var i := 0;
      while i < |sorted|
        invariant 0 <= i <= |sorted| && Tracks()
        invariant vtx == old(vtx) + sorted[..i] && inBlock == old(inBlock) + Elements(sorted[..i])
        invariant mod' == mod - Elements(sorted[..i])
      {
        SortedPackage(mp, old(inBlock), t, sorted, i);
        ElementsNext(sorted, i, old(vtx), mod);
        AddToBlock(sorted[i]);
        mod' := mod' - {sorted[i]};
        i := i + 1;
      }
      assert sorted[..i] == sorted;
    }

    /** Include a package that fits, and account for it. */
    method IncludePackage(t: Tx, ancestors: set<Tx>, mod: map<Tx, Modified>, ghost failed: set<Tx>, ghost m: Modified)
      returns (mod': map<Tx, Modified>, nDescendantsUpdated: nat)
      requires Tracks() && t in Txs(mp) && t !in inBlock && AncestorsOk(mp, t)
      requires ancestors == Missing(mp, t, inBlock) && ancestors <= allowed
      requires ModOk(mp, inBlock, mod, failed) && BoundsMissing(mp, inBlock, t, m, failed)
      requires nBlockWeight + 4 * m.nSizeWithAncestors < nBlockMaxWeight
      requires nBlockSigOpsCost + m.nSigOpCostWithAncestors < MAX_BLOCK_SIGOPS_COST
      modifies this
      ensures Tracks() && WithinLimits() && old(vtx) <= vtx && inBlock == old(inBlock) + ancestors
      ensures Elements(vtx[|old(vtx)|..]) == ancestors
      ensures ModOk(mp, inBlock, mod', failed) && mod.Keys <= mod'.Keys + inBlock
    {
      OrderedClosed(mp, vtx);
      PackageFits(mp, inBlock, ancestors, m.nSizeWithAncestors, m.nSigOpCostWithAncestors);
      var sortedEntries := SortForBlock(ancestors);
      var erased := AddSorted(t, sortedEntries, mod);
      assert vtx[|old(vtx)|..] == sortedEntries;
      mod', nDescendantsUpdated := UpdatePackagesForAdded(ancestors, erased);
      AccountedKeeps(mp, old(inBlock), ancestors, mod, mod', failed);
      forall d | d in mod ensures d in mod'.Keys + inBlock {
        assert AncestorsOk(mp, d) && AccountedAt(mp, erased, mod', ancestors, ancestors, d);
      }
    }

    predicate SkipMapTxEntry(t: Tx, mod: map<Tx, Modified>, failed: set<Tx>)
      reads this
    {
      t in mod || t in inBlock || t in failed
    }

    /** One candidate package: included, or given up on. */
    method TryPackage(t: Tx, m: Modified, usingModified: bool, mod: map<Tx, Modified>, failed: set<Tx>)
      returns (mod': map<Tx, Modified>, failed': set<Tx>, verdict: Verdict, nDescendantsUpdated: nat)
      requires Tracks() && WithinLimits() && t in Txs(mp) && t !in inBlock && AncestorsOk(mp, t)
      requires ModOk(mp, inBlock, mod, failed) && BoundsMissing(mp, inBlock, t, m, failed)
      requires usingModified ==> t in mod
      modifies this
      ensures Tracks() && WithinLimits() && old(vtx) <= vtx && ModOk(mp, inBlock, mod', failed')
      ensures verdict ==
        if !Fits(R(), old(inBlock), m) then DoesNotFit
        else if old(Missing(mp, t, inBlock)) <= allowed then Included
        else NotAllowed
      ensures verdict == Included ==>
        && inBlock == old(inBlock + Missing(mp, t, inBlock)) && mod.Keys <= mod'.Keys + inBlock && failed' == failed
        && Elements(vtx[|old(vtx)|..]) == old(Missing(mp, t, inBlock))
      ensures verdict != Included ==>
        && unchanged(this) && mod' == (if usingModified then mod - {t} else mod)
        && failed' == (if usingModified then failed + {t} else failed)
    {
      mod', failed', verdict, nDescendantsUpdated := mod, failed, DoesNotFit, 0;
      var fits := TestPackage(m.nSizeWithAncestors, m.nSigOpCostWithAncestors);
      if fits {
        var ancestors := OnlyUnconfirmed(mp.ancestors[t]);
        ancestors := ancestors + {t};
        assert ancestors == Missing(mp, t, inBlock);
        var ok := TestPackageTransactions(ancestors);
        if ok {
          mod', nDescendantsUpdated := IncludePackage(t, ancestors, mod, failed, m);
          verdict := Included;
          return;
        }
        verdict := NotAllowed;
      }
      if usingModified {
        FailedKeeps(mp, inBlock, mod, failed, t);
        mod', failed' := mod - {t}, failed + {t};
      }
    }

    /** Everything that descends from the block so far enters mapModifiedTx. */
    method StartPackages() returns (mod: map<Tx, Modified>)
      requires Tracks()
      ensures ModOk(mp, inBlock, mod, {})
    {
      OrderedClosed(mp, vtx);
      StartOk(mp);
      var nUpdated;
      ghost var none: map<Tx, Modified> := map[];
      assert none - inBlock == none;
      mod, nUpdated := UpdatePackagesForAdded(inBlock, map[]);
      AccountedKeeps(mp, {}, inBlock, none, mod, {});
      assert {} + inBlock == inBlock;
    }

    /** The first entry of mapModifiedTx by score. */
    method BestModified(mod: map<Tx, Modified>, ghost failed: set<Tx>) returns (t: Tx)
      requires Tracks() && ModOk(mp, inBlock, mod, failed) && mod != map[]
      ensures t in mod && IsBestOf(mp, mod, mod.Keys, t)
    {
      assert mod.Keys != {};
      t :| t in mod.Keys;
      var rest := mod.Keys - {t};
      while rest != {}
        invariant t in mod && rest <= mod.Keys && IsBestOf(mp, mod, mod.Keys - rest, t)
        decreases rest
      {
        var u :| u in rest;
        BestOfMore(mp, inBlock, mod, failed, mod.Keys - rest, t, u);
        assert mod.Keys - rest + {u} == mod.Keys - (rest - {u});
        if Better(mp, u, mod[u], t, mod[t]) { t := u; }
        rest := rest - {u};
      }
      assert mod.Keys - rest == mod.Keys;
    }

    /** The next candidate: the next entry of mapTx, or the best entry of mapModifiedTx if that scores more. */
    method PickPackage(mi: nat, mod: map<Tx, Modified>, failed: set<Tx>)
      returns (t: Tx, m: Modified, usingModified: bool)
      requires Tracks() && ModOk(mp, inBlock, mod, failed) && mi <= |mp.byScore|
      requires mi < |mp.byScore| || mod != map[]
      requires mi < |mp.byScore| ==> !SkipMapTxEntry(mp.byScore[mi], mod, failed)
      ensures t in Txs(mp) && t !in inBlock && AncestorsOk(mp, t) && BoundsMissing(mp, inBlock, t, m, failed)
      ensures if usingModified then t in mod else mi < |mp.byScore| && t == mp.byScore[mi]
      ensures OutdoesOpen(mp, mi, inBlock, mod, failed, t, m)
    {
      ghost var best := 0;
      usingModified := false;
      if mod != map[] {
        var modit := BestModified(mod, failed);
        best := modit;
        ModSize(mp, inBlock, mod, failed, modit);
        t, m := modit, mod[modit];
        usingModified :=
          mi == |mp.byScore| || Better(mp, modit, mod[modit], mp.byScore[mi], Cached(mp, mp.byScore[mi]));
        if !usingModified { BetterTotal(mp, modit, mod[modit], mp.byScore[mi], Cached(mp, mp.byScore[mi])); }
      }
      if !usingModified {
        t := mp.byScore[mi];
        m := Cached(mp, t);
        FreshPackage(mp, inBlock, mod, failed, t);
      }
      CandidateOutdoes(mp, inBlock, mod, failed, mi, best, t, m);
    }

    /** Consider the next candidate: stop at the fee floor, or include its package, or reject it. */
    method Consider(mi: nat, mod: map<Tx, Modified>, failed: set<Tx>, ghost from: nat, ghost rounds: seq<Round>)
      returns (mi': nat, mod': map<Tx, Modified>, failed': set<Tx>, verdict: Verdict, nDescendantsUpdated: nat,
               ghost x: Round)
      requires Tracks() && WithinLimits() && ModOk(mp, inBlock, mod, failed) && mi <= |mp.byScore|
      requires mi < |mp.byScore| || mod != map[]
      requires mi < |mp.byScore| ==> !SkipMapTxEntry(mp.byScore[mi], mod, failed)
      requires IsRun(R(), vtx, from, rounds, |vtx|) && !Stops(R(), vtx, rounds)
      requires Seen(mp, mi, inBlock, mod, failed, rounds, |vtx|)
      modifies this
      ensures Tracks() && WithinLimits() && old(vtx) <= vtx && ModOk(mp, inBlock, mod', failed')
      ensures mi <= mi' <= |mp.byScore| && x.verdict == verdict
      ensures x.k == |old(vtx)| && StepOk(R(), vtx, rounds, x) && Adds(R(), vtx, x, |vtx|)
      ensures verdict != BelowFloor ==> Seen(mp, mi', inBlock, mod', failed', rounds + [x], |vtx|)
      ensures verdict != BelowFloor ==>
        Txs(mp) - inBlock < Txs(mp) - old(inBlock) || (inBlock == old(inBlock) && (mi < mi' || mod'.Keys < mod.Keys))
    {
      var t, m, usingModified := PickPackage(mi, mod, failed);
      x := Round(t, m, t !in failed, |vtx|, Judge(R(), inBlock, t, m));
      CandidateStep(R(), vtx, mi, inBlock, mod, failed, rounds, x, usingModified);
      if m.nModFeesWithAncestors < blockMinFee(m.nSizeWithAncestors) {
        return mi, mod, failed, BelowFloor, 0, x;
      }
      mod', failed', verdict, nDescendantsUpdated := TryCandidate(mi, t, m, usingModified, mod, failed, rounds, x);
      mi' := if usingModified then mi else mi + 1;
    }

    /** A candidate that pays enough. */
    method TryCandidate(ghost mi: nat, t: Tx, m: Modified, usingModified: bool, mod: map<Tx, Modified>,
                        failed: set<Tx>, ghost rounds: seq<Round>, ghost x: Round)
      returns (mod': map<Tx, Modified>, failed': set<Tx>, verdict: Verdict, nDescendantsUpdated: nat)
      requires Tracks() && WithinLimits() && ModOk(mp, inBlock, mod, failed) && mi <= |mp.byScore|
      requires t in Txs(mp) && t !in inBlock && AncestorsOk(mp, t) && BoundsMissing(mp, inBlock, t, m, failed)
      requires if usingModified then t in mod
               else mi < |mp.byScore| && t == mp.byScore[mi] && t !in failed && t !in mod
      requires Seen(mp, mi, inBlock, mod, failed, rounds, |vtx|) && StepOk(R(), vtx, rounds, x)
      requires x == Round(t, m, t !in failed, |vtx|, Judge(R(), inBlock, t, m)) && x.verdict != BelowFloor
      modifies this
      ensures Tracks() && WithinLimits() && old(vtx) <= vtx && ModOk(mp, inBlock, mod', failed')
      ensures x.verdict == verdict && StepOk(R(), vtx, rounds, x) && Adds(R(), vtx, x, |vtx|)
      ensures Seen(mp, if usingModified then mi else mi + 1, inBlock, mod', failed', rounds + [x], |vtx|)
      ensures Txs(mp) - inBlock < Txs(mp) - old(inBlock) ||
              (inBlock == old(inBlock) && (!usingModified || mod'.Keys < mod.Keys))
    {
      mod', failed', verdict, nDescendantsUpdated := TryPackage(t, m, usingModified, mod, failed);
      if verdict == Included {
        IncludedStep(R(), old(vtx), vtx, old(inBlock), inBlock, mi, if usingModified then mi else mi + 1, mod, mod',
                     failed, rounds, x);
      } else {
        SeenRefused(mp, mi, inBlock, mod, failed, rounds, x, usingModified);
        assert usingModified ==> t in mod.Keys && t !in mod'.Keys;
      }
    }

    /** One round, and whether to stop after it. */
    method Advance(mi: nat, mod: map<Tx, Modified>, failed: set<Tx>, nFailed: int, ghost from: nat,
                   ghost rounds: seq<Round>)
      returns (mi': nat, mod': map<Tx, Modified>, failed': set<Tx>, nConsecutiveFailed: int, stop: bool, selected: nat,
               nDescendantsUpdated: nat, ghost rounds': seq<Round>)
      requires Tracks() && WithinLimits() && ModOk(mp, inBlock, mod, failed) && mi <= |mp.byScore|
      requires mi < |mp.byScore| || mod != map[]
      requires mi < |mp.byScore| ==> !SkipMapTxEntry(mp.byScore[mi], mod, failed)
      requires IsRun(R(), vtx, from, rounds, |vtx|) && !Stops(R(), vtx, rounds) && nFailed == Misses(rounds)
      requires Seen(mp, mi, inBlock, mod, failed, rounds, |vtx|)
      modifies this
      ensures Tracks() && WithinLimits() && old(vtx) <= vtx && ModOk(mp, inBlock, mod', failed')
      ensures mi <= mi' <= |mp.byScore| && IsRun(R(), vtx, from, rounds', |vtx|)
      ensures Inclusions(rounds') == Inclusions(rounds) + selected
      ensures stop == Stops(R(), vtx, rounds')
      ensures !stop ==> Seen(mp, mi', inBlock, mod', failed', rounds', |vtx|) && nConsecutiveFailed == Misses(rounds')
      ensures !stop ==>
        Txs(mp) - inBlock < Txs(mp) - old(inBlock) || (inBlock == old(inBlock) && (mi < mi' || mod'.Keys < mod.Keys))
    {
      nConsecutiveFailed, selected := nFailed, 0;
      var verdict;
      ghost var x;
      mi', mod', failed', verdict, nDescendantsUpdated, x := Consider(mi, mod, failed, from, rounds);
      RunStays(R(), old(vtx), vtx, from, rounds, |old(vtx)|);
      RunGrows(R(), vtx, from, rounds, x, |vtx|);
      rounds' := rounds + [x];
      assert vtx[..|vtx|] == vtx;
      match verdict
      case BelowFloor => stop := true;
      case NotAllowed => stop := false;
      case Included =>
        nConsecutiveFailed, selected, stop := 0, 1, false;
      case DoesNotFit =>
        nConsecutiveFailed := nConsecutiveFailed + 1;
        stop := nConsecutiveFailed > MAX_CONSECUTIVE_FAILURES && nBlockWeight > nBlockMaxWeight - 4000;
    }

    /**
      Fill the block. `rounds` are the candidates in turn: each is the best of those that are neither in the block
      nor refused before, and is judged by what it adds. `exhausted` says that the loop came to its end; then
      everything outside the block was refused. Otherwise it stopped at the fee floor, or gave up on a nearly full
      block. A mempool that fits entirely is included entirely, unless what is missing for some transaction pays less
      than its size asks for.
     */
    method AddPackageTxs()
      returns (nPackagesSelected: nat, nDescendantsUpdated: nat, exhausted: bool, ghost rounds: seq<Round>)
      requires Tracks() && WithinLimits()
      modifies this
      ensures Tracks() && WithinLimits() && old(vtx) <= vtx
      ensures IsRun(R(), vtx, |old(vtx)|, rounds, |vtx|) && nPackagesSelected == Inclusions(rounds)
      ensures exhausted <==> !Stops(R(), vtx, rounds)
      ensures exhausted ==> AllWereRefused(R(), vtx, inBlock)
      ensures TakesAllThatPays(R(), inBlock, exhausted)
    {
      var mod := StartPackages();
      ghost var failed;
      nPackagesSelected, nDescendantsUpdated, exhausted, rounds, failed := Fill(mod);
      if exhausted {
        RunEnds(R(), vtx, inBlock, failed, |old(vtx)|, rounds);
      } else {
        RoomyStops(R(), vtx, inBlock, |old(vtx)|, rounds);
      }
    }

    /** One turn of the loop: an entry that has been dealt with is passed over. */
    method Turn(mi: nat, mod: map<Tx, Modified>, failed: set<Tx>, nFailed: int, ghost from: nat,
                ghost rounds: seq<Round>)
      returns (mi': nat, mod': map<Tx, Modified>, failed': set<Tx>, nConsecutiveFailed: int, stop: bool, selected: nat,
               nDescendantsUpdated: nat, ghost rounds': seq<Round>)
      requires Tracks() && WithinLimits() && ModOk(mp, inBlock, mod, failed) && mi <= |mp.byScore|
      requires mi < |mp.byScore| || mod != map[]
      requires IsRun(R(), vtx, from, rounds, |vtx|) && !Stops(R(), vtx, rounds) && nFailed == Misses(rounds)
      requires Seen(mp, mi, inBlock, mod, failed, rounds, |vtx|)
      modifies this
      ensures Tracks() && WithinLimits() && old(vtx) <= vtx && ModOk(mp, inBlock, mod', failed')
      ensures mi <= mi' <= |mp.byScore| && IsRun(R(), vtx, from, rounds', |vtx|)
      ensures Inclusions(rounds') == Inclusions(rounds) + selected
      ensures stop == Stops(R(), vtx, rounds')
      ensures !stop ==> Seen(mp, mi', inBlock, mod', failed', rounds', |vtx|) && nConsecutiveFailed == Misses(rounds')
      ensures !stop ==>
        Txs(mp) - inBlock < Txs(mp) - old(inBlock) || (inBlock == old(inBlock) && (mi < mi' || mod'.Keys < mod.Keys))
    {
      if mi < |mp.byScore| && SkipMapTxEntry(mp.byScore[mi], mod, failed) {
        SeenSkipped(mp, mi, inBlock, mod, failed, rounds, |vtx|);
        return mi + 1, mod, failed, nFailed, false, 0, 0, rounds;
      }
      mi', mod', failed', nConsecutiveFailed, stop, selected, nDescendantsUpdated, rounds' :=
        Advance(mi, mod, failed, nFailed, from, rounds);
    }

    /** The loop, from the entries of mapModifiedTx that there are at its start. */
    method Fill(start: map<Tx, Modified>)
      returns (nPackagesSelected: nat, nDescendantsUpdated: nat, exhausted: bool, ghost rounds: seq<Round>,
               ghost failures: set<Tx>)
      requires Tracks() && WithinLimits() && ModOk(mp, inBlock, start, {})
      modifies this
      ensures Tracks() && WithinLimits() && old(vtx) <= vtx
      ensures IsRun(R(), vtx, |old(vtx)|, rounds, |vtx|) && nPackagesSelected == Inclusions(rounds)
      ensures exhausted <==> !Stops(R(), vtx, rounds)
      ensures exhausted ==> Seen(mp, |mp.byScore|, inBlock, map[], failures, rounds, |vtx|)
    {
      nPackagesSelected, nDescendantsUpdated, exhausted, rounds := 0, 0, false, [];
      var mod, failed, mi, nConsecutiveFailed := start, {}, 0, 0;
      SeenStart(mp, inBlock, mod, |vtx|);
      while mi < |mp.byScore| || mod != map[]
        invariant Tracks() && WithinLimits() && old(vtx) <= vtx
        invariant ModOk(mp, inBlock, mod, failed) && mi <= |mp.byScore|
        invariant IsRun(R(), vtx, |old(vtx)|, rounds, |vtx|) && !Stops(R(), vtx, rounds)
        invariant Seen(mp, mi, inBlock, mod, failed, rounds, |vtx|)
        invariant nPackagesSelected == Inclusions(rounds) && nConsecutiveFailed == Misses(rounds)
        decreases Txs(mp) - inBlock, |mp.byScore| - mi, mod.Keys
      {
        var stop, selected, n;
        mi, mod, failed, nConsecutiveFailed, stop, selected, n, rounds :=
          Turn(mi, mod, failed, nConsecutiveFailed, |old(vtx)|, rounds);
        nPackagesSelected, nDescendantsUpdated := nPackagesSelected + selected, nDescendantsUpdated + n;
        failures := failed;
        if stop { return; }
      }
      exhausted, failures := true, failed;
    }
  }
}
