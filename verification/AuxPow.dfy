/**
  Merge mining: an auxiliary proof of work shows that a block of this chain was committed to in the coinbase of a
  parent block. The hash of two hashes and the hash of a transaction are parameters.
 */
module AuxPow {

  import opened Numbers
  import NetFraming
  import Merkle

  type Byte = NetFraming.Byte

  type Uint256 = s: seq<Byte> | |s| == 32 witness seq(32, i => 0)

  type Combine = (Uint256, Uint256) -> Uint256

  const NULL_HASH: Uint256 := [
    0, 0, 0, 0, 0, 0, 0, 0, 0, 0, 0, 0, 0, 0, 0, 0, 0, 0, 0, 0, 0, 0, 0, 0, 0, 0, 0, 0, 0, 0, 0, 0]

  /** Two hashes that are hashed together. */
  datatype Pair = Pair(left: Uint256, right: Uint256)

  /** Two different pairs with the same hash. */
  predicate Collide(h: Combine, p: Pair, q: Pair)
  {
    p != q && h(p.left, p.right) == h(q.left, q.right)
  }

  // ----- The slot -----

  const WORD: int := 0x1_0000_0000

  /** The slot of a chain in a tree of height h, in 32-bit arithmetic. */
  function ExpectedIndex(nonce: nat, chainId: int, h: nat): (r: nat)
    ensures r < Pow2(h)
  {
    var rand := (nonce * 1103515245 + 12345) % WORD;
    var rand' := (rand + chainId) % WORD;
    var rand'' := (rand' * 1103515245 + 12345) % WORD;
    Remainder(rand'', Pow2(h))
  }

  function Remainder(x: int, d: nat): (r: nat)
    requires d > 0
    ensures r == x % d && r < d
  {
    x % d
  }

  lemma {:induction false} Pow2Add(m: nat, n: nat)
    ensures Pow2(m + n) == Pow2(m) * Pow2(n)
  {
    if m > 0 {
      Pow2Add(m - 1, n);
      MulAssoc(2, Pow2(m - 1), Pow2(n));
    }
  }

  lemma RemainderOfRemainder(x: int, d: nat, e: nat)
    requires d > 0 && e > 0
    ensures d * e > 0 && (x % (d * e)) % d == x % d
  {
    MulMonotone(1, d, e);
    var q := x / (d * e);
    var r := x % (d * e);
    assert x == q * (d * e) + r;
    MulAssoc(q, d, e);
    assert q * d * e == q * e * d;
    DivPlus(r, d, q * e);
  }

  lemma Word32()
    ensures Pow2(32) == WORD
  {
    Pow2Add(16, 16);
    Pow2Add(8, 8);
    assert Pow2(8) == 0x100;
  }

  lemma WrappedTwice(x: int, id: int)
    ensures (((x % WORD + id) % WORD) * 1103515245 + 12345) % WORD == ((x + id) * 1103515245 + 12345) % WORD
  {
    var q := x / WORD;
    DivPlus(x % WORD + id, WORD, q);
    assert x % WORD + id + q * WORD == x + id;
    var y := x + id;
    var q' := y / WORD;
    assert y == q' * WORD + y % WORD;
    DivPlus((y % WORD) * 1103515245 + 12345, WORD, q' * 1103515245);
  }

  /** The wrap-around does not matter: the slot is the one of unbounded arithmetic. */
  lemma SlotUnbounded(nonce: nat, chainId: int, h: nat)
    requires h <= 30
    ensures ExpectedIndex(nonce, chainId, h) == ((nonce * 1103515245 + 12345 + chainId) * 1103515245 + 12345) % Pow2(h)
  {
    var x := nonce * 1103515245 + 12345;
    WrappedTwice(x, chainId);
    Word32();
    Pow2Add(h, 32 - h);
    RemainderOfRemainder((x + chainId) * 1103515245 + 12345, Pow2(h), Pow2(32 - h));
  }

  // ----- Merkle branches -----

  /** The hashes of the branch added one after another, on the side that the bits of the index tell. */
  function Folded(h: Combine, hash: Uint256, branch: seq<Uint256>, index: int): Uint256
    decreases |branch|
  {
    if branch == [] then hash
    else Folded(h, if index % 2 == 1 then h(branch[0], hash) else h(hash, branch[0]), branch[1..], index / 2)
  }

  function BranchRoot(h: Combine, hash: Uint256, branch: seq<Uint256>, index: int): Uint256
  {
    if index == -1 then NULL_HASH else Folded(h, hash, branch, index)
  }

  method CheckMerkleBranch(h: Combine, hash: Uint256, branch: seq<Uint256>, index: int) returns (r: Uint256)
    ensures r == BranchRoot(h, hash, branch, index)
  {
    if index == -1 { return NULL_HASH; }
    r := hash;
    var n := index;
    for i := 0 to |branch|
      invariant Folded(h, r, branch[i..], n) == Folded(h, hash, branch, index)
    {
      assert branch[i..][1..] == branch[i + 1..];
      r := if n % 2 == 1 then h(branch[i], r) else h(r, branch[i]);
      n := n / 2;
    }
    assert branch[|branch|..] == [];
  }

  /** Folding from the leaf up ends with the last sibling. */
  lemma {:induction false} FoldedLast(h: Combine, x: Uint256, branch: seq<Uint256>, y: Uint256, index: nat)
    ensures Folded(h, x, branch + [y], index) ==
      var below := Folded(h, x, branch, index);
      if Merkle.Shifted(index, |branch|) % 2 == 1 then h(y, below) else h(below, y)
    decreases |branch|
  {
    if branch == [] {
      assert [y][1..] == [];
    } else {
      var b := branch[0];
      assert (branch + [y])[1..] == branch[1..] + [y] && (branch + [y])[0] == b;
      FoldedLast(h, if index % 2 == 1 then h(b, x) else h(x, b), branch[1..], y, index / 2);
      ShiftedLater(index, |branch|);
    }
  }

  lemma {:induction false} ShiftedLater(c: nat, l: nat)
    requires l > 0
    ensures Merkle.Shifted(c, l) == Merkle.Shifted(c / 2, l - 1)
  {
    if l > 1 { ShiftedLater(c, l - 1); }
  }

  /** The check of a branch is the calculation of the root from a branch. */
  lemma {:induction false} FoldedFromBranch(h: Combine, x: Uint256, branch: seq<Uint256>, index: nat)
    ensures Folded(h, x, branch, index) == Merkle.FromBranch(h, x, branch, index)
    decreases |branch|
  {
    if branch != [] {
      var last := |branch| - 1;
      assert branch == branch[..last] + [branch[last]];
      FoldedLast(h, x, branch[..last], branch[last], index);
      FoldedFromBranch(h, x, branch[..last], index);
    }
  }

  /** A transaction with the branch of its place in a block is accepted for the Merkle root of the block. */
  lemma BranchAccepted(h: Combine, txids: seq<Uint256>, pos: nat, height: nat)
    requires pos < |txids| && Merkle.IsHeight(|txids|, height)
    ensures BranchRoot(h, txids[pos], Merkle.BranchTo(h, txids, pos, height), pos) == Merkle.Root(h, txids)
  {
    FoldedFromBranch(h, txids[pos], Merkle.BranchTo(h, txids, pos, height), pos);
    Merkle.BranchLeadsToRoot(h, txids, pos, height);
  }

  function PairAt(hash: Uint256, other: Uint256, index: int): Pair
  {
    if index % 2 == 1 then Pair(other, hash) else Pair(hash, other)
  }

  /** The pairs that are hashed on the way to the root, from the leaf up. */
  function Hashed(h: Combine, hash: Uint256, branch: seq<Uint256>, index: int): (r: seq<Pair>)
    ensures |r| == |branch|
    decreases |branch|
  {
    if branch == [] then []
    else
      var p := PairAt(hash, branch[0], index);
      [p] + Hashed(h, h(p.left, p.right), branch[1..], index / 2)
  }

  /**
    With the same index and branches of the same length, one root comes from one leaf and one branch only, unless
    two of the pairs hashed at one level collide.
   */
  lemma {:induction false} FoldedInjective(
    h: Combine, x: Uint256, bx: seq<Uint256>, y: Uint256, bz: seq<Uint256>, index: int) returns (k: nat)
    requires |bx| == |bz| && Folded(h, x, bx, index) == Folded(h, y, bz, index)
    ensures (x == y && bx == bz) || (k < |bx| && Collide(h, Hashed(h, x, bx, index)[k], Hashed(h, y, bz, index)[k]))
    decreases |bx|
  {
    k := 0;
    if bx != [] {
      var p, q := PairAt(x, bx[0], index), PairAt(y, bz[0], index);
      var k' := FoldedInjective(h, h(p.left, p.right), bx[1..], h(q.left, q.right), bz[1..], index / 2);
      if p == q {
        assert bx == [bx[0]] + bx[1..] && bz == [bz[0]] + bz[1..];
        k := k' + 1;
      } else if h(p.left, p.right) != h(q.left, q.right) || bx[1..] != bz[1..] {
        k := k' + 1;
      }
    }
  }

  // ----- The coinbase script -----

  const MERGED_MINING_HEADER: seq<Byte> := [0xfa, 0xbe, 0x6d, 0x6d]

  predicate At(script: seq<Byte>, needle: seq<Byte>, p: nat)
  {
    p + |needle| <= |script| && script[p..p + |needle|] == needle
  }

  predicate FirstAt(script: seq<Byte>, needle: seq<Byte>, p: nat)
  {
    At(script, needle, p) && forall q: nat :: q < p ==> !At(script, needle, q)
  }

  predicate HasHeader(script: seq<Byte>)
  {
    exists q :: 0 <= q < |script| && At(script, MERGED_MINING_HEADER, q)
  }

  /** The first place, from the given one on, where the needle is; the end if there is none. */
  function Search(script: seq<Byte>, needle: seq<Byte>, from: nat): (p: nat)
    requires from <= |script| && needle != []
    ensures from <= p <= |script| && (p < |script| ==> At(script, needle, p))
    ensures forall q :: from <= q < p ==> !At(script, needle, q)
    decreases |script| - from
  {
    if from == |script| || At(script, needle, from) then from else Search(script, needle, from + 1)
  }

  lemma SearchFinds(script: seq<Byte>, needle: seq<Byte>, from: nat, p: nat)
    requires needle != [] && from <= p && At(script, needle, p) && forall q :: from <= q < p ==> !At(script, needle, q)
    ensures Search(script, needle, from) == p
  {
    var s := Search(script, needle, from);
    assert s == |script| || At(script, needle, s);
  }

  function WordAt(s: seq<Byte>, p: nat): nat
    requires p + 4 <= |s|
  {
    NetFraming.GetLE32(s[p..p + 4])
  }

  function Reversed(s: Uint256): Uint256 { seq(32, i requires 0 <= i < 32 => s[31 - i]) }

  lemma ReversedTwice(s: Uint256, t: Uint256)
    requires Reversed(s) == Reversed(t)
    ensures s == t
  {
    forall i | 0 <= i < 32 ensures s[i] == t[i] { assert Reversed(s)[31 - i] == Reversed(t)[31 - i]; }
  }

  // ----- The check -----

  /** What a CAuxPow holds: the coinbase (its hash and the script of its input), the two branches, the parent block. */
  datatype Proof = Proof(
    txHash: Uint256,
    script: seq<Byte>,
    branch: seq<Uint256>,
    index: int,
    chainBranch: seq<Uint256>,
    chainIndex: int,
    parentVersion: int,
    parentRoot: Uint256)

  /** The chain ID in a version: division towards zero. */
  function ChainIdOf(version: int): int { if version >= 0 then version / 65536 else -(-version / 65536) }

  /**
    The commitment is at pc and nowhere before; the header, if there is one, is there once and just before it, and
    without a header it starts in the first 20 bytes.
   */
  ghost predicate CommittedAt(script: seq<Byte>, root: Uint256, pc: nat)
  {
    && FirstAt(script, Reversed(root), pc)
    && HeaderOk(script, pc)
  }

  /** The size of the tree and the slot of the chain are the ones that follow the commitment. */
  predicate SlotAt(p: Proof, chainId: int, pc: nat)
  {
    && pc + 40 <= |p.script| && WordAt(p.script, pc + 32) == Pow2(|p.chainBranch|)
    && p.chainIndex == ExpectedIndex(WordAt(p.script, pc + 36), chainId, |p.chainBranch|)
  }

  ghost predicate Accepts(h: Combine, p: Proof, auxHash: Uint256, chainId: int, strict: bool)
  {
    && p.index == 0 && !(strict && ChainIdOf(p.parentVersion) == chainId) && |p.chainBranch| <= 30
    && Folded(h, p.txHash, p.branch, 0) == p.parentRoot
    && Committed(p, BranchRoot(h, auxHash, p.chainBranch, p.chainIndex), chainId)
  }

  ghost predicate Committed(p: Proof, root: Uint256, chainId: int)
  {
    exists pc :: 0 <= pc < |p.script| && CommittedAt(p.script, root, pc) && SlotAt(p, chainId, pc)
  }

  /**
    Two proofs with one coinbase, which contains the header, for one chain commit to one block, at one place in one
    tree: the same work is not counted twice, unless two of the pairs hashed for the two branches collide.
   */
  lemma OneCommitment(h: Combine, p: Proof, x: Uint256, p': Proof, x': Uint256, chainId: int, strict: bool)
    returns (k: nat)
    requires p.script == p'.script && HasHeader(p.script)
    requires Accepts(h, p, x, chainId, strict) && Accepts(h, p', x', chainId, strict)
    ensures SameBlock(h, p, x, p', x', k)
  {
    var pc, pc';
    k, pc, pc' := Commitments(h, p, x, p', x', chainId, strict);
  }

  ghost predicate IsCommitment(h: Combine, p: Proof, x: Uint256, chainId: int, pc: nat)
  {
    CommittedAt(p.script, BranchRoot(h, x, p.chainBranch, p.chainIndex), pc) && SlotAt(p, chainId, pc)
  }

  /** One block committed to, unless two of the pairs hashed for the two branches collide at level k. */
  predicate SameBlock(h: Combine, p: Proof, x: Uint256, p': Proof, x': Uint256, k: nat)
  {
    && p.chainIndex == p'.chainIndex && |p.chainBranch| == |p'.chainBranch|
    && (|| (x == x' && p.chainBranch == p'.chainBranch)
        || (k < |p.chainBranch| &&
            Collide(h, Hashed(h, x, p.chainBranch, p.chainIndex)[k], Hashed(h, x', p'.chainBranch, p'.chainIndex)[k])))
  }

  /** Bytes of the roots at two places of one script are the same where the places overlap. */
  predicate Overlap(root: Uint256, root': Uint256, pc: nat, pc': nat)
  {
    forall i, j :: 0 <= i < 32 && 0 <= j < 32 && pc + i == pc' + j ==> Reversed(root)[i] == Reversed(root')[j]
  }

  lemma AtOverlap(script: seq<Byte>, root: Uint256, root': Uint256, pc: nat, pc': nat)
    requires At(script, Reversed(root), pc) && At(script, Reversed(root'), pc')
    ensures Overlap(root, root', pc, pc')
  {
    forall i, j | 0 <= i < 32 && 0 <= j < 32 && pc + i == pc' + j ensures Reversed(root)[i] == Reversed(root')[j] {
      assert script[pc..pc + 32][i] == script[pc + i] == script[pc'..pc' + 32][j];
    }
  }

  /**
    Where two proofs with one coinbase have their commitments: in one place if there is a header, and then to one
    block; without one both start in the first 20 bytes, so that their roots have twelve bytes or more in common.
   */
  lemma Commitments(h: Combine, p: Proof, x: Uint256, p': Proof, x': Uint256, chainId: int, strict: bool)
    returns (k: nat, pc: nat, pc': nat)
    requires p.script == p'.script && Accepts(h, p, x, chainId, strict) && Accepts(h, p', x', chainId, strict)
    ensures IsCommitment(h, p, x, chainId, pc) && IsCommitment(h, p', x', chainId, pc')
    ensures if HasHeader(p.script) then pc == pc' else pc <= 20 && pc' <= 20
    ensures pc == pc' ==> SameBlock(h, p, x, p', x', k)
    ensures Overlap(BranchRoot(h, x, p.chainBranch, p.chainIndex), BranchRoot(h, x', p'.chainBranch, p'.chainIndex),
                    pc, pc')
  {
    var root := BranchRoot(h, x, p.chainBranch, p.chainIndex);
    var root' := BranchRoot(h, x', p'.chainBranch, p'.chainIndex);
    pc :| 0 <= pc < |p.script| && CommittedAt(p.script, root, pc) && SlotAt(p, chainId, pc);
    pc' :| 0 <= pc' < |p.script| && CommittedAt(p.script, root', pc') && SlotAt(p', chainId, pc');
    k := 0;
    AtOverlap(p.script, root, root', pc, pc');
    if pc == pc' {
      ReversedTwice(root, root');
      Pow2Injective(|p.chainBranch|, |p'.chainBranch|);
      k := FoldedInjective(h, x, p.chainBranch, x', p'.chainBranch, p.chainIndex);
    }
  }

  // ----- A coinbase without the header -----

  function Fives(): Uint256 { seq(32, i => 5) }

  function ShiftedFives(): Uint256 { seq(32, i => if i < 3 then 0 else if i == 3 then 1 else 5) }

  /** Both roots, four places apart, each followed by the size 1 and a nonce. */
  function TwoRoots(): seq<Byte> { seq(44, i => if i < 32 then 5 else if i == 32 || i == 36 then 1 else 0) }

  /** One proof, without the header in its coinbase, that is accepted for two blocks: at place 0 and at place 4. */
  lemma TwoCommitments(h: Combine, txHash: Uint256, chainId: int, strict: bool)
    requires !(strict && chainId == 0)
    ensures var p := Proof(txHash, TwoRoots(), [], 0, [], 0, 1, txHash);
      && !HasHeader(p.script) && Fives()[0] != ShiftedFives()[0]
      && Accepts(h, p, Fives(), chainId, strict) && Accepts(h, p, ShiftedFives(), chainId, strict)
  {
    var p := Proof(txHash, TwoRoots(), [], 0, [], 0, 1, txHash);
    TwoRootsNoHeader();
    TwoRootsFirst();
    TwoRootsSlot(p, chainId);
    assert CommittedAt(p.script, Fives(), 0) && CommittedAt(p.script, ShiftedFives(), 4);
  }

  lemma TwoRootsSlot(p: Proof, chainId: int)
    requires p.script == TwoRoots() && p.chainBranch == [] && p.chainIndex == 0
    ensures SlotAt(p, chainId, 0) && SlotAt(p, chainId, 4)
  {
    assert p.script[32..36] == [1, 0, 0, 0];
    assert p.script[36..40] == [1, 0, 0, 0];
  }

  lemma TwoRootsNoHeader()
    ensures !HasHeader(TwoRoots())
  {
    assert MERGED_MINING_HEADER[0] == 0xfa;
    forall q: nat ensures !At(TwoRoots(), MERGED_MINING_HEADER, q) {
      assert q + 4 > 44 || TwoRoots()[q..q + 4][0] != 0xfa;
    }
  }

  lemma TwoRootsFirst()
    ensures FirstAt(TwoRoots(), Reversed(Fives()), 0) && FirstAt(TwoRoots(), Reversed(ShiftedFives()), 4)
  {
    var s := TwoRoots();
    assert s[0..32] == Reversed(Fives());
    assert s[4..36] == Reversed(ShiftedFives());
    forall q: nat | q < 4 ensures !At(s, Reversed(ShiftedFives()), q) {
      assert s[q..q + 32][28] != Reversed(ShiftedFives())[28];
    }
  }

  lemma Pow2Injective(m: nat, n: nat)
    requires Pow2(m) == Pow2(n)
    ensures m == n
  {
    if m < n { Pow2Strict(m, n); } else if n < m { Pow2Strict(n, m); }
  }

  lemma Pow2Strict(m: nat, n: nat)
    requires m < n
    ensures Pow2(m) < Pow2(n)
  {
    Pow2Grows(m + 1, n);
  }

  /** Accepts exactly the proofs whose branches, commitment, size and slot are right. */
  method Check(h: Combine, p: Proof, auxHash: Uint256, chainId: int, strict: bool) returns (ok: bool)
    ensures ok == Accepts(h, p, auxHash, chainId, strict)
  {
    if p.index != 0 { return false; }
    if strict && ChainIdOf(p.parentVersion) == chainId { return false; }
    if |p.chainBranch| > 30 { return false; }
    var root := CheckMerkleBranch(h, auxHash, p.chainBranch, p.chainIndex);
    var parentRoot := CheckMerkleBranch(h, p.txHash, p.branch, p.index);
    if parentRoot != p.parentRoot { return false; }
    ok := CheckScript(p, root, chainId);
  }

  method CheckScript(p: Proof, root: Uint256, chainId: int) returns (ok: bool)
    ensures ok == Committed(p, root, chainId)
  {
    var pcHead := Search(p.script, MERGED_MINING_HEADER, 0);
    var pc := Search(p.script, Reversed(root), 0);
    forall q: nat | CommittedAt(p.script, root, q) ensures q == pc { SearchFinds(p.script, Reversed(root), 0, q); }
    if pc == |p.script| { return false; }
    var committed := CheckHeader(p.script, pcHead, pc);
    assert committed == CommittedAt(p.script, root, pc);
    if !committed { return false; }
    ok := CheckSlot(p, pc + 32, chainId);
    assert ok ==> CommittedAt(p.script, root, pc) && SlotAt(p, chainId, pc);
  }

  method CheckSlot(p: Proof, pc: nat, chainId: int) returns (ok: bool)
    requires 32 <= pc <= |p.script|
    ensures ok == SlotAt(p, chainId, pc - 32)
  {
    if |p.script| - pc < 8 { return false; }
    if WordAt(p.script, pc) != Pow2(|p.chainBranch|) { return false; }
    ok := p.chainIndex == ExpectedIndex(WordAt(p.script, pc + 4), chainId, |p.chainBranch|);
  }

  /** The header is there once, just before the commitment; or it is not there, and the commitment is early. */
  ghost predicate HeaderOk(script: seq<Byte>, pc: nat)
  {
    if HasHeader(script) then forall q: nat :: At(script, MERGED_MINING_HEADER, q) <==> q + 4 == pc else pc <= 20
  }

  method CheckHeader(script: seq<Byte>, pcHead: nat, pc: nat) returns (ok: bool)
    requires pcHead == Search(script, MERGED_MINING_HEADER, 0)
    ensures ok == HeaderOk(script, pc)
  {
    if pcHead != |script| {
      assert At(script, MERGED_MINING_HEADER, pcHead);
      var again := Search(script, MERGED_MINING_HEADER, pcHead + 1);
      if again != |script| { return false; }
      ok := pcHead + |MERGED_MINING_HEADER| == pc;
    } else {
      ok := pc <= 20;
    }
  }

  // ----- A minimal proof -----

  const ZERO_NONCE: seq<Byte> := [1, 0, 0, 0, 0, 0, 0, 0]

  /** One push of the commitment, the size 1 and the nonce 0. */
  function InitScript(auxHash: Uint256): seq<Byte> { [40] + Reversed(auxHash) + ZERO_NONCE }

  /** The proof that stands for no work: a coinbase and a parent block made for the commitment. */
  function InitAuxPow(txHash: Uint256, auxHash: Uint256): Proof
  {
    Proof(txHash, InitScript(auxHash), [], 0, [], 0, 1, txHash)
  }

  /** Such a proof is accepted, unless the script happens to contain the header or a shifted copy of the commitment. */
  lemma InitAccepted(h: Combine, txHash: Uint256, auxHash: Uint256, chainId: int, strict: bool)
    ensures Accepts(h, InitAuxPow(txHash, auxHash), auxHash, chainId, strict) <==>
            !(strict && chainId == 0) && !HasHeader(InitScript(auxHash)) && exists i :: 0 <= i < 32 && auxHash[i] != 40
  {
    var p := InitAuxPow(txHash, auxHash);
    InitFirst(auxHash);
    InitSlot(p, auxHash, chainId);
    if HasHeader(p.script) {
      InitHeader(auxHash);
    }
    assert BranchRoot(h, auxHash, p.chainBranch, p.chainIndex) == auxHash;
    assert Accepts(h, p, auxHash, chainId, strict) <==> !(strict && chainId == 0) && Committed(p, auxHash, chainId);
    assert SlotAt(p, chainId, 1);
  }

  /** The commitment is found where it was put, or at the very start if it is the push opcode 32 times. */
  lemma InitFirst(auxHash: Uint256)
    ensures At(InitScript(auxHash), Reversed(auxHash), 1)
    ensures At(InitScript(auxHash), Reversed(auxHash), 0) <==> forall i :: 0 <= i < 32 ==> auxHash[i] == 40
  {
    var s, r := InitScript(auxHash), Reversed(auxHash);
    forall i | 0 <= i < 32 ensures s[..32][i] == if i == 0 then 40 else r[i - 1] { }
    if s[..32] == r {
      forall i | 0 <= i < 32 ensures auxHash[i] == 40 {
        Shifted(s[..32], r, 31 - i);
        assert auxHash[i] == r[31 - i];
      }
    }
  }

  lemma {:induction false} Shifted(s: seq<Byte>, r: Uint256, i: nat)
    requires s == r && i < 32 && forall j :: 0 <= j < 32 ==> s[j] == if j == 0 then 40 else r[j - 1]
    ensures r[i] == 40
  {
    if i > 0 { Shifted(s, r, i - 1); }
  }

  lemma InitSlot(p: Proof, auxHash: Uint256, chainId: int)
    requires p.script == InitScript(auxHash) && p.chainBranch == [] && p.chainIndex == 0
    ensures SlotAt(p, chainId, 1)
    ensures auxHash[0] == 40 ==> !SlotAt(p, chainId, 0)
  {
    var word := p.script[32..36];
    assert word[0] == p.script[32] == Reversed(auxHash)[31] == auxHash[0] && word[1] == p.script[33] == 1;
  }

  lemma InitHeader(auxHash: Uint256)
    requires HasHeader(InitScript(auxHash))
    ensures !HeaderOk(InitScript(auxHash), 1) && !HeaderOk(InitScript(auxHash), 0)
  {
  }

  const PUSH_HASH: Uint256 := [
    40, 40, 40, 40, 40, 40, 40, 40, 40, 40, 40, 40, 40, 40, 40, 40,
    40, 40, 40, 40, 40, 40, 40, 40, 40, 40, 40, 40, 40, 40, 40, 40]

  /** The hash of 32 push opcodes is found one place too early. */
  lemma PushHashRejected(h: Combine, txHash: Uint256, chainId: int, strict: bool)
    ensures !Accepts(h, InitAuxPow(txHash, PUSH_HASH), PUSH_HASH, chainId, strict)
  {
    InitAccepted(h, txHash, PUSH_HASH, chainId, strict);
  }

  /** A hash that ends in the reversed header has the header in the script, but not before the commitment. */
  lemma HeaderHashRejected(h: Combine, txHash: Uint256, auxHash: Uint256, chainId: int, strict: bool)
    requires auxHash[28..] == [0x6d, 0x6d, 0xbe, 0xfa]
    ensures !Accepts(h, InitAuxPow(txHash, auxHash), auxHash, chainId, strict)
  {
    var s := InitScript(auxHash);
    assert s[1] == auxHash[28..][3] && s[2] == auxHash[28..][2] && s[3] == auxHash[28..][1] && s[4] == auxHash[28..][0];
    assert s[1..5] == MERGED_MINING_HEADER;
    assert At(s, MERGED_MINING_HEADER, 1);
    InitAccepted(h, txHash, auxHash, chainId, strict);
  }
}
