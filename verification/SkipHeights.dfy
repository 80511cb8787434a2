/**
  The heights that skip pointers lead to, and how many steps a walk along them takes: from any height to any lower
  one it is at most quadratic in the binary logarithm of the height.
 */
module SkipHeights {

  import opened Numbers

  /** Turn the lowest one bit into a zero. */
  function InvertLowestOne(n: nat): (r: nat)
    ensures n > 0 ==> r < n
  {
    if n == 0 then 0 else if n % 2 == 1 then n - 1 else 2 * InvertLowestOne(n / 2)
  }

  /** On 32-bit words, n & (n - 1) obeys the equations of InvertLowestOne. */
  lemma InvertIsBitwise(n: bv32)
    ensures n & 1 == 1 ==> n & (n - 1) == n - 1
    ensures n & 1 == 0 ==> n & (n - 1) == 2 * ((n / 2) & (n / 2 - 1))
    ensures n == 0 ==> n & (n - 1) == 0
  {
  }

  function GetSkipHeight(height: nat): (r: nat)
    ensures height > 0 ==> r < height
  {
    if height < 2 then 0
    else if height % 2 == 1 then InvertLowestOne(InvertLowestOne(height - 1)) + 1
    else InvertLowestOne(height)
  }

  /** Whether the walk from a height to a lower one follows the skip pointer: not if the one of the parent is better. */
  predicate FollowsSkip(walk: nat, target: nat)
    requires target < walk
  {
    var skip, skipPrev := GetSkipHeight(walk), GetSkipHeight(walk - 1);
    skip == target || (skip > target && !(skipPrev < skip - 2 && skipPrev >= target))
  }

  function NextHeight(walk: nat, target: nat): (r: nat)
    requires target < walk
    ensures target <= r < walk
  {
    if FollowsSkip(walk, target) then GetSkipHeight(walk) else walk - 1
  }

  /** The number of steps from a height down to a lower one. */
  function Steps(walk: nat, target: nat): nat
  {
    if walk <= target then 0 else 1 + Steps(NextHeight(walk, target), target)
  }

  // ----- Bits -----

  // The proofs speak of any function that obeys the two equations of InvertLowestOne.

  ghost predicate DoubleAt(f: nat -> nat, n: nat, h: nat) { n == 2 * h ==> f(n) == 2 * f(h) }

  ghost predicate OddAt(f: nat -> nat, n: nat, h: nat) { n == 2 * h + 1 ==> f(n) == 2 * h }

  ghost predicate Inverts(f: nat -> nat)
  {
    && (forall n, h {:trigger DoubleAt(f, n, h)} :: DoubleAt(f, n, h))
    && (forall n, h {:trigger OddAt(f, n, h)} :: OddAt(f, n, h))
  }

  /** c * 2^j. */
  function Shl(c: nat, j: nat): nat { if j == 0 then c else 2 * Shl(c, j - 1) }

  lemma {:induction false} ShlSplit(c: nat, i: nat, j: nat)
    ensures Shl(Shl(c, i), j) == Shl(c, i + j)
  {
    if j > 0 { ShlSplit(c, i, j - 1); }
  }

  /** d steps of 2^j. */
  lemma {:induction false} ShlDown(c: nat, d: nat, j: nat)
    requires d <= c
    ensures Shl(c - d, j) == Shl(c, j) - Shl(d, j)
  {
    if j > 0 { ShlDown(c, d, j - 1); }
  }

  lemma {:induction false} ShlOne(j: nat)
    ensures Shl(1, j) == Pow2(j) && Shl(0, j) == 0
  {
    if j > 0 { ShlOne(j - 1); }
  }

  lemma {:induction false} InvertShl(f: nat -> nat, c: nat, j: nat)
    requires Inverts(f)
    ensures f(Shl(c, j)) == Shl(f(c), j)
  {
    if j > 0 {
      InvertShl(f, c, j - 1);
      assert DoubleAt(f, Shl(c, j), Shl(c, j - 1));
    }
  }

  /** The lowest m bits are zero. */
  ghost predicate Multiple(n: nat, m: nat) { exists c :: n == Shl(c, m) }

  /** A multiple of 2^m is a multiple of any smaller power. */
  lemma Coarser(n: nat, m: nat, j: nat) returns (e: nat)
    requires Multiple(n, m) && j <= m
    ensures n == Shl(e, j)
  {
    var c :| n == Shl(c, m);
    e := Shl(c, m - j);
    ShlSplit(c, m - j, j);
  }

  lemma MultipleAtLeast(n: nat, m: nat, j: nat)
    requires Multiple(n, m) && j <= m && n > 0
    ensures n >= Pow2(j)
  {
    var e := Coarser(n, m, j);
    ShlOne(j);
    assert e > 0;
    ShlDown(e, 1, j);
  }

  lemma EvenMultiple(n: nat, m: nat)
    requires Multiple(n, m)
    ensures m > 0 ==> n % 2 == 0
  {
    if m > 0 {
      var e := Coarser(n, m, 1);
      assert Shl(e, 1) == 2 * Shl(e, 0);
    }
  }

  /** Below a multiple n of 2^m, the lowest one bit of x = n - 2^j is the one at j; y is x without it. */
  lemma InvertBelow(f: nat -> nat, n: nat, m: nat, j: nat, p: nat, x: nat, y: nat)
    requires Inverts(f) && Multiple(n, m) && j < m && p == Pow2(j) && x == n - p && y == x - p
    ensures f(x) == y && Multiple(x, j) && Multiple(y, j + 1)
  {
    var e := Coarser(n, m, j + 1);
    ShlOne(j);
    ShlOne(j + 1);
    assert e > 0;
    BelowShl(f, e, j);
  }

  lemma BelowShl(f: nat -> nat, e: nat, j: nat)
    requires Inverts(f) && e > 0
    ensures Shl(2 * e - 1, j) == Shl(e, j + 1) - Pow2(j) && Shl(e - 1, j + 1) == Shl(e, j + 1) - 2 * Pow2(j)
    ensures f(Shl(2 * e - 1, j)) == Shl(e - 1, j + 1)
  {
    ShlOne(j);
    ShlOne(j + 1);
    ShlSplit(e, 1, j);
    ShlSplit(e - 1, 1, j);
    assert Shl(e, 1) == 2 * e && Shl(e - 1, 1) == 2 * e - 2;
    ShlDown(2 * e, 1, j);
    ShlDown(e, 1, j + 1);
    InvertShl(f, 2 * e - 1, j);
    assert OddAt(f, 2 * e - 1, e - 1);
  }

  /** The lowest one bit, and what is left without it. */
  lemma {:induction false} LowestBit(f: nat -> nat, n: nat) returns (k: nat, p: nat)
    requires Inverts(f) && n > 0
    ensures p == Pow2(k) && Multiple(n, k) && n >= p && f(n) == n - p
    ensures n % 2 == 0 ==> k > 0
  {
    var h := n / 2;
    if n % 2 == 1 {
      assert OddAt(f, n, h);
      k, p := 0, 1;
      assert n == Shl(n, 0);
    } else {
      k, p := LowestBit(f, h);
      var c :| h == Shl(c, k);
      assert n == Shl(c, k + 1);
      assert DoubleAt(f, n, h);
      k, p := k + 1, 2 * p;
    }
  }

  /** Turning the lowest one bit of a multiple of 2^m into a zero takes away at least p = 2^m. */
  lemma InvertMultiple(f: nat -> nat, n: nat, m: nat, p: nat)
    requires Inverts(f) && Multiple(n, m) && n > 0 && p == Pow2(m)
    ensures f(n) <= n - p
  {
    var e := Coarser(n, m, m);
    ShlOne(m);
    assert e > 0;
    var k, q := LowestBit(f, e);
    InvertShl(f, e, m);
    ShlDown(e, q, m);
    ShlGrows(q, m);
  }

  lemma {:induction false} ShlGrows(q: nat, m: nat)
    requires q > 0
    ensures Shl(q, m) >= Pow2(m)
  {
    if m > 0 { ShlGrows(q, m - 1); }
  }

  lemma InvertInverts(f: nat -> nat)
    requires f == ((n: nat) => InvertLowestOne(n))
    ensures Inverts(f)
  {
    forall n, h ensures DoubleAt(f, n, h) { assert n == 2 * h ==> n % 2 == 0 && n / 2 == h; }
    forall n, h ensures OddAt(f, n, h) { }
  }

  lemma InvertAt(n: nat, m: nat, j: nat, p: nat, x: nat, y: nat)
    requires Multiple(n, m) && j < m && p == Pow2(j) && x == n - p && y == x - p
    ensures InvertLowestOne(x) == y && Multiple(x, j) && Multiple(y, j + 1)
  {
    var f := (n: nat) => InvertLowestOne(n);
    InvertInverts(f);
    InvertBelow(f, n, m, j, p, x, y);
  }

  lemma InvertAtMost(n: nat, m: nat, p: nat)
    requires Multiple(n, m) && n > 0 && p == Pow2(m)
    ensures InvertLowestOne(n) <= n - p
  {
    var f := (n: nat) => InvertLowestOne(n);
    InvertInverts(f);
    InvertMultiple(f, n, m, p);
  }

  lemma InvertNoMore(n: nat)
    ensures InvertLowestOne(n) <= n
  {
  }

  lemma Pow2Double(j: nat, p: nat)
    requires p == Pow2(j)
    ensures Pow2(j + 1) == 2 * p
  {
  }

  lemma Pow2Fourfold(j: nat, p: nat)
    requires p == Pow2(j)
    ensures Pow2(j + 1) == 2 * p && Pow2(j + 2) == 4 * p
  {
  }

  // ----- Single steps -----

  // The proofs about whole walks speak of any function that counts steps as Steps does.

  ghost predicate StepAt(s: (nat, nat) -> nat, v: nat, t: nat)
  {
    if t < v then s(v, t) == 1 + s(NextHeight(v, t), t) else s(v, t) == 0
  }

  ghost predicate Walk(s: (nat, nat) -> nat)
  {
    forall v, t {:trigger StepAt(s, v, t)} :: StepAt(s, v, t)
  }

  /** Where the skip pointers of an even height and of the odd one above it lead. */
  lemma EvenSkip(u: nat, v: nat)
    requires u >= 2 && u % 2 == 0 && v == InvertLowestOne(u)
    ensures GetSkipHeight(u) == v && GetSkipHeight(u + 1) == InvertLowestOne(v) + 1
  {
  }

  /** A skip pointer is followed if it does not lead too far and the one of the parent leads no further down. */
  lemma FollowSkip(s: (nat, nat) -> nat, v: nat, t: nat, skip: nat, skipPrev: nat)
    requires Walk(s) && t < v && skip == GetSkipHeight(v) && skipPrev == GetSkipHeight(v - 1)
    requires t <= skip && (t == skip || skipPrev + 2 >= skip || skipPrev < t)
    ensures s(v, t) == 1 + s(skip, t)
  {
    assert StepAt(s, v, t);
  }

  lemma FollowParent(s: (nat, nat) -> nat, v: nat, t: nat, next: nat)
    requires Walk(s) && t < v && GetSkipHeight(v) < t && next + 1 == v
    ensures s(v, t) == 1 + s(next, t)
  {
    assert StepAt(s, v, t);
  }

  lemma Arrived(s: (nat, nat) -> nat, t: nat)
    requires Walk(s)
    ensures s(t, t) == 0
  {
    assert StepAt(s, t, t);
  }

  lemma OddSkip(w: nat, m: nat, j: nat, p: nat, u: nat, v: nat)
    requires Multiple(w, m) && 1 <= j < m && p == Pow2(j) && u + p == w && v + p == u
    ensures u >= 2 && GetSkipHeight(u) == v
    ensures j + 1 < m ==> v >= 2 * p && GetSkipHeight(u + 1) == v - 2 * p + 1
    ensures j + 1 == m ==> GetSkipHeight(u + 1) <= v + 1
  {
    Pow2Grows(1, j);
    InvertAt(w, m, j, p, u, v);
    EvenMultiple(u, j);
    EvenSkip(u, v);
    if j + 1 < m { InvertNext(w, m, j, p, v); } else { InvertNoMore(v); }
  }

  lemma InvertNext(w: nat, m: nat, j: nat, p: nat, v: nat)
    requires Multiple(w, m) && j + 1 < m && p == Pow2(j) && v + 2 * p == w && w > 0
    ensures v >= 2 * p && InvertLowestOne(v) == v - 2 * p
  {
    Pow2Fourfold(j, p);
    MultipleAtLeast(w, m, j + 2);
    InvertAt(w, m, j + 1, 2 * p, v, v - 2 * p);
  }

  // ----- Within a power of two -----

  /** What a walk from a multiple of 2^m to a height less than 2^m below it takes at most. */
  function Within(m: nat): nat { if m == 0 then 0 else Within(m - 1) + 3 + (m - 1) / 2 }

  lemma {:induction false} WithinGrows(m: nat, n: nat)
    requires m <= n
    ensures Within(m) <= Within(n)
  {
    if m < n { WithinGrows(m, n - 1); }
  }

  /** From a multiple of 2^m the walk goes to the parent, and then along odd heights in growing steps. */
  lemma {:induction false} WithinBlock(s: (nat, nat) -> nat, w: nat, m: nat, q: nat, t: nat)
    requires Walk(s) && Multiple(w, m) && w > 0 && q == Pow2(m) && w - q < t <= w
    ensures s(w, t) <= Within(m)
    decreases m, m + 2
  {
    if t == w {
      Arrived(s, t);
    } else {
      BlockStep(s, w, m, q, t);
      WithinOdd(s, w, m, q, 1, 2, t);
    }
  }

  lemma BlockStep(s: (nat, nat) -> nat, w: nat, m: nat, q: nat, t: nat)
    requires Walk(s) && Multiple(w, m) && q == Pow2(m) && w - q < t < w
    ensures m > 0 && s(w, t) == 1 + s(w - 1, t) && Pow2(1) == 2 && w >= q
  {
    assert m == 0 ==> q == 1;
    EvenMultiple(w, m);
    InvertAtMost(w, m, q);
    MultipleAtLeast(w, m, m);
    FollowParent(s, w, t, w - 1);
  }

  /** At an odd height, one above a height whose bits from j up to m are ones. */
  lemma {:induction false} WithinOdd(s: (nat, nat) -> nat, w: nat, m: nat, q: nat, j: nat, p: nat, t: nat)
    requires Walk(s) && Multiple(w, m) && j % 2 == 1 && j <= m && q == Pow2(m) && p == Pow2(j) && p <= q <= w
    requires w - q < t <= w - p + 1
    ensures s(w - p + 1, t) <= (m - j) / 2 + 2 + Within(m - 1)
    decreases m, m - j + 1
  {
    var v := w - p + 1;
    if t == v {
      Arrived(s, t);
    } else {
      assert j < m;
      Pow2Fourfold(j, p);
      Pow2Grows(j + 1, m);
      if j + 1 < m && w + 1 >= t + 4 * p {
        Pow2Grows(j + 2, m);
        OddFar(s, w, m, j, p, v, t);
        WithinOdd(s, w, m, q, j + 2, 4 * p, t);
      } else {
        OddNear(s, w, m, j, p, v, t);
        if s(v, t) != 1 { WithinEven(s, w, m, q, j, p, t); }
      }
    }
  }

  lemma OddFar(s: (nat, nat) -> nat, w: nat, m: nat, j: nat, p: nat, v: nat, t: nat)
    requires Walk(s) && Multiple(w, m) && 1 <= j && j + 1 < m && p == Pow2(j) && v + p == w + 1 && t < v
    requires w + 1 >= t + 4 * p
    ensures s(v, t) == 1 + s(w - 4 * p + 1, t)
  {
    OddSkip(w, m, j, p, v - 1, v - 1 - p);
    FollowSkip(s, v, t, w - 4 * p + 1, v - 1 - p);
  }

  lemma OddNear(s: (nat, nat) -> nat, w: nat, m: nat, j: nat, p: nat, v: nat, t: nat)
    requires Walk(s) && Multiple(w, m) && 1 <= j < m && p == Pow2(j) && v + p == w + 1 && w >= 2 * p
    requires t < v && (if j + 1 < m then w + 1 < t + 4 * p else w < t + 2 * p)
    ensures s(v, t) == 1 || s(v, t) == 1 + s(v - 1, t)
  {
    OddSkip(w, m, j, p, v - 1, v - 1 - p);
    if GetSkipHeight(v) == t {
      FollowSkip(s, v, t, t, GetSkipHeight(v - 1));
      Arrived(s, t);
    } else {
      FollowParent(s, v, t, v - 1);
    }
  }

  /** At the even height below, when the skip pointer of the odd one leads too far. */
  lemma {:induction false} WithinEven(s: (nat, nat) -> nat, w: nat, m: nat, q: nat, j: nat, p: nat, t: nat)
    requires Walk(s) && Multiple(w, m) && j % 2 == 1 && j < m && q == Pow2(m) && p == Pow2(j) && 2 * p <= q <= w
    requires w - q < t <= w - p && (j + 1 < m ==> w + 1 < t + 4 * p)
    ensures s(w - p, t) <= 1 + Within(m - 1)
    decreases m, 0
  {
    var u, v := w - p, w - 2 * p;
    Pow2Double(j, p);
    InvertAt(w, m, j, p, u, v);
    if t > v {
      WithinGrows(j, m - 1);
      WithinBlock(s, u, j, p, t);
    } else {
      assert j + 1 < m;
      EvenStep(s, w, m, j, p, u, v, t);
      WithinGrows(j + 1, m - 1);
      WithinBlock(s, v, j + 1, 2 * p, t);
    }
  }

  lemma EvenStep(s: (nat, nat) -> nat, w: nat, m: nat, j: nat, p: nat, u: nat, v: nat, t: nat)
    requires Walk(s) && Multiple(w, m) && j % 2 == 1 && j + 1 < m && p == Pow2(j) && u + p == w && v + p == u
    requires w + 1 < t + 4 * p && t <= v
    ensures v > 0 && s(u, t) == 1 + s(v, t)
  {
    OddSkip(w, m, j, p, u, v);
    if t < v { ParentNotBetter(w, m, j, p, u, v, t); }
    FollowSkip(s, u, t, v, GetSkipHeight(u - 1));
  }

  /** The skip pointer of the height before does not lead to a better place. */
  lemma ParentNotBetter(w: nat, m: nat, j: nat, p: nat, u: nat, v: nat, t: nat)
    requires Multiple(w, m) && j % 2 == 1 && j + 1 < m && p == Pow2(j) && u + p == w && v + p == u && v >= 2 * p
    requires w + 1 < t + 4 * p && t < v
    ensures GetSkipHeight(u - 1) < t || GetSkipHeight(u - 1) + 2 >= v
  {
    if j == 1 {
      assert p == 2;
      AfterTwo(w, m);
    } else {
      Pow2Grows(3, j);
      assert Pow2(3) == 8;
      InvertAt(w, m, j, p, u, v);
      SevenBelow(u, j);
    }
  }

  lemma AfterTwo(w: nat, m: nat)
    requires Multiple(w, m) && w >= 8 && m >= 3
    ensures GetSkipHeight(w - 3) <= w - 7
  {
    EvenMultiple(w, m);
    assert Pow2(2) == 4;
    InvertAt(w, m, 2, 4, w - 4, w - 8);
    EvenSkip(w - 4, w - 8);
    InvertNoMore(w - 8);
  }

  lemma SevenBelow(u: nat, j: nat)
    requires Multiple(u, j) && j >= 3 && u >= 8
    ensures GetSkipHeight(u - 1) == u - 7
  {
    assert Pow2(1) == 2 && Pow2(2) == 4;
    InvertAt(u, j, 1, 2, u - 2, u - 4);
    InvertAt(u, j, 2, 4, u - 4, u - 8);
    EvenMultiple(u, j);
    EvenSkip(u - 2, u - 4);
  }

  // ----- From any height -----

  /** The number of one bits. */
  function Ones(n: nat): nat { if n == 0 then 0 else 1 + Ones(InvertLowestOne(n)) }

  lemma {:induction false} OnesDouble(n: nat, h: nat)
    requires n == 2 * h
    ensures Ones(n) == Ones(h)
    decreases h
  {
    if h > 0 {
      assert n % 2 == 0 && n / 2 == h;
      OnesDouble(InvertLowestOne(n), InvertLowestOne(h));
    }
  }

  lemma {:induction false} OnesBound(n: nat, k: nat)
    requires n < Pow2(k)
    ensures Ones(n) <= k
    decreases k
  {
    if n > 0 {
      var h := n / 2;
      OnesBound(h, k - 1);
      OnesDouble(2 * h, h);
    }
  }

  lemma LowestOf(n: nat) returns (k: nat, p: nat)
    requires n > 0 && n % 2 == 0
    ensures k > 0 && p == Pow2(k) && Multiple(n, k) && n >= p && InvertLowestOne(n) == n - p && (n - p) % 2 == 0
  {
    var f := (n: nat) => InvertLowestOne(n);
    InvertInverts(f);
    k, p := LowestBit(f, n);
    assert p == 2 * Pow2(k - 1);
  }

  /** A power of two that is at most n has an exponent at most that of the largest one. */
  lemma ExponentAtMost(k: nat, n: nat, top: nat)
    requires Pow2(k) <= n < Pow2(top + 1)
    ensures k <= top
  {
    if k > top { Pow2Grows(top + 1, k); }
  }

  /** The walk from an even height u with x = u - 2^k below it, when the parent's pointer leads below t or above x. */
  lemma ParentSkip(u: nat, k: nat, p: nat, x: nat)
    requires u >= 4 && u % 2 == 0 && k > 0 && p == Pow2(k) && Multiple(u, k) && x + p == u && InvertLowestOne(u) == x
    ensures GetSkipHeight(u - 1) + 2 >= x || GetSkipHeight(u - 1) <= InvertLowestOne(x) + 1
    ensures GetSkipHeight(u - 1) + 2 < x ==> Ones(u - 2) <= Ones(u)
  {
    assert Pow2(0) == 1 && Pow2(1) == 2 && Pow2(2) == 4 && Pow2(3) == 8;
    if k == 1 {
      AfterOne(u, x);
    } else if k == 2 {
      InvertAt(u, 2, 1, 2, u - 2, u - 4);
      EvenSkip(u - 2, u - 4);
    } else {
      Pow2Grows(3, k);
      SevenBelow(u, k);
    }
  }

  lemma AfterOne(u: nat, x: nat)
    requires u >= 4 && u % 2 == 0 && x + 2 == u && InvertLowestOne(u) == x
    ensures GetSkipHeight(u - 1) <= InvertLowestOne(x) + 1 && Ones(u - 2) <= Ones(u)
  {
    EvenSkip(x, InvertLowestOne(x));
    InvertNoMore(InvertLowestOne(x));
  }

  /** The end of the walk from an even height, when two bits are too much to clear. */
  lemma EvenEnd(s: (nat, nat) -> nat, u: nat, t: nat, top: nat)
    requires Walk(s) && u >= 2 && u % 2 == 0 && u < Pow2(top + 1)
    requires InvertLowestOne(InvertLowestOne(u)) + 1 < t <= u
    ensures s(u, t) <= 1 + Within(top)
  {
    var k, p := LowestOf(u);
    ExponentAtMost(k, u, top);
    WithinGrows(k, top);
    var x := u - p;
    if t > x {
      WithinBlock(s, u, k, p, t);
    } else {
      EvenSkip(u, x);
      ParentSkip(u, k, p, x);
      FollowSkip(s, u, t, x, GetSkipHeight(u - 1));
      var k', p' := LowestOf(x);
      ExponentAtMost(k', x, top);
      WithinGrows(k', top);
      WithinBlock(s, x, k', p', t);
    }
  }

  lemma {:induction false} FromOdd(s: (nat, nat) -> nat, u: nat, t: nat, top: nat)
    requires Walk(s) && u % 2 == 0 && u < Pow2(top + 1) && t <= u + 1
    ensures s(u + 1, t) <= Ones(u) + 3 + Within(top)
    decreases u
  {
    if t == u + 1 {
      Arrived(s, t);
    } else if u == 0 {
      FollowSkip(s, 1, 0, 0, 0);
      Arrived(s, 0);
    } else {
      var k, p := LowestOf(u);
      var x := u - p;
      var y := InvertLowestOne(x);
      EvenSkip(u, x);
      if t <= y + 1 {
        InvertNoMore(x);
        FollowSkip(s, u + 1, t, y + 1, x);
        EvenInvert(x);
        FromOdd(s, y, t, top);
        OnesTwo(u, x, y);
      } else {
        FollowParent(s, u + 1, t, u);
        EvenEnd(s, u, t, top);
      }
    }
  }

  lemma EvenInvert(x: nat)
    ensures InvertLowestOne(x) % 2 == 0
  {
  }

  lemma OnesTwo(u: nat, x: nat, y: nat)
    requires u > 0 && x == InvertLowestOne(u) && y == InvertLowestOne(x)
    ensures Ones(y) < Ones(u)
  {
    assert Ones(u) == 1 + Ones(x);
  }

  lemma {:induction false} FromEven(s: (nat, nat) -> nat, w: nat, t: nat, top: nat)
    requires Walk(s) && w % 2 == 0 && w < Pow2(top + 1) && t <= w
    ensures s(w, t) <= Ones(w) + 4 + Within(top)
    decreases w
  {
    if t == w {
      Arrived(s, t);
    } else {
      var k, p := LowestOf(w);
      ExponentAtMost(k, w, top);
      WithinGrows(k, top);
      var x := w - p;
      EvenSkip(w, x);
      if t > x {
        WithinBlock(s, w, k, p, t);
      } else if t == x || GetSkipHeight(w - 1) + 2 >= x || GetSkipHeight(w - 1) < t {
        FollowSkip(s, w, t, x, GetSkipHeight(w - 1));
        FromEven(s, x, t, top);
        assert Ones(w) == 1 + Ones(x);
      } else {
        ParentSkip(w, k, p, x);
        assert StepAt(s, w, t);
        FromOdd(s, w - 2, t, top);
      }
    }
  }

  lemma {:induction false} WithinQuadratic(m: nat)
    ensures 4 * Within(m) <= m * m + 12 * m
  {
    if m > 0 {
      WithinQuadratic(m - 1);
      assert (m - 1) * (m - 1) == m * m - 2 * m + 1;
    }
  }

  lemma StepsWalk(s: (nat, nat) -> nat)
    requires s == ((v: nat, t: nat) => Steps(v, t))
    ensures Walk(s)
  {
    forall v, t ensures StepAt(s, v, t) { }
  }

  /** From any height to any lower one: at most a quarter of the square of the logarithm, and some. */
  lemma StepsBound(w: nat, t: nat)
    requires t <= w && w > 0
    ensures 4 * Steps(w, t) <= Log2(w) * Log2(w) + 16 * Log2(w) + 20
  {
    var top := Log2(w);
    var s := (v: nat, t: nat) => Steps(v, t);
    StepsWalk(s);
    assert Pow2(top + 1) == 2 * Pow2(top);
    if w % 2 == 0 {
      FromEven(s, w, t, top);
      OnesBound(w, top + 1);
    } else {
      FromOdd(s, w - 1, t, top);
      OnesBound(w - 1, top + 1);
    }
    WithinQuadratic(top);
  }
}
