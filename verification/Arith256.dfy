/**
  256-bit unsigned numbers in eight 32-bit limbs: what the carry loops compute, as numbers.
 */
module Arith256 {
  import opened Numbers

  const BASE: nat := 0x1_0000_0000
  const WIDTH: nat := 8

  type Limb = x: int | 0 <= x < BASE

  // ----- Values -----

  function BPow(n: nat): (r: nat)
    ensures r > 0
  {
    if n == 0 then 1 else BASE * BPow(n - 1)
  }

  /** The modulus 2^256. */
  ghost function Modulus(): nat { BPow(WIDTH) }

  /** The number that limbs stand for, least significant first. */
  function Val(s: seq<Limb>): nat
  {
    if s == [] then 0 else s[0] + BASE * Val(s[1..])
  }

  lemma {:induction false} ValAppend(s: seq<Limb>, x: Limb)
    ensures Val(s + [x]) == Val(s) + x * BPow(|s|)
  {
    if s == [] {
      assert [x][1..] == [];
    } else {
      ValAppend(s[1..], x);
      assert (s + [x])[1..] == s[1..] + [x];
      MulAssoc(BASE, x, BPow(|s| - 1));
      MulAssoc(x, BASE, BPow(|s| - 1));
    }
  }

  lemma {:induction false} ValBound(s: seq<Limb>)
    ensures Val(s) < BPow(|s|)
  {
    if s != [] { ValBound(s[1..]); }
  }

  lemma {:induction false} ValSplit(s: seq<Limb>, k: nat)
    requires k <= |s|
    ensures Val(s) == Val(s[..k]) + Val(s[k..]) * BPow(k)
  {
    if k == 0 {
      assert s[0..] == s && s[..0] == [];
    } else {
      ValSplit(s[1..], k - 1);
      assert s[1..][..k - 1] == s[..k][1..] && s[1..][k - 1..] == s[k..];
      MulAssoc(BASE, Val(s[k..]), BPow(k - 1));
      MulAssoc(Val(s[k..]), BASE, BPow(k - 1));
    }
  }

  lemma {:induction false} ValZeros(s: seq<Limb>)
    requires forall i :: 0 <= i < |s| ==> s[i] == 0
    ensures Val(s) == 0
  {
    if s != [] { ValZeros(s[1..]); }
  }

  lemma {:induction false} BPowAdd(m: nat, n: nat, k: nat)
    requires k == m + n
    ensures BPow(k) == BPow(m) * BPow(n)
  {
    if m > 0 {
      BPowAdd(m - 1, n, k - 1);
      MulAssoc(BASE, BPow(m - 1), BPow(n));
    }
  }

  /** A sum written with a carry. */
  lemma CarryStep(n: nat, p: nat)
    ensures (n % BASE) * p + (n / BASE) * (BASE * p) == n * p
  {
    MulAssoc(n / BASE, BASE, p);
    MulAdd((n / BASE) * BASE, n % BASE, p);
  }

  lemma ModIs(x: nat, y: nat, k: nat)
    requires x < Modulus() && x + k * Modulus() == y
    ensures x == y % Modulus()
  {
    QuotientIs(y, Modulus(), k, x);
  }

  lemma ModSmall(x: nat)
    requires x < Modulus()
    ensures x % Modulus() == x
  {
    QuotientIs(x, Modulus(), 0, x);
  }

  lemma ValLow(s: seq<Limb>)
    requires |s| >= 2 && forall i :: 2 <= i < |s| ==> s[i] == 0
    ensures Val(s) == s[0] + BASE * s[1]
  {
    assert s[1..][1..] == s[2..];
    ValZeros(s[2..]);
    assert Val(s[1..]) == s[1];
  }

  // ----- The number class -----

  class BaseUint {
    var pn: seq<Limb>

    ghost predicate Valid()
      reads this
    {
      |pn| == WIDTH
    }

    ghost function V(): nat
      reads this
    {
      Val(pn)
    }

    constructor ()
      ensures Valid() && V() == 0
    {
      pn := seq(WIDTH, _ => 0);
      new;
      ValZeros(pn);
    }

    constructor Copy(b: BaseUint)
      requires b.Valid()
      ensures Valid() && pn == b.pn
    {
      pn := b.pn;
    }

    constructor From64(b: nat)
      requires b < BASE * BASE
      ensures Valid() && V() == b
    {
      pn := [b % BASE, b / BASE, 0, 0, 0, 0, 0, 0];
      new;
      ValLow(pn);
    }

    /** Addition modulo 2^256; every intermediate sum fits into 64 bits. */
    method AddAssign(b: BaseUint)
      requires Valid() && b.Valid()
      modifies this
      ensures Valid() && V() == old(V() + b.V()) % Modulus()
    {
      var other := b.pn;
      var carry := 0;
      for i := 0 to WIDTH
        invariant |pn| == WIDTH && 0 <= carry <= 1 && forall k :: i <= k < WIDTH ==> pn[k] == old(pn)[k]
        invariant Val(pn[..i]) + carry * BPow(i) == Val(old(pn)[..i]) + Val(other[..i])
      {
        var n := carry + pn[i] + other[i];
        assert n < BASE * BASE;
        AddStep(pn[..i], old(pn), other, i, carry, n);
        ghost var before := pn;
        pn := pn[i := n % BASE];
        assert pn[..i + 1] == before[..i] + [n % BASE];
        carry := n / BASE;
      }
      assert pn[..WIDTH] == pn && old(pn)[..WIDTH] == old(pn) && other[..WIDTH] == other;
      ValBound(pn);
      ModIs(V(), Val(old(pn)) + Val(other), carry);
    }

    /** Multiplication by a 32-bit number modulo 2^256; every intermediate product fits into 64 bits. */
    method MulAssign32(b32: Limb)
      requires Valid()
      modifies this
      ensures Valid() && V() == (b32 * old(V())) % Modulus()
    {
      var carry := 0;
      for i := 0 to WIDTH
        invariant |pn| == WIDTH && 0 <= carry < BASE && forall k :: i <= k < WIDTH ==> pn[k] == old(pn)[k]
        invariant Val(pn[..i]) + carry * BPow(i) == b32 * Val(old(pn)[..i])
      {
        ProductFits(b32, pn[i], carry);
        var n := carry + b32 * pn[i];
        assert n < BASE * BASE;
        MulStep(pn[..i], old(pn), i, b32, carry, n);
        ghost var before := pn;
        pn := pn[i := n % BASE];
        assert pn[..i + 1] == before[..i] + [n % BASE];
        carry := n / BASE;
      }
      assert pn[..WIDTH] == pn && old(pn)[..WIDTH] == old(pn);
      ValBound(pn);
      ModIs(V(), b32 * Val(old(pn)), carry);
    }

    /** Multiplication modulo 2^256. */
    method MulAssign(b: BaseUint)
      requires Valid() && b.Valid()
      modifies this
      ensures Valid() && V() == old(V() * b.V()) % Modulus()
    {
      var other := b.pn;
      var a: seq<Limb> := seq(WIDTH, _ => 0);
      ValZeros(a);
      for j := 0 to WIDTH
        invariant pn == old(pn) && |a| == WIDTH && Val(a) == (Val(pn[..j]) * Val(other)) % Modulus()
      {
        ghost var before := Val(a);
        a := AddRow(a, j, pn[j], other);
        RowAdded(pn, j, other, before, Val(a), Modulus());
      }
      assert pn[..WIDTH] == pn;
      pn := a;
    }

    /** Shift left, modulo 2^256. */
    method ShiftLeftAssign(amount: nat)
      requires Valid()
      modifies this
      ensures Valid() && V() == (old(V()) * Pow2(amount)) % Modulus()
    {
      var a := pn;
      pn := seq(WIDTH, _ => 0);
      var k, s := amount / 32, amount % 32;
      ghost var end := if k < WIDTH then WIDTH - k else 0;
      if k < WIDTH { ShiftedStart(a, k, s, pn); }
      for i := 0 to WIDTH
        invariant |pn| == WIDTH
        invariant k >= WIDTH ==> forall t :: 0 <= t < WIDTH ==> pn[t] == 0
        invariant k < WIDTH ==> Shifted(a, k, s, if i < end then i else end, pn)
      {
        ghost var before := pn;
        if i + k + 1 < WIDTH && s != 0 {
          pn := pn[i + k + 1 := Or(pn[i + k + 1], ShiftedRight(a[i], 32 - s))];
        }
        if i + k < WIDTH {
          pn := pn[i + k := Or(pn[i + k], ShiftedLeft(a[i], s))];
          ShiftStep(a, k, s, i, before, pn);
        }
      }
      if k < WIDTH {
        ShiftEnds(a, pn, k, s, amount, WIDTH);
      } else {
        ShiftedOut(a, pn, k, s, amount, WIDTH);
      }
    }

    /** Shift right. */
    method ShiftRightAssign(amount: nat)
      requires Valid()
      modifies this
      ensures Valid() && V() == old(V()) / Pow2(amount)
    {
      var a := pn;
      pn := seq(WIDTH, _ => 0);
      var k, s := amount / 32, amount % 32;
      for i := 0 to WIDTH
        invariant |pn| == WIDTH && forall t :: 0 <= t < WIDTH ==> pn[t] == ShrAt(a, k, s, i, t)
      {
        if i - k - 1 >= 0 && s != 0 {
          ShrDisjoint(a[i - 1], a[i], s);
          pn := pn[i - k - 1 := Or(pn[i - k - 1], ShiftedLeft(a[i], 32 - s))];
        }
        if i - k >= 0 {
          pn := pn[i - k := Or(pn[i - k], ShiftedRight(a[i], s))];
        }
      }
      ShrEnds(a, pn, k, s, amount);
    }

    /** -1, 0 or 1. */
    method CompareTo(b: BaseUint) returns (r: int)
      requires Valid() && b.Valid()
      ensures r == if V() < b.V() then -1 else if V() > b.V() then 1 else 0
    {
      var i := WIDTH - 1;
      while i >= 0
        invariant -1 <= i < WIDTH && forall t :: i < t < WIDTH ==> pn[t] == b.pn[t]
      {
        if pn[i] < b.pn[i] {
          CompareLess(pn, b.pn, i);
          return -1;
        }
        if pn[i] > b.pn[i] {
          CompareLess(b.pn, pn, i);
          return 1;
        }
        i := i - 1;
      }
      assert pn == b.pn;
      return 0;
    }

    /** The position of the highest set bit plus one, or zero. */
    method Bits() returns (r: nat)
      requires Valid()
      ensures r <= 256 && (r == 0 <==> V() == 0)
      ensures r > 0 ==> Pow2(r - 1) <= V() < Pow2(r)
    {
      var pos := WIDTH - 1;
      while pos >= 0
        invariant -1 <= pos < WIDTH && forall t :: pos < t < WIDTH ==> pn[t] == 0
      {
        if pn[pos] != 0 {
          var nbits := 31;
          Pow2Of32();
          while nbits > 0
            invariant 0 <= nbits <= 31 && pn[pos] < Pow2(nbits + 1)
          {
            if pn[pos] / Pow2(nbits) % 2 == 1 {
              TopBit(pn[pos], nbits);
              BitsAt(pn, pos, nbits);
              return 32 * pos + nbits + 1;
            }
            BelowBit(pn[pos], nbits);
            nbits := nbits - 1;
          }
          BitsAt(pn, pos, 0);
          return 32 * pos + 1;
        }
        pos := pos - 1;
      }
      ValZeros(pn);
      return 0;
    }

    /** Set one bit of the quotient. */
    method SetBit(n: nat)
      requires Valid() && n < 256 && Aligned(pn, n + 1)
      modifies this
      ensures Valid() && Aligned(pn, n) && V() == old(V()) + Pow2(n)
    {
      var i, b := n / 32, n % 32;
      SmallPow2(b);
      BitIsFree(pn, i, b, n);
      pn := pn[i := Or(pn[i], Pow2(b))];
    }

    /** Division by shifting and subtracting; it fails exactly for a zero divisor. */
    method DivAssign(b: BaseUint) returns (ok: bool)
      requires Valid() && b.Valid()
      modifies this
      ensures Valid() && (ok <==> old(b.V()) != 0)
      ensures ok ==> V() == old(V()) / old(b.V())
    {
      var div := new BaseUint.Copy(b);
      var num := new BaseUint.Copy(this);
      ghost var n, d := V(), b.V();
      pn := seq(WIDTH, _ => 0);
      ValZeros(pn);
      var numBits := num.Bits();
      var divBits := div.Bits();
      if divBits == 0 {
        return false;
      }
      if divBits > numBits {
        SmallQuotient(n, d, numBits, divBits);
        return true;
      }
      div.AlignWith(n, numBits, divBits, numBits - divBits);
      AlignedZeros(pn, numBits - divBits + 1);
      DivideAll(num, div, n, d, numBits - divBits);
      return true;
    }

    /** The loop: one bit of the quotient after another, from the highest. */
    method DivideAll(num: BaseUint, div: BaseUint, ghost n: nat, ghost d: nat, numShifts: nat)
      requires numShifts < 256 && d > 0 && Dividing(num, div, n, d, numShifts)
      modifies this, num, div
      ensures Valid() && V() == n / d
    {
      var amount: int := numShifts;
      while amount >= 0
        invariant -1 <= amount < 256 && Dividing(num, div, n, d, amount)
      {
        DivideOnce(num, div, n, d, amount);
        amount := amount - 1;
      }
      QuotientIs(n, d, V(), num.V());
    }

    /** Shift a divisor so that its highest bit is where the dividend has its own. */
    method AlignWith(ghost n: nat, ghost numBits: nat, ghost divBits: nat, amount: nat)
      requires Valid() && 0 < divBits <= numBits <= 256 && amount == numBits - divBits
      requires Pow2(numBits - 1) <= n < Pow2(numBits) && Pow2(divBits - 1) <= V() < Pow2(divBits)
      modifies this
      ensures Valid() && V() == old(V()) * Pow2(amount) && n < old(V()) * Pow2(amount + 1)
    {
      BPowIsPow2(WIDTH);
      DivStart(n, V(), numBits, divBits, amount, 256, Modulus());
      ShiftLeftAssign(amount);
    }

    /** The quotient so far, what is left of the dividend, and the shifted divisor. */
    ghost predicate Dividing(num: BaseUint, div: BaseUint, n: nat, d: nat, amount: int)
      reads this, num, div
    {
      && amount >= -1 && num != div && num != this && div != this
      && Valid() && num.Valid() && div.Valid() && Aligned(pn, amount + 1)
      && n == V() * d + num.V() && num.V() < d * Pow2(amount + 1)
      && (amount >= 0 ==> div.V() == d * Pow2(amount))
    }

    method DivideOnce(num: BaseUint, div: BaseUint, ghost n: nat, ghost d: nat, amount: nat)
      requires amount < 256 && Dividing(num, div, n, d, amount)
      modifies this, num, div
      ensures Dividing(num, div, n, d, amount - 1)
    {
      var c := num.CompareTo(div);
      ghost var rest := num.V();
      DivStep(n, V(), d, rest, Pow2(amount));
      if c >= 0 {
        num.SubAssign(div);
        SetBit(amount);
      } else {
        AlignedLess(pn, amount);
      }
      div.ShiftRightAssign(1);
      if amount > 0 { HalfTerm(d, Pow2(amount - 1)); }
    }

    /** Bitwise complement. */
    method Complement() returns (ret: BaseUint)
      requires Valid()
      ensures fresh(ret) && ret.Valid() && ret.V() == Modulus() - 1 - V()
    {
      ret := new BaseUint();
      for i := 0 to WIDTH
        invariant ret.Valid() && forall k :: 0 <= k < i ==> ret.pn[k] == BASE - 1 - pn[k]
      {
        ret.pn := ret.pn[i := BASE - 1 - pn[i]];
      }
      InvertedAt(pn, ret.pn);
      InvertedVal(pn);
    }

    /** Add one, modulo 2^256. */
    method Increment()
      requires Valid()
      modifies this
      ensures Valid() && V() == (old(V()) + 1) % Modulus()
    {
      pn := Incremented(pn);
    }

    /** Subtract one, modulo 2^256. */
    method Decrement()
      requires Valid()
      modifies this
      ensures Valid() && V() == (old(V()) - 1) % Modulus()
    {
      pn := Decremented(pn);
    }

    /** The negative, modulo 2^256. */
    method Negated() returns (ret: BaseUint)
      requires Valid()
      ensures fresh(ret) && ret.Valid() && ret.V() == (Modulus() - V()) % Modulus()
    {
      ret := Complement();
      ret.Increment();
    }

    /** Subtraction modulo 2^256. */
    method SubAssign(b: BaseUint)
      requires Valid() && b.Valid()
      modifies this
      ensures Valid() && V() == (old(V()) - old(b.V())) % Modulus()
      ensures old(b.V()) <= old(V()) ==> V() == old(V()) - old(b.V())
    {
      ValBound(b.pn);
      ValBound(pn);
      ghost var x, y := V(), b.V();
      var minus := b.Negated();
      AddAssign(minus);
      SubMod(x, y);
      if y <= x { SubExact(x, y, Modulus()); }
    }
  }

  lemma AddStep(r: seq<Limb>, x: seq<Limb>, y: seq<Limb>, i: nat, carry: nat, n: nat)
    requires i < |x| && i < |y| && |r| == i && n == carry + x[i] + y[i]
    requires Val(r) + carry * BPow(i) == Val(x[..i]) + Val(y[..i])
    ensures Val(r + [n % BASE]) + (n / BASE) * BPow(i + 1) == Val(x[..i + 1]) + Val(y[..i + 1])
  {
    assert x[..i + 1] == x[..i] + [x[i]] && y[..i + 1] == y[..i] + [y[i]];
    ValAppend(x[..i], x[i]);
    ValAppend(y[..i], y[i]);
    ValAppend(r, n % BASE);
    AddArith(Val(r), Val(x[..i]), Val(y[..i]), carry, x[i], y[i], n, BPow(i));
  }

  lemma AddArith(r: nat, x: nat, y: nat, carry: nat, xi: nat, yi: nat, n: nat, p: nat)
    requires r + carry * p == x + y && n == carry + xi + yi
    ensures r + (n % BASE) * p + (n / BASE) * (BASE * p) == x + xi * p + y + yi * p
  {
    CarryStep(n, p);
    MulAdd(carry + xi, yi, p);
    MulAdd(carry, xi, p);
  }

  method Incremented(o: seq<Limb>) returns (s: seq<Limb>)
    requires |o| == WIDTH
    ensures |s| == WIDTH && Val(s) == (Val(o) + 1) % Modulus()
  {
    s := o;
    var i := 0;
    while i < WIDTH
      invariant 0 <= i <= WIDTH && |s| == WIDTH && forall t :: i <= t < WIDTH ==> s[t] == o[t]
      invariant Val(s[..i]) == 0 && Val(o[..i]) + 1 == BPow(i)
    {
      if s[i] != BASE - 1 {
        IncrementEnds(s, o, i);
        s := s[i := s[i] + 1];
        ValBound(s);
        ModSmall(Val(s));
        return;
      }
      IncrementCarries(s, o, i);
      s := s[i := 0];
      i := i + 1;
    }
    assert s[..WIDTH] == s && o[..WIDTH] == o;
    ModIs(Val(s), Val(o) + 1, 1);
  }

  method Decremented(o: seq<Limb>) returns (s: seq<Limb>)
    requires |o| == WIDTH
    ensures |s| == WIDTH && Val(s) == (Val(o) - 1) % Modulus()
  {
    s := o;
    var i := 0;
    while i < WIDTH
      invariant 0 <= i <= WIDTH && |s| == WIDTH && forall t :: i <= t < WIDTH ==> s[t] == o[t]
      invariant Val(o[..i]) == 0 && Val(s[..i]) + 1 == BPow(i)
    {
      if s[i] != 0 {
        DecrementEnds(s, o, i);
        s := s[i := s[i] - 1];
        ValBound(s);
        ModSmall(Val(s));
        return;
      }
      DecrementBorrows(s, o, i);
      s := s[i := BASE - 1];
      i := i + 1;
    }
    assert s[..WIDTH] == s && o[..WIDTH] == o;
    QuotientIs(-1, Modulus(), -1, Modulus() - 1);
  }

  lemma IncrementEnds(s: seq<Limb>, o: seq<Limb>, i: nat)
    requires i < |s| == |o| && Val(s[..i]) == 0 && Val(o[..i]) + 1 == BPow(i) && s[i] != BASE - 1
    requires forall t :: i <= t < |s| ==> s[t] == o[t]
    ensures Val(s[i := s[i] + 1]) == Val(o) + 1
  {
    var s' := s[i := s[i] + 1];
    ValSplit(o, i);
    ValSplit(s', i);
    assert s'[..i] == s[..i];
    var x, y := s'[i..], o[i..];
    assert x[1..] == y[1..] && x[0] == y[0] + 1;
    assert Val(x) == Val(y) + 1;
    MulAdd(Val(y), 1, BPow(i));
  }

  lemma IncrementCarries(s: seq<Limb>, o: seq<Limb>, i: nat)
    requires i < |s| == |o| && Val(s[..i]) == 0 && Val(o[..i]) + 1 == BPow(i) && s[i] == BASE - 1 && s[i] == o[i]
    ensures Val(s[i := 0][..i + 1]) == 0 && Val(o[..i + 1]) + 1 == BPow(i + 1)
  {
    assert s[i := 0][..i + 1] == s[..i] + [0] && o[..i + 1] == o[..i] + [o[i]];
    ValAppend(s[..i], 0);
    ValAppend(o[..i], o[i]);
    MulAdd(BASE - 1, 1, BPow(i));
  }

  lemma DecrementEnds(s: seq<Limb>, o: seq<Limb>, i: nat)
    requires i < |s| == |o| && Val(o[..i]) == 0 && Val(s[..i]) + 1 == BPow(i) && s[i] != 0
    requires forall t :: i <= t < |s| ==> s[t] == o[t]
    ensures Val(s[i := s[i] - 1]) + 1 == Val(o)
  {
    var o', s' := o[i := o[i] - 1], s[i := s[i] - 1];
    assert o'[..i] == o[..i] && s'[..i] == s[..i];
    IncrementEnds(o', s', i);
    assert o'[i := o'[i] + 1] == o;
  }

  lemma DecrementBorrows(s: seq<Limb>, o: seq<Limb>, i: nat)
    requires i < |s| == |o| && Val(o[..i]) == 0 && Val(s[..i]) + 1 == BPow(i) && s[i] == 0 && s[i] == o[i]
    ensures Val(o[..i + 1]) == 0 && Val(s[i := BASE - 1][..i + 1]) + 1 == BPow(i + 1)
  {
    var o', s' := o[i := BASE - 1], s[i := BASE - 1];
    assert o'[..i] == o[..i] && s'[..i] == s[..i];
    IncrementCarries(o', s', i);
    assert o'[i := 0] == o;
  }

  lemma SubMod(x: nat, y: nat)
    requires y < Modulus()
    ensures (x + (Modulus() - y) % Modulus()) % Modulus() == (x - y) % Modulus()
  {
    var m := Modulus();
    if y == 0 {
      QuotientIs(m, m, 1, 0);
    } else {
      QuotientIs(m - y, m, 0, m - y);
      DivPlus(x - y, m, 1);
    }
  }

  // ----- Products -----

  lemma ProductFits(x: Limb, y: Limb, rest: nat)
    requires rest <= 2 * (BASE - 1)
    ensures 0 <= x * y && rest + x * y < BASE * BASE
    ensures rest <= BASE - 1 ==> (rest + x * y) / BASE < BASE
  {
    MulNonNegative(x, y);
    MulMonotone(x, BASE - 1, y);
    MulMonotone(y, BASE - 1, BASE - 1);
  }

  lemma MulStep(r: seq<Limb>, x: seq<Limb>, i: nat, b: nat, carry: nat, n: nat)
    requires i < |x| && |r| == i && n == carry + b * x[i] && Val(r) + carry * BPow(i) == b * Val(x[..i])
    ensures Val(r + [n % BASE]) + (n / BASE) * BPow(i + 1) == b * Val(x[..i + 1])
  {
    assert x[..i + 1] == x[..i] + [x[i]];
    ValAppend(x[..i], x[i]);
    ValAppend(r, n % BASE);
    MulArith(Val(r), Val(x[..i]), b, carry, x[i], n, BPow(i));
  }

  lemma MulArith(r: nat, x: nat, b: nat, carry: nat, xi: nat, n: nat, p: nat)
    requires r + carry * p == b * x && n == carry + b * xi
    ensures r + (n % BASE) * p + (n / BASE) * (BASE * p) == b * (x + xi * p)
  {
    CarryStep(n, p);
    MulAdd(carry, b * xi, p);
    MulAssoc(b, xi, p);
    MulAdd(x, xi * p, b);
  }

  /** Add x * other * 2^(32 j) to a number, modulo a power of 2^32. */
  method AddRow(start: seq<Limb>, j: nat, x: Limb, other: seq<Limb>) returns (a: seq<Limb>)
    requires j < |start| == |other|
    ensures |a| == |start| && Val(a) == (Val(start) + x * Val(other) * BPow(j)) % BPow(|start|)
  {
    a := start;
    var carry, n := 0, |start|;
    assert other[..0] == [] && start[..0 + j] == a[..0 + j];
    var i := 0;
    while i + j < n
      invariant 0 <= i && i + j <= n == |a| && 0 <= carry < BASE
      invariant forall k :: i + j <= k < n ==> a[k] == start[k]
      invariant Val(a[..i + j]) + carry * BPow(i + j) == Val(start[..i + j]) + x * Val(other[..i]) * BPow(j)
    {
      ProductFits(x, other[i], carry + a[i + j]);
      var t := carry + a[i + j] + x * other[i];
      assert t < BASE * BASE;
      RowStep(a[..i + j], start, other, i, j, x, carry, t);
      ghost var before := a;
      a := a[i + j := t % BASE];
      assert a[..i + j + 1] == before[..i + j] + [t % BASE];
      carry := t / BASE;
      i := i + 1;
    }
    assert a[..n] == a && start[..n] == start;
    MulNonNegative(x, Val(other));
    RowFinish(a, start, other, j, x, carry, n, Val(start) + x * Val(other) * BPow(j));
  }

  lemma RowStep(r: seq<Limb>, start: seq<Limb>, other: seq<Limb>, i: nat, j: nat, x: Limb, carry: nat, n: nat)
    requires i + j < |start| && i < |other| && |r| == i + j && n == carry + start[i + j] + x * other[i]
    requires Val(r) + carry * BPow(i + j) == Val(start[..i + j]) + x * Val(other[..i]) * BPow(j)
    ensures Val(r + [n % BASE]) + (n / BASE) * BPow(i + j + 1) ==
      Val(start[..i + j + 1]) + x * Val(other[..i + 1]) * BPow(j)
  {
    assert start[..i + j + 1] == start[..i + j] + [start[i + j]] && other[..i + 1] == other[..i] + [other[i]];
    ValAppend(start[..i + j], start[i + j]);
    ValAppend(other[..i], other[i]);
    ValAppend(r, n % BASE);
    BPowAdd(i, j, i + j);
    RowArith(Val(r), Val(start[..i + j]), Val(other[..i]), x, carry, start[i + j], other[i], n, BPow(i), BPow(j),
             BPow(i + j));
  }

  lemma RowArith(r: nat, s: nat, o: nat, x: nat, carry: nat, si: nat, oi: nat, n: nat, pi: nat, pj: nat, p: nat)
    requires p == pi * pj && n == carry + si + x * oi && r + carry * p == s + x * o * pj
    ensures r + (n % BASE) * p + (n / BASE) * (BASE * p) == s + si * p + x * (o + oi * pi) * pj
  {
    CarryStep(n, p);
    MulAdd(carry + si, x * oi, p);
    MulAdd(carry, si, p);
    MulAdd(o, oi * pi, x);
    MulAdd(x * o, x * (oi * pi), pj);
    MulAssoc(x, oi, pi);
    MulAssoc(x * oi, pi, pj);
  }

  lemma RowEnds(a: seq<Limb>, start: seq<Limb>, other: seq<Limb>, j: nat, x: Limb, carry: nat, n: nat) returns (k: nat)
    requires |a| == |start| == |other| == n && j < n
    requires Val(a) + carry * BPow(n) == Val(start) + x * Val(other[..n - j]) * BPow(j)
    ensures Val(a) + k * BPow(n) == Val(start) + x * Val(other) * BPow(j)
  {
    ValSplit(other, n - j);
    BPowAdd(n - j, j, n);
    k := RowEndCarry(Val(a), Val(start), x, Val(other), Val(other[..n - j]), Val(other[n - j..]), BPow(n - j), BPow(j),
                     BPow(n), carry);
  }

  lemma RowFinish(a: seq<Limb>, start: seq<Limb>, other: seq<Limb>, j: nat, x: Limb, carry: nat, n: nat, y: nat)
    requires |a| == |start| == |other| == n && j < n && y == Val(start) + x * Val(other) * BPow(j)
    requires Val(a) + carry * BPow(n) == Val(start) + x * Val(other[..n - j]) * BPow(j)
    ensures Val(a) == y % BPow(n)
  {
    var k := RowEnds(a, start, other, j, x, carry, n);
    ValBound(a);
    QuotientIs(y, BPow(n), k, Val(a));
  }

  lemma RowEndCarry(a: nat, s: nat, x: nat, o: nat, low: nat, high: nat, pk: nat, pj: nat, m: nat, carry: nat)
    returns (k: nat)
    requires m == pk * pj && o == low + high * pk && a + carry * m == s + x * low * pj
    ensures a + k * m == s + x * o * pj
  {
    RowEndArith(low, high, x, pk, pj, m);
    MulAdd(carry, x * high, m);
    k := carry + x * high;
  }

  lemma RowEndArith(low: nat, high: nat, x: nat, pk: nat, pj: nat, m: nat)
    requires m == pk * pj
    ensures x * (low + high * pk) * pj == x * low * pj + (x * high) * m
  {
    MulAdd(low, high * pk, x);
    MulAdd(x * low, x * (high * pk), pj);
    MulAssoc(x, high, pk);
    MulAssoc(x * high, pk, pj);
  }

  lemma RowAdded(x: seq<Limb>, j: nat, other: seq<Limb>, before: nat, after: nat, m: nat)
    requires m > 0 && j < |x| && before == (Val(x[..j]) * Val(other)) % m
    requires after == (before + x[j] * Val(other) * BPow(j)) % m
    ensures after == (Val(x[..j + 1]) * Val(other)) % m
  {
    assert x[..j + 1] == x[..j] + [x[j]];
    ValAppend(x[..j], x[j]);
    MulNonNegative(x[j], Val(other));
    ModAddLeft(Val(x[..j]) * Val(other), x[j] * Val(other) * BPow(j), m);
    RowAddedArith(Val(x[..j]), x[j], Val(other), BPow(j));
  }

  lemma RowAddedArith(x: nat, xj: nat, o: nat, p: nat)
    ensures x * o + xj * o * p == (x + xj * p) * o
  {
    MulAdd(x, xj * p, o);
    MulAssoc(xj, o, p);
    MulAssoc(xj, p, o);
  }

  lemma ModAddLeft(u: int, v: int, m: nat)
    requires m > 0
    ensures (u % m + v) % m == (u + v) % m
  {
    DivPlus(u % m + v, m, u / m);
  }

  // ----- Complement -----

  function Inverted(s: seq<Limb>): (r: seq<Limb>)
    ensures |r| == |s|
  {
    if s == [] then [] else [BASE - 1 - s[0]] + Inverted(s[1..])
  }

  lemma {:induction false} InvertedVal(s: seq<Limb>)
    ensures Val(Inverted(s)) == BPow(|s|) - 1 - Val(s)
  {
    if s != [] {
      InvertedVal(s[1..]);
      assert Inverted(s)[1..] == Inverted(s[1..]);
    }
  }

  lemma {:induction false} InvertedAt(s: seq<Limb>, r: seq<Limb>)
    requires |r| == |s| && forall i :: 0 <= i < |s| ==> r[i] == BASE - 1 - s[i]
    ensures r == Inverted(s)
  {
    if s != [] {
      InvertedAt(s[1..], r[1..]);
      assert r == [r[0]] + r[1..];
    }
  }

  // ----- Bits -----

  /** Bitwise or of natural numbers. */
  function BitOr(x: nat, y: nat): nat
    decreases x + y
  {
    if x == 0 then y
    else if y == 0 then x
    else (if x % 2 == 1 || y % 2 == 1 then 1 else 0) + 2 * BitOr(x / 2, y / 2)
  }

  /** Where the bits do not overlap, or is addition. */
  lemma {:induction false} OrDisjoint(x: nat, k: nat, s: nat)
    requires x < Pow2(s)
    ensures BitOr(x, k * Pow2(s)) == x + k * Pow2(s) == BitOr(k * Pow2(s), x)
    decreases s
  {
    if s > 0 && x > 0 && k > 0 {
      OrDisjoint(x / 2, k, s - 1);
      var y := k * Pow2(s - 1);
      DoubleTerm(k, Pow2(s - 1));
      assert k * Pow2(s) == 2 * y;
    }
  }

  lemma DoubleTerm(k: nat, p: nat)
    ensures k * (2 * p) == 2 * (k * p)
  {
  }

  lemma {:induction false} Pow2Add(m: nat, n: nat, k: nat)
    requires k == m + n
    ensures Pow2(k) == Pow2(m) * Pow2(n)
  {
    if m > 0 {
      Pow2Add(m - 1, n, k - 1);
      MulAssoc(2, Pow2(m - 1), Pow2(n));
    }
  }

  lemma Pow2Of32()
    ensures Pow2(8) == 256 && Pow2(32) == BASE
  {
    assert Pow2(2) == 4;
    Pow2Add(2, 2, 4);
    Pow2Add(4, 4, 8);
    Pow2Add(8, 8, 16);
    Pow2Add(16, 16, 32);
  }

  lemma {:induction false} BPowIsPow2(n: nat)
    ensures BPow(n) == Pow2(32 * n)
  {
    Pow2Of32();
    if n > 0 {
      BPowIsPow2(n - 1);
      Pow2Add(32, 32 * (n - 1), 32 * n);
    }
  }

  /** A limb shifted left by s bits: what stays and what leaves. */
  lemma ShiftParts(x: Limb, s: nat, hi: nat, lo: nat)
    requires 0 < s < 32 && hi == x / Pow2(32 - s) && lo == x % Pow2(32 - s) * Pow2(s)
    ensures x * Pow2(s) == hi * BASE + lo && hi < Pow2(s) && lo <= BASE - Pow2(s)
    ensures (x * Pow2(s)) % BASE == lo
  {
    Pow2Of32();
    Pow2Add(32 - s, s, 32);
    PartsArith(x, Pow2(s), Pow2(32 - s), hi, lo);
  }

  lemma PartsArith(x: nat, p: nat, q: nat, hi: nat, lo: nat)
    requires q * p == BASE && q > 0 && p > 0 && x < BASE && hi == x / q && lo == x % q * p
    ensures x * p == hi * BASE + lo && hi < p && lo <= BASE - p
    ensures (x * p) % BASE == lo
  {
    assert x == hi * q + x % q;
    MulAdd(hi * q, x % q, p);
    MulAssoc(hi, q, p);
    MulMonotone(x % q, q - 1, p);
    MulAdd(q, -1, p);
    if hi >= p { MulMonotone(p, hi, q); }
    QuotientIs(x * p, BASE, hi, lo);
  }

  // ----- Shifts -----

  /** The 32-bit operators of one limb. */
  function ShiftedLeft(x: Limb, s: nat): (r: Limb)
  {
    MulNonNegative(x, Pow2(s));
    (x * Pow2(s)) % BASE
  }

  function ShiftedRight(x: Limb, s: nat): (r: Limb)
  {
    DivMonotone(0, x, Pow2(s));
    QuotientAtMost(x, Pow2(s));
    x / Pow2(s)
  }

  lemma QuotientAtMost(x: nat, d: nat)
    requires d > 0
    ensures 0 <= x / d <= x
  {
    assert x == (x / d) * d + x % d;
    if x / d > x { MulMonotone(1, d, x / d); }
  }

  function Or(x: Limb, y: Limb): (r: Limb)
  {
    Pow2Of32();
    OrBound(x, y, 32);
    BitOr(x, y)
  }

  lemma {:induction false} OrBound(x: nat, y: nat, s: nat)
    requires x < Pow2(s) && y < Pow2(s)
    ensures BitOr(x, y) < Pow2(s)
    decreases s
  {
    if s > 0 { OrBound(x / 2, y / 2, s - 1); }
  }

  /** What the limb above has received after e limbs. */
  ghost function CarryInto(a: seq<Limb>, s: nat, e: nat): nat
    requires e <= |a| && s < 32
  {
    if e == 0 || s == 0 then 0 else ShiftedRight(a[e - 1], 32 - s)
  }

  /** The state of a left shift by 32 k + s bits after e limbs. */
  ghost predicate Shifted(a: seq<Limb>, k: nat, s: nat, e: nat, r: seq<Limb>)
    requires s < 32
  {
    && e + k <= |r| == |a|
    && (forall t :: e + k < t < |r| ==> r[t] == 0)
    && (e + k < |r| ==> r[e + k] == CarryInto(a, s, e))
    && Val(r[..e + k]) + CarryInto(a, s, e) * BPow(e + k) == Pow2(s) * Val(a[..e]) * BPow(k)
  }

  lemma ShiftedStart(a: seq<Limb>, k: nat, s: nat, r: seq<Limb>)
    requires |a| == |r| && k < |r| && s < 32 && forall t :: 0 <= t < |r| ==> r[t] == 0
    ensures Shifted(a, k, s, 0, r)
  {
    ValZeros(r[..k]);
    assert a[..0] == [];
  }

  lemma SmallPow2(s: nat)
    requires s < 32
    ensures Pow2(s) < BASE
  {
    Pow2Grows(s, 31);
    Pow2Of32();
  }

  /** One limb of a left shift. */
  lemma ShiftLimb(x: Limb, s: nat, carry: Limb, hi: nat)
    requires s < 32 && carry < Pow2(s) && hi == if s == 0 then 0 else ShiftedRight(x, 32 - s)
    ensures Or(carry, ShiftedLeft(x, s)) == (carry + Pow2(s) * x) % BASE && hi == (carry + Pow2(s) * x) / BASE
    ensures hi < Pow2(s)
  {
    if s == 0 {
      assert Pow2(0) == 1 && carry == 0;
      ShiftNothing(x);
    } else {
      ShiftSome(x, s, Pow2(s), Pow2(32 - s), carry, hi);
    }
  }

  lemma ShiftNothing(x: Limb)
    ensures Or(0, ShiftedLeft(x, 0)) == x && x % BASE == x && x / BASE == 0
  {
    assert Pow2(0) == 1;
  }

  lemma ShiftSome(x: Limb, s: nat, p: nat, q: nat, carry: Limb, hi: nat)
    requires 0 < s < 32 && p == Pow2(s) && q == Pow2(32 - s) && carry < p && hi == ShiftedRight(x, 32 - s)
    ensures Or(carry, ShiftedLeft(x, s)) == (carry + p * x) % BASE && hi == (carry + p * x) / BASE && hi < p
  {
    Pow2Of32();
    Pow2Add(32 - s, s, 32);
    LimbArith(x, p, q, carry, hi, x % q);
    OrDisjoint(carry, x % q, s);
  }

  lemma LimbArith(x: nat, p: nat, q: nat, carry: nat, hi: nat, lo: nat)
    requires q * p == BASE && q > 0 && p > 0 && x < BASE && carry < p && hi == x / q && lo == x % q
    ensures (carry + p * x) / BASE == hi < p && (carry + p * x) % BASE == carry + lo * p && (x * p) % BASE == lo * p
  {
    PartsArith(x, p, q, hi, lo * p);
    QuotientIs(carry + p * x, BASE, hi, carry + lo * p);
  }

  lemma CarrySmall(a: seq<Limb>, s: nat, e: nat)
    requires e <= |a| && s < 32
    ensures CarryInto(a, s, e) < Pow2(s)
  {
    if e > 0 && s > 0 { ShiftParts(a[e - 1], s, ShiftedRight(a[e - 1], 32 - s), a[e - 1] % Pow2(32 - s) * Pow2(s)); }
  }

  lemma ShiftStep(a: seq<Limb>, k: nat, s: nat, e: nat, r: seq<Limb>, r': seq<Limb>)
    requires s < 32 && e + k < |r| && Shifted(a, k, s, e, r)
    requires r' ==
      (if e + k + 1 < |r| && s != 0 then r[e + k + 1 := Or(r[e + k + 1], ShiftedRight(a[e], 32 - s))] else r)
                   [e + k := Or(r[e + k], ShiftedLeft(a[e], s))]
    ensures Shifted(a, k, s, e + 1, r')
  {
    var carry, zeros := CarryInto(a, s, e), seq(|r|, _ => 0);
    CarrySmall(a, s, e);
    SmallPow2(s);
    ShiftLimb(a[e], s, carry, CarryInto(a, s, e + 1));
    ValZeros(zeros[..e + k]);
    ValZeros(zeros[..e + k + 1]);
    RowStep(r[..e + k], zeros, a, e, k, Pow2(s), carry, carry + zeros[e + k] + Pow2(s) * a[e]);
    assert r'[..e + k + 1] == r[..e + k] + [r'[e + k]];
  }

  lemma ShiftEnds(a: seq<Limb>, r: seq<Limb>, k: nat, s: nat, amount: nat, n: nat)
    requires |a| == |r| == n && k < n && s < 32 && amount == 32 * k + s && Shifted(a, k, s, n - k, r)
    ensures Val(r) == (Val(a) * Pow2(amount)) % BPow(n)
  {
    var zeros := seq(n, _ => 0);
    ValZeros(zeros);
    SmallPow2(s);
    assert r[..n] == r;
    var q := RowEnds(r, zeros, a, k, Pow2(s), CarryInto(a, s, n - k), n);
    BPowIsPow2(k);
    Pow2Add(s, 32 * k, amount);
    ShiftEndArith(Val(r), Val(a), Pow2(s), BPow(k), Pow2(amount), BPow(n), q);
    ValBound(r);
    QuotientIs(Val(a) * Pow2(amount), BPow(n), q, Val(r));
  }

  lemma ShiftEndArith(r: nat, v: nat, p: nat, b: nat, pb: nat, m: nat, q: nat)
    requires pb == p * b && r + q * m == p * v * b
    ensures r + q * m == v * pb
  {
    MulAssoc(v, p, b);
  }

  lemma ShiftedOut(a: seq<Limb>, r: seq<Limb>, k: nat, s: nat, amount: nat, n: nat)
    requires |r| == n && k >= n && amount == 32 * k + s && forall t :: 0 <= t < n ==> r[t] == 0
    ensures Val(r) == (Val(a) * Pow2(amount)) % BPow(n)
  {
    ValZeros(r);
    BPowIsPow2(n);
    Pow2Add(amount - 32 * n, 32 * n, amount);
    MulAssoc(Val(a), Pow2(amount - 32 * n), BPow(n));
    QuotientIs(Val(a) * Pow2(amount), BPow(n), Val(a) * Pow2(amount - 32 * n), 0);
  }

  /** A limb of a right shift by 32 k + s bits after the first i limbs have been moved. */
  ghost function ShrAt(a: seq<Limb>, k: nat, s: nat, i: nat, t: nat): int
    requires i <= |a| && s < 32
  {
    (if t + k < i then ShiftedRight(a[t + k], s) as int else 0) +
      (if t + k + 1 < i && s != 0 then ShiftedLeft(a[t + k + 1], 32 - s) as int else 0)
  }

  lemma ShrDisjoint(x: Limb, y: Limb, s: nat)
    requires 0 < s < 32
    ensures Or(ShiftedRight(x, s), ShiftedLeft(y, 32 - s)) == ShiftedRight(x, s) as int + ShiftedLeft(y, 32 - s)
    ensures ShiftedLeft(y, 32 - s) == y % Pow2(s) * Pow2(32 - s)
  {
    ShiftedLeftIs(y, s);
    ShiftedRightSmall(x, s);
    OrDisjoint(ShiftedRight(x, s), y % Pow2(s), 32 - s);
  }

  lemma ShiftedLeftIs(y: Limb, s: nat)
    requires 0 < s < 32
    ensures ShiftedLeft(y, 32 - s) == y % Pow2(s) * Pow2(32 - s)
  {
    Pow2Of32();
    Pow2Add(s, 32 - s, 32);
    ModMul(y, Pow2(s), Pow2(32 - s), BASE);
  }

  lemma ModMul(y: nat, p: nat, q: nat, m: nat)
    requires m == p * q && p > 0 && q > 0
    ensures (y * q) % m == y % p * q
  {
    var a, b := y / p, y % p;
    MulAdd(a * p, b, q);
    MulAssoc(a, p, q);
    MulMonotone(b, p - 1, q);
    MulAdd(p, -1, q);
    MulNonNegative(b, q);
    QuotientIs(y * q, m, a, b * q);
  }

  lemma ShiftedRightSmall(x: Limb, s: nat)
    requires 0 < s < 32
    ensures ShiftedRight(x, s) < Pow2(32 - s)
  {
    Pow2Of32();
    Pow2Add(s, 32 - s, 32);
    DivBound(x, Pow2(s), Pow2(32 - s));
  }

  lemma DivBound(x: nat, p: nat, q: nat)
    requires p > 0 && x < p * q
    ensures x / p < q
  {
    assert x == (x / p) * p + x % p;
    if x / p >= q { MulMonotone(q, x / p, p); }
  }

  /** A right shift by less than a limb. */
  ghost function ShrLimbs(c: seq<Limb>, s: nat): (r: seq<int>)
    requires s < 32
    ensures |r| == |c|
  {
    if c == [] then []
    else
      [(ShiftedRight(c[0], s) as int) + if |c| > 1 && s != 0 then ShiftedLeft(c[1], 32 - s) as int else 0]
      + ShrLimbs(c[1..], s)
  }

  lemma {:induction false} ShrLimbsAt(c: seq<Limb>, s: nat, t: nat)
    requires s < 32 && t < |c|
    ensures ShrLimbs(c, s)[t] ==
      (ShiftedRight(c[t], s) as int) + if t + 1 < |c| && s != 0 then ShiftedLeft(c[t + 1], 32 - s) as int else 0
  {
    if t > 0 { ShrLimbsAt(c[1..], s, t - 1); }
  }

  /** What is shifted and what falls out. */
  lemma {:induction false} ShrVal(c: seq<Limb>, s: nat, r: seq<Limb>)
    requires s < 32 && r == ShrLimbs(c, s)
    ensures Val(c) == Val(r) * Pow2(s) + if c == [] then 0 else c[0] % Pow2(s)
  {
    if c != [] {
      ShrVal(c[1..], s, r[1..]);
      if s == 0 {
        assert Pow2(0) == 1;
      } else {
        Pow2Of32();
        Pow2Add(s, 32 - s, 32);
        var next := if |c| > 1 then c[1] % Pow2(s) else 0;
        if |c| > 1 { ShrDisjoint(c[0], c[1], s); }
        ShrArith(Val(c[1..]), Val(r[1..]), c[0], next, Pow2(s), Pow2(32 - s), r[0]);
      }
    }
  }

  lemma ShrArith(v: nat, w: nat, c0: nat, next: nat, p: nat, q: nat, r0: nat)
    requires p * q == BASE && p > 0 && v == w * p + next && r0 == c0 / p + next * q
    ensures c0 + BASE * v == (r0 + BASE * w) * p + c0 % p
  {
    MulAdd(c0 / p, next * q, p);
    MulAdd(r0, BASE * w, p);
    MulAssoc(next, q, p);
    MulAssoc(BASE, w, p);
    assert c0 == (c0 / p) * p + c0 % p;
  }

  lemma ShrEnds(a: seq<Limb>, r: seq<Limb>, k: nat, s: nat, amount: nat)
    requires |a| == |r| && s < 32 && amount == 32 * k + s && forall t :: 0 <= t < |a| ==> r[t] == ShrAt(a, k, s, |a|, t)
    ensures Val(r) == Val(a) / Pow2(amount)
  {
    if k >= |a| { ShrOut(a, r, k, amount); } else { ShrIn(a, r, k, s, amount, |a|); }
  }

  lemma ShrOut(a: seq<Limb>, r: seq<Limb>, k: nat, amount: nat)
    requires |a| == |r| <= k && amount >= 32 * k && forall t :: 0 <= t < |a| ==> r[t] == 0
    ensures Val(r) == Val(a) / Pow2(amount)
  {
    ValZeros(r);
    ValBound(a);
    BPowIsPow2(|a|);
    Pow2Grows(32 * |a|, amount);
    QuotientIs(Val(a), Pow2(amount), 0, Val(a));
  }

  lemma ShrIn(a: seq<Limb>, r: seq<Limb>, k: nat, s: nat, amount: nat, n: nat)
    requires |a| == |r| == n && k < n && s < 32 && amount == 32 * k + s
    requires forall t :: 0 <= t < n ==> r[t] == ShrAt(a, k, s, n, t)
    ensures Val(r) == Val(a) / Pow2(amount)
  {
    ShrTop(a, r, k, s, n);
    ValSplit(a, k);
    ValBound(a[..k]);
    BPowIsPow2(k);
    Pow2Add(s, 32 * k, amount);
    ShrEndArith(Val(a), Val(a[..k]), Val(a[k..]), Val(r), a[k] % Pow2(s), Pow2(s), BPow(k), Pow2(amount));
  }

  lemma ShrTop(a: seq<Limb>, r: seq<Limb>, k: nat, s: nat, n: nat)
    requires |a| == |r| == n && k < n && s < 32
    requires forall t :: 0 <= t < n ==> r[t] == ShrAt(a, k, s, n, t)
    ensures Val(a[k..]) == Val(r) * Pow2(s) + a[k] % Pow2(s)
  {
    var c, d := a[k..], r[..n - k];
    ShrSame(a, r, k, s, n);
    ShrVal(c, s, d);
    ValZeros(r[n - k..]);
    ValSplit(r, n - k);
  }

  lemma ShrSame(a: seq<Limb>, r: seq<Limb>, k: nat, s: nat, n: nat)
    requires |a| == |r| == n && k < n && s < 32 && forall t :: 0 <= t < n ==> r[t] == ShrAt(a, k, s, n, t)
    ensures r[..n - k] == ShrLimbs(a[k..], s) && forall t :: n - k <= t < n ==> r[t] == 0
  {
    forall t | 0 <= t < n - k ensures r[..n - k][t] == ShrLimbs(a[k..], s)[t] { ShrLimbsAt(a[k..], s, t); }
  }

  lemma ShrEndArith(v: nat, low: nat, c: nat, d: nat, rem: nat, p: nat, b: nat, pb: nat)
    requires pb == p * b && p > 0 && v == low + c * b && low < b && c == d * p + rem && rem < p
    ensures v / pb == d
  {
    MulAdd(d * p, rem, b);
    MulAssoc(d, p, b);
    MulMonotone(rem, p - 1, b);
    MulAdd(p, -1, b);
    MulNonNegative(rem, b);
    QuotientIs(v, pb, d, rem * b + low);
  }

  // ----- Comparison -----

  /** The highest limb that differs decides. */
  lemma CompareLess(a: seq<Limb>, b: seq<Limb>, i: nat)
    requires |a| == |b| && i < |a| && a[i] < b[i] && forall t :: i < t < |a| ==> a[t] == b[t]
    ensures Val(a) < Val(b)
  {
    ValSplit(a, i);
    ValSplit(b, i);
    ValBound(a[..i]);
    assert a[i..][1..] == b[i..][1..];
    LessArith(Val(a[..i]), Val(b[..i]), Val(a[i..]), Val(b[i..]), BPow(i));
  }

  lemma LessArith(la: nat, lb: nat, ha: nat, hb: nat, p: nat)
    requires la < p && ha < hb
    ensures la + ha * p < lb + hb * p
  {
    MulMonotone(ha + 1, hb, p);
    MulAdd(ha, 1, p);
  }

  lemma TopBit(x: nat, n: nat)
    requires x < Pow2(n + 1) && x / Pow2(n) % 2 == 1
    ensures Pow2(n) <= x
  {
    if x < Pow2(n) { QuotientIs(x, Pow2(n), 0, x); }
  }

  lemma BelowBit(x: nat, n: nat)
    requires x < Pow2(n + 1) && x / Pow2(n) % 2 != 1
    ensures x < Pow2(n)
  {
    if x >= Pow2(n) { QuotientIs(x, Pow2(n), 1, x - Pow2(n)); }
  }

  /** The highest non-zero limb gives the bit length. */
  lemma BitsAt(s: seq<Limb>, pos: nat, nbits: nat)
    requires pos < |s| && nbits < 32 && Pow2(nbits) <= s[pos] < Pow2(nbits + 1)
    requires forall t :: pos < t < |s| ==> s[t] == 0
    ensures Pow2(32 * pos + nbits) <= Val(s) < Pow2(32 * pos + nbits + 1) && Val(s) > 0
  {
    ValSplit(s, pos);
    var high := s[pos..];
    ValZeros(high[1..]);
    assert Val(high) == s[pos];
    ValBound(s[..pos]);
    BPowIsPow2(pos);
    Pow2Add(nbits, 32 * pos, 32 * pos + nbits);
    Pow2Add(nbits + 1, 32 * pos, 32 * pos + nbits + 1);
    BitsArith(Val(s[..pos]), s[pos], Pow2(nbits), Pow2(nbits + 1), BPow(pos));
  }

  lemma BitsArith(low: nat, x: nat, p: nat, p': nat, b: nat)
    requires low < b && p <= x < p'
    ensures p * b <= low + x * b < p' * b
  {
    MulMonotone(p, x, b);
    MulMonotone(x + 1, p', b);
    MulAdd(x, 1, b);
  }

  // ----- Division -----

  /** A limb of a number that is a multiple of 2^n. */
  predicate AlignedAt(q: seq<Limb>, t: nat, n: nat)
    requires t < |q|
  {
    if 32 * t + 32 <= n then q[t] == 0 else if 32 * t < n then q[t] % Pow2(n - 32 * t) == 0 else true
  }

  ghost predicate Aligned(q: seq<Limb>, n: nat)
  {
    forall t: nat {:trigger AlignedAt(q, t, n)} :: t < |q| ==> AlignedAt(q, t, n)
  }

  lemma AlignedZeros(q: seq<Limb>, n: nat)
    requires forall t :: 0 <= t < |q| ==> q[t] == 0
    ensures Aligned(q, n)
  {
    forall t: nat | t < |q| ensures AlignedAt(q, t, n) {
      if 32 * t < n < 32 * t + 32 { QuotientIs(0, Pow2(n - 32 * t), 0, 0); }
    }
  }

  lemma HalfAligned(x: nat, p: nat)
    requires p > 0 && x % (2 * p) == 0
    ensures x % p == 0
  {
    var k := x / (2 * p);
    assert x == k * (2 * p);
    DoubleTerm(k, p);
    MulAssoc(2, k, p);
    QuotientIs(x, p, 2 * k, 0);
  }

  lemma AlignedLess(q: seq<Limb>, n: nat)
    requires Aligned(q, n + 1)
    ensures Aligned(q, n)
  {
    forall t: nat | t < |q| ensures AlignedAt(q, t, n) { AlignedLessAt(q, t, n); }
  }

  lemma AlignedLessAt(q: seq<Limb>, t: nat, n: nat)
    requires t < |q| && AlignedAt(q, t, n + 1)
    ensures AlignedAt(q, t, n)
  {
    if 32 * t < n < 32 * t + 31 {
      HalfAligned(q[t], Pow2(n - 32 * t));
    } else if n == 32 * t + 31 {
      QuotientIs(0, Pow2(31), 0, 0);
    }
  }

  lemma {:induction false} ValUpdate(s: seq<Limb>, i: nat, x: Limb)
    requires i < |s|
    ensures Val(s[i := x]) == Val(s) + (x - s[i]) * BPow(i)
  {
    var s' := s[i := x];
    ValSplit(s, i);
    ValSplit(s', i);
    assert s'[..i] == s[..i] && s'[i..][1..] == s[i..][1..];
    assert Val(s'[i..]) == Val(s[i..]) + (x - s[i]);
    MulAdd(Val(s[i..]), x - s[i], BPow(i));
  }

  /** In a number that is a multiple of 2^(n + 1), bit n can be set. */
  lemma BitIsFree(q: seq<Limb>, i: nat, b: nat, n: nat)
    requires i < |q| && b < 32 && n == 32 * i + b && Aligned(q, n + 1) && Pow2(b) < BASE
    ensures Val(q[i := Or(q[i], Pow2(b))]) == Val(q) + Pow2(n) && Aligned(q[i := Or(q[i], Pow2(b))], n)
  {
    assert AlignedAt(q, i, n + 1);
    FreeLimb(q[i], b);
    ValUpdate(q, i, Or(q[i], Pow2(b)));
    BPowIsPow2(i);
    Pow2Add(b, 32 * i, n);
    var q' := q[i := Or(q[i], Pow2(b))];
    forall t: nat | t < |q| ensures AlignedAt(q', t, n) {
      assert AlignedAt(q, t, n + 1);
      if t != i { AlignedLessAt(q, t, n); }
    }
  }

  lemma FreeLimb(x: Limb, b: nat)
    requires b < 32 && Pow2(b) < BASE && (if b == 31 then x == 0 else x % Pow2(b + 1) == 0)
    ensures Or(x, Pow2(b)) == x + Pow2(b) && (x + Pow2(b)) % Pow2(b) == 0
  {
    if b == 31 {
      QuotientIs(Pow2(31), Pow2(31), 1, 0);
    } else {
      var c := x / Pow2(b + 1);
      assert x == c * Pow2(b + 1);
      OrDisjoint(Pow2(b), c, b + 1);
      HalfAligned(x, Pow2(b));
      DivPlus(x, Pow2(b), 1);
    }
  }

  lemma SmallQuotient(n: nat, d: nat, numBits: nat, divBits: nat)
    requires divBits > numBits && Pow2(divBits - 1) <= d && (numBits == 0 ==> n == 0)
    requires (numBits > 0 ==> n < Pow2(numBits))
    ensures n / d == 0
  {
    Pow2Grows(numBits, divBits - 1);
    QuotientIs(n, d, 0, n);
  }

  lemma DivStart(n: nat, d: nat, numBits: nat, divBits: nat, amount: nat, w: nat, m: nat)
    requires 0 < divBits <= numBits <= w && amount == numBits - divBits && m == Pow2(w)
    requires Pow2(numBits - 1) <= n < Pow2(numBits) && Pow2(divBits - 1) <= d < Pow2(divBits)
    ensures (d * Pow2(amount)) % m == d * Pow2(amount) && n < d * Pow2(amount + 1)
  {
    Pow2Add(divBits, amount, numBits);
    Pow2Add(divBits - 1, amount + 1, numBits);
    Pow2Grows(numBits, w);
    MulMonotone(Pow2(divBits - 1), d, Pow2(amount + 1));
    FitsArith(d, Pow2(divBits), Pow2(amount), Pow2(numBits), m);
  }

  lemma FitsArith(d: nat, p: nat, q: nat, pq: nat, m: nat)
    requires d < p && pq == p * q && pq <= m && q > 0
    ensures (d * q) % m == d * q
  {
    MulMonotone(d + 1, p, q);
    MulAdd(d, 1, q);
    MulNonNegative(d, q);
    QuotientIs(d * q, m, 0, d * q);
  }

  lemma DivStep(n: nat, q: nat, d: nat, num: nat, p: nat)
    requires n == q * d + num && num < d * (2 * p)
    ensures num >= d * p ==> n == (q + p) * d + (num - d * p) && num - d * p < d * p
  {
    MulAdd(q, p, d);
    DoubleTerm(d, p);
  }

  lemma SubExact(x: nat, y: nat, m: nat)
    requires y <= x < m
    ensures (x - y) % m == x - y
  {
    QuotientIs(x - y, m, 0, x - y);
  }

  lemma HalfTerm(d: nat, p: nat)
    ensures (d * (2 * p)) / Pow2(1) == d * p
  {
    DoubleTerm(d, p);
    assert Pow2(1) == 2;
  }
}
