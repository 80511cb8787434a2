/**
  Compact targets and the difficulty retarget, on top of 256-bit arithmetic.
 */
module ProofOfWork {
  import opened Numbers
  import opened Arith256

  // ----- Compact targets -----

  /** The number of bits of a number. */
  function BitLen(x: nat): (n: nat)
    ensures x == 0 <==> n == 0
    ensures n > 0 ==> Pow2(n - 1) <= x < Pow2(n)
  {
    if x == 0 then 0 else Log2(x) + 1
  }

  lemma BitLenUnique(x: nat, n: nat)
    requires n > 0 && Pow2(n - 1) <= x < Pow2(n)
    ensures BitLen(x) == n
  {
    if BitLen(x) < n { Pow2Grows(BitLen(x), n - 1); }
    if BitLen(x) > n { Pow2Grows(n, BitLen(x) - 1); }
  }

  function WordOf(nCompact: nat): nat
  {
    var nSize, nWord := nCompact / 0x100_0000, nCompact % 0x80_0000;
    if nSize <= 3 then Quot(nWord, Pow2(8 * (3 - nSize))) else nWord
  }

  /** The target that a compact number stands for. */
  function Target(nCompact: nat): nat
  {
    var nSize := nCompact / 0x100_0000;
    if nSize <= 3 then WordOf(nCompact) else Prod(WordOf(nCompact), Pow2(8 * (nSize - 3))) % BPow(WIDTH)
  }

  predicate IsNegative(nCompact: nat)
  {
    WordOf(nCompact) != 0 && nCompact / 0x80_0000 % 2 == 1
  }

  predicate IsOverflow(nCompact: nat)
  {
    var nSize, nWord := nCompact / 0x100_0000, WordOf(nCompact);
    nWord != 0 && (nSize > 34 || (nWord > 0xff && nSize > 33) || (nWord > 0xffff && nSize > 32))
  }

  /** What a compact number stands for before it is cut down to 256 bits. */
  ghost function FullTarget(nCompact: nat): nat
  {
    var nSize := nCompact / 0x100_0000;
    if nSize <= 3 then WordOf(nCompact) else Prod(WordOf(nCompact), Pow2(8 * (nSize - 3)))
  }

  /** The size byte and the mantissa of a number. */
  function SizeOf(x: nat): nat { if x == 0 then 0 else BitLen(x) / 8 + 1 }

  function Mantissa(x: nat): nat
  {
    var size := SizeOf(x);
    if size <= 3 then Prod(x, Pow2(8 * (3 - size))) else Quot(x, Pow2(8 * (size - 3)))
  }

  function Compact(x: nat): nat { SizeOf(x) * 0x100_0000 + Mantissa(x) }

  lemma SizeBounds(x: nat, size: nat)
    requires x > 0 && size == SizeOf(x)
    ensures size >= 1 && x < Pow2(8 * size - 1) && (size >= 2 ==> Pow2(8 * size - 9) <= x)
  {
    Pow2Grows(BitLen(x), 8 * size - 1);
    if size >= 2 { Pow2Grows(8 * size - 9, BitLen(x) - 1); }
  }

  lemma SmallMantissa(x: nat, size: nat)
    requires x > 0 && size == SizeOf(x) <= 3
    ensures 0x8000 <= Mantissa(x) < 0x80_0000
  {
    var p := Pow2(8 * (3 - size));
    SizeBounds(x, size);
    Pow2Values();
    Pow2Add(8 * size - 1, 8 * (3 - size), 23);
    ScaledBelow(x, Pow2(8 * size - 1), p);
    if size >= 2 {
      Pow2Add(8 * size - 9, 8 * (3 - size), 15);
      MulMonotone(Pow2(8 * size - 9), x, p);
      assert Pow2(8 * size - 9) * p == 0x8000;
    } else {
      MulMonotone(1, x, p);
      assert p == 0x1_0000;
    }
  }

  lemma ScaledBelow(x: nat, y: nat, p: nat)
    requires x < y && p > 0
    ensures x * p < y * p
  {
    MulMonotone(x + 1, y, p);
    MulAdd(x, 1, p);
  }

  lemma LargeMantissa(x: nat, size: nat, p: nat)
    requires x > 0 && size == SizeOf(x) > 3 && p == Pow2(8 * (size - 3))
    ensures 0x8000 <= Mantissa(x) < 0x80_0000 && 0x8000 * p <= x
  {
    SizeBounds(x, size);
    Pow2Values();
    Pow2Add(23, 8 * (size - 3), 8 * size - 1);
    Pow2Add(15, 8 * (size - 3), 8 * size - 9);
    DivBound(x, p, 0x80_0000);
    AtLeast(x, p, 0x8000);
  }

  /** The mantissa has between 16 and 23 bits. */
  lemma MantissaBounds(x: nat)
    requires x > 0
    ensures 0x8000 <= Mantissa(x) < 0x80_0000
  {
    if SizeOf(x) <= 3 { SmallMantissa(x, SizeOf(x)); } else { LargeMantissa(x, SizeOf(x), Pow2(8 * (SizeOf(x) - 3))); }
  }

  lemma AtLeast(x: nat, p: nat, k: nat)
    requires p > 0 && k * p <= x
    ensures k <= x / p
  {
    assert x == (x / p) * p + x % p;
    if x / p < k {
      MulMonotone(x / p + 1, k, p);
      MulAdd(x / p, 1, p);
    }
  }

  lemma Pow2Values()
    ensures Pow2(15) == 0x8000 && Pow2(16) == 0x1_0000 && Pow2(23) == 0x80_0000
  {
    Pow2Of32();
    assert Pow2(7) == 128 && Pow2(15) == Pow2(7) * Pow2(8) by { Pow2Add(7, 8, 15); }
    Pow2Add(8, 8, 16);
    Pow2Add(15, 8, 23);
  }

  lemma PartsOf(c: nat, size: nat, m: nat)
    requires c == size * 0x100_0000 + m && m < 0x80_0000
    ensures c / 0x100_0000 == size && c % 0x80_0000 == m && c / 0x80_0000 % 2 == 0
  {
    QuotientIs(c, 0x100_0000, size, m);
    QuotientIs(c, 0x80_0000, 2 * size, m);
  }

  lemma CompactParts(x: nat)
    ensures Compact(x) / 0x100_0000 == SizeOf(x) && Compact(x) % 0x80_0000 == Mantissa(x)
    ensures Compact(x) / 0x80_0000 % 2 == 0
    ensures Mantissa(x) < 0x80_0000
  {
    if x > 0 { MantissaBounds(x); }
    PartsOf(Compact(x), SizeOf(x), Mantissa(x));
  }

  lemma ScaledAtLeast(x: nat, y: nat, p: nat)
    requires p > 0
    ensures x * p >= y * p <==> x >= y
  {
    if x >= y { MulMonotone(y, x, p); } else { ScaledBelow(x, y, p); }
  }

  /** The flag is set exactly if the number does not fit 256 bits; otherwise nothing is cut off. */
  lemma OverflowExact(nCompact: nat)
    ensures IsOverflow(nCompact) <==> FullTarget(nCompact) >= BPow(WIDTH)
    ensures !IsOverflow(nCompact) ==> Target(nCompact) == FullTarget(nCompact)
  {
    var nSize, w := nCompact / 0x100_0000, WordOf(nCompact);
    BPowIsPow2(WIDTH);
    Pow2Values();
    WordSmall(nCompact);
    if nSize <= 3 {
      Pow2Grows(23, 256);
    } else {
      ShiftedOver(w, nSize, Pow2(8 * (nSize - 3)));
    }
    if !IsOverflow(nCompact) { QuotientIs(FullTarget(nCompact), BPow(WIDTH), 0, FullTarget(nCompact)); }
  }

  lemma WordSmall(nCompact: nat)
    ensures WordOf(nCompact) < 0x80_0000
  {
    var nSize := nCompact / 0x100_0000;
    if nSize <= 3 { QuotientAtMost(nCompact % 0x80_0000, Pow2(8 * (3 - nSize))); }
  }

  lemma ShiftedOver(w: nat, nSize: nat, p: nat)
    requires nSize > 3 && w < 0x80_0000 && p == Pow2(8 * (nSize - 3))
    ensures w * p >= Pow2(256) <==> w != 0 && (nSize > 34 || (w > 0xff && nSize > 33) || (w > 0xffff && nSize > 32))
  {
    Pow2Of32();
    Pow2Values();
    if nSize > 34 {
      Pow2Grows(256, 8 * (nSize - 3));
      if w > 0 { MulMonotone(1, w, p); }
    } else {
      var k := 256 - 8 * (nSize - 3);
      Pow2Add(k, 8 * (nSize - 3), 256);
      ScaledAtLeast(w, Pow2(k), p);
      if nSize <= 32 { Pow2Grows(23, k); }
    }
  }

  /** The value of a number with everything below its mantissa cleared. */
  function Rounded(x: nat): nat
  {
    var size := SizeOf(x);
    if size <= 3 then x else Prod(Quot(x, Pow2(8 * (size - 3))), Pow2(8 * (size - 3)))
  }

  /** Decoding gives the rounded number, with neither flag set. */
  lemma DecodeCompact(x: nat)
    requires x < BPow(WIDTH)
    ensures Target(Compact(x)) == Rounded(x) && !IsNegative(Compact(x)) && !IsOverflow(Compact(x))
  {
    CompactParts(x);
    var size := SizeOf(x);
    if size <= 3 {
      CancelProduct(x, Pow2(8 * (3 - size)));
    } else {
      RoundedBelow(x, size, Pow2(8 * (size - 3)));
      RoundedFits(x, BPow(WIDTH));
      SizeLimit(x);
    }
  }

  lemma CancelProduct(x: nat, p: nat)
    requires p > 0
    ensures Quot(Prod(x, p), p) == x
  {
    QuotientIs(x * p, p, x, 0);
  }

  lemma RoundedFits(x: nat, m: nat)
    requires x < m && Rounded(x) <= x
    ensures Rounded(x) % m == Rounded(x)
  {
    QuotientIs(Rounded(x), m, 0, Rounded(x));
  }

  /** Rounding loses less than one part in 2^15. */
  lemma RoundedBelow(x: nat, size: nat, p: nat)
    requires size == SizeOf(x) > 3 && p == Pow2(8 * (size - 3))
    ensures Rounded(x) <= x && (x - Rounded(x)) * 0x8000 < x
  {
    LargeMantissa(x, size, p);
    assert x == (x / p) * p + x % p;
  }

  lemma SizeLimit(x: nat)
    requires 0 < x < BPow(WIDTH)
    ensures SizeOf(x) <= 33 && (SizeOf(x) == 33 ==> Mantissa(x) <= 0xffff)
  {
    BPowIsPow2(WIDTH);
    if BitLen(x) > 256 { Pow2Grows(256, BitLen(x) - 1); }
    if SizeOf(x) == 33 {
      Pow2Values();
      Pow2Add(16, 240, 256);
      DivBound(x, Pow2(240), 0x1_0000);
    }
  }

  /**
    A compact number decodes to a target that is not above the original, less than one part in 2^15 below
    it, zero only for zero, and with neither flag set.
   */
  lemma CompactRoundTrip(x: nat)
    requires x < BPow(WIDTH)
    ensures !IsNegative(Compact(x)) && !IsOverflow(Compact(x))
    ensures Target(Compact(x)) <= x && (x - Target(Compact(x))) * 0x8000 <= x
    ensures x > 0 ==> Target(Compact(x)) > 0 && (x - Target(Compact(x))) * 0x8000 < x
  {
    DecodeCompact(x);
    if SizeOf(x) > 3 { RoundedBelow(x, SizeOf(x), Pow2(8 * (SizeOf(x) - 3))); }
  }

  /** Rounding keeps the bit length, so that encoding again changes nothing. */
  lemma CompactIdempotent(x: nat)
    requires x < BPow(WIDTH)
    ensures Compact(Target(Compact(x))) == Compact(x)
  {
    DecodeCompact(x);
    if SizeOf(x) > 3 { RoundedSame(x, SizeOf(x), Pow2(8 * (SizeOf(x) - 3))); }
  }

  lemma RoundedSame(x: nat, size: nat, p: nat)
    requires size == SizeOf(x) > 3 && p == Pow2(8 * (size - 3))
    ensures BitLen(Rounded(x)) == BitLen(x) && Compact(Rounded(x)) == Compact(x)
  {
    var n, r := BitLen(x), Rounded(x);
    RoundedBelow(x, size, p);
    Pow2Add(n - 1 - 8 * (size - 3), 8 * (size - 3), n - 1);
    AtLeast(x, p, Pow2(n - 1 - 8 * (size - 3)));
    MulMonotone(Pow2(n - 1 - 8 * (size - 3)), x / p, p);
    BitLenUnique(r, n);
    CancelProduct(Quot(x, p), p);
  }

  // ----- The methods -----

  /** The low 64 bits. */
  method GetLow64(x: BaseUint) returns (r: nat)
    requires x.Valid()
    ensures x.V() < BASE * BASE ==> r == x.V()
  {
    r := x.pn[0] + BASE * x.pn[1];
    LowLimbs(x.pn);
  }

  lemma LowLimbs(s: seq<Limb>)
    requires |s| >= 2
    ensures Val(s) < BASE * BASE ==> Val(s) == s[0] + BASE * s[1]
  {
    assert s[1..][1..] == s[2..];
    assert Val(s) == s[0] + BASE * (s[1] + BASE * Val(s[2..]));
  }

  method SetCompact(x: BaseUint, nCompact: nat) returns (fNegative: bool, fOverflow: bool)
    requires x.Valid() && nCompact < BASE
    modifies x
    ensures x.Valid() && x.V() == Target(nCompact) && fNegative == IsNegative(nCompact)
    ensures fOverflow == IsOverflow(nCompact) == (FullTarget(nCompact) >= Modulus())
  {
    var nSize := nCompact / 0x100_0000;
    var nWord := nCompact % 0x80_0000;
    if nSize <= 3 {
      nWord := Quot(nWord, Pow2(8 * (3 - nSize)));
      QuotientAtMost(nCompact % 0x80_0000, Pow2(8 * (3 - nSize)));
      SetTo(x, nWord);
    } else {
      SetTo(x, nWord);
      x.ShiftLeftAssign(8 * (nSize - 3));
    }
    fNegative := nWord != 0 && nCompact / 0x80_0000 % 2 == 1;
    OverflowExact(nCompact);
    fOverflow := nWord != 0 && (nSize > 34 || (nWord > 0xff && nSize > 33) || (nWord > 0xffff && nSize > 32));
  }

  method SetTo(x: BaseUint, v: nat)
    requires v < BASE * BASE
    modifies x
    ensures x.Valid() && x.V() == v
  {
    var y := new BaseUint.From64(v);
    x.pn := y.pn;
  }

  method GetCompact(x: BaseUint) returns (nCompact: nat)
    requires x.Valid()
    ensures nCompact == Compact(x.V()) && nCompact < BASE
  {
    ValBound(x.pn);
    ghost var v := x.V();
    var bits := x.Bits();
    if bits > 0 { BitLenUnique(v, bits); }
    var nSize := (bits + 7) / 8;
    if nSize <= 3 {
      var low := GetLow64(x);
      LowFits(v, bits);
      nCompact := Prod(low, Pow2(8 * (3 - nSize)));
    } else {
      var bn := new BaseUint.Copy(x);
      bn.ShiftRightAssign(8 * (nSize - 3));
      HighFits(v, bits, nSize);
      nCompact := GetLow64(bn);
    }
    FirstMantissa(v, bits, nSize, nCompact);
    if nCompact / 0x80_0000 % 2 == 1 {
      nCompact := nCompact / 0x100;
      nSize := nSize + 1;
    }
    CompactParts(v);
    assert nCompact < 0x80_0000;
    if v > 0 { SizeLimit(v); }
    assert nSize < 256;
    nCompact := nSize * 0x100_0000 + nCompact;
  }

  lemma LowFits(v: nat, bits: nat)
    requires bits == BitLen(v) <= 24
    ensures v < BASE
  {
    if bits > 0 {
      Pow2Of32();
      Pow2Grows(bits, 32);
    }
  }

  lemma HighFits(v: nat, bits: nat, nSize: nat)
    requires bits == BitLen(v) && nSize == (bits + 7) / 8 > 3
    ensures v / Pow2(8 * (nSize - 3)) < 0x100_0000
  {
    Pow2Grows(bits, 8 * nSize);
    Pow2Values();
    Pow2Of32();
    Pow2Add(16, 8, 24);
    Pow2Add(8 * (nSize - 3), 24, 8 * nSize);
    DivBound(v, Pow2(8 * (nSize - 3)), 0x100_0000);
  }

  /** The first guess of size and mantissa, and its correction when the sign bit is set. */
  lemma FirstMantissa(v: nat, bits: nat, nSize: nat, m: nat)
    requires bits == BitLen(v) && nSize == (bits + 7) / 8
    requires m == if nSize <= 3 then Prod(v, Pow2(8 * (3 - nSize))) else Quot(v, Pow2(8 * (nSize - 3)))
    ensures if m / 0x80_0000 % 2 == 1 then SizeOf(v) == nSize + 1 && Mantissa(v) == m / 0x100
            else SizeOf(v) == nSize && Mantissa(v) == m
  {
    if v > 0 {
      if bits % 8 == 0 {
        TopMantissa(v, bits, nSize, m);
      } else {
        assert SizeOf(v) == nSize;
        MantissaBounds(v);
        QuotientIs(m, 0x80_0000, 0, m);
      }
    } else {
      assert m == 0;
    }
  }

  lemma TopMantissa(v: nat, bits: nat, nSize: nat, m: nat)
    requires v > 0 && bits == BitLen(v) == 8 * nSize
    requires m == if nSize <= 3 then Prod(v, Pow2(8 * (3 - nSize))) else Quot(v, Pow2(8 * (nSize - 3)))
    ensures SizeOf(v) == nSize + 1 && Mantissa(v) == m / 0x100 && m / 0x80_0000 % 2 == 1
  {
    if nSize < 3 {
      TopSmall(v, nSize, m);
    } else if nSize == 3 {
      TopThree(v, m);
    } else {
      TopLarge(v, nSize, m);
      HighFits(v, bits, nSize);
    }
    MantissaBounds(v);
    QuotientIs(m, 0x80_0000, 1, m - 0x80_0000);
  }

  lemma TopSmall(v: nat, nSize: nat, m: nat)
    requires v > 0 && BitLen(v) == 8 * nSize && nSize < 3 && m == v * Pow2(8 * (3 - nSize))
    ensures Mantissa(v) == m / 0x100 && m < 0x100_0000
  {
    TopSmallBelow(v, nSize, m);
    var p := Pow2(8 * (2 - nSize));
    assert Pow2(8 * (3 - nSize)) == 0x100 * p by {
      Pow2Of32();
      Pow2Add(8, 8 * (2 - nSize), 8 * (3 - nSize));
    }
    HalveProduct(v, p, m);
    assert SizeOf(v) == nSize + 1;
  }

  lemma TopSmallBelow(v: nat, nSize: nat, m: nat)
    requires v > 0 && BitLen(v) == 8 * nSize && nSize < 3 && m == v * Pow2(8 * (3 - nSize))
    ensures m < 0x100_0000
  {
    Pow2Of32();
    Pow2Values();
    Pow2Add(16, 8, 24);
    Pow2Add(8 * nSize, 8 * (3 - nSize), 24);
    ScaledBelow(v, Pow2(8 * nSize), Pow2(8 * (3 - nSize)));
  }

  lemma TopThree(v: nat, m: nat)
    requires v > 0 && BitLen(v) == 24 && m == v * Pow2(0)
    ensures Mantissa(v) == m / 0x100 && m < 0x100_0000
  {
    Pow2Of32();
    Pow2Values();
    Pow2Add(16, 8, 24);
    assert Pow2(0) == 1;
  }

  lemma TopLarge(v: nat, nSize: nat, m: nat)
    requires v > 0 && BitLen(v) == 8 * nSize && nSize > 3 && m == v / Pow2(8 * (nSize - 3))
    ensures Mantissa(v) == m / 0x100
  {
    Pow2Of32();
    Pow2Add(8 * (nSize - 3), 8, 8 * (nSize - 2));
    DivTwice(v, Pow2(8 * (nSize - 3)), 0x100, Pow2(8 * (nSize - 2)));
  }

  lemma HalveProduct(v: nat, p: nat, m: nat)
    requires m == v * (0x100 * p)
    ensures m / 0x100 == v * p
  {
    assert m == (v * p) * 0x100;
  }

  lemma DivTwice(v: nat, p: nat, q: nat, pq: nat)
    requires p > 0 && q > 0 && pq == p * q
    ensures v / p / q == v / pq
  {
    var a, b := v / p / q, v / p % q;
    assert v == (v / p) * p + v % p;
    assert v / p == a * q + b;
    MulAdd(a * q, b, p);
    MulAssoc(a, q, p);
    MulMonotone(b, q - 1, p);
    MulAdd(q, -1, p);
    MulNonNegative(b, p);
    QuotientIs(v, pq, a, b * p + v % p);
  }

  // ----- Retargeting -----

  /** 2 T b / a, computed from quotient and remainder of T by a. */
  lemma SplitQuotient(t: nat, a: nat, b: nat, p: nat, r: nat)
    requires a > 0 && p == t / a && r == t % a
    ensures 2 * t * b / a == 2 * p * b + 2 * r * b / a
  {
    assert t == p * a + r;
    SplitArith(t, a, b, p, r);
    DivPlus(2 * r * b, a, 2 * p * b);
  }

  lemma SplitArith(t: int, a: int, b: int, p: int, r: int)
    requires t == p * a + r
    ensures 2 * t * b == 2 * r * b + 2 * p * b * a
  {
    MulAdd(p * a, r, b);
    MulAssoc(p, a, b);
    MulAssoc(p, b, a);
  }

  /** 2 v b, modulo 2^256. */
  method Doubled(v: BaseUint, b: Limb) returns (x: BaseUint)
    requires v.Valid()
    ensures fresh(x) && x.Valid() && x.V() == (b * (2 * v.V())) % Modulus()
  {
    x := new BaseUint.From64(2);
    x.MulAssign(v);
    x.MulAssign32(b);
    ModMulLeft(b, 2 * v.V(), Modulus());
  }

  lemma ModMulLeft(b: nat, u: nat, m: nat)
    requires m > 0
    ensures (b * (u % m)) % m == (b * u) % m
  {
    MultipleOut(b, u, u / m, u % m, m);
    DivPlus(b * (u % m), m, b * (u / m));
  }

  lemma MultipleOut(b: nat, u: nat, q: int, r: int, m: nat)
    requires u == q * m + r
    ensures b * u == b * r + (b * q) * m
  {
    MulAdd(q * m, r, b);
    MulAssoc(b, q, m);
  }

  /** Quotient and remainder of a number by a 32-bit one. */
  method DivideBy(v: BaseUint, a: nat) returns (p: BaseUint, r: BaseUint)
    requires v.Valid() && 0 < a < BASE
    ensures fresh(p) && fresh(r) && p.Valid() && r.Valid() && p.V() == v.V() / a && r.V() == v.V() % a
  {
    ValBound(v.pn);
    var A := new BaseUint.From64(a);
    p := new BaseUint.Copy(v);
    var ok := p.DivAssign(A);
    var pa := new BaseUint.Copy(p);
    pa.MulAssign32(a);
    ProductBelow(v.V(), a, Modulus());
    r := new BaseUint.Copy(v);
    r.SubAssign(pa);
  }

  /** The change of the target: 2 T b / a, modulo 2^256. */
  method Change(target: BaseUint, a: nat, b: Limb) returns (x: BaseUint)
    requires target.Valid() && 0 < a < BASE
    ensures fresh(x) && x.Valid() && x.V() == (2 * target.V() * b / a) % Modulus()
  {
    var p, r := DivideBy(target, a);
    ghost var pv, rv := p.V(), r.V();
    SplitQuotient(target.V(), a, b, pv, rv);
    x := Doubled(p, b);
    var y := Doubled(r, b);
    SmallPart(rv, a, b, Modulus());
    var A := new BaseUint.From64(a);
    var ok := y.DivAssign(A);
    x.AddAssign(y);
    SumMod(pv, b, 2 * rv * b / a, Modulus());
  }

  lemma SmallPart(r: nat, a: nat, b: nat, m: nat)
    requires 0 < a < BASE && r < a && b < BASE && 2 * BASE * BASE <= m
    ensures (b * (2 * r)) % m == 2 * r * b
  {
    MulNonNegative(r, b);
    MulMonotone(r, BASE - 1, b);
    MulMonotone(b, BASE - 1, BASE - 1);
    assert b * (2 * r) == 2 * r * b;
    Fits(2 * r * b, m);
  }

  lemma SumMod(p: nat, b: nat, y: int, m: nat)
    requires m > 0
    ensures ((b * (2 * p)) % m + y) % m == (2 * p * b + y) % m
  {
    var u := b * (2 * p);
    assert u == 2 * p * b;
    assert u == (u / m) * m + u % m;
    DivPlus(u % m + y, m, u / m);
  }

  lemma ProductBelow(t: nat, a: nat, m: nat)
    requires a > 0 && t < m
    ensures (a * (t / a)) % m == a * (t / a) <= t && t - a * (t / a) == t % a
  {
    QuotientAtMost(t, a);
    assert t == a * (t / a) + t % a;
    MulNonNegative(a, t / a);
    QuotientIs(a * (t / a), m, 0, a * (t / a));
  }

  lemma Fits(x: nat, m: nat)
    requires x < m
    ensures x % m == x
  {
    QuotientIs(x, m, 0, x);
  }

  /** Nothing leaves 256 bits, and the time difference fits the 32-bit multiplication. */
  ghost predicate Tame(t: int, a: nat, b: int)
    requires a > 0
  {
    && -(BASE as int) < b < BASE
    && (b >= 0 ==> t + 2 * t * b / a < Modulus())
    && (b < 0 ==> 2 * t * (-b) / a <= t)
  }

  /** The new target before it is limited: T (a + 2 b) / a, rounded down when it grows and up when it shrinks. */
  ghost function Moved(t: nat, a: nat, b: int): int
    requires a > 0
  {
    if b >= 0 then t * (a + 2 * b) / a else (t * (a + 2 * b) + a - 1) / a
  }

  lemma MovedUp(t: nat, a: nat, b: nat)
    requires a > 0
    ensures t + 2 * t * b / a == t * (a + 2 * b) / a
  {
    MulAdd(a, 2 * b, t);
    assert (2 * b) * t == 2 * t * b;
    DivPlus(2 * t * b, a, t);
  }

  lemma MovedDown(t: nat, a: nat, c: nat)
    requires a > 0
    ensures t - 2 * t * c / a == (t * (a - 2 * c) + a - 1) / a
  {
    var u := 2 * t * c;
    MulAdd(a, -2 * c, t);
    assert (-2 * c) * t == -u;
    assert u == (u / a) * a + u % a;
    MulAdd(t, -(u / a), a);
    QuotientIs(t * (a - 2 * c) + a - 1, a, t - u / a, a - 1 - u % a);
  }

  /** The new target as it is computed, in 256 bits and with a 32-bit factor, before it is limited. */
  ghost function Computed(t: nat, a: nat, b: int): int
    requires a > 0
  {
    (if b >= 0 then t + 2 * t * (b % BASE) / a else t - 2 * t * ((-b) % BASE) / a) % Modulus()
  }

  /** Where nothing wraps around, what is computed is the new target. */
  lemma ComputedTame(t: nat, a: nat, b: int)
    requires a > 0 && t < Modulus() && Tame(t, a, b)
    ensures Computed(t, a, b) == Moved(t, a, b)
  {
    var c := if b >= 0 then b else -b;
    Fits(c, BASE);
    ChangeNonNegative(t, a, c);
    if b >= 0 {
      MovedUp(t, a, b);
      Fits(t + 2 * t * b / a, Modulus());
    } else {
      MovedDown(t, a, c);
      Fits(t - 2 * t * c / a, Modulus());
    }
  }

  /** What is computed for a shorter spacing is zero exactly if the whole target is taken away, modulo 2^256. */
  lemma ComputedZero(t: nat, a: nat, b: int)
    requires a > 0 && t < Modulus() && b < 0
    ensures Computed(t, a, b) == 0 <==> (2 * t * ((-b) % BASE) / a) % Modulus() == t
  {
    var x, m := 2 * t * ((-b) % BASE) / a, Modulus();
    assert x == (x / m) * m + x % m;
    assert t - x == t - x % m + (-(x / m)) * m;
    DivPlus(t - x % m, m, -(x / m));
    if t >= x % m {
      Fits(t - x % m, m);
    } else {
      DivPlus(t - x % m, m, 1);
      Fits(t - x % m + m, m);
    }
  }

  lemma QuotientEquals(u: nat, a: nat, t: nat)
    requires a > 0
    ensures u / a == t <==> t * a <= u < t * a + a
  {
    assert u == (u / a) * a + u % a;
    if t * a <= u < t * a + a { QuotientIs(u, a, t, u - t * a); }
  }

  /** The change fits 256 bits, the factor 32, and a growing target does not wrap around. */
  ghost predicate NoWrap(t: nat, a: nat, b: int)
    requires a > 0
  {
    && -(BASE as int) < b < BASE
    && (if b >= 0 then t + 2 * t * b / a else 2 * t * (-b) / a) < Modulus()
  }

  /** The targets that a change takes away altogether. */
  predicate TakenAway(t: nat, a: nat, b: int)
  {
    t == 0 || (b < 0 && a <= -2 * b && t * (-2 * b - a) < a)
  }

  /** Where the change does not wrap around, the result is zero exactly for those: a growing target stays positive. */
  lemma ZeroGrown(t: nat, a: nat, b: int)
    requires a > 0 && t < Modulus() && b >= 0 && NoWrap(t, a, b)
    ensures Computed(t, a, b) == 0 <==> TakenAway(t, a, b)
  {
    Fits(b, BASE);
    ChangeNonNegative(t, a, b);
    Fits(t + 2 * t * b / a, Modulus());
  }

  /** And a shrinking one is zero exactly if the change is the whole target. */
  lemma ZeroShrunk(t: nat, a: nat, b: int)
    requires a > 0 && t < Modulus() && b < 0 && NoWrap(t, a, b)
    ensures Computed(t, a, b) == 0 <==> TakenAway(t, a, b)
  {
    var c := -b;
    Fits(c, BASE);
    ChangeNonNegative(t, a, c);
    ComputedZero(t, a, b);
    Fits(2 * t * c / a, Modulus());
    ChangeIsAll(t, a, c);
  }

  lemma ChangeIsAll(t: nat, a: nat, c: nat)
    requires a > 0
    ensures 2 * t * c / a == t <==> t == 0 || (a <= 2 * c && t * (2 * c - a) < a)
  {
    MulNonNegative(t, c);
    QuotientEquals(2 * t * c, a, t);
    assert 2 * t * c == t * (2 * c);
    MulAdd(2 * c - a, a, t);
    if t > 0 { ScaledAtLeast(2 * c, a, t); }
  }

  method Retarget(bnNew: BaseUint, a: nat, b: int)
    requires bnNew.Valid() && 0 < a < BASE
    modifies bnNew
    ensures bnNew.Valid() && bnNew.V() == Computed(old(bnNew.V()), a, b)
  {
    ghost var t := bnNew.V();
    if b >= 0 {
      var x := Change(bnNew, a, b % BASE);
      bnNew.AddAssign(x);
      AddMod(t, 2 * t * (b % BASE) / a, Modulus());
    } else {
      var x := Change(bnNew, a, (-b) % BASE);
      bnNew.SubAssign(x);
      SubtractMod(t, 2 * t * ((-b) % BASE) / a, Modulus());
    }
  }

  lemma AddMod(t: int, x: int, m: nat)
    requires m > 0
    ensures (t + x % m) % m == (t + x) % m
  {
    assert x == (x / m) * m + x % m;
    DivPlus(t + x % m, m, x / m);
  }

  lemma SubtractMod(t: int, x: int, m: nat)
    requires m > 0
    ensures (t - x % m) % m == (t - x) % m
  {
    assert x == (x / m) * m + x % m;
    DivPlus(t - x, m, x / m);
  }

  lemma ChangeNonNegative(t: nat, a: nat, b: nat)
    requires a > 0
    ensures 2 * t * b / a >= 0
  {
    MulNonNegative(t, b);
    DivMonotone(0, 2 * t * b, a);
  }

  /** The new target is positive exactly if the old one was and the spacing has not shrunk by half of a or more. */
  lemma MovedPositive(t: nat, a: nat, b: int)
    requires a > 0
    ensures Moved(t, a, b) > 0 <==> t > 0 && a + 2 * b > 0
  {
    if t == 0 {
      QuotientIs(a - 1, a, 0, a - 1);
    } else if b >= 0 {
      MulMonotone(a, a + 2 * b, t);
      AtLeast(t * (a + 2 * b), a, t);
    } else if a + 2 * b > 0 {
      MulMonotone(1, a + 2 * b, t);
      AtLeast(t * (a + 2 * b) + a - 1, a, 1);
    } else {
      MulMonotone(a + 2 * b, 0, t);
      DivMonotone(t * (a + 2 * b) + a - 1, a - 1, a);
      QuotientIs(a - 1, a, 0, a - 1);
    }
  }

  datatype Header = Header(algo: nat, nTime: int, nBits: nat)

  /** The last block of an algorithm at or before a height, or -1. */
  method GetLastBlockIndex(chain: seq<Header>, last: nat, algo: nat) returns (k: int)
    requires last < |chain|
    ensures IsLastOf(chain, last, algo, k)
  {
    k := last;
    while k >= 0 && chain[k].algo != algo
      invariant -1 <= k <= last && forall j :: k < j <= last ==> chain[j].algo != algo
    {
      k := k - 1;
    }
  }

  ghost predicate IsLastOf(chain: seq<Header>, last: nat, algo: nat, k: int)
    requires last < |chain|
  {
    -1 <= k <= last && (k >= 0 ==> chain[k].algo == algo) && forall j :: k < j <= last ==> chain[j].algo != algo
  }

  lemma LastUnique(chain: seq<Header>, last: nat, algo: nat, k: int, k': int)
    requires last < |chain| && IsLastOf(chain, last, algo, k) && IsLastOf(chain, last, algo, k')
    ensures k == k'
  {
    assert k >= 0 ==> chain[k].algo == algo;
    assert k' >= 0 ==> chain[k'].algo == algo;
  }

  /** What CheckProofOfWork asks of a compact target before it looks at the hash. */
  predicate InRange(nBits: nat, limit: nat)
  {
    !IsNegative(nBits) && Target(nBits) != 0 && !IsOverflow(nBits) && Target(nBits) <= limit
  }

  lemma CompactInRange(x: nat, limit: nat)
    requires 0 < x <= limit < BPow(WIDTH)
    ensures InRange(Compact(x), limit)
  {
    CompactRoundTrip(x);
  }

  /** A new target, limited, as it is stored. */
  ghost function Limited(x: nat, limit: nat): nat
  {
    Compact(if x > limit then limit else x)
  }

  /** It passes the range check exactly if it is not zero. */
  lemma LimitedInRange(x: nat, limit: nat)
    requires 0 < limit < BPow(WIDTH)
    ensures InRange(Limited(x, limit), limit) <==> x > 0
  {
    if x == 0 {
      CompactRoundTrip(0);
    } else {
      CompactInRange(if x > limit then limit else x, limit);
    }
  }

  /**
    What follows from the last target: the computed one, limited; in range exactly if it is not zero. Where the
    change does not wrap around, that is if it does not take the whole target away; where nothing wraps around, if
    the old target was not zero and a + 2 b is positive.
   */
  ghost predicate NextIs(prevBits: nat, a: nat, b: int, limit: nat, nBits: nat)
    requires a > 0
  {
    && Computed(Target(prevBits), a, b) >= 0
    && nBits == Limited(Computed(Target(prevBits), a, b), limit)
    && (InRange(nBits, limit) <==> Computed(Target(prevBits), a, b) != 0)
    && (NoWrap(Target(prevBits), a, b) ==> (InRange(nBits, limit) <==> !TakenAway(Target(prevBits), a, b)))
    && (Tame(Target(prevBits), a, b) ==> (InRange(nBits, limit) <==> Target(prevBits) > 0 && a + 2 * b > 0))
  }

  /**
    The next target from the last one. It passes the range check exactly if what is computed is not zero: where
    nothing wraps around, exactly if the last target was not zero and the spacing did not shrink by half of a or more.
   */
  method LimitedTarget(prevBits: nat, a: nat, b: int, powLimit: BaseUint) returns (nBits: nat)
    requires prevBits < BASE && powLimit.Valid() && powLimit.V() > 0 && 0 < a < BASE
    ensures NextIs(prevBits, a, b, powLimit.V(), nBits)
  {
    var bnNew := new BaseUint();
    var neg, over := SetCompact(bnNew, prevBits);
    ghost var t := bnNew.V();
    ValBound(bnNew.pn);
    MovedPositive(t, a, b);
    if Tame(t, a, b) { ComputedTame(t, a, b); }
    if NoWrap(t, a, b) {
      if b >= 0 { ZeroGrown(t, a, b); } else { ZeroShrunk(t, a, b); }
    }
    Retarget(bnNew, a, b);
    ValBound(powLimit.pn);
    LimitedInRange(bnNew.V(), powLimit.V());
    var c := bnNew.CompareTo(powLimit);
    if c > 0 { bnNew.pn := powLimit.pn; }
    nBits := GetCompact(bnNew);
  }

  /** The spacing of the last two blocks of an algorithm against the intended one, if there are two. */
  ghost predicate HasSpacing(chain: seq<Header>, last: nat, algo: nat, prev: int, prevPrev: int)
    requires last < |chain|
  {
    && IsLastOf(chain, last, algo, prev)
    && prev > 0 && IsLastOf(chain, prev - 1, algo, prevPrev) && prevPrev > 0
  }

  /** What the last two blocks of an algorithm are, if there are two above the first block of the chain. */
  ghost predicate IsLastTwo(chain: seq<Header>, last: nat, algo: nat, two: bool, prev: int, prevPrev: int)
    requires last < |chain|
  {
    && (two ==> HasSpacing(chain, last, algo, prev, prevPrev))
    && forall q, q' :: HasSpacing(chain, last, algo, q, q') ==> two && q == prev && q' == prevPrev
  }

  /** The difficulty a block must have, for every chain: from the last two blocks of the algorithm, if there are two. */
  method GetNextWorkRequired(chain: seq<Header>, last: nat, algo: nat, fPowNoRetargeting: bool,
                             nPowTargetSpacing: nat, nInterval: nat, powLimit: BaseUint)
    returns (nBits: nat, ghost two: bool, ghost prev: int, ghost prevPrev: int, ghost b: int)
    requires last < |chain| && powLimit.Valid() && powLimit.V() > 0
    requires 0 < (nInterval + 1) * nPowTargetSpacing < BASE
    requires forall i :: 0 <= i < |chain| ==> chain[i].nBits < BASE
    ensures IsLastTwo(chain, last, algo, two, prev, prevPrev)
    ensures fPowNoRetargeting ==> nBits == chain[last].nBits
    ensures two ==> b == chain[prev].nTime - chain[prevPrev].nTime - nPowTargetSpacing
    ensures !fPowNoRetargeting && two ==>
      NextIs(chain[prev].nBits, (nInterval + 1) * nPowTargetSpacing, b, powLimit.V(), nBits)
    ensures !fPowNoRetargeting && !two ==> nBits == Compact(powLimit.V()) && InRange(nBits, powLimit.V())
  {
    var a := (nInterval + 1) * nPowTargetSpacing;
    nBits, two, prev, prevPrev, b := NextTarget(chain, last, algo, nPowTargetSpacing, a, powLimit);
    if fPowNoRetargeting {
      nBits := chain[last].nBits;
    }
  }

  method NextTarget(chain: seq<Header>, last: nat, algo: nat, spacing: nat, a: nat, powLimit: BaseUint)
    returns (nBits: nat, two: bool, prev: int, prevPrev: int, b: int)
    requires last < |chain| && powLimit.Valid() && powLimit.V() > 0 && 0 < a < BASE
    requires forall i :: 0 <= i < |chain| ==> chain[i].nBits < BASE
    ensures IsLastTwo(chain, last, algo, two, prev, prevPrev)
    ensures two ==> b == chain[prev].nTime - chain[prevPrev].nTime - spacing
    ensures two ==> NextIs(chain[prev].nBits, a, b, powLimit.V(), nBits)
    ensures !two ==> nBits == Compact(powLimit.V()) && InRange(nBits, powLimit.V())
  {
    two, prev, prevPrev := LastTwo(chain, last, algo);
    b := 0;
    if two {
      b := chain[prev].nTime - chain[prevPrev].nTime - spacing;
      nBits := LimitedTarget(chain[prev].nBits, a, b, powLimit);
    } else {
      nBits := LimitCompact(powLimit);
    }
  }

  method LimitCompact(powLimit: BaseUint) returns (nBits: nat)
    requires powLimit.Valid() && powLimit.V() > 0
    ensures nBits == Compact(powLimit.V()) && InRange(nBits, powLimit.V())
  {
    ValBound(powLimit.pn);
    CompactInRange(powLimit.V(), powLimit.V());
    nBits := GetCompact(powLimit);
  }

  /** The last two blocks of an algorithm, if there are two above the first block of the chain. */
  method LastTwo(chain: seq<Header>, last: nat, algo: nat) returns (two: bool, prev: int, prevPrev: int)
    requires last < |chain|
    ensures IsLastTwo(chain, last, algo, two, prev, prevPrev)
  {
    two, prevPrev := false, -1;
    prev := GetLastBlockIndex(chain, last, algo);
    forall q, q' | HasSpacing(chain, last, algo, q, q') ensures q == prev { LastUnique(chain, last, algo, q, prev); }
    if prev == -1 || prev == 0 {
      return;
    }
    prevPrev := GetLastBlockIndex(chain, prev - 1, algo);
    forall q, q' | HasSpacing(chain, last, algo, q, q') ensures q' == prevPrev {
      LastUnique(chain, prev - 1, algo, q', prevPrev);
    }
    two := prevPrev != -1 && prevPrev != 0;
  }

  /** A spacing shorter by half of a takes the whole target away. */
  lemma HalfIsZero(t: nat, c: nat)
    requires 0 < c < BASE && t < Modulus()
    ensures Computed(t, 2 * c, 0 - c) == 0
  {
    ComputedZero(t, 2 * c, 0 - c);
    Fits(c, BASE);
    MulAssoc(t, 2, c);
    QuotientIs(2 * t * c, 2 * c, t, 0);
    Fits(t, Modulus());
  }

  // ----- A chain whose next target is zero -----

  const MEDIAN_TIME_SPAN: nat := 11

  /** The times of the last blocks up to number k, at most eleven. */
  function LastTimes(chain: seq<Header>, k: nat): seq<int>
    requires k < |chain|
  {
    var n := if k + 1 < MEDIAN_TIME_SPAN then k + 1 else MEDIAN_TIME_SPAN;
    seq(n, i requires 0 <= i < n => chain[k + 1 - n + i].nTime)
  }

  ghost predicate IsMedian(times: seq<int>, m: int)
  {
    exists s: seq<int> :: IsSorting(times, s) && |s| > 0 && m == s[|s| / 2]
  }

  ghost predicate IsSorting(times: seq<int>, s: seq<int>)
  {
    multiset(s) == multiset(times) && forall i, j :: 0 <= i < j < |s| ==> s[i] <= s[j]
  }

  ghost predicate AllMediansBelow(times: seq<int>, t: int)
  {
    forall m :: IsMedian(times, m) ==> m < t
  }

  /** What a block's time must satisfy: it is later than the median of those before it. */
  ghost predicate IsTimely(chain: seq<Header>, k: nat)
    requires k < |chain|
  {
    k > 0 ==> AllMediansBelow(LastTimes(chain, k - 1), chain[k].nTime)
  }

  /** The median is below what is above all times. */
  lemma MedianBelowAll(times: seq<int>, t: int, m: int)
    requires IsMedian(times, m) && forall i :: 0 <= i < |times| ==> times[i] < t
    ensures m < t
  {
    var s :| IsSorting(times, s) && |s| > 0 && m == s[|s| / 2];
    assert m in multiset(s);
    assert m in multiset(times);
  }

  /** The median of three or more times is also below what is above all but the last. */
  lemma MedianBelowMost(low: seq<int>, last: int, t: int, m: int)
    requires IsMedian(low + [last], m) && |low| >= 2 && forall i :: 0 <= i < |low| ==> low[i] < t
    ensures m < t
  {
    var s :| IsSorting(low + [last], s) && |s| > 0 && m == s[|s| / 2];
    assert |s| == |multiset(s)| == |multiset(low + [last])| == |low| + 1;
    assert multiset(low + [last]) == multiset(low) + multiset{last};
    var h := |s| / 2;
    assert s == s[..h] + [s[h], s[h + 1]] + s[h + 2..];
    assert multiset{s[h], s[h + 1]} <= multiset(low) + multiset{last};
    assert forall x :: x in multiset(low) ==> x < t;
  }

  /** Ten blocks a second apart, one 200000 seconds after the first, and one 120900 seconds before that. */
  function LateChain(algo: nat, nBits: nat): seq<Header>
  {
    seq(12, i => Header(algo, if i < 10 then i else if i == 10 then 200000 else 79100, nBits))
  }

  lemma LateChainTimely(algo: nat, nBits: nat, k: nat)
    requires k < 12
    ensures IsTimely(LateChain(algo, nBits), k)
  {
    var chain := LateChain(algo, nBits);
    if k > 0 {
      var times := LastTimes(chain, k - 1);
      forall m | IsMedian(times, m) ensures chain[k].nTime > m {
        if k <= 10 {
          MedianBelowAll(times, chain[k].nTime, m);
        } else {
          assert times == times[..10] + [200000];
          MedianBelowMost(times[..10], 200000, chain[k].nTime, m);
        }
      }
    }
  }

  /**
    With the parameters of the main network, a block dated 120900 seconds before its predecessor makes the next
    required target zero, whatever the targets were: no block can meet it. Every block of the chain is later than the
    median of those before it.
   */
  lemma NextTargetZero(algo: nat, bits: nat, limit: nat, nBits: nat)
    requires bits < BASE && 0 < limit < BPow(WIDTH)
    ensures var chain := LateChain(algo, bits);
      && (forall k: nat :: k < |chain| ==> IsTimely(chain, k))
      && HasSpacing(chain, 11, algo, 11, 10)
      && chain[11].nTime - chain[10].nTime - 120 == -121020
      && (NextIs(chain[11].nBits, 2017 * 120, -121020, limit, nBits) ==> !InRange(nBits, limit))
  {
    forall k: nat | k < 12 ensures IsTimely(LateChain(algo, bits), k) { LateChainTimely(algo, bits, k); }
    TargetNotMax(bits);
    HalfIsZero(Target(bits), 121020);
  }

  method CheckProofOfWork(hash: BaseUint, nBits: nat, powLimit: BaseUint) returns (ok: bool)
    requires hash.Valid() && powLimit.Valid() && nBits < BASE
    ensures ok <==> InRange(nBits, powLimit.V()) && hash.V() <= Target(nBits)
  {
    var bnTarget := new BaseUint();
    var fNegative, fOverflow := SetCompact(bnTarget, nBits);
    var zero := new BaseUint();
    var isZero := bnTarget.CompareTo(zero);
    var over := bnTarget.CompareTo(powLimit);
    if fNegative || isZero == 0 || fOverflow || over > 0 {
      return false;
    }
    var c := hash.CompareTo(bnTarget);
    return c <= 0;
  }

  // ----- The work of a block -----

  lemma WorkIs(t: nat, m: nat)
    requires t + 1 < m
    ensures (m - 1 - t) / (t + 1) + 1 == m / (t + 1)
  {
    DivPlus(m - 1 - t, t + 1, 1);
  }

  /** A decoded target is never 2^256 - 1. */
  lemma TargetNotMax(nCompact: nat)
    requires nCompact < BASE
    ensures Target(nCompact) + 1 < Modulus()
  {
    var nSize := nCompact / 0x100_0000;
    if nSize <= 3 {
      QuotientAtMost(nCompact % 0x80_0000, Pow2(8 * (3 - nSize)));
    } else {
      Pow2Add(1, 8 * (nSize - 3) - 1, 8 * (nSize - 3));
      EvenMod(WordOf(nCompact), Pow2(8 * (nSize - 3) - 1), BPow(WIDTH - 1), Modulus());
    }
  }

  lemma EvenMod(w: nat, p: nat, h: nat, m: nat)
    requires m == BASE * h && h > 0
    ensures (w * (2 * p)) % m + 1 < m
  {
    var x := w * (2 * p);
    DoubleTerm(w, p);
    var q, r := x / m, x % m;
    assert x == q * m + r;
    assert q * m == 2 * (q * (0x8000_0000 * h)) by { EvenTerm(q, h); }
  }

  lemma EvenTerm(q: int, h: int)
    ensures q * (BASE * h) == 2 * (q * (0x8000_0000 * h))
  {
  }

  /** The expected number of hashes for a SHA-256d block: 2^256 / (target + 1), or 0 for an invalid target. */
  method GetBlockProof(nBits: nat, scrypt: bool) returns (work: BaseUint)
    requires nBits < BASE
    ensures work.Valid()
    ensures IsNegative(nBits) || IsOverflow(nBits) || Target(nBits) == 0 ==> work.V() == 0
    ensures !IsNegative(nBits) && !IsOverflow(nBits) && Target(nBits) != 0 ==>
      var w := Modulus() / (Target(nBits) + 1); work.V() == if scrypt then (w * Pow2(12)) % Modulus() else w
  {
    var bnTarget := new BaseUint();
    var fNegative, fOverflow := SetCompact(bnTarget, nBits);
    work := new BaseUint();
    var isZero := bnTarget.CompareTo(work);
    if fNegative || fOverflow || isZero == 0 {
      return;
    }
    TargetNotMax(nBits);
    work := Quotient(bnTarget);
    if scrypt { work.ShiftLeftAssign(12); }
  }

  /** ~T / (T + 1) + 1. */
  method Quotient(t: BaseUint) returns (work: BaseUint)
    requires t.Valid() && 0 < t.V() && t.V() + 1 < Modulus()
    ensures fresh(work) && work.Valid() && work.V() == Modulus() / (t.V() + 1)
  {
    ghost var m := Modulus();
    work := t.Complement();
    var next := new BaseUint.Copy(t);
    next.Increment();
    Fits(t.V() + 1, m);
    var ok := work.DivAssign(next);
    WorkIs(t.V(), m);
    WorkFits(m, t.V() + 1);
    work.Increment();
    Fits(m / (t.V() + 1), m);
  }

  lemma WorkFits(m: nat, d: nat)
    requires d > 1 && m > 0
    ensures 0 <= m / d < m
  {
    DivBound(m, d, m);
    DivMonotone(0, m, d);
  }
}
