/**
  Bech32: the checksum, encoding and decoding. A value of the data part is an element of GF(32), a
  five-bit word.
 */
module Bech32 {

  type Byte = c: char | c as int < 256 witness '0'
  type Value = bv5

  datatype Option<T> = None | Some(value: T)

  // ----- The checksum -----

  /** A polynomial of degree below six, leading coefficient first. */
  datatype Poly = Poly(c0: Value, c1: Value, c2: Value, c3: Value, c4: Value, c5: Value)

  /** The coefficients of c * (x^6 mod g(x)), as functions of c. */
  datatype Generator = Generator(
    r0: Value -> Value,
    r1: Value -> Value,
    r2: Value -> Value,
    r3: Value -> Value,
    r4: Value -> Value,
    r5: Value -> Value)

  /** One more value: p(x) * x + v mod g(x). */
  function Step(g: Generator, p: Poly, v: Value): Poly
  {
    Plus(Shifted(p, v), Poly(g.r0(p.c0), g.r1(p.c0), g.r2(p.c0), g.r3(p.c0), g.r4(p.c0), g.r5(p.c0)))
  }

  function Plus(p: Poly, d: Poly): Poly
  {
    Poly(p.c0 ^ d.c0, p.c1 ^ d.c1, p.c2 ^ d.c2, p.c3 ^ d.c3, p.c4 ^ d.c4, p.c5 ^ d.c5)
  }

  /** The coefficients moved up by one, and a value below them. */
  function Shifted(d: Poly, w: Value): Poly { Poly(d.c1, d.c2, d.c3, d.c4, d.c5, w) }

  function PolyModFrom(g: Generator, p: Poly, v: seq<Value>): Poly
    decreases |v|
  {
    if v == [] then p else PolyModFrom(g, Step(g, p, v[0]), v[1..])
  }

  const ONE: Poly := Poly(0, 0, 0, 0, 0, 1)
  const ZERO: Poly := Poly(0, 0, 0, 0, 0, 0)

  lemma {:induction false} PolyModSplit(g: Generator, p: Poly, v: seq<Value>, w: seq<Value>)
    ensures PolyModFrom(g, p, v + w) == PolyModFrom(g, PolyModFrom(g, p, v), w)
    decreases |v|
  {
    if v == [] {
      assert v + w == w;
    } else {
      assert (v + w)[1..] == v[1..] + w;
      PolyModSplit(g, Step(g, p, v[0]), v[1..], w);
    }
  }

  // ----- Differences -----

  lemma PlusMoves(p: Poly, d: Poly, r: Poly)
    ensures Plus(Plus(p, d), r) == Plus(Plus(p, r), d)
  {
  }

  lemma PlusZero(p: Poly, d: Poly)
    ensures Plus(p, ZERO) == p && (Plus(p, d) == p <==> d == ZERO)
  {
  }

  lemma ShiftedPlus(p: Poly, d: Poly, v: Value, w: Value)
    ensures Shifted(Plus(p, d), v ^ w) == Plus(Shifted(p, v), Shifted(d, w))
  {
  }

  /** A difference without a leading coefficient is only shifted. */
  lemma StepDifference(g: Generator, p: Poly, d: Poly, v: Value, w: Value)
    requires d.c0 == 0
    ensures Step(g, Plus(p, d), v ^ w) == Plus(Step(g, p, v), Shifted(d, w))
  {
    SameLeading(p, d);
    ShiftedPlus(p, d, v, w);
    PlusMoves(Shifted(p, v), Shifted(d, w),
              Poly(g.r0(p.c0), g.r1(p.c0), g.r2(p.c0), g.r3(p.c0), g.r4(p.c0), g.r5(p.c0)));
  }

  lemma SameLeading(p: Poly, d: Poly)
    requires d.c0 == 0
    ensures Plus(p, d).c0 == p.c0
  {
  }

  lemma XorCancels(x: Value, y: Value, r: Value)
    ensures x ^ r == y ^ r <==> x == y
    ensures r ^ x == r ^ y <==> x == y
  {
  }

  /** The last coefficient of a multiple of x^6 tells the factor. */
  ghost predicate TellsApart(g: Generator, a: Value, b: Value)
  {
    g.r5(a) == g.r5(b) ==> a == b
  }

  ghost predicate LastTells(g: Generator)
  {
    forall a, b {:trigger TellsApart(g, a, b)} :: TellsApart(g, a, b)
  }

  /** Two different states stay different under the same value. */
  lemma StepInjective(g: Generator, p: Poly, q: Poly, v: Value)
    requires LastTells(g) && Step(g, p, v) == Step(g, q, v)
    ensures p == q
  {
    XorCancels(g.r5(p.c0), g.r5(q.c0), v);
    assert TellsApart(g, p.c0, q.c0);
    XorCancels(p.c1, q.c1, g.r0(p.c0));
    XorCancels(p.c2, q.c2, g.r1(p.c0));
    XorCancels(p.c3, q.c3, g.r2(p.c0));
    XorCancels(p.c4, q.c4, g.r3(p.c0));
    XorCancels(p.c5, q.c5, g.r4(p.c0));
  }

  // ----- Six values -----

  /** The first n coefficients are zero, so that n values can follow without reduction. */
  predicate Free(d: Poly, n: nat)
  {
    && (n >= 1 ==> d.c0 == 0) && (n >= 2 ==> d.c1 == 0) && (n >= 3 ==> d.c2 == 0)
    && (n >= 4 ==> d.c3 == 0) && (n >= 5 ==> d.c4 == 0) && (n >= 6 ==> d.c5 == 0)
  }

  function Packed(d: Poly, w: seq<Value>): Poly
    decreases |w|
  {
    if w == [] then d else Packed(Shifted(d, w[0]), w[1..])
  }

  function Xored(v: seq<Value>, w: seq<Value>): (r: seq<Value>)
    requires |v| == |w|
    ensures |r| == |v|
  {
    if v == [] then [] else [v[0] ^ w[0]] + Xored(v[1..], w[1..])
  }

  /** Up to six values added to a list are added to its checksum, each in its place. */
  lemma {:induction false} AddedValues(g: Generator, p: Poly, d: Poly, v: seq<Value>, w: seq<Value>)
    requires |v| == |w| <= 6 && Free(d, |v|)
    ensures PolyModFrom(g, Plus(p, d), Xored(v, w)) == Plus(PolyModFrom(g, p, v), Packed(d, w))
    decreases |v|
  {
    if v != [] {
      StepDifference(g, p, d, v[0], w[0]);
      assert Xored(v, w)[0] == v[0] ^ w[0] && Xored(v, w)[1..] == Xored(v[1..], w[1..]);
      AddedValues(g, Step(g, p, v[0]), Shifted(d, w[0]), v[1..], w[1..]);
    }
  }

  lemma PackedSix(w: seq<Value>)
    requires |w| == 6
    ensures Packed(ZERO, w) == Poly(w[0], w[1], w[2], w[3], w[4], w[5])
  {
    var d1 := Shifted(ZERO, w[0]);
    var d2 := Shifted(d1, w[1]);
    var d3 := Shifted(d2, w[2]);
    var d4 := Shifted(d3, w[3]);
    var d5 := Shifted(d4, w[4]);
    assert w[1..][1..] == w[2..] && w[2..][1..] == w[3..] && w[3..][1..] == w[4..] && w[4..][1..] == w[5..];
    assert w[5..][1..] == [];
    assert Packed(ZERO, w) == Packed(d1, w[1..]);
    assert Packed(d1, w[1..]) == Packed(d2, w[2..]);
    assert Packed(d2, w[2..]) == Packed(d3, w[3..]);
    assert Packed(d3, w[3..]) == Packed(d4, w[4..]);
    assert Packed(d4, w[4..]) == Packed(d5, w[5..]);
    assert Packed(d5, w[5..]) == Shifted(d5, w[5]);
  }

  /** Different states stay different under the same values. */
  lemma {:induction false} PolyModInjective(g: Generator, p: Poly, q: Poly, v: seq<Value>)
    requires LastTells(g) && p != q
    ensures PolyModFrom(g, p, v) != PolyModFrom(g, q, v)
    decreases |v|
  {
    if v != [] {
      if Step(g, p, v[0]) == Step(g, q, v[0]) { StepInjective(g, p, q, v[0]); }
      PolyModInjective(g, Step(g, p, v[0]), Step(g, q, v[0]), v[1..]);
    }
  }

  lemma XorTwice(x: Value, y: Value)
    ensures x ^ (x ^ y) == y && (x ^ y == 0 <==> x == y) && 0 ^ x == x
  {
  }

  lemma {:induction false} XoredBack(v: seq<Value>, w: seq<Value>)
    requires |v| == |w|
    ensures Xored(v, Xored(v, w)) == w
  {
    if v != [] {
      XoredBack(v[1..], w[1..]);
      XorTwice(v[0], w[0]);
      assert Xored(v, w)[0] == v[0] ^ w[0] && Xored(v, w)[1..] == Xored(v[1..], w[1..]);
    }
  }

  lemma {:induction false} XoredZero(v: seq<Value>, w: seq<Value>, i: nat)
    requires |v| == |w| && i < |v|
    ensures Xored(v, w)[i] == 0 <==> v[i] == w[i]
  {
    if i == 0 {
      XorTwice(v[0], w[0]);
    } else {
      XoredZero(v[1..], w[1..], i - 1);
    }
  }

  lemma SixDiffer(g: Generator, p: Poly, a: seq<Value>, b: seq<Value>)
    requires |a| == |b| == 6 && a != b
    ensures PolyModFrom(g, p, a) != PolyModFrom(g, p, b)
  {
    var d := Xored(a, b);
    XoredBack(a, b);
    forall i | 0 <= i < 6 ensures d[i] == 0 <==> a[i] == b[i] { XoredZero(a, b, i); }
    PlusZero(p, ZERO);
    AddedValues(g, p, ZERO, a, d);
    PackedSix(d);
    PlusZero(PolyModFrom(g, p, a), Packed(ZERO, d));
  }

  lemma BurstOfSix(g: Generator, p: Poly, v: seq<Value>, w: seq<Value>, from: nat)
    requires LastTells(g) && |v| == |w| && from + 6 <= |v| && v[..from] == w[..from] && v[from + 6..] == w[from + 6..]
    requires v != w
    ensures PolyModFrom(g, p, v) != PolyModFrom(g, p, w)
  {
    var a, b := v[from..from + 6], w[from..from + 6];
    DifferWithin(v, w, from);
    var s := PolyModFrom(g, p, v[..from]);
    SixDiffer(g, s, a, b);
    PolyModInjective(g, PolyModFrom(g, s, a), PolyModFrom(g, s, b), v[from + 6..]);
    PolyModThree(g, p, v, from);
    PolyModThree(g, p, w, from);
  }

  const SIX_ZEROS: seq<Value> := [0, 0, 0, 0, 0, 0]

  /** Two lists differ, but only in the given places, which are six at most. */
  predicate IsBurst(v: seq<Value>, w: seq<Value>, from: nat, to: nat)
  {
    && |v| == |w| && from <= to <= |v| && to - from <= 6
    && v[..from] == w[..from] && v[to..] == w[to..] && v != w
  }

  /** Two lists of values that differ, but only within six consecutive positions, have different checksums. */
  lemma BurstDetected(g: Generator, p: Poly, v: seq<Value>, w: seq<Value>, from: nat, to: nat)
    requires LastTells(g) && IsBurst(v, w, from, to)
    ensures PolyModFrom(g, p, v) != PolyModFrom(g, p, w)
  {
    var v', w' := v + SIX_ZEROS, w + SIX_ZEROS;
    assert v' != w' by { assert v'[..|v|] == v && w'[..|w|] == w; }
    assert v'[..from] == v[..from] == w[..from] == w'[..from];
    assert v'[from + 6..] == w'[from + 6..] by { SameAfter(v, w, to, from + 6); }
    BurstOfSix(g, p, v', w', from);
    PolyModSplit(g, p, v, SIX_ZEROS);
    PolyModSplit(g, p, w, SIX_ZEROS);
  }

  lemma SameAfter(v: seq<Value>, w: seq<Value>, to: nat, k: nat)
    requires |v| == |w| && to <= |v| && to <= k <= |v| + 6 && v[to..] == w[to..]
    ensures (v + SIX_ZEROS)[k..] == (w + SIX_ZEROS)[k..]
  {
    forall i | k <= i < |v| + 6 ensures (v + SIX_ZEROS)[i] == (w + SIX_ZEROS)[i] {
      if i < |v| { assert v[i] == v[to..][i - to] == w[to..][i - to] == w[i]; }
    }
  }

  lemma DifferWithin(v: seq<Value>, w: seq<Value>, from: nat)
    requires |v| == |w| && from + 6 <= |v| && v[..from] == w[..from] && v[from + 6..] == w[from + 6..] && v != w
    ensures v[from..from + 6] != w[from..from + 6]
  {
    assert v == v[..from] + v[from..from + 6] + v[from + 6..] && w == w[..from] + w[from..from + 6] + w[from + 6..];
  }

  lemma PolyModThree(g: Generator, p: Poly, v: seq<Value>, from: nat)
    requires from + 6 <= |v|
    ensures PolyModFrom(g, p, v) ==
      PolyModFrom(g, PolyModFrom(g, PolyModFrom(g, p, v[..from]), v[from..from + 6]), v[from + 6..])
  {
    assert v == v[..from] + v[from..] && v[from..] == v[from..from + 6] + v[from + 6..];
    PolyModSplit(g, p, v[..from], v[from..]);
    PolyModSplit(g, PolyModFrom(g, p, v[..from]), v[from..from + 6], v[from + 6..]);
  }

  // ----- The Bech32 generator -----

  /** A coefficient of c * k(x), given that of {1}, {2}, {4}, {8} and {16} times k(x). */
  function Times(c: Value, k1: Value, k2: Value, k4: Value, k8: Value, k16: Value): Value
  {
    (if c & 1 != 0 then k1 else 0) ^ ((if c & 2 != 0 then k2 else 0) ^ ((if c & 4 != 0 then k4 else 0) ^
    ((if c & 8 != 0 then k8 else 0) ^ (if c & 16 != 0 then k16 else 0))))
  }

  /** x^6 + {29}x^5 + {22}x^4 + {20}x^3 + {21}x^2 + {29}x + {18}. */
  function Bech32Generator(): Generator
  {
    Generator((c: Value) => Times(c, 29, 19, 15, 30, 21),
              (c: Value) => Times(c, 22, 5, 10, 20, 1),
              (c: Value) => Times(c, 20, 1, 2, 4, 8),
              (c: Value) => Times(c, 21, 3, 6, 12, 24),
              (c: Value) => Times(c, 29, 19, 15, 30, 21),
              (c: Value) => Times(c, 18, 13, 26, 29, 19))
  }

  lemma LastInjective(a: Value, b: Value)
    requires Times(a, 18, 13, 26, 29, 19) == Times(b, 18, 13, 26, 29, 19)
    ensures a == b
  {
  }

  lemma LastRow(g: Generator, a: Value)
    requires g == Bech32Generator()
    ensures g.r5(a) == Times(a, 18, 13, 26, 29, 19)
  {
  }

  lemma Bech32Tells(g: Generator, a: Value, b: Value)
    requires g == Bech32Generator()
    ensures TellsApart(g, a, b)
  {
    LastRow(g, a);
    LastRow(g, b);
    if g.r5(a) == g.r5(b) { LastInjective(a, b); }
  }

  lemma Bech32LastTells(g: Generator)
    requires g == Bech32Generator()
    ensures LastTells(g)
  {
    forall a, b ensures TellsApart(g, a, b) { Bech32Tells(g, a, b); }
  }

  // ----- The packed form -----

  function Pack(p: Poly): bv32
  {
    ((p.c0 as bv32) << 25) | ((p.c1 as bv32) << 20) | ((p.c2 as bv32) << 15) | ((p.c3 as bv32) << 10) |
      ((p.c4 as bv32) << 5) | (p.c5 as bv32)
  }

  lemma PackPlus(p: Poly, d: Poly)
    ensures Pack(Plus(p, d)) == Pack(p) ^ Pack(d)
  {
  }

  lemma MaskLeading(a: bv32, b: bv32, c: bv32, d: bv32, e: bv32, f: bv32)
    requires a < 32 && b < 32 && c < 32 && d < 32 && e < 32 && f < 32
    ensures (((a << 25) | (b << 20) | (c << 15) | (d << 10) | (e << 5) | f) & 0x1ffffff) ==
      (b << 20) | (c << 15) | (d << 10) | (e << 5) | f
  {
  }

  lemma ShiftUp(b: bv32, c: bv32, d: bv32, e: bv32, f: bv32)
    requires b < 32 && c < 32 && d < 32 && e < 32 && f < 32
    ensures (((b << 20) | (c << 15) | (d << 10) | (e << 5) | f) << 5) ==
      (b << 25) | (c << 20) | (d << 15) | (e << 10) | (f << 5)
  {
  }

  lemma AppendLow(x: bv32, v: bv32)
    requires v < 32
    ensures (x << 5) ^ v == (x << 5) | v
  {
  }

  lemma Small(v: Value)
    ensures v as bv32 < 32
  {
  }

  lemma PackShifted(p: Poly, v: Value)
    ensures ((Pack(p) & 0x1ffffff) << 5) ^ (v as bv32) == Pack(Shifted(p, v))
  {
    var a, b, c := p.c0 as bv32, p.c1 as bv32, p.c2 as bv32;
    var d, e, f := p.c3 as bv32, p.c4 as bv32, p.c5 as bv32;
    Small(p.c0); Small(p.c1); Small(p.c2); Small(p.c3); Small(p.c4); Small(p.c5); Small(v);
    MaskLeading(a, b, c, d, e, f);
    ShiftUp(b, c, d, e, f);
    AppendLow((b << 20) | (c << 15) | (d << 10) | (e << 5) | f, v as bv32);
  }

  lemma PackLeading(p: Poly)
    ensures Pack(p) >> 25 == p.c0 as bv32
  {
  }

  /** {2^n}k(x), where k(x) is x^6 mod g(x). */
  function K(n: nat): Poly
    requires n < 5
  {
    match n
    case 0 => Poly(29, 22, 20, 21, 29, 18)
    case 1 => Poly(19, 5, 1, 3, 19, 13)
    case 2 => Poly(15, 10, 2, 6, 15, 26)
    case 3 => Poly(30, 20, 4, 12, 30, 29)
    case 4 => Poly(21, 1, 8, 24, 21, 19)
  }

  function PackedK(n: nat): bv32
    requires n < 5
  {
    match n
    case 0 => 0x3b6a57b2
    case 1 => 0x26508e6d
    case 2 => 0x1ea119fa
    case 3 => 0x3d4233dd
    case 4 => 0x2a1462b3
  }

  lemma PackedConstant(n: nat)
    requires n < 5
    ensures Pack(K(n)) == PackedK(n)
  {
  }

  function Bit(c: Value, n: nat): bool
    requires n < 5
  {
    match n
    case 0 => c & 1 != 0
    case 1 => c & 2 != 0
    case 2 => c & 4 != 0
    case 3 => c & 8 != 0
    case 4 => c & 16 != 0
  }

  function If(b: bool, k: Poly): Poly { if b then k else ZERO }

  /** What the bits of c from the nth on add. */
  function Multiple(c: Value, n: nat): Poly
    requires n <= 5
    decreases 5 - n
  {
    if n == 5 then ZERO else Plus(If(Bit(c, n), K(n)), Multiple(c, n + 1))
  }

  lemma PackIf(q: Poly, b: bool, k: Poly, x: bv32)
    requires x == Pack(k)
    ensures Pack(Plus(q, If(b, k))) == if b then Pack(q) ^ x else Pack(q)
  {
    PackPlus(q, k);
    PlusZero(q, ZERO);
  }

  lemma PlusAssociates(p: Poly, q: Poly, r: Poly)
    ensures Plus(Plus(p, q), r) == Plus(p, Plus(q, r))
  {
  }

  lemma MultipleIsTimes(c: Value)
    ensures Multiple(c, 0) == Poly(Times(c, 29, 19, 15, 30, 21), Times(c, 22, 5, 10, 20, 1), Times(c, 20, 1, 2, 4, 8),
                                   Times(c, 21, 3, 6, 12, 24), Times(c, 29, 19, 15, 30, 21),
                                   Times(c, 18, 13, 26, 29, 19))
  {
    PlusZero(If(Bit(c, 4), K(4)), ZERO);
    assert Multiple(c, 5) == ZERO;
    assert Multiple(c, 4) == If(c & 16 != 0, K(4));
    assert Multiple(c, 3) == Plus(If(c & 8 != 0, K(3)), Multiple(c, 4));
    assert Multiple(c, 2) == Plus(If(c & 4 != 0, K(2)), Multiple(c, 3));
    assert Multiple(c, 1) == Plus(If(c & 2 != 0, K(1)), Multiple(c, 2));
  }

  lemma StepIs(p: Poly, v: Value)
    ensures Step(Bech32Generator(), p, v) == Plus(Shifted(p, v), Multiple(p.c0, 0))
  {
    MultipleIsTimes(p.c0);
  }

  method StepPacked(c: bv32, v: Value, ghost p: Poly) returns (r: bv32)
    requires c == Pack(p)
    ensures r == Pack(Plus(Shifted(p, v), Multiple(p.c0, 0)))
  {
    PackLeading(p);
    Small(p.c0);
    var c0 := (c >> 25) as Value;
    Narrowed(p.c0);
    r := ((c & 0x1ffffff) << 5) ^ (v as bv32);
    PackShifted(p, v);
    ghost var q := Shifted(p, v);
    r := Reduce(r, c0, q);
  }

  lemma Narrowed(v: Value)
    ensures v as bv32 < 32 && (v as bv32) as Value == v
  {
  }

  /** For each bit n of c0, {2^n}k(x) is added. */
  method Reduce(c: bv32, c0: Value, ghost p: Poly) returns (r: bv32)
    requires c == Pack(p)
    ensures r == Pack(Plus(p, Multiple(c0, 0)))
  {
    r := c;
    ghost var q := p;
    for n := 0 to 5
      invariant r == Pack(q) && Plus(q, Multiple(c0, n)) == Plus(p, Multiple(c0, 0))
    {
      r := ReduceBit(r, Bit(c0, n), n, q);
      q := MultipleStep(c0, n, q);
    }
    PlusZero(q, ZERO);
  }

  method ReduceBit(c: bv32, bit: bool, n: nat, ghost p: Poly) returns (r: bv32)
    requires n < 5 && c == Pack(p)
    ensures r == Pack(Plus(p, If(bit, K(n))))
  {
    r := if bit then c ^ PackedK(n) else c;
    PackedConstant(n);
    PackIf(p, bit, K(n), PackedK(n));
  }

  lemma MultipleStep(c0: Value, n: nat, p: Poly) returns (q: Poly)
    requires n < 5
    ensures q == Plus(p, If(Bit(c0, n), K(n))) && Plus(q, Multiple(c0, n + 1)) == Plus(p, Multiple(c0, n))
  {
    q := Plus(p, If(Bit(c0, n), K(n)));
    PlusAssociates(p, If(Bit(c0, n), K(n)), Multiple(c0, n + 1));
  }

  function PolyModOf(v: seq<Value>): Poly { PolyModFrom(Bech32Generator(), ONE, v) }

  /** The packed remainder of the values, with a 1 in front, modulo the generator. */
  method PolyMod(v: seq<Value>) returns (c: bv32)
    ensures c == Pack(PolyModOf(v))
  {
    c := 1;
    ghost var p := ONE;
    for i := 0 to |v|
      invariant c == Pack(p) && PolyModOf(v) == PolyModFrom(Bech32Generator(), p, v[i..])
    {
      StepIs(p, v[i]);
      c := StepPacked(c, v[i], p);
      p := Step(Bech32Generator(), p, v[i]);
      assert v[i..][1..] == v[i + 1..];
    }
  }

  // ----- The checksum of a string -----

  function High(c: Byte): Value { (c as int / 32) as bv5 }

  function Low(c: Byte): Value { (c as int % 32) as bv5 }

  /** The high bits of every character, a zero, the low bits of every character. */
  function Expanded(hrp: seq<Byte>): seq<Value>
  {
    seq(|hrp|, i requires 0 <= i < |hrp| => High(hrp[i])) + [0] + seq(|hrp|, i requires 0 <= i < |hrp| => Low(hrp[i]))
  }

  method ExpandHRP(hrp: seq<Byte>) returns (r: seq<Value>)
    ensures r == Expanded(hrp)
  {
    var n := |hrp|;
    var ret := new Value[2 * n + 1](i => 0);
    for i := 0 to n
      invariant forall j :: 0 <= j < i ==> ret[j] == High(hrp[j]) && ret[j + n + 1] == Low(hrp[j])
    {
      ret[i] := High(hrp[i]);
      ret[i + n + 1] := Low(hrp[i]);
    }
    ret[n] := 0;
    r := ret[..];
    assert forall j {:trigger r[j]} :: n < j < 2 * n + 1 ==> r[j] == ret[(j - n - 1) + n + 1];
  }

  predicate ChecksumOk(hrp: seq<Byte>, values: seq<Value>)
  {
    PolyModOf(Expanded(hrp) + values) == ONE
  }

  function Coefficients(p: Poly): seq<Value> { [p.c0, p.c1, p.c2, p.c3, p.c4, p.c5] }

  function Checksum(hrp: seq<Byte>, values: seq<Value>): seq<Value>
  {
    Coefficients(Plus(PolyModOf(Expanded(hrp) + values + SIX_ZEROS), ONE))
  }

  /** Six values put in the place of six zeros are added to the checksum. */
  lemma LastSix(v: seq<Value>, w: seq<Value>)
    requires |w| == 6
    ensures PolyModOf(v + w) == Plus(PolyModOf(v + SIX_ZEROS), Poly(w[0], w[1], w[2], w[3], w[4], w[5]))
  {
    var g := Bech32Generator();
    PolyModSplit(g, ONE, v, w);
    PolyModSplit(g, ONE, v, SIX_ZEROS);
    var p := PolyModFrom(g, ONE, v);
    PlusZero(p, ZERO);
    XoredZeros(SIX_ZEROS, w);
    AddedValues(g, p, ZERO, SIX_ZEROS, w);
    PackedSix(w);
  }

  lemma {:induction false} XoredZeros(z: seq<Value>, w: seq<Value>)
    requires |z| == |w| && forall i :: 0 <= i < |z| ==> z[i] == 0
    ensures Xored(z, w) == w
  {
    if w != [] {
      XorTwice(w[0], 0);
      XoredZeros(z[1..], w[1..]);
    }
  }

  lemma PlusTwice(p: Poly, q: Poly)
    ensures Plus(p, Plus(p, q)) == q
  {
  }

  lemma PlusSolves(p: Poly, q: Poly, r: Poly)
    ensures Plus(p, q) == r <==> q == Plus(p, r)
  {
    PlusTwice(p, q);
    PlusTwice(p, r);
  }

  /** Exactly one list of six values completes the data to one with a valid checksum: the one computed. */
  lemma ChecksumUnique(hrp: seq<Byte>, values: seq<Value>, w: seq<Value>)
    requires |w| == 6
    ensures ChecksumOk(hrp, values + w) <==> w == Checksum(hrp, values)
  {
    var v := Expanded(hrp) + values;
    assert Expanded(hrp) + (values + w) == v + w;
    LastSix(v, w);
    var q := Poly(w[0], w[1], w[2], w[3], w[4], w[5]);
    PlusSolves(PolyModOf(v + SIX_ZEROS), q, ONE);
    SixCoefficients(q, w, Plus(PolyModOf(v + SIX_ZEROS), ONE));
  }

  lemma SixCoefficients(q: Poly, w: seq<Value>, r: Poly)
    requires |w| == 6 && q == Poly(w[0], w[1], w[2], w[3], w[4], w[5])
    ensures w == Coefficients(q) && (q == r <==> w == Coefficients(r))
  {
    assert w == [w[0], w[1], w[2], w[3], w[4], w[5]];
    assert Coefficients(r)[0] == r.c0 && Coefficients(r)[1] == r.c1 && Coefficients(r)[2] == r.c2;
    assert Coefficients(r)[3] == r.c3 && Coefficients(r)[4] == r.c4 && Coefficients(r)[5] == r.c5;
  }

  /** Two lists of values for one prefix that differ, but only within six consecutive positions, do not both verify. */
  lemma BurstsAreCaught(hrp: seq<Byte>, v: seq<Value>, w: seq<Value>, from: nat, to: nat)
    requires IsBurst(v, w, from, to)
    ensures !(ChecksumOk(hrp, v) && ChecksumOk(hrp, w))
  {
    var e := Expanded(hrp);
    assert (e + v)[..|e| + from] == e + v[..from] == (e + w)[..|e| + from];
    assert (e + v)[|e| + to..] == v[to..] == (e + w)[|e| + to..];
    assert (e + v)[|e|..] == v && (e + w)[|e|..] == w;
    Bech32LastTells(Bech32Generator());
    BurstDetected(Bech32Generator(), ONE, e + v, e + w, |e| + from, |e| + to);
  }

  // ----- Strings -----

  /** The character that stands for a value. */
  function CharAt(v: nat): (c: Byte)
    requires v < 32
    ensures c != '1' && 33 <= c as int <= 126 && !Upper(c)
  {
    match v
    case 0 => 'q'
    case 1 => 'p'
    case 2 => 'z'
    case 3 => 'r'
    case 4 => 'y'
    case 5 => '9'
    case 6 => 'x'
    case 7 => '8'
    case 8 => 'g'
    case 9 => 'f'
    case 10 => '2'
    case 11 => 't'
    case 12 => 'v'
    case 13 => 'd'
    case 14 => 'w'
    case 15 => '0'
    case 16 => 's'
    case 17 => '3'
    case 18 => 'j'
    case 19 => 'n'
    case 20 => '5'
    case 21 => '4'
    case 22 => 'k'
    case 23 => 'h'
    case 24 => 'c'
    case 25 => 'e'
    case 26 => '6'
    case 27 => 'm'
    case 28 => 'u'
    case 29 => 'a'
    case 30 => '7'
    case _ => 'l'
  }

  /** The value a character of either case stands for, or -1. */
  function RevAt(c: Byte): (v: int)
    ensures -1 <= v < 32
  {
    match c
    case 'q' => 0
    case 'Q' => 0
    case 'p' => 1
    case 'P' => 1
    case 'z' => 2
    case 'Z' => 2
    case 'r' => 3
    case 'R' => 3
    case 'y' => 4
    case 'Y' => 4
    case '9' => 5
    case 'x' => 6
    case 'X' => 6
    case '8' => 7
    case 'g' => 8
    case 'G' => 8
    case 'f' => 9
    case 'F' => 9
    case '2' => 10
    case 't' => 11
    case 'T' => 11
    case 'v' => 12
    case 'V' => 12
    case 'd' => 13
    case 'D' => 13
    case 'w' => 14
    case 'W' => 14
    case '0' => 15
    case 's' => 16
    case 'S' => 16
    case '3' => 17
    case 'j' => 18
    case 'J' => 18
    case 'n' => 19
    case 'N' => 19
    case '5' => 20
    case '4' => 21
    case 'k' => 22
    case 'K' => 22
    case 'h' => 23
    case 'H' => 23
    case 'c' => 24
    case 'C' => 24
    case 'e' => 25
    case 'E' => 25
    case '6' => 26
    case 'm' => 27
    case 'M' => 27
    case 'u' => 28
    case 'U' => 28
    case 'a' => 29
    case 'A' => 29
    case '7' => 30
    case 'l' => 31
    case 'L' => 31
    case _ => -1
  }

  lemma RevOfChar(v: nat)
    requires v < 32
    ensures RevAt(CharAt(v)) == v
  {
  }

  lemma CharOfRev(c: Byte)
    ensures RevAt(c) != -1 ==> CharAt(RevAt(c)) == LowerCase(c)
  {
  }

  lemma RevOfLower(c: Byte)
    ensures RevAt(LowerCase(c)) == RevAt(c)
  {
  }

  function Charset(v: Value): Byte { CharAt(v as int) }

  function CharsetRev(c: Byte): Option<Value> { if RevAt(c) == -1 then None else Some(RevAt(c) as bv5) }

  lemma CharsetTwice(v: Value)
    ensures CharsetRev(Charset(v)) == Some(v)
  {
    AsInt(v);
    RevOfChar(v as int);
  }

  lemma AsInt(v: Value)
    ensures 0 <= v as int < 32 && (v as int) as bv5 == v
  {
  }

  predicate Upper(c: Byte) { 'A' <= c <= 'Z' }

  predicate LowerLetter(c: Byte) { 'a' <= c <= 'z' }

  function LowerCase(c: Byte): Byte { if Upper(c) then (c as int - 'A' as int + 'a' as int) as char else c }

  lemma CharsetRevTwice(c: Byte)
    ensures CharsetRev(c).Some? ==> Charset(CharsetRev(c).value) == LowerCase(c)
    ensures CharsetRev(LowerCase(c)) == CharsetRev(c)
  {
    CharOfRev(c);
    RevOfLower(c);
    if RevAt(c) != -1 { AsBits(RevAt(c)); }
  }

  lemma AsBits(v: nat)
    requires v < 32
    ensures (v as bv5) as int == v
  {
  }

  function Lowered(str: seq<Byte>): (r: seq<Byte>)
    ensures |r| == |str|
  {
    seq(|str|, i requires 0 <= i < |str| => LowerCase(str[i]))
  }

  function Chars(values: seq<Value>): (r: seq<Byte>)
    ensures |r| == |values|
  {
    seq(|values|, i requires 0 <= i < |values| => Charset(values[i]))
  }

  function Encoded(hrp: seq<Byte>, values: seq<Value>): seq<Byte>
  {
    hrp + ['1'] + Chars(values + Checksum(hrp, values))
  }

  /** Every character is printable, and no two letters are of different case. */
  predicate Readable(str: seq<Byte>)
  {
    && (forall i :: 0 <= i < |str| ==> 33 <= str[i] as int <= 126)
    && !((exists i :: 0 <= i < |str| && LowerLetter(str[i])) && (exists i :: 0 <= i < |str| && Upper(str[i])))
  }

  // ----- Encoding -----

  method VerifyChecksum(hrp: seq<Byte>, values: seq<Value>) returns (ok: bool)
    ensures ok == ChecksumOk(hrp, values)
  {
    var e := ExpandHRP(hrp);
    var c := PolyMod(e + values);
    PackedOne(PolyModOf(e + values));
    ok := c == 1;
  }

  lemma PackedOne(p: Poly)
    ensures Pack(p) == 1 <==> p == ONE
    ensures Pack(ONE) == 1
  {
  }

  /** The 5-bit group that ends at bit s. */
  function GroupAt(x: bv32, s: bv32): bv32
    requires s <= 32
  {
    (x >> s) & 31
  }

  lemma GroupsOf(a: bv32, b: bv32, c: bv32, d: bv32, e: bv32, f: bv32, x: bv32)
    requires a < 32 && b < 32 && c < 32 && d < 32 && e < 32 && f < 32
    requires x == (a << 25) | (b << 20) | (c << 15) | (d << 10) | (e << 5) | f
    ensures GroupAt(x, 25) == a && GroupAt(x, 20) == b && GroupAt(x, 15) == c
    ensures GroupAt(x, 10) == d && GroupAt(x, 5) == e && GroupAt(x, 0) == f
  {
  }

  /** The six values computed complete the data to one that verifies, and no other six do. */
  method CreateChecksum(hrp: seq<Byte>, values: seq<Value>) returns (r: seq<Value>)
    ensures r == Checksum(hrp, values) && |r| == 6
    ensures forall w :: |w| == 6 ==> (ChecksumOk(hrp, values + w) <==> w == r)
  {
    var e := ExpandHRP(hrp);
    var c := PolyMod(e + values + SIX_ZEROS);
    ghost var p := Plus(PolyModOf(e + values + SIX_ZEROS), ONE);
    PackPlus(PolyModOf(e + values + SIX_ZEROS), ONE);
    PackedOne(ONE);
    PackHasGroups(p);
    r := Groups(c ^ 1, p);
    forall w | |w| == 6 ensures ChecksumOk(hrp, values + w) <==> w == r { ChecksumUnique(hrp, values, w); }
  }

  predicate HasGroups(x: bv32, p: Poly)
  {
    && GroupAt(x, 25) == p.c0 as bv32 && GroupAt(x, 20) == p.c1 as bv32 && GroupAt(x, 15) == p.c2 as bv32
    && GroupAt(x, 10) == p.c3 as bv32 && GroupAt(x, 5) == p.c4 as bv32 && GroupAt(x, 0) == p.c5 as bv32
  }

  lemma PackHasGroups(p: Poly)
    ensures HasGroups(Pack(p), p)
  {
    Small(p.c0); Small(p.c1); Small(p.c2); Small(p.c3); Small(p.c4); Small(p.c5);
    GroupsOf(p.c0 as bv32, p.c1 as bv32, p.c2 as bv32, p.c3 as bv32, p.c4 as bv32, p.c5 as bv32, Pack(p));
  }

  /** The six 5-bit groups, from the highest. */
  method Groups(mod: bv32, ghost p: Poly) returns (r: seq<Value>)
    requires HasGroups(mod, p)
    ensures r == Coefficients(p)
  {
    var a, b, c := FirstGroups(mod, p);
    var d, e, f := LastGroups(mod, p);
    r := [a, b, c, d, e, f];
  }

  method FirstGroups(mod: bv32, ghost p: Poly) returns (a: Value, b: Value, c: Value)
    requires HasGroups(mod, p)
    ensures a == p.c0 && b == p.c1 && c == p.c2
  {
    a, b, c := GroupAt(mod, 25) as Value, GroupAt(mod, 20) as Value, GroupAt(mod, 15) as Value;
  }

  method LastGroups(mod: bv32, ghost p: Poly) returns (d: Value, e: Value, f: Value)
    requires HasGroups(mod, p)
    ensures d == p.c3 && e == p.c4 && f == p.c5
  {
    d, e, f := GroupAt(mod, 10) as Value, GroupAt(mod, 5) as Value, GroupAt(mod, 0) as Value;
  }

  method Encode(hrp: seq<Byte>, values: seq<Value>) returns (r: seq<Byte>)
    ensures r == Encoded(hrp, values)
  {
    var checksum := CreateChecksum(hrp, values);
    var combined := values + checksum;
    r := AppendChars(hrp + ['1'], combined);
  }

  method AppendChars(ret: seq<Byte>, combined: seq<Value>) returns (r: seq<Byte>)
    ensures r == ret + Chars(combined)
  {
    r := ret;
    for i := 0 to |combined|
      invariant r == ret + Chars(combined)[..i]
    {
      r := r + [Charset(combined[i])];
    }
  }

  // ----- Decoding -----

  /** The string is one of those that stand for the prefix and the data. */
  predicate Encodes(str: seq<Byte>, hrp: seq<Byte>, values: seq<Value>)
  {
    Readable(str) && |str| <= 90 && hrp != [] && Lowered(str) == Encoded(hrp, values)
  }

  method CheckCase(str: seq<Byte>) returns (ok: bool)
    ensures ok == Readable(str)
  {
    var lower, upper := false, false;
    for i := 0 to |str|
      invariant forall j :: 0 <= j < i ==> 33 <= str[j] as int <= 126
      invariant lower == exists j :: 0 <= j < i && LowerLetter(str[j])
      invariant upper == exists j :: 0 <= j < i && Upper(str[j])
    {
      if LowerLetter(str[i]) {
        lower := true;
      } else if Upper(str[i]) {
        upper := true;
      } else if str[i] as int < 33 || str[i] as int > 126 {
        return false;
      }
    }
    ok := !(lower && upper);
  }

  method FindLast(str: seq<Byte>, c: Byte) returns (pos: int)
    ensures -1 <= pos < |str| && (pos >= 0 ==> str[pos] == c)
    ensures forall i :: pos < i < |str| ==> str[i] != c
  {
    pos := |str| - 1;
    while pos >= 0 && str[pos] != c
      invariant -1 <= pos < |str|
      invariant forall i :: pos < i < |str| ==> str[i] != c
    {
      pos := pos - 1;
    }
  }

  /** The values that the characters stand for. */
  predicate Spells(str: seq<Byte>, values: seq<Value>)
  {
    |values| == |str| && forall i :: 0 <= i < |str| ==> CharsetRev(str[i]) == Some(values[i])
  }

  predicate Unspellable(str: seq<Byte>)
  {
    exists i :: 0 <= i < |str| && CharsetRev(str[i]).None?
  }

  method ReadValues(str: seq<Byte>) returns (r: Option<seq<Value>>)
    ensures r.Some? ==> Spells(str, r.value)
    ensures r.None? ==> Unspellable(str)
  {
    var values := [];
    for i := 0 to |str|
      invariant Spells(str[..i], values)
    {
      var rev := CharsetRev(str[i]);
      if rev.None? { return None; }
      values := values + [rev.value];
    }
    assert str[..|str|] == str;
    r := Some(values);
  }

  method Lower(str: seq<Byte>) returns (r: seq<Byte>)
    ensures r == Lowered(str)
  {
    r := [];
    for i := 0 to |str|
      invariant r == Lowered(str)[..i]
    {
      r := r + [LowerCase(str[i])];
    }
  }

  lemma SpelledChars(str: seq<Byte>, values: seq<Value>)
    requires Spells(str, values)
    ensures Lowered(str) == Chars(values)
  {
    forall i | 0 <= i < |str| ensures LowerCase(str[i]) == Charset(values[i]) { CharsetRevTwice(str[i]); }
  }

  /** What is read with a good checksum is what was written. */
  lemma ReadIsWritten(str: seq<Byte>, pos: nat, values: seq<Value>)
    requires pos < |str| && str[pos] == '1' && Spells(str[pos + 1..], values) && |values| >= 6
    requires ChecksumOk(Lowered(str[..pos]), values)
    ensures Lowered(str) == Encoded(Lowered(str[..pos]), values[..|values| - 6])
  {
    var hrp, data, sum := Lowered(str[..pos]), values[..|values| - 6], values[|values| - 6..];
    assert values == data + sum;
    ChecksumUnique(hrp, data, sum);
    SpelledChars(str[pos + 1..], values);
    assert Lowered(str) == hrp + ['1'] + Lowered(str[pos + 1..]);
  }

  /** What was written is read back. */
  lemma WrittenIsRead(str: seq<Byte>, hrp: seq<Byte>, values: seq<Value>)
    requires Lowered(str) == Encoded(hrp, values)
    ensures |str| == |hrp| + 1 + |values| + 6 && str[|hrp|] == '1' && Lowered(str[..|hrp|]) == hrp
    ensures forall i :: |hrp| < i < |str| ==> str[i] != '1'
    ensures Spells(str[|hrp| + 1..], values + Checksum(hrp, values))
    ensures ChecksumOk(hrp, values + Checksum(hrp, values))
  {
    var all := values + Checksum(hrp, values);
    ChecksumUnique(hrp, values, Checksum(hrp, values));
    assert |str| == |Encoded(hrp, values)|;
    assert LowerCase(str[|hrp|]) == Encoded(hrp, values)[|hrp|] == '1';
    forall i | |hrp| < i < |str| ensures str[i] != '1' && CharsetRev(str[i]) == Some(all[i - |hrp| - 1]) {
      assert LowerCase(str[i]) == Encoded(hrp, values)[i] == Charset(all[i - |hrp| - 1]);
      CharsetRevTwice(str[i]);
      CharsetTwice(all[i - |hrp| - 1]);
    }
    assert Lowered(str[..|hrp|]) == Lowered(str)[..|hrp|] == hrp;
  }

  /**
    The prefix and the data of the string, or nothing (an empty prefix) exactly when the string stands for no prefix
    and data.
   */
  method Decode(str: seq<Byte>) returns (hrp: seq<Byte>, values: seq<Value>)
    ensures hrp != [] ==> Encodes(str, hrp, values)
    ensures hrp == [] ==> values == []
    ensures forall h, v :: Encodes(str, h, v) ==> h == hrp && v == values
  {
    hrp, values := [], [];
    var ok := CheckCase(str);
    if !ok { return; }
    var pos := FindLast(str, '1');
    forall h, v | Encodes(str, h, v) ensures pos == |h| && pos + 7 <= |str| { WrittenIsRead(str, h, v); }
    if |str| > 90 || pos == -1 || pos == 0 || pos + 7 > |str| { return; }
    hrp, values := DecodeAt(str, pos);
  }

  method DecodeAt(str: seq<Byte>, pos: nat) returns (hrp: seq<Byte>, values: seq<Value>)
    requires Readable(str) && |str| <= 90 && 0 < pos && pos + 7 <= |str| && str[pos] == '1'
    requires forall i :: pos < i < |str| ==> str[i] != '1'
    ensures hrp != [] ==> Encodes(str, hrp, values)
    ensures hrp == [] ==> values == []
    ensures forall h, v :: Encodes(str, h, v) ==> h == hrp && v == values
  {
    hrp, values := [], [];
    var read := ReadValues(str[pos + 1..]);
    forall h, v | Encodes(str, h, v) ensures Found(str, pos, read, h, v) { WrittenFound(str, pos, read, h, v); }
    if read.None? { return; }
    var prefix := Lower(str[..pos]);
    var verified := VerifyChecksum(prefix, read.value);
    if !verified { return; }
    ReadIsWritten(str, pos, read.value);
    hrp, values := prefix, read.value[..|read.value| - 6];
  }

  ghost predicate Found(str: seq<Byte>, pos: nat, read: Option<seq<Value>>, h: seq<Byte>, v: seq<Value>)
    requires pos <= |str|
  {
    && read.Some? && h == Lowered(str[..pos]) && read.value == v + Checksum(h, v) && |Checksum(h, v)| == 6
    && ChecksumOk(h, read.value)
  }

  lemma WrittenFound(str: seq<Byte>, pos: nat, read: Option<seq<Value>>, h: seq<Byte>, v: seq<Value>)
    requires pos < |str| && str[pos] == '1' && (forall i :: pos < i < |str| ==> str[i] != '1') && Encodes(str, h, v)
    requires read.Some? ==> Spells(str[pos + 1..], read.value)
    requires read.None? ==> Unspellable(str[pos + 1..])
    ensures Found(str, pos, read, h, v)
  {
    WrittenIsRead(str, h, v);
    assert pos == |h|;
    SpellsOne(str[pos + 1..], v + Checksum(h, v), read);
  }

  lemma SpellsOne(str: seq<Byte>, v: seq<Value>, read: Option<seq<Value>>)
    requires Spells(str, v) && (read.Some? ==> Spells(str, read.value))
    requires read.None? ==> Unspellable(str)
    ensures read == Some(v)
  {
    assert forall i :: 0 <= i < |str| ==> CharsetRev(str[i]) == Some(v[i]);
    if read.Some? {
      forall i | 0 <= i < |v| ensures v[i] == read.value[i] {
        assert Some(v[i]) == CharsetRev(str[i]) == Some(read.value[i]);
      }
      assert read.value == v;
    }
  }

  /** A printable prefix without upper-case letters, and data that fit with it in 90 characters. */
  predicate CanCarry(hrp: seq<Byte>, values: seq<Value>)
  {
    && hrp != [] && (forall i :: 0 <= i < |hrp| ==> 33 <= hrp[i] as int <= 126 && !Upper(hrp[i]))
    && |hrp| + 1 + |values| + 6 <= 90
  }

  /** Exactly these come back from the string they are encoded in. */
  method RoundTrip(hrp: seq<Byte>, values: seq<Value>) returns (str: seq<Byte>, hrp': seq<Byte>, values': seq<Value>)
    ensures hrp' != [] && hrp' == hrp && values' == values <==> CanCarry(hrp, values)
  {
    str := Encode(hrp, values);
    if CanCarry(hrp, values) { CarriedEncodes(str, hrp, values); }
    hrp', values' := Decode(str);
    if Encodes(str, hrp, values) { EncodesCarried(str, hrp, values); }
  }

  lemma CarriedEncodes(str: seq<Byte>, hrp: seq<Byte>, values: seq<Value>)
    requires str == Encoded(hrp, values) && CanCarry(hrp, values)
    ensures Encodes(str, hrp, values)
  {
    var all := Chars(values + Checksum(hrp, values));
    assert forall i {:trigger str[i]} :: |hrp| < i < |str| ==> str[i] == all[i - |hrp| - 1];
    assert Lowered(str) == str;
  }

  lemma EncodesCarried(str: seq<Byte>, hrp: seq<Byte>, values: seq<Value>)
    requires str == Encoded(hrp, values) && Encodes(str, hrp, values)
    ensures CanCarry(hrp, values)
  {
    forall i | 0 <= i < |hrp| ensures 33 <= hrp[i] as int <= 126 && !Upper(hrp[i]) {
      assert str[i] == hrp[i] && Lowered(str)[i] == LowerCase(str[i]);
    }
  }
}
