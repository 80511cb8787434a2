/** Facts about products, quotients and powers that several components need. */
module Numbers {

  lemma {:induction false} MulNonNegative(x: int, y: int)
    requires x >= 0 && y >= 0
    ensures x * y >= 0
  {
    if x > 0 { MulNonNegative(x - 1, y); }
  }

  lemma MulMonotone(a: int, b: int, d: int)
    requires a <= b && d >= 0
    ensures a * d <= b * d
  {
    MulNonNegative(b - a, d);
    assert (b - a) * d == b * d - a * d;
  }

  lemma MulAdd(x: int, y: int, p: int)
    ensures (x + y) * p == x * p + y * p
  {
  }

  lemma MulAssoc(x: int, y: int, z: int)
    ensures x * (y * z) == (x * y) * z
  {
  }

  /** Euclidean division has one answer. */
  lemma QuotientIs(a: int, d: int, q: int, r: int)
    requires d > 0 && a == q * d + r && 0 <= r < d
    ensures a / d == q && a % d == r
  {
    var q', r' := a / d, a % d;
    if q < q' {
      assert (q + 1) * d == q * d + d;
      MulMonotone(q + 1, q', d);
    } else if q' < q {
      assert (q' + 1) * d == q' * d + d;
      MulMonotone(q' + 1, q, d);
    }
  }

  lemma DivMonotone(a: int, b: int, d: int)
    requires a <= b && d > 0
    ensures a / d <= b / d
  {
    assert a == (a / d) * d + a % d && b == (b / d) * d + b % d;
    assert (b / d + 1) * d == (b / d) * d + d;
    if b / d < a / d { MulMonotone(b / d + 1, a / d, d); }
  }

  lemma DivPlus(a: int, d: int, k: int)
    requires d > 0
    ensures (a + k * d) / d == a / d + k && (a + k * d) % d == a % d
  {
    assert (a / d + k) * d == (a / d) * d + k * d;
    QuotientIs(a + k * d, d, a / d + k, a % d);
  }

  /** A 32-bit number, read as a fraction of 2^32, scaled to a range. */
  function Scaled(x: nat, n: nat): (r: nat)
    requires x < 0x1_0000_0000 && n > 0
    ensures r < n
  {
    MulMonotone(x, 0x1_0000_0000 - 1, n);
    DivMonotone(x * n, n * 0x1_0000_0000 - 1, 0x1_0000_0000);
    x * n / 0x1_0000_0000
  }

  /** Division and multiplication of natural numbers. */
  function Quot(x: nat, d: nat): (q: nat)
    requires d > 0
    ensures q == x / d
  {
    DivMonotone(0, x, d);
    x / d
  }

  function Prod(x: nat, y: nat): (p: nat)
    ensures p == x * y
  {
    MulNonNegative(x, y);
    x * y
  }

  function Pow2(h: nat): (r: nat)
    ensures r > 0
  {
    if h == 0 then 1 else 2 * Pow2(h - 1)
  }

  /** The binary logarithm, rounded down. */
  function Log2(n: nat): (r: nat)
    requires n > 0
    ensures Pow2(r) <= n < 2 * Pow2(r)
  {
    if n == 1 then 0 else 1 + Log2(n / 2)
  }

  lemma {:induction false} Pow2Grows(i: nat, j: nat)
    requires i <= j
    ensures Pow2(i) <= Pow2(j)
  {
    if i < j { Pow2Grows(i, j - 1); }
  }

  lemma Log2Bound(j: nat, n: nat)
    requires n > 0 && Pow2(j) <= n
    ensures j <= Log2(n)
  {
    if j > Log2(n) { Pow2Grows(Log2(n) + 1, j); }
  }
}
