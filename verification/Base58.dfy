/**
  Base58: numbers written with 58 characters. A list of bytes and a list of base-58 digits stand for each other when
  they have the same number of leading zeros and the same value; each has exactly one partner.
 */
module Base58 {

  import opened Numbers

  type Byte = x: int | 0 <= x < 256

  datatype Option<T> = None | Some(value: T)

  // ----- Powers -----

  function Pow(b: nat, n: nat): nat
  {
    if n == 0 then 1 else Prod(b, Pow(b, n - 1))
  }

  lemma {:induction false} PowAdd(b: nat, m: nat, n: nat)
    ensures Pow(b, m + n) == Pow(b, m) * Pow(b, n)
  {
    if m > 0 {
      PowAdd(b, m - 1, n);
      MulAssoc(b, Pow(b, m - 1), Pow(b, n));
    }
  }

  lemma {:induction false} PowPositive(b: nat, n: nat)
    requires b > 0
    ensures Pow(b, n) >= 1
  {
    if n > 0 {
      PowPositive(b, n - 1);
      MulMonotone(1, b, Pow(b, n - 1));
    }
  }

  lemma {:induction false} PowGrows(b: nat, m: nat, n: nat)
    requires b > 0 && m <= n
    ensures Pow(b, m) <= Pow(b, n)
  {
    if m < n {
      PowGrows(b, m, n - 1);
      MulMonotone(1, b, Pow(b, n - 1));
    }
  }

  lemma ProductsFit(x: nat, y: nat, x': nat, y': nat, xx: nat, yy: nat, z: nat)
    requires x <= y && x' <= y' && xx == x * x' && yy == y * y' && yy <= z
    ensures xx <= z
  {
    MulMonotone(x, y, x');
    MulMonotone(x', y', y);
  }

  /** Bounds on two powers give one on their products. */
  lemma PowFits(a: nat, b: nat, m: nat, n: nat, m': nat, n': nat, r: nat)
    requires b > 0 && Pow(a, m) <= Pow(b, n) && Pow(a, m') <= Pow(b, n') && n + n' <= r
    ensures Pow(a, m + m') <= Pow(b, r)
  {
    PowAdd(a, m, m');
    PowAdd(b, n, n');
    PowGrows(b, n + n', r);
    ProductsFit(Pow(a, m), Pow(b, n), Pow(a, m'), Pow(b, n'), Pow(a, m + m'), Pow(b, n + n'), Pow(b, r));
  }

  lemma PowStep(a: nat, b: nat, k: nat, f: nat, t: nat, e: nat, r: nat)
    requires b > 0 && k <= t && Pow(a, k) <= Pow(b, f) && Pow(a, t - k) <= Pow(b, e) && f + e <= r
    ensures Pow(a, t) <= Pow(b, r)
  {
    var m := t - k;
    PowFits(a, b, k, f, m, e, r);
    assert k + m == t;
  }

  // ----- The buffers are large enough -----

  lemma EncodeRestValues()
    ensures Pow(256, 0) <= Pow(58, 1) && Pow(256, 1) <= Pow(58, 2) && Pow(256, 2) <= Pow(58, 3)
    ensures Pow(256, 3) <= Pow(58, 5) && Pow(256, 4) <= Pow(58, 6) && Pow(256, 5) <= Pow(58, 7)
  {
  }

  lemma EncodeRestLast()
    ensures Pow(256, 6) <= Pow(58, 9) && Pow(256, 7) <= Pow(58, 10)
  {
  }

  lemma EncodeRest(r: nat)
    requires r < 8
    ensures Pow(256, r) <= Pow(58, r * 138 / 100 + 1)
  {
    EncodeRestValues();
    EncodeRestLast();
    var e := r * 138 / 100 + 1;
    assert e == if r < 3 then r + 1 else if r < 6 then r + 2 else r + 3;
  }

  lemma EncodeBlock() returns (k: nat, f: nat)
    ensures 0 < k <= 8 && 100 * f <= 138 * k && Pow(256, k) <= Pow(58, f)
  {
    k, f := 8, 11;
    assert Pow(256, 8) <= Pow(58, 11);
  }

  /** n bytes need at most n * 138 / 100 + 1 digits. */
  lemma {:induction false} EncodeFits(n: nat)
    ensures Pow(256, n) <= Pow(58, n * 138 / 100 + 1)
  {
    if n < 8 {
      EncodeRest(n);
    } else {
      var k, f := EncodeBlock();
      EncodeFits(n - k);
      PowStep(256, 58, k, f, n, (n - k) * 138 / 100 + 1, n * 138 / 100 + 1);
    }
  }

  lemma DecodeRestLow()
    ensures Pow(58, 0) <= Pow(256, 0)
    ensures Pow(58, 1) <= Pow(256, 1)
    ensures Pow(58, 2) <= Pow(256, 2)
    ensures Pow(58, 3) <= Pow(256, 3)
    ensures Pow(58, 4) <= Pow(256, 3)
  {
  }

  lemma DecodeRestMiddle()
    ensures Pow(58, 5) <= Pow(256, 4)
    ensures Pow(58, 6) <= Pow(256, 5)
    ensures Pow(58, 7) <= Pow(256, 6)
    ensures Pow(58, 8) <= Pow(256, 6)
    ensures Pow(58, 9) <= Pow(256, 7)
  {
  }

  lemma DecodeRestHigh()
    ensures Pow(58, 10) <= Pow(256, 8)
    ensures Pow(58, 11) <= Pow(256, 9)
    ensures Pow(58, 12) <= Pow(256, 9)
    ensures Pow(58, 13) <= Pow(256, 10)
    ensures Pow(58, 14) <= Pow(256, 11)
  {
  }

  /** The least number of bytes for fewer than 15 digits. */
  function RestBytes(b: nat): nat
    requires b < 15
  {
    if b < 4 then b else if b < 8 then b - 1 else if b < 12 then b - 2 else b - 3
  }

  lemma DecodeRest(b: nat)
    requires b < 15
    ensures Pow(58, b) <= Pow(256, RestBytes(b))
  {
    DecodeRestLow();
    DecodeRestMiddle();
    DecodeRestHigh();
  }

  lemma DecodeFifteen() returns (k: nat, f: nat)
    ensures 14 < k < 16 && 10 < f < 12 && Pow(58, k) <= Pow(256, f)
  {
    k, f := 15, 11;
    TenDigits();
    PowAdd(58, 10, 5);
    PowAdd(256, 6, 5);
    assert Pow(58, 5) == 656356768;
    assert Pow(256, 6) == 281474976710656 && Pow(256, 5) == 1099511627776;
  }

  lemma DecodeBase(b: nat, e: nat)
    requires b < 15 && RestBytes(b) <= e
    ensures Pow(58, b) <= Pow(256, e)
  {
    var f := RestBytes(b);
    DecodeRest(b);
    PowGrows(256, f, e);
  }

  lemma {:induction false} DecodeSmall(n: nat, a: nat, b: nat, e: nat)
    requires b < 15 && n == 15 * a + b && 11 * a + RestBytes(b) <= e
    ensures Pow(58, n) <= Pow(256, e)
    decreases a
  {
    if a == 0 {
      DecodeBase(n, e);
    } else {
      var k, f := DecodeFifteen();
      DecodeSmall(n - k, a - 1, b, e - f);
      PowStep(58, 256, k, f, n, e - f, e);
    }
  }

  lemma TenDigits()
    ensures Pow(58, 10) == 430804206899405824
  {
  }

  lemma ThirteenBytes()
    ensures Pow(256, 13) == 20282409603651670423947251286016
  {
  }

  lemma DecodeBlock() returns (k: nat, f: nat)
    ensures 0 < k <= 71 && 1000 * f <= 733 * k && Pow(58, k) <= Pow(256, f)
  {
    k, f := 71, 52;
    TenDigits();
    PowAdd(58, 10, 10);
    PowAdd(58, 20, 20);
    PowAdd(58, 40, 20);
    PowAdd(58, 60, 10);
    PowAdd(58, 1, 70);
    ThirteenBytes();
    PowAdd(256, 13, 13);
    PowAdd(256, 26, 26);
    assert Pow(58, 20) == 185592264682226060569122324245118976;
    assert Pow(58, 40) == 34444488709877454747081479018851205589883534409595458615323760395288576;
    assert Pow(58, 60) == 0xb262d9ff16dda043e63e200b06b8dc5e14406f095643492c1d008c3cd05617fa83b91a331000000000000000;
    assert Pow(58, 70) ==
      0x42a80443deb070f6a6540e34ca0fd38892d9fc7d024451112c093c5a49ccf46cb49e6f8654c8fcb364966400000000000000000;
    assert Pow(58, 71) ==
      0xf1a10f76073f997e1af0b37f5c795ecf145633452837a5de3fa17ac74b86f60a0ebe5446f358940a4ca12a800000000000000000;
    assert Pow(256, 26) == 411376139330301510538742295639337626245683966408394965837152256;
    assert Pow(256, 52) ==
      0x100000000000000000000000000000000000000000000000000000000000000000000000000000000000000000000000000000000;
  }

  lemma DecodeCount(a: nat, b: nat)
    requires a < 5 && b < 15
    ensures 11 * a + RestBytes(b) <= (15 * a + b) * 733 / 1000 + 1
  {
  }

  /** n digits need at most n * 733 / 1000 + 1 bytes. */
  lemma {:induction false} DecodeFits(n: nat)
    ensures Pow(58, n) <= Pow(256, n * 733 / 1000 + 1)
  {
    if n < 71 {
      DecodeCount(n / 15, n % 15);
      DecodeSmall(n, n / 15, n % 15, n * 733 / 1000 + 1);
    } else {
      var k, f := DecodeBlock();
      DecodeFits(n - k);
      PowStep(58, 256, k, f, n, (n - k) * 733 / 1000 + 1, n * 733 / 1000 + 1);
    }
  }

  // ----- Digits -----

  /** The value of digits in base b, the first one leading. */
  function Val(b: nat, s: seq<Byte>): nat
  {
    if s == [] then 0 else Prod(s[0], Pow(b, |s| - 1)) + Val(b, s[1..])
  }

  predicate IsDigits(b: nat, s: seq<Byte>) { forall i :: 0 <= i < |s| ==> s[i] < b }

  function Zeros(s: seq<Byte>): (z: nat)
    ensures z <= |s| && (forall i :: 0 <= i < z ==> s[i] == 0) && (z < |s| ==> s[z] != 0)
  {
    if s != [] && s[0] == 0 then 1 + Zeros(s[1..]) else 0
  }

  lemma AppendDigit(d: int, p: int, b: int, v: int, e: int)
    ensures d * (b * p) + (v * b + e) == (d * p + v) * b + e
  {
    MulAdd(d * p, v, b);
    MulAssoc(d, p, b);
    MulAssoc(d, b, p);
    assert b * p == p * b;
  }

  lemma {:induction false} ValAppend(b: nat, s: seq<Byte>, e: Byte)
    ensures Val(b, s + [e]) == Val(b, s) * b + e
  {
    if s == [] {
      assert s + [e] == [e] && [e][1..] == [];
    } else {
      assert (s + [e])[1..] == s[1..] + [e];
      ValAppend(b, s[1..], e);
      AppendDigit(s[0], Pow(b, |s| - 1), b, Val(b, s[1..]), e);
    }
  }

  lemma {:induction false} ValBound(b: nat, s: seq<Byte>)
    requires IsDigits(b, s) && b > 0
    ensures Val(b, s) < Pow(b, |s|)
  {
    if s != [] {
      ValBound(b, s[1..]);
      var p := Pow(b, |s| - 1);
      MulMonotone(s[0], b - 1, p);
      MulAdd(b, -1, p);
    }
  }

  lemma {:induction false} ValSkip(b: nat, s: seq<Byte>, k: nat)
    requires k <= |s| && forall i :: 0 <= i < k ==> s[i] == 0
    ensures Val(b, s) == Val(b, s[k..])
  {
    if k == 0 {
      assert s[k..] == s;
    } else {
      ValSkip(b, s[1..], k - 1);
      assert s[1..][k - 1..] == s[k..];
    }
  }

  lemma ValPositive(b: nat, s: seq<Byte>)
    requires b > 0 && s != [] && s[0] != 0
    ensures Val(b, s) > 0
  {
    var p := Pow(b, |s| - 1);
    PowPositive(b, |s| - 1);
    MulMonotone(1, s[0], p);
  }

  lemma ValLast(b: nat, s: seq<Byte>, s': seq<Byte>)
    requires s != [] && s' == s[..|s| - 1]
    ensures Val(b, s) == Val(b, s') * b + s[|s| - 1]
  {
    assert s == s' + [s[|s| - 1]];
    ValAppend(b, s', s[|s| - 1]);
  }

  lemma LastDigit(b: nat, v: nat, d: nat, w: nat, e: nat)
    requires d < b && e < b && v * b + d == w * b + e
    ensures v == w && d == e
  {
    QuotientIs(v * b + d, b, v, d);
    QuotientIs(v * b + d, b, w, e);
  }

  lemma {:induction false} CanonicalUnique(b: nat, s: seq<Byte>, t: seq<Byte>)
    requires b > 0 && IsDigits(b, s) && IsDigits(b, t) && Val(b, s) == Val(b, t)
    requires (s == [] || s[0] != 0) && (t == [] || t[0] != 0)
    ensures s == t
    decreases |s|
  {
    if s == [] {
      if t != [] { ValPositive(b, t); }
    } else {
      ValPositive(b, s);
      var s', t' := s[..|s| - 1], t[..|t| - 1];
      ValLast(b, s, s');
      ValLast(b, t, t');
      LastDigit(b, Val(b, s'), s[|s| - 1], Val(b, t'), t[|t| - 1]);
      CanonicalUnique(b, s', t');
      assert s == s' + [s[|s| - 1]] && t == t' + [t[|t| - 1]];
    }
  }

  /** Digits are told by their value and the number of leading zeros. */
  lemma DigitsUnique(b: nat, s: seq<Byte>, t: seq<Byte>)
    requires b > 0 && IsDigits(b, s) && IsDigits(b, t) && Val(b, s) == Val(b, t) && Zeros(s) == Zeros(t)
    ensures s == t
  {
    var z := Zeros(s);
    ValSkip(b, s, z);
    ValSkip(b, t, z);
    CanonicalUnique(b, s[z..], t[z..]);
    assert s[..z] == t[..z];
    assert s == s[..z] + s[z..] && t == t[..z] + t[z..];
  }

  predicate Represents(bytes: seq<Byte>, digits: seq<Byte>)
  {
    Zeros(bytes) == Zeros(digits) && Val(256, bytes) == Val(58, digits)
  }

  // ----- The buffer -----

  /** One step of a multiplication by m with carry, in base b. */
  lemma CarryStep(b: nat, m: nat, ch: nat, v: nat, v': nat, p: nat, carry: nat, d: nat)
    requires b > 0 && v' + carry * p == v * m + ch
    ensures var c := carry + m * d; (c % b) * p + v' + (c / b) * (b * p) == (d * p + v) * m + ch
  {
    var c := carry + m * d;
    var q, r := c / b, c % b;
    assert c == q * b + r;
    MulAssoc(q, b, p);
    MulAdd(q * b, r, p);
    MulAdd(carry, m * d, p);
    MulAdd(d * p, v, m);
    MulAssoc(m, d, p);
    assert m * (d * p) == (d * p) * m;
  }

  lemma ValFrom(b: nat, s: seq<Byte>, k: nat)
    requires k < |s|
    ensures Val(b, s[k..]) == s[k] * Pow(b, |s| - k - 1) + Val(b, s[k + 1..])
  {
    assert s[k..][1..] == s[k + 1..];
  }

  /** The value of the places reached, with the carry, is the one wanted of the old places reached. */
  predicate Balanced(v: nat, carry: nat, p: nat, w: nat, m: nat, ch: nat) { v + carry * p == w * m + ch }

  /** The buffer is used up: it holds the whole number, since the number fits. */
  lemma CarryFull(v: nat, carry: nat, p: nat, w: nat, m: nat, ch: nat)
    requires Balanced(v, carry, p, w, m, ch) && w * m + ch < p
    ensures carry == 0 && v == w * m + ch
  {
    NoCarry(v, carry, p, w * m + ch);
  }

  /** The carry is used up, and only zeros are left. */
  lemma CarryEmpty(v: nat, p: nat, w: nat, m: nat, ch: nat)
    requires Balanced(v, 0, p, w, m, ch)
    ensures v == w * m + ch
  {
  }

  lemma SameValue(b: nat, s: seq<Byte>, k: nat, t: seq<Byte>)
    requires k <= |s| && t == s[k..] && forall i :: 0 <= i < k ==> s[i] == 0
    ensures Val(b, s) == Val(b, t)
  {
    ValSkip(b, s, k);
  }

  lemma NoCarry(v: nat, carry: nat, p: nat, w: int)
    requires v + carry * p == w < p
    ensures carry == 0 && v == w
  {
    if carry > 0 { MulMonotone(1, carry, p); }
  }

  /** The number in the buffer, in base b, is multiplied by m and ch is added; the number fits, so no carry is left. */
  method Absorb(buf: array<Byte>, b: nat, m: nat, ch: nat, length: nat) returns (length': nat)
    requires 0 < b <= 256 && length <= buf.Length && IsDigits(b, buf[..])
    requires forall j :: 0 <= j < buf.Length - length ==> buf[j] == 0
    requires Val(b, buf[..]) * m + ch < Pow(b, buf.Length)
    modifies buf
    ensures Val(b, buf[..]) == old(Val(b, buf[..])) * m + ch
    ensures length' <= buf.Length && IsDigits(b, buf[..])
    ensures forall j :: 0 <= j < buf.Length - length' ==> buf[j] == 0
  {
    var carry, i, n := ch, 0, buf.Length;
    ghost var was := buf[..];
    while (carry != 0 || i < length) && i < n
      invariant i <= n && carry >= 0
      invariant Balanced(Val(b, buf[n - i..]), carry, Pow(b, i), Val(b, was[n - i..]), m, ch)
      invariant forall j :: 0 <= j < n - i ==> buf[j] == was[j]
      invariant IsDigits(b, buf[..])
    {
      carry := PutDigit(buf, b, m, ch, i, carry, was);
      i := i + 1;
    }
    if i == n {
      assert buf[n - i..] == buf[..] && was[n - i..] == was;
      CarryFull(Val(b, buf[..]), carry, Pow(b, i), Val(b, was), m, ch);
    } else {
      CarryEmpty(Val(b, buf[n - i..]), Pow(b, i), Val(b, was[n - i..]), m, ch);
      SameValue(b, was, n - i, was[n - i..]);
      SameValue(b, buf[..], n - i, buf[n - i..]);
    }
    assert carry == 0;
    length' := i;
  }

  method PutDigit(buf: array<Byte>, b: nat, m: nat, ghost ch: nat, i: nat, carry: nat, ghost was: seq<Byte>)
    returns (carry': nat)
    requires 0 < b <= 256 && i < buf.Length == |was| && IsDigits(b, buf[..])
    requires Balanced(Val(b, buf[buf.Length - i..]), carry, Pow(b, i), Val(b, was[buf.Length - i..]), m, ch)
    requires forall j :: 0 <= j < buf.Length - i ==> buf[j] == was[j]
    modifies buf
    ensures Balanced(Val(b, buf[buf.Length - i - 1..]), carry', Pow(b, i + 1), Val(b, was[buf.Length - i - 1..]), m, ch)
    ensures forall j :: 0 <= j < buf.Length - i - 1 ==> buf[j] == was[j]
    ensures IsDigits(b, buf[..])
  {
    var k := buf.Length - 1 - i;
    var c := carry + Prod(m, buf[k]);
    ghost var v, v' := Val(b, was[k + 1..]), Val(b, buf[k + 1..]);
    CarryStep(b, m, ch, v, v', Pow(b, i), carry, was[k]);
    ghost var rest := buf[k + 1..];
    buf[k] := c % b;
    carry' := Quot(c, b);
    assert buf[k + 1..] == rest;
    ValFrom(b, was, k);
    ValFrom(b, buf[..], k);
    assert buf[..][k..] == buf[k..] && buf[..][k + 1..] == buf[k + 1..];
  }

  /** The digits without the leading zeros, behind the given number of zeros. */
  method Strip(buf: array<Byte>, from: nat, zeroes: nat) returns (r: seq<Byte>)
    requires from <= buf.Length && forall j :: 0 <= j < from ==> buf[j] == 0
    ensures Zeros(r) == zeroes && forall b :: Val(b, r) == Val(b, buf[..])
    ensures forall b :: IsDigits(b, buf[..]) && b > 0 ==> IsDigits(b, r)
  {
    var it := from;
    while it < buf.Length && buf[it] == 0
      invariant it <= buf.Length && forall j :: 0 <= j < it ==> buf[j] == 0
    {
      it := it + 1;
    }
    r := seq(zeroes, i => 0) + buf[it..];
    forall b ensures Val(b, r) == Val(b, buf[..]) {
      ValSkip(b, r, zeroes);
      ValSkip(b, buf[..], it);
      assert r[zeroes..] == buf[it..] == buf[..][it..];
    }
    ZerosAre(r, zeroes);
  }

  lemma {:induction false} ZerosAre(s: seq<Byte>, z: nat)
    requires z <= |s| && (forall i :: 0 <= i < z ==> s[i] == 0) && (z < |s| ==> s[z] != 0)
    ensures Zeros(s) == z
  {
    if z > 0 { ZerosAre(s[1..], z - 1); }
  }

  // ----- Characters -----

  function CharOf(d: nat): (c: char)
    requires d < 58
    ensures !IsSpace(c) && c != '\0'
  {
    match d
    case 0 => '1'
    case 1 => '2'
    case 2 => '3'
    case 3 => '4'
    case 4 => '5'
    case 5 => '6'
    case 6 => '7'
    case 7 => '8'
    case 8 => '9'
    case 9 => 'A'
    case 10 => 'B'
    case 11 => 'C'
    case 12 => 'D'
    case 13 => 'E'
    case 14 => 'F'
    case 15 => 'G'
    case 16 => 'H'
    case 17 => 'J'
    case 18 => 'K'
    case 19 => 'L'
    case 20 => 'M'
    case 21 => 'N'
    case 22 => 'P'
    case 23 => 'Q'
    case 24 => 'R'
    case 25 => 'S'
    case 26 => 'T'
    case 27 => 'U'
    case 28 => 'V'
    case 29 => 'W'
    case 30 => 'X'
    case 31 => 'Y'
    case 32 => 'Z'
    case 33 => 'a'
    case 34 => 'b'
    case 35 => 'c'
    case 36 => 'd'
    case 37 => 'e'
    case 38 => 'f'
    case 39 => 'g'
    case 40 => 'h'
    case 41 => 'i'
    case 42 => 'j'
    case 43 => 'k'
    case 44 => 'm'
    case 45 => 'n'
    case 46 => 'o'
    case 47 => 'p'
    case 48 => 'q'
    case 49 => 'r'
    case 50 => 's'
    case 51 => 't'
    case 52 => 'u'
    case 53 => 'v'
    case 54 => 'w'
    case 55 => 'x'
    case 56 => 'y'
    case _ => 'z'
  }

  /** The digit of a character, or -1. */
  function DigitOf(c: char): (d: int)
    ensures -1 <= d < 58
  {
    match c
    case '1' => 0
    case '2' => 1
    case '3' => 2
    case '4' => 3
    case '5' => 4
    case '6' => 5
    case '7' => 6
    case '8' => 7
    case '9' => 8
    case 'A' => 9
    case 'B' => 10
    case 'C' => 11
    case 'D' => 12
    case 'E' => 13
    case 'F' => 14
    case 'G' => 15
    case 'H' => 16
    case 'J' => 17
    case 'K' => 18
    case 'L' => 19
    case 'M' => 20
    case 'N' => 21
    case 'P' => 22
    case 'Q' => 23
    case 'R' => 24
    case 'S' => 25
    case 'T' => 26
    case 'U' => 27
    case 'V' => 28
    case 'W' => 29
    case 'X' => 30
    case 'Y' => 31
    case 'Z' => 32
    case 'a' => 33
    case 'b' => 34
    case 'c' => 35
    case 'd' => 36
    case 'e' => 37
    case 'f' => 38
    case 'g' => 39
    case 'h' => 40
    case 'i' => 41
    case 'j' => 42
    case 'k' => 43
    case 'm' => 44
    case 'n' => 45
    case 'o' => 46
    case 'p' => 47
    case 'q' => 48
    case 'r' => 49
    case 's' => 50
    case 't' => 51
    case 'u' => 52
    case 'v' => 53
    case 'w' => 54
    case 'x' => 55
    case 'y' => 56
    case 'z' => 57
    case _ => -1
  }

  lemma DigitOfFirst(d: nat)
    requires d < 30
    ensures DigitOf(CharOf(d)) == d
  {
  }

  lemma DigitOfLast(d: nat)
    requires 30 <= d < 58
    ensures DigitOf(CharOf(d)) == d
  {
  }

  lemma DigitOfChar(d: nat)
    requires d < 58
    ensures DigitOf(CharOf(d)) == d
  {
    if d < 30 { DigitOfFirst(d); } else { DigitOfLast(d); }
  }

  lemma CharOfDigit(c: char)
    requires DigitOf(c) != -1
    ensures CharOf(DigitOf(c)) == c
  {
  }

  predicate IsSpace(c: char) { c == ' ' || 9 <= c as int <= 13 }

  predicate IsBase58(str: string) { forall i :: 0 <= i < |str| ==> DigitOf(str[i]) != -1 }

  function DigitsOf(str: string): (r: seq<Byte>)
    requires IsBase58(str)
    ensures |r| == |str| && IsDigits(58, r)
  {
    seq(|str|, i requires 0 <= i < |str| => DigitOf(str[i]))
  }

  lemma DigitsTell(s: string, t: string)
    requires IsBase58(s) && IsBase58(t) && DigitsOf(s) == DigitsOf(t)
    ensures s == t
  {
    assert |s| == |DigitsOf(s)| == |t|;
    forall i | 0 <= i < |s| ensures s[i] == t[i] {
      assert DigitsOf(s)[i] == DigitsOf(t)[i];
      CharOfDigit(s[i]);
      CharOfDigit(t[i]);
    }
  }

  // ----- Encoding -----

  /** One more digit still fits in a buffer that is large enough for n. */
  lemma Room(b: nat, n: nat, c: nat, size: nat, s: seq<Byte>, e: Byte)
    requires b > 0 && IsDigits(b, s) && e < b && |s| < n && Pow(b, n) <= Pow(c, size)
    ensures Val(b, s) * b + e < Pow(c, size)
  {
    var t := s + [e];
    ValAppend(b, s, e);
    ValBound(b, t);
    PowGrows(b, |t|, n);
  }

  method EncodeBase58(bytes: seq<Byte>) returns (str: string)
    ensures IsBase58(str) && Represents(bytes, DigitsOf(str))
  {
    var zeroes := CountZeros(bytes);
    var digits := Convert(bytes, zeroes);
    str := Spell(digits);
  }

  method CountZeros(bytes: seq<Byte>) returns (zeroes: nat)
    ensures zeroes == Zeros(bytes)
  {
    zeroes := 0;
    while zeroes < |bytes| && bytes[zeroes] == 0
      invariant zeroes <= |bytes| && forall i :: 0 <= i < zeroes ==> bytes[i] == 0
    {
      zeroes := zeroes + 1;
    }
    ZerosAre(bytes, zeroes);
  }

  lemma EmptyBuffer(b: nat, s: seq<Byte>)
    requires forall i :: 0 <= i < |s| ==> s[i] == 0
    ensures Val(b, s) == 0
  {
    ValSkip(b, s, |s|);
  }

  lemma MoreBytes(bytes: seq<Byte>, from: nat, k: nat)
    requires from <= k < |bytes|
    ensures Val(256, bytes[from..k + 1]) == Val(256, bytes[from..k]) * 256 + bytes[k]
  {
    assert bytes[from..k + 1] == bytes[from..k] + [bytes[k]];
    ValAppend(256, bytes[from..k], bytes[k]);
  }

  method Convert(bytes: seq<Byte>, zeroes: nat) returns (digits: seq<Byte>)
    requires zeroes == Zeros(bytes)
    ensures IsDigits(58, digits) && Represents(bytes, digits)
  {
    var n := |bytes| - zeroes;
    var size := n * 138 / 100 + 1;
    EncodeFits(n);
    var buf := new Byte[size](i => 0);
    var length: nat, k: nat := 0, zeroes;
    EmptyBuffer(58, buf[..]);
    while k < |bytes|
      invariant zeroes <= k <= |bytes| && length <= size && IsDigits(58, buf[..])
      invariant Val(58, buf[..]) == Val(256, bytes[zeroes..k])
      invariant forall j :: 0 <= j < size - length ==> buf[j] == 0
    {
      Room(256, n, 58, size, bytes[zeroes..k], bytes[k]);
      MoreBytes(bytes, zeroes, k);
      length := Absorb(buf, 58, 256, bytes[k], length);
      k := k + 1;
    }
    digits := Strip(buf, size - length, zeroes);
    assert bytes[zeroes..k] == bytes[zeroes..];
    ValSkip(256, bytes, zeroes);
  }

  method Spell(digits: seq<Byte>) returns (str: string)
    requires IsDigits(58, digits)
    ensures IsBase58(str) && DigitsOf(str) == digits
  {
    str := "";
    for i := 0 to |digits|
      invariant |str| == i && forall j :: 0 <= j < i ==> DigitOf(str[j]) == digits[j]
    {
      DigitOfChar(digits[i]);
      str := str + [CharOf(digits[i])];
    }
  }

  // ----- Decoding -----

  /** The string is base-58 characters between spaces. */
  predicate Framed(psz: string, a: nat, b: nat)
  {
    && a <= b <= |psz| && (forall i :: 0 <= i < a ==> IsSpace(psz[i]))
    && (forall i :: b <= i < |psz| ==> IsSpace(psz[i]))
    && IsBase58(psz[a..b])
  }

  lemma SpaceIsNoDigit(c: char)
    requires IsSpace(c)
    ensures DigitOf(c) == -1
  {
  }

  lemma InFrame(psz: string, a: nat, b: nat, i: nat)
    requires Framed(psz, a, b) && i < |psz|
    ensures IsSpace(psz[i]) <==> i < a || b <= i
    ensures a <= i < b ==> DigitOf(psz[i]) != -1
  {
    if a <= i < b {
      assert psz[a..b][i - a] == psz[i];
      if IsSpace(psz[i]) { SpaceIsNoDigit(psz[i]); }
    }
  }

  lemma RunUnique(space: seq<bool>, a: nat, b: nat, a': nat, b': nat)
    requires a <= b <= |space| && a' <= b' <= |space|
    requires forall i :: 0 <= i < |space| ==> (space[i] <==> i < a || b <= i)
    requires forall i :: 0 <= i < a' ==> space[i]
    requires forall i :: a' <= i < b' ==> !space[i]
    requires b' < |space| ==> space[b']
    requires a' == b' ==> a' == |space|
    ensures (a == b && a' == b') || (a == a' && b == b')
    ensures forall i :: b' <= i < |space| ==> space[i]
  {
    assert a' < b' ==> !space[a'] && !space[b' - 1];
    assert a < b ==> !space[a];
  }

  /** The first run of other characters is all there can be between the spaces. */
  lemma FrameUnique(psz: string, a: nat, b: nat, a': nat, b': nat)
    requires Framed(psz, a, b) && a' <= b' <= |psz|
    requires forall i :: 0 <= i < a' ==> IsSpace(psz[i])
    requires forall i :: a' <= i < b' ==> !IsSpace(psz[i])
    requires b' < |psz| ==> IsSpace(psz[b'])
    requires a' == b' ==> a' == |psz|
    ensures psz[a..b] == psz[a'..b'] && forall i :: b' <= i < |psz| ==> IsSpace(psz[i])
  {
    var space := seq(|psz|, i requires 0 <= i < |psz| => IsSpace(psz[i]));
    forall i | 0 <= i < |psz| ensures space[i] <==> i < a || b <= i { InFrame(psz, a, b, i); }
    RunUnique(space, a, b, a', b');
    forall i | b' <= i < |psz| ensures IsSpace(psz[i]) { assert space[i]; }
  }

  /** What a C string holds of a string: the characters before the first NUL. */
  function CString(str: string): (r: string)
    ensures |r| <= |str| && r == str[..|r|] && '\0' !in r
    ensures |r| < |str| ==> str[|r|] == '\0'
  {
    if str == "" || str[0] == '\0' then "" else [str[0]] + CString(str[1..])
  }

  /** Some character is neither a space nor one of base 58. */
  predicate Foreign(psz: string) { exists j :: 0 <= j < |psz| && !IsSpace(psz[j]) && DigitOf(psz[j]) == -1 }

  lemma NoFrame(psz: string, a: nat, b: nat)
    requires Foreign(psz)
    ensures !Framed(psz, a, b)
  {
    var j :| 0 <= j < |psz| && !IsSpace(psz[j]) && DigitOf(psz[j]) == -1;
    if Framed(psz, a, b) { InFrame(psz, a, b, j); }
  }

  datatype Word = Word(end: nat, bytes: seq<Byte>)

  /** The run of characters that are no spaces, read as base-58 digits. */
  ghost predicate IsWord(psz: string, start: nat, w: Word)
  {
    && start <= w.end <= |psz| && NoSpaces(psz, start, w.end)
    && (w.end < |psz| ==> IsSpace(psz[w.end])) && IsBase58(psz[start..w.end])
    && Represents(w.bytes, DigitsOf(psz[start..w.end]))
  }

  predicate NoSpaces(psz: string, from: nat, to: nat)
    requires to <= |psz|
  {
    forall j :: from <= j < to ==> !IsSpace(psz[j])
  }

  predicate Coded(psz: string, first: nat, ds: seq<Byte>)
    requires first + |ds| <= |psz|
  {
    forall j :: 0 <= j < |ds| ==> ds[j] == DigitOf(psz[first + j])
  }

  lemma CodedMore(psz: string, first: nat, ds: seq<Byte>, i: nat, d: Byte)
    requires first <= i < |psz| && |ds| == i - first && Coded(psz, first, ds) && NoSpaces(psz, first, i)
    requires d == DigitOf(psz[i]) && !IsSpace(psz[i])
    ensures Coded(psz, first, ds + [d]) && NoSpaces(psz, first, i + 1)
  {
    forall j | 0 <= j < |ds| + 1 ensures (ds + [d])[j] == DigitOf(psz[first + j]) {
      if j == |ds| { assert psz[first + j] == psz[i]; }
    }
  }

  lemma OnlyOne(c: char)
    ensures DigitOf(c) == 0 <==> c == '1'
  {
  }

  lemma WordRead(psz: string, start: nat, first: nat, end: nat, ds: seq<Byte>, bytes: seq<Byte>)
    requires start <= first <= end <= |psz| && |ds| == end - first && IsBase58(psz[start..end])
    requires forall j :: start <= j < first ==> psz[j] == '1'
    requires first < |psz| ==> psz[first] != '1'
    requires Coded(psz, first, ds)
    requires Zeros(bytes) == first - start && Val(256, bytes) == Val(58, ds)
    ensures Represents(bytes, DigitsOf(psz[start..end]))
  {
    var all := DigitsOf(psz[start..end]);
    forall j | 0 <= j < |all| ensures all[j] == DigitOf(psz[start + j]) && (all[j] == 0 <==> psz[start + j] == '1') {
      OnlyOne(psz[start + j]);
    }
    TailIs(psz, start, first, end, ds, all);
    Partners(bytes, all, first - start);
  }

  lemma TailIs(psz: string, start: nat, first: nat, end: nat, ds: seq<Byte>, all: seq<Byte>)
    requires start <= first <= end <= |psz| && |ds| == end - first && Coded(psz, first, ds)
    requires |all| == end - start && forall j :: 0 <= j < |all| ==> all[j] == DigitOf(psz[start + j])
    ensures all[first - start..] == ds
  {
    forall j | 0 <= j < |ds| ensures all[first - start + j] == ds[j] {
      assert psz[start + (first - start + j)] == psz[first + j];
    }
  }

  lemma Partners(bytes: seq<Byte>, digits: seq<Byte>, z: nat)
    requires z <= |digits| && (forall j :: 0 <= j < z ==> digits[j] == 0) && (z < |digits| ==> digits[z] != 0)
    requires Zeros(bytes) == z && Val(256, bytes) == Val(58, digits[z..])
    ensures Represents(bytes, digits)
  {
    ZerosAre(digits, z);
    ValSkip(58, digits, z);
  }

  method ReadWord(psz: string, start: nat) returns (r: Option<Word>)
    requires start <= |psz|
    ensures r.None? ==> Foreign(psz)
    ensures r.Some? ==> IsWord(psz, start, r.value)
  {
    var i := start;
    while i < |psz| && psz[i] == '1'
      invariant start <= i <= |psz| && forall j :: start <= j < i ==> psz[j] == '1'
    {
      i := i + 1;
    }
    var first := i;
    var ok, end, bytes, ds := ReadDigits(psz, first, first - start);
    if !ok { return None; }
    WordIsBase58(psz, start, first, end, ds);
    WordRead(psz, start, first, end, ds, bytes);
    r := Some(Word(end, bytes));
  }

  method ReadDigits(psz: string, first: nat, zeroes: nat)
    returns (ok: bool, i: nat, bytes: seq<Byte>, ghost ds: seq<Byte>)
    requires first <= |psz|
    ensures !ok ==> Foreign(psz)
    ensures ok ==> first <= i <= |psz| && |ds| == i - first && (i < |psz| ==> IsSpace(psz[i]))
    ensures ok ==> NoSpaces(psz, first, i)
    ensures ok ==> Coded(psz, first, ds)
    ensures ok ==> Zeros(bytes) == zeroes && Val(256, bytes) == Val(58, ds)
  {
    var n := |psz| - first;
    var size := n * 733 / 1000 + 1;
    DecodeFits(n);
    var buf := new Byte[size](i => 0);
    EmptyBuffer(256, buf[..]);
    var length: nat := 0;
    i, bytes, ds := first, [], [];
    while i < |psz| && !IsSpace(psz[i])
      invariant first <= i <= |psz| && length <= size && |ds| == i - first && IsDigits(58, ds)
      invariant Coded(psz, first, ds)
      invariant NoSpaces(psz, first, i)
      invariant Val(256, buf[..]) == Val(58, ds)
      invariant forall j :: 0 <= j < size - length ==> buf[j] == 0
    {
      var carry := DigitOf(psz[i]);
      if carry == -1 { return false, i, [], []; }
      Room(58, n, 256, size, ds, carry);
      ValAppend(58, ds, carry);
      length := Absorb(buf, 256, 58, carry, length);
      CodedMore(psz, first, ds, i, carry);
      ds := ds + [carry];
      i := i + 1;
    }
    ok := true;
    bytes := Strip(buf, size - length, zeroes);
  }

  lemma WordIsBase58(psz: string, start: nat, first: nat, end: nat, ds: seq<Byte>)
    requires start <= first <= end <= |psz| && |ds| == end - first && NoSpaces(psz, first, end)
    requires forall j :: start <= j < first ==> psz[j] == '1'
    requires Coded(psz, first, ds)
    ensures IsBase58(psz[start..end]) && NoSpaces(psz, start, end)
  {
    forall j | start <= j < end ensures DigitOf(psz[j]) != -1 {
      if j >= first { assert ds[j - first] == DigitOf(psz[first + (j - first)]); } else { OnlyOne(psz[j]); }
    }
    forall j | 0 <= j < end - start ensures DigitOf(psz[start..end][j]) != -1 {
      assert psz[start..end][j] == psz[start + j];
    }
  }

  method SkipSpaces(psz: string, from: nat) returns (i: nat)
    requires from <= |psz|
    ensures from <= i <= |psz| && forall j :: from <= j < i ==> IsSpace(psz[j])
    ensures i < |psz| ==> !IsSpace(psz[i])
  {
    i := from;
    while i < |psz| && IsSpace(psz[i])
      invariant from <= i <= |psz| && forall j :: from <= j < i ==> IsSpace(psz[j])
    {
      i := i + 1;
    }
  }

  /**
    The bytes that the characters between the surrounding spaces represent; nothing exactly when there are other
    characters than those of base 58 between them.
   */
  method DecodeBase58(psz: string) returns (r: Option<seq<Byte>>)
    requires '\0' !in psz
    ensures r.Some? ==> exists a: nat, b: nat :: Framed(psz, a, b)
    ensures forall a: nat, b: nat :: Framed(psz, a, b) ==> r.Some? && Represents(r.value, DigitsOf(psz[a..b]))
  {
    var start := SkipSpaces(psz, 0);
    var word := ReadWord(psz, start);
    match word
    case None =>
      forall a: nat, b: nat ensures !Framed(psz, a, b) { NoFrame(psz, a, b); }
      return None;
    case Some(w) =>
      var i := SkipSpaces(psz, w.end);
      forall a: nat, b: nat | Framed(psz, a, b) ensures psz[a..b] == psz[start..w.end] && i == |psz| {
        FrameUnique(psz, a, b, start, w.end);
      }
      if i != |psz| { return None; }
      assert Framed(psz, start, w.end);
      r := Some(w.bytes);
  }

  /** A string is read up to its first NUL; what follows does not matter. */
  method DecodeBase58String(str: string) returns (r: Option<seq<Byte>>)
    ensures r.Some? ==> exists a: nat, b: nat :: Framed(CString(str), a, b)
    ensures forall a: nat, b: nat :: Framed(CString(str), a, b) ==>
      r.Some? && Represents(r.value, DigitsOf(CString(str)[a..b]))
  {
    r := DecodeBase58(CString(str));
  }

  // ----- Both ways -----

  lemma {:induction false} OwnFrame(str: string)
    requires IsBase58(str)
    ensures Framed(str, 0, |str|) && '\0' !in str
  {
    assert str[0..|str|] == str;
  }

  /** What is encoded is decoded again. */
  method DecodeEncoded(bytes: seq<Byte>) returns (str: string, r: Option<seq<Byte>>)
    ensures r == Some(bytes)
  {
    str := EncodeBase58(bytes);
    OwnFrame(str);
    r := DecodeBase58(str);
    assert str[0..|str|] == str;
    DigitsUnique(256, bytes, r.value);
  }

  /** What is decoded is encoded again, but for the spaces around. */
  method EncodeDecoded(psz: string) returns (r: Option<seq<Byte>>, str: string)
    requires '\0' !in psz
    ensures r.Some? <==> exists a: nat, b: nat :: Framed(psz, a, b)
    ensures forall a: nat, b: nat :: Framed(psz, a, b) ==> str == psz[a..b]
  {
    r := DecodeBase58(psz);
    if r.None? { return r, ""; }
    str := EncodeBase58(r.value);
    forall a: nat, b: nat | Framed(psz, a, b) ensures str == psz[a..b] { SameString(r.value, str, psz[a..b]); }
  }

  lemma SameString(bytes: seq<Byte>, s: string, t: string)
    requires IsBase58(s) && IsBase58(t) && Represents(bytes, DigitsOf(s)) && Represents(bytes, DigitsOf(t))
    ensures s == t
  {
    DigitsUnique(58, DigitsOf(s), DigitsOf(t));
    DigitsTell(s, t);
  }

  // ----- With a checksum -----

  type Hash = h: seq<Byte> | |h| == 32 witness seq(32, i => 0)

  method EncodeBase58Check(hash: seq<Byte> -> Hash, bytes: seq<Byte>) returns (str: string)
    ensures IsBase58(str) && Represents(bytes + hash(bytes)[..4], DigitsOf(str))
  {
    str := EncodeBase58(bytes + hash(bytes)[..4]);
  }

  /** Accepts exactly what an encoder of the result would write, with spaces around it. */
  method DecodeBase58Check(hash: seq<Byte> -> Hash, psz: string) returns (r: Option<seq<Byte>>)
    requires '\0' !in psz
    ensures r.Some? ==>
      exists a: nat, b: nat ::
        Framed(psz, a, b) && Represents(r.value + hash(r.value)[..4], DigitsOf(psz[a..b]))
    ensures forall a: nat, b: nat, v :: Framed(psz, a, b) && Represents(v + hash(v)[..4], DigitsOf(psz[a..b])) ==>
      r == Some(v)
  {
    var d := DecodeBase58(psz);
    forall a: nat, b: nat, v | Framed(psz, a, b) && Represents(v + hash(v)[..4], DigitsOf(psz[a..b]))
      ensures d == Some(v + hash(v)[..4])
    {
      DigitsUnique(256, d.value, v + hash(v)[..4]);
    }
    if d.None? || |d.value| < 4 { return None; }
    var n := |d.value| - 4;
    forall v | d == Some(v + hash(v)[..4]) ensures v == d.value[..n] && hash(v)[..4] == d.value[n..] {
      SplitFour(v, hash(v)[..4]);
    }
    if hash(d.value[..n])[..4] != d.value[n..] { return None; }
    r := Some(d.value[..n]);
    assert d.value == d.value[..n] + d.value[n..];
  }

  lemma SplitFour(v: seq<Byte>, h: seq<Byte>)
    requires |h| == 4
    ensures (v + h)[..|v + h| - 4] == v && (v + h)[|v + h| - 4..] == h
  {
  }

  method DecodeEncodedCheck(hash: seq<Byte> -> Hash, bytes: seq<Byte>) returns (r: Option<seq<Byte>>)
    ensures r == Some(bytes)
  {
    var str := EncodeBase58Check(hash, bytes);
    OwnFrame(str);
    assert str[0..|str|] == str;
    r := DecodeBase58Check(hash, str);
  }
}
