/** IEEE 754 binary64 values as their 64-bit patterns.

    Apart from NaN, a pattern is a sign bit and a magnitude, and comparing doubles is
    comparing signed magnitudes; the two zeros have different patterns and compare equal. */
module Doubles {
  const SIGN := 0x8000_0000_0000_0000
  const INF_BITS := 0x7FF0_0000_0000_0000

  type Double = b: int | 0 <= b < 0x1_0000_0000_0000_0000

  function Key(d: Double): int { if d < SIGN then d else SIGN - d }

  predicate IsNaN(d: Double) { (if d < SIGN then d else d - SIGN) > INF_BITS }

  // ---------- the numbers the patterns stand for ----------

  function Power(n: nat): nat { if n == 0 then 1 else 2 * Power(n - 1) }

  /** The number a magnitude stands for, in units of 2^-1074: 52 bits of fraction below 11 bits of exponent,
      with a leading one unless the exponent is zero. Infinity comes out as 2^1024. */
  function Scaled(m: nat): nat {
    var e, f := m / 0x10_0000_0000_0000, m % 0x10_0000_0000_0000;
    if e == 0 then f else (0x10_0000_0000_0000 + f) * Power(e - 1)
  }

  /** The number a double stands for, in the same units. */
  function Worth(d: Double): int { if d < SIGN then Scaled(d) else 0 - Scaled(d - SIGN) as int }

  lemma {:induction false} PowerPositive(n: nat)
    ensures Power(n) >= 1
  {
    if n > 0 { PowerPositive(n - 1); }
  }

  lemma {:induction false} PowerGrows(n: nat, m: nat)
    requires n <= m
    ensures Power(n) <= Power(m)
  {
    if n < m { PowerGrows(n, m - 1); }
  }

  lemma Product(a: nat, b: nat, c: nat, d: nat)
    requires a <= b && c <= d
    ensures a * c <= b * d
  {
    assert a * c <= b * c && b * c <= b * d;
  }

  /** With exponent `e`, a magnitude stands for less than 2^53 * 2^(e-1), and for at least 2^52 * 2^(e-1)
      unless it is zero. */
  lemma ScaledRange(m: nat)
    ensures var e := m / 0x10_0000_0000_0000;
            Scaled(m) < 0x10_0000_0000_0000 * Power(e) && (e > 0 ==> Scaled(m) >= 0x10_0000_0000_0000 * Power(e - 1))
  {
    hide Power;
    var e, f := m / 0x10_0000_0000_0000, m % 0x10_0000_0000_0000;
    if e == 0 {
      PowerPositive(0);
    } else {
      PowerPositive(e - 1);
      Doubling(e);
      var q := Power(e - 1);
      assert (0x10_0000_0000_0000 + f) * q == 0x10_0000_0000_0000 * q + f * q;
      assert f * q < 0x10_0000_0000_0000 * q by { StrictProduct(f, 0x10_0000_0000_0000, q); }
    }
  }

  lemma Doubling(e: nat)
    requires e > 0
    ensures Power(e) == 2 * Power(e - 1)
  {}

  lemma StrictProduct(a: nat, b: nat, q: nat)
    requires a < b && q >= 1
    ensures a * q < b * q
  {}

  lemma ScaledGrows(m: nat, n: nat)
    requires m < n
    ensures Scaled(m) < Scaled(n)
  {
    hide Power;
    var e, e' := m / 0x10_0000_0000_0000, n / 0x10_0000_0000_0000;
    if e == e' {
      if e > 0 {
        PowerPositive(e - 1);
        var f, g := m % 0x10_0000_0000_0000, n % 0x10_0000_0000_0000;
        StrictProduct(0x10_0000_0000_0000 + f, 0x10_0000_0000_0000 + g, Power(e - 1));
      }
    } else {
      ScaledRange(m);
      ScaledRange(n);
      PowerGrows(e, e' - 1);
      Product(0x10_0000_0000_0000, 0x10_0000_0000_0000, Power(e), Power(e' - 1));
    }
  }

  /** Comparing keys is comparing the numbers: both zeros stand for zero, negative infinity is below and
      positive infinity above every other number. */
  lemma KeyIsOrder(a: Double, b: Double)
    ensures Key(a) < Key(b) <==> Worth(a) < Worth(b)
    ensures Key(a) == Key(b) <==> Worth(a) == Worth(b)
  {
    hide Scaled;
    var m, n := if a < SIGN then a else a - SIGN, if b < SIGN then b else b - SIGN;
    ScaledZero();
    if m > 0 { ScaledGrows(0, m); }
    if n > 0 { ScaledGrows(0, n); }
    if m < n { ScaledGrows(m, n); } else if n < m { ScaledGrows(n, m); }
  }

  lemma ScaledZero()
    ensures Scaled(0) == 0
  {}

  /** NaN is what has all exponent bits set and a fraction. */
  lemma NaNBits(d: Double)
    ensures var m := d % SIGN; IsNaN(d) <==> m / 0x10_0000_0000_0000 == 0x7FF && m % 0x10_0000_0000_0000 != 0
  {}

  /** The infinities lie at both ends of all other numbers. */
  lemma InfinitiesAtTheEnds(d: Double)
    requires !IsNaN(d)
    ensures d != INF_BITS ==> Worth(d) < Worth(INF_BITS)
    ensures d != SIGN + INF_BITS ==> Worth(SIGN + INF_BITS) < Worth(d)
  {
    hide Worth;
    KeyIsOrder(d, INF_BITS);
    KeyIsOrder(SIGN + INF_BITS, d);
  }
}
