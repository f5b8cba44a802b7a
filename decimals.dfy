/** `java.math.BigDecimal` as far as the valuation engine uses it: exact
    products, sums and differences, and `setScale(2, RoundingMode.HALF_UP)`.
    A decimal is an unscaled integer and a scale; its value is
    unscaled / 10^scale. Every amount the store keeps is at scale 2, so it is
    held as its unscaled value, a number of hundredths (`Cents`). */
module Decimals {
  import opened Text

  datatype Decimal = Decimal(unscaled: int, scale: nat)

  /** An amount at scale 2, as its number of hundredths. */
  type Cents = int

  const Zero: Decimal := Decimal(0, 0)   // BigDecimal.ZERO

  /** The hundredths `c` as a scale-2 decimal. */
  function FromCents(c: Cents): Decimal {
    Decimal(c, 2)
  }

  /** `BigDecimal.multiply`: exact, the scales add up. */
  function Mul(a: Decimal, b: Decimal): Decimal {
    Decimal(a.unscaled * b.unscaled, a.scale + b.scale)
  }

  function Max(a: nat, b: nat): nat {
    if a < b then b else a
  }

  /** The unscaled value of `a` rewritten at the larger scale `s`. */
  function Rescale(a: Decimal, s: nat): int
    requires a.scale <= s
  {
    a.unscaled * Pow10(s - a.scale)
  }

  /** `BigDecimal.add`: exact, at the larger of the two scales. */
  function Add(a: Decimal, b: Decimal): Decimal {
    var s := Max(a.scale, b.scale);
    Decimal(Rescale(a, s) + Rescale(b, s), s)
  }

  /** `BigDecimal.subtract`: exact, at the larger of the two scales. */
  function Sub(a: Decimal, b: Decimal): Decimal {
    var s := Max(a.scale, b.scale);
    Decimal(Rescale(a, s) - Rescale(b, s), s)
  }

  /** n / d rounded to the nearest integer, halves rounded away from zero
      (`RoundingMode.HALF_UP`). */
  function RoundHalfUp(n: int, d: int): (r: int)
    requires d > 0
    ensures n >= 0 ==> r >= 0 && -d <= 2 * (n - r * d) < d
    ensures n < 0 ==> r <= 0 && -d < 2 * (n - r * d) <= d
  {
    if n >= 0 then
      var q := (2 * n + d) / (2 * d);
      DivBounds(2 * n + d, 2 * d);
      q
    else
      var q := (2 * -n + d) / (2 * d);
      DivBounds(2 * -n + d, 2 * d);
      -q
  }

  lemma DivBounds(a: int, b: int)
    requires a >= 0 && b > 0
    ensures b * (a / b) <= a < b * (a / b) + b
  {
  }

  /** `setScale(2, RoundingMode.HALF_UP)`: exact when the scale is at most 2,
      otherwise rounded half away from zero to the nearest hundredth. The
      result is within half a hundredth of the value, and at an exact tie it
      is the neighbour further from zero. */
  function SetScale2(x: Decimal): (r: Cents)
    ensures x.unscaled >= 0 ==> 0 - Pow10(x.scale) <= 2 * (100 * x.unscaled - r * Pow10(x.scale)) < Pow10(x.scale)
    ensures x.unscaled < 0 ==> 0 - Pow10(x.scale) < 2 * (100 * x.unscaled - r * Pow10(x.scale)) <= Pow10(x.scale)
    ensures x.scale <= 2 ==> r * Pow10(x.scale) == 100 * x.unscaled
    ensures x.unscaled >= 0 ==> r >= 0
    ensures x.unscaled <= 0 ==> r <= 0
  {
    if x.scale <= 2 then
      ExactRescale(x.unscaled, x.scale);
      x.unscaled * Pow10(2 - x.scale)
    else
      var d := Pow10(x.scale - 2);
      var r := RoundHalfUp(x.unscaled, d);
      RoundToHundredth(x.unscaled, x.scale, r);
      r
  }

  lemma ExactRescale(u: int, s: nat)
    requires s <= 2
    ensures var r := u * Pow10(2 - s); r * Pow10(s) == 100 * u && (u >= 0 ==> r >= 0) && (u <= 0 ==> r <= 0)
  {
    assert Pow10(1) == 10 && Pow10(2) == 100;
    if s == 0 { assert Pow10(2 - s) == 100; }
    else if s == 1 { assert Pow10(2 - s) == 10; }
    else { assert Pow10(2 - s) == 1; }
  }

  lemma RoundToHundredth(u: int, s: nat, r: int)
    requires s > 2 && r == RoundHalfUp(u, Pow10(s - 2))
    ensures u >= 0 ==> 0 - Pow10(s) <= 2 * (100 * u - r * Pow10(s)) < Pow10(s)
    ensures u < 0 ==> 0 - Pow10(s) < 2 * (100 * u - r * Pow10(s)) <= Pow10(s)
    ensures u >= 0 ==> r >= 0
    ensures u <= 0 ==> r <= 0
  {
    var d, p := Pow10(s - 2), Pow10(s);
    Pow10Split(s);
    assert r == RoundHalfUp(u, d);
    NearestHundredth(u, r, d, p);
  }

  lemma Pow10Split(s: nat)
    requires s >= 2
    ensures Pow10(s) == 100 * Pow10(s - 2)
  {
    if s > 2 { Pow10Split(s - 1); }
  }

  lemma NearestHundredth(u: int, r: int, d: int, p: int)
    requires d > 0 && p == 100 * d
    requires u >= 0 ==> -d <= 2 * (u - r * d) < d
    requires u < 0 ==> -d < 2 * (u - r * d) <= d
    ensures u >= 0 ==> -p <= 2 * (100 * u - r * p) < p
    ensures u < 0 ==> -p < 2 * (100 * u - r * p) <= p
    ensures u == 0 ==> r == 0
  {
    var e := 2 * (u - r * d);
    assert 2 * (100 * u - r * p) == 100 * e;
  }

  /** Re-applying `setScale(2, HALF_UP)` to an amount already at scale 2
      changes nothing. */
  lemma SetScale2Idempotent(c: Cents)
    ensures SetScale2(FromCents(c)) == c
  {
  }

  /** Adding amounts at scale 2 is exact at scale 2; adding to `ZERO` gives
      the amount back. */
  lemma AddCents(a: Cents, b: Cents)
    ensures Add(FromCents(a), FromCents(b)) == FromCents(a + b)
    ensures Add(Zero, FromCents(b)) == FromCents(b)
  {
    assert Pow10(0) == 1;
    assert Pow10(2) == 100;
  }

  /** Rounding is exact on multiples. */
  lemma RoundHalfUpExact(m: int, d: int)
    requires d > 0
    ensures RoundHalfUp(m * d, d) == m
  {
    var r := RoundHalfUp(m * d, d);
    assert m * d - r * d == (m - r) * d;
    MulSign(m - r, d);
  }

  lemma MulSign(k: int, d: int)
    requires d > 0
    ensures k >= 1 ==> k * d >= d
    ensures k <= -1 ==> k * d <= -d
  {
  }
}
