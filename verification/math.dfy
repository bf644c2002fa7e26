/** Angle helpers of the library: unit-tagged degrees and radians, the
    trigonometric functions in the units they expect, and a true modulo.

    The transcendental functions are not defined here: they are supplied as a
    `Trig` value, and `Trig.Valid()` states the only facts the model relies on
    (their standard ranges, and sin^2 + cos^2 = 1). The number pi is part of
    that value too and is known only to be positive. */
module Math {
  import opened Wrappers

  /** An angle measured in degrees. */
  newtype Degrees = real

  /** An angle measured in radians. */
  newtype Radians = real

  type PositiveReal = x: real | x > 0.0 witness 1.0

  /** The host's transcendental functions. */
  datatype Trig = Trig(
    pi: PositiveReal,
    sin: Radians -> real,
    cos: Radians -> real,
    tan: Radians -> real,
    asin: real -> Radians,
    acos: real -> Radians,
    atan2: (real, real) -> Radians)
  {
    /** The standard facts about the functions, and nothing more. */
    ghost predicate Valid() {
      && (forall x :: -1.0 <= sin(x) <= 1.0)
      && (forall x :: -1.0 <= cos(x) <= 1.0)
      && (forall x :: sin(x) * sin(x) + cos(x) * cos(x) == 1.0)
      && (forall x | -1.0 <= x <= 1.0 :: -(pi / 2.0) <= asin(x) as real <= pi / 2.0)
      && (forall x | -1.0 <= x <= 1.0 :: 0.0 <= acos(x) as real <= pi)
      && (forall y, x :: -(pi as real) <= atan2(y, x) as real <= pi)
    }
  }

  /* ---------------------------------------------------------------------
     Unit conversion
     --------------------------------------------------------------------- */

  /** Radians to degrees, `x * 180 / pi`. */
  function Deg(t: Trig, x: Radians): (r: Degrees)
    ensures r as real * t.pi == x as real * 180.0
  {
    ((x as real * 180.0) / t.pi) as Degrees
  }

  /** Degrees to radians, `x * pi / 180`. */
  function Rad(t: Trig, x: Degrees): (r: Radians)
    ensures r as real * 180.0 == x as real * t.pi
  {
    ((x as real * t.pi) / 180.0) as Radians
  }

  lemma DegOfRad(t: Trig, x: Degrees)
    ensures Deg(t, Rad(t, x)) == x
  {
    var r := Rad(t, x);
    assert Deg(t, r) as real * t.pi == x as real * t.pi;
  }

  lemma RadOfDeg(t: Trig, x: Radians)
    ensures Rad(t, Deg(t, x)) == x
  {
    var d := Deg(t, x);
    assert Rad(t, d) as real * 180.0 * t.pi == x as real * 180.0 * t.pi;
  }

  /** Deg is strictly increasing, so it preserves and reflects order. */
  lemma DegStrictlyIncreasing(t: Trig, a: Radians, b: Radians)
    ensures a < b <==> Deg(t, a) < Deg(t, b)
  {
    var da, db := Deg(t, a) as real, Deg(t, b) as real;
    assert (db - da) * t.pi == (b as real - a as real) * 180.0;
  }

  /** k half-turns of pi radians are k times 180 degrees. */
  lemma DegOfMultiple(t: Trig, k: real, x: Radians)
    requires x as real == k * t.pi
    ensures Deg(t, x) as real == k * 180.0
  {
    var r := Deg(t, x) as real;
    assert (r - k * 180.0) * t.pi == 0.0;
  }

  /** Deg maps the range of atan2, [-pi, pi], onto [-180, 180]. */
  lemma DegOnAtan2Range(t: Trig, x: Radians)
    ensures -(t.pi as real) <= x as real <= t.pi <==> -180.0 <= Deg(t, x) as real <= 180.0
  {
    var hi, lo := t.pi as Radians, (-(t.pi as real)) as Radians;
    DegStrictlyIncreasing(t, x, hi);
    DegStrictlyIncreasing(t, hi, x);
    DegStrictlyIncreasing(t, lo, x);
    DegStrictlyIncreasing(t, x, lo);
    DegOfMultiple(t, 1.0, hi);
    DegOfMultiple(t, -1.0, lo);
  }

  /** Deg maps the range of acos, [0, pi], onto [0, 180]. */
  lemma DegOnAcosRange(t: Trig, x: Radians)
    ensures 0.0 <= x as real <= t.pi <==> 0.0 <= Deg(t, x) as real <= 180.0
  {
    var hi := t.pi as Radians;
    DegStrictlyIncreasing(t, x, hi);
    DegStrictlyIncreasing(t, hi, x);
    DegStrictlyIncreasing(t, 0.0, x);
    DegStrictlyIncreasing(t, x, 0.0);
    DegOfMultiple(t, 1.0, hi);
    DegOfMultiple(t, 0.0, 0.0);
  }

  /** Deg maps the range of asin, [-pi/2, pi/2], onto [-90, 90]. */
  lemma DegOnAsinRange(t: Trig, x: Radians)
    ensures -(t.pi / 2.0) <= x as real <= t.pi / 2.0 <==> -90.0 <= Deg(t, x) as real <= 90.0
  {
    var hi, lo := (t.pi / 2.0) as Radians, (-(t.pi / 2.0)) as Radians;
    DegStrictlyIncreasing(t, x, hi);
    DegStrictlyIncreasing(t, hi, x);
    DegStrictlyIncreasing(t, lo, x);
    DegStrictlyIncreasing(t, x, lo);
    DegOfMultiple(t, 0.5, hi);
    DegOfMultiple(t, -0.5, lo);
  }

  /** Every degree value in [-180, 180] is Deg of some radian value in [-pi, pi]. */
  lemma DegOntoAtan2Range(t: Trig, d: Degrees)
    requires -180.0 <= d as real <= 180.0
    ensures -(t.pi as real) <= Rad(t, d) as real <= t.pi && Deg(t, Rad(t, d)) == d
  {
    DegOfRad(t, d);
    DegOnAtan2Range(t, Rad(t, d));
  }

  /* ---------------------------------------------------------------------
     Trigonometric functions
     --------------------------------------------------------------------- */

  function Sin(t: Trig, x: Radians): (r: real)
    requires t.Valid()
    ensures -1.0 <= r <= 1.0
  {
    t.sin(x)
  }

  function Cos(t: Trig, x: Radians): (r: real)
    requires t.Valid()
    ensures -1.0 <= r <= 1.0
  {
    t.cos(x)
  }

  lemma Pythagoras(t: Trig, x: Radians)
    requires t.Valid()
    ensures Sin(t, x) * Sin(t, x) + Cos(t, x) * Cos(t, x) == 1.0
  {
  }

  function Tan(t: Trig, x: Radians): real
  {
    t.tan(x)
  }

  /** Inverse sine; None stands for the NaN the host returns outside [-1, 1]. */
  function Asin(t: Trig, x: real): (r: Option<Radians>)
    requires t.Valid()
    ensures r.Some? <==> -1.0 <= x <= 1.0
    ensures r.Some? ==> -(t.pi / 2.0) <= r.value as real <= t.pi / 2.0
  {
    if -1.0 <= x <= 1.0 then Some(t.asin(x)) else None
  }

  /** Inverse cosine; None stands for the NaN the host returns outside [-1, 1]. */
  function Acos(t: Trig, x: real): (r: Option<Radians>)
    requires t.Valid()
    ensures r.Some? <==> -1.0 <= x <= 1.0
    ensures r.Some? ==> 0.0 <= r.value as real <= t.pi
  {
    if -1.0 <= x <= 1.0 then Some(t.acos(x)) else None
  }

  function Atan2(t: Trig, y: real, x: real): (r: Radians)
    requires t.Valid()
    ensures -(t.pi as real) <= r as real <= t.pi
  {
    t.atan2(y, x)
  }

  /** The product of two values in [-1, 1] stays in [-1, 1]. */
  lemma UnitProduct(a: real, b: real)
    requires -1.0 <= a <= 1.0 && -1.0 <= b <= 1.0
    ensures -1.0 <= a * b <= 1.0
  {
    if a >= 0.0 {
      assert a * b <= a * 1.0 && a * b >= a * -1.0;
    } else {
      assert a * b <= -a * 1.0 && a * b >= a * 1.0;
    }
  }

  /** With a^2 + b^2 = 1, c^2 + d^2 = 1 and |e| <= 1, the combination
      a c + b d e lies in [-1, 1]: each product is bounded by half the sum of
      squares of its factors. */
  lemma UnitCombination(a: real, b: real, c: real, d: real, e: real)
    requires a * a + b * b == 1.0 && c * c + d * d == 1.0
    requires -1.0 <= e <= 1.0
    ensures -1.0 <= a * c + b * d * e <= 1.0
  {
    ScaledSquareBound(d, e);
    TwiceProductBound(a, c);
    TwiceProductBound(b, d * e);
    HalfSumBound(a * c, b * (d * e), a * a, b * b, c * c, d * d, (d * e) * (d * e));
    assert b * d * e == b * (d * e);
  }

  /** The linear core of UnitCombination, over the products taken as unknowns. */
  lemma HalfSumBound(ac: real, bw: real, aa: real, bb: real, cc: real, dd: real, ww: real)
    requires -(aa + cc) <= 2.0 * ac <= aa + cc
    requires -(bb + ww) <= 2.0 * bw <= bb + ww
    requires ww <= dd && aa + bb == 1.0 && cc + dd == 1.0
    ensures -1.0 <= ac + bw <= 1.0
  {
  }

  /** Scaling by a factor in [-1, 1] does not increase a square. */
  lemma ScaledSquareBound(d: real, e: real)
    requires -1.0 <= e <= 1.0
    ensures (d * e) * (d * e) <= d * d
  {
    UnitProduct(e, e);
    SquareNonNegative(d);
    NonNegativeProduct(d * d, 1.0 - e * e);
    assert (d * e) * (d * e) == (d * d) * (e * e);
  }

  /** |2 x y| <= x^2 + y^2. */
  lemma TwiceProductBound(x: real, y: real)
    ensures -(x * x + y * y) <= 2.0 * (x * y) <= x * x + y * y
  {
    SquareNonNegative(x - y);
    SquareNonNegative(x + y);
    assert (x - y) * (x - y) == x * x - 2.0 * (x * y) + y * y;
    assert (x + y) * (x + y) == x * x + 2.0 * (x * y) + y * y;
  }

  lemma SquareNonNegative(x: real)
    ensures x * x >= 0.0
  {
    if x < 0.0 {
      NonNegativeProduct(-x, -x);
    } else {
      NonNegativeProduct(x, x);
    }
  }

  lemma NonNegativeProduct(x: real, y: real)
    requires x >= 0.0 && y >= 0.0
    ensures x * y >= 0.0
  {
  }

  /* ---------------------------------------------------------------------
     Integer parts and remainders, as the host computes them
     --------------------------------------------------------------------- */

  predicate IsInteger(x: real) {
    x.Floor as real == x
  }

  /** The integer k is the floor of y exactly when k <= y < k + 1. */
  lemma FloorUnique(y: real, k: int)
    ensures y.Floor == k <==> k as real <= y < k as real + 1.0
  {
  }

  /** Truncation toward zero, as the host applies when it makes a number an
      integer (a Date's time value, and the quotient inside `%`). */
  function Trunc(x: real): (r: int)
    ensures x >= 0.0 ==> r as real <= x < r as real + 1.0
    ensures x < 0.0 ==> r as real - 1.0 < x <= r as real
  {
    if x >= 0.0 then x.Floor else -((-x).Floor)
  }

  lemma TruncOfInteger(k: int)
    ensures Trunc(k as real) == k
  {
  }

  lemma TruncOfNegative(x: real, k: int)
    requires x < 0.0 && k as real - 1.0 < x <= k as real
    ensures Trunc(x) == k
  {
  }

  lemma TruncMonotone(x: real, y: real)
    requires x <= y
    ensures Trunc(x) <= Trunc(y)
  {
  }

  /** Rounding to the nearest integer with halves rounded up, `floor(x + 1/2)`. */
  function Round(x: real): (r: int)
    ensures x - 0.5 < r as real <= x + 0.5
  {
    (x + 0.5).Floor
  }

  /** Round(x) is the only integer within half a unit of x on the upper-closed side. */
  lemma RoundUnique(x: real, k: int)
    ensures k == Round(x) <==> x - 0.5 < k as real <= x + 0.5
  {
    FloorUnique(x + 0.5, k);
  }

  /** Halves go up, also for negative numbers: -2.5 rounds to -2, not -3. */
  lemma RoundHalfUp()
    ensures Round(2.5) == 3 && Round(-2.5) == -2 && Round(-2.6) == -3
  {
    RoundUnique(2.5, 3);
    RoundUnique(-2.5, -2);
    RoundUnique(-2.6, -3);
  }

  /** The host's `%`: a remainder that takes the sign of the dividend. */
  function Rem(m: real, n: real): (r: real)
    requires n != 0.0
    ensures n > 0.0 && m >= 0.0 ==> 0.0 <= r < n
    ensures n > 0.0 && m < 0.0 ==> -n < r <= 0.0
    ensures n > 0.0 ==> IsInteger((m - r) / n)
  {
    var q := Trunc(m / n);
    assert n > 0.0 ==> -n < m - n * q as real < n by {
      if n > 0.0 {
        DivBounds(m, n, q);
      }
    }
    WholeQuotient(m, n, q);
    m - n * q as real
  }

  /** Taking off q whole moduli leaves a difference of exactly q moduli. */
  lemma WholeQuotient(m: real, n: real, q: int)
    requires n != 0.0
    ensures IsInteger((m - (m - n * q as real)) / n)
  {
    var k := q as real;
    assert (m - (m - n * q as real)) / n == k;
    assert k.Floor == q;
  }

  /** Multiplying out the bounds of a quotient by a positive divisor. */
  lemma DivBounds(m: real, n: real, q: int)
    requires n > 0.0
    ensures q as real <= m / n ==> n * q as real <= m
    ensures m / n < q as real + 1.0 ==> m < n * q as real + n
    ensures q as real - 1.0 < m / n ==> n * q as real - n < m
    ensures m / n <= q as real ==> m <= n * q as real
  {
    var k := q as real;
    if k <= m / n {
      AtMostQuotient(m, n, k);
    }
    if m / n < k + 1.0 {
      BelowQuotient(m, n, k + 1.0);
      Distribute(n, k, 1.0);
    }
    if k - 1.0 < m / n {
      AboveQuotient(m, n, k - 1.0);
      Distribute(n, k, -1.0);
    }
    if m / n <= k {
      AtLeastQuotient(m, n, k);
    }
  }

  lemma AtMostQuotient(m: real, n: real, a: real)
    requires n > 0.0 && a <= m / n
    ensures n * a <= m
  {
    MulQuotient(m, n);
    ScaleWeak(n, a, m / n);
  }

  lemma AtLeastQuotient(m: real, n: real, a: real)
    requires n > 0.0 && m / n <= a
    ensures m <= n * a
  {
    MulQuotient(m, n);
    ScaleWeak(n, m / n, a);
  }

  lemma BelowQuotient(m: real, n: real, a: real)
    requires n > 0.0 && m / n < a
    ensures m < n * a
  {
    MulQuotient(m, n);
    ScaleStrict(n, m / n, a);
  }

  lemma AboveQuotient(m: real, n: real, a: real)
    requires n > 0.0 && a < m / n
    ensures n * a < m
  {
    MulQuotient(m, n);
    ScaleStrict(n, a, m / n);
  }

  lemma MulQuotient(m: real, n: real)
    requires n != 0.0
    ensures n * (m / n) == m
  {
  }

  lemma Distribute(n: real, a: real, b: real)
    ensures n * (a + b) == n * a + n * b
  {
  }

  /** Dividing out the bounds of a product by a positive divisor. */
  lemma QuotientBounds(m: real, n: real, a: real)
    requires n > 0.0
    ensures n * a <= m ==> a <= m / n
    ensures m < n * a ==> m / n < a
  {
    var x := m / n;
    MulQuotient(m, n);
    if x < a {
      ScaleStrict(n, x, a);
    }
    if a <= x {
      ScaleWeak(n, a, x);
    }
  }

  /** Multiplying both sides of a comparison by a positive number keeps it. */
  lemma ScaleStrict(n: real, x: real, y: real)
    requires n > 0.0 && x < y
    ensures n * x < n * y
  {
    Distribute(n, x, y - x);
    PositiveProduct(n, y - x);
  }

  lemma ScaleWeak(n: real, x: real, y: real)
    requires n > 0.0 && x <= y
    ensures n * x <= n * y
  {
    Distribute(n, x, y - x);
    NonNegativeProduct(n, y - x);
  }

  lemma PositiveProduct(x: real, y: real)
    requires x > 0.0 && y > 0.0
    ensures x * y > 0.0
  {
  }

  /** The library's true modulo, `((m % n) + n) % n`. For a positive modulus
      it agrees with the reference definition, so the result lies in [0, n)
      whatever the sign of m and differs from m by a whole number of moduli. */
  function Mod(m: real, n: real): (r: real)
    requires n != 0.0
    ensures n > 0.0 ==> r == FloorMod(m, n)
    ensures n > 0.0 ==> 0.0 <= r < n
    ensures n > 0.0 ==> IsInteger((m - r) / n)
  {
    var r := Rem(Rem(m, n) + n, n);
    assert n > 0.0 ==> r == FloorMod(m, n) by {
      if n > 0.0 {
        RemRemIsFloorMod(m, n);
      }
    }
    r
  }

  /** The reference definition of a true modulo: m minus the largest multiple
      of n not above it. */
  function FloorMod(m: real, n: real): (r: real)
    requires n > 0.0
    ensures 0.0 <= r < n
    ensures IsInteger((m - r) / n)
  {
    var f := (m / n).Floor;
    DivBounds(m, n, f);
    assert (m - (m - n * f as real)) / n == f as real;
    m - n * f as real
  }

  /** If x lies in [0, n), neither `%` nor the modulo moves it. */
  lemma RemOfSmall(x: real, n: real)
    requires n > 0.0 && 0.0 <= x < n
    ensures Rem(x, n) == x
  {
    QuotientBounds(x, n, 0.0);
    QuotientBounds(x, n, 1.0);
    FloorUnique(x / n, 0);
  }

  /** If x lies in [n, 2n), `%` subtracts n once. */
  lemma RemOfOneTurn(x: real, n: real)
    requires n > 0.0 && n <= x < 2.0 * n
    ensures Rem(x, n) == x - n
  {
    QuotientBounds(x, n, 1.0);
    QuotientBounds(x, n, 2.0);
    FloorUnique(x / n, 1);
  }

  /** `%` takes off exactly the truncated quotient's worth of moduli. */
  lemma RemByQuotient(m: real, n: real, q: int)
    requires n != 0.0 && Trunc(m / n) == q
    ensures Rem(m, n) == m - n * q as real
  {
  }

  /** `((m % n) + n) % n` agrees with the reference definition for every m. */
  lemma RemRemIsFloorMod(m: real, n: real)
    requires n > 0.0
    ensures Rem(Rem(m, n) + n, n) == FloorMod(m, n)
  {
    if m / n >= 0.0 {
      RemRemOfNonNegative(m, n);
    } else {
      RemRemOfNegative(m, n);
    }
  }

  lemma RemRemOfNonNegative(m: real, n: real)
    requires n > 0.0 && m / n >= 0.0
    ensures Rem(Rem(m, n) + n, n) == FloorMod(m, n)
  {
    var f := (m / n).Floor;
    assert Trunc(m / n) == f;
    var r1 := m - n * f as real;
    RemByQuotient(m, n, f);
    FloorModByQuotient(m, n, f);
    RemOfOneTurn(r1 + n, n);
  }

  lemma RemRemOfNegative(m: real, n: real)
    requires n > 0.0 && m / n < 0.0
    ensures Rem(Rem(m, n) + n, n) == FloorMod(m, n)
  {
    var g := (-(m / n)).Floor;
    if -g as real == m / n {
      RemRemOfNegativeWhole(m, n, g);
    } else {
      RemRemOfNegativeFraction(m, n, g);
    }
  }

  /** A negative whole multiple of n: `%` gives 0, and so does the modulo. */
  lemma RemRemOfNegativeWhole(m: real, n: real, g: int)
    requires n > 0.0 && m / n == -g as real
    ensures Rem(Rem(m, n) + n, n) == FloorMod(m, n)
  {
    TruncOfInteger(-g);
    RemByQuotient(m, n, -g);
    FloorUnique(m / n, -g);
    FloorModByQuotient(m, n, -g);
    assert m == n * (m / n);
    RemOfOneTurn(n, n);
  }

  /** A negative m that is no whole multiple of n: `%` lands in (-n, 0), and
      adding n brings it into [0, n). */
  lemma RemRemOfNegativeFraction(m: real, n: real, g: int)
    requires n > 0.0 && m / n < 0.0 && -g as real - 1.0 < m / n < -g as real
    ensures Rem(Rem(m, n) + n, n) == FloorMod(m, n)
  {
    var k := (-g) as real;
    TruncOfNegative(m / n, -g);
    RemByQuotient(m, n, -g);
    FloorUnique(m / n, -g - 1);
    FloorModByQuotient(m, n, -g - 1);
    BelowQuotient(m, n, k);
    AboveQuotient(m, n, k - 1.0);
    Distribute(n, k, -1.0);
    var r1 := m - n * k;
    assert Rem(m, n) == r1;
    assert 0.0 <= r1 + n < n;
    RemOfSmall(r1 + n, n);
    assert Rem(Rem(m, n) + n, n) == r1 + n;
    assert FloorMod(m, n) == r1 + n;
  }

  /** The reference modulo takes off exactly the floor quotient's worth of
      moduli. */
  lemma FloorModByQuotient(m: real, n: real, f: int)
    requires n > 0.0 && (m / n).Floor == f
    ensures FloorMod(m, n) == m - n * f as real
  {
  }

  /** The reference modulo leaves [0, n) alone. */
  lemma FloorModOfSmall(x: real, n: real)
    requires n > 0.0 && 0.0 <= x < n
    ensures FloorMod(x, n) == x
  {
    QuotientBounds(x, n, 0.0);
    QuotientBounds(x, n, 1.0);
    FloorUnique(x / n, 0);
    FloorModByQuotient(x, n, 0);
  }

  /** The modulo leaves [0, n) alone, so applying it twice is applying it once. */
  lemma ModIdentityAndIdempotent(m: real, n: real)
    requires n > 0.0
    ensures 0.0 <= m < n ==> Mod(m, n) == m
    ensures Mod(Mod(m, n), n) == Mod(m, n)
  {
    if 0.0 <= m < n {
      FloorModOfSmall(m, n);
    }
    FloorModOfSmall(Mod(m, n), n);
  }

  /** Adding whole moduli does not change the modulo. */
  lemma ModPeriodic(m: real, n: real, k: int)
    requires n > 0.0
    ensures Mod(m + k as real * n, n) == Mod(m, n)
  {
    var f := (m / n).Floor;
    var kn := k as real * n;
    assert (m + kn) / n == m / n + k as real by {
      assert m + kn == n * (m / n + k as real);
    }
    FloorUnique(m / n + k as real, f + k);
    assert ((m + kn) / n).Floor == f + k;
    assert n * (f + k) as real == n * f as real + kn;
    assert FloorMod(m + kn, n) == FloorMod(m, n);
  }

  /** Shifting by a whole unit shifts the rounded value by one. */
  lemma RoundShift(x: real)
    ensures Round(x + 1.0) == Round(x) + 1
  {
    RoundUnique(x + 1.0, Round(x) + 1);
  }

  /** Within two turns, the modulo subtracts at most one modulus. */
  lemma ModWithinTwoTurns(x: real, n: real)
    requires n > 0.0 && 0.0 <= x < 2.0 * n
    ensures x < n ==> Mod(x, n) == x
    ensures n <= x ==> Mod(x, n) == x - n
  {
    if x < n {
      QuotientBounds(x, n, 0.0);
      QuotientBounds(x, n, 1.0);
      FloorUnique(x / n, 0);
    } else {
      QuotientBounds(x, n, 1.0);
      QuotientBounds(x, n, 2.0);
      FloorUnique(x / n, 1);
    }
  }

  /** A negative input is corrected into range where `%` alone leaves it negative. */
  lemma ModOfNegative()
    ensures Rem(-1.0, 360.0) == -1.0
    ensures Mod(-1.0, 360.0) == 359.0
  {
    assert Trunc(-1.0 / 360.0) == 0;
    RemOfSmall(359.0, 360.0);
  }
}
