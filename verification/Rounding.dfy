/**
 Rounding: the values of the format form a grid, and rounding the significand to the nearest
 grid place, ties to even, gives the nearest value of the format.
 */
module Rounding {
  import opened Numbers
  import opened Words
  import opened Float128

  // ---------------------------------------------------------------------------
  // The grid of values

  lemma {:induction false} SignificandBound(g: F128)
    ensures Significand(g) < 2 * Pow2(112)
  {
    hide Pow2;
    HiddenBit();
    PowDouble(112);
  }

  lemma {:induction false} MulAssociative(a: int, b: int, c: int)
    ensures (a * b) * c == a * (b * c)
  {
  }

  lemma {:induction false} Neighbours(f: nat, m0: nat, p: nat)
    ensures f * p <= m0 * p || f * p >= (m0 + 1) * p
  {
    if f <= m0 {
      MulMonotone(f, m0, p);
    } else {
      MulMonotone(m0 + 1, f, p);
    }
  }

  lemma {:induction false} BelowTheGrid(m: nat, q: nat, p: nat, m0: nat, t: nat)
    requires m <= 2 * t && t <= m0 && 2 * q <= p
    ensures m * q <= m0 * p
  {
    MulMonotone(m, 2 * t, q);
    assert (2 * t) * q == t * (2 * q);
    MulMonotone(2 * q, p, t);
    MulMonotone(t, m0, p);
  }

  /** No value lies strictly between m0 and m0 + 1 places of size 2^e, when m0 fills 113 bits. */
  lemma {:induction false} Grid(g: F128, m0: nat, e: nat)
    requires m0 >= Pow2(112)
    ensures Units(g) <= m0 * Pow2(e) || Units(g) >= (m0 + 1) * Pow2(e)
  {
    hide Pow2;
    var m := Significand(g);
    var k := Place(g);
    if k >= e {
      Pow2Add(k - e, e);
      MulAssociative(m, Pow2(k - e), Pow2(e));
      Neighbours(m * Pow2(k - e), m0, Pow2(e));
    } else {
      SignificandBound(g);
      Pow2Monotone(k, e);
      BelowTheGrid(m, Pow2(k), Pow2(e), m0, Pow2(112));
    }
  }

  /** Of two neighbouring grid points around x, rounding half to even picks a nearest one. */
  lemma {:induction false} HalfEvenNearest(x: nat, gap: nat, m0: nat, low: nat, u: nat)
    requires gap > 0 && m0 == x / gap && low == m0 * gap
    requires u <= low || u >= low + gap
    ensures var m := RoundHalfEven(x, gap);
      && (m == m0 || m == m0 + 1)
      && Abs(m * gap - x) <= Abs(u - x)
      && (u != m * gap && Abs(m * gap - x) == Abs(u - x) ==> m % 2 == 0)
  {
    assert (m0 + 1) * gap == low + gap;
    assert x == low + x % gap;
  }

  lemma {:induction false} ScaleApart(u: nat, low: nat, p: nat, d: nat)
    requires u <= low || u >= low + p
    ensures u * d <= low * d || u * d >= low * d + p * d
  {
    if u <= low {
      MulMonotone(u, low, d);
    } else {
      MulMonotone(low + p, u, d);
      assert (low + p) * d == low * d + p * d;
    }
  }

  lemma {:induction false} ScaledUnits(g: F128, m0: nat, e: nat, d: nat)
    requires m0 >= Pow2(112)
    ensures Units(g) * d <= m0 * (Pow2(e) * d) || Units(g) * d >= m0 * (Pow2(e) * d) + Pow2(e) * d
  {
    hide Pow2, Units;
    Grid(g, m0, e);
    assert (m0 + 1) * Pow2(e) == m0 * Pow2(e) + Pow2(e);
    ScaleApart(Units(g), m0 * Pow2(e), Pow2(e), d);
    MulAssociative(m0, Pow2(e), d);
  }

  lemma {:induction false} MulCancel(a: int, b: int, d: nat)
    requires d > 0 && a * d == b * d
    ensures a == b
  {
    assert (a + 1) * d == a * d + d;
    assert (b + 1) * d == b * d + d;
    if a < b {
      MulMonotone(a + 1, b, d);
    } else if b < a {
      MulMonotone(b + 1, a, d);
    }
  }

  lemma {:induction false} OneNearest(n: nat, d: nat, gap: nat, v: F128, g: F128)
    requires d > 0 && gap > 0 && Units(v) * d == RoundHalfEven(n, gap) * gap
    requires var low := (n / gap) * gap; Units(g) * d <= low || Units(g) * d >= low + gap
    requires v.lo % 2 == 1 ==> RoundHalfEven(n, gap) % 2 == 1
    ensures AtLeastAsNear(n, d, v, g)
  {
    hide Units, RoundHalfEven;
    HalfEvenNearest(n, gap, n / gap, (n / gap) * gap, Units(g) * d);
    if Units(g) * d == Units(v) * d {
      MulCancel(Units(g), Units(v), d);
    }
  }

  /** Rounding n/d to a multiple of 2^e that needs 113 bits gives a nearest value. */
  lemma {:induction false} RoundingNearest(n: nat, d: nat, e: nat, gap: nat, v: F128)
    requires d > 0 && gap == Pow2(e) * d && gap > 0
    requires n / gap >= Pow2(112) && IsFinite(v) && Units(v) == RoundHalfEven(n, gap) * Pow2(e)
    requires v.lo % 2 == 1 ==> RoundHalfEven(n, gap) % 2 == 1
    ensures NearestEven(n, d, v)
  {
    hide Pow2, Units, RoundHalfEven, IsFinite, AtLeastAsNear;
    MulAssociative(RoundHalfEven(n, gap), Pow2(e), d);
    forall g | IsFinite(g)
      ensures AtLeastAsNear(n, d, v, g)
    {
      ScaledUnits(g, n / gap, e, d);
      OneNearest(n, d, gap, v, g);
    }
  }

  // ---------------------------------------------------------------------------
  // Scaling

  lemma {:induction false} ScaledDivision(x: nat, g: nat, k: nat)
    requires g > 0 && k > 0
    ensures g * k > 0 && (x * k) / (g * k) == x / g && (x * k) % (g * k) == (x % g) * k
  {
    var (q, r) := (x / g, x % g);
    MulMonotone(1, k, g);
    assert x * k == (q * g + r) * k;
    assert (q * g + r) * k == q * (g * k) + r * k;
    MulMonotone(r + 1, g, k);
    assert (r + 1) * k == r * k + k;
    DivModUnique(x * k, g * k, q, r * k);
  }

  lemma {:induction false} ScaledRounding(x: nat, g: nat, k: nat)
    requires g > 0 && k > 0
    ensures g * k > 0 && RoundHalfEven(x * k, g * k) == RoundHalfEven(x, g)
  {
    ScaledDivision(x, g, k);
    var r := x % g;
    assert (2 * r) * k == 2 * (r * k);
    if 2 * r > g {
      MulMonotone(g + 1, 2 * r, k);
      assert (g + 1) * k == g * k + k;
    } else if 2 * r < g {
      MulMonotone(2 * r + 1, g, k);
      assert (2 * r + 1) * k == (2 * r) * k + k;
    }
  }
}
