/**
 When packing a correctly rounded significand gives a correctly rounded value: exactly when
 the final exponent is in the normal range or above, or the value is at most half the
 smallest positive one.
 */
module FloatRound {
  import opened Numbers
  import opened Words
  import opened Float128
  import opened Rounding
  import opened FloatPack

  /** The quotient p/g times 2^e equals n/d, for an exponent e of either sign. */
  predicate SameValue(n: nat, d: nat, p: nat, g: nat, e: int) {
    if e >= 0 then n * g == p * (Pow2(e) * d) else (n * g) * Pow2(-e) == p * d
  }

  lemma {:induction false} EqualQuotients(n: nat, big: nat, p: nat, g: nat)
    requires big > 0 && g > 0 && n * g == p * big
    ensures n / big == p / g && RoundHalfEven(n, big) == RoundHalfEven(p, g)
  {
    hide RoundHalfEven;
    ScaledDivision(n, big, g);
    ScaledDivision(p, g, big);
    ScaledRounding(n, big, g);
    ScaledRounding(p, g, big);
    assert big * g == g * big;
  }

  // ---------------------------------------------------------------------------
  // Overflow

  lemma {:induction false} CancelLe(a: nat, b: nat, c: nat)
    requires c > 0
    ensures a <= b <==> a * c <= b * c
  {
    if a <= b {
      MulMonotone(a, b, c);
    } else {
      MulMonotone(b + 1, a, c);
      assert (b + 1) * c == b * c + c;
    }
  }

  lemma {:induction false} OddTopMultiple(q: nat, g: nat, t: nat)
    requires t > 0 && q < 2 * t
    ensures q == 2 * t - 1 ==> (4 * t - 1) * g == 2 * (q * g) + g
    ensures q < 2 * t - 1 ==> (4 * t - 1) * g >= 2 * (q * g) + 3 * g
  {
    assert (2 * q + 1) * g == 2 * (q * g) + g;
    if q < 2 * t - 1 {
      MulMonotone(2 * q + 3, 4 * t - 1, g);
      assert (2 * q + 3) * g == 2 * (q * g) + 3 * g;
    }
  }

  /** Rounding reaches 2t exactly from half a place below it. */
  lemma {:induction false} CarryIff(p: nat, g: nat, t: nat)
    requires g > 0 && t > 0 && p / g < 2 * t
    ensures RoundHalfEven(p, g) == 2 * t <==> (4 * t - 1) * g <= 2 * p
  {
    OddTopMultiple(p / g, g, t);
    assert p == (p / g) * g + p % g;
  }

  lemma {:induction false} Regroup(k: int, h: int, d: int, g: int)
    ensures ((k * h) * d) * g == (k * g) * (h * d)
    ensures k * ((2 * h) * d) == (2 * k) * (h * d)
  {
  }

  lemma {:induction false} ProductPositive(a: nat, b: nat)
    requires a > 0 && b > 0
    ensures a * b > 0
  {
    MulMonotone(1, a, b);
  }

  lemma {:induction false} MulBoth(a: nat, b: nat, c: nat, d: nat)
    requires a <= b && c <= d
    ensures a * c <= b * d
  {
    MulMonotone(a, b, c);
    MulMonotone(c, d, b);
  }

  lemma {:induction false} OverflowAtTop(n: nat, d: nat, p: nat, g: nat, h: nat, t: nat)
    requires d > 0 && g > 0 && h > 0 && t > 0 && p / g < 2 * t && n * g == p * ((2 * h) * d)
    ensures n >= ((4 * t - 1) * h) * d <==> RoundHalfEven(p, g) == 2 * t
  {
    hide RoundHalfEven;
    CarryIff(p, g, t);
    ProductPositive(h, d);
    var k := 4 * t - 1;
    Regroup(k, h, d, g);
    Regroup(p, h, d, g);
    CancelLe(k * g, 2 * p, h * d);
    CancelLe((k * h) * d, n, g);
  }

  lemma {:induction false} TopBelowDividend(p: nat, g: nat, t: nat)
    requires g > 0 && t > 0 && t <= p / g
    ensures (4 * t - 1) * g <= 4 * p
  {
    MulMonotone(t, p / g, g);
    assert (4 * t - 1) * g == 4 * (t * g) - g;
  }

  lemma {:induction false} OverflowAbove(n: nat, d: nat, p: nat, g: nat, x: nat, h: nat, t: nat)
    requires d > 0 && g > 0 && t > 0 && t <= p / g && 4 * h <= x && n * g == p * (x * d)
    ensures n >= ((4 * t - 1) * h) * d
  {
    var k := 4 * t - 1;
    TopBelowDividend(p, g, t);
    MulMonotone(4 * h, x, d);
    assert (4 * h) * d == 4 * (h * d);
    Regroup(k, h, d, g);
    QuadrupleShift(k * g, p, h * d, x * d);
    CancelLe((k * h) * d, n, g);
  }

  lemma {:induction false} QuadrupleShift(a: nat, p: nat, c: nat, y: nat)
    requires a <= 4 * p && 4 * c <= y
    ensures a * c <= p * y
  {
    MulMonotone(a, 4 * p, c);
    assert (4 * p) * c == p * (4 * c);
    MulMonotone(4 * c, y, p);
  }

  lemma {:induction false} DividendBelow(p: nat, g: nat, t: nat)
    requires g > 0 && t > 0 && p / g < 2 * t
    ensures p + 1 <= (2 * t) * g <= (4 * t - 1) * g
  {
    MulMonotone(p / g + 1, 2 * t, g);
    assert (p / g + 1) * g == (p / g) * g + g;
    MulMonotone(2 * t, 4 * t - 1, g);
  }

  lemma {:induction false} OverflowBelow(n: nat, d: nat, p: nat, g: nat, x: nat, h: nat, t: nat)
    requires d > 0 && g > 0 && h > 0 && t > 0 && p / g < 2 * t && x <= h && n * g == p * (x * d)
    ensures n < ((4 * t - 1) * h) * d
  {
    var k := 4 * t - 1;
    DividendBelow(p, g, t);
    ProductPositive(h, d);
    MulMonotone(x, h, d);
    Regroup(k, h, d, g);
    MulBoth(p, p, x * d, h * d);
    MulBoth(p + 1, k * g, h * d, h * d);
    assert (p + 1) * (h * d) == p * (h * d) + h * d;
    CancelLe((k * h) * d, n, g);
  }

  /** The exact value overflows exactly when the rounded significand leaves the top binade. */
  lemma {:induction false} OverflowIff(n: nat, d: nat, p: nat, g: nat, e: nat)
    requires d > 0 && g > 0 && n * g == p * (Pow2(e) * d)
    requires Pow2(112) <= p / g < Pow2(113)
    ensures n >= OverflowBound() * d <==> e > MaxPlace() || (e == MaxPlace() && RoundHalfEven(p, g) == Pow2(113))
  {
    hide Pow2, RoundHalfEven;
    var t := Pow2(112);
    PowDouble(112);
    PowDouble(113);
    var h := Pow2(MaxPlace() - 1);
    PowDouble(MaxPlace() - 1);
    assert OverflowBound() == (4 * t - 1) * h;
    if e == MaxPlace() {
      OverflowAtTop(n, d, p, g, h, t);
    } else if e > MaxPlace() {
      Pow2Monotone(MaxPlace(), e);
      OverflowAbove(n, d, p, g, Pow2(e), h, t);
    } else {
      Pow2Monotone(e, MaxPlace() - 1);
      OverflowBelow(n, d, p, g, Pow2(e), h, t);
    }
  }

  // ---------------------------------------------------------------------------
  // The normal range

  lemma {:induction false} LowBitOfSignificand(v: F128)
    ensures v.lo % 2 == Significand(v) % 2
  {
    EvenShift(FracHi(v), 0, v.lo, 0);
    EvenShift(EXP_UNIT, 0, Fraction(v), 0);
  }

  lemma {:induction false} CarryValue(m: nat, e: nat)
    requires m == Pow2(113)
    ensures Pow2(112) * Pow2(e + 1) == m * Pow2(e)
  {
    hide Pow2;
    PowDouble(112);
    PowDouble(e);
    MulAssociative(Pow2(112), 2, Pow2(e));
  }

  /** The packed value has the value of the rounded significand. */
  lemma {:induction false} PackedUnits(sign: nat, exp: int, mant: U128, v: F128)
    requires sign <= 1 && Pow2(112) <= Val(mant) <= Pow2(113) && v == PackParts(sign, exp, mant)
    requires 0 <= exp + 16382 && FinalExp(exp, Val(mant)) <= 16383
    ensures IsFinite(v) && Sign(v) == sign && Units(v) == Val(mant) * Pow2(exp + 16382)
    ensures v.lo % 2 == 1 ==> Val(mant) % 2 == 1
  {
    hide Pow2, PackParts, Significand, Units;
    PowDouble(112);
    PowDouble(111);
    UnitsOf(v);
    Packed(sign, exp, mant);
    LowBitOfSignificand(v);
    if Val(mant) == Pow2(113) {
      CarryValue(Val(mant), exp + 16382);
    }
  }

  lemma {:induction false} NormalRangeCorrect(sign: nat, exp: int, mant: U128, p: nat, g: nat, n: nat, d: nat)
    requires sign <= 1 && g > 0 && d > 0 && exp + 16382 >= 0 && SameValue(n, d, p, g, exp + 16382)
    requires Pow2(112) <= p / g < Pow2(113) && Val(mant) == RoundHalfEven(p, g)
    ensures RoundsTo(n, d, sign, PackParts(sign, exp, mant))
  {
    var e := exp + 16382;
    var v := PackParts(sign, exp, mant);
    hide Pow2, PackParts, NearestEven, OverflowBound;
    OverflowIff(n, d, p, g, e);
    if FinalExp(exp, Val(mant)) > 16383 {
      Packed(sign, exp, mant);
    } else {
      PackedUnits(sign, exp, mant, v);
      ProductPositive(Pow2(e), d);
      EqualQuotients(n, Pow2(e) * d, p, g);
      RoundingNearest(n, d, e, Pow2(e) * d, v);
    }
  }

  // ---------------------------------------------------------------------------
  // Below the normal range

  /** Rounding to whole units gives a nearest value wherever the result is a value. */
  lemma {:induction false} UnitsNearest(n: nat, d: nat, v: F128)
    requires d > 0 && IsFinite(v) && Units(v) == RoundHalfEven(n, d) && (v.lo % 2 == 1 ==> Units(v) % 2 == 1)
    ensures NearestEven(n, d, v)
  {
    hide Units, RoundHalfEven, IsFinite, AtLeastAsNear;
    forall g | IsFinite(g)
      ensures AtLeastAsNear(n, d, v, g)
    {
      Neighbours(Units(g), n / d, d);
      assert (n / d + 1) * d == (n / d) * d + d;
      OneNearest(n, d, d, v, g);
    }
  }

  lemma {:induction false} HalfOfCarry(n: nat, d: nat, p: nat, g: nat, t: nat)
    requires d > 0 && g > 0 && t > 0 && p / g < 2 * t && RoundHalfEven(p, g) == 2 * t && (n * g) * 2 == p * d
    ensures RoundHalfEven(n, d) == t && n < t * d
  {
    CarryIff(p, g, t);
    DividendBelow(p, g, t);
    hide RoundHalfEven;
    assert (4 * n) * g == (2 * p) * d;
    RatioLe((4 * t - 1) * g, 2 * p, 4 * t - 1, 4 * n, g, d);
    assert 2 * ((2 * t) * g) == (4 * t) * g;
    RatioLt(2 * p, 4 * t, 4 * n, g, d);
    QuarterBelow(n, d, t);
  }

  /** From k g <= x and y g = x d follows k d <= y. */
  lemma {:induction false} RatioLe(kg: nat, x: nat, k: nat, y: nat, g: nat, d: nat)
    requires g > 0 && kg == k * g <= x && y * g == x * d
    ensures k * d <= y
  {
    MulMonotone(kg, x, d);
    assert (k * g) * d == (k * d) * g;
    CancelLe(k * d, y, g);
  }

  lemma {:induction false} RatioLt(x: nat, k: nat, y: nat, g: nat, d: nat)
    requires g > 0 && d > 0 && x < k * g && y * g == x * d
    ensures y < k * d
  {
    MulMonotone(x + 1, k * g, d);
    assert (x + 1) * d == x * d + d;
    assert (k * g) * d == (k * d) * g;
    CancelLe(k * d, y, g);
  }

  lemma {:induction false} QuarterBelow(n: nat, d: nat, t: nat)
    requires d > 0 && t > 0 && (4 * t - 1) * d <= 4 * n < (4 * t) * d
    ensures RoundHalfEven(n, d) == t && n < t * d
  {
    assert (4 * t) * d == 4 * (t * d) && (4 * t - 1) * d == 4 * (t * d) - d;
    assert (t - 1) * d == t * d - d;
    DivModUnique(n, d, t - 1, n - (t - 1) * d);
  }

  /** A carry out of the largest subnormal binade lands on the smallest normal value. */
  lemma {:induction false} CarryToNormal(sign: nat, mant: U128, p: nat, g: nat, n: nat, d: nat)
    requires sign <= 1 && g > 0 && d > 0 && SameValue(n, d, p, g, -1)
    requires Pow2(112) <= p / g < Pow2(113) && Val(mant) == RoundHalfEven(p, g) == Pow2(113)
    ensures RoundsTo(n, d, sign, PackParts(sign, -16383, mant)) && 2 * n > d
  {
    var v := PackParts(sign, -16383, mant);
    assert Pow2(0) == 1 && Pow2(1) == 2;
    hide Pow2, PackParts, NearestEven, RoundHalfEven;
    PowDouble(112);
    PowDouble(111);
    Packed(sign, -16383, mant);
    HalfOfCarry(n, d, p, g, Pow2(112));
    LowBitOfSignificand(v);
    BelowOverflow(n, d, Pow2(112));
    UnitsNearest(n, d, v);
    HalfBelow(n, d, Pow2(112));
  }

  lemma {:induction false} HalfBelow(n: nat, d: nat, t: nat)
    requires d > 0 && t >= 2 && RoundHalfEven(n, d) == t
    ensures 2 * n > d
  {
    MulMonotone(1, n / d, d);
  }

  lemma {:induction false} BelowOverflow(n: nat, d: nat, t: nat)
    requires d > 0 && t == Pow2(112) && n < t * d
    ensures n < OverflowBound() * d
  {
    hide Pow2;
    PowDouble(112);
    PowDouble(113);
    var h := Pow2(MaxPlace() - 1);
    MulMonotone(t, 4 * t - 1, d);
    MulMonotone(1, h, 4 * t - 1);
    MulMonotone(4 * t - 1, (4 * t - 1) * h, d);
  }

  lemma {:induction false} HalfUnit(n: nat, d: nat, p: nat, g: nat, h: nat)
    requires d > 0 && g > 0 && h > 0 && (n * g) * (2 * h) == p * d && 2 * n <= d
    ensures RoundHalfEven(p, g) <= h
  {
    assert (2 * n) * (g * h) == p * d by {
      assert (n * g) * (2 * h) == (2 * n) * (g * h);
    }
    MulMonotone(2 * n, d, g * h);
    assert d * (g * h) == (g * h) * d;
    CancelLe(p, g * h, d);
    if p / g >= h {
      MulMonotone(h, p / g, g);
      DivModUnique(p, g, h, 0);
    }
  }

  lemma {:induction false} RoundedTimesGap(p: nat, g: nat)
    requires g > 0
    ensures 2 * (RoundHalfEven(p, g) * g) <= 2 * p + g
  {
    assert p == (p / g) * g + p % g;
    assert (p / g + 1) * g == (p / g) * g + g;
  }

  lemma {:induction false} TruncatedBound(p: nat, g: nat, h: nat, y: nat)
    requires g > 0 && h > 0 && y * (2 * h) <= RoundHalfEven(p, g)
    ensures (4 * y) * (g * h) <= 2 * p + g
  {
    RoundedTimesGap(p, g);
    hide RoundHalfEven;
    MulMonotone(y * (2 * h), RoundHalfEven(p, g), g);
    assert (y * (2 * h)) * g == (2 * y) * (g * h);
    assert (4 * y) * (g * h) == 2 * ((2 * y) * (g * h));
  }

  /** The exact value is at most a quarter of a unit below the truncated significand. */
  lemma {:induction false} QuarterAbove(n: nat, d: nat, p: nat, g: nat, h: nat, y: nat)
    requires d > 0 && g > 0 && h > 0 && (n * g) * (2 * h) == p * d && y * (2 * h) <= RoundHalfEven(p, g)
    ensures 4 * n + d >= (4 * y) * d
  {
    TruncatedBound(p, g, h, y);
    hide RoundHalfEven;
    MulMonotone(1, h, g);
    ProductPositive(g, h);
    TwiceOver(n, g, h);
    QuarterScaled(n, d, p, g * h, y);
  }

  lemma {:induction false} TwiceOver(n: nat, g: nat, h: nat)
    ensures (n * g) * (2 * h) == (2 * n) * (g * h)
  {
  }

  lemma {:induction false} QuarterScaled(n: nat, d: nat, p: nat, k: nat, y: nat)
    requires k > 0 && (2 * n) * k == p * d && (4 * y) * k <= 2 * p + k
    ensures 4 * n + d >= (4 * y) * d
  {
    assert (4 * n + d) * k == 2 * ((2 * n) * k) + d * k;
    assert (2 * p + k) * d == 2 * (p * d) + d * k;
    RatioLe((4 * y) * k, 2 * p + k, 4 * y, 4 * n + d, k, d);
  }

  /** Half of a truncated value is never nearest once the exact value exceeds half a unit. */
  lemma {:induction false} HalvedIsFar(n: nat, d: nat, y: nat)
    requires d > 0 && 2 * n > d && 4 * n + d >= (4 * y) * d
    ensures var near := if y == 0 then 1 else y;
      Abs((y / 2) * d - n) > Abs(near * d - n)
  {
    var c := y / 2;
    assert (4 * y) * d == 4 * (y * d);
    if y > 0 {
      assert c + 1 <= y;
      MulMonotone(c + 1, y, d);
      assert (c + 1) * d == c * d + d;
    }
  }

  lemma {:induction false} SubnormalWitness(y: nat) returns (w: F128)
    requires y < Pow2(112)
    ensures IsFinite(w) && Units(w) == y
  {
    HiddenBit();
    assert Pow2(0) == 1;
    hide Pow2;
    var (hi, lo) := (y / WORD, y % WORD);
    EncodeFields(0, 0, hi, lo);
    w := Encode(0, 0, hi, lo);
  }

  lemma {:induction false} ZeroNearest(n: nat, d: nat, v: F128)
    requires d > 0 && 2 * n <= d && IsFinite(v) && Units(v) == 0 && v.lo % 2 == 0
    ensures NearestEven(n, d, v)
  {
    hide Units, IsFinite;
    forall g | IsFinite(g)
      ensures AtLeastAsNear(n, d, v, g)
    {
      if Units(g) >= 1 {
        MulMonotone(1, Units(g), d);
      }
    }
  }

  lemma {:induction false} DivTwice(m: nat, x: nat)
    requires x > 0
    ensures m / (x * 2) == (m / x) / 2
  {
    var q := m / x;
    var r := m % x;
    assert m == q * x + r;
    var (a, b) := (q / 2, q % 2);
    assert q * x == a * (x * 2) + b * x;
    DivModUnique(m, x * 2, a, b * x + r);
  }

  /** The significand stored one place too far right is half of the truncated one. */
  lemma {:induction false} HalvedTruncation(exp: int, m: nat, t: nat)
    requires t == -(exp + 16382) && Pow2(112) <= m <= Pow2(113) && FinalExp(exp, m) < -16382
    ensures FinalSig(m) / Pow2(-16381 - FinalExp(exp, m)) == (m / Pow2(t)) / 2
  {
    hide Pow2;
    DivTwice(m, Pow2(t));
    PowDouble(t);
    if m == Pow2(113) {
      PowDouble(112);
      ScaledDivision(Pow2(112), Pow2(t), 2);
    }
  }

  lemma {:induction false} TruncationBound(exp: int, m: nat, t: nat)
    requires t == -(exp + 16382) && Pow2(112) <= m <= Pow2(113) && FinalExp(exp, m) < -16382
    ensures m / Pow2(t) < Pow2(112)
  {
    PowPositiveExp(t);
    hide Pow2;
    PowDouble(112);
    if m == Pow2(113) {
      QuotientBound4(m, Pow2(t), Pow2(112));
    } else {
      QuotientBound(m, Pow2(t), Pow2(112));
    }
  }

  lemma {:induction false} StoredUnits(sign: nat, exp: int, mant: U128, t: nat, v: F128)
    requires sign <= 1 && Pow2(112) <= Val(mant) <= Pow2(113) && v == PackParts(sign, exp, mant)
    requires t == -(exp + 16382) && FinalExp(exp, Val(mant)) < -16382
    ensures IsFinite(v) && Sign(v) == sign && Units(v) == (Val(mant) / Pow2(t)) / 2
    ensures Units(v) == 0 ==> v.lo % 2 == 0
  {
    hide Pow2, PackParts, Significand, Units, Val, FinalExp, FinalSig, IsFinite;
    Packed(sign, exp, mant);
    HalvedTruncation(exp, Val(mant), t);
    LowBitOfSignificand(v);
    UnitsOf(v);
  }

  lemma {:induction false} PowPositiveExp(t: nat)
    ensures t >= 1 ==> Pow2(t) >= 2
    ensures t >= 2 ==> Pow2(t) >= 4
  {
  }

  lemma {:induction false} QuotientBound4(x: nat, d: nat, t: nat)
    requires d >= 4 && t > 0 && x == 2 * t
    ensures x / d < t
  {
    MulMonotone(4, d, x / d);
  }

  lemma {:induction false} SmallBelowOverflow(n: nat, d: nat, p: nat, g: nat, h: nat, t: nat)
    requires d > 0 && g > 0 && h > 0 && t > 0 && p / g < 2 * t && (n * g) * (2 * h) == p * d
    ensures n < t * d
  {
    DividendBelow(p, g, t);
    MulMonotone(1, h, n * g);
    assert (2 * n) * g == (n * g) * 2;
    assert (n * g) * (2 * h) == 2 * ((n * g) * h);
    assert (2 * n) * g <= p * d;
    RatioBelow(p, 2 * t, 2 * n, g, d);
  }

  lemma {:induction false} RatioBelow(x: nat, k: nat, y: nat, g: nat, d: nat)
    requires g > 0 && d > 0 && x < k * g && y * g <= x * d
    ensures y < k * d
  {
    MulMonotone(x + 1, k * g, d);
    assert (x + 1) * d == x * d + d;
    assert (k * g) * d == (k * d) * g;
    CancelLe(k * d, y, g);
  }

  lemma {:induction false} FarIsNotNearest(n: nat, d: nat, v: F128, y: nat)
    requires d > 0 && 2 * n > d && 4 * n + d >= (4 * y) * d && Units(v) == y / 2 && y < Pow2(112)
    ensures !NearestEven(n, d, v)
  {
    HiddenBit();
    hide Pow2, Units, IsFinite;
    var near := if y == 0 then 1 else y;
    HalvedIsFar(n, d, y);
    var w := SubnormalWitness(near);
    assert !AtLeastAsNear(n, d, v, w);
  }

  lemma {:induction false} TinyRoundsToZero(n: nat, d: nat, p: nat, g: nat, h: nat, v: F128)
    requires d > 0 && g > 0 && h > 0 && (n * g) * (2 * h) == p * d && 2 * n <= d
    requires IsFinite(v) && Units(v) == (RoundHalfEven(p, g) / (2 * h)) / 2 && (Units(v) == 0 ==> v.lo % 2 == 0)
    ensures NearestEven(n, d, v)
  {
    HalfUnit(n, d, p, g, h);
    hide RoundHalfEven, Units, IsFinite, NearestEven;
    SmallMod(RoundHalfEven(p, g), 2 * h);
    ZeroNearest(n, d, v);
  }

  lemma {:induction false} LargerIsMissed(n: nat, d: nat, p: nat, g: nat, h: nat, v: F128)
    requires d > 0 && g > 0 && h > 0 && (n * g) * (2 * h) == p * d && 2 * n > d
    requires Units(v) == (RoundHalfEven(p, g) / (2 * h)) / 2 && RoundHalfEven(p, g) / (2 * h) < Pow2(112)
    ensures !NearestEven(n, d, v)
  {
    hide RoundHalfEven, Units, NearestEven, Pow2;
    var m := RoundHalfEven(p, g);
    var y := m / (2 * h);
    assert y * (2 * h) <= m;
    QuarterAbove(n, d, p, g, h, y);
    FarIsNotNearest(n, d, v, y);
  }

  /** Below the normal range packing is right only for values that round to zero. */
  lemma {:induction false} SubnormalRange(sign: nat, exp: int, mant: U128, p: nat, g: nat, n: nat, d: nat)
    requires sign <= 1 && g > 0 && d > 0 && exp + 16382 < 0 && SameValue(n, d, p, g, exp + 16382)
    requires Pow2(112) <= p / g < Pow2(113) && Val(mant) == RoundHalfEven(p, g)
    requires FinalExp(exp, Val(mant)) < -16382
    ensures RoundsTo(n, d, sign, PackParts(sign, exp, mant)) <==> 2 * n <= d
  {
    var v := PackParts(sign, exp, mant);
    var t: nat := -(exp + 16382);
    var h := Pow2(t - 1);
    assert Pow2(t) == 2 * h && Pow2(-(exp + 16382)) == 2 * h;
    hide Pow2, PackParts, NearestEven, Units, RoundHalfEven, OverflowBound;
    PowDouble(112);
    RoundedInRange(p, g);
    StoredUnits(sign, exp, mant, t, v);
    TruncationBound(exp, Val(mant), t);
    SmallBelowOverflow(n, d, p, g, h, Pow2(112));
    BelowOverflow(n, d, Pow2(112));
    if 2 * n <= d {
      TinyRoundsToZero(n, d, p, g, h, v);
    } else {
      LargerIsMissed(n, d, p, g, h, v);
    }
  }

  lemma {:induction false} RoundedInRange(p: nat, g: nat)
    requires g > 0 && Pow2(112) <= p / g < Pow2(113)
    ensures Pow2(112) <= RoundHalfEven(p, g) <= Pow2(113)
  {
    hide Pow2;
  }

  /** n/d is at least the smallest normal value, after rounding to 113 bits. */
  predicate RoundsToNormal(n: nat, d: nat) {
    4 * n >= (Pow2(114) - 1) * d
  }

  lemma {:induction false} NormalAbove(n: nat, d: nat, p: nat, g: nat, x: nat, t: nat)
    requires g > 0 && d > 0 && x > 0 && t > 0 && t <= p / g && n * g == p * (x * d)
    ensures 4 * n >= (4 * t - 1) * d
  {
    assert t * g <= p by {
      MulMonotone(t, p / g, g);
    }
    MulMonotone(1, x, d);
    MulBoth(t * g, p, d, x * d);
    assert (t * g) * d == (t * d) * g;
    CancelLe(t * d, n, g);
    assert (4 * t - 1) * d == 4 * (t * d) - d;
  }

  lemma {:induction false} NormalBelow(n: nat, d: nat, p: nat, g: nat, x: nat, t: nat)
    requires g > 0 && d > 0 && x >= 4 && t > 0 && p / g < 2 * t && (n * g) * x == p * d
    ensures 4 * n < (4 * t - 1) * d
  {
    DividendBelow(p, g, t);
    MulMonotone(4, x, n * g);
    assert (4 * n) * g == (n * g) * 4;
    RatioBelow(p, 2 * t, 4 * n, g, d);
    MulMonotone(2 * t, 4 * t - 1, d);
  }

  lemma {:induction false} RatioIff(x: nat, k: nat, y: nat, g: nat, d: nat)
    requires g > 0 && d > 0 && y * g == x * d
    ensures k * g <= x <==> k * d <= y
  {
    assert (k * g) * d == (k * d) * g;
    CancelLe(k * g, x, d);
    CancelLe(k * d, y, g);
  }

  lemma {:induction false} NormalAtEdge(n: nat, d: nat, p: nat, g: nat, t: nat)
    requires g > 0 && d > 0 && t > 0 && p / g < 2 * t && (n * g) * 2 == p * d
    ensures RoundHalfEven(p, g) == 2 * t <==> 4 * n >= (4 * t - 1) * d
  {
    CarryIff(p, g, t);
    hide RoundHalfEven;
    assert (4 * n) * g == (2 * p) * d;
    RatioIff(2 * p, 4 * t - 1, 4 * n, g, d);
  }

  /** The final exponent is normal exactly when the exact value rounds to a normal one. */
  lemma {:induction false} FinalExpNormal(exp: int, p: nat, g: nat, n: nat, d: nat)
    requires g > 0 && d > 0 && SameValue(n, d, p, g, exp + 16382) && Pow2(112) <= p / g < Pow2(113)
    ensures FinalExp(exp, RoundHalfEven(p, g)) >= -16382 <==> RoundsToNormal(n, d)
  {
    assert Pow2(1) == 2;
    hide Pow2, RoundHalfEven;
    PowDouble(112);
    PowDouble(113);
    var e := exp + 16382;
    if e >= 0 {
      NormalAbove(n, d, p, g, Pow2(e), Pow2(112));
    } else if e == -1 {
      NormalAtEdge(n, d, p, g, Pow2(112));
    } else {
      PowPositiveExp(-e);
      NormalBelow(n, d, p, g, Pow2(-e), Pow2(112));
    }
  }

  /** Main result on packing: let p/g be a quotient that fills 113 bits and let mant be that
      quotient rounded to nearest even.  The packed value is the correctly rounded exact value
      if and only if the exact value rounds to a normal one (or overflows) or is at most half
      of the smallest positive value. */
  lemma {:induction false} PackCorrectIff(sign: nat, exp: int, mant: U128, p: nat, g: nat, n: nat, d: nat)
    requires sign <= 1 && g > 0 && d > 0 && SameValue(n, d, p, g, exp + 16382)
    requires Pow2(112) <= p / g < Pow2(113) && Val(mant) == RoundHalfEven(p, g)
    ensures RoundsTo(n, d, sign, PackParts(sign, exp, mant)) <==> RoundsToNormal(n, d) || 2 * n <= d
  {
    hide Pow2, PackParts, RoundsTo, RoundHalfEven, SameValue, RoundsToNormal;
    FinalExpNormal(exp, p, g, n, d);
    if exp + 16382 >= 0 {
      NormalRangeCorrect(sign, exp, mant, p, g, n, d);
    } else if FinalExp(exp, Val(mant)) >= -16382 {
      CarryToNormal(sign, mant, p, g, n, d);
    } else {
      SubnormalRange(sign, exp, mant, p, g, n, d);
    }
  }

  // ---------------------------------------------------------------------------
  // Order of values

  lemma {:induction false} CompareUnits(ma: nat, mb: nat, ka: nat, kb: nat)
    requires ma < Pow2(113) && mb < Pow2(113) && (ka > 0 ==> ma >= Pow2(112)) && (kb > 0 ==> mb >= Pow2(112))
    ensures ma * Pow2(ka) < mb * Pow2(kb) <==> ka < kb || (ka == kb && ma < mb)
  {
    hide Pow2;
    if ka == kb {
      CancelLe(mb, ma, Pow2(ka));
    } else if ka < kb {
      HigherPlaceWins(ma, mb, ka, kb);
    } else {
      HigherPlaceWins(mb, ma, kb, ka);
    }
  }

  lemma {:induction false} HigherPlaceWins(ma: nat, mb: nat, ka: nat, kb: nat)
    requires ka < kb && ma < Pow2(113) && mb >= Pow2(112)
    ensures ma * Pow2(ka) < mb * Pow2(kb)
  {
    hide Pow2;
    PowDouble(112);
    Pow2Monotone(ka, kb);
    MulMonotone(ma + 1, 2 * Pow2(112), Pow2(ka));
    assert (ma + 1) * Pow2(ka) == ma * Pow2(ka) + Pow2(ka);
    assert (2 * Pow2(112)) * Pow2(ka) == Pow2(112) * (2 * Pow2(ka));
    MulBoth(Pow2(112), mb, 2 * Pow2(ka), Pow2(kb));
  }
}
