/**
 Packing a quotient of fewer than 113 bits that was rounded to an integer: exactly when the
 packed value is the correctly rounded one.  Products and quotients come out that short only
 when an operand is subnormal.
 */
module FloatShort {
  import opened Numbers
  import opened Words
  import opened Float128
  import opened Rounding
  import opened FloatPack
  import opened FloatRound

  // ---------------------------------------------------------------------------
  // The condition

  /** How many more bits of p/g the format has room for at place e: up to 113 bits, and none
      below one unit. */
  function Room(p: nat, g: nat, e: nat): nat
    requires g > 0
  {
    var b := BitLength(p / g);
    if b < 113 && 113 - b < e then 113 - b else e
  }

  /** Rounding p/g to an integer loses nothing against rounding it to the bits of the format. */
  predicate Sharp(p: nat, g: nat, e: nat)
    requires g > 0
  {
    RoundHalfEven(p * Pow2(Room(p, g, e)), g) == RoundHalfEven(p, g) * Pow2(Room(p, g, e))
  }

  /** p/g is just above one half: rounded up to one and then halved it is right again. */
  predicate Lucky(p: nat, g: nat, e: int) {
    e >= 1 && g < 2 * p && (2 * Pow2(e)) * p <= (Pow2(e) + 1) * g && (e == 1 ==> 4 * p < 3 * g)
  }

  /** n/d units are p/g at place e.  A result in the normal range is right if and only if
      nothing was lost; below it, if the exact value rounds to zero, and by luck. */
  predicate ShortIsRight(n: nat, d: nat, p: nat, g: nat, e: int)
    requires g > 0
  {
    if e >= 0 && RoundHalfEven(p, g) * Pow2(e) >= Pow2(112) then Sharp(p, g, e)
    else 2 * n <= d || Lucky(p, g, e)
  }

  // ---------------------------------------------------------------------------
  // Nearest multiples

  lemma {:induction false} WithinHalf(x: nat, g: nat)
    requires g > 0
    ensures 2 * Abs(RoundHalfEven(x, g) * g - x) <= g
  {
    assert x == (x / g) * g + x % g;
    assert (x / g + 1) * g == (x / g) * g + g;
  }

  lemma {:induction false} EvensApart(x: nat, g: nat, r: nat, u: nat)
    requires g > 0 && r % 2 == 0 && u % 2 == 0 && 2 * Abs(r * g - x) <= g
    ensures Abs(r * g - x) == Abs(u * g - x) ==> r == u
  {
    if r < u {
      MulMonotone(r + 2, u, g);
      assert (r + 2) * g == r * g + 2 * g;
    } else if u < r {
      MulMonotone(u + 2, r, g);
      assert (u + 2) * g == u * g + 2 * g;
    }
  }

  /** Any other multiple is farther away, or is odd and as far. */
  lemma {:induction false} Farther(x: nat, g: nat, u: nat)
    requires g > 0
    ensures var r := RoundHalfEven(x, g);
      u == r || Abs(r * g - x) < Abs(u * g - x) || (Abs(r * g - x) == Abs(u * g - x) && u % 2 == 1)
  {
    var r := RoundHalfEven(x, g);
    Neighbours(u, x / g, g);
    assert (x / g + 1) * g == (x / g) * g + g;
    HalfEvenNearest(x, g, x / g, (x / g) * g, u * g);
    WithinHalf(x, g);
    hide RoundHalfEven;
    if Abs(r * g - x) == Abs(u * g - x) && u % 2 == 0 {
      if u * g == r * g {
        MulCancel(u, r, g);
      } else {
        EvensApart(x, g, r, u);
      }
    }
  }

  lemma {:induction false} NormalWitness(m: nat, k: nat) returns (w: F128)
    requires Pow2(112) <= m < Pow2(113) && k <= MaxPlace()
    ensures IsFinite(w) && Units(w) == m * Pow2(k)
  {
    HiddenBit();
    hide Pow2;
    var f := m - EXP_UNIT * WORD;
    var (hi, lo) := (f / WORD, f % WORD);
    EncodeFields(0, k + 1, hi, lo);
    w := Encode(0, k + 1, hi, lo);
  }

  lemma {:induction false} UnitWitness(y: nat) returns (w: F128)
    requires y < Pow2(113)
    ensures IsFinite(w) && Units(w) == y
  {
    assert Pow2(0) == 1;
    hide Pow2, Units, IsFinite;
    if y < Pow2(112) {
      w := SubnormalWitness(y);
    } else {
      w := NormalWitness(y, 0);
    }
  }

  /** Among the values at the lowest place the nearest one is the rounded number of units. */
  lemma {:induction false} NearestUnits(n: nat, d: nat, v: F128)
    requires d > 0 && IsFinite(v) && Place(v) == 0 && RoundHalfEven(n, d) < Pow2(113)
    ensures NearestEven(n, d, v) <==> Units(v) == RoundHalfEven(n, d)
  {
    UnitsOf(v);
    LowBitOfSignificand(v);
    hide Pow2, Units, IsFinite, RoundHalfEven, Significand, Place;
    if Units(v) == RoundHalfEven(n, d) {
      UnitsNearest(n, d, v);
    } else {
      Farther(n, d, Units(v));
      var w := UnitWitness(RoundHalfEven(n, d));
      assert !AtLeastAsNear(n, d, v, w);
    }
  }

  // ---------------------------------------------------------------------------
  // Normal results

  lemma {:induction false} NormalUnique(m: nat, k: nat, m': nat, k': nat)
    requires Pow2(112) <= m < Pow2(113) && Pow2(112) <= m' < Pow2(113) && m * Pow2(k) == m' * Pow2(k')
    ensures m == m' && k == k'
  {
    hide Pow2;
    if k < k' {
      HigherPlaceWins(m, m', k, k');
    } else if k' < k {
      HigherPlaceWins(m', m, k', k);
    } else {
      MulCancel(m, m', Pow2(k));
    }
  }

  /** With the room used up to 113 bits, the refined quotient fills them. */
  lemma {:induction false} RoomFills(p: nat, g: nat, e: nat)
    requires g > 0 && p / g < Pow2(112) && RoundHalfEven(p, g) >= 1
    ensures Room(p, g, e) <= e && (Room(p, g, e) == 0 ==> e == 0)
    ensures Room(p, g, e) < e ==> Pow2(112) <= (p * Pow2(Room(p, g, e))) / g < Pow2(113)
    ensures Room(p, g, e) == e ==> (p * Pow2(e)) / g < Pow2(113)
  {
    var b := BitLength(p / g);
    hide Pow2, BitLength;
    PowDouble(112);
    BitLengthBound(p / g, 112);
    BitsFilled(p, g, b);
    if Room(p, g, e) == e {
      Pow2Monotone(e, 113 - b);
      RefineMonotone(p, g, Pow2(e), Pow2(113 - b));
    }
  }

  lemma {:induction false} RefineMonotone(p: nat, g: nat, a: nat, b: nat)
    requires g > 0 && a <= b
    ensures (p * a) / g <= (p * b) / g
  {
    MulMonotone(a, b, p);
    DivMonotone(p * a, p * b, g);
  }

  lemma {:induction false} DivMonotone(x: nat, y: nat, g: nat)
    requires g > 0 && x <= y
    ensures x / g <= y / g
  {
    assert (y / g + 1) * g == (y / g) * g + g;
    if x / g > y / g {
      MulMonotone(y / g + 1, x / g, g);
    }
  }

  lemma {:induction false} BitsFilled(p: nat, g: nat, b: nat)
    requires g > 0 && p / g < Pow2(b) && b <= 112 && (b > 0 ==> Pow2(b - 1) <= p / g)
    requires b == 0 ==> 2 * p > g
    ensures Pow2(112) <= (p * Pow2(113 - b)) / g < Pow2(113)
  {
    assert Pow2(0) == 1;
    hide Pow2;
    var t := Pow2(113 - b);
    Pow2Add(b, 113 - b);
    BelowRefined(p, g, Pow2(b), t);
    if b > 0 {
      Pow2Add(b - 1, 113 - b);
      AboveRefined(p, g, Pow2(b - 1), t);
    } else {
      PowDouble(112);
      HalfRefined(p, g, Pow2(112));
    }
  }

  lemma {:induction false} BelowRefined(p: nat, g: nat, u: nat, t: nat)
    requires g > 0 && t > 0 && p / g < u
    ensures (p * t) / g < u * t
  {
    MulMonotone(p / g + 1, u, g);
    assert (p / g + 1) * g == (p / g) * g + g;
    MulMonotone(p + 1, u * g, t);
    assert (p + 1) * t == p * t + t && (u * g) * t == (u * t) * g;
    if (p * t) / g >= u * t {
      MulMonotone(u * t, (p * t) / g, g);
    }
  }

  lemma {:induction false} AboveRefined(p: nat, g: nat, u: nat, t: nat)
    requires g > 0 && u <= p / g
    ensures u * t <= (p * t) / g
  {
    MulMonotone(u, p / g, g);
    MulMonotone(u * g, p, t);
    assert (u * g) * t == (u * t) * g;
    DivMonotone((u * t) * g, p * t, g);
    DivModUnique((u * t) * g, g, u * t, 0);
  }

  lemma {:induction false} HalfRefined(p: nat, g: nat, h: nat)
    requires g > 0 && 2 * p > g
    ensures h <= (p * (2 * h)) / g
  {
    MulMonotone(g, 2 * p, h);
    assert p * (2 * h) == (2 * p) * h;
    DivMonotone(h * g, p * (2 * h), g);
    DivModUnique(h * g, g, h, 0);
  }

  lemma {:induction false} EvenTimes(q: nat, h: nat)
    requires h > 0
    ensures (q * Pow2(h)) % 2 == 0
  {
    PowDouble(h - 1);
    hide Pow2;
    assert q * (2 * Pow2(h - 1)) == (q * Pow2(h - 1)) * 2;
    MultipleOfTwo(q * Pow2(h - 1));
  }

  lemma {:induction false} MultipleOfTwo(x: nat)
    ensures (x * 2) % 2 == 0
  {
  }

  /** The significand of a normal value worth r places of size 2^k. */
  lemma {:induction false} NormalParity(v: F128, r: nat, k: nat)
    requires IsNormal(v) && Units(v) == r * Pow2(k) && Pow2(112) <= r <= Pow2(113) && r % 2 == 0
    ensures v.lo % 2 == 0
  {
    hide Pow2, Units, Significand, Place, IsNormal;
    PowDouble(111);
    PowDouble(112);
    UnitsOf(v);
    NormalBits(v);
    LowBitOfSignificand(v);
    if r == Pow2(113) {
      CarryValue(r, k);
      NormalUnique(Significand(v), Place(v), Pow2(112), k + 1);
    } else {
      NormalUnique(Significand(v), Place(v), r, k);
    }
  }

  lemma {:induction false} NormalBits(v: F128)
    requires IsNormal(v)
    ensures Pow2(112) <= Significand(v) < Pow2(113)
  {
    HiddenBit();
    hide Pow2;
  }

  /** The exact value in places of 2^(e - h), for h more bits. */
  lemma {:induction false} Refined(n: nat, d: nat, p: nat, g: nat, e: nat, h: nat)
    requires g > 0 && d > 0 && h <= e && n * g == p * (Pow2(e) * d)
    ensures var gap := Pow2(e - h) * d;
      gap > 0 && n * g == (p * Pow2(h)) * gap
      && n / gap == (p * Pow2(h)) / g && RoundHalfEven(n, gap) == RoundHalfEven(p * Pow2(h), g)
  {
    hide Pow2, RoundHalfEven;
    var gap := Pow2(e - h) * d;
    Pow2Add(h, e - h);
    ProductPositive(Pow2(e - h), d);
    MulAssociative(Pow2(h), Pow2(e - h), d);
    MulAssociative(p, Pow2(h), gap);
    EqualQuotients(n, gap, p * Pow2(h), g);
  }

  lemma {:induction false} ScaledNearer(n: nat, g: nat, x: nat, gap: nat, r: nat, u: nat)
    requires g > 0 && gap > 0 && n * g == x * gap && Abs(r * g - x) < Abs(u * g - x)
    ensures Abs(r * gap - n) < Abs(u * gap - n)
  {
    ScaledDistance(n, g, x, gap, r);
    ScaledDistance(n, g, x, gap, u);
    var (a, b) := (Abs(r * g - x), Abs(u * g - x));
    MulMonotone(a + 1, b, gap);
    assert (a + 1) * gap == a * gap + gap;
    CancelLe(Abs(u * gap - n), Abs(r * gap - n), g);
  }

  lemma {:induction false} ScaledDistance(n: nat, g: nat, x: nat, gap: nat, r: nat)
    requires n * g == x * gap
    ensures Abs(r * gap - n) * g == Abs(r * g - x) * gap
  {
    assert (r * gap - n) * g == (r * gap) * g - n * g;
    assert (r * g - x) * gap == (r * g) * gap - x * gap;
    assert (r * gap) * g == (r * g) * gap;
  }

  lemma {:induction false} RoundedWitness(r: nat, k: nat) returns (w: F128)
    requires r <= Pow2(113) && k < MaxPlace() && (k > 0 ==> r >= Pow2(112))
    ensures IsFinite(w) && Units(w) == r * Pow2(k)
  {
    assert Pow2(0) == 1;
    hide Pow2, Units, IsFinite;
    PowDouble(112);
    if r == Pow2(113) {
      CarryValue(r, k);
      w := NormalWitness(Pow2(112), k + 1);
    } else if r >= Pow2(112) {
      w := NormalWitness(r, k);
    } else {
      w := UnitWitness(r);
    }
  }

  /** A normal result is the nearest value exactly if it lost nothing. */
  lemma {:induction false} SharpIff(n: nat, d: nat, p: nat, g: nat, e: nat, v: F128)
    requires g > 0 && d > 0 && e < MaxPlace() && n * g == p * (Pow2(e) * d) && p / g < Pow2(112)
    requires IsNormal(v) && Units(v) == RoundHalfEven(p, g) * Pow2(e) && Units(v) >= Pow2(112)
    ensures NearestEven(n, d, v) <==> Sharp(p, g, e)
  {
    var h := Room(p, g, e);
    var (q, r) := (RoundHalfEven(p, g), RoundHalfEven(p * Pow2(h), g));
    hide Pow2, Units, RoundHalfEven, Room, IsNormal, IsFinite, NearestEven;
    NotNothing(q, Pow2(e));
    RoomFills(p, g, e);
    Refined(n, d, p, g, e, h);
    RefinedRange(p, g, h, h < e);
    Regauge(q, h, e);
    if r == q * Pow2(h) {
      SharpNearest(n, d, p, g, e, h, v);
    } else {
      BluntFar(n, d, p, g, e, h, v);
    }
  }

  lemma {:induction false} Regauge(q: nat, h: nat, e: nat)
    requires h <= e
    ensures q * Pow2(e) == (q * Pow2(h)) * Pow2(e - h)
  {
    hide Pow2;
    Pow2Add(h, e - h);
    MulAssociative(q, Pow2(h), Pow2(e - h));
  }

  lemma {:induction false} NotNothing(q: nat, t: nat)
    requires q * t >= Pow2(112)
    ensures q >= 1
  {
    hide Pow2;
    PowDouble(112);
  }

  lemma {:induction false} RefinedRange(p: nat, g: nat, h: nat, full: bool)
    requires g > 0 && (p * Pow2(h)) / g < Pow2(113) && (full ==> Pow2(112) <= (p * Pow2(h)) / g)
    ensures RoundHalfEven(p * Pow2(h), g) <= Pow2(113) && (full ==> Pow2(112) <= RoundHalfEven(p * Pow2(h), g))
  {
    hide Pow2;
  }

  lemma {:induction false} SharpNearest(n: nat, d: nat, p: nat, g: nat, e: nat, h: nat, v: F128)
    requires g > 0 && d > 0 && h <= e && (h == 0 ==> e == 0) && n * g == p * (Pow2(e) * d) && p / g < Pow2(112)
    requires var r := RoundHalfEven(p * Pow2(h), g);
      && r == RoundHalfEven(p, g) * Pow2(h) && r <= Pow2(113) && Units(v) == r * Pow2(e - h) >= Pow2(112)
    requires IsNormal(v) && (h < e ==> Pow2(112) <= (p * Pow2(h)) / g < Pow2(113))
    ensures NearestEven(n, d, v)
  {
    hide Pow2, Units, RoundHalfEven, IsNormal, NearestEven;
    Refined(n, d, p, g, e, h);
    RefinedParity(p, g, h);
    if h < e {
      RefinedRange(p, g, h, true);
      SharpInside(n, d, RoundHalfEven(p * Pow2(h), g), e - h, v);
    } else {
      SharpUnits(n, d, RoundHalfEven(p * Pow2(h), g), v);
    }
  }

  lemma {:induction false} RefinedParity(p: nat, g: nat, h: nat)
    requires g > 0 && p / g < Pow2(112)
    ensures h > 0 ==> (RoundHalfEven(p, g) * Pow2(h)) % 2 == 0
    ensures h == 0 ==> RoundHalfEven(p, g) * Pow2(h) == RoundHalfEven(p, g) <= Pow2(112)
  {
    hide Pow2, RoundHalfEven;
    SmallRounded(p, g);
    if h > 0 {
      EvenTimes(RoundHalfEven(p, g), h);
    } else {
      TimesOne(RoundHalfEven(p, g));
    }
  }

  lemma {:induction false} TimesOne(q: nat)
    ensures q * Pow2(0) == q
  {
    assert Pow2(0) == 1;
  }

  lemma {:induction false} SharpInside(n: nat, d: nat, r: nat, k: nat, v: F128)
    requires d > 0 && Pow2(k) * d > 0 && n / (Pow2(k) * d) >= Pow2(112) && RoundHalfEven(n, Pow2(k) * d) == r
    requires Units(v) == r * Pow2(k) && IsNormal(v) && Pow2(112) <= r <= Pow2(113) && r % 2 == 0
    ensures NearestEven(n, d, v)
  {
    hide Pow2, Units, RoundHalfEven, IsNormal, NearestEven, IsFinite;
    NormalFinite(v);
    NormalParity(v, r, k);
    RoundingNearest(n, d, k, Pow2(k) * d, v);
  }

  lemma {:induction false} PowerIsEven()
    ensures Pow2(112) % 2 == 0
  {
    hide Pow2;
    PowDouble(111);
  }

  lemma {:induction false} SharpUnits(n: nat, d: nat, r: nat, v: F128)
    requires d > 0 && Pow2(0) * d > 0 && RoundHalfEven(n, Pow2(0) * d) == r && Units(v) == r * Pow2(0)
    requires IsNormal(v) && Units(v) >= Pow2(112) && r <= Pow2(113) && (r % 2 == 0 || r <= Pow2(112))
    ensures NearestEven(n, d, v)
  {
    assert Pow2(0) == 1;
    hide Pow2, Units, RoundHalfEven, IsNormal, NearestEven;
    TimesOne(r);
    PowerIsEven();
    NormalFinite(v);
    NormalParity(v, r, 0);
    UnitsNearest(n, d, v);
  }

  lemma {:induction false} NormalFinite(v: F128)
    requires IsNormal(v)
    ensures IsFinite(v)
  {
  }

  lemma {:induction false} SmallRounded(p: nat, g: nat)
    requires g > 0 && p / g < Pow2(112)
    ensures RoundHalfEven(p, g) <= Pow2(112)
  {
    hide Pow2;
  }

  lemma {:induction false} BluntFar(n: nat, d: nat, p: nat, g: nat, e: nat, h: nat, v: F128)
    requires g > 0 && d > 0 && h <= e < MaxPlace() && (h == 0 ==> e == 0) && n * g == p * (Pow2(e) * d)
    requires var r := RoundHalfEven(p * Pow2(h), g); var u := RoundHalfEven(p, g) * Pow2(h);
      r != u && r <= Pow2(113) && Units(v) == u * Pow2(e - h) && (h < e ==> r >= Pow2(112))
    ensures !NearestEven(n, d, v)
  {
    hide Pow2, Units, RoundHalfEven, NearestEven;
    Refined(n, d, p, g, e, h);
    Unrefined(p, g);
    EvenTimes(RoundHalfEven(p, g), if h > 0 then h else 1);
    FartherValue(n, d, p * Pow2(h), g, RoundHalfEven(p, g) * Pow2(h), e - h, v);
  }

  lemma {:induction false} Unrefined(p: nat, g: nat)
    requires g > 0
    ensures RoundHalfEven(p * Pow2(0), g) == RoundHalfEven(p, g) * Pow2(0)
  {
    assert Pow2(0) == 1;
    hide Pow2, RoundHalfEven;
    assert p * 1 == p;
  }

  lemma {:induction false} FartherValue(n: nat, d: nat, x: nat, g: nat, u: nat, k: nat, v: F128)
    requires g > 0 && d > 0 && k < MaxPlace() && n * g == x * (Pow2(k) * d) && u % 2 == 0 && Units(v) == u * Pow2(k)
    requires var r := RoundHalfEven(x, g); r != u && r <= Pow2(113) && (k > 0 ==> r >= Pow2(112))
    ensures !NearestEven(n, d, v)
  {
    hide Pow2, Units, RoundHalfEven, IsFinite;
    var r := RoundHalfEven(x, g);
    Farther(x, g, u);
    ProductPositive(Pow2(k), d);
    ScaledNearer(n, g, x, Pow2(k) * d, r, u);
    var w := RoundedWitness(r, k);
    MulAssociative(r, Pow2(k), d);
    MulAssociative(u, Pow2(k), d);
    assert !AtLeastAsNear(n, d, v, w);
  }

  // ---------------------------------------------------------------------------
  // Subnormal results

  lemma {:induction false} RoundedAtMost(x: nat, g: nat, m: nat)
    requires g > 0 && x <= m * g
    ensures RoundHalfEven(x, g) <= m
  {
    assert x == (x / g) * g + x % g;
    assert (m + 1) * g == m * g + g;
    if x / g >= m {
      MulMonotone(m, x / g, g);
      if x / g > m {
        MulMonotone(m + 1, x / g, g);
      }
    }
  }

  lemma {:induction false} RoundsToNothing(x: nat, g: nat)
    requires g > 0
    ensures RoundHalfEven(x, g) == 0 <==> 2 * x <= g
  {
    assert x == (x / g) * g + x % g;
    if x / g >= 1 {
      MulMonotone(1, x / g, g);
    } else {
      SmallMod(x, g);
    }
  }

  lemma {:induction false} SmallPlace(v: F128)
    requires IsFinite(v) && Units(v) < Pow2(112)
    ensures Place(v) == 0
  {
    hide Pow2;
    HiddenBit();
    if Place(v) > 0 {
      PlaceGrows(Significand(v), Place(v));
    }
  }

  lemma {:induction false} ZeroIff(n: nat, d: nat, v: F128)
    requires d > 0 && IsFinite(v) && Units(v) == 0
    ensures NearestEven(n, d, v) <==> 2 * n <= d
  {
    UnitsOf(v);
    LowBitOfSignificand(v);
    ZeroSignificand(v);
    hide Pow2, Units, IsFinite, Significand;
    if 2 * n <= d {
      ZeroNearest(n, d, v);
    } else {
      OneIsLess();
      var w := UnitWitness(1);
      assert !AtLeastAsNear(n, d, v, w);
    }
  }

  lemma {:induction false} OneIsLess()
    ensures 1 < Pow2(113)
  {
    hide Pow2;
    PowDouble(112);
  }

  lemma {:induction false} ZeroSignificand(v: F128)
    requires Units(v) == 0
    ensures Significand(v) == 0
  {
    hide Pow2;
    if Significand(v) > 0 {
      ProductPositive(Significand(v), Pow2(Place(v)));
    }
  }

  /** Halving what was rounded to an integer agrees with rounding one bit finer only just above
      one half. */
  lemma {:induction false} LuckyIff(p: nat, g: nat, q: nat, t: nat)
    requires g > 0 && t >= 1 && (t == 1 || t % 2 == 0) && q == RoundHalfEven(p, g) >= 1
    ensures RoundHalfEven(p * (2 * t), g) == q * t
      <==> g < 2 * p && (4 * t) * p <= (2 * t + 1) * g && (t == 1 ==> 4 * p < 3 * g)
  {
    WithinHalf(p, g);
    RoundsToNothing(p, g);
    LuckyProducts(p, g, t);
    if q == 1 {
      OneLucky(p, g, t);
    } else {
      NotLucky(p, g, q, t);
    }
  }

  lemma {:induction false} LuckyProducts(p: nat, g: nat, t: nat)
    ensures (4 * t) * p == 2 * (p * (2 * t)) && (2 * t + 1) * g == 2 * (t * g) + g
  {
  }

  lemma {:induction false} OneLucky(p: nat, g: nat, t: nat)
    requires g > 0 && t >= 1 && (t == 1 || t % 2 == 0) && g < 2 * p
    ensures RoundHalfEven(p * (2 * t), g) == t
      <==> 2 * (p * (2 * t)) <= 2 * (t * g) + g && (t == 1 ==> 4 * p < 3 * g)
  {
    var x := p * (2 * t);
    MulMonotone(g, 2 * p, t);
    assert x == (2 * p) * t;
    if 2 * x <= 2 * (t * g) + g {
      DivModUnique(x, g, t, x - t * g);
    } else {
      WithinHalf(x, g);
    }
  }

  lemma {:induction false} NotLucky(p: nat, g: nat, q: nat, t: nat)
    requires g > 0 && t >= 1 && q >= 2 && 2 * Abs(q * g - p) <= g
    ensures RoundHalfEven(p * (2 * t), g) != q * t
    ensures 2 * (p * (2 * t)) > 2 * (t * g) + g
  {
    var x := p * (2 * t);
    assert 2 * x == (2 * t) * (2 * p);
    MulMonotone(2 * (q * g) - g, 2 * p, 2 * t);
    LuckyExpand(q, g, t);
    MulMonotone(2, q, t * g);
    MulMonotone(1, t, g);
    WithinHalf(x, g);
    hide RoundHalfEven;
  }

  lemma {:induction false} LuckyExpand(q: nat, g: nat, t: nat)
    ensures (2 * t) * (2 * (q * g) - g) == 4 * ((q * t) * g) - 2 * (t * g) && q * (t * g) == (q * t) * g
  {
  }

  lemma {:induction false} PowHalf(e: nat)
    requires e >= 1
    ensures Pow2(e) == 2 * Pow2(e - 1) && (e == 1 ==> Pow2(e - 1) == 1) && (e >= 2 ==> Pow2(e - 1) % 2 == 0)
    ensures Pow2(e - 1) == 1 ==> e == 1
  {
    if e >= 2 {
      PowDouble(e - 2);
    }
  }

  /** A result below the normal range, from a quotient at a place of the format. */
  lemma {:induction false} HalvedIff(n: nat, d: nat, p: nat, g: nat, e: nat, v: F128)
    requires g > 0 && d > 0 && n * g == p * (Pow2(e) * d) && RoundHalfEven(p, g) >= 1
    requires RoundHalfEven(p, g) * Pow2(e) < Pow2(112)
    requires IsFinite(v) && Units(v) == (RoundHalfEven(p, g) * Pow2(e)) / 2
    ensures 2 * n > d && (NearestEven(n, d, v) <==> Lucky(p, g, e))
  {
    hide Pow2, Units, IsFinite, RoundHalfEven, NearestEven;
    var q := RoundHalfEven(p, g);
    SmallPlace(v);
    RoundsToNothing(p, g);
    HalvedBound(n, d, p, g, e);
    NearestUnits(n, d, v);
    if e == 0 {
      TimesOne(q);
      Unrefined(p, g);
      TimesOne(p);
    } else {
      PowHalf(e);
      var t := Pow2(e - 1);
      assert q * (2 * t) == (q * t) * 2;
      LuckyIff(p, g, q, t);
    }
  }

  lemma {:induction false} HalvedBound(n: nat, d: nat, p: nat, g: nat, e: nat)
    requires g > 0 && d > 0 && n * g == p * (Pow2(e) * d) && g < 2 * p
    requires 1 <= RoundHalfEven(p, g) && RoundHalfEven(p, g) * Pow2(e) < Pow2(112)
    ensures RoundHalfEven(n, d) == RoundHalfEven(p * Pow2(e), g) < Pow2(113) && 2 * n > d
  {
    hide Pow2, RoundHalfEven;
    Refined(n, d, p, g, e, e);
    UnitGap(d);
    PowDouble(112);
    WithinHalf(p, g);
    UpToDouble(p, g, RoundHalfEven(p, g), Pow2(e));
    RoundedAtMost(p * Pow2(e), g, 2 * (RoundHalfEven(p, g) * Pow2(e)));
    AboveHalf(n, d, p, g, Pow2(e));
  }

  lemma {:induction false} UnitGap(d: nat)
    ensures Pow2(0) * d == d
  {
    assert Pow2(0) == 1;
  }

  lemma {:induction false} UpToDouble(p: nat, g: nat, q: nat, t: nat)
    requires 2 * Abs(q * g - p) <= g && q >= 1
    ensures p * t <= (2 * (q * t)) * g
  {
    MulMonotone(1, q, g);
    MulMonotone(p, 2 * (q * g), t);
    assert (2 * (q * g)) * t == (2 * (q * t)) * g;
  }

  lemma {:induction false} AboveHalf(n: nat, d: nat, p: nat, g: nat, t: nat)
    requires g > 0 && d > 0 && t > 0 && n * g == p * (t * d) && g < 2 * p
    ensures 2 * n > d
  {
    MulMonotone(1, t, d);
    MulMonotone(d, t * d, 2 * p);
    MulMonotone(g + 1, 2 * p, d);
    assert (2 * p) * (t * d) == (2 * n) * g;
    assert (g + 1) * d == d * g + d;
    CancelLe(2 * n, d, g);
  }

  /** Packing below the lowest place truncates, one place too far. */
  lemma {:induction false} PackBelow(sign: nat, exp: int, mant: U128, t: nat)
    requires sign <= 1 && 0 < Val(mant) < Pow2(113) && t == -(exp + 16382) > 0
    ensures var v := PackParts(sign, exp, mant);
      IsFinite(v) && Sign(v) == sign && Units(v) == Val(mant) / Pow2(t + 1)
  {
    hide Pow2, Normalize, StoreParts, Val, Units, Significand;
    NotZero(mant);
    var shift := NormalizeUp(exp, mant);
    var (e, m) := Normalize(exp, mant);
    UnitsOf(StoreParts(sign, e, m));
    StoreSubnormal(sign, e, m);
    Pow2Add(t + 1, shift);
    ScaledDivision(Val(mant), Pow2(t + 1), Pow2(shift));
  }

  /** A result from a quotient below the lowest place. */
  lemma {:induction false} BelowIff(n: nat, d: nat, p: nat, g: nat, t: nat, v: F128)
    requires g > 0 && d > 0 && t > 0 && (n * g) * Pow2(t) == p * d && p / g < Pow2(112)
    requires IsFinite(v) && Units(v) == RoundHalfEven(p, g) / Pow2(t + 1)
    ensures NearestEven(n, d, v) <==> 2 * n <= d
  {
    hide Pow2, Units, IsFinite, RoundHalfEven, NearestEven;
    PowDouble(t);
    PowDouble(t - 1);
    PowDouble(112);
    var h := Pow2(t - 1);
    BelowQuotient(n, d, p, g, Pow2(t));
    SmallRounded(p, g);
    SmallerQuotient(RoundHalfEven(p, g), 4 * h);
    SmallPlace(v);
    CoarseSmall(p, g, Pow2(t));
    NearestUnits(n, d, v);
    RoundsToNothing(n, d);
    CoarseIff(p, g, h);
  }

  lemma {:induction false} SmallerQuotient(q: nat, x: nat)
    requires x >= 4 && q <= Pow2(112)
    ensures q / x < Pow2(112)
  {
    hide Pow2;
    DivMonotone(q, Pow2(112), x);
    QuotientBound(Pow2(112), x, Pow2(112));
  }

  lemma {:induction false} BelowQuotient(n: nat, d: nat, p: nat, g: nat, x: nat)
    requires g > 0 && d > 0 && x > 0 && (n * g) * x == p * d
    ensures g * x > 0 && RoundHalfEven(n, d) == RoundHalfEven(p, g * x)
  {
    ProductPositive(g, x);
    assert (n * g) * x == n * (g * x);
    EqualQuotients(n, d, p, g * x);
  }

  lemma {:induction false} CoarseSmall(p: nat, g: nat, x: nat)
    requires g > 0 && x > 0 && g * x > 0 && p / g < Pow2(112)
    ensures RoundHalfEven(p, g * x) < Pow2(113)
  {
    hide Pow2, RoundHalfEven;
    PowDouble(112);
    var m := Pow2(112);
    assert p == (p / g) * g + p % g && (p / g + 1) * g == (p / g) * g + g;
    MulMonotone(p / g + 1, m, g);
    MulMonotone(1, x, m * g);
    assert (m * g) * x == m * (g * x);
    RoundedAtMost(p, g * x, m);
  }

  /** A number of places rounded, then cut to a quarter of the coarser ones, and rounded to the
      coarser places at once: equal only at zero. */
  lemma {:induction false} CoarseIff(p: nat, g: nat, h: nat)
    requires g > 0 && h > 0 && g * (2 * h) > 0
    ensures RoundHalfEven(p, g) / (4 * h) == RoundHalfEven(p, g * (2 * h)) <==> RoundHalfEven(p, g * (2 * h)) == 0
  {
    var (q, r) := (RoundHalfEven(p, g), RoundHalfEven(p, g * (2 * h)));
    WithinHalf(p, g);
    WithinHalf(p, g * (2 * h));
    RoundsToNothing(p, g * (2 * h));
    hide RoundHalfEven;
    if r == 0 {
      CoarseZero(p, g, h, q);
    } else if q / (4 * h) == r {
      CoarseNever(p, g, h, q, r);
    }
  }

  lemma {:induction false} CoarseZero(p: nat, g: nat, h: nat, q: nat)
    requires g > 0 && h > 0 && 2 * Abs(q * g - p) <= g && 2 * p <= g * (2 * h)
    ensures q / (4 * h) == 0
  {
    assert g * (2 * h) == 2 * (h * g);
    assert (h + 1) * g == h * g + g;
    if q > h {
      MulMonotone(h + 1, q, g);
    }
    SmallMod(q, 4 * h);
  }

  lemma {:induction false} CoarseNever(p: nat, g: nat, h: nat, q: nat, r: nat)
    requires g > 0 && h > 0 && 2 * Abs(q * g - p) <= g && 2 * Abs(r * (g * (2 * h)) - p) <= g * (2 * h) && r >= 1
    ensures q / (4 * h) != r
  {
    var c := h * g;
    CoarsePlaces(g, h, r);
    MulMonotone(1, r, c);
    MulMonotone(1, h, g);
    CoarseGap(p, g, c, r * c, q * g);
    QuotientLess(q, r, 4 * h, g);
  }

  lemma {:induction false} CoarsePlaces(g: nat, h: nat, r: nat)
    ensures g * (2 * h) == 2 * (h * g) && r * (g * (2 * h)) == 2 * (r * (h * g))
    ensures (r * (4 * h)) * g == 4 * (r * (h * g))
  {
    assert r * (2 * (h * g)) == 2 * (r * (h * g));
    assert (r * (4 * h)) * g == r * (4 * (h * g));
  }

  lemma {:induction false} CoarseGap(p: nat, g: nat, c: nat, y: nat, x: nat)
    requires 0 < g <= c <= y && 2 * Abs(x - p) <= g && 2 * Abs(2 * y - p) <= 2 * c
    ensures x < 4 * y
  {
  }

  lemma {:induction false} QuotientLess(q: nat, r: nat, x: nat, g: nat)
    requires x > 0 && g > 0 && q * g < (r * x) * g
    ensures q / x != r
  {
    CancelLe(r * x, q, g);
    assert q == (q / x) * x + q % x;
  }

  // ---------------------------------------------------------------------------
  // The result

  lemma {:induction false} ShortBelowOverflow(n: nat, d: nat, p: nat, g: nat, e: int)
    requires g > 0 && d > 0 && p / g < Pow2(112) && e < MaxPlace() && SameValue(n, d, p, g, e)
    ensures n < OverflowBound() * d
  {
    hide Pow2;
    var h := Pow2(MaxPlace() - 1);
    PowDouble(112);
    PowDouble(113);
    if e >= 0 {
      Pow2Monotone(e, MaxPlace() - 1);
      OverflowBelow(n, d, p, g, Pow2(e), h, Pow2(112));
    } else {
      PowPositiveExp(-e);
      var x := Pow2(-e);
      MulMonotone(1, x, n * g);
      DividendBelow(p, g, Pow2(112));
      RatioBelow(p, 2 * Pow2(112), n, g, d);
      FarBelow(n, d, Pow2(112), h);
    }
  }

  lemma {:induction false} FarBelow(n: nat, d: nat, t: nat, h: nat)
    requires n < (2 * t) * d && t > 0 && h > 0
    ensures n < ((4 * t - 1) * h) * d
  {
    MulMonotone(1, h, 4 * t - 1);
    MulMonotone(2 * t, (4 * t - 1) * h, d);
  }

  lemma {:induction false} PackedShort(sign: nat, exp: int, mant: U128, p: nat, g: nat, n: nat, d: nat)
    requires sign <= 1 && g > 0 && d > 0 && exp + 16382 < MaxPlace() && SameValue(n, d, p, g, exp + 16382)
    requires p / g < Pow2(112) && Val(mant) == RoundHalfEven(p, g) > 0
    ensures var v := PackParts(sign, exp, mant);
      IsFinite(v) && Sign(v) == sign && (NearestEven(n, d, v) <==> ShortIsRight(n, d, p, g, exp + 16382))
  {
    hide Pow2, PackParts, NearestEven, Units, Val, RoundHalfEven, Sharp, IsNormal;
    var e := exp + 16382;
    var v := PackParts(sign, exp, mant);
    SmallRounded(p, g);
    PowDouble(112);
    if e >= 0 {
      PackExact(sign, exp, mant);
      if RoundHalfEven(p, g) * Pow2(e) >= Pow2(112) {
        SharpIff(n, d, p, g, e, v);
      } else {
        HalvedIff(n, d, p, g, e, v);
      }
    } else {
      PackBelow(sign, exp, mant, -e);
      BelowIff(n, d, p, g, -e, v);
    }
  }

  lemma {:induction false} NothingLeft(p: nat, g: nat, e: int)
    requires g > 0 && RoundHalfEven(p, g) == 0
    ensures !Lucky(p, g, e) && (e >= 0 ==> RoundHalfEven(p, g) * Pow2(e) < Pow2(112))
  {
    hide Pow2;
    RoundsToNothing(p, g);
  }

  lemma {:induction false} PackNothing(sign: nat, exp: int, mant: U128)
    requires sign <= 1 && Val(mant) == 0
    ensures var v := PackParts(sign, exp, mant); IsFinite(v) && Sign(v) == sign && Units(v) == 0
  {
    assert mant.hi == 0 && mant.lo == 0;
    hide Pow2;
    EncodeFields(sign, 0, 0, 0);
  }

  /** Main result on short quotients: p/g has fewer than 113 bits and mant is p/g rounded to an
      integer.  The packed value is the correctly rounded exact value if and only if the
      condition holds. */
  lemma {:induction false} ShortPackIff(sign: nat, exp: int, mant: U128, p: nat, g: nat, n: nat, d: nat)
    requires sign <= 1 && g > 0 && d > 0 && exp + 16382 < MaxPlace() && SameValue(n, d, p, g, exp + 16382)
    requires p / g < Pow2(112) && Val(mant) == RoundHalfEven(p, g)
    ensures RoundsTo(n, d, sign, PackParts(sign, exp, mant)) <==> ShortIsRight(n, d, p, g, exp + 16382)
  {
    hide Pow2, PackParts, NearestEven, OverflowBound, Val, RoundHalfEven, Units, IsFinite, SameValue, Sharp, Lucky;
    ShortBelowOverflow(n, d, p, g, exp + 16382);
    if Val(mant) == 0 {
      PackNothing(sign, exp, mant);
      ZeroIff(n, d, PackParts(sign, exp, mant));
      NothingLeft(p, g, exp + 16382);
    } else {
      hide ShortIsRight;
      PackedShort(sign, exp, mant, p, g, n, d);
    }
  }
}
