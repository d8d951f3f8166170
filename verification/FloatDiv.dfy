/**
 Division: a restoring divider that produces 113 quotient bits and rounds by the remainder.
 */
module FloatDiv {
  import opened Numbers
  import opened Words
  import opened Float128
  import opened Rounding
  import opened FloatPack
  import opened FloatRound
  import opened FloatShort
  import opened FloatMul
  import opened LongDivision

  // ---------------------------------------------------------------------------
  // One step of the divider

  lemma {:induction false} Shl1Val(a: U128)
    requires 2 * Val(a) < TWO128
    ensures Val(Shl1(a)) == 2 * Val(a)
  {
    assert Pow2(1) == 2;
    hide Pow2, Shl, Val;
    ShlIsShl1(a);
    ShlVal(a, 1);
  }

  lemma {:induction false} ShlIsShl1(a: U128)
    ensures Shl1(a) == Shl(a, 1)
  {
  }

  lemma {:induction false} OrOne(a: U128)
    requires Val(a) % 2 == 0
    ensures Val(Or(a, ONE)) == Val(a) + 1
  {
    assert Pow2(1) == 2;
    hide Pow2, Or;
    OrVal(a, ONE, 1);
  }

  /** Shifting the quotient in and setting its low bit. */
  lemma {:induction false} QuotientBit(q: U128)
    requires 2 * Val(q) + 1 < TWO128
    ensures Val(Shl1(q)) == 2 * Val(q) && Val(Or(Shl1(q), ONE)) == 2 * Val(q) + 1
  {
    hide Shl1, Or, Val;
    Shl1Val(q);
    OrOne(Shl1(q));
  }

  // ---------------------------------------------------------------------------
  // The quotient

  /** p = q * g + r with r < g: no tie is possible when g fits in 113 bits and p carries a
      factor 2^113, so the remainder test rounds to nearest. */
  lemma {:induction false} RemainderRounding(ma: nat, mb: nat, t: nat, q: nat, r: nat)
    requires mb > 0 && mb < t && ma * t == q * mb + r && r < mb
    requires NoTie(mb, t)
    ensures (ma * t) / mb == q
    ensures RoundHalfEven(ma * t, mb) == if 2 * r >= mb then q + 1 else q
  {
    DivModUnique(ma * t, mb, q, r);
    assert 2 * (ma * t) == ma * (2 * t);
    assert (2 * q + 1) * mb == 2 * (q * mb) + mb;
    assert !OddMultiple(mb, t, q, ma);
  }

  predicate OddMultiple(mb: nat, t: nat, q: nat, ma: nat) {
    (2 * q + 1) * mb == ma * (2 * t)
  }

  ghost predicate NoTie(mb: nat, t: nat) {
    forall q: nat, ma: nat :: !OddMultiple(mb, t, q, ma)
  }

  /** An odd multiple of mb is divisible by 2^k only if mb is. */
  lemma {:induction false} OddMultipleDivides(k: nat, mb: nat, q: nat, m: nat)
    requires (2 * q + 1) * mb == m * Pow2(k)
    ensures mb % Pow2(k) == 0
    decreases k
  {
    if k == 0 {
      assert mb % 1 == 0;
    } else {
      var h := Pow2(k - 1);
      assert Pow2(k) == 2 * h;
      hide Pow2;
      assert m * (2 * h) == 2 * (m * h);
      OddTimes(q, mb);
      var b := mb / 2;
      assert (2 * q + 1) * (2 * b) == 2 * ((2 * q + 1) * b);
      OddMultipleDivides(k - 1, b, q, m);
      HalfMod(mb, h);
    }
  }

  lemma {:induction false} OddTimes(q: nat, mb: nat)
    requires ((2 * q + 1) * mb) % 2 == 0
    ensures mb % 2 == 0 && mb == 2 * (mb / 2)
  {
    assert (2 * q + 1) * mb == mb + (q * mb) * 2;
    ModShift(mb, q * mb, 2);
  }

  lemma {:induction false} NoTieBelow(mb: nat)
    requires 0 < mb < Pow2(113)
    ensures NoTie(mb, Pow2(113))
  {
    hide Pow2;
    forall q: nat, ma: nat
      ensures !OddMultiple(mb, Pow2(113), q, ma)
    {
      if OddMultiple(mb, Pow2(113), q, ma) {
        PowDouble(113);
        OddMultipleDivides(114, mb, q, ma);
        SmallMod(mb, Pow2(114));
      }
    }
  }

  lemma {:induction false} DivStep(ma: nat, mb: nat, t: nat, q: nat, r: nat)
    requires mb > 0 && ma * t == q * mb + r && r < mb
    ensures 2 * r >= mb ==> ma * (2 * t) == (2 * q + 1) * mb + (2 * r - mb) && 2 * r - mb < mb
    ensures 2 * r < mb ==> ma * (2 * t) == (2 * q) * mb + 2 * r
  {
    assert ma * (2 * t) == 2 * (ma * t);
    assert (2 * q) * mb == 2 * (q * mb);
    assert (2 * q + 1) * mb == 2 * (q * mb) + mb;
  }

  /** What 113 steps of the divider leave behind. */
  predicate Divided(ma: nat, mb: nat, q: nat, r: nat, i: nat) {
    && q < Pow2(i) && (i >= 1 && ma >= mb - ma ==> 2 * q >= Pow2(i))
    && (ma < mb ==> r < mb && ma * Pow2(i) == q * mb + r)
    && (ma == mb ==> r == mb && q == Pow2(i) - 1)
  }

  lemma {:induction false} DividedStart(ma: nat, mb: nat)
    ensures Divided(ma, mb, 0, ma, 0)
  {
    assert Pow2(0) == 1;
  }

  lemma {:induction false} DividedStep(ma: nat, mb: nat, q: nat, r: nat, i: nat, r2: nat)
    requires mb > 0 && Divided(ma, mb, q, r, i) && (i == 0 ==> q == 0 && r == ma)
    requires ma <= mb || i == 0 ==> r2 == 2 * r
    ensures r2 >= mb ==> Divided(ma, mb, 2 * q + 1, r2 - mb, i + 1)
    ensures r2 < mb ==> Divided(ma, mb, 2 * q, r2, i + 1)
  {
    PowDouble(i);
    assert Pow2(0) == 1;
    hide Pow2;
    if ma < mb {
      DivStep(ma, mb, Pow2(i), q, r);
    }
  }

  /** The limbs never overflow while the remainder stays at or below the divisor. */
  lemma {:induction false} StepValues(mb: U128, q: U128, r: U128, i: nat)
    requires Val(mb) < Pow2(113) && Val(q) < Pow2(i) && i <= 113
    ensures Val(Shl1(q)) == 2 * Val(q) && Val(Or(Shl1(q), ONE)) == 2 * Val(q) + 1
    ensures Val(r) < Pow2(113) ==> Val(Shl1(r)) == 2 * Val(r)
    ensures Gte(Shl1(r), mb) <==> Val(Shl1(r)) >= Val(mb)
    ensures Gte(Shl1(r), mb) ==> Val(Sub(Shl1(r), mb)) == Val(Shl1(r)) - Val(mb)
  {
    hide Pow2, Shl1, Or, Val, Gte, Sub;
    Pow2Monotone(i, 113);
    FitsTwice();
    QuotientBit(q);
    if Val(r) < Pow2(113) {
      Shl1Val(r);
    }
    GtVal(Shl1(r), mb);
    if Gte(Shl1(r), mb) {
      SubVal(Shl1(r), mb);
    }
  }

  lemma {:induction false} FitsTwice()
    ensures 4 * Pow2(113) <= TWO128
  {
    hide Pow2;
    WordIsPow2();
    PowDouble(113);
    PowDouble(114);
    Pow2Monotone(115, 128);
  }

  // ---------------------------------------------------------------------------
  // A dividend significand at or above the divisor's

  /** Step i of the divider, on 128-bit remainders that wrap around, sets its quotient bit if
      all steps before it did. */
  predicate BitSet(ma: nat, mb: nat, i: nat)
    requires mb <= ma
  {
    (Pow2(i) * (ma - mb) + 2 * mb) % TWO128 >= mb
  }

  predicate BitsSet(ma: nat, mb: nat, n: nat)
    requires mb <= ma
  {
    forall i :: 1 <= i <= n ==> BitSet(ma, mb, i)
  }

  /** All 113 quotient bits are ones and the quotient is rounded up. */
  predicate Saturates(ma: nat, mb: nat)
    requires mb <= ma
  {
    BitsSet(ma, mb, 114)
  }

  lemma {:induction false} TopBitDropped(hi: nat, lo: nat, h: nat, w: nat, y: nat)
    requires h > 0 && w == 2 * h && y == (hi % h) * 2 * w + lo * 2 && y < w * w
    ensures y == (2 * (hi * w + lo)) % (w * w)
  {
    var (x, r) := (hi / h, hi % h);
    var sq := w * w;
    assert hi * w == (x * h) * w + r * w;
    assert 2 * ((x * h) * w) == x * sq;
    DivModUnique(2 * (hi * w + lo), sq, x, y);
  }

  lemma {:induction false} ValIs(a: U128)
    ensures Val(a) == a.hi * WORD + a.lo
  {
  }

  /** Shifting left drops the top bit. */
  lemma {:induction false} Shl1Wraps(a: U128)
    ensures Val(Shl1(a)) == (2 * Val(a)) % TWO128
  {
    assert Pow2(1) == 2;
    hide Pow2, Shl1, Shl;
    ShlSmall(a, 1);
    ShlIsShl1(a);
    HalfWords(1);
    ValBound(Shl1(a));
    assert Pow2(63) > 0;
    hide Val;
    ValIs(a);
    TopBitDropped(a.hi, a.lo, Pow2(63), WORD, Val(Shl1(a)));
  }

  /** The remainder and quotient while every bit was a one. */
  predicate Saturated(ma: nat, mb: nat, q: nat, r: nat, i: nat)
    requires mb <= ma
  {
    && q < Pow2(i)
    && (q == Pow2(i) - 1 <==> BitsSet(ma, mb, i))
    && (q == Pow2(i) - 1 ==> r == (Pow2(i) * (ma - mb) + mb) % TWO128)
  }

  lemma {:induction false} SaturatedStart(ma: nat, mb: nat)
    requires mb <= ma < TWO128
    ensures Saturated(ma, mb, 0, ma, 0)
  {
    assert Pow2(0) == 1;
    SmallMod(ma, TWO128);
  }

  lemma {:induction false} MoreBits(ma: nat, mb: nat, i: nat)
    requires mb <= ma
    ensures BitsSet(ma, mb, i + 1) <==> BitsSet(ma, mb, i) && BitSet(ma, mb, i + 1)
  {
  }

  /** Doubling modulo w, and then taking m off. */
  lemma {:induction false} DoubledMod(x: nat, m: nat, w: nat)
    requires m < w
    ensures (2 * ((x + m) % w)) % w == (2 * x + 2 * m) % w
    ensures (2 * x + 2 * m) % w >= m ==> (2 * x + 2 * m) % w - m == (2 * x + m) % w
  {
    var y := x + m;
    var k := y / w;
    assert y == k * w + y % w;
    assert 2 * (k * w) == (2 * k) * w;
    ModShift(2 * (y % w), 2 * k, w);
    var z := (2 * y) % w;
    var j := (2 * y) / w;
    assert 2 * y == j * w + z;
    if z >= m {
      DivModUnique(2 * x + m, w, j, z - m);
    }
  }

  lemma {:induction false} SaturatedStep(ma: nat, mb: nat, q: nat, r: nat, i: nat, r2: nat)
    requires mb <= ma && mb < TWO128 && Saturated(ma, mb, q, r, i) && r2 == (2 * r) % TWO128
    ensures r2 >= mb ==> Saturated(ma, mb, 2 * q + 1, r2 - mb, i + 1)
    ensures r2 < mb ==> Saturated(ma, mb, 2 * q, r2, i + 1)
    ensures q == Pow2(i) - 1 ==> (r2 >= mb <==> BitSet(ma, mb, i + 1))
  {
    hide BitsSet;
    MoreBits(ma, mb, i);
    PowDouble(i);
    hide Pow2;
    assert Pow2(i + 1) * (ma - mb) == 2 * (Pow2(i) * (ma - mb));
    ProductNat(Pow2(i), ma - mb);
    DoubledMod(Pow2(i) * (ma - mb), mb, TWO128);
  }

  lemma {:induction false} ProductNat(a: nat, b: nat)
    ensures a * b >= 0
  {
  }

  lemma {:induction false} LastBit(ma: nat, mb: nat, q: nat, r: nat, r2: nat)
    requires mb <= ma && mb < TWO128 && Saturated(ma, mb, q, r, 113) && r2 == (2 * r) % TWO128
    ensures q < Pow2(113)
    ensures q == Pow2(113) - 1 && r2 >= mb <==> Saturates(ma, mb)
  {
    SaturatedStep(ma, mb, q, r, 113, r2);
    MoreBits(ma, mb, 113);
    hide Pow2, BitsSet;
  }

  /** The loop of f128_div. */
  method DivideSignificands(ma: U128, mb: U128) returns (q: U128)
    requires Val(ma) < Pow2(113) && 0 < Val(mb) < Pow2(113)
    ensures Val(mb) <= 2 * Val(ma) ==> Pow2(112) <= Val(q) <= Pow2(113)
    ensures Val(ma) < Val(mb) ==> Val(q) == RoundHalfEven(NatProduct(Val(ma), Pow2(113)), Val(mb))
    ensures Val(ma) == Val(mb) ==> Val(q) == Pow2(113)
    ensures Val(ma) >= Val(mb) ==> (Val(q) == Pow2(113) <==> Saturates(Val(ma), Val(mb)))
    ensures RoundedQuotient(Val(ma), Val(mb), Val(q))
  {
    hide DivisionBits, Rest;
    hide Pow2, Shl1, Or, Val, Gte, Sub, Divided, Saturated, BitsSet, BitSet, Inc, RoundHalfEven, NoTie, NatProduct;
    var remainder := ma;
    q := ZERO;
    ZeroVal();
    DividedStart(Val(ma), Val(mb));
    ValBound(ma);
    ValBound(mb);
    DivisionStart(Val(ma), Val(mb));
    if Val(ma) >= Val(mb) {
      SaturatedStart(Val(ma), Val(mb));
    }
    for i := 0 to 113
      invariant Divided(Val(ma), Val(mb), Val(q), Val(remainder), i)
      invariant i == 0 ==> Val(q) == 0 && remainder == ma
      invariant DivisionBits(Val(ma), Val(mb), Val(q), i) && Val(remainder) == Rest(Val(ma), Val(mb), Val(q), i)
      invariant Val(ma) >= Val(mb) ==> Saturated(Val(ma), Val(mb), Val(q), Val(remainder), i)
    {
      DividedFacts(Val(ma), Val(mb), Val(q), Val(remainder), i);
      StepValues(mb, q, remainder, i);
      var r2 := Shl1(remainder);
      Shl1Wraps(remainder);
      if Val(ma) >= Val(mb) {
        SaturatedStep(Val(ma), Val(mb), Val(q), Val(remainder), i, Val(r2));
      }
      DividedStep(Val(ma), Val(mb), Val(q), Val(remainder), i, Val(r2));
      DivisionStep(Val(ma), Val(mb), Val(q), i, if Val(r2) >= Val(mb) then 1 else 0);
      remainder := r2;
      q := Shl1(q);
      if Gte(remainder, mb) {
        remainder := Sub(remainder, mb);
        q := Or(q, ONE);
      }
    }
    DividedFacts(Val(ma), Val(mb), Val(q), Val(remainder), 113);
    StepValues(mb, ZERO, remainder, 0);
    RoundingStep(Val(ma), Val(mb), Val(q), Val(remainder));
    if Val(ma) >= Val(mb) {
      Shl1Wraps(remainder);
      LastBit(Val(ma), Val(mb), Val(q), Val(remainder), Val(Shl1(remainder)));
    }
    var up := Gte(Shl1(remainder), mb);
    Shl1Wraps(remainder);
    LastDivisionBit(Val(ma), Val(mb), Val(q), up);
    if up {
      IncFits(q);
      q := Inc(q);
    }
  }

  lemma {:induction false} LastDivisionBit(ma: nat, mb: nat, q: nat, up: bool)
    requires DivisionBits(ma, mb, q, 113) && mb < TWO128 && (up <==> (2 * Rest(ma, mb, q, 113)) % TWO128 >= mb)
    ensures RoundedQuotient(ma, mb, if up then q + 1 else q)
  {
    hide DivisionBits, Rest, Pow2;
    var bit := if up then 1 else 0;
    DivisionStep(ma, mb, q, 113, bit);
    var w := 2 * q + bit;
    assert DivisionBits(ma, mb, w, 114) && w / 2 + w % 2 == if up then q + 1 else q;
  }

  lemma {:induction false} ZeroVal()
    ensures Val(ZERO) == 0 < Pow2(0)
  {
  }

  lemma {:induction false} IncFits(q: U128)
    requires Val(q) <= Pow2(113)
    ensures Val(Inc(q)) == Val(q) + 1
  {
    hide Pow2, Inc;
    FitsTwice();
    PositivePower();
    IncVal(q);
  }

  lemma {:induction false} PositivePower()
    ensures Pow2(113) >= 2
  {
    hide Pow2;
    PowDouble(112);
  }

  lemma {:induction false} DividedFacts(ma: nat, mb: nat, q: nat, r: nat, i: nat)
    requires Divided(ma, mb, q, r, i)
    ensures q < Pow2(i) && (ma <= mb ==> r <= mb)
  {
  }

  lemma {:induction false} RoundingStep(ma: nat, mb: nat, q: nat, r: nat)
    requires Divided(ma, mb, q, r, 113) && ma < Pow2(113) && 0 < mb < Pow2(113)
    ensures mb <= 2 * ma ==> Pow2(112) <= q
    ensures ma < mb ==> RoundHalfEven(NatProduct(ma, Pow2(113)), mb) == if 2 * r >= mb then q + 1 else q
    ensures ma == mb ==> q + 1 == Pow2(113) && r == mb
  {
    hide Pow2, RoundHalfEven, NoTie;
    PowDouble(112);
    if ma < mb {
      NoTieBelow(mb);
      RemainderRounding(ma, mb, Pow2(113), q, r);
    }
  }

  // ---------------------------------------------------------------------------
  // Quotients of normal values

  /** Significands less than a factor of two apart, as those of normal values are. */
  predicate WithinTwo(a: F128, b: F128) {
    Significand(a) < 2 * Significand(b) && Significand(b) <= 2 * Significand(a)
  }

  /** The exact quotient Units(a) / Units(b), in units of 2^-16494, is n/d with these n, d. */
  function QuotientNum(a: F128): nat {
    NatProduct(Units(a), ProductScale())
  }

  /** ma 2^ka / (mb 2^kb) as a quotient of significands times a power of two. */
  lemma {:induction false} QuotientUp(ma: nat, mb: nat, ka: nat, kb: nat, e: nat, x: nat, z: nat)
    requires ka + x == z + e + kb
    ensures SameValue((ma * Pow2(ka)) * Pow2(x), mb * Pow2(kb), ma * Pow2(z), mb, e)
  {
    hide Pow2;
    Pow2Add(ka, x);
    Pow2Add(e, kb);
    Pow2Add(z, e + kb);
    MulAssociative(ma, Pow2(ka), Pow2(x));
    RegroupUp(ma, mb, Pow2(z), Pow2(e), Pow2(kb));
  }

  lemma {:induction false} RegroupUp(ma: nat, mb: nat, z: nat, e: nat, k: nat)
    ensures (ma * z) * (e * (mb * k)) == (ma * (z * (e * k))) * mb
  {
    assert e * (mb * k) == (e * k) * mb;
    assert (ma * z) * ((e * k) * mb) == ((ma * z) * (e * k)) * mb;
    assert (ma * z) * (e * k) == ma * (z * (e * k));
  }

  lemma {:induction false} QuotientDown(ma: nat, mb: nat, ka: nat, kb: nat, e: nat, x: nat, z: nat)
    requires e > 0 && ka + x + e == z + kb
    ensures SameValue((ma * Pow2(ka)) * Pow2(x), mb * Pow2(kb), ma * Pow2(z), mb, 0 - e)
  {
    hide Pow2;
    Pow2Add(ka, x);
    Pow2Add(ka + x, e);
    Pow2Add(z, kb);
    MulAssociative(ma, Pow2(ka), Pow2(x));
    RegroupDown(ma, mb, Pow2(ka + x), Pow2(e), Pow2(z), Pow2(kb));
  }

  lemma {:induction false} RegroupDown(ma: nat, mb: nat, y: nat, e: nat, z: nat, k: nat)
    requires y * e == z * k
    ensures ((ma * y) * mb) * e == (ma * z) * (mb * k)
  {
    assert ((ma * y) * mb) * e == (ma * (y * e)) * mb;
    assert (ma * z) * (mb * k) == (ma * (z * k)) * mb;
  }

  lemma {:induction false} QuotientValue(ma: nat, mb: nat, ka: nat, kb: nat, z: nat, x: nat)
    ensures SameValue(NatProduct(NatProduct(ma, Pow2(ka)), Pow2(x)), NatProduct(mb, Pow2(kb)),
                      NatProduct(ma, Pow2(z)), mb, ka + x - z - kb)
  {
    hide Pow2, SameValue;
    if ka + x >= z + kb {
      QuotientUp(ma, mb, ka, kb, ka + x - z - kb, x, z);
    } else {
      QuotientDown(ma, mb, ka, kb, z + kb - ka - x, x, z);
    }
  }

  lemma {:induction false} QuotientRange(ma: nat, mb: nat)
    requires 0 < ma < mb <= 2 * ma
    ensures Pow2(112) <= NatProduct(ma, Pow2(113)) / mb < Pow2(113)
  {
    hide Pow2;
    PowDouble(112);
    RatioRange(ma, mb, Pow2(112));
  }

  lemma {:induction false} RatioRange(ma: nat, mb: nat, t: nat)
    requires 0 < t && 0 < ma < mb <= 2 * ma
    ensures t <= (ma * (2 * t)) / mb < 2 * t
  {
    var x := ma * (2 * t);
    var q := x / mb;
    assert x == q * mb + x % mb;
    MulMonotone(mb, 2 * ma, t);
    MulMonotone(ma + 1, mb, 2 * t);
    assert (ma + 1) * (2 * t) == x + 2 * t;
    assert (q + 1) * mb == q * mb + mb;
    if q < t {
      MulMonotone(q + 1, t, mb);
    } else if q >= 2 * t {
      MulMonotone(2 * t, q, mb);
    }
  }

  lemma {:induction false} SmallerSignificand(sign: nat, exp: int, q: U128, ma: nat, mb: nat, ka: nat, kb: nat)
    requires sign <= 1 && 0 < ma < mb <= 2 * ma && mb < Pow2(113) && exp + 16382 == ka - kb + 16381
    requires Val(q) == RoundHalfEven(NatProduct(ma, Pow2(113)), mb)
    ensures var n := NatProduct(NatProduct(ma, Pow2(ka)), ProductScale()); var d := NatProduct(mb, Pow2(kb));
      RoundsTo(n, d, sign, PackParts(sign, exp, q)) <==> RoundsToNormal(n, d) || 2 * n <= d
  {
    hide Pow2, Val, RoundHalfEven, PackParts, RoundsTo, RoundsToNormal, SameValue;
    QuotientRange(ma, mb);
    QuotientValue(ma, mb, ka, kb, 113, 16494);
    ProductPositive(mb, Pow2(kb));
    PackCorrectIff(sign, exp, q, NatProduct(ma, Pow2(113)), mb,
                   NatProduct(NatProduct(ma, Pow2(ka)), ProductScale()), NatProduct(mb, Pow2(kb)));
  }

  /** A significand of 2^113 packs like 2^112 one exponent up. */
  lemma {:induction false} PackCarried(sign: nat, exp: int, q: U128, half: U128)
    requires sign <= 1 && Val(q) == Pow2(113) && Val(half) == Pow2(112)
    ensures PackParts(sign, exp, q) == PackParts(sign, exp + 1, half)
  {
    hide Pow2, Normalize, StoreParts, Val;
    PowDouble(112);
    NormalizeCarry(exp, q);
    NormalizeExact(exp + 1, half);
    SameVal(Normalize(exp, q).1, half);
    NotZero(q);
    NotZero(half);
  }

  lemma {:induction false} SameVal(a: U128, b: U128)
    requires Val(a) == Val(b)
    ensures a == b
  {
  }

  lemma {:induction false} HalfSignificand() returns (half: U128)
    ensures Val(half) == Pow2(112)
  {
    hide Pow2;
    HiddenBit();
    half := U128(EXP_UNIT, 0);
  }

  lemma {:induction false} PowerQuotient(m: nat, t: nat)
    requires m > 0
    ensures (m * t) / m == t && RoundHalfEven(m * t, m) == t
  {
    assert m * t == t * m;
    DivModUnique(m * t, m, t, 0);
  }

  lemma {:induction false} EqualSignificands(sign: nat, exp: int, q: U128, m: nat, ka: nat, kb: nat)
    requires sign <= 1 && 0 < m < Pow2(113) && exp + 16382 == ka - kb + 16381
    requires Val(q) == Pow2(113)
    ensures var n := NatProduct(NatProduct(m, Pow2(ka)), ProductScale()); var d := NatProduct(m, Pow2(kb));
      RoundsTo(n, d, sign, PackParts(sign, exp, q)) <==> RoundsToNormal(n, d) || 2 * n <= d
  {
    hide Pow2, Val, RoundHalfEven, PackParts, RoundsTo, RoundsToNormal, SameValue;
    PowDouble(112);
    var half := HalfSignificand();
    PackCarried(sign, exp, q, half);
    PowerQuotient(m, Pow2(112));
    QuotientValue(m, m, ka, kb, 112, 16494);
    ProductPositive(m, Pow2(kb));
    PackCorrectIff(sign, exp + 1, half, NatProduct(m, Pow2(112)), m,
                   NatProduct(NatProduct(m, Pow2(ka)), ProductScale()), NatProduct(m, Pow2(kb)));
  }

  // ---------------------------------------------------------------------------
  // Where the divider fails

  lemma {:induction false} JustAbove(n: nat, d: nat, ma: nat, mb: nat, t: nat, g: nat)
    requires 0 < mb < ma && mb < t && g > 0 && n * mb == (ma * t) * g
    ensures n > (t + 1) * g
  {
    MulMonotone(mb + 1, ma, t);
    assert (mb + 1) * t == mb * t + t;
    MulMonotone(mb * t + mb + 1, ma * t, g);
    assert (mb * t + mb + 1) * g == ((t + 1) * g) * mb + g;
    CancelLe(n, (t + 1) * g, mb);
  }

  /** A value two places up is nearer than anything at or below t places. */
  lemma {:induction false} NearerAbove(n: nat, t: nat, g: nat, q: nat)
    requires g > 0 && n > (t + 1) * g && q <= t
    ensures Abs(q * g - n) > Abs((t + 2) * g - n)
  {
    MulMonotone(q, t, g);
    assert (t + 1) * g == t * g + g && (t + 2) * g == t * g + 2 * g;
  }

  lemma {:induction false} WitnessAbove(e: nat) returns (w: F128)
    requires e <= 32764
    ensures IsFinite(w) && Units(w) == (Pow2(113) + 2) * Pow2(e)
  {
    hide Pow2, Units;
    HiddenBit();
    EncodeFields(0, e + 2, 0, 1);
    w := Encode(0, e + 2, 0, 1);
    UnitsOf(w);
    PowDouble(112);
    PowDouble(e);
    MulAssociative(Pow2(112) + 1, 2, Pow2(e));
  }

  lemma {:induction false} FarFromQuotient(n: nat, d: nat, ma: nat, mb: nat, e: nat, q: nat, v: F128)
    requires 0 < mb < ma < Pow2(113) && d > 0 && e <= 32764 && q <= Pow2(113)
    requires n * mb == (ma * Pow2(113)) * (Pow2(e) * d) && Units(v) == q * Pow2(e)
    ensures !NearestEven(n, d, v)
  {
    hide Pow2, Units, IsFinite;
    var g := Pow2(e) * d;
    ProductPositive(Pow2(e), d);
    JustAbove(n, d, ma, mb, Pow2(113), g);
    NearerAbove(n, Pow2(113), g, q);
    var w := WitnessAbove(e);
    MulAssociative(Pow2(113) + 2, Pow2(e), d);
    MulAssociative(q, Pow2(e), d);
    assert !AtLeastAsNear(n, d, v, w);
  }

  /** With the larger significand on top no quotient the divider can produce is right. */
  lemma {:induction false} LargerSignificand(sign: nat, exp: int, q: U128, ma: nat, mb: nat, ka: nat, kb: nat)
    requires sign <= 1 && 0 < mb < ma < Pow2(113) && exp + 16382 == ka - kb + 16381
    requires 0 <= ka - kb + 16381 && ka - kb <= 16383 && Pow2(112) <= Val(q) <= Pow2(113)
    ensures !RoundsTo(NatProduct(NatProduct(ma, Pow2(ka)), ProductScale()), NatProduct(mb, Pow2(kb)), sign,
                      PackParts(sign, exp, q))
  {
    hide Pow2, Val, PackParts, NearestEven, Units, IsFinite, OverflowBound, MakeInf;
    var v := PackParts(sign, exp, q);
    PackedUnits(sign, exp, q, v);
    InfNotFinite(sign);
    QuotientValue(ma, mb, ka, kb, 113, 16494);
    ProductPositive(mb, Pow2(kb));
    FarFromQuotient(NatProduct(NatProduct(ma, Pow2(ka)), ProductScale()), NatProduct(mb, Pow2(kb)), ma, mb,
                    exp + 16382, Val(q), v);
  }

  // Quotients above the normal range

  lemma {:induction false} LargerAtLeast(n: nat, ma: nat, mb: nat, big: nat, x: nat)
    requires 0 < mb <= ma && n * mb == (ma * big) * x
    ensures n >= big * x
  {
    MulMonotone(mb, ma, big * x);
    assert (ma * big) * x == ma * (big * x);
    CancelLe(big * x, n, mb);
  }

  lemma {:induction false} LargerOverflows(n: nat, d: nat, ma: nat, mb: nat, e: nat)
    requires 0 < mb <= ma && e > 32764 && n * mb == (ma * Pow2(113)) * (Pow2(e) * d)
    ensures n >= OverflowBound() * d
  {
    hide Pow2;
    LargerAtLeast(n, ma, mb, Pow2(113), Pow2(e) * d);
    Pow2Monotone(32765, e);
    PowDouble(32764);
    PowDouble(113);
    var h := Pow2(32764);
    MulMonotone(2 * h, Pow2(e), Pow2(113) * d);
    TopBound(Pow2(113), h, d, Pow2(e));
  }

  lemma {:induction false} TopBound(t: nat, h: nat, d: nat, x: nat)
    requires 2 * h <= x
    ensures ((2 * t - 1) * h) * d <= t * (x * d)
  {
    MulMonotone(2 * h, x, t * d);
    assert t * (x * d) == x * (t * d);
    assert (2 * h) * (t * d) == ((2 * t) * h) * d;
    MulMonotone(2 * t - 1, 2 * t, h);
    MulMonotone((2 * t - 1) * h, (2 * t) * h, d);
  }

  /** Here the result is right exactly when it is infinite. */
  lemma {:induction false} LargerAbove(sign: nat, exp: int, q: U128, ma: nat, mb: nat, ka: nat, kb: nat)
    requires sign <= 1 && 0 < mb < ma < Pow2(113) && exp + 16382 == ka - kb + 16381
    requires ka - kb > 16383 && Pow2(112) <= Val(q) <= Pow2(113)
    ensures RoundsTo(NatProduct(NatProduct(ma, Pow2(ka)), ProductScale()), NatProduct(mb, Pow2(kb)), sign,
                     PackParts(sign, exp, q))
            <==> ka - kb > 16384 || Val(q) == Pow2(113)
  {
    hide Pow2, Val, PackParts, NearestEven, Units, IsFinite, OverflowBound, MakeInf;
    InfNotFinite(sign);
    QuotientValue(ma, mb, ka, kb, 113, 16494);
    ProductPositive(mb, Pow2(kb));
    LargerOverflows(NatProduct(NatProduct(ma, Pow2(ka)), ProductScale()), NatProduct(mb, Pow2(kb)), ma, mb,
                    exp + 16382);
    Packed(sign, exp, q);
  }

  // Quotients below the normal range

  lemma {:induction false} DividendSplit(n: nat, d: nat, ma: nat, mb: nat, p: nat, big: nat)
    requires (n * mb) * p == (ma * big) * d
    ensures (n * p) * mb == ma * (big * d)
  {
    assert (n * mb) * p == (n * p) * mb;
    MulAssociative(ma, big, d);
  }

  lemma {:induction false} AboveStored(n: nat, d: nat, ma: nat, mb: nat, p: nat, big: nat, y: nat)
    requires 0 < mb <= ma && p > 0 && (n * p) * mb == ma * (big * d) && y * p <= big
    ensures y * d <= n
  {
    MulMonotone(mb, ma, big * d);
    CancelLe(big * d, n * p, mb);
    MulMonotone(y * p, big, d);
    assert (y * p) * d == (y * d) * p;
    CancelLe(y * d, n, p);
  }

  lemma {:induction false} BelowDouble(n: nat, ma: nat, mb: nat, p: nat, x: nat)
    requires 0 < mb && ma < 2 * mb && p >= 2 && x > 0 && (n * p) * mb == ma * x
    ensures n < x
  {
    MulMonotone(ma + 1, 2 * mb, x);
    assert (ma + 1) * x == ma * x + x;
    assert (2 * mb) * x == (x * 2) * mb;
    if n >= x {
      MulBoth(x, n, 2, p);
      MulMonotone(x * 2, n * p, mb);
    }
  }

  lemma {:induction false} LargerWithin(n: nat, d: nat, ma: nat, mb: nat, p: nat, big: nat, y: nat)
    requires 0 < mb <= ma < 2 * mb && d > 0 && p >= 2 && big > 0 && (n * mb) * p == (ma * big) * d && y * p <= big
    ensures y * d <= n < big * d
  {
    DividendSplit(n, d, ma, mb, p, big);
    AboveStored(n, d, ma, mb, p, big, y);
    ProductPositive(big, d);
    BelowDouble(n, ma, mb, p, big * d);
  }

  lemma {:induction false} FarBelowOverflow(n: nat, d: nat)
    requires d > 0 && n < Pow2(113) * d
    ensures n < OverflowBound() * d
  {
    hide Pow2;
    PowDouble(113);
    var h := Pow2(MaxPlace() - 1);
    MulMonotone(1, h, Pow2(114) - 1);
    MulMonotone(Pow2(113), (Pow2(114) - 1) * h, d);
  }

  lemma {:induction false} PastHalf(n: nat, t: nat, d: nat, ma: nat, mb: nat)
    requires 0 < mb < ma && n * mb == ma * t && 2 * t > mb * d
    ensures 2 * n > 2 * t + d
  {
    MulMonotone(mb + 1, ma, t);
    assert (mb + 1) * t == mb * t + t;
    assert (2 * t + d) * mb == 2 * (mb * t) + mb * d;
    assert (2 * n) * mb == 2 * (n * mb);
    CancelLe(2 * n, 2 * t + d, mb);
  }

  lemma {:induction false} CarryGap(n: nat, d: nat, ma: nat, mb: nat, t: nat)
    requires 0 < mb < ma && mb < 2 * t && d > 0 && (n * mb) * 2 == (ma * (2 * t)) * d
    ensures Abs((t + 1) * d - n) < Abs(t * d - n)
  {
    DoubledDividend(ma, t, d);
    RoomAbove(mb, t, d);
    PastHalf(n, t * d, d, ma, mb);
    assert (t + 1) * d == t * d + d;
  }

  lemma {:induction false} DoubledDividend(ma: nat, t: nat, d: nat)
    ensures (ma * (2 * t)) * d == 2 * (ma * (t * d))
  {
    MulAssociative(ma, 2 * t, d);
    assert (2 * t) * d == 2 * (t * d);
  }

  lemma {:induction false} RoomAbove(mb: nat, t: nat, d: nat)
    requires mb < 2 * t && d > 0
    ensures 2 * (t * d) > mb * d
  {
    MulMonotone(mb + 1, 2 * t, d);
    assert (mb + 1) * d == mb * d + d && (2 * t) * d == 2 * (t * d);
  }

  /** A carry to the smallest normal value still misses the larger quotient. */
  lemma {:induction false} CarryMisses(n: nat, d: nat, ma: nat, mb: nat, v: F128)
    requires 0 < mb < ma < 2 * mb && ma < Pow2(113) && d > 0 && (n * mb) * Pow2(1) == (ma * Pow2(113)) * d
    requires Units(v) == Pow2(112)
    ensures !NearestEven(n, d, v)
  {
    assert Pow2(1) == 2;
    hide Pow2, Units, IsFinite, Abs;
    PowDouble(112);
    CarryGap(n, d, ma, mb, Pow2(112));
    var w := WitnessNext();
    assert !AtLeastAsNear(n, d, v, w);
  }

  lemma {:induction false} WitnessNext() returns (w: F128)
    ensures IsFinite(w) && Units(w) == Pow2(112) + 1
  {
    hide Units;
    HiddenBit();
    EncodeFields(0, 1, 0, 1);
    w := Encode(0, 1, 0, 1);
    UnitsOf(w);
    hide Pow2;
  }

  /** Here the result is right exactly when the quotient rounds to zero. */
  lemma {:induction false} LargerBelow(sign: nat, exp: int, q: U128, ma: nat, mb: nat, ka: nat, kb: nat)
    requires sign <= 1 && 0 < mb < ma < 2 * mb && ma < Pow2(113) && exp + 16382 == ka - kb + 16381
    requires ka - kb + 16381 < 0 && Pow2(112) <= Val(q) <= Pow2(113)
    ensures var n := NatProduct(NatProduct(ma, Pow2(ka)), ProductScale()); var d := NatProduct(mb, Pow2(kb));
      RoundsTo(n, d, sign, PackParts(sign, exp, q)) <==> 2 * n <= d
  {
    hide Pow2, Val, PackParts, RoundsTo;
    QuotientValue(ma, mb, ka, kb, 113, 16494);
    ProductPositive(mb, Pow2(kb));
    TooSmall(sign, exp, q, ma, mb, NatProduct(NatProduct(ma, Pow2(ka)), ProductScale()), NatProduct(mb, Pow2(kb)));
  }

  lemma {:induction false} TooSmall(sign: nat, exp: int, q: U128, ma: nat, mb: nat, n: nat, d: nat)
    requires sign <= 1 && 0 < mb < ma < 2 * mb && ma < Pow2(113) && exp + 16382 < 0 && d > 0
    requires Pow2(112) <= Val(q) <= Pow2(113) && (n * mb) * Pow2(-(exp + 16382)) == (ma * Pow2(113)) * d
    ensures RoundsTo(n, d, sign, PackParts(sign, exp, q)) <==> 2 * n <= d
  {
    hide Pow2, Val, PackParts, NearestEven, OverflowBound;
    var t: nat := -(exp + 16382);
    PowPositiveExp(t);
    LargerWithin(n, d, ma, mb, Pow2(t), Pow2(113), Val(q) / Pow2(t));
    FarBelowOverflow(n, d);
    SmallNearest(sign, exp, q, ma, mb, n, d, t);
  }

  lemma {:induction false} SmallNearest(sign: nat, exp: int, q: U128, ma: nat, mb: nat, n: nat, d: nat, t: nat)
    requires sign <= 1 && 0 < mb < ma < 2 * mb && ma < Pow2(113) && t == -(exp + 16382) > 0 && d > 0
    requires Pow2(112) <= Val(q) <= Pow2(113) && (n * mb) * Pow2(t) == (ma * Pow2(113)) * d
    requires (Val(q) / Pow2(t)) * d <= n
    ensures var v := PackParts(sign, exp, q); Sign(v) == sign && (NearestEven(n, d, v) <==> 2 * n <= d)
  {
    hide Pow2, Val, PackParts, NearestEven, Units, IsFinite, FinalExp;
    var v := PackParts(sign, exp, q);
    var y := Val(q) / Pow2(t);
    if FinalExp(exp, Val(q)) < -16382 {
      StoredUnits(sign, exp, q, t, v);
      TruncationBound(exp, Val(q), t);
      StoredIff(n, d, v, y);
    } else {
      CarriedDown(sign, exp, q, v);
      CarryMisses(n, d, ma, mb, v);
      HalfCarried(n, d, y);
    }
  }

  lemma {:induction false} StoredIff(n: nat, d: nat, v: F128, y: nat)
    requires d > 0 && y * d <= n && y < Pow2(112) && IsFinite(v) && Units(v) == y / 2
    requires (Units(v) == 0 ==> v.lo % 2 == 0)
    ensures NearestEven(n, d, v) <==> 2 * n <= d
  {
    hide Pow2, NearestEven, Units, IsFinite;
    if 2 * n <= d {
      NoUnit(n, d, y);
      ZeroNearest(n, d, v);
    } else {
      assert (4 * y) * d == 4 * (y * d);
      FarIsNotNearest(n, d, v, y);
    }
  }

  lemma {:induction false} NoUnit(n: nat, d: nat, y: nat)
    requires d > 0 && y * d <= n && 2 * n <= d
    ensures y == 0
  {
    if y > 0 {
      MulMonotone(1, y, d);
    }
  }

  lemma {:induction false} HalfCarried(n: nat, d: nat, y: nat)
    requires d > 0 && y * d <= n && y >= 1
    ensures 2 * n > d
  {
    MulMonotone(1, y, d);
  }

  lemma {:induction false} CarriedDown(sign: nat, exp: int, q: U128, v: F128)
    requires sign <= 1 && exp < -16382 && FinalExp(exp, Val(q)) >= -16382 && v == PackParts(sign, exp, q)
    requires Pow2(112) <= Val(q) <= Pow2(113)
    ensures exp == -16383 && Val(q) == Pow2(113) && Val(q) / Pow2(1) >= 1
    ensures Units(v) == Pow2(112) && Sign(v) == sign
  {
    assert Pow2(1) == 2;
    hide Pow2, PackParts, Units, Significand, Val;
    PowDouble(112);
    PositivePower();
    Packed(sign, exp, q);
    UnitsOf(v);
  }

  /** The quotient's exponent leaves room for a normal result. */
  predicate QuotientInRange(a: F128, b: F128) {
    0 <= Place(a) - Place(b) + 16381 && Place(a) - Place(b) <= 16383
  }

  lemma {:induction false} InRangeIsNormal(ma: nat, mb: nat, ka: nat, kb: nat)
    requires 0 < ma <= mb <= 2 * ma && mb < Pow2(113) && 0 <= ka - kb + 16381
    ensures RoundsToNormal(NatProduct(NatProduct(ma, Pow2(ka)), ProductScale()), NatProduct(mb, Pow2(kb)))
  {
    hide Pow2;
    var e := ka - kb + 16381;
    PowDouble(112);
    PowDouble(113);
    ProductPositive(mb, Pow2(kb));
    if ma < mb {
      QuotientRange(ma, mb);
      QuotientValue(ma, mb, ka, kb, 113, 16494);
      NormalAbove(NatProduct(NatProduct(ma, Pow2(ka)), ProductScale()), NatProduct(mb, Pow2(kb)),
                  NatProduct(ma, Pow2(113)), mb, Pow2(e), Pow2(112));
    } else {
      PowerQuotient(ma, Pow2(112));
      QuotientValue(ma, mb, ka, kb, 112, 16494);
      NormalAbove(NatProduct(NatProduct(ma, Pow2(ka)), ProductScale()), NatProduct(mb, Pow2(kb)),
                  NatProduct(ma, Pow2(112)), mb, Pow2(e + 1), Pow2(112));
    }
  }

  /** With the larger significand on top the result is right only if the quotient rounds to
      zero, or overflows and is recognised: an exponent at the overflow threshold is recognised
      only when the wrapped divider saturates. */
  predicate LargerIsRight(a: F128, b: F128)
    requires Significand(a) > Significand(b)
  {
    || 2 * QuotientNum(a) <= Units(b)
    || Place(a) - Place(b) > 16384
    || (Place(a) - Place(b) == 16384 && Saturates(Significand(a), Significand(b)))
  }

  lemma {:induction false} LargerDividend(sign: nat, exp: int, q: U128, a: F128, b: F128)
    requires IsFinite(b) && sign <= 1 && exp + 16382 == Place(a) - Place(b) + 16381
    requires 0 < Significand(b) < Significand(a) < Pow2(113) && Pow2(112) <= Val(q) <= Pow2(113)
    requires Val(q) == Pow2(113) <==> Saturates(Significand(a), Significand(b))
    ensures RoundsTo(QuotientNum(a), Units(b), sign, PackParts(sign, exp, q)) <==> LargerIsRight(a, b)
    ensures QuotientInRange(a, b) ==> !LargerIsRight(a, b)
  {
    hide Pow2, Val, PackParts, RoundsTo, Significand, Place, IsNormal, ProductScale, Saturates;
    var (ma, mb, ka, kb) := (Significand(a), Significand(b), Place(a), Place(b));
    var gap: int := Place(a) - Place(b);
    UnitsOf(a);
    UnitsOf(b);
    if gap + 16381 < 0 {
      HighPlace(b);
      LargerBelow(sign, exp, q, ma, mb, ka, kb);
    } else {
      LargerNotTiny(ma, mb, ka, kb);
      if gap > 16383 {
        LargerAbove(sign, exp, q, ma, mb, ka, kb);
      } else {
        LargerSignificand(sign, exp, q, ma, mb, ka, kb);
      }
    }
  }

  lemma {:induction false} HighPlace(v: F128)
    requires IsFinite(v)
    ensures Place(v) > 0 ==> 2 * Significand(v) >= Pow2(113)
    ensures Significand(v) < Pow2(112) ==> Place(v) == 0
  {
    hide Pow2;
    HiddenBit();
    PowDouble(112);
  }

  lemma {:induction false} LargerNotTiny(ma: nat, mb: nat, ka: nat, kb: nat)
    requires 0 < mb < ma && ka - kb + 16381 >= 0
    ensures 2 * NatProduct(NatProduct(ma, Pow2(ka)), ProductScale()) > NatProduct(mb, Pow2(kb))
  {
    hide Pow2;
    var d := mb * Pow2(kb);
    QuotientValue(ma, mb, ka, kb, 113, 16494);
    ProductPositive(mb, Pow2(kb));
    var e := ka - kb + 16381;
    var n := NatProduct(NatProduct(ma, Pow2(ka)), ProductScale());
    LargerAtLeast(n, ma, mb, Pow2(113), Pow2(e) * d);
    MulMonotone(1, Pow2(e), d);
    MulBoth(1, Pow2(113), d, Pow2(e) * d);
  }

  /** Packing a quotient of few bits. */
  lemma {:induction false} ShortSignificand(sign: nat, exp: int, q: U128, ma: nat, mb: nat, ka: nat, kb: nat)
    requires sign <= 1 && ka == 0 && 2 * ma < mb < Pow2(113) && exp + 16382 == ka - kb + 16381
    requires Val(q) == RoundHalfEven(NatProduct(ma, Pow2(113)), mb)
    ensures var n := NatProduct(NatProduct(ma, Pow2(ka)), ProductScale()); var d := NatProduct(mb, Pow2(kb));
      RoundsTo(n, d, sign, PackParts(sign, exp, q)) <==> ShortIsRight(n, d, NatProduct(ma, Pow2(113)), mb, exp + 16382)
  {
    hide Pow2, Val, RoundHalfEven, PackParts, RoundsTo, SameValue, ShortIsRight;
    QuotientValue(ma, mb, ka, kb, 113, 16494);
    ProductPositive(mb, Pow2(kb));
    PowDouble(112);
    FewBits(ma, mb, Pow2(112));
    ShortPackIff(sign, exp, q, NatProduct(ma, Pow2(113)), mb,
                 NatProduct(NatProduct(ma, Pow2(ka)), ProductScale()), NatProduct(mb, Pow2(kb)));
  }

  lemma {:induction false} FewBits(ma: nat, mb: nat, t: nat)
    requires 2 * ma < mb && t > 0
    ensures (ma * (2 * t)) / mb < t
  {
    MulMonotone(2 * ma + 1, mb, t);
    assert ma * (2 * t) == (2 * ma) * t && (2 * ma + 1) * t == (2 * ma) * t + t;
    if (ma * (2 * t)) / mb >= t {
      MulMonotone(t, (ma * (2 * t)) / mb, mb);
    }
  }

  /** The exact condition under which a quotient comes out right. */
  predicate DivIsRight(a: F128, b: F128)
    requires Significand(b) > 0
  {
    var (n, d) := (QuotientNum(a), Units(b));
    if Significand(a) > Significand(b) then LargerIsRight(a, b)
    else if Significand(b) <= 2 * Significand(a) then RoundsToNormal(n, d) || 2 * n <= d
    else ShortIsRight(n, d, NatProduct(Significand(a), Pow2(113)), Significand(b), Place(a) - Place(b) + 16381)
  }

  /** What the packed quotient is worth. */
  lemma {:induction false} DivFinite(a: F128, b: F128, q: U128, sign: nat, exp: int)
    requires IsNonzero(a) && IsNonzero(b) && Significand(b) > 0
    requires sign <= 1 && exp == Unpack(a).exp - Unpack(b).exp - 1
    requires Significand(b) <= 2 * Significand(a) ==> Pow2(112) <= Val(q) <= Pow2(113)
    requires Significand(a) < Significand(b) ==>
      Val(q) == RoundHalfEven(NatProduct(Significand(a), Pow2(113)), Significand(b))
    requires Significand(a) >= Significand(b) ==> (Val(q) == Pow2(113) <==> Saturates(Significand(a), Significand(b)))
    requires Significand(a) == Significand(b) ==> Val(q) == Pow2(113)
    ensures RoundsTo(QuotientNum(a), Units(b), sign, PackParts(sign, exp, q)) <==> DivIsRight(a, b)
  {
    hide Pow2, Val, RoundHalfEven, PackParts, RoundsTo, RoundsToNormal, Unpack, Significand, Place, IsNormal,
         ProductScale;
    hide Saturates, ShortIsRight, LargerIsRight;
    UnitsOf(a);
    UnitsOf(b);
    UnpackFinite(a);
    UnpackFinite(b);
    var ma := Significand(a);
    var mb := Significand(b);
    if ma < mb <= 2 * ma {
      SmallerSignificand(sign, exp, q, ma, mb, Place(a), Place(b));
    } else if ma < mb {
      HighPlace(a);
      PowDouble(112);
      ShortSignificand(sign, exp, q, ma, mb, Place(a), Place(b));
    } else if ma == mb {
      EqualSignificands(sign, exp, q, ma, Place(a), Place(b));
    } else {
      LargerDividend(sign, exp, q, a, b);
    }
  }

  /** With significands less than a factor of two apart and a quotient in range the condition is
      that the dividend's is not the larger one. */
  lemma {:induction false} DivInRange(a: F128, b: F128)
    requires IsNonzero(a) && IsNonzero(b) && WithinTwo(a, b) && QuotientInRange(a, b)
    ensures Significand(b) > 0 && (DivIsRight(a, b) <==> Significand(a) <= Significand(b))
  {
    hide Pow2, RoundsToNormal, Significand, Place, ProductScale, Saturates, ShortIsRight, IsFinite;
    UnitsOf(a);
    UnitsOf(b);
    SignificandUnpacked(a);
    SignificandUnpacked(b);
    if Significand(a) <= Significand(b) {
      InRangeIsNormal(Significand(a), Significand(b), Place(a), Place(b));
    } else {
      LargerNotTiny(Significand(a), Significand(b), Place(a), Place(b));
    }
  }

  /** r is what packing makes of the rounded quotient of the significands. */
  ghost predicate PacksQuotient(a: F128, b: F128, r: F128) {
    exists q: U128 ::
      && RoundedQuotient(Significand(a), Significand(b), Val(q))
      && r == PackParts(Xor1(SignOf(a), SignOf(b)), Place(a) - Place(b) - 1, q)
  }

  /** All quotient bits come out as ones, at an exponent of the normal range. */
  predicate SaturatesInRange(a: F128, b: F128) {
    && Significand(b) <= Significand(a) && Saturates(Significand(a), Significand(b))
    && -16382 <= Place(a) - Place(b) <= 16383
  }

  /** A saturated quotient is packed as a power of two. */
  lemma {:induction false} QuotientPacked(a: F128, b: F128, q: U128, exp: int)
    requires IsNonzero(a) && IsNonzero(b) && RoundedQuotient(Significand(a), Significand(b), Val(q))
    requires exp == Unpack(a).exp - Unpack(b).exp - 1
    ensures PacksQuotient(a, b, PackParts(Xor1(SignOf(a), SignOf(b)), exp, q))
    requires Significand(a) >= Significand(b) ==> (Val(q) == Pow2(113) <==> Saturates(Significand(a), Significand(b)))
    ensures SaturatesInRange(a, b) ==>
      var r := PackParts(Xor1(SignOf(a), SignOf(b)), exp, q);
      Sign(r) == Xor1(SignOf(a), SignOf(b)) && Significand(r) == Pow2(112) && Place(r) == Place(a) - Place(b) + 16382
  {
    hide Pow2, RoundedQuotient, PackParts, Unpack, Significand, Place, Saturates;
    UnpackFinite(a);
    UnpackFinite(b);
    if Val(q) == Pow2(113) {
      PowDouble(112);
      Packed(Xor1(SignOf(a), SignOf(b)), exp, q);
    }
  }

  /** f128_div.  For finite non-zero operands the result is correctly rounded if and only if the
      condition holds. */
  method Div(a: F128, b: F128) returns (r: F128)
    ensures IsNan(a) ==> r == a
    ensures !IsNan(a) && IsNan(b) ==> r == b
    ensures !IsNan(a) && !IsNan(b) && IsFinite(b) && Units(b) == 0 ==>
      r == if IsFinite(a) && Units(a) == 0 then MakeNan() else MakeInf(Xor1(SignOf(a), SignOf(b)))
    ensures !IsNan(a) && !IsNan(b) && !IsFinite(a) && !(IsFinite(b) && Units(b) == 0) ==>
      r == if IsFinite(b) then MakeInf(Xor1(SignOf(a), SignOf(b))) else MakeNan()
    ensures IsFinite(a) && !IsNan(b) && !(IsFinite(b) && Units(b) == 0) && (Units(a) == 0 || !IsFinite(b)) ==>
      r == MakeZero(Xor1(SignOf(a), SignOf(b)))
    ensures IsNonzero(a) && IsNonzero(b) ==>
      Significand(b) > 0
      && (RoundsTo(QuotientNum(a), Units(b), Xor1(SignOf(a), SignOf(b)), r) <==> DivIsRight(a, b))
    ensures IsNonzero(a) && IsNonzero(b) ==> PacksQuotient(a, b, r)
    ensures IsNonzero(a) && IsNonzero(b) && SaturatesInRange(a, b) ==>
      Sign(r) == Xor1(SignOf(a), SignOf(b)) && Significand(r) == Pow2(112) && Place(r) == Place(a) - Place(b) + 16382
  {
    hide PacksQuotient, RoundedQuotient, SaturatesInRange;
    hide Pow2, Units, RoundsTo, PackParts, ProductScale, QuotientNum, RoundHalfEven, DivIsRight, Saturates;
    UnpackKind(a);
    UnpackKind(b);
    hide Unpack;
    var pa := Unpack(a);
    var pb := Unpack(b);
    var sign := Xor1(SignOf(a), SignOf(b));
    if pa.isNan {
      return a;
    }
    if pb.isNan {
      return b;
    }
    if pb.isZero {
      if pa.isZero {
        return MakeNan();
      }
      return MakeInf(sign);
    }
    if pa.isInf {
      if pb.isInf {
        return MakeNan();
      }
      return MakeInf(sign);
    }
    if pa.isZero {
      return MakeZero(sign);
    }
    if pb.isInf {
      return MakeZero(sign);
    }
    FiniteMantissa(a);
    FiniteMantissa(b);
    var exp := pa.exp - pb.exp - 1;
    var quotient := DivideSignificands(pa.mant, pb.mant);
    SignificandUnpacked(a);
    SignificandUnpacked(b);
    DivFinite(a, b, quotient, sign, exp);
    QuotientPacked(a, b, quotient, exp);
    return PackParts(sign, exp, quotient);
  }

  lemma {:induction false} FiniteMantissa(v: F128)
    requires IsFinite(v) && Units(v) != 0
    ensures 0 < Val(Unpack(v).mant) < Pow2(113)
  {
    hide Pow2, Unpack, Units;
    UnpackFinite(v);
  }

  lemma {:induction false} SignificandUnpacked(v: F128)
    requires IsNonzero(v)
    ensures Val(Unpack(v).mant) == Significand(v) && 0 < Significand(v) < Pow2(113)
  {
    hide Pow2, Unpack, Units;
    UnpackFinite(v);
  }

  /** A quotient of few bits is not refined: the smallest value over one and a half times the
      smallest normal one comes out a quarter too small. */
  lemma {:induction false} ShortQuotient(q: U128, v: F128)
    requires Val(q) == RoundHalfEven(NatProduct(Significand(SMALLEST), Pow2(113)), Significand(OneAndHalf()))
    requires v == PackParts(0, Unpack(SMALLEST).exp - Unpack(OneAndHalf()).exp - 1, q)
    ensures IsNonzero(SMALLEST) && IsNonzero(OneAndHalf()) && Val(q) == 1
    ensures 4 * (Units(v) * Units(OneAndHalf())) == 3 * QuotientNum(SMALLEST)
    ensures !RoundsTo(QuotientNum(SMALLEST), Units(OneAndHalf()), 0, v) && !DivIsRight(SMALLEST, OneAndHalf())
  {
    hide DivIsRight;
    hide Pow2, Val, PackParts, Units, Significand, Place, IsFinite, Unpack, OneAndHalf, RoundHalfEven, NearestEven;
    hide MakeInf, ProductScale, OverflowBound;
    ExampleFields();
    HalfFields();
    UnpackFinite(SMALLEST);
    UnpackFinite(OneAndHalf());
    FourThirds();
    InfNotFinite(0);
    Pow2Monotone(0, 112);
    QuarterShort(q, v, Units(OneAndHalf()));
    TwiceFar();
    DivFinite(SMALLEST, OneAndHalf(), q, 0, Unpack(SMALLEST).exp - Unpack(OneAndHalf()).exp - 1);
  }

  function OneAndHalf(): F128 {
    Encode(0, 1, 0x8000_0000_0000, 0)
  }

  lemma {:induction false} HalfFields()
    ensures var b := OneAndHalf();
      IsFinite(b) && Place(b) == 0 && Significand(b) == Units(b) == 3 * Pow2(111) > 0
  {
    EncodeFields(0, 1, 0x8000_0000_0000, 0);
    assert Pow2(0) == 1;
    hide Pow2;
    HiddenBit();
    PowDouble(111);
  }

  lemma {:induction false} TwiceFar()
    ensures 3 * Pow2(111) > 2
  {
    hide Pow2;
    PowDouble(110);
  }

  lemma {:induction false} FourThirds()
    ensures RoundHalfEven(NatProduct(1, Pow2(113)), 3 * Pow2(111)) == 1
  {
    hide Pow2;
    PowDouble(111);
    PowDouble(112);
    DivModUnique(Pow2(113), 3 * Pow2(111), 1, Pow2(111));
  }

  lemma {:induction false} QuarterShort(q: U128, v: F128, d: nat)
    requires Val(q) == 1 && v == PackParts(0, -1, q) && d == 3 * Pow2(111)
    ensures IsFinite(v) && 4 * (Units(v) * d) == 3 * NatProduct(1, ProductScale())
    ensures !NearestEven(NatProduct(1, ProductScale()), d, v)
  {
    hide Pow2, Val, PackParts, Units, IsFinite;
    PowDouble(112);
    PackExact(0, -1, q);
    Pow2Monotone(112, 16381);
    Pow2Add(16381, 111);
    PowDouble(16492);
    PowDouble(16493);
    Pow2Add(16379, 111);
    PowDouble(16490);
    PowDouble(16491);
    PowDouble(16379);
    PowDouble(16380);
    var p := Pow2(16381);
    ThreeTimes(p, Pow2(111));
    var w := FiveFourths();
    ThreeTimes(5 * Pow2(16379), Pow2(111));
    assert (5 * Pow2(16379)) * Pow2(111) == 5 * Pow2(16490) by {
      MulAssociative(5, Pow2(16379), Pow2(111));
    }
    assert !AtLeastAsNear(NatProduct(1, ProductScale()), d, v, w);
  }

  lemma {:induction false} ThreeTimes(p: nat, h: nat)
    ensures p * (3 * h) == 3 * (p * h)
  {
  }

  lemma {:induction false} FiveFields() returns (w: F128)
    ensures IsFinite(w) && Place(w) == 16269 && Significand(w) == 5 * Pow2(110)
  {
    EncodeFields(0, 16270, 0x4000_0000_0000, 0);
    w := Encode(0, 16270, 0x4000_0000_0000, 0);
    hide Pow2;
    HiddenBit();
    PowDouble(111);
    PowDouble(110);
  }

  lemma {:induction false} FiveFourths() returns (w: F128)
    ensures IsFinite(w) && Units(w) == 5 * Pow2(16379)
  {
    hide Pow2, IsFinite, Significand, Place;
    w := FiveFields();
    UnitsOf(w);
    Pow2Add(110, 16269);
    MulAssociative(5, Pow2(110), Pow2(16269));
  }

  /** Three divided by two comes out as one. */
  lemma {:induction false} ThreeHalves(q: U128)
    requires Val(q) == Pow2(113)
    ensures var three := Encode(0, 16384, 0x8000_0000_0000, 0); var two := Encode(0, 16384, 0, 0);
      && IsNormal(three) && IsNormal(two) && Significand(three) > Significand(two)
      && 2 * Units(three) == 3 * Units(two)
      && Saturates(Significand(three), Significand(two))
      && PackParts(0, -1, q) == Encode(0, 16383, 0, 0)
      && !RoundsTo(QuotientNum(three), Units(two), 0, Encode(0, 16383, 0, 0)) && !DivIsRight(three, two)
  {
    hide Pow2, Encode, Val, Saturates, RoundsTo, PackParts, IsNormal, Significand, Place, QuotientNum, Units,
         LargerIsRight;
    var (three, two) := (Encode(0, 16384, 0x8000_0000_0000, 0), Encode(0, 16384, 0, 0));
    ThreeAndTwo();
    PowDouble(111);
    PowDouble(112);
    HalfApartSaturates(Pow2(112) + Pow2(111), Pow2(112));
    OneFrom(q);
    NormalsWithinTwo(three, two);
    LargerDividend(0, -1, q, three, two);
    SamePlace(three, two);
    DivInRange(three, two);
  }

  /** Any two normal values are in the range of the results above. */
  lemma {:induction false} NormalsWithinTwo(a: F128, b: F128)
    requires IsNormal(a) && IsNormal(b)
    ensures IsNonzero(a) && IsNonzero(b) && WithinTwo(a, b)
  {
    hide Pow2;
    NormalUnits(a);
    NormalUnits(b);
  }

  lemma {:induction false} SamePlace(a: F128, b: F128)
    requires Place(a) == Place(b)
    ensures QuotientInRange(a, b)
  {
  }

  lemma {:induction false} ThreeAndTwo()
    ensures var three := Encode(0, 16384, 0x8000_0000_0000, 0); var two := Encode(0, 16384, 0, 0);
      && IsNormal(three) && IsNormal(two) && Place(three) == Place(two)
      && Significand(three) == Pow2(112) + Pow2(111) && Significand(two) == Pow2(112)
      && 2 * Units(three) == 3 * Units(two)
  {
    EncodeFields(0, 16384, 0x8000_0000_0000, 0);
    EncodeFields(0, 16384, 0, 0);
    hide Pow2;
    HiddenBit();
    PowDouble(111);
    HalfMore(Pow2(111), Pow2(16383));
  }

  lemma {:induction false} HalfMore(h: nat, p: nat)
    ensures 2 * ((3 * h) * p) == 3 * ((2 * h) * p)
  {
  }

  /** A difference of half the hidden bit drives the wrapped remainder to the divisor. */
  lemma {:induction false} HalfApartSaturates(ma: nat, mb: nat)
    requires ma == mb + Pow2(111) && mb == Pow2(112)
    ensures Saturates(ma, mb)
  {
    hide Pow2, BitSet;
    forall i | 1 <= i <= 114
      ensures BitSet(ma, mb, i)
    {
      HalfApartBit(ma, mb, i);
    }
  }

  lemma {:induction false} HalfApartBit(ma: nat, mb: nat, i: nat)
    requires ma == mb + Pow2(111) && mb == Pow2(112)
    ensures BitSet(ma, mb, i)
  {
    hide Pow2;
    PowDouble(112);
    WordIsPow2();
    Pow2Add(64, 64);
    Pow2Add(i, 111);
    if i >= 17 {
      Pow2Monotone(113, 127);
      PowDouble(127);
      PowDouble(126);
      Pow2Monotone(113, 126);
      Pow2Add(i - 17, 128);
      ModShift(Pow2(113), Pow2(i - 17), TWO128);
      SmallMod(Pow2(113), TWO128);
    } else {
      TwiceFits(i);
      SmallMod(Pow2(i + 111) + Pow2(113), TWO128);
    }
  }

  lemma {:induction false} TwiceFits(i: nat)
    requires i <= 16
    ensures Pow2(i + 111) + Pow2(113) < Pow2(128)
  {
    hide Pow2;
    Pow2Monotone(i + 111, 127);
    Pow2Monotone(113, 126);
    PowDouble(126);
    PowDouble(127);
  }

  lemma {:induction false} OneFrom(q: U128)
    requires Val(q) == Pow2(113)
    ensures PackParts(0, -1, q) == Encode(0, 16383, 0, 0)
  {
    hide Pow2, Val;
    var v := PackParts(0, -1, q);
    PowDouble(112);
    Packed(0, -1, q);
    HiddenBit();
    SignBounded(v);
    OneFields(v);
  }

  lemma {:induction false} OneFields(v: F128)
    requires Significand(v) == EXP_UNIT * WORD && Biased(v) > 0
    ensures FracHi(v) == 0 && v.lo == 0
  {
  }
}
