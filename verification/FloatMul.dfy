/**
 Multiplication: the exact 256-bit product of the significands, rounded once.
 */
module FloatMul {
  import opened Numbers
  import opened Words
  import opened Float128
  import opened Rounding
  import opened FloatPack
  import opened FloatRound
  import opened FloatShort

  function Xor1(a: nat, b: nat): nat
    requires a <= 1 && b <= 1
  {
    if a == b then 0 else 1
  }

  /** The rounding step of f128_mul: shift the product right by rsh, round to nearest even by
      the last bit shifted out and the or of those below it. */
  function RoundProduct(hi: U128, lo: U128, rsh: nat): U128
    requires 15 <= rsh < 256
  {
    if rsh >= 128 then
      var rsh2 := rsh - 128;
      var m := Shr(hi, rsh2);
      var roundBit := if rsh2 > 0 then Bit(hi, rsh2 - 1) else Bit(lo, 127);
      var above := if rsh2 > 1 then And(hi, Sub(Shl(ONE, rsh2 - 1), ONE)) else ZERO;
      var sticky := Or(above, lo);
      if roundBit == 1 && (!IsZero(sticky) || !IsZero(And(m, ONE))) then Inc(m) else m
    else
      var m := Or(Shl(hi, 128 - rsh), Shr(lo, rsh));
      var roundBit := Bit(lo, rsh - 1);
      var sticky := And(lo, Sub(Shl(ONE, rsh - 1), ONE));
      if roundBit == 1 && (!IsZero(sticky) || !IsZero(And(m, ONE))) then Inc(m) else m
  }

  // ---------------------------------------------------------------------------
  // Rounding the product

  /** The bit just below a cut and the bits under it are the remainder of the cut. */
  lemma {:induction false} SplitRemainder(x: nat, h: nat)
    requires h > 0
    ensures x % (2 * h) == ((x / h) % 2) * h + x % h
    ensures x / (2 * h) == (x / h) / 2
  {
    var q := x / h;
    TwoDigits(q / 2, q % 2, h);
    DivModUnique(x, 2 * h, q / 2, (q % 2) * h + x % h);
  }

  lemma {:induction false} TwoDigits(a: nat, b: nat, h: nat)
    ensures (2 * a + b) * h == a * (2 * h) + b * h
    ensures b <= 1 ==> b * h <= h
  {
  }

  /** Rounding by round bit and sticky bits is rounding half to even. */
  lemma {:induction false} StickyRounding(x: nat, h: nat)
    requires h > 0
    ensures var m := x / (2 * h);
      RoundHalfEven(x, 2 * h) == if (x / h) % 2 == 1 && (x % h != 0 || m % 2 == 1) then m + 1 else m
  {
    SplitRemainder(x, h);
  }

  lemma {:induction false} ProductCut(x: nat, hi: nat, lo: nat, r: nat)
    requires r <= 128 && x == hi * TWO128 + lo && lo < TWO128
    ensures x / Pow2(r) == hi * Pow2(128 - r) + lo / Pow2(r)
    ensures x % Pow2(r) == lo % Pow2(r) && lo / Pow2(r) < Pow2(128 - r)
  {
    hide Pow2;
    WordIsPow2();
    Pow2Add(r, 128 - r);
    CutPure(hi, lo, Pow2(r), Pow2(128 - r), TWO128);
  }

  lemma {:induction false} CutPure(hi: nat, lo: nat, p: nat, q: nat, w: nat)
    requires p > 0 && q > 0 && p * q == w && lo < w
    ensures (hi * w + lo) / p == hi * q + lo / p && (hi * w + lo) % p == lo % p && lo / p < q
  {
    var (s, t) := (lo / p, lo % p);
    assert hi * w == (hi * q) * p;
    assert (hi * q + s) * p == (hi * q) * p + s * p;
    DivModUnique(hi * w + lo, p, hi * q + s, t);
    if s >= q {
      MulMonotone(q, s, p);
    }
  }

  /** The shifted product is exact, and its parts are what the code tests. */
  lemma {:induction false} ShiftedProduct(hi: U128, lo: U128, r: nat)
    requires 0 < r < 128 && Val(hi) * Pow2(128 - r) < TWO128
    ensures Val(Or(Shl(hi, 128 - r), Shr(lo, r))) == (Val(hi) * TWO128 + Val(lo)) / Pow2(r)
  {
    hide Pow2, Shl, Shr, Or, Val;
    ValBound(lo);
    ProductCut(Val(hi) * TWO128 + Val(lo), Val(hi), Val(lo), r);
    ShlVal(hi, 128 - r);
    ShrVal(lo, r);
    MultipleOf(Val(hi), Pow2(128 - r));
    OrVal(Shl(hi, 128 - r), Shr(lo, r), 128 - r);
  }

  lemma {:induction false} MultipleOf(x: nat, p: nat)
    requires p > 0
    ensures (x * p) % p == 0
  {
    DivModUnique(x * p, p, x, 0);
  }

  /** The bit below the cut and the bits below that one, as the code tests them. */
  lemma {:induction false} TestedBits(hi: U128, lo: U128, r: nat)
    requires 15 <= r < 128
    ensures var x := Val(hi) * TWO128 + Val(lo); var h := Pow2(r - 1);
      Bit(lo, r - 1) == (x / h) % 2 && (IsZero(And(lo, Sub(Shl(ONE, r - 1), ONE))) <==> x % h == 0)
  {
    hide Pow2, Shl, Val, Bit, Sub, And;
    ValBound(lo);
    ProductCut(Val(hi) * TWO128 + Val(lo), Val(hi), Val(lo), r - 1);
    BitVal(lo, r - 1);
    MaskVal(lo, r - 1);
    ZeroIff(And(lo, Sub(Shl(ONE, r - 1), ONE)));
    PowDouble(128 - r);
    EvenPlus(Val(hi), Pow2(128 - r), Val(lo) / Pow2(r - 1));
  }

  lemma {:induction false} ZeroIff(a: U128)
    ensures IsZero(a) <==> Val(a) == 0
  {
  }

  lemma {:induction false} RoundedProduct(hi: U128, lo: U128, r: nat)
    requires 15 <= r < 128 && Val(hi) * Pow2(128 - r) < TWO128
    requires (Val(hi) * TWO128 + Val(lo)) / Pow2(r) + 1 < TWO128
    ensures Val(RoundProduct(hi, lo, r)) == RoundHalfEven(Val(hi) * TWO128 + Val(lo), Pow2(r))
  {
    hide Pow2, Shl, Shr, Or, Val, Bit, Sub, And, IsZero, Inc, RoundHalfEven;
    ShiftedProduct(hi, lo, r);
    TestedBits(hi, lo, r);
    PowDouble(r - 1);
    RoundedBits(hi, lo, r, NatProduct(Val(hi), TWO128) + Val(lo), Pow2(r - 1));
  }

  lemma {:induction false} RoundedBits(hi: U128, lo: U128, r: nat, x: nat, h: nat)
    requires 15 <= r < 128 && h > 0 && x / (2 * h) + 1 < TWO128
    requires Val(Or(Shl(hi, 128 - r), Shr(lo, r))) == x / (2 * h)
    requires Bit(lo, r - 1) == (x / h) % 2 && (IsZero(And(lo, Sub(Shl(ONE, r - 1), ONE))) <==> x % h == 0)
    ensures Val(RoundProduct(hi, lo, r)) == RoundHalfEven(x, 2 * h)
  {
    hide Pow2, Shl, Shr, Or, Val, Bit, Sub, And, IsZero, Inc, RoundHalfEven;
    StickyRounding(x, h);
    var m := Or(Shl(hi, 128 - r), Shr(lo, r));
    AndOne(m);
    IncVal(m);
  }

  lemma {:induction false} EvenPlus(x: nat, h: nat, s: nat)
    ensures (x * (2 * h) + s) % 2 == s % 2
  {
    assert x * (2 * h) + s == s + (x * h) * 2;
    ModShift(s, x * h, 2);
  }

  // ---------------------------------------------------------------------------
  // Products of normal values

  lemma {:induction false} SignificandProduct(ma: nat, mb: nat)
    requires ma < Pow2(113) && mb < Pow2(113)
    ensures ma * mb < Pow2(226)
    ensures ma >= Pow2(112) && mb >= Pow2(112) ==> ma * mb >= Pow2(127)
  {
    hide Pow2;
    Pow2Add(112, 112);
    Pow2Add(113, 113);
    Pow2Monotone(127, 224);
    MulBoth(ma + 1, Pow2(113), mb, Pow2(113));
    assert (ma + 1) * mb == ma * mb + mb;
    PositiveBoth(ma, mb);
    if ma >= Pow2(112) && mb >= Pow2(112) {
      MulBoth(Pow2(112), ma, Pow2(112), mb);
    }
  }

  lemma {:induction false} PositiveBoth(ma: nat, mb: nat)
    ensures ma * mb == 0 || (ma > 0 && mb > 0)
    ensures Pow2(226) > 0
  {
  }

  lemma {:induction false} DivideRange(x: nat, a: nat, b: nat, c: nat)
    requires c <= a && Pow2(a) <= x < Pow2(b) && a <= b
    ensures Pow2(a - c) <= x / Pow2(c) < Pow2(b - c)
  {
    hide Pow2;
    Pow2Add(a - c, c);
    Pow2Add(b - c, c);
    var q := x / Pow2(c);
    assert x == q * Pow2(c) + x % Pow2(c);
    assert (q + 1) * Pow2(c) == q * Pow2(c) + Pow2(c);
    if q < Pow2(a - c) {
      MulMonotone(q + 1, Pow2(a - c), Pow2(c));
    } else if q >= Pow2(b - c) {
      MulMonotone(Pow2(b - c), q, Pow2(c));
    }
  }

  lemma {:induction false} ClzTop(hi: U128, n: nat)
    requires if n == 0 then Val(hi) == 0 else Pow2(n - 1) <= Val(hi) < Pow2(n)
    requires n <= 128
    ensures Clz(hi) == 128 - n
  {
    if n > 0 {
      ClzIsLength(hi);
      BitLengthUnique(Val(hi), n);
    }
  }

  /** The shift chosen from the leading zeros of the high half leaves exactly 113 bits of a
      product of at least 128. */
  lemma {:induction false} ProductShift(hi: U128, lo: U128, x: nat) returns (r: nat)
    requires x == Val(hi) * TWO128 + Val(lo) && Pow2(127) <= x < Pow2(226)
    ensures r == 255 - Clz(hi) - 112 == BitLength(x) - 113 && 15 <= r <= 113
    ensures Pow2(112) <= x / Pow2(r) < Pow2(113) && Val(hi) * Pow2(128 - r) < TWO128
  {
    var n := BitLength(x);
    hide Pow2, Val, Clz, BitLength;
    LengthRange(x, n);
    ValBound(lo);
    var h := Val(hi);
    ProductCut(x, h, Val(lo), 128);
    OneTimes(h, Val(lo));
    if n == 128 {
      WordIsPow2();
      SmallMod(x, Pow2(128));
    } else {
      DivideRange(x, n - 1, n, 128);
    }
    ClzTop(hi, n - 128);
    r := n - 113;
    DivideRange(x, n - 1, n, r);
    ProductCut(x, h, Val(lo), r);
    WordIsPow2();
    Pow2Monotone(113, 128);
  }

  lemma {:induction false} LengthRange(x: nat, n: nat)
    requires Pow2(127) <= x < Pow2(226) && n == BitLength(x)
    ensures 128 <= n <= 226 && Pow2(n - 1) <= x < Pow2(n)
  {
    hide Pow2, BitLength;
    BitLengthBound(x, 226);
    PositiveBoth(x, 1);
    if n < 128 {
      Pow2Monotone(n, 127);
    }
  }

  lemma {:induction false} OneTimes(h: nat, lo: nat)
    ensures h * Pow2(0) == h
    ensures lo < TWO128 ==> lo / Pow2(128) == 0
  {
    assert Pow2(0) == 1;
    hide Pow2;
    WordIsPow2();
    if lo < TWO128 {
      SmallMod(lo, TWO128);
    }
  }

  lemma {:induction false} ProductUp(p: nat, k: nat, r: nat, e: nat, x: nat, n: nat)
    requires k + r == e + x && n == p * Pow2(k)
    ensures SameValue(n, Pow2(x), p, Pow2(r), e)
  {
    hide Pow2;
    Pow2Add(k, r);
    Pow2Add(e, x);
    MulAssociative(p, Pow2(k), Pow2(r));
  }

  lemma {:induction false} ProductDown(p: nat, k: nat, r: nat, e: nat, x: nat, n: nat)
    requires k + r + e == x && e > 0 && n == p * Pow2(k)
    ensures SameValue(n, Pow2(x), p, Pow2(r), 0 - e)
  {
    hide Pow2;
    Pow2Add(k, r);
    Pow2Add(k + r, e);
    MulAssociative(p, Pow2(k), Pow2(r));
    MulAssociative(p, Pow2(k + r), Pow2(e));
  }

  /** The exact product in units, as a quotient of significand product and shift. */
  lemma {:induction false} ProductValue(p: nat, k: nat, r: nat, x: nat, n: nat)
    requires n == p * Pow2(k)
    ensures SameValue(n, Pow2(x), p, Pow2(r), k + r - x)
  {
    hide Pow2, SameValue;
    if k + r >= x {
      ProductUp(p, k, r, k + r - x, x, n);
    } else {
      ProductDown(p, k, r, x - k - r, x, n);
    }
  }

  lemma {:induction false} UnitsProduct(ma: nat, mb: nat, ka: nat, kb: nat)
    ensures (ma * Pow2(ka)) * (mb * Pow2(kb)) == (ma * mb) * Pow2(ka + kb)
  {
    hide Pow2;
    Pow2Add(ka, kb);
    FourFactors(ma, Pow2(ka), mb, Pow2(kb));
  }

  lemma {:induction false} FourFactors(a: nat, b: nat, c: nat, d: nat)
    ensures (a * b) * (c * d) == (a * c) * (b * d)
  {
    assert (a * b) * (c * d) == a * (b * (c * d));
    assert b * (c * d) == c * (b * d);
    assert a * (c * (b * d)) == (a * c) * (b * d);
  }

  /** The exact product, in units of 2^-32988. */
  function ExactProduct(a: F128, b: F128): nat {
    NatProduct(Units(a), Units(b))
  }

  function NatProduct(x: nat, y: nat): nat {
    x * y
  }

  /** Units of the product of two values, over units of one: 2^16494. */
  function ProductScale(): nat {
    Pow2(16494)
  }

  /** Rounding and packing a product of significands that has at least 128 bits. */
  lemma {:induction false} PackedProduct(p: nat, k: nat, hi: U128, lo: U128, exp: int, sign: nat)
    requires Pow2(127) <= p < Pow2(226) && sign <= 1
    requires Val(hi) * TWO128 + Val(lo) == p && exp + 32764 == k
    ensures 15 <= 255 - Clz(hi) - 112 < 256
    ensures var rsh := 255 - Clz(hi) - 112; var n := NatProduct(p, Pow2(k)); var d := ProductScale();
      RoundsTo(n, d, sign, PackParts(sign, exp + (rsh - 112), RoundProduct(hi, lo, rsh)))
      <==> RoundsToNormal(n, d) || 2 * n <= d
  {
    hide Pow2, Val, Clz, RoundsTo, RoundsToNormal, RoundProduct, PackParts, RoundHalfEven, SameValue, BitLength;
    var r := ProductShift(hi, lo, p);
    FitsWord(p / Pow2(r));
    RoundedProduct(hi, lo, r);
    ProductValue(p, k, r, 16494, NatProduct(p, Pow2(k)));
    PackCorrectIff(sign, exp + r - 112, RoundProduct(hi, lo, r), p, Pow2(r), NatProduct(p, Pow2(k)), ProductScale());
  }

  /** The product of the significands has at least 128 bits, as it has for normal values. */
  predicate LongProduct(a: F128, b: F128) {
    NatProduct(Significand(a), Significand(b)) >= Pow2(127)
  }

  lemma {:induction false} NormalsAreLong(a: F128, b: F128)
    requires IsNormal(a) && IsNormal(b)
    ensures IsNonzero(a) && IsNonzero(b) && LongProduct(a, b)
  {
    hide Pow2, Significand;
    NormalUnits(a);
    NormalUnits(b);
    NormalSignificand(a);
    NormalSignificand(b);
    SignificandProduct(Significand(a), Significand(b));
  }

  lemma {:induction false} NormalSignificand(v: F128)
    requires IsNormal(v)
    ensures Pow2(112) <= Significand(v) < Pow2(113)
  {
    hide Pow2;
    HiddenBit();
  }

  /** A short product: the high half is empty and the shift is fifteen. */
  lemma {:induction false} PackedShortProduct(p: nat, k: nat, hi: U128, lo: U128, exp: int, sign: nat)
    requires p < Pow2(127) && sign <= 1 && k <= MaxPlace()
    requires Val(hi) * TWO128 + Val(lo) == p && exp + 32764 == k
    ensures 255 - Clz(hi) - 112 == 15
    ensures var n := NatProduct(p, Pow2(k)); var d := ProductScale();
      RoundsTo(n, d, sign, PackParts(sign, exp + (15 - 112), RoundProduct(hi, lo, 15)))
      <==> ShortIsRight(n, d, p, Pow2(15), k - 16479)
  {
    hide Pow2, Val, Clz, RoundsTo, RoundProduct, PackParts, RoundHalfEven, SameValue, ShortIsRight;
    ShortFits(p);
    ZeroHigh(Val(hi), Val(lo), p);
    ClzTop(hi, 0);
    RoundedProduct(hi, lo, 15);
    ProductValue(p, k, 15, 16494, NatProduct(p, Pow2(k)));
    ShortPackIff(sign, exp + (15 - 112), RoundProduct(hi, lo, 15), p, Pow2(15), NatProduct(p, Pow2(k)), ProductScale());
  }

  lemma {:induction false} ShortFits(p: nat)
    requires p < Pow2(127)
    ensures p < TWO128 && p / Pow2(15) < Pow2(112) && p / Pow2(15) + 1 < TWO128 && 0 * Pow2(113) < TWO128
  {
    hide Pow2;
    WordIsPow2();
    PowDouble(127);
    Pow2Add(112, 15);
    PowDouble(112);
    if p / Pow2(15) >= Pow2(112) {
      MulMonotone(Pow2(112), p / Pow2(15), Pow2(15));
    }
    FitsWord(p / Pow2(15));
  }

  /** One of the operands of a short product is subnormal. */
  lemma {:induction false} ShortPlace(a: F128, b: F128)
    requires IsFinite(a) && IsFinite(b) && !LongProduct(a, b)
    ensures Place(a) + Place(b) <= MaxPlace()
  {
    hide LongProduct;
    SignBounded(a);
    SignBounded(b);
    if IsNormal(a) && IsNormal(b) {
      NormalsAreLong(a, b);
    }
  }

  /** The exact condition under which a product comes out right. */
  predicate MulIsRight(a: F128, b: F128) {
    var n := ExactProduct(a, b);
    var d := ProductScale();
    if LongProduct(a, b) then RoundsToNormal(n, d) || 2 * n <= d
    else ShortIsRight(n, d, NatProduct(Significand(a), Significand(b)), Pow2(15), Place(a) + Place(b) - 16479)
  }

  lemma {:induction false} MulFinite(a: F128, b: F128, hi: U128, lo: U128, sign: nat)
    requires IsNonzero(a) && IsNonzero(b) && sign <= 1
    requires (hi, lo) == Mul128(Unpack(a).mant, Unpack(b).mant)
    ensures 15 <= 255 - Clz(hi) - 112 < 256
    ensures var rsh := 255 - Clz(hi) - 112;
      RoundsTo(ExactProduct(a, b), ProductScale(), sign,
               PackParts(sign, Unpack(a).exp + Unpack(b).exp + (rsh - 112), RoundProduct(hi, lo, rsh)))
      <==> MulIsRight(a, b)
  {
    hide Pow2, Unpack, Mul128, Val, Clz, Units, RoundsTo, RoundsToNormal, RoundProduct, PackParts, Significand, Place,
         ProductScale, IsNormal, ShortIsRight;
    UnitsOf(a);
    UnitsOf(b);
    UnpackFinite(a);
    UnpackFinite(b);
    Mul128Val(Unpack(a).mant, Unpack(b).mant);
    UnitsProduct(Significand(a), Significand(b), Place(a), Place(b));
    SignificandProduct(Significand(a), Significand(b));
    var (p, k) := (NatProduct(Significand(a), Significand(b)), Place(a) + Place(b));
    if LongProduct(a, b) {
      PackedProduct(p, k, hi, lo, Unpack(a).exp + Unpack(b).exp, sign);
    } else {
      ShortPlace(a, b);
      PackedShortProduct(p, k, hi, lo, Unpack(a).exp + Unpack(b).exp, sign);
    }
  }

  /** What is cut off a product of significands: all but 113 bits, and never less than fifteen. */
  function CutBits(p: nat): nat {
    if BitLength(p) > 128 then BitLength(p) - 113 else 15
  }

  /** r is what packing makes of the rounded product of the significands. */
  ghost predicate PacksProduct(a: F128, b: F128, r: F128) {
    exists m: U128 ::
      var p := NatProduct(Significand(a), Significand(b));
      && Val(m) == RoundHalfEven(p, Pow2(CutBits(p)))
      && r == PackParts(Xor1(SignOf(a), SignOf(b)), Place(a) + Place(b) + CutBits(p) - 32876, m)
  }

  lemma {:induction false} ProductRounded(hi: U128, lo: U128, p: nat)
    requires p == Val(hi) * TWO128 + Val(lo) && p < Pow2(226)
    ensures CutBits(p) == 255 - Clz(hi) - 112 && 15 <= CutBits(p) < 256
    ensures Val(RoundProduct(hi, lo, CutBits(p))) == RoundHalfEven(p, Pow2(CutBits(p)))
  {
    hide Pow2, Val, Clz, RoundProduct, RoundHalfEven, BitLength;
    if p >= Pow2(127) {
      var r := ProductShift(hi, lo, p);
      FitsWord(p / Pow2(r));
      RoundedProduct(hi, lo, r);
    } else {
      ShortFits(p);
      ZeroHigh(Val(hi), Val(lo), p);
      ClzTop(hi, 0);
      RoundedProduct(hi, lo, 15);
      BitLengthBound(p, 127);
    }
  }

  lemma {:induction false} ProductPacked(a: F128, b: F128, hi: U128, lo: U128)
    requires IsNonzero(a) && IsNonzero(b) && (hi, lo) == Mul128(Unpack(a).mant, Unpack(b).mant)
    ensures 15 <= 255 - Clz(hi) - 112 < 256
    ensures var rsh := 255 - Clz(hi) - 112;
      PacksProduct(a, b, PackParts(Xor1(SignOf(a), SignOf(b)), Unpack(a).exp + Unpack(b).exp + (rsh - 112),
                                   RoundProduct(hi, lo, rsh)))
  {
    hide Pow2, Unpack, Mul128, Val, Clz, Units, RoundProduct, PackParts, Significand, Place, RoundHalfEven, CutBits;
    UnpackFinite(a);
    UnpackFinite(b);
    Mul128Val(Unpack(a).mant, Unpack(b).mant);
    SignificandProduct(Significand(a), Significand(b));
    ProductRounded(hi, lo, NatProduct(Significand(a), Significand(b)));
  }

  // A short product

  const SMALLEST: F128 := Encode(0, 0, 0, 1)
  const ALL_ONES: F128 := Encode(0, 16495, EXP_UNIT - 1, WORD - 1)

  lemma {:induction false} ExampleFields()
    ensures Units(SMALLEST) == 1 && IsFinite(SMALLEST) && Place(SMALLEST) == 0 && Significand(SMALLEST) == 1
    ensures IsFinite(ALL_ONES) && Place(ALL_ONES) == 16494 && Significand(ALL_ONES) == Pow2(113) - 1
  {
    EncodeFields(0, 0, 0, 1);
    EncodeFields(0, 16495, EXP_UNIT - 1, WORD - 1);
    assert Pow2(0) == 1;
    hide Pow2;
    HiddenBit();
  }

  /** Fifteen bits are always cut, so a short product is rounded to too few: the smallest value
      times one with 113 ones gives 2^113 units instead of 2^113 - 1. */
  lemma {:induction false} ShortProduct(hi: U128, lo: U128, v: F128)
    requires (hi, lo) == Mul128(Unpack(SMALLEST).mant, Unpack(ALL_ONES).mant)
    requires v == PackParts(0, Unpack(SMALLEST).exp + Unpack(ALL_ONES).exp + (15 - 112), RoundProduct(hi, lo, 15))
    ensures 255 - Clz(hi) - 112 == 15 && IsNonzero(SMALLEST) && IsNonzero(ALL_ONES)
    ensures ExactProduct(SMALLEST, ALL_ONES) == NatProduct(Pow2(113) - 1, ProductScale()) && Units(v) == Pow2(113)
    ensures !RoundsTo(ExactProduct(SMALLEST, ALL_ONES), ProductScale(), 0, v) && !MulIsRight(SMALLEST, ALL_ONES)
  {
    hide MulIsRight;
    hide Pow2, Unpack, Mul128, Val, Clz, Units, PackParts, RoundProduct, Significand, Place, Encode, IsFinite,
         NearestEven;
    hide ProductScale, OverflowBound, MakeInf, RoundHalfEven;
    ExampleFields();
    UnitsOf(ALL_ONES);
    ScalePositive();
    ProductPositive(Pow2(113) - 1, Pow2(16494));
    UnpackFinite(SMALLEST);
    UnpackFinite(ALL_ONES);
    Mul128Val(Unpack(SMALLEST).mant, Unpack(ALL_ONES).mant);
    var mant := ShortRounded(hi, lo);
    ShortPacked(v, mant);
    MulFinite(SMALLEST, ALL_ONES, hi, lo, 0);
  }

  lemma {:induction false} ScalePositive()
    ensures ProductScale() == Pow2(16494) > 0 && Pow2(113) > 1
  {
    hide Pow2;
    PowDouble(112);
  }

  lemma {:induction false} ShortRounded(hi: U128, lo: U128) returns (mant: U128)
    requires Val(hi) * TWO128 + Val(lo) == Pow2(113) - 1
    ensures mant == RoundProduct(hi, lo, 15) && Val(mant) == Pow2(98) && Clz(hi) == 128
  {
    hide Pow2, Clz, RoundProduct, RoundHalfEven, Val;
    mant := RoundProduct(hi, lo, 15);
    ShortNumbers();
    ZeroHigh(Val(hi), Val(lo), Pow2(113) - 1);
    ClzTop(hi, 0);
    RoundedProduct(hi, lo, 15);
  }

  lemma {:induction false} ShortNumbers()
    ensures 0 < Pow2(113) - 1 < TWO128 && 0 * Pow2(113) < TWO128
    ensures RoundHalfEven(Pow2(113) - 1, Pow2(15)) == Pow2(98) && (Pow2(113) - 1) / Pow2(15) + 1 < TWO128
  {
    hide Pow2, RoundHalfEven;
    WordIsPow2();
    PowDouble(112);
    Pow2Monotone(98, 113);
    Pow2Monotone(113, 127);
    PowDouble(127);
    PowDouble(13);
    PowDouble(14);
    NearlyWhole(Pow2(15), Pow2(98));
    Pow2Add(15, 98);
  }

  lemma {:induction false} ZeroHigh(h: nat, l: nat, x: nat)
    requires h * TWO128 + l == x < TWO128
    ensures h == 0 && l == x
  {
    if h > 0 {
      MulMonotone(1, h, TWO128);
    }
  }

  lemma {:induction false} NearlyWhole(g: nat, m: nat)
    requires g >= 4 && m > 0
    ensures (g * m - 1) / g == m - 1 && RoundHalfEven(g * m - 1, g) == m
  {
    assert g * m == m * g && (m - 1) * g == m * g - g;
    DivModUnique(g * m - 1, g, m - 1, g - 1);
  }

  lemma {:induction false} ShortPacked(v: F128, mant: U128)
    requires Val(mant) == Pow2(98) && v == PackParts(0, -16367, mant)
    ensures Units(v) == Pow2(113)
    ensures !RoundsTo(NatProduct(Pow2(113) - 1, ProductScale()), ProductScale(), 0, v)
  {
    hide Pow2, Val, Units, PackParts, IsFinite;
    Pow2Add(98, 15);
    Pow2Monotone(98, 112);
    PowDouble(112);
    PackExact(0, -16367, mant);
    ScalePositive();
    hide ProductScale, NearestEven;
    var d := ProductScale();
    InfNotFinite(0);
    var w := OnesWitness();
    assert (Pow2(113) - 1) * d == Pow2(113) * d - d;
    NotNearest((Pow2(113) - 1) * d, d, v, w);
  }

  lemma {:induction false} NotNearest(n: nat, d: nat, v: F128, w: F128)
    requires d > 0 && IsFinite(w) && Units(w) * d == n && Units(v) * d != n
    ensures !NearestEven(n, d, v)
  {
    hide Units, IsFinite;
    assert !AtLeastAsNear(n, d, v, w);
  }

  lemma {:induction false} OnesWitness() returns (w: F128)
    ensures IsFinite(w) && Units(w) == Pow2(113) - 1
  {
    EncodeFields(0, 1, EXP_UNIT - 1, WORD - 1);
    w := Encode(0, 1, EXP_UNIT - 1, WORD - 1);
    assert Pow2(0) == 1;
    hide Pow2;
    HiddenBit();
  }

  lemma {:induction false} InfNotFinite(sign: nat)
    requires sign <= 1
    ensures !IsFinite(MakeInf(sign))
  {
    EncodeFields(sign, EXP_MAX, 0, 0);
  }

  lemma {:induction false} NormalUnits(v: F128)
    requires IsNormal(v)
    ensures Units(v) == Significand(v) * Pow2(Place(v)) && Units(v) > 0 && IsFinite(v)
  {
    hide Pow2;
    ProductPositive(Significand(v), Pow2(Place(v)));
  }

  lemma {:induction false} FitsWord(x: nat)
    requires x < Pow2(113)
    ensures x + 1 < TWO128
  {
    hide Pow2;
    WordIsPow2();
    Pow2Monotone(113, 128);
  }

  /** f128_mul.  For finite non-zero operands the result is the exact product rounded to nearest
      even, or infinity, if and only if the condition holds. */
  method Mul(a: F128, b: F128) returns (r: F128)
    ensures IsNan(a) ==> r == a
    ensures !IsNan(a) && IsNan(b) ==> r == b
    ensures !IsNan(a) && !IsNan(b) && (!IsFinite(a) || !IsFinite(b)) ==>
      r == if (IsFinite(a) && Units(a) == 0) || (IsFinite(b) && Units(b) == 0) then MakeNan()
           else MakeInf(Xor1(SignOf(a), SignOf(b)))
    ensures IsFinite(a) && IsFinite(b) && (Units(a) == 0 || Units(b) == 0) ==> r == MakeZero(Xor1(SignOf(a), SignOf(b)))
    ensures IsNonzero(a) && IsNonzero(b) ==>
      (RoundsTo(ExactProduct(a, b), ProductScale(), Xor1(SignOf(a), SignOf(b)), r) <==> MulIsRight(a, b))
    ensures IsNonzero(a) && IsNonzero(b) ==> PacksProduct(a, b, r)
  {
    hide PacksProduct;
    hide Pow2, Units, RoundsTo, MulIsRight, RoundProduct, PackParts, Mul128, Clz, ProductScale;
    UnpackKind(a);
    UnpackKind(b);
    hide Unpack;
    var pa := Unpack(a);
    var pb := Unpack(b);
    var sign := Xor1(SignOf(a), SignOf(b));
    if pa.isNan {
      return a;
    }
    if pb.isNan {
      return b;
    }
    if pa.isInf || pb.isInf {
      if pa.isZero || pb.isZero {
        return MakeNan();
      }
      return MakeInf(sign);
    }
    if pa.isZero || pb.isZero {
      return MakeZero(sign);
    }
    var (hi, lo) := Mul128(pa.mant, pb.mant);
    var exp := pa.exp + pb.exp;
    ClzBound(hi);
    var rsh := 255 - Clz(hi) - 112;
    var mant := RoundProduct(hi, lo, rsh);
    exp := exp + (rsh - 112);
    MulFinite(a, b, hi, lo, sign);
    ProductPacked(a, b, hi, lo);
    return PackParts(sign, exp, mant);
  }

  function SignOf(v: F128): (s: nat)
    ensures s <= 1
  {
    SignBounded(v);
    Sign(v)
  }

  lemma {:induction false} ClzBound(a: U128)
    ensures Clz(a) <= 128
  {
  }

  /** The flags of the unpacked value. */
  lemma {:induction false} UnpackKind(v: F128)
    ensures Unpack(v).isNan <==> IsNan(v)
    ensures Unpack(v).isInf <==> !IsFinite(v) && !IsNan(v)
    ensures Unpack(v).isZero <==> IsFinite(v) && Units(v) == 0
    ensures IsNormal(v) ==> IsFinite(v) && Units(v) != 0
  {
    if IsFinite(v) && Units(v) != 0 {
      UnpackFinite(v);
    }
    if IsNormal(v) {
      NormalUnits(v);
    }
    ZeroUnits(v);
    hide Pow2;
  }

  lemma {:induction false} ZeroUnits(v: F128)
    ensures Units(v) == 0 <==> Significand(v) == 0
  {
    hide Pow2;
    if Significand(v) > 0 {
      ProductPositive(Significand(v), Pow2(Place(v)));
    }
  }
}
