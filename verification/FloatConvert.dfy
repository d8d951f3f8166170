/**
 Conversions: packing what was unpacked, 64-bit integers, doubles, and truncation.
 */
module FloatConvert {
  import opened Numbers
  import opened Words
  import opened Float128
  import opened FloatPack
  import opened Rounding
  import FloatAdd
  import FloatMul
  import FloatRound

  /** A finite value is determined by its sign and its magnitude. */
  lemma {:induction false} ValueUnique(a: F128, b: F128)
    requires IsFinite(a) && IsFinite(b) && Sign(a) == Sign(b) && Units(a) == Units(b)
    ensures a == b
  {
    hide Pow2;
    SignBounded(a);
    SignBounded(b);
    if Units(a) == 0 {
      ZeroFields(a);
      ZeroFields(b);
    } else {
      hide Units;
      FloatAdd.SmallerIff(a, b);
      UnpackFinite(a);
      UnpackFinite(b);
    }
  }

  lemma {:induction false} ZeroFields(a: F128)
    requires IsFinite(a) && Units(a) == 0
    ensures Biased(a) == 0 && FracHi(a) == 0 && a.lo == 0
  {
    hide Pow2;
    if Significand(a) != 0 {
      MulMonotone(1, Significand(a), Pow2(Place(a)));
    }
  }

  lemma {:induction false} NormalAtLeast(v: F128)
    requires IsFinite(v) && Units(v) != 0
    ensures IsNormal(v) <==> Units(v) >= Pow2(112)
  {
    HiddenBit();
    hide Pow2;
    UnitsOf(v);
    if IsNormal(v) {
      PlaceGrows(Significand(v), Place(v));
    }
  }

  /** Packing inverts unpacking exactly on the normal values. */
  lemma {:induction false} PackUnpackIff(v: F128)
    requires IsFinite(v) && Units(v) != 0
    ensures var p := Unpack(v); p.sign <= 1 && (PackParts(p.sign, p.exp, p.mant) == v <==> IsNormal(v))
  {
    hide Pow2, Units, PackParts;
    var p := Unpack(v);
    SignBounded(v);
    UnpackFinite(v);
    FloatAdd.UnpackedUnits(v);
    PackExact(p.sign, p.exp, p.mant);
    NormalAtLeast(v);
    if IsNormal(v) {
      ValueUnique(v, PackParts(p.sign, p.exp, p.mant));
    }
  }

  // ---------------------------------------------------------------------------
  // 64-bit integers

  type Int64 = x: int | -0x8000_0000_0000_0000 <= x < 0x8000_0000_0000_0000

  /** The number one in units of the smallest value. */
  function OneUnits(): (n: nat)
    ensures n > 0
  {
    Pow2(16494)
  }

  /** Negating the most negative integer is not defined in C. */
  function FromI64(x: Int64): F128
    requires x != -0x8000_0000_0000_0000
  {
    if x == 0 then MakeZero(0)
    else
      var sign := if x < 0 then 1 else 0;
      var abs: Limb := if x < 0 then -x else x;
      var exp := 63 - Clz64(abs);
      PackParts(sign, exp, Shl(U128(0, abs), 112 - exp))
  }

  function ToI64(a: F128): int {
    var p := Unpack(a);
    if p.isNan || p.isInf || p.isZero then 0
    else if p.exp < 0 then 0
    else if p.exp > 62 then (if p.sign != 0 then -0x8000_0000_0000_0000 else 0x7FFF_FFFF_FFFF_FFFF)
    else
      var v: int := Shr(p.mant, 112 - p.exp).lo;
      if p.sign != 0 then -v else v
  }

  lemma {:induction false} ShortShift(abs: Limb)
    requires 0 < abs < 0x8000_0000_0000_0000
    ensures var exp := 63 - Clz64(abs); var m := Shl(U128(0, abs), 112 - exp);
      && 0 <= exp <= 62 && Val(m) == abs * Pow2(112 - exp) && Pow2(112) <= Val(m) < Pow2(113)
  {
    hide Pow2, BitLength, Shl;
    WordIsPow2();
    BitLengthBound(abs, 64);
    var n := BitLength(abs);
    assert Pow2(63) == 0x8000_0000_0000_0000 by { PowDouble(63); }
    BitLengthBound(abs, 63);
    ShiftedLength(abs, n);
    PowBelow(113);
    ShlVal(U128(0, abs), 113 - n);
  }

  /** Every integer but the smallest converts without error. */
  lemma {:induction false} FromI64Exact(x: Int64)
    requires x != -0x8000_0000_0000_0000
    ensures var v := FromI64(x);
      IsFinite(v) && Sign(v) == (if x < 0 then 1 else 0) && Units(v) == Abs(x) * OneUnits()
  {
    hide Pow2, PackParts, Clz64, Shl;
    if x == 0 {
      EncodeFields(0, 0, 0, 0);
      UnitsOf(FromI64(0));
    } else {
      var abs: Limb := if x < 0 then -x else x;
      ShortShift(abs);
      var exp := 63 - Clz64(abs);
      var m := Shl(U128(0, abs), 112 - exp);
      PackExact(if x < 0 then 1 else 0, exp, m);
      PlaceGrows(Val(m), exp + 16382);
      ShiftBack(abs, 112 - exp, 16494);
    }
  }

  /** The integer part of a finite magnitude. */
  function WholePart(v: F128): nat {
    Quotient(Units(v), OneUnits())
  }

  function Quotient(x: nat, d: nat): nat
    requires d > 0
  {
    x / d
  }

  lemma {:induction false} WholeOfScaled(m: nat, k: nat, n: nat)
    ensures k <= n ==> (m * Pow2(k)) / Pow2(n) == m / Pow2(n - k)
    ensures k >= n ==> (m * Pow2(k)) / Pow2(n) == m * Pow2(k - n)
  {
    hide Pow2;
    if k <= n {
      Pow2Add(n - k, k);
      ScaledQuotient(m, Pow2(n - k), Pow2(k));
    }
    if k >= n {
      Pow2Add(k - n, n);
      assert m * (Pow2(k - n) * Pow2(n)) == (m * Pow2(k - n)) * Pow2(n);
      DivModUnique(m * Pow2(k), Pow2(n), m * Pow2(k - n), 0);
    }
  }

  lemma {:induction false} ScaledQuotient(m: nat, p: nat, k: nat)
    requires p > 0 && k > 0
    ensures p * k > 0 && (m * k) / (p * k) == m / p
  {
    var (q, r) := (m / p, m % p);
    assert m * k == q * (p * k) + r * k;
    MulMonotone(r + 1, p, k);
    MulMonotone(1, p, k);
    DivModUnique(m * k, p * k, q, r * k);
  }

  /** Converting to an integer drops the fraction and saturates. */
  lemma {:induction false} ToI64Truncates(v: F128)
    requires IsFinite(v)
    ensures Sign(v) <= 1
    ensures ToI64(v) ==
      if WholePart(v) < 0x8000_0000_0000_0000 then (if Sign(v) == 1 then -(WholePart(v) as int) else WholePart(v))
      else if Sign(v) == 1 then -0x8000_0000_0000_0000 else 0x7FFF_FFFF_FFFF_FFFF
  {
    hide Pow2, Units, Shr;
    SignBounded(v);
    if Units(v) == 0 {
      ZeroFields(v);
      SmallMod(0, OneUnits());
    } else {
      ToI64Nonzero(v, Unpack(v));
    }
  }

  lemma {:induction false} ToI64Nonzero(v: F128, p: Parts)
    requires IsFinite(v) && Units(v) != 0 && p == Unpack(v)
    ensures Sign(v) <= 1
    ensures ToI64(v) ==
      if WholePart(v) < 0x8000_0000_0000_0000 then (if Sign(v) == 1 then -(WholePart(v) as int) else WholePart(v))
      else if Sign(v) == 1 then -0x8000_0000_0000_0000 else 0x7FFF_FFFF_FFFF_FFFF
  {
    hide Pow2, Units, Shr, Val, Unpack;
    SignBounded(v);
    UnpackFinite(v);
    FloatAdd.UnpackedUnits(v);
    WholeOfScaled(Val(p.mant), p.exp + 16382, 16494);
    if p.exp < 0 {
      WholeIsZero(Val(p.mant), 112 - p.exp);
    } else if p.exp <= 62 {
      WholeIsShort(Val(p.mant), 112 - p.exp);
      ShrVal(p.mant, 112 - p.exp);
      LowLimb(Shr(p.mant, 112 - p.exp));
    } else if p.exp <= 112 {
      WholeIsLong(Val(p.mant), 112 - p.exp);
    } else {
      HugeIsLong(Val(p.mant), p.exp - 112);
    }
  }

  lemma {:induction false} LowLimb(a: U128)
    requires Val(a) < WORD
    ensures a.lo == Val(a)
  {
  }

  lemma {:induction false} WholeIsZero(m: nat, k: nat)
    requires m < Pow2(113) && k > 112
    ensures m / Pow2(k) == 0
  {
    hide Pow2;
    Pow2Monotone(113, k);
    SmallMod(m, Pow2(k));
  }

  lemma {:induction false} WholeIsShort(m: nat, k: nat)
    requires m < Pow2(113) && 50 <= k <= 112
    ensures m / Pow2(k) < 0x8000_0000_0000_0000
  {
    SixtyThree();
    hide Pow2;
    Pow2Add(63, k);
    Pow2Monotone(113, 63 + k);
    FloatAdd.QuotientAtLeast(m, Pow2(k), Pow2(63));
  }

  lemma {:induction false} SixtyThree()
    ensures Pow2(63) == 0x8000_0000_0000_0000
  {
    WordIsPow2();
    PowDouble(63);
  }

  lemma {:induction false} WholeIsLong(m: nat, k: nat)
    requires m >= Pow2(112) && k < 50
    ensures m / Pow2(k) >= 0x8000_0000_0000_0000
  {
    SixtyThree();
    hide Pow2;
    Pow2Add(63, k);
    Pow2Monotone(63 + k, 112);
    FloatAdd.QuotientAtLeast(m, Pow2(k), Pow2(63));
  }

  lemma {:induction false} HugeIsLong(m: nat, k: nat)
    requires m >= Pow2(112)
    ensures m * Pow2(k) >= 0x8000_0000_0000_0000
  {
    SixtyThree();
    hide Pow2;
    Pow2Monotone(63, 112);
    PlaceGrows(m, k);
  }

  /** Integers survive the round trip. */
  lemma {:induction false} IntegerRoundTrip(x: Int64)
    requires x != -0x8000_0000_0000_0000
    ensures ToI64(FromI64(x)) == x
  {
    hide ToI64, FromI64, Units, OneUnits;
    OnePositive();
    FromI64Exact(x);
    ToI64Truncates(FromI64(x));
    DivModUnique(Abs(x) * OneUnits(), OneUnits(), Abs(x), 0);
  }

  lemma {:induction false} OnePositive()
    ensures OneUnits() > 0
  {
  }

  // ---------------------------------------------------------------------------
  // Truncation

  function Not(a: U128): U128 {
    U128(WORD - 1 - a.hi, WORD - 1 - a.lo)
  }

  function Trunc(a: F128): F128 {
    SignBounded(a);
    var p := Unpack(a);
    if p.isNan || p.isInf || p.isZero then a
    else if p.exp >= 112 then a
    else if p.exp < 0 then MakeZero(p.sign)
    else
      var mask := Not(Sub(Shl(ONE, 112 - p.exp), ONE));
      PackParts(p.sign, p.exp, And(p.mant, mask))
  }

  lemma {:induction false} AndComplement(x: nat, m: nat, n: nat)
    requires x < Pow2(n) && m < Pow2(n)
    ensures BitAnd(x, Pow2(n) - 1 - m) == x - BitAnd(x, m)
    ensures BitAnd(x, m) <= x
    decreases n
  {
    if x == 0 {
    } else {
      AndComplement(x / 2, m / 2, n - 1);
      assert (Pow2(n) - 1 - m) / 2 == Pow2(n - 1) - 1 - m / 2;
      AndHalves(x, m);
      AndHalves(x, Pow2(n) - 1 - m);
    }
  }

  lemma {:induction false} AndHalves(x: nat, m: nat)
    ensures BitAnd(x, m) == 2 * BitAnd(x / 2, m / 2) + if x % 2 == 1 && m % 2 == 1 then 1 else 0
  {
    if x == 0 {
    } else if m == 0 {
      assert BitAnd(x / 2, 0) == 0;
    }
  }

  lemma {:induction false} AndNot(a: U128, m: U128)
    ensures Val(And(a, m)) <= Val(a) && Val(And(a, Not(m))) == Val(a) - Val(And(a, m))
  {
    hide Pow2, BitAnd;
    WordIsPow2();
    AndComplement(a.hi, m.hi, 64);
    AndComplement(a.lo, m.lo, 64);
  }

  /** Truncation keeps the sign and drops the fraction; infinities and NaNs are unchanged. */
  lemma {:induction false} TruncDropsFraction(v: F128)
    ensures !IsFinite(v) ==> Trunc(v) == v
    ensures IsFinite(v) ==>
      IsFinite(Trunc(v)) && Sign(Trunc(v)) == Sign(v) && Units(Trunc(v)) == WholePart(v) * OneUnits()
  {
    hide Pow2;
    SignBounded(v);
    if IsFinite(v) {
      if Units(v) == 0 {
        ZeroFields(v);
        SmallMod(0, OneUnits());
      } else {
        TruncFinite(v);
      }
    }
  }

  lemma {:induction false} TruncFinite(v: F128)
    requires IsFinite(v) && Units(v) != 0
    ensures IsFinite(Trunc(v)) && Sign(Trunc(v)) == Sign(v) && Units(Trunc(v)) == WholePart(v) * OneUnits()
  {
    hide Pow2, Units, Val, PackParts;
    SignBounded(v);
    var p := Unpack(v);
    UnpackFinite(v);
    FloatAdd.UnpackedUnits(v);
    WholeOfScaled(Val(p.mant), p.exp + 16382, 16494);
    if p.exp >= 112 {
      ShiftBackTo(Val(p.mant), p.exp - 112, 16494);
    } else if p.exp < 0 {
      WholeIsZero(Val(p.mant), 112 - p.exp);
      EncodeFields(p.sign, 0, 0, 0);
      UnitsOf(Trunc(v));
    } else {
      TruncMasked(p.sign, p.exp, p.mant);
    }
  }

  lemma {:induction false} ShiftBackTo(m: nat, k: nat, n: nat)
    ensures (m * Pow2(k)) * Pow2(n) == m * Pow2(k + n)
  {
    hide Pow2;
    Pow2Add(k, n);
    assert (m * Pow2(k)) * Pow2(n) == m * (Pow2(k) * Pow2(n));
  }

  lemma {:induction false} TruncMasked(sign: nat, exp: int, mant: U128)
    requires sign <= 1 && 0 <= exp < 112 && Pow2(112) <= Val(mant) < Pow2(113)
    ensures var v := PackParts(sign, exp, And(mant, Not(Sub(Shl(ONE, 112 - exp), ONE))));
      IsFinite(v) && Sign(v) == sign && Units(v) == (Val(mant) / Pow2(112 - exp)) * OneUnits()
  {
    hide Pow2, PackParts, Units, Val, And, Shl, Sub, Not;
    var f := 112 - exp;
    var low := Sub(Shl(ONE, f), ONE);
    var m := And(mant, Not(low));
    MaskVal(mant, f);
    AndNot(mant, low);
    var q := Val(mant) / Pow2(f);
    assert Val(m) == q * Pow2(f);
    Pow2Add(exp, f);
    FloatAdd.QuotientAtLeast(Val(mant), Pow2(f), Pow2(exp));
    MulMonotone(Pow2(exp), q, Pow2(f));
    assert Val(m) >= Pow2(112);
    PackExact(sign, exp, m);
    PlaceGrows(Val(m), exp + 16382);
    ShiftBackTo(q, f, exp + 16382);
  }

  // ---------------------------------------------------------------------------
  // Doubles, as their 64 bits

  const DOUBLE_UNIT: nat := 0x10_0000_0000_0000
  const DOUBLE_MAX: nat := 0x7FF
  const DOUBLE_NAN: Limb := 0x7FF8_0000_0000_0000

  function DSign(d: Limb): nat {
    d / SIGN_BIT
  }

  function DExp(d: Limb): nat {
    d / DOUBLE_UNIT % 0x800
  }

  function DFrac(d: Limb): nat {
    d % DOUBLE_UNIT
  }

  function DoubleBits(sign: nat, exp: nat, frac: Limb): Limb
    requires sign <= 1 && exp <= DOUBLE_MAX
  {
    OrWord(OrWord(sign * SIGN_BIT, exp * DOUBLE_UNIT), frac)
  }

  function FromF64(d: Limb): F128
  {
    DoubleFields(d);
    var sign := DSign(d);
    if DExp(d) == DOUBLE_MAX then (if DFrac(d) != 0 then MakeNan() else MakeInf(sign))
    else if DExp(d) == 0 && DFrac(d) == 0 then MakeZero(sign)
    else if DExp(d) != 0 then PackParts(sign, DExp(d) - 1023, Shl(U128(0, DFrac(d) + DOUBLE_UNIT), 60))
    else PackParts(sign, -1074, Shl(U128(0, DFrac(d)), 60))
  }

  function ToF64(a: F128): Limb {
    SignBounded(a);
    var p := Unpack(a);
    if p.isNan then DOUBLE_NAN
    else if p.isInf then DoubleBits(p.sign, DOUBLE_MAX, 0)
    else if p.isZero then DoubleBits(p.sign, 0, 0)
    else if p.exp + 1023 >= DOUBLE_MAX then DoubleBits(p.sign, DOUBLE_MAX, 0)
    else if p.exp + 1023 <= 0 then SmallDouble(p.sign, p.exp + 1023, p.mant)
    else NormalDouble(p.sign, p.exp + 1023, p.mant)
  }

  /** Results below the normal doubles: the significand is shifted down. */
  function SmallDouble(sign: nat, exp: int, mant: U128): Limb
    requires sign <= 1 && exp <= 0
  {
    var shift := 60 + (1 - exp);
    if shift >= 128 then DoubleBits(sign, 0, 0) else DoubleBits(sign, 0, Shr(mant, shift).lo)
  }

  function NormalDouble(sign: nat, exp: nat, mant: U128): Limb
    requires sign <= 1 && exp < DOUBLE_MAX
  {
    var frac := AndWord(Shr(mant, 60).lo, DOUBLE_UNIT - 1);
    var sticky := And(mant, Sub(Shl(ONE, 59), ONE));
    var up := Bit(mant, 59) == 1 && (!IsZero(sticky) || frac % 2 == 1);
    var rounded := Wrap(if up then frac + 1 else frac);
    if rounded / DOUBLE_UNIT != 0 then DoubleBits(sign, exp + 1, rounded / 2) else DoubleBits(sign, exp, rounded)
  }

  lemma {:induction false} DoubleFields(d: Limb)
    ensures DSign(d) <= 1 && DExp(d) <= DOUBLE_MAX
    ensures d == DSign(d) * SIGN_BIT + DExp(d) * DOUBLE_UNIT + DFrac(d)
  {
    var top := d / DOUBLE_UNIT;
    assert d == top * DOUBLE_UNIT + DFrac(d);
    assert top == (top / 0x800) * 0x800 + DExp(d);
    DivModUnique(d, SIGN_BIT, top / 0x800, DExp(d) * DOUBLE_UNIT + DFrac(d));
  }

  lemma {:induction false} DoubleBitsFields(sign: nat, exp: nat, frac: Limb)
    requires sign <= 1 && exp <= DOUBLE_MAX && frac < DOUBLE_UNIT
    ensures var d := DoubleBits(sign, exp, frac);
      && d == sign * SIGN_BIT + exp * DOUBLE_UNIT + frac
      && DSign(d) == sign && DExp(d) == exp && DFrac(d) == frac
  {
    DoublePowers();
    hide Pow2, BitOr;
    BitOrDisjoint(sign, exp * DOUBLE_UNIT, 63);
    BitOrDisjoint(sign * 0x800 + exp, frac, 52);
    var d := sign * SIGN_BIT + exp * DOUBLE_UNIT + frac;
    DivModUnique(d, SIGN_BIT, sign, exp * DOUBLE_UNIT + frac);
    DivModUnique(d, DOUBLE_UNIT, sign * 0x800 + exp, frac);
    DivModUnique(sign * 0x800 + exp, 0x800, sign, exp);
  }

  lemma {:induction false} DoublePowers()
    ensures Pow2(63) == SIGN_BIT && Pow2(52) == DOUBLE_UNIT && Pow2(112) == DOUBLE_UNIT * Pow2(60)
  {
    HiddenBit();
    SixtyThree();
    hide Pow2;
    Pow2Add(52, 60);
    Pow2Add(48, 4);
    assert Pow2(4) == 16 by { Pow2Four(); }
  }

  lemma {:induction false} Pow2Four()
    ensures Pow2(4) == 16
  {
  }

  /** The magnitude of a finite double in units of 2^-1074. */
  function DoubleUnits(d: Limb): nat {
    if DExp(d) == 0 then DFrac(d) else FloatMul.NatProduct(DOUBLE_UNIT + DFrac(d), Pow2(DExp(d) - 1))
  }

  /** A unit of the doubles in units of binary128: 2^-1074 over 2^-16494. */
  function DoubleScale(): (n: nat)
    ensures n > 0
  {
    Pow2(15420)
  }

  // ---------------------------------------------------------------------------
  // Widening

  lemma {:induction false} WidenedSignificand(f: Limb)
    requires 0 < f < 2 * DOUBLE_UNIT
    ensures var m := Shl(U128(0, f), 60); Val(m) == f * Pow2(60) && 0 < Val(m) < Pow2(113)
    ensures f >= DOUBLE_UNIT ==> Val(Shl(U128(0, f), 60)) >= Pow2(112)
  {
    DoublePowers();
    hide Pow2, Shl;
    PowDouble(112);
    PowBelow(113);
    MulMonotone(f + 1, 2 * DOUBLE_UNIT, Pow2(60));
    MulMonotone(1, f, Pow2(60));
    if f >= DOUBLE_UNIT {
      MulMonotone(DOUBLE_UNIT, f, Pow2(60));
    }
    assert (f + 1) * Pow2(60) == f * Pow2(60) + Pow2(60);
    assert (2 * DOUBLE_UNIT) * Pow2(60) == 2 * Pow2(112);
    ShlVal(U128(0, f), 60);
  }

  /** A normal double keeps its value. */
  lemma {:induction false} WidenNormal(d: Limb)
    requires 0 < DExp(d) < DOUBLE_MAX
    ensures var v := FromF64(d);
      && IsNormal(v) && Sign(v) == DSign(d) && Place(v) == DExp(d) + 15359
      && Significand(v) == (DOUBLE_UNIT + DFrac(d)) * Pow2(60)
  {
    hide Pow2, Shl, PackParts, Val;
    DoubleFields(d);
    WidenedSignificand(DFrac(d) + DOUBLE_UNIT);
    Packed(DSign(d), DExp(d) - 1023, Shl(U128(0, DFrac(d) + DOUBLE_UNIT), 60));
  }

  lemma {:induction false} WidenNormalUnits(d: Limb)
    requires 0 < DExp(d) < DOUBLE_MAX
    ensures Units(FromF64(d)) == DoubleUnits(d) * DoubleScale()
  {
    hide Pow2, FromF64, Significand, Place;
    WidenNormal(d);
    UnitsOf(FromF64(d));
    var f := DOUBLE_UNIT + DFrac(d);
    ShiftBackTo(f, 60, DExp(d) + 15359);
    ShiftBackTo(f, DExp(d) - 1, 15420);
  }

  /** A subnormal double comes out 2^52 times too small. */
  lemma {:induction false} WidenSubnormal(d: Limb)
    requires DExp(d) == 0 && DFrac(d) != 0
    ensures var v := FromF64(d);
      IsFinite(v) && Sign(v) == DSign(d) && Units(v) == DFrac(d) * Pow2(15368)
  {
    hide Pow2, Shl, PackParts, Val;
    DoubleFields(d);
    WidenedSignificand(DFrac(d));
    var m := Shl(U128(0, DFrac(d)), 60);
    PackExact(DSign(d), -1074, m);
    Pow2Monotone(112, 15308);
    MulMonotone(1, Val(m), Pow2(15308));
    ShiftBackTo(DFrac(d), 60, 15308);
  }

  /** Widening keeps the value of a finite double exactly if it is not subnormal. */
  lemma {:induction false} WideningExactIff(d: Limb)
    requires DExp(d) != DOUBLE_MAX
    ensures var v := FromF64(d);
      && IsFinite(v) && Sign(v) == DSign(d)
      && (Units(v) == DoubleUnits(d) * DoubleScale() <==> DExp(d) != 0 || DFrac(d) == 0)
  {
    hide Pow2, Units, Shl, PackParts, DoubleScale;
    DoubleFields(d);
    if DExp(d) != 0 {
      WidenNormal(d);
      WidenNormalUnits(d);
    } else if DFrac(d) == 0 {
      EncodeFields(DSign(d), 0, 0, 0);
      UnitsOf(FromF64(d));
    } else {
      WidenSubnormal(d);
      SubnormalShift(DFrac(d));
    }
  }

  lemma {:induction false} SubnormalShift(f: nat)
    requires f > 0
    ensures f * Pow2(15368) < f * DoubleScale()
  {
    assert DoubleScale() == Pow2(15420);
    hide Pow2;
    Pow2Monotone(15368, 15420);
    StrictScale(f, Pow2(15368), Pow2(15420));
  }

  lemma {:induction false} StrictScale(f: nat, a: nat, b: nat)
    requires f > 0 && a < b
    ensures f * a < f * b
  {
  }

  // ---------------------------------------------------------------------------
  // Narrowing

  lemma {:induction false} RoundByBits(x: nat, h: nat)
    requires h > 0
    ensures RoundHalfEven(x, 2 * h) == x / (2 * h) +
      if x / h % 2 == 1 && (x % h != 0 || x / (2 * h) % 2 == 1) then 1 else 0
  {
    HalvesOf(x, h, x / h / 2, x / h % 2, x % h);
  }

  lemma {:induction false} HalvesOf(x: nat, h: nat, q: nat, b: nat, s: nat)
    requires h > 0 && x == (2 * q + b) * h + s && b <= 1 && s < h
    ensures x / (2 * h) == q && RoundHalfEven(x, 2 * h) == q + if b == 1 && (s != 0 || q % 2 == 1) then 1 else 0
  {
    assert (2 * q + b) * h == q * (2 * h) + b * h;
    DivModUnique(x, 2 * h, q, b * h + s);
  }

  /** The fraction field: the top bits of the significand without the hidden one. */
  lemma {:induction false} TopFraction(mant: U128)
    requires Pow2(112) <= Val(mant) < Pow2(113)
    ensures AndWord(Shr(mant, 60).lo, DOUBLE_UNIT - 1) == Val(mant) / Pow2(60) - DOUBLE_UNIT < DOUBLE_UNIT
  {
    DoublePowers();
    hide Pow2, Shr;
    PowDouble(112);
    var q := Val(mant) / Pow2(60);
    FloatAdd.QuotientAtLeast(Val(mant), Pow2(60), DOUBLE_UNIT);
    FloatAdd.QuotientAtLeast(Val(mant), Pow2(60), 2 * DOUBLE_UNIT);
    assert (2 * DOUBLE_UNIT) * Pow2(60) == 2 * Pow2(112);
    ShrVal(mant, 60);
    LowLimb(Shr(mant, 60));
    BitAndMask(q, 52);
    DivModUnique(q, DOUBLE_UNIT, 1, q - DOUBLE_UNIT);
  }

  /** Rounding to 53 bits is right unless it carries into a 54th: then the fraction comes out
      as one half instead of zero. */
  lemma {:induction false} NormalDoubleRounds(sign: nat, exp: nat, mant: U128)
    requires sign <= 1 && exp < DOUBLE_MAX && Pow2(112) <= Val(mant) < Pow2(113)
    ensures var t := RoundHalfEven(Val(mant), Pow2(60));
      && DOUBLE_UNIT <= t <= 2 * DOUBLE_UNIT
      && NormalDouble(sign, exp, mant) ==
        if t == 2 * DOUBLE_UNIT then DoubleBits(sign, exp + 1, DOUBLE_UNIT / 2)
        else DoubleBits(sign, exp, t - DOUBLE_UNIT)
  {
    hide Pow2, Shr, Shl, Sub, And, AndWord, Bit, Val, DoubleBits, RoundHalfEven, IsZero;
    TopFraction(mant);
    BitVal(mant, 59);
    MaskVal(mant, 59);
    GtVal(And(mant, Sub(Shl(ONE, 59), ONE)), ZERO);
    PowDouble(59);
    RoundByBits(Val(mant), Pow2(59));
    var q := Val(mant) / Pow2(60);
    var frac := AndWord(Shr(mant, 60).lo, DOUBLE_UNIT - 1);
    assert frac % 2 == q % 2;
    RoundedField(frac, RoundHalfEven(Val(mant), Pow2(60)) - q);
  }

  lemma {:induction false} RoundedField(frac: nat, up: nat)
    requires frac < DOUBLE_UNIT && up <= 1
    ensures Wrap(frac + up) == frac + up
    ensures (frac + up) / DOUBLE_UNIT != 0 <==> frac + up == DOUBLE_UNIT
  {
  }

  /** The distance between doubles around a value, in units of binary128. */
  function Spacing(v: F128): (n: nat)
    ensures n > 0
  {
    Pow2(Unpack(v).exp + 16442)
  }

  /** The top 54 of the 113 bits of the significand are ones. */
  predicate RoundsUpTo54(v: F128) {
    Significand(v) / Pow2(59) == Pow2(54) - 1
  }

  lemma {:induction false} CarryCondition(m: nat)
    requires m < Pow2(113)
    ensures RoundHalfEven(m, Pow2(60)) == 2 * DOUBLE_UNIT <==> m / Pow2(59) == Pow2(54) - 1
  {
    DoublePowers();
    hide Pow2, RoundHalfEven;
    PowDouble(52);
    PowDouble(53);
    PowDouble(59);
    PowDouble(112);
    assert (2 * DOUBLE_UNIT) * Pow2(60) == Pow2(113);
    FloatAdd.QuotientAtLeast(m, Pow2(60), 2 * DOUBLE_UNIT);
    FloatRound.CarryIff(m, Pow2(60), DOUBLE_UNIT);
    FloatAdd.QuotientAtLeast(m, Pow2(59), Pow2(54) - 1);
    FloatAdd.QuotientAtLeast(m, Pow2(59), Pow2(54));
    assert Pow2(54) * Pow2(59) == Pow2(113);
    assert (4 * DOUBLE_UNIT - 1) * Pow2(60) == 2 * ((Pow2(54) - 1) * Pow2(59));
  }

  lemma {:induction false} NarrowUnits(v: F128)
    requires IsFinite(v) && Units(v) != 0 && -1022 <= Unpack(v).exp
    ensures Pow2(112) <= Val(Unpack(v).mant) < Pow2(113)
    ensures RoundHalfEven(Units(v), Spacing(v)) == RoundHalfEven(Val(Unpack(v).mant), Pow2(60))
    ensures Val(Unpack(v).mant) == Significand(v)
  {
    hide Pow2, RoundHalfEven, Unpack, Units, Val;
    FloatAdd.UnpackedUnits(v);
    UnpackFinite(v);
    var k := Unpack(v).exp + 16382;
    Pow2Add(60, k);
    ScaledRounding(Val(Unpack(v).mant), Pow2(60), Pow2(k));
  }

  /** Narrowing into the normal range of the doubles rounds to nearest, ties to even, exactly if
      the top 54 bits of the significand are not all ones. */
  lemma {:induction false} NarrowingCorrectIff(v: F128)
    requires IsFinite(v) && Units(v) != 0 && -1022 <= Unpack(v).exp <= 1023
    ensures var d := ToF64(v);
      && DSign(d) == Sign(v)
      && (DExp(d) != DOUBLE_MAX && DoubleUnits(d) == RoundHalfEven(Units(v), Spacing(v)) * Pow2(Unpack(v).exp + 1022)
          <==> !RoundsUpTo54(v))
  {
    hide Pow2, RoundHalfEven, Unpack, Units, Val, NormalDouble, DoubleBits, Spacing, Significand;
    SignBounded(v);
    FloatAdd.UnpackedUnits(v);
    UnpackFinite(v);
    var p := Unpack(v);
    var e := p.exp + 1023;
    NarrowUnits(v);
    NormalDoubleRounds(p.sign, e, p.mant);
    CarryCondition(Val(p.mant));
    var t := RoundHalfEven(Val(p.mant), Pow2(60));
    if t == 2 * DOUBLE_UNIT {
      DoubleBitsFields(p.sign, e + 1, DOUBLE_UNIT / 2);
      PowDouble(e - 1);
      CarryWrong(Pow2(e - 1));
    } else {
      DoubleBitsFields(p.sign, e, t - DOUBLE_UNIT);
    }
  }

  lemma {:induction false} CarryWrong(p: nat)
    requires p > 0
    ensures (DOUBLE_UNIT + DOUBLE_UNIT / 2) * (2 * p) != (2 * DOUBLE_UNIT) * p
  {
  }

  /** Narrowing below the normal doubles truncates instead of rounding. */
  lemma {:induction false} NarrowingTruncates(v: F128)
    requires IsFinite(v) && Units(v) != 0 && Unpack(v).exp <= -1023
    ensures var d := ToF64(v);
      DSign(d) == Sign(v) && DExp(d) == 0 && DoubleUnits(d) == Quotient(Units(v), DoubleScale())
  {
    hide Pow2, Unpack, Units, Val, DoubleBits, Shr;
    SignBounded(v);
    FloatAdd.UnpackedUnits(v);
    UnpackFinite(v);
    var p := Unpack(v);
    var shift := 61 - (p.exp + 1023);
    WholeOfScaled(Val(p.mant), p.exp + 16382, 15420);
    ShiftedSmall(Val(p.mant), shift);
    if shift < 128 {
      ShrVal(p.mant, shift);
      LowLimb(Shr(p.mant, shift));
    }
    DoubleBitsFields(p.sign, 0, Val(p.mant) / Pow2(shift));
  }

  lemma {:induction false} ShiftedSmall(m: nat, shift: nat)
    requires m < Pow2(113) && shift >= 61
    ensures 0 <= m / Pow2(shift) < DOUBLE_UNIT
    ensures shift >= 128 ==> m / Pow2(shift) == 0
  {
    DoublePowers();
    hide Pow2;
    Pow2Add(52, shift);
    Pow2Monotone(113, 52 + shift);
    FloatAdd.QuotientAtLeast(m, Pow2(shift), DOUBLE_UNIT);
    if shift >= 128 {
      WholeIsZero(m, shift);
    }
  }

  /** A value beyond the doubles becomes infinite. */
  lemma {:induction false} NarrowingOverflows(v: F128)
    requires IsFinite(v) && Units(v) != 0 && Unpack(v).exp > 1023
    ensures var d := ToF64(v); DSign(d) == Sign(v) && DExp(d) == DOUBLE_MAX && DFrac(d) == 0
    ensures Units(v) >= Pow2(17518)
  {
    hide Pow2, Unpack, Units, Val, DoubleBits;
    SignBounded(v);
    FloatAdd.UnpackedUnits(v);
    UnpackFinite(v);
    DoubleBitsFields(Sign(v), DOUBLE_MAX, 0);
    var k := Unpack(v).exp + 16382;
    MulMonotone(Pow2(112), Val(Unpack(v).mant), Pow2(k));
    Pow2Add(112, k);
    Pow2Monotone(17518, 112 + k);
  }

  /** Just below two: the rounding carry makes it three. */
  lemma {:induction false} AlmostTwoNarrowsToThree()
    ensures ToF64(F128(0x3FFF_FFFF_FFFF_FFFF, WORD - 1)) == 0x4008_0000_0000_0000
  {
    HiddenBit();
    DoublePowers();
    var v := F128(0x3FFF_FFFF_FFFF_FFFF, WORD - 1);
    var mant := U128(2 * EXP_UNIT - 1, WORD - 1);
    assert Unpack(v) == Parts(0, 0, mant, false, false, false);
    assert ToF64(v) == NormalDouble(0, 1023, mant);
    hide Pow2, RoundHalfEven, NormalDouble, DoubleBits, Unpack, ToF64;
    assert Val(mant) == Pow2(113) - 1;
    PowDouble(112);
    AllOnesCarry();
    CarryCondition(Val(mant));
    NormalDoubleRounds(0, 1023, mant);
    DoubleBitsFields(0, 1024, DOUBLE_UNIT / 2);
  }

  lemma {:induction false} AllOnesCarry()
    ensures (Pow2(113) - 1) / Pow2(59) == Pow2(54) - 1
  {
    hide Pow2;
    Pow2Add(54, 59);
    DivModUnique(Pow2(113) - 1, Pow2(59), Pow2(54) - 1, Pow2(59) - 1);
  }

  // ---------------------------------------------------------------------------
  // There and back

  lemma {:induction false} NormalRoundTrip(d: Limb)
    requires 0 < DExp(d) < DOUBLE_MAX
    ensures ToF64(FromF64(d)) == d
  {
    DoublePowers();
    hide Pow2, RoundHalfEven, Unpack, Units, Val, NormalDouble, DoubleBits, FromF64, Significand, Place;
    var v := FromF64(d);
    WidenNormal(d);
    DoubleFields(d);
    UnitsOf(v);
    var f := DOUBLE_UNIT + DFrac(d);
    PositiveUnits(v);
    SignBounded(v);
    UnpackFinite(v);
    var p := Unpack(v);
    assert p.exp + 1023 == DExp(d) && Val(p.mant) == f * Pow2(60);
    DivModUnique(f * Pow2(60), Pow2(60), f, 0);
    ExactRounds(f, Pow2(60));
    NormalDoubleRounds(p.sign, DExp(d), p.mant);
    DoubleBitsFields(p.sign, DExp(d), DFrac(d));
  }

  lemma {:induction false} PositiveUnits(v: F128)
    requires IsNormal(v)
    ensures Units(v) != 0
  {
    HiddenBit();
    hide Pow2;
    UnitsOf(v);
    PlaceGrows(Significand(v), Place(v));
  }

  lemma {:induction false} ExactRounds(f: nat, g: nat)
    requires g > 0
    ensures RoundHalfEven(f * g, g) == f
  {
    DivModUnique(f * g, g, f, 0);
  }

  lemma {:induction false} SubnormalLost(d: Limb)
    requires DExp(d) == 0 && DFrac(d) != 0
    ensures ToF64(FromF64(d)) != d
  {
    assert DoubleScale() == Pow2(15420);
    hide Pow2, Unpack, Units, Val, FromF64, ToF64, DoubleScale, OneUnits;
    var v := FromF64(d);
    WidenSubnormal(d);
    TinyUnits(DFrac(d));
    FloatAdd.UnpackedUnits(v);
    UnpackFinite(v);
    TinyExponent(v, Unpack(v));
    NarrowingTruncates(v);
    SmallMod(Units(v), DoubleScale());
  }

  lemma {:induction false} TinyUnits(f: nat)
    requires 0 < f < DOUBLE_UNIT
    ensures 0 < f * Pow2(15368) < Pow2(15420)
  {
    DoublePowers();
    hide Pow2;
    Pow2Add(52, 15368);
    MulMonotone(1, f, Pow2(15368));
    StrictScale(Pow2(15368), f, DOUBLE_UNIT);
  }

  lemma {:induction false} TinyExponent(v: F128, p: Parts)
    requires p.exp + 16382 >= 0 && Units(v) == Val(p.mant) * Pow2(p.exp + 16382) < Pow2(15420)
    requires p.exp + 16382 > 0 ==> Val(p.mant) >= Pow2(112)
    ensures p.exp <= -1023
  {
    hide Pow2, Units, Val;
    if p.exp > -1023 {
      Pow2Monotone(15420, 112 + (p.exp + 16382));
      Pow2Add(112, p.exp + 16382);
      MulMonotone(Pow2(112), Val(p.mant), Pow2(p.exp + 16382));
    }
  }

  /** Exactly the doubles that are not subnormal and not a NaN other than the canonical one
      survive the round trip. */
  lemma {:induction false} DoubleRoundTripIff(d: Limb)
    ensures ToF64(FromF64(d)) == d <==>
      if DExp(d) == DOUBLE_MAX then DFrac(d) == 0 || d == DOUBLE_NAN else DExp(d) != 0 || DFrac(d) == 0
  {
    DoubleFields(d);
    if 0 < DExp(d) < DOUBLE_MAX {
      NormalRoundTrip(d);
    } else if DExp(d) == 0 && DFrac(d) != 0 {
      SubnormalLost(d);
    } else {
      hide DoubleBits;
      SpecialRoundTrip(d);
    }
  }

  lemma {:induction false} SpecialRoundTrip(d: Limb)
    requires DExp(d) == DOUBLE_MAX || (DExp(d) == 0 && DFrac(d) == 0)
    ensures ToF64(FromF64(d)) == if DExp(d) == DOUBLE_MAX && DFrac(d) != 0 then DOUBLE_NAN else d
    ensures DExp(DOUBLE_NAN) == DOUBLE_MAX && DFrac(DOUBLE_NAN) != 0
  {
    hide DoubleBits, PackParts, SmallDouble, NormalDouble;
    DoubleFields(d);
    DivModUnique(DOUBLE_NAN, DOUBLE_UNIT, 0x7FF, 0x8_0000_0000_0000);
    if DFrac(d) == 0 {
      EncodeFields(DSign(d), if DExp(d) == 0 then 0 else EXP_MAX, 0, 0);
      DoubleBitsFields(DSign(d), DExp(d), 0);
    } else {
      DivModUnique(MakeNan().hi, EXP_UNIT, 0x7FFF, 0x8000_0000_0000);
    }
  }

  // ---------------------------------------------------------------------------
  // NaNs, infinities and zeros

  /** There is no integer for a NaN or an infinity; 0 stands for it. */
  lemma {:induction false} NoInteger(v: F128)
    requires !IsFinite(v)
    ensures ToI64(v) == 0
  {
    hide Pow2, Shr;
  }

  /** A double that is a NaN or an infinity stays one, and an infinity keeps its sign. */
  lemma {:induction false} WideningSpecials(d: Limb)
    requires DExp(d) == DOUBLE_MAX
    ensures var v := FromF64(d);
      && !IsFinite(v) && (IsNan(v) <==> DFrac(d) != 0)
      && (DFrac(d) == 0 ==> Sign(v) == DSign(d))
  {
    hide Pow2;
    DoubleFields(d);
    EncodeFields(DSign(d), EXP_MAX, 0, 0);
    FloatAdd.NanIsNan();
  }

  /** And the other way; a zero keeps its sign, too. */
  lemma {:induction false} NarrowingSpecials(v: F128)
    requires !IsFinite(v) || Units(v) == 0
    ensures var d := ToF64(v);
      && (DExp(d) == DOUBLE_MAX <==> !IsFinite(v)) && (DFrac(d) != 0 <==> IsNan(v))
      && (IsFinite(v) ==> DExp(d) == 0) && (!IsNan(v) ==> DSign(d) == Sign(v))
  {
    hide Pow2, Units, SmallDouble, NormalDouble;
    SignBounded(v);
    FloatMul.UnpackKind(v);
    hide Unpack;
    FloatAdd.UnpackSign(v);
    DoubleBitsFields(Sign(v), DOUBLE_MAX, 0);
    DoubleBitsFields(Sign(v), 0, 0);
    NanDouble();
  }

  lemma {:induction false} NanDouble()
    ensures DExp(DOUBLE_NAN) == DOUBLE_MAX && DFrac(DOUBLE_NAN) != 0
  {
  }
}
