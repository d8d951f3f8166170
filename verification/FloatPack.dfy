/**
 Packing a rounded significand: exact in the normal range, infinity above it, and one place
 short below it.
 */
module FloatPack {
  import opened Numbers
  import opened Words
  import opened Float128

  /** Exponent after a carry out of the significand has been absorbed. */
  function FinalExp(exp: int, m: nat): int {
    if m == Pow2(113) then exp + 1 else exp
  }

  function FinalSig(m: nat): nat {
    if m == Pow2(113) then Pow2(112) else m
  }

  lemma {:induction false} NormalizeExact(exp: int, mant: U128)
    requires Pow2(112) <= Val(mant) < Pow2(113)
    ensures Normalize(exp, mant) == (exp, mant)
  {
    ClzVal(mant, 113);
  }

  lemma {:induction false} CarryLimbs(mant: U128)
    requires Val(mant) == Pow2(113)
    ensures mant == U128(2 * EXP_UNIT, 0)
  {
    HiddenBit();
    hide Pow2;
    LimbsOf(mant, 2 * EXP_UNIT, 0);
  }

  lemma {:induction false} ShiftOneRight(mant: U128)
    requires Val(mant) == Pow2(113)
    ensures Val(Shr(mant, 1)) == Pow2(112) && IsZero(Shr(Shr(mant, 1), 113))
  {
    assert Pow2(1) == 2;
    hide Pow2, Shr;
    PowDouble(112);
    ShrVal(mant, 1);
    ShrVal(Shr(mant, 1), 113);
    SmallMod(Pow2(112), Pow2(113));
  }

  /** A significand of exactly 2^113 is halved, exactly. */
  lemma {:induction false} NormalizeCarry(exp: int, mant: U128)
    requires Val(mant) == Pow2(113)
    ensures Normalize(exp, mant).0 == exp + 1 && Val(Normalize(exp, mant).1) == Pow2(112)
  {
    ShiftOneRight(mant);
    CarryLimbs(mant);
    assert Pow2(1) == 2;
    hide Pow2, Shr;
    PowDouble(113);
    ClzVal(mant, 114);
    MaskVal(mant, 1);
    assert Shl(ONE, 0) == ONE;
  }

  lemma {:induction false} Normalized(exp: int, mant: U128)
    requires Pow2(112) <= Val(mant) <= Pow2(113)
    ensures Normalize(exp, mant).0 == FinalExp(exp, Val(mant))
    ensures Val(Normalize(exp, mant).1) == FinalSig(Val(mant))
    ensures Pow2(112) <= FinalSig(Val(mant)) < Pow2(113)
  {
    hide Pow2, Normalize;
    PowDouble(112);
    if Val(mant) == Pow2(113) {
      NormalizeCarry(exp, mant);
    } else {
      NormalizeExact(exp, mant);
    }
  }

  lemma {:induction false} StoreNormal(sign: nat, exp: int, mant: U128)
    requires sign <= 1 && -16382 <= exp <= 16383 && Pow2(112) <= Val(mant) < Pow2(113)
    ensures var v := StoreParts(sign, exp, mant);
      IsNormal(v) && Sign(v) == sign && Significand(v) == Val(mant) && Place(v) == exp + 16382
  {
    HiddenBit();
    hide Pow2, Shl, Sub, And;
    MaskVal(mant, 112);
    var m := And(mant, Sub(Shl(ONE, 112), ONE));
    DivModUnique(Val(mant), Pow2(112), 1, Val(mant) - Pow2(112));
    assert m.hi < EXP_UNIT;
    SmallMod(m.hi, EXP_UNIT);
    EncodeFields(sign, exp + BIAS, m.hi, m.lo);
  }

  /** Below the normal range the significand is shifted one place further than it should be. */
  lemma {:induction false} StoreSubnormal(sign: nat, exp: int, mant: U128)
    requires sign <= 1 && exp <= -16383 && Pow2(112) <= Val(mant) < Pow2(113)
    ensures var v := StoreParts(sign, exp, mant);
      && IsFinite(v) && Sign(v) == sign && Place(v) == 0
      && Significand(v) == Val(mant) / Pow2(-16381 - exp)
      && Significand(v) < Pow2(112)
  {
    var s := -16381 - exp;
    assert Pow2(1) == 2;
    hide Pow2;
    assert Val(mant) / Pow2(s) < Pow2(112) by {
      PowDouble(112);
      Pow2Monotone(1, s);
      QuotientBound(Val(mant), Pow2(s), Pow2(112));
    }
    HiddenBit();
    if s >= 113 {
      Pow2Monotone(113, s);
      SmallMod(Val(mant), Pow2(s));
      EncodeFields(sign, 0, 0, 0);
    } else {
      hide Shr;
      ShrVal(mant, s);
      var m := Shr(mant, s);
      assert m.hi < EXP_UNIT;
      SmallMod(m.hi, EXP_UNIT);
      EncodeFields(sign, 0, m.hi, m.lo);
    }
  }

  lemma {:induction false} QuotientBound(x: nat, d: nat, t: nat)
    requires d >= 2 && x < 2 * t
    ensures x / d < t
  {
    var q := x / d;
    MulMonotone(2, d, q);
  }

  /** What packing yields, by the final exponent. */
  lemma {:induction false} Packed(sign: nat, exp: int, mant: U128)
    requires sign <= 1 && Pow2(112) <= Val(mant) <= Pow2(113)
    ensures var v := PackParts(sign, exp, mant); var e := FinalExp(exp, Val(mant)); var m := FinalSig(Val(mant));
      if e > 16383 then v == MakeInf(sign)
      else
        && IsFinite(v) && Sign(v) == sign
        && (e >= -16382 ==> IsNormal(v) && Significand(v) == m && Place(v) == e + 16382)
        && (e < -16382 ==> Place(v) == 0 && Significand(v) == m / Pow2(-16381 - e) && Significand(v) < Pow2(112))
  {
    hide Pow2, Normalize;
    Normalized(exp, mant);
    var (e, m) := Normalize(exp, mant);
    if e > 16383 {
    } else if e >= -16382 {
      StoreNormal(sign, e, m);
    } else {
      StoreSubnormal(sign, e, m);
    }
  }

  // ---------------------------------------------------------------------------
  // Packing without rounding

  lemma {:induction false} ClzShort(a: U128)
    requires 0 < Val(a) < WORD
    ensures Clz(a) == 128 - BitLength(Val(a))
  {
  }

  lemma {:induction false} ClzIsLength(a: U128)
    requires Val(a) > 0
    ensures Clz(a) == 128 - BitLength(Val(a)) && 0 < BitLength(Val(a)) <= 128
  {
    hide Pow2, Clz, BitLength;
    ValBound(a);
    WordIsPow2();
    BitLengthBound(Val(a), 128);
    var n := BitLength(Val(a));
    if n > 64 {
      ClzVal(a, n);
    } else {
      Pow2Monotone(n, 64);
      ClzShort(a);
    }
  }

  /** Fewer than 113 bits are shifted up without loss. */
  lemma {:induction false} NormalizeUp(exp: int, mant: U128) returns (shift: nat)
    requires 0 < Val(mant) < Pow2(113)
    ensures Normalize(exp, mant).0 == exp - shift
    ensures Val(Normalize(exp, mant).1) == Val(mant) * Pow2(shift)
    ensures Pow2(112) <= Val(mant) * Pow2(shift) < Pow2(113)
  {
    var n := BitLength(Val(mant));
    hide Pow2, Clz, BitLength, Shl;
    ClzIsLength(mant);
    BitLengthBound(Val(mant), 113);
    shift := 113 - n;
    ShiftedLength(Val(mant), n);
    WordIsPow2();
    Pow2Monotone(113, 128);
    ShlVal(mant, shift);
    ZeroShift(Val(mant));
  }

  lemma {:induction false} ZeroShift(m: nat)
    ensures m * Pow2(0) == m
  {
    assert Pow2(0) == 1;
  }

  lemma {:induction false} ShiftedLength(m: nat, n: nat)
    requires 0 < n <= 113 && Pow2(n - 1) <= m < Pow2(n)
    ensures Pow2(112) <= m * Pow2(113 - n) < Pow2(113)
  {
    hide Pow2;
    Pow2Add(n - 1, 113 - n);
    Pow2Add(n, 113 - n);
    MulMonotone(Pow2(n - 1), m, Pow2(113 - n));
    MulMonotone(m + 1, Pow2(n), Pow2(113 - n));
    assert (m + 1) * Pow2(113 - n) == m * Pow2(113 - n) + Pow2(113 - n);
  }

  lemma {:induction false} ShiftBack(m: nat, shift: nat, e: nat)
    requires shift <= e
    ensures (m * Pow2(shift)) * Pow2(e - shift) == m * Pow2(e)
  {
    hide Pow2;
    Pow2Add(shift, e - shift);
    assert (m * Pow2(shift)) * Pow2(e - shift) == m * (Pow2(shift) * Pow2(e - shift));
  }

  lemma {:induction false} ShiftShort(m: nat, shift: nat, e: nat)
    requires e < shift
    ensures (m * Pow2(shift)) / Pow2(shift - e + 1) == (m * Pow2(e)) / 2
    ensures 2 * (m * Pow2(e)) <= m * Pow2(shift)
  {
    hide Pow2;
    var k := Pow2(shift - e);
    Pow2Add(e, shift - e);
    PowDouble(shift - e);
    var x := m * Pow2(e);
    assert m * Pow2(shift) == x * k by {
      assert m * (Pow2(e) * k) == (m * Pow2(e)) * k;
    }
    AtLeastTwo(shift - e);
    MulMonotone(2, k, x);
    ScaledHalf(x, k);
  }

  lemma {:induction false} AtLeastTwo(n: nat)
    ensures n > 0 ==> Pow2(n) >= 2
  {
  }

  lemma {:induction false} ScaledHalf(x: nat, k: nat)
    requires k > 0
    ensures (x * k) / (2 * k) == x / 2
  {
    var (q, r) := (x / 2, x % 2);
    assert x * k == q * (2 * k) + r * k;
    DivModUnique(x * k, 2 * k, q, r * k);
  }

  /** A significand of at most 113 bits at a place of the format is packed exactly if its value
      is at least the smallest normal one; below that it comes out halved. */
  lemma {:induction false} PackExact(sign: nat, exp: int, mant: U128)
    requires sign <= 1 && 0 < Val(mant) < Pow2(113) && exp + 16382 >= 0
    requires exp <= 16383
    ensures var v := PackParts(sign, exp, mant); var x := Val(mant) * Pow2(exp + 16382);
      && IsFinite(v) && Sign(v) == sign
      && (x >= Pow2(112) ==> IsNormal(v) && Units(v) == x)
      && (x < Pow2(112) ==> Units(v) == x / 2)
  {
    hide Pow2, Normalize, StoreParts, Val, Units, Significand;
    NotZero(mant);
    var shift := NormalizeUp(exp, mant);
    var (e, m) := Normalize(exp, mant);
    var v := StoreParts(sign, e, m);
    PowDouble(112);
    UnitsOf(v);
    if e >= -16382 {
      StoreNormal(sign, e, m);
      ShiftBack(Val(mant), shift, exp + 16382);
      PlaceGrows(Val(m), exp + 16382 - shift);
    } else {
      StoreSubnormal(sign, e, m);
      ShiftShort(Val(mant), shift, exp + 16382);
    }
  }

  lemma {:induction false} NotZero(a: U128)
    requires Val(a) > 0
    ensures !IsZero(a)
  {
  }

  lemma {:induction false} PlaceGrows(m: nat, k: nat)
    ensures m * Pow2(k) >= m
  {
    hide Pow2;
    MulMonotone(1, Pow2(k), m);
  }
}
