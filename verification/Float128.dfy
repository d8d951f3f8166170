/**
 binary128 values and the soft-float routines on them.  A value is kept as the two 64-bit
 halves of its 16 little-endian bytes.
 */
module Float128 {
  import opened Numbers
  import opened Words

  datatype F128 = F128(hi: Limb, lo: Limb)

  datatype Parts = Parts(sign: nat, exp: int, mant: U128, isNan: bool, isInf: bool, isZero: bool)

  const SIGN_BIT: nat := 0x8000_0000_0000_0000
  const EXP_UNIT: nat := 0x1_0000_0000_0000
  const EXP_MAX: nat := 0x7FFF
  const BIAS: nat := 16383

  function Sign(v: F128): nat {
    v.hi / SIGN_BIT
  }

  function Biased(v: F128): nat {
    v.hi / EXP_UNIT % 0x8000
  }

  function FracHi(v: F128): (m: nat)
    ensures m < EXP_UNIT
  {
    v.hi % EXP_UNIT
  }

  function Unpack(v: F128): Parts {
    var sign := Sign(v);
    var biased := Biased(v);
    var mhi := FracHi(v);
    if biased == EXP_MAX then
      if mhi != 0 || v.lo != 0 then Parts(sign, 0, ZERO, true, false, false)
      else Parts(sign, 0, ZERO, false, true, false)
    else if biased == 0 && mhi == 0 && v.lo == 0 then Parts(sign, 0, ZERO, false, false, true)
    else if biased != 0 then Parts(sign, biased - BIAS, U128(mhi + EXP_UNIT, v.lo), false, false, false)
    else Parts(sign, -16382, U128(mhi, v.lo), false, false, false)
  }

  /** The three fields side by side. */
  function Encode(sign: nat, biased: nat, mhi: nat, mlo: Limb): F128
    requires sign <= 1 && biased <= EXP_MAX && mhi < EXP_UNIT
  {
    F128(sign * SIGN_BIT + biased * EXP_UNIT + mhi, mlo)
  }

  function MakeZero(sign: nat): F128
    requires sign <= 1
  {
    Encode(sign, 0, 0, 0)
  }

  function MakeInf(sign: nat): F128
    requires sign <= 1
  {
    Encode(sign, EXP_MAX, 0, 0)
  }

  function MakeNan(): F128 {
    F128(0x7FFF_8000_0000_0000, 0)
  }

  /** First half of f128_pack_parts: bring the significand to 113 bits, rounding to nearest
      even when bits have to go. */
  function Normalize(exp: int, mant: U128): (int, U128) {
    var shift := Clz(mant) - 15;
    if shift > 0 then (exp - shift, Shl(mant, shift))
    else if shift < 0 then
      var rsh := -shift;
      var sticky := And(mant, Sub(Shl(ONE, rsh), ONE));
      var m := Shr(mant, rsh);
      var half := Shl(ONE, rsh - 1);
      var rounded := if Gt(sticky, half) || (sticky == half && !IsZero(And(m, ONE))) then Inc(m) else m;
      if !IsZero(Shr(rounded, 113)) then (exp + 1 + rsh, Shr(rounded, 1)) else (exp + rsh, rounded)
    else (exp, mant)
  }

  /** Second half: store a normalised significand, saturating to infinity; below the normal
      range it is shifted right by subnormShift, one place more than the format needs. */
  function StoreParts(sign: nat, exp: int, mant: U128): F128
    requires sign <= 1
  {
    if exp <= -16383 then
      var subnormShift := -16382 - exp + 1;
      if subnormShift >= 113 then MakeZero(sign)
      else
        var m := Shr(mant, subnormShift);
        Encode(sign, 0, m.hi % EXP_UNIT, m.lo)
    else if exp + BIAS >= EXP_MAX then MakeInf(sign)
    else
      var m := And(mant, Sub(Shl(ONE, 112), ONE));
      Encode(sign, exp + BIAS, m.hi % EXP_UNIT, m.lo)
  }

  function PackParts(sign: nat, exp: int, mant: U128): F128
    requires sign <= 1
  {
    if IsZero(mant) then MakeZero(sign)
    else
      var (e, m) := Normalize(exp, mant);
      StoreParts(sign, e, m)
  }

  // ---------------------------------------------------------------------------
  // The numbers values stand for

  predicate IsFinite(v: F128) {
    Biased(v) != EXP_MAX
  }

  predicate IsNan(v: F128) {
    Biased(v) == EXP_MAX && (FracHi(v) != 0 || v.lo != 0)
  }

  predicate IsNormal(v: F128) {
    0 < Biased(v) < EXP_MAX
  }

  function Fraction(v: F128): nat {
    FracHi(v) * WORD + v.lo
  }

  /** Significand as an integer: the fraction, with the hidden bit for normal values. */
  function Significand(v: F128): nat {
    Fraction(v) + if Biased(v) == 0 then 0 else EXP_UNIT * WORD
  }

  /** Exponent of the significand's last place, counted from the smallest one. */
  function Place(v: F128): nat {
    if Biased(v) == 0 then 0 else Biased(v) - 1
  }

  /** The magnitude of a finite value in units of 2^-16494, the smallest positive value. */
  function Units(v: F128): nat {
    Significand(v) * Pow2(Place(v))
  }

  predicate IsNonzero(v: F128) {
    IsFinite(v) && Units(v) != 0
  }

  function Abs(x: int): nat {
    if x < 0 then -x else x
  }

  /** v is a finite value nearest to n/d units, with an even significand if another value is
      equally near: section 4.3.1 of IEEE 754-2019. */
  ghost predicate NearestEven(n: nat, d: nat, v: F128) {
    && IsFinite(v)
    && forall g :: IsFinite(g) ==> AtLeastAsNear(n, d, v, g)
  }

  predicate AtLeastAsNear(n: nat, d: nat, v: F128, g: F128) {
    && Abs(Units(v) * d - n) <= Abs(Units(g) * d - n)
    && (Units(g) != Units(v) && Abs(Units(v) * d - n) == Abs(Units(g) * d - n) ==> v.lo % 2 == 0)
  }

  /** Half a place above the largest finite value: from here on rounding gives infinity. */
  function OverflowBound(): nat {
    (Pow2(114) - 1) * Pow2(MaxPlace() - 1)
  }

  function MaxPlace(): nat {
    32765
  }

  /** Correct rounding of n/d units with the given sign. */
  ghost predicate RoundsTo(n: nat, d: nat, sign: nat, v: F128)
    requires sign <= 1
  {
    if n >= OverflowBound() * d then v == MakeInf(sign)
    else Sign(v) == sign && NearestEven(n, d, v)
  }

  /** n/g rounded to an integer, ties to even. */
  function RoundHalfEven(n: nat, g: nat): nat
    requires g > 0
  {
    var q := n / g;
    var r := n % g;
    if 2 * r > g || (2 * r == g && q % 2 == 1) then q + 1 else q
  }

  // ---------------------------------------------------------------------------
  // Fields

  lemma {:induction false} EncodeFields(sign: nat, biased: nat, mhi: nat, mlo: Limb)
    requires sign <= 1 && biased <= EXP_MAX && mhi < EXP_UNIT
    ensures var v := Encode(sign, biased, mhi, mlo);
      Sign(v) == sign && Biased(v) == biased && FracHi(v) == mhi && v.lo == mlo
  {
    var hi := sign * SIGN_BIT + biased * EXP_UNIT + mhi;
    DivModUnique(hi, SIGN_BIT, sign, biased * EXP_UNIT + mhi);
    DivModUnique(hi, EXP_UNIT, sign * 0x8000 + biased, mhi);
    DivModUnique(sign * 0x8000 + biased, 0x8000, sign, biased);
  }

  lemma {:induction false} SignBounded(v: F128)
    ensures Sign(v) <= 1 && Biased(v) <= EXP_MAX
    ensures v == Encode(Sign(v), Biased(v), FracHi(v), v.lo)
  {
    var top := v.hi / EXP_UNIT;
    assert v.hi == top * EXP_UNIT + FracHi(v);
    assert top == (top / 0x8000) * 0x8000 + Biased(v);
    DivModUnique(v.hi, SIGN_BIT, top / 0x8000, Biased(v) * EXP_UNIT + FracHi(v));
  }

  lemma {:induction false} HiddenBit()
    ensures Pow2(48) == EXP_UNIT && Pow2(112) == EXP_UNIT * WORD && Pow2(113) == 2 * EXP_UNIT * WORD
  {
    hide Pow2;
    Pow2Values();
    Pow2Add(16, 32);
    WordIsPow2();
    Pow2Add(48, 64);
    PowDouble(112);
  }

  /** What unpacking a finite non-zero value yields. */
  lemma {:induction false} UnpackFinite(v: F128)
    requires IsFinite(v) && Units(v) != 0
    ensures var p := Unpack(v);
      && !p.isNan && !p.isInf && !p.isZero && p.sign == Sign(v)
      && Val(p.mant) == Significand(v) && p.exp + 16382 == Place(v)
      && 0 < Val(p.mant) < Pow2(113)
    ensures IsNormal(v) ==> Val(Unpack(v).mant) >= Pow2(112)
  {
    hide Pow2;
    HiddenBit();
    SignBounded(v);
    assert Significand(v) == 0 ==> Units(v) == 0;
  }

  lemma {:induction false} UnitsOf(v: F128)
    ensures Units(v) == Significand(v) * Pow2(Place(v))
    ensures Place(v) == 0 ==> Units(v) == Significand(v)
  {
    assert Pow2(0) == 1;
  }
}
