/**
 Addition truncates the smaller operand when it aligns it: sums of equal sign come out rounded
 toward zero, differences come out at or above the exact one.
 */
module FloatAdd {
  import opened Numbers
  import opened Words
  import opened Float128
  import opened Rounding
  import opened FloatPack
  import opened FloatRound
  import opened FloatMul

  /** The smaller significand in the place of the larger; shifted-out bits are lost. */
  function Aligned(mant: U128, shift: int): U128 {
    if shift < 128 then Shr(mant, shift) else ZERO
  }

  function AddSameSign(pa: Parts, pb: Parts): F128
    requires pa.sign <= 1
  {
    var sum := Words.Add(pa.mant, Aligned(pb.mant, pa.exp - pb.exp));
    if !IsZero(Shr(sum, 113)) then PackParts(pa.sign, pa.exp + 1, Shr(sum, 1))
    else PackParts(pa.sign, pa.exp, sum)
  }

  function SubMag(pa: Parts, pb: Parts): F128
    requires pa.sign <= 1
  {
    PackParts(pa.sign, pa.exp, Words.Sub(pa.mant, Aligned(pb.mant, pa.exp - pb.exp)))
  }

  /** The operand of larger magnitude goes first. */
  predicate Smaller(pa: Parts, pb: Parts) {
    pa.exp < pb.exp || (pa.exp == pb.exp && Gt(pb.mant, pa.mant))
  }

  function AddSorted(pa: Parts, pb: Parts): F128
    requires pa.sign <= 1 && pb.sign <= 1
  {
    if pa.sign == pb.sign then AddSameSign(pa, pb)
    else if pa.mant == pb.mant && pa.exp == pb.exp then MakeZero(0)
    else SubMag(pa, pb)
  }

  /** f128_add */
  function Add(a: F128, b: F128): F128 {
    SignBounded(a);
    SignBounded(b);
    var pa := Unpack(a);
    var pb := Unpack(b);
    if pa.isNan then a
    else if pb.isNan then b
    else if pa.isInf && pb.isInf then (if pa.sign != pb.sign then MakeNan() else a)
    else if pa.isInf then a
    else if pb.isInf then b
    else if pa.isZero && pb.isZero then MakeZero(if pa.sign == 1 && pb.sign == 1 then 1 else 0)
    else if pa.isZero then b
    else if pb.isZero then a
    else if Smaller(pa, pb) then AddSorted(pb, pa)
    else AddSorted(pa, pb)
  }

  // ---------------------------------------------------------------------------
  // Alignment

  lemma {:induction false} AlignedVal(mant: U128, shift: nat)
    requires Val(mant) < Pow2(113)
    ensures Val(Aligned(mant, shift)) == Val(mant) / Pow2(shift)
  {
    hide Pow2, Shr;
    if shift < 128 {
      ShrVal(mant, shift);
    } else {
      Pow2Monotone(113, shift);
      SmallMod(Val(mant), Pow2(shift));
    }
  }

  lemma {:induction false} AlignPure(m: nat, p: nat, k: nat)
    requires p > 0 && k > 0
    ensures m * k == (m / p) * (p * k) + (m % p) * k && (m % p) * k + k <= p * k
  {
    var (q, r) := (m / p, m % p);
    assert m * k == (q * p) * k + r * k;
    assert (q * p) * k == q * (p * k);
    MulMonotone(r + 1, p, k);
    assert (r + 1) * k == r * k + k;
  }

  /** Aligned addition is exact addition cut off at the larger operand's last place. */
  lemma {:induction false} AlignedSum(ma: nat, mb: nat, ka: nat, kb: nat)
    requires kb <= ka
    ensures (ma * Pow2(ka) + mb * Pow2(kb)) / Pow2(ka) == ma + mb / Pow2(ka - kb)
  {
    hide Pow2;
    Pow2Add(ka - kb, kb);
    AlignPure(mb, Pow2(ka - kb), Pow2(kb));
    var q := mb / Pow2(ka - kb);
    assert (ma + q) * Pow2(ka) == ma * Pow2(ka) + q * Pow2(ka);
    DivModUnique(ma * Pow2(ka) + mb * Pow2(kb), Pow2(ka), ma + q, (mb % Pow2(ka - kb)) * Pow2(kb));
  }

  /** Aligned subtraction is at least the exact difference, by less than one place. */
  lemma {:induction false} AlignedDifference(ma: nat, mb: nat, ka: nat, kb: nat)
    requires kb <= ka && mb / Pow2(ka - kb) <= ma
    ensures var d := (ma - mb / Pow2(ka - kb)) * Pow2(ka);
      ma * Pow2(ka) <= d + mb * Pow2(kb) && d + mb * Pow2(kb) < ma * Pow2(ka) + Pow2(ka)
  {
    hide Pow2;
    Pow2Add(ka - kb, kb);
    AlignPure(mb, Pow2(ka - kb), Pow2(kb));
    var q := mb / Pow2(ka - kb);
    assert (ma - q) * Pow2(ka) == ma * Pow2(ka) - q * Pow2(ka);
  }

  // ---------------------------------------------------------------------------
  // Sums

  /** The largest value not above n units: section 4.3.2 of IEEE 754-2019. */
  ghost predicate RoundsTowardZero(n: nat, v: F128) {
    IsFinite(v) && Units(v) <= n && forall g :: IsFinite(g) && Units(g) <= n ==> Units(g) <= Units(v)
  }

  lemma {:induction false} TruncatedOnGrid(n: nat, e: nat, v: F128)
    requires n / Pow2(e) >= Pow2(112) && IsFinite(v) && Units(v) == (n / Pow2(e)) * Pow2(e)
    ensures RoundsTowardZero(n, v)
  {
    hide Pow2, Units, IsFinite;
    var q := n / Pow2(e);
    assert (q + 1) * Pow2(e) == q * Pow2(e) + Pow2(e);
    forall g | IsFinite(g) && Units(g) <= n
      ensures Units(g) <= Units(v)
    {
      Grid(g, q, e);
    }
  }

  /** From here on sums overflow. */
  function SumBound(): nat {
    NatProduct(Pow2(113), Pow2(MaxPlace()))
  }

  lemma {:induction false} SumOverflow(n: nat, k: nat, s: nat)
    requires s == n / Pow2(k) && s < 2 * Pow2(113) && k <= MaxPlace()
    ensures n >= SumBound() <==> k == MaxPlace() && s >= Pow2(113)
  {
    hide Pow2;
    assert n == s * Pow2(k) + n % Pow2(k);
    if k == MaxPlace() {
      QuotientAtLeast(n, Pow2(k), Pow2(113));
    } else {
      Pow2Monotone(k, MaxPlace());
      BelowDoubled(n, Pow2(k), Pow2(113), Pow2(MaxPlace()));
    }
  }

  lemma {:induction false} BelowDoubled(n: nat, p: nat, t: nat, m: nat)
    requires p > 0 && n / p < 2 * t && 2 * p <= m
    ensures n < t * m
  {
    QuotientAtLeast(n, p, 2 * t);
    assert (2 * t) * p == t * (2 * p);
    MulMonotone(2 * p, m, t);
  }

  lemma {:induction false} QuotientAtLeast(n: nat, p: nat, t: nat)
    requires p > 0
    ensures n / p >= t <==> n >= t * p
  {
    var q := n / p;
    assert n == q * p + n % p;
    assert (q + 1) * p == q * p + p;
    if q >= t {
      MulMonotone(t, q, p);
    } else {
      MulMonotone(q + 1, t, p);
    }
  }

  /** A sum of 113 or 114 bits, cut to 113 and packed. */
  lemma {:induction false} PackedSum(sign: nat, exp: int, sum: U128, n: nat)
    requires sign <= 1 && 0 <= exp + 16382 <= MaxPlace() && Val(sum) == n / Pow2(exp + 16382)
    requires Pow2(112) <= Val(sum) < 2 * Pow2(113)
    ensures
      var v := if !IsZero(Shr(sum, 113)) then PackParts(sign, exp + 1, Shr(sum, 1)) else PackParts(sign, exp, sum);
      if n >= SumBound() then v == MakeInf(sign) else Sign(v) == sign && RoundsTowardZero(n, v)
  {
    hide Pow2, PackParts, Shr, Val, Units, IsFinite, Significand, RoundsTowardZero, SumBound, IsZero;
    var k := exp + 16382;
    PowDouble(112);
    PowDouble(113);
    SumOverflow(n, k, Val(sum));
    TopBit(sum);
    if Val(sum) >= Pow2(113) {
      HalfVal(sum);
      DivTwice(n, Pow2(k));
      PowDouble(k);
      PackedTruncation(sign, exp + 1, Shr(sum, 1), n);
    } else {
      PackedTruncation(sign, exp, sum, n);
    }
  }

  lemma {:induction false} TopBit(sum: U128)
    requires Val(sum) < 2 * Pow2(113)
    ensures IsZero(Shr(sum, 113)) <==> Val(sum) < Pow2(113)
  {
    hide Pow2, Shr;
    ShrVal(sum, 113);
    QuotientAtLeast(Val(sum), Pow2(113), 1);
  }

  lemma {:induction false} HalfVal(sum: U128)
    ensures Val(Shr(sum, 1)) == Val(sum) / 2
  {
    assert Pow2(1) == 2;
    hide Pow2, Shr;
    ShrVal(sum, 1);
  }

  lemma {:induction false} PackedTruncation(sign: nat, exp: int, mant: U128, n: nat)
    requires sign <= 1 && 0 <= exp + 16382 && Pow2(112) <= Val(mant) < Pow2(113) && Val(mant) == n / Pow2(exp + 16382)
    ensures var v := PackParts(sign, exp, mant);
      if exp > 16383 then v == MakeInf(sign) else Sign(v) == sign && RoundsTowardZero(n, v)
  {
    hide Pow2, PackParts, Units, IsFinite, Significand, RoundsTowardZero;
    Packed(sign, exp, mant);
    if exp <= 16383 {
      UnitsOf(PackParts(sign, exp, mant));
      TruncatedOnGrid(n, exp + 16382, PackParts(sign, exp, mant));
    }
  }

  lemma {:induction false} SumFits(ma: U128, mb: U128)
    requires Val(ma) < Pow2(113) && Val(mb) < Pow2(113)
    ensures Val(Words.Add(ma, mb)) == Val(ma) + Val(mb)
  {
    hide Pow2;
    WordIsPow2();
    PowDouble(113);
    Pow2Monotone(114, 128);
    AddVal(ma, mb);
  }

  lemma {:induction false} QuotientSmaller(m: nat, s: nat)
    ensures m / Pow2(s) <= m
  {
    hide Pow2;
    DivBound(m, Pow2(s));
  }

  lemma {:induction false} SumSorted(pa: Parts, pb: Parts, n: nat)
    requires pa.sign <= 1 && 0 <= pb.exp + 16382 <= pa.exp + 16382 <= MaxPlace()
    requires Pow2(112) <= Val(pa.mant) < Pow2(113) && Val(pb.mant) < Pow2(113)
    requires n == Val(pa.mant) * Pow2(pa.exp + 16382) + Val(pb.mant) * Pow2(pb.exp + 16382)
    ensures var v := AddSameSign(pa, pb);
      if n >= SumBound() then v == MakeInf(pa.sign) else Sign(v) == pa.sign && RoundsTowardZero(n, v)
  {
    hide Pow2, PackParts, Val, RoundsTowardZero, SumBound, Aligned, Shr, IsZero;
    AlignedVal(pb.mant, pa.exp - pb.exp);
    QuotientSmaller(Val(pb.mant), pa.exp - pb.exp);
    SumFits(pa.mant, Aligned(pb.mant, pa.exp - pb.exp));
    AlignedSum(Val(pa.mant), Val(pb.mant), pa.exp + 16382, pb.exp + 16382);
    PackedSum(pa.sign, pa.exp, Words.Add(pa.mant, Aligned(pb.mant, pa.exp - pb.exp)), n);
  }

  // ---------------------------------------------------------------------------
  // Differences

  /** v stands for x units, or for half of it when x is below the normal range. */
  predicate StandsForDifference(x: nat, v: F128) {
    IsFinite(v) && Units(v) == if x >= Pow2(112) then x else x / 2
  }

  lemma {:induction false} DifferenceSorted(pa: Parts, pb: Parts) returns (x: nat)
    requires pa.sign <= 1 && 0 <= pb.exp + 16382 <= pa.exp + 16382 <= MaxPlace()
    requires Val(pa.mant) < Pow2(113) && Val(pb.mant) < Pow2(113)
    requires Val(pb.mant) / Pow2(pa.exp - pb.exp) < Val(pa.mant)
    ensures var (na, nb) := (Val(pa.mant) * Pow2(pa.exp + 16382), Val(pb.mant) * Pow2(pb.exp + 16382));
      na <= x + nb && x + nb < na + Pow2(pa.exp + 16382)
    ensures x % Pow2(pa.exp + 16382) == 0
    ensures Sign(SubMag(pa, pb)) == pa.sign && StandsForDifference(x, SubMag(pa, pb))
  {
    hide Pow2, PackParts, Val, Aligned, Units, IsFinite;
    AlignedVal(pb.mant, pa.exp - pb.exp);
    SubVal(pa.mant, Aligned(pb.mant, pa.exp - pb.exp));
    AlignedDifference(Val(pa.mant), Val(pb.mant), pa.exp + 16382, pb.exp + 16382);
    var d := Words.Sub(pa.mant, Aligned(pb.mant, pa.exp - pb.exp));
    x := Val(d) * Pow2(pa.exp + 16382);
    DivModUnique(x, Pow2(pa.exp + 16382), Val(d), 0);
    PackExact(pa.sign, pa.exp, d);
  }

  // ---------------------------------------------------------------------------
  // Sorting

  /** A finite non-zero value as unpacked. */
  lemma {:induction false} UnpackedUnits(v: F128)
    requires IsFinite(v) && Units(v) != 0
    ensures var p := Unpack(v);
      && 0 <= p.exp + 16382 <= MaxPlace() && 0 < Val(p.mant) < Pow2(113) && p.sign == SignOf(v) <= 1
      && Units(v) == Val(p.mant) * Pow2(p.exp + 16382)
      && (p.exp + 16382 > 0 ==> Val(p.mant) >= Pow2(112))
      && (IsNormal(v) ==> Val(p.mant) >= Pow2(112))
  {
    hide Pow2, Unpack, Significand;
    UnpackFinite(v);
    UnitsOf(v);
    SignBounded(v);
  }

  lemma {:induction false} SmallerIff(a: F128, b: F128)
    requires IsFinite(a) && Units(a) != 0 && IsFinite(b) && Units(b) != 0
    ensures Smaller(Unpack(a), Unpack(b)) <==> Units(a) < Units(b)
    ensures Unpack(a).mant == Unpack(b).mant && Unpack(a).exp == Unpack(b).exp <==> Units(a) == Units(b)
  {
    hide Pow2, Unpack, Val, Units;
    UnpackedUnits(a);
    UnpackedUnits(b);
    var (pa, pb) := (Unpack(a), Unpack(b));
    CompareUnits(Val(pa.mant), Val(pb.mant), pa.exp + 16382, pb.exp + 16382);
    CompareUnits(Val(pb.mant), Val(pa.mant), pb.exp + 16382, pa.exp + 16382);
    GtVal(pb.mant, pa.mant);
  }

  lemma {:induction false} AddFinite(a: F128, b: F128)
    requires IsNonzero(a) && IsNonzero(b)
    ensures SignOf(a) <= 1 && SignOf(b) <= 1 && Unpack(a).sign <= 1 && Unpack(b).sign <= 1
    ensures Add(a, b) ==
      if Units(a) < Units(b) then AddSorted(Unpack(b), Unpack(a)) else AddSorted(Unpack(a), Unpack(b))
  {
    hide Pow2, Unpack, Units, AddSorted;
    UnpackKind(a);
    UnpackKind(b);
    SignBounded(a);
    SignBounded(b);
    UnpackedUnits(a);
    UnpackedUnits(b);
    SmallerIff(a, b);
  }

  /** Two values that are both subnormal. */
  lemma {:induction false} SubnormalSum(pa: Parts, pb: Parts, n: nat)
    requires pa.sign <= 1 && pa.exp == pb.exp == -16382 && 0 < Val(pa.mant) < Pow2(112) && Val(pb.mant) < Pow2(112)
    requires n == Val(pa.mant) + Val(pb.mant)
    ensures var v := AddSameSign(pa, pb);
      IsFinite(v) && Sign(v) == pa.sign && Units(v) == if n >= Pow2(112) then n else n / 2
  {
    assert Pow2(0) == 1;
    hide Pow2, PackParts, Val, Units, IsFinite, Shr, IsZero, Words.Add;
    PowDouble(112);
    PowDouble(113);
    AlignedVal(pb.mant, 0);
    DivOne(Val(pb.mant));
    SumFits(pa.mant, Aligned(pb.mant, 0));
    var sum := Words.Add(pa.mant, Aligned(pb.mant, 0));
    TopBit(sum);
    PackExact(pa.sign, pa.exp, sum);
  }

  lemma {:induction false} DivOne(x: nat)
    ensures x / 1 == x
  {
  }

  lemma {:induction false} ExactTowardZero(n: nat, v: F128)
    requires IsFinite(v) && Units(v) == n
    ensures RoundsTowardZero(n, v)
  {
  }

  /** Half of a value below the smallest normal one is too small. */
  lemma {:induction false} HalvedTooSmall(n: nat, v: F128)
    requires 2 <= n < Pow2(112) && Units(v) == n / 2
    ensures !RoundsTowardZero(n, v)
  {
    var w := SubnormalWitness(n);
    hide Pow2, Units, IsFinite;
    assert IsFinite(w) && Units(w) == n > Units(v);
  }

  /** v is infinite where n units overflow, and otherwise n rounded toward zero if and only if n
      is not subnormal; a subnormal n comes out halved. */
  ghost predicate SumIs(n: nat, sign: nat, v: F128)
    requires sign <= 1
  {
    && (n >= SumBound() ==> v == MakeInf(sign))
    && (n < SumBound() ==> Sign(v) == sign && (RoundsTowardZero(n, v) <==> n >= Pow2(112)))
    && (n < Pow2(112) ==> Units(v) == n / 2)
  }

  lemma {:induction false} BothSubnormal(pa: Parts, pb: Parts, n: nat)
    requires pa.sign <= 1 && pa.exp == pb.exp == -16382 && 0 < Val(pa.mant) < Pow2(112) && 0 < Val(pb.mant) < Pow2(112)
    requires n == Val(pa.mant) + Val(pb.mant)
    ensures SumIs(n, pa.sign, AddSameSign(pa, pb))
  {
    hide Pow2, Units, AddSameSign, RoundsTowardZero, SumBound, Val, IsFinite;
    PowDouble(112);
    SubnormalSum(pa, pb, n);
    SmallSumBound(n);
    if n >= Pow2(112) {
      ExactTowardZero(n, AddSameSign(pa, pb));
    } else {
      HalvedTooSmall(n, AddSameSign(pa, pb));
    }
  }

  lemma {:induction false} OneNormal(pa: Parts, pb: Parts, n: nat)
    requires pa.sign <= 1 && 0 <= pb.exp + 16382 <= pa.exp + 16382 <= MaxPlace()
    requires Pow2(112) <= Val(pa.mant) < Pow2(113) && Val(pb.mant) < Pow2(113)
    requires n == Val(pa.mant) * Pow2(pa.exp + 16382) + Val(pb.mant) * Pow2(pb.exp + 16382)
    ensures SumIs(n, pa.sign, AddSameSign(pa, pb))
  {
    hide Pow2, Units, AddSameSign, RoundsTowardZero, SumBound, Val;
    PlaceGrows(Val(pa.mant), pa.exp + 16382);
    SumSorted(pa, pb, n);
  }

  lemma {:induction false} SameSignSorted(a: F128, b: F128)
    requires IsNonzero(a) && IsNonzero(b) && Units(b) <= Units(a)
    ensures SumIs(Units(a) + Units(b), SignOf(a), AddSameSign(Unpack(a), Unpack(b)))
  {
    hide Pow2, Unpack, Units, AddSameSign, SumIs, SignOf, Val, IsFinite;
    UnpackedUnits(a);
    UnpackedUnits(b);
    SmallerIff(a, b);
    var (pa, pb) := (Unpack(a), Unpack(b));
    SortedPlaces(pa, pb);
    if Val(pa.mant) >= Pow2(112) {
      OneNormal(pa, pb, Units(a) + Units(b));
    } else {
      UnitPlace(Val(pa.mant));
      UnitPlace(Val(pb.mant));
      BothSubnormal(pa, pb, Units(a) + Units(b));
    }
  }

  lemma {:induction false} SortedPlaces(pa: Parts, pb: Parts)
    requires !Smaller(pa, pb) && Val(pa.mant) < Pow2(113) && Val(pb.mant) < Pow2(113)
    requires pa.exp >= -16382 && pb.exp >= -16382 && (pa.exp > -16382 ==> Val(pa.mant) >= Pow2(112))
    requires pb.exp > -16382 ==> Val(pb.mant) >= Pow2(112)
    ensures pb.exp <= pa.exp
    ensures Val(pa.mant) < Pow2(112) ==> pa.exp == pb.exp == -16382 && Val(pb.mant) < Pow2(112)
  {
    hide Pow2;
    GtVal(pb.mant, pa.mant);
  }

  lemma {:induction false} UnitPlace(m: nat)
    ensures m * Pow2(0) == m
  {
    assert Pow2(0) == 1;
  }

  lemma {:induction false} SmallSumBound(n: nat)
    requires n < Pow2(113)
    ensures n < SumBound()
  {
    hide Pow2;
    MulMonotone(1, Pow2(MaxPlace()), Pow2(113));
  }

  /** Adding values of the same sign. */
  lemma {:induction false} AddSameSignCorrect(a: F128, b: F128)
    requires IsNonzero(a) && IsNonzero(b) && SignOf(a) == SignOf(b)
    ensures SumIs(Units(a) + Units(b), SignOf(a), Add(a, b))
  {
    hide Pow2, Unpack, Units, AddSameSign, Add, SumIs, SignOf, IsFinite;
    AddFinite(a, b);
    UnpackSign(a);
    UnpackSign(b);
    if Units(a) < Units(b) {
      SameSignSorted(b, a);
    } else {
      SameSignSorted(a, b);
    }
  }

  lemma {:induction false} TruncatedSmaller(pa: Parts, pb: Parts)
    requires 0 <= pb.exp + 16382 <= pa.exp + 16382
    requires Val(pa.mant) * Pow2(pa.exp + 16382) > Val(pb.mant) * Pow2(pb.exp + 16382)
    ensures Val(pb.mant) / Pow2(pa.exp - pb.exp) < Val(pa.mant)
  {
    hide Pow2, Val;
    var (ka, kb) := (pa.exp + 16382, pb.exp + 16382);
    Pow2Add(ka - kb, kb);
    AlignPure(Val(pb.mant), Pow2(ka - kb), Pow2(kb));
    var q := Val(pb.mant) / Pow2(ka - kb);
    if q >= Val(pa.mant) {
      MulMonotone(Val(pa.mant), q, Pow2(ka));
    }
  }

  /** Adding values of opposite signs: the result takes the sign of the larger operand and stands
      for x, the exact difference taken up to the next multiple of the larger operand's last
      place; that is the difference itself if aligning loses no bit.  The result is x if and
      only if x is normal or zero, half of it below. */
  lemma {:induction false} AddOppositeCorrect(a: F128, b: F128) returns (x: nat)
    requires IsNonzero(a) && IsNonzero(b) && SignOf(a) != SignOf(b) && Units(a) > Units(b)
    ensures Units(a) - Units(b) <= x < Units(a) - Units(b) + Pow2(Place(a)) && x % Pow2(Place(a)) == 0
    ensures Units(b) % Pow2(Place(a)) == 0 ==> x == Units(a) - Units(b)
    ensures Sign(Add(a, b)) == SignOf(a) && StandsForDifference(x, Add(a, b))
    ensures Sign(Add(b, a)) == SignOf(a) && StandsForDifference(x, Add(b, a))
  {
    hide Pow2, Unpack, Units, SubMag, Add, StandsForDifference, SignOf, Val, Significand, Place;
    AddFinite(a, b);
    AddFinite(b, a);
    UnpackedUnits(a);
    UnpackedUnits(b);
    UnpackFinite(a);
    SmallerIff(a, b);
    SmallerIff(b, a);
    TruncatedSmaller(Unpack(a), Unpack(b));
    x := DifferenceSorted(Unpack(a), Unpack(b));
    NextMultiple(Significand(a), Units(b), Pow2(Place(a)), x);
  }

  /** Between a difference of multiples and the next multiple there is no other. */
  lemma {:induction false} NextMultiple(m: nat, nb: nat, p: nat, x: nat)
    requires p > 0 && x % p == 0 && m * p - nb <= x < m * p - nb + p
    ensures nb % p == 0 ==> x == m * p - nb
  {
    if nb % p == 0 {
      var (j, k) := (x / p, nb / p);
      assert x == j * p && nb == k * p;
      assert m * p - k * p == (m - k) * p;
      if j > m - k {
        MulMonotone(1, j - (m - k), p);
      }
    }
  }

  /** Equal magnitudes of opposite signs cancel to positive zero. */
  lemma {:induction false} AddCancels(a: F128, b: F128)
    requires IsNonzero(a) && IsNonzero(b) && SignOf(a) != SignOf(b) && Units(a) == Units(b)
    ensures Add(a, b) == MakeZero(0)
  {
    hide Pow2, Unpack, Units, Add;
    AddFinite(a, b);
    UnpackedUnits(a);
    UnpackedUnits(b);
    SmallerIff(a, b);
  }

  // ---------------------------------------------------------------------------
  // NaNs, infinities and zeros: sections 6.1, 6.2 and 6.3 of IEEE 754-2019

  /** The first NaN is the result. */
  lemma {:induction false} AddNan(a: F128, b: F128)
    ensures IsNan(a) ==> Add(a, b) == a
    ensures !IsNan(a) && IsNan(b) ==> Add(a, b) == b
  {
    hide Pow2, Unpack, Units, AddSorted, Smaller;
    UnpackKind(a);
    UnpackKind(b);
  }

  /** A finite operand leaves an infinity as it is; opposite infinities have no sum. */
  lemma {:induction false} AddInfinity(a: F128, b: F128)
    requires !IsFinite(a) && !IsNan(a) && !IsNan(b)
    ensures IsFinite(b) ==> Add(a, b) == a == Add(b, a)
    ensures !IsFinite(b) && SignOf(a) == SignOf(b) ==> Add(a, b) == a == b
    ensures !IsFinite(b) && SignOf(a) != SignOf(b) ==> IsNan(Add(a, b))
  {
    hide Pow2, Unpack, Units, AddSorted, Smaller;
    UnpackKind(a);
    UnpackKind(b);
    UnpackSign(a);
    UnpackSign(b);
    SignBounded(a);
    SignBounded(b);
    NanIsNan();
  }

  lemma {:induction false} NanIsNan()
    ensures IsNan(MakeNan()) && !IsFinite(MakeNan())
  {
  }

  /** Adding a zero changes nothing; two zeros give a negative one if and only if both are. */
  lemma {:induction false} AddZero(a: F128, b: F128)
    requires IsFinite(a) && IsFinite(b) && (Units(a) == 0 || Units(b) == 0)
    ensures var r := Add(a, b);
      && IsFinite(r) && Units(r) == Units(a) + Units(b)
      && (Units(a) != 0 ==> r == a)
      && (Units(b) != 0 ==> r == b)
      && (Units(a) == 0 && Units(b) == 0 ==> (Sign(r) == 1 <==> Sign(a) == 1 && Sign(b) == 1))
  {
    hide Pow2, Unpack, Units, AddSorted, Smaller, Encode, MakeZero;
    UnpackKind(a);
    UnpackKind(b);
    UnpackSign(a);
    UnpackSign(b);
    if Units(a) == 0 && Units(b) == 0 {
      var sign := if SignOf(a) == 1 && SignOf(b) == 1 then 1 else 0;
      ZeroFields(sign);
      assert Add(a, b) == MakeZero(sign);
    }
  }

  lemma {:induction false} ZeroFields(sign: nat)
    requires sign <= 1
    ensures var z := MakeZero(sign); IsFinite(z) && Units(z) == 0 && Sign(z) == sign
  {
    hide Pow2;
    EncodeFields(sign, 0, 0, 0);
  }

  // ---------------------------------------------------------------------------
  // Comparison

  /** f128_cmp_internal: -1, 0, 1, or 2 for unordered. */
  function Cmp(a: F128, b: F128): int {
    var pa := Unpack(a);
    var pb := Unpack(b);
    if pa.isNan || pb.isNan then 2
    else if pa.isZero && pb.isZero then 0
    else if pa.isZero then (if pb.sign == 1 then 1 else -1)
    else if pb.isZero then (if pa.sign == 1 then -1 else 1)
    else if pa.sign != pb.sign then (if pa.sign == 1 then -1 else 1)
    else
      var mag :=
        if pa.isInf && pb.isInf then 0
        else if pa.isInf then 1
        else if pb.isInf then -1
        else if pa.exp != pb.exp then (if pa.exp > pb.exp then 1 else -1)
        else if Gt(pa.mant, pb.mant) then 1
        else if Gt(pb.mant, pa.mant) then -1
        else 0;
      if pa.sign == 1 then -mag else mag
  }

  /** Magnitudes in units; infinity lies above every finite value. */
  function Magnitude(v: F128): nat {
    if IsFinite(v) then Units(v) else SumBound()
  }

  function Signed(v: F128): int {
    if SignOf(v) == 1 then -(Magnitude(v) as int) else Magnitude(v)
  }

  function Order(x: int, y: int): int {
    if x < y then -1 else if x == y then 0 else 1
  }

  lemma {:induction false} FiniteBelowInfinity(v: F128)
    requires IsFinite(v)
    ensures Units(v) < SumBound()
  {
    hide Pow2, Significand;
    SignificandBound(v);
    PowDouble(112);
    UnitsOf(v);
    Pow2Monotone(Place(v), MaxPlace());
    MulBoth(Significand(v) + 1, Pow2(113), Pow2(Place(v)), Pow2(MaxPlace()));
    assert (Significand(v) + 1) * Pow2(Place(v)) == Significand(v) * Pow2(Place(v)) + Pow2(Place(v));
  }

  lemma {:induction false} ZeroBelowInfinity()
    ensures SumBound() > 0
  {
    hide Pow2;
    ProductPositive(Pow2(113), Pow2(MaxPlace()));
  }

  /** Comparison is the order of the numbers, signed zeros being equal and infinities extreme:
      section 5.11 of IEEE 754-2019. */
  lemma {:induction false} CmpIsOrder(a: F128, b: F128)
    ensures IsNan(a) || IsNan(b) ==> Cmp(a, b) == 2
    ensures !IsNan(a) && !IsNan(b) ==> Cmp(a, b) == Order(Signed(a), Signed(b))
  {
    hide Pow2, Unpack, Units, IsFinite, IsNan, SumBound, Gt, Val;
    UnpackKind(a);
    UnpackKind(b);
    UnpackSign(a);
    UnpackSign(b);
    ZeroBelowInfinity();
    if !IsNan(a) && !IsNan(b) {
      if IsFinite(a) {
        FiniteBelowInfinity(a);
      }
      if IsFinite(b) {
        FiniteBelowInfinity(b);
      }
      if IsFinite(a) && IsFinite(b) && Units(a) != 0 && Units(b) != 0 {
        SmallerIff(a, b);
        SmallerIff(b, a);
      }
    }
  }

  lemma {:induction false} UnpackSign(v: F128)
    ensures Unpack(v).sign == SignOf(v) <= 1
  {
    SignBounded(v);
  }
}
