/**
 128-bit unsigned numbers kept in two 64-bit limbs, as the soft-float library computes them,
 and the proof that every routine computes what its name says on natural numbers.
 */
module Words {
  import opened Numbers

  const WORD: nat := 0x1_0000_0000_0000_0000

  type Limb = x: nat | x < WORD

  datatype U128 = U128(hi: Limb, lo: Limb)

  /** The number two limbs stand for. */
  function Val(a: U128): (v: nat) {
    a.hi * WORD + a.lo
  }

  const TWO128: nat := WORD * WORD

  /** Unsigned 64-bit arithmetic wraps around. */
  function Wrap(x: int): Limb {
    x % WORD
  }

  const ZERO := U128(0, 0)
  const ONE := U128(0, 1)

  // ---------------------------------------------------------------------------
  // The routines

  function Add(a: U128, b: U128): U128 {
    var lo := Wrap(a.lo + b.lo);
    U128(Wrap(a.hi + b.hi + if lo < a.lo then 1 else 0), lo)
  }

  function Sub(a: U128, b: U128): U128 {
    U128(Wrap(a.hi - b.hi - if a.lo < b.lo then 1 else 0), Wrap(a.lo - b.lo))
  }

  function Inc(a: U128): U128 {
    var lo := Wrap(a.lo + 1);
    U128(Wrap(a.hi + if lo == 0 then 1 else 0), lo)
  }

  function AndWord(a: Limb, b: Limb): Limb {
    BitAndBound(a, b);
    BitAnd(a, b)
  }

  function OrWord(a: Limb, b: Limb): Limb {
    WordIsPow2();
    BitOrBound(a, b, 64);
    BitOr(a, b)
  }

  function And(a: U128, b: U128): U128 {
    U128(AndWord(a.hi, b.hi), AndWord(a.lo, b.lo))
  }

  function Or(a: U128, b: U128): U128 {
    U128(OrWord(a.hi, b.hi), OrWord(a.lo, b.lo))
  }

  /** Shifts of one limb by less than its width. */
  function ShlWord(a: Limb, n: nat): Limb
    requires n < 64
  {
    Wrap(a * Pow2(n))
  }

  function ShrWord(a: Limb, n: nat): Limb
    requires n < 64
  {
    DivLimb(a, Pow2(n))
  }

  function DivLimb(a: Limb, d: nat): Limb
    requires d > 0
  {
    DivBound(a, d);
    a / d
  }

  function Shl(a: U128, n: int): U128 {
    if n <= 0 then a
    else if n >= 128 then ZERO
    else if n >= 64 then U128(ShlWord(a.lo, n - 64), 0)
    else U128(OrWord(ShlWord(a.hi, n), ShrWord(a.lo, 64 - n)), ShlWord(a.lo, n))
  }

  function Shr(a: U128, n: int): U128 {
    if n <= 0 then a
    else if n >= 128 then ZERO
    else if n >= 64 then U128(0, ShrWord(a.hi, n - 64))
    else U128(ShrWord(a.hi, n), OrWord(ShrWord(a.lo, n), ShlWord(a.hi, 64 - n)))
  }

  function Shl1(a: U128): U128 {
    U128(OrWord(ShlWord(a.hi, 1), ShrWord(a.lo, 63)), ShlWord(a.lo, 1))
  }

  predicate Gt(a: U128, b: U128) {
    a.hi > b.hi || (a.hi == b.hi && a.lo > b.lo)
  }

  predicate Gte(a: U128, b: U128) {
    a.hi > b.hi || (a.hi == b.hi && a.lo >= b.lo)
  }

  predicate IsZero(a: U128) {
    a.lo == 0 && a.hi == 0
  }

  function Bit(a: U128, n: nat): nat
    requires n < 128
  {
    if n >= 64 then ShrWord(a.hi, n - 64) % 2 else ShrWord(a.lo, n) % 2
  }

  /** Number of binary digits. */
  function BitLength(x: nat): (n: nat)
    ensures x < Pow2(n) && (x > 0 ==> n > 0 && Pow2(n - 1) <= x)
  {
    if x == 0 then 0 else 1 + BitLength(x / 2)
  }

  function Clz64(x: Limb): nat {
    WordIsPow2();
    BitLengthBound(x, 64);
    64 - BitLength(x)
  }

  function Clz(a: U128): nat {
    if a.hi != 0 then Clz64(a.hi)
    else if a.lo != 0 then 64 + Clz64(a.lo)
    else 128
  }

  // ---------------------------------------------------------------------------
  // Basic facts

  lemma {:induction false} WordIsPow2()
    ensures Pow2(64) == WORD && Pow2(128) == TWO128
  {
    Pow2Values();
    Pow2Add(64, 64);
  }

  lemma {:induction false} BitAndBound(a: nat, b: nat)
    ensures BitAnd(a, b) <= a
  {
    if a != 0 && b != 0 {
      BitAndBound(a / 2, b / 2);
    }
  }

  lemma {:induction false} BitOrBound(a: nat, b: nat, n: nat)
    requires a < Pow2(n) && b < Pow2(n)
    ensures BitOr(a, b) < Pow2(n)
    ensures BitOr(a, b) == 0 <==> a == 0 && b == 0
  {
    if a != 0 && b != 0 {
      BitOrBound(a / 2, b / 2, n - 1);
    }
  }

  lemma {:induction false} DivBound(a: nat, d: nat)
    requires d > 0
    ensures a / d <= a
  {
    var q := a / d;
    MulMonotone(1, d, q);
  }

  lemma {:induction false} BitLengthBound(x: nat, n: nat)
    requires x < Pow2(n)
    ensures BitLength(x) <= n
    decreases x
  {
    if x > 0 {
      BitLengthBound(x / 2, n - 1);
    }
  }

  lemma {:induction false} BitLengthUnique(x: nat, n: nat)
    requires n > 0 && Pow2(n - 1) <= x < Pow2(n)
    ensures BitLength(x) == n
  {
    if n > 1 {
      BitLengthUnique(x / 2, n - 1);
    } else {
      assert x == 1 && x / 2 == 0;
    }
  }

  // ---------------------------------------------------------------------------
  // What the routines compute

  lemma {:induction false} AddVal(a: U128, b: U128)
    requires Val(a) + Val(b) < TWO128
    ensures Val(Add(a, b)) == Val(a) + Val(b)
  {
    WrapOnce(a.lo + b.lo);
    var carry := if a.lo + b.lo >= WORD then 1 else 0;
    WrapOnce(a.hi + b.hi + carry);
  }

  lemma {:induction false} WrapOnce(x: int)
    ensures 0 <= x < WORD ==> Wrap(x) == x
    ensures WORD <= x < 2 * WORD ==> Wrap(x) == x - WORD
    ensures 0 - WORD <= x < 0 ==> Wrap(x) == x + WORD
  {
  }

  lemma {:induction false} SubVal(a: U128, b: U128)
    requires Val(b) <= Val(a)
    ensures Val(Sub(a, b)) == Val(a) - Val(b)
  {
    WrapOnce(a.lo - b.lo);
    var borrow := if a.lo < b.lo then 1 else 0;
    WrapOnce(a.hi - b.hi - borrow);
  }

  lemma {:induction false} IncVal(a: U128)
    requires Val(a) + 1 < TWO128
    ensures Val(Inc(a)) == Val(a) + 1
  {
    WrapOnce(a.lo + 1);
    WrapOnce(a.hi + if a.lo + 1 == WORD then 1 else 0);
  }

  lemma {:induction false} GtVal(a: U128, b: U128)
    ensures Gt(a, b) <==> Val(a) > Val(b)
    ensures Gte(a, b) <==> Val(a) >= Val(b)
    ensures IsZero(a) <==> Val(a) == 0
    ensures a == b <==> Val(a) == Val(b)
  {
  }

  lemma {:induction false} ValBound(a: U128)
    ensures Val(a) < TWO128
  {
  }

  lemma {:induction false} HalfWords(n: nat)
    requires n <= 64
    ensures Pow2(n) * Pow2(64 - n) == WORD
  {
    WordIsPow2();
    Pow2Add(n, 64 - n);
  }

  /** A limb shifted left: what stays and what falls out. */
  lemma {:induction false} ShlWordParts(a: Limb, n: nat)
    requires n < 64
    ensures a * Pow2(n) == (a / Pow2(64 - n)) * WORD + ShlWord(a, n)
    ensures ShlWord(a, n) == (a % Pow2(64 - n)) * Pow2(n)
    ensures a / Pow2(64 - n) < Pow2(n)
  {
    HalfWords(n);
    hide Pow2;
    ShiftOut(a, Pow2(n), Pow2(64 - n), WORD);
  }

  /** Shifting left by less than a limb. */
  lemma {:induction false} ShlSmall(a: U128, n: nat)
    requires 0 < n < 64
    ensures Val(Shl(a, n)) == (a.hi % Pow2(64 - n)) * Pow2(n) * WORD + a.lo * Pow2(n)
  {
    hide Pow2, BitOr;
    ShlWordParts(a.lo, n);
    ShlWordParts(a.hi, n);
    BitOrDisjoint(a.hi % Pow2(64 - n), a.lo / Pow2(64 - n), n);
    assert Shl(a, n).hi == (a.hi % Pow2(64 - n)) * Pow2(n) + a.lo / Pow2(64 - n);
  }

  lemma {:induction false} PowWord(n: nat)
    requires n >= 64
    ensures Pow2(n) == WORD * Pow2(n - 64)
  {
    WordIsPow2();
    Pow2Add(64, n - 64);
  }

  lemma {:induction false} ShlWordExact(a: Limb, n: nat)
    requires n < 64 && a * Pow2(n) < WORD
    ensures ShlWord(a, n) == a * Pow2(n)
  {
    WrapOnce(a * Pow2(n));
  }

  lemma {:induction false} ShlLarge(a: U128, n: nat)
    requires 64 <= n < 128 && Val(a) * Pow2(n) < TWO128
    ensures Val(Shl(a, n)) == Val(a) * Pow2(n)
  {
    hide Pow2, ShlWord;
    PowWord(n);
    LowLimbOnly(a.hi, a.lo, Pow2(n - 64));
    ShlWordExact(a.lo, n - 64);
  }

  lemma {:induction false} ShlVal(a: U128, n: nat)
    requires n < 128 && Val(a) * Pow2(n) < TWO128
    ensures Val(Shl(a, n)) == Val(a) * Pow2(n)
  {
    if n == 0 {
      assert Pow2(0) == 1;
    } else if n < 64 {
      ShlSmall(a, n);
      HalfWords(n);
      hide Pow2, Shl;
      TopFits(a.hi, a.lo, Pow2(n), Pow2(64 - n));
    } else {
      hide Pow2, Shl, Val;
      ShlLarge(a, n);
    }
  }

  lemma {:induction false} TopFits(hi: Limb, lo: Limb, p: nat, q: nat)
    requires p > 0 && q > 0 && p * q == WORD && (hi * WORD + lo) * p < TWO128
    ensures (hi % q) * p * WORD + lo * p == (hi * WORD + lo) * p
  {
    assert (hi * WORD + lo) * p == (hi * p) * WORD + lo * p;
    assert hi < q by {
      if hi >= q {
        MulMonotone(q, hi, p);
      }
    }
    SmallMod(hi, q);
  }

  lemma {:induction false} LowLimbOnly(hi: Limb, lo: Limb, p: nat)
    requires p > 0 && (hi * WORD + lo) * (WORD * p) < TWO128
    ensures hi == 0 && lo * p < WORD
    ensures (hi * WORD + lo) * (WORD * p) == (lo * p) * WORD
  {
    var v := hi * WORD + lo;
    assert v * (WORD * p) == (v * p) * WORD;
    if hi >= 1 {
      MulMonotone(WORD, v, p);
      MulMonotone(1, p, WORD);
    }
  }

  lemma {:induction false} ShrSmallLow(a: U128, n: nat)
    requires 0 < n < 64
    ensures Shr(a, n).lo == (a.hi % Pow2(n)) * Pow2(64 - n) + a.lo / Pow2(n)
  {
    ShlWordParts(a.hi, 64 - n);
    assert a.lo / Pow2(n) < Pow2(64 - n) by {
      HalfWords(n);
      ShiftDown(0, a.lo, Pow2(n), Pow2(64 - n), WORD);
    }
    BitOrDisjoint(a.hi % Pow2(n), a.lo / Pow2(n), 64 - n);
    hide Pow2, BitOr;
  }

  lemma {:induction false} ShrSmall(a: U128, n: nat)
    requires 0 < n < 64
    ensures Val(Shr(a, n)) == Val(a) / Pow2(n)
  {
    assert Val(a) / Pow2(n) == (a.hi / Pow2(n)) * WORD + (a.hi % Pow2(n)) * Pow2(64 - n) + a.lo / Pow2(n) by {
      HalfWords(n);
      ShiftDown(a.hi, a.lo, Pow2(n), Pow2(64 - n), WORD);
    }
    assert Shr(a, n).hi == a.hi / Pow2(n);
    ShrSmallLow(a, n);
    hide Pow2, Shr;
  }

  lemma {:induction false} ShrLarge(a: U128, n: nat)
    requires 64 <= n < 128
    ensures Val(Shr(a, n)) == Val(a) / Pow2(n)
  {
    WordIsPow2();
    Pow2Add(64, n - 64);
    hide Pow2;
    DropLimb(a.hi, a.lo, Pow2(n - 64));
  }

  lemma {:induction false} ShrVal(a: U128, n: nat)
    requires n < 128
    ensures Val(Shr(a, n)) == Val(a) / Pow2(n)
  {
    if n == 0 {
      assert Pow2(0) == 1;
    } else if n < 64 {
      hide Pow2, Shr, Val;
      ShrSmall(a, n);
    } else {
      hide Pow2, Shr, Val;
      ShrLarge(a, n);
    }
  }

  lemma {:induction false} DropLimb(hi: Limb, lo: Limb, p: nat)
    requires p > 0
    ensures (hi * WORD + lo) / (WORD * p) == hi / p
  {
    var (x, y) := (hi / p, hi % p);
    assert hi * WORD == x * (WORD * p) + y * WORD;
    assert (y + 1) * WORD == y * WORD + WORD;
    MulMonotone(y + 1, p, WORD);
    DivModUnique(hi * WORD + lo, WORD * p, x, y * WORD + lo);
  }

  // ---------------------------------------------------------------------------
  // Multiplication

  const HALF: nat := 0x1_0000_0000

  /** mul64x64: four 32-bit partial products and their carries. */
  function Mul64(a: Limb, b: Limb): U128 {
    var (al, ah) := (a % HALF, a / HALF);
    var (bl, bh) := (b % HALF, b / HALF);
    var p0 := Wrap(al * bl);
    var p1 := Wrap(al * bh);
    var p2 := Wrap(ah * bl);
    var p3 := Wrap(ah * bh);
    Assemble(p0, p1, p2, p3)
  }

  function Assemble(p0: Limb, p1: Limb, p2: Limb, p3: Limb): U128 {
    var mid := Wrap(p0 / HALF + p1 % HALF + p2 % HALF);
    U128(Wrap(p3 + p1 / HALF + p2 / HALF + mid / HALF), OrWord(ShlWord(mid, 32), p0 % HALF))
  }

  /** u128_mul128: the high and the low half of the 256-bit product. */
  function Mul128(a: U128, b: U128): (U128, U128) {
    Combine(Mul64(a.lo, b.lo), Mul64(a.lo, b.hi), Mul64(a.hi, b.lo), Mul64(a.hi, b.hi))
  }

  function Combine(c00: U128, c01: U128, c10: U128, c11: U128): (U128, U128) {
    var m1 := Wrap(c00.hi + c01.lo);
    var mc1 := if m1 < c00.hi then 1 else 0;
    var m2 := Wrap(m1 + c10.lo);
    var mc2 := if m2 < m1 then 1 else 0;
    var h1 := Wrap(c11.lo + c01.hi);
    var hc1 := if h1 < c11.lo then 1 else 0;
    var h2 := Wrap(h1 + c10.hi);
    var hc2 := if h2 < h1 then 1 else 0;
    var h3 := Wrap(h2 + (mc1 + mc2));
    var hc3 := if h3 < h2 then 1 else 0;
    (U128(Wrap(c11.hi + (hc1 + hc2 + hc3)), h3), U128(m2, c00.lo))
  }

  lemma {:induction false} MulBound(a: nat, b: nat, m: nat)
    requires a < m && b < m
    ensures a * b <= (m - 1) * (m - 1)
  {
    MulMonotone(a, m - 1, b);
    MulMonotone(b, m - 1, m - 1);
  }

  lemma {:induction false} SchoolProduct(al: nat, ah: nat, bl: nat, bh: nat, h: nat)
    ensures (ah * h + al) * (bh * h + bl) == (ah * bh) * (h * h) + (al * bh) * h + (ah * bl) * h + al * bl
  {
    assert (ah * h + al) * (bh * h + bl) == (ah * h) * (bh * h) + (ah * h) * bl + al * (bh * h) + al * bl;
    assert (ah * h) * (bh * h) == (ah * bh) * (h * h);
  }

  lemma {:induction false} PartialProducts(p0: Limb, p1: Limb, p2: Limb, p3: nat, mid: nat)
    requires mid == p0 / HALF + p1 % HALF + p2 % HALF
    ensures p3 * WORD + p1 * HALF + p2 * HALF + p0
      == (p3 + p1 / HALF + p2 / HALF + mid / HALF) * WORD + (mid % HALF) * HALF + p0 % HALF
  {
  }

  lemma {:induction false} Mul64Val(a: Limb, b: Limb)
    ensures Val(Mul64(a, b)) == a * b
  {
    hide Assemble;
    var (al, ah) := (a % HALF, a / HALF);
    var (bl, bh) := (b % HALF, b / HALF);
    assert a * b == (ah * bh) * WORD + (al * bh) * HALF + (ah * bl) * HALF + al * bl by {
      SchoolProduct(al, ah, bl, bh, HALF);
    }
    assert a * b < TWO128 by {
      MulBound(a, b, WORD);
    }
    SmallProduct(al, bl);
    SmallProduct(al, bh);
    SmallProduct(ah, bl);
    SmallProduct(ah, bh);
    hide Wrap;
    Mul64Assemble(al * bl, al * bh, ah * bl, ah * bh);
  }

  lemma {:induction false} SmallProduct(x: nat, y: nat)
    requires x < HALF && y < HALF
    ensures x * y < WORD && Wrap(x * y) == x * y
  {
    MulBound(x, y, HALF);
    WrapOnce(x * y);
  }

  lemma {:induction false} Mul64Assemble(p0: Limb, p1: Limb, p2: Limb, p3: Limb)
    requires p3 * WORD + p1 * HALF + p2 * HALF + p0 < TWO128
    ensures Val(Assemble(p0, p1, p2, p3)) == p3 * WORD + p1 * HALF + p2 * HALF + p0
  {
    var mid := p0 / HALF + p1 % HALF + p2 % HALF;
    PartialProducts(p0, p1, p2, p3, mid);
    LowAssemble(mid, p0 % HALF);
    hide ShlWord, OrWord;
    WrapOnce(mid);
    WrapOnce(p3 + p1 / HALF + p2 / HALF + mid / HALF);
  }

  lemma {:induction false} LowAssemble(mid: Limb, low: nat)
    requires low < HALF
    ensures OrWord(ShlWord(mid, 32), low) == (mid % HALF) * HALF + low
  {
    assert Pow2(32) == HALF by {
      Pow2Values();
    }
    ShlWordParts(mid, 32);
    BitOrDisjoint(mid % HALF, low, 32);
    hide Pow2, BitOr;
  }

  lemma {:induction false} Carry(x: Limb, y: Limb)
    ensures var m := Wrap(x + y);
      x + y == m + (if m < x then 1 else 0) * WORD
  {
    WrapOnce(x + y);
  }

  /** The product of two 128-bit numbers is computed exactly. */
  lemma {:induction false} Mul128Val(a: U128, b: U128)
    ensures Val(Mul128(a, b).0) * TWO128 + Val(Mul128(a, b).1) == Val(a) * Val(b)
  {
    hide Mul64;
    Mul64Val(a.lo, b.lo);
    Mul64Val(a.lo, b.hi);
    Mul64Val(a.hi, b.lo);
    Mul64Val(a.hi, b.hi);
    assert Val(a) * Val(b) == (a.hi * b.hi) * TWO128 + (a.lo * b.hi) * WORD + (a.hi * b.lo) * WORD + a.lo * b.lo by {
      SchoolProduct(a.lo, a.hi, b.lo, b.hi, WORD);
    }
    assert Val(a) * Val(b) < TWO128 * TWO128 by {
      MulBound(Val(a), Val(b), TWO128);
    }
    CarryChain(Mul64(a.lo, b.lo), Mul64(a.lo, b.hi), Mul64(a.hi, b.lo), Mul64(a.hi, b.hi));
  }

  lemma {:induction false} CarrySums(c00: U128, c01: U128, c10: U128, c11: U128) returns (low: nat, high: nat)
    ensures var r := Combine(c00, c01, c10, c11);
      && c00.hi + c01.lo + c10.lo == r.1.hi + low * WORD && r.1.lo == c00.lo
      && c11.lo + c01.hi + c10.hi + low == r.0.lo + high * WORD
      && r.0.hi == Wrap(c11.hi + high)
  {
    hide Wrap;
    var m1 := Wrap(c00.hi + c01.lo);
    var mc1 := if m1 < c00.hi then 1 else 0;
    var m2 := Wrap(m1 + c10.lo);
    var mc2 := if m2 < m1 then 1 else 0;
    var h1 := Wrap(c11.lo + c01.hi);
    var hc1 := if h1 < c11.lo then 1 else 0;
    var h2 := Wrap(h1 + c10.hi);
    var hc2 := if h2 < h1 then 1 else 0;
    var h3 := Wrap(h2 + (mc1 + mc2));
    var hc3 := if h3 < h2 then 1 else 0;
    Carry(c00.hi, c01.lo);
    Carry(m1, c10.lo);
    Carry(c11.lo, c01.hi);
    Carry(h1, c10.hi);
    Carry(h2, mc1 + mc2);
    low := mc1 + mc2;
    high := hc1 + hc2 + hc3;
  }

  lemma {:induction false} DigitSum(c00: U128, c01: U128, c10: U128, c11: U128, m: nat, h: nat, low: nat, high: nat)
    requires c00.hi + c01.lo + c10.lo == m + low * WORD
    requires c11.lo + c01.hi + c10.hi + low == h + high * WORD
    ensures Val(c11) * TWO128 + Val(c01) * WORD + Val(c10) * WORD + Val(c00)
      == ((c11.hi + high) * WORD + h) * TWO128 + m * WORD + c00.lo
  {
  }

  lemma {:induction false} CarryChain(c00: U128, c01: U128, c10: U128, c11: U128)
    requires Val(c11) * TWO128 + Val(c01) * WORD + Val(c10) * WORD + Val(c00) < TWO128 * TWO128
    ensures var r := Combine(c00, c01, c10, c11);
      Val(r.0) * TWO128 + Val(r.1) == Val(c11) * TWO128 + Val(c01) * WORD + Val(c10) * WORD + Val(c00)
  {
    hide Combine;
    var low, high := CarrySums(c00, c01, c10, c11);
    var r := Combine(c00, c01, c10, c11);
    DigitSum(c00, c01, c10, c11, r.1.hi, r.0.lo, low, high);
    WrapOnce(c11.hi + high);
    hide Wrap;
  }

  // ---------------------------------------------------------------------------
  // Masks, single bits, disjoint or, leading zeros

  lemma {:induction false} PowBelow(n: nat)
    ensures n < 128 ==> Pow2(n) < TWO128
    ensures n <= 64 ==> Pow2(n) <= WORD
  {
    hide Pow2;
    WordIsPow2();
    if n < 128 {
      Pow2Monotone(n, 128);
    }
    if n <= 64 {
      Pow2Monotone(n, 64);
    }
  }

  lemma {:induction false} OneShl(n: nat)
    requires n < 128
    ensures Val(Shl(ONE, n)) == Pow2(n) < TWO128
  {
    hide Pow2, Shl;
    PowBelow(n);
    ShlVal(ONE, n);
  }

  lemma {:induction false} LimbsOf(a: U128, hi: Limb, lo: Limb)
    requires Val(a) == hi * WORD + lo
    ensures a == U128(hi, lo)
  {
  }

  /** The low mask 2^n - 1. */
  lemma {:induction false} MaskLimbs(n: nat)
    requires n < 128
    ensures var mask := Sub(Shl(ONE, n), ONE);
      if n >= 64 then Pow2(n - 64) <= WORD && mask == U128(Pow2(n - 64) - 1, WORD - 1)
      else Pow2(n) <= WORD && mask == U128(0, Pow2(n) - 1)
  {
    hide Pow2, Shl, Sub;
    OneShl(n);
    SubVal(Shl(ONE, n), ONE);
    if n >= 64 {
      PowBelow(n - 64);
      PowWord(n);
      LimbsOf(Sub(Shl(ONE, n), ONE), Pow2(n - 64) - 1, WORD - 1);
    } else {
      PowBelow(n);
      LimbsOf(Sub(Shl(ONE, n), ONE), 0, Pow2(n) - 1);
    }
  }

  lemma {:induction false} AndAllOnes(x: Limb)
    ensures BitAnd(x, WORD - 1) == x
  {
    WordIsPow2();
    BitAndAllOnes(x, 64);
  }

  lemma {:induction false} LowPart(hi: nat, lo: Limb, p: nat, q: nat)
    requires p > 0 && q > 0
    ensures p * q == WORD ==> (hi * WORD + lo) % p == lo % p
    ensures (hi * WORD + lo) % (WORD * p) == (hi % p) * WORD + lo
  {
    if p * q == WORD {
      assert hi * WORD == (hi * q) * p;
      ModShift(lo, hi * q, p);
    }
    var (x, y) := (hi / p, hi % p);
    assert hi * WORD == x * (WORD * p) + y * WORD;
    MulMonotone(y + 1, p, WORD);
    assert (y + 1) * WORD == y * WORD + WORD;
    DivModUnique(hi * WORD + lo, WORD * p, x, y * WORD + lo);
  }

  /** Masking with 2^n - 1 keeps the remainder modulo 2^n. */
  lemma {:induction false} MaskVal(a: U128, n: nat)
    requires n < 128
    ensures Val(And(a, Sub(Shl(ONE, n), ONE))) == Val(a) % Pow2(n)
  {
    hide Shl, Sub, BitAnd;
    MaskLimbs(n);
    if n >= 64 {
      BitAndMask(a.hi, n - 64);
      AndAllOnes(a.lo);
      PowWord(n);
      hide Pow2;
      LowPart(a.hi, a.lo, Pow2(n - 64), 1);
    } else {
      BitAndMask(a.lo, n);
      HalfWords(n);
      hide Pow2;
      AndZero(a.hi);
      LowPart(a.hi, a.lo, Pow2(n), Pow2(64 - n));
    }
  }

  lemma {:induction false} AndZero(x: nat)
    ensures BitAnd(x, 0) == 0 && BitAnd(0, x) == 0
  {
  }

  lemma {:induction false} AndOne(a: U128)
    ensures IsZero(And(a, ONE)) <==> Val(a) % 2 == 0
  {
    BitAndMask(a.lo, 1);
    assert Pow2(1) == 2;
    AndZero(a.hi);
    hide Pow2, BitAnd;
    assert Val(a) % 2 == a.lo % 2;
  }

  lemma {:induction false} EvenShift(x: nat, y: nat, s: nat, h: nat)
    ensures (x * WORD + y * (2 * h) + s) % 2 == s % 2
  {
    var k := x * (WORD / 2) + y * h;
    assert y * (2 * h) == 2 * (y * h);
    assert x * WORD + y * (2 * h) + s == s + k * 2;
    ModShift(s, k, 2);
  }

  lemma {:induction false} LowBitSplit(hi: nat, lo: Limb, p: nat, h: nat)
    requires p > 0 && h > 0 && p * (2 * h) == WORD
    ensures ((hi * WORD + lo) / p) % 2 == (lo / p) % 2
  {
    ShiftDown(hi, lo, p, 2 * h, WORD);
    EvenShift(hi / p, hi % p, lo / p, h);
  }

  lemma {:induction false} LowBit(a: U128, n: nat)
    requires n < 64
    ensures (Val(a) / Pow2(n)) % 2 == (a.lo / Pow2(n)) % 2
  {
    HalfWords(n);
    assert Pow2(64 - n) == 2 * Pow2(63 - n);
    hide Pow2;
    LowBitSplit(a.hi, a.lo, Pow2(n), Pow2(63 - n));
  }

  /** Bit n is the parity of the number shifted right by n. */
  lemma {:induction false} BitVal(a: U128, n: nat)
    requires n < 128
    ensures Bit(a, n) == (Val(a) / Pow2(n)) % 2
  {
    hide Pow2;
    if n >= 64 {
      PowWord(n);
      DropLimb(a.hi, a.lo, Pow2(n - 64));
    } else {
      hide Val;
      LowBit(a, n);
    }
  }

  lemma {:induction false} LowMultiple(a: U128, n: nat)
    requires n <= 64 && Val(a) % Pow2(n) == 0
    ensures a.lo == (a.lo / Pow2(n)) * Pow2(n)
  {
    hide Pow2;
    HalfWords(n);
    LowPart(a.hi, a.lo, Pow2(n), Pow2(64 - n));
  }

  lemma {:induction false} HighMultiple(hi: Limb, lo: Limb, p: nat)
    requires p > 0 && (hi * WORD + lo) % (WORD * p) == 0
    ensures lo == 0 && hi == (hi / p) * p
  {
    var j := (hi * WORD + lo) / (WORD * p);
    assert hi * WORD + lo == j * (WORD * p) == (j * p) * WORD;
    DivModUnique(hi * WORD + lo, WORD, j * p, 0);
    DivModUnique(hi * WORD + lo, WORD, hi, lo);
    DivModUnique(hi, p, j, 0);
  }

  lemma {:induction false} OrHigh(a: U128, b: U128, n: nat)
    requires n >= 64 && Val(a) % Pow2(n) == 0 && Val(b) < Pow2(n)
    ensures Val(Or(a, b)) == Val(a) + Val(b)
  {
    hide Pow2, BitOr;
    PowWordBelow(n);
    HighMultiple(a.hi, a.lo, Pow2(n - 64));
    BelowLimb(b.hi, b.lo, Pow2(n - 64));
    BitOrDisjoint(a.hi / Pow2(n - 64), b.hi, n - 64);
    OrZero(b.lo);
  }

  lemma {:induction false} BelowLimb(hi: Limb, lo: Limb, p: nat)
    requires hi * WORD + lo < WORD * p
    ensures hi < p
  {
  }

  /** Or-ing a small number under the trailing zeros of another adds it. */
  lemma {:induction false} OrVal(a: U128, b: U128, n: nat)
    requires Val(a) % Pow2(n) == 0 && Val(b) < Pow2(n)
    ensures Val(Or(a, b)) == Val(a) + Val(b)
  {
    if n <= 64 {
      OrLow(a, b, n);
    } else {
      OrHigh(a, b, n);
    }
  }

  lemma {:induction false} OrLow(a: U128, b: U128, n: nat)
    requires n <= 64 && Val(a) % Pow2(n) == 0 && Val(b) < Pow2(n)
    ensures Val(Or(a, b)) == Val(a) + Val(b)
  {
    hide Pow2, BitOr;
    PowBelow(n);
    LowMultiple(a, n);
    BitOrDisjoint(a.lo / Pow2(n), b.lo, n);
    OrZero(a.hi);
  }

  lemma {:induction false} OrZero(x: nat)
    ensures BitOr(x, 0) == x && BitOr(0, x) == x
  {
  }

  /** A number with its top bit at place n - 1 has 128 - n leading zeros. */
  lemma {:induction false} ClzVal(a: U128, n: nat)
    requires 64 < n <= 128 && Pow2(n - 1) <= Val(a) < Pow2(n)
    ensures Clz(a) == 128 - n
  {
    PowWord(n);
    PowWordBelow(n - 1);
    hide Pow2;
    TopLimb(a.hi, a.lo, Pow2(n - 64), Pow2(n - 65));
    BitLengthUnique(a.hi, n - 64);
  }

  lemma {:induction false} PowWordBelow(n: nat)
    requires n >= 64
    ensures Pow2(n) == WORD * Pow2(n - 64) && Pow2(n - 64) > 0
  {
    PowWord(n);
  }

  lemma {:induction false} TopLimb(hi: Limb, lo: Limb, p: nat, h: nat)
    requires WORD * h <= hi * WORD + lo < WORD * p && h > 0
    ensures h <= hi < p
  {
  }
}
