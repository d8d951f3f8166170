/**
 Sizes, alignments and field offsets, and the three places that fold an index path into a
 byte offset.
 */
module Layout {
  import opened Wrappers
  import opened Numbers
  import opened Types

  // ---------------------------------------------------------------------------
  // Rounding up

  /** (n + a - 1) & ~(a - 1) */
  function AlignUp(n: nat, a: nat): nat
    requires a > 0
  {
    BitAndNot(n + a - 1, a - 1)
  }

  /** x & ~m */
  function BitAndNot(x: nat, m: nat): nat {
    if x == 0 then 0 else 2 * BitAndNot(x / 2, m / 2) + if x % 2 == 1 && m % 2 == 0 then 1 else 0
  }

  predicate IsPow2(a: nat) {
    a > 0 && (a == 1 || (a % 2 == 0 && IsPow2(a / 2)))
  }

  lemma {:induction false} MaskBelow(x: nat, a: nat)
    requires IsPow2(a)
    ensures BitAndNot(x, a - 1) == x - x % a
    decreases a
  {
    var b := a / 2;
    if x == 0 {
      SmallMod(0, a);
    } else if a == 1 {
      MaskNothing(x);
      DivModUnique(x, 1, x, 0);
    } else {
      MaskBelow(x / 2, b);
      assert a == 2 * b;
      hide BitAndNot, IsPow2;
      MaskDouble(x, b);
    }
  }

  lemma {:induction false} MaskDouble(x: nat, b: nat)
    requires b > 0 && x > 0 && BitAndNot(x / 2, b - 1) == x / 2 - (x / 2) % b
    ensures BitAndNot(x, 2 * b - 1) == x - x % (2 * b)
  {
    HalfMod(x, b);
    assert (2 * b - 1) / 2 == b - 1 && (2 * b - 1) % 2 == 1;
    assert BitAndNot(x, 2 * b - 1) == 2 * BitAndNot(x / 2, b - 1);
  }

  lemma {:induction false} MaskNothing(x: nat)
    ensures BitAndNot(x, 0) == x
  {
    if x > 0 {
      MaskNothing(x / 2);
    }
  }

  /** For a power of two the bit trick gives the least multiple that is not below n. */
  lemma {:induction false} AlignUpRounds(n: nat, a: nat)
    requires IsPow2(a)
    ensures AlignUp(n, a) % a == 0 && n <= AlignUp(n, a) < n + a
  {
    MaskBelow(n + a - 1, a);
    hide BitAndNot, IsPow2;
    RoundDown(n + a - 1, a);
  }

  lemma {:induction false} RoundDown(x: nat, a: nat)
    requires a > 0
    ensures (x - x % a) % a == 0 && 0 <= x % a < a
  {
    var q := x / a;
    assert x == q * a + x % a;
    MultipleMod(q, a);
  }

  lemma {:induction false} MaskAtMost(x: nat, m: nat)
    ensures x - m <= BitAndNot(x, m) <= x
  {
    if x > 0 {
      MaskAtMost(x / 2, m / 2);
    }
  }

  /** Whatever the alignment, rounding never goes down. */
  lemma {:induction false} AlignUpAtLeast(n: nat, a: nat)
    requires a > 0
    ensures n <= AlignUp(n, a) < n + a
  {
    MaskAtMost(n + a - 1, a - 1);
  }

  lemma {:induction false} MultipleMod(q: nat, a: nat)
    requires a > 0
    ensures (q * a) % a == 0
  {
    DivModUnique(q * a, a, q, 0);
  }

  lemma {:induction false} LowestBit(a: nat)
    requires a > 0
    ensures 0 < BitAndNot(a, a - 1) <= a
    ensures BitAndNot(a, a - 1) == a <==> IsPow2(a)
  {
    if a % 2 == 1 {
      assert (a - 1) / 2 == a / 2;
      MaskAll(a / 2);
    } else {
      assert (a - 1) / 2 == a / 2 - 1;
      LowestBit(a / 2);
    }
  }

  lemma {:induction false} MaskAll(x: nat)
    ensures BitAndNot(x, x) == 0
  {
    if x > 0 {
      MaskAll(x / 2);
    }
  }

  /** And only for a power of two: otherwise already rounding 1 up goes wrong. */
  lemma {:induction false} AlignUpCorrectIff(a: nat)
    requires a > 0
    ensures (forall n: nat :: AlignUp(n, a) % a == 0) <==> IsPow2(a)
  {
    if IsPow2(a) {
      forall n: nat ensures AlignUp(n, a) % a == 0 {
        AlignUpRounds(n, a);
      }
    } else {
      LowestBit(a);
      var b := AlignUp(1, a);
      SmallMod(b, a);
      assert AlignUp(1, a) % a != 0;
    }
  }

  lemma {:induction false} Pow2Order(a: nat, b: nat)
    requires IsPow2(a) && IsPow2(b) && a <= b
    ensures b % a == 0
  {
    if a > 1 {
      Pow2Order(a / 2, b / 2);
      HalfMod(b, a / 2);
    }
  }

  // ---------------------------------------------------------------------------
  // Size and alignment

  /** lr_type_size */
  function Size(t: Type): nat
    decreases t, 1
  {
    match t
    case Void => 0
    case I1 => 1
    case I8 => 1
    case I16 => 2
    case I32 => 4
    case I64 => 8
    case Float => 4
    case Double => 8
    case X86Fp80 => 16
    case Fp128 => 16
    case Ptr => 8
    case Array(elem, count) => Size(elem) * count
    case Vector(elem, count) => Size(elem) * count
    case Struct(fields, packed) =>
      var end := FieldsEnd(t, |fields|);
      if !packed && fields != [] then AlignUp(end, Align(t)) else end
    case Func(_, _, _) => 0
  }

  /** lr_type_align */
  function Align(t: Type): (a: nat)
    ensures a > 0
    decreases t, 0
  {
    match t
    case Void => 1
    case I1 => 1
    case I8 => 1
    case I16 => 2
    case I32 => 4
    case I64 => 8
    case Float => 4
    case Double => 8
    case X86Fp80 => 16
    case Fp128 => 16
    case Ptr => 8
    case Array(elem, _) => Align(elem)
    case Vector(elem, count) =>
      var size := Size(elem) * count;
      if size < Align(elem) then Align(elem) else size
    case Struct(fields, packed) => if packed then 1 else MaxAlign(t, |fields|)
    case Func(_, _, _) => 1
  }

  function MaxAlign(t: Type, k: nat): (a: nat)
    requires t.Struct? && k <= |t.fields|
    ensures a > 0
    decreases t, 0, k
  {
    if k == 0 then 1
    else
      var a := Align(t.fields[k - 1]);
      var b := MaxAlign(t, k - 1);
      if a > b then a else b
  }

  /** Where field k is put after a field that ends at end. */
  function Placed(t: Type, k: nat, end: nat): nat
    requires t.Struct? && k < |t.fields|
    decreases t, 0, 0
  {
    if t.packed then end else AlignUp(end, Align(t.fields[k]))
  }

  /** Where the first k fields end. */
  function FieldsEnd(t: Type, k: nat): nat
    requires t.Struct? && k <= |t.fields|
    decreases t, 0, k + 1
  {
    if k == 0 then 0 else Placed(t, k - 1, FieldsEnd(t, k - 1)) + Size(t.fields[k - 1])
  }

  /** lr_struct_field_offset */
  function FieldOffset(t: Type, k: nat): nat {
    if !t.Struct? then 0
    else if k < |t.fields| then Placed(t, k, FieldsEnd(t, k))
    else FieldsEnd(t, |t.fields|)
  }

  // ---------------------------------------------------------------------------
  // The loops that compute them

  method TypeSize(t: Type) returns (n: nat)
    ensures n == Size(t)
    decreases t, 1
  {
    match t
    case Void => n := 0;
    case I1 => n := 1;
    case I8 => n := 1;
    case I16 => n := 2;
    case I32 => n := 4;
    case I64 => n := 8;
    case Float => n := 4;
    case Double => n := 8;
    case X86Fp80 => n := 16;
    case Fp128 => n := 16;
    case Ptr => n := 8;
    case Array(elem, count) =>
      var s := TypeSize(elem);
      n := s * count;
    case Vector(elem, count) =>
      var s := TypeSize(elem);
      n := s * count;
    case Struct(fields, packed) =>
      n := 0;
      for i := 0 to |fields|
        invariant n == FieldsEnd(t, i)
      {
        var size := TypeSize(fields[i]);
        if !packed {
          var a := TypeAlign(fields[i]);
          n := AlignUp(n, a);
        }
        n := n + size;
      }
      if !packed && |fields| > 0 {
        var a := TypeAlign(t);
        n := AlignUp(n, a);
      }
    case Func(_, _, _) => n := 0;
  }

  method TypeAlign(t: Type) returns (a: nat)
    ensures a == Align(t)
    decreases t, 0
  {
    match t
    case Void => a := 1;
    case I1 => a := 1;
    case I8 => a := 1;
    case I16 => a := 2;
    case I32 => a := 4;
    case I64 => a := 8;
    case Float => a := 4;
    case Double => a := 8;
    case X86Fp80 => a := 16;
    case Fp128 => a := 16;
    case Ptr => a := 8;
    case Array(elem, _) => a := TypeAlign(elem);
    case Vector(elem, count) =>
      var s := TypeSize(elem);
      a := s * count;
      var ea := TypeAlign(elem);
      if a < ea {
        a := ea;
      }
    case Struct(fields, packed) =>
      a := 1;
      if !packed {
        for i := 0 to |fields|
          invariant a == MaxAlign(t, i)
        {
          var fa := TypeAlign(fields[i]);
          if fa > a {
            a := fa;
          }
        }
      }
    case Func(_, _, _) => a := 1;
  }

  method StructFieldOffset(t: Type, k: nat) returns (off: nat)
    ensures off == FieldOffset(t, k)
  {
    hide AlignUp, Size, Align, MaxAlign;
    off := 0;
    if t.Struct? {
      var i := 0;
      while i < |t.fields| && i < k
        invariant i <= |t.fields| && i <= k
        invariant off == FieldsEnd(t, i)
      {
        if !t.packed {
          var a := TypeAlign(t.fields[i]);
          off := AlignUp(off, a);
        }
        var size := TypeSize(t.fields[i]);
        off := off + size;
        i := i + 1;
      }
      if k < |t.fields| && !t.packed {
        var a := TypeAlign(t.fields[k]);
        off := AlignUp(off, a);
      }
    }
  }

  // ---------------------------------------------------------------------------
  // Well-behaved layouts

  /** Every vector inside has an alignment that is a power of two. */
  predicate PowerVectors(t: Type) {
    match t
    case Array(elem, _) => PowerVectors(elem)
    case Vector(elem, _) => PowerVectors(elem) && IsPow2(Align(t))
    case Struct(fields, _) => forall i :: 0 <= i < |fields| ==> PowerVectors(fields[i])
    case _ => true
  }

  lemma {:induction false} AlignIsPow2(t: Type)
    requires PowerVectors(t)
    ensures IsPow2(Align(t))
    decreases t, 0, 1
  {
    assert IsPow2(1) && IsPow2(2) && IsPow2(4);
    assert IsPow2(8);
    assert IsPow2(16);
    match t
    case Array(elem, _) => AlignIsPow2(elem);
    case Struct(fields, packed) => MaxAlignIsPow2(t, |fields|);
    case _ =>
  }

  lemma {:induction false} MaxAlignIsPow2(t: Type, k: nat)
    requires t.Struct? && k <= |t.fields| && PowerVectors(t)
    ensures IsPow2(MaxAlign(t, k))
    ensures forall i :: 0 <= i < k ==> IsPow2(Align(t.fields[i])) && MaxAlign(t, k) % Align(t.fields[i]) == 0
    decreases t, 0, 0, k
  {
    if k > 0 {
      AlignIsPow2(t.fields[k - 1]);
      MaxAlignIsPow2(t, k - 1);
      forall i | 0 <= i < k
        ensures IsPow2(Align(t.fields[i])) && MaxAlign(t, k) % Align(t.fields[i]) == 0
      {
        if i < k - 1 {
          AlignAtMost(t, k - 1, i);
        }
        Pow2Order(Align(t.fields[i]), MaxAlign(t, k));
      }
    }
  }

  lemma {:induction false} AlignAtMost(t: Type, k: nat, i: nat)
    requires t.Struct? && i < k <= |t.fields|
    ensures Align(t.fields[i]) <= MaxAlign(t, k)
    decreases k
  {
    if i < k - 1 {
      AlignAtMost(t, k - 1, i);
    }
  }

  lemma {:induction false} MulMod(x: nat, n: nat, a: nat)
    requires a > 0 && x % a == 0
    ensures (x * n) % a == 0
  {
    var q := x / a;
    assert x == q * a;
    assert x * n == (q * n) * a by {
      assert (q * a) * n == (q * n) * a;
    }
    MultipleMod(q * n, a);
  }

  /** The size of a type is a multiple of its alignment. */
  lemma {:induction false} SizeIsAligned(t: Type)
    requires PowerVectors(t)
    ensures Size(t) % Align(t) == 0
  {
    AlignIsPow2(t);
    match t
    case Array(elem, count) =>
      SizeIsAligned(elem);
      MulMod(Size(elem), count, Align(elem));
    case Vector(elem, count) =>
      SizeIsAligned(elem);
      MulMod(Size(elem), count, Align(elem));
      if Size(elem) * count < Align(elem) {
        SmallMod(Size(elem) * count, Align(elem));
      } else {
        DivModUnique(Size(t), Size(t), 1, 0);
      }
    case Struct(fields, packed) =>
      if !packed {
        AlignUpRounds(FieldsEnd(t, |fields|), Align(t));
      }
    case _ =>
  }

  lemma {:induction false} FieldIsAligned(t: Type, i: nat)
    requires t.Struct? && !t.packed && PowerVectors(t) && i < |t.fields|
    ensures FieldOffset(t, i) % Align(t.fields[i]) == 0
  {
    AlignIsPow2(t.fields[i]);
    AlignUpRounds(FieldsEnd(t, i), Align(t.fields[i]));
  }

  // Which types are always aligned

  /** A field of type t behind the given fields is aligned. */
  predicate AlignedBehind(before: seq<Type>, t: Type) {
    FieldOffset(Struct(before + [t], false), |before|) % Align(t) == 0
  }

  /** A type is aligned behind every prefix of fields exactly when its alignment is a power of two. */
  lemma {:induction false} AlignedBehindIff(t: Type)
    ensures (forall before: seq<Type> :: AlignedBehind(before, t)) <==> IsPow2(Align(t))
  {
    hide AlignUp, IsPow2, Size, Align, FieldsEnd;
    if IsPow2(Align(t)) {
      forall before: seq<Type> ensures AlignedBehind(before, t) {
        AlignUpRounds(FieldsEnd(Struct(before + [t], false), |before|), Align(t));
      }
    } else {
      ByteFirst(t);
      RoundingOne(Align(t));
      assert !AlignedBehind([I8], t);
    }
  }

  /** One more field of an unpacked struct. */
  lemma {:induction false} FieldStep(t: Type, k: nat)
    requires t.Struct? && !t.packed && k < |t.fields|
    ensures FieldsEnd(t, 0) == 0 && MaxAlign(t, 0) == 1
    ensures FieldsEnd(t, k + 1) == AlignUp(FieldsEnd(t, k), Align(t.fields[k])) + Size(t.fields[k])
    ensures MaxAlign(t, k + 1) == if Align(t.fields[k]) > MaxAlign(t, k) then Align(t.fields[k]) else MaxAlign(t, k)
  {
  }

  lemma {:induction false} ByteType()
    ensures Size(I8) == 1 && Align(I8) == 1
  {
  }

  lemma {:induction false} ByteFirst(t: Type)
    ensures FieldsEnd(Struct([I8] + [t], false), 1) == 1
  {
    hide AlignUp, Size, Align, FieldsEnd;
    var s := Struct([I8] + [t], false);
    assert s.fields[0] == I8;
    FieldStep(s, 0);
    ByteType();
    AlignUpAtLeast(0, 1);
  }

  lemma {:induction false} RoundingOne(a: nat)
    requires a > 0 && !IsPow2(a)
    ensures AlignUp(1, a) % a != 0
  {
    LowestBit(a);
    SmallMod(AlignUp(1, a), a);
  }

  predicate UnpackedAt(s: Type, a: nat) {
    s.Struct? && !s.packed && Align(s) == a
  }

  predicate SizeFits(s: Type) {
    Size(s) % Align(s) == 0
  }

  /** All unpacked structs with the alignment of a type have a size that is a multiple of it
      exactly when it is a power of two. */
  lemma {:induction false} SizeFitsIff(t: Type)
    ensures (forall s :: UnpackedAt(s, Align(t)) ==> SizeFits(s)) <==> IsPow2(Align(t))
  {
    hide AlignUp, IsPow2, Size, Align, FieldsEnd;
    if IsPow2(Align(t)) {
      forall s | UnpackedAt(s, Align(t)) ensures SizeFits(s) {
        UnpackedSize(s);
        AlignUpRounds(FieldsEnd(s, |s.fields|), Align(s));
      }
    } else {
      var k := BadEnd(Size(t), Align(t));
      PaddedLayout(t, k);
      assert UnpackedAt(Padded(t, k), Align(t)) && !SizeFits(Padded(t, k));
    }
  }

  lemma {:induction false} UnpackedSize(s: Type)
    requires s.Struct? && !s.packed
    ensures Align(s) == MaxAlign(s, |s.fields|)
    ensures Size(s) == AlignUp(FieldsEnd(s, |s.fields|), Align(s))
  {
    hide AlignUp;
    AlignUpAtLeast(0, 1);
  }

  /** t followed by k bytes. */
  function Padded(t: Type, k: nat): Type {
    Struct([t] + seq(k, _ => I8), false)
  }

  lemma {:induction false} PaddedLayout(t: Type, k: nat)
    ensures UnpackedAt(Padded(t, k), Align(t)) && Size(Padded(t, k)) == AlignUp(Size(t) + k, Align(t))
  {
    hide AlignUp, MaxAlign, FieldsEnd, Size, Align;
    PaddedPrefix(t, k, k);
    UnpackedSize(Padded(t, k));
  }

  lemma {:induction false} PaddedPrefix(t: Type, k: nat, j: nat)
    requires j <= k
    ensures FieldsEnd(Padded(t, k), j + 1) == Size(t) + j && MaxAlign(Padded(t, k), j + 1) == Align(t)
    decreases j
  {
    hide AlignUp, MaxAlign, FieldsEnd, Size, Align;
    var s := Padded(t, k);
    FieldStep(s, j);
    if j == 0 {
      assert s.fields[0] == t;
      UpFromZero(Align(t));
    } else {
      PaddedPrefix(t, k, j - 1);
      assert s.fields[j] == I8;
      ByteType();
      AlignUpAtLeast(Size(t) + j - 1, 1);
    }
  }

  lemma {:induction false} UpFromZero(a: nat)
    requires a > 0
    ensures AlignUp(0, a) == 0
  {
    MaskAll(a - 1);
  }

  lemma {:induction false} HighBitsStay(x: nat, y: nat, m: nat, k: nat)
    requires m < Pow2(k)
    ensures BitAndNot(x + Pow2(k) * y, m) == BitAndNot(x, m) + Pow2(k) * y
    decreases k
  {
    var z := x + Pow2(k) * y;
    if k == 0 {
      MaskNothing(x);
      MaskNothing(z);
    } else {
      hide Pow2;
      TwiceThat(k, y);
      var h := Pow2(k - 1) * y;
      HighBitsStay(x / 2, y, m / 2, k - 1);
      assert z / 2 == x / 2 + h && z % 2 == x % 2;
    }
  }

  lemma {:induction false} TwiceThat(k: nat, y: nat)
    requires k > 0
    ensures Pow2(k) * y == 2 * (Pow2(k - 1) * y) && Pow2(k - 1) * y >= 0
  {
    PowDouble(k - 1);
    hide Pow2;
    assert (2 * Pow2(k - 1)) * y == 2 * (Pow2(k - 1) * y);
  }

  /** An end from which rounding up to a multiple of a fails, at least n bytes in. */
  lemma {:induction false} BadEnd(n: nat, a: nat) returns (k: nat)
    requires a > 0 && !IsPow2(a)
    ensures AlignUp(n + k, a) % a != 0
  {
    BelowPow2(a);
    LowestBit(a);
    hide IsPow2, BitAndNot, Pow2;
    var y := (n + 1) * a;
    var high := Pow2(a) * y;
    HighBitsStay(a, y, a - 1, a);
    FarOut(Pow2(a), n, a, BitAndNot(a, a - 1));
    k := 1 + high - n;
    assert n + k + a - 1 == a + high;
  }

  lemma {:induction false} FarOut(p: nat, n: nat, a: nat, b: nat)
    requires p > 0 && 0 < b < a
    ensures p * ((n + 1) * a) >= n && (b + p * ((n + 1) * a)) % a != 0
  {
    MulMonotone(1, p, n + 1);
    MulMonotone(1, a, p * (n + 1));
    assert p * ((n + 1) * a) == (p * (n + 1)) * a;
    ModShift(b, p * (n + 1), a);
    SmallMod(b, a);
  }

  lemma {:induction false} BelowPow2(a: nat)
    ensures a < Pow2(a)
  {
    if a > 0 {
      BelowPow2(a - 1);
    }
  }

  /** Each field ends before the next begins. */
  lemma {:induction false} FieldsInOrder(t: Type, i: nat)
    requires t.Struct? && i < |t.fields|
    ensures FieldsEnd(t, i) <= FieldOffset(t, i)
    ensures FieldOffset(t, i) + Size(t.fields[i]) == FieldsEnd(t, i + 1)
  {
    AlignUpAtLeast(FieldsEnd(t, i), Align(t.fields[i]));
  }

  lemma {:induction false} EndsGrow(t: Type, i: nat, j: nat)
    requires t.Struct? && i <= j <= |t.fields|
    ensures FieldsEnd(t, i) <= FieldsEnd(t, j)
    decreases j
  {
    if i < j {
      EndsGrow(t, i, j - 1);
      FieldsInOrder(t, j - 1);
    }
  }

  lemma {:induction false} FieldInside(t: Type, i: nat)
    requires t.Struct? && i < |t.fields|
    ensures FieldsEnd(t, |t.fields|) <= Size(t)
    ensures FieldOffset(t, i) + Size(t.fields[i]) <= Size(t)
  {
    FieldsInOrder(t, i);
    EndsGrow(t, i + 1, |t.fields|);
    AlignUpAtLeast(FieldsEnd(t, |t.fields|), Align(t));
  }

  // ---------------------------------------------------------------------------
  // Nothing is larger than it has to be

  predicate IsBasic(t: Type) {
    !(t.Void? || t.Array? || t.Vector? || t.Struct? || t.Func?)
  }

  /** Bits of a value: the widths of LLVM's integers, of the formats of IEEE 754-2019, of the
      x87 format and of an address. */
  function ValueBits(t: Type): nat
    requires IsBasic(t)
  {
    match t
    case I1 => 1
    case I8 => 8
    case I16 => 16
    case I32 => 32
    case I64 => 64
    case Float => 32
    case Double => 64
    case X86Fp80 => 80
    case Fp128 => 128
    case Ptr => 64
  }

  /** A basic type takes the least power of two of bytes that holds its value, and is aligned to
      its size. */
  lemma {:induction false} BasicLayout(t: Type)
    requires IsBasic(t)
    ensures Align(t) == Size(t) && IsPow2(Size(t)) && ValueBits(t) <= 8 * Size(t)
    ensures forall s: nat :: IsPow2(s) && ValueBits(t) <= 8 * s ==> Size(t) <= s
  {
    assert IsPow2(1) && IsPow2(2) && IsPow2(4);
    assert IsPow2(8);
    assert IsPow2(16);
    forall s: nat | IsPow2(s) && s < 16
      ensures s == 1 || s == 2 || s == 4 || s == 8
    {
      assert s > 1 ==> IsPow2(s / 2);
      assert s > 3 ==> IsPow2(s / 4);
      assert s > 7 ==> IsPow2(s / 8);
    }
  }

  /** Where the fields before field k end. */
  function EndBefore(t: Type, k: nat): nat
    requires t.Struct? && k <= |t.fields|
  {
    if k == 0 then 0 else FieldOffset(t, k - 1) + Size(t.fields[k - 1])
  }

  /** Fields are as close as their alignment allows: a packed field starts where the one before
      ends, any other at the first multiple of its alignment from there on. */
  lemma {:induction false} FieldsTight(t: Type, k: nat)
    requires t.Struct? && k < |t.fields|
    ensures t.packed ==> FieldOffset(t, k) == EndBefore(t, k)
    ensures EndBefore(t, k) <= FieldOffset(t, k) < EndBefore(t, k) + Align(t.fields[k])
    ensures !t.packed && IsPow2(Align(t.fields[k])) ==> FieldOffset(t, k) % Align(t.fields[k]) == 0
  {
    hide AlignUp, Size, Align, IsPow2;
    if k > 0 {
      FieldsInOrder(t, k - 1);
    }
    AlignUpAtLeast(FieldsEnd(t, k), Align(t.fields[k]));
    if IsPow2(Align(t.fields[k])) {
      AlignUpRounds(FieldsEnd(t, k), Align(t.fields[k]));
    }
  }

  /** A struct ends with its last field, up to the next multiple of its alignment; that is 1 if
      it is packed, and otherwise the largest of its fields' alignments.  The end of the last
      field is also the offset of fields that do not exist. */
  lemma {:induction false} StructTight(t: Type)
    requires t.Struct?
    ensures EndBefore(t, |t.fields|) <= Size(t) < EndBefore(t, |t.fields|) + Align(t)
    ensures t.packed || t.fields == [] ==> Align(t) == 1
    ensures !t.packed ==> forall i :: 0 <= i < |t.fields| ==> Align(t.fields[i]) <= Align(t)
    ensures Align(t) > 1 ==> exists i :: 0 <= i < |t.fields| && Align(t.fields[i]) == Align(t)
    ensures forall k: nat :: |t.fields| <= k ==> FieldOffset(t, k) == EndBefore(t, |t.fields|)
  {
    hide AlignUp;
    var n := |t.fields|;
    if n > 0 {
      FieldsInOrder(t, n - 1);
    }
    assert FieldsEnd(t, n) == EndBefore(t, n);
    AlignUpAtLeast(FieldsEnd(t, n), Align(t));
    if !t.packed {
      forall i | 0 <= i < n ensures Align(t.fields[i]) <= MaxAlign(t, n) {
        AlignAtMost(t, n, i);
      }
      LargestAlign(t, n);
    }
  }

  lemma {:induction false} LargestAlign(t: Type, k: nat)
    requires t.Struct? && k <= |t.fields|
    ensures MaxAlign(t, k) > 1 ==> exists i :: 0 <= i < k && Align(t.fields[i]) == MaxAlign(t, k)
    decreases k
  {
    hide Align;
    if k > 0 {
      LargestAlign(t, k - 1);
    }
  }

  // ---------------------------------------------------------------------------
  // Index paths

  /** One step of a path: the offset of the selected part and its type. */
  function Select(t: Type, idx: nat): Option<(nat, Type)> {
    match t
    case Struct(fields, _) => if idx < |fields| then Some((FieldOffset(t, idx), fields[idx])) else None
    case Array(elem, count) => if idx < count then Some((idx * Size(elem), elem)) else None
    case Vector(elem, count) => if idx < count then Some((idx * Size(elem), elem)) else None
    case _ => None
  }

  /** Elements follow each other without gaps, from the start of the array or vector to its end. */
  lemma {:induction false} ElementsTight(t: Type, i: nat)
    requires (t.Array? || t.Vector?) && i < t.count
    ensures Select(t, i).Some? && Select(t, i).value.1 == t.elem
    ensures var off := Select(t, i).value.0;
      && (i == 0 ==> off == 0)
      && (i > 0 ==> Select(t, i - 1).Some? && off == Select(t, i - 1).value.0 + Size(t.elem))
      && (i == t.count - 1 ==> off + Size(t.elem) == Size(t))
  {
    SizeOfElements(t);
    hide Size;
    NextMultiple(i, Size(t.elem));
    if i > 0 {
      NextMultiple(i - 1, Size(t.elem));
    }
  }

  /** An array is aligned as its elements, a vector also to its size. */
  lemma {:induction false} ElementsAligned(t: Type)
    requires t.Array? || t.Vector?
    ensures t.Array? ==> Align(t) == Align(t.elem)
    ensures t.Vector? ==>
      && Align(t.elem) <= Align(t) && Size(t) <= Align(t)
      && (Align(t) == Align(t.elem) || Align(t) == Size(t))
  {
    hide AlignUp, FieldsEnd;
  }

  lemma {:induction false} SizeOfElements(t: Type)
    requires t.Array? || t.Vector?
    ensures Size(t) == Size(t.elem) * t.count
  {
    hide Align, AlignUp, FieldsEnd;
  }

  lemma {:induction false} NextMultiple(i: nat, s: nat)
    ensures i * s + s == s * (i + 1) == (i + 1) * s && 0 * s == 0
  {
  }

  /** lr_aggregate_index_path: byte offset and type of the part a path names. */
  function IndexPath(t: Type, path: seq<nat>): Option<(nat, Type)>
    decreases |path|
  {
    if path == [] then Some((0, t))
    else
      match Select(t, path[0])
      case None => None
      case Some(step) =>
        match IndexPath(step.1, path[1..])
        case None => None
        case Some(rest) => Some((step.0 + rest.0, rest.1))
  }

  lemma {:induction false} IndexPathAppend(t: Type, path: seq<nat>, idx: nat)
    ensures IndexPath(t, path + [idx]) ==
      match IndexPath(t, path)
      case None => None
      case Some(at) =>
        match Select(at.1, idx)
        case None => None
        case Some(step) => Some((at.0 + step.0, step.1))
    decreases |path|
  {
    if path == [] {
      assert ([] + [idx])[1..] == [];
      assert path + [idx] == [idx];
    } else {
      assert (path + [idx])[1..] == path[1..] + [idx];
      if Select(t, path[0]).Some? {
        IndexPathAppend(Select(t, path[0]).value.1, path[1..], idx);
      }
    }
  }

  lemma {:induction false} IndexPathPrefix(t: Type, path: seq<nat>, k: nat)
    requires k <= |path| && IndexPath(t, path).Some?
    ensures IndexPath(t, path[..k]).Some?
    decreases |path|
  {
    if k > 0 {
      assert path[..k][1..] == path[1..][..k - 1];
      IndexPathPrefix(Select(t, path[0]).value.1, path[1..], k - 1);
    }
  }

  method AggregateIndexPath(base: Type, indices: seq<nat>) returns (r: Option<(nat, Type)>)
    ensures r == IndexPath(base, indices)
  {
    var off, cur := 0, base;
    for i := 0 to |indices|
      invariant IndexPath(base, indices[..i]) == Some((off, cur))
    {
      assert indices[..i + 1] == indices[..i] + [indices[i]];
      IndexPathAppend(base, indices[..i], indices[i]);
      ghost var before := indices[..i + 1];
      if Select(cur, indices[i]).None? && IndexPath(base, indices).Some? {
        IndexPathPrefix(base, indices, i + 1);
      }
      match cur {
        case Struct(fields, _) =>
          if indices[i] >= |fields| {
            return None;
          }
          var fieldOff := StructFieldOffset(cur, indices[i]);
          off, cur := off + fieldOff, fields[indices[i]];
        case Array(elem, count) =>
          if indices[i] >= count {
            return None;
          }
          var size := TypeSize(elem);
          off, cur := off + indices[i] * size, elem;
        case Vector(elem, count) =>
          if indices[i] >= count {
            return None;
          }
          var size := TypeSize(elem);
          off, cur := off + indices[i] * size, elem;
        case _ =>
          return None;
      }
    }
    assert indices[..|indices|] == indices;
    return Some((off, cur));
  }

  lemma {:induction false} Spaced(i: nat, j: nat, size: nat)
    requires i < j
    ensures i * size + size <= j * size && size * j == j * size
  {
    MulMonotone(i + 1, j, size);
    assert (i + 1) * size == i * size + size;
  }

  lemma {:induction false} SelectInside(t: Type, idx: nat)
    requires Select(t, idx).Some?
    ensures var step := Select(t, idx).value;
      step.0 + Size(step.1) <= Size(t) && step.1 < t
  {
    match t
    case Struct(fields, _) => FieldInside(t, idx);
    case Array(elem, count) => Spaced(idx, count, Size(elem));
    case Vector(elem, count) => Spaced(idx, count, Size(elem));
  }

  /** What a path names lies inside the base. */
  lemma {:induction false} PathInside(t: Type, path: seq<nat>)
    requires IndexPath(t, path).Some?
    ensures var at := IndexPath(t, path).value; at.0 + Size(at.1) <= Size(t)
    decreases |path|
  {
    if path != [] {
      SelectInside(t, path[0]);
      PathInside(Select(t, path[0]).value.1, path[1..]);
    }
  }

  lemma {:induction false} SelectDisjoint(t: Type, i: nat, j: nat)
    requires i < j && Select(t, i).Some? && Select(t, j).Some?
    ensures Select(t, i).value.0 + Size(Select(t, i).value.1) <= Select(t, j).value.0
  {
    match t
    case Struct(fields, _) =>
      FieldsInOrder(t, i);
      EndsGrow(t, i + 1, j);
      FieldsInOrder(t, j);
    case Array(elem, count) => Spaced(i, j, Size(elem));
    case Vector(elem, count) => Spaced(i, j, Size(elem));
  }

  predicate Disjoint(x: (nat, Type), y: (nat, Type)) {
    x.0 + Size(x.1) <= y.0 || y.0 + Size(y.1) <= x.0
  }

  /** Paths of which neither is a prefix of the other name disjoint bytes. */
  lemma {:induction false} PathsDisjoint(t: Type, p: seq<nat>, q: seq<nat>)
    requires IndexPath(t, p).Some? && IndexPath(t, q).Some?
    requires !(p <= q) && !(q <= p)
    ensures Disjoint(IndexPath(t, p).value, IndexPath(t, q).value)
    decreases |p|
  {
    assert p != [] && q != [];
    var x, y := Select(t, p[0]).value, Select(t, q[0]).value;
    SelectInside(t, p[0]);
    SelectInside(t, q[0]);
    if p[0] == q[0] {
      assert p == [p[0]] + p[1..] && q == [q[0]] + q[1..];
      PathsDisjoint(x.1, p[1..], q[1..]);
    } else {
      PathInside(x.1, p[1..]);
      PathInside(y.1, q[1..]);
      if p[0] < q[0] {
        SelectDisjoint(t, p[0], q[0]);
      } else {
        SelectDisjoint(t, q[0], p[0]);
      }
    }
  }

  /** A vector of three i32 has alignment 12: a field of that type is put at offset 4, and
      the struct's size is not a multiple of its alignment. */
  lemma {:induction false} OddVectorMisplaced()
    ensures var v := Vector(I32, 3); var s := Struct([I8, v], false);
      Align(v) == 12 && FieldOffset(s, 1) == 4 && FieldOffset(s, 1) % Align(v) != 0
      && Size(s) == 16 && Size(s) % Align(s) != 0
  {
    hide BitAndNot;
    var v := Vector(I32, 3);
    var s := Struct([I8, v], false);
    TwelveIsOdd();
    assert Align(v) == 12 && Size(v) == 12;
    assert MaxAlign(s, 0) == 1;
    assert MaxAlign(s, 1) == 1;
    assert Align(s) == 12;
    assert FieldsEnd(s, 0) == 0;
    assert FieldsEnd(s, 1) == 1;
    assert FieldsEnd(s, 2) == 16;
  }

  lemma {:induction false} TwelveIsOdd()
    ensures AlignUp(0, 1) == 0 && AlignUp(1, 12) == 4 && AlignUp(16, 12) == 16
  {
    assert BitAndNot(0, 1) == 0 && BitAndNot(1, 0) == 1;
    assert BitAndNot(1, 1) == 0;
    assert BitAndNot(3, 2) == 1;
    assert BitAndNot(6, 5) == 2;
    assert BitAndNot(12, 11) == 4;
    assert BitAndNot(3, 1) == 2;
    assert BitAndNot(6, 2) == 4;
    assert BitAndNot(13, 5) == 8;
    assert BitAndNot(27, 11) == 16;
  }
}
