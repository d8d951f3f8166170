/**
 What printing forgets of a constant's bytes: everything but the last bit of an i1, and the
 padding of structs.
 */
module InitClean {
  import opened Numbers
  import opened Types
  import opened Layout
  import opened InitText

  /** Byte k of the constant at off after a round trip. */
  function CleanByte(t: Type, img: Image, off: nat, k: nat): Byte
    requires off + Size(t) <= |img| && k < Size(t)
    decreases t, 1, 0
  {
    match t
    case I1 => img[off] % 2
    case Array(elem, count) => ElementByte(t, img, off, k)
    case Vector(elem, count) => ElementByte(t, img, off, k)
    case Struct(_, _) => FieldByte(t, img, off, k, 0)
    case _ => img[off + k]
  }

  /** The element that byte k lies in, and the byte of that element. */
  function ElementAt(t: Type, k: nat): nat
    requires t.Array? || t.Vector?
  {
    if Size(t.elem) == 0 then 0 else k / Size(t.elem)
  }

  function ByteAt(t: Type, k: nat): nat
    requires t.Array? || t.Vector?
  {
    if Size(t.elem) == 0 then 0 else k % Size(t.elem)
  }

  lemma {:induction false} ElementOf(t: Type, k: nat)
    requires (t.Array? || t.Vector?) && k < Size(t)
    ensures ElementAt(t, k) < t.count && ByteAt(t, k) < Size(t.elem)
    ensures ElementOffset(t.elem, ElementAt(t, k)) + ByteAt(t, k) == k
    ensures ElementOffset(t.elem, ElementAt(t, k)) + Size(t.elem) <= Size(t)
  {
    hide Size, ElementOffset;
    ProductSize(t);
    InElements(k, Size(t.elem), t.count);
    OffsetIs(t.elem, ElementAt(t, k));
  }

  lemma {:induction false} OffsetIs(elem: Type, i: nat)
    ensures ElementOffset(elem, i) == i * Size(elem)
  {
  }

  lemma {:induction false} InElements(k: nat, n: nat, count: nat)
    requires k < n * count
    ensures n > 0 && k / n < count && (k / n) * n + k % n == k
    ensures (k / n) * n + n <= n * count
  {
    if n > 0 && k / n >= count {
      MulMonotone(count, k / n, n);
    }
    if n > 0 {
      MulMonotone(k / n + 1, count, n);
      assert (k / n + 1) * n == (k / n) * n + n;
    }
  }

  lemma {:induction false} ProductSize(t: Type)
    requires t.Array? || t.Vector?
    ensures Size(t) == Size(t.elem) * t.count
  {
  }

  function ElementByte(t: Type, img: Image, off: nat, k: nat): Byte
    requires (t.Array? || t.Vector?) && off + Size(t) <= |img| && k < Size(t)
    decreases t, 0, 0
  {
    ElementOf(t, k);
    CleanByte(t.elem, img, off + ElementOffset(t.elem, ElementAt(t, k)), ByteAt(t, k))
  }

  /** The byte of the field, from field i on, that k lies in; padding is 0. */
  function FieldByte(t: Type, img: Image, off: nat, k: nat, i: nat): Byte
    requires t.Struct? && off + Size(t) <= |img|
    decreases t, 0, |t.fields| - i
  {
    if i >= |t.fields| then 0
    else
      FieldInside(t, i);
      if FieldOffset(t, i) <= k < FieldOffset(t, i) + Size(t.fields[i])
      then CleanByte(t.fields[i], img, off + FieldOffset(t, i), k - FieldOffset(t, i))
      else FieldByte(t, img, off, k, i + 1)
  }

  /** c holds, at off, what is left of img there. */
  ghost predicate Holds(t: Type, img: Image, off: nat, c: Image) {
    && off + Size(t) <= |img| == |c|
    && forall k: nat :: k < Size(t) ==> c[off + k] == CleanByte(t, img, off, k)
  }

  /** Bytes of i1 are 0 or 1, and bytes that belong to no field are 0. */
  predicate Canonical(t: Type, img: Image, off: nat)
    decreases t
  {
    off + Size(t) <= |img| &&
    match t
    case I1 => img[off] <= 1
    case Array(elem, count) => forall i: nat :: i < count ==> Canonical(elem, img, off + ElementOffset(elem, i))
    case Vector(elem, count) => forall i: nat :: i < count ==> Canonical(elem, img, off + ElementOffset(elem, i))
    case Struct(fields, _) =>
      && (forall i: nat :: i < |fields| ==> Canonical(fields[i], img, off + FieldOffset(t, i)))
      && (forall i: nat :: i < |fields| ==> ZeroRange(img, off + FieldsEnd(t, i), off + FieldOffset(t, i)))
      && ZeroRange(img, off + FieldsEnd(t, |fields|), off + Size(t))
    case _ => true
  }

  // ---------------------------------------------------------------------------
  // The parts of what is left

  lemma {:induction false} ElementHolds(t: Type, img: Image, off: nat, c: Image, i: nat)
    requires (t.Array? || t.Vector?) && i < t.count && Holds(t, img, off, c)
    ensures off + ElementOffset(t.elem, i) + Size(t.elem) <= off + Size(t)
    ensures Holds(t.elem, img, off + ElementOffset(t.elem, i), c)
  {
    hide Size, ElementOffset, ElementAt, ByteAt;
    ElementInside(t, i);
    var at := ElementOffset(t.elem, i);
    var here := off + at;
    forall k: nat | k < Size(t.elem)
      ensures c[here + k] == CleanByte(t.elem, img, here, k)
    {
      ElementSplit(t, i, k);
      assert c[off + (at + k)] == CleanByte(t, img, off, at + k);
      assert CleanByte(t, img, off, at + k) == ElementByte(t, img, off, at + k);
    }
  }

  lemma {:induction false} ElementSplit(t: Type, i: nat, k: nat)
    requires (t.Array? || t.Vector?) && k < Size(t.elem)
    ensures ElementAt(t, ElementOffset(t.elem, i) + k) == i && ByteAt(t, ElementOffset(t.elem, i) + k) == k
  {
    hide Size;
    DivModUnique(i * Size(t.elem) + k, Size(t.elem), i, k);
  }

  lemma {:induction false} FieldFound(t: Type, img: Image, off: nat, k: nat, i: nat, j: nat)
    requires t.Struct? && off + Size(t) <= |img| && j <= i < |t.fields|
    requires FieldOffset(t, i) <= k < FieldOffset(t, i) + Size(t.fields[i])
    ensures FieldByte(t, img, off, k, j) == FieldByte(t, img, off, k, i)
    decreases i - j
  {
    hide Size, FieldOffset, FieldsEnd, CleanByte;
    if j < i {
      FieldsInOrder(t, j);
      FieldsInOrder(t, i);
      EndsGrow(t, j + 1, i);
      FieldFound(t, img, off, k, i, j + 1);
    }
  }

  /** Nothing from field i on reaches down to a byte before it. */
  lemma {:induction false} NotLater(t: Type, img: Image, off: nat, k: nat, i: nat)
    requires t.Struct? && off + Size(t) <= |img| && i <= |t.fields|
    requires i < |t.fields| ==> k < FieldOffset(t, i)
    ensures FieldByte(t, img, off, k, i) == 0
    decreases |t.fields| - i
  {
    hide Size, FieldOffset, FieldsEnd, CleanByte;
    if i < |t.fields| {
      FieldsInOrder(t, i);
      if i + 1 < |t.fields| {
        FieldsInOrder(t, i + 1);
      }
      NotLater(t, img, off, k, i + 1);
    }
  }

  /** Nor does anything before field i reach up to a byte behind it. */
  lemma {:induction false} NotEarlier(t: Type, img: Image, off: nat, k: nat, i: nat, j: nat)
    requires t.Struct? && off + Size(t) <= |img| && j <= i <= |t.fields| && FieldsEnd(t, i) <= k
    ensures FieldByte(t, img, off, k, j) == FieldByte(t, img, off, k, i)
    decreases i - j
  {
    hide Size, FieldOffset, FieldsEnd, CleanByte;
    if j < i {
      FieldsInOrder(t, j);
      EndsGrow(t, j + 1, i);
      NotEarlier(t, img, off, k, i, j + 1);
    }
  }

  lemma {:induction false} FieldHolds(t: Type, img: Image, off: nat, c: Image, i: nat)
    requires t.Struct? && i < |t.fields| && Holds(t, img, off, c)
    ensures Holds(t.fields[i], img, off + FieldOffset(t, i), c)
  {
    hide Size, FieldOffset, FieldsEnd;
    FieldInside(t, i);
    var at := FieldOffset(t, i);
    var here := off + at;
    forall k: nat | k < Size(t.fields[i])
      ensures c[here + k] == CleanByte(t.fields[i], img, here, k)
    {
      FieldFound(t, img, off, at + k, i, 0);
      assert c[off + (at + k)] == CleanByte(t, img, off, at + k);
    }
  }

  lemma {:induction false} GapHolds(t: Type, img: Image, off: nat, c: Image, i: nat)
    requires t.Struct? && i <= |t.fields| && Holds(t, img, off, c)
    ensures ZeroRange(c, off + FieldsEnd(t, i), off + if i < |t.fields| then FieldOffset(t, i) else Size(t))
  {
    hide Size, FieldOffset, FieldsEnd;
    if i < |t.fields| {
      FieldInside(t, i);
    }
    var end := if i < |t.fields| then FieldOffset(t, i) else Size(t);
    forall k | off + FieldsEnd(t, i) <= k < off + end
      ensures c[k] == 0
    {
      NotEarlier(t, img, off, k - off, i, 0);
      NotLater(t, img, off, k - off, i);
      assert c[off + (k - off)] == CleanByte(t, img, off, k - off);
    }
  }

  /** A zero byte stays zero. */
  lemma {:induction false} ZeroByte(t: Type, img: Image, off: nat, k: nat)
    requires off + Size(t) <= |img| && k < Size(t) && img[off + k] == 0
    ensures CleanByte(t, img, off, k) == 0
    decreases t, 1, 0
  {
    if t.Array? || t.Vector? {
      ZeroElement(t, img, off, k);
    } else if t.Struct? {
      ZeroField(t, img, off, k, 0);
    }
  }

  lemma {:induction false} ZeroElement(t: Type, img: Image, off: nat, k: nat)
    requires (t.Array? || t.Vector?) && off + Size(t) <= |img| && k < Size(t) && img[off + k] == 0
    ensures ElementByte(t, img, off, k) == 0
    decreases t, 0, 0
  {
    hide Size, ElementOffset, ElementAt, ByteAt, CleanByte;
    ElementOf(t, k);
    var at := off + ElementOffset(t.elem, ElementAt(t, k));
    assert at + ByteAt(t, k) == off + k;
    ZeroByte(t.elem, img, at, ByteAt(t, k));
  }

  lemma {:induction false} ZeroField(t: Type, img: Image, off: nat, k: nat, i: nat)
    requires t.Struct? && off + Size(t) <= |img| && k < Size(t) && img[off + k] == 0
    ensures FieldByte(t, img, off, k, i) == 0
    decreases t, 0, |t.fields| - i
  {
    hide Size, FieldOffset, CleanByte;
    if i < |t.fields| {
      FieldInside(t, i);
      if FieldOffset(t, i) <= k < FieldOffset(t, i) + Size(t.fields[i]) {
        var at := off + FieldOffset(t, i);
        assert img[at + (k - FieldOffset(t, i))] == img[off + k];
        ZeroByte(t.fields[i], img, at, k - FieldOffset(t, i));
      } else {
        ZeroField(t, img, off, k, i + 1);
      }
    }
  }

  lemma {:induction false} ZeroHolds(t: Type, img: Image, off: nat, c: Image)
    requires Holds(t, img, off, c) && ZeroRange(img, off, off + Size(t))
    ensures ZeroRange(c, off, off + Size(t))
  {
    hide Size, CleanByte;
    forall k | off <= k < off + Size(t)
      ensures c[k] == 0
    {
      assert img[off + (k - off)] == 0;
      ZeroByte(t, img, off, k - off);
      assert c[off + (k - off)] == CleanByte(t, img, off, k - off);
    }
  }

  // ---------------------------------------------------------------------------
  // Images that lose nothing

  lemma {:induction false} CanonicalByte(t: Type, img: Image, off: nat, k: nat)
    requires Canonical(t, img, off) && k < Size(t)
    ensures CleanByte(t, img, off, k) == img[off + k]
    decreases t, 1, 0
  {
    if t.Array? || t.Vector? {
      CanonicalElement(t, img, off, k);
    } else if t.Struct? {
      CanonicalField(t, img, off, k, 0);
    }
  }

  lemma {:induction false} CanonicalElement(t: Type, img: Image, off: nat, k: nat)
    requires (t.Array? || t.Vector?) && Canonical(t, img, off) && k < Size(t)
    ensures ElementByte(t, img, off, k) == img[off + k]
    decreases t, 0, 0
  {
    hide Size, ElementOffset, ElementAt, ByteAt, CleanByte;
    ElementOf(t, k);
    var at := off + ElementOffset(t.elem, ElementAt(t, k));
    assert at + ByteAt(t, k) == off + k;
    CanonicalByte(t.elem, img, at, ByteAt(t, k));
  }

  lemma {:induction false} CanonicalField(t: Type, img: Image, off: nat, k: nat, i: nat)
    requires t.Struct? && Canonical(t, img, off) && i <= |t.fields| && FieldsEnd(t, i) <= k < Size(t)
    ensures FieldByte(t, img, off, k, i) == img[off + k]
    decreases t, 0, |t.fields| - i
  {
    hide Size, FieldOffset, FieldsEnd, CleanByte;
    if i == |t.fields| {
      assert off + FieldsEnd(t, i) <= off + k;
    } else {
      FieldInside(t, i);
      FieldsInOrder(t, i);
      if k < FieldOffset(t, i) {
        NotLater(t, img, off, k, i);
        assert ZeroRange(img, off + FieldsEnd(t, i), off + FieldOffset(t, i));
        assert off + FieldsEnd(t, i) <= off + k < off + FieldOffset(t, i);
      } else if k < FieldOffset(t, i) + Size(t.fields[i]) {
        var at := off + FieldOffset(t, i);
        CanonicalByte(t.fields[i], img, at, k - FieldOffset(t, i));
        assert img[at + (k - FieldOffset(t, i))] == img[off + k];
      } else {
        CanonicalField(t, img, off, k, i + 1);
      }
    }
  }

  lemma {:induction false} HoldsItself(t: Type, img: Image, off: nat)
    requires Holds(t, img, off, img)
    ensures Canonical(t, img, off)
    decreases t, 1
  {
    HoldsInside(t, img, off);
    if t.Array? || t.Vector? {
      hide Size, ElementOffset, Holds;
      forall i: nat | i < t.count
        ensures Canonical(t.elem, img, off + ElementOffset(t.elem, i))
      {
        ElementHolds(t, img, off, img, i);
        HoldsItself(t.elem, img, off + ElementOffset(t.elem, i));
      }
    } else if t.Struct? {
      StructHoldsItself(t, img, off);
    } else if t.I1? {
      assert img[off + 0] == CleanByte(t, img, off, 0);
    }
  }

  lemma {:induction false} StructHoldsItself(t: Type, img: Image, off: nat)
    requires t.Struct? && off + Size(t) <= |img| && Holds(t, img, off, img)
    ensures Canonical(t, img, off)
    decreases t, 0
  {
    hide Size, FieldOffset, FieldsEnd, Holds, ZeroRange;
    forall i: nat | i < |t.fields|
      ensures Canonical(t.fields[i], img, off + FieldOffset(t, i))
    {
      FieldHolds(t, img, off, img, i);
      HoldsItself(t.fields[i], img, off + FieldOffset(t, i));
    }
    forall i: nat | i < |t.fields|
      ensures ZeroRange(img, off + FieldsEnd(t, i), off + FieldOffset(t, i))
    {
      GapHolds(t, img, off, img, i);
    }
    GapHolds(t, img, off, img, |t.fields|);
  }

  lemma {:induction false} HoldsInside(t: Type, img: Image, off: nat)
    requires Holds(t, img, off, img)
    ensures off + Size(t) <= |img|
  {
  }

  /** A round trip keeps exactly the canonical images. */
  lemma {:induction false} CanonicalIff(t: Type, img: Image, off: nat)
    requires off + Size(t) <= |img|
    ensures Canonical(t, img, off) <==> Holds(t, img, off, img)
  {
    hide Size, CleanByte, Canonical;
    if Canonical(t, img, off) {
      forall k: nat | k < Size(t)
        ensures img[off + k] == CleanByte(t, img, off, k)
      {
        CanonicalByte(t, img, off, k);
      }
    }
    if Holds(t, img, off, img) {
      HoldsItself(t, img, off);
    }
  }
}
