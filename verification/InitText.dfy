/**
 Initializers of globals as text: the bytes of a constant are printed as a nested literal and
 parsed back into a zeroed buffer.
 */
module InitText {
  import opened Wrappers
  import opened Numbers
  import opened ByteOrder
  import opened Types
  import opened Layout
  import opened Lexer
  import opened TypeText
  import opened TypeLex

  type Image = seq<Byte>

  lemma {:induction false} ElementInside(t: Type, i: nat)
    requires (t.Array? || t.Vector?) && i < t.count
    ensures ElementOffset(t.elem, i) + Size(t.elem) <= Size(t)
    ensures ElementOffset(t.elem, i + 1) == ElementOffset(t.elem, i) + Size(t.elem)
    ensures ElementOffset(t.elem, t.count) == Size(t) && ElementOffset(t.elem, 0) == 0
  {
    Spaced(i, t.count, Size(t.elem));
  }

  // ---------------------------------------------------------------------------
  // Printing

  predicate IsInteger(t: Type) {
    t.I1? || t.I8? || t.I16? || t.I32? || t.I64?
  }

  /** Built from integers, arrays, vectors and structs. */
  predicate IntegerBased(t: Type) {
    match t
    case Array(elem, _) => IntegerBased(elem)
    case Vector(elem, _) => IntegerBased(elem)
    case Struct(fields, _) => forall i :: 0 <= i < |fields| ==> IntegerBased(fields[i])
    case _ => IsInteger(t)
  }

  /** The bytes from a to b are zero. */
  predicate ZeroRange(img: Image, a: nat, b: nat) {
    b <= |img| && forall k :: a <= k < b ==> img[k] == 0
  }

  /** Where element i is. */
  function ElementOffset(elem: Type, i: nat): nat {
    i * Size(elem)
  }

  /** sign_extend_u64 */
  function SignExtend(raw: nat, n: nat): int {
    if raw % Pow2(8 * n) >= Pow2(8 * n) / 2 then raw % Pow2(8 * n) - Pow2(8 * n) else raw % Pow2(8 * n)
  }

  /** dump_global_scalar_expr: the number printed for an integer. */
  function Number(t: Type, img: Image, off: nat): int
    requires IsInteger(t) && off + Size(t) <= |img|
  {
    var raw := LittleEndian(img[off..off + Size(t)]);
    if t.I1? then raw % 2 else SignExtend(raw, Size(t))
  }

  /** dump_global_const_expr without the leading type. */
  function ConstText(t: Type, img: Image, off: nat): string
    requires IntegerBased(t) && off + Size(t) <= |img|
    decreases t, 1
  {
    match t
    case Array(elem, count) =>
      if ZeroRange(img, off, off + Size(t)) then "zeroinitializer" else "[" + (ElementsText(t, img, off, 0) + "]")
    case Vector(elem, count) =>
      if ZeroRange(img, off, off + Size(t)) then "zeroinitializer" else "<" + (ElementsText(t, img, off, 0) + ">")
    case Struct(fields, packed) =>
      if ZeroRange(img, off, off + Size(t)) then "zeroinitializer"
      else if packed then "<" + ("{" + (" " + (FieldsText(t, img, off, 0) + (" " + ("}" + ">")))))
      else "{" + (" " + (FieldsText(t, img, off, 0) + (" " + "}")))
    case _ => Signed(Number(t, img, off))
  }

  function TypedText(t: Type, img: Image, off: nat): string
    requires IntegerBased(t) && off + Size(t) <= |img|
    decreases t, 2
  {
    Text(t) + (" " + ConstText(t, img, off))
  }

  function ElementsText(t: Type, img: Image, off: nat, i: nat): string
    requires (t.Array? || t.Vector?) && IntegerBased(t) && off + Size(t) <= |img|
    decreases t, 0, t.count - i
  {
    if i >= t.count then ""
    else
      ElementInside(t, i);
      TypedText(t.elem, img, off + ElementOffset(t.elem, i))
      + (if i + 1 < t.count then "," + (" " + ElementsText(t, img, off, i + 1)) else "")
  }

  function FieldsText(t: Type, img: Image, off: nat, i: nat): string
    requires t.Struct? && IntegerBased(t) && off + Size(t) <= |img|
    decreases t, 0, |t.fields| - i
  {
    if i >= |t.fields| then ""
    else
      FieldInside(t, i);
      TypedText(t.fields[i], img, off + FieldOffset(t, i))
      + (if i + 1 < |t.fields| then "," + (" " + FieldsText(t, img, off, i + 1)) else "")
  }

  // ---------------------------------------------------------------------------
  // The tokens printed

  const ZERO: Token := Word("zeroinitializer")

  function ConstTokens(t: Type, img: Image, off: nat): (r: seq<Token>)
    requires IntegerBased(t) && off + Size(t) <= |img|
    ensures r != [] && (r[0].IntLit? || r[0] == ZERO || r[0] == Punct('[') || r[0] == Punct('<') || r[0] == Punct('{'))
    decreases t, 1
  {
    match t
    case Array(elem, count) =>
      if ZeroRange(img, off, off + Size(t)) then [ZERO]
      else [Punct('[')] + (ElementsTokens(t, img, off, 0) + [Punct(']')])
    case Vector(elem, count) =>
      if ZeroRange(img, off, off + Size(t)) then [ZERO]
      else [Punct('<')] + (ElementsTokens(t, img, off, 0) + [Punct('>')])
    case Struct(fields, packed) =>
      if ZeroRange(img, off, off + Size(t)) then [ZERO]
      else if packed then
        [Punct('<')] + ([Punct('{')] + (FieldsTokens(t, img, off, 0) + ([Punct('}')] + [Punct('>')])))
      else [Punct('{')] + (FieldsTokens(t, img, off, 0) + [Punct('}')])
    case _ => [IntLit(Number(t, img, off))]
  }

  function TypedTokens(t: Type, img: Image, off: nat): seq<Token>
    requires IntegerBased(t) && off + Size(t) <= |img|
    decreases t, 2
  {
    TypeTokens(t) + ConstTokens(t, img, off)
  }

  function ElementsTokens(t: Type, img: Image, off: nat, i: nat): seq<Token>
    requires (t.Array? || t.Vector?) && IntegerBased(t) && off + Size(t) <= |img|
    decreases t, 0, t.count - i
  {
    if i >= t.count then []
    else
      ElementInside(t, i);
      TypedTokens(t.elem, img, off + ElementOffset(t.elem, i))
      + (if i + 1 < t.count then [Punct(',')] + ElementsTokens(t, img, off, i + 1) else [])
  }

  function FieldsTokens(t: Type, img: Image, off: nat, i: nat): seq<Token>
    requires t.Struct? && IntegerBased(t) && off + Size(t) <= |img|
    decreases t, 0, |t.fields| - i
  {
    if i >= |t.fields| then []
    else
      FieldInside(t, i);
      TypedTokens(t.fields[i], img, off + FieldOffset(t, i))
      + (if i + 1 < |t.fields| then [Punct(',')] + FieldsTokens(t, img, off, i + 1) else [])
  }

  // ---------------------------------------------------------------------------
  // Lexing

  lemma {:induction false} NumberFits(t: Type, img: Image, off: nat)
    requires IsInteger(t) && off + Size(t) <= |img|
    ensures Wrap(Number(t, img, off)) == Number(t, img, off)
  {
    hide Pow2;
    var n := Size(t);
    Pow2Monotone(8 * n, 64);
    Pow2Values();
    var raw := LittleEndian(img[off..off + n]);
    if !t.I1? {
      var x := raw % Pow2(8 * n);
      Pow2Monotone(8, 8 * n);
      SmallMod(SignExtend(raw, n) + INT64, 2 * INT64);
    } else {
      SmallMod(raw % 2 + INT64, 2 * INT64);
    }
  }

  lemma {:induction false} LexConst(t: Type, img: Image, off: nat, rest: string)
    requires IntegerBased(t) && Printable(t) && off + Size(t) <= |img| && Delimits(rest)
    ensures Lexes(ConstText(t, img, off), ConstTokens(t, img, off), rest)
    decreases t, 1
  {
    hide Lexes, Size, ZeroRange;
    WordLexes("zeroinitializer", rest);
    if IsInteger(t) {
      NumberFits(t, img, off);
      LexSigned(Number(t, img, off), rest);
    } else if !ZeroRange(img, off, off + Size(t)) {
      if t.Struct? {
        LexStructConst(t, img, off, rest);
      } else {
        LexElements(t, img, off, if t.Array? then "[" else "<", if t.Array? then "]" else ">", rest);
      }
    }
  }

  lemma {:induction false} LexTyped(t: Type, img: Image, off: nat, rest: string)
    requires IntegerBased(t) && Printable(t) && off + Size(t) <= |img| && Delimits(rest)
    ensures Lexes(TypedText(t, img, off), TypedTokens(t, img, off), rest)
    decreases t, 2
  {
    hide Lexes, Size, ConstText, ConstTokens, Text, TypeTokens;
    var c, tc := ConstText(t, img, off), ConstTokens(t, img, off);
    LexConst(t, img, off, rest);
    SpaceBefore(c, tc, rest);
    Starts(" ", c, rest);
    LexType(t, (" " + c) + rest);
    LexBoth(Text(t), TypeTokens(t), " " + c, tc, rest);
  }

  lemma {:induction false} LexElements(t: Type, img: Image, off: nat, open: string, close: string, rest: string)
    requires (t.Array? && open == "[" && close == "]") || (t.Vector? && open == "<" && close == ">")
    requires IntegerBased(t) && Printable(t) && off + Size(t) <= |img|
    ensures Lexes(open + (ElementsText(t, img, off, 0) + close),
                  [Punct(open[0])] + (ElementsTokens(t, img, off, 0) + [Punct(close[0])]), rest)
    decreases t, 0, t.count + 1
  {
    hide Lexes, Size, ElementsText, ElementsTokens;
    var e, te := ElementsText(t, img, off, 0), ElementsTokens(t, img, off, 0);
    PunctLast(close, rest);
    LexElementsFrom(t, img, off, 0, close + rest);
    LexBoth(e, te, close, [Punct(close[0])], rest);
    PunctBefore(open, e + close, te + [Punct(close[0])], rest);
  }

  lemma {:induction false} LexElementsFrom(t: Type, img: Image, off: nat, i: nat, rest: string)
    requires (t.Array? || t.Vector?) && IntegerBased(t) && Printable(t) && off + Size(t) <= |img| && Delimits(rest)
    ensures Lexes(ElementsText(t, img, off, i), ElementsTokens(t, img, off, i), rest)
    decreases t, 0, t.count - i
  {
    hide Lexes, TypedText, TypedTokens, Size;
    if i >= t.count {
      LexNothing(rest);
    } else {
      ElementInside(t, i);
      var at := off + ElementOffset(t.elem, i);
      var x, tx := TypedText(t.elem, img, at), TypedTokens(t.elem, img, at);
      if i + 1 < t.count {
        var more, tmore := ElementsText(t, img, off, i + 1), ElementsTokens(t, img, off, i + 1);
        LexElementsFrom(t, img, off, i + 1, rest);
        SpaceBefore(more, tmore, rest);
        PunctBefore(",", " " + more, tmore, rest);
        Starts(",", " " + more, rest);
        LexTyped(t.elem, img, at, ("," + (" " + more)) + rest);
        LexBoth(x, tx, "," + (" " + more), [Punct(',')] + tmore, rest);
      } else {
        LexTyped(t.elem, img, at, rest);
        assert x + "" == x && tx + [] == tx;
      }
    }
  }

  lemma {:induction false} LexStructConst(t: Type, img: Image, off: nat, rest: string)
    requires t.Struct? && IntegerBased(t) && Printable(t) && off + Size(t) <= |img|
    requires !ZeroRange(img, off, off + Size(t))
    ensures Lexes(ConstText(t, img, off), ConstTokens(t, img, off), rest)
    decreases t, 0, |t.fields| + 1
  {
    hide Lexes, Size, FieldsText, FieldsTokens, ZeroRange;
    var end := if t.packed then "}" + ">" else "}";
    var tend := if t.packed then [Punct('}')] + [Punct('>')] else [Punct('}')];
    var f, tf := FieldsText(t, img, off, 0), FieldsTokens(t, img, off, 0);
    PunctLast(">", rest);
    PunctLast("}", rest);
    PunctBefore("}", ">", [Punct('>')], rest);
    SpaceBefore(end, tend, rest);
    Starts(" ", end, rest);
    LexFieldsFrom(t, img, off, 0, (" " + end) + rest);
    LexBoth(f, tf, " " + end, tend, rest);
    SpaceBefore(f + (" " + end), tf + tend, rest);
    PunctBefore("{", " " + (f + (" " + end)), tf + tend, rest);
    PunctBefore("<", "{" + (" " + (f + (" " + end))), [Punct('{')] + (tf + tend), rest);
  }

  lemma {:induction false} LexFieldsFrom(t: Type, img: Image, off: nat, i: nat, rest: string)
    requires t.Struct? && IntegerBased(t) && Printable(t) && off + Size(t) <= |img| && Delimits(rest)
    ensures Lexes(FieldsText(t, img, off, i), FieldsTokens(t, img, off, i), rest)
    decreases t, 0, |t.fields| - i
  {
    hide Lexes, TypedText, TypedTokens, Size, FieldOffset;
    if i >= |t.fields| {
      LexNothing(rest);
    } else {
      FieldInside(t, i);
      var at := off + FieldOffset(t, i);
      var x, tx := TypedText(t.fields[i], img, at), TypedTokens(t.fields[i], img, at);
      if i + 1 < |t.fields| {
        var more, tmore := FieldsText(t, img, off, i + 1), FieldsTokens(t, img, off, i + 1);
        LexFieldsFrom(t, img, off, i + 1, rest);
        SpaceBefore(more, tmore, rest);
        PunctBefore(",", " " + more, tmore, rest);
        Starts(",", " " + more, rest);
        LexTyped(t.fields[i], img, at, ("," + (" " + more)) + rest);
        LexBoth(x, tx, "," + (" " + more), [Punct(',')] + tmore, rest);
      } else {
        LexTyped(t.fields[i], img, at, rest);
        assert x + "" == x && tx + [] == tx;
      }
    }
  }
}
