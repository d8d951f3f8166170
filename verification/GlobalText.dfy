/**
 Globals as text: the initializer after the type, string literals included, and the round
 trip from bytes to text to bytes.
 */
module GlobalText {
  import opened Wrappers
  import opened Numbers
  import opened ByteOrder
  import opened Types
  import opened Layout
  import opened Lexer
  import opened TypeText
  import opened TypeLex
  import opened InitText
  import opened InitClean
  import opened InitRead

  // ---------------------------------------------------------------------------
  // String literals

  function HexDigit(n: nat): char
    requires n < 16
  {
    if n < 10 then '0' + n as char else 'A' + (n - 10) as char
  }

  function HexValue(c: char): (v: int)
    ensures -1 <= v < 16
  {
    if '0' <= c <= '9' then (c - '0') as int
    else if 'a' <= c <= 'f' then (c - 'a') as int + 10
    else if 'A' <= c <= 'F' then (c - 'A') as int + 10
    else -1
  }

  predicate IsPlain(b: Byte) {
    32 <= b <= 126 && b != '"' as nat && b != '\\' as nat
  }

  function EscapedByte(b: Byte): (s: string)
    ensures s != ""
  {
    if IsPlain(b) then [b as char] else ['\\', HexDigit(b / 16), HexDigit(b % 16)]
  }

  function Escaped(bytes: Image): string {
    if bytes == [] then "" else EscapedByte(bytes[0]) + Escaped(bytes[1..])
  }

  /** dump_c_string_literal */
  function CString(bytes: Image): string {
    "c\"" + Escaped(bytes) + "\""
  }

  /** The byte that position i of a literal stands for, and the position after it. */
  function DecodeStep(s: string, i: nat): (r: (Byte, nat))
    requires i < |s|
    ensures i < r.1 <= |s|
  {
    if s[i] == '\\' && i + 2 < |s| && HexValue(s[i + 1]) >= 0 && HexValue(s[i + 2]) >= 0 then
      (HexValue(s[i + 1]) * 16 + HexValue(s[i + 2]), i + 3)
    else if s[i] == '\\' && i + 1 < |s| && s[i + 1] == '\\' then ('\\' as nat, i + 2)
    else (s[i] as nat % 256, i + 1)
  }

  function Decode(s: string, i: nat): Image
    requires i <= |s|
    decreases |s| - i
  {
    if i == |s| then [] else [DecodeStep(s, i).0] + Decode(s, DecodeStep(s, i).1)
  }

  /** The decoding loop of parse_global: no more bytes are written than there are characters. */
  method DecodeLiteral(s: string) returns (bytes: Image)
    ensures bytes == Decode(s, 0)
  {
    hide Decode, HexValue;
    var buf := new Byte[|s| + 1](_ => 0);
    var out, i := 0, 0;
    while i < |s|
      invariant out <= i <= |s|
      invariant Decode(s, 0) == buf[..out] + Decode(s, i)
    {
      ghost var before := buf[..out];
      ghost var i0 := i;
      var b: Byte := s[i] as nat % 256;
      var next := i + 1;
      if s[i] == '\\' && i + 1 < |s| {
        if i + 2 < |s| && HexValue(s[i + 1]) >= 0 && HexValue(s[i + 2]) >= 0 {
          b, next := HexValue(s[i + 1]) * 16 + HexValue(s[i + 2]), i + 3;
        } else if s[i + 1] == '\\' {
          b, next := '\\' as nat, i + 2;
        }
      }
      buf[out] := b;
      out, i := out + 1, next;
      DecodeNext(s, i0);
      assert (b, i) == DecodeStep(s, i0);
      assert buf[..out] == before + [b];
      assert before + ([b] + Decode(s, i)) == (before + [b]) + Decode(s, i);
    }
    DecodeDone(s);
    bytes := buf[..out];
  }

  lemma {:induction false} DecodeNext(s: string, i: nat)
    requires i < |s|
    ensures Decode(s, i) == [DecodeStep(s, i).0] + Decode(s, DecodeStep(s, i).1)
  {
  }

  /** The two spellings of a hexadecimal digit. */
  predicate IsDigitFor(c: char, n: nat) {
    n < 16 && (c == "0123456789abcdef"[n] || c == "0123456789ABCDEF"[n])
  }

  lemma {:induction false} HexValueIs(c: char, n: nat)
    ensures HexValue(c) >= 0 <==> IsHex(c)
    ensures IsDigitFor(c, n) ==> HexValue(c) == n && IsHex(c)
  {
  }

  /** What makes a backslash before position i special. */
  predicate EscapeAt(s: string, i: nat) {
    || (i < |s| && s[i] == '\\')
    || (i + 1 < |s| && IsHex(s[i]) && IsHex(s[i + 1]))
  }

  /** What each position of a literal stands for: a backslash and two hexadecimal digits for the
      byte of that value, two backslashes for one, and every other character, a backslash
      included, for itself. */
  lemma {:induction false} DecodeForms(s: string, i: nat, h: nat, l: nat)
    requires i < |s|
    ensures s[i] != '\\' ==> Decode(s, i) == [s[i] as nat % 256] + Decode(s, i + 1)
    ensures s[i] == '\\' && i + 2 < |s| && IsDigitFor(s[i + 1], h) && IsDigitFor(s[i + 2], l) ==>
      Decode(s, i) == [16 * h + l] + Decode(s, i + 3)
    ensures s[i] == '\\' && i + 1 < |s| && s[i + 1] == '\\' ==> Decode(s, i) == [92] + Decode(s, i + 2)
    ensures s[i] == '\\' && !EscapeAt(s, i + 1) ==> Decode(s, i) == [92] + Decode(s, i + 1)
  {
    DecodeNext(s, i);
    BackslashIsNoDigit();
    if i + 2 < |s| {
      HexValueIs(s[i + 1], h);
      HexValueIs(s[i + 2], l);
    }
    hide Decode, HexValue, IsDigitFor, IsHex;
  }

  lemma {:induction false} BackslashIsNoDigit()
    ensures HexValue('\\') < 0 && '\\' as nat == 92
  {
  }

  lemma {:induction false} DecodeDone(s: string)
    ensures Decode(s, |s|) == []
  {
  }

  lemma {:induction false} HexDigits(n: nat)
    requires n < 16
    ensures HexValue(HexDigit(n)) == n && HexDigit(n) != '"'
  {
  }

  /** Decoding from i reads what was escaped from i on; the quote cuts no escape short. */
  lemma {:induction false} DecodeEscaped(pre: string, bytes: Image)
    ensures Decode(pre + Escaped(bytes), |pre|) == bytes
    decreases |bytes|
  {
    hide Decode, DecodeStep, HexDigit;
    var s := pre + Escaped(bytes);
    if bytes == [] {
      assert s == pre;
      DecodeDone(s);
    } else {
      var b := bytes[0];
      var e := EscapedByte(b);
      assert s == (pre + e) + Escaped(bytes[1..]);
      assert s[|pre|] == e[0];
      assert |e| == 3 ==> s[|pre| + 1] == e[1] && s[|pre| + 2] == e[2];
      DecodeNext(s, |pre|);
      if IsPlain(b) {
        PlainStep(s, |pre|, b);
      } else {
        EscapeStep(s, |pre|, b);
      }
      DecodeEscaped(pre + e, bytes[1..]);
    }
  }

  lemma {:induction false} PlainStep(s: string, i: nat, b: Byte)
    requires i < |s| && s[i] == b as char && IsPlain(b)
    ensures DecodeStep(s, i) == (b, i + 1)
  {
  }

  lemma {:induction false} EscapeStep(s: string, i: nat, b: Byte)
    requires i + 2 < |s| && s[i] == '\\' && s[i + 1] == HexDigit(b / 16) && s[i + 2] == HexDigit(b % 16)
    ensures DecodeStep(s, i) == (b, i + 3)
  {
    HexDigits(b / 16);
    HexDigits(b % 16);
  }

  lemma {:induction false} QuoteEnds(bytes: Image, rest: string)
    ensures QuoteRun(Escaped(bytes) + ("\"" + rest)) == |Escaped(bytes)| + 1
    decreases |bytes|
  {
    var s := Escaped(bytes) + ("\"" + rest);
    if bytes == [] {
      assert s[0] == '"';
    } else {
      var e := EscapedByte(bytes[0]);
      var more := Escaped(bytes[1..]) + ("\"" + rest);
      assert s == e + more;
      HexDigits(bytes[0] / 16);
      HexDigits(bytes[0] % 16);
      QuoteEnds(bytes[1..], rest);
      if IsPlain(bytes[0]) {
        assert s[1..] == more;
      } else {
        assert s[2..] == [e[2]] + more;
        assert ([e[2]] + more)[1..] == more;
        OneMore(e[2], more);
      }
    }
  }

  lemma {:induction false} OneMore(c: char, more: string)
    requires c != '"' && c != '\\'
    ensures QuoteRun([c] + more) == 1 + QuoteRun(more)
  {
    assert ([c] + more)[1..] == more;
  }

  lemma {:induction false} LexCString(bytes: Image, rest: string)
    ensures Lexes(CString(bytes), [StringLit(CString(bytes))], rest)
  {
    hide Escaped, Tokens, QuoteRun;
    var s := CString(bytes) + rest;
    var inner := Escaped(bytes) + ("\"" + rest);
    assert s[2..] == inner;
    QuoteEnds(bytes, rest);
    assert s[..|CString(bytes)|] == CString(bytes) && s[|CString(bytes)|..] == rest;
    LexOne(s, StringLit(CString(bytes)), |CString(bytes)|);
  }

  // ---------------------------------------------------------------------------
  // The initializer of a global

  function Zeros(n: nat): (r: Image)
    ensures |r| == n && ZeroRange(r, 0, n)
  {
    seq(n, _ => 0)
  }

  /** The bytes parse_global stores for a global of type t; none stands for all zero. */
  function DataAt(names: Names, toks: seq<Token>, t: Type): Option<Image> {
    match Head(toks)
    case StringLit(s) =>
      Some(if |s| >= 3 && s[0] == 'c' && s[1] == '"' then Decode(s[2..|s| - 1], 0) else [])
    case IntLit(v) => Some(if 0 < Size(t) <= 8 then Bytes(v % UINT64, Size(t)) else [])
    case Punct(c) =>
      if (c == '<' || c == '{' || c == '[') && Size(t) > 0 then
        match AggregateAt(names, toks, t, 0, Zeros(Size(t)))
        case None => None
        case Some((buf, _)) => Some(buf)
      else Some([])
    case Word(w) => if IsConstantExpr(w) then None else if w == "true" then Some([1]) else Some([])
    case FloatLit(_) => None
    case GlobalId(_) => None
    case _ => Some([])
  }

  /** global_init_byte */
  function ByteOf(data: Image, k: nat): Byte {
    if k < |data| then data[k] else 0
  }

  /** A global of type i1 given as true or false has the byte 1 or 0, as if given as a number. */
  lemma {:induction false} BooleanGlobal(names: Names, rest: seq<Token>)
    ensures DataAt(names, [Word("true")] + rest, I1) == DataAt(names, [IntLit(1)] + rest, I1) == Some([1])
    ensures DataAt(names, [Word("false")] + rest, I1).Some? && DataAt(names, [IntLit(0)] + rest, I1).Some?
    ensures forall k: nat ::
      && ByteOf(DataAt(names, [Word("false")] + rest, I1).value, k) == 0
      && ByteOf(DataAt(names, [IntLit(0)] + rest, I1).value, k) == 0
  {
    WordLengths();
    OneAndZero(1);
    SmallMod(1, UINT64);
    SmallMod(0, UINT64);
    assert Bytes(0, 0) == [];
    assert Bytes(1, 1) == [1] && Bytes(0, 1) == [0];
    assert ([IntLit(1)] + rest)[0] == IntLit(1) && ([IntLit(0)] + rest)[0] == IntLit(0);
  }

  /** What is left of a constant's bytes. */
  function Cleaned(t: Type, img: Image): (c: Image)
    requires |img| == Size(t)
    ensures |c| == |img| && Holds(t, img, 0, c)
  {
    seq(|img|, k requires 0 <= k < |img| => CleanByte(t, img, 0, k))
  }

  /** For any integers, arrays, vectors and structs, parsing the text of a constant gives its
      bytes without what printing forgets. */
  lemma {:induction false} InitializerRead(names: Names, t: Type, img: Image, rest: string)
    requires IntegerBased(t) && Printable(t) && |img| == Size(t) && Delimits(rest)
    ensures DataAt(names, Tokens(ConstText(t, img, 0) + rest), t).Some?
    ensures forall k :: 0 <= k < |img| ==>
      ByteOf(DataAt(names, Tokens(ConstText(t, img, 0) + rest), t).value, k) == Cleaned(t, img)[k]
  {
    hide Tokens, Holds, Cleaned, Copied, ValueAt, AggregateAt, Store, Bytes, Number, Size;
    var toks := ConstTokens(t, img, 0) + Tokens(rest);
    LexConst(t, img, 0, rest);
    assert Tokens(ConstText(t, img, 0) + rest) == toks;
    var buf := Zeros(Size(t));
    var c := Cleaned(t, img);
    ValueRead(names, t, img, c, 0, buf, Tokens(rest));
    AllCopied(buf, c);
    if IsInteger(t) {
      IntegerData(t, img, c, buf);
      assert Head(toks) == IntLit(Number(t, img, 0));
    } else if ZeroRange(img, 0, Size(t)) {
      assert Head(toks) == ZERO;
      ZeroIsNoExpr();
      ZeroHolds(t, img, 0, c);
    } else {
      AggregateHead(names, toks, t, img, buf, Tokens(rest));
    }
  }

  /** Main result: printing the bytes of a constant and parsing the text gives the bytes back
      exactly if its padding is zero and its i1 bytes are 0 or 1. */
  lemma {:induction false} InitializerRoundTrip(names: Names, t: Type, img: Image, rest: string)
    requires IntegerBased(t) && Printable(t) && |img| == Size(t) && Delimits(rest)
    ensures DataAt(names, Tokens(ConstText(t, img, 0) + rest), t).Some?
    ensures (forall k :: 0 <= k < |img| ==>
               ByteOf(DataAt(names, Tokens(ConstText(t, img, 0) + rest), t).value, k) == img[k])
      <==> Canonical(t, img, 0)
  {
    hide Tokens, Canonical, DataAt, ConstText, Cleaned, ByteOf, CleanByte, Size;
    InitializerRead(names, t, img, rest);
    CanonicalIff(t, img, 0);
    var c := Cleaned(t, img);
    assert forall k: nat :: k < |img| ==> c[0 + k] == CleanByte(t, img, 0, k);
    if Holds(t, img, 0, img) {
      forall k: nat | k < |img| ensures c[k] == img[k] {
        assert img[0 + k] == CleanByte(t, img, 0, k);
      }
    }
  }

  lemma {:induction false} AllCopied(buf: Image, img: Image)
    requires |buf| == |img|
    ensures Copied(buf, img, 0, |img|) == img
  {
  }

  lemma {:induction false} ZeroIsNoExpr()
    ensures !IsConstantExpr("zeroinitializer") && "zeroinitializer" != "true"
  {
    assert |"zeroinitializer"| == 15;
  }

  lemma {:induction false} IntegerData(t: Type, img: Image, c: Image, buf: Image)
    requires IsInteger(t) && |img| == |buf| == |c| == Size(t) && Holds(t, img, 0, c)
    ensures 0 < Size(t) <= 8 && Bytes(Number(t, img, 0) % UINT64, Size(t)) == c
  {
    hide Bytes, Number, Holds;
    StoreNumber(t, img, c, 0, buf);
    AllCopied(buf, c);
    var s := Bytes(Number(t, img, 0) % UINT64, Size(t));
    assert Splice(buf, 0, s) == s;
  }

  lemma {:induction false} AggregateHead(names: Names, toks: seq<Token>, t: Type, img: Image, buf: Image,
                                         rest: seq<Token>)
    requires IntegerBased(t) && |img| == Size(t) && !IsInteger(t) && !ZeroRange(img, 0, 0 + Size(t))
    requires toks == ConstTokens(t, img, 0) + rest
    ensures ValueAt(names, toks, t, 0, buf) == AggregateAt(names, toks, t, 0, buf)
    ensures Head(toks) == Punct('[') || Head(toks) == Punct('<') || Head(toks) == Punct('{')
    ensures Size(t) > 0
  {
    hide AggregateAt, ElementsTokens, FieldsTokens, Size;
  }

  /** The string form, used for constant arrays of bytes, decodes to the same bytes. */
  lemma {:induction false} StringRoundTrip(names: Names, t: Type, img: Image, rest: string)
    ensures DataAt(names, Tokens(CString(img) + rest), t) == Some(img)
  {
    hide Tokens, Decode, Escaped;
    LexCString(img, rest);
    var s := CString(img);
    var toks := Tokens(s + rest);
    assert toks[0] == StringLit(s);
    assert s[2..|s| - 1] == Escaped(img);
    DecodeEscaped("", img);
    assert "" + Escaped(img) == Escaped(img);
  }

  // ---------------------------------------------------------------------------
  // Which form is printed

  /** global_is_i8_array_literal */
  predicate IsByteString(t: Type, img: Image, isConst: bool) {
    isConst && t.Array? && t.elem.I8? && |img| == t.count && img != []
  }

  /** The initializer as lr_dump_global_opts prints it. */
  function InitializerText(t: Type, img: Image, isConst: bool): string
    requires IntegerBased(t) && |img| == Size(t)
  {
    if IsByteString(t, img, isConst) then CString(img)
    else if img != [] then ConstText(t, img, 0)
    else "zeroinitializer"
  }

  /** Whichever form is printed, the bytes come back exactly if the image is canonical. */
  lemma {:induction false} GlobalRoundTrip(names: Names, t: Type, img: Image, isConst: bool, rest: string)
    requires IntegerBased(t) && Printable(t) && |img| == Size(t) && Delimits(rest)
    ensures DataAt(names, Tokens(InitializerText(t, img, isConst) + rest), t).Some?
    ensures (forall k :: 0 <= k < |img| ==>
               ByteOf(DataAt(names, Tokens(InitializerText(t, img, isConst) + rest), t).value, k) == img[k])
      <==> Canonical(t, img, 0)
  {
    hide Tokens, Canonical, DataAt, ConstText, CString, Size;
    if IsByteString(t, img, isConst) {
      StringRoundTrip(names, t, img, rest);
      BytesAreCanonical(t, img);
    } else {
      if img == [] {
        NothingText(t, img);
      }
      InitializerRoundTrip(names, t, img, rest);
    }
  }

  lemma {:induction false} BytesAreCanonical(t: Type, img: Image)
    requires t.Array? && t.elem.I8? && |img| == Size(t)
    ensures Canonical(t, img, 0)
  {
    forall i: nat | i < t.count
      ensures Canonical(t.elem, img, 0 + ElementOffset(t.elem, i))
    {
    }
  }

  lemma {:induction false} NothingText(t: Type, img: Image)
    requires IntegerBased(t) && |img| == Size(t) == 0
    ensures ConstText(t, img, 0) == "zeroinitializer"
  {
  }
}
