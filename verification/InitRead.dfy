/**
 Parsing initializers: what the parser writes into the buffer of a global, and the proof that
 it writes back the bytes that were printed.
 */
module InitRead {
  import opened Wrappers
  import opened Numbers
  import opened ByteOrder
  import opened Types
  import opened Layout
  import opened Lexer
  import opened TypeText
  import opened TypeLex
  import opened InitText
  import opened InitClean

  type Buffer = Image

  // ---------------------------------------------------------------------------
  // Writing into the buffer

  /** buf with the bytes of s at off. */
  function Splice(buf: Buffer, off: nat, s: Image): (r: Buffer)
    requires off + |s| <= |buf|
    ensures |r| == |buf|
  {
    buf[..off] + s + buf[off + |s|..]
  }

  /** memcpy of the low bytes of a 64-bit integer, if the field lies inside the buffer. */
  function Store(buf: Buffer, off: nat, size: nat, v: int): (r: Buffer)
    ensures |r| == |buf|
  {
    if off + size <= |buf| then Splice(buf, off, Bytes(v % UINT64, if size < 8 then size else 8)) else buf
  }

  // ---------------------------------------------------------------------------
  // Parsing

  /** Words that begin a constant with a relocation or a cast; not part of this model. */
  predicate IsConstantExpr(w: string) {
    w in {"getelementptr", "bitcast", "inttoptr", "ptrtoint", "sext", "zext", "trunc", "sitofp", "uitofp", "fptosi",
          "fptoui", "fpext", "fptrunc"}
  }

  /** Something skip_attrs would skip; the printer puts nothing of the kind there. */
  predicate IsAttribute(t: Token) {
    match t
    case MetadataId(_) => true
    case AttrGroup(_) => true
    case Word(w) =>
      !IsKeyword(w)
      || w in {"nsw", "nuw", "inbounds", "nonnull", "noundef", "signext", "zeroext", "nocapture", "readonly",
               "writeonly"}
      || w in {"nnan", "ninf", "nsz", "dso_local", "linkonce_odr", "external", "internal", "private", "common"}
      || w in {"unnamed_addr", "local_unnamed_addr", "align"}
    case _ => false
  }

  /** parse_init_field_value: the buffer afterwards, and what follows. */
  function ValueAt(names: Names, toks: seq<Token>, t: Type, off: nat, buf: Buffer): (r: Option<(Buffer, seq<Token>)>)
    ensures r.Some? ==> |r.value.1| <= |toks| && |r.value.0| == |buf|
    decreases |toks|, 2
  {
    match Head(toks)
    case Punct(c) =>
      if c == '<' || c == '{' || c == '[' then AggregateAt(names, toks, t, off, buf) else Some((buf, Tail(toks)))
    case IntLit(v) => Some((Store(buf, off, Size(t), v), Tail(toks)))
    case Word(w) =>
      if IsConstantExpr(w) then None
      else if w == "true" then Some((if Size(t) > 0 then StoreByte(buf, off, Size(t), 1) else buf, Tail(toks)))
      else if w == "false" then Some((if Size(t) > 0 then StoreByte(buf, off, Size(t), 0) else buf, Tail(toks)))
      else Some((buf, Tail(toks)))
    case FloatLit(_) => None
    case GlobalId(_) => None
    case Eof => Some((buf, toks))
    case _ => Some((buf, Tail(toks)))
  }

  function StoreByte(buf: Buffer, off: nat, size: nat, b: Byte): (r: Buffer)
    requires size > 0
    ensures |r| == |buf|
  {
    if off + size <= |buf| then Splice(buf, off, [b]) else buf
  }

  /** parse_aggregate_initializer */
  function AggregateAt(names: Names, toks: seq<Token>, t: Type, off: nat,
                       buf: Buffer): (r: Option<(Buffer, seq<Token>)>)
    requires toks != []
    ensures r.Some? ==> |r.value.1| < |toks| && |r.value.0| == |buf|
    decreases |toks|, 1
  {
    if Head(toks) == Punct('<') then
      if t.Vector? then ClosedElementsAt(names, Tail(toks), t.elem, t.count, '>', off, buf)
      else if Head(Tail(toks)) != Punct('{') || !t.Struct? then None
      else
        match ClosedFieldsAt(names, Tail(Tail(toks)), t, off, buf)
        case None => None
        case Some((buf', rest)) => if Head(rest) == Punct('>') then Some((buf', Tail(rest))) else None
    else if Head(toks) == Punct('[') then
      if t.Array? then ClosedElementsAt(names, Tail(toks), t.elem, t.count, ']', off, buf)
      else if Head(Tail(toks)) == Punct(']') then Some((buf, Tail(Tail(toks)))) else None
    else if !t.Struct? then None
    else ClosedFieldsAt(names, Tail(toks), t, off, buf)
  }

  function ClosedElementsAt(names: Names, toks: seq<Token>, elem: Type, count: nat, close: char, off: nat, buf: Buffer)
    : (r: Option<(Buffer, seq<Token>)>)
    ensures r.Some? ==> |r.value.1| <= |toks| && |r.value.0| == |buf|
    decreases |toks|, 4
  {
    match ElementsAt(names, toks, elem, count, 0, close, off, buf)
    case None => None
    case Some((buf', rest)) => if Head(rest) == Punct(close) then Some((buf', Tail(rest))) else None
  }

  /** Elements i.. of an array or vector. */
  function ElementsAt(names: Names, toks: seq<Token>, elem: Type, count: nat, i: nat, close: char, off: nat,
                      buf: Buffer)
    : (r: Option<(Buffer, seq<Token>)>)
    ensures r.Some? ==> |r.value.1| <= |toks| && |r.value.0| == |buf|
    decreases |toks|, 3
  {
    if i >= count || Head(toks) == Punct(close) then Some((buf, toks))
    else
      match TypedAt(names, toks, elem, off + ElementOffset(elem, i), buf)
      case None => None
      case Some((buf', rest)) =>
        if Head(rest) == Punct(',') then ElementsAt(names, Tail(rest), elem, count, i + 1, close, off, buf')
        else Some((buf', rest))
  }

  function ClosedFieldsAt(names: Names, toks: seq<Token>, t: Type, off: nat,
                          buf: Buffer): (r: Option<(Buffer, seq<Token>)>)
    requires t.Struct?
    ensures r.Some? ==> |r.value.1| <= |toks| && |r.value.0| == |buf|
    decreases |toks|, 4
  {
    match FieldsAt(names, toks, t, 0, off, buf)
    case None => None
    case Some((buf', rest)) => if Head(rest) == Punct('}') then Some((buf', Tail(rest))) else None
  }

  function FieldsAt(names: Names, toks: seq<Token>, t: Type, i: nat, off: nat,
                    buf: Buffer): (r: Option<(Buffer, seq<Token>)>)
    requires t.Struct?
    ensures r.Some? ==> |r.value.1| <= |toks| && |r.value.0| == |buf|
    decreases |toks|, 3
  {
    if i >= |t.fields| || Head(toks) == Punct('}') then Some((buf, toks))
    else
      match TypedAt(names, toks, t.fields[i], off + FieldOffset(t, i), buf)
      case None => None
      case Some((buf', rest)) =>
        if Head(rest) == Punct(',') then FieldsAt(names, Tail(rest), t, i + 1, off, buf') else Some((buf', rest))
  }

  /** A type, which is ignored, and a value of the type expected. */
  function TypedAt(names: Names, toks: seq<Token>, t: Type, off: nat, buf: Buffer): (r: Option<(Buffer, seq<Token>)>)
    ensures r.Some? ==> |r.value.1| < |toks| && |r.value.0| == |buf|
    decreases |toks|, 0
  {
    match TypeAt(names, toks)
    case None => None
    case Some((_, rest)) => if IsAttribute(Head(rest)) then None else ValueAt(names, rest, t, off, buf)
  }

  // ---------------------------------------------------------------------------
  // Copying ranges

  /** buf with img's bytes from a to b. */
  function Copied(buf: Buffer, img: Image, a: nat, b: nat): (r: Buffer)
    requires a <= b <= |img| == |buf|
    ensures |r| == |buf|
  {
    Splice(buf, a, img[a..b])
  }

  lemma {:induction false} CopiedTwice(buf: Buffer, img: Image, a: nat, b: nat, c: nat)
    requires a <= b <= c <= |img| == |buf|
    ensures Copied(Copied(buf, img, a, b), img, b, c) == Copied(buf, img, a, c)
  {
  }

  lemma {:induction false} CopiedZeros(buf: Buffer, img: Image, a: nat, b: nat)
    requires a <= b <= |img| == |buf| && ZeroRange(img, a, b) && ZeroRange(buf, a, b)
    ensures Copied(buf, img, a, b) == buf
  {
    forall k | 0 <= k < |buf| ensures Copied(buf, img, a, b)[k] == buf[k] {
      assert a <= k < b ==> img[k] == 0 && buf[k] == 0;
    }
  }

  lemma {:induction false} CopiedLeaves(buf: Buffer, img: Image, a: nat, b: nat, c: nat)
    requires a <= b <= c <= |img| == |buf| && ZeroRange(buf, a, c)
    ensures ZeroRange(Copied(buf, img, a, b), b, c)
  {
  }

  // ---------------------------------------------------------------------------
  // Scalars

  /** Printing an integer and storing it gives its bytes back. */
  lemma {:induction false} StoreNumber(t: Type, img: Image, c: Image, off: nat, buf: Buffer)
    requires IsInteger(t) && off + Size(t) <= |img| == |buf| && |c| == |img| && Holds(t, img, off, c)
    ensures Store(buf, off, Size(t), Number(t, img, off)) == Copied(buf, c, off, off + Size(t))
  {
    hide Pow2, Bytes, LittleEndian, CleanByte;
    var n := Size(t);
    var s, r := img[off..off + n], c[off..off + n];
    assert Bytes(Number(t, img, off) % UINT64, n) == r by {
      IntegerHolds(t, img, c, off);
      if t.I1? {
        OneBit(s, r);
      } else {
        SignedBytes(s);
      }
    }
  }

  lemma {:induction false} IntegerHolds(t: Type, img: Image, c: Image, off: nat)
    requires IsInteger(t) && |c| == |img| && Holds(t, img, off, c)
    ensures if t.I1? then c[off] == img[off] % 2 else c[off..off + Size(t)] == img[off..off + Size(t)]
  {
    assert c[off + 0] == CleanByte(t, img, off, 0);
    if !t.I1? {
      forall k | off <= k < off + Size(t)
        ensures c[k] == img[k]
      {
        assert c[off + (k - off)] == CleanByte(t, img, off, k - off);
      }
    }
  }

  /** The one byte written for an i1. */
  lemma {:induction false} OneBit(s: Image, r: Image)
    requires |s| == |r| == 1 && r[0] == s[0] % 2
    ensures Bytes(LittleEndian(s) % 2 % UINT64, 1) == r
  {
    OneByte(s);
    OneByte(r);
    SmallMod(s[0] % 2, UINT64);
    BytesOfValue(r, 0);
    assert LittleEndian(r) + 0 * Pow2(8 * |r|) == s[0] % 2;
  }

  lemma {:induction false} OneByte(s: Image)
    requires |s| == 1
    ensures LittleEndian(s) == s[0]
  {
    assert LittleEndian(s[1..]) == 0;
  }

  lemma {:induction false} SignedBytes(s: Image)
    requires 1 <= |s| <= 8
    ensures Bytes(SignExtend(LittleEndian(s), |s|) % UINT64, |s|) == s
  {
    hide Pow2, Bytes, LittleEndian;
    var n := |s|;
    var raw, p := LittleEndian(s), Pow2(8 * n);
    LittleEndianBound(s);
    SmallMod(raw, p);
    Pow2Values();
    Pow2Add(8 * n, 64 - 8 * n);
    assert 8 * n + (64 - 8 * n) == 64;
    var q := Pow2(64 - 8 * n);
    Pow2Monotone(8 * n, 64);
    if raw >= p / 2 {
      assert SignExtend(raw, n) == raw - p;
      SmallMod(raw - p, UINT64);
      assert (raw - p) % UINT64 == raw + (q - 1) * p by {
        assert p * q == UINT64;
        assert (q - 1) * p == p * q - p;
      }
      BytesOfValue(s, q - 1);
    } else {
      SmallMod(raw, UINT64);
      BytesOfValue(s, 0);
    }
  }

  // ---------------------------------------------------------------------------
  // Words for values

  lemma {:induction false} OneAndZero(n: nat)
    requires n > 0
    ensures Bytes(1, n) == [1] + Bytes(0, n - 1) && Bytes(0, n) == [0] + Bytes(0, n - 1)
  {
  }

  lemma {:induction false} ZeroBytes(n: nat)
    ensures forall k :: 0 <= k < n ==> Bytes(0, n)[k] == 0
  {
    if n > 0 {
      ZeroBytes(n - 1);
    }
  }

  /** The integer 1 or 0 in an i1, or in a field that is still zero. */
  lemma {:induction false} StoreBit(t: Type, off: nat, buf: Buffer, b: Byte)
    requires IsInteger(t) && b < 2 && (t.I1? || ZeroRange(buf, off, off + Size(t)))
    ensures Size(t) > 0 && Store(buf, off, Size(t), b) == if off + Size(t) <= |buf| then buf[off := b] else buf
  {
    hide Bytes;
    var n := Size(t);
    OneAndZero(n);
    ZeroBytes(n - 1);
    SmallMod(b, UINT64);
    if off + n <= |buf| {
      assert Bytes(b, n) == [b] + Bytes(0, n - 1);
      assert Splice(buf, off, Bytes(b, n)) == buf[off := b];
    }
  }

  /** Where an i1 is expected the words true and false are read as 1 and 0, which set the byte;
      in a field that is still zero this holds of every integer type. */
  lemma {:induction false} BooleanWords(names: Names, t: Type, off: nat, buf: Buffer, rest: seq<Token>)
    requires IsInteger(t) && (t.I1? || ZeroRange(buf, off, off + Size(t)))
    ensures ValueAt(names, [Word("true")] + rest, t, off, buf) == ValueAt(names, [IntLit(1)] + rest, t, off, buf)
      == Some((if off + Size(t) <= |buf| then buf[off := 1] else buf, rest))
    ensures ValueAt(names, [Word("false")] + rest, t, off, buf) == ValueAt(names, [IntLit(0)] + rest, t, off, buf)
      == Some((if off + Size(t) <= |buf| then buf[off := 0] else buf, rest))
  {
    hide Store, Bytes, Size;
    StoreBit(t, off, buf, 1);
    StoreBit(t, off, buf, 0);
    WordLengths();
    forall b: Byte | off + Size(t) <= |buf| ensures Splice(buf, off, [b]) == buf[off := b] {
    }
  }

  /** Words that stand for zero leave the buffer as it is. */
  lemma {:induction false} ZeroWords(names: Names, t: Type, off: nat, buf: Buffer, rest: seq<Token>, w: string)
    requires w in {"null", "undef", "zeroinitializer"}
    ensures ValueAt(names, [Word(w)] + rest, t, off, buf) == Some((buf, rest))
  {
    WordLengths();
  }

  lemma {:induction false} WordLengths()
    ensures !IsConstantExpr("true") && !IsConstantExpr("false") && "true" != "false"
    ensures forall w :: w in {"null", "undef", "zeroinitializer"} ==>
      !IsConstantExpr(w) && w != "true" && w != "false"
  {
    assert |"zeroinitializer"| == 15 && |"true"| == 4 && |"false"| == 5 && |"null"| == 4 && |"undef"| == 5;
    assert "true"[0] == 't' && "null"[0] == 'n' && "undef"[0] == 'u' && "false"[0] == 'f';
    assert |"sext"| == 4 && "sext"[0] == 's' && |"zext"| == 4 && "zext"[0] == 'z';
    assert |"trunc"| == 5 && "trunc"[1] == 'r' && |"fpext"| == 5 && "fpext"[1] == 'p';
    assert "false"[1] == 'a' && "undef"[1] == 'n';
  }

  // ---------------------------------------------------------------------------
  // Reading back what was printed

  predicate Ready(t: Type, img: Image, off: nat, buf: Buffer) {
    IntegerBased(t) && Printable(t) && off + Size(t) <= |img| == |buf| && ZeroRange(buf, off, off + Size(t))
  }

  lemma {:induction false} ValueRead(names: Names, t: Type, img: Image, c: Image, off: nat, buf: Buffer,
                                     rest: seq<Token>)
    requires Ready(t, img, off, buf) && |c| == |img| && Holds(t, img, off, c)
    ensures ValueAt(names, ConstTokens(t, img, off) + rest, t, off, buf)
      == Some((Copied(buf, c, off, off + Size(t)), rest))
    decreases t, 3
  {
    hide Holds, Copied, Store;
    var toks := ConstTokens(t, img, off) + rest;
    if IsInteger(t) {
      assert toks[0] == IntLit(Number(t, img, off)) && Tail(toks) == rest;
      StoreNumber(t, img, c, off, buf);
    } else if ZeroRange(img, off, off + Size(t)) {
      ZeroRead(names, t, img, c, off, buf, rest);
    } else {
      AggregateRead(names, t, img, c, off, buf, rest);
    }
  }

  lemma {:induction false} ZeroRead(names: Names, t: Type, img: Image, c: Image, off: nat, buf: Buffer,
                                    rest: seq<Token>)
    requires Ready(t, img, off, buf) && |c| == |img| && Holds(t, img, off, c)
    requires ZeroRange(img, off, off + Size(t)) && !IsInteger(t)
    ensures ValueAt(names, ConstTokens(t, img, off) + rest, t, off, buf)
      == Some((Copied(buf, c, off, off + Size(t)), rest))
  {
    var toks := ConstTokens(t, img, off) + rest;
    assert toks[0] == ZERO && Tail(toks) == rest;
    ZeroHolds(t, img, off, c);
    CopiedZeros(buf, c, off, off + Size(t));
    assert !IsConstantExpr("zeroinitializer") by {
      assert |"zeroinitializer"| == 15;
    }
  }

  lemma {:induction false} AggregateRead(names: Names, t: Type, img: Image, c: Image, off: nat, buf: Buffer,
                                         rest: seq<Token>)
    requires Ready(t, img, off, buf) && |c| == |img| && Holds(t, img, off, c) && !IsInteger(t)
    requires !ZeroRange(img, off, off + Size(t))
    ensures ValueAt(names, ConstTokens(t, img, off) + rest, t, off, buf)
      == Some((Copied(buf, c, off, off + Size(t)), rest))
    decreases t, 2
  {
    hide Holds, Copied, Size, ZeroRange, ClosedFieldsAt, ClosedElementsAt, FieldsTokens, ElementsTokens;
    if t.Struct? {
      var after := if t.packed then [Punct('>')] + rest else rest;
      var body := FieldsTokens(t, img, off, 0) + ([Punct('}')] + after);
      StructBody(names, t, img, c, off, buf, after);
      OpenFields(names, t, img, c, off, buf, body, rest);
    } else {
      var close := if t.Array? then ']' else '>';
      var body := ElementsTokens(t, img, off, 0) + ([Punct(close)] + rest);
      ElementsBody(names, t, img, c, off, buf, close, rest);
      var toks := ConstTokens(t, img, off) + rest;
      assert toks == [Punct(if t.Array? then '[' else '<')] + body;
      assert Tail(toks) == body;
    }
  }

  lemma {:induction false} OpenFields(names: Names, t: Type, img: Image, c: Image, off: nat, buf: Buffer,
                                      body: seq<Token>, rest: seq<Token>)
    requires t.Struct? && IntegerBased(t) && off + Size(t) <= |img| == |buf| == |c|
    requires !ZeroRange(img, off, off + Size(t))
    requires var after := if t.packed then [Punct('>')] + rest else rest;
      && body == FieldsTokens(t, img, off, 0) + ([Punct('}')] + after)
      && ClosedFieldsAt(names, body, t, off, buf) == Some((Copied(buf, c, off, off + Size(t)), after))
    ensures ValueAt(names, ConstTokens(t, img, off) + rest, t, off, buf)
      == Some((Copied(buf, c, off, off + Size(t)), rest))
  {
    hide Copied, Size, ZeroRange, ClosedFieldsAt, FieldsTokens;
    var toks := ConstTokens(t, img, off) + rest;
    if t.packed {
      assert toks == [Punct('<')] + ([Punct('{')] + body);
      assert Tail(toks) == [Punct('{')] + body && Tail(Tail(toks)) == body;
      assert Tail([Punct('>')] + rest) == rest;
    } else {
      assert toks == [Punct('{')] + body;
      assert Tail(toks) == body;
    }
  }

  lemma {:induction false} TypedRead(names: Names, t: Type, img: Image, c: Image, off: nat, buf: Buffer,
                                     rest: seq<Token>)
    requires Ready(t, img, off, buf) && |c| == |img| && Holds(t, img, off, c)
    ensures TypedAt(names, TypedTokens(t, img, off) + rest, t, off, buf)
      == Some((Copied(buf, c, off, off + Size(t)), rest))
    decreases t, 4
  {
    hide Holds, Copied, Size, ZeroRange, ValueAt, TypeAt, TypeTokens, ConstTokens, Ready, SuffixAt;
    assert IntegerBased(t) && Printable(t) && off + Size(t) <= |img| == |buf| by {
      ReadyFacts(t, img, off, buf);
    }
    var value := ConstTokens(t, img, off) + rest;
    assert TypedTokens(t, img, off) + rest == TypeTokens(t) + value;
    TypeRead(names, t, value);
    SuffixDone(names, t, value);
    NoAttribute(t, img, off, rest);
    ValueRead(names, t, img, c, off, buf, rest);
  }

  lemma {:induction false} ReadyFacts(t: Type, img: Image, off: nat, buf: Buffer)
    requires Ready(t, img, off, buf)
    ensures IntegerBased(t) && Printable(t) && off + Size(t) <= |img| == |buf|
  {
  }

  lemma {:induction false} NoAttribute(t: Type, img: Image, off: nat, rest: seq<Token>)
    requires IntegerBased(t) && off + Size(t) <= |img|
    ensures !IsAttribute(Head(ConstTokens(t, img, off) + rest)) && EndsType(ConstTokens(t, img, off) + rest)
  {
    hide ConstTokens;
    var h := ConstTokens(t, img, off)[0];
    assert Head(ConstTokens(t, img, off) + rest) == h;
    if h == ZERO {
      ZeroIsKeyword();
    }
  }

  lemma {:induction false} ZeroIsKeyword()
    ensures !IsAttribute(ZERO)
  {
    assert |"zeroinitializer"| == 15 && "zeroinitializer"[0] == 'z';
    assert "zeroinitializer" in KeywordsAt('z');
  }

  // ---------------------------------------------------------------------------
  // Arrays and vectors

  lemma {:induction false} ElementsBody(names: Names, t: Type, img: Image, c: Image, off: nat, buf: Buffer,
                                        close: char, rest: seq<Token>)
    requires (t.Array? && close == ']') || (t.Vector? && close == '>')
    requires Ready(t, img, off, buf) && |c| == |img| && Holds(t, img, off, c) && !ZeroRange(img, off, off + Size(t))
    ensures ClosedElementsAt(names, ElementsTokens(t, img, off, 0) + ([Punct(close)] + rest), t.elem, t.count, close,
                             off, buf)
      == Some((Copied(buf, c, off, off + Size(t)), rest))
    decreases t, 1
  {
    hide Holds, Copied, ElementsTokens;
    assert t.count > 0 by {
      if t.count == 0 {
        NoElements(t);
      }
    }
    ElementInside(t, 0);
    ElementsRead(names, t, img, c, off, 0, buf, close, [Punct(close)] + rest);
    assert Tail([Punct(close)] + rest) == rest;
  }

  lemma {:induction false} NoElements(t: Type)
    requires (t.Array? || t.Vector?) && t.count == 0
    ensures Size(t) == 0
  {
    assert Size(t.elem) * 0 == 0;
  }

  lemma {:induction false} ElementReady(t: Type, img: Image, c: Image, off: nat, i: nat, buf: Buffer)
    requires (t.Array? || t.Vector?) && i < t.count && IntegerBased(t) && Printable(t)
    requires off + Size(t) <= |img| == |buf| && |c| == |img| && Holds(t, img, off, c)
    requires ZeroRange(buf, off + ElementOffset(t.elem, i), off + Size(t))
    ensures Ready(t.elem, img, off + ElementOffset(t.elem, i), buf)
    ensures Holds(t.elem, img, off + ElementOffset(t.elem, i), c)
  {
    ElementInside(t, i);
    hide Size, ElementOffset;
    ElementHolds(t, img, off, c, i);
  }

  lemma {:induction false} ElementsRead(names: Names, t: Type, img: Image, c: Image, off: nat, i: nat, buf: Buffer,
                                        close: char,
                                        rest: seq<Token>)
    requires (t.Array? && close == ']') || (t.Vector? && close == '>')
    requires i < t.count && IntegerBased(t) && Printable(t) && off + Size(t) <= |img| == |buf| && |c| == |img|
    requires Holds(t, img, off, c)
    requires ElementOffset(t.elem, i) <= Size(t) && ZeroRange(buf, off + ElementOffset(t.elem, i), off + Size(t))
    requires Head(rest) == Punct(close)
    ensures ElementsAt(names, ElementsTokens(t, img, off, i) + rest, t.elem, t.count, i, close, off, buf)
      == Some((Copied(buf, c, off + ElementOffset(t.elem, i), off + Size(t)), rest))
    decreases t, 0, t.count - i
  {
    hide Holds, Copied, TypedAt, TypedTokens, Size, ElementOffset, ZeroRange, IntegerBased, Printable;
    var at := off + ElementOffset(t.elem, i);
    var end := at + Size(t.elem);
    ElementInside(t, i);
    ElementReady(t, img, c, off, i, buf);
    var buf1 := Copied(buf, c, at, end);
    TypedStart(t.elem, img, at, rest);
    if i + 1 < t.count {
      var more := ElementsTokens(t, img, off, i + 1) + rest;
      var next := [Punct(',')] + more;
      assert ElementsTokens(t, img, off, i) + rest == TypedTokens(t.elem, img, at) + next;
      TypedStart(t.elem, img, at, next);
      TypedRead(names, t.elem, img, c, at, buf, next);
      assert Tail(next) == more;
      CopiedLeaves(buf, c, at, end, off + Size(t));
      ElementsRead(names, t, img, c, off, i + 1, buf1, close, rest);
      CopiedTwice(buf, c, at, end, off + Size(t));
    } else {
      assert ElementsTokens(t, img, off, i) + rest == TypedTokens(t.elem, img, at) + rest;
      TypedRead(names, t.elem, img, c, at, buf, rest);
      assert end == off + Size(t);
    }
  }

  lemma {:induction false} TypedStart(t: Type, img: Image, off: nat, rest: seq<Token>)
    requires IntegerBased(t) && off + Size(t) <= |img|
    ensures var h := Head(TypedTokens(t, img, off) + rest);
      h.Word? || h == Punct('[') || h == Punct('<') || h == Punct('{')
  {
    hide ConstTokens, TypeTokens;
    TypeStart(t, ConstTokens(t, img, off) + rest);
    assert TypedTokens(t, img, off) + rest == TypeTokens(t) + (ConstTokens(t, img, off) + rest);
  }

  // ---------------------------------------------------------------------------
  // Structs

  lemma {:induction false} StructBody(names: Names, t: Type, img: Image, c: Image, off: nat, buf: Buffer,
                                      rest: seq<Token>)
    requires t.Struct? && Ready(t, img, off, buf) && |c| == |img| && Holds(t, img, off, c)
    requires !ZeroRange(img, off, off + Size(t))
    ensures ClosedFieldsAt(names, FieldsTokens(t, img, off, 0) + ([Punct('}')] + rest), t, off, buf)
      == Some((Copied(buf, c, off, off + Size(t)), rest))
    decreases t, 1
  {
    hide Copied, FieldsTokens, Size, Holds, ZeroRange, ClosedFieldsAt, FieldsAt, FieldOffset, FieldsEnd;
    ReadyFacts(t, img, off, buf);
    NotEmpty(t, img, off);
    FieldInside(t, 0);
    NothingBefore(t);
    StructTail(t, img, c, off);
    var end := FieldsEnd(t, |t.fields|);
    FieldsRead(names, t, img, c, off, 0, buf, [Punct('}')] + rest);
    CloseFields(names, FieldsTokens(t, img, off, 0) + ([Punct('}')] + rest), t, off, buf,
                Copied(buf, c, off, off + end), rest);
    CopiedLeaves(buf, c, off, off + end, off + Size(t));
    CopiedZeros(Copied(buf, c, off, off + end), c, off + end, off + Size(t));
    CopiedTwice(buf, c, off, off + end, off + Size(t));
  }

  lemma {:induction false} CloseFields(names: Names, toks: seq<Token>, t: Type, off: nat, buf: Buffer, buf': Buffer,
                                       rest: seq<Token>)
    requires t.Struct? && FieldsAt(names, toks, t, 0, off, buf) == Some((buf', [Punct('}')] + rest))
    ensures ClosedFieldsAt(names, toks, t, off, buf) == Some((buf', rest))
  {
    hide FieldsAt;
    assert Tail([Punct('}')] + rest) == rest;
  }

  lemma {:induction false} NothingBefore(t: Type)
    requires t.Struct?
    ensures FieldsEnd(t, 0) == 0
  {
  }

  lemma {:induction false} NotEmpty(t: Type, img: Image, off: nat)
    requires t.Struct? && off + Size(t) <= |img| && !ZeroRange(img, off, off + Size(t))
    ensures t.fields != []
  {
    if t.fields == [] {
      EmptyStruct(t);
    }
  }

  lemma {:induction false} StructTail(t: Type, img: Image, c: Image, off: nat)
    requires t.Struct? && |c| == |img| && Holds(t, img, off, c)
    ensures ZeroRange(c, off + FieldsEnd(t, |t.fields|), off + Size(t))
  {
    hide ZeroRange, Size, FieldsEnd, FieldOffset;
    GapHolds(t, img, off, c, |t.fields|);
  }

  lemma {:induction false} EmptyStruct(t: Type)
    requires t.Struct? && t.fields == []
    ensures Size(t) == 0
  {
  }

  lemma {:induction false} FieldReady(t: Type, img: Image, c: Image, off: nat, i: nat, buf: Buffer)
    requires t.Struct? && i < |t.fields| && IntegerBased(t) && Printable(t)
    requires off + Size(t) <= |img| == |buf| && |c| == |img| && Holds(t, img, off, c)
    requires FieldsEnd(t, i) <= Size(t) && ZeroRange(buf, off + FieldsEnd(t, i), off + Size(t))
    ensures FieldsEnd(t, i) <= FieldOffset(t, i)
    ensures FieldsEnd(t, i + 1) == FieldOffset(t, i) + Size(t.fields[i]) <= Size(t)
    ensures Ready(t.fields[i], img, off + FieldOffset(t, i), buf) && Holds(t.fields[i], img, off + FieldOffset(t, i), c)
    ensures Copied(buf, c, off + FieldsEnd(t, i), off + FieldOffset(t, i)) == buf
  {
    hide Size, FieldOffset, FieldsEnd, Holds, Copied;
    FieldsInOrder(t, i);
    FieldInside(t, i);
    FieldHolds(t, img, off, c, i);
    GapHolds(t, img, off, c, i);
    CopiedZeros(buf, c, off + FieldsEnd(t, i), off + FieldOffset(t, i));
  }

  lemma {:induction false} FieldsRead(names: Names, t: Type, img: Image, c: Image, off: nat, i: nat, buf: Buffer,
                                      rest: seq<Token>)
    requires t.Struct? && i < |t.fields| && IntegerBased(t) && Printable(t)
    requires off + Size(t) <= |img| == |buf| && |c| == |img| && Holds(t, img, off, c)
    requires FieldsEnd(t, i) <= FieldsEnd(t, |t.fields|) <= Size(t)
    requires ZeroRange(buf, off + FieldsEnd(t, i), off + Size(t))
    requires Head(rest) == Punct('}')
    ensures FieldsAt(names, FieldsTokens(t, img, off, i) + rest, t, i, off, buf)
      == Some((Copied(buf, c, off + FieldsEnd(t, i), off + FieldsEnd(t, |t.fields|)), rest))
    decreases t, 0, |t.fields| - i
  {
    hide Holds, Copied, TypedAt, TypedTokens, Size, FieldOffset, FieldsEnd;
    var at := off + FieldOffset(t, i);
    var end := off + FieldsEnd(t, i + 1);
    var last := off + FieldsEnd(t, |t.fields|);
    FieldReady(t, img, c, off, i, buf);
    var buf1 := Copied(buf, c, at, end);
    CopiedTwice(buf, c, off + FieldsEnd(t, i), at, end);
    TypedStart(t.fields[i], img, at, rest);
    if i + 1 < |t.fields| {
      var more := FieldsTokens(t, img, off, i + 1) + rest;
      var next := [Punct(',')] + more;
      assert FieldsTokens(t, img, off, i) + rest == TypedTokens(t.fields[i], img, at) + next;
      TypedStart(t.fields[i], img, at, next);
      TypedRead(names, t.fields[i], img, c, at, buf, next);
      assert Tail(next) == more;
      EndsGrow(t, i + 1, |t.fields|);
      CopiedLeaves(buf, c, off + FieldsEnd(t, i), end, off + Size(t));
      FieldsRead(names, t, img, c, off, i + 1, buf1, rest);
      CopiedTwice(buf, c, off + FieldsEnd(t, i), end, last);
    } else {
      assert FieldsTokens(t, img, off, i) + rest == TypedTokens(t.fields[i], img, at) + rest;
      TypedRead(names, t.fields[i], img, c, at, buf, rest);
    }
  }
}
