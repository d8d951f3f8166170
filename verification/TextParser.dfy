/**
 The recursive-descent parser of the text format, for types and initializers: one token of
 lookahead over a cursor, bytes written into a buffer in place.  Like the source it goes on
 after an error, which is remembered.
 */
module TextParser {
  import opened Wrappers
  import opened Numbers
  import opened ByteOrder
  import opened Types
  import opened Layout
  import opened Lexer
  import opened TypeText
  import opened InitText
  import opened InitRead
  import opened GlobalText

  class Parser {
    const cursor: Cursor
    const names: Names
    var cur: Token
    /** An error was reported, or a list was longer than the parser's 256 entries. */
    var hadError: bool
    /** A constant was met that is not part of this model. */
    var unsupported: bool

    ghost predicate Valid()
      reads this`cur, cursor
    {
      cursor.Valid() && (cur == Eof ==> cursor.Ahead() == [Eof])
    }

    ghost function Ahead(): (r: seq<Token>)
      requires Valid()
      reads this`cur, cursor
      ensures r != [] && r[0] == cur && Head(r) == cur
    {
      if cur == Eof then [Eof] else [cur] + cursor.Ahead()
    }

    /** Goes down with every token consumed. */
    ghost function Left(): nat
      requires Valid()
      reads this`cur, cursor
    {
      if cur == Eof then 0 else 1 + |cursor.src| - cursor.pos
    }

    ghost predicate Failed()
      reads this
    {
      hadError || unsupported
    }

    constructor (src: string, names: Names)
      ensures Valid() && Ahead() == Tokens(src) && !Failed() && this.names == names && fresh(cursor)
    {
      var c := new Cursor(src);
      assert src[0..] == src;
      var t := c.Next();
      cursor, cur, this.names, hadError, unsupported := c, t, names, false, false;
    }

    method Next()
      requires Valid()
      modifies this`cur, cursor
      ensures Valid() && Left() <= old(Left())
      ensures old(cur) != Eof ==> Ahead() == Tail(old(Ahead())) && Left() < old(Left())
      ensures old(cur) == Eof ==> Ahead() == old(Ahead())
    {
      hide Tokens, Scan;
      ghost var rest := cursor.Ahead();
      cur := cursor.Next();
    }

    method Match(t: Token) returns (matched: bool)
      requires Valid() && t != Eof
      modifies this`cur, cursor
      ensures Valid() && Left() <= old(Left())
      ensures matched <==> Head(old(Ahead())) == t
      ensures matched ==> Ahead() == Tail(old(Ahead())) && Left() < old(Left())
      ensures !matched ==> Ahead() == old(Ahead())
    {
      matched := cur == t;
      if matched {
        Next();
      }
    }

    method Expect(t: Token)
      requires Valid() && t != Eof
      modifies this`cur, this`hadError, cursor
      ensures Valid() && Left() <= old(Left()) && (old(hadError) ==> hadError)
      ensures Head(old(Ahead())) == t ==> Ahead() == Tail(old(Ahead())) && hadError == old(hadError)
      ensures Head(old(Ahead())) != t ==> hadError && Ahead() == old(Ahead())
    {
      var matched := Match(t);
      if !matched {
        hadError := true;
      }
    }

    // -------------------------------------------------------------------------
    // Types

    /** parse_type */
    method ParseType() returns (t: Type)
      requires Valid()
      modifies this`cur, this`hadError, cursor
      ensures Valid() && Left() <= old(Left()) && (old(hadError) ==> hadError)
      ensures TypeAt(names, old(Ahead())) == None ==> hadError
      ensures TypeAt(names, old(Ahead())).Some? ==>
                hadError == old(hadError) && (t, Ahead()) == TypeAt(names, old(Ahead())).value
      ensures TypeAt(names, old(Ahead())).Some? ==> Left() < old(Left())
      decreases Left(), 1
    {
      hide BaseAt, SuffixAt, Ahead, Left, Valid;
      t := ParseBase();
      t := ParseSuffixes(t);
    }

    method ParseBase() returns (t: Type)
      requires Valid()
      modifies this`cur, this`hadError, cursor
      ensures Valid() && Left() <= old(Left()) && (old(hadError) ==> hadError)
      ensures BaseAt(names, old(Ahead())) == None ==> hadError
      ensures BaseAt(names, old(Ahead())).Some? ==>
                hadError == old(hadError) && (t, Ahead()) == BaseAt(names, old(Ahead())).value && Left() < old(Left())
      decreases Left(), 0
    {
      hide CountedAt, TypeText.FieldsAt, IsKeyword, Ahead, Left, Valid, ScalarOf, Named;
      if cur == Punct('[') {
        Next();
        t := ParseCounted(']');
      } else if cur == Punct('{') {
        Next();
        t := ParseStruct(false);
      } else if cur == Punct('<') {
        Next();
        if cur.IntLit? {
          t := ParseCounted('>');
        } else {
          Expect(Punct('{'));
          t := ParseStruct(true);
          Expect(Punct('>'));
        }
      } else if cur.Word? && ScalarOf(cur.text).Some? {
        t := ScalarOf(cur.text).value;
        Next();
      } else if cur.LocalId? || (cur.Word? && !IsKeyword(cur.text)) {
        t := Named(names, cur.text);
        Next();
      } else {
        hadError := true;
        t := Void;
      }
    }

    /** Count, element type and closing bracket. */
    method ParseCounted(close: char) returns (t: Type)
      requires Valid()
      modifies this`cur, this`hadError, cursor
      ensures Valid() && Left() <= old(Left()) && (old(hadError) ==> hadError)
      ensures CountedAt(names, old(Ahead()), close) == None ==> hadError
      ensures CountedAt(names, old(Ahead()), close).Some? ==>
                hadError == old(hadError) && (t, Ahead()) == CountedAt(names, old(Ahead()), close).value
      decreases Left(), 2
    {
      hide TypeAt, Ahead, Left, Valid;
      var count := if cur.IntLit? then cur.value else 0;
      if cur.IntLit? {
        Next();
      } else {
        hadError := true;
      }
      Expect(Word("x"));
      var elem := ParseType();
      Expect(Punct(close));
      t := if close == ']' then Array(elem, count % UINT64) else Vector(elem, count % UINT64);
    }

    method ParseStruct(packed: bool) returns (t: Type)
      requires Valid()
      modifies this`cur, this`hadError, cursor
      ensures Valid() && Left() <= old(Left()) && (old(hadError) ==> hadError)
      ensures TypeText.FieldsAt(names, old(Ahead()), packed) == None ==> hadError
      ensures TypeText.FieldsAt(names, old(Ahead()), packed).Some? ==>
                hadError == old(hadError) && (t, Ahead()) == TypeText.FieldsAt(names, old(Ahead()), packed).value
      decreases Left(), 3
    {
      hide ListAt, Ahead, Left, Valid;
      var fields: seq<Type> := [];
      if cur != Punct('}') {
        var dots;
        fields, dots := ParseList(false);
      }
      Expect(Punct('}'));
      t := Struct(fields, packed);
    }

    /** Types separated by commas; with dots, an ellipsis after a comma ends the list. */
    method ParseList(dots: bool) returns (ts: seq<Type>, vararg: bool)
      requires Valid()
      modifies this`cur, this`hadError, cursor
      ensures Valid() && Left() <= old(Left()) && (old(hadError) ==> hadError)
      ensures ListAt(names, old(Ahead()), [], dots) == None ==> hadError
      ensures ListAt(names, old(Ahead()), [], dots).Some? ==>
                hadError == old(hadError) && (ts, vararg, Ahead()) == ListAt(names, old(Ahead()), [], dots).value
      decreases Left(), 2
    {
      hide TypeAt, ListAt, Ahead, Left, Valid;
      ghost var start, err := Ahead(), hadError;
      ts, vararg := [], false;
      var more := true;
      while more
        invariant Valid() && Left() <= old(Left()) && (err ==> hadError) && !vararg && |ts| <= 256
        invariant ListAt(names, start, [], dots) == None ==> hadError || ListAt(names, Ahead(), ts, dots) == None
        invariant ListAt(names, start, [], dots).Some? ==>
            hadError == err && ListAt(names, start, [], dots) == ListAt(names, Ahead(), ts, dots)
        invariant more
        decreases Left()
      {
        ghost var here := Ahead();
        ghost var left := Left();
        if |ts| == 256 {
          hadError := true;
          TooLong(names, here, ts, dots);
          return;
        }
        ListStuck(names, here, ts, dots);
        var t := ParseType();
        if TypeAt(names, here).Some? {
          ListStep(names, here, ts, dots, t, Ahead());
        }
        ts := ts + [t];
        var comma := Match(Punct(','));
        if !comma {
          return;
        }
        if dots && cur == DotDotDot {
          vararg := true;
          Next();
          return;
        }
      }
    }

    method ParseParams() returns (ts: seq<Type>, vararg: bool)
      requires Valid()
      modifies this`cur, this`hadError, cursor
      ensures Valid() && Left() <= old(Left()) && (old(hadError) ==> hadError)
      ensures ParamsAt(names, old(Ahead())) == None ==> hadError
      ensures ParamsAt(names, old(Ahead())).Some? ==>
                hadError == old(hadError) && (ts, vararg, Ahead()) == ParamsAt(names, old(Ahead())).value
      decreases Left(), 3
    {
      hide ListAt, Ahead, Left, Valid;
      ts, vararg := [], false;
      if cur != Punct(')') {
        if cur == DotDotDot {
          vararg := true;
          Next();
        } else {
          ts, vararg := ParseList(true);
        }
      }
      Expect(Punct(')'));
    }

    /** Pointer stars and parameter lists. */
    method ParseSuffixes(base: Type) returns (t: Type)
      requires Valid()
      modifies this`cur, this`hadError, cursor
      ensures Valid() && Left() <= old(Left()) && (old(hadError) ==> hadError)
      ensures SuffixAt(names, base, old(Ahead())) == None ==> hadError
      ensures SuffixAt(names, base, old(Ahead())).Some? ==>
                hadError == old(hadError) && (t, Ahead()) == SuffixAt(names, base, old(Ahead())).value
      decreases Left(), 0
    {
      hide ParamsAt, Ahead, Left, Valid;
      ghost var start, err := Ahead(), hadError;
      t := base;
      while cur == Punct('*') || cur == Punct('(')
        invariant Valid() && Left() <= old(Left()) && (err ==> hadError)
        invariant SuffixAt(names, base, start) == None ==> hadError || SuffixAt(names, t, Ahead()) == None
        invariant SuffixAt(names, base, start).Some? ==>
            hadError == err && SuffixAt(names, base, start) == SuffixAt(names, t, Ahead())
        decreases Left()
      {
        if cur == Punct('*') {
          Next();
          t := Ptr;
        } else {
          Next();
          var ts, vararg := ParseParams();
          t := Func(t, ts, vararg);
        }
      }
    }

    // -------------------------------------------------------------------------
    // Initializers

    /** memcpy of the first n bytes of a 64-bit value. */
    method StoreBytes(buf: array<Byte>, off: nat, v: nat, n: nat)
      requires off + n <= buf.Length
      modifies buf
      ensures buf[..] == Splice(old(buf[..]), off, Bytes(v, n))
    {
      hide Splice, Bytes;
      var rest := v;
      ghost var was, done: seq<Byte> := buf[..], [];
      assert was == was[..off] + done + was[off..];
      for k := 0 to n
        invariant |done| == k && off + n <= |was| == buf.Length
        invariant buf[..] == was[..off] + done + was[off + k..]
        invariant Bytes(v, n) == done + Bytes(rest, n - k)
      {
        BytesStep(done, rest, n - k);
        WriteOne(was, off, done, rest % 256);
        ghost var before := buf[..];
        buf[off + k] := rest % 256;
        assert buf[..] == before[off + k := rest % 256];
        done := done + [rest % 256];
        rest := rest / 256;
      }
      assert Bytes(rest, 0) == [] && done + [] == done;
      SpliceIs(was, off, done);
    }

    /** parse_init_field_value */
    method ParseValue(t: Type, off: nat, buf: array<Byte>)
      requires Valid()
      modifies this`cur, this`hadError, this`unsupported, cursor, buf
      ensures Valid() && Left() <= old(Left()) && (old(hadError) ==> hadError) && (old(unsupported) ==> unsupported)
      ensures ValueAt(names, old(Ahead()), t, off, old(buf[..])) == None ==> Failed()
      ensures ValueAt(names, old(Ahead()), t, off, old(buf[..])).Some? ==>
                hadError == old(hadError) && unsupported == old(unsupported)
                && (buf[..], Ahead()) == ValueAt(names, old(Ahead()), t, off, old(buf[..])).value
      decreases Left(), 2
    {
      hide AggregateAt, Ahead, Left, Valid, IsConstantExpr, Bytes, Splice, Size;
      var size := TypeSize(t);
      if cur == Punct('<') || cur == Punct('{') || cur == Punct('[') {
        ParseAggregate(t, off, buf);
      } else if (cur.Word? && IsConstantExpr(cur.text)) || cur.FloatLit? || cur.GlobalId? {
        unsupported := true;
      } else if cur.IntLit? {
        var v := cur.value;
        Next();
        if off + size <= buf.Length {
          StoreBytes(buf, off, v % UINT64, if size < 8 then size else 8);
        }
      } else if cur == Word("true") || cur == Word("false") {
        var b: Byte := if cur == Word("true") then 1 else 0;
        Next();
        if off + size <= buf.Length && size > 0 {
          ghost var was := buf[..];
          buf[off] := b;
          SpliceOne(was, off, b);
          assert buf[..] == was[off := b];
        }
      } else {
        Next();
      }
    }

    /** parse_aggregate_initializer */
    method ParseAggregate(t: Type, off: nat, buf: array<Byte>)
      requires cur == Punct('<') || cur == Punct('{') || cur == Punct('[')
      requires Valid()
      modifies this`cur, this`hadError, this`unsupported, cursor, buf
      ensures Valid() && Left() <= old(Left()) && (old(hadError) ==> hadError) && (old(unsupported) ==> unsupported)
      ensures AggregateAt(names, old(Ahead()), t, off, old(buf[..])) == None ==> Failed()
      ensures AggregateAt(names, old(Ahead()), t, off, old(buf[..])).Some? ==>
                hadError == old(hadError) && unsupported == old(unsupported)
                && (buf[..], Ahead()) == AggregateAt(names, old(Ahead()), t, off, old(buf[..])).value
      decreases Left(), 1
    {
      hide ClosedElementsAt, ClosedFieldsAt, Ahead, Left, Valid;
      if cur == Punct('<') {
        Next();
        if t.Vector? {
          ParseElements(t.elem, t.count, '>', off, buf);
          return;
        }
        Expect(Punct('{'));
        if !t.Struct? {
          unsupported := true;
          return;
        }
        ParseFields(t, off, buf);
        Expect(Punct('>'));
      } else if cur == Punct('[') {
        Next();
        if t.Array? {
          ParseElements(t.elem, t.count, ']', off, buf);
        } else {
          Expect(Punct(']'));
        }
      } else {
        Next();
        if !t.Struct? {
          unsupported := true;
          return;
        }
        ParseFields(t, off, buf);
      }
    }

    /** A type, and a value of the type that is due. */
    method ParseTyped(t: Type, off: nat, buf: array<Byte>)
      requires Valid()
      modifies this`cur, this`hadError, this`unsupported, cursor, buf
      ensures Valid() && Left() <= old(Left()) && (old(hadError) ==> hadError) && (old(unsupported) ==> unsupported)
      ensures TypedAt(names, old(Ahead()), t, off, old(buf[..])) == None ==> Failed()
      ensures TypedAt(names, old(Ahead()), t, off, old(buf[..])).Some? ==>
                hadError == old(hadError) && unsupported == old(unsupported)
                && (buf[..], Ahead()) == TypedAt(names, old(Ahead()), t, off, old(buf[..])).value
      decreases Left(), 3
    {
      hide TypeAt, ValueAt, Ahead, Left, Valid, IsAttribute;
      var printed := ParseType();
      if IsAttribute(cur) {
        unsupported := true;
        return;
      }
      ParseValue(t, off, buf);
    }

    method ParseElementList(elem: Type, count: nat, close: char, off: nat, buf: array<Byte>)
      requires Valid()
      modifies this`cur, this`hadError, this`unsupported, cursor, buf
      ensures Valid() && Left() <= old(Left()) && (old(hadError) ==> hadError) && (old(unsupported) ==> unsupported)
      ensures ElementsAt(names, old(Ahead()), elem, count, 0, close, off, old(buf[..])) == None ==> Failed()
      ensures ElementsAt(names, old(Ahead()), elem, count, 0, close, off, old(buf[..])).Some? ==>
                hadError == old(hadError) && unsupported == old(unsupported)
                && (buf[..], Ahead()) == ElementsAt(names, old(Ahead()), elem, count, 0, close, off, old(buf[..])).value
      decreases Left(), 4
    {
      hide TypedAt, ElementsAt, Ahead, Left, Valid, Size, ElementOffset;
      ghost var start, bytes, err, uns := Ahead(), buf[..], hadError, unsupported;
      var size := TypeSize(elem);
      var i := 0;
      while i < count && cur != Punct(close)
        invariant Valid() && Left() <= old(Left()) && (err ==> hadError) && (uns ==> unsupported)
        invariant ElementsAt(names, start, elem, count, 0, close, off, bytes) == None ==>
            Failed() || ElementsAt(names, Ahead(), elem, count, i, close, off, buf[..]) == None
        invariant ElementsAt(names, start, elem, count, 0, close, off, bytes).Some? ==>
            hadError == err && unsupported == uns
            && ElementsAt(names, start, elem, count, 0, close, off, bytes)
              == ElementsAt(names, Ahead(), elem, count, i, close, off, buf[..])
      {
        ghost var here, now := Ahead(), buf[..];
        ElementsUnfold(names, here, elem, count, i, close, off, now);
        OffsetIs(elem, i, size);
        ParseTyped(elem, off + i * size, buf);
        var comma := Match(Punct(','));
        i := i + 1;
        if !comma {
          return;
        }
      }
      ElementsEnd(names, Ahead(), elem, count, i, close, off, buf[..]);
    }

    method ParseElements(elem: Type, count: nat, close: char, off: nat, buf: array<Byte>)
      requires Valid()
      modifies this`cur, this`hadError, this`unsupported, cursor, buf
      ensures Valid() && Left() <= old(Left()) && (old(hadError) ==> hadError) && (old(unsupported) ==> unsupported)
      ensures ClosedElementsAt(names, old(Ahead()), elem, count, close, off, old(buf[..])) == None ==> Failed()
      ensures ClosedElementsAt(names, old(Ahead()), elem, count, close, off, old(buf[..])).Some? ==>
                hadError == old(hadError) && unsupported == old(unsupported)
                && (buf[..], Ahead())
                   == ClosedElementsAt(names, old(Ahead()), elem, count, close, off, old(buf[..])).value
      decreases Left(), 5
    {
      hide ElementsAt, Ahead, Left, Valid;
      ParseElementList(elem, count, close, off, buf);
      Expect(Punct(close));
    }

    method ParseFields(t: Type, off: nat, buf: array<Byte>)
      requires t.Struct?
      requires Valid()
      modifies this`cur, this`hadError, this`unsupported, cursor, buf
      ensures Valid() && Left() <= old(Left()) && (old(hadError) ==> hadError) && (old(unsupported) ==> unsupported)
      ensures ClosedFieldsAt(names, old(Ahead()), t, off, old(buf[..])) == None ==> Failed()
      ensures ClosedFieldsAt(names, old(Ahead()), t, off, old(buf[..])).Some? ==>
                hadError == old(hadError) && unsupported == old(unsupported)
                && (buf[..], Ahead()) == ClosedFieldsAt(names, old(Ahead()), t, off, old(buf[..])).value
      decreases Left(), 4
    {
      hide TypedAt, InitRead.FieldsAt, Ahead, Left, Valid, FieldOffset;
      ghost var start, bytes, err, uns := Ahead(), buf[..], hadError, unsupported;
      var i := 0;
      while i < |t.fields| && cur != Punct('}')
        invariant Valid() && Left() <= old(Left()) && (err ==> hadError) && (uns ==> unsupported)
        invariant InitRead.FieldsAt(names, start, t, 0, off, bytes) == None ==>
            Failed() || InitRead.FieldsAt(names, Ahead(), t, i, off, buf[..]) == None
        invariant InitRead.FieldsAt(names, start, t, 0, off, bytes).Some? ==>
            hadError == err && unsupported == uns
            && InitRead.FieldsAt(names, start, t, 0, off, bytes)
               == InitRead.FieldsAt(names, Ahead(), t, i, off, buf[..])
      {
        ghost var here, now := Ahead(), buf[..];
        FieldsUnfold(names, here, t, i, off, now);
        var fieldOff := StructFieldOffset(t, i);
        ParseTyped(t.fields[i], off + fieldOff, buf);
        var comma := Match(Punct(','));
        i := i + 1;
        if !comma {
          Expect(Punct('}'));
          return;
        }
      }
      FieldsLast(names, Ahead(), t, i, off, buf[..]);
      Expect(Punct('}'));
    }

    /** The initializer of a global of type t, after its type: the bytes stored for it. */
    method ParseInitializer(t: Type) returns (data: Image)
      requires Valid()
      modifies this`cur, this`hadError, this`unsupported, cursor
      ensures Valid() && (old(hadError) ==> hadError) && (old(unsupported) ==> unsupported)
      ensures DataAt(names, old(Ahead()), t) == None ==> Failed()
      ensures DataAt(names, old(Ahead()), t).Some? ==>
                && hadError == old(hadError) && unsupported == old(unsupported)
                && Some(data) == DataAt(names, old(Ahead()), t)
    {
      hide AggregateAt, Ahead, Left, Valid, IsConstantExpr, Bytes, Decode, Size, Splice;
      var size := TypeSize(t);
      data := [];
      if cur.StringLit? {
        if |cur.text| >= 3 && cur.text[0] == 'c' && cur.text[1] == '"' {
          data := DecodeLiteral(cur.text[2..|cur.text| - 1]);
        }
        Next();
      } else if cur.IntLit? {
        if 0 < size <= 8 {
          var buf := new Byte[size](_ => 0);
          ghost var was := buf[..];
          StoreBytes(buf, 0, cur.value % UINT64, size);
          data := buf[..];
          WholeSplice(was, Bytes(cur.value % UINT64, size));
        }
        Next();
      } else if cur == Punct('<') || cur == Punct('{') || cur == Punct('[') {
        if size > 0 {
          var buf := new Byte[size](_ => 0);
          assert buf[..] == Zeros(size);
          ParseAggregate(t, 0, buf);
          data := buf[..];
        }
      } else if (cur.Word? && IsConstantExpr(cur.text)) || cur.FloatLit? || cur.GlobalId? {
        unsupported := true;
      } else if cur == Word("true") {
        data := [1];
        Next();
      } else {
        Next();
      }
    }
  }

  lemma {:induction false} WholeSplice(was: Image, s: Image)
    requires |was| == |s|
    ensures Splice(was, 0, s) == s
  {
  }

  lemma {:induction false} SpliceOne(was: Image, off: nat, b: Byte)
    requires off < |was|
    ensures Splice(was, off, [b]) == was[off := b]
  {
  }

  lemma {:induction false} BytesStep(done: Image, v: nat, n: nat)
    requires n > 0
    ensures done + Bytes(v, n) == (done + [v % 256]) + Bytes(v / 256, n - 1)
  {
    assert Bytes(v, n) == [v % 256] + Bytes(v / 256, n - 1);
    assert done + ([v % 256] + Bytes(v / 256, n - 1)) == (done + [v % 256]) + Bytes(v / 256, n - 1);
  }

  lemma {:induction false} WriteOne(was: Image, off: nat, done: Image, b: Byte)
    requires off + |done| < |was|
    ensures (was[..off] + done + was[off + |done|..])[off + |done| := b]
      == was[..off] + (done + [b]) + was[off + |done| + 1..]
  {
  }

  lemma {:induction false} SpliceIs(was: Image, off: nat, s: Image)
    requires off + |s| <= |was|
    ensures Splice(was, off, s) == was[..off] + s + was[off + |s|..]
  {
  }

  lemma {:induction false} OffsetIs(elem: Type, i: nat, size: nat)
    requires size == Size(elem)
    ensures i * size == ElementOffset(elem, i)
  {
  }

  lemma {:induction false} ElementsUnfold(names: Names, toks: seq<Token>, elem: Type, count: nat, i: nat, close: char,
                                          off: nat, buf: Buffer)
    requires i < count && Head(toks) != Punct(close)
    ensures ElementsAt(names, toks, elem, count, i, close, off, buf) ==
      match TypedAt(names, toks, elem, off + ElementOffset(elem, i), buf)
      case None => None
      case Some((buf', rest)) =>
        if Head(rest) == Punct(',') then ElementsAt(names, Tail(rest), elem, count, i + 1, close, off, buf')
        else Some((buf', rest))
  {
    hide TypedAt, ElementOffset;
  }

  lemma {:induction false} ElementsEnd(names: Names, toks: seq<Token>, elem: Type, count: nat, i: nat, close: char,
                                       off: nat, buf: Buffer)
    requires i >= count || Head(toks) == Punct(close)
    ensures ElementsAt(names, toks, elem, count, i, close, off, buf) == Some((buf, toks))
  {
  }

  lemma {:induction false} FieldsUnfold(names: Names, toks: seq<Token>, t: Type, i: nat, off: nat, buf: Buffer)
    requires t.Struct? && i < |t.fields| && Head(toks) != Punct('}')
    ensures InitRead.FieldsAt(names, toks, t, i, off, buf) ==
      match TypedAt(names, toks, t.fields[i], off + FieldOffset(t, i), buf)
      case None => None
      case Some((buf', rest)) =>
        if Head(rest) == Punct(',') then InitRead.FieldsAt(names, Tail(rest), t, i + 1, off, buf')
        else Some((buf', rest))
  {
    hide TypedAt, FieldOffset;
  }

  lemma {:induction false} FieldsLast(names: Names, toks: seq<Token>, t: Type, i: nat, off: nat, buf: Buffer)
    requires t.Struct? && (i >= |t.fields| || Head(toks) == Punct('}'))
    ensures InitRead.FieldsAt(names, toks, t, i, off, buf) == Some((buf, toks))
  {
  }

  lemma {:induction false} TooLong(names: Names, toks: seq<Token>, acc: seq<Type>, dots: bool)
    requires |acc| >= 256
    ensures ListAt(names, toks, acc, dots) == None
  {
  }

  lemma {:induction false} ListStuck(names: Names, toks: seq<Token>, acc: seq<Type>, dots: bool)
    ensures TypeAt(names, toks) == None ==> ListAt(names, toks, acc, dots) == None
  {
    hide TypeAt;
  }
}
