/**
 Lexing printed text: each printed piece becomes its tokens, whatever follows it.
 */
module TypeLex {
  import opened Wrappers
  import opened Numbers
  import opened Types
  import opened Lexer
  import opened TypeText

  /** A word cannot go on into rest. */
  predicate Delimits(rest: string) {
    rest == "" || !IsIdent(rest[0])
  }

  /** Nor can a decimal number. */
  predicate EndsNumber(rest: string) {
    rest == "" || !IsIdent(rest[0])
  }

  predicate IsWord(w: string) {
    && w != "" && w != "c" && (IsAlpha(w[0]) || w[0] == '_')
    && forall i :: 0 <= i < |w| ==> IsIdent(w[i])
  }

  lemma {:induction false} LexOne(s: string, t: Token, n: nat)
    requires s != "" && !IsBlank(s[0]) && s[0] != ';' && Scan(s) == (t, n)
    ensures Tokens(s) == [t] + Tokens(s[n..])
  {
    assert BlankRun(s) == 0 && s[0..] == s;
  }

  lemma {:induction false} LexPunct(c: char, rest: string)
    requires IsPunct(c)
    ensures Tokens([c] + rest) == [Punct(c)] + Tokens(rest)
  {
    var s := [c] + rest;
    LexOne(s, Punct(c), 1);
    assert s[1..] == rest;
  }

  lemma {:induction false} LexSpace(rest: string)
    ensures Tokens(" " + rest) == Tokens(rest)
  {
    var s := " " + rest;
    assert s[1..] == rest;
    assert s[BlankRun(s)..] == rest[BlankRun(rest)..];
  }

  lemma {:induction false} LexDots(rest: string)
    ensures Tokens("..." + rest) == [DotDotDot] + Tokens(rest)
  {
    var s := "..." + rest;
    LexOne(s, DotDotDot, 3);
    assert s[3..] == rest;
  }

  lemma {:induction false} LexWord(w: string, rest: string)
    requires IsWord(w) && Delimits(rest)
    ensures Tokens(w + rest) == [Word(w)] + Tokens(rest)
  {
    var s := w + rest;
    assert s[1..] == w[1..] + rest;
    assert (w[1..] + rest)[|w| - 1..] == rest;
    RunSplit(w[1..] + rest, |w| - 1);
    assert IdentRun(rest) == 0;
    assert s[..|w|] == w && s[|w|..] == rest;
    assert w[0] == 'c' ==> |w| > 1 && s[1] == w[1];
    LexOne(s, Word(w), |w|);
  }

  // ---------------------------------------------------------------------------
  // Decimal numbers

  lemma {:induction false} DecimalDigits(n: nat)
    ensures forall i :: 0 <= i < |Decimal(n)| ==> IsDigit(Decimal(n)[i])
    ensures Decimal(n)[0] == '0' ==> |Decimal(n)| == 1
    ensures n >= 10 ==> Decimal(n)[0] == Decimal(n / 10)[0]
    ensures n > 0 ==> Decimal(n)[0] != '0'
  {
    if n >= 10 {
      DecimalDigits(n / 10);
    }
  }

  lemma {:induction false} DigitsAppend(s: string, c: char, acc: nat)
    ensures DigitsValue(s + [c], acc) == DigitsValue(s, acc) * 10 + DigitValue(c)
    decreases |s|
  {
    if s == "" {
      assert (s + [c])[1..] == "";
    } else {
      assert (s + [c])[1..] == s[1..] + [c];
      DigitsAppend(s[1..], c, acc * 10 + DigitValue(s[0]));
    }
  }

  /** Reading the decimal digits of a number gives the number. */
  lemma {:induction false} DecimalValue(n: nat)
    ensures DigitsValue(Decimal(n), 0) == n
  {
    if n < 10 {
      assert Decimal(n)[1..] == "";
    } else {
      DecimalValue(n / 10);
      DigitsAppend(Decimal(n / 10), ('0' as nat + n % 10) as char, 0);
    }
  }

  function Signed(v: int): string {
    if v < 0 then "-" + Decimal(0 - v) else Decimal(v)
  }

  lemma {:induction false} LexSigned(v: int, rest: string)
    requires EndsNumber(rest)
    ensures Lexes(Signed(v), [IntLit(Wrap(v))], rest)
  {
    hide Decimal, DigitsValue, DigitRun, Wrap, Tokens, Scan;
    var m: nat := if v < 0 then 0 - v else v;
    var from := if v < 0 then 1 else 0;
    var s := Signed(v) + rest;
    var n := |Signed(v)|;
    DecimalDigits(m);
    DecimalValue(m);
    assert s[from..] == Decimal(m) + rest;
    DigitRunSplit(s[from..], |Decimal(m)|);
    assert s[from..][|Decimal(m)|..] == rest;
    NoDigits(rest);
    assert s[from..][..n - from] == Decimal(m);
    SignedStart(v, rest);
    IntScan(s, from, n);
    assert s[n..] == rest;
    ScanIsNumber(s);
    LexOne(s, IntLit(Wrap(v)), n);
  }

  lemma {:induction false} NoDigits(rest: string)
    requires EndsNumber(rest)
    ensures DigitRun(rest) == 0
  {
  }

  lemma {:induction false} ScanIsNumber(s: string)
    requires s != "" && (IsDigit(s[0]) || s[0] == '-')
    ensures Scan(s) == ScanNumber(s)
  {
    hide ScanNumber, QuoteRun, IdentRun, DigitRun;
  }

  /** A printed number does not start like a hexadecimal one, nor go on like a fraction. */
  lemma {:induction false} SignedStart(v: int, rest: string)
    requires EndsNumber(rest)
    ensures var s := Signed(v) + rest; var n := |Signed(v)|;
      && (IsDigit(s[0]) || s[0] == '-') && (s[0] == '-' <==> v < 0)
      && IsDigit(s[if v < 0 then 1 else 0])
      && !(s[0] == '0' && |s| > 1 && (s[1] == 'x' || s[1] == 'X'))
      && (n == |s| || !(s[n] == '.' || s[n] == 'e' || s[n] == 'E'))
  {
    hide Decimal;
    var m: nat := if v < 0 then 0 - v else v;
    DecimalDigits(m);
    assert Decimal(m)[0] == (Signed(v) + rest)[if v < 0 then 1 else 0];
  }

  lemma {:induction false} LexCount(n: nat, rest: string)
    requires EndsNumber(rest) && n < INT64
    ensures Lexes(Decimal(n), [IntLit(n)], rest)
  {
    LexSigned(n, rest);
    SmallMod(n + INT64, 2 * INT64);
  }

  // ---------------------------------------------------------------------------
  // Putting pieces together

  /** a, followed by rest, lexes to ts followed by the tokens of rest. */
  predicate Lexes(a: string, ts: seq<Token>, rest: string) {
    Tokens(a + rest) == ts + Tokens(rest)
  }

  lemma {:induction false} LexBoth(a: string, ta: seq<Token>, b: string, tb: seq<Token>, rest: string)
    requires Lexes(a, ta, b + rest) && Lexes(b, tb, rest)
    ensures Lexes(a + b, ta + tb, rest)
  {
    hide Tokens;
    assert (a + b) + rest == a + (b + rest);
    assert (ta + tb) + Tokens(rest) == ta + (tb + Tokens(rest));
  }

  lemma {:induction false} LexNothing(rest: string)
    ensures Lexes("", [], rest)
  {
    assert "" + rest == rest;
  }

  lemma {:induction false} SpaceBefore(b: string, tb: seq<Token>, rest: string)
    requires Lexes(b, tb, rest)
    ensures Lexes(" " + b, tb, rest)
  {
    LexSpace(b + rest);
    assert (" " + b) + rest == " " + (b + rest);
  }

  lemma {:induction false} PunctBefore(c: string, b: string, tb: seq<Token>, rest: string)
    requires |c| == 1 && IsPunct(c[0]) && Lexes(b, tb, rest)
    ensures Lexes(c + b, [Punct(c[0])] + tb, rest)
  {
    assert [c[0]] == c;
    LexPunct(c[0], b + rest);
    LexBoth(c, [Punct(c[0])], b, tb, rest);
  }

  lemma {:induction false} PunctLast(c: string, rest: string)
    requires |c| == 1 && IsPunct(c[0])
    ensures Lexes(c, [Punct(c[0])], rest)
  {
    assert [c[0]] == c;
    LexPunct(c[0], rest);
  }

  lemma {:induction false} WordLexes(w: string, rest: string)
    requires IsWord(w) && Delimits(rest)
    ensures Lexes(w, [Word(w)], rest)
  {
    LexWord(w, rest);
  }

  lemma {:induction false} Starts(c: string, b: string, rest: string)
    requires c != "" && !IsIdent(c[0])
    ensures Delimits(c + b + rest) && EndsNumber(c + b + rest)
    ensures Delimits((c + b) + rest) && EndsNumber((c + b) + rest)
  {
  }

  // ---------------------------------------------------------------------------
  // Types

  lemma {:induction false} ScalarWords(t: Type)
    requires IsScalar(t) || t.Fp128?
    ensures IsWord(Text(t)) && TypeTokens(t) == [Word(Text(t))]
  {
  }

  /** The text of a type, followed by something that ends a word, lexes to its tokens. */
  lemma {:induction false} LexType(t: Type, rest: string)
    requires Printable(t) && Delimits(rest)
    ensures Lexes(Text(t), TypeTokens(t), rest)
    decreases t, 2
  {
    match t
    case Array(elem, count) => LexCounted(t, "[", "]", rest);
    case Vector(elem, count) => LexCounted(t, "<", ">", rest);
    case Struct(fields, packed) => LexStruct(t, rest);
    case Func(ret, params, vararg) => LexFunc(t, rest);
    case Fp128 =>
    case _ =>
      ScalarWords(t);
      WordLexes(Text(t), rest);
  }

  lemma {:induction false} LexCounted(t: Type, open: string, close: string, rest: string)
    requires (t.Array? && open == "[" && close == "]") || (t.Vector? && open == "<" && close == ">")
    requires Printable(t)
    ensures Lexes(Text(t), TypeTokens(t), rest)
    decreases t, 1
  {
    hide Lexes;
    PunctLast(close, rest);
    LexType(t.elem, close + rest);
    LexBoth(Text(t.elem), TypeTokens(t.elem), close, [Punct(close[0])], rest);
    var s4, t4 := Text(t.elem) + close, TypeTokens(t.elem) + [Punct(close[0])];
    SpaceBefore(s4, t4, rest);
    Starts(" ", s4, rest);
    WordLexes("x", (" " + s4) + rest);
    LexBoth("x", [Word("x")], " " + s4, t4, rest);
    var s2, t2 := "x" + (" " + s4), [Word("x")] + t4;
    SpaceBefore(s2, t2, rest);
    Starts(" ", s2, rest);
    LexCount(t.count, (" " + s2) + rest);
    LexBoth(Decimal(t.count), [IntLit(t.count)], " " + s2, t2, rest);
    PunctBefore(open, Decimal(t.count) + (" " + s2), [IntLit(t.count)] + t2, rest);
    CountedParts(t, open, close);
  }

  lemma {:induction false} CountedParts(t: Type, open: string, close: string)
    requires (t.Array? && open == "[" && close == "]") || (t.Vector? && open == "<" && close == ">")
    ensures Text(t) == open + (Decimal(t.count) + (" " + ("x" + (" " + (Text(t.elem) + close)))))
    ensures TypeTokens(t)
      == [Punct(open[0])] + ([IntLit(t.count)] + ([Word("x")] + (TypeTokens(t.elem) + [Punct(close[0])])))
  {
    hide Decimal;
  }

  lemma {:induction false} LexStruct(t: Type, rest: string)
    requires t.Struct? && Printable(t)
    ensures Lexes(Text(t), TypeTokens(t), rest)
    decreases t, 1
  {
    hide Lexes, ListText, ListTokens;
    var end := if t.packed then "}" + ">" else "}";
    var tend := if t.packed then [Punct('}')] + [Punct('>')] else [Punct('}')];
    PunctLast(">", rest);
    PunctLast("}", rest);
    PunctBefore("}", ">", [Punct('>')], rest);
    SpaceBefore(end, tend, rest);
    Starts(" ", end, rest);
    LexList(t, t.fields, 0, (" " + end) + rest);
    var list, tlist := ListText(t, t.fields, 0), ListTokens(t, t.fields, 0);
    LexBoth(list, tlist, " " + end, tend, rest);
    SpaceBefore(list + (" " + end), tlist + tend, rest);
    PunctBefore("{", " " + (list + (" " + end)), tlist + tend, rest);
    PunctBefore("<", "{" + (" " + (list + (" " + end))), [Punct('{')] + (tlist + tend), rest);
    StructParts(t, list, tlist);
  }

  lemma {:induction false} StructParts(t: Type, list: string, tlist: seq<Token>)
    requires t.Struct? && list == ListText(t, t.fields, 0) && tlist == ListTokens(t, t.fields, 0)
    ensures t.packed ==> Text(t) == "<" + ("{" + (" " + (list + (" " + ("}" + ">")))))
    ensures !t.packed ==> Text(t) == "{" + (" " + (list + (" " + "}")))
    ensures t.packed ==> TypeTokens(t) == [Punct('<')] + ([Punct('{')] + (tlist + ([Punct('}')] + [Punct('>')])))
    ensures !t.packed ==> TypeTokens(t) == [Punct('{')] + (tlist + [Punct('}')])
  {
    hide ListText, ListTokens;
    assert [Punct('}')] + [Punct('>')] == [Punct('}'), Punct('>')];
    if t.packed {
      assert [Punct('<')] + ([Punct('{')] + (tlist + [Punct('}'), Punct('>')]))
        == [Punct('<'), Punct('{')] + (tlist + [Punct('}'), Punct('>')]);
    }
  }

  lemma {:induction false} LexFunc(t: Type, rest: string)
    requires t.Func? && Printable(t)
    ensures Lexes(Text(t), TypeTokens(t), rest)
    decreases t, 1
  {
    hide Lexes, ListText, ListTokens;
    var dots, tdots := VarargText(t.params, t.vararg), VarargTokens(t.params, t.vararg);
    PunctLast(")", rest);
    LexDotsBefore(t.params, t.vararg, rest);
    LexBoth(dots, tdots, ")", [Punct(')')], rest);
    var s3, t3 := dots + ")", tdots + [Punct(')')];
    LexList(t, t.params, 0, s3 + rest);
    var list, tlist := ListText(t, t.params, 0), ListTokens(t, t.params, 0);
    LexBoth(list, tlist, s3, t3, rest);
    PunctBefore("(", list + s3, tlist + t3, rest);
    SpaceBefore("(" + (list + s3), [Punct('(')] + (tlist + t3), rest);
    var s1 := " " + ("(" + (list + s3));
    Starts(" ", "(" + (list + s3), rest);
    LexType(t.ret, s1 + rest);
    LexBoth(Text(t.ret), TypeTokens(t.ret), s1, [Punct('(')] + (tlist + t3), rest);
  }

  lemma {:induction false} LexDotsBefore(params: seq<Type>, vararg: bool, rest: string)
    ensures Lexes(VarargText(params, vararg), VarargTokens(params, vararg), ")" + rest)
    ensures params != [] ==> Delimits((VarargText(params, vararg) + ")") + rest)
  {
    var close := ")" + rest;
    LexNothing(close);
    assert Lexes("...", [DotDotDot], close) by {
      LexDots(close);
    }
    SpaceBefore("...", [DotDotDot], close);
    PunctBefore(",", " " + "...", [DotDotDot], close);
    assert [Punct(',')] + [DotDotDot] == [Punct(','), DotDotDot];
    if params != [] {
      assert ((VarargText(params, vararg) + ")") + rest)[0] == if vararg then ',' else ')';
    }
  }

  /** An empty list may be followed by anything. */
  lemma {:induction false} LexList(whole: Type, ts: seq<Type>, i: nat, rest: string)
    requires forall k :: 0 <= k < |ts| ==> ts[k] < whole && Printable(ts[k])
    requires i >= |ts| || Delimits(rest)
    ensures Lexes(ListText(whole, ts, i), ListTokens(whole, ts, i), rest)
    decreases whole, 0, |ts| - i
  {
    hide Lexes, Text, TypeTokens;
    if i >= |ts| {
      LexNothing(rest);
    } else if i + 1 < |ts| {
      var more, tmore := ListText(whole, ts, i + 1), ListTokens(whole, ts, i + 1);
      LexList(whole, ts, i + 1, rest);
      SpaceBefore(more, tmore, rest);
      PunctBefore(",", " " + more, tmore, rest);
      Starts(",", " " + more, rest);
      LexType(ts[i], ("," + (" " + more)) + rest);
      LexBoth(Text(ts[i]), TypeTokens(ts[i]), "," + (" " + more), [Punct(',')] + tmore, rest);
    } else {
      LexType(ts[i], rest);
      assert Text(ts[i]) + "" == Text(ts[i]) && TypeTokens(ts[i]) + [] == TypeTokens(ts[i]);
    }
  }

  /** Main result: parsing the printed text of a type gives the type back and stops right
      behind it, unless a star or parenthesis follows. */
  lemma {:induction false} TypeRoundTrip(names: Names, t: Type, rest: string)
    requires Printable(t) && Delimits(rest) && EndsType(Tokens(rest))
    ensures TypeAt(names, Tokens(Text(t) + rest)) == Some((t, Tokens(rest)))
  {
    LexType(t, rest);
    TypeRead(names, t, Tokens(rest));
    SuffixDone(names, t, Tokens(rest));
  }

  /** With a star the type read is a pointer instead; fp128 is taken for a name. */
  lemma {:induction false} TypeNotRead(names: Names, t: Type, rest: seq<Token>)
    requires Printable(t)
    ensures TypeAt(names, TypeTokens(t) + ([Punct('*')] + rest)) == SuffixAt(names, Ptr, rest)
    ensures "fp128" !in names && EndsType(rest) ==>
      TypeAt(names, TypeTokens(Fp128) + rest) == Some((Struct([], false), rest))
  {
    TypeRead(names, t, [Punct('*')] + rest);
    assert Tail([Punct('*')] + rest) == rest;
    var toks := TypeTokens(Fp128) + rest;
    assert toks[0] == Word("fp128") && Tail(toks) == rest;
    NotAKeyword();
    assert ScalarOf("fp128") == None;
  }

  /** A name stands for the type it was given, or for an empty struct as long as it has none. */
  lemma {:induction false} NamedTypeRead(names: Names, w: string, rest: seq<Token>)
    requires EndsType(rest)
    ensures TypeAt(names, [LocalId(w)] + rest) == Some((if w in names then names[w] else Struct([], false), rest))
  {
    hide CountedAt, FieldsAt;
    var toks := [LocalId(w)] + rest;
    assert Tail(toks) == rest;
    SuffixDone(names, Named(names, w), rest);
  }

  /** The words of types, spelled out. */
  lemma {:induction false} WordTypes(names: Names, rest: string)
    requires Delimits(rest) && EndsType(Tokens(rest))
    ensures TypeAt(names, Tokens("void" + rest)) == Some((Void, Tokens(rest)))
    ensures TypeAt(names, Tokens("i1" + rest)) == Some((I1, Tokens(rest)))
    ensures TypeAt(names, Tokens("i8" + rest)) == Some((I8, Tokens(rest)))
    ensures TypeAt(names, Tokens("i16" + rest)) == Some((I16, Tokens(rest)))
    ensures TypeAt(names, Tokens("i32" + rest)) == Some((I32, Tokens(rest)))
    ensures TypeAt(names, Tokens("i64" + rest)) == Some((I64, Tokens(rest)))
    ensures TypeAt(names, Tokens("float" + rest)) == Some((Float, Tokens(rest)))
    ensures TypeAt(names, Tokens("double" + rest)) == Some((Double, Tokens(rest)))
    ensures TypeAt(names, Tokens("x86_fp80" + rest)) == Some((X86Fp80, Tokens(rest)))
    ensures TypeAt(names, Tokens("ptr" + rest)) == Some((Ptr, Tokens(rest)))
  {
    hide TypeAt, Tokens, EndsType, Delimits;
    TypeRoundTrip(names, Void, rest);
    TypeRoundTrip(names, I1, rest);
    TypeRoundTrip(names, I8, rest);
    TypeRoundTrip(names, I16, rest);
    TypeRoundTrip(names, I32, rest);
    TypeRoundTrip(names, I64, rest);
    TypeRoundTrip(names, Float, rest);
    TypeRoundTrip(names, Double, rest);
    TypeRoundTrip(names, X86Fp80, rest);
    TypeRoundTrip(names, Ptr, rest);
  }

  /** The brackets of types, spelled out. */
  lemma {:induction false} BracketTypes(names: Names, t: Type, n: nat, rest: string)
    requires Delimits(rest) && EndsType(Tokens(rest)) && Printable(t) && n < INT64
    ensures TypeAt(names, Tokens("[" + Decimal(n) + " x " + Text(t) + "]" + rest)) == Some((Array(t, n), Tokens(rest)))
    ensures TypeAt(names, Tokens("<" + Decimal(n) + " x " + Text(t) + ">" + rest)) == Some((Vector(t, n), Tokens(rest)))
    ensures TypeAt(names, Tokens("{ " + Text(t) + " }" + rest)) == Some((Struct([t], false), Tokens(rest)))
    ensures TypeAt(names, Tokens("<{ " + Text(t) + " }>" + rest)) == Some((Struct([t], true), Tokens(rest)))
  {
    hide TypeAt, Tokens, EndsType, Printable, Delimits, Text, Decimal;
    TypeForms(t, n);
    PrintableForms(t, n);
    TypeRoundTrip(names, Array(t, n), rest);
    TypeRoundTrip(names, Vector(t, n), rest);
    TypeRoundTrip(names, Struct([t], false), rest);
    TypeRoundTrip(names, Struct([t], true), rest);
  }

  lemma {:induction false} PrintableForms(t: Type, n: nat)
    requires Printable(t) && n < INT64
    ensures Printable(Array(t, n)) && Printable(Vector(t, n))
    ensures Printable(Struct([t], false)) && Printable(Struct([t], true))
  {
  }

  lemma {:induction false} CountedForm(open: string, d: string, e: string, close: string)
    ensures open + (d + (" " + ("x" + (" " + (e + close))))) == open + d + " x " + e + close
  {
    assert " " + ("x" + (" " + (e + close))) == " x " + (e + close);
  }

  lemma {:induction false} StructForm(e: string)
    ensures "{" + (" " + (e + (" " + "}"))) == "{ " + e + " }"
    ensures "<" + ("{" + (" " + (e + (" " + ("}" + ">"))))) == "<{ " + e + " }>"
  {
    assert " " + "}" == " }" && " " + ("}" + ">") == " }>";
    assert "{" + (" " + (e + " }")) == "{ " + (e + " }");
    assert "<" + ("{" + (" " + (e + " }>"))) == "<{ " + (e + " }>");
  }

  lemma {:induction false} TypeForms(t: Type, n: nat)
    ensures Text(Array(t, n)) == "[" + Decimal(n) + " x " + Text(t) + "]"
    ensures Text(Vector(t, n)) == "<" + Decimal(n) + " x " + Text(t) + ">"
    ensures Text(Struct([t], false)) == "{ " + Text(t) + " }"
    ensures Text(Struct([t], true)) == "<{ " + Text(t) + " }>"
  {
    hide Decimal;
    CountedForm("[", Decimal(n), Text(t), "]");
    CountedForm("<", Decimal(n), Text(t), ">");
    StructForm(Text(t));
    OneField(t);
    var s, p := Struct([t], false), Struct([t], true);
    hide ListText;
    assert Text(s) == "{" + (" " + (ListText(s, [t], 0) + (" " + "}")));
    assert Text(p) == "<" + ("{" + (" " + (ListText(p, [t], 0) + (" " + ("}" + ">")))));
  }

  lemma {:induction false} OneField(t: Type)
    ensures ListText(Struct([t], false), [t], 0) == ListText(Struct([t], true), [t], 0) == Text(t)
  {
    hide Text;
    assert Text(t) + "" == Text(t);
  }

  lemma {:induction false} NotAKeyword()
    ensures !IsKeyword("fp128")
  {
    assert |"fp128"| == 5 && "fp128"[1] == 'p' && "fp128"[2] == '1' && "fp128"[0] == 'f';
    assert forall w :: w in KeywordsAt('f') ==> |w| < 3 || w[2] != '1';
  }
}
