/**
 Types as text: the printer, the parser of the text format as a function on tokens, and the
 proof that parsing undoes printing.
 */
module TypeText {
  import opened Wrappers
  import opened Numbers
  import opened Types
  import opened Lexer

  const UINT64: int := 0x1_0000_0000_0000_0000

  /** The keywords, by first character. */
  function KeywordsAt(c: char): set<string> {
    match c
    case 'a' => {"add", "and", "ashr", "alloca", "align"}
    case 'b' => {"br", "bitcast"}
    case 'c' => {"call", "cleanup", "catch", "constant", "common"}
    case 'd' => {"define", "declare", "dso_local", "double"}
    case 'e' => {"extractvalue", "external", "eq"}
    case 'f' => {"fadd", "fsub", "fmul", "fdiv", "frem", "fneg", "fcmp", "fptosi", "fptoui", "fpext",
      "fptrunc", "false", "float"}
    case 'g' => {"getelementptr", "global"}
    case 'i' => {"icmp", "inttoptr", "insertvalue", "invoke", "inbounds", "internal", "i1", "i8", "i16", "i32",
      "i64"}
    case 'l' => {"label", "lshr", "load", "landingpad", "linkonce_odr", "local_unnamed_addr"}
    case 'm' => {"mul"}
    case 'n' => {"nsw", "nuw", "nonnull", "noundef", "nocapture", "null", "nnan", "ninf", "nsz", "ne"}
    case 'o' => {"or", "opaque", "oeq", "one", "ogt", "oge", "olt", "ole", "ord"}
    case 'p' => {"phi", "ptrtoint", "personality", "private", "ptr"}
    case 'r' => {"ret", "resume", "readonly"}
    case 's' => {"sub", "sdiv", "srem", "shl", "store", "select", "sext", "sitofp", "switch", "signext", "sgt",
      "sge", "slt", "sle"}
    case 't' => {"trunc", "to", "type", "true"}
    case 'u' => {"udiv", "urem", "uitofp", "unreachable", "unwind", "unnamed_addr", "undef", "ugt", "uge",
      "ult", "ule", "ueq", "une", "uno"}
    case 'v' => {"void"}
    case 'w' => {"writeonly"}
    case 'x' => {"xor", "x86_fp80", "x"}
    case 'z' => {"zext", "zeroext", "zeroinitializer"}
    case _ => {}
  }

  predicate IsKeyword(w: string) {
    w != "" && w in KeywordsAt(w[0])
  }

  // ---------------------------------------------------------------------------
  // Printing

  function Decimal(n: nat): (s: string)
    ensures s != ""
  {
    if n < 10 then [('0' as nat + n) as char] else Decimal(n / 10) + [('0' as nat + n % 10) as char]
  }

  /** print_type */
  function Text(t: Type): string {
    match t
    case Void => "void"
    case I1 => "i1"
    case I8 => "i8"
    case I16 => "i16"
    case I32 => "i32"
    case I64 => "i64"
    case Float => "float"
    case Double => "double"
    case X86Fp80 => "x86_fp80"
    case Fp128 => "fp128"
    case Ptr => "ptr"
    case Array(elem, count) => "[" + (Decimal(count) + (" " + ("x" + (" " + (Text(elem) + "]")))))
    case Vector(elem, count) => "<" + (Decimal(count) + (" " + ("x" + (" " + (Text(elem) + ">")))))
    case Struct(fields, packed) =>
      if packed then "<" + ("{" + (" " + (ListText(t, fields, 0) + (" " + ("}" + ">")))))
      else "{" + (" " + (ListText(t, fields, 0) + (" " + "}")))
    case Func(ret, params, vararg) =>
      Text(ret) + (" " + ("(" + (ListText(t, params, 0) + (VarargText(params, vararg) + ")"))))
  }

  function VarargText(params: seq<Type>, vararg: bool): string {
    if !vararg then "" else if params == [] then "..." else "," + (" " + "...")
  }

  /** ts[i..], separated by commas. */
  function ListText(ghost whole: Type, ts: seq<Type>, i: nat): string
    requires forall k :: 0 <= k < |ts| ==> ts[k] < whole
    decreases whole, 0, |ts| - i
  {
    if i >= |ts| then ""
    else Text(ts[i]) + (if i + 1 < |ts| then "," + (" " + ListText(whole, ts, i + 1)) else "")
  }

  // ---------------------------------------------------------------------------
  // The tokens of a printed type

  function ScalarWord(t: Type): string {
    match t
    case Void => "void"
    case I1 => "i1"
    case I8 => "i8"
    case I16 => "i16"
    case I32 => "i32"
    case I64 => "i64"
    case Float => "float"
    case Double => "double"
    case X86Fp80 => "x86_fp80"
    case _ => "ptr"
  }

  predicate IsScalar(t: Type) {
    !t.Array? && !t.Vector? && !t.Struct? && !t.Func? && !t.Fp128?
  }

  function TypeTokens(t: Type): (r: seq<Token>)
    ensures r != []
  {
    match t
    case Array(elem, count) => [Punct('['), IntLit(count), Word("x")] + (TypeTokens(elem) + [Punct(']')])
    case Vector(elem, count) => [Punct('<'), IntLit(count), Word("x")] + (TypeTokens(elem) + [Punct('>')])
    case Struct(fields, packed) =>
      if packed then [Punct('<'), Punct('{')] + (ListTokens(t, fields, 0) + [Punct('}'), Punct('>')])
      else [Punct('{')] + (ListTokens(t, fields, 0) + [Punct('}')])
    case Func(ret, params, vararg) =>
      TypeTokens(ret) + ([Punct('(')] + (ListTokens(t, params, 0) + (VarargTokens(params, vararg) + [Punct(')')])))
    case Fp128 => [Word("fp128")]
    case _ => [Word(ScalarWord(t))]
  }

  function VarargTokens(params: seq<Type>, vararg: bool): seq<Token> {
    if !vararg then [] else if params == [] then [DotDotDot] else [Punct(','), DotDotDot]
  }

  function ListTokens(ghost whole: Type, ts: seq<Type>, i: nat): seq<Token>
    requires forall k :: 0 <= k < |ts| ==> ts[k] < whole
    decreases whole, 0, |ts| - i
  {
    if i >= |ts| then []
    else TypeTokens(ts[i]) + (if i + 1 < |ts| then [Punct(',')] + ListTokens(whole, ts, i + 1) else [])
  }

  // ---------------------------------------------------------------------------
  // Parsing

  /** Types of names; a name not known yet stands for an empty struct. */
  type Names = map<string, Type>

  function ScalarOf(w: string): Option<Type> {
    if w == "void" then Some(Void)
    else if w == "i1" then Some(I1)
    else if w == "i8" then Some(I8)
    else if w == "i16" then Some(I16)
    else if w == "i32" then Some(I32)
    else if w == "i64" then Some(I64)
    else if w == "float" then Some(Float)
    else if w == "double" then Some(Double)
    else if w == "x86_fp80" then Some(X86Fp80)
    else if w == "ptr" then Some(Ptr)
    else None
  }

  function Head(toks: seq<Token>): Token {
    if toks == [] then Eof else toks[0]
  }

  function Tail(toks: seq<Token>): (r: seq<Token>)
    ensures toks != [] ==> |r| < |toks|
  {
    if toks == [] then [] else toks[1..]
  }

  function Named(names: Names, w: string): Type {
    if w in names then names[w] else Struct([], false)
  }

  /** parse_type: the type and what follows it; None when an error is reported, or when a list
      is longer than the 256 the parser has room for. */
  function TypeAt(names: Names, toks: seq<Token>): (r: Option<(Type, seq<Token>)>)
    ensures r.Some? ==> |r.value.1| < |toks|
    decreases |toks|, 1
  {
    match BaseAt(names, toks)
    case None => None
    case Some((t, rest)) => SuffixAt(names, t, rest)
  }

  function BaseAt(names: Names, toks: seq<Token>): (r: Option<(Type, seq<Token>)>)
    ensures r.Some? ==> |r.value.1| < |toks|
    decreases |toks|, 0
  {
    match Head(toks)
    case Word(w) =>
      if ScalarOf(w).Some? then Some((ScalarOf(w).value, Tail(toks)))
      else if IsKeyword(w) then None
      else Some((Named(names, w), Tail(toks)))
    case LocalId(w) => Some((Named(names, w), Tail(toks)))
    case Punct(c) =>
      if c == '[' then CountedAt(names, Tail(toks), ']')
      else if c == '{' then FieldsAt(names, Tail(toks), false)
      else if c == '<' then
        if Head(Tail(toks)).IntLit? then CountedAt(names, Tail(toks), '>')
        else if Head(Tail(toks)) != Punct('{') then None
        else
          match FieldsAt(names, Tail(Tail(toks)), true)
          case None => None
          case Some((t, rest)) => if Head(rest) == Punct('>') then Some((t, Tail(rest))) else None
      else None
    case _ => None
  }

  /** N x T and the closing bracket. */
  function CountedAt(names: Names, toks: seq<Token>, close: char): (r: Option<(Type, seq<Token>)>)
    ensures r.Some? ==> |r.value.1| <= |toks|
    decreases |toks|, 2
  {
    if !Head(toks).IntLit? || Head(Tail(toks)) != Word("x") then None
    else
      match TypeAt(names, Tail(Tail(toks)))
      case None => None
      case Some((t, rest)) =>
        if Head(rest) != Punct(close) then None
        else
          var n := toks[0].value % UINT64;
          Some((if close == ']' then Array(t, n) else Vector(t, n), Tail(rest)))
  }

  function FieldsAt(names: Names, toks: seq<Token>, packed: bool): (r: Option<(Type, seq<Token>)>)
    ensures r.Some? ==> |r.value.1| < |toks|
    decreases |toks|, 3
  {
    if Head(toks) == Punct('}') then Some((Struct([], packed), Tail(toks)))
    else
      match ListAt(names, toks, [], false)
      case None => None
      case Some((ts, _, rest)) =>
        if Head(rest) == Punct('}') then Some((Struct(ts, packed), Tail(rest))) else None
  }

  /** Types separated by commas; in a parameter list, dots after a comma end it. */
  function ListAt(names: Names, toks: seq<Token>, acc: seq<Type>,
                  dots: bool): (r: Option<(seq<Type>, bool, seq<Token>)>)
    ensures r.Some? ==> |r.value.2| < |toks|
    decreases |toks|, 2
  {
    if |acc| >= 256 then None
    else
      match TypeAt(names, toks)
      case None => None
      case Some((t, rest)) =>
        if Head(rest) != Punct(',') then Some((acc + [t], false, rest))
        else if dots && Head(Tail(rest)) == DotDotDot then Some((acc + [t], true, Tail(Tail(rest))))
        else ListAt(names, Tail(rest), acc + [t], dots)
  }

  function ParamsAt(names: Names, toks: seq<Token>): (r: Option<(seq<Type>, bool, seq<Token>)>)
    ensures r.Some? ==> |r.value.2| < |toks|
    decreases |toks|, 3
  {
    var list: Option<(seq<Type>, bool, seq<Token>)> :=
      if Head(toks) == Punct(')') then Some(([], false, toks))
      else if Head(toks) == DotDotDot then Some(([], true, Tail(toks)))
      else ListAt(names, toks, [], true);
    match list
    case None => None
    case Some((ts, vararg, rest)) => if Head(rest) == Punct(')') then Some((ts, vararg, Tail(rest))) else None
  }

  /** Pointer stars and parameter lists after a type. */
  function SuffixAt(names: Names, t: Type, toks: seq<Token>): (r: Option<(Type, seq<Token>)>)
    ensures r.Some? ==> |r.value.1| <= |toks|
    decreases |toks|, 4
  {
    if Head(toks) == Punct('*') then SuffixAt(names, Ptr, Tail(toks))
    else if Head(toks) == Punct('(') then
      match ParamsAt(names, Tail(toks))
      case None => None
      case Some((ts, vararg, rest)) => SuffixAt(names, Func(t, ts, vararg), rest)
    else Some((t, toks))
  }

  // ---------------------------------------------------------------------------
  // Parsing the tokens of a printed type

  /** What the parser has room for: no fp128 (not a type word), lists of at most 256, counts
      that are 64-bit integers. */
  predicate Printable(t: Type) {
    match t
    case Fp128 => false
    case Array(elem, count) => count < INT64 && Printable(elem)
    case Vector(elem, count) => count < INT64 && Printable(elem)
    case Struct(fields, _) => |fields| <= 256 && forall i :: 0 <= i < |fields| ==> Printable(fields[i])
    case Func(ret, params, _) =>
      Printable(ret) && |params| <= 256 && forall i :: 0 <= i < |params| ==> Printable(params[i])
    case _ => true
  }

  predicate EndsType(toks: seq<Token>) {
    Head(toks) != Punct('*') && Head(toks) != Punct('(')
  }

  lemma {:induction false} TypeStart(t: Type, rest: seq<Token>)
    ensures var h := Head(TypeTokens(t) + rest);
      h.Word? || h == Punct('[') || h == Punct('<') || h == Punct('{')
  {
    match t
    case Func(ret, params, vararg) =>
      TypeStart(ret, [Punct('(')] + (ListTokens(t, params, 0) + (VarargTokens(params, vararg) + [Punct(')')])) + rest);
    case _ =>
  }

  // One step of each parsing function.

  lemma {:induction false} SuffixDone(names: Names, t: Type, rest: seq<Token>)
    requires EndsType(rest)
    ensures SuffixAt(names, t, rest) == Some((t, rest))
  {
  }

  lemma {:induction false} ListStep(names: Names, toks: seq<Token>, acc: seq<Type>, dots: bool, t: Type,
                                    rest: seq<Token>)
    requires |acc| < 256 && TypeAt(names, toks) == Some((t, rest))
    ensures ListAt(names, toks, acc, dots) ==
      if Head(rest) != Punct(',') then Some((acc + [t], false, rest))
      else if dots && Head(Tail(rest)) == DotDotDot then Some((acc + [t], true, Tail(Tail(rest))))
      else ListAt(names, Tail(rest), acc + [t], dots)
  {
    hide TypeAt;
  }

  lemma {:induction false} CountedStep(names: Names, toks: seq<Token>, close: char, n: nat, t: Type, inner: seq<Token>,
                                       rest: seq<Token>)
    requires toks == [IntLit(n), Word("x")] + inner && n < INT64
    requires TypeAt(names, inner) == Some((t, rest)) && Head(rest) == Punct(close)
    ensures CountedAt(names, toks, close) == Some((if close == ']' then Array(t, n) else Vector(t, n), Tail(rest)))
  {
    hide TypeAt;
    assert Tail(toks) == [Word("x")] + inner && Tail(Tail(toks)) == inner;
    SmallMod(n, UINT64);
  }

  lemma {:induction false} FieldsStep(names: Names, toks: seq<Token>, packed: bool, ts: seq<Type>, vararg: bool,
                                      rest: seq<Token>)
    requires Head(toks) != Punct('}') && ListAt(names, toks, [], false) == Some((ts, vararg, rest))
    requires Head(rest) == Punct('}')
    ensures FieldsAt(names, toks, packed) == Some((Struct(ts, packed), Tail(rest)))
  {
    hide ListAt;
  }

  lemma {:induction false} ParamsStep(names: Names, toks: seq<Token>, ts: seq<Type>, vararg: bool, rest: seq<Token>)
    requires Head(toks) != Punct(')') && Head(toks) != DotDotDot
    requires ListAt(names, toks, [], true) == Some((ts, vararg, rest)) && Head(rest) == Punct(')')
    ensures ParamsAt(names, toks) == Some((ts, vararg, Tail(rest)))
  {
    hide ListAt;
  }

  /** After the tokens of a type, parsing goes on with that type and the suffixes. */
  lemma {:induction false} TypeRead(names: Names, t: Type, rest: seq<Token>)
    requires Printable(t)
    ensures TypeAt(names, TypeTokens(t) + rest) == SuffixAt(names, t, rest)
    decreases t, 2
  {
    match t
    case Array(elem, count) => CountedRead(names, t, rest);
    case Vector(elem, count) => CountedRead(names, t, rest);
    case Struct(fields, packed) => StructRead(names, t, rest);
    case Func(ret, params, vararg) => FuncRead(names, t, rest);
    case Fp128 =>
    case _ => ScalarRead(names, t, rest);
  }

  lemma {:induction false} ScalarRead(names: Names, t: Type, rest: seq<Token>)
    requires IsScalar(t)
    ensures TypeAt(names, TypeTokens(t) + rest) == SuffixAt(names, t, rest)
  {
    hide SuffixAt;
    var toks := TypeTokens(t) + rest;
    assert Head(toks) == Word(ScalarWord(t)) && Tail(toks) == rest;
    assert ScalarOf(ScalarWord(t)) == Some(t);
  }

  lemma {:induction false} CountedRead(names: Names, t: Type, rest: seq<Token>)
    requires (t.Array? || t.Vector?) && Printable(t)
    ensures TypeAt(names, TypeTokens(t) + rest) == SuffixAt(names, t, rest)
    decreases t, 1
  {
    var close := if t.Array? then ']' else '>';
    var open := if t.Array? then '[' else '<';
    var after := [Punct(close)] + rest;
    var inner := TypeTokens(t.elem) + after;
    var counted := [IntLit(t.count), Word("x")] + inner;
    assert TypeTokens(t) + rest == [Punct(open)] + counted;
    TypeRead(names, t.elem, after);
    SuffixDone(names, t.elem, after);
    CountedStep(names, counted, close, t.count, t.elem, inner, after);
    assert Tail(after) == rest;
    OpenCounted(names, t, counted, rest);
  }

  lemma {:induction false} OpenCounted(names: Names, t: Type, counted: seq<Token>, rest: seq<Token>)
    requires t.Array? || t.Vector?
    requires counted != [] && counted[0].IntLit?
    requires CountedAt(names, counted, if t.Array? then ']' else '>') == Some((t, rest))
    ensures TypeAt(names, [Punct(if t.Array? then '[' else '<')] + counted) == SuffixAt(names, t, rest)
  {
    hide CountedAt, SuffixAt;
    var toks := [Punct(if t.Array? then '[' else '<')] + counted;
    assert Tail(toks) == counted;
  }

  lemma {:induction false} StructRead(names: Names, t: Type, rest: seq<Token>)
    requires t.Struct? && Printable(t)
    ensures TypeAt(names, TypeTokens(t) + rest) == SuffixAt(names, t, rest)
    decreases t, 1
  {
    hide TypeAt, SuffixAt, ListAt, FieldsAt;
    var after := if t.packed then [Punct('>')] + rest else rest;
    var close := [Punct('}')] + after;
    var body := ListTokens(t, t.fields, 0) + close;
    assert Tail(close) == after;
    if t.fields == [] {
      assert body == close;
      NoFields(names, close, t.packed);
    } else {
      ListStart(t, t.fields, 0, close);
      ListRead(names, t, t.fields, 0, [], false, close);
      assert [] + t.fields[0..] == t.fields;
      FieldsStep(names, body, t.packed, t.fields, false, close);
    }
    OpenStruct(names, t, body, rest);
  }

  lemma {:induction false} NoFields(names: Names, toks: seq<Token>, packed: bool)
    requires Head(toks) == Punct('}')
    ensures FieldsAt(names, toks, packed) == Some((Struct([], packed), Tail(toks)))
  {
  }

  lemma {:induction false} OpenStruct(names: Names, t: Type, body: seq<Token>, rest: seq<Token>)
    requires t.Struct?
    requires body == ListTokens(t, t.fields, 0) + ([Punct('}')] + if t.packed then [Punct('>')] + rest else rest)
    requires FieldsAt(names, body, t.packed) == Some((t, if t.packed then [Punct('>')] + rest else rest))
    ensures TypeAt(names, TypeTokens(t) + rest) == SuffixAt(names, t, rest)
  {
    hide FieldsAt, SuffixAt, ListTokens, CountedAt;
    var toks := TypeTokens(t) + rest;
    if t.packed {
      assert toks == [Punct('<')] + ([Punct('{')] + body);
      assert Tail(toks) == [Punct('{')] + body && Tail(Tail(toks)) == body;
      assert Tail([Punct('>')] + rest) == rest;
      assert Head(Tail(toks)) == Punct('{');
    } else {
      assert toks == [Punct('{')] + body;
      assert Tail(toks) == body;
    }
  }

  lemma {:induction false} ListStart(whole: Type, ts: seq<Type>, i: nat, rest: seq<Token>)
    requires i < |ts| && forall k :: 0 <= k < |ts| ==> ts[k] < whole
    ensures var h := Head(ListTokens(whole, ts, i) + rest);
      h.Word? || h == Punct('[') || h == Punct('<') || h == Punct('{')
  {
    var more := if i + 1 < |ts| then [Punct(',')] + ListTokens(whole, ts, i + 1) else [];
    TypeStart(ts[i], more + rest);
    assert ListTokens(whole, ts, i) + rest == TypeTokens(ts[i]) + (more + rest);
  }

  lemma {:induction false} ListSplit(whole: Type, ts: seq<Type>, i: nat, rest: seq<Token>)
    requires i < |ts| && forall k :: 0 <= k < |ts| ==> ts[k] < whole
    ensures ListTokens(whole, ts, i) + rest ==
      TypeTokens(ts[i]) + if i + 1 < |ts| then [Punct(',')] + (ListTokens(whole, ts, i + 1) + rest) else rest
  {
    hide TypeTokens;
  }

  lemma {:induction false} ListRead(names: Names, whole: Type, ts: seq<Type>, i: nat, acc: seq<Type>, dots: bool,
                                    rest: seq<Token>)
    requires i < |ts| && |acc| + (|ts| - i) <= 256
    requires forall k :: 0 <= k < |ts| ==> ts[k] < whole && Printable(ts[k])
    requires EndsType(rest) && Head(rest) != Punct(',')
    ensures ListAt(names, ListTokens(whole, ts, i) + rest, acc, dots) == Some((acc + ts[i..], false, rest))
    decreases whole, 0, |ts| - i
  {
    hide TypeAt, ListAt, SuffixAt, ListTokens, TypeTokens, Printable;
    var toks := ListTokens(whole, ts, i) + rest;
    ListSplit(whole, ts, i, rest);
    if i + 1 < |ts| {
      var more := ListTokens(whole, ts, i + 1) + rest;
      var next := [Punct(',')] + more;
      TypeRead(names, ts[i], next);
      SuffixDone(names, ts[i], next);
      assert Tail(next) == more;
      ListStart(whole, ts, i + 1, rest);
      ListStep(names, toks, acc, dots, ts[i], next);
      ListRead(names, whole, ts, i + 1, acc + [ts[i]], dots, rest);
      assert (acc + [ts[i]]) + ts[i + 1..] == acc + ts[i..];
    } else {
      TypeRead(names, ts[i], rest);
      SuffixDone(names, ts[i], rest);
      ListStep(names, toks, acc, dots, ts[i], rest);
      assert acc + [ts[i]] == acc + ts[i..];
    }
  }

  lemma {:induction false} VarargRead(names: Names, whole: Type, ts: seq<Type>, i: nat, acc: seq<Type>, end: seq<Token>)
    requires i < |ts| && |acc| + (|ts| - i) <= 256
    requires forall k :: 0 <= k < |ts| ==> ts[k] < whole && Printable(ts[k])
    ensures ListAt(names, ListTokens(whole, ts, i) + ([Punct(','), DotDotDot] + end), acc, true)
      == Some((acc + ts[i..], true, end))
    decreases whole, 0, |ts| - i
  {
    hide TypeAt, ListAt, SuffixAt, ListTokens, TypeTokens;
    var dots := [Punct(','), DotDotDot] + end;
    var toks := ListTokens(whole, ts, i) + dots;
    ListSplit(whole, ts, i, dots);
    if i + 1 < |ts| {
      var more := ListTokens(whole, ts, i + 1) + dots;
      var next := [Punct(',')] + more;
      TypeRead(names, ts[i], next);
      SuffixDone(names, ts[i], next);
      assert Tail(next) == more;
      ListStart(whole, ts, i + 1, dots);
      ListStep(names, toks, acc, true, ts[i], next);
      VarargRead(names, whole, ts, i + 1, acc + [ts[i]], end);
      assert (acc + [ts[i]]) + ts[i + 1..] == acc + ts[i..];
    } else {
      TypeRead(names, ts[i], dots);
      SuffixDone(names, ts[i], dots);
      assert Tail(dots) == [DotDotDot] + end && Tail(Tail(dots)) == end;
      ListStep(names, toks, acc, true, ts[i], dots);
      assert acc + [ts[i]] == acc + ts[i..];
    }
  }

  lemma {:induction false} FuncRead(names: Names, t: Type, rest: seq<Token>)
    requires t.Func? && Printable(t)
    ensures TypeAt(names, TypeTokens(t) + rest) == SuffixAt(names, t, rest)
    decreases t, 1
  {
    hide TypeAt, ListAt, ParamsAt, ListTokens, SuffixAt;
    var params := ListTokens(t, t.params, 0) + (VarargTokens(t.params, t.vararg) + ([Punct(')')] + rest));
    assert TypeTokens(t) + rest == TypeTokens(t.ret) + ([Punct('(')] + params);
    TypeRead(names, t.ret, [Punct('(')] + params);
    ParamsRead(names, t, rest);
    SuffixCall(names, t, params, rest);
  }

  lemma {:induction false} SuffixCall(names: Names, t: Type, params: seq<Token>, rest: seq<Token>)
    requires t.Func? && ParamsAt(names, params) == Some((t.params, t.vararg, rest))
    ensures SuffixAt(names, t.ret, [Punct('(')] + params) == SuffixAt(names, t, rest)
  {
    hide ParamsAt;
    assert Tail([Punct('(')] + params) == params;
  }

  lemma {:induction false} ParamsRead(names: Names, t: Type, rest: seq<Token>)
    requires t.Func? && Printable(t)
    ensures ParamsAt(names, ListTokens(t, t.params, 0) + (VarargTokens(t.params, t.vararg) + ([Punct(')')] + rest)))
      == Some((t.params, t.vararg, rest))
    decreases t, 0, |t.params| + 1
  {
    hide TypeAt, ListAt, SuffixAt, ParamsAt, TypeTokens;
    var end := [Punct(')')] + rest;
    assert Tail(end) == rest;
    if t.params == [] {
      assert ListTokens(t, t.params, 0) + (VarargTokens(t.params, t.vararg) + end) == VarargTokens([], t.vararg) + end;
      NoParams(names, t.vararg, end);
    } else {
      SomeParams(names, t, end);
    }
  }

  lemma {:induction false} SomeParams(names: Names, t: Type, end: seq<Token>)
    requires t.Func? && Printable(t) && t.params != [] && Head(end) == Punct(')')
    ensures ParamsAt(names, ListTokens(t, t.params, 0) + (VarargTokens(t.params, t.vararg) + end))
      == Some((t.params, t.vararg, Tail(end)))
    decreases t, 0, |t.params| + 1, 0
  {
    assert EndsType(end) && Head(end) != Punct(',');
    hide TypeAt, ListAt, SuffixAt, ParamsAt, TypeTokens, ListTokens, EndsType;
    var dots := VarargTokens(t.params, t.vararg) + end;
    var params := ListTokens(t, t.params, 0) + dots;
    ListStart(t, t.params, 0, dots);
    assert [] + t.params[0..] == t.params;
    if t.vararg {
      VarargRead(names, t, t.params, 0, [], end);
    } else {
      assert dots == end;
      ListRead(names, t, t.params, 0, [], true, end);
    }
    ParamsStep(names, params, t.params, t.vararg, end);
  }

  lemma {:induction false} NoParams(names: Names, vararg: bool, end: seq<Token>)
    requires Head(end) == Punct(')')
    ensures ParamsAt(names, VarargTokens([], vararg) + end) == Some(([], vararg, Tail(end)))
  {
    hide ListAt;
    if vararg {
      assert Tail([DotDotDot] + end) == end;
    } else {
      assert VarargTokens([], vararg) + end == end;
    }
  }
}
