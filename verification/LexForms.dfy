/**
 The forms of the text format's tokens, and the proof that a text made of them, with blanks and
 comments in between, lexes to exactly these tokens.
 */
module LexForms {
  import opened Numbers
  import opened Lexer
  import opened TypeText
  import opened TypeLex

  /** What a writer of the format puts down; names and words are made of identifier characters. */
  datatype Lexeme =
    | Local(name: string)
    | Global(name: string)
    | QuotedLocal(name: string)
    | QuotedGlobal(name: string)
    | Metadata(name: string)
    | Attributes(n: nat)
    | Keyword(word: string)
    | Integer(value: int)
    | Hex(digits: string)
    | Decimals(whole: nat, fraction: string)
    | Quoted(text: string)
    | Mark(c: char)
    | Dots

  datatype Gap = Blank(c: char) | Comment(text: string)

  predicate AllIdent(s: string) {
    forall i :: 0 <= i < |s| ==> IsIdent(s[i])
  }

  predicate NoQuote(s: string) {
    forall i :: 0 <= i < |s| ==> s[i] != '"' && s[i] != '\\'
  }

  predicate Written(l: Lexeme) {
    match l
    case Local(name) => AllIdent(name)
    case Global(name) => AllIdent(name)
    case QuotedLocal(name) => NoQuote(name)
    case QuotedGlobal(name) => NoQuote(name)
    case Metadata(name) => AllIdent(name)
    case Keyword(word) => word != "" && (IsAlpha(word[0]) || word[0] == '_') && AllIdent(word)
    case Integer(value) => -INT64 <= value < INT64
    case Hex(digits) => forall i :: 0 <= i < |digits| ==> IsHex(digits[i])
    case Decimals(_, fraction) => forall i :: 0 <= i < |fraction| ==> IsDigit(fraction[i])
    case Quoted(text) => NoQuote(text)
    case Mark(c) => c in "(){}[],=*:<>"
    case _ => true
  }

  function Spelling(l: Lexeme): string {
    match l
    case Local(name) => "%" + name
    case Global(name) => "@" + name
    case QuotedLocal(name) => "%\"" + (name + "\"")
    case QuotedGlobal(name) => "@\"" + (name + "\"")
    case Metadata(name) => "!" + name
    case Attributes(n) => "#" + Decimal(n)
    case Keyword(word) => word
    case Integer(value) => Signed(value)
    case Hex(digits) => "0x" + digits
    case Decimals(whole, fraction) => Decimal(whole) + ("." + fraction)
    case Quoted(text) => "\"" + (text + "\"")
    case Mark(c) => [c]
    case Dots => "..."
  }

  function TokenOf(l: Lexeme): Token {
    match l
    case Local(_) => LocalId(Spelling(l))
    case Global(_) => GlobalId(Spelling(l))
    case QuotedLocal(_) => LocalId(Spelling(l))
    case QuotedGlobal(_) => GlobalId(Spelling(l))
    case Metadata(_) => MetadataId(Spelling(l))
    case Attributes(_) => AttrGroup(Spelling(l))
    case Keyword(word) => Word(word)
    case Integer(value) => IntLit(value)
    case Hex(_) => FloatLit(Spelling(l))
    case Decimals(_, _) => FloatLit(Spelling(l))
    case Quoted(_) => StringLit(Spelling(l))
    case Mark(c) => Punct(c)
    case Dots => DotDotDot
  }

  predicate IsGap(g: Gap) {
    match g
    case Blank(c) => c == ' ' || c == '\t' || c == '\r' || c == '\n'
    case Comment(text) => '\n' !in text
  }

  function GapText(g: Gap): string {
    match g
    case Blank(c) => [c]
    case Comment(text) => ";" + (text + "\n")
  }

  function GapsText(gs: seq<Gap>): string {
    if gs == [] then "" else GapText(gs[0]) + GapsText(gs[1..])
  }

  /** Lexemes, each followed by at least one blank or comment. */
  function TextOf(ls: seq<(Lexeme, seq<Gap>)>): string {
    if ls == [] then "" else Spelling(ls[0].0) + (GapsText(ls[0].1) + TextOf(ls[1..]))
  }

  predicate AreGaps(gs: seq<Gap>) {
    forall k :: 0 <= k < |gs| ==> IsGap(gs[k])
  }

  predicate AllWritten(ls: seq<(Lexeme, seq<Gap>)>) {
    ls == [] || (Written(ls[0].0) && ls[0].1 != [] && AreGaps(ls[0].1) && AllWritten(ls[1..]))
  }

  function TokensOf(ls: seq<(Lexeme, seq<Gap>)>): seq<Token> {
    if ls == [] then [Eof] else [TokenOf(ls[0].0)] + TokensOf(ls[1..])
  }

  // ---------------------------------------------------------------------------
  // Gaps

  lemma {:induction false} LineEnds(text: string, rest: string)
    requires '\n' !in text
    ensures LineRun(text + ("\n" + rest)) == |text|
  {
    var s := text + ("\n" + rest);
    if text != "" {
      assert s[1..] == text[1..] + ("\n" + rest);
      LineEnds(text[1..], rest);
    }
  }

  lemma {:induction false} SkipTo(s: string, n: nat, rest: string)
    requires n <= |s| && s[n..] == rest && BlankRun(s) == n + BlankRun(rest)
    ensures Tokens(s) == Tokens(rest)
  {
    hide BlankRun;
    assert s[BlankRun(s)..] == rest[BlankRun(rest)..];
  }

  lemma {:induction false} BlankSkipped(c: char, rest: string)
    requires IsBlank(c)
    ensures BlankRun([c] + rest) == 1 + BlankRun(rest)
  {
    assert ([c] + rest)[1..] == rest;
  }

  lemma {:induction false} CommentSkipped(text: string, rest: string)
    requires '\n' !in text
    ensures BlankRun(";" + (text + ("\n" + rest))) == 2 + |text| + BlankRun(rest)
  {
    var line := "\n" + rest;
    var s := ";" + (text + line);
    assert s[1..] == text + line;
    LineEnds(text, rest);
    assert LineRun(s) == 1 + |text|;
    assert s[1 + |text|..] == line;
    BlankSkipped('\n', rest);
  }

  /** A blank, or a comment with the newline that ends it, changes no tokens. */
  lemma {:induction false} GapSkipped(g: Gap, rest: string)
    requires IsGap(g)
    ensures Tokens(GapText(g) + rest) == Tokens(rest)
  {
    hide Tokens, BlankRun;
    var s := GapText(g) + rest;
    match g
    case Blank(c) =>
      BlankSkipped(c, rest);
      SkipTo(s, 1, rest);
    case Comment(text) =>
      CommentSkipped(text, rest);
      assert s == ";" + (text + ("\n" + rest));
      SkipTo(s, 2 + |text|, rest);
  }

  lemma {:induction false} GapsSkipped(gs: seq<Gap>, rest: string)
    requires AreGaps(gs)
    ensures Tokens(GapsText(gs) + rest) == Tokens(rest)
    ensures gs != [] ==> GapsText(gs) != "" && !IsIdent(GapsText(gs)[0]) && GapsText(gs)[0] != '"'
  {
    hide Tokens;
    if gs == [] {
      assert GapsText(gs) + rest == rest;
    } else {
      GapSkipped(gs[0], GapsText(gs[1..]) + rest);
      GapsSkipped(gs[1..], rest);
      assert GapsText(gs) + rest == GapText(gs[0]) + (GapsText(gs[1..]) + rest);
    }
  }

  // ---------------------------------------------------------------------------
  // Lexemes

  lemma {:induction false} IdentEnds(name: string, rest: string)
    requires AllIdent(name) && Delimits(rest)
    ensures IdentRun(name + rest) == |name|
  {
    RunSplit(name + rest, |name|);
    assert (name + rest)[|name|..] == rest;
  }

  lemma {:induction false} HexEnds(digits: string, rest: string)
    requires (forall i :: 0 <= i < |digits| ==> IsHex(digits[i])) && Delimits(rest)
    ensures HexRun(digits + rest) == |digits|
  {
    var s := digits + rest;
    if digits != "" {
      assert s[1..] == digits[1..] + rest;
      HexEnds(digits[1..], rest);
    } else {
      assert s == rest;
    }
  }

  lemma {:induction false} DigitsEnd(digits: string, rest: string)
    requires (forall i :: 0 <= i < |digits| ==> IsDigit(digits[i])) && (rest == "" || !IsDigit(rest[0]))
    ensures DigitRun(digits + rest) == |digits|
  {
    DigitRunSplit(digits + rest, |digits|);
    assert (digits + rest)[|digits|..] == rest;
  }

  lemma {:induction false} QuoteEnds(text: string, rest: string)
    requires NoQuote(text)
    ensures QuoteRun(text + ("\"" + rest)) == |text| + 1
  {
    var s := text + ("\"" + rest);
    if text != "" {
      assert s[1..] == text[1..] + ("\"" + rest);
      QuoteEnds(text[1..], rest);
    }
  }

  /** What is scanned at the start of the text is the lexeme. */
  predicate Scans(l: Lexeme, rest: string) {
    var s := Spelling(l) + rest;
    s != "" && !IsBlank(s[0]) && s[0] != ';' && Scan(s) == (TokenOf(l), |Spelling(l)|)
  }

  lemma {:induction false} ScanName(l: Lexeme, rest: string)
    requires Written(l) && Delimits(rest) && (rest != "" ==> rest[0] != '"') && (l.Local? || l.Global? || l.Metadata?)
    ensures Scans(l, rest)
  {
    hide Scan, Delimits;
    NameScan(if l.Local? then '%' else if l.Global? then '@' else '!', l.name, rest);
  }

  lemma {:induction false} NameScan(sigil: char, name: string, rest: string)
    requires sigil in "%@!" && AllIdent(name) && Delimits(rest) && (rest != "" ==> rest[0] != '"')
    ensures var t := [sigil] + name;
      Scan(t + rest) == (if sigil == '%' then LocalId(t) else if sigil == '@' then GlobalId(t) else MetadataId(t), |t|)
  {
    hide Scan, IdentRun;
    var s := ([sigil] + name) + rest;
    assert s[1..] == name + rest && s[0] == sigil;
    IdentEnds(name, rest);
    assert s[..1 + |name|] == [sigil] + name;
    assert |s| > 1 ==> s[1] == (name + rest)[0];
    SigilScan(s);
  }

  /** Names after a sigil. */
  lemma {:induction false} SigilScan(s: string)
    requires s != "" && s[0] in "%@!" && (|s| > 1 ==> s[1] != '"')
    ensures var n := 1 + IdentRun(s[1..]);
      Scan(s) == (if s[0] == '%' then LocalId(s[..n]) else if s[0] == '@' then GlobalId(s[..n])
                  else MetadataId(s[..n]), n)
  {
    hide QuoteRun, ScanNumber, IdentRun, DigitRun;
  }

  lemma {:induction false} ScanQuoted(l: Lexeme, rest: string)
    requires Written(l) && (l.QuotedLocal? || l.QuotedGlobal?)
    ensures Scans(l, rest)
  {
    hide QuoteRun, ScanNumber, IdentRun;
    var s := Spelling(l) + rest;
    assert s[2..] == l.name + ("\"" + rest);
    QuoteEnds(l.name, rest);
    assert s[..|Spelling(l)|] == Spelling(l) && s[1] == '"';
  }

  lemma {:induction false} ScanText(l: Lexeme, rest: string)
    requires Written(l) && l.Quoted?
    ensures Scans(l, rest)
  {
    hide QuoteRun, ScanNumber, IdentRun;
    var s := Spelling(l) + rest;
    assert s[1..] == l.text + ("\"" + rest);
    QuoteEnds(l.text, rest);
    assert s[..|Spelling(l)|] == Spelling(l) && s[0] == '"';
  }

  lemma {:induction false} ScanGroup(l: Lexeme, rest: string)
    requires l.Attributes? && Delimits(rest)
    ensures Scans(l, rest)
  {
    hide QuoteRun, ScanNumber, IdentRun, DigitRun, Decimal;
    var s := Spelling(l) + rest;
    assert s[1..] == Decimal(l.n) + rest;
    DecimalDigits(l.n);
    DigitsEnd(Decimal(l.n), rest);
    assert s[..|Spelling(l)|] == Spelling(l) && s[0] == '#';
  }

  lemma {:induction false} ScanWord(l: Lexeme, rest: string)
    requires Written(l) && l.Keyword? && Delimits(rest) && (rest != "" ==> rest[0] != '"')
    ensures Scans(l, rest)
  {
    hide QuoteRun, ScanNumber, IdentRun;
    var w := l.word;
    var s := w + rest;
    assert s[1..] == w[1..] + rest && s[0] == w[0];
    IdentEnds(w[1..], rest);
    assert s[..|w|] == w;
    assert |s| > 1 ==> s[1] == (w[1..] + rest)[0];
  }

  lemma {:induction false} ScanHex(l: Lexeme, rest: string)
    requires Written(l) && l.Hex? && Delimits(rest)
    ensures Scans(l, rest)
  {
    hide QuoteRun, IdentRun, DigitRun, HexRun, FractionRun, DigitsValue;
    var s := Spelling(l) + rest;
    assert s[2..] == l.digits + rest && s[0] == '0' && s[1] == 'x';
    HexEnds(l.digits, rest);
    assert s[..|Spelling(l)|] == Spelling(l);
  }

  lemma {:induction false} FractionEnds(fraction: string, rest: string)
    requires (forall i :: 0 <= i < |fraction| ==> IsDigit(fraction[i])) && Delimits(rest)
    ensures FractionRun("." + (fraction + rest)) == 1 + |fraction|
  {
    hide DigitRun;
    var s := "." + (fraction + rest);
    assert s[1..] == fraction + rest;
    DigitsEnd(fraction, rest);
    assert s[1 + |fraction|..] == rest;
  }

  lemma {:induction false} DecimalsScan(d: string, fraction: string, rest: string)
    requires d != "" && (forall i :: 0 <= i < |d| ==> IsDigit(d[i])) && (d[0] == '0' ==> |d| == 1)
    requires (forall i :: 0 <= i < |fraction| ==> IsDigit(fraction[i])) && Delimits(rest)
    ensures var t := d + ("." + fraction); ScanNumber(t + rest) == (FloatLit(t), |t|)
  {
    hide DigitRun, FractionRun, ScanNumber;
    var tail := "." + (fraction + rest);
    var s := (d + ("." + fraction)) + rest;
    assert s == d + tail && s[0..] == s;
    DigitsEnd(d, tail);
    assert s[|d|..] == tail && s[0] == d[0] && s[|d|] == '.';
    FractionEnds(fraction, rest);
    assert |d| > 1 ==> s[1] == d[1];
    FloatScan(s, 0, |d|);
    assert s[..|d| + 1 + |fraction|] == d + ("." + fraction);
  }

  lemma {:induction false} ScanDecimals(l: Lexeme, rest: string)
    requires Written(l) && l.Decimals? && Delimits(rest)
    ensures Scans(l, rest)
  {
    hide ScanNumber, Decimal, Scan;
    DecimalDigits(l.whole);
    DecimalsScan(Decimal(l.whole), l.fraction, rest);
    ScanIsNumber(Spelling(l) + rest);
  }

  /** Each lexeme becomes its token. */
  lemma {:induction false} LexLexeme(l: Lexeme, rest: string)
    requires Written(l) && Delimits(rest) && (rest != "" ==> rest[0] != '"')
    ensures Tokens(Spelling(l) + rest) == [TokenOf(l)] + Tokens(rest)
  {
    hide Tokens, Scan, Decimal;
    var s := Spelling(l) + rest;
    assert s[|Spelling(l)|..] == rest;
    match l {
      case Integer(v) =>
        LexSigned(v, rest);
        SmallMod(v + INT64, 2 * INT64);
      case Mark(c) =>
        LexPunct(c, rest);
      case Dots =>
        LexDots(rest);
      case _ =>
        if l.Local? || l.Global? || l.Metadata? {
          ScanName(l, rest);
        } else if l.QuotedLocal? || l.QuotedGlobal? {
          ScanQuoted(l, rest);
        } else if l.Quoted? {
          ScanText(l, rest);
        } else if l.Attributes? {
          ScanGroup(l, rest);
        } else if l.Keyword? {
          ScanWord(l, rest);
        } else if l.Hex? {
          ScanHex(l, rest);
        } else {
          ScanDecimals(l, rest);
        }
        LexOne(s, TokenOf(l), |Spelling(l)|);
    }
  }

  lemma {:induction false} LexSpaced(l: Lexeme, gs: seq<Gap>, rest: string)
    requires Written(l) && gs != [] && AreGaps(gs)
    ensures Tokens(Spelling(l) + (GapsText(gs) + rest)) == [TokenOf(l)] + Tokens(rest)
  {
    hide Tokens, Spelling, TokenOf, GapText, GapsText, Written, IsGap, IsIdent;
    GapsSkipped(gs, rest);
    assert (GapsText(gs) + rest)[0] == GapsText(gs)[0];
    LexLexeme(l, GapsText(gs) + rest);
  }

  /** Any text of lexemes with blanks and comments between them lexes to their tokens. */
  lemma {:induction false} LexRoundTrip(ls: seq<(Lexeme, seq<Gap>)>)
    requires AllWritten(ls)
    ensures Tokens(TextOf(ls)) == TokensOf(ls)
  {
    if ls != [] {
      hide Tokens, Spelling, TokenOf, GapsText, Written, AreGaps;
      LexSpaced(ls[0].0, ls[0].1, TextOf(ls[1..]));
      LexRoundTrip(ls[1..]);
    }
  }

  /** A decimal number outside the 64-bit range wraps around. */
  lemma {:induction false} IntegerWraps(v: int, rest: string) returns (w: int)
    requires Delimits(rest)
    ensures -INT64 <= w < INT64 && (w - v) % (2 * INT64) == 0
    ensures Tokens(Signed(v) + rest) == [IntLit(w)] + Tokens(rest)
  {
    hide Tokens, Decimal;
    LexSigned(v, rest);
    w := Wrap(v);
  }
}
