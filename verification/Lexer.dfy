/**
 The lexer of the text format: a specification that turns a string into tokens, and the
 cursor that produces them one at a time.
 */
module Lexer {
  /** Word covers keywords and bare identifiers; names keep their prefix character. */
  datatype Token =
    | Eof
    | Bad
    | Punct(c: char)
    | DotDotDot
    | IntLit(value: int)
    | FloatLit(text: string)
    | StringLit(text: string)
    | Word(text: string)
    | LocalId(text: string)
    | GlobalId(text: string)
    | MetadataId(text: string)
    | AttrGroup(text: string)

  const INT64: int := 0x8000_0000_0000_0000

  predicate IsDigit(c: char) {
    '0' <= c <= '9'
  }

  predicate IsAlpha(c: char) {
    'a' <= c <= 'z' || 'A' <= c <= 'Z'
  }

  predicate IsIdent(c: char) {
    IsAlpha(c) || IsDigit(c) || c == '_' || c == '.' || c == '$'
  }

  predicate IsHex(c: char) {
    IsDigit(c) || 'a' <= c <= 'f' || 'A' <= c <= 'F'
  }

  predicate IsBlank(c: char) {
    c == ' ' || c == '\t' || c == '\r' || c == '\n'
  }

  predicate IsPunct(c: char) {
    c == '(' || c == ')' || c == '{' || c == '}' || c == '[' || c == ']' || c == ',' || c == '=' || c == '*' || c == ':'
    || c == '<' || c == '>'
  }

  // ---------------------------------------------------------------------------
  // Runs

  function IdentRun(s: string): (n: nat)
    ensures n <= |s|
  {
    if s != "" && IsIdent(s[0]) then 1 + IdentRun(s[1..]) else 0
  }

  function DigitRun(s: string): (n: nat)
    ensures n <= |s|
  {
    if s != "" && IsDigit(s[0]) then 1 + DigitRun(s[1..]) else 0
  }

  function HexRun(s: string): (n: nat)
    ensures n <= |s|
  {
    if s != "" && IsHex(s[0]) then 1 + HexRun(s[1..]) else 0
  }

  /** Length up to the newline that ends a comment. */
  function LineRun(s: string): (n: nat)
    ensures n <= |s|
  {
    if s != "" && s[0] != '\n' then 1 + LineRun(s[1..]) else 0
  }

  /** Length up to and including the closing quote; a backslash protects the next character. */
  function QuoteRun(s: string): (n: nat)
    ensures n <= |s|
  {
    if s == "" then 0
    else if s[0] == '"' then 1
    else if s[0] == '\\' && |s| > 1 then 2 + QuoteRun(s[2..])
    else 1 + QuoteRun(s[1..])
  }

  /** skip_whitespace_and_comments */
  function BlankRun(s: string): (n: nat)
    ensures n <= |s|
  {
    if s == "" then 0
    else if IsBlank(s[0]) then 1 + BlankRun(s[1..])
    else if s[0] == ';' then
      var n := LineRun(s);
      n + BlankRun(s[n..])
    else 0
  }

  // ---------------------------------------------------------------------------
  // Numbers

  /** A 64-bit two's complement result. */
  function Wrap(n: int): (v: int)
    ensures -INT64 <= v < INT64
  {
    (n + INT64) % (2 * INT64) - INT64
  }

  function DigitValue(c: char): nat {
    if IsDigit(c) then (c - '0') as nat else 0
  }

  function DigitsValue(s: string, acc: nat): nat {
    if s == "" then acc else DigitsValue(s[1..], acc * 10 + DigitValue(s[0]))
  }

  /** The exponent part of a floating-point literal, if any. */
  function ExponentRun(s: string): (n: nat)
    ensures n <= |s|
  {
    if s != "" && (s[0] == 'e' || s[0] == 'E') then
      var sign := if |s| > 1 && (s[1] == '+' || s[1] == '-') then 1 else 0;
      1 + sign + DigitRun(s[1 + sign..])
    else 0
  }

  function FractionRun(s: string): (n: nat)
    ensures n <= |s|
    ensures s != "" && (s[0] == '.' || s[0] == 'e' || s[0] == 'E') ==> n > 0
  {
    var frac := if s != "" && s[0] == '.' then 1 + DigitRun(s[1..]) else 0;
    frac + ExponentRun(s[frac..])
  }

  /** Number starting at s[0], a digit or a minus sign before one. */
  function ScanNumber(s: string): (r: (Token, nat))
    requires s != "" && (IsDigit(s[0]) || s[0] == '-')
    ensures 0 < r.1 <= |s|
  {
    var neg := s[0] == '-';
    if neg && (|s| < 2 || !IsDigit(s[1])) then (Bad, 1)
    else if s[0] == '0' && |s| > 1 && (s[1] == 'x' || s[1] == 'X') then
      var n := 2 + HexRun(s[2..]);
      (FloatLit(s[..n]), n)
    else
      var from := if neg then 1 else 0;
      var n := from + DigitRun(s[from..]);
      if n < |s| && (s[n] == '.' || s[n] == 'e' || s[n] == 'E') then
        var end := n + FractionRun(s[n..]);
        (FloatLit(s[..end]), end)
      else
        var v := DigitsValue(s[from..][..n - from], 0);
        (IntLit(Wrap(if neg then 0 - v else v)), if n == 0 then 1 else n)
  }

  // ---------------------------------------------------------------------------
  // Tokens

  /** The token at the start of s and its length. */
  function Scan(s: string): (r: (Token, nat))
    requires s != ""
    ensures 0 < r.1 <= |s|
    ensures r.0 != Eof
  {
    var c := s[0];
    if IsPunct(c) then (Punct(c), 1)
    else if c == '.' then
      if |s| > 2 && s[1] == '.' && s[2] == '.' then (DotDotDot, 3)
      else if |s| > 1 && IsIdent(s[1]) then (LocalId(s[..1 + IdentRun(s[1..])]), 1 + IdentRun(s[1..]))
      else (Bad, 1)
    else if c == '!' then (MetadataId(s[..1 + IdentRun(s[1..])]), 1 + IdentRun(s[1..]))
    else if c == '#' then (AttrGroup(s[..1 + DigitRun(s[1..])]), 1 + DigitRun(s[1..]))
    else if c == '%' || c == '@' then
      var n := if |s| > 1 && s[1] == '"' then 2 + QuoteRun(s[2..]) else 1 + IdentRun(s[1..]);
      (if c == '%' then LocalId(s[..n]) else GlobalId(s[..n]), n)
    else if c == '"' then (StringLit(s[..1 + QuoteRun(s[1..])]), 1 + QuoteRun(s[1..]))
    else if c == 'c' && |s| > 1 && s[1] == '"' then (StringLit(s[..2 + QuoteRun(s[2..])]), 2 + QuoteRun(s[2..]))
    else if c == '-' || IsDigit(c) then ScanNumber(s)
    else if IsAlpha(c) || c == '_' then (Word(s[..1 + IdentRun(s[1..])]), 1 + IdentRun(s[1..]))
    else (Bad, 1)
  }

  /** All tokens of s; the end of input is a token. */
  function Tokens(s: string): (r: seq<Token>)
    ensures r != []
    decreases |s|
  {
    var t := s[BlankRun(s)..];
    if t == "" then [Eof] else [Scan(t).0] + Tokens(t[Scan(t).1..])
  }

  // ---------------------------------------------------------------------------
  // The cursor

  /** Lengths of runs found by moving a cursor. */
  lemma {:induction false} RunSplit(s: string, k: nat)
    requires k <= |s| && forall i :: 0 <= i < k ==> IsIdent(s[i])
    ensures IdentRun(s) == k + IdentRun(s[k..])
  {
    if k > 0 {
      assert s[1..][k - 1..] == s[k..];
      RunSplit(s[1..], k - 1);
    }
  }

  lemma {:induction false} DigitRunSplit(s: string, k: nat)
    requires k <= |s| && forall i :: 0 <= i < k ==> IsDigit(s[i])
    ensures DigitRun(s) == k + DigitRun(s[k..])
  {
    if k > 0 {
      assert s[1..][k - 1..] == s[k..];
      DigitRunSplit(s[1..], k - 1);
    }
  }

  /** A run of digits after an optional minus sign, not followed by a fraction. */
  lemma {:induction false} IntScan(s: string, from: nat, n: nat)
    requires s != "" && (IsDigit(s[0]) || s[0] == '-') && from == (if s[0] == '-' then 1 else 0)
    requires from < |s| && IsDigit(s[from]) && from < n && n == from + DigitRun(s[from..])
    requires !(s[0] == '0' && |s| > 1 && (s[1] == 'x' || s[1] == 'X'))
    requires n == |s| || !(s[n] == '.' || s[n] == 'e' || s[n] == 'E')
    ensures var v: int := DigitsValue(s[from..][..n - from], 0);
      ScanNumber(s) == (IntLit(Wrap(if s[0] == '-' then 0 - v else v)), n)
  {
    hide FractionRun, DigitsValue, Wrap, HexRun, DigitRun;
  }

  lemma {:induction false} FloatScan(s: string, from: nat, n: nat)
    requires s != "" && (IsDigit(s[0]) || s[0] == '-') && from == (if s[0] == '-' then 1 else 0)
    requires from < |s| && IsDigit(s[from]) && from < n < |s| && n == from + DigitRun(s[from..])
    requires !(s[0] == '0' && |s| > 1 && (s[1] == 'x' || s[1] == 'X'))
    requires s[n] == '.' || s[n] == 'e' || s[n] == 'E'
    ensures var end := n + FractionRun(s[n..]); end <= |s| && ScanNumber(s) == (FloatLit(s[..end]), end)
  {
    hide FractionRun, DigitsValue, Wrap, HexRun, DigitRun;
  }

  lemma {:induction false} SomeDigits(s: string)
    requires s != "" && IsDigit(s[0])
    ensures DigitRun(s) > 0
  {
  }

  class Cursor {
    const src: string
    var pos: nat

    ghost predicate Valid()
      reads this
    {
      pos <= |src|
    }

    /** The tokens still to come. */
    ghost function Ahead(): seq<Token>
      requires Valid()
      reads this
    {
      Tokens(src[pos..])
    }

    constructor (src: string)
      ensures this.src == src && pos == 0 && Valid()
    {
      this.src := src;
      pos := 0;
    }

    method IdentEnd(start: nat) returns (end: nat)
      requires start <= |src|
      ensures start <= end <= |src| && end == start + IdentRun(src[start..])
    {
      end := start;
      while end < |src| && IsIdent(src[end])
        invariant start <= end <= |src|
        invariant IdentRun(src[start..]) == end - start + IdentRun(src[end..])
      {
        assert src[end..][1..] == src[end + 1..];
        end := end + 1;
      }
    }

    method DigitEnd(start: nat) returns (end: nat)
      requires start <= |src|
      ensures start <= end <= |src| && end == start + DigitRun(src[start..])
      ensures forall i :: start <= i < end ==> IsDigit(src[i])
    {
      end := start;
      while end < |src| && IsDigit(src[end])
        invariant start <= end <= |src|
        invariant DigitRun(src[start..]) == end - start + DigitRun(src[end..])
        invariant forall i :: start <= i < end ==> IsDigit(src[i])
      {
        assert src[end..][1..] == src[end + 1..];
        end := end + 1;
      }
    }

    method HexEnd(start: nat) returns (end: nat)
      requires start <= |src|
      ensures start <= end <= |src| && end == start + HexRun(src[start..])
    {
      end := start;
      while end < |src| && IsHex(src[end])
        invariant start <= end <= |src|
        invariant HexRun(src[start..]) == end - start + HexRun(src[end..])
      {
        assert src[end..][1..] == src[end + 1..];
        end := end + 1;
      }
    }

    method QuoteEnd(start: nat) returns (end: nat)
      requires start <= |src|
      ensures start <= end <= |src| && end == start + QuoteRun(src[start..])
    {
      end := start;
      while end < |src| && src[end] != '"'
        invariant start <= end <= |src|
        invariant QuoteRun(src[start..]) == end - start + QuoteRun(src[end..])
      {
        assert src[end..][1..] == src[end + 1..];
        if src[end] == '\\' && end + 1 < |src| {
          assert src[end..][2..] == src[end + 2..];
          end := end + 1;
        }
        end := end + 1;
      }
      if end < |src| {
        end := end + 1;
      }
    }

    method LineEnd(start: nat) returns (end: nat)
      requires start <= |src|
      ensures start <= end <= |src| && end == start + LineRun(src[start..])
      ensures end < |src| ==> src[end] == '\n'
    {
      end := start;
      while end < |src| && src[end] != '\n'
        invariant start <= end <= |src|
        invariant LineRun(src[start..]) == end - start + LineRun(src[end..])
      {
        assert src[end..][1..] == src[end + 1..];
        end := end + 1;
      }
    }

    /** skip_whitespace_and_comments */
    method SkipBlanks()
      requires Valid()
      modifies this
      ensures Valid() && pos == old(pos) + BlankRun(src[old(pos)..])
    {
      while pos < |src| && (IsBlank(src[pos]) || src[pos] == ';')
        invariant old(pos) <= pos <= |src|
        invariant BlankRun(src[old(pos)..]) == pos - old(pos) + BlankRun(src[pos..])
        decreases |src| - pos
      {
        if src[pos] == ';' {
          var p := LineEnd(pos);
          assert src[pos..][p - pos..] == src[p..];
          pos := p;
        } else {
          assert src[pos..][1..] == src[pos + 1..];
          pos := pos + 1;
        }
      }
    }

    method IntValue(from: nat, end: nat) returns (val: nat)
      requires from <= end <= |src| && forall i :: from <= i < end ==> IsDigit(src[i])
      ensures val == DigitsValue(src[from..end], 0)
    {
      val := 0;
      var i := from;
      while i < end
        invariant from <= i <= end
        invariant DigitsValue(src[from..end], 0) == DigitsValue(src[i..end], val)
      {
        assert src[i..end][1..] == src[i + 1..end];
        val := val * 10 + (src[i] - '0') as nat;
        i := i + 1;
      }
    }

    method FractionEnd(start: nat) returns (end: nat)
      requires start < |src| && (src[start] == '.' || src[start] == 'e' || src[start] == 'E')
      ensures start < end <= |src| && end == start + FractionRun(src[start..])
    {
      hide DigitRun;
      ghost var s := src[start..];
      end := start;
      if src[end] == '.' {
        assert s[1..] == src[end + 1..];
        end := DigitEnd(end + 1);
      }
      ghost var e := end;
      ghost var x := src[e..];
      assert s[e - start..] == x;
      if end < |src| && (src[end] == 'e' || src[end] == 'E') {
        end := end + 1;
        if end < |src| && (src[end] == '+' || src[end] == '-') {
          end := end + 1;
        }
        assert x[end - e..] == src[end..];
        end := DigitEnd(end);
      }
    }

    method Number(start: nat) returns (t: Token, end: nat)
      requires start < |src| && (IsDigit(src[start]) || src[start] == '-')
      ensures start < end <= |src| && (t, end - start) == ScanNumber(src[start..])
    {
      hide FractionRun, DigitsValue, Wrap, HexRun, DigitRun;
      ghost var s := src[start..];
      var neg := src[start] == '-';
      if neg && !(start + 1 < |src| && IsDigit(src[start + 1])) {
        return Bad, start + 1;
      }
      if src[start] == '0' && start + 1 < |src| && (src[start + 1] == 'x' || src[start + 1] == 'X') {
        assert s[2..] == src[start + 2..];
        end := HexEnd(start + 2);
        assert s[..end - start] == src[start..end];
        return FloatLit(src[start..end]), end;
      }
      t, end := DecimalNumber(start, if neg then start + 1 else start);
    }

    method FloatTail(start: nat, n: nat) returns (t: Token, end: nat)
      requires start < n < |src| && (src[n] == '.' || src[n] == 'e' || src[n] == 'E')
      ensures end == n + FractionRun(src[n..]) && start < end <= |src|
      ensures t == FloatLit(src[start..][..end - start])
    {
      hide FractionRun;
      end := FractionEnd(n);
      assert src[start..][..end - start] == src[start..end];
      t := FloatLit(src[start..end]);
    }

    method DecimalNumber(start: nat, from: nat) returns (t: Token, end: nat)
      requires start < |src| && (IsDigit(src[start]) || src[start] == '-')
      requires from == (if src[start] == '-' then start + 1 else start) && from < |src| && IsDigit(src[from])
      requires !(src[start] == '0' && start + 1 < |src| && (src[start + 1] == 'x' || src[start + 1] == 'X'))
      ensures start < end <= |src| && (t, end - start) == ScanNumber(src[start..])
    {
      hide ScanNumber, FractionRun, DigitsValue, Wrap, HexRun, DigitRun;
      ghost var s := src[start..];
      assert s[from - start..] == src[from..];
      end := DigitEnd(from);
      SomeDigits(src[from..]);
      if end < |src| && (src[end] == '.' || src[end] == 'e' || src[end] == 'E') {
        assert s[end - start..] == src[end..];
        FloatScan(s, from - start, end - start);
        t, end := FloatTail(start, end);
        return;
      }
      var val: int := IntValue(from, end);
      assert s[from - start..][..end - from] == src[from..end];
      IntScan(s, from - start, end - start);
      t := IntLit(Wrap(if src[start] == '-' then 0 - val else val));
    }

    /** lr_lexer_next */
    method Next() returns (t: Token)
      requires Valid()
      modifies this
      ensures Valid() && old(pos) <= pos
      ensures old(Ahead()) == if t == Eof then [Eof] else [t] + Ahead()
      ensures t != Eof ==> old(pos) < pos
      ensures t == Eof ==> Ahead() == [Eof]
    {
      hide QuoteRun, BlankRun, ScanNumber;
      ghost var before := src[pos..];
      SkipBlanks();
      assert before[BlankRun(before)..] == src[pos..];
      if pos >= |src| {
        BlankEnd(src[pos..]);
        return Eof;
      }
      ghost var start, s := pos, src[pos..];
      var end;
      t, end := ScanAt(pos);
      assert s[end - start..] == src[end..];
      pos := end;
    }

    /** The branches of lr_lexer_next on the first character. */
    method ScanAt(start: nat) returns (t: Token, end: nat)
      requires start < |src|
      ensures start < end <= |src| && (t, end - start) == Scan(src[start..])
    {
      hide QuoteRun, ScanNumber, IdentRun, DigitRun;
      ghost var s := src[start..];
      var c, n := src[start], |src|;
      var next := start + 1;
      assert s[1..] == src[next..];
      assert next < n ==> s[2..] == src[next + 1..];
      if IsPunct(c) {
        return Punct(c), next;
      }
      if c == '.' {
        if next + 1 < n && src[next] == '.' && src[next + 1] == '.' {
          return DotDotDot, next + 2;
        }
        if next < n && IsIdent(src[next]) {
          end := IdentEnd(next);
          assert s[..end - start] == src[start..end];
          return LocalId(src[start..end]), end;
        }
        return Bad, next;
      }
      if c == '!' {
        end := IdentEnd(next);
        assert s[..end - start] == src[start..end];
        return MetadataId(src[start..end]), end;
      }
      if c == '#' {
        end := DigitEnd(next);
        assert s[..end - start] == src[start..end];
        return AttrGroup(src[start..end]), end;
      }
      if c == '%' || c == '@' {
        if next < n && src[next] == '"' {
          end := QuoteEnd(next + 1);
        } else {
          end := IdentEnd(next);
        }
        assert s[..end - start] == src[start..end];
        return if c == '%' then LocalId(src[start..end]) else GlobalId(src[start..end]), end;
      }
      if c == '"' || (c == 'c' && next < n && src[next] == '"') {
        end := QuoteEnd(if c == 'c' then next + 1 else next);
        assert s[..end - start] == src[start..end];
        return StringLit(src[start..end]), end;
      }
      if c == '-' || IsDigit(c) {
        t, end := Number(start);
        return;
      }
      if IsAlpha(c) || c == '_' {
        end := IdentEnd(next);
        assert s[..end - start] == src[start..end];
        return Word(src[start..end]), end;
      }
      return Bad, next;
    }
  }

  lemma {:induction false} BlankEnd(s: string)
    requires s == ""
    ensures BlankRun(s) == 0
  {
  }
}
