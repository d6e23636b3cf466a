/** Lexical structure of SQL text: quoted literals, delimited identifiers, words,
    symbols and comments.  A literal doubles its quote symbol (ISO/IEC 9075-2,
    section 5.3) and continues across white space that holds a newline. */
module SqlText {

  datatype Token =
    | Word(text: string)      // a maximal run of letters, digits, '_', '$' and '.'
    | Symbol(c: char)
    | Literal(text: string)   // a character string literal, by the text it denotes
    | Name(text: string)      // a delimited identifier
    | Broken                  // an unfinished literal, identifier or comment

  datatype Mode =
    | Plain
    | InWord(text: string)
    | InText(text: string)
    | TextQuote(text: string)              // a quote symbol that may be doubled
    | TextGap(text: string, newline: bool) // white space after a literal
    | InName(text: string)
    | NameQuote(text: string)
    | Dash
    | Comment
    | Slash
    | Block(depth: nat)
    | BlockStar(depth: nat)
    | BlockSlash(depth: nat)

  const QUOTE := '\''

  predicate IsSpace(c: char) {
    c == ' ' || c == '\t' || c == '\n' || c == '\r' || c == '\U{0B}' || c == '\U{0C}'
  }

  predicate IsWordChar(c: char) {
    'a' <= c <= 'z' || 'A' <= c <= 'Z' || '0' <= c <= '9' || c == '_' || c == '$' || c == '.' || c >= '\U{80}'
  }

  function Start(c: char): (Mode, seq<Token>) {
    if c == QUOTE then (InText(""), [])
    else if c == '"' then (InName(""), [])
    else if c == '-' then (Dash, [])
    else if c == '/' then (Slash, [])
    else if IsWordChar(c) then (InWord([c]), [])
    else if IsSpace(c) then (Plain, [])
    else (Plain, [Symbol(c)])
  }

  function After(t: Token, c: char): (Mode, seq<Token>) {
    (Start(c).0, [t] + Start(c).1)
  }

  function Step(m: Mode, c: char): (Mode, seq<Token>) {
    match m
    case Plain => Start(c)
    case InWord(w) => if IsWordChar(c) then (InWord(w + [c]), []) else After(Word(w), c)
    case InText(t) => (if c == QUOTE then TextQuote(t) else InText(t + [c]), [])
    case TextQuote(t) =>
      if c == QUOTE then (InText(t + [QUOTE]), [])
      else if IsSpace(c) then (TextGap(t, c == '\n'), [])
      else After(Literal(t), c)
    case TextGap(t, newline) =>
      if c == QUOTE && newline then (InText(t), [])
      else if IsSpace(c) then (TextGap(t, newline || c == '\n'), [])
      else After(Literal(t), c)
    case InName(t) => (if c == '"' then NameQuote(t) else InName(t + [c]), [])
    case NameQuote(t) => if c == '"' then (InName(t + [c]), []) else After(Name(t), c)
    case Dash => if c == '-' then (Comment, []) else After(Symbol('-'), c)
    case Comment => (if c == '\n' then Plain else Comment, [])
    case Slash => if c == '*' then (Block(0), []) else After(Symbol('/'), c)
    case Block(d) => (if c == '*' then BlockStar(d) else if c == '/' then BlockSlash(d) else Block(d), [])
    case BlockStar(d) =>
      (if c == '/' then (if d == 0 then Plain else Block(d - 1)) else if c == '*' then BlockStar(d) else Block(d), [])
    case BlockSlash(d) =>
      (if c == '*' then Block(d + 1) else if c == '/' then BlockSlash(d) else Block(d), [])
  }

  /** The token a mode still owes at the end of the text. */
  function Close(m: Mode): seq<Token> {
    match m
    case Plain => []
    case InWord(w) => [Word(w)]
    case TextQuote(t) => [Literal(t)]
    case TextGap(t, _) => [Literal(t)]
    case NameQuote(t) => [Name(t)]
    case Dash => [Symbol('-')]
    case Comment => []
    case Slash => [Symbol('/')]
    case _ => [Broken]
  }

  function End(m: Mode, s: string): Mode
    decreases |s|
  {
    if s == "" then m else End(Step(m, s[0]).0, s[1..])
  }

  /** The tokens of `s`, read from mode `m`. */
  function Lex(m: Mode, s: string): seq<Token>
    decreases |s|
  {
    if s == "" then Close(m) else Step(m, s[0]).1 + Lex(Step(m, s[0]).0, s[1..])
  }

  /** The tokens completed while reading `s`. */
  function Emitted(m: Mode, s: string): seq<Token>
    decreases |s|
  {
    if s == "" then [] else Step(m, s[0]).1 + Emitted(Step(m, s[0]).0, s[1..])
  }

  function Tokens(s: string): seq<Token> {
    Lex(Plain, s)
  }

  lemma {:induction false} LexConcat(m: Mode, a: string, b: string)
    ensures Lex(m, a + b) == Emitted(m, a) + Lex(End(m, a), b)
    ensures End(m, a + b) == End(End(m, a), b)
    decreases |a|
  {
    if a == "" {
      assert a + b == b;
    } else {
      assert (a + b)[1..] == a[1..] + b;
      var (m', out) := Step(m, a[0]);
      LexConcat(m', a[1..], b);
      assert out + (Emitted(m', a[1..]) + Lex(End(m, a), b)) == (out + Emitted(m', a[1..])) + Lex(End(m, a), b);
    }
  }

  lemma LexWhole(m: Mode, a: string)
    ensures Lex(m, a) == Emitted(m, a) + Close(End(m, a))
  {
    LexConcat(m, a, "");
    assert a + "" == a;
  }

  // ----- trimming -----

  function SkipSpaces(s: string): string {
    if s != "" && IsSpace(s[0]) then SkipSpaces(s[1..]) else s
  }

  function DropTrailing(s: string, drop: char -> bool): string {
    if s != "" && drop(s[|s| - 1]) then DropTrailing(s[..|s| - 1], drop) else s
  }

  function Strip(s: string): string {
    DropTrailing(SkipSpaces(s), IsSpace)
  }

  predicate AllSpaces(s: string) {
    forall i :: 0 <= i < |s| ==> IsSpace(s[i])
  }

  lemma {:induction false} SkippedSpaces(s: string) returns (n: nat)
    ensures n <= |s| && AllSpaces(s[..n]) && SkipSpaces(s) == s[n..]
    ensures n < |s| ==> !IsSpace(s[n])
  {
    n := 0;
    if s != "" && IsSpace(s[0]) {
      n := SkippedSpaces(s[1..]);
      assert s[..n + 1] == [s[0]] + s[1..][..n];
      assert s[n + 1..] == s[1..][n..];
      n := n + 1;
    }
  }

  lemma {:induction false} DroppedTail(s: string, drop: char -> bool) returns (n: nat)
    ensures n <= |s| && DropTrailing(s, drop) == s[..n] && forall i :: n <= i < |s| ==> drop(s[i])
    ensures n > 0 ==> !drop(s[n - 1])
    decreases |s|
  {
    n := |s|;
    if s != "" && drop(s[|s| - 1]) {
      n := DroppedTail(s[..|s| - 1], drop);
      assert s[..|s| - 1][..n] == s[..n];
    }
  }

  /** Stripping takes all white space off both ends, and nothing else. */
  lemma StripIsExact(s: string) returns (first: nat, next: nat)
    ensures first <= next <= |s| && Strip(s) == s[first..next]
    ensures AllSpaces(s[..first]) && AllSpaces(s[next..])
    ensures first < next ==> !IsSpace(s[first]) && !IsSpace(s[next - 1])
    ensures Strip(s) == "" <==> AllSpaces(s)
  {
    first := SkippedSpaces(s);
    var n := DroppedTail(s[first..], IsSpace);
    next := first + n;
    assert s[first..][..n] == s[first..next];
    forall i | 0 <= i < |s| && (i < first || i >= next) ensures IsSpace(s[i]) {
      if i < first {
        assert s[i] == s[..first][i];
      } else {
        assert s[i] == s[first..][i - first];
      }
    }
  }

  lemma {:induction false} SkipSpacesKeepsTokens(s: string)
    ensures Tokens(SkipSpaces(s)) == Tokens(s)
  {
    if s != "" && IsSpace(s[0]) {
      SkipSpacesKeepsTokens(s[1..]);
      assert [] + Lex(Plain, s[1..]) == Lex(Plain, s[1..]);
    }
  }

  lemma LexLast(m: Mode, s: string)
    requires s != ""
    ensures var e := End(m, s[..|s| - 1]);
            var last := Step(e, s[|s| - 1]);
            && Lex(m, s) == Emitted(m, s[..|s| - 1]) + (last.1 + Close(last.0))
            && Lex(m, s[..|s| - 1]) == Emitted(m, s[..|s| - 1]) + Close(e)
  {
    var body, tail := s[..|s| - 1], s[|s| - 1..];
    assert s == body + tail;
    LexConcat(m, body, tail);
    LexWhole(m, body);
    assert tail[1..] == "";
  }

  lemma SpaceOwesNothing(m: Mode, c: char)
    requires IsSpace(c)
    ensures Step(m, c).1 + Close(Step(m, c).0) == Close(m)
  {
  }

  predicate IsSemicolon(c: char) { c == ';' }

  lemma SemicolonOwesItself(m: Mode)
    ensures var owed := Step(m, ';').1 + Close(Step(m, ';').0);
            owed == Close(m) || owed == Close(m) + [Symbol(';')]
  {
  }

  lemma {:induction false} TrailingSpaceKeepsTokens(s: string)
    ensures Tokens(DropTrailing(s, IsSpace)) == Tokens(s)
    decreases |s|
  {
    if s != "" && IsSpace(s[|s| - 1]) {
      LexLast(Plain, s);
      SpaceOwesNothing(End(Plain, s[..|s| - 1]), s[|s| - 1]);
      TrailingSpaceKeepsTokens(s[..|s| - 1]);
    }
  }

  function Repeat(t: Token, n: nat): seq<Token> {
    if n == 0 then [] else Repeat(t, n - 1) + [t]
  }

  /** Dropping trailing semicolons drops nothing but semicolon tokens. */
  lemma {:induction false} TrailingSemicolons(s: string) returns (n: nat)
    ensures Tokens(s) == Tokens(DropTrailing(s, IsSemicolon)) + Repeat(Symbol(';'), n)
    decreases |s|
  {
    hide Step, Close, Lex;
    n := 0;
    if s != "" && s[|s| - 1] == ';' {
      var body := s[..|s| - 1];
      LexLast(Plain, s);
      SemicolonOwesItself(End(Plain, body));
      n := TrailingSemicolons(body);
      if Tokens(s) != Tokens(body) {
        assert Tokens(s) == Tokens(body) + [Symbol(';')];
        n := n + 1;
      }
    }
  }
}
