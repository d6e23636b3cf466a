/** Placeholder rendering of the interactive transport: values become SQL literals
    and are put where the template says `%s`. */
module SqlRendering {
  import opened Sequences
  import opened SqlText

  datatype Error = InvalidStatement | InvalidParameters | InvalidParameter
  datatype Result<+T> = Ok(value: T) | Err(error: Error)

  /** The parameter types the transport accepts, and everything else. */
  datatype Value =
    | Null
    | Bool(b: bool)
    | Int(n: int)
    | Text(s: string)
    | Timestamp(iso: string, zoned: bool)
    | Unsupported

  function Digit(d: nat): char
    requires d < 10
  {
    d as char + '0'
  }

  function Digits(n: nat): string {
    if n < 10 then [Digit(n)] else Digits(n / 10) + [Digit(n % 10)]
  }

  function Doubled(s: string): string {
    if s == "" then "" else (if s[0] == QUOTE then [QUOTE, QUOTE] else [s[0]]) + Doubled(s[1..])
  }

  function Quoted(s: string): Result<string> {
    if '\U{00}' in s then Err(InvalidParameter) else Ok([QUOTE] + (Doubled(s) + [QUOTE]))
  }

  function SqlLiteral(v: Value): Result<string> {
    match v
    case Null => Ok("NULL")
    case Bool(b) => Ok(if b then "true" else "false")
    case Int(n) => Ok(if n < 0 then ['-'] + Digits(-n) else Digits(n))
    case Timestamp(iso, zoned) => if zoned then Quoted(iso) else Err(InvalidParameter)
    case Text(s) => Quoted(s)
    case Unsupported => Err(InvalidParameter)
  }

  // ----- splitting and rendering -----

  const PLACEHOLDER := "%s"

  function Split(s: string): (fragments: seq<string>)
    ensures |fragments| >= 1
    decreases |s|
  {
    if |s| < 2 then [s]
    else if s[0] == '%' && s[1] == 's' then [""] + Split(s[2..])
    else
      var rest := Split(s[1..]);
      [[s[0]] + rest[0]] + rest[1..]
  }

  function Join(fragments: seq<string>): string
    requires |fragments| >= 1
    decreases |fragments|
  {
    if |fragments| == 1 then fragments[0] else fragments[0] + (PLACEHOLDER + Join(fragments[1..]))
  }

  predicate HasPlaceholder(s: string) {
    exists i | 0 <= i < |s| - 1 :: s[i] == '%' && s[i + 1] == 's'
  }

  lemma {:induction false} SplitJoins(s: string)
    ensures Join(Split(s)) == s
    decreases |s|
  {
    if |s| < 2 {
    } else if s[0] == '%' && s[1] == 's' {
      SplitJoins(s[2..]);
      assert ([""] + Split(s[2..]))[1..] == Split(s[2..]);
      assert s == PLACEHOLDER + s[2..];
    } else {
      SplitJoins(s[1..]);
      JoinHead(s[0], Split(s[1..]));
    }
  }

  lemma JoinHead(c: char, rest: seq<string>)
    requires |rest| >= 1
    ensures Join([[c] + rest[0]] + rest[1..]) == [c] + Join(rest)
  {
    var all := [[c] + rest[0]] + rest[1..];
    assert |all| == |rest| && all[0] == [c] + rest[0] && all[1..] == rest[1..];
    if |rest| > 1 {
      Associative([c], rest[0], PLACEHOLDER + Join(rest[1..]));
    }
  }

  lemma {:induction false} SplitLeavesNone(s: string, i: nat)
    requires i < |Split(s)|
    ensures !HasPlaceholder(Split(s)[i])
    ensures i == 0 && Split(s)[0] != "" ==> s != "" && Split(s)[0][0] == s[0]
    decreases |s|
  {
    if |s| < 2 {
    } else if s[0] == '%' && s[1] == 's' {
      if i > 0 { SplitLeavesNone(s[2..], i - 1); }
    } else {
      SplitLeavesNone(s[1..], i);
      if i == 0 {
        var rest := Split(s[1..])[0];
        forall j | 0 <= j < |rest| ensures !(([s[0]] + rest)[j] == '%' && ([s[0]] + rest)[j + 1] == 's') {
          if j > 0 { assert !(rest[j - 1] == '%' && rest[j] == 's'); }
        }
      }
    }
  }

  /** Splitting loses nothing and misses no placeholder. */
  lemma SplitIsExact(s: string)
    ensures Join(Split(s)) == s
    ensures forall i :: 0 <= i < |Split(s)| ==> !HasPlaceholder(Split(s)[i])
  {
    SplitJoins(s);
    forall i | 0 <= i < |Split(s)| ensures !HasPlaceholder(Split(s)[i]) {
      SplitLeavesNone(s, i);
    }
  }

  function Prefixed(head: string, tail: Result<string>): Result<string> {
    match tail case Ok(t) => Ok(head + t) case Err(e) => Err(e)
  }

  /** The fragments with a literal between each two. */
  function Assemble(fragments: seq<string>, values: seq<Value>): Result<string>
    requires |fragments| == |values| + 1
    decreases |values|
  {
    if values == [] then Ok(fragments[0])
    else match SqlLiteral(values[0])
      case Err(e) => Err(e)
      case Ok(literal) => Prefixed(fragments[0] + literal, Assemble(fragments[1..], values[1..]))
  }

  function Trim(s: string): string {
    DropTrailing(Strip(s), IsSemicolon)
  }

  function Render(sql: string, values: seq<Value>): Result<string> {
    if Strip(sql) == "" then Err(InvalidStatement)
    else if |Split(sql)| - 1 != |values| then Err(InvalidParameters)
    else match Assemble(Split(sql), values)
      case Err(e) => Err(e)
      case Ok(text) => Ok(Trim(text))
  }

  lemma PrefixedTwice(a: string, b: string, tail: Result<string>)
    ensures Prefixed(a, Prefixed(b, tail)) == Prefixed(a + b, tail)
  {
    if tail.Ok? {
      assert a + (b + tail.value) == a + b + tail.value;
    }
  }

  lemma HeadOut(fragments: seq<string>, values: seq<Value>)
    requires |fragments| == |values| + 1
    ensures Assemble(fragments, values) == Prefixed(fragments[0], Assemble([""] + fragments[1..], values))
  {
    hide SqlLiteral;
    var bare := [""] + fragments[1..];
    assert bare[1..] == fragments[1..];
    if values == [] {
      assert fragments[0] + "" == fragments[0];
    } else if SqlLiteral(values[0]).Ok? {
      var literal := SqlLiteral(values[0]).value;
      assert "" + literal == literal;
      PrefixedTwice(fragments[0], literal, Assemble(fragments[1..], values[1..]));
    }
  }

  lemma RenderingStep(fragments: seq<string>, values: seq<Value>, i: nat, rendered: string)
    requires |fragments| == |values| + 1 && i < |values|
    ensures var before := Prefixed(rendered, Assemble([""] + fragments[i + 1..], values[i..]));
            match SqlLiteral(values[i])
            case Err(e) => before == Err(e)
            case Ok(literal) =>
              before == Prefixed(rendered + literal + fragments[i + 1], Assemble([""] + fragments[i + 2..], values[i + 1..]))
  {
    hide SqlLiteral;
    var bare, rest := [""] + fragments[i + 1..], fragments[i + 1..];
    assert bare[1..] == rest && rest[1..] == fragments[i + 2..] && values[i..][1..] == values[i + 1..];
    if SqlLiteral(values[i]).Ok? {
      var literal := SqlLiteral(values[i]).value;
      assert "" + literal == literal;
      HeadOut(rest, values[i + 1..]);
      PrefixedTwice(literal, rest[0], Assemble([""] + rest[1..], values[i + 1..]));
      PrefixedTwice(rendered, literal + rest[0], Assemble([""] + rest[1..], values[i + 1..]));
      assert rendered + (literal + rest[0]) == rendered + literal + rest[0];
    }
  }

  /** The rendering loop. */
  method RenderSql(sql: string, values: seq<Value>) returns (result: Result<string>)
    ensures result == Render(sql, values)
  {
    if Strip(sql) == "" { return Err(InvalidStatement); }
    var fragments := Split(sql);
    if |fragments| - 1 != |values| { return Err(InvalidParameters); }
    var rendered := fragments[0];
    HeadOut(fragments, values);
    for i := 0 to |values|
      invariant Assemble(fragments, values) == Prefixed(rendered, Assemble([""] + fragments[i + 1..], values[i..]))
    {
      RenderingStep(fragments, values, i, rendered);
      var literal := SqlLiteral(values[i]);
      if literal.Err? { return Err(literal.error); }
      rendered := rendered + literal.value + fragments[i + 1];
    }
    assert rendered + "" == rendered;
    return Ok(Trim(rendered));
  }

  // ----- which statements are rendered -----

  predicate NulFree(s: string) {
    forall i :: 0 <= i < |s| ==> s[i] != '\U{00}'
  }

  /** The values the transport takes: null, truth values and numbers always, texts and
      zoned timestamps if they hold no NUL, and nothing else. */
  predicate Acceptable(v: Value) {
    || v.Null? || v.Bool? || v.Int?
    || (v.Text? && NulFree(v.s))
    || (v.Timestamp? && v.zoned && NulFree(v.iso))
  }

  lemma AcceptanceIsExact(v: Value)
    ensures SqlLiteral(v).Ok? <==> Acceptable(v)
    ensures !Acceptable(v) ==> SqlLiteral(v) == Err(InvalidParameter)
  {
    if v.Text? {
      assert NulFree(v.s) <==> '\U{00}' !in v.s;
    }
    if v.Timestamp? {
      assert NulFree(v.iso) <==> '\U{00}' !in v.iso;
    }
  }

  lemma {:induction false} AssembleIsExact(fragments: seq<string>, values: seq<Value>)
    requires |fragments| == |values| + 1
    ensures Assemble(fragments, values).Ok? <==> forall i :: 0 <= i < |values| ==> Acceptable(values[i])
    ensures Assemble(fragments, values).Err? ==> Assemble(fragments, values) == Err(InvalidParameter)
    decreases |values|
  {
    hide SqlLiteral, Acceptable;
    if values != [] {
      AcceptanceIsExact(values[0]);
      AssembleIsExact(fragments[1..], values[1..]);
      assert forall i :: 0 < i < |values| ==> values[i] == values[1..][i - 1];
    }
  }

  predicate PlaceholderAt(s: string, i: int) {
    0 <= i < |s| - 1 && s[i] == '%' && s[i + 1] == 's'
  }

  /** The number of placeholders that start before offset `n`. */
  function PlaceholdersBefore(s: string, n: nat): nat {
    if n == 0 then 0 else PlaceholdersBefore(s, n - 1) + if PlaceholderAt(s, n - 1) then 1 else 0
  }

  lemma {:induction false} FirstPlaceholder(s: string, n: nat)
    requires s != ""
    ensures PlaceholdersBefore(s, n + 1) == (if PlaceholderAt(s, 0) then 1 else 0) + PlaceholdersBefore(s[1..], n)
  {
    if n > 0 {
      FirstPlaceholder(s, n - 1);
      assert PlaceholderAt(s, n) <==> PlaceholderAt(s[1..], n - 1);
    }
  }

  lemma {:induction false} SplitCounts(s: string)
    ensures |Split(s)| == PlaceholdersBefore(s, |s|) + 1
    decreases |s|
  {
    if |s| < 2 {
      assert |s| == 1 ==> PlaceholdersBefore(s, 0) == 0;
    } else {
      FirstPlaceholder(s, |s| - 1);
      if s[0] == '%' && s[1] == 's' {
        FirstPlaceholder(s[1..], |s| - 2);
        assert s[1..][1..] == s[2..];
        SplitCounts(s[2..]);
      } else {
        SplitCounts(s[1..]);
      }
    }
  }

  /** Which statements are rendered: those that are not blank, have as many
      placeholders as values, and acceptable values only; and why others are refused,
      the first of these grounds deciding. */
  lemma RenderIsExact(sql: string, values: seq<Value>)
    ensures Render(sql, values).Ok? <==>
              && !AllSpaces(sql) && PlaceholdersBefore(sql, |sql|) == |values|
              && forall i :: 0 <= i < |values| ==> Acceptable(values[i])
    ensures Render(sql, values).Err? ==>
              (Render(sql, values).error ==
               if AllSpaces(sql) then InvalidStatement
               else if PlaceholdersBefore(sql, |sql|) != |values| then InvalidParameters
               else InvalidParameter)
  {
    hide Split, Assemble, Acceptable, PlaceholdersBefore;
    var _, _ := StripIsExact(sql);
    SplitCounts(sql);
    if |Split(sql)| == |values| + 1 {
      AssembleIsExact(Split(sql), values);
    }
  }

  /** Trimming takes white space off both ends and then semicolons off the end. */
  lemma TrimIsExact(s: string) returns (first: nat, last: nat, next: nat)
    ensures first <= last <= next <= |s| && Trim(s) == s[first..last]
    ensures AllSpaces(s[..first]) && AllSpaces(s[next..]) && forall i :: last <= i < next ==> s[i] == ';'
    ensures first < next ==> !IsSpace(s[first]) && !IsSpace(s[next - 1])
    ensures first < last ==> s[last - 1] != ';'
  {
    first, next := StripIsExact(s);
    var n := DroppedTail(s[first..next], IsSemicolon);
    last := first + n;
    assert s[first..next][..n] == s[first..last];
    assert forall i :: last <= i < next ==> s[i] == s[first..next][i - first];
  }

  // ----- what a literal denotes -----

  function ValueTokens(v: Value): seq<Token> {
    match v
    case Null => [Word("NULL")]
    case Bool(b) => [Word(if b then "true" else "false")]
    case Int(n) => if n < 0 then [Symbol('-'), Word(Digits(-n))] else [Word(Digits(n))]
    case Text(s) => [Literal(s)]
    case Timestamp(iso, _) => [Literal(iso)]
    case Unsupported => []
  }

  function Number(s: string): int {
    if s == "" then 0 else 10 * Number(s[..|s| - 1]) + (s[|s| - 1] as int - '0' as int)
  }

  /** The value a literal denotes to the server; a timestamp arrives as its text. */
  function ReadValue(tokens: seq<Token>): Value {
    if |tokens| == 1 && tokens[0].Literal? then Text(tokens[0].text)
    else if |tokens| == 1 && tokens[0].Word? then
      if tokens[0].text == "NULL" then Null
      else if tokens[0].text == "true" then Bool(true)
      else if tokens[0].text == "false" then Bool(false)
      else Int(Number(tokens[0].text))
    else if |tokens| == 2 && tokens[0] == Symbol('-') && tokens[1].Word? then Int(-Number(tokens[1].text))
    else Unsupported
  }

  lemma {:induction false} DigitsRead(n: nat)
    ensures Digits(n) != "" && Number(Digits(n)) == n
    ensures forall i :: 0 <= i < |Digits(n)| ==> '0' <= Digits(n)[i] <= '9'
  {
    if n >= 10 {
      DigitsRead(n / 10);
      assert Digits(n)[..|Digits(n)| - 1] == Digits(n / 10);
    } else {
      assert Digits(n)[..0] == "";
    }
  }

  /** Every accepted value is read back unchanged. */
  lemma LiteralsReadBack(v: Value)
    requires SqlLiteral(v).Ok?
    ensures ReadValue(ValueTokens(v)) == if v.Timestamp? then Text(v.iso) else v
  {
    if v.Int? {
      DigitsRead(if v.n < 0 then -v.n else v.n);
      var d := Digits(if v.n < 0 then -v.n else v.n);
      assert '0' <= d[0] <= '9';
    }
  }

  // ----- where a placeholder may stand -----

  /** Modes in which every literal starts a token of its own. */
  predicate Fits(m: Mode) {
    m.Plain? || m.NameQuote? || m.Slash? || (m.TextGap? && !m.newline)
  }

  predicate QuoteAfterGap(s: string, newline: bool) {
    s != "" &&
    if s[0] == QUOTE then newline
    else IsSpace(s[0]) && QuoteAfterGap(s[1..], newline || s[0] == '\n')
  }

  /** Texts that cannot extend the literal in front of them. */
  predicate Detaches(s: string) {
    s == "" || (!IsWordChar(s[0]) && s[0] != QUOTE && !QuoteAfterGap(s, false))
  }

  /** One character of a literal's text, doubled if it is a quote symbol. */
  lemma TextChar(t: string, c: char, rest: string)
    ensures Lex(InText(t), (if c == QUOTE then [QUOTE, QUOTE] else [c]) + rest) == Lex(InText(t + [c]), rest)
  {
    var text := (if c == QUOTE then [QUOTE, QUOTE] else [c]) + rest;
    if c == QUOTE {
      assert text[1..] == [QUOTE] + rest && text[1..][1..] == rest;
    } else {
      assert text[1..] == rest;
    }
  }

  lemma {:induction false} TextBody(t: string, s: string, r: string)
    ensures Lex(InText(t), Doubled(s) + ([QUOTE] + r)) == Lex(TextQuote(t + s), r)
    decreases |s|
  {
    var tail := [QUOTE] + r;
    if s == "" {
      assert Doubled(s) + tail == tail && tail[1..] == r && t + s == t;
    } else {
      hide Lex;
      TextChar(t, s[0], Doubled(s[1..]) + tail);
      TextBody(t + [s[0]], s[1..], r);
      assert t + [s[0]] + s[1..] == t + s;
      var head := if s[0] == QUOTE then [QUOTE, QUOTE] else [s[0]];
      Associative(head, Doubled(s[1..]), tail);
    }
  }

  lemma {:induction false} GapDetaches(t: string, newline: bool, r: string)
    requires !QuoteAfterGap(r, newline)
    ensures Lex(TextGap(t, newline), r) == [Literal(t)] + Lex(Plain, r)
    decreases |r|
  {
    if r != "" {
      if IsSpace(r[0]) {
        GapDetaches(t, newline || r[0] == '\n', r[1..]);
        assert Lex(Plain, r) == Lex(Plain, r[1..]);
      } else {
        Associative([Literal(t)], Start(r[0]).1, Lex(Start(r[0]).0, r[1..]));
      }
    }
  }

  lemma TextDetaches(t: string, r: string)
    requires Detaches(r)
    ensures Lex(TextQuote(t), r) == [Literal(t)] + Lex(Plain, r)
  {
    if r != "" {
      if IsSpace(r[0]) {
        GapDetaches(t, r[0] == '\n', r[1..]);
        assert Lex(Plain, r) == Lex(Plain, r[1..]);
      } else {
        Associative([Literal(t)], Start(r[0]).1, Lex(Start(r[0]).0, r[1..]));
      }
    }
  }

  predicate AllWordChars(w: string) {
    forall i :: 0 <= i < |w| ==> IsWordChar(w[i])
  }

  lemma {:induction false} WordBody(u: string, w: string, r: string)
    requires AllWordChars(w)
    ensures Lex(InWord(u), w + r) == Lex(InWord(u + w), r)
    decreases |w|
  {
    if w == "" {
      assert w + r == r && u + w == u;
    } else {
      assert (w + r)[1..] == w[1..] + r && u + [w[0]] + w[1..] == u + w;
      WordBody(u + [w[0]], w[1..], r);
    }
  }

  lemma WordDetaches(u: string, r: string)
    requires r == "" || !IsWordChar(r[0])
    ensures Lex(InWord(u), r) == [Word(u)] + Lex(Plain, r)
  {
    if r != "" {
      Associative([Word(u)], Start(r[0]).1, Lex(Start(r[0]).0, r[1..]));
    }
  }

  lemma WholeWord(w: string, r: string)
    requires w != "" && AllWordChars(w) && (r == "" || !IsWordChar(r[0]))
    ensures Lex(Plain, w + r) == [Word(w)] + Lex(Plain, r)
  {
    assert (w + r)[1..] == w[1..] + r && [w[0]] + w[1..] == w;
    WordBody([w[0]], w[1..], r);
    WordDetaches(w, r);
  }

  lemma WholeText(s: string, r: string)
    requires Detaches(r)
    ensures Lex(Plain, [QUOTE] + (Doubled(s) + [QUOTE]) + r) == [Literal(s)] + Lex(Plain, r)
  {
    var text := [QUOTE] + (Doubled(s) + [QUOTE]) + r;
    assert text[1..] == Doubled(s) + ([QUOTE] + r);
    TextBody("", s, r);
    assert "" + s == s;
    TextDetaches(s, r);
  }

  lemma NegativeStands(n: nat, r: string)
    requires n > 0 && Detaches(r)
    ensures Lex(Plain, ['-'] + Digits(n) + r) == [Symbol('-'), Word(Digits(n))] + Lex(Plain, r)
  {
    hide Lex;
    var d := Digits(n);
    DigitsRead(n);
    WholeWord(d, r);
    DashBeforeDigit(d + r);
    Associative(['-'], d, r);
    assert [Symbol('-')] + ([Word(d)] + Lex(Plain, r)) == [Symbol('-'), Word(d)] + Lex(Plain, r);
  }

  lemma DashBeforeDigit(s: string)
    requires s != "" && '0' <= s[0] <= '9'
    ensures Lex(Plain, ['-'] + s) == [Symbol('-')] + Lex(Plain, s)
  {
    var (m, out) := Start(s[0]);
    assert (['-'] + s)[1..] == s;
    assert Lex(Plain, ['-'] + s) == Lex(Dash, s);
    Associative([Symbol('-')], out, Lex(m, s[1..]));
  }

  lemma LiteralStands(v: Value, r: string)
    requires SqlLiteral(v).Ok? && Detaches(r)
    ensures Lex(Plain, SqlLiteral(v).value + r) == ValueTokens(v) + Lex(Plain, r)
  {
    hide Lex, Doubled;
    match v
    case Null => WholeWord("NULL", r);
    case Bool(b) => WholeWord(if b then "true" else "false", r);
    case Text(s) => WholeText(s, r);
    case Timestamp(iso, _) => WholeText(iso, r);
    case Int(n) =>
      if n < 0 {
        NegativeStands(-n, r);
      } else {
        DigitsRead(n);
        WholeWord(Digits(n), r);
      }
  }

  lemma LiteralHead(v: Value)
    requires SqlLiteral(v).Ok?
    ensures var l := SqlLiteral(v).value; l != "" && (l[0] == QUOTE || l[0] == '-' || IsWordChar(l[0]))
  {
    if v.Int? {
      DigitsRead(if v.n < 0 then -v.n else v.n);
    }
  }

  lemma OwesThenPlain(m: Mode, text: string)
    requires Fits(m) && text != "" && (text[0] == QUOTE || text[0] == '-' || IsWordChar(text[0]))
    ensures Lex(m, text) == Close(m) + Lex(Plain, text)
  {
    var (m', out) := Start(text[0]);
    assert Step(m, text[0]).0 == m' && Step(m, text[0]).1 == Close(m) + out;
    Associative(Close(m), out, Lex(m', text[1..]));
  }

  /** In a fitting mode, in front of a detaching text, a literal is read as exactly
      its own tokens. */
  lemma LiteralFits(m: Mode, v: Value, r: string)
    requires SqlLiteral(v).Ok? && Fits(m) && Detaches(r)
    ensures Lex(m, SqlLiteral(v).value + r) == Close(m) + (ValueTokens(v) + Lex(Plain, r))
  {
    LiteralHead(v);
    LiteralStands(v, r);
    var text := SqlLiteral(v).value + r;
    OwesThenPlain(m, text);
    hide *;
  }

  // ----- whole templates -----

  /** Every placeholder stands outside quotes and comments and cannot run into what
      surrounds it, whatever value it receives. */
  predicate WellPlaced(fragments: seq<string>)
    requires |fragments| >= 1
    decreases |fragments|
  {
    |fragments| == 1 ||
    (&& Fits(End(Plain, fragments[0]))
     && Detaches(if |fragments| == 2 then fragments[1] else fragments[1] + [QUOTE])
     && WellPlaced(fragments[1..]))
  }

  /** The template's own tokens, with each placeholder replaced by its value's. */
  function FilledTokens(fragments: seq<string>, values: seq<Value>): seq<Token>
    requires |fragments| == |values| + 1
    decreases |values|
  {
    if values == [] then Tokens(fragments[0])
    else Tokens(fragments[0]) + (ValueTokens(values[0]) + FilledTokens(fragments[1..], values[1..]))
  }

  lemma {:induction false} GapMonotone(f: string, x: string, newline: bool)
    requires !QuoteAfterGap(f + [QUOTE], newline)
    requires x != "" && !IsSpace(x[0])
    ensures !QuoteAfterGap(f + x, newline)
    decreases |f|
  {
    if f == "" {
      assert f + x == x && f + [QUOTE] == [QUOTE];
    } else {
      assert (f + x)[0] == (f + [QUOTE])[0] == f[0];
      assert (f + x)[1..] == f[1..] + x && (f + [QUOTE])[1..] == f[1..] + [QUOTE];
      if IsSpace(f[0]) {
        GapMonotone(f[1..], x, newline || f[0] == '\n');
      }
    }
  }

  lemma DetachesBeforeLiteral(f: string, v: Value, rest: string)
    requires SqlLiteral(v).Ok? && Detaches(f + [QUOTE])
    ensures Detaches(f + (SqlLiteral(v).value + rest))
  {
    LiteralHead(v);
    assert (f + [QUOTE])[0] == if f == "" then QUOTE else f[0];
    GapMonotone(f, SqlLiteral(v).value + rest, false);
  }

  /** The rest of a well-placed template cannot extend the literal before it. */
  lemma RestDetaches(fragments: seq<string>, values: seq<Value>)
    requires |fragments| == |values| + 1 && Assemble(fragments, values).Ok?
    requires Detaches(if values == [] then fragments[0] else fragments[0] + [QUOTE])
    ensures Detaches(Assemble(fragments, values).value)
  {
    hide Detaches, SqlLiteral;
    if values != [] {
      var literal := SqlLiteral(values[0]).value;
      var more := Assemble(fragments[1..], values[1..]).value;
      DetachesBeforeLiteral(fragments[0], values[0], more);
      Associative(fragments[0], literal, more);
    }
  }

  /** One literal between a template's first fragment and the rest. */
  lemma OneHole(f: string, v: Value, rest: string)
    requires SqlLiteral(v).Ok? && Fits(End(Plain, f)) && Detaches(rest)
    ensures Tokens(f + SqlLiteral(v).value + rest) == Tokens(f) + (ValueTokens(v) + Tokens(rest))
  {
    var literal := SqlLiteral(v).value;
    hide Lex, Emitted, Close, End, ValueTokens, SqlLiteral, Step, Detaches, Fits;
    LexConcat(Plain, f, literal + rest);
    LiteralFits(End(Plain, f), v, rest);
    LexWhole(Plain, f);
    Associative(f, literal, rest);
    Associative(Emitted(Plain, f), Close(End(Plain, f)), ValueTokens(v) + Lex(Plain, rest));
  }

  lemma {:induction false} AssembledTokens(fragments: seq<string>, values: seq<Value>)
    requires |fragments| == |values| + 1 && WellPlaced(fragments)
    requires Assemble(fragments, values).Ok?
    ensures Tokens(Assemble(fragments, values).value) == FilledTokens(fragments, values)
    decreases |values|
  {
    hide Tokens, SqlLiteral, Detaches, End;
    if values != [] {
      RestDetaches(fragments[1..], values[1..]);
      AssembledTokens(fragments[1..], values[1..]);
      OneHole(fragments[0], values[0], Assemble(fragments[1..], values[1..]).value);
    }
  }

  /** Rendering a well-placed template keeps its lexical structure: the server reads
      the template's tokens with each placeholder replaced by its value's tokens,
      up to semicolons at the very end. */
  lemma RenderingPreservesStructure(sql: string, values: seq<Value>) returns (semicolons: nat)
    requires Render(sql, values).Ok? && WellPlaced(Split(sql))
    ensures FilledTokens(Split(sql), values) == Tokens(Render(sql, values).value) + Repeat(Symbol(';'), semicolons)
  {
    var text := Assemble(Split(sql), values).value;
    AssembledTokens(Split(sql), values);
    SkipSpacesKeepsTokens(text);
    TrailingSpaceKeepsTokens(SkipSpaces(text));
    semicolons := TrailingSemicolons(Strip(text));
  }
}
