/** Where a placeholder may stand: the condition under which rendering keeps a
    statement's lexical structure is exact, not merely sufficient. */
module SqlPlacement {
  import opened Sequences
  import opened SqlText
  import opened SqlRendering

  /** In mode `m`, before the text `r`, every literal is read as its own tokens and
      is followed by the tokens `after`. */
  ghost predicate EveryLiteralStands(m: Mode, r: string, after: seq<Token>) {
    forall v: Value :: SqlLiteral(v).Ok? ==> LiteralStandsAt(m, v, r, after)
  }

  ghost predicate LiteralStandsAt(m: Mode, v: Value, r: string, after: seq<Token>)
    requires SqlLiteral(v).Ok?
  {
    Lex(m, SqlLiteral(v).value + r) == Close(m) + (ValueTokens(v) + after)
  }

  function Carried(m: Mode): string {
    match m
    case InWord(w) => w
    case InText(t) => t
    case TextQuote(t) => t
    case TextGap(t, _) => t
    case InName(t) => t
    case NameQuote(t) => t
    case _ => ""
  }

  predicate Carries(m: Mode) {
    m.InWord? || m.InText? || m.TextQuote? || m.TextGap? || m.InName? || m.NameQuote?
  }

  function TextOf(t: Token): string {
    match t
    case Word(w) => w
    case Literal(w) => w
    case Name(w) => w
    case _ => ""
  }

  /** A text once begun ends as one token at least as long, or as a broken one. */
  lemma {:induction false} CarriedTextSurvives(m: Mode, s: string)
    requires Carries(m)
    ensures Lex(m, s) != []
    ensures Lex(m, s)[0] == Broken ==> Lex(m, s) == [Broken]
    ensures Lex(m, s)[0] != Broken ==> |TextOf(Lex(m, s)[0])| >= |Carried(m)|
    decreases |s|
  {
    if s != "" {
      var (m', out) := Step(m, s[0]);
      if Carries(m') && out == [] {
        CarriedTextSurvives(m', s[1..]);
        assert Lex(m, s) == Lex(m', s[1..]);
      } else {
        assert out[0] != Broken && |TextOf(out[0])| >= |Carried(m)|;
        assert Lex(m, s)[0] == out[0];
      }
    }
  }

  lemma LexTwo(m: Mode, a: char, b: char, r: string)
    requires Step(m, a).1 == [] && Step(Step(m, a).0, b).1 == []
    ensures Lex(m, [a, b] + r) == Lex(Step(Step(m, a).0, b).0, r)
  {
    assert ([a, b] + r)[1..] == [b] + r && ([b] + r)[1..] == r;
  }

  lemma LexHead(m: Mode, r: string)
    requires r != "" && Step(m, r[0]).1 == []
    ensures Lex(m, r) == Lex(Step(m, r[0]).0, r[1..])
  {
  }

  lemma LexOne(m: Mode, a: char, r: string)
    requires Step(m, a).1 == []
    ensures Lex(m, [a] + r) == Lex(Step(m, a).0, r)
  {
    assert ([a] + r)[1..] == r;
  }

  lemma SampleLiterals()
    ensures SqlLiteral(Int(5)) == Ok("5") && SqlLiteral(Text("")) == Ok([QUOTE, QUOTE])
  {
    assert Digits(5) == "5";
    assert [QUOTE] + (Doubled("") + [QUOTE]) == [QUOTE, QUOTE];
  }

  /** Inside a word, a literal or a delimited identifier a literal is swallowed. */
  lemma MidTextRefuses(m: Mode, r: string, after: seq<Token>)
    requires (m.InWord? || m.InText? || m.TextQuote? || m.TextGap? || m.InName?) && !Fits(m)
    ensures !EveryLiteralStands(m, r, after)
  {
    var v := if m.TextQuote? || m.TextGap? then Text("") else Int(5);
    SampleLiterals();
    if m.TextQuote? || m.TextGap? {
      LexTwo(m, QUOTE, QUOTE, r);
      var m' := Step(Step(m, QUOTE).0, QUOTE).0;
      CarriedTextSurvives(m', r);
    } else {
      LexOne(m, '5', r);
      CarriedTextSurvives(Step(m, '5').0, r);
    }
    if m.TextGap? {
      GapSwallows(m, r, after);
    } else {
      assert !LiteralStandsAt(m, v, r, after);
    }
  }

  /** After a literal and a newline, the text "a" becomes part of that literal. */
  lemma GapSwallows(m: Mode, r: string, after: seq<Token>)
    requires m.TextGap? && m.newline
    ensures !EveryLiteralStands(m, r, after)
  {
    var v := Text("a");
    assert Doubled("a") == "a" by { assert "a"[1..] == ""; }
    assert SqlLiteral(v).value == "'a'";
    var tail := ['a', QUOTE] + r;
    assert "'a'" + r == [QUOTE] + tail;
    LexOne(m, QUOTE, tail);
    LexTwo(InText(m.text), 'a', QUOTE, r);
    CarriedTextSurvives(TextQuote(m.text + "a"), r);
    assert !LiteralStandsAt(m, v, r, after);
  }

  predicate Discards(m: Mode) {
    m.Comment? || m.Block? || m.BlockStar? || m.BlockSlash?
  }

  /** Inside a comment, or right after a dash, two different numbers vanish alike. */
  lemma CommentRefuses(m: Mode, r: string, after: seq<Token>)
    requires Discards(m) || m.Dash?
    ensures !EveryLiteralStands(m, r, after)
  {
    var a, b := if m.Dash? then Int(-5) else Int(5), if m.Dash? then Int(-6) else Int(6);
    assert Digits(5) == "5" && Digits(6) == "6";
    if m.Dash? {
      assert SqlLiteral(a).value == ['-', '5'] && SqlLiteral(b).value == ['-', '6'];
      LexTwo(m, '-', '5', r);
      LexTwo(m, '-', '6', r);
    } else {
      assert SqlLiteral(a).value == ['5'] && SqlLiteral(b).value == ['6'];
      LexOne(m, '5', r);
      LexOne(m, '6', r);
    }
    assert Lex(m, SqlLiteral(a).value + r) == Lex(m, SqlLiteral(b).value + r);
    hide Lex;
    var k := |Close(m)| + |ValueTokens(a)| - 1;
    assert (Close(m) + (ValueTokens(a) + after))[k] == Word("5");
    assert (Close(m) + (ValueTokens(b) + after))[k] == Word("6");
  }

  lemma {:induction false} GapContinues(newline: bool, r: string) returns (z: string)
    requires QuoteAfterGap(r, newline)
    ensures Lex(TextGap("", newline), r) == Lex(InText(""), z)
    ensures Lex(Plain, r) == Lex(InText(""), z)
    decreases |r|
  {
    LexHead(TextGap("", newline), r);
    LexHead(Plain, r);
    hide Lex;
    if r[0] == QUOTE {
      z := r[1..];
    } else {
      z := GapContinues(newline || r[0] == '\n', r[1..]);
    }
  }

  /** A text that could extend the literal in front of it sometimes does. */
  lemma AttachedRefuses(m: Mode, r: string, after: seq<Token>)
    requires Fits(m) && !Detaches(r)
    ensures !EveryLiteralStands(m, r, after)
  {
    if IsWordChar(r[0]) || r[0] == QUOTE {
      AttachedDirectly(m, r, after);
    } else if after == Lex(Plain, r) {
      AttachedAcrossGap(m, r);
    } else {
      NumberDetaches(m, r, after);
    }
  }

  /** The next character extends a number, or a text. */
  lemma AttachedDirectly(m: Mode, r: string, after: seq<Token>)
    requires Fits(m) && r != "" && (IsWordChar(r[0]) || r[0] == QUOTE)
    ensures !EveryLiteralStands(m, r, after)
  {
    var v := if IsWordChar(r[0]) then Int(5) else Text("");
    SampleLiterals();
    OwesThenPlain(m, SqlLiteral(v).value + r);
    if IsWordChar(r[0]) {
      LexOne(Plain, '5', r);
      LexHead(InWord("5"), r);
      CarriedTextSurvives(InWord("5" + [r[0]]), r[1..]);
    } else {
      LexTwo(Plain, QUOTE, QUOTE, r);
      LexHead(TextQuote(""), r);
      CarriedTextSurvives(InText("" + [QUOTE]), r[1..]);
    }
    hide Lex;
    assert (ValueTokens(v) + after)[0] == ValueTokens(v)[0];
    NotStanding(m, v, r, after);
  }

  lemma GapSteps(c: char)
    requires IsSpace(c)
    ensures Step(Plain, QUOTE) == (InText(""), []) && Step(InText(""), QUOTE) == (TextQuote(""), [])
    ensures Step(TextQuote(""), c) == (TextGap("", c == '\n'), []) && Step(Plain, c) == (Plain, [])
  {
  }

  /** White space with a newline, then a quote symbol, continues an empty text. */
  lemma GapSwallowsEmpty(r: string)
    requires r != "" && !IsWordChar(r[0]) && r[0] != QUOTE && QuoteAfterGap(r, false)
    ensures Lex(Plain, [QUOTE, QUOTE] + r) == Lex(Plain, r)
  {
    GapSteps(r[0]);
    hide Lex, Step;
    LexTwo(Plain, QUOTE, QUOTE, r);
    LexHead(TextQuote(""), r);
    LexHead(Plain, r);
    var z := GapContinues(r[0] == '\n', r[1..]);
  }

  lemma AttachedAcrossGap(m: Mode, r: string)
    requires Fits(m) && r != "" && !IsWordChar(r[0]) && r[0] != QUOTE && QuoteAfterGap(r, false)
    ensures !EveryLiteralStands(m, r, Lex(Plain, r))
  {
    hide Lex;
    var v := Text("");
    SampleLiterals();
    OwesThenPlain(m, SqlLiteral(v).value + r);
    GapSwallowsEmpty(r);
    assert |ValueTokens(v) + Lex(Plain, r)| == 1 + |Lex(Plain, r)|;
    NotStanding(m, v, r, Lex(Plain, r));
  }

  /** A number does stand there, and so fixes the tokens after it. */
  lemma NumberDetaches(m: Mode, r: string, after: seq<Token>)
    requires Fits(m) && (r == "" || !IsWordChar(r[0])) && after != Lex(Plain, r)
    ensures !EveryLiteralStands(m, r, after)
  {
    var v := Int(5);
    SampleLiterals();
    assert Digits(5) == "5";
    OwesThenPlain(m, SqlLiteral(v).value + r);
    WholeWord("5", r);
    hide Lex;
    SamePrefix([Word("5")], Lex(Plain, r), after);
    NotStanding(m, v, r, after);
  }

  lemma NotStanding(m: Mode, v: Value, r: string, after: seq<Token>)
    requires SqlLiteral(v).Ok? && Lex(m, SqlLiteral(v).value + r) == Close(m) + Lex(Plain, SqlLiteral(v).value + r)
    requires Lex(Plain, SqlLiteral(v).value + r) != ValueTokens(v) + after
    ensures !LiteralStandsAt(m, v, r, after)
  {
    hide Lex;
    SamePrefix(Close(m), Lex(Plain, SqlLiteral(v).value + r), ValueTokens(v) + after);
  }

  /** The placement condition is exact: outside it, some accepted value changes the
      tokens around its placeholder, whatever tokens are expected after it. */
  lemma PlacementIsExact(m: Mode, r: string, after: seq<Token>)
    ensures EveryLiteralStands(m, r, after) <==> Fits(m) && Detaches(r) && after == Lex(Plain, r)
  {
    if Fits(m) && Detaches(r) {
      if after == Lex(Plain, r) {
        forall v: Value | SqlLiteral(v).Ok? ensures LiteralStandsAt(m, v, r, after) {
          LiteralFits(m, v, r);
        }
      } else {
        NumberDetaches(m, r, after);
      }
    } else if Fits(m) {
      AttachedRefuses(m, r, after);
    } else if Discards(m) || m.Dash? {
      CommentRefuses(m, r, after);
    } else {
      MidTextRefuses(m, r, after);
    }
  }

  // ----- whole statements -----

  lemma OneStatement(before: string, v: Value, r: string, after: seq<Token>)
    requires SqlLiteral(v).Ok?
    ensures Tokens(before + SqlLiteral(v).value + r) == Tokens(before) + (ValueTokens(v) + after)
            <==> LiteralStandsAt(End(Plain, before), v, r, after)
  {
    hide Lex, Emitted, SqlLiteral, ValueTokens, End, Close, Step;
    var m, literal := End(Plain, before), SqlLiteral(v).value;
    Associative(before, literal, r);
    LexConcat(Plain, before, literal + r);
    LexWhole(Plain, before);
    var tail := ValueTokens(v) + after;
    Associative(Emitted(Plain, before), Close(m), tail);
    SamePrefix(Emitted(Plain, before), Lex(m, literal + r), Close(m) + tail);
  }

  /** A statement keeps its template's tokens for every list of accepted values. */
  ghost predicate KeepsStructure(fragments: seq<string>)
    requires |fragments| >= 1
  {
    forall values: seq<Value> :: |fragments| == |values| + 1 && Assemble(fragments, values).Ok? ==>
      Tokens(Assemble(fragments, values).value) == FilledTokens(fragments, values)
  }

  /** What a template that keeps its tokens says of its first placeholder, the others
      being filled in. */
  lemma FirstHole(fragments: seq<string>, values: seq<Value>)
    requires |fragments| == |values| + 2 && KeepsStructure(fragments) && Assemble(fragments[1..], values).Ok?
    ensures var r := Assemble(fragments[1..], values).value;
            && Fits(End(Plain, fragments[0])) && Detaches(r)
            && Tokens(r) == FilledTokens(fragments[1..], values)
  {
    var m := End(Plain, fragments[0]);
    var r, after := Assemble(fragments[1..], values).value, FilledTokens(fragments[1..], values);
    hide Fits, Detaches, Lex, End, SqlLiteral, Step;
    forall v: Value | SqlLiteral(v).Ok? ensures LiteralStandsAt(m, v, r, after) {
      var all := [v] + values;
      assert all[0] == v && all[1..] == values;
      assert Assemble(fragments, all) == Ok(fragments[0] + SqlLiteral(v).value + r);
      assert FilledTokens(fragments, all) == Tokens(fragments[0]) + (ValueTokens(v) + after);
      OneStatement(fragments[0], v, r, after);
    }
    PlacementIsExact(m, r, after);
  }

  function EmptyTexts(n: nat): (values: seq<Value>)
    ensures |values| == n && forall i :: 0 <= i < n ==> values[i] == Text("")
  {
    seq(n, _ => Text(""))
  }

  lemma {:induction false} EmptyTextsAreAccepted(fragments: seq<string>, values: seq<Value>) returns (rest: string)
    requires |fragments| == |values| + 1 && values == EmptyTexts(|values|)
    ensures Assemble(fragments, values).Ok?
    ensures Assemble(fragments, values).value == fragments[0] + if values == [] then "" else [QUOTE] + rest
    decreases |values|
  {
    rest := "";
    if values == [] {
      assert fragments[0] + "" == fragments[0];
    } else {
      SampleLiterals();
      assert values[1..] == EmptyTexts(|values| - 1);
      var _ := EmptyTextsAreAccepted(fragments[1..], values[1..]);
      var more := Assemble(fragments[1..], values[1..]).value;
      rest := [QUOTE] + more;
      assert values[0] == Text("");
      assert Assemble(fragments, values).value == fragments[0] + [QUOTE, QUOTE] + more
          == fragments[0] + ([QUOTE] + rest);
    }
  }

  /** A quote symbol decides whether a gap reaches it. */
  lemma {:induction false} QuoteDecides(f: string, rest: string, newline: bool)
    ensures QuoteAfterGap(f + ([QUOTE] + rest), newline) == QuoteAfterGap(f + [QUOTE], newline)
    decreases |f|
  {
    if f == "" {
      assert f + ([QUOTE] + rest) == [QUOTE] + rest && f + [QUOTE] == [QUOTE];
    } else {
      assert (f + ([QUOTE] + rest))[1..] == f[1..] + ([QUOTE] + rest) && (f + [QUOTE])[1..] == f[1..] + [QUOTE];
      QuoteDecides(f[1..], rest, newline || f[0] == '\n');
    }
  }

  lemma DetachesUpToQuote(f: string, rest: string)
    ensures Detaches(f + ([QUOTE] + rest)) <==> Detaches(f + [QUOTE])
  {
    QuoteDecides(f, rest, false);
    assert (f + ([QUOTE] + rest))[0] == (f + [QUOTE])[0];
  }

  /** For any number of placeholders: a template keeps its tokens under every list of
      accepted values exactly when each placeholder is well placed. */
  lemma {:induction false} StructureIsExact(fragments: seq<string>)
    requires |fragments| >= 1
    ensures KeepsStructure(fragments) <==> WellPlaced(fragments)
    decreases |fragments|
  {
    if WellPlaced(fragments) {
      forall values: seq<Value> | |fragments| == |values| + 1 && Assemble(fragments, values).Ok?
        ensures Tokens(Assemble(fragments, values).value) == FilledTokens(fragments, values)
      {
        AssembledTokens(fragments, values);
      }
    }
    if KeepsStructure(fragments) && |fragments| > 1 {
      var rest := fragments[1..];
      forall values: seq<Value> | |rest| == |values| + 1 && Assemble(rest, values).Ok?
        ensures Tokens(Assemble(rest, values).value) == FilledTokens(rest, values)
      {
        FirstHole(fragments, values);
      }
      StructureIsExact(rest);
      FirstDetaches(fragments);
    }
  }

  /** In particular for a statement with one placeholder. */
  lemma OnePlaceholderIsExact(before: string, after: string)
    ensures (forall v: Value :: SqlLiteral(v).Ok? ==>
               Tokens(before + SqlLiteral(v).value + after) == FilledTokens([before, after], [v]))
            <==> WellPlaced([before, after])
  {
    var m := End(Plain, before);
    assert [before, after][1..] == [after];
    forall v: Value | SqlLiteral(v).Ok?
      ensures Tokens(before + SqlLiteral(v).value + after) == FilledTokens([before, after], [v])
              <==> LiteralStandsAt(m, v, after, Tokens(after))
    {
      assert [v][1..] == [];
      OneStatement(before, v, after, Tokens(after));
    }
    PlacementIsExact(m, after, Tokens(after));
    hide LiteralStandsAt, FilledTokens, Fits, Detaches, Lex, End;
  }

  lemma FirstDetaches(fragments: seq<string>)
    requires |fragments| > 1 && KeepsStructure(fragments)
    ensures Fits(End(Plain, fragments[0]))
    ensures Detaches(if |fragments| == 2 then fragments[1] else fragments[1] + [QUOTE])
  {
    var values := EmptyTexts(|fragments| - 2);
    var rest := EmptyTextsAreAccepted(fragments[1..], values);
    FirstHole(fragments, values);
    hide Fits, Detaches, KeepsStructure, End;
    if values == [] {
      assert fragments[1] + "" == fragments[1];
    } else {
      DetachesUpToQuote(fragments[1], rest);
    }
  }
}
