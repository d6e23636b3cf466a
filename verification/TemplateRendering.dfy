/** Rendering of SQL asset templates: six upper-case placeholders in double braces
    are replaced one after another by lower-case identifiers. */
module TemplateRendering {
  import opened Sequences

  datatype Result<+T> = Ok(value: T) | UnsafeIdentifier | NotFullyRendered

  /** What each placeholder name stands for. */
  type Replacement = (string, string)

  predicate IsName(name: string) {
    name != "" && forall i :: 0 <= i < |name| ==> 'A' <= name[i] <= 'Z' || name[i] == '_'
  }

  predicate IsLower(c: char) { 'a' <= c <= 'z' }

  /** The identifiers the renderer accepts: at most 63 characters. */
  predicate IsIdentifier(s: string) {
    && 1 <= |s| <= 63 && IsLower(s[0])
    && forall i :: 0 <= i < |s| ==> IsLower(s[i]) || '0' <= s[i] <= '9' || s[i] == '_'
  }

  function Placeholder(name: string): string {
    ['{', '{'] + (name + ['}', '}'])
  }

  predicate At(s: string, prefix: string) {
    |prefix| <= |s| && s[..|prefix|] == prefix
  }

  /** Every occurrence of `placeholder`, from left to right. */
  function ReplaceAll(s: string, placeholder: string, value: string): string
    requires placeholder != ""
    decreases |s|
  {
    if s == "" then ""
    else if At(s, placeholder) then value + ReplaceAll(s[|placeholder|..], placeholder, value)
    else [s[0]] + ReplaceAll(s[1..], placeholder, value)
  }

  function ReplaceEach(s: string, replacements: seq<Replacement>): string
    decreases |replacements|
  {
    if replacements == [] then s
    else ReplaceEach(ReplaceAll(s, Placeholder(replacements[0].0), replacements[0].1), replacements[1..])
  }

  /** The value of the placeholder at the head of `s`, if one stands there. */
  function Match(s: string, replacements: seq<Replacement>): (m: seq<Replacement>)
    ensures |m| <= 1
    ensures m != [] ==> m[0] in replacements && At(s, Placeholder(m[0].0))
    ensures m == [] ==> forall r :: r in replacements ==> !At(s, Placeholder(r.0))
    decreases |replacements|
  {
    if replacements == [] then []
    else if At(s, Placeholder(replacements[0].0)) then [replacements[0]]
    else
      assert replacements == [replacements[0]] + replacements[1..];
      Match(s, replacements[1..])
  }

  /** One pass that replaces all placeholders at once. */
  function ReplaceTogether(s: string, replacements: seq<Replacement>): string
    decreases |s|
  {
    if s == "" then ""
    else
      var m := Match(s, replacements);
      if m != [] then m[0].1 + ReplaceTogether(s[|Placeholder(m[0].0)|..], replacements)
      else [s[0]] + ReplaceTogether(s[1..], replacements)
  }

  ghost predicate Safe(replacements: seq<Replacement>) {
    && (forall r :: r in replacements ==> IsName(r.0) && IsIdentifier(r.1))
    && (forall i, j :: 0 <= i < j < |replacements| ==> replacements[i].0 != replacements[j].0)
  }

  // ----- placeholders cannot overlap, nor arise from what is put in -----

  lemma AtStarts(s: string, name: string)
    requires name != ""
    ensures At(s, Placeholder(name)) ==> |s| >= 3 && s[0] == '{' && s[1] == '{' && s[2] == name[0]
  {
    var p := Placeholder(name);
    assert p[0] == '{' && p[1] == '{' && p[2] == name[0];
    assert At(s, p) ==> s[..|p|][0] == s[0] && s[..|p|][1] == s[1] && s[..|p|][2] == s[2];
  }

  /** A placeholder's text is its name up to the first closing brace. */
  lemma AtSpells(s: string, name: string)
    requires IsName(name) && At(s, Placeholder(name))
    ensures 2 + |name| < |s| && s[2 + |name|] == '}' && s[2..2 + |name|] == name
    ensures forall k :: 2 <= k < 2 + |name| ==> s[k] != '}'
  {
    var p := Placeholder(name);
    assert s[..|p|][2 + |name|] == p[2 + |name|];
    assert s[..|p|][2..2 + |name|] == p[2..2 + |name|] == name;
    forall k | 2 <= k < 2 + |name| ensures s[k] != '}' {
      assert s[k] == s[2..2 + |name|][k - 2] == name[k - 2];
    }
  }

  /** Two different placeholders never start at the same place. */
  lemma OnePlaceholderHere(s: string, a: string, b: string)
    requires IsName(a) && IsName(b) && At(s, Placeholder(a)) && At(s, Placeholder(b))
    ensures a == b
  {
    AtSpells(s, a);
    AtSpells(s, b);
  }

  /** No placeholder starts inside another. */
  lemma NoPlaceholderInside(a: string, rest: string, i: nat, b: string)
    requires IsName(a) && IsName(b) && 0 < i < |Placeholder(a)|
    ensures !At((Placeholder(a) + rest)[i..], Placeholder(b))
  {
    var p, s := Placeholder(a), Placeholder(a) + rest;
    AtStarts(s[i..], b);
    assert s[i..][0] == s[i] == p[i];
    assert i == 1 ==> s[i..][1] == p[2] == a[0];
  }

  /** Where no placeholder of the list starts, the pass copies. */
  lemma {:induction false} CopiesThrough(head: string, rest: string, replacements: seq<Replacement>)
    requires forall i :: 0 <= i < |head| ==> Match((head + rest)[i..], replacements) == []
    ensures ReplaceTogether(head + rest, replacements) == head + ReplaceTogether(rest, replacements)
    decreases |head|
  {
    if head == "" {
      assert head + rest == rest;
    } else {
      var s := head + rest;
      assert s[0..] == s && s[1..] == head[1..] + rest;
      forall i | 0 <= i < |head[1..]| ensures Match((head[1..] + rest)[i..], replacements) == [] {
        assert (head[1..] + rest)[i..] == s[i + 1..];
      }
      CopiesThrough(head[1..], rest, replacements);
      Associative([head[0]], head[1..], ReplaceTogether(rest, replacements));
      assert [head[0]] + head[1..] == head;
    }
  }

  /** A foreign placeholder passes through unharmed. */
  lemma KeepsForeign(name: string, rest: string, replacements: seq<Replacement>)
    requires IsName(name) && Safe(replacements) && forall r :: r in replacements ==> r.0 != name
    ensures ReplaceTogether(Placeholder(name) + rest, replacements)
            == Placeholder(name) + ReplaceTogether(rest, replacements)
  {
    var p := Placeholder(name);
    var s := p + rest;
    forall i | 0 <= i < |p| ensures Match(s[i..], replacements) == [] {
      var m := Match(s[i..], replacements);
      if m != [] {
        if i == 0 {
          assert s[0..] == s && s[..|p|] == p;
          OnePlaceholderHere(s, m[0].0, name);
        } else {
          NoPlaceholderInside(name, rest, i, m[0].0);
        }
      }
    }
    CopiesThrough(p, rest, replacements);
  }

  lemma ReplacedStartsLower(s: string, replacements: seq<Replacement>)
    requires Safe(replacements) && s != ""
    ensures Match(s, replacements) != [] ==>
              ReplaceTogether(s, replacements) != "" && IsLower(ReplaceTogether(s, replacements)[0])
  {
    var m := Match(s, replacements);
    if m != [] {
      assert ReplaceTogether(s, replacements)[0] == m[0].1[0];
    }
  }

  /** The result of the pass starts with placeholder characters only where the text
      itself does. */
  lemma {:induction false} StartsAlike(s: string, n: nat, replacements: seq<Replacement>)
    requires Safe(replacements) && n <= |ReplaceTogether(s, replacements)|
    requires forall i :: 0 <= i < n ==> !IsLower(ReplaceTogether(s, replacements)[i])
    ensures n <= |s| && s[..n] == ReplaceTogether(s, replacements)[..n]
    decreases n
  {
    if n > 0 {
      var out := ReplaceTogether(s, replacements);
      ReplacedStartsLower(s, replacements);
      var rest := ReplaceTogether(s[1..], replacements);
      assert out[0] == s[0] && rest == out[1..];
      forall i | 0 <= i < n - 1 ensures !IsLower(rest[i]) { assert rest[i] == out[i + 1]; }
      StartsAlike(s[1..], n - 1, replacements);
      assert s[..n] == [s[0]] + s[1..][..n - 1];
      assert out[..n] == [out[0]] + rest[..n - 1];
    }
  }

  lemma PlaceholderIsNotLower(name: string, i: nat)
    requires IsName(name) && i < |Placeholder(name)|
    ensures !IsLower(Placeholder(name)[i])
  {
  }

  /** Replaced text hides no placeholder. */
  lemma {:induction false} ValuePassesThrough(text: string, rest: string, name: string, value: string)
    requires name != "" && forall i :: 0 <= i < |text| ==> text[i] != '{'
    ensures ReplaceAll(text + rest, Placeholder(name), value) == text + ReplaceAll(rest, Placeholder(name), value)
    decreases |text|
  {
    var s := text + rest;
    if text == "" {
      assert s == rest;
    } else {
      AtStarts(s, name);
      assert s[1..] == text[1..] + rest;
      ValuePassesThrough(text[1..], rest, name, value);
      Associative([text[0]], text[1..], ReplaceAll(rest, Placeholder(name), value));
      assert [text[0]] + text[1..] == text;
    }
  }

  // ----- one more replacement -----

  lemma MatchExtends(s: string, replacements: seq<Replacement>, r: Replacement)
    requires Safe(replacements + [r])
    ensures Match(s, replacements + [r])
            == if Match(s, replacements) != [] then Match(s, replacements)
               else if At(s, Placeholder(r.0)) then [r] else []
    decreases |replacements|
  {
    var all := replacements + [r];
    if replacements != [] {
      assert all[0] == replacements[0] && all[1..] == replacements[1..] + [r];
      SafeTail(all);
      MatchExtends(s, replacements[1..], r);
    } else {
      assert all[1..] == [];
    }
  }

  lemma SafeTail(replacements: seq<Replacement>)
    requires Safe(replacements) && replacements != []
    ensures Safe(replacements[1..])
  {
    assert forall r :: r in replacements[1..] ==> r in replacements;
  }

  /** Replacing `r` after all others is the same as replacing it with them. */
  lemma {:induction false} OneMore(s: string, replacements: seq<Replacement>, r: Replacement)
    requires Safe(replacements + [r])
    ensures ReplaceAll(ReplaceTogether(s, replacements), Placeholder(r.0), r.1)
            == ReplaceTogether(s, replacements + [r])
    decreases |s|
  {
    if s != "" {
      var p, all := Placeholder(r.0), replacements + [r];
      SafeParts(replacements, r);
      MatchExtends(s, replacements, r);
      var m := Match(s, replacements);
      if m != [] {
        var rest := s[|Placeholder(m[0].0)|..];
        OneMore(rest, replacements, r);
        ValuePassesThrough(m[0].1, ReplaceTogether(rest, replacements), r.0, r.1);
      } else if At(s, p) {
        var rest := s[|p|..];
        OneMore(rest, replacements, r);
        assert s == p + rest;
        KeepsForeign(r.0, rest, replacements);
        var after := ReplaceTogether(rest, replacements);
        assert (p + after)[..|p|] == p && (p + after)[|p|..] == after;
      } else {
        OneMore(s[1..], replacements, r);
        var out := ReplaceTogether(s, replacements);
        NotThereAfterwards(s, replacements, r);
        assert out[1..] == ReplaceTogether(s[1..], replacements);
      }
    }
  }

  lemma SafeParts(replacements: seq<Replacement>, r: Replacement)
    requires Safe(replacements + [r])
    ensures Safe(replacements) && IsName(r.0) && IsIdentifier(r.1)
    ensures forall q :: q in replacements ==> q.0 != r.0
  {
    var all := replacements + [r];
    assert forall q :: q in replacements ==> q in all;
    assert r in all;
    forall q | q in replacements ensures q.0 != r.0 {
      var i :| 0 <= i < |replacements| && replacements[i] == q;
      assert all[i].0 != all[|replacements|].0;
    }
    assert forall i :: 0 <= i < |replacements| ==> all[i] == replacements[i];
  }

  lemma NotThereAfterwards(s: string, replacements: seq<Replacement>, r: Replacement)
    requires Safe(replacements) && IsName(r.0) && !At(s, Placeholder(r.0))
    ensures !At(ReplaceTogether(s, replacements), Placeholder(r.0))
  {
    var p, out := Placeholder(r.0), ReplaceTogether(s, replacements);
    if At(out, p) {
      forall i | 0 <= i < |p| ensures !IsLower(out[i]) {
        PlaceholderIsNotLower(r.0, i);
        assert out[i] == out[..|p|][i] == p[i];
      }
      StartsAlike(s, |p|, replacements);
    }
  }

  lemma {:induction false} NothingToReplace(s: string)
    ensures ReplaceTogether(s, []) == s
    decreases |s|
  {
    if s != "" {
      NothingToReplace(s[1..]);
      assert [s[0]] + s[1..] == s;
    }
  }

  // ----- the theorem -----

  lemma {:induction false} EachFrom(s: string, done: seq<Replacement>, rest: seq<Replacement>)
    requires Safe(done + rest)
    ensures ReplaceEach(ReplaceTogether(s, done), rest) == ReplaceTogether(s, done + rest)
    decreases |rest|
  {
    if rest == [] {
      assert done + rest == done;
    } else {
      var r := rest[0];
      assert done + rest == done + [r] + rest[1..];
      SafePrefix(done + [r], rest[1..]);
      OneMore(s, done, r);
      EachFrom(s, done + [r], rest[1..]);
    }
  }

  lemma SafePrefix(a: seq<Replacement>, b: seq<Replacement>)
    requires Safe(a + b)
    ensures Safe(a)
  {
    assert forall r :: r in a ==> r in a + b;
    assert forall i :: 0 <= i < |a| ==> (a + b)[i] == a[i];
  }

  /** Replacing the placeholders one after another is replacing them all at once. */
  lemma SequentialIsSimultaneous(s: string, replacements: seq<Replacement>)
    requires Safe(replacements)
    ensures ReplaceEach(s, replacements) == ReplaceTogether(s, replacements)
  {
    NothingToReplace(s);
    assert [] + replacements == replacements;
    EachFrom(s, [], replacements);
  }

  lemma {:induction false} TogetherIgnoresOrder(s: string, a: seq<Replacement>, b: seq<Replacement>)
    requires Safe(a) && Safe(b) && multiset(a) == multiset(b)
    ensures ReplaceTogether(s, a) == ReplaceTogether(s, b)
    decreases |s|
  {
    if s != "" {
      MatchIgnoresOrder(s, a, b);
      var m := Match(s, a);
      TogetherIgnoresOrder(s[if m != [] then |Placeholder(m[0].0)| else 1..], a, b);
    }
  }

  lemma MatchIgnoresOrder(s: string, a: seq<Replacement>, b: seq<Replacement>)
    requires Safe(a) && Safe(b) && multiset(a) == multiset(b)
    ensures Match(s, a) == Match(s, b)
  {
    var m, n := Match(s, a), Match(s, b);
    SameMembers(a, b);
    hide Match, At, Placeholder;
    if m != [] && n != [] {
      OnePlaceholderHere(s, m[0].0, n[0].0);
      OneValueEach(a, m[0], n[0]);
    }
  }

  lemma SameMembers(a: seq<Replacement>, b: seq<Replacement>)
    requires multiset(a) == multiset(b)
    ensures forall r :: r in a <==> r in b
  {
    assert forall r :: r in multiset(a) <==> r in a;
    assert forall r :: r in multiset(b) <==> r in b;
  }

  lemma OneValueEach(a: seq<Replacement>, q: Replacement, r: Replacement)
    requires Safe(a) && q in a && r in a && q.0 == r.0
    ensures q == r
  {
    var i :| 0 <= i < |a| && a[i] == q;
    var j :| 0 <= j < |a| && a[j] == r;
    assert i == j;
  }

  /** The order in which placeholders are replaced does not matter. */
  lemma OrderDoesNotMatter(s: string, a: seq<Replacement>, b: seq<Replacement>)
    requires Safe(a) && Safe(b) && multiset(a) == multiset(b)
    ensures ReplaceEach(s, a) == ReplaceEach(s, b)
  {
    SequentialIsSimultaneous(s, a);
    SequentialIsSimultaneous(s, b);
    TogetherIgnoresOrder(s, a, b);
  }

  // ----- what the rendered text is -----

  /** A template: texts without braces, and placeholders by their place in the list. */
  datatype Piece = Verbatim(text: string) | Hole(index: nat)

  ghost predicate Fit(pieces: seq<Piece>, replacements: seq<Replacement>) {
    forall i :: 0 <= i < |pieces| ==>
      match pieces[i]
      case Verbatim(text) => forall k :: 0 <= k < |text| ==> text[k] != '{'
      case Hole(index) => index < |replacements|
  }

  function Written(pieces: seq<Piece>, replacements: seq<Replacement>): string
    decreases |pieces|
  {
    if pieces == [] then ""
    else
      (match pieces[0]
       case Verbatim(text) => text
       case Hole(index) => if index < |replacements| then Placeholder(replacements[index].0) else "")
      + Written(pieces[1..], replacements)
  }

  function Filled(pieces: seq<Piece>, replacements: seq<Replacement>): string
    decreases |pieces|
  {
    if pieces == [] then ""
    else
      (match pieces[0]
       case Verbatim(text) => text
       case Hole(index) => if index < |replacements| then replacements[index].1 else "")
      + Filled(pieces[1..], replacements)
  }

  /** Rendering puts its value in the place of each placeholder, and leaves the rest. */
  lemma {:induction false} HolesAreFilled(pieces: seq<Piece>, replacements: seq<Replacement>)
    requires Safe(replacements) && Fit(pieces, replacements)
    ensures ReplaceTogether(Written(pieces, replacements), replacements) == Filled(pieces, replacements)
    decreases |pieces|
  {
    if pieces != [] {
      var rest := Written(pieces[1..], replacements);
      assert Fit(pieces[1..], replacements);
      HolesAreFilled(pieces[1..], replacements);
      match pieces[0]
      case Verbatim(text) => VerbatimStays(text, rest, replacements);
      case Hole(index) => HoleIsFilled(index, rest, replacements);
    }
  }

  lemma VerbatimStays(text: string, rest: string, replacements: seq<Replacement>)
    requires Safe(replacements) && forall k :: 0 <= k < |text| ==> text[k] != '{'
    ensures ReplaceTogether(text + rest, replacements) == text + ReplaceTogether(rest, replacements)
  {
    forall i | 0 <= i < |text| ensures Match((text + rest)[i..], replacements) == [] {
      var m := Match((text + rest)[i..], replacements);
      assert (text + rest)[i..][0] == text[i];
      if m != [] {
        AtStarts((text + rest)[i..], m[0].0);
      }
    }
    CopiesThrough(text, rest, replacements);
  }

  lemma HoleIsFilled(index: nat, rest: string, replacements: seq<Replacement>)
    requires Safe(replacements) && index < |replacements|
    ensures ReplaceTogether(Placeholder(replacements[index].0) + rest, replacements)
            == replacements[index].1 + ReplaceTogether(rest, replacements)
  {
    var r := replacements[index];
    var p := Placeholder(r.0);
    var s := p + rest;
    assert s[..|p|] == p && s[|p|..] == rest;
    assert At(s, p);
    var m := Match(s, replacements);
    assert m != [];
    OnePlaceholderHere(s, m[0].0, r.0);
    OneValueEach(replacements, m[0], r);
  }

  // ----- the renderer -----

  predicate HasPair(s: string, c: char) {
    exists i | 0 <= i < |s| - 1 :: s[i] == c && s[i + 1] == c
  }

  const NAMES: seq<string> := ["DATABASE", "ROLE_APP", "ROLE_OWNER", "ROLE_TENANT_A", "ROLE_TENANT_B", "RUN_PREFIX"]

  function Replacements(values: seq<string>): (r: seq<Replacement>)
    requires |values| == |NAMES|
    ensures |r| == |NAMES|
    ensures forall i :: 0 <= i < |NAMES| ==> r[i] == (NAMES[i], values[i])
  {
    seq(|NAMES|, i requires 0 <= i < |NAMES| => (NAMES[i], values[i]))
  }

  /** One asset: six values in, the rendered text or a refusal out. */
  method RenderAsset(content: string, values: seq<string>) returns (result: Result<string>)
    requires |values| == |NAMES|
    ensures result == UnsafeIdentifier <==> exists v :: v in values && !IsIdentifier(v)
    ensures result.Ok? ==>
              && result.value == ReplaceTogether(content, Replacements(values))
              && !HasPair(result.value, '{') && !HasPair(result.value, '}')
    ensures result == NotFullyRendered ==>
              var text := ReplaceTogether(content, Replacements(values));
              HasPair(text, '{') || HasPair(text, '}')
  {
    for i := 0 to |values|
      invariant forall v :: v in values[..i] ==> IsIdentifier(v)
    {
      assert values[i] in values;
      if !IsIdentifier(values[i]) { return UnsafeIdentifier; }
    }
    assert values[..|values|] == values;
    var replacements := Replacements(values);
    var text := content;
    for i := 0 to |replacements|
      invariant ReplaceEach(text, replacements[i..]) == ReplaceEach(content, replacements)
    {
      assert replacements[i..][0] == replacements[i] && replacements[i..][1..] == replacements[i + 1..];
      text := ReplaceAll(text, Placeholder(replacements[i].0), replacements[i].1);
    }
    assert replacements[|replacements|..] == [];
    SixAreSafe(values);
    SequentialIsSimultaneous(content, replacements);
    if HasPair(text, '{') || HasPair(text, '}') { return NotFullyRendered; }
    result := Ok(text);
  }

  lemma SixAreSafe(values: seq<string>)
    requires |values| == |NAMES| && forall v :: v in values ==> IsIdentifier(v)
    ensures Safe(Replacements(values))
  {
    NamesAreDistinct();
    var r := Replacements(values);
    forall q | q in r ensures IsName(q.0) && IsIdentifier(q.1) {
      var i :| 0 <= i < |r| && r[i] == q;
      assert values[i] in values;
    }
  }

  lemma NamesAreDistinct()
    ensures forall i :: 0 <= i < |NAMES| ==> IsName(NAMES[i])
    ensures forall i, j :: 0 <= i < j < |NAMES| ==> NAMES[i] != NAMES[j]
  {
    assert NAMES[3][12] == 'A' && NAMES[4][12] == 'B';
  }
}
