/** Cutting a migration text at its marker comments: one section of cluster-role
    statements, and nine database phases. */
module MigrationSplitter {
  import opened Sequences
  import opened SqlText

  datatype Error =
    | MarkerNotExact(marker: string)
    | MarkersOutOfOrder(marker: string)  // the second half of a cut is missing
    | SectionRejected
    | SqlOutsidePhase(phase: nat)
    | PhaseIncomplete(phase: nat)
    | NotReplaySafe
  datatype Result<+T> = Ok(value: T) | Err(error: Error)

  datatype Cut = Missing | At(before: string, after: string)

  // ----- searching -----

  /** Non-overlapping occurrences, counted from the left. */
  function Count(s: string, m: string): nat
    requires m != ""
    decreases |s|
  {
    if |s| < |m| then 0
    else if s[..|m|] == m then 1 + Count(s[|m|..], m)
    else Count(s[1..], m)
  }

  /** The text before and after the leftmost occurrence. */
  function CutAt(s: string, m: string): (cut: Cut)
    requires m != ""
    ensures cut.At? ==> |cut.before| + |m| + |cut.after| == |s|
    decreases |s|
  {
    if |s| < |m| then Missing
    else if s[..|m|] == m then At("", s[|m|..])
    else match CutAt(s[1..], m)
      case Missing => Missing
      case At(before, after) => At([s[0]] + before, after)
  }

  lemma {:induction false} CutIsExact(s: string, m: string)
    requires m != ""
    ensures CutAt(s, m).At? <==> Count(s, m) >= 1
    ensures CutAt(s, m).At? ==> s == CutAt(s, m).before + (m + CutAt(s, m).after)
    decreases |s|
  {
    if |s| >= |m| {
      if s[..|m|] == m {
        assert s == "" + (m + s[|m|..]);
      } else {
        CutIsExact(s[1..], m);
        assert s == [s[0]] + s[1..];
        var rest := CutAt(s[1..], m);
        if rest.At? {
          Associative([s[0]], rest.before, m + rest.after);
        }
      }
    }
  }

  /** A marker is a one-line comment with no further dash in it. */
  predicate IsMarker(m: string) {
    && |m| >= 3 && m[0] == '-' && m[1] == '-'
    && forall k :: 2 <= k < |m| ==> m[k] != '-' && m[k] != '\n'
  }

  lemma {:induction false} OccurrenceCounts(a: string, m: string, b: string)
    requires IsMarker(m)
    ensures Count(a + (m + b), m) >= 1
    decreases |a|
  {
    var s := a + (m + b);
    if a == "" {
      assert s[..|m|] == m;
    } else if s[..|m|] != m {
      assert s[1..] == a[1..] + (m + b);
      OccurrenceCounts(a[1..], m, b);
    }
  }

  /** A marker cannot begin inside another occurrence of itself. */
  lemma NoOverlap(a: string, m: string, b: string)
    requires IsMarker(m) && 0 < |a| < |m|
    ensures (a + (m + b))[..|m|] != m
  {
    var s := a + (m + b);
    assert s[|a|] == m[0] && s[|a| + 1] == m[1];
    assert s[..|m|][|a|] == s[|a|];
    assert |a| == 1 ==> s[..|m|][2] == s[2] == m[1];
  }

  /** Where a marker occurs once, the cut is at that occurrence. */
  lemma {:induction false} CutIsUnique(a: string, m: string, b: string)
    requires IsMarker(m) && Count(a + (m + b), m) == 1
    ensures CutAt(a + (m + b), m) == At(a, b)
    decreases |a|
  {
    var s := a + (m + b);
    if a == "" {
      assert s[..|m|] == m && s[|m|..] == b;
    } else {
      if |a| < |m| {
        NoOverlap(a, m, b);
      } else {
        assert s[|m|..] == a[|m|..] + (m + b);
        OccurrenceCounts(a[|m|..], m, b);
      }
      assert s[1..] == a[1..] + (m + b);
      CutIsUnique(a[1..], m, b);
      assert a == [a[0]] + a[1..];
    }
  }

  // ----- occurrences -----

  predicate Occurs(s: string, m: string, i: nat) {
    i + |m| <= |s| && s[i..i + |m|] == m
  }

  ghost predicate OccursOnce(s: string, m: string) {
    exists i: nat :: Occurs(s, m, i) && forall j: nat :: Occurs(s, m, j) ==> j == i
  }

  lemma OccursLater(s: string, m: string, n: nat, i: nat)
    requires n <= |s|
    ensures Occurs(s[n..], m, i) <==> Occurs(s, m, n + i)
  {
    if n + i + |m| <= |s| {
      assert s[n..][i..i + |m|] == s[n + i..n + i + |m|];
    }
  }

  lemma OverlapRefused(s: string, m: string, i: nat)
    requires IsMarker(m) && 0 < i < |m| && Occurs(s, m, i)
    ensures !Occurs(s, m, 0)
  {
    NoOverlap(s[..i], m, s[i + |m|..]);
    assert s == s[..i] + (m + s[i + |m|..]);
    assert s[..|m|] == s[0..|m|];
  }

  ghost predicate Absent(s: string, m: string) {
    forall i: nat :: !Occurs(s, m, i)
  }

  /** Where none occurs before offset `n`, the rest has the same occurrences. */
  lemma AbsentLater(s: string, m: string, n: nat)
    requires n <= |s| && forall i: nat :: i < n ==> !Occurs(s, m, i)
    ensures Absent(s, m) <==> Absent(s[n..], m)
  {
    hide Occurs;
    if Absent(s[n..], m) {
      forall i: nat ensures !Occurs(s, m, i) {
        if i >= n { OccursLater(s, m, n, i - n); }
      }
    }
    if Absent(s, m) {
      forall i: nat ensures !Occurs(s[n..], m, i) {
        OccursLater(s, m, n, i);
      }
    }
  }

  lemma OnceLater(s: string, m: string, n: nat)
    requires n <= |s| && forall i: nat :: i < n ==> !Occurs(s, m, i)
    ensures OccursOnce(s, m) <==> OccursOnce(s[n..], m)
  {
    hide Occurs;
    if OccursOnce(s, m) {
      var i: nat :| Occurs(s, m, i) && forall j: nat :: Occurs(s, m, j) ==> j == i;
      OccursLater(s, m, n, i - n);
      forall j: nat | Occurs(s[n..], m, j) ensures j == i - n { OccursLater(s, m, n, j); }
    }
    if OccursOnce(s[n..], m) {
      var i: nat :| Occurs(s[n..], m, i) && forall j: nat :: Occurs(s[n..], m, j) ==> j == i;
      OccursLater(s, m, n, i);
      forall j: nat | Occurs(s, m, j) ensures j == n + i { OccursLater(s, m, n, j - n); }
    }
  }

  lemma OnceAtFront(s: string, m: string, i: nat)
    requires IsMarker(m) && Occurs(s, m, 0) && OccursOnce(s, m)
    ensures !Occurs(s[|m|..], m, i)
  {
    var k: nat :| Occurs(s, m, k) && forall j: nat :: Occurs(s, m, j) ==> j == k;
    OccursLater(s, m, |m|, i);
    hide Occurs;
    assert k == 0;
  }

  lemma OnlyAtFront(s: string, m: string, j: nat)
    requires IsMarker(m) && Occurs(s, m, 0) && Absent(s[|m|..], m) && Occurs(s, m, j)
    ensures j == 0
  {
    if 0 < j < |m| {
      OverlapRefused(s, m, j);
    } else if j > 0 {
      OccursLater(s, m, |m|, j - |m|);
    }
  }

  /** A marker at the front is the only one exactly if none follows it. */
  lemma FrontOnce(s: string, m: string)
    requires IsMarker(m) && Occurs(s, m, 0)
    ensures OccursOnce(s, m) <==> Absent(s[|m|..], m)
  {
    assert |m| <= |s|;
    hide Occurs, IsMarker;
    if OccursOnce(s, m) {
      forall i: nat ensures !Occurs(s[|m|..], m, i) {
        OnceAtFront(s, m, i);
      }
    }
    if Absent(s[|m|..], m) {
      forall j: nat | Occurs(s, m, j) ensures j == 0 {
        OnlyAtFront(s, m, j);
      }
    }
  }

  lemma OnceInSuffix(s: string, m: string, n: nat, i: nat)
    requires n <= |s| && OccursOnce(s, m) && Occurs(s[n..], m, i)
    ensures OccursOnce(s[n..], m)
  {
    var k: nat :| Occurs(s, m, k) && forall j: nat :: Occurs(s, m, j) ==> j == k;
    OccursLater(s, m, n, i);
    forall j: nat | Occurs(s[n..], m, j) ensures j == i {
      OccursLater(s, m, n, j);
    }
  }

  lemma OccursAtFront(s: string, m: string)
    ensures |s| < |m| ==> Absent(s, m) && !OccursOnce(s, m)
    ensures |s| >= |m| ==> (Occurs(s, m, 0) <==> s[..|m|] == m)
    ensures Occurs(s, m, 0) ==> !Absent(s, m)
  {
    if |s| >= |m| {
      assert s[0..|m|] == s[..|m|];
    }
  }

  /** The count of a marker tells none and one apart from more. */
  lemma {:induction false} CountIsExact(s: string, m: string)
    requires IsMarker(m)
    ensures Count(s, m) == 0 <==> Absent(s, m)
    ensures Count(s, m) == 1 <==> OccursOnce(s, m)
    decreases |s|
  {
    OccursAtFront(s, m);
    hide Occurs, Absent, OccursOnce;
    if |s| >= |m| {
      if s[..|m|] == m {
        CountIsExact(s[|m|..], m);
        FrontOnce(s, m);
      } else {
        CountIsExact(s[1..], m);
        AbsentLater(s, m, 1);
        OnceLater(s, m, 1);
      }
    }
  }

  // ----- comments -----

  function AfterLine(s: string): (rest: string)
    ensures |rest| <= |s|
  {
    if s == "" then "" else if s[0] == '\n' then s[1..] else AfterLine(s[1..])
  }

  /** The text without its line comments. */
  function WithoutComments(s: string): string
    decreases |s|
  {
    if s == "" then ""
    else if |s| >= 2 && s[0] == '-' && s[1] == '-' then WithoutComments(AfterLine(s[2..]))
    else [s[0]] + WithoutComments(s[1..])
  }

  predicate Blank(s: string) {
    Strip(WithoutComments(s)) == ""
  }

  ghost predicate InComment(s: string, i: nat)
    requires i < |s|
  {
    exists j: nat :: CommentFrom(s, j, i)
  }

  /** A comment that opens at `j` still runs at `i`. */
  ghost predicate CommentFrom(s: string, j: nat, i: nat)
    requires i < |s|
  {
    && j <= i && j + 1 < |s| && s[j] == '-' && s[j + 1] == '-'
    && forall k :: j <= k < i ==> s[k] != '\n'
  }

  /** Neither white space nor part of a line comment. */
  ghost predicate IsCode(s: string, i: nat)
    requires i < |s|
  {
    !IsSpace(s[i]) && !InComment(s, i)
  }

  lemma {:induction false} AfterLineIsSuffix(s: string) returns (n: nat)
    ensures n <= |s| && AfterLine(s) == s[n..]
    ensures forall k :: 0 <= k < n - 1 ==> s[k] != '\n'
    ensures n < |s| ==> n > 0 && s[n - 1] == '\n'
  {
    if s == "" {
      n := 0;
    } else if s[0] == '\n' {
      n := 1;
    } else {
      n := AfterLineIsSuffix(s[1..]);
      assert n > 0 && n < |s[1..]| ==> s[1..][n - 1] == s[n];
      n := n + 1;
      assert forall k :: 1 <= k < n - 1 ==> s[k] == s[1..][k - 1];
    }
  }

  lemma CommentInside(a: string, x: string, b: string, i: nat)
    requires i < |x| && InComment(x, i)
    ensures InComment(a + x + b, |a| + i)
  {
    var j: nat :| CommentFrom(x, j, i);
    var s := a + x + b;
    assert forall k :: 0 <= k < |x| ==> s[|a| + k] == x[k];
    assert forall k :: |a| + j <= k < |a| + i ==> s[k] == x[k - |a|];
    assert CommentFrom(s, |a| + j, |a| + i);
  }

  /** What survives comment removal and trimming is code. */
  lemma {:induction false} CodeSurvives(s: string, i: nat)
    requires i < |s| && IsCode(s, i)
    ensures s[i] in WithoutComments(s)
    decreases |s|
  {
    if |s| >= 2 && s[0] == '-' && s[1] == '-' {
      var n := AfterLineIsSuffix(s[2..]);
      var rest := AfterLine(s[2..]);
      assert rest == s[2 + n..];
      assert forall k :: 2 <= k < 1 + n ==> s[k] == s[2..][k - 2];
      forall k: nat | k < 2 + n && k < |s| ensures InComment(s, k) {
        assert CommentFrom(s, 0, k);
      }
      CodeInSuffix(s, 2 + n, i);
      CodeSurvives(rest, i - 2 - n);
    } else if i > 0 {
      CodeInSuffix(s, 1, i);
      CodeSurvives(s[1..], i - 1);
    }
  }

  lemma CodeInSuffix(s: string, n: nat, i: nat)
    requires n <= i < |s| && IsCode(s, i)
    ensures IsCode(s[n..], i - n)
  {
    assert s[..n] + s[n..] + "" == s;
    if InComment(s[n..], i - n) {
      CommentInside(s[..n], s[n..], "", i - n);
    }
  }

  /** Code behind a place where no comment runs on is code of the whole text. */
  lemma CodeOfSuffix(s: string, n: nat, i: nat)
    requires n <= i < |s| && IsCode(s[n..], i - n)
    requires n == 0 || s[n - 1] == '\n' || (n == 1 && (s[0] != '-' || |s| == 1 || s[1] != '-'))
    ensures IsCode(s, i)
  {
    var x := s[n..];
    assert forall k :: n <= k < |s| ==> s[k] == x[k - n];
    if InComment(s, i) {
      var j: nat :| CommentFrom(s, j, i);
      if j >= n {
        assert forall k :: j - n <= k < i - n ==> x[k] == s[k + n];
        assert CommentFrom(x, j - n, i - n);
      }
    }
  }

  /** What survives comment removal, but for white space, is code of the text. */
  lemma {:induction false} SurvivorIsCode(s: string, at: nat) returns (i: nat)
    requires at < |WithoutComments(s)| && !IsSpace(WithoutComments(s)[at])
    ensures i < |s| && IsCode(s, i)
    decreases |s|
  {
    if |s| >= 2 && s[0] == '-' && s[1] == '-' {
      var n := AfterLineIsSuffix(s[2..]);
      i := SurvivorIsCode(AfterLine(s[2..]), at);
      assert s[2..][n..] == s[2 + n..];
      assert n > 0 && s[2..][n - 1] == s[2 + n - 1];
      i := i + 2 + n;
      CodeOfSuffix(s, 2 + n, i);
    } else if at == 0 {
      i := 0;
    } else {
      i := SurvivorIsCode(s[1..], at - 1);
      i := i + 1;
      CodeOfSuffix(s, 1, i);
    }
  }

  ghost predicate NoCode(s: string) {
    forall i :: 0 <= i < |s| ==> !IsCode(s, i)
  }

  /** A text is taken for blank exactly if it holds no code. */
  lemma BlankIsExact(s: string)
    ensures Blank(s) <==> NoCode(s)
  {
    var bare := WithoutComments(s);
    var _, _ := StripIsExact(bare);
    if NoCode(s) {
      forall at | 0 <= at < |bare| ensures IsSpace(bare[at]) {
        if !IsSpace(bare[at]) {
          var i := SurvivorIsCode(s, at);
        }
      }
    }
    if Blank(s) {
      forall i | 0 <= i < |s| ensures !IsCode(s, i) {
        BlankHasNoCode(s, i);
      }
    }
  }

  lemma InkStays(s: string, i: nat)
    requires i < |s| && IsCode(s, i)
    ensures !AllSpaces(WithoutComments(s))
  {
    var bare := WithoutComments(s);
    CodeSurvives(s, i);
    var at :| 0 <= at < |bare| && bare[at] == s[i];
  }

  /** A blank text holds no code. */
  lemma BlankHasNoCode(s: string, i: nat)
    requires Blank(s) && i < |s|
    ensures !IsCode(s, i)
  {
    var _, _ := StripIsExact(WithoutComments(s));
    if IsCode(s, i) {
      InkStays(s, i);
    }
  }

  lemma MarkerIsComment(m: string, i: nat)
    requires IsMarker(m) && i < |m|
    ensures InComment(m, i)
  {
    assert CommentFrom(m, 0, i);
  }

  // ----- the section of cluster-role statements -----

  datatype RoleSplit = RoleSplit(before: string, section: string, after: string)

  function SplitClusterRoles(sql: string, begin: string, end: string, acceptable: RoleSplit -> bool): Result<RoleSplit>
    requires begin != "" && end != ""
  {
    if Count(sql, begin) != 1 then Err(MarkerNotExact(begin))
    else if Count(sql, end) != 1 then Err(MarkerNotExact(end))
    else match CutAt(sql, begin)
      case Missing => Err(MarkersOutOfOrder(begin))
      case At(before, marked) =>
        match CutAt(marked, end)
        case Missing => Err(MarkersOutOfOrder(end))
        case At(section, after) =>
          var split := RoleSplit(before, section, after);
          if acceptable(split) then Ok(split) else Err(SectionRejected)
  }

  function DatabaseSql(split: RoleSplit): string { split.before + split.after }

  // ----- the nine phases -----

  const PHASE_COUNT: nat := 9

  function PhaseDigit(p: nat): char
    requires p < 10
  {
    p as char + '0'
  }

  const PHASE_NAME := "STEP5_DATABASE_PHASE_"

  function BeginMarker(p: nat): (m: string)
    requires p < 10
    ensures m != ""
  {
    ['-', '-', ' '] + (PHASE_NAME + ([PhaseDigit(p)] + "_BEGIN"))
  }

  function EndMarker(p: nat): (m: string)
    requires p < 10
    ensures m != ""
  {
    ['-', '-', ' '] + (PHASE_NAME + ([PhaseDigit(p)] + "_END"))
  }

  lemma PhaseMarkers(p: nat)
    requires p < 10
    ensures IsMarker(BeginMarker(p)) && IsMarker(EndMarker(p))
  {
    var name := PHASE_NAME;
    assert forall k :: 0 <= k < |name| ==> name[k] != '-' && name[k] != '\n';
  }

  datatype Phase = Phase(gap: string, body: string)
  datatype PhaseSplit = PhaseSplit(phases: seq<Phase>, tail: string)

  predicate Complete(body: string) {
    Strip(body) != "" && Strip(body)[|Strip(body)| - 1] == ';'
  }

  ghost predicate EndsInSemicolon(body: string) {
    exists i :: 0 <= i < |body| && body[i] == ';' && AllSpaces(body[i + 1..])
  }

  /** A body is complete exactly if a semicolon ends it, but for white space. */
  lemma CompleteIsExact(body: string)
    ensures Complete(body) <==> EndsInSemicolon(body)
  {
    var first, next := StripIsExact(body);
    assert forall k :: 0 <= k < first ==> body[k] == body[..first][k];
    assert forall k :: next <= k < |body| ==> body[k] == body[next..][k - next];
    forall i | 0 <= i < |body| && body[i] == ';' && AllSpaces(body[i + 1..]) ensures first < next == i + 1 {
      assert forall k :: i < k < |body| ==> body[k] == body[i + 1..][k - i - 1];
    }
    if Complete(body) {
      assert body[next - 1] == ';';
    }
  }

  /** Cut phases `p`..9 off the remaining text, front to back. */
  function PhasesFrom(remainder: string, p: nat): Result<PhaseSplit>
    requires 1 <= p <= PHASE_COUNT + 1
    decreases |remainder|
  {
    if p > PHASE_COUNT then
      if Blank(remainder) then Ok(PhaseSplit([], remainder)) else Err(SqlOutsidePhase(p))
    else
      var begin, end := BeginMarker(p), EndMarker(p);
      if Count(remainder, begin) != 1 then Err(MarkerNotExact(begin))
      else if Count(remainder, end) != 1 then Err(MarkerNotExact(end))
      else match CutAt(remainder, begin)
        case Missing => Err(MarkersOutOfOrder(begin))
        case At(gap, marked) =>
          if !Blank(gap) then Err(SqlOutsidePhase(p))
          else match CutAt(marked, end)
            case Missing => Err(MarkersOutOfOrder(end))
            case At(body, rest) =>
              if !Complete(body) then Err(PhaseIncomplete(p))
              else match PhasesFrom(rest, p + 1)
                case Err(e) => Err(e)
                case Ok(more) => Ok(PhaseSplit([Phase(gap, body)] + more.phases, more.tail))
  }

  function PhaseSql(phase: Phase): string { Strip(phase.body) + "\n" }

  function PhaseTexts(phases: seq<Phase>): (texts: seq<string>)
    ensures |texts| == |phases| && forall i :: 0 <= i < |phases| ==> texts[i] == PhaseSql(phases[i])
  {
    seq(|phases|, i requires 0 <= i < |phases| => PhaseSql(phases[i]))
  }

  function SplitPhases(databaseSql: string, replaySafe: seq<string> -> bool): Result<seq<string>> {
    match PhasesFrom(databaseSql, 1)
    case Err(e) => Err(e)
    case Ok(split) =>
      if replaySafe(PhaseTexts(split.phases)) then Ok(PhaseTexts(split.phases)) else Err(NotReplaySafe)
  }

  function Extended(done: seq<string>, rest: Result<PhaseSplit>): Result<seq<string>> {
    match rest case Err(e) => Err(e) case Ok(split) => Ok(done + PhaseTexts(split.phases))
  }

  lemma PhaseTaken(done: seq<string>, remainder: string, p: nat)
    requires 1 <= p <= PHASE_COUNT
    requires Count(remainder, BeginMarker(p)) == Count(remainder, EndMarker(p)) == 1
    requires CutAt(remainder, BeginMarker(p)).At? && Blank(CutAt(remainder, BeginMarker(p)).before)
    requires CutAt(CutAt(remainder, BeginMarker(p)).after, EndMarker(p)).At?
    requires Complete(CutAt(CutAt(remainder, BeginMarker(p)).after, EndMarker(p)).before)
    ensures var second := CutAt(CutAt(remainder, BeginMarker(p)).after, EndMarker(p));
            Extended(done, PhasesFrom(remainder, p))
            == Extended(done + [Strip(second.before) + "\n"], PhasesFrom(second.after, p + 1))
  {
    hide Count, CutAt, BeginMarker, EndMarker, Blank, Complete, Strip;
    var first := CutAt(remainder, BeginMarker(p));
    var second := CutAt(first.after, EndMarker(p));
    var phase := Phase(first.before, second.before);
    var more := PhasesFrom(second.after, p + 1);
    if more.Ok? {
      assert PhaseTexts([phase] + more.value.phases) == [PhaseSql(phase)] + PhaseTexts(more.value.phases);
      Associative(done, [PhaseSql(phase)], PhaseTexts(more.value.phases));
    }
  }

  /** The cutting loop. */
  method SplitStep5DatabasePhases(databaseSql: string, replaySafe: seq<string> -> bool)
    returns (result: Result<seq<string>>)
    ensures result == SplitPhases(databaseSql, replaySafe)
  {
    hide Count, CutAt, BeginMarker, EndMarker, Blank, Complete, Strip;
    var phases: seq<string> := [];
    var remainder := databaseSql;
    for p := 1 to PHASE_COUNT + 1
      invariant Extended([], PhasesFrom(databaseSql, 1)) == Extended(phases, PhasesFrom(remainder, p))
    {
      var begin, end := BeginMarker(p), EndMarker(p);
      if Count(remainder, begin) != 1 { return Err(MarkerNotExact(begin)); }
      if Count(remainder, end) != 1 { return Err(MarkerNotExact(end)); }
      var first := CutAt(remainder, begin);
      if first.Missing? { return Err(MarkersOutOfOrder(begin)); }
      if !Blank(first.before) { return Err(SqlOutsidePhase(p)); }
      var second := CutAt(first.after, end);
      if second.Missing? { return Err(MarkersOutOfOrder(end)); }
      if !Complete(second.before) { return Err(PhaseIncomplete(p)); }
      PhaseTaken(phases, remainder, p);
      phases := phases + [Strip(second.before) + "\n"];
      remainder := second.after;
    }
    if !Blank(remainder) { return Err(SqlOutsidePhase(PHASE_COUNT + 1)); }
    ghost var whole := PhasesFrom(databaseSql, 1);
    assert phases + PhaseTexts([]) == phases;
    assert [] + PhaseTexts(whole.value.phases) == PhaseTexts(whole.value.phases);
    if !replaySafe(phases) { return Err(NotReplaySafe); }
    return Ok(phases);
  }
}
