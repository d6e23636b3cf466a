/** What an accepted migration text looks like, and where each of its characters
    goes. */
module SplitterCoverage {
  import opened Sequences
  import opened SqlText
  import opened MigrationSplitter

  // ----- the phases of the database text -----

  function Segment(phase: Phase, p: nat): string
    requires p < 10
  {
    phase.gap + (BeginMarker(p) + (phase.body + EndMarker(p)))
  }

  /** The text that phases numbered from `p` make, marker by marker. */
  function PhaseText(phases: seq<Phase>, p: nat, tail: string): string
    requires p + |phases| <= PHASE_COUNT + 1
    decreases |phases|
  {
    if phases == [] then tail else Segment(phases[0], p) + PhaseText(phases[1..], p + 1, tail)
  }

  /** No code between the phases, and a semicolon at the end of each. */
  ghost predicate Accepted(phases: seq<Phase>, tail: string) {
    && NoCode(tail)
    && forall i :: 0 <= i < |phases| ==> NoCode(phases[i].gap) && EndsInSemicolon(phases[i].body)
  }

  /** Both markers of each phase occur once in what is left when its turn comes. */
  ghost predicate MarkersOnce(phases: seq<Phase>, p: nat, tail: string)
    requires p + |phases| <= PHASE_COUNT + 1
    decreases |phases|
  {
    phases == [] ||
    (&& OccursOnce(PhaseText(phases, p, tail), BeginMarker(p))
     && OccursOnce(PhaseText(phases, p, tail), EndMarker(p))
     && MarkersOnce(phases[1..], p + 1, tail))
  }

  lemma SegmentCuts(phase: Phase, p: nat, rest: string)
    requires p < 10
    ensures Segment(phase, p) + rest == phase.gap + (BeginMarker(p) + (phase.body + (EndMarker(p) + rest)))
  {
    var b, e := BeginMarker(p), EndMarker(p);
    hide BeginMarker, EndMarker;
    Associative(phase.gap, b + (phase.body + e), rest);
    Associative(b, phase.body + e, rest);
    Associative(phase.body, e, rest);
  }

  /** Cutting inverts assembling: an accepted text is exactly its phases, gaps and
      markers, in order. */
  lemma {:induction false} AcceptedIsAssembled(remainder: string, p: nat)
    requires 1 <= p <= PHASE_COUNT + 1 && PhasesFrom(remainder, p).Ok?
    ensures var split := PhasesFrom(remainder, p).value;
            && |split.phases| == PHASE_COUNT + 1 - p
            && remainder == PhaseText(split.phases, p, split.tail)
            && MarkersOnce(split.phases, p, split.tail)
            && Accepted(split.phases, split.tail)
    decreases PHASE_COUNT + 1 - p
  {
    hide Blank, Complete, CutAt, Count, BeginMarker, EndMarker, NoCode, EndsInSemicolon, OccursOnce;
    if p > PHASE_COUNT {
      BlankIsExact(remainder);
    } else {
      var phase, rest := FirstPhaseCut(remainder, p);
      hide PhasesFrom, Segment;
      AcceptedIsAssembled(rest, p + 1);
      var more := PhasesFrom(rest, p + 1).value;
      SegmentCuts(phase, p, rest);
      assert ([phase] + more.phases)[1..] == more.phases;
    }
  }

  /** The first phase of an accepted text, and the text after it. */
  lemma FirstPhaseCut(remainder: string, p: nat) returns (phase: Phase, rest: string)
    requires 1 <= p <= PHASE_COUNT && PhasesFrom(remainder, p).Ok?
    ensures remainder == phase.gap + (BeginMarker(p) + (phase.body + (EndMarker(p) + rest)))
    ensures OccursOnce(remainder, BeginMarker(p)) && OccursOnce(remainder, EndMarker(p))
    ensures NoCode(phase.gap) && EndsInSemicolon(phase.body) && PhasesFrom(rest, p + 1).Ok?
    ensures var more := PhasesFrom(rest, p + 1).value;
            PhasesFrom(remainder, p).value == PhaseSplit([phase] + more.phases, more.tail)
  {
    hide Blank, Complete, CutAt, Count, BeginMarker, EndMarker, NoCode, EndsInSemicolon, OccursOnce, IsMarker;
    var first := CutAt(remainder, BeginMarker(p));
    var second := CutAt(first.after, EndMarker(p));
    CutIsExact(remainder, BeginMarker(p));
    CutIsExact(first.after, EndMarker(p));
    PhaseMarkers(p);
    CountIsExact(remainder, BeginMarker(p));
    CountIsExact(remainder, EndMarker(p));
    BlankIsExact(first.before);
    CompleteIsExact(second.before);
    phase, rest := Phase(first.before, second.before), second.after;
  }

  /** Where both markers of a phase occur once, the cuts are at those places. */
  lemma FirstPhaseStands(phase: Phase, p: nat, rest: string)
    requires 1 <= p <= PHASE_COUNT
    requires var text := phase.gap + (BeginMarker(p) + (phase.body + (EndMarker(p) + rest)));
             OccursOnce(text, BeginMarker(p)) && OccursOnce(text, EndMarker(p))
    ensures var text := phase.gap + (BeginMarker(p) + (phase.body + (EndMarker(p) + rest)));
            && Count(text, BeginMarker(p)) == Count(text, EndMarker(p)) == 1
            && CutAt(text, BeginMarker(p)) == At(phase.gap, phase.body + (EndMarker(p) + rest))
            && CutAt(phase.body + (EndMarker(p) + rest), EndMarker(p)) == At(phase.body, rest)
  {
    var b, e := BeginMarker(p), EndMarker(p);
    var inner := phase.body + (e + rest);
    var text := phase.gap + (b + inner);
    PhaseMarkers(p);
    hide CutAt, Count, BeginMarker, EndMarker, OccursOnce, IsMarker;
    var n := |phase.gap| + |b|;
    assert text[n..] == inner;
    assert inner[|phase.body|..|phase.body| + |e|] == e;
    OnceInSuffix(text, e, n, |phase.body|);
    CountIsExact(text, b);
    CountIsExact(text, e);
    CountIsExact(inner, e);
    CutIsUnique(phase.gap, b, inner);
    CutIsUnique(phase.body, e, rest);
  }

  /** Assembling inverts cutting: a text assembled from acceptable pieces, with each
      marker where it belongs and nowhere else, is accepted as exactly those pieces. */
  lemma {:induction false} AssembledIsAccepted(phases: seq<Phase>, p: nat, tail: string)
    requires 1 <= p && p + |phases| == PHASE_COUNT + 1
    requires Accepted(phases, tail) && MarkersOnce(phases, p, tail)
    ensures PhasesFrom(PhaseText(phases, p, tail), p) == Ok(PhaseSplit(phases, tail))
    decreases |phases|
  {
    hide Blank, Complete, CutAt, Count, BeginMarker, EndMarker, Segment, IsMarker, NoCode, EndsInSemicolon, OccursOnce;
    if phases == [] {
      BlankIsExact(tail);
    } else {
      var phase := phases[0];
      var rest := PhaseText(phases[1..], p + 1, tail);
      SegmentCuts(phase, p, rest);
      FirstPhaseStands(phase, p, rest);
      BlankIsExact(phase.gap);
      CompleteIsExact(phase.body);
      assert Accepted(phases[1..], tail);
      AssembledIsAccepted(phases[1..], p + 1, tail);
      assert phases == [phase] + phases[1..];
    }
  }

  /** Which texts are accepted, and as what: exactly those that are gaps without code,
      bodies that end in a semicolon and their markers, in order, each marker occurring
      once from its turn on. */
  lemma AcceptanceIsExact(remainder: string, p: nat, split: PhaseSplit)
    requires 1 <= p <= PHASE_COUNT + 1
    ensures PhasesFrom(remainder, p) == Ok(split) <==>
              && |split.phases| == PHASE_COUNT + 1 - p
              && remainder == PhaseText(split.phases, p, split.tail)
              && MarkersOnce(split.phases, p, split.tail)
              && Accepted(split.phases, split.tail)
  {
    hide PhasesFrom, PhaseText, MarkersOnce, Accepted;
    if PhasesFrom(remainder, p).Ok? {
      AcceptedIsAssembled(remainder, p);
    }
    if p + |split.phases| == PHASE_COUNT + 1 && Accepted(split.phases, split.tail) && MarkersOnce(split.phases, p, split.tail) {
      AssembledIsAccepted(split.phases, p, split.tail);
    }
  }

  /** What the splitter hands to the runner: the body of each phase without the white
      space around it, closed by a newline, if all of them may be sent again; and what
      it reports otherwise. */
  lemma PhasesAreExact(databaseSql: string, replaySafe: seq<string> -> bool, texts: seq<string>)
    ensures SplitPhases(databaseSql, replaySafe) == Ok(texts) <==>
              replaySafe(texts) && exists split ::
                PhasesFrom(databaseSql, 1) == Ok(split) && |texts| == |split.phases|
                && forall i :: 0 <= i < |texts| ==> texts[i] == Strip(split.phases[i].body) + "\n"
    ensures SplitPhases(databaseSql, replaySafe).Err? ==>
              (SplitPhases(databaseSql, replaySafe).error ==
               if PhasesFrom(databaseSql, 1).Err? then PhasesFrom(databaseSql, 1).error else NotReplaySafe)
  {
    hide PhasesFrom, Strip;
    if PhasesFrom(databaseSql, 1).Ok? {
      var split := PhasesFrom(databaseSql, 1).value;
      if |texts| == |split.phases| && forall i :: 0 <= i < |texts| ==> texts[i] == Strip(split.phases[i].body) + "\n" {
        assert texts == PhaseTexts(split.phases);
      }
    }
  }

  /** Why a text without exact markers is refused. */
  lemma InexactMarkers(remainder: string, p: nat)
    requires 1 <= p <= PHASE_COUNT
    requires !OccursOnce(remainder, BeginMarker(p)) || !OccursOnce(remainder, EndMarker(p))
    ensures PhasesFrom(remainder, p) == Err(MarkerNotExact(
              if !OccursOnce(remainder, BeginMarker(p)) then BeginMarker(p) else EndMarker(p)))
  {
    hide Count, BeginMarker, EndMarker, OccursOnce, IsMarker;
    PhaseMarkers(p);
    CountIsExact(remainder, BeginMarker(p));
    CountIsExact(remainder, EndMarker(p));
  }

  /** Why a text with exact markers is refused: code in front of the phase, its end
      marker before its begin marker, a body without its semicolon, or the rest. */
  lemma RefusalsOfPhase(gap: string, marked: string, body: string, rest: string, p: nat)
    requires 1 <= p <= PHASE_COUNT
    requires var text := gap + (BeginMarker(p) + marked);
             OccursOnce(text, BeginMarker(p)) && OccursOnce(text, EndMarker(p))
    ensures var text := gap + (BeginMarker(p) + marked);
            && (!NoCode(gap) ==> PhasesFrom(text, p) == Err(SqlOutsidePhase(p)))
            && (NoCode(gap) && Absent(marked, EndMarker(p)) ==>
                  PhasesFrom(text, p) == Err(MarkersOutOfOrder(EndMarker(p))))
            && (NoCode(gap) && marked == body + (EndMarker(p) + rest) ==>
                  && (!EndsInSemicolon(body) ==> PhasesFrom(text, p) == Err(PhaseIncomplete(p)))
                  && (EndsInSemicolon(body) && PhasesFrom(rest, p + 1).Err? ==>
                        PhasesFrom(text, p) == Err(PhasesFrom(rest, p + 1).error)))
  {
    var text := gap + (BeginMarker(p) + marked);
    PhaseMarkers(p);
    hide Blank, Complete, CutAt, Count, BeginMarker, EndMarker, NoCode, EndsInSemicolon, OccursOnce, IsMarker, Absent;
    CountIsExact(text, BeginMarker(p));
    CountIsExact(text, EndMarker(p));
    CountIsExact(marked, EndMarker(p));
    CutIsExact(marked, EndMarker(p));
    CutIsUnique(gap, BeginMarker(p), marked);
    BlankIsExact(gap);
    CompleteIsExact(body);
    if marked == body + (EndMarker(p) + rest) {
      FirstPhaseStands(Phase(gap, body), p, rest);
    }
  }

  /** Code behind the last phase. */
  lemma CodeAtEnd(remainder: string)
    ensures !NoCode(remainder) ==> PhasesFrom(remainder, PHASE_COUNT + 1) == Err(SqlOutsidePhase(PHASE_COUNT + 1))
  {
    BlankIsExact(remainder);
  }

  // ----- where the bodies lie -----

  /** The offset of the `i`-th body in the assembled text. */
  function BodyStart(phases: seq<Phase>, p: nat, i: nat): nat
    requires p + |phases| <= PHASE_COUNT + 1 && i < |phases|
    decreases |phases|
  {
    if i == 0 then |phases[0].gap| + |BeginMarker(p)|
    else |Segment(phases[0], p)| + BodyStart(phases[1..], p + 1, i - 1)
  }

  /** `x` stands in `text` from offset `at` on. */
  ghost predicate Stands(x: string, text: string, at: int) {
    0 <= at && at + |x| <= |text| && text[at..at + |x|] == x
  }

  lemma StandsLater(a: string, x: string, text: string, at: int)
    requires Stands(x, text, at)
    ensures Stands(x, a + text, |a| + at)
  {
    assert (a + text)[|a| + at..|a| + at + |x|] == text[at..at + |x|];
  }

  lemma StandsAfter(a: string, x: string, b: string)
    ensures Stands(x, a + (x + b), |a|)
  {
    assert (a + (x + b))[|a|..|a| + |x|] == x;
  }

  lemma FirstStands(gap: string, b: string, body: string, e: string, rest: string)
    ensures var text := gap + (b + (body + (e + rest)));
            && Stands(b, text, |gap|)
            && Stands(body, text, |gap| + |b|)
            && Stands(e, text, |gap| + |b| + |body|)
  {
    hide Stands;
    var inner := body + (e + rest);
    StandsAfter(gap, b, inner);
    StandsAfter(b, body, e + rest);
    StandsLater(gap, body, b + inner, |b|);
    StandsAfter(body, e, rest);
    StandsLater(b, e, inner, |body|);
    StandsLater(gap, e, b + inner, |b| + |body|);
  }

  lemma FirstBodyStands(phases: seq<Phase>, p: nat, tail: string)
    requires p + |phases| <= PHASE_COUNT + 1 && phases != []
    ensures var text, at := PhaseText(phases, p, tail), BodyStart(phases, p, 0);
            && Stands(BeginMarker(p), text, at - |BeginMarker(p)|)
            && Stands(phases[0].body, text, at)
            && Stands(EndMarker(p), text, at + |phases[0].body|)
  {
    hide BeginMarker, EndMarker, Stands, Segment;
    var rest := PhaseText(phases[1..], p + 1, tail);
    SegmentCuts(phases[0], p, rest);
    FirstStands(phases[0].gap, BeginMarker(p), phases[0].body, EndMarker(p), rest);
  }

  /** Body `i` stands at its offset, between its own two markers. */
  lemma {:induction false} BodyStands(phases: seq<Phase>, p: nat, tail: string, i: nat)
    requires p + |phases| <= PHASE_COUNT + 1 && i < |phases|
    ensures var text, at := PhaseText(phases, p, tail), BodyStart(phases, p, i);
            && Stands(BeginMarker(p + i), text, at - |BeginMarker(p + i)|)
            && Stands(phases[i].body, text, at)
            && Stands(EndMarker(p + i), text, at + |phases[i].body|)
    decreases i
  {
    hide BeginMarker, EndMarker, Stands, Segment;
    if i == 0 {
      FirstBodyStands(phases, p, tail);
    } else {
      var rest := PhaseText(phases[1..], p + 1, tail);
      var s := Segment(phases[0], p);
      var at := BodyStart(phases[1..], p + 1, i - 1);
      var body, b, e := phases[i].body, BeginMarker(p + i), EndMarker(p + i);
      BodyStands(phases[1..], p + 1, tail, i - 1);
      StandsLater(s, b, rest, at - |b|);
      StandsLater(s, body, rest, at);
      StandsLater(s, e, rest, at + |body|);
    }
  }

  /** The bodies, with their markers, follow one another without overlap. */
  lemma {:induction false} BodiesInOrder(phases: seq<Phase>, p: nat, i: nat, j: nat)
    requires p + |phases| <= PHASE_COUNT + 1 && i < j < |phases|
    ensures BodyStart(phases, p, i) + |phases[i].body| + |EndMarker(p + i)|
            <= BodyStart(phases, p, j) - |BeginMarker(p + j)|
    decreases i
  {
    if i > 0 {
      BodiesInOrder(phases[1..], p + 1, i - 1, j - 1);
    } else {
      hide BeginMarker, EndMarker;
      StartsAfterMarker(phases[1..], p + 1, j - 1);
    }
  }

  lemma {:induction false} StartsAfterMarker(phases: seq<Phase>, p: nat, i: nat)
    requires p + |phases| <= PHASE_COUNT + 1 && i < |phases|
    ensures |BeginMarker(p + i)| <= BodyStart(phases, p, i)
    decreases i
  {
    hide BeginMarker, EndMarker;
    if i > 0 {
      StartsAfterMarker(phases[1..], p + 1, i - 1);
    }
  }

  ghost predicate InBody(phases: seq<Phase>, p: nat, i: nat, at: nat)
    requires p + |phases| <= PHASE_COUNT + 1
  {
    i < |phases| && BodyStart(phases, p, i) <= at < BodyStart(phases, p, i) + |phases[i].body|
  }

  lemma NoCodeInside(a: string, x: string, b: string, i: nat)
    requires i < |x| && !IsCode(x, i)
    ensures !IsCode(a + x + b, |a| + i)
  {
    assert (a + x + b)[|a| + i] == x[i];
    if InComment(x, i) {
      CommentInside(a, x, b, i);
    }
  }

  /** A text without code has none wherever it stands. */
  lemma NoCodeWhereItStands(a: string, x: string, b: string, text: string)
    requires text == a + x + b && forall i: nat :: i < |x| ==> !IsCode(x, i)
    ensures forall at: nat :: |a| <= at < |a| + |x| ==> !IsCode(text, at)
  {
    forall at: nat | |a| <= at < |a| + |x| ensures !IsCode(text, at) {
      NoCodeInside(a, x, b, at - |a|);
    }
  }

  /** A segment holds code in its body only. */
  lemma SegmentCode(phase: Phase, p: nat, rest: string, at: nat)
    requires p < 10 && NoCode(phase.gap)
    requires at < |Segment(phase, p)| && IsCode(Segment(phase, p) + rest, at)
    ensures |phase.gap| + |BeginMarker(p)| <= at < |phase.gap| + |BeginMarker(p)| + |phase.body|
  {
    var b, e := BeginMarker(p), EndMarker(p);
    var text := Segment(phase, p) + rest;
    assert |Segment(phase, p)| == |phase.gap| + |b| + |phase.body| + |e|;
    SegmentCuts(phase, p, rest);
    PhaseMarkers(p);
    forall i: nat | i < |b| ensures !IsCode(b, i) { MarkerHasNoCode(b, i); }
    forall i: nat | i < |e| ensures !IsCode(e, i) { MarkerHasNoCode(e, i); }
    hide BeginMarker, EndMarker, Segment, Blank, IsCode;
    var inner := phase.body + (e + rest);
    assert "" + phase.gap + (b + inner) == phase.gap + (b + inner);
    Associative(phase.gap, b, inner);
    Associative(phase.gap + b, phase.body, e + rest);
    Associative(phase.gap + b + phase.body, e, rest);
    NoCodeWhereItStands("", phase.gap, b + inner, text);
    NoCodeWhereItStands(phase.gap, b, inner, text);
    NoCodeWhereItStands(phase.gap + b + phase.body, e, rest, text);
  }

  lemma MarkerHasNoCode(m: string, i: nat)
    requires IsMarker(m) && i < |m|
    ensures !IsCode(m, i)
  {
    MarkerIsComment(m, i);
  }

  lemma CodeInRest(a: string, rest: string, at: nat)
    requires |a| <= at < |a + rest| && IsCode(a + rest, at)
    ensures IsCode(rest, at - |a|)
  {
    CodeInSuffix(a + rest, |a|, at);
    assert (a + rest)[|a|..] == rest;
  }

  /** Every piece of code of an accepted database text lies in a phase body. */
  lemma {:induction false} CodeLiesInABody(phases: seq<Phase>, p: nat, tail: string, at: nat) returns (i: nat)
    requires p + |phases| <= PHASE_COUNT + 1 && Accepted(phases, tail)
    requires at < |PhaseText(phases, p, tail)| && IsCode(PhaseText(phases, p, tail), at)
    ensures InBody(phases, p, i, at)
    decreases |phases|
  {
    i := 0;
    if phases != [] {
      var s := Segment(phases[0], p);
      var rest := PhaseText(phases[1..], p + 1, tail);
      if at < |s| {
        SegmentCode(phases[0], p, rest, at);
      } else {
        CodeInRest(s, rest, at);
        hide Segment, Blank, Complete, IsCode;
        assert Accepted(phases[1..], tail);
        i := CodeLiesInABody(phases[1..], p + 1, tail, at - |s|);
        i := i + 1;
      }
    }
  }

  // ----- the whole migration text -----

  function Whole(r: RoleSplit, begin: string, end: string): string {
    r.before + (begin + (r.section + (end + r.after)))
  }

  ghost predicate InSection(r: RoleSplit, begin: string, at: nat) {
    |r.before| + |begin| <= at < |r.before| + |begin| + |r.section|
  }

  /** Where a character outside the role section lands in the database text. */
  function Joined(r: RoleSplit, begin: string, end: string, at: nat): int {
    if at < |r.before| then at else at - |begin| - |r.section| - |end|
  }

  /** The text before and after the section, with the section itself cut out. */
  lemma RoleSectionIsCut(sql: string, begin: string, end: string, acceptable: RoleSplit -> bool)
    requires begin != "" && end != "" && SplitClusterRoles(sql, begin, end, acceptable).Ok?
    ensures sql == Whole(SplitClusterRoles(sql, begin, end, acceptable).value, begin, end)
  {
    CutIsExact(sql, begin);
    CutIsExact(CutAt(sql, begin).after, end);
  }

  /** Which texts have a role section, and which: both markers occur once, the end
      marker after the begin marker, and the statements on both sides are acceptable. */
  lemma RoleSplitIsExact(sql: string, begin: string, end: string, acceptable: RoleSplit -> bool, r: RoleSplit)
    requires IsMarker(begin) && IsMarker(end)
    ensures SplitClusterRoles(sql, begin, end, acceptable) == Ok(r) <==>
              sql == Whole(r, begin, end) && OccursOnce(sql, begin) && OccursOnce(sql, end) && acceptable(r)
  {
    CountIsExact(sql, begin);
    CountIsExact(sql, end);
    hide Count, CutAt, OccursOnce, IsMarker;
    if SplitClusterRoles(sql, begin, end, acceptable).Ok? {
      RoleSectionIsCut(sql, begin, end, acceptable);
    }
    if sql == Whole(r, begin, end) && OccursOnce(sql, begin) && OccursOnce(sql, end) {
      RoleMarkersStand(r, begin, end);
    }
  }

  /** Why a text is refused: its begin marker, its end marker, their order, or the
      statements on either side. */
  lemma RoleRefusals(sql: string, begin: string, end: string, acceptable: RoleSplit -> bool, before: string, marked: string, r: RoleSplit)
    requires IsMarker(begin) && IsMarker(end)
    ensures var split := SplitClusterRoles(sql, begin, end, acceptable);
            && (!OccursOnce(sql, begin) ==> split == Err(MarkerNotExact(begin)))
            && (OccursOnce(sql, begin) && !OccursOnce(sql, end) ==> split == Err(MarkerNotExact(end)))
            && (OccursOnce(sql, begin) && OccursOnce(sql, end) ==>
                  && (sql == before + (begin + marked) && Absent(marked, end) ==> split == Err(MarkersOutOfOrder(end)))
                  && (sql == Whole(r, begin, end) && !acceptable(r) ==> split == Err(SectionRejected)))
  {
    CountIsExact(sql, begin);
    CountIsExact(sql, end);
    hide Count, CutAt, OccursOnce, IsMarker, Absent;
    if OccursOnce(sql, begin) && OccursOnce(sql, end) {
      if sql == Whole(r, begin, end) {
        RoleMarkersStand(r, begin, end);
      }
      if sql == before + (begin + marked) && Absent(marked, end) {
        CutIsUnique(before, begin, marked);
        CutIsExact(marked, end);
        CountIsExact(marked, end);
      }
    }
  }

  lemma RoleMarkersStand(r: RoleSplit, begin: string, end: string)
    requires IsMarker(begin) && IsMarker(end)
    requires OccursOnce(Whole(r, begin, end), begin) && OccursOnce(Whole(r, begin, end), end)
    ensures CutAt(Whole(r, begin, end), begin) == At(r.before, r.section + (end + r.after))
    ensures CutAt(r.section + (end + r.after), end) == At(r.section, r.after)
  {
    var marked, sql := r.section + (end + r.after), Whole(r, begin, end);
    hide Count, CutAt, OccursOnce, IsMarker;
    assert sql[|r.before| + |begin|..] == marked;
    assert marked[|r.section|..|r.section| + |end|] == end;
    OnceInSuffix(sql, end, |r.before| + |begin|, |r.section|);
    CountIsExact(sql, begin);
    CountIsExact(marked, end);
    CutIsUnique(r.before, begin, marked);
    CutIsUnique(r.section, end, r.after);
  }

  /** Code outside the section is still code once the section is cut out. */
  lemma CodeStaysCode(r: RoleSplit, begin: string, end: string, at: nat)
    requires IsMarker(begin) && IsMarker(end)
    requires at < |Whole(r, begin, end)| && IsCode(Whole(r, begin, end), at) && !InSection(r, begin, at)
    ensures 0 <= Joined(r, begin, end, at) < |DatabaseSql(r)|
    ensures DatabaseSql(r)[Joined(r, begin, end, at)] == Whole(r, begin, end)[at]
    ensures IsCode(DatabaseSql(r), Joined(r, begin, end, at))
  {
    var sql, db := Whole(r, begin, end), DatabaseSql(r);
    var prefix := r.before + begin + r.section;
    assert sql == r.before + begin + (r.section + (end + r.after));
    assert sql == prefix + end + r.after;
    if |r.before| <= at < |r.before| + |begin| {
      MarkerHasNoCode(begin, at - |r.before|);
      NoCodeInside(r.before, begin, r.section + (end + r.after), at - |r.before|);
    } else if |prefix| <= at < |prefix| + |end| {
      MarkerHasNoCode(end, at - |prefix|);
      NoCodeInside(prefix, end, r.after, at - |prefix|);
    } else {
      var to := Joined(r, begin, end, at);
      assert db[to] == sql[at];
      if InComment(db, to) {
        var j: nat :| CommentFrom(db, j, to);
        JoinedComment(r, begin, end, at, j);
      }
    }
  }

  /** A comment of the joined text runs at the same place of the original. */
  lemma JoinedComment(r: RoleSplit, begin: string, end: string, at: nat, j: nat)
    requires IsMarker(begin) && IsMarker(end) && at < |Whole(r, begin, end)|
    requires at < |r.before| || at >= |r.before| + |begin| + |r.section| + |end|
    requires CommentFrom(DatabaseSql(r), j, Joined(r, begin, end, at))
    ensures InComment(Whole(r, begin, end), at)
  {
    var sql, db := Whole(r, begin, end), DatabaseSql(r);
    if at < |r.before| {
      assert forall k :: 0 <= k < |r.before| ==> sql[k] == db[k];
      assert sql[|r.before|] == begin[0];
      assert CommentFrom(sql, j, at);
    } else {
      CommentAfterSection(r, begin, end, at, j);
    }
  }

  /** A comment that reaches into the second of two texts runs through it from a
      point of its own, or from its very beginning. */
  lemma CommentReaches(before: string, after: string, j: nat, n: nat)
    requires n < |after| && CommentFrom(before + after, j, |before| + n)
    ensures j >= |before| ==> CommentFrom(after, j - |before|, n)
    ensures j < |before| ==> forall k :: 0 <= k < n ==> after[k] != '\n'
  {
    var s := before + after;
    assert forall k :: 0 <= k < |after| ==> s[|before| + k] == after[k];
    forall k | 0 <= k < n && j <= |before| + k ensures after[k] != '\n' {
      assert s[|before| + k] != '\n';
    }
  }

  lemma MarkerReaches(end: string, after: string, n: nat)
    requires IsMarker(end) && n < |after| && forall k :: 0 <= k < n ==> after[k] != '\n'
    ensures InComment(end + after, |end| + n)
  {
    var s := end + after;
    assert forall k :: |end| <= k < |end| + n ==> s[k] == after[k - |end|];
    assert CommentFrom(s, 0, |end| + n);
  }

  lemma CommentAfterSection(r: RoleSplit, begin: string, end: string, at: nat, j: nat)
    requires IsMarker(end) && |r.before| + |begin| + |r.section| + |end| <= at < |Whole(r, begin, end)|
    requires CommentFrom(DatabaseSql(r), j, Joined(r, begin, end, at))
    ensures InComment(Whole(r, begin, end), at)
  {
    var prefix := r.before + begin + r.section;
    var sql, tail := Whole(r, begin, end), end + r.after;
    assert sql == prefix + tail + "" == prefix + end + r.after + "";
    var n := at - |prefix| - |end|;
    CommentReaches(r.before, r.after, j, n);
    hide Whole, CommentFrom, IsMarker;
    if j >= |r.before| {
      assert InComment(r.after, n);
      CommentInside(prefix + end, r.after, "", n);
    } else {
      MarkerReaches(end, r.after, n);
      CommentInside(prefix, tail, "", |end| + n);
    }
  }

  /** In exactly one of the places a statement can go: the role section, or one
      phase body. */
  ghost predicate InExactlyOnePlace(r: RoleSplit, begin: string, end: string, phases: seq<Phase>, p: nat, at: nat)
    requires p + |phases| <= PHASE_COUNT + 1 && at < |Whole(r, begin, end)|
  {
    InSection(r, begin, at) ||
      (var to := Joined(r, begin, end, at);
       && 0 <= to < |DatabaseSql(r)|
       && DatabaseSql(r)[to] == Whole(r, begin, end)[at]
       && InOneBody(phases, p, to))
  }

  ghost predicate InOneBody(phases: seq<Phase>, p: nat, at: nat)
    requires p + |phases| <= PHASE_COUNT + 1
  {
    exists i: nat :: InBody(phases, p, i, at) && forall k: nat :: k != i ==> !InBody(phases, p, k, at)
  }

  lemma OneBodyOnly(phases: seq<Phase>, p: nat, i: nat, k: nat, at: nat)
    requires p + |phases| <= PHASE_COUNT + 1 && InBody(phases, p, i, at) && InBody(phases, p, k, at)
    ensures i == k
  {
    hide BodyStart, BeginMarker, EndMarker;
    if i < k { BodiesInOrder(phases, p, i, k); }
    if k < i { BodiesInOrder(phases, p, k, i); }
  }

  /** Splitter coverage: whenever both cuts accept a text, every character of it
      that is neither white space nor part of a line comment lies in exactly one of
      the role section and the phases. The splitter starts at phase `p == 1`, which
      makes nine phases. */
  lemma Coverage(sql: string, begin: string, end: string, acceptable: RoleSplit -> bool, p: nat, at: nat)
    requires IsMarker(begin) && IsMarker(end) && 1 <= p <= PHASE_COUNT + 1
    requires SplitClusterRoles(sql, begin, end, acceptable).Ok?
    requires PhasesFrom(DatabaseSql(SplitClusterRoles(sql, begin, end, acceptable).value), p).Ok?
    requires at < |sql| && IsCode(sql, at)
    ensures var r := SplitClusterRoles(sql, begin, end, acceptable).value;
            var split := PhasesFrom(DatabaseSql(r), p).value;
            && sql == Whole(r, begin, end)
            && |split.phases| == PHASE_COUNT + 1 - p
            && InExactlyOnePlace(r, begin, end, split.phases, p, at)
  {
    hide SplitClusterRoles, PhasesFrom, IsCode, InBody;
    var r := SplitClusterRoles(sql, begin, end, acceptable).value;
    RoleSectionIsCut(sql, begin, end, acceptable);
    CutOutCoverage(r, begin, end, p, at);
  }

  lemma CutOutCoverage(r: RoleSplit, begin: string, end: string, p: nat, at: nat)
    requires IsMarker(begin) && IsMarker(end) && 1 <= p <= PHASE_COUNT + 1 && PhasesFrom(DatabaseSql(r), p).Ok?
    requires at < |Whole(r, begin, end)| && IsCode(Whole(r, begin, end), at)
    ensures var split := PhasesFrom(DatabaseSql(r), p).value;
            |split.phases| == PHASE_COUNT + 1 - p && InExactlyOnePlace(r, begin, end, split.phases, p, at)
  {
    hide PhasesFrom, PhaseText, IsCode, Accepted, InOneBody, IsMarker, Whole, DatabaseSql;
    var split := PhasesFrom(DatabaseSql(r), p).value;
    AcceptedIsAssembled(DatabaseSql(r), p);
    if !InSection(r, begin, at) {
      CodeStaysCode(r, begin, end, at);
      var to := Joined(r, begin, end, at);
      CodeLiesInOneBody(split.phases, p, split.tail, to);
    }
  }

  lemma CodeLiesInOneBody(phases: seq<Phase>, p: nat, tail: string, at: nat)
    requires p + |phases| <= PHASE_COUNT + 1 && Accepted(phases, tail)
    requires at < |PhaseText(phases, p, tail)| && IsCode(PhaseText(phases, p, tail), at)
    ensures InOneBody(phases, p, at)
  {
    hide PhaseText, IsCode, Accepted, BodyStart, InBody;
    var i := CodeLiesInABody(phases, p, tail, at);
    forall k: nat | k != i ensures !InBody(phases, p, k, at) {
      if InBody(phases, p, k, at) {
        OneBodyOnly(phases, p, i, k, at);
      }
    }
  }
}
