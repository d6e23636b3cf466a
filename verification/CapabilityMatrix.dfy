/**
  The capability matrix of the validation harness: probes mark rows one after
  another, a producer summarises the rows, and an independent validator decides
  whether the result may be published. A capability identifier `CRDB-nnn` is
  modelled by its number; zero padding makes text order and number order agree.
  */
module CapabilityMatrix {
  import opened Sequences
  import opened SqlText

  datatype Option<T> = None | Some(value: T)

  datatype Status = PASS | FAIL | DEFER | OtherStatus(text: string)

  datatype Decision = USE | USE_WITH_GUARD | DEFERRED | DO_NOT_USE | OtherDecision(text: string)

  datatype Availability = AVAILABLE | UNAVAILABLE | CONDITIONAL | UNKNOWN | OtherAvailability(text: string)

  datatype Maturity =
    | GA | PREVIEW | EXPERIMENTAL | DEPRECATED | NOT_APPLICABLE | UNKNOWN_MATURITY | OtherMaturity(text: string)

  datatype Plane = LIVE_LOCAL | LIVE_EXTERNAL | OFFLINE_REPOSITORY | OtherPlane(text: string)

  /** `evidence` is the row number that the evidence reference ends in. */
  datatype Row = Row(
    id: nat, name: string, status: Status, availability: Availability, maturity: Maturity, plane: Plane,
    decision: Decision, reason: string, observed: string, sqlstate: Option<string>, expectedError: Option<string>,
    limitations: seq<string>, references: seq<string>, evidence: Option<nat>, version: string, cleanupVerified: bool)

  datatype Source = Source(
    ids: seq<nat>, category: string, title: string, location: string, retrievedAt: string,
    matched: Option<bool>, discrepancy: Option<string>)

  datatype Overall = ExplicitLimitations | ExplicitDeferredItems | Validated

  datatype Summary = Summary(
    deferCount: nat, failCount: nat, generatedAt: string, harness: string, sha: string, overall: Overall,
    passCount: nat, version: string, total: nat)

  datatype Matrix = Matrix(rows: seq<Row>, sources: seq<Source>, summary: Summary)

  /** What the harness takes from outside: its tables and the checks on opaque text. */
  datatype Rules = Rules(
    names: nat -> string, urls: map<string, string>, categories: set<string>,
    official: string -> bool, instant: string -> bool, secretFree: Matrix -> bool, digest: Matrix -> string)

  const REQUIRED: nat := 36
  const HARNESS_VERSION := "1.0.3"
  const FAILED_PROBE := "At least one mapped live semantic probe returned FAIL."

  predicate Blank(text: string) {
    forall i :: 0 <= i < |text| ==> IsSpace(text[i])
  }

  // ----- recording -----

  function TemplateDecision(id: nat): Decision {
    if id in {8, 9, 10, 18, 19, 23, 24, 25, 33, 34} then USE_WITH_GUARD else USE
  }

  function TemplateAvailability(id: nat): Availability {
    if id in {8, 9, 10, 20, 21, 22, 23, 24, 30, 31, 35} then CONDITIONAL else AVAILABLE
  }

  function TemplateMaturity(id: nat): Maturity {
    if id in {8, 9, 10, 14, 15, 16, 17, 18, 19} then GA
    else if id in {1, 2, 32, 33, 34, 35, 36} then NOT_APPLICABLE
    else UNKNOWN_MATURITY
  }

  function Template(id: nat, rules: Rules, version: string): Row {
    Row(id, rules.names(id), DEFER, TemplateAvailability(id), TemplateMaturity(id), LIVE_LOCAL, TemplateDecision(id),
        "Live result not yet recorded.", "", None, None, [], [], None, version, false)
  }

  function Templates(rules: Rules, version: string): (rows: seq<Row>)
    ensures |rows| == REQUIRED && forall i :: 0 <= i < REQUIRED ==> rows[i] == Template(i + 1, rules, version)
  {
    seq(REQUIRED, i requires 0 <= i < REQUIRED => Template(i + 1, rules, version))
  }

  datatype Mark = Mark(
    id: nat, status: Status, observed: string, sources: seq<string>, sqlstate: Option<string>,
    expectedError: Option<string>, limitations: seq<string>, decision: Option<Decision>, reason: Option<string>,
    availability: Option<Availability>, maturity: Option<Maturity>, plane: Option<Plane>, cleanupVerified: bool)

  datatype Marking = Marked | InvalidStatus | InvalidMaturity | UnknownSource | UnknownCapability

  function Verdict(mark: Mark, rules: Rules): Marking {
    if mark.status.OtherStatus? then InvalidStatus
    else if !(1 <= mark.id <= REQUIRED) then UnknownCapability
    else if exists i :: 0 <= i < |mark.sources| && mark.sources[i] !in rules.urls then UnknownSource
    else if mark.maturity.Some? && mark.maturity.value.OtherMaturity? then InvalidMaturity
    else Marked
  }

  function Urls(keys: seq<string>, urls: map<string, string>): (locations: seq<string>)
    requires forall i :: 0 <= i < |keys| ==> keys[i] in urls
    ensures |locations| == |keys| && forall i :: 0 <= i < |keys| ==> locations[i] == urls[keys[i]]
  {
    seq(|keys|, i requires 0 <= i < |keys| => urls[keys[i]])
  }

  function Override<T>(given: Option<T>, current: T): T {
    if given.Some? then given.value else current
  }

  function Reason(mark: Mark): string {
    if mark.reason.Some? && mark.reason.value != "" then mark.reason.value else mark.observed
  }

  /** The decision a mark makes, if it makes one. */
  function DecisionGiven(mark: Mark): Option<Decision> {
    match mark.status
    case DEFER => Some(DEFERRED)
    case FAIL => Some(DO_NOT_USE)
    case _ => mark.decision
  }

  /** The row after a mark, which may have stopped part of the way through. */
  function MarkRow(row: Row, mark: Mark, rules: Rules): Row {
    if Verdict(mark, rules) in {InvalidStatus, UnknownCapability} then row
    else
      var begun := row.(
        status := mark.status, observed := mark.observed, sqlstate := mark.sqlstate,
        expectedError := mark.expectedError, limitations := mark.limitations);
      if Verdict(mark, rules).UnknownSource? then begun
      else
        var bound := begun.(
          references := Urls(mark.sources, rules.urls), evidence := Some(mark.id - 1),
          cleanupVerified := mark.cleanupVerified, availability := Override(mark.availability, row.availability));
        if Verdict(mark, rules).InvalidMaturity? then bound
        else
          bound.(
            maturity := Override(mark.maturity, row.maturity), plane := Override(mark.plane, row.plane),
            decision := Override(DecisionGiven(mark), row.decision), reason := Reason(mark))
  }

  /** Which marks are refused, the first of these grounds deciding. */
  lemma VerdictIsExact(mark: Mark, rules: Rules)
    ensures var status, capability := mark.status.OtherStatus?, mark.id < 1 || mark.id > REQUIRED;
            var source := exists key :: key in mark.sources && key !in rules.urls;
            var maturity := mark.maturity.Some? && mark.maturity.value.OtherMaturity?;
            && (Verdict(mark, rules) == InvalidStatus <==> status)
            && (Verdict(mark, rules) == UnknownCapability <==> !status && capability)
            && (Verdict(mark, rules) == UnknownSource <==> !status && !capability && source)
            && (Verdict(mark, rules) == InvalidMaturity <==> !status && !capability && !source && maturity)
            && (Verdict(mark, rules) == Marked <==> !status && !capability && !source && !maturity)
  {
    if i: nat :| i < |mark.sources| && mark.sources[i] !in rules.urls {
      assert mark.sources[i] in mark.sources;
    }
  }

  /** A refused mark leaves the fields it did not come to as they were: all of them, all
      but the observation, or only the maturity and what follows it. */
  lemma RefusedMarks(row: Row, mark: Mark, rules: Rules)
    ensures var after := MarkRow(row, mark, rules);
            match Verdict(mark, rules)
            case InvalidStatus => after == row
            case UnknownCapability => after == row
            case UnknownSource =>
              && after.status == mark.status && after.observed == mark.observed && after.sqlstate == mark.sqlstate
              && after.expectedError == mark.expectedError && after.limitations == mark.limitations
              && after.references == row.references && after.evidence == row.evidence
              && after.cleanupVerified == row.cleanupVerified && after.availability == row.availability
              && after.maturity == row.maturity && after.plane == row.plane
              && after.decision == row.decision && after.reason == row.reason
            case InvalidMaturity =>
              && after.status == mark.status && after.observed == mark.observed && after.sqlstate == mark.sqlstate
              && |after.references| == |mark.sources| && after.evidence == Some(mark.id - 1)
              && after.cleanupVerified == mark.cleanupVerified
              && (mark.availability.Some? ==> after.availability == mark.availability.value)
              && after.maturity == row.maturity && after.plane == row.plane
              && after.decision == row.decision && after.reason == row.reason
            case Marked =>
              && after.status == mark.status && after.observed == mark.observed
              && (mark.reason.Some? && mark.reason.value != "" ==> after.reason == mark.reason.value)
              && (mark.reason.None? || mark.reason.value == "" ==> after.reason == mark.observed)
              && (mark.maturity.Some? ==> after.maturity == mark.maturity.value)
              && (mark.maturity.None? ==> after.maturity == row.maturity)
  {
  }

  predicate Ordered(rows: seq<Row>) {
    |rows| == REQUIRED && forall i :: 0 <= i < REQUIRED ==> rows[i].id == i + 1
  }

  class ProbeRecorder {
    var rows: seq<Row>
    const rules: Rules

    constructor (rules: Rules, version: string)
      ensures this.rules == rules && rows == Templates(rules, version) && Ordered(rows)
    {
      this.rules := rules;
      rows := Templates(rules, version);
    }

    /** Finds the row by value, as the recorder does; identifiers make it unique. */
    method IndexOf(row: Row) returns (index: nat)
      requires Ordered(rows) && row in rows
      ensures index < REQUIRED && rows[index] == row && index == row.id - 1
    {
      ghost var at :| 0 <= at < |rows| && rows[at] == row;
      index := 0;
      while rows[index] != row
        invariant index <= at < REQUIRED
        decreases at - index
      {
        index := index + 1;
      }
    }

    method Record(mark: Mark) returns (marking: Marking)
      requires Ordered(rows)
      modifies this`rows
      ensures Ordered(rows)
      ensures marking == Verdict(mark, rules)
      ensures forall i :: 0 <= i < REQUIRED ==>
                rows[i] == if i + 1 == mark.id then MarkRow(old(rows[i]), mark, rules) else old(rows[i])
    {
      hide Override, DecisionGiven, Reason, Templates;
      if mark.status.OtherStatus? {
        return InvalidStatus;
      }
      if !(1 <= mark.id <= REQUIRED) {
        return UnknownCapability;
      }
      var row := rows[mark.id - 1];
      row := row.(
        status := mark.status, observed := mark.observed, sqlstate := mark.sqlstate,
        expectedError := mark.expectedError, limitations := mark.limitations);
      rows := rows[mark.id - 1 := row];
      if exists i :: 0 <= i < |mark.sources| && mark.sources[i] !in rules.urls {
        return UnknownSource;
      }
      row := row.(references := Urls(mark.sources, rules.urls));
      rows := rows[mark.id - 1 := row];
      assert rows[mark.id - 1] == row;
      var index := IndexOf(row);
      row := row.(
        evidence := Some(index), cleanupVerified := mark.cleanupVerified,
        availability := Override(mark.availability, row.availability));
      rows := rows[mark.id - 1 := row];
      if mark.maturity.Some? && mark.maturity.value.OtherMaturity? {
        return InvalidMaturity;
      }
      row := row.(
        maturity := Override(mark.maturity, row.maturity), plane := Override(mark.plane, row.plane),
        decision := Override(DecisionGiven(mark), row.decision), reason := Reason(mark));
      rows := rows[mark.id - 1 := row];
      return Marked;
    }
  }

  // ----- a whole run of marks -----

  function RunMarks(rows: seq<Row>, marks: seq<Mark>, rules: Rules): (after: seq<Row>)
    requires Ordered(rows)
    ensures Ordered(after)
  {
    if marks == [] then rows
    else
      var before := RunMarks(rows, marks[..|marks| - 1], rules);
      var mark := marks[|marks| - 1];
      if 1 <= mark.id <= REQUIRED then before[mark.id - 1 := MarkRow(before[mark.id - 1], mark, rules)] else before
  }

  function MarksOf(id: nat, marks: seq<Mark>): (mine: seq<Mark>)
    ensures forall i :: 0 <= i < |mine| ==> mine[i].id == id && mine[i] in marks
  {
    if marks == [] then []
    else MarksOf(id, marks[..|marks| - 1]) + if marks[|marks| - 1].id == id then [marks[|marks| - 1]] else []
  }

  function RowAfter(row: Row, mine: seq<Mark>, rules: Rules): Row {
    if mine == [] then row else MarkRow(RowAfter(row, mine[..|mine| - 1], rules), mine[|mine| - 1], rules)
  }

  /** Probes do not disturb each other: a row depends on its own marks alone. */
  lemma {:induction false} RowsAreIndependent(rows: seq<Row>, marks: seq<Mark>, rules: Rules, id: nat)
    requires Ordered(rows) && 1 <= id <= REQUIRED
    ensures RunMarks(rows, marks, rules)[id - 1] == RowAfter(rows[id - 1], MarksOf(id, marks), rules)
  {
    if marks != [] {
      var front, mark := marks[..|marks| - 1], marks[|marks| - 1];
      RowsAreIndependent(rows, front, rules, id);
      if mark.id == id {
        var mine := MarksOf(id, marks);
        assert mine[..|mine| - 1] == MarksOf(id, front) && mine[|mine| - 1] == mark;
      } else {
        assert MarksOf(id, marks) == MarksOf(id, front);
      }
    }
  }

  /** Any interleaving of probes that keeps each capability's marks gives the same rows. */
  lemma InterleavingDoesNotMatter(rows: seq<Row>, a: seq<Mark>, b: seq<Mark>, rules: Rules)
    requires Ordered(rows)
    requires forall id: nat :: 1 <= id <= REQUIRED ==> MarksOf(id, a) == MarksOf(id, b)
    ensures RunMarks(rows, a, rules) == RunMarks(rows, b, rules)
  {
    hide MarkRow, RowAfter, MarksOf;
    forall i | 0 <= i < REQUIRED ensures RunMarks(rows, a, rules)[i] == RunMarks(rows, b, rules)[i] {
      var id: nat := i + 1;
      RowsAreIndependent(rows, a, rules, id);
      RowsAreIndependent(rows, b, rules, id);
      assert MarksOf(id, a) == MarksOf(id, b);
    }
  }

  // ----- the producer -----

  function Count(rows: seq<Row>, status: Status): nat {
    if rows == [] then 0 else (if rows[0].status == status then 1 else 0) + Count(rows[1..], status)
  }

  function Verified(rows: seq<Row>, flag: bool): (after: seq<Row>)
    ensures |after| == |rows| && forall i :: 0 <= i < |rows| ==> after[i] == rows[i].(cleanupVerified := flag)
  {
    seq(|rows|, i requires 0 <= i < |rows| => rows[i].(cleanupVerified := flag))
  }

  predicate Maps(source: Source, rows: seq<Row>, status: Status) {
    exists i :: 0 <= i < |rows| && rows[i].id in source.ids && rows[i].status == status
  }

  predicate AllPass(source: Source, rows: seq<Row>) {
    && Maps(source, rows, PASS)
    && forall i :: 0 <= i < |rows| && rows[i].id in source.ids ==> rows[i].status == PASS
  }

  function Observe(source: Source, rows: seq<Row>): Source {
    if Maps(source, rows, FAIL) then source.(matched := Some(false), discrepancy := Some(FAILED_PROBE))
    else if AllPass(source, rows) then source.(matched := Some(true))
    else source.(matched := None)
  }

  function Observed(sources: seq<Source>, rows: seq<Row>): (after: seq<Source>)
    ensures |after| == |sources| && forall i :: 0 <= i < |sources| ==> after[i] == Observe(sources[i], rows)
  {
    seq(|sources|, i requires 0 <= i < |sources| => Observe(sources[i], rows))
  }

  function Conclude(failures: nat, deferrals: nat): Overall {
    if failures > 0 then ExplicitLimitations else if deferrals > 0 then ExplicitDeferredItems else Validated
  }

  /** The digest is taken with its own field left out. */
  function MatrixDigest(matrix: Matrix, rules: Rules): string {
    rules.digest(matrix.(summary := matrix.summary.(sha := "")))
  }

  function MakeMatrix(rows: seq<Row>, version: string, generatedAt: string, sources: seq<Source>, rules: Rules): Matrix {
    var failures, deferrals := Count(rows, FAIL), Count(rows, DEFER);
    var matrix := Matrix(
      rows, Observed(sources, rows),
      Summary(deferrals, failures, generatedAt, HARNESS_VERSION, "", Conclude(failures, deferrals),
              Count(rows, PASS), version, |rows|));
    matrix.(summary := matrix.summary.(sha := MatrixDigest(matrix, rules)))
  }

  // ----- the validator -----

  predicate SqlState(code: string) {
    |code| == 5 && forall i :: 0 <= i < 5 ==> '0' <= code[i] <= '9' || 'A' <= code[i] <= 'Z'
  }

  predicate Agrees(row: Row) {
    match row.status
    case FAIL => row.decision == DO_NOT_USE
    case DEFER => row.decision == DEFERRED
    case PASS => row.decision in {USE, USE_WITH_GUARD}
    case _ => false
  }

  predicate RowIsAccepted(row: Row, index: nat, rules: Rules) {
    && !row.availability.OtherAvailability? && !row.maturity.OtherMaturity? && !row.plane.OtherPlane?
    && !Blank(row.reason) && !Blank(row.name) && !Blank(row.observed) && !Blank(row.version)
    && (forall i :: 0 <= i < |row.limitations| ==> !Blank(row.limitations[i]))
    && (forall i :: 0 <= i < |row.references| ==> !Blank(row.references[i]))
    && row.cleanupVerified
    && (row.expectedError.Some? ==> !Blank(row.expectedError.value))
    && (row.sqlstate.Some? ==> SqlState(row.sqlstate.value))
    && (row.id == 32 <==> row.plane == OFFLINE_REPOSITORY)
    && (1 <= row.id <= REQUIRED ==> row.name == rules.names(row.id))
    && row.evidence == Some(index)
    && Agrees(row)
  }

  predicate HasRow(rows: seq<Row>, id: nat) {
    exists i :: 0 <= i < |rows| && rows[i].id == id
  }

  predicate HasCategory(sources: seq<Source>, category: string) {
    exists i :: 0 <= i < |sources| && sources[i].category == category
  }

  predicate SourceIsAccepted(source: Source, rows: seq<Row>, rules: Rules) {
    && source.category != "" && !Blank(source.title) && rules.official(source.location)
    && source.ids != [] && (forall i :: 0 <= i < |source.ids| ==> HasRow(rows, source.ids[i]))
    && (forall i, j :: 0 <= i < j < |source.ids| ==> source.ids[i] != source.ids[j])
    && rules.instant(source.retrievedAt)
    && (source.discrepancy.Some? ==> !Blank(source.discrepancy.value))
  }

  predicate Bound(reference: string, id: nat, sources: seq<Source>) {
    exists i :: 0 <= i < |sources| && sources[i].location == reference && id in sources[i].ids
  }

  predicate RowIsBound(row: Row, sources: seq<Source>) {
    row.references != [] && forall i :: 0 <= i < |row.references| ==> Bound(row.references[i], row.id, sources)
  }

  predicate SourcesAreAccepted(sources: seq<Source>, rows: seq<Row>, rules: Rules) {
    && sources != []
    && (forall i :: 0 <= i < |sources| ==> SourceIsAccepted(sources[i], rows, rules))
    && (forall i, j :: 0 <= i < j < |sources| ==> sources[i].location != sources[j].location)
    && (forall category :: category in rules.categories ==> HasCategory(sources, category))
    && (forall i :: 0 <= i < |rows| ==> RowIsBound(rows[i], sources))
  }

  predicate Passes(rows: seq<Row>, id: nat) {
    exists i :: 0 <= i < |rows| && rows[i].id == id && rows[i].status == PASS && forall j :: 0 <= j < i ==> rows[j].id != id
  }

  predicate IdsAreAccepted(rows: seq<Row>) {
    && REQUIRED <= |rows| && (forall i :: 0 <= i < REQUIRED ==> rows[i].id == i + 1)
    && (forall i, j :: 0 <= i < j < |rows| ==> rows[i].id < rows[j].id)
  }

  predicate SummaryIsAccepted(matrix: Matrix, pin: Option<string>, rules: Rules) {
    var summary, rows := matrix.summary, matrix.rows;
    && summary.total == |rows| && summary.harness == HARNESS_VERSION
    && summary.passCount == Count(rows, PASS) && summary.failCount == Count(rows, FAIL)
    && summary.deferCount == Count(rows, DEFER)
    && summary.sha == MatrixDigest(matrix, rules)
    && (pin.Some? ==> summary.version == pin.value && forall i :: 0 <= i < |rows| ==> rows[i].version == pin.value)
    && summary.overall == Conclude(Count(rows, FAIL), Count(rows, DEFER))
    && rules.instant(summary.generatedAt)
  }

  predicate Accepted(matrix: Matrix, pin: Option<string>, rules: Rules) {
    && (forall i :: 0 <= i < |matrix.rows| ==> RowIsAccepted(matrix.rows[i], i, rules))
    && IdsAreAccepted(matrix.rows)
    && SummaryIsAccepted(matrix, pin, rules)
    && Passes(matrix.rows, 1) && Passes(matrix.rows, 2) && Passes(matrix.rows, 36)
    && SourcesAreAccepted(matrix.sources, matrix.rows, rules)
    && rules.secretFree(matrix)
  }

  // ----- the producer meets the validator -----

  predicate RunIsClean(marks: seq<Mark>, rules: Rules) {
    forall i :: 0 <= i < |marks| ==> Verdict(marks[i], rules) == Marked
  }

  predicate MarkIsPresentable(mark: Mark) {
    && !Blank(mark.observed) && !Blank(Reason(mark))
    && (forall i :: 0 <= i < |mark.limitations| ==> !Blank(mark.limitations[i]))
    && (mark.expectedError.Some? ==> !Blank(mark.expectedError.value))
    && (mark.sqlstate.Some? ==> SqlState(mark.sqlstate.value))
  }

  predicate MarkIsSourced(mark: Mark, rules: Rules, sources: seq<Source>)
    requires Verdict(mark, rules) == Marked
  {
    && mark.sources != []
    && forall i :: 0 <= i < |mark.sources| ==>
         !Blank(rules.urls[mark.sources[i]]) && Bound(rules.urls[mark.sources[i]], mark.id, sources)
  }

  // ----- what stands after several marks -----

  function LastSome<T>(given: seq<Option<T>>): Option<T> {
    if given == [] then None
    else if given[|given| - 1].Some? then given[|given| - 1]
    else LastSome(given[..|given| - 1])
  }

  /** Nothing stands if nothing was given; otherwise the last that was given does. */
  lemma {:induction false} LastSomeIsLast<T>(given: seq<Option<T>>)
    ensures LastSome(given).None? <==> forall i :: 0 <= i < |given| ==> given[i].None?
    ensures LastSome(given).Some? ==>
              exists i :: 0 <= i < |given| && given[i] == LastSome(given) && forall j :: i < j < |given| ==> given[j].None?
  {
    if given != [] && given[|given| - 1].None? {
      var front := given[..|given| - 1];
      LastSomeIsLast(front);
      if LastSome(front).Some? {
        var i :| 0 <= i < |front| && front[i] == LastSome(front) && forall j :: i < j < |front| ==> front[j].None?;
        assert given[i] == front[i] && forall j :: i < j < |front| ==> given[j] == front[j];
      } else {
        assert forall i :: 0 <= i < |front| ==> given[i] == front[i];
      }
    }
  }

  function Decisions(mine: seq<Mark>): (given: seq<Option<Decision>>)
    ensures |given| == |mine| && forall i :: 0 <= i < |mine| ==> given[i] == DecisionGiven(mine[i])
  {
    seq(|mine|, i requires 0 <= i < |mine| => DecisionGiven(mine[i]))
  }

  function Planes(mine: seq<Mark>): (given: seq<Option<Plane>>)
    ensures |given| == |mine| && forall i :: 0 <= i < |mine| ==> given[i] == mine[i].plane
  {
    seq(|mine|, i requires 0 <= i < |mine| => mine[i].plane)
  }

  function Availabilities(mine: seq<Mark>): (given: seq<Option<Availability>>)
    ensures |given| == |mine| && forall i :: 0 <= i < |mine| ==> given[i] == mine[i].availability
  {
    seq(|mine|, i requires 0 <= i < |mine| => mine[i].availability)
  }

  /** What the recorder keeps is what stands among the marks, or the template's own. */
  lemma {:induction false} RowKeepsWhatStands(row: Row, mine: seq<Mark>, rules: Rules)
    requires RunIsClean(mine, rules)
    ensures var after := RowAfter(row, mine, rules);
            && after.decision == Override(LastSome(Decisions(mine)), row.decision)
            && after.plane == Override(LastSome(Planes(mine)), row.plane)
            && after.availability == Override(LastSome(Availabilities(mine)), row.availability)
  {
    if mine != [] {
      var front := mine[..|mine| - 1];
      RowKeepsWhatStands(row, front, rules);
      assert Decisions(mine)[..|front|] == Decisions(front);
      assert Planes(mine)[..|front|] == Planes(front);
      assert Availabilities(mine)[..|front|] == Availabilities(front);
    }
  }

  /** The last mark's status goes with the decision that stands. */
  predicate DecisionFits(mine: seq<Mark>)
    requires mine != []
  {
    mine[|mine| - 1].status == PASS ==>
      LastSome(Decisions(mine)) in {None, Some(USE), Some(USE_WITH_GUARD)}
  }

  /** What the probes of one capability must have recorded, read off its marks. */
  predicate MarksAreReady(id: nat, mine: seq<Mark>, sources: seq<Source>, rules: Rules)
    requires mine != [] && Verdict(mine[|mine| - 1], rules) == Marked
  {
    var last := mine[|mine| - 1];
    && MarkIsPresentable(last) && MarkIsSourced(last, rules, sources)
    && !Override(LastSome(Availabilities(mine)), AVAILABLE).OtherAvailability?
    && !Override(LastSome(Planes(mine)), LIVE_LOCAL).OtherPlane?
    && (id == 32 <==> LastSome(Planes(mine)) == Some(OFFLINE_REPOSITORY))
    && DecisionFits(mine)
    && (id in {1, 2, 36} ==> last.status == PASS)
  }

  predicate ProbeIsReady(id: nat, marks: seq<Mark>, sources: seq<Source>, rules: Rules)
    requires RunIsClean(marks, rules)
  {
    MarksOf(id, marks) != [] && MarksAreReady(id, MarksOf(id, marks), sources, rules)
  }

  lemma {:induction false} RowKeepsIdentity(row: Row, mine: seq<Mark>, rules: Rules)
    requires RunIsClean(mine, rules) && !row.maturity.OtherMaturity?
    ensures var after := RowAfter(row, mine, rules);
            && after.id == row.id && after.name == row.name && after.version == row.version
            && !after.maturity.OtherMaturity?
  {
    if mine != [] {
      RowKeepsIdentity(row, mine[..|mine| - 1], rules);
    }
  }

  lemma RowIsReady(id: nat, marks: seq<Mark>, version: string, sources: seq<Source>, rules: Rules)
    requires RunIsClean(marks, rules) && 1 <= id <= REQUIRED && !Blank(rules.names(id)) && !Blank(version)
    ensures var row := RowAfter(Template(id, rules, version), MarksOf(id, marks), rules).(cleanupVerified := true);
            (RowIsAccepted(row, id - 1, rules) && RowIsBound(row, sources) && (id in {1, 2, 36} ==> row.status == PASS))
            <==> ProbeIsReady(id, marks, sources, rules)
  {
    var template, mine := Template(id, rules, version), MarksOf(id, marks);
    if mine != [] {
      var front, last := mine[..|mine| - 1], mine[|mine| - 1];
      assert Verdict(last, rules) == Marked && last.id == id;
      assert RunIsClean(mine, rules) && RunIsClean(front, rules);
      RowKeepsIdentity(template, mine, rules);
      RowKeepsIdentity(template, front, rules);
      RowKeepsWhatStands(template, mine, rules);
      var before, row := RowAfter(template, front, rules), RowAfter(template, mine, rules);
      assert row == MarkRow(before, last, rules);
      MarkedRow(before, last, sources, rules);
      hide MarkRow, RowAfter, MarksOf, Verdict, LastSome;
      AcceptedByItsMarks(row.(cleanupVerified := true), mine, sources, rules);
    }
  }

  /** Acceptance of a row in terms of the marks it was made from. */
  lemma AcceptedByItsMarks(row: Row, mine: seq<Mark>, sources: seq<Source>, rules: Rules)
    requires 1 <= row.id <= REQUIRED && row.name == rules.names(row.id) && !Blank(row.name) && !Blank(row.version)
    requires row.cleanupVerified && !row.maturity.OtherMaturity? && mine != []
    requires var last := mine[|mine| - 1];
             && Verdict(last, rules) == Marked
             && row.status == last.status && row.observed == last.observed && row.reason == Reason(last)
             && row.sqlstate == last.sqlstate && row.expectedError == last.expectedError
             && row.limitations == last.limitations && row.evidence == Some(row.id - 1)
             && (Agrees(row) <==> (last.status == PASS ==> row.decision in {USE, USE_WITH_GUARD}))
             && ((RowIsBound(row, sources) && forall i :: 0 <= i < |row.references| ==> !Blank(row.references[i]))
                 <==> MarkIsSourced(last, rules, sources))
    requires row.decision == Override(LastSome(Decisions(mine)), TemplateDecision(row.id))
    requires row.plane == Override(LastSome(Planes(mine)), LIVE_LOCAL)
    requires row.availability == Override(LastSome(Availabilities(mine)), TemplateAvailability(row.id))
    ensures (RowIsAccepted(row, row.id - 1, rules) && RowIsBound(row, sources)
             && (row.id in {1, 2, 36} ==> row.status == PASS))
            <==> MarksAreReady(row.id, mine, sources, rules)
  {
    hide LastSome, Blank, MarkIsSourced, RowIsBound, Agrees, Verdict;
    assert DecisionFits(mine) <==> (row.status == PASS ==> row.decision in {USE, USE_WITH_GUARD});
  }

  lemma MarkedRow(before: Row, last: Mark, sources: seq<Source>, rules: Rules)
    requires Verdict(last, rules) == Marked && before.id == last.id
    ensures var row := MarkRow(before, last, rules);
            && row.status == last.status && row.observed == last.observed && row.reason == Reason(last)
            && row.sqlstate == last.sqlstate && row.expectedError == last.expectedError
            && row.limitations == last.limitations && row.references == Urls(last.sources, rules.urls)
            && row.evidence == Some(last.id - 1)
            && (Agrees(row) <==> (last.status == PASS ==> row.decision in {USE, USE_WITH_GUARD}))
            && ((RowIsBound(row, sources) && forall i :: 0 <= i < |row.references| ==> !Blank(row.references[i]))
                <==> MarkIsSourced(last, rules, sources))
  {
    var row := MarkRow(before, last, rules);
    hide Blank, Bound;
    assert |row.references| == |last.sources|;
    assert forall i :: 0 <= i < |last.sources| ==> row.references[i] == rules.urls[last.sources[i]];
  }

  /** The source list as handed to the producer, against the rows it will be judged with. */
  predicate SourcesAreReady(sources: seq<Source>, rows: seq<Row>, rules: Rules) {
    && sources != []
    && (forall i :: 0 <= i < |sources| ==> SourceIsReady(sources[i], rows, rules))
    && (forall i, j :: 0 <= i < j < |sources| ==> sources[i].location != sources[j].location)
    && (forall category :: category in rules.categories ==> HasCategory(sources, category))
  }

  predicate SourceIsReady(source: Source, rows: seq<Row>, rules: Rules) {
    && source.category != "" && !Blank(source.title) && rules.official(source.location)
    && source.ids != [] && (forall i :: 0 <= i < |source.ids| ==> 1 <= source.ids[i] <= REQUIRED)
    && (forall i, j :: 0 <= i < j < |source.ids| ==> source.ids[i] != source.ids[j])
    && rules.instant(source.retrievedAt)
    && (source.discrepancy.Some? && Blank(source.discrepancy.value) ==> Maps(source, rows, FAIL))
  }

  lemma SourceReadiness(source: Source, rows: seq<Row>, rules: Rules)
    requires Ordered(rows)
    ensures SourceIsAccepted(Observe(source, rows), rows, rules) <==> SourceIsReady(source, rows, rules)
  {
    forall x: nat ensures HasRow(rows, x) <==> 1 <= x <= REQUIRED {
      if 1 <= x <= REQUIRED {
        assert rows[x - 1].id == x;
      }
    }
    assert FAILED_PROBE[|FAILED_PROBE| - 1] == '.';
    assert !Blank(FAILED_PROBE);
  }

  lemma BoundAsBefore(reference: string, id: nat, sources: seq<Source>, rows: seq<Row>)
    ensures Bound(reference, id, Observed(sources, rows)) <==> Bound(reference, id, sources)
  {
    var after := Observed(sources, rows);
    assert forall i :: 0 <= i < |sources| ==> after[i].location == sources[i].location && after[i].ids == sources[i].ids;
    if i :| 0 <= i < |sources| && sources[i].location == reference && id in sources[i].ids {
      assert after[i].location == reference;
    }
  }

  lemma CategoriesAsBefore(category: string, sources: seq<Source>, rows: seq<Row>)
    ensures HasCategory(Observed(sources, rows), category) <==> HasCategory(sources, category)
  {
    var after := Observed(sources, rows);
    assert forall i :: 0 <= i < |sources| ==> after[i].category == sources[i].category;
    if i :| 0 <= i < |sources| && sources[i].category == category {
      assert after[i].category == category;
    }
  }

  lemma SourceReadinessOfAll(sources: seq<Source>, rows: seq<Row>, rules: Rules)
    requires Ordered(rows)
    ensures SourcesAreAccepted(Observed(sources, rows), rows, rules) <==>
              SourcesAreReady(sources, rows, rules) && forall i :: 0 <= i < |rows| ==> RowIsBound(rows[i], sources)
  {
    var after := Observed(sources, rows);
    forall i | 0 <= i < |sources|
      ensures SourceIsAccepted(after[i], rows, rules) <==> SourceIsReady(sources[i], rows, rules)
      ensures after[i].location == sources[i].location
    {
      SourceReadiness(sources[i], rows, rules);
    }
    forall category ensures HasCategory(after, category) <==> HasCategory(sources, category) {
      CategoriesAsBefore(category, sources, rows);
    }
    forall i | 0 <= i < |rows| ensures RowIsBound(rows[i], after) <==> RowIsBound(rows[i], sources) {
      RowBoundAsBefore(rows[i], sources, rows);
    }
    hide SourceIsAccepted, SourceIsReady, RowIsBound, Observed, HasCategory, Bound;
  }

  lemma RowBoundAsBefore(row: Row, sources: seq<Source>, rows: seq<Row>)
    ensures RowIsBound(row, Observed(sources, rows)) <==> RowIsBound(row, sources)
  {
    forall i | 0 <= i < |row.references|
      ensures Bound(row.references[i], row.id, Observed(sources, rows)) <==> Bound(row.references[i], row.id, sources)
    {
      BoundAsBefore(row.references[i], row.id, sources, rows);
    }
  }

  /** The rows a run ends with: every probe's marks, then the shared cleanup flag. */
  function FinalRows(marks: seq<Mark>, version: string, rules: Rules): (rows: seq<Row>)
    ensures Ordered(rows)
  {
    Verified(RunMarks(Templates(rules, version), marks, rules), true)
  }

  lemma FinalRow(marks: seq<Mark>, version: string, rules: Rules, id: nat)
    requires 1 <= id <= REQUIRED && RunIsClean(marks, rules)
    ensures var row := FinalRows(marks, version, rules)[id - 1];
            && row == RowAfter(Template(id, rules, version), MarksOf(id, marks), rules).(cleanupVerified := true)
            && row.version == version
  {
    RowsAreIndependent(Templates(rules, version), marks, rules, id);
    RowKeepsIdentity(Template(id, rules, version), MarksOf(id, marks), rules);
  }

  lemma FirstPass(rows: seq<Row>, id: nat)
    requires Ordered(rows) && 1 <= id <= REQUIRED
    ensures Passes(rows, id) <==> rows[id - 1].status == PASS
  {
    if rows[id - 1].status == PASS {
      assert rows[id - 1].id == id;
    }
  }

  predicate ProbesAreReady(marks: seq<Mark>, sources: seq<Source>, rules: Rules)
    requires RunIsClean(marks, rules)
  {
    forall id: nat ::
      1 <= id <= REQUIRED ==> ProbeIsReady(id, marks, sources, rules)
  }

  lemma SummaryOfProducer(rows: seq<Row>, version: string, generatedAt: string, sources: seq<Source>, rules: Rules)
    requires forall i :: 0 <= i < |rows| ==> rows[i].version == version
    ensures SummaryIsAccepted(MakeMatrix(rows, version, generatedAt, sources, rules), Some(version), rules)
            <==> rules.instant(generatedAt)
  {
    var matrix := MakeMatrix(rows, version, generatedAt, sources, rules);
    assert matrix.(summary := matrix.summary.(sha := "")) == Matrix(
        rows, Observed(sources, rows),
        Summary(Count(rows, DEFER), Count(rows, FAIL), generatedAt, HARNESS_VERSION, "",
                Conclude(Count(rows, FAIL), Count(rows, DEFER)), Count(rows, PASS), version, |rows|));
  }

  /**
    The producer meets the validator, whose checks were written independently: the
    matrix of a completed run is accepted exactly when every required capability
    has been marked and its last mark is presentable, sourced and compatible with
    its decision. Row order, counts, references, conclusion and digest never fail.
    */
  lemma ProducerMeetsValidator(
      marks: seq<Mark>, version: string, generatedAt: string, sources: seq<Source>, rules: Rules)
    requires RunIsClean(marks, rules) && !Blank(version)
    requires forall id: nat :: 1 <= id <= REQUIRED ==> !Blank(rules.names(id))
    ensures var rows := FinalRows(marks, version, rules);
            var matrix := MakeMatrix(rows, version, generatedAt, sources, rules);
            Accepted(matrix, Some(version), rules) <==>
              && ProbesAreReady(marks, sources, rules)
              && SourcesAreReady(sources, rows, rules)
              && rules.instant(generatedAt) && rules.secretFree(matrix)
  {
    var rows := FinalRows(marks, version, rules);
    var matrix := MakeMatrix(rows, version, generatedAt, sources, rules);
    hide RowAfter, RunMarks, FinalRows, MarksOf, ProbeIsReady, RowIsAccepted, RowIsBound, Observed, Bound, Blank;
    forall i | 0 <= i < |rows| ensures rows[i].version == version {
      FinalRow(marks, version, rules, i + 1);
    }
    SummaryOfProducer(rows, version, generatedAt, sources, rules);
    SourceReadinessOfAll(sources, rows, rules);
    FirstPass(rows, 1);
    FirstPass(rows, 2);
    FirstPass(rows, 36);
    hide SourcesAreAccepted, SourcesAreReady, SummaryIsAccepted, Passes;
    assert IdsAreAccepted(rows);
    RowsMeetProbes(marks, version, sources, rules);
  }

  predicate RowsAreReady(rows: seq<Row>, sources: seq<Source>, rules: Rules) {
    && (forall i :: 0 <= i < |rows| ==> RowIsAccepted(rows[i], i, rules))
    && (forall i :: 0 <= i < |rows| ==> RowIsBound(rows[i], sources))
    && (forall i :: 0 <= i < |rows| && i + 1 in {1, 2, 36} ==> rows[i].status == PASS)
  }

  lemma RowsMeetProbes(marks: seq<Mark>, version: string, sources: seq<Source>, rules: Rules)
    requires RunIsClean(marks, rules) && !Blank(version)
    requires forall id: nat :: 1 <= id <= REQUIRED ==> !Blank(rules.names(id))
    ensures RowsAreReady(FinalRows(marks, version, rules), sources, rules)
            <==> ProbesAreReady(marks, sources, rules)
  {
    var rows := FinalRows(marks, version, rules);
    hide RowAfter, RunMarks, FinalRows, MarksOf, ProbeIsReady, RowIsAccepted, RowIsBound, Blank;
    if RowsAreReady(rows, sources, rules) {
      forall id: nat | 1 <= id <= REQUIRED ensures ProbeIsReady(id, marks, sources, rules) {
        FinalRow(marks, version, rules, id);
        RowIsReady(id, marks, version, sources, rules);
      }
    }
    if ProbesAreReady(marks, sources, rules) {
      forall i | 0 <= i < |rows|
        ensures RowIsAccepted(rows[i], i, rules) && RowIsBound(rows[i], sources)
        ensures i + 1 in {1, 2, 36} ==> rows[i].status == PASS
      {
        FinalRow(marks, version, rules, i + 1);
        RowIsReady(i + 1, marks, version, sources, rules);
      }
    }
  }

  /** A capability marked once keeps its template's decision unless the mark replaces it. */
  lemma MarkedOnce(id: nat, marks: seq<Mark>, mark: Mark, sources: seq<Source>, rules: Rules)
    requires RunIsClean(marks, rules) && mark in marks && MarksOf(id, marks) == [mark]
    ensures ProbeIsReady(id, marks, sources, rules) <==>
              && MarkIsPresentable(mark) && MarkIsSourced(mark, rules, sources)
              && (mark.availability.Some? ==> !mark.availability.value.OtherAvailability?)
              && (mark.plane.Some? ==> !mark.plane.value.OtherPlane?)
              && (id == 32 <==> mark.plane == Some(OFFLINE_REPOSITORY))
              && (mark.status == PASS && mark.decision.Some? ==> mark.decision.value in {USE, USE_WITH_GUARD})
              && (id in {1, 2, 36} ==> mark.status == PASS)
  {
    LastOfOne(Decisions([mark]));
    LastOfOne(Planes([mark]));
    LastOfOne(Availabilities([mark]));
    hide MarkIsPresentable, MarkIsSourced, LastSome, MarksOf;
  }

  lemma LastOfOne<T>(given: seq<Option<T>>)
    requires |given| == 1
    ensures LastSome(given) == given[0]
  {
    assert given[..0] == [];
  }

  /** A pass that makes no decision of its own. */
  predicate BarePass(mark: Mark) {
    mark.status == PASS && mark.decision == None
  }

  predicate PassForUse(mark: Mark) {
    mark.status == PASS && mark.decision in {Some(USE), Some(USE_WITH_GUARD)}
  }

  /**
    When a last pass goes with the decision that stands: exactly if nothing but
    bare passes was recorded, or the last mark that is no bare pass is a pass for
    use, with a guard or without.
    */
  lemma DecisionFitsExactly(mine: seq<Mark>, rules: Rules)
    requires RunIsClean(mine, rules) && mine != [] && mine[|mine| - 1].status == PASS
    ensures DecisionFits(mine) <==>
              || (forall i :: 0 <= i < |mine| ==> BarePass(mine[i]))
              || exists i :: 0 <= i < |mine| && PassForUse(mine[i]) && forall j :: i < j < |mine| ==> BarePass(mine[j])
  {
    var given := Decisions(mine);
    LastSomeIsLast(given);
    assert forall i :: 0 <= i < |mine| ==> Verdict(mine[i], rules) == Marked;
    assert forall i :: 0 <= i < |mine| ==> (given[i].None? <==> BarePass(mine[i]));
    hide LastSome, Verdict, RunIsClean;
    if LastSome(given).Some? {
      var k :| 0 <= k < |given| && given[k] == LastSome(given) && forall j :: k < j < |given| ==> given[j].None?;
      assert given[k] in {Some(USE), Some(USE_WITH_GUARD)} <==> PassForUse(mine[k]);
      forall i | 0 <= i < |mine| && PassForUse(mine[i]) && forall j :: i < j < |mine| ==> BarePass(mine[j])
        ensures i == k
      {
        assert given[i].Some?;
      }
    }
  }

  /**
    The recorder keeps the decision that stands, so a failure or a deferral that is
    followed by bare passes only is refused, however many there are.
    */
  lemma PassKeepsOldDecision(id: nat, marks: seq<Mark>, k: nat, sources: seq<Source>, rules: Rules)
    requires RunIsClean(marks, rules)
    requires k + 1 < |MarksOf(id, marks)| && MarksOf(id, marks)[k].status in {FAIL, DEFER}
    requires forall j :: k < j < |MarksOf(id, marks)| ==> BarePass(MarksOf(id, marks)[j])
    ensures !ProbeIsReady(id, marks, sources, rules)
  {
    OldDecisionStands(MarksOf(id, marks), k, rules);
    hide DecisionFits, MarksOf, MarkIsSourced, MarkIsPresentable, LastSome;
  }

  lemma OldDecisionStands(mine: seq<Mark>, k: nat, rules: Rules)
    requires RunIsClean(mine, rules) && k + 1 < |mine| && mine[k].status in {FAIL, DEFER}
    requires forall j :: k < j < |mine| ==> BarePass(mine[j])
    ensures !DecisionFits(mine)
  {
    assert BarePass(mine[|mine| - 1]);
    DecisionFitsExactly(mine, rules);
    hide DecisionFits, LastSome, RunIsClean;
    assert !BarePass(mine[k]) && !PassForUse(mine[k]);
  }

  /** With a collision-free digest, a published digest pins the whole matrix. */
  lemma DigestPinsMatrix(a: Matrix, b: Matrix, pin: Option<string>, rules: Rules)
    requires forall x, y :: rules.digest(x) == rules.digest(y) ==> x == y
    requires Accepted(a, pin, rules) && Accepted(b, pin, rules) && a.summary.sha == b.summary.sha
    ensures a == b
  {
    var x, y := a.(summary := a.summary.(sha := "")), b.(summary := b.summary.(sha := ""));
    assert rules.digest(x) == rules.digest(y);
    assert x.rows == y.rows && x.sources == y.sources && x.summary == y.summary;
  }

  // ----- what a matrix concludes -----

  function Positions(rows: seq<Row>, status: Status, n: nat): set<int>
    requires n <= |rows|
  {
    set i | 0 <= i < n && rows[i].status == status
  }

  lemma OnePositionMore(rows: seq<Row>, status: Status, n: nat)
    requires n < |rows|
    ensures |Positions(rows, status, n + 1)| == |Positions(rows, status, n)| + if rows[n].status == status then 1 else 0
  {
    var before, after := Positions(rows, status, n), Positions(rows, status, n + 1);
    var hit := rows[n].status == status;
    assert n !in before;
    assert forall i :: i in after <==> i in before || (i == n && hit);
    hide Positions;
    assert after == if hit then before + {n} else before;
  }

  lemma {:induction false} CountUpTo(rows: seq<Row>, status: Status, n: nat)
    requires n <= |rows|
    ensures Count(rows[..n], status) == |Positions(rows, status, n)|
  {
    if n > 0 {
      CountUpTo(rows, status, n - 1);
      OnePositionMore(rows, status, n - 1);
      CountAppends(rows[..n - 1], rows[n - 1], status);
      hide Count, Positions;
      assert rows[..n] == rows[..n - 1] + [rows[n - 1]];
    }
  }

  lemma CountIsPositions(rows: seq<Row>, status: Status)
    ensures Count(rows, status) == |Positions(rows, status, |rows|)|
  {
    CountUpTo(rows, status, |rows|);
    assert rows[..|rows|] == rows;
  }

  lemma {:induction false} CountAppends(rows: seq<Row>, row: Row, status: Status)
    ensures Count(rows + [row], status) == Count(rows, status) + if row.status == status then 1 else 0
    decreases |rows|
  {
    if rows != [] {
      assert (rows + [row])[1..] == rows[1..] + [row];
      CountAppends(rows[1..], row, status);
    }
  }

  predicate SomeRow(rows: seq<Row>, status: Status) {
    exists i :: 0 <= i < |rows| && rows[i].status == status
  }

  lemma CountsSomeRow(rows: seq<Row>, status: Status)
    ensures Count(rows, status) > 0 <==> SomeRow(rows, status)
  {
    var positions := Positions(rows, status, |rows|);
    CountIsPositions(rows, status);
    if SomeRow(rows, status) {
      var i :| 0 <= i < |rows| && rows[i].status == status;
      assert i in positions;
    }
    if !SomeRow(rows, status) {
      assert positions == {};
    }
  }

  /** What the producer concludes, over its rows: limitations exactly if some probe
      failed, deferred items exactly if none failed but some was deferred, and otherwise
      a validated design; and its counts are the numbers of such rows. */
  lemma ConclusionIsExact(
      rows: seq<Row>, version: string, generatedAt: string, sources: seq<Source>, rules: Rules)
    ensures var summary := MakeMatrix(rows, version, generatedAt, sources, rules).summary;
            && (summary.overall == ExplicitLimitations <==> SomeRow(rows, FAIL))
            && (summary.overall == ExplicitDeferredItems <==> !SomeRow(rows, FAIL) && SomeRow(rows, DEFER))
            && (summary.overall == Validated <==> !SomeRow(rows, FAIL) && !SomeRow(rows, DEFER))
            && summary.passCount == |Positions(rows, PASS, |rows|)|
            && summary.failCount == |Positions(rows, FAIL, |rows|)|
            && summary.deferCount == |Positions(rows, DEFER, |rows|)|
  {
    CountIsPositions(rows, PASS);
    CountIsPositions(rows, FAIL);
    CountIsPositions(rows, DEFER);
    CountsSomeRow(rows, FAIL);
    CountsSomeRow(rows, DEFER);
    hide Count, Positions, SomeRow;
  }

  /** What a source is said to be: contradicted exactly if some row it maps failed,
      confirmed exactly if it maps rows and all of them passed, and open otherwise. */
  lemma ObservationIsExact(source: Source, rows: seq<Row>)
    ensures var after := Observe(source, rows);
            && (after.matched == Some(false) <==>
                  exists i :: 0 <= i < |rows| && rows[i].id in source.ids && rows[i].status == FAIL)
            && (after.matched == Some(true) <==>
                  && (exists i :: 0 <= i < |rows| && rows[i].id in source.ids)
                  && forall i :: 0 <= i < |rows| && rows[i].id in source.ids ==> rows[i].status == PASS)
            && after.(matched := source.matched, discrepancy := source.discrepancy) == source
            && (after.discrepancy != source.discrepancy ==> after.matched == Some(false))
  {
    if AllPass(source, rows) {
      assert !Maps(source, rows, FAIL);
    }
  }

  /** The validator accepts nothing that the producer could not have made: an accepted
      matrix is the one made from its own rows and sources, but for what the sources
      are said to be, and its digest is over itself. Its rows are in order, refer to
      themselves, are cleaned up and agree with their decisions. */
  lemma AcceptedIsProduced(matrix: Matrix, pin: Option<string>, rules: Rules)
    requires Accepted(matrix, pin, rules)
    ensures var made := MakeMatrix(matrix.rows, matrix.summary.version, matrix.summary.generatedAt, matrix.sources, rules);
            matrix.summary == made.summary.(sha := MatrixDigest(matrix, rules)) && matrix.rows == made.rows
    ensures forall i :: 0 <= i < |matrix.rows| ==>
              var row := matrix.rows[i];
              && row.evidence == Some(i) && row.cleanupVerified && !Blank(row.observed)
              && (row.status == FAIL ==> row.decision == DO_NOT_USE)
              && (row.status == DEFER ==> row.decision == DEFERRED)
              && (row.status == PASS ==> row.decision in {USE, USE_WITH_GUARD})
              && (i < REQUIRED ==> row.id == i + 1 && row.name == rules.names(i + 1))
              && (i > 0 ==> matrix.rows[i - 1].id < row.id)
              && (pin.Some? ==> row.version == pin.value == matrix.summary.version)
    ensures matrix.rows[0].status == matrix.rows[1].status == matrix.rows[35].status == PASS
  {
    PassStands(matrix.rows, 1);
    PassStands(matrix.rows, 2);
    PassStands(matrix.rows, 36);
    hide Count, MatrixDigest, SourcesAreAccepted, Passes;
  }

  lemma PassStands(rows: seq<Row>, id: nat)
    requires IdsAreAccepted(rows) && Passes(rows, id) && 1 <= id <= REQUIRED
    ensures rows[id - 1].status == PASS
  {
    var i :| 0 <= i < |rows| && rows[i].id == id && rows[i].status == PASS;
    assert rows[id - 1].id == id;
  }

  // ----- the loops of the producer and of the validator -----

  method ObserveSources(sources: seq<Source>, rows: seq<Row>) returns (after: seq<Source>)
    requires Ordered(rows)
    ensures after == Observed(sources, rows)
  {
    after := sources;
    for i := 0 to |sources|
      invariant |after| == |sources| && after[i..] == sources[i..]
      invariant forall j :: 0 <= j < i ==> after[j] == Observe(sources[j], rows)
    {
      var source := after[i];
      assert source == sources[i];
      var statuses := set k | 0 <= k < |source.ids| && 1 <= source.ids[k] <= REQUIRED :: rows[source.ids[k] - 1].status;
      StatusesAreMapped(source, rows, statuses);
      if FAIL in statuses {
        source := source.(matched := Some(false), discrepancy := Some(FAILED_PROBE));
      } else if statuses == {PASS} {
        source := source.(matched := Some(true));
      } else {
        source := source.(matched := None);
      }
      after := after[i := source];
    }
  }

  lemma StatusesAreMapped(source: Source, rows: seq<Row>, statuses: set<Status>)
    requires Ordered(rows)
    requires statuses ==
             set k | 0 <= k < |source.ids| && 1 <= source.ids[k] <= REQUIRED :: rows[source.ids[k] - 1].status
    ensures forall status :: status in statuses <==> Maps(source, rows, status)
    ensures statuses == {PASS} <==> AllPass(source, rows)
  {
    forall status ensures status in statuses <==> Maps(source, rows, status) {
      if Maps(source, rows, status) {
        var i :| 0 <= i < |rows| && rows[i].id in source.ids && rows[i].status == status;
        var k :| 0 <= k < |source.ids| && source.ids[k] == rows[i].id;
      }
    }
    if AllPass(source, rows) {
      assert PASS in statuses;
      forall status | status in statuses ensures status == PASS {
        var i :| 0 <= i < |rows| && rows[i].id in source.ids && rows[i].status == status;
      }
    }
    if statuses == {PASS} {
      forall i | 0 <= i < |rows| && rows[i].id in source.ids ensures rows[i].status == PASS {
        assert Maps(source, rows, rows[i].status);
      }
    }
  }

  /** The first `n` sources as the validator has indexed them by location. */
  ghost predicate Indexes(locations: map<string, seq<nat>>, sources: seq<Source>, n: nat)
    requires n <= |sources|
  {
    && (forall j :: 0 <= j < n ==> sources[j].location in locations && locations[sources[j].location] == sources[j].ids)
    && (forall location :: location in locations ==> exists j :: 0 <= j < n && sources[j].location == location)
  }

  method IndexSources(sources: seq<Source>, rows: seq<Row>, rules: Rules)
    returns (accepted: bool, locations: map<string, seq<nat>>)
    ensures accepted <==>
              && (forall i :: 0 <= i < |sources| ==> SourceIsAccepted(sources[i], rows, rules))
              && (forall i, j :: 0 <= i < j < |sources| ==> sources[i].location != sources[j].location)
    ensures accepted ==> Indexes(locations, sources, |sources|)
  {
    locations := map[];
    hide SourceIsAccepted;
    for i := 0 to |sources|
      invariant forall j :: 0 <= j < i ==> SourceIsAccepted(sources[j], rows, rules)
      invariant Indexes(locations, sources, i)
      invariant forall j, k :: 0 <= j < k < i ==> sources[j].location != sources[k].location
    {
      var source := sources[i];
      if !SourceIsAccepted(source, rows, rules) || source.location in locations {
        return false, locations;
      }
      locations := locations[source.location := source.ids];
    }
    return true, locations;
  }

  method ValidateBinding(row: Row, locations: map<string, seq<nat>>, sources: seq<Source>) returns (accepted: bool)
    requires Indexes(locations, sources, |sources|)
    requires forall i, j :: 0 <= i < j < |sources| ==> sources[i].location != sources[j].location
    ensures accepted <==> RowIsBound(row, sources)
  {
    if row.references == [] {
      return false;
    }
    for k := 0 to |row.references|
      invariant forall j :: 0 <= j < k ==> Bound(row.references[j], row.id, sources)
    {
      var reference := row.references[k];
      if reference !in locations || row.id !in locations[reference] {
        assert !Bound(reference, row.id, sources);
        return false;
      }
    }
    return true;
  }

  method ValidateSources(sources: seq<Source>, rows: seq<Row>, rules: Rules) returns (accepted: bool)
    ensures accepted <==> SourcesAreAccepted(sources, rows, rules)
  {
    if sources == [] {
      return false;
    }
    var indexed, locations := IndexSources(sources, rows, rules);
    hide SourceIsAccepted, Indexes, RowIsBound;
    if !indexed {
      return false;
    }
    var categories := set i | 0 <= i < |sources| :: sources[i].category;
    forall category ensures category in categories <==> HasCategory(sources, category) {}
    if !(rules.categories <= categories) {
      var missing :| missing in rules.categories && missing !in categories;
      assert !HasCategory(sources, missing);
      return false;
    }
    for i := 0 to |rows|
      invariant forall j :: 0 <= j < i ==> RowIsBound(rows[j], sources)
    {
      var bound := ValidateBinding(rows[i], locations, sources);
      if !bound {
        return false;
      }
    }
    return true;
  }

  method ValidateRows(rows: seq<Row>, rules: Rules) returns (accepted: bool, ids: seq<nat>)
    ensures accepted <==> forall i :: 0 <= i < |rows| ==> RowIsAccepted(rows[i], i, rules)
    ensures accepted ==> |ids| == |rows| && forall i :: 0 <= i < |rows| ==> ids[i] == rows[i].id
  {
    ids := [];
    hide RowIsAccepted;
    for i := 0 to |rows|
      invariant forall j :: 0 <= j < i ==> RowIsAccepted(rows[j], j, rules)
      invariant |ids| == i && forall j :: 0 <= j < i ==> ids[j] == rows[j].id
    {
      if !RowIsAccepted(rows[i], i, rules) {
        return false, ids;
      }
      ids := ids + [rows[i].id];
    }
    return true, ids;
  }

  /** Required identifiers first, none twice, all in order. */
  method ValidateIds(ids: seq<nat>, rows: seq<Row>) returns (accepted: bool)
    requires |ids| == |rows| && forall i :: 0 <= i < |rows| ==> ids[i] == rows[i].id
    ensures accepted <==> IdsAreAccepted(rows)
  {
    var required := seq(REQUIRED, i requires 0 <= i < REQUIRED => i + 1);
    var first := ids[..if |ids| < REQUIRED then |ids| else REQUIRED];
    assert IdsAreAccepted(rows) ==> first == required;
    if first != required {
      return false;
    }
    assert forall i :: 0 <= i < REQUIRED ==> ids[i] == first[i] == required[i];
    DistinctCount(ids);
    if |Distinct(ids)| != |ids| {
      return false;
    }
    for i := 1 to |ids|
      invariant forall j, k :: 0 <= j < k < i ==> ids[j] < ids[k]
    {
      assert ids[i - 1] != ids[i];
      if ids[i] < ids[i - 1] {
        return false;
      }
    }
    return true;
  }

  method CountStatus(rows: seq<Row>, status: Status) returns (count: nat)
    ensures count == Count(rows, status)
  {
    count := 0;
    for i := 0 to |rows|
      invariant count + Count(rows[i..], status) == Count(rows, status)
    {
      assert rows[i..][1..] == rows[i + 1..];
      if rows[i].status == status {
        count := count + 1;
      }
    }
  }

  /** Whether the first row of a capability is a pass. */
  method FirstRowPasses(rows: seq<Row>, id: nat) returns (passes: bool)
    ensures passes <==> Passes(rows, id)
  {
    for i := 0 to |rows|
      invariant forall j :: 0 <= j < i ==> rows[j].id != id
    {
      if rows[i].id == id {
        return rows[i].status == PASS;
      }
    }
    return false;
  }

  method ValidateSummary(matrix: Matrix, pin: Option<string>, rules: Rules) returns (accepted: bool)
    ensures accepted <==> SummaryIsAccepted(matrix, pin, rules)
  {
    var summary, rows := matrix.summary, matrix.rows;
    var passes := CountStatus(rows, PASS);
    var failures := CountStatus(rows, FAIL);
    var deferrals := CountStatus(rows, DEFER);
    if summary.total != |rows| || summary.harness != HARNESS_VERSION {
      return false;
    }
    if summary.passCount != passes || summary.failCount != failures || summary.deferCount != deferrals {
      return false;
    }
    if summary.sha != MatrixDigest(matrix, rules) {
      return false;
    }
    if pin.Some? {
      if summary.version != pin.value || exists i :: 0 <= i < |rows| && rows[i].version != pin.value {
        return false;
      }
    }
    return summary.overall == Conclude(failures, deferrals) && rules.instant(summary.generatedAt);
  }

  method ValidateMatrix(matrix: Matrix, pin: Option<string>, rules: Rules) returns (accepted: bool)
    ensures accepted <==> Accepted(matrix, pin, rules)
  {
    hide RowIsAccepted, IdsAreAccepted, SummaryIsAccepted, Passes, SourcesAreAccepted;
    var rowsAccepted, ids := ValidateRows(matrix.rows, rules);
    if !rowsAccepted {
      return false;
    }
    var idsAccepted := ValidateIds(ids, matrix.rows);
    var summaryAccepted := ValidateSummary(matrix, pin, rules);
    if !idsAccepted || !summaryAccepted {
      return false;
    }
    for k := 0 to 3
      invariant forall j :: 0 <= j < k ==> Passes(matrix.rows, [1, 2, 36][j])
    {
      var passes := FirstRowPasses(matrix.rows, [1, 2, 36][k]);
      if !passes {
        return false;
      }
    }
    assert Passes(matrix.rows, [1, 2, 36][0]) && Passes(matrix.rows, [1, 2, 36][1]) && Passes(matrix.rows, [1, 2, 36][2]);
    accepted := ValidateSources(matrix.sources, matrix.rows, rules);
    accepted := accepted && rules.secretFree(matrix);
  }
}
