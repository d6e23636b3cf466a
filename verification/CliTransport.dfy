/** The interactive transport: statements and their answers share one stream that a
    reader thread copies into a queue, and a marker row closes each answer. */
module CliTransport {
  import opened SqlRendering

  datatype Option<+T> = None | Some(value: T)

  type Cells = seq<string>
  datatype Item = Row(cells: Cells) | EndOfStream

  /** A decoded cell: absent for SQL NULL. */
  type Cell = Option<string>
  type Record = map<string, Cell>

  datatype Failure =
    | Closed
    | Rejected(error: Error)   // the statement could not be rendered
    | BrokenPipe
    | Timeout
    | TransactionFailed
    | ProtocolMismatch
  datatype Outcome = Rows(rows: seq<Record>) | Failed(reason: Failure)

  function DecodeCell(value: string): Cell {
    if value == "NULL" then None else Some(value)
  }

  predicate Distinct(header: Cells) {
    forall i, j :: 0 <= i < j < |header| ==> header[i] != header[j]
  }

  predicate ValidHeader(header: Cells) {
    header != [] && Distinct(header)
  }

  function Decode(header: Cells, row: Cells): Record
    requires |header| == |row|
  {
    if header == [] then map[]
    else Decode(header[..|header| - 1], row[..|row| - 1])[header[|header| - 1] := DecodeCell(row[|row| - 1])]
  }

  function MarkerColumn(marker: string): string {
    "__" + marker
  }

  // ----- the protocol on the stream as a whole -----

  /** What a reader of `items` makes of the next answer, and what it leaves unread. */
  function Frame(items: seq<Item>, marker: string, header: Option<Cells>, values: seq<Record>): (Outcome, seq<Item>)
    decreases |items|
  {
    if items == [] then (Failed(Timeout), [])
    else match items[0]
      case EndOfStream => (Failed(TransactionFailed), items[1..])
      case Row(cells) =>
        if cells == [MarkerColumn(marker)] then
          if |items| == 1 then (Failed(Timeout), [])
          else if items[1] == EndOfStream then (Failed(TransactionFailed), items[2..])
          else if items[1] != Row([marker]) then (Failed(ProtocolMismatch), items[2..])
          else (Rows(values), items[2..])
        else match header
          case None =>
            if ValidHeader(cells) then Frame(items[1..], marker, Some(cells), values)
            else (Failed(ProtocolMismatch), items[1..])
          case Some(h) =>
            if |cells| == |h| then Frame(items[1..], marker, header, values + [Decode(h, cells)])
            else (Failed(ProtocolMismatch), items[1..])
  }

  /** One connection.  `queue` is what the reader thread has handed over, `pipe` what
      the child has written beyond that.  Before the n-th read the thread hands over
      `handovers(n)` more rows, and `late(n)` says whether the deadline has passed. */
  class Connection {
    var queue: seq<Item>
    var pipe: seq<Item>
    var closed: bool
    var alive: bool
    var gets: nat
    const handovers: nat -> nat
    const late: nat -> bool

    constructor (handovers: nat -> nat, late: nat -> bool)
      ensures Unread() == [] && !closed && alive
      ensures this.handovers == handovers && this.late == late
    {
      queue, pipe, closed, alive, gets := [], [], false, true, 0;
      this.handovers, this.late := handovers, late;
    }

    function Unread(): seq<Item>
      reads this
    {
      queue + pipe
    }

    /** The reader thread hands something over before every deadline. */
    ghost predicate Prompt() {
      forall n: nat :: handovers(n) > 0 && !late(n)
    }

    /** The blocking read under a deadline; a missed deadline ends the child. */
    method NextItem() returns (item: Option<Item>)
      modifies this
      ensures closed == old(closed)
      ensures item.None? ==> !alive && Unread() == old(Unread())
      ensures item.None? && Prompt() ==> Unread() == []
      ensures item.Some? ==> alive == old(alive) && old(Unread()) == [item.value] + Unread()
    {
      var n := if handovers(gets) < |pipe| then handovers(gets) else |pipe|;
      queue, pipe := queue + pipe[..n], pipe[n..];
      assert Unread() == old(Unread());
      var expired := late(gets);
      gets := gets + 1;
      if expired || queue == [] {
        alive := false;
        return None;
      }
      item := Some(queue[0]);
      queue := queue[1..];
    }

    /** Send a statement and read its answer.  `written` is false if the pipe breaks;
        `answer` is whatever the child will write for this command. */
    method Execute(sql: string, parameters: seq<Value>, marker: string, written: bool, answer: seq<Item>)
      returns (outcome: Outcome)
      modifies this
      ensures closed == old(closed)
      ensures old(closed) || !old(alive) ==>
                outcome == Failed(Closed) && Unread() == old(Unread()) && alive == old(alive)
      ensures !old(closed) && old(alive) && Render(sql, parameters).Err? ==>
                outcome == Failed(Rejected(Render(sql, parameters).error)) && Unread() == old(Unread()) && alive
      ensures !old(closed) && old(alive) && Render(sql, parameters).Ok? && !written ==>
                outcome == Failed(BrokenPipe) && Unread() == old(Unread()) && alive
      ensures !old(closed) && old(alive) && Render(sql, parameters).Ok? && written ==>
                if outcome == Failed(Timeout) then !alive
                else alive && (outcome, Unread()) == Frame(old(Unread()) + answer, marker, None, [])
      ensures !old(closed) && old(alive) && Render(sql, parameters).Ok? && written && Prompt() ==>
                (outcome, Unread()) == Frame(old(Unread()) + answer, marker, None, [])
    {
      if closed || !alive { return Failed(Closed); }
      var rendered := RenderSql(sql, parameters);
      if rendered.Err? { return Failed(Rejected(rendered.error)); }
      if !written { return Failed(BrokenPipe); }
      pipe := pipe + answer;
      ghost var stream := old(Unread()) + answer;
      assert Unread() == stream;
      var header: Option<Cells> := None;
      var values: seq<Record> := [];
      while true
        invariant alive && closed == old(closed)
        invariant Frame(Unread(), marker, header, values) == Frame(stream, marker, None, [])
        decreases |Unread()|
      {
        ghost var before := Unread();
        var item := NextItem();
        if item.None? { return Failed(Timeout); }
        assert before[0] == item.value && before[1..] == Unread();
        if item.value.EndOfStream? { return Failed(TransactionFailed); }
        var row := item.value.cells;
        if row == [MarkerColumn(marker)] {
          ghost var tail := Unread();
          var terminal := NextItem();
          if terminal.None? { return Failed(Timeout); }
          assert before[1] == tail[0] == terminal.value && before[2..] == tail[1..] == Unread();
          if terminal.value.EndOfStream? { return Failed(TransactionFailed); }
          if terminal.value.cells != [marker] { return Failed(ProtocolMismatch); }
          return Rows(values);
        }
        match header {
          case None =>
            header := Some(row);
            if !ValidHeader(row) { return Failed(ProtocolMismatch); }
          case Some(h) =>
            if |row| != |h| { return Failed(ProtocolMismatch); }
            values := values + [Decode(h, row)];
        }
      }
    }
  }

  // ----- answers and frame boundaries -----

  predicate WellFormed(body: seq<Cells>) {
    body != [] ==> ValidHeader(body[0]) && forall i :: 0 < i < |body| ==> |body[i]| == |body[0]|
  }

  /** The records of a well-formed answer: one for each row after the header. */
  function Table(body: seq<Cells>): (t: seq<Record>)
    requires WellFormed(body)
    ensures |t| == if body == [] then 0 else |body| - 1
    ensures forall i :: 0 <= i < |t| ==> t[i] == Decode(body[0], body[i + 1])
  {
    if body == [] then [] else seq(|body| - 1, i requires 0 <= i < |body| - 1 => Decode(body[0], body[i + 1]))
  }

  function AsItems(body: seq<Cells>): (items: seq<Item>)
    ensures |items| == |body| && forall i :: 0 <= i < |body| ==> items[i] == Row(body[i])
  {
    seq(|body|, i requires 0 <= i < |body| => Row(body[i]))
  }

  function MarkerRows(marker: string): seq<Item> {
    [Row([MarkerColumn(marker)]), Row([marker])]
  }

  function Answer(body: seq<Cells>, marker: string): seq<Item> {
    AsItems(body) + MarkerRows(marker)
  }

  predicate Fresh(marker: string, body: seq<Cells>) {
    [MarkerColumn(marker)] !in body
  }

  lemma {:induction false} DataRows(body: seq<Cells>, marker: string, h: Cells, values: seq<Record>, tail: seq<Item>)
    requires Fresh(marker, body) && forall i :: 0 <= i < |body| ==> |body[i]| == |h|
    ensures Frame(AsItems(body) + tail, marker, Some(h), values)
            == Frame(tail, marker, Some(h), values + seq(|body|, i requires 0 <= i < |body| => Decode(h, body[i])))
    decreases |body|
  {
    var items := AsItems(body) + tail;
    if body == [] {
      assert items == tail;
      assert values + [] == values;
    } else {
      assert items[0] == Row(body[0]) && body[0] in body;
      assert items[1..] == AsItems(body[1..]) + tail;
      DataRows(body[1..], marker, h, values + [Decode(h, body[0])], tail);
      var all := seq(|body|, i requires 0 <= i < |body| => Decode(h, body[i]));
      var others := seq(|body[1..]|, i requires 0 <= i < |body[1..]| => Decode(h, body[1..][i]));
      assert values + all == values + [Decode(h, body[0])] + others;
    }
  }

  function HeaderOf(body: seq<Cells>): Option<Cells> {
    if body == [] then None else Some(body[0])
  }

  /** Well-formed rows are taken one by one, whatever comes after them. */
  lemma RowsAreTaken(body: seq<Cells>, marker: string, tail: seq<Item>)
    requires WellFormed(body) && Fresh(marker, body)
    ensures Frame(AsItems(body) + tail, marker, None, []) == Frame(tail, marker, HeaderOf(body), Table(body))
  {
    var items := AsItems(body) + tail;
    if body == [] {
      assert items == tail;
    } else {
      assert items[0] == Row(body[0]) && body[0] in body;
      assert items[1..] == AsItems(body[1..]) + tail;
      DataRows(body[1..], marker, body[0], [], tail);
      var others := seq(|body[1..]|, i requires 0 <= i < |body[1..]| => Decode(body[0], body[1..][i]));
      assert [] + others == Table(body);
    }
  }

  /** An answer under a fresh marker yields exactly its own records and leaves the
      stream at the next frame boundary. */
  lemma AnswerInSync(body: seq<Cells>, marker: string, rest: seq<Item>)
    requires WellFormed(body) && Fresh(marker, body)
    ensures Frame(Answer(body, marker) + rest, marker, None, []) == (Rows(Table(body)), rest)
  {
    var tail := MarkerRows(marker) + rest;
    assert Answer(body, marker) + rest == AsItems(body) + tail;
    RowsAreTaken(body, marker, tail);
    assert tail[0] == Row([MarkerColumn(marker)]) && tail[1] == Row([marker]) && tail[2..] == rest;
  }

  /** A malformed answer is refused and at least its marker rows stay unread. */
  lemma {:induction false} MalformedAnswer(body: seq<Cells>, marker: string, header: Option<Cells>, values: seq<Record>)
    returns (rest: seq<Cells>)
    requires Fresh(marker, body)
    requires header.None? ==> !WellFormed(body)
    requires header.Some? ==> exists i :: 0 <= i < |body| && |body[i]| != |header.value|
    ensures Frame(Answer(body, marker), marker, header, values) == (Failed(ProtocolMismatch), Answer(rest, marker))
    ensures |rest| < |body| && forall c :: c in rest ==> c in body
    decreases |body|
  {
    var items := Answer(body, marker);
    assert items[0] == Row(body[0]) && body[0] in body;
    assert items[1..] == Answer(body[1..], marker);
    rest := body[1..];
    if header.None? {
      if ValidHeader(body[0]) {
        assert exists i :: 0 <= i < |body[1..]| && |body[1..][i]| != |body[0]| by {
          var i :| 0 < i < |body| && |body[i]| != |body[0]|;
          assert body[1..][i - 1] == body[i];
        }
        rest := MalformedAnswer(body[1..], marker, Some(body[0]), values);
      }
    } else if |body[0]| == |header.value| {
      assert exists i :: 0 <= i < |body[1..]| && |body[1..][i]| != |header.value| by {
        var i :| 0 <= i < |body| && |body[i]| != |header.value|;
        assert i > 0 && body[1..][i - 1] == body[i];
      }
      rest := MalformedAnswer(body[1..], marker, header, values + [Decode(header.value, body[0])]);
    }
  }

  // ----- arbitrary streams -----

  /** A row that cannot continue an answer with this header. */
  predicate Misfits(cells: Cells, header: Option<Cells>) {
    match header case None => !ValidHeader(cells) case Some(h) => |cells| != |h|
  }

  /** Where the rows of an answer come to an end. */
  predicate Stops(tail: seq<Item>, marker: string, header: Option<Cells>) {
    tail == [] || tail[0] == EndOfStream || tail[0] == Row([MarkerColumn(marker)]) || Misfits(tail[0].cells, header)
  }

  /** `items` starts with the well-formed rows `body`, none of them the marker's. */
  ghost predicate Begins(items: seq<Item>, body: seq<Cells>, marker: string, tail: seq<Item>) {
    WellFormed(body) && Fresh(marker, body) && items == AsItems(body) + tail
  }

  lemma {:induction false} MoreRows(items: seq<Item>, marker: string, h: Cells) returns (body: seq<Cells>, tail: seq<Item>)
    ensures items == AsItems(body) + tail && Fresh(marker, body)
    ensures forall i :: 0 <= i < |body| ==> |body[i]| == |h|
    ensures Stops(tail, marker, Some(h))
    decreases |items|
  {
    body, tail := [], items;
    if Stops(items, marker, Some(h)) {
      assert AsItems([]) + items == items;
    } else {
      var more, rest := MoreRows(items[1..], marker, h);
      body, tail := [items[0].cells] + more, rest;
      assert items == [items[0]] + items[1..];
      assert AsItems(body) == [items[0]] + AsItems(more);
    }
  }

  /** Every stream is well-formed rows up to where they stop. */
  lemma LongestAnswer(items: seq<Item>, marker: string) returns (body: seq<Cells>, tail: seq<Item>)
    ensures Begins(items, body, marker, tail) && Stops(tail, marker, HeaderOf(body))
  {
    body, tail := [], items;
    if Stops(items, marker, None) {
      assert AsItems([]) + items == items;
    } else {
      var more, rest := MoreRows(items[1..], marker, items[0].cells);
      body, tail := [items[0].cells] + more, rest;
      assert items == [items[0]] + items[1..];
      assert AsItems(body) == [items[0]] + AsItems(more);
    }
  }

  ghost predicate HasAnswer(items: seq<Item>, marker: string) {
    exists body, rest :: Begins(items, body, marker, MarkerRows(marker) + rest)
  }

  /** The stream ends inside an answer: among its rows, or between the marker rows. */
  ghost predicate BreaksOff(items: seq<Item>, marker: string) {
    || (exists body, rest :: Begins(items, body, marker, [EndOfStream] + rest))
    || (exists body, rest :: Begins(items, body, marker, [Row([MarkerColumn(marker)]), EndOfStream] + rest))
  }

  /** Nothing but the beginning of an answer has arrived. */
  ghost predicate IsUnfinished(items: seq<Item>, marker: string) {
    || (exists body :: Begins(items, body, marker, []))
    || (exists body :: Begins(items, body, marker, [Row([MarkerColumn(marker)])]))
  }

  /** A row that does not fit, or another value under the marker's column. */
  ghost predicate IsMalformed(items: seq<Item>, marker: string) {
    || (exists body, cells, rest :: Begins(items, body, marker, [Row(cells)] + rest)
          && cells != [MarkerColumn(marker)] && Misfits(cells, HeaderOf(body)))
    || (exists body, cells, rest :: Begins(items, body, marker, [Row([MarkerColumn(marker)]), Row(cells)] + rest)
          && cells != [marker])
  }

  /** What a tail makes of the rows before it. */
  lemma TailDecides(tail: seq<Item>, marker: string, header: Option<Cells>, values: seq<Record>)
    ensures tail == [] || tail == [Row([MarkerColumn(marker)])] ==>
              Frame(tail, marker, header, values) == (Failed(Timeout), [])
    ensures tail != [] && tail[0] == EndOfStream ==>
              Frame(tail, marker, header, values) == (Failed(TransactionFailed), tail[1..])
    ensures |tail| > 1 && tail[0] == Row([MarkerColumn(marker)]) ==>
              Frame(tail, marker, header, values) ==
                (if tail[1] == EndOfStream then Failed(TransactionFailed)
                 else if tail[1] == Row([marker]) then Rows(values) else Failed(ProtocolMismatch), tail[2..])
    ensures tail != [] && tail[0].Row? && tail[0].cells != [MarkerColumn(marker)] && Misfits(tail[0].cells, header) ==>
              Frame(tail, marker, header, values) == (Failed(ProtocolMismatch), tail[1..])
  {
  }

  /** Every stream is one of the four kinds. */
  lemma StreamHasKind(items: seq<Item>, marker: string)
    ensures Frame(items, marker, None, []).0.Rows? ==> HasAnswer(items, marker)
    ensures Frame(items, marker, None, []).0 == Failed(TransactionFailed) ==> BreaksOff(items, marker)
    ensures Frame(items, marker, None, []).0 == Failed(Timeout) ==> IsUnfinished(items, marker)
    ensures Frame(items, marker, None, []).0 == Failed(ProtocolMismatch) ==> IsMalformed(items, marker)
    ensures Frame(items, marker, None, []).0 in
              {Failed(TransactionFailed), Failed(Timeout), Failed(ProtocolMismatch)} || Frame(items, marker, None, []).0.Rows?
  {
    var body, tail := LongestAnswer(items, marker);
    var column := Row([MarkerColumn(marker)]);
    RowsAreTaken(body, marker, tail);
    TailDecides(tail, marker, HeaderOf(body), Table(body));
    hide Frame, WellFormed, Fresh;
    if |tail| > 1 && tail[0] == column {
      assert tail == [tail[0], tail[1]] + tail[2..];
      assert tail[1] == Row([marker]) ==> tail == MarkerRows(marker) + tail[2..];
    } else if tail != [] && tail[0] != column {
      assert tail == [tail[0]] + tail[1..];
    } else if tail != [] {
      assert tail == [column];
    }
  }

  lemma AnswerGivesRows(items: seq<Item>, body: seq<Cells>, marker: string, rest: seq<Item>)
    requires Begins(items, body, marker, MarkerRows(marker) + rest)
    ensures Frame(items, marker, None, []) == (Rows(Table(body)), rest)
  {
    AnswerInSync(body, marker, rest);
    assert Answer(body, marker) + rest == items;
  }

  /** The outcome under well-formed rows is that of the tail. */
  lemma BeginningsAreTaken(items: seq<Item>, body: seq<Cells>, marker: string, tail: seq<Item>)
    requires Begins(items, body, marker, tail)
    ensures Frame(items, marker, None, []) == Frame(tail, marker, HeaderOf(body), Table(body))
  {
    RowsAreTaken(body, marker, tail);
  }

  lemma KindsDecide(items: seq<Item>, marker: string)
    ensures HasAnswer(items, marker) ==> Frame(items, marker, None, []).0.Rows?
    ensures BreaksOff(items, marker) ==> Frame(items, marker, None, []).0 == Failed(TransactionFailed)
    ensures IsUnfinished(items, marker) ==> Frame(items, marker, None, []).0 == Failed(Timeout)
    ensures IsMalformed(items, marker) ==> Frame(items, marker, None, []).0 == Failed(ProtocolMismatch)
  {
    forall body, tail | Begins(items, body, marker, tail)
      ensures Frame(items, marker, None, []) == Frame(tail, marker, HeaderOf(body), Table(body))
    {
      BeginningsAreTaken(items, body, marker, tail);
    }
    forall tail, header, values
      ensures tail == [] || tail == [Row([MarkerColumn(marker)])] ==>
                Frame(tail, marker, header, values).0 == Failed(Timeout)
      ensures tail != [] && tail[0] == EndOfStream ==>
                Frame(tail, marker, header, values).0 == Failed(TransactionFailed)
    {
      TailDecides(tail, marker, header, values);
    }
  }

  /** What a reader makes of an arbitrary stream: rows exactly for an answer, and each
      failure exactly for a stream of its kind. */
  lemma FrameIsExact(items: seq<Item>, marker: string)
    ensures var outcome := Frame(items, marker, None, []).0;
            && (outcome.Rows? <==> HasAnswer(items, marker))
            && (outcome == Failed(TransactionFailed) <==> BreaksOff(items, marker))
            && (outcome == Failed(Timeout) <==> IsUnfinished(items, marker))
            && (outcome == Failed(ProtocolMismatch) <==> IsMalformed(items, marker))
            && (outcome.Failed? ==> outcome.reason in {TransactionFailed, Timeout, ProtocolMismatch})
  {
    StreamHasKind(items, marker);
    KindsDecide(items, marker);
  }

  /** Exactly when a statement gets its own records although rows of earlier answers
      are still unread: never, but for one stray header in front of an empty answer. */
  lemma StaleRows(stale: seq<Cells>, body: seq<Cells>, marker: string)
    requires WellFormed(body) && Fresh(marker, stale + body)
    ensures Frame(Answer(stale + body, marker), marker, None, []).0 == Rows(Table(body))
            <==> stale == [] || (body == [] && |stale| == 1 && ValidHeader(stale[0]))
  {
    var all := stale + body;
    assert stale == [] ==> all == body;
    if WellFormed(all) {
      AnswerInSync(all, marker, []);
      assert Answer(all, marker) + [] == Answer(all, marker);
      if stale != [] {
        assert all[0] == stale[0];
        assert |Table(all)| == |stale| + |body| - 1;
      }
    } else {
      var _ := MalformedAnswer(all, marker, None, []);
      if |stale| == 1 && body == [] {
        assert all == stale;
      }
    }
  }

  /** A malformed answer puts the connection out of step: the statement after it
      cannot get its own records. */
  lemma NoResynchronisation(body: seq<Cells>, marker: string, next: seq<Cells>, nextMarker: string)
    requires Fresh(marker, body) && !WellFormed(body) && WellFormed(next)
    requires Fresh(nextMarker, body + [[MarkerColumn(marker)], [marker]] + next)
    ensures var (outcome, unread) := Frame(Answer(body, marker), marker, None, []);
            && outcome == Failed(ProtocolMismatch)
            && Frame(unread + Answer(next, nextMarker), nextMarker, None, []).0 != Rows(Table(next))
  {
    var rest := MalformedAnswer(body, marker, None, []);
    var stale := rest + [[MarkerColumn(marker)], [marker]];
    assert AsItems(stale) == Answer(rest, marker);
    assert AsItems(stale + next) == AsItems(stale) + AsItems(next);
    assert Answer(rest, marker) + Answer(next, nextMarker) == Answer(stale + next, nextMarker);
    forall c | c in stale + next ensures c in body + [[MarkerColumn(marker)], [marker]] + next {
      assert c in rest ==> c in body;
    }
    StaleRows(stale, next, nextMarker);
  }

  // ----- many statements -----

  datatype Exchange = Exchange(body: seq<Cells>, marker: string)

  /** Statement after statement: each answer is appended to what is unread, and read
      by the frame rule. */
  ghost function Session(unread: seq<Item>, exchanges: seq<Exchange>): (seq<Outcome>, seq<Item>)
    decreases |exchanges|
  {
    if exchanges == [] then ([], unread)
    else
      var e := exchanges[0];
      var (outcome, left) := Frame(unread + Answer(e.body, e.marker), e.marker, None, []);
      var (outcomes, end) := Session(left, exchanges[1..]);
      ([outcome] + outcomes, end)
  }

  lemma {:induction false} SessionInSync(exchanges: seq<Exchange>)
    requires forall e :: e in exchanges ==> WellFormed(e.body) && Fresh(e.marker, e.body)
    ensures var (outcomes, unread) := Session([], exchanges);
            && unread == []
            && |outcomes| == |exchanges|
            && forall i :: 0 <= i < |exchanges| ==> outcomes[i] == Rows(Table(exchanges[i].body))
    decreases |exchanges|
  {
    if exchanges != [] {
      var e := exchanges[0];
      assert e in exchanges;
      AnswerInSync(e.body, e.marker, []);
      assert [] + Answer(e.body, e.marker) == Answer(e.body, e.marker) + [];
      SessionInSync(exchanges[1..]);
    }
  }

  datatype Statement = Statement(sql: string, parameters: seq<Value>, exchange: Exchange)

  /** A session on one connection: statement after statement, each well-formed answer
      reaches its own statement, however the reader thread hands the rows over. */
  method RunSession(connection: Connection, statements: seq<Statement>) returns (outcomes: seq<Outcome>)
    requires !connection.closed && connection.alive && connection.Unread() == [] && connection.Prompt()
    requires forall s :: s in statements ==>
               && Render(s.sql, s.parameters).Ok?
               && WellFormed(s.exchange.body) && Fresh(s.exchange.marker, s.exchange.body)
    modifies connection
    ensures connection.alive && !connection.closed && connection.Unread() == []
    ensures |outcomes| == |statements|
    ensures forall i :: 0 <= i < |statements| ==> outcomes[i] == Rows(Table(statements[i].exchange.body))
  {
    outcomes := [];
    for i := 0 to |statements|
      invariant connection.alive && !connection.closed && connection.Unread() == []
      invariant |outcomes| == i
      invariant forall j :: 0 <= j < i ==> outcomes[j] == Rows(Table(statements[j].exchange.body))
    {
      var s := statements[i];
      assert s in statements;
      var answer := Answer(s.exchange.body, s.exchange.marker);
      AnswerInSync(s.exchange.body, s.exchange.marker, []);
      assert answer + [] == answer && [] + answer == answer;
      var outcome := connection.Execute(s.sql, s.parameters, s.exchange.marker, true, answer);
      outcomes := outcomes + [outcome];
    }
  }

  /** A statement that names two of its columns alike gets a malformed answer, and
      with any later answer the connection is out of step. */
  lemma RepeatedColumnLosesStep(column: string, marker: string, next: seq<Cells>, nextMarker: string)
    requires WellFormed(next) && Fresh(nextMarker, next)
    requires nextMarker != marker && marker != MarkerColumn(nextMarker)
    ensures var body := [[column, column]];
            var (outcome, unread) := Frame(Answer(body, marker), marker, None, []);
            && outcome == Failed(ProtocolMismatch)
            && Frame(unread + Answer(next, nextMarker), nextMarker, None, []).0 != Rows(Table(next))
  {
    var body := [[column, column]];
    assert body[0][0] == body[0][1];
    assert MarkerColumn(nextMarker)[2..] == nextMarker && MarkerColumn(marker)[2..] == marker;
    assert [MarkerColumn(nextMarker)] !in body + [[MarkerColumn(marker)], [marker]] + next;
    NoResynchronisation(body, marker, next, nextMarker);
  }

  // ----- what the server meant -----

  function EncodeCell(c: Cell): string {
    if c.None? then "NULL" else c.value
  }

  function EncodeRow(row: seq<Cell>): (cells: Cells)
    ensures |cells| == |row| && forall i :: 0 <= i < |row| ==> cells[i] == EncodeCell(row[i])
  {
    seq(|row|, i requires 0 <= i < |row| => EncodeCell(row[i]))
  }

  /** The record holds exactly the header's columns, each with its own cell. */
  ghost predicate Means(record: Record, header: Cells, row: seq<Cell>)
    requires |header| == |row|
  {
    && (forall c :: c in record <==> c in header)
    && forall i :: 0 <= i < |header| ==> record[header[i]] == row[i]
  }

  lemma {:induction false} DecodedCells(header: Cells, cells: Cells)
    requires |header| == |cells| && Distinct(header)
    ensures forall c :: c in Decode(header, cells) <==> c in header
    ensures forall i :: 0 <= i < |header| ==> Decode(header, cells)[header[i]] == DecodeCell(cells[i])
    decreases |header|
  {
    if header != [] {
      var n := |header| - 1;
      var front, back := header[..n], cells[..n];
      DecodedCells(front, back);
      assert header == front + [header[n]];
      forall i | 0 <= i < n ensures Decode(header, cells)[header[i]] == DecodeCell(cells[i]) {
        assert front[i] == header[i] && back[i] == cells[i];
      }
    }
  }

  lemma CellRoundTrip(c: Cell)
    ensures DecodeCell(EncodeCell(c)) == c <==> c != Some("NULL")
  {
  }

  /** A row survives the transport exactly when none of its texts is the word that
      stands for SQL NULL. */
  lemma RowRoundTrip(header: Cells, row: seq<Cell>)
    requires |header| == |row| && Distinct(header)
    ensures Means(Decode(header, EncodeRow(row)), header, row) <==> Some("NULL") !in row
  {
    var record := Decode(header, EncodeRow(row));
    DecodedCells(header, EncodeRow(row));
    hide Decode, DecodeCell, EncodeCell, Distinct;
    forall i | 0 <= i < |row| ensures record[header[i]] == row[i] <==> row[i] != Some("NULL") {
      CellRoundTrip(row[i]);
    }
  }

  // ----- the cursor -----

  datatype Fetch = One | All

  /** How far a fetch moves the offset. */
  function Advance(rows: seq<Record>, offset: nat, op: Fetch): (next: nat)
    requires offset <= |rows|
    ensures offset <= next <= |rows|
  {
    if op == All then |rows| else if offset < |rows| then offset + 1 else offset
  }

  /** Everything a sequence of fetches hands out, and where it stops. */
  function Delivered(rows: seq<Record>, offset: nat, ops: seq<Fetch>): (d: (seq<Record>, nat))
    requires offset <= |rows|
    ensures offset <= d.1 <= |rows|
    decreases |ops|
  {
    if ops == [] then ([], offset)
    else
      var next := Advance(rows, offset, ops[0]);
      var (more, end) := Delivered(rows, next, ops[1..]);
      (rows[offset..next] + more, end)
  }

  /** Any mix of fetches hands out every row at most once, in order, and the whole
      result once it contains a fetch of everything or enough single fetches. */
  lemma {:induction false} FetchedExactlyOnce(rows: seq<Record>, offset: nat, ops: seq<Fetch>)
    requires offset <= |rows|
    ensures var (out, end) := Delivered(rows, offset, ops);
            && out == rows[offset..end]
            && (All in ops || |ops| >= |rows| - offset ==> end == |rows|)
            && (All !in ops && |ops| <= |rows| - offset ==> end == offset + |ops|)
    decreases |ops|
  {
    if ops != [] {
      var next := Advance(rows, offset, ops[0]);
      FetchedExactlyOnce(rows, next, ops[1..]);
      var end := Delivered(rows, next, ops[1..]).1;
      assert rows[offset..next] + rows[next..end] == rows[offset..end];
      assert ops == [ops[0]] + ops[1..];
    }
  }

  class Cursor {
    const connection: Connection
    var rows: seq<Record>
    var offset: nat
    var closed: bool

    constructor (connection: Connection)
      ensures Valid() && rows == [] && offset == 0 && !closed && this.connection == connection
    {
      this.connection := connection;
      rows, offset, closed := [], 0, false;
    }

    predicate Valid()
      reads this
    {
      closed || offset <= |rows|
    }

    /** A failed statement leaves the earlier result where it was. */
    method Execute(sql: string, parameters: seq<Value>, marker: string, written: bool, answer: seq<Item>)
      returns (outcome: Option<Outcome>)
      requires Valid()
      modifies this`rows, this`offset, connection
      ensures Valid() && (outcome.None? <==> closed)
      ensures match outcome
              case Some(Rows(fetched)) => rows == fetched && offset == 0
              case _ => rows == old(rows) && offset == old(offset)
      ensures outcome.None? ==> connection.Unread() == old(connection.Unread())
      ensures outcome.Some? && outcome.value.Rows? ==>
                connection.alive
                && (outcome.value, connection.Unread()) == Frame(old(connection.Unread()) + answer, marker, None, [])
    {
      if closed { return None; }
      var result := connection.Execute(sql, parameters, marker, written, answer);
      if result.Rows? {
        rows, offset := result.rows, 0;
      }
      outcome := Some(result);
    }

    /** `None` for a closed cursor; at the end of the result, no row. */
    method FetchOne() returns (row: Option<Option<Record>>)
      requires Valid()
      modifies this`offset
      ensures Valid() && (row.None? <==> closed)
      ensures offset == if closed then old(offset) else Advance(rows, old(offset), One)
      ensures row.Some? ==> rows[old(offset)..offset] == if row.value.Some? then [row.value.value] else []
      ensures row.Some? && row.value.None? ==> old(offset) == |rows|
    {
      if closed { return None; }
      if offset >= |rows| { return Some(None); }
      row := Some(Some(rows[offset]));
      offset := offset + 1;
    }

    method FetchAll() returns (fetched: Option<seq<Record>>)
      requires Valid()
      modifies this`offset
      ensures Valid() && (fetched.None? <==> closed)
      ensures offset == if closed then old(offset) else Advance(rows, old(offset), All)
      ensures fetched.Some? ==> fetched.value == rows[old(offset)..offset]
    {
      if closed { return None; }
      fetched := Some(rows[offset..]);
      offset := |rows|;
    }

    method Close()
      requires Valid()
      modifies this
      ensures Valid() && closed && rows == [] && offset == old(offset)
    {
      closed, rows := true, [];
    }
  }
}
