/** Single calls of the snapshot writer among the moves of all threads: what one call
    of a worker is to its thread, and how a report comes to be incomplete. */
module WriterCalls {
  import opened Sequences
  import opened SnapshotWriter

  // ----- a call, as acts and as moves -----

  /** What a call's acts are among the moves of its thread; sleeping is none. */
  function MovesOf(acts: seq<Act>): seq<Move>
    decreases |acts|
  {
    if acts == [] then []
    else
      (match acts[0]
       case Inspected(ok) => [if ok then InspectionPasses else InspectionFails]
       case Attempted(outcome) => [Attempt(outcome)]
       case Slept(_) => [])
      + MovesOf(acts[1..])
  }

  function Moved(t: Thread, moves: seq<Move>): Thread
    decreases |moves|
  {
    if moves == [] then t else Moved(ThreadMove(t, moves[0], false), moves[1..])
  }

  function AfterWrite(t: Thread, stored: bool): Thread {
    if stored then t.(phase := Idle, writes := t.writes + 1, since := t.since + 1) else t.(phase := Idle)
  }

  lemma SleepMovesNothing(seconds: real, rest: seq<Act>)
    ensures MovesOf([Slept(seconds)] + rest) == MovesOf(rest)
  {
    assert ([Slept(seconds)] + rest)[1..] == rest;
    assert [] + MovesOf(rest) == MovesOf(rest);
  }

  lemma AttemptMoves(t: Thread, outcome: Outcome, rest: seq<Act>)
    ensures Moved(t, MovesOf([Attempted(outcome)] + rest)) == Moved(ThreadMove(t, Attempt(outcome), false), MovesOf(rest))
  {
    assert ([Attempted(outcome)] + rest)[1..] == rest;
    assert ([Attempt(outcome)] + MovesOf(rest))[1..] == MovesOf(rest);
  }

  lemma InspectionMoves(t: Thread, ok: bool, rest: seq<Act>)
    ensures Moved(t, [Check] + MovesOf([Inspected(ok)] + rest))
            == Moved(ThreadMove(ThreadMove(t, Check, false), if ok then InspectionPasses else InspectionFails, false), MovesOf(rest))
  {
    var move := if ok then InspectionPasses else InspectionFails;
    assert ([Inspected(ok)] + rest)[1..] == rest;
    assert ([move] + MovesOf(rest))[1..] == MovesOf(rest);
    assert ([Check] + MovesOf([Inspected(ok)] + rest))[1..] == [move] + MovesOf(rest);
  }

  lemma AttemptMove(t: Thread, outcome: Outcome)
    requires t.phase.Writing?
    ensures ThreadMove(t, Attempt(outcome), false)
            == if outcome == Unavailable && t.phase.attempt != |RETRY_DELAYS|
               then t.(phase := Writing(t.phase.attempt + 1))
               else AfterWrite(t, outcome == Stored)
  {
  }

  lemma CheckMove(t: Thread)
    requires t.phase.Ready?
    ensures ThreadMove(t, Check, false) == t.(phase := if InspectionDue(t.writes) then Inspecting else Writing(0))
  {
  }

  lemma InspectionMove(t: Thread, ok: bool)
    requires t.phase.Inspecting?
    ensures ThreadMove(t, if ok then InspectionPasses else InspectionFails, false)
            == if ok then t.(phase := Writing(0), since := 0) else t.(phase := Idle)
  {
  }

  lemma {:induction false} AttemptsAsMoves(t: Thread, outcomes: nat -> Outcome, k: nat)
    requires k <= |RETRY_DELAYS| && t.phase == Writing(k)
    ensures Moved(t, MovesOf(AttemptActs(outcomes, k)))
            == AfterWrite(t, outcomes(SettlingAttempt(outcomes, k)) == Stored)
    decreases |RETRY_DELAYS| - k
  {
    hide ThreadMove, Moved, MovesOf;
    AttemptMove(t, outcomes(k));
    if outcomes(k) == Unavailable && k < |RETRY_DELAYS| {
      var rest := AttemptActs(outcomes, k + 1);
      AttemptMoves(t, Unavailable, [Slept(RETRY_DELAYS[k])] + rest);
      SleepMovesNothing(RETRY_DELAYS[k], rest);
      AttemptsAsMoves(t.(phase := Writing(k + 1)), outcomes, k + 1);
    } else {
      AttemptMoves(t, outcomes(k), []);
      assert AttemptActs(outcomes, k) == [Attempted(outcomes(k))] + [];
      NoMoves(AfterWrite(t, outcomes(k) == Stored));
    }
  }

  /** One call of a worker, act by act, moves its thread from ready to idle with the
      same count of writes, and a fresh inspection period if one was due. */
  lemma CallAsMoves(t: Thread, inspection: bool, outcomes: nat -> Outcome)
    requires t.phase.Ready?
    ensures var due := InspectionDue(t.writes);
            Moved(t, [Check] + MovesOf(CallActs(t.writes, inspection, outcomes)))
            == AfterWrite(if due && inspection then t.(since := 0) else t, CallStores(t.writes, inspection, outcomes))
  {
    hide ThreadMove, Moved, MovesOf, AttemptActs, SettlingAttempt, InspectionDue;
    var attempts := AttemptActs(outcomes, 0);
    var checked := ThreadMove(t, Check, false);
    CheckMove(t);
    if !InspectionDue(t.writes) {
      CheckMoves(t, MovesOf(attempts));
      AttemptsAsMoves(checked, outcomes, 0);
    } else {
      InspectionMove(checked, inspection);
      InspectionMoves(t, inspection, if inspection then attempts else []);
      if inspection {
        AttemptsAsMoves(t.(phase := Writing(0), since := 0), outcomes, 0);
      } else {
        assert [Inspected(false)] + [] == [Inspected(false)];
        NoMoves(t.(phase := Idle));
      }
    }
  }

  lemma CheckMoves(t: Thread, moves: seq<Move>)
    ensures Moved(t, [Check] + moves) == Moved(ThreadMove(t, Check, false), moves)
  {
    assert ([Check] + moves)[1..] == moves;
  }

  lemma NoMoves(t: Thread)
    ensures Moved(t, MovesOf([])) == t
  {
    assert MovesOf([]) == [];
  }

  // ----- the incomplete report is reachable -----

  lemma {:induction false} RunConcat(s: System, a: seq<Event>, b: seq<Event>)
    ensures Run(s, a + b) == Run(Run(s, a), b)
    decreases |a|
  {
    if a == [] {
      assert a + b == b;
    } else {
      assert (a + b)[1..] == a[1..] + b;
      RunConcat(Step(s, a[0]), a[1..], b);
    }
  }

  function MovesFor(i: nat, moves: seq<Move>): (events: seq<Event>)
    ensures |events| == |moves| && forall k :: 0 <= k < |moves| ==> events[k] == Event(i, moves[k])
  {
    seq(|moves|, k requires 0 <= k < |moves| => Event(i, moves[k]))
  }

  lemma RunOne(s: System, i: nat, move: Move, moves: seq<Move>)
    ensures Run(s, MovesFor(i, [move] + moves)) == Run(Step(s, Event(i, move)), MovesFor(i, moves))
  {
    assert MovesFor(i, [move] + moves)[1..] == MovesFor(i, moves);
  }

  lemma RoomIsForRegistering(t: Thread, move: Move, room: bool)
    requires move != Register
    ensures ThreadMove(t, move, room) == ThreadMove(t, move, false)
    ensures ThreadMove(t, move, room).registered == t.registered
  {
  }

  /** In the system of all threads such moves do to their thread what they do to it
      alone, and nothing to the others. */
  lemma {:induction false} ThreadRuns(s: System, i: nat, moves: seq<Move>)
    requires i < |s.threads| && Register !in moves
    ensures Run(s, MovesFor(i, moves)).threads == s.threads[i := Moved(s.threads[i], moves)]
    ensures Run(s, MovesFor(i, moves)).registry == s.registry
    decreases |moves|
  {
    hide ThreadMove;
    if moves == [] {
      assert MovesFor(i, moves) == [];
      assert s.threads == s.threads[i := s.threads[i]];
    } else {
      var t := ThreadMove(s.threads[i], moves[0], false);
      assert moves == [moves[0]] + moves[1..];
      RoomIsForRegistering(s.threads[i], moves[0], |s.registry| < s.maxWorkers);
      RunOne(s, i, moves[0], moves[1..]);
      var next := Step(s, Event(i, moves[0]));
      assert next.threads == s.threads[i := t] && next.registry == s.registry;
      hide Step, Run;
      ThreadRuns(next, i, moves[1..]);
      assert s.threads[i := t][i := Moved(t, moves[1..])] == s.threads[i := Moved(t, moves[1..])];
    }
  }

  /** A worker's first call: a client is made and inspected, the thread registers,
      and one snapshot is stored, if registration let it through. */
  function FirstCall(operation: string): seq<Move> {
    [Begin, Perform(operation), Created, Register, Check, Attempt(Stored)]
  }

  function FirstCalls(n: nat, operation: string): seq<Event> {
    if n == 0 then [] else FirstCalls(n - 1, operation) + MovesFor(n - 1, FirstCall(operation))
  }

  function Served(operation: string): Thread {
    Thread(Idle, true, true, multiset{operation}, 1, 1)
  }

  function TurnedAway(operation: string): Thread {
    Thread(Idle, true, false, multiset{operation}, 0, 0)
  }

  /** One move of a thread that holds `u` where `base` is the state before. */
  lemma StepsTo(base: seq<Thread>, s: System, i: nat, move: Move, u: Thread, t: Thread)
    requires i < |base| && s.threads == base[i := u]
    requires t == ThreadMove(u, move, |s.registry| < s.maxWorkers)
    ensures Step(s, Event(i, move)).threads == base[i := t]
    ensures Step(s, Event(i, move)).registry == if t.registered && !u.registered then s.registry + [i] else s.registry
    ensures Step(s, Event(i, move)).maxWorkers == s.maxWorkers
  {
    assert base[i := u][i := t] == base[i := t];
  }

  /** A thread after `k` moves of its first call. */
  function Stage(k: nat, operation: string, room: bool): Thread
    requires k <= 6
  {
    if k == 0 then NEW_THREAD
    else if k == 1 then NEW_THREAD.(phase := Creating)
    else if k == 2 then NEW_THREAD.(phase := Creating, performed := multiset{operation})
    else if k == 3 then Thread(Registering, true, false, multiset{operation}, 0, 0)
    else if !room then TurnedAway(operation)
    else if k == 4 then Thread(Ready, true, true, multiset{operation}, 0, 0)
    else if k == 5 then Thread(Writing(0), true, true, multiset{operation}, 0, 0)
    else Served(operation)
  }

  lemma StageMoves(k: nat, operation: string, room: bool, roomNow: bool)
    requires k < 6 && (k == 3 ==> roomNow == room)
    ensures Stage(k + 1, operation, room) == ThreadMove(Stage(k, operation, room), FirstCall(operation)[k], roomNow)
  {
  }

  lemma {:induction false} FirstMoves(s: System, i: nat, operation: string, k: nat)
    requires i < |s.threads| && s.threads[i] == NEW_THREAD && k <= 6
    ensures var after := Run(s, MovesFor(i, FirstCall(operation)[..k]));
            var room := |s.registry| < s.maxWorkers;
            && after.maxWorkers == s.maxWorkers
            && after.threads == s.threads[i := Stage(k, operation, room)]
            && after.registry == if k >= 4 && room then s.registry + [i] else s.registry
  {
    hide Run, Step, ThreadMove;
    var all, room := FirstCall(operation), |s.registry| < s.maxWorkers;
    if k == 0 {
      RunsOf(s, Event(i, Begin));
      assert MovesFor(i, all[..0]) == [];
      assert s.threads == s.threads[i := NEW_THREAD];
    } else {
      FirstMoves(s, i, operation, k - 1);
      var before := Run(s, MovesFor(i, all[..k - 1]));
      var event := Event(i, all[k - 1]);
      assert MovesFor(i, all[..k]) == MovesFor(i, all[..k - 1]) + [event];
      RunConcat(s, MovesFor(i, all[..k - 1]), [event]);
      RunsOf(before, event);
      StageMoves(k - 1, operation, room, |before.registry| < before.maxWorkers);
      StageRegisters(k - 1, operation, room);
      hide Stage, FirstCall;
      StepsTo(s.threads, before, i, all[k - 1], Stage(k - 1, operation, room), Stage(k, operation, room));
    }
  }

  lemma StageRegisters(k: nat, operation: string, room: bool)
    requires k < 6
    ensures Stage(k + 1, operation, room).registered && !Stage(k, operation, room).registered <==> k == 3 && room
  {
  }

  lemma RunsOf(s: System, event: Event)
    ensures Run(s, []) == s && Run(s, [event]) == Step(s, event)
  {
    assert [event][1..] == [];
  }

  lemma FirstCallServes(s: System, i: nat, operation: string)
    requires i < |s.threads| && s.threads[i] == NEW_THREAD
    ensures var after := Run(s, MovesFor(i, FirstCall(operation)));
            var room := |s.registry| < s.maxWorkers;
            && after.maxWorkers == s.maxWorkers
            && after.threads == s.threads[i := if room then Served(operation) else TurnedAway(operation)]
            && after.registry == if room then s.registry + [i] else s.registry
  {
    hide Run, Step;
    assert FirstCall(operation)[..6] == FirstCall(operation);
    hide FirstCall;
    FirstMoves(s, i, operation, 6);
  }

  /** The state after the first calls of `n` threads. */
  ghost predicate FirstServed(s: System, maxWorkers: nat, threadCount: nat, n: nat, operation: string) {
    && s.maxWorkers == maxWorkers && |s.threads| == threadCount
    && |s.registry| == (if n < maxWorkers then n else maxWorkers)
    && (forall j :: 0 <= j < threadCount ==>
          s.threads[j] == if j >= n then NEW_THREAD else if j < maxWorkers then Served(operation) else TurnedAway(operation))
  }

  lemma OneMoreServed(s: System, maxWorkers: nat, threadCount: nat, n: nat, operation: string)
    requires n < threadCount && FirstServed(s, maxWorkers, threadCount, n, operation)
    ensures FirstServed(Run(s, MovesFor(n, FirstCall(operation))), maxWorkers, threadCount, n + 1, operation)
  {
    hide Run, FirstCall;
    FirstCallServes(s, n, operation);
  }

  lemma {:induction false} FirstCallsServe(maxWorkers: nat, threadCount: nat, n: nat, operation: string)
    requires n <= threadCount
    ensures FirstServed(Run(Start(maxWorkers, threadCount), FirstCalls(n, operation)), maxWorkers, threadCount, n, operation)
  {
    hide Run, Step, FirstCall;
    if n == 0 {
      RunsOf(Start(maxWorkers, threadCount), Event(0, Begin));
    } else {
      FirstCallsServe(maxWorkers, threadCount, n - 1, operation);
      var before := Run(Start(maxWorkers, threadCount), FirstCalls(n - 1, operation));
      hide Step, Run, Start, FirstServed;
      RunConcat(Start(maxWorkers, threadCount), FirstCalls(n - 1, operation), MovesFor(n - 1, FirstCall(operation)));
      OneMoreServed(before, maxWorkers, threadCount, n - 1, operation);
    }
  }

  /** With more threads than workers, one call of each leaves a quiet system whose
      surplus threads were refused, and whose report is incomplete. */
  lemma SurplusThreadsAreRefused(maxWorkers: nat, threadCount: nat, operation: string)
    requires maxWorkers < threadCount
    ensures var s := Run(Start(maxWorkers, threadCount), FirstCalls(threadCount, operation));
            && Quiet(s) && RegistryInvariant(s)
            && (forall j :: maxWorkers <= j < threadCount ==> j < |s.threads| && Refused(s.threads[j]))
            && Sum(Listed(s.threads, s.registry)) != s.total
  {
    FirstCallsServe(maxWorkers, threadCount, threadCount, operation);
    var s := Run(Start(maxWorkers, threadCount), FirstCalls(threadCount, operation));
    assert Refused(s.threads[maxWorkers]) && s.threads[maxWorkers] in s.threads;
    hide Run, FirstCalls, Start, Sum;
    ReportIsComplete(maxWorkers, threadCount, FirstCalls(threadCount, operation));
  }

  /** A client whose creation fails after a request leaves the report incomplete. */
  lemma FailedCreationDiscards(maxWorkers: nat, threadCount: nat, operation: string)
    requires threadCount > 0
    ensures var s := Run(Start(maxWorkers, threadCount), MovesFor(0, [Begin, Perform(operation), CreationFails]));
            && Quiet(s) && RegistryInvariant(s)
            && s.discarded == multiset{operation} && Sum(Listed(s.threads, s.registry)) != s.total
  {
    var s := Start(maxWorkers, threadCount);
    var moves := [Begin, Perform(operation), CreationFails];
    var s1 := Step(s, Event(0, Begin));
    var s2 := Step(s1, Event(0, Perform(operation)));
    var s3 := Step(s2, Event(0, CreationFails));
    assert moves == [Begin] + moves[1..] && moves[1..] == [Perform(operation)] + moves[2..];
    assert moves[2..] == [CreationFails] + [];
    RunOne(s, 0, Begin, moves[1..]);
    RunOne(s1, 0, Perform(operation), moves[2..]);
    RunOne(s2, 0, CreationFails, []);
    assert Run(s, MovesFor(0, moves)) == s3;
    hide Run, Sum;
    ReportIsComplete(maxWorkers, threadCount, MovesFor(0, moves));
  }
}
