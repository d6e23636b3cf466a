/** The bounded snapshot writer: at most a fixed number of worker states, created
    per thread, registered under a lock, inspected again every 64 writes. */
module SnapshotWriter {
  import opened Sequences

  const WRITES_PER_INSPECTION := 64
  const RETRY_DELAYS: seq<real> := [1.0, 2.0, 4.0]

  // ----- one call of one worker -----

  datatype Outcome = Stored | Unavailable | OtherFailure
  datatype Act = Inspected(ok: bool) | Attempted(outcome: Outcome) | Slept(seconds: real)

  predicate InspectionDue(writes: nat) {
    writes > 0 && writes % WRITES_PER_INSPECTION == 0
  }

  /** Attempt number `k` and what follows it. */
  function AttemptActs(outcomes: nat -> Outcome, k: nat): seq<Act>
    requires k <= |RETRY_DELAYS|
    decreases |RETRY_DELAYS| - k
  {
    [Attempted(outcomes(k))] +
    if outcomes(k) != Unavailable || k == |RETRY_DELAYS| then []
    else [Slept(RETRY_DELAYS[k])] + AttemptActs(outcomes, k + 1)
  }

  /** The attempt that settles the call: the first that is not `Unavailable`, or
      the last. */
  function SettlingAttempt(outcomes: nat -> Outcome, k: nat): (n: nat)
    requires k <= |RETRY_DELAYS|
    ensures k <= n <= |RETRY_DELAYS|
    ensures forall i :: k <= i < n ==> outcomes(i) == Unavailable
    ensures outcomes(n) != Unavailable || n == |RETRY_DELAYS|
    decreases |RETRY_DELAYS| - k
  {
    if outcomes(k) != Unavailable || k == |RETRY_DELAYS| then k else SettlingAttempt(outcomes, k + 1)
  }

  /** Unavailable attempts `k` to `n`, each followed by the sleep of its retry. */
  function Retried(k: nat, n: nat): seq<Act>
    requires k <= n <= |RETRY_DELAYS|
    decreases n - k
  {
    if k == n then [] else [Attempted(Unavailable), Slept(RETRY_DELAYS[k])] + Retried(k + 1, n)
  }

  /** A call makes at most four attempts, retries only after `Unavailable`, and
      sleeps before each retry for the delay of that retry. */
  lemma {:induction false} AttemptsAreBounded(outcomes: nat -> Outcome, k: nat)
    requires k <= |RETRY_DELAYS|
    ensures var n := SettlingAttempt(outcomes, k);
            n < 4 && AttemptActs(outcomes, k) == Retried(k, n) + [Attempted(outcomes(n))]
    decreases |RETRY_DELAYS| - k
  {
    var n := SettlingAttempt(outcomes, k);
    if outcomes(k) == Unavailable && k < |RETRY_DELAYS| {
      AttemptsAreBounded(outcomes, k + 1);
      var pair := [Attempted(Unavailable), Slept(RETRY_DELAYS[k])];
      Associative(pair, Retried(k + 1, n), [Attempted(outcomes(n))]);
      Associative([Attempted(Unavailable)], [Slept(RETRY_DELAYS[k])], AttemptActs(outcomes, k + 1));
    }
  }

  /** Everything a call does: a renewed inspection if one is due, then the write. */
  function CallActs(writes: nat, inspection: bool, outcomes: nat -> Outcome): seq<Act> {
    if !InspectionDue(writes) then AttemptActs(outcomes, 0)
    else if !inspection then [Inspected(false)]
    else [Inspected(true)] + AttemptActs(outcomes, 0)
  }

  predicate CallStores(writes: nat, inspection: bool, outcomes: nat -> Outcome) {
    (InspectionDue(writes) ==> inspection) && outcomes(SettlingAttempt(outcomes, 0)) == Stored
  }

  /** A call stores exactly if no due inspection fails and some attempt, of four at most,
      stores after nothing but unavailable ones. A failed inspection is all that its call
      does; otherwise only the inspection comes before the attempts. */
  lemma CallIsExact(writes: nat, inspection: bool, outcomes: nat -> Outcome)
    ensures CallStores(writes, inspection, outcomes) <==>
              && (InspectionDue(writes) ==> inspection)
              && exists n: nat :: n < 4 && outcomes(n) == Stored && forall i: nat :: i < n ==> outcomes(i) == Unavailable
    ensures InspectionDue(writes) && !inspection ==> CallActs(writes, inspection, outcomes) == [Inspected(false)]
    ensures InspectionDue(writes) && inspection ==>
              CallActs(writes, inspection, outcomes) == [Inspected(true)] + CallActs(0, false, outcomes)
    ensures !InspectionDue(writes) ==>
              exists n: nat :: n < 4 && CallActs(writes, inspection, outcomes) == Retried(0, n) + [Attempted(outcomes(n))]
    ensures InspectionDue(writes) <==> exists k: nat :: k > 0 && writes == 64 * k
    ensures Retried(0, 3) == [Attempted(Unavailable), Slept(1.0), Attempted(Unavailable), Slept(2.0), Attempted(Unavailable), Slept(4.0)]
  {
    var n := SettlingAttempt(outcomes, 0);
    AttemptsAreBounded(outcomes, 0);
    if InspectionDue(writes) {
      assert writes == 64 * (writes / 64);
    }
    hide AttemptActs;
    SleepsDouble();
  }

  lemma SleepsDouble()
    ensures Retried(0, 3) == [Attempted(Unavailable), Slept(1.0), Attempted(Unavailable), Slept(2.0), Attempted(Unavailable), Slept(4.0)]
  {
    assert Retried(3, 3) == [];
    assert Retried(2, 3) == [Attempted(Unavailable), Slept(4.0)] + Retried(3, 3);
    assert Retried(1, 3) == [Attempted(Unavailable), Slept(2.0)] + Retried(2, 3);
  }

  class WorkerState {
    var writeCount: nat
    var acts: seq<Act>

    constructor ()
      ensures writeCount == 0 && acts == []
    {
      writeCount, acts := 0, [];
    }

    /** `inspection` is the outcome of a renewed capability inspection. */
    method Call(inspection: bool, outcomes: nat -> Outcome) returns (stored: bool)
      modifies this
      ensures acts == old(acts) + CallActs(old(writeCount), inspection, outcomes)
      ensures stored <==> CallStores(old(writeCount), inspection, outcomes)
      ensures writeCount == old(writeCount) + if stored then 1 else 0
    {
      var due := InspectionDue(writeCount);
      if due {
        acts := acts + [Inspected(inspection)];
        if !inspection { return false; }
      }
      ghost var inspected := if due then [Inspected(true)] else [];
      assert acts == old(acts) + inspected;
      Associative(old(acts), inspected, AttemptActs(outcomes, 0));
      assert inspected + AttemptActs(outcomes, 0) == CallActs(writeCount, inspection, outcomes);
      stored := Persist(outcomes);
      if stored { writeCount := writeCount + 1; }
    }

    /** The retry loop around one write. */
    method Persist(outcomes: nat -> Outcome) returns (stored: bool)
      modifies this`acts
      ensures acts == old(acts) + AttemptActs(outcomes, 0)
      ensures stored <==> outcomes(SettlingAttempt(outcomes, 0)) == Stored
    {
      hide AttemptActs;
      for k := 0 to |RETRY_DELAYS| + 1
        invariant k <= |RETRY_DELAYS|
        invariant acts + AttemptActs(outcomes, k) == old(acts) + AttemptActs(outcomes, 0)
        invariant SettlingAttempt(outcomes, k) == SettlingAttempt(outcomes, 0)
      {
        AttemptUnfolds(acts, outcomes, k);
        var outcome := outcomes(k);
        acts := acts + [Attempted(outcome)];
        if outcome == Stored { return true; }
        if outcome == OtherFailure || k == |RETRY_DELAYS| { return false; }
        acts := acts + [Slept(RETRY_DELAYS[k])];
      }
    }
  }

  lemma AttemptUnfolds(acts: seq<Act>, outcomes: nat -> Outcome, k: nat)
    requires k <= |RETRY_DELAYS|
    ensures acts + AttemptActs(outcomes, k)
            == if outcomes(k) != Unavailable || k == |RETRY_DELAYS| then acts + [Attempted(outcomes(k))]
               else acts + [Attempted(outcomes(k))] + [Slept(RETRY_DELAYS[k])] + AttemptActs(outcomes, k + 1)
  {
    if outcomes(k) == Unavailable && k < |RETRY_DELAYS| {
      var attempt, sleep, rest := [Attempted(outcomes(k))], [Slept(RETRY_DELAYS[k])], AttemptActs(outcomes, k + 1);
      Associative(acts, attempt, sleep + rest);
      Associative(acts + attempt, sleep, rest);
    }
  }

  // ----- all threads together -----

  type Operations = multiset<string>

  datatype Phase = Idle | Creating | Registering | Ready | Inspecting | Writing(attempt: nat)

  /** `performed` are the requests of the thread's client, `since` the writes since
      its last capability inspection. */
  datatype Thread = Thread(
    phase: Phase, hasState: bool, registered: bool, performed: Operations, writes: nat, since: nat)

  /** `total` counts every request ever sent, `discarded` those of clients whose
      creation failed. */
  datatype System = System(
    maxWorkers: nat, threads: seq<Thread>, registry: seq<nat>, total: Operations, discarded: Operations)

  datatype Move =
    | Begin
    | Perform(operation: string)
    | CreationFails
    | Created
    | Register
    | Check
    | InspectionPasses
    | InspectionFails
    | Attempt(outcome: Outcome)
  datatype Event = Event(thread: nat, move: Move)

  const NEW_THREAD := Thread(Idle, false, false, multiset{}, 0, 0)

  function Start(maxWorkers: nat, threadCount: nat): System {
    System(maxWorkers, seq(threadCount, _ => NEW_THREAD), [], multiset{}, multiset{})
  }

  /** A thread's own part of a move; moves that do not fit its phase change nothing. */
  function ThreadMove(t: Thread, move: Move, roomLeft: bool): Thread {
    match (t.phase, move)
    case (Idle, Begin) => t.(phase := if t.hasState then Ready else Creating)
    case (Creating, Perform(op)) => t.(performed := t.performed + multiset{op})
    case (Creating, CreationFails) => t.(phase := Idle, performed := multiset{})
    case (Creating, Created) => if t.performed == multiset{} then t else t.(phase := Registering, hasState := true)
    case (Registering, Register) => if roomLeft then t.(phase := Ready, registered := true) else t.(phase := Idle)
    case (Ready, Check) => t.(phase := if InspectionDue(t.writes) then Inspecting else Writing(0))
    case (Inspecting, Perform(op)) => t.(performed := t.performed + multiset{op})
    case (Inspecting, InspectionPasses) => t.(phase := Writing(0), since := 0)
    case (Inspecting, InspectionFails) => t.(phase := Idle)
    case (Writing(_), Perform(op)) => t.(performed := t.performed + multiset{op})
    case (Writing(k), Attempt(Stored)) => t.(phase := Idle, writes := t.writes + 1, since := t.since + 1)
    case (Writing(k), Attempt(Unavailable)) => t.(phase := if k == |RETRY_DELAYS| then Idle else Writing(k + 1))
    case (Writing(k), Attempt(OtherFailure)) => t.(phase := Idle)
    case _ => t
  }

  predicate Sends(t: Thread, move: Move) {
    move.Perform? && (t.phase.Creating? || t.phase.Inspecting? || t.phase.Writing?)
  }

  /** One move of one thread; registration is atomic, being under the lock. */
  function Step(s: System, e: Event): System {
    if e.thread >= |s.threads| then s
    else
      var t := s.threads[e.thread];
      var t' := ThreadMove(t, e.move, |s.registry| < s.maxWorkers);
      s.(threads := s.threads[e.thread := t'],
         registry := if t'.registered && !t.registered then s.registry + [e.thread] else s.registry,
         total := if Sends(t, e.move) then s.total + multiset{e.move.operation} else s.total,
         discarded := if t.phase.Creating? && e.move.CreationFails? then s.discarded + t.performed else s.discarded)
  }

  function Run(s: System, events: seq<Event>): System
    decreases |events|
  {
    if events == [] then s else Run(Step(s, events[0]), events[1..])
  }

  /** What holds of every thread at every moment. */
  ghost predicate ThreadInvariant(t: Thread) {
    && (!t.hasState ==> (t.phase.Idle? || t.phase.Creating?) && !t.registered && t.writes == t.since == 0)
    && (t.phase.Idle? && !t.hasState ==> t.performed == multiset{})
    && (t.hasState ==> !t.phase.Creating? && t.performed != multiset{})
    && (t.phase.Inspecting? ==> InspectionDue(t.writes))
    && (t.phase.Registering? ==> !t.registered && t.writes == 0)
    && t.since <= WRITES_PER_INSPECTION && t.since <= t.writes
    && (t.writes - t.since) % WRITES_PER_INSPECTION == 0
    && (t.phase.Writing? ==> t.phase.attempt <= |RETRY_DELAYS| && t.since < WRITES_PER_INSPECTION)
  }

  lemma ThreadKeepsInvariant(t: Thread, move: Move, roomLeft: bool)
    requires ThreadInvariant(t)
    ensures ThreadInvariant(ThreadMove(t, move, roomLeft))
  {
    var w, n := t.writes, t.since;
    assert n == WRITES_PER_INSPECTION ==> w % WRITES_PER_INSPECTION == 0;
  }

  lemma {:induction false} RunKeepsThreads(s: System, events: seq<Event>)
    requires forall t :: t in s.threads ==> ThreadInvariant(t)
    ensures forall t :: t in Run(s, events).threads ==> ThreadInvariant(t)
    ensures Run(s, events).maxWorkers == s.maxWorkers && |Run(s, events).threads| == |s.threads|
    decreases |events|
  {
    if events != [] {
      var e := events[0];
      if e.thread < |s.threads| {
        ThreadKeepsInvariant(s.threads[e.thread], e.move, |s.registry| < s.maxWorkers);
      }
      RunKeepsThreads(Step(s, e), events[1..]);
    }
  }

  // ----- the registry -----

  /** The registry lists each registered thread once and never outgrows its bound. */
  ghost predicate RegistryInvariant(s: System) {
    && |s.registry| <= s.maxWorkers
    && (forall k :: 0 <= k < |s.registry| ==> s.registry[k] < |s.threads|)
    && (forall i, j :: 0 <= i < j < |s.registry| ==> s.registry[i] != s.registry[j])
    && (forall i: nat :: i in s.registry <==> i < |s.threads| && s.threads[i].registered)
    && (|s.registry| < s.maxWorkers ==> forall t :: t in s.threads ==> !Refused(t))
  }

  /** Turned away at registration; its state stays in use all the same. */
  predicate Refused(t: Thread) {
    t.hasState && !t.registered && !t.phase.Registering?
  }

  lemma StepKeepsRegistry(s: System, e: Event)
    requires RegistryInvariant(s) && forall t :: t in s.threads ==> ThreadInvariant(t)
    ensures RegistryInvariant(Step(s, e))
  {
    if e.thread < |s.threads| {
      var i := e.thread;
      var t := s.threads[i];
      var room := |s.registry| < s.maxWorkers;
      var t' := ThreadMove(t, e.move, room);
      var s' := Step(s, e);
      assert t in s.threads;
      assert t'.registered != t.registered ==> t'.registered && room && i !in s.registry;
      assert |s'.registry| < s.maxWorkers ==> !Refused(t');
      hide ThreadMove, ThreadInvariant;
      forall j: nat ensures j in s'.registry <==> j < |s'.threads| && s'.threads[j].registered {
        assert j in s.registry <==> j < |s.threads| && s.threads[j].registered;
      }
      forall u | u in s'.threads && |s'.registry| < s.maxWorkers ensures !Refused(u) {
        assert u == t' || u in s.threads;
      }
    }
  }

  // ----- the accounts -----

  function Sum(performed: seq<Operations>): Operations {
    if performed == [] then multiset{} else Sum(performed[..|performed| - 1]) + performed[|performed| - 1]
  }

  lemma AddToBoth(a': Operations, a: Operations, before: Operations, after: Operations, more: Operations)
    requires a' + before == a + after
    ensures a' + more + before == a + more + after
  {
    assert a' + more + before == a' + before + more;
    assert a + more + after == a + after + more;
  }

  lemma EmptySum(a: Operations, b: Operations)
    ensures a + b == multiset{} <==> a == multiset{} && b == multiset{}
  {
    assert |a + b| == |a| + |b|;
  }

  lemma {:induction false} SumUpdate(a: seq<Operations>, i: nat, x: Operations)
    requires i < |a|
    ensures Sum(a[i := x]) + a[i] == Sum(a) + x
    decreases |a|
  {
    var n := |a| - 1;
    if i < n {
      SumUpdate(a[..n], i, x);
      assert a[i := x][..n] == a[..n][i := x];
      assert a[i := x][n] == a[n] && a[..n][i] == a[i];
      AddToBoth(Sum(a[..n][i := x]), Sum(a[..n]), a[i], x, a[n]);
    } else {
      assert a[i := x][..n] == a[..n] && a[i := x][n] == x;
    }
  }

  /** The clients of threads that are not registered. */
  function Outside(t: Thread): Operations {
    if t.registered then multiset{} else t.performed
  }

  function OutsideOf(threads: seq<Thread>): (a: seq<Operations>)
    ensures |a| == |threads| && forall i :: 0 <= i < |threads| ==> a[i] == Outside(threads[i])
  {
    seq(|threads|, i requires 0 <= i < |threads| => Outside(threads[i]))
  }

  /** The clients in registry order, which the report adds up. */
  function Listed(threads: seq<Thread>, registry: seq<nat>): (a: seq<Operations>)
    requires forall k :: 0 <= k < |registry| ==> registry[k] < |threads|
    ensures |a| == |registry| && forall k :: 0 <= k < |registry| ==> a[k] == threads[registry[k]].performed
  {
    seq(|registry|, k requires 0 <= k < |registry| => threads[registry[k]].performed)
  }

  ghost predicate AccountsBalance(s: System)
    requires RegistryInvariant(s)
  {
    s.total == Sum(Listed(s.threads, s.registry)) + Sum(OutsideOf(s.threads)) + s.discarded
  }

  function CountOf(totals: map<string, nat>, operation: string): nat {
    if operation in totals then totals[operation] else 0
  }

  /** The report: counts of all registered clients, operation by operation. */
  method OperationCounts(clients: seq<Operations>) returns (totals: map<string, nat>)
    ensures forall o: string :: CountOf(totals, o) == Sum(clients)[o]
  {
    totals := map[];
    for i := 0 to |clients|
      invariant forall o: string :: CountOf(totals, o) == Sum(clients[..i])[o]
    {
      var client := clients[i];
      var left := set o | o in client;
      while left != {}
        invariant left <= set o | o in client
        invariant forall o: string :: CountOf(totals, o) == Sum(clients[..i])[o] + if o in left then 0 else client[o]
        decreases |left|
      {
        var operation :| operation in left;
        totals := totals[operation := CountOf(totals, operation) + client[operation]];
        left := left - {operation};
      }
      assert clients[..i + 1][..i] == clients[..i];
    }
    assert clients[..|clients|] == clients;
  }

  lemma ListedAfterUpdate(threads: seq<Thread>, registry: seq<nat>, i: nat, t: Thread)
    requires forall k :: 0 <= k < |registry| ==> registry[k] < |threads|
    requires forall a, b :: 0 <= a < b < |registry| ==> registry[a] != registry[b]
    requires i < |threads|
    ensures i in registry ==>
              Sum(Listed(threads[i := t], registry)) + threads[i].performed == Sum(Listed(threads, registry)) + t.performed
    ensures i !in registry ==> Listed(threads[i := t], registry) == Listed(threads, registry)
  {
    if i in registry {
      var k :| 0 <= k < |registry| && registry[k] == i;
      SumUpdate(Listed(threads, registry), k, t.performed);
      assert Listed(threads[i := t], registry) == Listed(threads, registry)[k := t.performed];
    } else {
      assert Listed(threads[i := t], registry) == Listed(threads, registry);
    }
  }

  lemma OutsideAfterUpdate(threads: seq<Thread>, i: nat, t: Thread)
    requires i < |threads|
    ensures Sum(OutsideOf(threads[i := t])) + Outside(threads[i]) == Sum(OutsideOf(threads)) + Outside(t)
  {
    SumUpdate(OutsideOf(threads), i, Outside(t));
    assert OutsideOf(threads[i := t]) == OutsideOf(threads)[i := Outside(t)];
  }

  /** Registering moves a client from outside the registry into it. */
  lemma RegistrationKeepsAccounts(s: System, i: nat, t': Thread)
    requires RegistryInvariant(s) && AccountsBalance(s) && i < |s.threads|
    requires !s.threads[i].registered && t'.registered && t'.performed == s.threads[i].performed
    ensures s.total == Sum(Listed(s.threads[i := t'], s.registry + [i])) + Sum(OutsideOf(s.threads[i := t'])) + s.discarded
  {
    var t := s.threads[i];
    ListedAfterUpdate(s.threads, s.registry, i, t');
    OutsideAfterUpdate(s.threads, i, t');
    var before, after := Listed(s.threads[i := t'], s.registry), Listed(s.threads[i := t'], s.registry + [i]);
    assert after == before + [t'.performed];
    assert after[..|after| - 1] == before;
    var listed, outside, outside' := Sum(before), Sum(OutsideOf(s.threads)), Sum(OutsideOf(s.threads[i := t']));
    assert Sum(after) == listed + t.performed;
    assert outside' + t.performed == outside + multiset{};
    Regroup(s.total, listed, outside, outside', t.performed, s.discarded);
  }

  lemma Regroup(total: Operations, listed: Operations, outside: Operations, outside': Operations, moved: Operations, rest: Operations)
    requires total == listed + outside + rest && outside' + moved == outside + multiset{}
    ensures total == listed + moved + outside' + rest
  {
    forall o: string ensures total[o] == (listed + moved + outside' + rest)[o] {
      assert (outside' + moved)[o] == (outside + multiset{})[o];
    }
  }

  /** Otherwise a move sends one request, discards a client, or leaves the requests
      alone. */
  lemma RequestKeepsAccounts(s: System, i: nat, t': Thread, sent: Operations, dropped: Operations)
    requires RegistryInvariant(s) && AccountsBalance(s) && i < |s.threads|
    requires s.threads[i].registered == t'.registered
    requires t'.performed + dropped == s.threads[i].performed + sent
    requires t'.registered ==> dropped == multiset{}
    ensures s.total + sent == Sum(Listed(s.threads[i := t'], s.registry)) + Sum(OutsideOf(s.threads[i := t'])) + (s.discarded + dropped)
  {
    var t := s.threads[i];
    ListedAfterUpdate(s.threads, s.registry, i, t');
    OutsideAfterUpdate(s.threads, i, t');
    assert i in s.registry <==> t.registered;
    if t.registered { SamePart(s.threads, i, t'); }
    var listed, outside := Sum(Listed(s.threads, s.registry)), Sum(OutsideOf(s.threads));
    var listed', outside' := Sum(Listed(s.threads[i := t'], s.registry)), Sum(OutsideOf(s.threads[i := t']));
    hide Sum, Listed, OutsideOf, RegistryInvariant;
    if t.registered {
      ChangeOne(s.total, listed, listed', outside', s.discarded, t.performed, t'.performed, sent, dropped);
    } else {
      assert s.total == outside + listed' + s.discarded;
      ChangeOne(s.total, outside, outside', listed', s.discarded, t.performed, t'.performed, sent, dropped);
      assert outside' + listed' + (s.discarded + dropped) == listed' + outside' + (s.discarded + dropped);
    }
  }

  /** A registered thread has nothing outside. */
  lemma SamePart(threads: seq<Thread>, i: nat, t': Thread)
    requires i < |threads| && threads[i].registered && t'.registered
    ensures OutsideOf(threads[i := t']) == OutsideOf(threads)
  {
  }

  lemma ChangeOne(total: Operations, part: Operations, part': Operations, other: Operations, rest: Operations,
                  before: Operations, after: Operations, sent: Operations, dropped: Operations)
    requires total == part + other + rest
    requires part' + before == part + after && after + dropped == before + sent
    ensures total + sent == part' + other + (rest + dropped)
  {
    forall o: string ensures (total + sent)[o] == (part' + other + (rest + dropped))[o] {
      assert (part' + before)[o] == (part + after)[o];
      assert (after + dropped)[o] == (before + sent)[o];
    }
  }

  lemma StepKeepsAccounts(s: System, e: Event)
    requires RegistryInvariant(s) && AccountsBalance(s) && forall t :: t in s.threads ==> ThreadInvariant(t)
    ensures RegistryInvariant(Step(s, e)) && AccountsBalance(Step(s, e))
  {
    StepKeepsRegistry(s, e);
    if e.thread < |s.threads| {
      var i := e.thread;
      var t := s.threads[i];
      var t' := ThreadMove(t, e.move, |s.registry| < s.maxWorkers);
      assert t in s.threads;
      RequestsMove(t, e.move, |s.registry| < s.maxWorkers);
      hide ThreadMove, ThreadInvariant, Sum, Listed, OutsideOf, RegistryInvariant;
      if t'.registered && !t.registered {
        RegistrationKeepsAccounts(s, i, t');
      } else {
        var sent := if Sends(t, e.move) then multiset{e.move.operation} else multiset{};
        var dropped := if t.phase.Creating? && e.move.CreationFails? then t.performed else multiset{};
        RequestKeepsAccounts(s, i, t', sent, dropped);
        assert Step(s, e).total == s.total + sent;
        assert Step(s, e).discarded == s.discarded + dropped;
      }
    }
  }

  lemma RequestsMove(t: Thread, move: Move, room: bool)
    requires ThreadInvariant(t)
    ensures ThreadMove(t, move, room).performed
            == if Sends(t, move) then t.performed + multiset{move.operation}
               else if t.phase.Creating? && move.CreationFails? then multiset{}
               else t.performed
    ensures t.phase.Creating? ==> !t.registered
    ensures t.registered ==> ThreadMove(t, move, room).registered
    ensures !t.registered && ThreadMove(t, move, room).registered ==> !Sends(t, move) && !t.phase.Creating?
  {
  }

  lemma {:induction false} RunKeepsEverything(s: System, events: seq<Event>)
    requires RegistryInvariant(s) && AccountsBalance(s) && forall t :: t in s.threads ==> ThreadInvariant(t)
    ensures RegistryInvariant(Run(s, events)) && AccountsBalance(Run(s, events))
    ensures forall t :: t in Run(s, events).threads ==> ThreadInvariant(t)
    decreases |events|
  {
    if events != [] {
      StepKeepsAccounts(s, events[0]);
      RunKeepsThreads(s, [events[0]]);
      assert Run(s, [events[0]]) == Step(s, events[0]);
      RunKeepsEverything(Step(s, events[0]), events[1..]);
    }
  }

  lemma {:induction false} SumOfNothing(a: seq<Operations>)
    ensures Sum(a) == multiset{} <==> forall i :: 0 <= i < |a| ==> a[i] == multiset{}
    decreases |a|
  {
    if a != [] {
      var n := |a| - 1;
      SumOfNothing(a[..n]);
      EmptySum(Sum(a[..n]), a[n]);
      assert forall i :: 0 <= i < n ==> a[..n][i] == a[i];
    }
  }

  lemma StartsWell(maxWorkers: nat, threadCount: nat)
    ensures var s := Start(maxWorkers, threadCount);
            && RegistryInvariant(s) && AccountsBalance(s)
            && forall t :: t in s.threads ==> ThreadInvariant(t) && !Refused(t)
  {
    var s := Start(maxWorkers, threadCount);
    assert forall t :: t in s.threads ==> t == NEW_THREAD;
    SumOfNothing(OutsideOf(s.threads));
  }

  // ----- the theorems -----

  /** Under every interleaving: the registry stays within its bound, no worker
      writes more than 64 snapshots on one inspection, no call is past its fourth
      attempt, and no request is lost or counted twice. */
  lemma WriterIsBounded(maxWorkers: nat, threadCount: nat, events: seq<Event>)
    ensures var s := Run(Start(maxWorkers, threadCount), events);
            && RegistryInvariant(s) && AccountsBalance(s)
            && |s.registry| <= maxWorkers
            && forall t :: t in s.threads ==>
                 t.since <= 64 && (t.phase.Writing? ==> t.phase.attempt < 4)
  {
    var s := Start(maxWorkers, threadCount);
    StartsWell(maxWorkers, threadCount);
    RunKeepsEverything(s, events);
    RunKeepsThreads(s, events);
  }

  ghost predicate Quiet(s: System) {
    forall t :: t in s.threads ==> t.phase.Idle?
  }

  /** With no call in progress, only refused threads have requests outside the
      registry. */
  lemma OutsideMeansRefused(s: System)
    requires Quiet(s) && forall t :: t in s.threads ==> ThreadInvariant(t)
    ensures Sum(OutsideOf(s.threads)) == multiset{} <==> forall t :: t in s.threads ==> !Refused(t)
  {
    SumOfNothing(OutsideOf(s.threads));
    forall t | t in s.threads ensures Outside(t) == multiset{} <==> !Refused(t) {
      assert ThreadInvariant(t);
    }
    hide ThreadInvariant, Refused, Outside;
    assert forall i :: 0 <= i < |s.threads| ==> s.threads[i] in s.threads;
  }

  lemma RestIsEmpty(total: Operations, part: Operations, a: Operations, b: Operations)
    requires total == part + a + b
    ensures part == total <==> a == multiset{} && b == multiset{}
  {
    EmptySum(a, b);
    assert total - part == a + b;
  }

  /** When no call is in progress, the reported counts are all requests ever sent
      exactly if no client was discarded and no thread was refused. */
  lemma ReportIsComplete(maxWorkers: nat, threadCount: nat, events: seq<Event>)
    requires Quiet(Run(Start(maxWorkers, threadCount), events))
    ensures var s := Run(Start(maxWorkers, threadCount), events);
            && RegistryInvariant(s)
            && (Sum(Listed(s.threads, s.registry)) == s.total
                <==> s.discarded == multiset{} && forall t :: t in s.threads ==> !Refused(t))
  {
    hide Run, Sum, ThreadInvariant, Refused, Quiet;
    StartsWell(maxWorkers, threadCount);
    RunKeepsEverything(Start(maxWorkers, threadCount), events);
    var s := Run(Start(maxWorkers, threadCount), events);
    OutsideMeansRefused(s);
    RestIsEmpty(s.total, Sum(Listed(s.threads, s.registry)), Sum(OutsideOf(s.threads)), s.discarded);
  }

  lemma {:induction false} DistinctBelow(a: seq<nat>, n: nat)
    requires forall i, j :: 0 <= i < j < |a| ==> a[i] != a[j]
    requires forall i :: 0 <= i < |a| ==> a[i] < n
    ensures |a| <= n
    decreases n
  {
    if a != [] {
      assert a[0] < n;
      if n - 1 in a {
        var k :| 0 <= k < |a| && a[k] == n - 1;
        var rest := a[..k] + a[k + 1..];
        assert forall i :: 0 <= i < |rest| ==> rest[i] == a[if i < k then i else i + 1];
        DistinctBelow(rest, n - 1);
      } else {
        assert forall i :: 0 <= i < |a| ==> a[i] in a;
        DistinctBelow(a, n - 1);
      }
    }
  }

  /** With no more threads than workers nobody is ever refused. */
  lemma {:induction false} FewThreadsAreNeverRefused(s: System, events: seq<Event>)
    requires RegistryInvariant(s) && |s.threads| <= s.maxWorkers
    requires forall t :: t in s.threads ==> ThreadInvariant(t) && !Refused(t)
    ensures forall t :: t in Run(s, events).threads ==> !Refused(t)
    decreases |events|
  {
    if events != [] {
      var e := events[0];
      StepKeepsRegistry(s, e);
      RunKeepsThreads(s, [e]);
      assert Run(s, [e]) == Step(s, e);
      if e.thread < |s.threads| && !s.threads[e.thread].registered {
        assert e.thread !in s.registry;
        forall k | 0 <= k < |s.registry| ensures s.registry[k] != e.thread {
          assert s.registry[k] in s.registry;
        }
        DistinctBelow(s.registry + [e.thread], |s.threads|);
      }
      forall t | t in Step(s, e).threads ensures !Refused(t) {
        if e.thread < |s.threads| {
          assert s.threads[e.thread] in s.threads;
        }
      }
      FewThreadsAreNeverRefused(Step(s, e), events[1..]);
    }
  }

  /** So, unless a client's creation failed, the report of a quiet system with no
      more threads than workers is complete. */
  lemma FewThreadsReportEverything(maxWorkers: nat, threadCount: nat, events: seq<Event>)
    requires threadCount <= maxWorkers && Quiet(Run(Start(maxWorkers, threadCount), events))
    ensures var s := Run(Start(maxWorkers, threadCount), events);
            && RegistryInvariant(s)
            && (Sum(Listed(s.threads, s.registry)) == s.total <==> s.discarded == multiset{})
  {
    StartsWell(maxWorkers, threadCount);
    FewThreadsAreNeverRefused(Start(maxWorkers, threadCount), events);
    ReportIsComplete(maxWorkers, threadCount, events);
  }
}
