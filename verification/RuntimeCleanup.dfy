/** Stopping the owned database server and removing its directory.  What the server,
    the command line tool and the file system do is fixed in a `World`; the methods
    follow the cleanup code through it and keep a log of what they did. */
module RuntimeCleanup {
  import opened ShutdownBudget

  datatype Drain = DrainTimedOut | Drained(returnCode: int, okPrinted: bool, completePrinted: bool)
  datatype LogFile = Unreadable | Evidence(panic: bool, completed: bool, rpcExit: bool)
  datatype Removal = Removed | LeftBehind | RemovalRaises

  /** The process, if there is one, exits with `exitCode` before observation number
      `exitsAt`, or never. */
  datatype World = World(
    budget: Budget,
    identityMatches: bool,
    rpcPortKnown: bool,
    drain: Drain,
    hasProcess: bool,
    exitsAt: Option<nat>,
    exitCode: int,
    log: LogFile,
    portsClosed: bool,
    pathOwned: bool,
    removal: Removal)

  /** Every granted budget lies within its fixed bounds. */
  predicate Sound(w: World) {
    w.budget.Granted? ==> MINIMUM <= w.budget.grace <= MAXIMUM
  }

  /** Which a budget derived from live settings always does. */
  lemma DerivedBudgetIsSound(w: World, settings: seq<Setting>)
    requires w.budget == DerivedBudget(settings)
    ensures Sound(w)
  {
    BudgetBounds(settings);
  }

  datatype CleanupError =
    | ChildProcessRemains
    | DrainFailed
    | PidUnavailable
    | ShutdownTimeout
    | PidRemains
    | ForceKillUsed
    | LogInspectionFailed
    | PanicMarker
    | ExitCodeMismatch
    | PortRemains
    | DirectoryRemains

  datatype Event =
    | Command(limit: int)
    | Waited(limit: int, expired: bool)
    | SigTerm
    | SigKill
    | DirectoryDeleted

  datatype Directory = NotAllocated | Present | Gone

  datatype Details = Details(
    drainCompleted: bool, drainMarker: bool, drainRequested: bool, exitCode: Option<int>)

  datatype Report = Report(
    errors: seq<CleanupError>, forceKillUsed: bool, panic: bool, exited: bool, portsClosed: bool,
    exitAccepted: bool, preserved: bool, directoryGone: bool, details: Details)

  /** Order of first occurrence, without repetition. */
  function Unique(errors: seq<CleanupError>): (u: seq<CleanupError>)
    ensures forall e :: e in u <==> e in errors
    ensures forall i, j :: 0 <= i < j < |u| ==> u[i] != u[j]
  {
    if errors == [] then []
    else
      var front := Unique(errors[..|errors| - 1]);
      var last := errors[|errors| - 1];
      assert errors == errors[..|errors| - 1] + [last];
      if last in front then front else front + [last]
  }

  /** The longest all bounded steps of an event log can take together. */
  function TotalLimit(events: seq<Event>): int {
    if events == [] then 0
    else TotalLimit(events[..|events| - 1]) + Limit(events[|events| - 1])
  }

  function Limit(e: Event): int {
    match e case Command(n) => n case Waited(n, _) => n case _ => 0
  }

  const SQL_TIMEOUT := 60
  const STATUS_TIMEOUT := 30
  const KILL_WAIT := 10
  const TERM_WAIT := 20

  /** Whether an exit with this code counts as graceful. */
  predicate AcceptedExit(exitCode: Option<int>, d: Details, log: LogFile) {
    exitCode == Some(0) ||
    (exitCode == Some(1) && d.drainCompleted && d.drainMarker && d.drainRequested
     && log.Evidence? && log.completed && log.rpcExit)
  }

  /** The drain was requested, completed and left its marker. */
  predicate DrainConfirmed(w: World) {
    w.budget.Granted? && w.identityMatches && w.rpcPortKnown && w.drain == Drained(0, true, true)
  }

  /** The whole list of conditions behind an empty error list. */
  predicate CleanShutdown(w: World, childrenReaped: bool, killedBefore: bool, firstLook: nat, directory: Directory) {
    && childrenReaped && !killedBefore && DrainConfirmed(w)
    && w.hasProcess && ExitedBy(w, firstLook + 1)
    && w.log.Evidence? && !w.log.panic
    && (w.exitCode == 0 || (w.exitCode == 1 && w.log.completed && w.log.rpcExit))
    && w.portsClosed
    && (directory == Present ==> w.removal == Removed)
  }

  /** What the details of a regular stop say about its drain command. */
  ghost predicate DrainEvidence(d: Details, w: World) {
    && (d.drainRequested <==> w.budget.Granted? && w.identityMatches && w.rpcPortKnown)
    && (d.drainCompleted <==> d.drainRequested && w.drain.Drained? && w.drain.returnCode == 0)
    && (d.drainMarker <==> d.drainRequested && w.drain.Drained? && w.drain.okPrinted && w.drain.completePrinted)
  }

  /** What the tail of a cleanup finds wrong, before it looks at the directory. */
  ghost predicate Judged(e: CleanupError, w: World, details: Details, exited: bool) {
    match e
    case LogInspectionFailed => w.log.Unreadable?
    case PanicMarker => w.log.Evidence? && w.log.panic
    case ExitCodeMismatch => !AcceptedExit(details.exitCode, details, w.log)
    case PidRemains => !exited
    case PortRemains => !w.portsClosed
    case _ => false
  }

  ghost predicate Troubled(found: seq<CleanupError>, w: World, details: Details, exited: bool) {
    exists e :: e in found || Judged(e, w, details, exited)
  }

  /** The report names, each once, what was found before, what the tail finds, and
      whether the directory remains. */
  ghost predicate Reports(
      errors: seq<CleanupError>, found: seq<CleanupError>, w: World, details: Details, exited: bool, remains: bool) {
    && (forall i, j :: 0 <= i < j < |errors| ==> errors[i] != errors[j])
    && forall e :: e in errors <==>
         e in found || Judged(e, w, details, exited) || (e == DirectoryRemains && remains)
  }

  lemma ReportedErrors(
      all: seq<CleanupError>, found: seq<CleanupError>, w: World, details: Details, exited: bool, remains: bool)
    requires forall e :: e in all <==> e in found || Judged(e, w, details, exited)
    ensures Reports(Unique(if remains then all + [DirectoryRemains] else all), found, w, details, exited, remains)
  {
    hide Judged;
  }

  /** Nothing is wrong exactly if nothing was found, the log shows no panic, the exit
      code is accepted, the process has exited and its ports are closed. */
  lemma UntroubledExactly(found: seq<CleanupError>, w: World, details: Details, exited: bool)
    ensures !Troubled(found, w, details, exited) <==>
              && found == [] && w.log.Evidence? && !w.log.panic
              && AcceptedExit(details.exitCode, details, w.log) && exited && w.portsClosed
  {
    hide AcceptedExit;
    assert found == [] || found[0] in found;
    assert Judged(LogInspectionFailed, w, details, exited) <==> w.log.Unreadable?;
    assert Judged(PanicMarker, w, details, exited) <==> w.log.Evidence? && w.log.panic;
    assert Judged(ExitCodeMismatch, w, details, exited) <==> !AcceptedExit(details.exitCode, details, w.log);
    assert Judged(PidRemains, w, details, exited) <==> !exited;
    assert Judged(PortRemains, w, details, exited) <==> !w.portsClosed;
  }

  /** The fact that each error of a regular stop stands for, the directory apart. The
      process is first looked at as observation `n`. */
  ghost predicate StopError(e: CleanupError, w: World, childrenReaped: bool, killedBefore: bool, n: nat) {
    match e
    case ChildProcessRemains => !childrenReaped
    case DrainFailed => !DrainConfirmed(w)
    case PidUnavailable => !w.hasProcess
    case ShutdownTimeout => w.hasProcess && !ExitedBy(w, n + 1)
    case PidRemains => w.hasProcess && !ExitedBy(w, n + 3)
    case ForceKillUsed => killedBefore || (w.hasProcess && !ExitedBy(w, n + 2))
    case LogInspectionFailed => w.log.Unreadable?
    case PanicMarker => w.log.Evidence? && w.log.panic
    case ExitCodeMismatch =>
      !(w.hasProcess && ExitedBy(w, n + 3)
        && (w.exitCode == 0
            || (w.exitCode == 1 && DrainConfirmed(w) && w.log.Evidence? && w.log.completed && w.log.rpcExit)))
    case PortRemains => !w.portsClosed
    case DirectoryRemains => false
  }

  /** The same for the emergency stop. */
  ghost predicate EmergencyError(e: CleanupError, w: World, killedBefore: bool, n: nat) {
    match e
    case PidRemains => w.hasProcess && !ExitedBy(w, n + 2)
    case ForceKillUsed => killedBefore || (w.hasProcess && !ExitedBy(w, n + 1))
    case LogInspectionFailed => w.log.Unreadable?
    case PanicMarker => w.log.Evidence? && w.log.panic
    case ExitCodeMismatch => true
    case PortRemains => !w.portsClosed
    case _ => false
  }

  predicate ExitedBy(w: World, observation: nat) {
    w.exitsAt.Some? && w.exitsAt.value <= observation
  }

  // ----- the event log of a regular stop -----

  function Grace(w: World): int {
    if w.budget.Granted? then w.budget.grace else MAXIMUM
  }

  /** The bounded commands sent before the process is waited for. */
  function DrainEvents(w: World): seq<Event> {
    if w.budget.Refused? then [Command(SQL_TIMEOUT)]
    else if !w.identityMatches || !w.rpcPortKnown then [Command(SQL_TIMEOUT), Command(STATUS_TIMEOUT)]
    else [Command(SQL_TIMEOUT), Command(STATUS_TIMEOUT), Command(Grace(w) + COMMAND_CUSHION)]
  }

  /** The waits and signals, given that the process is first looked at as
      observation `n`. */
  function AwaitEvents(w: World, n: nat): seq<Event> {
    var g := Grace(w);
    if !w.hasProcess || ExitedBy(w, n) then []
    else if ExitedBy(w, n + 1) then [Waited(g, false)]
    else if ExitedBy(w, n + 2) then [Waited(g, true), SigTerm, Waited(g, false)]
    else [Waited(g, true), SigTerm, Waited(g, true), SigKill, Waited(KILL_WAIT, !ExitedBy(w, n + 3))]
  }

  /** The signals and waits of the emergency stop. */
  function EmergencyEvents(w: World, n: nat): seq<Event> {
    if !w.hasProcess || ExitedBy(w, n) then []
    else if ExitedBy(w, n + 1) then [SigTerm, Waited(TERM_WAIT, false)]
    else [SigTerm, Waited(TERM_WAIT, true), SigKill, Waited(KILL_WAIT, !ExitedBy(w, n + 2))]
  }

  /** SIGKILL is sent only after two expired grace waits with SIGTERM between them. */
  lemma KillComesLast(w: World, n: nat, k: nat)
    requires k < |DrainEvents(w) + AwaitEvents(w, n)| && (DrainEvents(w) + AwaitEvents(w, n))[k] == SigKill
    ensures k >= 3
    ensures (DrainEvents(w) + AwaitEvents(w, n))[k - 3..k] == [Waited(Grace(w), true), SigTerm, Waited(Grace(w), true)]
  {
    var drain, wait := DrainEvents(w), AwaitEvents(w, n);
    assert forall i :: 0 <= i < |drain| ==> drain[i].Command?;
    assert forall i :: 0 <= i < |wait| && wait[i] == SigKill ==> i == 3;
    assert |wait| > 3 ==> wait[..3] == [Waited(Grace(w), true), SigTerm, Waited(Grace(w), true)];
    hide DrainEvents, AwaitEvents;
    assert k == |drain| + 3;
    assert (drain + wait)[k - 3..k] == wait[..3];
  }

  /** Each signal is sent exactly if the process is still there after the looks that
      come before it, in a regular and in an emergency stop. */
  lemma EscalationIsExact(w: World, n: nat)
    ensures SigTerm in AwaitEvents(w, n) <==> w.hasProcess && !ExitedBy(w, n + 1)
    ensures SigKill in AwaitEvents(w, n) <==> w.hasProcess && !ExitedBy(w, n + 2)
    ensures SigTerm in EmergencyEvents(w, n) <==> w.hasProcess && !ExitedBy(w, n)
    ensures SigKill in EmergencyEvents(w, n) <==> w.hasProcess && !ExitedBy(w, n + 1)
    ensures SigKill in EmergencyEvents(w, n) ==> EmergencyEvents(w, n)[..3] == [SigTerm, Waited(TERM_WAIT, true), SigKill]
  {
    var g := Grace(w);
    assert ExitedBy(w, n) ==> ExitedBy(w, n + 1);
    assert ExitedBy(w, n + 1) ==> ExitedBy(w, n + 2);
    assert AwaitEvents(w, n) == [] || SigTerm in AwaitEvents(w, n) || AwaitEvents(w, n) == [Waited(g, false)];
    if w.hasProcess && !ExitedBy(w, n + 1) {
      assert AwaitEvents(w, n)[1] == SigTerm && EmergencyEvents(w, n)[2] == SigKill;
    }
    if w.hasProcess && !ExitedBy(w, n) {
      assert EmergencyEvents(w, n)[0] == SigTerm;
    }
    if w.hasProcess && !ExitedBy(w, n + 2) {
      assert AwaitEvents(w, n)[3] == SigKill;
    }
  }

  /** Each stop climbs one ladder of waits and signals and leaves it at the first look
      that finds the process gone. */
  lemma LadderIsExact(w: World, n: nat)
    requires w.hasProcess
    ensures var g := Grace(w);
            && AwaitEvents(w, n) <= [Waited(g, !ExitedBy(w, n + 1)), SigTerm, Waited(g, !ExitedBy(w, n + 2)), SigKill,
                                     Waited(KILL_WAIT, !ExitedBy(w, n + 3))]
            && (AwaitEvents(w, n) == [] <==> ExitedBy(w, n))
            && (|AwaitEvents(w, n)| <= 1 <==> ExitedBy(w, n + 1))
            && (|AwaitEvents(w, n)| <= 3 <==> ExitedBy(w, n + 2))
    ensures EmergencyEvents(w, n) <= [SigTerm, Waited(TERM_WAIT, !ExitedBy(w, n + 1)), SigKill,
                                      Waited(KILL_WAIT, !ExitedBy(w, n + 2))]
    ensures EmergencyEvents(w, n) == [] <==> ExitedBy(w, n)
    ensures |EmergencyEvents(w, n)| <= 2 <==> ExitedBy(w, n + 1)
  {
  }

  /** Before that, three commands at most: the settings are always queried, the node is
      asked for its identity if they gave a budget, and it is told to drain, for as long
      as the budget says, if it is the owned one and its port is known. */
  lemma CommandsAreExact(w: World)
    ensures DrainEvents(w) <= [Command(60), Command(30), Command(Grace(w) + COMMAND_CUSHION)] && DrainEvents(w) != []
    ensures |DrainEvents(w)| >= 2 <==> w.budget.Granted?
    ensures |DrainEvents(w)| == 3 <==> w.budget.Granted? && w.identityMatches && w.rpcPortKnown
    ensures w.budget.Granted? ==> Grace(w) == w.budget.grace
  {
  }

  lemma {:induction false} LimitsAdd(a: seq<Event>, b: seq<Event>)
    ensures TotalLimit(a + b) == TotalLimit(a) + TotalLimit(b)
    decreases |b|
  {
    if b == [] {
      assert a + b == a;
    } else {
      assert (a + b)[..|a + b| - 1] == a + b[..|b| - 1];
      LimitsAdd(a, b[..|b| - 1]);
    }
  }

  lemma ShortLimit(a: Event, b: seq<Event>)
    ensures TotalLimit([a] + b) == Limit(a) + TotalLimit(b)
  {
    LimitsAdd([a], b);
    assert [a][..0] == [];
  }

  /** All bounded steps of a regular stop together take at most 475 seconds. */
  lemma StopIsBounded(w: World, n: nat)
    requires Sound(w)
    ensures TotalLimit(DrainEvents(w) + AwaitEvents(w, n)) <= 475
  {
    LimitsAdd(DrainEvents(w), AwaitEvents(w, n));
    DrainIsBounded(w);
    AwaitIsBounded(w, n);
  }

  lemma DrainIsBounded(w: World)
    requires Sound(w)
    ensures TotalLimit(DrainEvents(w)) <= SQL_TIMEOUT + STATUS_TIMEOUT + MAXIMUM + COMMAND_CUSHION
  {
    var sql, status, drain := Command(SQL_TIMEOUT), Command(STATUS_TIMEOUT), Command(Grace(w) + COMMAND_CUSHION);
    ShortLimit(sql, []);
    ShortLimit(status, []);
    ShortLimit(drain, []);
    ShortLimit(sql, [status]);
    ShortLimit(status, [drain]);
    ShortLimit(sql, [status, drain]);
    assert [sql] + [] == [sql] && [status] + [] == [status] && [drain] + [] == [drain];
    assert [sql] + [status] == [sql, status] && [status] + [drain] == [status, drain];
    assert [sql] + [status, drain] == [sql, status, drain];
  }

  lemma AwaitIsBounded(w: World, n: nat)
    requires Sound(w)
    ensures TotalLimit(AwaitEvents(w, n)) <= MAXIMUM + MAXIMUM + KILL_WAIT
  {
    var g := Grace(w);
    var first, retry, last := Waited(g, true), Waited(g, false), Waited(KILL_WAIT, !ExitedBy(w, n + 3));
    ShortLimit(last, []);
    ShortLimit(retry, []);
    ShortLimit(SigKill, [last]);
    ShortLimit(first, [SigKill, last]);
    ShortLimit(SigTerm, [first, SigKill, last]);
    ShortLimit(first, [SigTerm, first, SigKill, last]);
    ShortLimit(SigTerm, [retry]);
    ShortLimit(first, [SigTerm, retry]);
    assert [last] + [] == [last] && [retry] + [] == [retry];
    assert [SigKill] + [last] == [SigKill, last] && [first] + [SigKill, last] == [first, SigKill, last];
    assert [SigTerm] + [first, SigKill, last] == [SigTerm, first, SigKill, last];
    assert [first] + [SigTerm, first, SigKill, last] == [first, SigTerm, first, SigKill, last];
    assert [SigTerm] + [retry] == [SigTerm, retry] && [first] + [SigTerm, retry] == [first, SigTerm, retry];
  }

  class LocalRuntime {
    const world: World
    var observations: nat           // how often the process has been looked at
    var returnCode: Option<int>     // set once an exit has been seen
    var forceKillUsed: bool
    var directory: Directory
    var events: seq<Event>

    constructor (world: World, directory: Directory)
      requires Sound(world)
      ensures Valid() && this.world == world && this.directory == directory
      ensures observations == 0 && returnCode == None && !forceKillUsed && events == []
    {
      this.world, this.directory := world, directory;
      observations, returnCode, forceKillUsed, events := 0, None, false, [];
    }

    predicate Valid()
      reads this
    {
      && Sound(world)
      && (returnCode.Some? ==> world.hasProcess && ExitedBy(world, observations) && returnCode.value == world.exitCode)
    }

    /** Look at the process once. */
    method Poll() returns (exited: bool)
      requires Valid() && world.hasProcess
      modifies this`observations, this`returnCode
      ensures Valid() && (exited <==> returnCode.Some?)
      ensures observations == old(observations) + 1
      ensures exited <==> old(returnCode).Some? || ExitedBy(world, old(observations))
    {
      if returnCode.None? && ExitedBy(world, observations) {
        returnCode := Some(world.exitCode);
      }
      observations := observations + 1;
      exited := returnCode.Some?;
    }

    method Wait(limit: int) returns (expired: bool)
      requires Valid() && world.hasProcess
      modifies this`observations, this`returnCode, this`events
      ensures Valid() && (expired <==> returnCode.None?)
      ensures observations == old(observations) + 1
      ensures expired <==> !ExitedBy(world, old(observations))
      ensures events == old(events) + [Waited(limit, expired)]
    {
      var exited := Poll();
      expired := !exited;
      events := events + [Waited(limit, expired)];
    }

    /** Everything the cleanup checks before it touches the directory. */
    method Judge(found: seq<CleanupError>, details: Details) returns (errors: seq<CleanupError>, exited: bool)
      requires Valid()
      modifies this`observations, this`returnCode
      ensures Valid() && (exited <==> !world.hasProcess || returnCode.Some?)
      ensures exited <==> !world.hasProcess || old(returnCode).Some? || ExitedBy(world, old(observations))
      ensures found <= errors
      ensures errors == [] <==>
                && found == [] && world.log.Evidence? && !world.log.panic
                && AcceptedExit(details.exitCode, details, world.log) && exited && world.portsClosed
      ensures !AcceptedExit(details.exitCode, details, world.log) ==> ExitCodeMismatch in errors
      ensures DirectoryRemains in errors ==> DirectoryRemains in found
      ensures forall e :: e in errors <==> e in found || Judged(e, world, details, exited)
    {
      errors := found;
      if world.log.Unreadable? { errors := errors + [LogInspectionFailed]; }
      if world.log.Evidence? && world.log.panic { errors := errors + [PanicMarker]; }
      if !AcceptedExit(details.exitCode, details, world.log) { errors := errors + [ExitCodeMismatch]; }
      exited := true;
      if world.hasProcess { exited := Poll(); }
      if !exited { errors := errors + [PidRemains]; }
      if !world.portsClosed { errors := errors + [PortRemains]; }
    }

    /** False if the path is not the owned one or the deletion raises. */
    method DeleteDirectory() returns (ok: bool)
      modifies this`directory, this`events
      ensures ok <==> old(directory) != Present || (world.pathOwned && !world.removal.RemovalRaises?)
      ensures events == if ok && old(directory) == Present then old(events) + [DirectoryDeleted] else old(events)
      ensures directory == if ok && old(directory) == Present && world.removal == Removed then Gone else old(directory)
    {
      if directory != Present { return true; }
      if !world.pathOwned || world.removal == RemovalRaises { return false; }
      events := events + [DirectoryDeleted];
      if world.removal == Removed { directory := Gone; }
      ok := true;
    }

    /** Deletes the directory, if there is one, unless it is preserved or the process is
        still there. */
    method RemoveDirectory(preserve: bool, exited: bool) returns (ok: bool)
      modifies this`directory, this`events
      ensures var tried := old(directory) == Present && exited && !preserve;
              var removable := world.pathOwned && !world.removal.RemovalRaises?;
              && (ok <==> !tried || removable)
              && events == (if tried && removable then old(events) + [DirectoryDeleted] else old(events))
              && directory == (if tried && removable && world.removal == Removed then Gone else old(directory))
    {
      ok := true;
      if !preserve && exited {
        ok := DeleteDirectory();
      }
    }

    /** The tail of every cleanup: judge, then delete the directory. `None` if the
        path is not the owned one or the deletion itself fails. */
    method FinalizeCleanup(found: seq<CleanupError>, details: Details, preserveOnFailure: bool)
      returns (report: Option<Report>)
      requires Valid() && DirectoryRemains !in found
      modifies this
      ensures Valid() && forceKillUsed == old(forceKillUsed)
      ensures var exited := !world.hasProcess || old(returnCode).Some? || ExitedBy(world, old(observations));
              var preserved := preserveOnFailure && Troubled(found, world, details, exited);
              var tried := old(directory) == Present && exited && !preserved;
              var removable := world.pathOwned && !world.removal.RemovalRaises?;
              && (report.None? <==> tried && !removable)
              && events == (if tried && removable then old(events) + [DirectoryDeleted] else old(events))
              && directory == (if tried && removable && world.removal == Removed then Gone else old(directory))
              && (exited <==> !world.hasProcess || returnCode.Some?)
              && (report.Some? ==>
                    && report.value.preserved == preserved && report.value.exited == exited
                    && Reports(report.value.errors, found, world, details, exited, directory == Present && !preserved))
      ensures report.Some? ==>
                var r := report.value;
                && (r.directoryGone <==> directory != Present)
                && (r.panic <==> world.log.Evidence? && world.log.panic)
                && (r.exitAccepted <==> AcceptedExit(details.exitCode, details, world.log))
                && r.portsClosed == world.portsClosed && r.forceKillUsed == forceKillUsed && r.details == details
    {
      hide AcceptedExit, ExitedBy, Sound, Judged, Reports, Unique;
      var errors, exited := Judge(found, details);
      var preserve := errors != [] && preserveOnFailure;
      assert errors != [] <==> Troubled(found, world, details, exited) by {
        assert errors == [] || errors[0] in errors;
      }
      hide Troubled;
      var removed := RemoveDirectory(preserve, exited);
      if !removed { return None; }
      var gone := directory != Present;
      ReportedErrors(errors, found, world, details, exited, !gone && !preserve);
      if !gone && !preserve { errors := errors + [DirectoryRemains]; }
      report := Some(Report(
        Unique(errors), forceKillUsed, world.log.Evidence? && world.log.panic, exited, world.portsClosed,
        AcceptedExit(details.exitCode, details, world.log), preserve, gone, details));
    }

    /** The drain command and its evidence. */
    method RequestDrain() returns (details: Details, failed: bool)
      requires Valid()
      modifies this`events
      ensures Valid() && events == old(events) + DrainEvents(world)
      ensures !failed ==> details == Details(true, true, true, None)
      ensures failed <==> !DrainConfirmed(world)
      ensures failed <==> !(details.drainCompleted && details.drainMarker && details.drainRequested)
      ensures details.exitCode == None && DrainEvidence(details, world)
    {
      details := Details(false, false, false, None);
      events := events + [Command(SQL_TIMEOUT)];
      if world.budget.Refused? { return details, true; }
      events := events + [Command(STATUS_TIMEOUT)];
      if !world.identityMatches || !world.rpcPortKnown { return details, true; }
      details := details.(drainRequested := true);
      events := events + [Command(Grace(world) + COMMAND_CUSHION)];
      if world.drain.DrainTimedOut? { return details, true; }
      var marker := world.drain.okPrinted && world.drain.completePrinted;
      details := details.(drainCompleted := world.drain.returnCode == 0, drainMarker := marker);
      failed := world.drain.returnCode != 0 || !marker;
    }

    /** Wait, terminate, wait, kill, wait: each step only after the one before it
        was in vain. */
    method AwaitExit() returns (errors: seq<CleanupError>)
      requires Valid() && world.hasProcess
      modifies this`observations, this`returnCode, this`events, this`forceKillUsed
      ensures Valid() && events == old(events) + AwaitEvents(world, old(observations))
      ensures errors == [] <==> ExitedBy(world, old(observations) + 1)
      ensures errors == [] ==> returnCode == Some(world.exitCode) && forceKillUsed == old(forceKillUsed)
      ensures forceKillUsed <==> old(forceKillUsed) || !ExitedBy(world, old(observations) + 2)
      ensures returnCode.Some? <==> ExitedBy(world, old(observations) + 3)
      ensures returnCode.None? ==> observations == old(observations) + 4
      ensures forall e :: e in errors <==>
                || (e == ShutdownTimeout && !ExitedBy(world, old(observations) + 1))
                || (e == PidRemains && !ExitedBy(world, old(observations) + 3))
    {
      errors := [];
      var grace := Grace(world);
      var exited := Poll();
      if exited { return; }
      var expired := Wait(grace);
      if !expired { return; }
      errors := [ShutdownTimeout];
      events := events + [SigTerm];
      expired := Wait(grace);
      if !expired { return; }
      forceKillUsed := true;
      events := events + [SigKill];
      expired := Wait(KILL_WAIT);
      if expired { errors := errors + [PidRemains]; }
    }

    /** Drain and await: all of the regular stop before its tail. What it finds, with what
        the tail will find, are the errors of the stop. */
    method DrainAndAwait(childrenReaped: bool) returns (errors: seq<CleanupError>, details: Details)
      requires Valid()
      modifies this`observations, this`returnCode, this`events, this`forceKillUsed
      ensures Valid() && DirectoryRemains !in errors && StopDetails(details, world, old(observations))
      ensures events == old(events) + (DrainEvents(world) + AwaitEvents(world, old(observations)))
      ensures forceKillUsed <==> old(forceKillUsed) || (world.hasProcess && !ExitedBy(world, old(observations) + 2))
      ensures world.hasProcess ==> (returnCode.Some? <==> ExitedBy(world, old(observations) + 3))
      ensures var n, killed := old(observations), old(forceKillUsed);
              var exited := !world.hasProcess || returnCode.Some? || ExitedBy(world, observations);
              && (forall e :: e in errors || Judged(e, world, details, exited) <==>
                    StopError(e, world, childrenReaped, killed, n))
              && (Troubled(errors, world, details, exited) <==> StopTroubled(world, childrenReaped, killed, n))
    {
      ghost var n, killed := observations, forceKillUsed;
      errors := if childrenReaped then [] else [ChildProcessRemains];
      var failed;
      details, failed := RequestDrain();
      if failed { errors := errors + [DrainFailed]; }
      if !world.hasProcess {
        errors := errors + [PidUnavailable];
      } else {
        var found := AwaitExit();
        errors := errors + found;
        details := details.(exitCode := returnCode);
      }
      assert events == old(events) + (DrainEvents(world) + AwaitEvents(world, n));
      if forceKillUsed { errors := errors + [ForceKillUsed]; }
      ghost var exited := !world.hasProcess || returnCode.Some? || ExitedBy(world, observations);
      StopErrorsStand(errors, world, details, exited, childrenReaped, killed, n);
    }

    /** The regular stop. Each error it reports stands for its fact; the directory is
        deleted exactly if there is none and the path is the owned one. */
    method GracefulStopAndRemove(childrenReaped: bool) returns (report: Option<Report>)
      requires Valid()
      modifies this
      ensures Valid()
      ensures var n := old(observations);
              var troubled := StopTroubled(world, childrenReaped, old(forceKillUsed), n);
              var tried := old(directory) == Present && !troubled;
              var removable := world.pathOwned && !world.removal.RemovalRaises?;
              && (report.None? <==> tried && !removable)
              && events == old(events) + (DrainEvents(world) + AwaitEvents(world, n))
                           + (if tried && removable then [DirectoryDeleted] else [])
              && directory == (if tried && removable && world.removal == Removed then Gone else old(directory))
              && (report.Some? ==> report.value.preserved == troubled)
              && (report.Some? ==> StopDetails(report.value.details, world, n))
              && (report.Some? ==> StopReport(report.value.errors, world, childrenReaped, old(forceKillUsed), n,
                                              directory == Present && !troubled))
      ensures report.Some? ==>
                (report.value.errors == [] <==>
                   CleanShutdown(world, childrenReaped, old(forceKillUsed), old(observations), old(directory)))
      ensures report.Some? && report.value.errors == [] ==>
                && returnCode == Some(world.exitCode) && report.value.exited && report.value.portsClosed
                && !report.value.panic && !forceKillUsed && !report.value.forceKillUsed
                && report.value.exitAccepted && directory != Present && report.value.directoryGone
      ensures events != old(events) + (DrainEvents(world) + AwaitEvents(world, old(observations))) ==>
                !world.hasProcess || returnCode.Some?
    {
      ghost var n, killed, before := observations, forceKillUsed, directory;
      UntroubledStop(world, childrenReaped, killed, n);
      hide StopError, Judged, Troubled, Reports, StopReport, StopDetails, AwaitEvents, DrainEvents, StopTroubled, DrainConfirmed;
      var errors, details := DrainAndAwait(childrenReaped);
      ghost var exited := !world.hasProcess || returnCode.Some? || ExitedBy(world, observations);
      UntroubledExactly(errors, world, details, exited);
      report := FinalizeCleanup(errors, details, true);
      if report.Some? {
        ghost var remains := directory == Present && !StopTroubled(world, childrenReaped, killed, n);
        ReportOfStop(report.value.errors, errors, world, details, exited, childrenReaped, killed, n, remains);
        CleanExactly(report.value.errors, world, childrenReaped, killed, n, before, remains);
      }
    }

    /** Terminate, wait, kill, wait, as the emergency stop does it. */
    method Terminate() returns (errors: seq<CleanupError>)
      requires Valid() && world.hasProcess
      modifies this`observations, this`returnCode, this`events, this`forceKillUsed
      ensures Valid() && events == old(events) + EmergencyEvents(world, old(observations))
      ensures forceKillUsed <==> old(forceKillUsed) || !ExitedBy(world, old(observations) + 1)
      ensures returnCode.Some? || ExitedBy(world, observations) <==> ExitedBy(world, old(observations) + 3)
      ensures forall e :: e in errors <==> e == PidRemains && !ExitedBy(world, old(observations) + 2)
    {
      errors := [];
      var exited := Poll();
      if exited { return; }
      events := events + [SigTerm];
      var expired := Wait(TERM_WAIT);
      if !expired { return; }
      forceKillUsed := true;
      events := events + [SigKill];
      expired := Wait(KILL_WAIT);
      if expired { errors := [PidRemains]; }
    }

    /** The emergency stop: SIGTERM first, SIGKILL only after an expired wait. The
        directory is deleted exactly if the process has exited by the last look and the
        path is the owned one; each error stands for its fact, and there always is one. */
    method StopAndRemove() returns (report: Option<Report>)
      requires Valid()
      modifies this
      ensures Valid()
      ensures var n := old(observations);
              var tried := old(directory) == Present && (!world.hasProcess || ExitedBy(world, n + 3));
              var removable := world.pathOwned && !world.removal.RemovalRaises?;
              && (report.None? <==> tried && !removable)
              && events == old(events) + EmergencyEvents(world, n) + (if tried && removable then [DirectoryDeleted] else [])
              && directory == (if tried && removable && world.removal == Removed then Gone else old(directory))
              && (report.Some? ==> !report.value.preserved)
              && (report.Some? ==>
                    EmergencyReport(report.value.errors, world, old(forceKillUsed), n, directory == Present))
      ensures report.Some? ==> ExitCodeMismatch in report.value.errors
      ensures events != old(events) + EmergencyEvents(world, old(observations)) ==>
                !world.hasProcess || returnCode.Some?
    {
      ghost var n, killed := observations, forceKillUsed;
      var errors: seq<CleanupError> := [];
      if world.hasProcess { errors := Terminate(); }
      if forceKillUsed { errors := errors + [ForceKillUsed]; }
      ghost var exited := !world.hasProcess || returnCode.Some? || ExitedBy(world, observations);
      EmergencyErrorsStand(errors, world, exited, killed, n);
      hide Judged, Troubled, Reports, EmergencyError, EmergencyReport, EmergencyEvents;
      report := FinalizeCleanup(errors, Details(false, false, false, None), false);
      if report.Some? {
        EmergencyReports(report.value.errors, errors, world, exited, killed, n, directory == Present);
      }
    }
  }

  /** The details of a regular stop: its drain, and the exit code if there was an exit. */
  ghost predicate StopDetails(d: Details, w: World, n: nat) {
    && DrainEvidence(d, w)
    && d.exitCode == if w.hasProcess && ExitedBy(w, n + 3) then Some(w.exitCode) else None
  }

  ghost predicate StopTroubled(w: World, childrenReaped: bool, killedBefore: bool, n: nat) {
    exists e :: StopError(e, w, childrenReaped, killedBefore, n)
  }

  /** What a regular stop finds, before and in its tail, are its errors. */
  lemma StopErrorsStand(
      found: seq<CleanupError>, w: World, details: Details, exited: bool,
      childrenReaped: bool, killedBefore: bool, n: nat)
    requires forall e :: e in found <==>
               || (e == ChildProcessRemains && !childrenReaped)
               || (e == DrainFailed && !DrainConfirmed(w))
               || (e == PidUnavailable && !w.hasProcess)
               || (e == ShutdownTimeout && w.hasProcess && !ExitedBy(w, n + 1))
               || (e == PidRemains && w.hasProcess && !ExitedBy(w, n + 3))
               || (e == ForceKillUsed && (killedBefore || (w.hasProcess && !ExitedBy(w, n + 2))))
    requires w.hasProcess && ExitedBy(w, n + 3) ==> exited
    requires !w.hasProcess ==> exited
    requires details.exitCode == if w.hasProcess && ExitedBy(w, n + 3) then Some(w.exitCode) else None
    requires details.drainCompleted && details.drainMarker && details.drainRequested <==> DrainConfirmed(w)
    ensures forall e :: e in found || Judged(e, w, details, exited) <==>
              StopError(e, w, childrenReaped, killedBefore, n)
    ensures Troubled(found, w, details, exited) <==> StopTroubled(w, childrenReaped, killedBefore, n)
  {
  }

  /** The errors of a regular stop, each once. */
  ghost predicate StopReport(
      errors: seq<CleanupError>, w: World, childrenReaped: bool, killedBefore: bool, n: nat, remains: bool) {
    && (forall i, j :: 0 <= i < j < |errors| ==> errors[i] != errors[j])
    && forall e :: e in errors <==>
         StopError(e, w, childrenReaped, killedBefore, n) || (e == DirectoryRemains && remains)
  }

  lemma ReportOfStop(
      errors: seq<CleanupError>, found: seq<CleanupError>, w: World, details: Details, exited: bool,
      childrenReaped: bool, killedBefore: bool, n: nat, remains: bool)
    requires Reports(errors, found, w, details, exited, remains)
    requires forall e :: e in found || Judged(e, w, details, exited) <==>
               StopError(e, w, childrenReaped, killedBefore, n)
    ensures StopReport(errors, w, childrenReaped, killedBefore, n, remains)
  {
    hide Judged, StopError;
  }

  /** The errors of an emergency stop, each once. */
  ghost predicate EmergencyReport(errors: seq<CleanupError>, w: World, killedBefore: bool, n: nat, remains: bool) {
    && (forall i, j :: 0 <= i < j < |errors| ==> errors[i] != errors[j])
    && forall e :: e in errors <==> EmergencyError(e, w, killedBefore, n) || (e == DirectoryRemains && remains)
  }

  lemma EmergencyReports(
      errors: seq<CleanupError>, found: seq<CleanupError>, w: World, exited: bool,
      killedBefore: bool, n: nat, remains: bool)
    requires Reports(errors, found, w, Details(false, false, false, None), exited, remains)
    requires forall e :: e in found || Judged(e, w, Details(false, false, false, None), exited) <==>
               EmergencyError(e, w, killedBefore, n)
    ensures EmergencyReport(errors, w, killedBefore, n, remains)
    ensures ExitCodeMismatch in errors
  {
    assert EmergencyError(ExitCodeMismatch, w, killedBefore, n);
    hide Judged, EmergencyError;
  }

  lemma EmergencyErrorsStand(found: seq<CleanupError>, w: World, exited: bool, killedBefore: bool, n: nat)
    requires forall e :: e in found <==>
               || (e == PidRemains && w.hasProcess && !ExitedBy(w, n + 2))
               || (e == ForceKillUsed && (killedBefore || (w.hasProcess && !ExitedBy(w, n + 1))))
    requires exited <==> !w.hasProcess || ExitedBy(w, n + 3)
    ensures forall e :: e in found || Judged(e, w, Details(false, false, false, None), exited) <==>
              EmergencyError(e, w, killedBefore, n)
  {
  }

  /** Nothing is wrong with a stop exactly if each of its conditions is met. */
  lemma UntroubledStop(w: World, childrenReaped: bool, killedBefore: bool, n: nat)
    ensures !StopTroubled(w, childrenReaped, killedBefore, n) <==>
              && childrenReaped && !killedBefore && DrainConfirmed(w)
              && w.hasProcess && ExitedBy(w, n + 1)
              && w.log.Evidence? && !w.log.panic
              && (w.exitCode == 0 || (w.exitCode == 1 && w.log.completed && w.log.rpcExit))
              && w.portsClosed
  {
    assert StopError(ChildProcessRemains, w, childrenReaped, killedBefore, n) <==> !childrenReaped;
    assert StopError(DrainFailed, w, childrenReaped, killedBefore, n) <==> !DrainConfirmed(w);
    assert StopError(PidUnavailable, w, childrenReaped, killedBefore, n) <==> !w.hasProcess;
    assert StopError(ShutdownTimeout, w, childrenReaped, killedBefore, n) <==> w.hasProcess && !ExitedBy(w, n + 1);
    assert StopError(LogInspectionFailed, w, childrenReaped, killedBefore, n) <==> w.log.Unreadable?;
    assert StopError(PanicMarker, w, childrenReaped, killedBefore, n) <==> w.log.Evidence? && w.log.panic;
    assert StopError(PortRemains, w, childrenReaped, killedBefore, n) <==> !w.portsClosed;
    assert killedBefore ==> StopError(ForceKillUsed, w, childrenReaped, killedBefore, n);
    if DrainConfirmed(w) && w.hasProcess && ExitedBy(w, n + 1) && w.log.Evidence? {
      ExitCodeOfStop(w, childrenReaped, killedBefore, n);
    }
  }

  lemma ExitCodeOfStop(w: World, childrenReaped: bool, killedBefore: bool, n: nat)
    requires DrainConfirmed(w) && w.hasProcess && ExitedBy(w, n + 1) && w.log.Evidence?
    ensures StopError(ExitCodeMismatch, w, childrenReaped, killedBefore, n) <==>
              !(w.exitCode == 0 || (w.exitCode == 1 && w.log.completed && w.log.rpcExit))
  {
  }

  /** A report without errors is one of a clean shutdown. */
  lemma CleanExactly(
      errors: seq<CleanupError>, w: World, childrenReaped: bool, killedBefore: bool, n: nat,
      before: Directory, remains: bool)
    requires StopReport(errors, w, childrenReaped, killedBefore, n, remains)
    requires remains ==> !StopTroubled(w, childrenReaped, killedBefore, n)
    requires !StopTroubled(w, childrenReaped, killedBefore, n) ==>
               (remains <==> before == Present && w.removal != Removed)
    ensures errors == [] <==> CleanShutdown(w, childrenReaped, killedBefore, n, before)
  {
    UntroubledStop(w, childrenReaped, killedBefore, n);
    assert errors == [] || errors[0] in errors;
    assert remains ==> DirectoryRemains in errors;
    hide StopError, ExitedBy;
  }
}
