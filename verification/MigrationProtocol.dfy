/** The forward-only migration runner: which SQL batches it sends, what each
    batch may leave behind, and where a run may stop.

    The database is described by the data-definition batches it has committed and
    by its ledger of checksums.  Every call to the server consumes one fault, so a
    run can be stopped before or after any batch takes effect. */
module MigrationProtocol {

  datatype Option<+T> = None | Some(value: T)

  // ----- the chain -----

  /** How a migration reaches the database. */
  datatype Kind =
    | OneTransaction    // definition and ledger row in one transaction
    | SeparateRecord    // definition committed first, ledger row second
    | ReplayablePhases  // nine separately committed phases, then the ledger row

  const PHASE_COUNT: nat := 9

  datatype Migration = Migration(
    id: string,
    checksum: string,
    kind: Kind,
    clusterRoles: bool,     // has a section of cluster-role statements, sent first
    roleStatements: nat,    // how many statements that section holds
    catalogCheck: bool)     // the live catalog is checked before the ledger row
  {
    /** Parts committed on their own, before the ledger row. */
    function EarlyParts(): nat {
      match kind
      case OneTransaction => 0
      case SeparateRecord => 1
      case ReplayablePhases => PHASE_COUNT
    }

    /** Parts committed once the migration is recorded. */
    function TotalParts(): nat {
      if kind == OneTransaction then 1 else EarlyParts()
    }
  }

  const LEDGER_MIGRATION: string := ['0', '0', '0', '1', '_'] + "step4_identity_and_hat_scopes"

  /** What the manifest loader guarantees: no identifier twice, and the chain
      starts with the migration whose definition creates the ledger table. */
  ghost predicate ValidChain(chain: seq<Migration>) {
    && chain != []
    && chain[0].id == LEDGER_MIGRATION && chain[0].kind == OneTransaction && !chain[0].clusterRoles
    && (forall i, j :: 0 <= i < j < |chain| ==> chain[i].id != chain[j].id)
  }

  function Ids(chain: seq<Migration>): (ids: seq<string>)
    ensures |ids| == |chain|
    ensures forall i :: 0 <= i < |chain| ==> ids[i] == chain[i].id
  {
    seq(|chain|, i requires 0 <= i < |chain| => chain[i].id)
  }

  // ----- the database and its answers -----

  type Part = (string, nat)

  datatype Db = Db(roles: set<Part>, parts: set<Part>, ledger: map<string, string>)

  const EMPTY_DB := Db({}, {}, map[])

  predicate LedgerTableExists(db: Db) {
    (LEDGER_MIGRATION, 0) in db.parts
  }

  /** What the runner reads back: an absent ledger table reads as empty. */
  function VisibleLedger(db: Db): map<string, string> {
    if LedgerTableExists(db) then db.ledger else map[]
  }

  datatype Statement =
    | Probe                      // a query or local check: passes or fails, changes nothing
    | ClusterRoles(id: string, count: nat)
    | PartOnly(id: string, part: nat, replayable: bool)
    | RecordOnly(id: string, checksum: string)
    | BodyAndRecord(id: string, checksum: string)

  /** `Refused`: nothing takes effect.  `Lost(n)`: the server carries the batch out
      (of cluster-role statements, which share no transaction, only the first `n`)
      but the runner never learns it: an error, a timeout or its own death. */
  datatype Fault = Clean | Refused | Lost(done: nat)
  type Faults = nat -> Fault

  predicate Accepts(db: Db, s: Statement) {
    match s
    case Probe => true
    case ClusterRoles(_, _) => true
    case PartOnly(id, part, replayable) => replayable || (id, part) !in db.parts
    case RecordOnly(id, _) => LedgerTableExists(db) && id !in db.ledger
    case BodyAndRecord(id, _) =>
      && (id, 0) !in db.parts
      && (LedgerTableExists(db) || id == LEDGER_MIGRATION)
      && id !in db.ledger
  }

  function RoleSet(id: string, count: nat): set<Part> {
    set n: nat | n < count :: (id, n)
  }

  function PartSet(id: string, count: nat): set<Part> {
    set p: nat | p < count :: (id, p)
  }

  function Min(a: nat, b: nat): nat { if a < b then a else b }
  function Max(a: nat, b: nat): nat { if a < b then b else a }

  function Commit(db: Db, s: Statement, roleLimit: nat): Db {
    match s
    case Probe => db
    case ClusterRoles(id, count) => db.(roles := db.roles + RoleSet(id, Min(count, roleLimit)))
    case PartOnly(id, part, _) => db.(parts := db.parts + {(id, part)})
    case RecordOnly(id, checksum) => db.(ledger := db.ledger[id := checksum])
    case BodyAndRecord(id, checksum) =>
      db.(parts := db.parts + {(id, 0)}, ledger := db.ledger[id := checksum])
  }

  /** A run in progress: the database, the number of server calls made, and
      whether every call so far reported success. */
  datatype Run = Run(db: Db, calls: nat, ok: bool)

  function Send(r: Run, faults: Faults, s: Statement): Run {
    if !r.ok then r
    else if !Accepts(r.db, s) then Run(r.db, r.calls + 1, false)
    else match faults(r.calls)
      case Clean => Run(Commit(r.db, s, if s.ClusterRoles? then s.count else 0), r.calls + 1, true)
      case Refused => Run(r.db, r.calls + 1, false)
      case Lost(n) => Run(Commit(r.db, s, n), r.calls + 1, false)
  }

  // ----- one migration, and the whole chain -----

  function ReadLedger(r: Run, faults: Faults): Run {
    var found := Send(r, faults, Probe);
    if found.ok && LedgerTableExists(found.db) then Send(found, faults, Probe) else found
  }

  function PartStatement(m: Migration, part: nat): Statement {
    PartOnly(m.id, part, m.kind == ReplayablePhases)
  }

  function SendParts(r: Run, faults: Faults, m: Migration, next: nat, limit: nat): Run
    requires next <= limit
    decreases limit - next
  {
    if next == limit then r else SendParts(Send(r, faults, PartStatement(m, next)), faults, m, next + 1, limit)
  }

  function SendRoles(r: Run, faults: Faults, m: Migration): Run {
    if m.clusterRoles then
      Send(Send(r, faults, Probe), faults, ClusterRoles(m.id, m.roleStatements))
    else r
  }

  function SendDefinition(r: Run, faults: Faults, m: Migration): Run {
    var roles := SendRoles(r, faults, m);
    var ready := if m.kind == ReplayablePhases then Send(roles, faults, Probe) else roles;
    var parts := SendParts(ready, faults, m, 0, m.EarlyParts());
    if m.catalogCheck then Send(parts, faults, Probe) else parts
  }

  function RecordStatement(m: Migration): Statement {
    if m.kind == OneTransaction then BodyAndRecord(m.id, m.checksum)
    else RecordOnly(m.id, m.checksum)
  }

  function ApplyOne(r: Run, faults: Faults, m: Migration): Run {
    var recorded := Send(SendDefinition(r, faults, m), faults, RecordStatement(m));
    ReadLedger(recorded, faults)
  }

  datatype Failure = SqlFailure | UnknownMigrations(ids: set<string>) | ChecksumMismatch(id: string) | NotRecorded(id: string)
  datatype Outcome = Done(applied: seq<string>, skipped: seq<string>) | Failed(reason: Failure)
  datatype Report = Report(run: Run, outcome: Outcome)

  predicate Holds(ledger: map<string, string>, m: Migration) {
    m.id in ledger && ledger[m.id] == m.checksum
  }

  /** The loop over the chain, from migration `i` on, with the ledger last read. */
  function ApplyFrom(chain: seq<Migration>, i: nat, known: map<string, string>, r: Run, faults: Faults,
                     applied: seq<string>, skipped: seq<string>): Report
    requires i <= |chain|
    decreases |chain| - i
  {
    if i == |chain| then Report(r, Done(applied, skipped))
    else
      var m := chain[i];
      if m.id in known then
        if known[m.id] != m.checksum then Report(r, Failed(ChecksumMismatch(m.id)))
        else ApplyFrom(chain, i + 1, known, r, faults, applied, skipped + [m.id])
      else
        var r' := ApplyOne(r, faults, m);
        if !r'.ok then Report(r', Failed(SqlFailure))
        else if !Holds(VisibleLedger(r'.db), m) then Report(r', Failed(NotRecorded(m.id)))
        else ApplyFrom(chain, i + 1, VisibleLedger(r'.db), r', faults, applied + [m.id], skipped)
  }

  function UnknownIds(chain: seq<Migration>, ledger: map<string, string>): set<string> {
    ledger.Keys - (set m | m in chain :: m.id)
  }

  function ApplyChain(chain: seq<Migration>, db: Db, faults: Faults): Report {
    ApplyChainAt(chain, db, faults, 0)
  }

  function ApplyChainAt(chain: seq<Migration>, db: Db, faults: Faults, calls: nat): Report {
    var r := ReadLedger(Run(db, calls, true), faults);
    if !r.ok then Report(r, Failed(SqlFailure))
    else
      var known := VisibleLedger(r.db);
      var unknown := UnknownIds(chain, known);
      if unknown != {} then Report(r, Failed(UnknownMigrations(unknown)))
      else ApplyFrom(chain, 0, known, r, faults, [], [])
  }

  // ----- the runner itself -----

  lemma {:induction false} StoppedParts(r: Run, faults: Faults, m: Migration, next: nat, limit: nat)
    requires next <= limit && !r.ok
    ensures SendParts(r, faults, m, next, limit) == r
    decreases limit - next
  {
    if next < limit {
      StoppedParts(r, faults, m, next + 1, limit);
    }
  }

  /** The server as the runner's SQL client sees it. */
  class SqlClient {
    var roles: set<Part>
    var parts: set<Part>
    var ledger: map<string, string>
    var calls: nat
    const faults: Faults

    constructor (db: Db, faults: Faults)
      ensures State() == db && this.faults == faults && calls == 0
    {
      roles, parts, ledger := db.roles, db.parts, db.ledger;
      calls := 0;
      this.faults := faults;
    }

    function State(): Db
      reads this
    {
      Db(roles, parts, ledger)
    }

    method Execute(s: Statement) returns (ok: bool)
      modifies this
      ensures Run(State(), calls, ok) == Send(Run(old(State()), old(calls), true), faults, s)
    {
      var db := State();
      var fault := faults(calls);
      calls := calls + 1;
      if !Accepts(db, s) || fault.Refused? {
        return false;
      }
      var limit := if fault.Lost? then fault.done else if s.ClusterRoles? then s.count else 0;
      var after := Commit(db, s, limit);
      roles, parts, ledger := after.roles, after.parts, after.ledger;
      ok := fault.Clean?;
    }

    method AppliedMigrations() returns (seen: Option<map<string, string>>)
      modifies this
      ensures var r := ReadLedger(Run(old(State()), old(calls), true), faults);
              r == Run(State(), calls, seen.Some?) && (seen.Some? ==> seen.value == VisibleLedger(r.db))
    {
      var ok := Execute(Probe);
      if !ok { return None; }
      if !LedgerTableExists(State()) { return Some(map[]); }
      ok := Execute(Probe);
      if !ok { return None; }
      return Some(ledger);
    }

    /** Everything of one migration that precedes its ledger row. */
    method SendDefinitionOf(m: Migration) returns (ok: bool, bodyPending: bool)
      modifies this
      ensures Run(State(), calls, ok) == SendDefinition(Run(old(State()), old(calls), true), faults, m)
      ensures ok ==> bodyPending == (m.kind == OneTransaction)
    {
      bodyPending := m.kind == OneTransaction;
      ok := true;
      if m.clusterRoles {
        ok := Execute(Probe);
        if ok {
          ok := Execute(ClusterRoles(m.id, m.roleStatements));
        }
      }
      ghost var roles := Run(State(), calls, ok);
      assert roles == SendRoles(Run(old(State()), old(calls), true), faults, m);
      ok := SendPartsOf(m, ok);
      if ok && m.catalogCheck {
        ok := Execute(Probe);
      }
    }

    method SendPartsOf(m: Migration, proceed: bool) returns (ok: bool)
      modifies this
      ensures var roles := Run(old(State()), old(calls), proceed);
              var ready := if m.kind == ReplayablePhases then Send(roles, faults, Probe) else roles;
              Run(State(), calls, ok) == SendParts(ready, faults, m, 0, m.EarlyParts())
    {
      ok := proceed;
      if ok && m.kind == ReplayablePhases {
        ok := Execute(Probe);
      }
      ghost var ready := Run(State(), calls, ok);
      if !ok {
        StoppedParts(ready, faults, m, 0, m.EarlyParts());
        return;
      }
      var part := 0;
      while part < m.EarlyParts()
        invariant part <= m.EarlyParts()
        invariant SendParts(Run(State(), calls, true), faults, m, part, m.EarlyParts())
                  == SendParts(ready, faults, m, 0, m.EarlyParts())
      {
        ok := Execute(PartStatement(m, part));
        part := part + 1;
        if !ok {
          StoppedParts(Run(State(), calls, ok), faults, m, part, m.EarlyParts());
          return;
        }
      }
    }

    method ApplyMigrations(chain: seq<Migration>) returns (outcome: Outcome)
      modifies this
      ensures var report := ApplyChainAt(chain, old(State()), faults, old(calls));
              && outcome == report.outcome
              && State() == report.run.db && calls == report.run.calls
    {
      var first := AppliedMigrations();
      if first.None? { return Failed(SqlFailure); }
      var already := first.value;
      var unknown := UnknownIds(chain, already);
      if unknown != {} { return Failed(UnknownMigrations(unknown)); }
      var applied, skipped := [], [];
      ghost var whole := ApplyFrom(chain, 0, already, Run(State(), calls, true), faults, [], []);
      for i := 0 to |chain|
        invariant whole == ApplyFrom(chain, i, already, Run(State(), calls, true), faults, applied, skipped)
      {
        var m := chain[i];
        if m.id in already {
          if already[m.id] != m.checksum { return Failed(ChecksumMismatch(m.id)); }
          skipped := skipped + [m.id];
          continue;
        }
        var ok, bodyPending := SendDefinitionOf(m);
        if !ok { return Failed(SqlFailure); }
        ok := Execute(if bodyPending then BodyAndRecord(m.id, m.checksum) else RecordOnly(m.id, m.checksum));
        if !ok { return Failed(SqlFailure); }
        var recorded := AppliedMigrations();
        if recorded.None? { return Failed(SqlFailure); }
        if !Holds(recorded.value, m) { return Failed(NotRecorded(m.id)); }
        applied := applied + [m.id];
        already := recorded.value;
      }
      return Done(applied, skipped);
    }
  }
}
