/** The server calls of a run, one by one: which statements a migration sends, in what
    order, and which answers it takes for its ledger row to be written. */
module MigrationCalls {
  import opened MigrationProtocol
  import opened MigrationRecovery
  import opened RecoveryLimits
  import opened Sequences

  /** Statement after statement, until one fails. */
  function SendAll(r: Run, faults: Faults, script: seq<Statement>): Run
    decreases |script|
  {
    if script == [] then r else SendAll(Send(r, faults, script[0]), faults, script[1..])
  }

  function RolesScript(m: Migration): seq<Statement> {
    if m.clusterRoles then [Probe, ClusterRoles(m.id, m.roleStatements)] else []
  }

  function SplitScript(m: Migration): seq<Statement> {
    if m.kind == ReplayablePhases then [Probe] else []
  }

  function PartsScript(m: Migration, next: nat, limit: nat): (script: seq<Statement>)
    requires next <= limit
    ensures |script| == limit - next && forall k :: 0 <= k < |script| ==> script[k] == PartStatement(m, next + k)
  {
    seq(limit - next, k requires 0 <= k < limit - next => PartStatement(m, next + k))
  }

  function CheckScript(m: Migration): seq<Statement> {
    if m.catalogCheck then [Probe] else []
  }

  /** What a migration sends before its ledger row. */
  function DefinitionScript(m: Migration): seq<Statement> {
    RolesScript(m) + (SplitScript(m) + (PartsScript(m, 0, m.EarlyParts()) + CheckScript(m)))
  }

  /** The number of those calls, from the migration's own fields. */
  lemma DefinitionCalls(m: Migration)
    ensures |DefinitionScript(m)| ==
              (if m.clusterRoles then 2 else 0) + (if m.kind == ReplayablePhases then 1 else 0)
              + (match m.kind case OneTransaction => 0 case SeparateRecord => 1 case ReplayablePhases => 9)
              + (if m.catalogCheck then 1 else 0)
    ensures m.catalogCheck ==> DefinitionScript(m)[|DefinitionScript(m)| - 1] == Probe
  {
  }

  lemma {:induction false} SendAllConcat(r: Run, faults: Faults, a: seq<Statement>, b: seq<Statement>)
    ensures SendAll(r, faults, a + b) == SendAll(SendAll(r, faults, a), faults, b)
    decreases |a|
  {
    if a == [] {
      assert a + b == b;
    } else {
      assert (a + b)[1..] == a[1..] + b;
      SendAllConcat(Send(r, faults, a[0]), faults, a[1..], b);
    }
  }

  lemma SendAllOne(r: Run, faults: Faults, s: Statement)
    ensures SendAll(r, faults, [s]) == Send(r, faults, s) && SendAll(r, faults, []) == r
  {
    assert [s][1..] == [];
  }

  lemma {:induction false} PartsAreScript(r: Run, faults: Faults, m: Migration, next: nat, limit: nat)
    requires next <= limit
    ensures SendParts(r, faults, m, next, limit) == SendAll(r, faults, PartsScript(m, next, limit))
    decreases limit - next
  {
    if next < limit {
      PartsAreScript(Send(r, faults, PartStatement(m, next)), faults, m, next + 1, limit);
      assert PartsScript(m, next, limit)[1..] == PartsScript(m, next + 1, limit);
    }
  }

  lemma RolesAreScript(r: Run, faults: Faults, m: Migration)
    ensures SendRoles(r, faults, m) == SendAll(r, faults, RolesScript(m))
  {
    if m.clusterRoles {
      assert RolesScript(m)[1..] == [ClusterRoles(m.id, m.roleStatements)];
      SendAllOne(Send(r, faults, Probe), faults, ClusterRoles(m.id, m.roleStatements));
    }
  }

  /** A migration sends its roles, its parts and its catalog check, in that order, then
      its ledger row, and reads the ledger back. */
  lemma ScriptIsSent(r: Run, faults: Faults, m: Migration)
    ensures SendDefinition(r, faults, m) == SendAll(r, faults, DefinitionScript(m))
    ensures ApplyOne(r, faults, m) == ReadLedger(SendAll(r, faults, DefinitionScript(m) + [RecordStatement(m)]), faults)
  {
    var roles := SendRoles(r, faults, m);
    var ready := if m.kind == ReplayablePhases then Send(roles, faults, Probe) else roles;
    var parts := SendParts(ready, faults, m, 0, m.EarlyParts());
    RolesAreScript(r, faults, m);
    PartsAreScript(ready, faults, m, 0, m.EarlyParts());
    SendAllOne(roles, faults, Probe);
    SendAllOne(parts, faults, Probe);
    SendAllOne(SendDefinition(r, faults, m), faults, RecordStatement(m));
    hide SendAll, SendRoles, SendParts, RolesScript, PartsScript, Send;
    SendAllConcat(r, faults, RolesScript(m), SplitScript(m) + (PartsScript(m, 0, m.EarlyParts()) + CheckScript(m)));
    SendAllConcat(roles, faults, SplitScript(m), PartsScript(m, 0, m.EarlyParts()) + CheckScript(m));
    SendAllConcat(ready, faults, PartsScript(m, 0, m.EarlyParts()), CheckScript(m));
    SendAllConcat(r, faults, DefinitionScript(m), [RecordStatement(m)]);
  }

  // ----- which answers it takes -----

  /** The `n` calls from `first` on report success. */
  ghost predicate CleanCalls(faults: Faults, first: nat, n: nat) {
    forall k: nat :: first <= k < first + n ==> faults(k).Clean?
  }

  lemma {:induction false} SuccessIsClean(r: Run, faults: Faults, script: seq<Statement>)
    ensures SendAll(r, faults, script).ok ==>
              && r.ok && CleanCalls(faults, r.calls, |script|)
              && SendAll(r, faults, script).calls == r.calls + |script|
    ensures !r.ok ==> SendAll(r, faults, script) == r
    decreases |script|
  {
    if script != [] {
      SuccessIsClean(Send(r, faults, script[0]), faults, script[1..]);
    }
  }

  /** In any database: no ledger row without a clean answer to every call before it,
      and without one the ledger is as it was. */
  lemma RowNeedsCleanCalls(r: Run, faults: Faults, m: Migration)
    requires r.ok && m.id !in r.db.ledger
    ensures var n := |DefinitionScript(m)|;
            var after := ApplyOne(r, faults, m);
            && (m.id in after.db.ledger ==> CleanCalls(faults, r.calls, n) && !faults(r.calls + n).Refused?)
            && (m.id !in after.db.ledger ==> after.db.ledger == r.db.ledger && !after.ok)
  {
    ScriptIsSent(r, faults, m);
    SuccessIsClean(r, faults, DefinitionScript(m));
    DefinitionKeepsLedger(r, faults, m);
    hide SendAll, SendDefinition, DefinitionScript;
    var defined := SendDefinition(r, faults, m);
    assert ApplyOne(r, faults, m) == ReadLedger(Send(defined, faults, RecordStatement(m)), faults);
  }

  lemma DefinitionSucceeds(chain: seq<Migration>, g: Progress, r: Run, faults: Faults)
    requires ValidChain(chain) && ValidProgress(chain, g) && g.recorded < |chain|
    requires r.ok && r.db == StateAt(chain, g) && !HalfRecorded(chain, g)
    requires CleanCalls(faults, r.calls, |DefinitionScript(chain[g.recorded])|)
    ensures SendDefinition(r, faults, chain[g.recorded]).ok
  {
    var m := chain[g.recorded];
    var _ := DefinitionStep(chain, g, r, NoFaults());
    ScriptIsSent(r, NoFaults(), m);
    SuccessIsClean(r, NoFaults(), DefinitionScript(m));
    hide SendDefinition, SendAll, DefinitionScript, StateAt, ValidChain;
    DefinitionsAgree(r, NoFaults(), faults, m);
  }

  lemma DefinitionOutcome(chain: seq<Migration>, g: Progress, r: Run, faults: Faults)
    requires ValidChain(chain) && ValidProgress(chain, g) && g.recorded < |chain|
    requires r.ok && r.db == StateAt(chain, g)
    ensures var m := chain[g.recorded];
            var n := |DefinitionScript(m)|;
            var defined := SendDefinition(r, faults, m);
            && (defined.ok <==> !HalfRecorded(chain, g) && CleanCalls(faults, r.calls, n))
            && (defined.ok ==> defined.calls == r.calls + n && Accepts(defined.db, RecordStatement(m)))
  {
    var m := chain[g.recorded];
    ScriptIsSent(r, faults, m);
    SuccessIsClean(r, faults, DefinitionScript(m));
    var g1 := DefinitionStep(chain, g, r, faults);
    hide SendAll, SendDefinition, DefinitionScript, StateAt, ValidChain;
    if !HalfRecorded(chain, g) && CleanCalls(faults, r.calls, |DefinitionScript(m)|) {
      DefinitionSucceeds(chain, g, r, faults);
    }
    if SendDefinition(r, faults, m).ok {
      RecordAccepted(chain, g1);
    }
  }

  /** The migration's ledger row appears exactly if all calls before it succeed, its own
      call takes effect, and its definition is not half recorded; and the migration
      succeeds exactly if its own call and both ledger reads succeed as well. */
  ghost predicate RecordsExactly(r: Run, after: Run, faults: Faults, m: Migration, half: bool) {
    var n := |DefinitionScript(m)|;
    && (m.id in after.db.ledger <==> !half && CleanCalls(faults, r.calls, n) && !faults(r.calls + n).Refused?)
    && (m.id !in after.db.ledger ==> after.db.ledger == r.db.ledger)
    && (after.ok <==> !half && CleanCalls(faults, r.calls, n + 3))
    && (after.ok ==> after.calls == r.calls + n + 3)
  }

  /** This holds of the next migration in every reachable database. */
  lemma MigrationOutcome(chain: seq<Migration>, g: Progress, r: Run, faults: Faults)
    requires ValidChain(chain) && ValidProgress(chain, g) && g.recorded < |chain|
    requires r.ok && r.db == StateAt(chain, g)
    ensures RecordsExactly(r, ApplyOne(r, faults, chain[g.recorded]), faults, chain[g.recorded], HalfRecorded(chain, g))
  {
    var m := chain[g.recorded];
    hide *;
    ApplyUnfolds(r, faults, m);
    NextHasNoRow(chain, g);
    DefinitionKeepsLedger(r, faults, m);
    DefinitionOutcome(chain, g, r, faults);
    AfterDefinition(r, SendDefinition(r, faults, m), faults, m, HalfRecorded(chain, g));
  }

  lemma ApplyUnfolds(r: Run, faults: Faults, m: Migration)
    ensures ApplyOne(r, faults, m) == ReadLedger(Send(SendDefinition(r, faults, m), faults, RecordStatement(m)), faults)
  {
  }

  lemma NextHasNoRow(chain: seq<Migration>, g: Progress)
    requires ValidChain(chain) && ValidProgress(chain, g) && g.recorded < |chain|
    ensures chain[g.recorded].id !in StateAt(chain, g).ledger
  {
    NextIsUnrecorded(chain, g);
  }

  lemma AfterDefinition(r: Run, defined: Run, faults: Faults, m: Migration, half: bool)
    requires m.id !in r.db.ledger && defined.db.ledger == r.db.ledger
    requires defined.ok <==> !half && CleanCalls(faults, r.calls, |DefinitionScript(m)|)
    requires defined.ok ==> defined.calls == r.calls + |DefinitionScript(m)| && Accepts(defined.db, RecordStatement(m))
    ensures RecordsExactly(r, ReadLedger(Send(defined, faults, RecordStatement(m)), faults), faults, m, half)
  {
    hide ReadLedger, Send, Accepts, CleanCalls, DefinitionScript;
    CleanCallsSplit(faults, r.calls, |DefinitionScript(m)|, 3);
    if defined.ok {
      RecordAndRead(defined, faults, m);
    } else {
      NotOkStays(defined, faults, m);
    }
  }

  lemma NotOkStays(defined: Run, faults: Faults, m: Migration)
    requires !defined.ok
    ensures ReadLedger(Send(defined, faults, RecordStatement(m)), faults) == defined
  {
  }

  lemma CleanCallsSplit(faults: Faults, first: nat, a: nat, b: nat)
    ensures CleanCalls(faults, first, a + b) <==> CleanCalls(faults, first, a) && CleanCalls(faults, first + a, b)
  {
  }

  lemma RecordAndRead(defined: Run, faults: Faults, m: Migration)
    requires defined.ok && Accepts(defined.db, RecordStatement(m))
    ensures var after := ReadLedger(Send(defined, faults, RecordStatement(m)), faults);
            && (m.id in after.db.ledger <==> !faults(defined.calls).Refused?)
            && (m.id !in after.db.ledger ==> after.db.ledger == defined.db.ledger)
            && (after.ok <==> CleanCalls(faults, defined.calls, 3))
            && (after.ok ==> after.calls == defined.calls + 3)
  {
    assert m.id !in defined.db.ledger;
  }

  /** A catalog check that is not answered with success fails the run and leaves the
      ledger as it was, with the whole definition committed. */
  lemma FailedCheckStops(chain: seq<Migration>, g: Progress, r: Run, faults: Faults)
    requires ValidChain(chain) && ValidProgress(chain, g) && g.recorded < |chain|
    requires r.ok && r.db == StateAt(chain, g) && !HalfRecorded(chain, g)
    requires var m := chain[g.recorded];
             var check := |DefinitionScript(m)| - 1;
             m.catalogCheck && CleanCalls(faults, r.calls, check) && !faults(r.calls + check).Clean?
    ensures var m := chain[g.recorded];
            var after := ApplyOne(r, faults, m);
            && !after.ok && after.db.ledger == r.db.ledger && m.id !in after.db.ledger
            && forall p: nat :: p < m.EarlyParts() ==> (m.id, p) in after.db.parts
  {
    var m := chain[g.recorded];
    hide SendDefinition, StateAt, ValidChain, SendAll, BeforeCheck, ApplyOne, DefinitionScript;
    MigrationOutcome(chain, g, r, faults);
    PartsBeforeCheck(chain, g, r, faults);
    LaterCallsKeepParts(r, faults, m);
  }

  lemma LaterCallsKeepParts(r: Run, faults: Faults, m: Migration)
    requires m.catalogCheck
    ensures SendAll(r, faults, BeforeCheck(m)).db.parts <= ApplyOne(r, faults, m).db.parts
  {
    var front, tail := BeforeCheck(m), [Probe] + [RecordStatement(m)];
    hide SendAll, SendDefinition, DefinitionScript, BeforeCheck, ReadLedger, ApplyOne;
    ScriptIsSent(r, faults, m);
    Associative(front, [Probe], [RecordStatement(m)]);
    SendAllConcat(r, faults, front, tail);
    ScriptKeepsParts(SendAll(r, faults, front), faults, tail);
    ReadKeepsDatabase(SendAll(r, faults, front + tail), faults);
  }

  lemma ReadKeepsDatabase(r: Run, faults: Faults)
    ensures ReadLedger(r, faults).db == r.db
  {
  }

  function BeforeCheck(m: Migration): (front: seq<Statement>)
    requires m.catalogCheck
    ensures DefinitionScript(m) == front + [Probe]
    ensures forall p: nat :: p < m.EarlyParts() ==> PartStatement(m, p) in front
  {
    var front := RolesScript(m) + (SplitScript(m) + PartsScript(m, 0, m.EarlyParts()));
    assert DefinitionScript(m) == front + [Probe];
    assert forall p: nat :: p < m.EarlyParts() ==> PartsScript(m, 0, m.EarlyParts())[p] == PartStatement(m, p);
    front
  }

  lemma {:induction false} ScriptKeepsParts(r: Run, faults: Faults, script: seq<Statement>)
    ensures r.db.parts <= SendAll(r, faults, script).db.parts
    decreases |script|
  {
    if script != [] {
      ScriptKeepsParts(Send(r, faults, script[0]), faults, script[1..]);
    }
  }

  /** A script that succeeds leaves all its parts committed. */
  lemma {:induction false} ScriptLands(r: Run, faults: Faults, script: seq<Statement>, s: Statement)
    requires SendAll(r, faults, script).ok && s in script && s.PartOnly?
    ensures (s.id, s.part) in SendAll(r, faults, script).db.parts
    decreases |script|
  {
    var next := Send(r, faults, script[0]);
    if s == script[0] {
      SuccessIsClean(next, faults, script[1..]);
      ScriptKeepsParts(next, faults, script[1..]);
    } else {
      assert script == [script[0]] + script[1..];
      ScriptLands(next, faults, script[1..], s);
    }
  }

  lemma {:induction false} ScriptsAgree(r: Run, f: Faults, g: Faults, script: seq<Statement>)
    ensures r.calls <= SendAll(r, f, script).calls
    ensures Agree(f, g, r.calls, SendAll(r, f, script).calls) ==> SendAll(r, g, script) == SendAll(r, f, script)
    decreases |script|
  {
    if script != [] {
      SendsAgree(r, f, g, script[0]);
      ScriptsAgree(Send(r, f, script[0]), f, g, script[1..]);
    }
  }

  lemma PartsBeforeCheck(chain: seq<Migration>, g: Progress, r: Run, faults: Faults)
    requires ValidChain(chain) && ValidProgress(chain, g) && g.recorded < |chain|
    requires r.ok && r.db == StateAt(chain, g) && !HalfRecorded(chain, g)
    requires var m := chain[g.recorded];
             m.catalogCheck && CleanCalls(faults, r.calls, |DefinitionScript(m)| - 1)
    ensures var m := chain[g.recorded];
            forall p: nat :: p < m.EarlyParts() ==> (m.id, p) in SendAll(r, faults, BeforeCheck(m)).db.parts
  {
    var m := chain[g.recorded];
    var clean, front := NoFaults(), BeforeCheck(m);
    DefinitionSucceeds(chain, g, r, clean);
    ScriptIsSent(r, clean, m);
    SendAllConcat(r, clean, front, [Probe]);
    SuccessIsClean(SendAll(r, clean, front), clean, [Probe]);
    SuccessIsClean(r, clean, front);
    hide SendAll, SendDefinition, DefinitionScript, BeforeCheck, StateAt, ValidChain;
    ScriptsAgree(r, clean, faults, front);
    forall p: nat | p < m.EarlyParts() ensures (m.id, p) in SendAll(r, faults, front).db.parts {
      ScriptLands(r, faults, front, PartStatement(m, p));
    }
  }

  // ----- a whole run -----

  /** The calls of migrations `i` on: each definition, ledger row and two reads. */
  function CallsFrom(chain: seq<Migration>, i: nat): nat
    requires i <= |chain|
    decreases |chain| - i
  {
    if i == |chain| then 0 else |DefinitionScript(chain[i])| + 3 + CallsFrom(chain, i + 1)
  }

  lemma {:induction false} LoopOutcome(chain: seq<Migration>, k: nat, g: Progress, r: Run, faults: Faults,
                                       applied: seq<string>, skipped: seq<string>)
    requires ValidChain(chain) && ValidProgress(chain, g) && k == g.recorded
    requires r.ok && r.db == StateAt(chain, g)
    ensures var report := ApplyFrom(chain, k, LedgerUpTo(chain, k), r, faults, applied, skipped);
            && (report.outcome.Done? <==> !HalfRecorded(chain, g) && CleanCalls(faults, r.calls, CallsFrom(chain, k)))
            && (report.outcome.Done? ==> report.run.calls == r.calls + CallsFrom(chain, k))
    decreases |chain| - k
  {
    hide StateAt, ValidChain, ApplyOne, DefinitionScript;
    if k < |chain| {
      MigrationOutcome(chain, g, r, faults);
      var g1 := OneRound(chain, g, r, faults, applied, skipped);
      var after := ApplyOne(r, faults, chain[k]);
      CleanCallsSplit(faults, r.calls, |DefinitionScript(chain[k])| + 3, CallsFrom(chain, k + 1));
      if after.ok {
        LoopOutcome(chain, k + 1, g1, after, faults, applied + [chain[k].id], skipped);
      }
    }
  }

  /** The two calls that read the ledger, or the one that finds no ledger table. */
  function ReadCalls(db: Db): nat {
    if LedgerTableExists(db) then 2 else 1
  }

  /** From every reachable database a run is done exactly if each of its calls succeeds
      and no definition is half recorded, and it then made exactly these calls. */
  lemma RunOutcome(chain: seq<Migration>, g: Progress, faults: Faults)
    requires ValidChain(chain) && ValidProgress(chain, g)
    ensures var report := ApplyChain(chain, StateAt(chain, g), faults);
            var n := ReadCalls(StateAt(chain, g)) + CallsFrom(chain, g.recorded);
            && (report.outcome.Done? <==> !HalfRecorded(chain, g) && CleanCalls(faults, 0, n))
            && (report.outcome.Done? ==> report.run.calls == n)
  {
    var db := StateAt(chain, g);
    var r := ReadLedger(Run(db, 0, true), faults);
    assert r.ok <==> CleanCalls(faults, 0, ReadCalls(db));
    assert r.ok ==> r.calls == ReadCalls(db) && r.db == db;
    TableExistsOnceRecorded(chain, g);
    NothingUnknown(chain, g.recorded);
    CleanCallsSplit(faults, 0, ReadCalls(db), CallsFrom(chain, g.recorded));
    hide StateAt, ValidChain, ReadLedger, DefinitionScript, ApplyFrom;
    if r.ok {
      SkipRecorded(chain, 0, g.recorded, r, faults, [], []);
      LoopOutcome(chain, g.recorded, g, r, faults, [], [] + Ids(chain)[0..g.recorded]);
    }
  }
}
