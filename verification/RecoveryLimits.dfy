/** The failing half of recovery is real: for every migration that keeps its ledger
    row in a second transaction, one lost answer leaves the definition ahead of the
    ledger. */
module RecoveryLimits {
  import opened MigrationProtocol
  import opened MigrationRecovery

  function NoFaults(): Faults {
    _ => Clean
  }

  /** The server carries out one call and the runner never learns it. */
  function LostAt(call: nat): Faults {
    n => if n == call then Lost(0) else Clean
  }

  /** Two fault patterns that cannot be told apart by the calls from `first` to `next`. */
  ghost predicate Agree(f: Faults, g: Faults, first: nat, next: nat) {
    forall k: nat :: first <= k < next ==> f(k) == g(k)
  }

  lemma {:induction false} PartsAgree(r: Run, f: Faults, g: Faults, m: Migration, next: nat, limit: nat)
    requires next <= limit
    ensures r.calls <= SendParts(r, f, m, next, limit).calls
    ensures Agree(f, g, r.calls, SendParts(r, f, m, next, limit).calls) ==>
              SendParts(r, g, m, next, limit) == SendParts(r, f, m, next, limit)
    decreases limit - next
  {
    if next < limit {
      PartsAgree(Send(r, f, PartStatement(m, next)), f, g, m, next + 1, limit);
    }
  }

  lemma RolesAgree(r: Run, f: Faults, g: Faults, m: Migration)
    ensures r.calls <= SendRoles(r, f, m).calls
    ensures Agree(f, g, r.calls, SendRoles(r, f, m).calls) ==> SendRoles(r, g, m) == SendRoles(r, f, m)
  {
  }

  lemma DefinitionsAgree(r: Run, f: Faults, g: Faults, m: Migration)
    ensures r.calls <= SendDefinition(r, f, m).calls
    ensures Agree(f, g, r.calls, SendDefinition(r, f, m).calls) ==> SendDefinition(r, g, m) == SendDefinition(r, f, m)
  {
    var roles := SendRoles(r, f, m);
    var ready := if m.kind == ReplayablePhases then Send(roles, f, Probe) else roles;
    var parts := SendParts(ready, f, m, 0, m.EarlyParts());
    RolesAgree(r, f, g, m);
    PartsAgree(ready, f, g, m, 0, m.EarlyParts());
    SendsAgree(roles, f, g, Probe);
    SendsAgree(parts, f, g, Probe);
    hide SendRoles, SendParts, Send;
    var n := SendDefinition(r, f, m).calls;
    assert roles.calls <= ready.calls <= parts.calls <= n;
    if Agree(f, g, r.calls, n) {
      assert Agree(f, g, r.calls, roles.calls) && Agree(f, g, roles.calls, ready.calls);
      assert Agree(f, g, ready.calls, parts.calls) && Agree(f, g, parts.calls, n);
    }
  }

  lemma SendsAgree(r: Run, f: Faults, g: Faults, s: Statement)
    ensures r.calls <= Send(r, f, s).calls
    ensures Agree(f, g, r.calls, Send(r, f, s).calls) ==> Send(r, g, s) == Send(r, f, s)
  {
  }

  lemma MigrationsAgree(r: Run, f: Faults, g: Faults, m: Migration)
    ensures r.calls <= ApplyOne(r, f, m).calls
    ensures Agree(f, g, r.calls, ApplyOne(r, f, m).calls) ==> ApplyOne(r, g, m) == ApplyOne(r, f, m)
  {
    DefinitionsAgree(r, f, g, m);
    hide SendDefinition;
  }

  /** A run from an empty database as it comes to migration `j`. */
  function Reached(chain: seq<Migration>, j: nat, faults: Faults): Run
    requires j <= |chain|
  {
    if j == 0 then ReadLedger(Run(EMPTY_DB, 0, true), faults)
    else ApplyOne(Reached(chain, j - 1, faults), faults, chain[j - 1])
  }

  lemma {:induction false} ReachedAgrees(chain: seq<Migration>, j: nat, f: Faults, g: Faults)
    requires j <= |chain| && Agree(f, g, 0, Reached(chain, j, f).calls)
    ensures forall i :: 0 <= i <= j ==> Reached(chain, i, g) == Reached(chain, i, f)
  {
    if j > 0 {
      hide ApplyOne;
      MigrationsAgree(Reached(chain, j - 1, f), f, g, chain[j - 1]);
      ReachedAgrees(chain, j - 1, f, g);
    }
  }

  lemma CleanStart(chain: seq<Migration>)
    requires ValidChain(chain)
    ensures ValidProgress(chain, Progress(0, 0, 0))
    ensures Reached(chain, 0, NoFaults()).ok
    ensures Reached(chain, 0, NoFaults()).db == StateAt(chain, Progress(0, 0, 0)) == EMPTY_DB
  {
    EmptyIsStart(chain);
  }

  lemma {:induction false} CleanRunReaches(chain: seq<Migration>, j: nat)
    requires ValidChain(chain) && j <= |chain|
    ensures ValidProgress(chain, Progress(j, 0, 0))
    ensures Reached(chain, j, NoFaults()).ok
    ensures Reached(chain, j, NoFaults()).db == StateAt(chain, Progress(j, 0, 0))
  {
    CleanStart(chain);
    hide StateAt, ApplyOne, ValidChain, ReadLedger;
    if j > 0 {
      CleanRunReaches(chain, j - 1);
      CleanMigration(chain, j - 1, Reached(chain, j - 1, NoFaults()));
      hide HalfRecorded, SendDefinition;
    }
  }

  lemma CleanMigration(chain: seq<Migration>, j: nat, r: Run)
    requires ValidChain(chain) && j < |chain| && ValidProgress(chain, Progress(j, 0, 0))
    requires r.ok && r.db == StateAt(chain, Progress(j, 0, 0))
    ensures ValidProgress(chain, Progress(j + 1, 0, 0))
    ensures ApplyOne(r, NoFaults(), chain[j]).ok
    ensures ApplyOne(r, NoFaults(), chain[j]).db == StateAt(chain, Progress(j + 1, 0, 0))
  {
    hide StateAt, ApplyOne, ValidChain;
    var _ := OneMigration(chain, Progress(j, 0, 0), r, NoFaults());
  }

  /** One round of the loop for a migration that meets no fault. */
  lemma LoopStep(chain: seq<Migration>, j: nat, r: Run, faults: Faults)
    requires ValidChain(chain) && j < |chain| && ValidProgress(chain, Progress(j, 0, 0))
    requires r.ok && r.db == StateAt(chain, Progress(j, 0, 0)) && ApplyOne(r, faults, chain[j]).ok
    ensures ApplyFrom(chain, j, LedgerUpTo(chain, j), r, faults, Ids(chain)[..j], [])
            == ApplyFrom(chain, j + 1, LedgerUpTo(chain, j + 1), ApplyOne(r, faults, chain[j]), faults, Ids(chain)[..j + 1], [])
  {
    hide ApplyOne, StateAt, ApplyFrom, LedgerUpTo, ValidChain;
    var _ := OneRound(chain, Progress(j, 0, 0), r, faults, Ids(chain)[..j], []);
    assert Ids(chain)[..j + 1] == Ids(chain)[..j] + [chain[j].id];
  }

  /** Up to migration `j` the loop follows the clean run. */
  lemma {:induction false} LoopReaches(chain: seq<Migration>, j: nat, faults: Faults)
    requires ValidChain(chain) && j <= |chain|
    requires forall i :: 0 <= i <= j ==> Reached(chain, i, faults) == Reached(chain, i, NoFaults())
    ensures ApplyFrom(chain, 0, LedgerUpTo(chain, 0), Reached(chain, 0, faults), faults, [], [])
            == ApplyFrom(chain, j, LedgerUpTo(chain, j), Reached(chain, j, faults), faults, Ids(chain)[..j], [])
  {
    hide ApplyOne, StateAt, ApplyFrom, LedgerUpTo, ValidChain, ReadLedger;
    if j == 0 {
      assert Ids(chain)[..0] == [];
    } else {
      LoopReaches(chain, j - 1, faults);
      CleanRunReaches(chain, j - 1);
      CleanRunReaches(chain, j);
      LoopStep(chain, j - 1, Reached(chain, j - 1, faults), faults);
    }
  }

  /** Losing the answer to a definition commits it and ends the run. */
  lemma LostDefinition(chain: seq<Migration>, k: nat, r: Run, faults: Faults)
    requires ValidChain(chain) && k < |chain| && chain[k].kind == SeparateRecord
    requires ValidProgress(chain, Progress(k, 0, 0)) && r.ok && r.db == StateAt(chain, Progress(k, 0, 0))
    requires SendRoles(r, faults, chain[k]).ok && faults(SendRoles(r, faults, chain[k]).calls) == Lost(0)
    ensures var after := ApplyOne(r, faults, chain[k]);
            && !after.ok && (chain[k].id, 0) in after.db.parts && after.db.ledger == LedgerUpTo(chain, k)
  {
    var m := chain[k];
    var ready := SendRoles(r, faults, m);
    CommittedOnly(chain, k);
    assert ready.db.parts == r.db.parts && ready.db.ledger == r.db.ledger;
    assert (m.id, 0) !in ready.db.parts;
    hide SendRoles, StateAt, ValidChain;
    var lost := Send(ready, faults, PartStatement(m, 0));
    assert SendParts(lost, faults, m, 1, 1) == lost;
    assert SendParts(ready, faults, m, 0, 1) == lost;
    assert SendDefinition(r, faults, m) == lost;
  }

  /** For every such migration there is one run that gets its definition ahead of
      the ledger. */
  lemma DefinitionCanGetAhead(chain: seq<Migration>, k: nat) returns (faults: Faults)
    requires ValidChain(chain) && k < |chain| && chain[k].kind == SeparateRecord
    ensures DefinitionAheadOfLedger(chain, Campaign(chain, EMPTY_DB, [faults]))
    ensures (chain[k].id, 0) in Campaign(chain, EMPTY_DB, [faults]).parts
    ensures chain[k].id !in Campaign(chain, EMPTY_DB, [faults]).ledger
  {
    var clean := NoFaults();
    var r := Reached(chain, k, clean);
    var ready := SendRoles(r, clean, chain[k]);
    CleanRunReaches(chain, k);
    RolesAgree(r, clean, LostAt(ready.calls), chain[k]);
    assert ready.ok;
    faults := LostAt(ready.calls);
    ReachedAgrees(chain, k, clean, faults);
    LostDefinition(chain, k, r, faults);
    RunEndsAt(chain, k, faults);
    RecordedOnly(chain, k);
    var crashed := ApplyOne(r, faults, chain[k]).db;
    hide ApplyOne, SendRoles, Reached, StateAt, ApplyChain;
    assert Campaign(chain, EMPTY_DB, [faults]) == crashed by {
      assert [faults][1..] == [];
    }
    forall i | 0 <= i < k ensures chain[i].id in crashed.ledger {
      assert Holds(LedgerUpTo(chain, k), chain[i]);
    }
  }

  /** A run that follows the clean one up to migration `k` and fails there. */
  lemma RunEndsAt(chain: seq<Migration>, k: nat, faults: Faults)
    requires ValidChain(chain) && k < |chain|
    requires forall i :: 0 <= i <= k ==> Reached(chain, i, faults) == Reached(chain, i, NoFaults())
    requires !ApplyOne(Reached(chain, k, faults), faults, chain[k]).ok
    ensures ApplyChain(chain, EMPTY_DB, faults).run == ApplyOne(Reached(chain, k, faults), faults, chain[k])
  {
    var r := Reached(chain, k, faults);
    LoopReaches(chain, k, faults);
    CleanRunReaches(chain, k);
    CleanRunReaches(chain, 0);
    var _ := OneRound(chain, Progress(k, 0, 0), r, faults, Ids(chain)[..k], []);
    EmptyIsStart(chain);
    hide ApplyOne, StateAt;
    assert Reached(chain, 0, faults) == ReadLedger(Run(EMPTY_DB, 0, true), faults);
    assert VisibleLedger(Reached(chain, 0, faults).db) == LedgerUpTo(chain, 0);
    assert UnknownIds(chain, LedgerUpTo(chain, 0)) == {};
  }

  /** So a single lost answer can make every later run fail, faults or none. */
  lemma OneLostAnswerIsEnough(chain: seq<Migration>, k: nat, more: seq<Faults>, clean: Faults) returns (faults: Faults)
    requires ValidChain(chain) && k < |chain| && chain[k].kind == SeparateRecord && AllClean(clean)
    ensures var crashed := Campaign(chain, EMPTY_DB, [faults]);
            && chain[k].id !in crashed.ledger
            && Campaign(chain, crashed, more) == crashed
            && ApplyChain(chain, crashed, clean).outcome == Failed(SqlFailure)
  {
    faults := DefinitionCanGetAhead(chain, k);
    AheadOfLedgerIsPermanent(chain, [faults], more);
    Recovery(chain, [faults], clean);
  }
}
