/** What any sequence of interrupted migration runs can leave behind, and what the
    next run makes of it.

    A reachable database is completely described by how many migrations are
    recorded and how much of the next one is already committed. */
module MigrationRecovery {
  import opened MigrationProtocol

  datatype Progress = Progress(recorded: nat, roles: nat, parts: nat)

  ghost predicate ValidProgress(chain: seq<Migration>, g: Progress) {
    && g.recorded <= |chain|
    && (g.recorded == |chain| ==> g.roles == g.parts == 0)
    && (g.recorded < |chain| ==>
          var m := chain[g.recorded];
          && g.parts <= m.EarlyParts()
          && g.roles <= (if m.clusterRoles then m.roleStatements else 0)
          && (g.parts > 0 && m.clusterRoles ==> g.roles == m.roleStatements))
  }

  function RolesOf(m: Migration): set<Part> {
    if m.clusterRoles then RoleSet(m.id, m.roleStatements) else {}
  }

  function RolesUpTo(chain: seq<Migration>, k: nat): set<Part>
    requires k <= |chain|
  {
    if k == 0 then {} else RolesUpTo(chain, k - 1) + RolesOf(chain[k - 1])
  }

  function PartsUpTo(chain: seq<Migration>, k: nat): set<Part>
    requires k <= |chain|
  {
    if k == 0 then {} else PartsUpTo(chain, k - 1) + PartSet(chain[k - 1].id, chain[k - 1].TotalParts())
  }

  function LedgerUpTo(chain: seq<Migration>, k: nat): map<string, string>
    requires k <= |chain|
  {
    if k == 0 then map[] else LedgerUpTo(chain, k - 1)[chain[k - 1].id := chain[k - 1].checksum]
  }

  /** The database after `g.recorded` migrations and that much of the next one. */
  ghost function StateAt(chain: seq<Migration>, g: Progress): Db
    requires ValidProgress(chain, g)
  {
    var k := g.recorded;
    Db(RolesUpTo(chain, k) + (if k < |chain| then RoleSet(chain[k].id, g.roles) else {}),
       PartsUpTo(chain, k) + (if k < |chain| then PartSet(chain[k].id, g.parts) else {}),
       LedgerUpTo(chain, k))
  }

  // ----- reading the canonical state -----

  lemma {:induction false} RecordedOnly(chain: seq<Migration>, k: nat)
    requires ValidChain(chain) && k <= |chain|
    ensures forall i :: 0 <= i < k ==> Holds(LedgerUpTo(chain, k), chain[i])
    ensures forall i :: k <= i < |chain| ==> chain[i].id !in LedgerUpTo(chain, k)
    ensures forall id :: id in LedgerUpTo(chain, k) ==> exists i :: 0 <= i < k && chain[i].id == id
  {
    if k > 0 {
      RecordedOnly(chain, k - 1);
    }
  }

  lemma {:induction false} CommittedOnly(chain: seq<Migration>, k: nat)
    requires ValidChain(chain) && k <= |chain|
    ensures forall i, p: nat :: 0 <= i < k && p < chain[i].TotalParts() ==> (chain[i].id, p) in PartsUpTo(chain, k)
    ensures forall i, p: nat :: k <= i < |chain| ==> (chain[i].id, p) !in PartsUpTo(chain, k)
    ensures forall i :: 0 <= i < k ==> RolesOf(chain[i]) <= RolesUpTo(chain, k)
    ensures forall i, p: nat :: k <= i < |chain| ==> (chain[i].id, p) !in RolesUpTo(chain, k)
  {
    if k > 0 {
      CommittedOnly(chain, k - 1);
    }
  }

  lemma TableExistsOnceRecorded(chain: seq<Migration>, g: Progress)
    requires ValidChain(chain) && ValidProgress(chain, g)
    ensures LedgerTableExists(StateAt(chain, g)) <==> g.recorded > 0
    ensures VisibleLedger(StateAt(chain, g)) == LedgerUpTo(chain, g.recorded)
  {
    CommittedOnly(chain, g.recorded);
    if g.recorded > 0 {
      assert (chain[0].id, 0) in PartsUpTo(chain, g.recorded);
    }
  }

  // ----- one server call -----

  lemma RolesStep(chain: seq<Migration>, g: Progress, r: Run, faults: Faults) returns (g': Progress)
    requires ValidChain(chain) && ValidProgress(chain, g) && g.recorded < |chain|
    requires r.ok && r.db == StateAt(chain, g) && chain[g.recorded].clusterRoles
    ensures ValidProgress(chain, g') && g'.recorded == g.recorded && g'.parts == g.parts && g.roles <= g'.roles
    ensures var m := chain[g.recorded];
            var r' := Send(r, faults, ClusterRoles(m.id, m.roleStatements));
            && r'.db == StateAt(chain, g')
            && (r'.ok ==> g'.roles == m.roleStatements)
            && (faults(r.calls).Clean? ==> r'.ok)
  {
    var m := chain[g.recorded];
    var sent := match faults(r.calls) case Clean => m.roleStatements case Refused => 0 case Lost(n) => Min(m.roleStatements, n);
    g' := g.(roles := Max(g.roles, sent));
    assert RoleSet(m.id, g.roles) + RoleSet(m.id, sent) == RoleSet(m.id, g'.roles);
    assert Send(r, faults, ClusterRoles(m.id, m.roleStatements)).db.roles == StateAt(chain, g').roles;
  }

  lemma PartStep(chain: seq<Migration>, g: Progress, r: Run, faults: Faults, p: nat) returns (g': Progress)
    requires ValidChain(chain) && ValidProgress(chain, g) && g.recorded < |chain|
    requires r.ok && r.db == StateAt(chain, g)
    requires p <= g.parts && p < chain[g.recorded].EarlyParts()
    requires chain[g.recorded].clusterRoles ==> g.roles == chain[g.recorded].roleStatements
    ensures ValidProgress(chain, g') && g'.recorded == g.recorded && g'.roles == g.roles && g.parts <= g'.parts
    ensures var m := chain[g.recorded];
            var r' := Send(r, faults, PartStatement(m, p));
            && r'.db == StateAt(chain, g')
            && (r'.ok ==> p < g'.parts)
            && (faults(r.calls).Clean? && (p == g.parts || m.kind == ReplayablePhases) ==> r'.ok)
            && (p < g.parts && m.kind == SeparateRecord ==> !r'.ok && g' == g)
  {
    var m := chain[g.recorded];
    CommittedOnly(chain, g.recorded);
    assert (m.id, p) in r.db.parts <==> p < g.parts;
    var lands := Accepts(r.db, PartStatement(m, p)) && !faults(r.calls).Refused?;
    g' := g.(parts := if lands then Max(g.parts, p + 1) else g.parts);
    assert PartSet(m.id, g.parts) + (if lands then {(m.id, p)} else {}) == PartSet(m.id, g'.parts);
    assert Send(r, faults, PartStatement(m, p)).db.parts == StateAt(chain, g').parts;
  }

  /** Sending parts `p`, `p+1`, ... of the next migration in order. */
  lemma {:induction false} PartsStep(chain: seq<Migration>, g: Progress, r: Run, faults: Faults, p: nat) returns (g': Progress)
    requires ValidChain(chain) && ValidProgress(chain, g) && g.recorded < |chain|
    requires r.db == StateAt(chain, g) && p <= chain[g.recorded].EarlyParts()
    requires r.ok ==> p <= g.parts && (chain[g.recorded].clusterRoles ==> g.roles == chain[g.recorded].roleStatements)
    ensures ValidProgress(chain, g') && g'.recorded == g.recorded && g'.roles == g.roles && g.parts <= g'.parts
    ensures var m := chain[g.recorded];
            var r' := SendParts(r, faults, m, p, m.EarlyParts());
            && r'.db == StateAt(chain, g')
            && (r'.ok ==> r.ok && g'.parts == m.EarlyParts())
            && (AllClean(faults) && r.ok && (p >= g.parts || m.kind == ReplayablePhases) ==> r'.ok)
            && (p < g.parts && m.kind == SeparateRecord ==> !r'.ok && g' == g)
    decreases chain[g.recorded].EarlyParts() - p
  {
    var m := chain[g.recorded];
    if !r.ok {
      StoppedParts(r, faults, m, p, m.EarlyParts());
      g' := g;
    } else if p == m.EarlyParts() {
      g' := g;
    } else {
      var g1 := PartStep(chain, g, r, faults, p);
      var r1 := Send(r, faults, PartStatement(m, p));
      g' := PartsStep(chain, g1, r1, faults, p + 1);
    }
  }

  ghost predicate AllClean(faults: Faults) {
    forall n: nat :: faults(n).Clean?
  }

  /** A run cannot pass a migration whose definition is committed but unrecorded,
      unless that definition may be replayed. */
  ghost predicate HalfRecorded(chain: seq<Migration>, g: Progress)
    requires ValidProgress(chain, g)
  {
    g.recorded < |chain| && g.parts > 0 && chain[g.recorded].kind == SeparateRecord
  }

  lemma DefinitionStep(chain: seq<Migration>, g: Progress, r: Run, faults: Faults) returns (g': Progress)
    requires ValidChain(chain) && ValidProgress(chain, g) && g.recorded < |chain|
    requires r.ok && r.db == StateAt(chain, g)
    ensures ValidProgress(chain, g') && g'.recorded == g.recorded && g.roles <= g'.roles && g.parts <= g'.parts
    ensures var m := chain[g.recorded];
            var r' := SendDefinition(r, faults, m);
            && r'.db == StateAt(chain, g')
            && (r'.ok ==> g'.parts == m.EarlyParts() && (m.clusterRoles ==> g'.roles == m.roleStatements))
            && (HalfRecorded(chain, g) ==> !r'.ok && g' == g)
            && (AllClean(faults) && !HalfRecorded(chain, g) ==> r'.ok)
  {
    var m := chain[g.recorded];
    var g1 := g;
    if m.clusterRoles {
      var r0 := Send(r, faults, Probe);
      if r0.ok {
        g1 := RolesStep(chain, g, r0, faults);
      }
    }
    var roles := SendRoles(r, faults, m);
    var ready := if m.kind == ReplayablePhases then Send(roles, faults, Probe) else roles;
    g' := PartsStep(chain, g1, ready, faults, 0);
  }

  /** Committing the ledger row closes the migration. */
  lemma RecordCloses(chain: seq<Migration>, g: Progress)
    requires ValidChain(chain) && ValidProgress(chain, g) && g.recorded < |chain|
    requires g.parts == chain[g.recorded].EarlyParts()
    requires chain[g.recorded].clusterRoles ==> g.roles == chain[g.recorded].roleStatements
    ensures ValidProgress(chain, Progress(g.recorded + 1, 0, 0))
    ensures Commit(StateAt(chain, g), RecordStatement(chain[g.recorded]), 0)
            == StateAt(chain, Progress(g.recorded + 1, 0, 0))
  {
    var k := g.recorded;
    var m := chain[k];
    var before, after := StateAt(chain, g), StateAt(chain, Progress(k + 1, 0, 0));
    assert PartSet(m.id, g.parts) + (if m.kind == OneTransaction then {(m.id, 0)} else {}) == PartSet(m.id, m.TotalParts());
    assert before.parts + (if m.kind == OneTransaction then {(m.id, 0)} else {}) == PartsUpTo(chain, k + 1) == after.parts;
    assert RoleSet(m.id, g.roles) == RolesOf(m);
    assert before.roles == RolesUpTo(chain, k + 1) == after.roles;
  }

  lemma RecordAccepted(chain: seq<Migration>, g: Progress)
    requires ValidChain(chain) && ValidProgress(chain, g) && g.recorded < |chain|
    requires g.parts == chain[g.recorded].EarlyParts()
    ensures Accepts(StateAt(chain, g), RecordStatement(chain[g.recorded]))
  {
    CommittedOnly(chain, g.recorded);
    RecordedOnly(chain, g.recorded);
    TableExistsOnceRecorded(chain, g);
  }

  lemma RecordStep(chain: seq<Migration>, g: Progress, r: Run, faults: Faults) returns (g': Progress)
    requires ValidChain(chain) && ValidProgress(chain, g) && g.recorded < |chain|
    requires r.ok && r.db == StateAt(chain, g)
    requires g.parts == chain[g.recorded].EarlyParts()
    requires chain[g.recorded].clusterRoles ==> g.roles == chain[g.recorded].roleStatements
    ensures ValidProgress(chain, g') && (g' == g || g' == Progress(g.recorded + 1, 0, 0))
    ensures var r' := Send(r, faults, RecordStatement(chain[g.recorded]));
            && r'.db == StateAt(chain, g')
            && (r'.ok ==> g'.recorded == g.recorded + 1)
            && (faults(r.calls).Clean? ==> r'.ok)
  {
    RecordAccepted(chain, g);
    RecordCloses(chain, g);
    g' := if faults(r.calls).Refused? then g else Progress(g.recorded + 1, 0, 0);
  }

  ghost predicate NoLess(g: Progress, g': Progress) {
    g.recorded < g'.recorded || (g.recorded == g'.recorded && g.roles <= g'.roles && g.parts <= g'.parts)
  }

  lemma OneMigration(chain: seq<Migration>, g: Progress, r: Run, faults: Faults) returns (g': Progress)
    requires ValidChain(chain) && ValidProgress(chain, g) && g.recorded < |chain|
    requires r.ok && r.db == StateAt(chain, g)
    ensures ValidProgress(chain, g') && NoLess(g, g') && g'.recorded <= g.recorded + 1
    ensures var r' := ApplyOne(r, faults, chain[g.recorded]);
            && r'.db == StateAt(chain, g')
            && (r'.ok ==> g' == Progress(g.recorded + 1, 0, 0))
            && (HalfRecorded(chain, g) ==> !r'.ok && g' == g)
            && (AllClean(faults) && !HalfRecorded(chain, g) ==> r'.ok)
  {
    hide SendDefinition, StateAt, ValidChain;
    var m := chain[g.recorded];
    g' := DefinitionStep(chain, g, r, faults);
    var defined := SendDefinition(r, faults, m);
    if defined.ok {
      g' := RecordStep(chain, g', defined, faults);
    }
  }

  // ----- a whole run -----

  lemma RecordedHolds(chain: seq<Migration>, i: nat, k: nat)
    requires ValidChain(chain) && i < k <= |chain|
    ensures Holds(LedgerUpTo(chain, k), chain[i])
  {
    RecordedOnly(chain, k);
  }

  /** The loop walks over recorded migrations without a server call. */
  lemma {:induction false} SkipRecorded(chain: seq<Migration>, i: nat, k: nat, r: Run, faults: Faults,
                                        applied: seq<string>, skipped: seq<string>)
    requires ValidChain(chain) && i <= k <= |chain|
    ensures ApplyFrom(chain, i, LedgerUpTo(chain, k), r, faults, applied, skipped)
            == ApplyFrom(chain, k, LedgerUpTo(chain, k), r, faults, applied, skipped + Ids(chain)[i..k])
    decreases k - i
  {
    if i == k {
      assert skipped + Ids(chain)[i..k] == skipped;
    } else {
      RecordedHolds(chain, i, k);
      hide ValidChain, LedgerUpTo;
      SkipRecorded(chain, i + 1, k, r, faults, applied, skipped + [chain[i].id]);
      assert skipped + [chain[i].id] + Ids(chain)[i + 1..k] == skipped + Ids(chain)[i..k] by {
        hide *;
        assert Ids(chain)[i..k] == [chain[i].id] + Ids(chain)[i + 1..k];
      }
    }
  }

  lemma NextIsUnrecorded(chain: seq<Migration>, g: Progress)
    requires ValidChain(chain) && ValidProgress(chain, g) && g.recorded < |chain|
    ensures chain[g.recorded].id !in LedgerUpTo(chain, g.recorded)
  {
    RecordedOnly(chain, g.recorded);
  }

  /** One round of the loop past the recorded prefix. */
  lemma OneRound(chain: seq<Migration>, g: Progress, r: Run, faults: Faults,
                 applied: seq<string>, skipped: seq<string>) returns (g': Progress)
    requires ValidChain(chain) && ValidProgress(chain, g) && g.recorded < |chain|
    requires r.ok && r.db == StateAt(chain, g)
    ensures ValidProgress(chain, g') && NoLess(g, g')
    ensures var r' := ApplyOne(r, faults, chain[g.recorded]);
            && r'.db == StateAt(chain, g')
            && (r'.ok ==> g' == Progress(g.recorded + 1, 0, 0))
            && (HalfRecorded(chain, g) ==> !r'.ok && g' == g)
            && (AllClean(faults) && !HalfRecorded(chain, g) ==> r'.ok)
            && ApplyFrom(chain, g.recorded, LedgerUpTo(chain, g.recorded), r, faults, applied, skipped)
               == if !r'.ok then Report(r', Failed(SqlFailure))
                  else ApplyFrom(chain, g.recorded + 1, LedgerUpTo(chain, g.recorded + 1), r', faults,
                                 applied + [chain[g.recorded].id], skipped)
  {
    hide ApplyOne, StateAt;
    NextIsUnrecorded(chain, g);
    g' := OneMigration(chain, g, r, faults);
    if ApplyOne(r, faults, chain[g.recorded]).ok {
      TableExistsOnceRecorded(chain, g');
    }
  }

  /** What the loop makes of everything from the recorded prefix on. */
  ghost predicate Finishes(chain: seq<Migration>, g: Progress, r: Run, faults: Faults,
                           applied: seq<string>, skipped: seq<string>, g': Progress)
    requires ValidProgress(chain, g) && ValidProgress(chain, g')
  {
    var report := ApplyFrom(chain, g.recorded, LedgerUpTo(chain, g.recorded), r, faults, applied, skipped);
    && NoLess(g, g')
    && report.run.db == StateAt(chain, g')
    && (report.outcome.Done? ==>
          report.outcome == Done(applied + Ids(chain)[g.recorded..], skipped) && g' == Progress(|chain|, 0, 0))
    && (!report.outcome.Done? ==> report.outcome == Failed(SqlFailure) && g.recorded < |chain|)
    && (HalfRecorded(chain, g) ==> !report.outcome.Done? && g' == g)
    && (AllClean(faults) && !HalfRecorded(chain, g) ==> report.outcome.Done?)
    && (g.recorded == |chain| ==> g' == g)
  }

  lemma NothingLeft(chain: seq<Migration>, g: Progress, r: Run, faults: Faults, applied: seq<string>, skipped: seq<string>)
    requires ValidProgress(chain, g) && g.recorded == |chain| && r.db == StateAt(chain, g)
    ensures Finishes(chain, g, r, faults, applied, skipped, g)
  {
    hide StateAt;
    assert applied + Ids(chain)[g.recorded..] == applied;
  }

  lemma {:induction false} ApplyRest(chain: seq<Migration>, g: Progress, r: Run, faults: Faults,
                                     applied: seq<string>, skipped: seq<string>) returns (g': Progress)
    requires ValidChain(chain) && ValidProgress(chain, g)
    requires r.ok && r.db == StateAt(chain, g)
    ensures ValidProgress(chain, g') && Finishes(chain, g, r, faults, applied, skipped, g')
    decreases |chain| - g.recorded
  {
    hide ApplyOne, ApplyFrom, StateAt, ValidChain, LedgerUpTo, AllClean;
    var k := g.recorded;
    if k == |chain| {
      g' := g;
      NothingLeft(chain, g, r, faults, applied, skipped);
    } else {
      g' := OneRound(chain, g, r, faults, applied, skipped);
      var r' := ApplyOne(r, faults, chain[k]);
      if r'.ok {
        var g1 := g';
        g' := ApplyRest(chain, g1, r', faults, applied + [chain[k].id], skipped);
        assert applied + [chain[k].id] + Ids(chain)[k + 1..] == applied + Ids(chain)[k..];
        assert !HalfRecorded(chain, g1);
      }
    }
  }

  lemma NothingUnknown(chain: seq<Migration>, k: nat)
    requires ValidChain(chain) && k <= |chain|
    ensures UnknownIds(chain, LedgerUpTo(chain, k)) == {}
  {
    RecordedOnly(chain, k);
  }

  lemma WholeRun(chain: seq<Migration>, g: Progress, faults: Faults) returns (g': Progress)
    requires ValidChain(chain) && ValidProgress(chain, g)
    ensures ValidProgress(chain, g') && NoLess(g, g')
    ensures var report := ApplyChain(chain, StateAt(chain, g), faults);
            && report.run.db == StateAt(chain, g')
            && (report.outcome.Done? || report.outcome == Failed(SqlFailure))
            && (report.outcome.Done? ==>
                  && g' == Progress(|chain|, 0, 0)
                  && report.outcome.skipped == Ids(chain)[..g.recorded]
                  && report.outcome.applied == Ids(chain)[g.recorded..])
            && (HalfRecorded(chain, g) ==> !report.outcome.Done? && g' == g)
            && (AllClean(faults) && !HalfRecorded(chain, g) ==> report.outcome.Done?)
            && (g.recorded == |chain| ==> g' == g)
  {
    hide StateAt, ApplyFrom;
    var r := ReadLedger(Run(StateAt(chain, g), 0, true), faults);
    if r.ok {
      TableExistsOnceRecorded(chain, g);
      NothingUnknown(chain, g.recorded);
      SkipRecorded(chain, 0, g.recorded, r, faults, [], []);
      g' := ApplyRest(chain, g, r, faults, [], [] + Ids(chain)[0..g.recorded]);
    } else {
      g' := g;
    }
  }

  // ----- the theorems -----

  /** Successive runs, each with its own faults, against one database. */
  ghost function Campaign(chain: seq<Migration>, db: Db, runs: seq<Faults>): Db
    decreases |runs|
  {
    if runs == [] then db
    else Campaign(chain, ApplyChain(chain, db, runs[0]).run.db, runs[1..])
  }

  /** The database sits at ledger length `k`: the ledger is exactly the first `k`
      entries of the chain, everything they define is committed, nothing beyond the
      next migration has begun, and of that one at most an initial run of separately
      committed parts is ahead of the ledger. */
  ghost predicate CrashSafe(chain: seq<Migration>, db: Db, k: nat) {
    && k <= |chain|
    && db.ledger.Keys == (set i | 0 <= i < k :: chain[i].id)
    && (forall i :: 0 <= i < k ==> Holds(db.ledger, chain[i]))
    && (forall i, p: nat :: 0 <= i < k && p < chain[i].TotalParts() ==> (chain[i].id, p) in db.parts)
    && (forall i :: 0 <= i < k ==> RolesOf(chain[i]) <= db.roles)
    && (forall i, p: nat :: k < i < |chain| ==> (chain[i].id, p) !in db.parts && (chain[i].id, p) !in db.roles)
    && (k < |chain| ==>
          && (forall p: nat :: (chain[k].id, p) in db.parts ==> p < chain[k].EarlyParts())
          && (forall p: nat, q: nat :: q < p && (chain[k].id, p) in db.parts ==> (chain[k].id, q) in db.parts))
  }

  lemma ProgressIsCrashSafe(chain: seq<Migration>, g: Progress)
    requires ValidChain(chain) && ValidProgress(chain, g)
    ensures CrashSafe(chain, StateAt(chain, g), g.recorded)
  {
    CommittedOnly(chain, g.recorded);
    RecordedOnly(chain, g.recorded);
    var keys := set i | 0 <= i < g.recorded :: chain[i].id;
    var ledger := LedgerUpTo(chain, g.recorded);
    forall id | id in keys ensures id in ledger {
      var i :| 0 <= i < g.recorded && chain[i].id == id;
      assert Holds(ledger, chain[i]);
    }
    assert ledger.Keys == keys;
  }

  lemma {:induction false} CampaignKeepsProgress(chain: seq<Migration>, g: Progress, runs: seq<Faults>) returns (g': Progress)
    requires ValidChain(chain) && ValidProgress(chain, g)
    ensures ValidProgress(chain, g') && NoLess(g, g')
    ensures Campaign(chain, StateAt(chain, g), runs) == StateAt(chain, g')
    decreases |runs|
  {
    if runs == [] {
      g' := g;
    } else {
      var g1 := WholeRun(chain, g, runs[0]);
      g' := CampaignKeepsProgress(chain, g1, runs[1..]);
    }
  }

  lemma EmptyIsStart(chain: seq<Migration>)
    requires ValidChain(chain)
    ensures ValidProgress(chain, Progress(0, 0, 0)) && StateAt(chain, Progress(0, 0, 0)) == EMPTY_DB
  {
    assert PartSet(chain[0].id, 0) == {} && RoleSet(chain[0].id, 0) == {};
  }

  /** Every state reachable from an empty database is crash safe. */
  lemma CrashSafety(chain: seq<Migration>, runs: seq<Faults>)
    requires ValidChain(chain)
    ensures exists k :: CrashSafe(chain, Campaign(chain, EMPTY_DB, runs), k)
  {
    EmptyIsStart(chain);
    var g := CampaignKeepsProgress(chain, Progress(0, 0, 0), runs);
    ProgressIsCrashSafe(chain, g);
  }

  /** The database an uninterrupted run builds from nothing. */
  ghost function FullDatabase(chain: seq<Migration>): Db
    requires ValidChain(chain)
  {
    StateAt(chain, Progress(|chain|, 0, 0))
  }

  lemma UninterruptedRun(chain: seq<Migration>, faults: Faults)
    requires ValidChain(chain) && AllClean(faults)
    ensures ApplyChain(chain, EMPTY_DB, faults).run.db == FullDatabase(chain)
    ensures ApplyChain(chain, EMPTY_DB, faults).outcome == Done(Ids(chain), [])
  {
    EmptyIsStart(chain);
    var _ := WholeRun(chain, Progress(0, 0, 0), faults);
    assert Ids(chain)[0..] == Ids(chain) && Ids(chain)[..0] == [];
  }

  /** What a caller can look up before re-running: the first unrecorded migration
      keeps its ledger row in a second transaction and its definition is there. */
  predicate DefinitionAheadOfLedger(chain: seq<Migration>, db: Db) {
    exists k | 0 <= k < |chain| ::
      && (forall i | 0 <= i < k :: chain[i].id in db.ledger)
      && chain[k].id !in db.ledger
      && chain[k].kind == SeparateRecord
      && (chain[k].id, 0) in db.parts
  }

  /** After any interrupted campaign, a run that meets no fault finishes with the
      database of an uninterrupted run exactly when no definition is ahead of the
      ledger in a migration that cannot be replayed; otherwise it fails and leaves
      the database as it was. */
  lemma Recovery(chain: seq<Migration>, runs: seq<Faults>, faults: Faults)
    requires ValidChain(chain) && AllClean(faults)
    ensures var crashed := Campaign(chain, EMPTY_DB, runs);
            var report := ApplyChain(chain, crashed, faults);
            if DefinitionAheadOfLedger(chain, crashed)
            then report.outcome == Failed(SqlFailure) && report.run.db == crashed
            else report.outcome.Done? && report.run.db == FullDatabase(chain)
  {
    hide ApplyChain, StateAt;
    EmptyIsStart(chain);
    var g := CampaignKeepsProgress(chain, Progress(0, 0, 0), runs);
    var _ := WholeRun(chain, g, faults);
    AheadMeansHalfRecorded(chain, g);
  }

  /** No number of further runs, faulty or not, gets past a definition that is
      ahead of the ledger, or changes anything. */
  lemma {:induction false} AheadOfLedgerIsPermanent(chain: seq<Migration>, runs: seq<Faults>, more: seq<Faults>)
    requires ValidChain(chain)
    requires DefinitionAheadOfLedger(chain, Campaign(chain, EMPTY_DB, runs))
    ensures Campaign(chain, Campaign(chain, EMPTY_DB, runs), more) == Campaign(chain, EMPTY_DB, runs)
  {
    hide StateAt;
    EmptyIsStart(chain);
    var g := CampaignKeepsProgress(chain, Progress(0, 0, 0), runs);
    AheadMeansHalfRecorded(chain, g);
    StuckAt(chain, g, more);
  }

  lemma {:induction false} StuckAt(chain: seq<Migration>, g: Progress, more: seq<Faults>)
    requires ValidChain(chain) && ValidProgress(chain, g) && HalfRecorded(chain, g)
    ensures Campaign(chain, StateAt(chain, g), more) == StateAt(chain, g)
    decreases |more|
  {
    hide StateAt, ApplyChain;
    if more != [] {
      var g' := WholeRun(chain, g, more[0]);
      StuckAt(chain, g, more[1..]);
    }
  }

  lemma AheadMeansHalfRecorded(chain: seq<Migration>, g: Progress)
    requires ValidChain(chain) && ValidProgress(chain, g)
    ensures DefinitionAheadOfLedger(chain, StateAt(chain, g)) <==> HalfRecorded(chain, g)
  {
    RecordedOnly(chain, g.recorded);
    CommittedOnly(chain, g.recorded);
    var db := StateAt(chain, g);
    forall k | 0 <= k < |chain| && (forall i | 0 <= i < k :: chain[i].id in db.ledger) && chain[k].id !in db.ledger
      ensures k == g.recorded
    {
      assert k < g.recorded ==> Holds(db.ledger, chain[k]);
    }
    if g.recorded < |chain| {
      forall i | 0 <= i < g.recorded ensures chain[i].id in db.ledger {
        assert Holds(db.ledger, chain[i]);
      }
    }
  }

  /** A run that reports success, whatever faults it survived, skipped exactly the
      recorded prefix and applied exactly the rest, in chain order. */
  lemma SuccessfulRun(chain: seq<Migration>, runs: seq<Faults>, faults: Faults) returns (k: nat)
    requires ValidChain(chain)
    requires ApplyChain(chain, Campaign(chain, EMPTY_DB, runs), faults).outcome.Done?
    ensures k <= |chain| && CrashSafe(chain, Campaign(chain, EMPTY_DB, runs), k)
    ensures ApplyChain(chain, Campaign(chain, EMPTY_DB, runs), faults).outcome == Done(Ids(chain)[k..], Ids(chain)[..k])
    ensures ApplyChain(chain, Campaign(chain, EMPTY_DB, runs), faults).run.db == FullDatabase(chain)
  {
    hide ApplyChain, StateAt, CrashSafe;
    EmptyIsStart(chain);
    var g := CampaignKeepsProgress(chain, Progress(0, 0, 0), runs);
    var _ := WholeRun(chain, g, faults);
    ProgressIsCrashSafe(chain, g);
    k := g.recorded;
  }

  /** The run after a successful one changes nothing and, unless it meets a fault,
      reports every migration skipped. */
  lemma RerunIsNoOp(chain: seq<Migration>, faults: Faults)
    requires ValidChain(chain)
    ensures ApplyChain(chain, FullDatabase(chain), faults).run.db == FullDatabase(chain)
    ensures AllClean(faults) ==> ApplyChain(chain, FullDatabase(chain), faults).outcome == Done([], Ids(chain))
  {
    hide ApplyChain, StateAt;
    var _ := WholeRun(chain, Progress(|chain|, 0, 0), faults);
    assert Ids(chain)[|chain|..] == [] && Ids(chain)[..|chain|] == Ids(chain);
  }

  // ----- ledgers that do not belong to the chain -----

  lemma {:induction false} PartsKeepLedger(r: Run, faults: Faults, m: Migration, next: nat, limit: nat)
    requires next <= limit
    ensures SendParts(r, faults, m, next, limit).db.ledger == r.db.ledger
    ensures r.db.parts <= SendParts(r, faults, m, next, limit).db.parts
    decreases limit - next
  {
    if next < limit {
      PartsKeepLedger(Send(r, faults, PartStatement(m, next)), faults, m, next + 1, limit);
    }
  }

  lemma DefinitionKeepsLedger(r: Run, faults: Faults, m: Migration)
    ensures SendDefinition(r, faults, m).db.ledger == r.db.ledger
    ensures r.db.parts <= SendDefinition(r, faults, m).db.parts
  {
    var roles := SendRoles(r, faults, m);
    var ready := if m.kind == ReplayablePhases then Send(roles, faults, Probe) else roles;
    PartsKeepLedger(ready, faults, m, 0, m.EarlyParts());
  }

  lemma OneMigrationTouches(r: Run, faults: Faults, m: Migration, id: string)
    requires id != m.id
    ensures var r' := ApplyOne(r, faults, m);
            && (id in r'.db.ledger <==> id in r.db.ledger)
            && (id in r.db.ledger ==> r'.db.ledger[id] == r.db.ledger[id])
            && (LedgerTableExists(r.db) ==> LedgerTableExists(r'.db))
  {
    DefinitionKeepsLedger(r, faults, m);
    var defined := SendDefinition(r, faults, m);
    hide SendDefinition;
    assert ApplyOne(r, faults, m).db == Send(defined, faults, RecordStatement(m)).db;
  }

  /** A ledger with an identifier outside the chain stops the run before it changes
      anything; the identifiers are reported unless the ledger could not be read. */
  lemma UnknownMigrationStops(chain: seq<Migration>, db: Db, faults: Faults)
    requires UnknownIds(chain, VisibleLedger(db)) != {}
    ensures var report := ApplyChain(chain, db, faults);
            && report.run.db == db
            && report.outcome == Failed(if ReadLedger(Run(db, 0, true), faults).ok
                                        then UnknownMigrations(UnknownIds(chain, VisibleLedger(db))) else SqlFailure)
            && (ReadLedger(Run(db, 0, true), faults).ok <==>
                  faults(0).Clean? && (LedgerTableExists(db) ==> faults(1).Clean?))
  {
  }

  /** The first recorded migration whose checksum differs is reported, before anything
      is sent, if all before it are recorded as they are. */
  lemma MismatchIsReported(chain: seq<Migration>, db: Db, faults: Faults, j: nat)
    requires j < |chain| && UnknownIds(chain, VisibleLedger(db)) == {}
    requires forall i :: 0 <= i < j ==> Holds(VisibleLedger(db), chain[i])
    requires chain[j].id in VisibleLedger(db) && VisibleLedger(db)[chain[j].id] != chain[j].checksum
    ensures var report := ApplyChain(chain, db, faults);
            && report.run.db == db
            && report.outcome == Failed(if ReadLedger(Run(db, 0, true), faults).ok
                                        then ChecksumMismatch(chain[j].id) else SqlFailure)
  {
    var r := ReadLedger(Run(db, 0, true), faults);
    MismatchEndsLoop(chain, 0, j, VisibleLedger(db), r, faults, [], []);
  }

  lemma {:induction false} MismatchEndsLoop(chain: seq<Migration>, i: nat, j: nat, known: map<string, string>, r: Run,
                                            faults: Faults, applied: seq<string>, skipped: seq<string>)
    requires i <= j < |chain| && forall a :: i <= a < j ==> Holds(known, chain[a])
    requires chain[j].id in known && known[chain[j].id] != chain[j].checksum
    ensures ApplyFrom(chain, i, known, r, faults, applied, skipped) == Report(r, Failed(ChecksumMismatch(chain[j].id)))
    decreases j - i
  {
    if i < j {
      MismatchEndsLoop(chain, i + 1, j, known, r, faults, applied, skipped + [chain[i].id]);
    }
  }

  lemma {:induction false} LoopStopsAtMismatch(chain: seq<Migration>, i: nat, j: nat, r: Run, faults: Faults,
                                               applied: seq<string>, skipped: seq<string>, id: string)
    requires forall a, b :: 0 <= a < b < |chain| ==> chain[a].id != chain[b].id
    requires i <= j < |chain| && r.ok
    requires chain[j].id in VisibleLedger(r.db) && VisibleLedger(r.db)[chain[j].id] != chain[j].checksum
    requires forall a :: i <= a < j ==> chain[a].id != id
    ensures var report := ApplyFrom(chain, i, VisibleLedger(r.db), r, faults, applied, skipped);
            && !report.outcome.Done?
            && (id in report.run.db.ledger <==> id in r.db.ledger)
            && (id in r.db.ledger ==> report.run.db.ledger[id] == r.db.ledger[id])
    decreases j - i
  {
    var m := chain[i];
    if i < j && (m.id in VisibleLedger(r.db) ==> VisibleLedger(r.db)[m.id] == m.checksum) {
      if m.id in VisibleLedger(r.db) {
        LoopStopsAtMismatch(chain, i + 1, j, r, faults, applied, skipped + [m.id], id);
      } else {
        OneMigrationTouches(r, faults, m, id);
        OneMigrationTouches(r, faults, m, chain[j].id);
        var r' := ApplyOne(r, faults, m);
        if r'.ok && Holds(VisibleLedger(r'.db), m) {
          LoopStopsAtMismatch(chain, i + 1, j, r', faults, applied + [m.id], skipped, id);
        }
      }
    }
  }

  /** A recorded checksum that differs from the chain's fails the run, and no entry
      at or past that position, nor any entry outside the chain, is ever written. */
  lemma MismatchStops(chain: seq<Migration>, db: Db, faults: Faults, j: nat, id: string)
    requires ValidChain(chain) && j < |chain|
    requires chain[j].id in VisibleLedger(db) && VisibleLedger(db)[chain[j].id] != chain[j].checksum
    requires forall a :: 0 <= a < j ==> chain[a].id != id
    ensures var report := ApplyChain(chain, db, faults);
            && !report.outcome.Done?
            && (id in report.run.db.ledger <==> id in db.ledger)
            && (id in db.ledger ==> report.run.db.ledger[id] == db.ledger[id])
  {
    var r := ReadLedger(Run(db, 0, true), faults);
    if r.ok && UnknownIds(chain, VisibleLedger(r.db)) == {} {
      LoopStopsAtMismatch(chain, 0, j, r, faults, [], [], id);
    }
  }
}
