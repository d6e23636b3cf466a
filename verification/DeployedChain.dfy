/** The nineteen migrations the repository deploys, and how each one reaches the
    database. */
module DeployedChain {
  import opened MigrationProtocol
  import opened MigrationRecovery
  import opened RecoveryLimits

  datatype Entry = Entry(number: nat, name: string, kind: Kind, clusterRoles: bool, catalogCheck: bool)

  const DEPLOYED: seq<Entry> := [
    Entry(1, "step4_identity_and_hat_scopes", OneTransaction, false, false),
    Entry(2, "step4_knowledge_lineage_and_retrieval", OneTransaction, false, false),
    Entry(3, "step4_kernel_memory_and_audit_evidence", OneTransaction, false, false),
    Entry(4, "step5_tenant_roles_session_context_rls", ReplayablePhases, true, true),
    Entry(5, "step6_persistence_idempotency_retry_foundation", OneTransaction, false, false),
    Entry(6, "step9_source_registry_provenance_publication_states", SeparateRecord, false, true),
    Entry(7, "step10_idempotent_ingestion_saga", SeparateRecord, false, true),
    Entry(8, "step11_generic_parsing_pipeline", SeparateRecord, false, true),
    Entry(9, "step12_hat_registry_runtime_boundary", SeparateRecord, false, false),
    Entry(10, "step19_embedding_vector_retrieval", SeparateRecord, false, false),
    Entry(11, "step27_personal_memory_persistence", SeparateRecord, false, true),
    Entry(12, "step28_correction_candidate_bridge", SeparateRecord, false, true),
    Entry(13, "step29_personal_memory_patch_validation", SeparateRecord, false, true),
    Entry(14, "step30_user_approval_commit_activation", SeparateRecord, true, true),
    Entry(15, "step32_personal_memory_lifecycle", SeparateRecord, false, true),
    Entry(16, "step33_audit_ledger_hash_chain", SeparateRecord, false, true),
    Entry(17, "step34_human_review_workspace", SeparateRecord, true, true),
    Entry(18, "step36_credential_authority_hardening", SeparateRecord, true, true),
    Entry(19, "post_roadmap_demo_runtime_state", OneTransaction, false, false)
  ]

  function Digit(n: nat): char
    requires n < 10
  {
    n as char + '0'
  }

  /** An identifier: the four-digit number of its entry, then its name. */
  function Identifier(e: Entry): string
    requires e.number < 100
  {
    ['0', '0', Digit(e.number / 10), Digit(e.number % 10), '_'] + e.name
  }

  predicate IsLoadedFrom(m: Migration, e: Entry)
    requires e.number < 100
  {
    && m.id == Identifier(e)
    && m.kind == e.kind && m.clusterRoles == e.clusterRoles && m.catalogCheck == e.catalogCheck
  }

  lemma NumberedInOrder()
    ensures forall i :: 0 <= i < |DEPLOYED| ==> DEPLOYED[i].number == i + 1
  {
  }

  lemma FirstCreatesLedger()
    ensures Identifier(DEPLOYED[0]) == LEDGER_MIGRATION
    ensures DEPLOYED[0].kind == OneTransaction && !DEPLOYED[0].clusterRoles
  {
    var first := DEPLOYED[0];
    assert Digit(first.number / 10) == '0' && Digit(first.number % 10) == '1';
  }

  lemma IdentifiersDiffer(a: Entry, b: Entry)
    requires a.number < b.number < 100
    ensures Identifier(a) != Identifier(b)
  {
    assert Identifier(a)[2] == Digit(a.number / 10) && Identifier(a)[3] == Digit(a.number % 10);
    assert Identifier(b)[2] == Digit(b.number / 10) && Identifier(b)[3] == Digit(b.number % 10);
  }

  lemma NumberedChainIsValid(chain: seq<Migration>, entries: seq<Entry>)
    requires |chain| == |entries| > 0
    requires forall i :: 0 <= i < |entries| ==> entries[i].number == i + 1 < 100
    requires forall i :: 0 <= i < |chain| ==> IsLoadedFrom(chain[i], entries[i])
    requires Identifier(entries[0]) == LEDGER_MIGRATION
    requires entries[0].kind == OneTransaction && !entries[0].clusterRoles
    ensures ValidChain(chain)
  {
    forall i, j | 0 <= i < j < |chain|
      ensures chain[i].id != chain[j].id
    {
      IdentifiersDiffer(entries[i], entries[j]);
    }
  }

  /** The deployed chain meets every assumption of the recovery theorems. */
  lemma DeployedChainIsValid(chain: seq<Migration>)
    requires |chain| == |DEPLOYED|
    requires forall i :: 0 <= i < |chain| ==> DEPLOYED[i].number < 100 && IsLoadedFrom(chain[i], DEPLOYED[i])
    ensures ValidChain(chain)
  {
    NumberedInOrder();
    FirstCreatesLedger();
    hide Identifier, IsLoadedFrom;
    NumberedChainIsValid(chain, DEPLOYED);
  }

  lemma SeparateFromSix()
    ensures DEPLOYED[5].kind == SeparateRecord && forall i :: 0 <= i < 5 ==> DEPLOYED[i].kind != SeparateRecord
  {
  }

  /** Each deployed migration with a separate ledger row, the first being number 6,
      can be left by one lost answer in a state that no later run gets past. */
  lemma DeployedChainCanGetStuck(chain: seq<Migration>, k: nat, more: seq<Faults>, clean: Faults) returns (faults: Faults)
    requires |chain| == |DEPLOYED| && k < |chain|
    requires forall i :: 0 <= i < |chain| ==> DEPLOYED[i].number < 100 && IsLoadedFrom(chain[i], DEPLOYED[i])
    requires DEPLOYED[k].kind == SeparateRecord && AllClean(clean)
    ensures DEPLOYED[5].kind == SeparateRecord && forall i :: 0 <= i < 5 ==> DEPLOYED[i].kind != SeparateRecord
    ensures var crashed := Campaign(chain, EMPTY_DB, [faults]);
            && chain[k].id !in crashed.ledger
            && Campaign(chain, crashed, more) == crashed
            && ApplyChain(chain, crashed, clean).outcome == Failed(SqlFailure)
  {
    DeployedChainIsValid(chain);
    SeparateFromSix();
    assert IsLoadedFrom(chain[k], DEPLOYED[k]);
    hide *;
    faults := OneLostAnswerIsEnough(chain, k, more, clean);
  }
}
