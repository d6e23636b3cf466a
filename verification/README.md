# Memory Patch operations: a verified model

This project models the protocols and algorithms inside the operational scripts
of the Memory Patch repository and proves what they promise. The scripts drive a
CockroachDB cluster: they migrate its schema, talk to it through its command line
client, stop it cleanly, probe its capabilities, publish snapshots and gate a
release. Each part below is one component of those scripts.

- **Forward-only migrations** (`MigrationProtocol`, `MigrationRecovery`,
  `RecoveryLimits`, `MigrationCalls`, `DeployedChain`). A chain of migrations, a
  ledger of checksums, and a server call that may fail before or after it takes
  effect. A database state that any sequence of interrupted runs can leave is
  described by how many migrations are recorded and how much of the next one is
  committed. From that follow crash safety, the exact condition for recovery, and
  run accounting, down to the single calls whose answers a ledger row rests on.
  The nineteen deployed migrations meet the assumptions.
- **Migration text** (`MigrationSplitter`, `SplitterCoverage`). Cutting a text at
  marker comments, which texts are accepted and why others are refused, and the
  theorem that no statement is lost or duplicated.
- **Client transport** (`SqlText`, `SqlRendering`, `SqlPlacement`,
  `CliTransport`). Literals and placeholders against a lexer for SQL text, the
  marker-framed stream with its reader thread, and the cursor.
- **Shutdown** (`ShutdownBudget`, `RuntimeCleanup`). Go durations, the grace
  period, and the cleanup that reports on itself.
- **Capability probing** (`BoundedRetry`, `JsonUnwrap`, `TemplateRendering`,
  `CapabilityMatrix`). Retry, the unwrap search, template substitution, and a
  matrix producer against its independently written validator.
- **Snapshot publication** (`SnapshotWriter`, `WriterCalls`). Worker threads, a
  bounded registry and the accounts of all requests, under every interleaving.
- **Smaller gates** (`ProcessTree`, `ControlPlaneGate`). The closure of a process
  tree over any parent map, and a release gate whose receipt ignores order.
  `Sequences` holds facts about sequences that the proofs share.

Code that changes state is modelled by classes and loops whose contracts equate
the new state with a specification function; the theorems are about those
functions. Text is a sequence of characters, seconds are exact reals.

## What the code does not do

These are results about the code as it is. Each states exactly when the code
falls short, and that it can.

- `docs/adr/ADR-011-cockroachdb-schema-migrations.md` says that each migration and
  its bookkeeping row share one transaction. Since Step 5 and Step 9 most
  migrations commit their definition first and the row in a second transaction,
  and the model follows the code. If a run stops between the two, a re-run fails
  without changing anything, and so does every later run: `Recovery` and
  `AheadOfLedgerIsPermanent`. The condition, `DefinitionAheadOfLedger`, can be
  read off the catalog and the ledger before a re-run, and one lost answer reaches
  it for every such migration (`DefinitionCanGetAhead`). Step 5 recovers from a
  stop at any of its phases because they are replay-safe.
- After a malformed answer the connection is not resynchronised: the next
  statement cannot receive its own rows (`NoResynchronisation`; `StaleRows` gives
  the exact condition for any number of unread rows). A statement with two columns
  of one name is enough (`RepeatedColumnLosesStep`).
- A row survives the transport exactly when none of its texts is the word `NULL`
  (`RowRoundTrip`).
- A template keeps its tokens for all values exactly when every placeholder is
  detached from its surroundings (`StructureIsExact`).
- The emergency stop always reports an exit code mismatch (`StopAndRemove`).
- A thread refused by the writer's registry keeps its state and goes on working;
  its requests, and those of a client whose creation failed, are missing from the
  reported counts (`ReportIsComplete`). Any surplus of threads brings it about
  (`SurplusThreadsAreRefused`).
- A pass recorded over an earlier deferral or failure without a decision leaves a
  row that the validator refuses; `DecisionFitsExactly` says which marks fit.
- The reason a gate reports for unreadable regions can depend on their order, and
  does exactly when they are unreadable for different reasons and are reached
  (`OutcomeDependsOnOrder`); a receipt never does.

## Model

| member | source | states |
|---|---|---|
| MigrationProtocol.SqlClient.Execute | scripts/run_cockroachdb_migrations.py:667-682 | one server call under a fault: refused, carried out, or carried out without the runner learning it; what is committed in each case |
| MigrationProtocol.SqlClient.AppliedMigrations | scripts/run_cockroachdb_migrations.py:4854-4874 | the ledger as read back; an absent ledger table reads as empty, and no second query is sent for it |
| MigrationProtocol.SqlClient.SendPartsOf | scripts/run_cockroachdb_migrations.py:7579-7600 | the separately committed parts are sent in order and the first failure stops them |
| MigrationProtocol.SqlClient.SendDefinitionOf | scripts/run_cockroachdb_migrations.py:7568-7775 | everything a migration sends before its ledger row: roles, parts, catalog check |
| MigrationProtocol.SqlClient.ApplyMigrations | scripts/run_cockroachdb_migrations.py:7544-7812 | the whole runner refines its specification: final database, number of server calls and outcome, for every fault pattern |
| MigrationCalls.DefinitionCalls | scripts/run_cockroachdb_migrations.py:7568-7775 | how many calls a migration makes before its ledger row, from its own fields: two for roles, one for splitting, one for each part, one for the catalog check, which is the last |
| MigrationCalls.ScriptIsSent | scripts/run_cockroachdb_migrations.py:7568-7804 | a migration sends exactly that script and then its ledger row, statement after statement until one fails, and reads the ledger back |
| MigrationCalls.RowNeedsCleanCalls | scripts/run_cockroachdb_migrations.py:7568-7804 | in any database: a ledger row appears only if every call from the start of the migration up to its own was answered with success; otherwise the ledger is as it was and the migration fails |
| MigrationCalls.MigrationOutcome | scripts/run_cockroachdb_migrations.py:7568-7804 | in a reachable database: the row appears if and only if all those calls succeed, its own call takes effect and the definition is not half recorded; the migration succeeds if and only if its own call and both ledger reads succeed too |
| MigrationCalls.FailedCheckStops | scripts/run_cockroachdb_migrations.py:7601-7609 | a catalog check without a clean answer fails the migration and leaves the ledger as it was, with the definition committed |
| MigrationCalls.RunOutcome | scripts/run_cockroachdb_migrations.py:7551-7812 | a run from any reachable database is done if and only if each of its calls succeeds and no definition is half recorded; the number of those calls |
| MigrationRecovery.PartsStep | scripts/run_cockroachdb_migrations.py:7579-7599 | sending the parts again: replay-safe phases pass over what is there, others fail and change nothing |
| MigrationRecovery.DefinitionStep | scripts/run_cockroachdb_migrations.py:7569-7775 | a definition interrupted anywhere leaves a longer committed prefix of itself and nothing else |
| MigrationRecovery.OneMigration | scripts/run_cockroachdb_migrations.py:7569-7804 | one migration, interrupted anywhere, moves the database forward by at most one ledger row and never backward |
| MigrationRecovery.WholeRun | scripts/run_cockroachdb_migrations.py:7551-7812 | one run from any reachable state, under any faults, ends in a reachable state; when it succeeds and what it then reports |
| MigrationRecovery.CampaignKeepsProgress | scripts/run_cockroachdb_migrations.py:7558-7806 | any number of interrupted runs keeps the database at a reachable state, no less advanced than before |
| MigrationRecovery.CrashSafety | scripts/run_cockroachdb_migrations.py:7558-7806 | from an empty database, after any interrupted runs, the ledger is an exact prefix with exact checksums, every recorded definition is committed, and only an initial run of parts of the next migration is ahead of it, none if it is of the one-transaction kind |
| MigrationRecovery.UninterruptedRun | scripts/run_cockroachdb_migrations.py:7558-7812 | a run without faults applies the whole chain in order |
| MigrationRecovery.Recovery | scripts/run_cockroachdb_migrations.py:7569-7804 | after any crashes a fault-free run finishes with the uninterrupted database if and only if no definition that cannot be replayed is ahead of the ledger; otherwise it fails and changes nothing |
| MigrationRecovery.AheadOfLedgerIsPermanent | scripts/run_cockroachdb_migrations.py:7602-7609 | once a definition is ahead of the ledger no further run, faulty or not, changes the database |
| MigrationRecovery.AheadMeansHalfRecorded | scripts/run_cockroachdb_migrations.py:7789-7799 | the condition a caller can look up is exactly the half-recorded state |
| MigrationRecovery.SuccessfulRun | scripts/run_cockroachdb_migrations.py:7556-7566 | a run that reports success skipped exactly the recorded prefix and applied exactly the rest, in chain order |
| MigrationRecovery.RerunIsNoOp | scripts/run_cockroachdb_migrations.py:7558-7566 | a run on the finished database changes nothing, whatever faults it meets, and skips everything if it meets none |
| MigrationRecovery.UnknownMigrationStops | scripts/run_cockroachdb_migrations.py:7552-7555 | an identifier outside the chain stops the run before any change and is reported, unless the ledger itself could not be read |
| MigrationRecovery.MismatchStops | scripts/run_cockroachdb_migrations.py:7559-7564 | a differing checksum fails the run, and no ledger entry at or past that position, or outside the chain, is written |
| MigrationRecovery.MismatchIsReported | scripts/run_cockroachdb_migrations.py:7559-7564 | the first recorded checksum that differs is reported before anything is sent, unless the ledger itself could not be read |
| DeployedChain.DeployedChainIsValid | scripts/run_cockroachdb_migrations.py:2268-2294 | the nineteen deployed migrations meet the assumptions of the recovery theorems |
| RecoveryLimits.DefinitionCanGetAhead | scripts/run_cockroachdb_migrations.py:7602-7609 | for every migration of a valid chain that records separately, one lost answer leaves its definition ahead of the ledger |
| RecoveryLimits.OneLostAnswerIsEnough | scripts/run_cockroachdb_migrations.py:7602-7609 | after that one lost answer no further run changes the database, and a fault-free one fails |
| DeployedChain.DeployedChainCanGetStuck | scripts/run_cockroachdb_migrations.py:7602-7775 | the same for each such migration of the deployed chain, the sixth being the first |
| MigrationSplitter.CutIsExact | scripts/run_cockroachdb_migrations.py:4888-4889 | a cut loses nothing and exists exactly when the marker occurs |
| MigrationSplitter.CutIsUnique | scripts/run_cockroachdb_migrations.py:4884-4889 | where a marker occurs once, the cut is at that occurrence |
| MigrationSplitter.CountIsExact | scripts/run_cockroachdb_migrations.py:4922-4929 | a marker is counted once if and only if it stands at exactly one position, and never if and only if it stands nowhere |
| MigrationSplitter.BlankHasNoCode | scripts/run_cockroachdb_migrations.py:4931-4934 | a text accepted as blank has no character outside white space and line comments |
| MigrationSplitter.BlankIsExact | scripts/run_cockroachdb_migrations.py:4931-4934 | a text is blank if and only if none of its positions is a statement character; header comments are blank |
| MigrationSplitter.CompleteIsExact | scripts/run_cockroachdb_migrations.py:4936-4940 | a body is complete if and only if some semicolon in it is followed by white space only |
| MigrationSplitter.SplitStep5DatabasePhases | scripts/run_cockroachdb_migrations.py:4915-4966 | the loop that shrinks the remainder computes the recursive splitting, with the same refusals |
| SplitterCoverage.AcceptedIsAssembled | scripts/run_cockroachdb_migrations.py:4918-4945 | an accepted text is exactly gaps, markers and bodies in strict phase order, nine phases in all |
| SplitterCoverage.AssembledIsAccepted | scripts/run_cockroachdb_migrations.py:4918-4945 | conversely, a text assembled from acceptable pieces with each marker once is accepted as those pieces |
| SplitterCoverage.AcceptanceIsExact | scripts/run_cockroachdb_migrations.py:4915-4946 | a text is split, and into what, if and only if it is gaps without statement characters, markers and bodies ended by a semicolon, with each marker once from its turn on |
| SplitterCoverage.InexactMarkers | scripts/run_cockroachdb_migrations.py:4922-4929 | a text whose next markers do not each occur once is refused for that, the begin marker first |
| SplitterCoverage.RefusalsOfPhase | scripts/run_cockroachdb_migrations.py:4930-4942 | why a text with exact markers is refused: statements in front, the end marker first, a body without its semicolon, or what the rest is refused for |
| SplitterCoverage.CodeAtEnd | scripts/run_cockroachdb_migrations.py:4942-4943 | statements behind the last phase are refused |
| SplitterCoverage.PhasesAreExact | scripts/run_cockroachdb_migrations.py:4936-4966 | what the runner gets: each body without the white space around it, closed by a newline, if and only if the whole may be sent again |
| SplitterCoverage.BodyStands | scripts/run_cockroachdb_migrations.py:4930-4941 | each phase body stands in the text at its offset, between its own two markers |
| SplitterCoverage.BodiesInOrder | scripts/run_cockroachdb_migrations.py:4930-4941 | phase bodies are disjoint and in source order |
| SplitterCoverage.RoleSectionIsCut | scripts/run_cockroachdb_migrations.py:4888-4903 | the text is the role section, its markers and the database text around them |
| SplitterCoverage.RoleSplitIsExact | scripts/run_cockroachdb_migrations.py:4884-4903 | a role section is split off, and which, if and only if the text is assembled from it, both markers occur once and the statements on both sides are acceptable |
| SplitterCoverage.RoleRefusals | scripts/run_cockroachdb_migrations.py:4884-4902 | why a text is refused: its begin marker, its end marker, their order, or the statements, in this order |
| SplitterCoverage.CodeStaysCode | scripts/run_cockroachdb_migrations.py:4900-4903 | joining the text around the role section turns no statement into a comment |
| SplitterCoverage.CodeLiesInABody | scripts/run_cockroachdb_migrations.py:4930-4943 | every statement character of an accepted database text lies in a phase body |
| SplitterCoverage.Coverage | scripts/run_cockroachdb_migrations.py:4877-4966 | every character that is neither white space nor in a comment lies in exactly one of the role section and the phases |
| SqlText.LexConcat | scripts/cockroach_cli_dbapi.py:157-160 | tokens of joined fragments: reading the second continues from the mode the first ended in |
| SqlText.TrailingSemicolons | scripts/cockroach_cli_dbapi.py:160 | dropping trailing semicolons drops semicolon tokens only |
| SqlText.StripIsExact | scripts/run_cockroachdb_migrations.py:4936 | stripping takes all white space off both ends and nothing else; nothing is left if and only if the text is white space |
| SqlRendering.SplitIsExact | scripts/cockroach_cli_dbapi.py:151 | splitting at placeholders loses nothing and misses none |
| SqlRendering.SplitCounts | scripts/cockroach_cli_dbapi.py:151-152 | there is one fragment more than there are positions of a placeholder |
| SqlRendering.AcceptanceIsExact | scripts/cockroach_cli_dbapi.py:110-136 | which values become literals: null, booleans and integers always, texts and zoned timestamps without NUL, and nothing else |
| SqlRendering.RenderIsExact | scripts/cockroach_cli_dbapi.py:139-160 | a statement is rendered if and only if it is not blank, has as many placeholders as values and every value is acceptable; the reason of each refusal |
| SqlRendering.TrimIsExact | scripts/cockroach_cli_dbapi.py:160 | the rendered text loses white space at both ends, then semicolons at its end, and nothing else |
| SqlRendering.RenderSql | scripts/cockroach_cli_dbapi.py:139-160 | the rendering loop computes the rendering function, refusals included |
| SqlRendering.LiteralsReadBack | scripts/cockroach_cli_dbapi.py:110-136 | the value a literal denotes is the value it was made from, a timestamp as its text |
| SqlRendering.LiteralFits | scripts/cockroach_cli_dbapi.py:110-136 | in a fitting place a literal is read as exactly its own tokens, whatever quotes or placeholder texts it holds |
| SqlRendering.AssembledTokens | scripts/cockroach_cli_dbapi.py:157-159 | the assembled text has the template's tokens with each placeholder replaced by its value's |
| SqlRendering.RenderingPreservesStructure | scripts/cockroach_cli_dbapi.py:139-160 | the same for the rendered statement, up to semicolons at its end |
| SqlPlacement.PlacementIsExact | scripts/cockroach_cli_dbapi.py:157-159 | every literal stands as its own tokens, with the expected tokens after it, if and only if the place fits and those are the tokens of the rest; elsewhere some accepted value changes the tokens |
| SqlPlacement.StructureIsExact | scripts/cockroach_cli_dbapi.py:151-159 | for any number of placeholders: a template keeps its tokens under every list of accepted values if and only if each placeholder is well placed |
| SqlPlacement.OnePlaceholderIsExact | scripts/cockroach_cli_dbapi.py:151-159 | the same for a statement with one placeholder, in terms of its text |
| CliTransport.Connection.NextItem | scripts/cockroach_cli_dbapi.py:296-327 | the blocking read under a deadline takes the next item of the stream, however the reader thread hands items over |
| CliTransport.Connection.Execute | scripts/cockroach_cli_dbapi.py:329-384 | the read loop computes the frame rule on the whole stream, whatever the thread's timing; every refusal leaves the stream as it was |
| CliTransport.FrameIsExact | scripts/cockroach_cli_dbapi.py:314-384 | over arbitrary streams: rows if and only if the stream begins with a well-formed answer closed by its marker; each failure, that of a stream that ends included, if and only if the stream is of its kind |
| CliTransport.AnswerGivesRows | scripts/cockroach_cli_dbapi.py:356-384 | for such a stream the rows are those of the answer and the rest of the stream is left |
| CliTransport.RowsAreTaken | scripts/cockroach_cli_dbapi.py:361-384 | well-formed rows are taken one by one, whatever comes after them |
| CliTransport.TailDecides | scripts/cockroach_cli_dbapi.py:314-372 | what comes after them decides: nothing, the end of the stream, a marker with or without its value, or a row that does not fit |
| CliTransport.AnswerInSync | scripts/cockroach_cli_dbapi.py:356-384 | under a fresh marker a well-formed answer yields its own records and the stream is left at the next frame boundary |
| CliTransport.MalformedAnswer | scripts/cockroach_cli_dbapi.py:366-378 | a malformed answer is refused and its marker rows stay unread |
| CliTransport.SessionInSync | scripts/cockroach_cli_dbapi.py:356-384 | over any number of well-formed answers the frame rule gives each statement exactly its own records |
| CliTransport.RunSession | scripts/cockroach_cli_dbapi.py:296-384 | any number of statements on one connection, under any hand-over timing that meets the deadlines: each gets exactly its own records and nothing stays unread |
| CliTransport.StaleRows | scripts/cockroach_cli_dbapi.py:356-384 | exactly when a statement gets its own records although earlier rows are unread |
| CliTransport.NoResynchronisation | scripts/cockroach_cli_dbapi.py:361-378 | after a malformed answer the next statement cannot get its own records |
| CliTransport.RepeatedColumnLosesStep | scripts/cockroach_cli_dbapi.py:366-372 | a statement that names two columns alike gets a malformed answer, and the statement after it cannot get its own records |
| CliTransport.RowRoundTrip | scripts/cockroach_cli_dbapi.py:90-98 | a row is decoded to what was sent if and only if none of its texts is `NULL` |
| CliTransport.FetchedExactlyOnce | scripts/cockroach_cli_dbapi.py:185-205 | any mix of fetches delivers each row once, in order |
| CliTransport.Cursor.Execute | scripts/cockroach_cli_dbapi.py:172-183 | a statement replaces the result and rewinds; a failed one leaves the earlier result and position |
| CliTransport.Cursor.FetchOne | scripts/cockroach_cli_dbapi.py:185-195 | one row and one step, or nothing at the end |
| CliTransport.Cursor.FetchAll | scripts/cockroach_cli_dbapi.py:197-205 | all rows not yet fetched |
| CliTransport.Cursor.Close | scripts/cockroach_cli_dbapi.py:207-209 | the result is dropped and every later fetch is refused |
| ShutdownBudget.ComponentTaken | scripts/run_cockroachdb_migrations.py:157-159 | the scanner takes a component whole: `ms` is never read as `m` and then `s` |
| ShutdownBudget.ScannerIsGrammar | scripts/run_cockroachdb_migrations.py:705-728 | find-and-rejoin accepts exactly the non-empty sequences of components, each in one way only |
| ShutdownBudget.DurationsAdd | scripts/run_cockroachdb_migrations.py:725-728 | the value of joined durations is the sum of their values |
| ShutdownBudget.OneMoreDigit | scripts/run_cockroachdb_migrations.py:725-728 | one more digit makes a whole number ten times itself plus the digit |
| ShutdownBudget.OneMoreDecimal | scripts/run_cockroachdb_migrations.py:725-728 | one more decimal adds what its digit is worth at its place, counted in tenths of the place before |
| ShutdownBudget.UnitsAgree | scripts/run_cockroachdb_migrations.py:710-718 | the units in terms of each other, the second being one |
| ShutdownBudget.SixtyOfEach | scripts/run_cockroachdb_migrations.py:710-728 | sixty seconds are a minute and sixty minutes are an hour, as texts that are read |
| ShutdownBudget.DeriveGracefulShutdownBudget | scripts/run_cockroachdb_migrations.py:731-766 | the loops over the settings compute the budget function, refusals included |
| ShutdownBudget.BudgetBounds | scripts/run_cockroachdb_migrations.py:747-755 | a granted period lies in 60..120, covers all phases and the cushion and is the least such above 60; refusal for size exactly when the bound is exceeded; the drain timeout is always valid |
| ShutdownBudget.RefusalIsExact | scripts/run_cockroachdb_migrations.py:736-755 | why settings are refused: none at all, a foreign name, or a value that is no duration, in this order |
| ShutdownBudget.BudgetIgnoresOrder | scripts/run_cockroachdb_migrations.py:747-755 | the budget does not depend on the order of the settings |
| RuntimeCleanup.LocalRuntime.FinalizeCleanup | scripts/run_cockroachdb_migrations.py:978-1057 | the directory is deleted if and only if it is there, the process has exited, it is not preserved and the path is the owned one; each reported error stands for its fact, once |
| RuntimeCleanup.LocalRuntime.RequestDrain | scripts/run_cockroachdb_migrations.py:1084-1129 | the drain commands sent and when they count as failed |
| RuntimeCleanup.LocalRuntime.AwaitExit | scripts/run_cockroachdb_migrations.py:1133-1149 | each signal only after the wait before it has expired |
| RuntimeCleanup.LocalRuntime.GracefulStopAndRemove | scripts/run_cockroachdb_migrations.py:1059-1156 | truthful cleanup: which errors are reported, each if and only if its fact holds; the list is empty if and only if the shutdown was clean in every respect; exactly when the directory is deleted; the details and the full log of waits and signals |
| RuntimeCleanup.LocalRuntime.StopAndRemove | scripts/run_cockroachdb_migrations.py:1158-1187 | exactly when the directory is deleted, errors or not; which errors are reported, each if and only if its fact holds, an exit code mismatch always |
| RuntimeCleanup.UntroubledStop | scripts/run_cockroachdb_migrations.py:1059-1156 | a regular stop finds nothing wrong, and so deletes the directory, if and only if the drain is confirmed, the process exits within its grace period with an accepted code, and the log, the ports and the child processes are clean |
| RuntimeCleanup.CommandsAreExact | scripts/run_cockroachdb_migrations.py:1083-1108 | which commands are sent before the process is waited for, and their limits |
| RuntimeCleanup.LadderIsExact | scripts/run_cockroachdb_migrations.py:1133-1181 | each stop climbs one ladder of waits and signals and leaves it at the first look that finds the process gone |
| RuntimeCleanup.EscalationIsExact | scripts/run_cockroachdb_migrations.py:1133-1172 | each signal is sent if and only if the process is still there after the looks before it, in a regular and in an emergency stop |
| RuntimeCleanup.KillComesLast | scripts/run_cockroachdb_migrations.py:1133-1148 | SIGKILL follows SIGTERM and two expired grace waits |
| RuntimeCleanup.StopIsBounded | scripts/run_cockroachdb_migrations.py:1083-1148 | all bounded waits of a stop together take at most 475 seconds |
| RuntimeCleanup.DerivedBudgetIsSound | scripts/run_cockroachdb_migrations.py:1083-1087 | a budget derived from live settings lies within the bounds that the stop relies on |
| BoundedRetry.Retry | scripts/run_cockroachdb_capability_spike.py:1248-1278 | attempts are numbered 1..k, the outcome is that of the first attempt not retried or of the last, and each pause stands between two attempts after its hook |
| BoundedRetry.ExhaustedExactly | scripts/run_cockroachdb_capability_spike.py:1266-1278 | exhaustion exactly when every allowed attempt gave 40001 |
| BoundedRetry.OutcomeIsExact | scripts/run_cockroachdb_capability_spike.py:1263-1278 | the outcome is that of the first attempt that is not retried |
| BoundedRetry.TraceIsExact | scripts/run_cockroachdb_capability_spike.py:1263-1274 | which event stands where: each attempt at its place, with its number, hook and pause |
| BoundedRetry.DelayDoubles | scripts/run_cockroachdb_capability_spike.py:1274 | each delay is twice the one before it, capped at a second |
| BoundedRetry.SleepIsBounded | scripts/run_cockroachdb_capability_spike.py:1274 | delays never shrink; the total is bounded by the retries in seconds and by the uncapped backoff |
| BoundedRetry.RetrySleepIsBounded | scripts/run_cockroachdb_capability_spike.py:1263-1274 | the same bounds for the sleeps in the events of a valid call |
| JsonUnwrap.DecodeJsonObjectCandidate | scripts/run_cockroachdb_capability_spike.py:1386-1432 | the queue loop computes the search, visits exactly the candidates it should, and terminates |
| JsonUnwrap.UnwrapIsExact | scripts/run_cockroachdb_capability_spike.py:1394-1431 | what a candidate unwraps to, over positions of its text: its decodings, the text with pairs of quotes made single, and the span from its first to its last brace |
| JsonUnwrap.UnwrapOrder | scripts/run_cockroachdb_capability_spike.py:1394-1431 | the order in which these are queued |
| JsonUnwrap.UndoubledFirst | scripts/run_cockroachdb_capability_spike.py:1418 | the first pair of quotes becomes one and what follows the pair is treated alike |
| JsonUnwrap.DecodedIsNearest | scripts/run_cockroachdb_capability_spike.py:1387-1432 | an answer comes from a nearest object: no object is reachable in fewer unwrap steps |
| JsonUnwrap.DecodedIsReachable | scripts/run_cockroachdb_capability_spike.py:1386-1432 | an answer is the decoding of a text reachable by unwrap steps; without one, all that was visited was reachable and no object, and either the search visited twelve candidates or nothing reachable is an object |
| JsonUnwrap.FoundIsExact | scripts/run_cockroachdb_capability_spike.py:1447-1450 | the objects found stand for the candidates that hold one, each for its own, in order, and for no others |
| JsonUnwrap.FirstsAreFirst | scripts/run_cockroachdb_capability_spike.py:1446-1455 | events are distinct, complete and in first-occurrence order |
| JsonUnwrap.ParseChangefeedJson | scripts/run_cockroachdb_capability_spike.py:1446-1455 | the loop over the candidates yields the first occurrences of the objects found |
| TemplateRendering.OneMore | scripts/run_cockroachdb_capability_spike.py:3656-3657 | one replacement after a simultaneous pass equals a simultaneous pass with one more placeholder |
| TemplateRendering.SequentialIsSimultaneous | scripts/run_cockroachdb_capability_spike.py:3656-3657 | replacing placeholders one after another is replacing them all at once |
| TemplateRendering.OrderDoesNotMatter | scripts/run_cockroachdb_capability_spike.py:3656-3657 | in any order of the placeholders |
| TemplateRendering.HolesAreFilled | scripts/run_cockroachdb_capability_spike.py:3656-3657 | a template of texts and placeholders is rendered with each value in the place of its placeholder and every text as it was |
| TemplateRendering.RenderAsset | scripts/run_cockroachdb_capability_spike.py:3651-3660 | refusal exactly for an unsafe identifier; an accepted output is the simultaneous pass and has no brace pair |
| CapabilityMatrix.ProbeRecorder.constructor | scripts/run_cockroachdb_capability_spike.py:1784-1790 | a new recorder holds the template of every required capability, in order |
| CapabilityMatrix.ProbeRecorder.IndexOf | scripts/run_cockroachdb_capability_spike.py:1818 | looking a row up by value finds its own position |
| CapabilityMatrix.ProbeRecorder.Record | scripts/run_cockroachdb_capability_spike.py:1792-1838 | a mark changes its own row only, as far as it gets before it is refused |
| CapabilityMatrix.VerdictIsExact | scripts/run_cockroachdb_capability_spike.py:1809-1833 | which marks are refused, the first ground deciding: status, capability, source, maturity |
| CapabilityMatrix.RefusedMarks | scripts/run_cockroachdb_capability_spike.py:1809-1838 | the fields that a refused mark has changed by then, and those it has not |
| CapabilityMatrix.RowsAreIndependent | scripts/run_cockroachdb_capability_spike.py:1792-1838 | after any marks a row depends on its own marks alone |
| CapabilityMatrix.InterleavingDoesNotMatter | scripts/run_cockroachdb_capability_spike.py:1792-1838 | any interleaving that keeps each capability's marks gives the same rows |
| CapabilityMatrix.MarkedOnce | scripts/run_cockroachdb_capability_spike.py:1824-1838 | for a capability marked once, exactly which marks the validator will accept |
| CapabilityMatrix.RowKeepsWhatStands | scripts/run_cockroachdb_capability_spike.py:1824-1837 | after any marks the recorder keeps the last decision, plane and availability that a mark gave, or the template's own |
| CapabilityMatrix.LastSomeIsLast | scripts/run_cockroachdb_capability_spike.py:1824-1837 | what stands is the last that was given, and nothing stands only if nothing was given |
| CapabilityMatrix.DecisionFitsExactly | scripts/run_cockroachdb_capability_spike.py:1832-1837 | a last pass goes with the decision that stands if and only if all marks are passes without a decision, or the last mark that is not is a pass for use |
| CapabilityMatrix.PassKeepsOldDecision | scripts/run_cockroachdb_capability_spike.py:1832-1837 | a failure or deferral followed only by passes without a decision, however many, is never accepted |
| CapabilityMatrix.ObserveSources | scripts/run_cockroachdb_capability_spike.py:3320-3338 | the loop over the sources marks each as contradicted, confirmed or open |
| CapabilityMatrix.ObservationIsExact | scripts/run_cockroachdb_capability_spike.py:3323-3338 | a source is contradicted if and only if some row it maps failed, and confirmed if and only if it maps rows and all of them passed |
| CapabilityMatrix.ConclusionIsExact | scripts/run_cockroachdb_capability_spike.py:3339-3348 | the conclusion over the rows: limitations if and only if some row failed, validated if and only if none failed or was deferred; the counts are the numbers of such positions |
| CapabilityMatrix.StatusesAreMapped | scripts/run_cockroachdb_capability_spike.py:3324-3338 | the set of statuses collected for a source says exactly whether a mapped probe failed, or all passed |
| CapabilityMatrix.ValidateIds | scripts/run_cockroachdb_capability_spike.py:841-847 | comparing the list of identifiers with the required ones, its size without repetitions and its order amounts to the required identifiers first and all strictly ascending |
| CapabilityMatrix.ValidateSummary | scripts/run_cockroachdb_capability_spike.py:848-890 | the counting loops and comparisons accept exactly the summaries that agree with the rows |
| CapabilityMatrix.ValidateSources | scripts/run_cockroachdb_capability_spike.py:891-993 | indexing sources by location and looking references up accepts exactly distinct, valid, complete sources to which every row is bound |
| CapabilityMatrix.ValidateMatrix | scripts/run_cockroachdb_capability_spike.py:677-994 | the validator's loops accept exactly the matrices that meet every modelled check |
| CapabilityMatrix.ProducerMeetsValidator | scripts/run_cockroachdb_capability_spike.py:3313-3366 | a completed run's matrix is accepted if and only if each capability's last mark is presentable and sourced, what stands among its marks is compatible, and the sources are ready; order, counts, references, conclusion and digest never fail |
| CapabilityMatrix.AcceptedIsProduced | scripts/run_cockroachdb_capability_spike.py:677-994 | the validator accepts nothing else: an accepted matrix has the summary that the producer makes of its rows, and its rows are in order, refer to themselves and agree with their decisions |
| CapabilityMatrix.DigestPinsMatrix | scripts/run_cockroachdb_capability_spike.py:490-495 | with a collision-free digest, two accepted matrices with one digest are the same |
| SnapshotWriter.AttemptsAreBounded | scripts/run_german_law_publication.py:179-192 | a call makes at most four attempts, retries only the typed unavailable failure, and sleeps 1, 2, 4 seconds before the retries |
| SnapshotWriter.WorkerState.Persist | scripts/run_german_law_publication.py:179-192 | the retry loop performs exactly those attempts and sleeps |
| SnapshotWriter.WorkerState.Call | scripts/run_german_law_publication.py:171-194 | a renewed inspection exactly when one is due, then the write; the count grows by one on success only |
| SnapshotWriter.CallIsExact | scripts/run_german_law_publication.py:171-194 | a call stores if and only if no due inspection fails and one of its four attempts stores after unavailable ones only; every 64 writes an inspection is due |
| SnapshotWriter.StepKeepsRegistry | scripts/run_german_law_publication.py:164-169 | one move of one thread keeps the registry distinct and within its bound |
| SnapshotWriter.StepKeepsAccounts | scripts/run_german_law_publication.py:127-194 | one move keeps the balance of all requests sent |
| SnapshotWriter.WriterIsBounded | scripts/run_german_law_publication.py:127-194 | under every interleaving the registry keeps its bound, at most 64 writes follow an inspection, no call passes its fourth attempt, and no request is lost or counted twice |
| SnapshotWriter.OperationCounts | scripts/run_german_law_publication.py:197-207 | the nested loops add up the registered clients' counts, operation by operation |
| SnapshotWriter.ReportIsComplete | scripts/run_german_law_publication.py:164-207 | when no call is in progress the report is complete if and only if no client was discarded and no thread refused |
| SnapshotWriter.FewThreadsReportEverything | scripts/run_german_law_publication.py:164-207 | with at most as many threads as workers nobody is refused, and the report is complete exactly if no client was discarded |
| WriterCalls.CallAsMoves | scripts/run_german_law_publication.py:171-194 | one call of a worker, act by act, is a sequence of moves of its thread with the same result |
| WriterCalls.ThreadRuns | scripts/run_german_law_publication.py:171-194 | among all threads those moves do the same to their thread and nothing to the others |
| WriterCalls.SurplusThreadsAreRefused | scripts/run_german_law_publication.py:164-169 | with more threads than workers, one call of each reaches a quiet state whose surplus threads were refused and whose report is incomplete |
| WriterCalls.FailedCreationDiscards | scripts/run_german_law_publication.py:140-163 | a client whose creation fails after a request leaves the report incomplete |
| ProcessTree.SelectDescendants | scripts/measure_step40_runtime_resources.py:122-129 | the growing loop ends with exactly the root and all processes whose parent chain arrives at it, for any parent map and walking order |
| ProcessTree.TreeIsLeastClosed | scripts/measure_step40_runtime_resources.py:122-129 | that set is the least one closed under children |
| ProcessTree.CycleNeverArrives | scripts/measure_step40_runtime_resources.py:122-129 | a parent cycle that avoids the root is never counted |
| ProcessTree.TotalIsAdditive | scripts/measure_step40_runtime_resources.py:130-139 | totals are conserved when the tree is cut into disjoint parts |
| ProcessTree.TotalOfOne | scripts/measure_step40_runtime_resources.py:133-139 | a single process counts with its own memory and its own threads |
| ProcessTree.UnreadableAddsNothing | scripts/measure_step40_runtime_resources.py:133-136 | processes that could not be read contribute nothing |
| ProcessTree.SampleProcessTree | scripts/measure_step40_runtime_resources.py:118-144 | the totals are those of the observable members of the tree, the count is their number, and only a root below 1 is refused |
| ControlPlaneGate.RegionProjection | scripts/run_ccloud_control_plane_gate.py:159-181 | the loop over the regions computes the projection, with the reason of the first refusal |
| ControlPlaneGate.ReadingIsExact | scripts/run_ccloud_control_plane_gate.py:166-173 | which regions are readable, as which row, and why others are not |
| ControlPlaneGate.ProjectionIsExact | scripts/run_ccloud_control_plane_gate.py:159-181 | the projection succeeds if and only if regions are readable, names distinct, exactly one primary and endpoints agree; the names come out complete and ascending |
| ControlPlaneGate.ProjectionIgnoresOrder | scripts/run_ccloud_control_plane_gate.py:159-181 | reordering the regions never changes a projection |
| ControlPlaneGate.ReasonDependsOnOrder | scripts/run_ccloud_control_plane_gate.py:166-180 | the outcome of the region checks, reason included, is the same for every order of the regions if and only if all unreadable regions have one reason |
| ControlPlaneGate.TwoReasons | scripts/run_ccloud_control_plane_gate.py:166-173 | two unreadable regions whose order decides the reason |
| ControlPlaneGate.ReceiptIsExact | scripts/run_ccloud_control_plane_gate.py:184-294 | a receipt is issued if and only if exactly one listed cluster has the name and everything described agrees with what is expected; every field of its body |
| ControlPlaneGate.ReasonIsExact | scripts/run_ccloud_control_plane_gate.py:184-294 | why a receipt is refused: no sole listing under the name, or the first of seven further grounds |
| ControlPlaneGate.ReceiptIgnoresOrder | scripts/run_ccloud_control_plane_gate.py:184-294 | permuting clusters and regions yields the same receipt and digest |
| ControlPlaneGate.OutcomeDependsOnOrder | scripts/run_ccloud_control_plane_gate.py:184-294 | the whole outcome, reason included, is the same for every order of clusters and regions if and only if the regions are not reached or all unreadable regions have one reason |

## Left out

- Database: a committed definition is a set of named parts; a part that is not
  replay-safe is refused when it is already there. The SQL inside it, and
  statements of other programs against the same database, are not modelled.
- Migration runner: concurrent runners, the loader's manifest checks, the choice
  of the time-out and the recorded timestamp; the live security catalog checks
  and the splitting of a text inside a run are calls that pass or fail.
- Splitter: the regular expressions that judge the role section and count
  replay-safe statements are predicate parameters; the trimming of the role
  section before it is sent is not modelled.
- SqlText: escape strings, dollar quotes, comments between the parts of one
  literal, signs inside a number's exponent and Unicode white space are not part
  of the lexer.
- CliTransport: parsing of CSV, the child process itself and the registry of
  child processes; the clock is an arbitrary pattern of expired reads.
- ShutdownBudget: floating point rounding and digits beyond ASCII; the settings
  listed in the returned budget are not repeated in the model.
- RuntimeCleanup: time taken by calls without a limit of their own, such as
  deleting the directory; errors other than the runner's own type; how the log
  and the ports are inspected.
- JsonUnwrap: JSON, hexadecimal and byte-literal decoding are parameters, and the
  list of candidates made from the lines and cells of the output is given.
- CapabilityMatrix: the probes themselves; the digest, the official hosts, the
  timestamps and the search for secrets are parameters; template fields that no
  mark changes, and checks on missing or wrongly typed fields, are not modelled.
  The matrix and the source list are values: that the matrix shares its rows with
  the recorder, and that sources are changed in the caller's list, is not captured.
- SnapshotWriter: the storage service and the worker directories; a client has
  sent at least one request by the time its first inspection has passed.
- ProcessTree: reading `/proc`; a process has one status for the whole sample.
- ControlPlaneGate: SHA-256 and canonical JSON are parameters; parts of the
  receipt that are the same in every receipt are left out of its body.
- Row-level security, idempotency and lifecycle rules enforced by SQL, the
  publication transition tables, secret redaction, launching of processes and the
  remaining scripts are not part of this model.
