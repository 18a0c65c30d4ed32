# A verified model of the control-plane core

RAGFlow-X keeps a multi-tenant control plane over a relational store. This project models the
parts of it whose correctness spans several functions, states or processes, and proves what
they keep:

- **The guarded store** (`guarded_store.dfy`): the SQLite triggers turn every insert, update and
  delete into a guarded step. One invariant, referential integrity over fourteen tables, is kept
  by all of them together; versions, pins and terminal runs are permanent in every run.
- **The audit chain** (`audit_log.dfy`, `audit_migrations.dfy`, `audit_reanchor.dfy`, `audit_job.dfy`,
  `audit_append.dfy`, `audit_crash.dfy`, `audit_retention.dfy`): how a record is hashed, what the
  deployment drill accepts, what the migrations that rewrite the chain leave behind, and one
  protocol of all that writes it at run time: appends of many processes, the purge of
  retention and the re-anchoring job, interleaved statement by statement with crashes anywhere.
- **The migration runner** (`migration_runner.dfy`): replicas, advisory lock, interleaved check
  and transaction, failures, crashes, and the drill's schema version check.
- **Roles and permissions** (`role_lattice.dfy`, `permissions.dfy`): the closure of the declared
  role order, the grant index, and the delete-then-insert reconciler, for every relation and matrix.
- **Data repairs before unique indexes** (`unique_names.dfy`, `evidence_repair.dfy`,
  `compilation_repair.dfy`, `connector_repair.dfy`).
- **The gateway** (`gateway.dfy`, `idempotency.dfy`, `quota_bucket.dfy`): the effect protocol of the
  three entry points, the retry ledger, and the token budget of a quota bucket.
- **Connector schedules** (`connector_schedule.dfy`): 64-bit wrap-around and truncating remainder,
  HH:MM parsing, and the two request paths.
- `text.dfy` holds separators, decimal numerals and trimming, `tables.dfy` optional values and
  query results, shared by the others.

Object state and loops of the source are classes, methods and loops here; each method is proved
against a function or a stated condition, and the main theorems are lemmas about those.
What each statement, action or form does is said once more of the tables and columns alone (the
`...Admission`, `...Means` and `...Iff` rows below), so that no theorem rests on a definition that only it names.
`dafny verify dfyconfig.toml` checks everything.

## Where the code does not give a property

Each of these is kept as the code has it, with the exact condition and an input at which it fails:

- A tail hash determines an audit log if and only if none of its hashed text columns contains `|`,
  because the columns are joined with that character (`AuditLog.TailPinsExactlySeparatorFreeLogs`,
  `AuditLog.ForgedIsAccepted`).
- v66 leaves a correct chain if and only if it changed no hash but the last one of a tenant
  (`AuditMigrations.RehashKeepsChainIff`, `AuditMigrations.RehashCanBreakChain`).
- Committed audit rows do change, and a chain is not valid at every moment: retention deletes rows, and
  the re-anchoring job passes through tables that no check accepts (`AuditAppend.MidwayIsRejected`). What
  holds is about the settled log, the one there will be once the open job has run to its end, and at moments without
  an open job about the log itself. A step keeps the settled log valid if and only if it is
  harmless: an insert finds its number taken or its row extends the settled log, a purge deletes
  no row before a surviving one, and a job does not die between its negation and its last row
  (`AuditAppend.StepKeepsGoodIff`, `AuditAppend.EveryRunGoodIff`). In particular an insert between a job's
  listing and its negation is never harmless (`AuditAppend.InsertAfterListingHarms`), and one behind the
  negation only if it read the last record of the settled log.
- An anchored beginning of the log stays if and only if every step spares it: no purge deletes one of its
  rows or tears the open job's work apart, no insert takes a number the job still wants or lands below 1, no job dies midway
  (`AuditAppend.StepKeepsAnchorIff`, `AuditAppend.AnchorHoldsIff`).
- Retention leaves a log accepted if and only if the tenant has an id or only the end of the log was
  deleted, because the re-anchoring skips the empty tenant id (`AuditRetention.RetentionAcceptedIff`).
- An append of another replica between the statements of a re-anchoring, with the tail it finds then, leaves
  the log accepted if and only if every row had been rewritten (`AuditRetention.AppendDuringReanchor`); an append that
  read its tail before retention always leaves a gap (`AuditRetention.OutdatedAppendBreaksChain`).
- The next job does not in general repair one that died. Behind k of n rows of a valid log it runs through if and
  only if 2k + 2 > n (`AuditCrash.NextJobSucceedsIff`), and it succeeds with the log there was if and only if
  k is n or there is one row (`AuditCrash.NextJobRestoresIff`).
- Route pointers are guarded on update only: a step keeps them valid if and only if it does not
  insert a route with a dangling pointer (`GuardedStore.RoutePointersKeptIff`,
  `GuardedStore.RoutePointersCanDangle`).
- The evidence of a release candidate is safe from the next statement if and only if the candidate is
  out of DRAFT; the guard lets a candidate go back to DRAFT (`GuardedStore.EvidenceFixedIff`,
  `GuardedStore.EvidenceCanBeReplacedThroughDraft`).
- Without the advisory lock, or with a lock whose session dies, two replicas can both open a
  migration; only the primary key of the version table then stops the second
  (`MigrationRunner.WithoutLockConflictsHappen`, `MigrationRunner.LostLockConflictsHappen`).
- The reconciler installs the whole matrix if and only if its `|`-joined keys tell grants apart
  (`Permissions.MatrixIsCompleteIff`, `Permissions.SeparatorCanHideGrant`). The shipped matrix has no
  `|` in any column and cannot fail (`Permissions.SeparatorFreeKeysDistinguish`).
- The 128-rune bound of generated names holds if and only if a condition on the base holds, because each
  try cuts the base only for the tries after it (`UniqueNames.BoundHoldsIff`, `UniqueNames.BoundCanBreak`).
- The role-name index is global although role names are deduped per tenant: it can be created if and
  only if the names the pass keeps, the first of each key, differ between tenants and every generated name differs from
  the names of all other tenants (`UniqueNames.GlobalIndexFitsIff`, `UniqueNames.KeptNamesCanCollide`,
  `UniqueNames.GlobalIndexCanFail`).
- v147 keeps exactly the oldest run of each group if and only if no two neighbours of its query share
  a NUL-joined key across groups (`CompilationRepair.ExactlyTheOldestStayIff`,
  `CompilationRepair.NulCanCancelAGroup`).
- The schedule conversion is congruent to value minus offset if and only if one subtraction does not
  overflow, and the negated offset undoes it for every offset but the least
  (`ConnectorSchedule.CongruentIffNoOverflow`, `ConnectorSchedule.UndoneByNegatedOffset`).
- The schedule endpoint and the create/update payload agree if and only if the schedule is not the
  string form of a daily one, or its value is a minute of the day and the offset whole days
  (`ConnectorSchedule.PathsAgreeIff`, `ConnectorSchedule.PathsDisagree`).
- A retry is executed again if and only if the record has expired or its opener has not settled it, so
  two overlapping requests with one idempotency key both execute (`Idempotency.RetryOutcome`,
  `Idempotency.OverlappingRequestsBothExecute`), and the handler's in-progress and expired replies
  are never given (`Idempotency.ReplayComesFromItsCreator`).
- The in-flight balance of a bucket equals its live reservations after a step if and only if the step is
  neither a late reservation nor a reaping of rows that were never applied while others are live;
  the comment on the `applied` column promises that it always does (`QuotaBucket.StepKeepsBalanceIff`,
  `QuotaBucket.ReapCanDrainOthers`, `QuotaBucket.LateReservationLeaks`).
- A bucket's limit is not a bound on its consumption. A finalization keeps it if and only if the
  actual use is at most the estimate plus what is left (`QuotaBucket.FinalizeWithinBudgetIff`); Search App
  and Agent add the answer to the estimate. Over every run without a draining reaping the limit
  is exceeded by no more than the sum of these excesses (`QuotaBucket.OverdraftIsBounded`); a draining reaping
  lets requests that keep to their estimates overspend (`QuotaBucket.DrainingOverspends`).
- An Agent answer without choices makes the handler panic with the record completed and the
  reservation open; a failed stream leaves the reservation to the reaper (`Gateway.Exchange.GatewayAgent`).

## Modelling decisions

- SHA-256 is a parameter. Where it matters it is assumed collision-free, never empty and free of `|`.
  Timestamps are counts of microseconds, the precision they are truncated to before hashing; their
  decimal numeral stands for the RFC 3339 text. The row id is neither hashed nor checked.
- The primary keys of the model structs are the keys of the tables: `id`, `binding_id`, `pin_id`, and
  (parent, version) for version rows. A statement changes one row; a statement on several rows
  is a run of such steps. Columns no trigger reads are one field `rest`.
- Query results are sequences that list each matching row once in the order the query asks for. In
  v126 and v147 row ids are ranks in the database's comparison order.
- Names are sequences of characters. Lower-casing is any function that leaves a numeric suffix alone, as the
  character-by-character mapping of the source does (`UniqueNames.MappingKeepsSuffixes`).
- The audit protocol is that of one tenant: no statement reads or writes another tenant's rows, except that the
  purge is the same statement for all. One re-anchoring job of a tenant is open at a time, and generated ids never repeat.
- Transactions of the quota ledger are taken as serialised. What two overlapping finalizations of one
  request would do is `QuotaBucket.OverlappingFinalizesBalanceIff`.
- A `detail` of v147 is a JSON object with its members, or a text that is none; every update of the loop
  reads its own clock.
- JSON numbers arrive as 64-bit integers. Service outcomes of the gateway are parameters; a request
  without an idempotency key behaves like one with a new record, since settling is then a no-op.

## Model

| member | source | states |
|---|---|---|
| GuardedStore.StepGrows | internal/db/migrate.go:3619-3640 | every admitted or aborted statement leaves connection versions, binding versions, pins and resource binding versions in place and unchanged |
| GuardedStore.KeysCannotMove | internal/db/migrate.go:3620-3625 | an admitted update can move neither a connection nor a binding to another id: pointer guard, parent guard and key uniqueness together forbid it |
| GuardedStore.ParentsSurvive | internal/db/migrate.go:3767-3772 | a connection or binding that has a version is still there after any statement |
| GuardedStore.StepKeepsSound | internal/db/migrate.go:3745-3773 | every statement keeps all six referential conditions of the store |
| GuardedStore.EveryRunIsSound | internal/db/migrate.go:3818-3843 | after every sequence of statements from the empty store every version has its parent, every pin, snapshot, evidence and resource reference resolves |
| GuardedStore.VersionedParentsArePermanent | internal/db/migrate.go:3619-3640 | from any sound store, through any statements, version rows and pins never change and no versioned connection or binding changes id or disappears |
| GuardedStore.TerminalRunsAreFrozen | internal/db/migrate.go:723-730 | once a run is COMPLETED, FAILED or CANCELLED, its row and each of its case results are unchanged in every later state; results can only be added |
| GuardedStore.TerminalStep | internal/db/migrate.go:4042-4052 | one statement cannot change or remove a COMPLETED, FAILED or CANCELLED run or a case result of it |
| GuardedStore.PlatformTenantsArePermanent | internal/db/migrate.go:3891-3897 | a platform tenant keeps id, type and status through any statements and is never deleted |
| GuardedStore.RoutePointersKeptIff | internal/db/migrate.go:3535-3541 | a statement keeps all route pointers valid if and only if it does not insert a route whose pointer names no pin of its own |
| GuardedStore.RoutePointersCanDangle | internal/db/migrate.go:3535-3541 | one insert into the empty store leaves a dangling route pointer |
| GuardedStore.CandidateEvidenceHolds | internal/db/migrate.go:4012-4018 | a release candidate's evidence columns are constant through any run in which it stays out of DRAFT |
| GuardedStore.EvidenceFixedIff | internal/db/migrate.go:4012-4018 | no statement can change the evidence of a candidate it leaves in place if and only if the candidate is out of DRAFT |
| GuardedStore.EvidenceCanBeReplacedThroughDraft | internal/db/migrate.go:4012-4018 | from any state two admitted updates through DRAFT replace the evidence and restore the status |
| GuardedStore.OtherTablesStay | internal/db/migrate.go:3745-3773 | a statement changes no table but the one it addresses |
| GuardedStore.Database.constructor | internal/db/migrate.go:4058-4062 | a new database is the empty, sound store |
| GuardedStore.Database.Execute | internal/db/migrate.go:3818-3843 | running a statement in place reports whether the triggers admit it, yields exactly the guarded step, keeps the store sound and the append-only tables growing; what is admitted and what a step writes is said of the tables in the rows below |
| GuardedStore.StatementsTakeEffect | internal/db/migrate.go:3745-3773 | an admitted statement adds, replaces or removes exactly its row in the table it addresses |
| GuardedStore.AbortedChangesNothing | internal/db/migrate.go:3619-3640 | a statement that is not admitted changes nothing |
| GuardedStore.TenantAdmission | internal/db/migrate.go:3891-3897 | which statements on tenants get through, said of the columns: the type never changes, a platform tenant keeps id and status and is never deleted |
| GuardedStore.ConnectionAdmission | internal/db/migrate.go:3619-3640 | which statements on connections get through: an update needs the version it points to, a deletion no version at all |
| GuardedStore.BindingAdmission | internal/db/migrate.go:3745-3773 | which statements on bindings get through: an insert needs connection and tenant, an update the version it points to, a deletion no version at all |
| GuardedStore.VersionAdmission | internal/db/migrate.go:3626-3639 | version rows are admitted exactly as inserts of a new key beside their parent, a binding version with the tenant of its binding |
| GuardedStore.RouteAdmission | internal/db/migrate.go:3535-3541 | a route update gets through exactly if its pointer is empty or names a pin of its tenant, id and version; inserts and deletions are open |
| GuardedStore.PinAdmission | internal/db/migrate.go:3757-3766 | a pin gets in exactly as an insert whose route has its tenant and whose two version references exist, and never changes |
| GuardedStore.EvidenceAdmission | internal/db/migrate.go:3818-3843 | a snapshot or bundle gets in exactly if each of its three references is empty or resolves |
| GuardedStore.ResourceAdmission | internal/db/migrate.go:1117-1121 | a resource binding is inserted or updated exactly if its pointer is null, empty or a version of it |
| GuardedStore.RunAdmission | internal/db/migrate.go:723-730 | a run is updated or deleted exactly until its status is COMPLETED, FAILED or CANCELLED |
| GuardedStore.ResultAdmission | internal/db/migrate.go:4042-4052 | a case result is updated or deleted exactly until the run it belongs to has one of these statuses |
| GuardedStore.CandidateAdmission | internal/db/migrate.go:4012-4018 | a candidate update gets through exactly if the candidate is in DRAFT or its evidence stays |
| GuardedStore.EveryReferenceResolves | internal/db/migrate.go:3818-3843 | in every run from the empty store, said of the tables alone: versions have their parents, and all references of pins, snapshots, bundles and resources resolve |
| AuditLog.CheckTenant | internal/deployment/drill.go:532-538 | the index returned is the first record at which the prefix stops being a valid chain, and the length exactly for accepted logs |
| AuditLog.CheckTargets | internal/deployment/drill.go:523-546 | all tenants' logs are accepted, with the counts of tenants and records, or the reported tenant's log is broken at the reported number and every tenant before it is accepted |
| AuditLog.CheckAuditChain | internal/deployment/drill.go:498-548 | unknown tenant, no tenants, all accepted, or a named broken log with the stored number of its first fault: each reported exactly when it is so |
| AuditLog.PrefixStep | internal/deployment/drill.go:533-538 | a prefix one longer is accepted if and only if the prefix is and the next record has the next number, names the last hash and carries its own |
| AuditLog.HashPinsRow | internal/model/auditlog.go:13-23 | equal hashes of two rows of a tenant mean equal predecessor, columns and time stamp as soon as one row is free of the separator |
| AuditLog.HashPinsTenant | internal/model/auditlog.go:13-23 | equal hashes mean equal predecessor and tenant when these contain no separator |
| AuditLog.TailPinsLog | internal/deployment/drill.go:523-540 | two accepted logs of a tenant with the same last hash are identical in length and record for record, if one of them is free of the separator |
| AuditLog.ForgedIsAccepted | internal/model/auditlog.go:13-23 | moving a separator between neighbouring columns gives a different accepted log with the same tail hash |
| AuditLog.TailPinsExactlySeparatorFreeLogs | internal/model/auditlog.go:13-23 | a log is the only accepted one with its tail hash if and only if no hashed column contains the separator |
| AuditMigrations.RelinkIsLinked | internal/db/migrate.go:93-110 | the per-tenant fold yields a correct chain from any stored hashes and changes only the hash columns |
| AuditMigrations.RelinkPass | internal/db/migrate.go:1034-1051 | one pass with a map of previous hashes equals the per-tenant fold for every tenant and every interleaving of tenants |
| AuditMigrations.Renumber | internal/db/migrate.go:250-273 | every tenant's rows get 1..n in their query order and change nowhere else |
| AuditMigrations.RenumberTenant | internal/db/migrate.go:265-270 | one tenant's rows get 1..n; rows of other tenants are untouched |
| AuditMigrations.RehashPass | internal/db/migrate.go:968-986 | every row carries the hash of its stored predecessor hash and its stored columns, and no column but the hash changes |
| AuditMigrations.RehashKeepsChainIff | internal/db/migrate.go:968-986 | on intact links the rehash leaves a correct chain if and only if it changed no hash but possibly the last |
| AuditMigrations.RehashCanBreakChain | internal/db/migrate.go:968-986 | with every digest there is a numbered log with intact links that the rehash breaks |
| AuditMigrations.AscendingIsNumbering | internal/deployment/drill.go:525-531 | if a tenant's rows are numbered 1..n, the query in sequence order returns exactly that numbering |
| AuditMigrations.RelinkAcceptedIff | internal/db/migrate.go:1034-1051 | after the relinking pass the drill accepts a tenant, whatever was stored before, if and only if its numbers had no gap |
| AuditMigrations.RelinkKeepsRest | internal/db/migrate.go:1034-1051 | the pass changes only the two hash columns of any row |
| AuditMigrations.UpgradeIsAccepted | internal/db/migrate.go:250-273 | v24, v66, v69 from an arbitrary table make the drill accept every tenant, broken links in between included |
| AuditReanchor.ReanchorIsAccepted | internal/repository/retention.go:169-190 | a re-anchored log is accepted whatever it was before and keeps tenant, time and payload of every row in order |
| AuditReanchor.ReanchorIsIdentityIff | internal/repository/retention.go:169-190 | re-anchoring changes nothing if and only if the log was accepted |
| AuditReanchor.ReanchorPrefix | internal/repository/retention.go:169-190 | a prefix of the re-anchored log is the re-anchored prefix |
| AuditReanchor.ReanchorAuditChain | internal/repository/retention.go:153-190 | listing, negation and the row loop: succeeds if and only if no later row's negated number is in the way, and then the listed rows are the re-anchored ones and other tenants' rows are untouched |
| AuditReanchor.Undisturbed | internal/repository/retention.go:171-189 | from any row to any later one the undisturbed loop runs through if and only if no number clashes, and carries the right last hash |
| AuditReanchor.NextJobStartsWithNewest | internal/repository/retention.go:153-190 | after a crash before the last row the next listing begins with the newest row |
| AuditJob.ExtendedIff | internal/repository/m2.go:529-543 | a row extends an accepted log to an accepted one if and only if it has the next number, the tail hash and its own correct hash |
| AuditJob.AddRowIff | internal/repository/m2.go:529-543 | a new row leaves a valid table valid, under any listing, if and only if it continues the chain |
| AuditJob.PurgeIff | internal/repository/retention.go:52-86 | a purge leaves a valid table valid if and only if no deleted row is followed by a surviving one |
| AuditJob.JobAdvances | internal/repository/retention.go:171-189 | on any table the row loop rewrites exactly the rows before the first one that is missing or whose number is held, and changes nothing else |
| AuditJob.InsertDuringJobIff | internal/repository/retention.go:171-189 | a row inserted at any point of the row loop leaves the loop's outcome valid if and only if it continues that outcome |
| AuditJob.PurgeDuringJobIff | internal/repository/retention.go:171-189 | a purge at any point of the row loop leaves the loop's outcome valid if and only if it deletes no row of it before a surviving one, and then the outcome is purged likewise |
| AuditJob.FreshJobSettles | internal/repository/retention.go:153-190 | from any table without negative numbers the whole job leaves the re-anchored log, and the very table where it was valid |
| AuditAppend.JobStepsKeepSettled | internal/repository/retention.go:161-189 | the negation and every row of a job, rewritten or given up, keep the table it will leave: the job refines one atomic step |
| AuditAppend.InsertMeans | internal/repository/m2.go:529-552 | an insert adds its row exactly if no row of the tenant has its number, and ends its attempt either way |
| AuditAppend.SuccessorCarriesEntry | internal/repository/m2.go:529-543 | the row is the entry of its attempt with the next number after the tail it read, the hash of that tail and its own correct hash |
| AuditAppend.PurgeMeans | internal/repository/retention.go:52-86 | a purge removes exactly the rows older than its limit and changes no other |
| AuditAppend.ListAndNegateMean | internal/repository/retention.go:153-168 | a job is open from a non-empty listing on; the negation negates exactly the numbers of the tenant |
| AuditAppend.RewriteMeans | internal/repository/retention.go:171-189 | a job rewrites number and hashes of its next row, chained to the row before, exactly if the row is there and its number free; otherwise and after its last row it is over |
| AuditAppend.ListingRepairs | internal/repository/retention.go:153-160 | from any table without negative numbers a job that begins settles the re-anchored log |
| AuditAppend.StepKeepsGoodIff | internal/repository/retention.go:153-190 | every statement of appends, purges and jobs, crashes included, keeps the settled log valid if and only if it is harmless |
| AuditAppend.EveryRunGoodIff | internal/repository/m2.go:501-552 | in every interleaving of these statements the settled log is valid at every moment if and only if every step was harmless |
| AuditAppend.GoodWithoutJob | internal/repository/m2.go:501-552 | at a moment without an open job the settled log is the log the drill reads |
| AuditAppend.MidwayIsRejected | internal/repository/retention.go:161-189 | while a job has rows left to rewrite, no listing of the tenant is accepted, however valid the log was |
| AuditAppend.InsertAfterListingHarms | internal/repository/retention.go:153-168 | a row with a positive number that gets in between a job's listing and its negation always breaks the settled log |
| AuditAppend.TailIsLast | internal/repository/m2.go:570-580 | on a valid log the row with the greatest number is the last record and its hash the tail hash |
| AuditAppend.HeldNumbers | internal/repository/m2.go:495-500 | on a valid log a number is held if and only if it lies within 1..n |
| AuditAppend.UniqueIndexIsExact | internal/repository/m2.go:495-500 | without an open job, for an attempt that remembers a record of the log, inserting keeps the chain valid if and only if the unique index finds the number free |
| AuditAppend.StepKeepsInvariant | internal/repository/m2.go:501-552 | appends and jobs that keep apart leave the settled log valid and only ever extend it |
| AuditAppend.EveryRunKeepsChains | internal/repository/m2.go:501-552 | in every run without a purge in which appends read and write only while no job is open and no job dies midway, the log is valid at every moment without a job and its records never change |
| AuditAppend.StepKeepsIndex | internal/repository/m2.go:495-500 | the unique index on (tenant, number) holds after every statement, negation and rewritings included |
| AuditAppend.StepKeepsAnchorIff | internal/repository/retention.go:52-190 | a valid beginning of the settled log, whatever follows it, survives a statement if and only if the statement spares it |
| AuditAppend.AnchorHoldsIff | internal/service/audit_anchor.go:114-146 | in every interleaving, interrupted jobs included, an anchored beginning stays at every moment if and only if every step spares it |
| AuditAppend.AnchoredWithoutJob | internal/service/audit_anchor.go:114-146 | at a moment without an open job that means: the rows in sequence order have positive numbers and begin with the anchored ones |
| AuditAppend.AnchorSettlesHistory | internal/service/audit_anchor.go:114-146 | that condition for the whole log at the moment of the anchor, and any accepted log with the anchored hash at that position has the same separator-free records there |
| AuditCrash.ListingAfterCrash | internal/repository/retention.go:153-160 | after a crash behind k rows the next job lists the rows not yet rewritten from the last to the first, then the rewritten ones |
| AuditCrash.NextJobSucceedsIff | internal/repository/retention.go:153-190 | behind k of n rows of a log numbered 1..n the next job runs through if and only if 2k + 2 > n |
| AuditCrash.NextJobRestoresIff | internal/repository/retention.go:153-190 | the next job leaves the table there was if and only if k is 0 or n, and reports success with it if and only if k is n or there is one row |
| AuditRetention.PurgeAcceptedIff | internal/repository/retention.go:52-86 | a purge leaves an accepted log accepted if and only if no deleted row is followed by a surviving one |
| AuditRetention.KeptMembers | internal/repository/retention.go:52-86 | the rows kept are exactly the young ones |
| AuditRetention.KeptOfParts | internal/repository/retention.go:52-86 | the purge decides row by row and keeps the order |
| AuditRetention.ReanchorAuditChains | internal/repository/retention.go:135-148 | exactly the listed tenants with an id are re-anchored, however often they are listed |
| AuditRetention.RunAuditRetention | internal/service/retention.go:180-197 | every tenant keeps its young rows, re-anchored exactly where rows were deleted and the tenant has an id |
| AuditRetention.RetainedMeans | internal/service/retention.go:180-197 | a log without old rows stays as it is, a tenant without an id is only purged, every other log is purged and re-anchored |
| AuditRetention.RetentionAcceptedIff | internal/service/retention.go:180-197 | retention leaves an accepted log accepted if and only if the tenant has an id or only the end of the log was deleted; the kept entries are the young ones in order |
| AuditRetention.OutdatedAppendBreaksChain | internal/repository/m2.go:529-543 | an append that read the tail before retention deleted a row always finds its number free afterwards and always breaks the chain |
| AuditRetention.AppendDuringReanchor | internal/repository/retention.go:153-190 | an append after k rewritten rows leaves the log accepted in the end if and only if k is all of them |
| AuditRetention.AppendBeforeNegation | internal/repository/retention.go:153-168 | an append between the listing and the negation is never renumbered and breaks the chain |
| MigrationRunner.StepKeepsInvariant | internal/db/migrate.go:4071-4129 | every step of every replica keeps the version table duplicate-free and append-only and every replica's progress recorded |
| MigrationRunner.StepKeepsLevel | internal/db/migrate.go:4071-4129 | a commit on a downward-closed table, filled in any order, is always the next list entry |
| MigrationRunner.EveryRunRecordsOnce | internal/db/migrate.go:4071-4129 | in every run, with or without the lock, with failures, crashes and lost lock sessions, the version table only grows and records each migration at most once |
| MigrationRunner.EveryRunCommitsInOrder | internal/db/migrate.go:4071-4129 | from any downward-closed version table the commits of every run are the following list entries, in order and without a gap, and the table stays downward closed |
| MigrationRunner.CommitsStayWithinTarget | internal/db/migrate.go:4082-4087 | in every run each commit records a listed version not above the target of its replica |
| MigrationRunner.FinishedMeansRecorded | internal/db/migrate.go:4071-4129 | once a replica has finished, everything up to its target is recorded for good |
| MigrationRunner.LockPreventsConflicts | internal/db/migrate.go:4145-4167 | with the lock, unless its session dies under a live process, only the holder runs and no commit meets a recorded version |
| MigrationRunner.EndFreesLock | internal/db/migrate.go:4071-4076 | a replica that finishes, fails, crashes or whose commit is rejected frees the lock if it holds it and records nothing; no other step of a running replica touches the lock |
| MigrationRunner.StepKeepsHolder | internal/db/migrate.go:4145-4167 | after every step the lock is free or held by a running replica |
| MigrationRunner.IdleMeansFree | internal/db/migrate.go:4145-4167 | in every run from a free lock the lock is free whenever no replica is running |
| MigrationRunner.IdleReplicaCanRun | internal/db/migrate.go:4071-4129 | from every state of a locking run without a running replica an idle one can take the lock, record everything up to its target and finish with the lock free, whatever failed or crashed before |
| MigrationRunner.StartedReplicaCanRun | internal/db/migrate.go:4071-4129 | the same for any replica that starts then, new or once stopped, with any target |
| MigrationRunner.WithoutLockConflictsHappen | internal/db/migrate.go:4145-4167 | without the lock, for every non-empty list, there is a run in which a second commit of the same version is rejected |
| MigrationRunner.LostLockConflictsHappen | internal/db/migrate.go:4145-4167 | for every non-empty list a run of locking replicas with one lost lock session reaches a rejected commit |
| MigrationRunner.MigrateTo | internal/db/migrate.go:4064-4129 | an unknown target changes nothing; success records exactly the pending versions in order; a failure keeps those before it |
| MigrationRunner.PendingMembers | internal/db/migrate.go:4082-4108 | the versions applied are exactly the listed ones up to the target that were not recorded |
| MigrationRunner.PendingAscends | internal/db/migrate.go:4082-4108 | they are applied in list order |
| MigrationRunner.MigrateInTwoLegs | internal/db/migrate.go:4064-4070 | migrating to a and then to b records the same versions as migrating to the greater of them |
| MigrationRunner.ContainsVersion | internal/deployment/drill.go:243-250 | the search finds a version if and only if it is in the list |
| MigrationRunner.CheckSchemaVersion | internal/deployment/drill.go:207-241 | accepted if and only if all of 1..expected are recorded and the maximum is expected; the missing list is exact, and a wrong latest version is reported exactly when none is missing |
| MigrationRunner.MigratedPassesCheck | internal/db/migrate.go:4058-4062 | for a contiguous list, a successful run to the latest version from any table inside the list meets the schema check |
| RoleLattice.SupersetSet | internal/db/role_lattice.go:178-184 | the set holds exactly the declared pairs |
| RoleLattice.Adjacency | internal/db/role_lattice.go:190-197 | the adjacency lists hold exactly the edges, in whatever order the pairs are visited |
| RoleLattice.Search | internal/db/role_lattice.go:200-211 | the explicit-stack search terminates on every finite relation, cycles included, and finds exactly the other roles a non-empty path leads to |
| RoleLattice.SupersetClosure | internal/db/role_lattice.go:189-214 | a pair is in the closure if and only if its first role is listed, the second differs and a non-empty declared path connects them |
| RoleLattice.GrantIndex | internal/db/role_lattice.go:226-238 | the index agrees with the matrix on every role, action and resource |
| RoleLattice.DeclarationsDecideClosure | internal/db/role_lattice.go:189-238 | if all declared pairs hold on the index, so does every closure pair, and roles that diverge are in the closure in neither direction |
| RoleLattice.CyclesMeanEqualGrants | internal/db/role_lattice.go:189-238 | roles on a common cycle of declarations that hold have equal grants |
| Permissions.ReconcileBuiltinPermissions | internal/db/migrate.go:4731-4749 | deletes every built-in row, keeps the custom ones and inserts the first grant of each key under a fresh id; with fresh ids the table is reconciled |
| Permissions.Reconcile | internal/db/migrate.go:4731-4749 | the same loop, and the same reconciled table, for any way of naming grants by a text |
| Permissions.DedupedMembers | internal/db/migrate.go:4736-4747 | the inserted grants come from the matrix, have all its keys and each key once |
| Permissions.CustomRowsKept | internal/db/migrate.go:4731-4735 | a row of a custom role is in the table afterwards if and only if it was before, unchanged |
| Permissions.BuiltinRowsAreTheMatrix | internal/db/migrate.go:4731-4749 | every built-in row afterwards is an allow row of a grant of the matrix, no grant has two rows, custom rows are untouched |
| Permissions.RowsAreReconciled | internal/db/migrate.go:4731-4749 | said of the rows alone: rows of custom roles are exactly those there were, every built-in row allows a grant of the matrix, no two alike |
| Permissions.GrantHeldIff | internal/db/migrate.go:4736-4747 | a grant of the matrix is present afterwards if and only if it stands in the matrix at a place before which no grant has its key |
| Permissions.MatrixIsCompleteIff | internal/db/migrate.go:4736-4747 | every grant of the matrix is present afterwards if and only if keys tell grants apart |
| Permissions.SeparatorFreeKeysDistinguish | internal/db/migrate.go:4736-4747 | keys tell grants apart when no column contains the separator |
| Permissions.KeysCoincide | internal/db/migrate.go:4738-4738 | moving a separator between columns does not change the key |
| Permissions.SeparatorCanHideGrant | internal/db/migrate.go:4736-4747 | of two such grants the second is missing afterwards |
| Permissions.ReconcileTwice | internal/db/migrate.go:4731-4749 | running twice equals running once up to the generated ids, and the rows are reconciled with the table before the first run |
| UniqueNames.CandidateKeysDiffer | internal/db/migrate.go:3478-3493 | candidates of different tries have different keys although the base is cut between tries |
| UniqueNames.MappingKeepsSuffixes | internal/db/migrate.go:3474-3476 | a character-by-character mapping that keeps spaces, parentheses and digits keeps numeric suffixes |
| UniqueNames.TriesAreBounded | internal/db/migrate.go:3478-3493 | as many tries as were taken need as many keys in use |
| UniqueNames.NextUniqueName | internal/db/migrate.go:3478-3493 | returns the first candidate whose key is free, and gives up if and only if the key of every try is taken, which takes at least limit minus two keys |
| UniqueNames.BoundHoldsIff | internal/db/migrate.go:3479-3486 | all candidates stay within 128 characters if and only if the trimmed base has at most 124 and none of its leading 120 to 124 characters, where there are that many, both start and end in a non-space |
| UniqueNames.BoundCanBreak | internal/db/migrate.go:3482-3486 | some 128-character name gets a 132-character replacement |
| UniqueNames.DedupeUniqueNames | internal/db/migrate.go:3435-3472 | on success all keys are pairwise distinct, the first row of each key keeps its name, ids and tenants are unchanged, every other name is a numbered candidate of the old one and no new key equals an original one; tables within the limit always succeed |
| UniqueNames.DedupeTable | internal/db/migrate.go:3435-3493 | with the limit of the source every table of at most 999,998 rows is repaired |
| UniqueNames.RowAfterPass | internal/db/migrate.go:3435-3472 | said of the rows alone: a name stays if no earlier row of the tenant has it up to case; otherwise the new one is a numbered candidate of it that no row of the tenant had up to case |
| UniqueNames.KeyMeans | internal/db/migrate.go:3474-3476 | keys tell apart exactly tenant and lower-cased name when tenants contain no NUL |
| UniqueNames.FirstCandidate | internal/db/migrate.go:3478-3493 | the first try is the trimmed name with the suffix (2) |
| UniqueNames.LaterCandidate | internal/db/migrate.go:3478-3493 | a later try is the trimmed rest of the name the tries before it left, with its own number |
| UniqueNames.TenantIndexFits | internal/db/migrate.go:1333-1341 | after the pass the index on (tenant, lower-cased name) can be created, for any database lower-casing that identifies no more than the pass |
| UniqueNames.GlobalIndexFitsIff | internal/db/migrate.go:1330-1340 | the global role index can be created if and only if the first rows of each key, which the pass keeps, have different lower-cased names between tenants and every generated name differs from the names of all other tenants |
| UniqueNames.KeptNamesCanCollide | internal/db/migrate.go:1330-1340 | for every table two first rows with one lower-cased name make the global index impossible |
| UniqueNames.GlobalIndexWithoutRepeatsIff | internal/db/migrate.go:1330-1340 | where no tenant repeats a name, the global index can be created if and only if no two tenants of the table before the pass share a lower-cased name |
| UniqueNames.GlobalIndexCanFail | internal/db/migrate.go:1330-1340 | two tenants with a role of the same name keep it, and the global index cannot be created |
| EvidenceRepair.KeepCurrentEvidence | internal/db/migrate.go:2332-2354 | deleting row by row against the shrinking table leaves the same rows as deleting all superseded ones at once, and removes exactly their dependencies |
| EvidenceRepair.CurrentStaysVisible | internal/db/migrate.go:2345-2352 | deleting superseded rows never changes whether a row is superseded |
| EvidenceRepair.OneRowPerCase | internal/db/migrate.go:2355-2356 | every case that had evidence keeps exactly one row, the greatest by (created_at, id) |
| EvidenceRepair.KeptIff | internal/db/migrate.go:2343-2354 | said of the columns alone: a row is kept, unchanged, if and only if no other row of its tenant and case is later, or as late with a greater id |
| EvidenceRepair.DependencyKeptIff | internal/db/migrate.go:2333-2341 | a dependency is kept, unchanged, if and only if its evidence is not among the deleted rows |
| EvidenceRepair.OrphansAreTheSame | internal/db/migrate.go:2333-2354 | the dependencies without evidence after the repair are exactly those before it |
| EvidenceRepair.OrderMatters | internal/db/migrate.go:2333-2354 | deleting dependencies after the evidence would delete none and orphan every dependency of a deleted row |
| CompilationRepair.CollectSuperseded | internal/db/migrate.go:2899-2908 | the collected runs are exactly those whose key equals the key before, with their details |
| CompilationRepair.CancelAll | internal/db/migrate.go:2909-2932 | exactly the collected runs are cancelled, with the marker merged into their detail and a fresh update time, in whatever order the map is walked |
| CompilationRepair.EnforceOneActive | internal/db/migrate.go:2890-2932 | the marked runs are cancelled and nothing else changes |
| CompilationRepair.CompilationRunActiveInvariant | internal/db/migrate.go:2890-2937 | the same with the key joined from tenant, dataset and kind |
| CompilationRepair.NulFreeNeighboursAreTold | internal/db/migrate.go:2902-2902 | NUL-free columns never let neighbours share a key across groups |
| CompilationRepair.ExactlyTheOldestStayIff | internal/db/migrate.go:2890-2937 | for every table the active runs afterwards are exactly the least of each group by (created_at, id) if and only if no neighbours of the query share a key across groups |
| CompilationRepair.OthersAreUntouched | internal/db/migrate.go:2909-2932 | every row is unchanged or moved from active to cancelled |
| CompilationRepair.MigratedRun | internal/db/migrate.go:2890-2937 | with NUL-free columns, said of the columns alone: a run is accepted, dispatched or unknown afterwards if and only if it is the first such run of its tenant, dataset and kind; the others are cancelled with reason and time in their detail, and no other row changes |
| CompilationRepair.EveryGroupKeepsOneIff | internal/db/migrate.go:2890-2937 | every group that had an active run keeps one if and only if that condition holds |
| CompilationRepair.GroupKeepsAtMostOne | internal/db/migrate.go:2933-2936 | no group keeps two, whatever its columns contain, so the partial unique index can be created |
| CompilationRepair.NulCanCancelAGroup | internal/db/migrate.go:2902-2908 | two groups with a NUL in a column share a key and the second loses its only run |
| ConnectorRepair.BackfillOwnershipKeys | internal/db/migrate.go:3072-3103 | every row ends with its right key and exactly the rows with another key are written |
| ConnectorRepair.ChooseKey | internal/db/migrate.go:3080-3096 | the loop body chooses deleted, legacy or canonical key by what earlier live rows claimed |
| ConnectorRepair.OwnershipKey | internal/db/migrate.go:3080-3096 | said of the columns alone: which rows end with a deleted, a legacy or their canonical key; no other column changes |
| ConnectorRepair.KeysAreUnique | internal/db/migrate.go:3072-3103 | no two rows of a tenant share an ownership key afterwards |
| ConnectorRepair.OldestHoldsIdentity | internal/db/migrate.go:3072-3103 | the oldest live row of each identity holds it, every later one does not |
| ConnectorRepair.SecondRunWritesNothing | internal/db/migrate.go:3097-3099 | on the repaired table every key is already right |
| Gateway.TallyCounts | internal/handler/gateway.go:27-130 | the ledger counts each kind of effect of a trace |
| Gateway.TallyWatchesOrder | internal/handler/gateway.go:27-130 | the ledger stays clean if and only if every call has a reservation before it and no settlement, and every reservation attempt has an opened record before it |
| Gateway.EveryExchangeAccounts | internal/handler/gateway.go:27-299 | for every entry point and all outcomes the protocol holds; record, reservation, call, settlement, reply and audit happen exactly under their conditions on the outcomes; the handler leaves the reservation open exactly on a chat call, a panic or a failed stream |
| Gateway.OpeningIff | internal/handler/gateway.go:27-86 | said of the outcomes alone: a record is opened exactly when key, permission, address and body pass and the slot is new, a reservation exactly when the quota also allows it |
| Gateway.CalledIff | internal/handler/gateway.go:86-299 | said of the outcomes alone: the provider is called exactly when the reservation stands and every check of the entry point passes; only an Agent answer without choices leaves no reply |
| Gateway.Exchange.Open | internal/handler/gateway.go:51-86 | body, record and quota: opens exactly one record and one reservation, or answers once and leaves nothing open |
| Gateway.Exchange.QuotaFailed | internal/handler/gateway.go:343-349 | a refused reservation fails the record and answers once |
| Gateway.Exchange.Deny | internal/handler/gateway.go:351-356 | a failed check returns the reservation, fails the record and answers once |
| Gateway.Exchange.Forward | internal/handler/gateway.go:366-433 | the chat tail calls once and settles the record by the outcome |
| Gateway.Exchange.GatewayChat | internal/handler/gateway.go:27-130 | the protocol and the account of every effect for every outcome: called exactly when all checks pass, completed exactly when the call succeeds; without a call the reservation is closed |
| Gateway.Exchange.GatewaySearchApp | internal/handler/gateway.go:134-211 | the protocol and the account of every effect for every outcome: completed and consumed exactly when all checks pass and the call succeeds, returned when it fails; closed exactly unless the committed stream failed |
| Gateway.Exchange.GatewayAgent | internal/handler/gateway.go:215-299 | the same account for the Agent; panics exactly on a non-streamed answer without choices; closed exactly unless it panicked or the stream failed |
| Idempotency.PreimageDeterminesRequest | internal/service/gateway_idempotency.go:89-99 | with NUL-free key, method and target the hashed text determines the request, whatever the body holds |
| Idempotency.InsertMeans | internal/repository/m2.go:898-904 | an insert on a free slot with a new id puts its open row there for 24 hours, from any ledger; otherwise nothing changes |
| Idempotency.SettleMeans | internal/repository/m2.go:918-935 | a settlement writes status and response of exactly the open rows of its id and request |
| Idempotency.PurgeMeans | internal/repository/retention.go:103-105 | a purge removes exactly the rows that expire before its limit |
| Idempotency.JudgeMeans | internal/service/gateway_idempotency.go:24-66 | from any ledger: another fingerprint conflicts, a settled record is replayed until it expires, every other record there is executed |
| Idempotency.RowAfterRun | internal/repository/m2.go:918-935 | after any interleaving that does not purge it, a record is what the first settlement of its own request made of it |
| Idempotency.RetryOutcome | internal/service/gateway_idempotency.go:24-66 | a retry is executed again if and only if the record has expired or its opener has not settled it, otherwise replays the first settlement; another fingerprint always conflicts |
| Idempotency.SettledIsFinal | internal/repository/m2.go:918-935 | a settled record never changes until a purge reaches it |
| Idempotency.EveryRowIsExplained | internal/repository/m2.go:898-935 | in every run each record was opened and, if settled, later settled by one and the same request |
| Idempotency.ReplayComesFromItsCreator | internal/handler/gateway.go:435-450 | in every run a replayed answer was written by the request that opened the slot with the same fingerprint; in-progress and expired records are never replayed |
| Idempotency.OverlappingRequestsBothExecute | internal/service/gateway_idempotency.go:58-60 | a second request on an open record executes too, and its answer is dropped if and only if its request id differs from the first one's |
| QuotaBucket.AddMeans | internal/repository/quota_bucket.go:50-58 | a new request gets a pending row that is not applied, a known one changes nothing |
| QuotaBucket.ReserveMeans | internal/repository/quota_bucket.go:80-113 | a reservation adds its estimate and marks its row exactly if it asks for something and both limits leave room |
| QuotaBucket.FinalizeMeans | internal/repository/quota_bucket.go:130-156 | a live row is finalized: the estimate leaves the balance, never below zero, and the actual use is booked |
| QuotaBucket.ReleaseMeans | internal/repository/quota_bucket.go:162-190 | a pending row is released; an applied one takes its estimate out of the balance |
| QuotaBucket.ReapMeans | internal/repository/quota_bucket.go:195-219 | reaping releases exactly the pending rows created before the limit and books no use |
| QuotaBucket.StepKeepsBalanceIff | internal/repository/quota_bucket.go:80-219 | from a balanced bucket an action keeps pending equal to the live reservations if and only if it is neither a reservation on a reaped row nor a reaping of unapplied estimates while others are live |
| QuotaBucket.ReapKeepsBalanceIff | internal/repository/quota_bucket.go:195-219 | reaping keeps the balance if and only if it subtracts no unapplied estimate or nothing stays live |
| QuotaBucket.ReapCanDrainOthers | internal/repository/quota_bucket.go:195-219 | reaping an unapplied row can drain another request's reservation |
| QuotaBucket.LateReservationLeaks | internal/repository/quota_bucket.go:80-113 | a reservation on a row reaped meanwhile stays in flight |
| QuotaBucket.OverlappingFinalizesBalanceIff | internal/repository/quota_bucket.go:130-156 | two finalizations of one request that both read before either writes keep the balance if and only if nothing was estimated or nothing else is in flight |
| QuotaBucket.StepKeepsCoverIff | internal/repository/quota_bucket.go:80-219 | an action keeps pending at least the live reservations if and only if it is not a reaping that subtracts more unapplied estimates than there is to spare while others are live |
| QuotaBucket.FinalizeWithinBudgetIff | internal/repository/quota_bucket.go:130-156 | a finalization keeps the bucket within its limit if and only if the use is at most the estimate plus what the limit has left |
| QuotaBucket.OverdraftIsBounded | internal/repository/quota_bucket.go:80-219 | in every serialised run without a draining reaping, whatever is consumed, used plus pending exceeds the limit by at most the sum of what finalizations used beyond their estimates |
| QuotaBucket.NeverOverBudget | internal/repository/quota_bucket.go:80-219 | in every serialised run without a draining reaping whose finalizations stay within their estimates, used plus pending never exceeds the limit |
| QuotaBucket.DrainingOverspends | internal/repository/quota_bucket.go:195-219 | from an empty bucket of limit 10 a run whose finalizations all stay within their estimates consumes 13 after a draining reaping |
| QuotaBucket.OverconsumptionExceedsLimit | internal/handler/gateway.go:197-197 | one answer longer than its estimate takes a balanced bucket over its limit |
| QuotaBucket.ReapStale | internal/repository/quota_bucket.go:195-219 | the loop of clamped subtractions equals one clamped subtraction of the sum and reports that sum |
| ConnectorSchedule.LandsInDay | internal/handler/connector.go:67-70 | for all inputs the result is in [0,1440) and the minute of the wrapped difference |
| ConnectorSchedule.CongruentIffNoOverflow | internal/handler/connector.go:67-70 | congruent to value minus offset modulo 1440 if and only if the subtraction stays within 64 bits |
| ConnectorSchedule.UndoneByNegatedOffset | internal/handler/connector.go:67-70 | on minutes of the day the negated offset undoes the conversion if and only if the offset is not the least integer |
| ConnectorSchedule.ConversionIsInjective | internal/handler/connector.go:67-70 | for every offset the conversion is injective on minutes of the day |
| ConnectorSchedule.UnchangedIff | internal/handler/connector.go:67-70 | a 64-bit value is its own conversion if and only if it is a minute of the day and the offset is whole days |
| ConnectorSchedule.ParsesIff | internal/handler/connector.go:136-147 | a text is parsed to a minute if and only if, trimmed, it is an hour 0..23 and a minute 0..59 around its first colon |
| ConnectorSchedule.HHMMRoundTrip | internal/handler/connector.go:136-147 | every minute of the day is parsed back from its HH:MM form |
| ConnectorSchedule.AtoiReadsBack | internal/handler/connector.go:136-147 | every signed decimal numeral is read back |
| ConnectorSchedule.AtoiRejects | internal/handler/connector.go:136-147 | a text that is empty or has another character than a digit behind its first one is no number |
| ConnectorSchedule.KindMeans | internal/handler/connector.go:97-121 | the kind of an object form is its trimmed text, or empty |
| ConnectorSchedule.ValueMeans | internal/handler/connector.go:97-121 | the value of an object form: numeric minutes, else a numeric value, else a clock time that parses, else the fallback |
| ConnectorSchedule.FlatFormMeans | internal/handler/connector.go:97-121 | a text form is its trimmed kind with the fallback value; every other form has no kind |
| ConnectorSchedule.OffsetMeans | internal/handler/connector.go:43-70 | the given offset, else 480 minutes for any schedule, else none |
| ConnectorSchedule.PayloadMeans | internal/handler/connector.go:43-70 | what create and update store: only the object form of a daily schedule is converted |
| ConnectorSchedule.SetConnectorSchedule | internal/handler/connector.go:494-518 | the step-by-step endpoint rejects exactly an unparsable time and stores time over minutes over object over flat value; a daily schedule lands in the day |
| ConnectorSchedule.EndpointMeans | internal/handler/connector.go:494-518 | what the endpoint stores: a clock time over positive minutes over the schedule over the flat value, converted exactly for a daily schedule; rejected exactly for an unparsable time |
| ConnectorSchedule.PathsAgreeIff | internal/handler/connector.go:43-70 | without overrides the endpoint and the create/update payload store the same if and only if the schedule is not a daily string form, or its value is a minute of the day and the offset whole days |
| ConnectorSchedule.PathsDisagree | internal/handler/connector.go:494-518 | a daily string-form schedule at minute 60 with the default offset is kept by one path and moved to minute 1020 by the other |

## Left out

- PostgreSQL branches (functions, foreign keys, row security, privileges): only the SQLite triggers are modelled, and several PostgreSQL guards differ from them.
- Extra unique indexes and the triggers on evaluation set versions, case versions, releases and health checks: they only reject more, or repeat a shape already modelled. `REPLACE`, which would delete rows past the delete triggers, is not a statement of the model: the code issues none.
- A binding's connection and tenant are checked on insert only and are not claimed to exist later; a binding version is claimed to have its binding by `binding_id` alone.
- `AutoMigrate`, column conversions, index creation, the platform-tenant count and the RBAC seeding inside the migration run.
- The literal contents of the permission matrix, the permission catalogue, role intents and `ReadImpliedByAction`: finite tables.
- The retry count and back-off of the audit append; two re-anchoring jobs of one tenant at once; the other tables retention purges.
- Interleavings inside a transaction of the quota ledger, beyond two overlapping finalizations.
- Request counts of a bucket and the key-level quota; the chat path's metering after the call, which closes its reservation in the service layer.
- AuditLog.TailPinsLog: needs one log free of the separator, because the property is false otherwise; the exact condition is AuditLog.TailPinsExactlySeparatorFreeLogs.
- GuardedStore.CandidateEvidenceHolds: only while the candidate stays out of DRAFT, because the guard allows the way back; GuardedStore.EvidenceFixedIff is the exact condition for one statement.
- All other HTTP handlers, probes, uploads, OIDC and IM callbacks, configuration, commands and the web client.
