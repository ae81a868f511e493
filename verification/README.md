# Noye: verified model

A Dafny model of the parts of Noye that compute or protect something: the audit hash chain, the SLA
arithmetic, the monitoring state machine with its incident ledger and scheduler, first-login identity
resolution, configuration export and import, retention, rate limiting and the CSV exports. Each file
is one module. `dafny verify dfyconfig.toml` checks all of them.

| component | modules |
|---|---|
| shared | `Wrappers`, `Ordering` (string order, stable sort, filter, map), `Orbits` (following a partial map until it ends or repeats) |
| audit chain | `AuditHash` (encoding and hash), `AuditChain` (the walk), `AuditReport` (partition, the report by columns), `AuditOrder` (independence of row order), `AuditTrunk`, `AuditHistory` (one writer, deletions, edits), `AuditProtocol` (interleaved writers), `AuditLog` (the table as an object) |
| SLA | `SlaRanges` (interval algebra), `SlaReport` (one target), `SlaWindows` (SQL filters, additivity), `SlaSummary` (aggregate) |
| monitor | `HealthStates`, `Incidents`, `IncidentTimes`, `IncidentRecords` (what the columns of the ledger say about the run), `Engine` (the tables as objects), `Scheduler`, `Downtime` (ledger and SLA figures), `Cron` (whole sequences of runs) |
| identity | `Identity` |
| import and export | `Upserts` (any keyed table), `Migration` (tables and importer), `MigrationFacts`, `MigrationRepeat`, `MigrationSchema` (what every import keeps of the schema), `MigrationValidate` (validation and endpoint), `MigrationUsers` and `MigrationStops` (imports that stop part-way), `MigrationExports`, `MigrationRoundTrip` |
| retention | `Retention` |
| rate limits | `RateLimit` |
| CSV | `Csv` |

## How the source is represented

- A D1 table is a sequence or a map held in a class field. A statement is one atomic step. Code that
  updates tables is a method whose contract gives the whole new state, either directly or as a function
  of the old one; the laws are lemmas about those functions and about runs of atomic steps.
- Timestamps are integers (seconds). Where the source compares canonical timestamp strings, the model
  keeps strings and compares them by code point.
- SHA-256 is a function parameter. `CollisionFree` says what is assumed of it: it is injective, its output
  never equals the genesis hash and never contains the unit separator. Hex digests meet the last two by
  their alphabet, up to the all-zero digest.
- Identifiers made by the UUID library are fresh. Clocks, check outcomes, R2 failures and KV contents are
  parameters or actions of the environment.
- Ratios are real numbers. `Faithful` bounds the error a stored ratio may carry.
- The processes of a concurrent protocol (audit writers, logins, a retention pass and the inserts beside
  it) are a state machine whose runs interleave their store operations in every order.
- The schema is the one after `sql/0010_identity_subject_claim.sql`. An import meets its checks on roles, types, ranges,
  window ends and window scopes, its foreign keys, and the unique emails; a statement they refuse writes nothing.

Side conditions the code itself leaves to its callers appear as preconditions. For thresholds below one, a
manual resolution of a resolved incident, archive keys used twice, and separators in audit columns, lemmas give
the input that breaks the law and the exact condition under which it holds. Unique audit ids are the table's
primary key and positive check intervals a check of its schema; for those two only the law under the condition is
proved, and bounded waiting asks it of the rivals of the waiting target alone.

## Where the code and its comments differ

The model follows the code.

- `crates/core/src/db/migration.rs:289-291` says a colliding target's `created_by` is overwritten with the
  importing caller; the `ON CONFLICT` clause does not set that column. `MigrationFacts.ImportedRows` states
  that it is kept.
- `crates/gateway/src/rate_limit.rs:126-127` says the longer wait is reported when both limits are hit; the
  minute limit is tested first, so the shorter wait is. `RateLimit.LongerWaitReportedExactly` says when
  the two agree, `RateLimit.RetryCanBeRefused` gives a retry that is refused after the reported wait, and
  `RateLimit.RetryAllowedExactly` says when it is allowed.
- `crates/core/src/db/audit/hash.rs:9-10` describes the previous hash by `action_time` order; both the
  writers and the verifier follow the links instead.
- `crates/core/src/db/audit/hash.rs:26-35` relies on free text never holding a unit separator. Nothing
  enforces it. `AuditHash.EncodingIdentifiesExactly` says which rows the encoding tells from every other, and
  `AuditHistory.EveryEditIsReportedExactly` which rows an edit of can go unreported.
- `crates/core/src/db/audit/hash.rs:15-18` says tampering with a row invalidates the hash of every later row. An edit
  is reported at the edited row alone (`AuditHistory.EditIsPinpointed`); a deletion orphans the rows after it, and
  deleting the last row leaves no trace (`AuditHistory.DeletionReportedExactly`).
- `crates/core/src/stats.rs:11-14` calls downtime the seconds spent in the `down` state. The incident rows say so until
  an operator resolves an incident of a target that is still down (`Downtime.DownAndUnrecorded`) or resolves one again
  (`Downtime.UpAndRecorded`). `Downtime.LedgerFollowsStatus` says what is recorded in all runs without second
  resolutions, and `Downtime.ResolvingKeepsSecondsExactly` when a resolution changes no recorded second.
- `crates/core/src/db/users.rs:55-62` keeps a legitimate user from seeing a constraint error. That holds as long as one
  `sub` comes with one email and no write changes a stored email (`Identity.SteadyLoginsMeetNoError`); with two emails
  for one `sub` the error can be met (`Identity.TwoEmailsCanMeetTheError`).
- `crates/core/src/migration.rs:3-6` promises that validation prevents a half-applied import. It looks at no email, role
  or tag, at no setting of a target but name and host, and of a window only at its id.
  `MigrationStops.ValidImportCanStopAtAUser`, `MigrationValidate.ValidImportCanStrandATarget` and
  `MigrationStops.ValidImportCanStopAtAWindow` give valid payloads that stop half-way.
  `MigrationStops.ImportStopsExactly`, `MigrationStops.ValidImportFinishesExactly` and
  `MigrationStops.HalfAppliedExactly` say exactly which imports the schema and malformed tags stop, where, and which
  of them leave something written.
- `crates/core/src/db/migration.rs:121-124` says an unrelated collision should not fail a row of another table;
  under `Fail` any collision refuses the whole import (`MigrationFacts.FailRefusesExactlyOnCollision`).
- `crates/core/src/db/retention.rs:101-108` presents archive-then-delete batches as resumable without loss. That
  fails when two full batches of a backlog fall into one second (`Retention.BacklogLosesRows`) and when an incident
  is resolved again between archive and delete (`Retention.UpdateInHandIsLost`); `Retention.PutIsHarmlessExactly` and
  `Retention.DeleteLosesExactlyStaleRows` give the exact conditions.

## Model

| member | source | states |
|---|---|---|
| AuditChain.WalkChain | crates/core/src/db/audit.rs:697-855 | the loops end on every table, forks, cycles and reused hashes included, and return the report defined by following stored hashes from genesis: the first repeated row names the cycle, the head is the last stored hash reached, `forked` says whether any hash stood at was contested |
| AuditChain.FollowLinks | crates/core/src/db/audit.rs:723-807 | the walk marks exactly the rows on the path, files each by its own hash check, and stops at the first hash without successors or at the first row met twice |
| AuditChain.IndexRows | crates/core/src/db/audit.rs:698-714 | after the first pass the index holds, for each hash, exactly the indices of the hashed rows that chain from it, and the legacy rows are counted |
| AuditChain.SortCandidates | crates/core/src/db/audit.rs:716-721 | every index entry becomes its own rows in `(action_time, id)` order |
| AuditChain.Classify | crates/core/src/db/audit.rs:766-798 | a reached row is counted as verified or reported as tampered according to its recomputed hash, never both |
| AuditChain.FinalPass | crates/core/src/db/audit.rs:809-829 | unreached hashed rows become orphaned, half-set rows tampered, in table order; nothing else is added |
| AuditChain.ContestedMeansFork | crates/core/src/db/audit.rs:730-740 | a hash counts as contested exactly when two different rows chain from it |
| AuditChain.PickLinks | crates/core/src/db/audit.rs:741-771 | the row the walk moves to is a hashed row that chains from the hash it stands at, and there is one whenever any row does |
| Orbits.TraceVisitsOrbit | crates/core/src/db/audit.rs:729-807 | the walk visits every element of the orbit once and, when the orbit never ends, names the first element met twice |
| AuditReport.PathIsOrbit | crates/core/src/db/audit.rs:729-807 | every row on the path is hashed, and a row is on the path exactly when links lead to it from genesis |
| AuditReport.ReportPartitions | crates/core/src/db/audit.rs:697-855 | on any table the five classes partition the rows and legacy + verified + tampered + orphaned equals the total, also when a cycle is found |
| AuditReport.ClassSets | crates/core/src/db/audit.rs:766-829 | each class in terms of the walked path: verified and altered rows are those on it that pass or fail their hash check, orphaned ones the hashed rows off it |
| AuditReport.ReportNames | crates/core/src/db/audit.rs:793-828 | every altered, half-set and orphaned row is named in its list by its id and action time, with its reason |
| AuditReport.WalkFollowsHashes | crates/core/src/db/audit.rs:716-807 | from sixty-four zeros on, each row walked is the least in `(action_time, id)` of those whose previous hash is the hash stored in the one before; the walk ends where there is none or where it meets a row again |
| AuditReport.TamperedInColumns | crates/core/src/db/audit.rs:790-835 | the tampered list holds exactly the walked rows whose stored hash is not that of their columns and the rows with only one hash, by id, time and reason, ascending by time |
| AuditReport.OrphanedInColumns | crates/core/src/db/audit.rs:809-836 | the orphaned list holds exactly the rows with both hashes off the walk, by id and time, ascending by time |
| AuditReport.FiguresInColumns | crates/core/src/db/audit.rs:838-855 | the counts, the head, the fork flag and the id at which a cycle is met, each by the columns of the rows on and off the walk |
| AuditOrder.PickIsLeast | crates/core/src/db/audit.rs:716-741 | the fork tiebreak takes the candidate with the least `(action_time, id)`, whatever the row order |
| Ordering.StringLessMeans | crates/core/src/db/audit.rs:716-721 | one text is below another exactly when it is a proper prefix of it or has the lesser character where they first differ |
| AuditOrder.WalksAgree | crates/core/src/db/audit.rs:716-807 | two reorderings of a table with unique ids are walked through the same rows in the same order |
| AuditOrder.OrderIndependence | crates/core/src/db/audit.rs:697-855 | reordering such a table changes neither head, fork flag, cycle nor any count, and the tampered and orphaned lists stay equal as multisets |
| AuditHash.RowHashPinsPrevAndId | crates/core/src/db/audit/hash.rs:108-115 | equal row hashes have equal previous hashes and equal ids, whatever the other columns hold |
| AuditHash.CanonicalRowFaithful | crates/core/src/db/audit/hash.rs:80-103 | a row whose columns hold no separator shares its encoding only with rows equal to it up to NULL against the empty string, whatever their columns hold |
| AuditHash.SeparatorInAColumnIsAmbiguous | crates/core/src/db/audit/hash.rs:26-35 | every row with a separator in any of its eleven columns shares its encoding with a different row |
| AuditHash.EncodingIdentifiesExactly | crates/core/src/db/audit/hash.rs:26-35 | the encoding tells a row from every other row exactly when none of its columns holds a separator |
| AuditHash.ColumnsReadBack | crates/core/src/db/audit/hash.rs:80-103 | cut at the unit separators, the encoding of a separator-free row is the version tag `v1` and the eleven columns in order, NULL as the empty text |
| AuditTrunk.TrunkIsWalk | crates/core/src/db/audit.rs:729-807 | a chain of sole links whose end has no successor is exactly the walk's path |
| AuditTrunk.FreshHashIsUnknown | crates/core/src/db/audit/hash.rs:108-115 | the hash of a row with an unused id differs from every hash already in the table |
| AuditTrunk.AppendKeepsLive | crates/core/src/db/audit.rs:191-262 | appending to the head keeps the trunk a chain of sole links and extends it by the new row |
| AuditHistory.SingleWriterVerifies | crates/core/src/db/audit.rs:191-262 | after any number of appends by one writer every hashed row verifies, nothing is forked, and the head is the last row |
| AuditHistory.DeletionOrphansSuccessors | crates/core/src/db/audit.rs:800-829 | deleting row k orphans exactly its successors, makes row k - 1 the head, lets every later append verify, and leaves the orphaned island the same whatever is appended |
| AuditHistory.DeletionReportedExactly | crates/core/src/db/audit/hash.rs:15-18 | the report accuses some row after a deletion exactly when the deleted row had a successor, whatever is appended later; without its last row the table is that of a writer who never wrote it |
| AuditHistory.EditDetected | crates/core/src/db/audit.rs:766-798 | an edit passes the row's own check exactly when it leaves the canonical encoding unchanged, which for separator-free columns is when it leaves every column's text unchanged |
| AuditHistory.EveryEditDetectedExactly | crates/core/src/db/audit.rs:766-798 | the hash check finds every edit of a row's columns exactly when none of them held a separator |
| AuditHistory.EditIsPinpointed | crates/core/src/db/audit.rs:766-807 | editing one row makes exactly that row tampered, when its encoding changes, and changes no link, head or other row's class |
| AuditHistory.EveryEditIsReportedExactly | crates/core/src/db/audit.rs:766-807 | verification reports every edit of a chain row's columns, as tampering with that row alone, exactly when no column of the original held a separator |
| AuditHistory.SingleWriterIsChained | crates/core/src/db/audit.rs:191-262 | every single writer's table is such a chain, so the edit law covers each row it wrote |
| AuditProtocol.HeadIsRooted | crates/core/src/db/audit.rs:191-205 | the head a writer reads is genesis or the hash of a row once written |
| AuditProtocol.InvIsInductive | crates/core/src/db/audit.rs:191-262 | every read of the head, insert and removal keeps the rows a tree rooted at genesis |
| AuditProtocol.NoCycle | crates/core/src/db/audit.rs:743-765 | a table of such rows is never reported as cyclic |
| AuditProtocol.InvMeansUntampered | crates/core/src/db/audit.rs:790-829 | a table of such rows has no tampered row and each hashed row is verified or orphaned |
| AuditProtocol.InterleavedWritersAreSafe | crates/core/src/db/audit.rs:166-262 | under every interleaving of any number of writers, with rows removed in between, all rows ever written form a tree rooted at genesis, nothing is tampered, no cycle is set, and every hashed row is verified or orphaned |
| AuditProtocol.RowsChainFromHeadRead | crates/core/src/db/audit.rs:191-262 | whatever other writers do between the two statements, a row chains from the head of the table as its writer read it |
| AuditProtocol.InsertsFollowReads | crates/core/src/db/audit.rs:191-262 | in every run each insert uses a head that its writer read, or held at the start, and has done nothing else since |
| AuditProtocol.UninterruptedIsAppend | crates/core/src/db/audit.rs:209-262 | a writer whom nobody interrupts appends exactly as the methods of the table do |
| AuditLog.AuditTable.CurrentHeadHash | crates/core/src/db/audit.rs:191-205 | returns the head of the walk although the query orders rows by time only |
| AuditLog.AuditTable.VerifyChain | crates/core/src/db/audit.rs:634-651 | returns the report of the stored table, its lists up to order on ties; the lists accuse exactly the altered, half-set and orphaned rows by id, time and reason, ascending by time |
| AuditLog.AuditTable.Log | crates/core/src/db/audit.rs:209-262 | appends one row that chains from the head read, and nothing else changes |
| AuditLog.AuditTable.LogSystem | crates/core/src/db/audit.rs:397-447 | the same for the monitor's own writes, with the system actor's columns |
| AuditLog.AuditTable.LogLogin | crates/core/src/db/audit.rs:454-500 | the same for logins, with the user as both actor and resource |
| SlaRanges.Union | crates/core/src/stats.rs:109-126 | returns strictly separated ranges covering exactly the seconds of the input |
| SlaRanges.SeparatedIsCanonical | crates/core/src/stats.rs:107-126 | only one separated list covers given seconds, so the union has one right answer |
| SlaRanges.Carve | crates/core/src/stats.rs:137-163 | the inner loop, with its early exits, leaves exactly the seconds of one minuend outside the subtrahends |
| SlaRanges.Subtract | crates/core/src/stats.rs:133-165 | returns separated ranges covering exactly the set difference |
| SlaRanges.CountIsCardinality | crates/core/src/stats.rs:128-131 | counting seconds is the cardinality of the finite set of those seconds |
| SlaRanges.TotalIsCount | crates/core/src/stats.rs:128-131 | the lengths of separated ranges add up to the number of seconds they cover |
| SlaReport.IncidentRangesClip | crates/core/src/stats.rs:82-94 | the clipped incident ranges cover exactly the seconds of the window in which an incident is open; unreadable rows are ignored |
| SlaReport.MaintenanceRangesClip | crates/core/src/stats.rs:96-105 | the same for exclusions |
| SlaReport.Conservation | crates/core/src/stats.rs:196-206 | downtime is SLA downtime plus downtime inside exclusions, SLA downtime fits in the effective window, and exclusions fill the window exactly when every second is excluded |
| SlaReport.ComputeSla | crates/core/src/stats.rs:186-275 | every figure is the size of a set of seconds of the window, the ratios are those sizes divided, the mean recovery is over the recovered incidents alone, the clamps never bind, and for a non-empty window the SLA ratio is absent exactly when every second is excluded |
| SlaReport.DownInColumns | crates/core/src/stats.rs:82-94 | a second is down exactly when some incident with a readable opening was opened by then and has no readable resolution by then |
| SlaReport.CountedCountsSeconds | crates/core/src/stats.rs:196-275 | the report by counting has, in plain sets of seconds, the window, downtime, exclusions, both ratios, the number of incidents and the mean recovery |
| SlaReport.MeanIsMean | crates/core/src/stats.rs:236-257 | the mean recovery is absent exactly when no incident is resolved with a stored or derivable duration; otherwise it is the sum of those durations divided by their number, truncated toward zero |
| SlaReport.OpenIncidentChangesNothing | crates/core/src/stats.rs:24-26 | an open incident anywhere in the list leaves the mean recovery as it is |
| SlaWindows.IncidentFilterIsLossless | crates/core/src/db/incidents.rs:84-103 | rows dropped by the overlap filter never change whether a second of the window is down |
| SlaWindows.MaintenanceFilterIsLossless | crates/core/src/db/maintenance.rs:63-97 | rows dropped by the applicability and overlap filter never change whether a second is excluded |
| SlaWindows.IncidentsFetchedExactly | crates/core/src/db/incidents.rs:84-103 | the incidents a report is given are those of the target opened before the window ends and unresolved at its start; those that last at all are the ones open at some second of it |
| SlaWindows.MaintenanceFetchedExactly | crates/core/src/db/maintenance.rs:74-97 | the windows a report is given are the active, excluding ones that name the target, one of its tags or nothing, and overlap the report |
| SlaWindows.ExcludedInColumns | crates/core/src/db/maintenance.rs:63-97 | a second is excluded for a target exactly when such a window starts by then and ends later |
| SlaWindows.FiguresFromTables | crates/core/src/api/stats.rs:121-142 | the figures of a target are the counts of down, excluded and down but not excluded seconds of the whole tables |
| SlaWindows.FiguresAddUp | crates/core/src/stats.rs:82-131 | downtime, exclusions and SLA downtime over a window are the sums over any two consecutive parts |
| SlaSummary.ComputedIsFaithful | crates/core/src/stats.rs:208-235 | the reports the calculator returns carry their downtime without error |
| SlaSummary.DowntimeRecovered | crates/core/src/api/stats.rs:74-84 | the whole seconds of downtime come back from the ratio whenever its error times the effective window is below one half |
| SlaSummary.AggregateSla | crates/core/src/api/stats.rs:63-117 | the loop's four totals are sums over the reports and give the two overall ratios, with the cases of an empty and of a wholly excluded window |
| SlaSummary.OverallIsExactMean | crates/core/src/api/stats.rs:74-104 | from inexact ratios the overall ratio is still the exact mean weighted by effective window |
| SlaSummary.OverallGrossIsMean | crates/core/src/api/stats.rs:86-91 | the overall gross ratio is the seconds up of all windows over their seconds, one without any, and the reports are passed on |
| SlaSummary.OverallEffectiveIsRest | crates/core/src/api/stats.rs:92-104 | its denominator, the sum of effective windows, is the seconds of all windows less the excluded seconds of each |
| SlaSummary.RoundIsNearest | crates/core/src/api/stats.rs:74-84 | rounding goes to the nearest whole number, away from zero between two |
| SlaSummary.OverallBetweenExtremes | crates/core/src/api/stats.rs:94-104 | it lies between the least and the greatest defined per-target uptime |
| HealthStates.StatusFollowsHistory | crates/core/src/db/states.rs:51-77 | over any check history with thresholds of at least one the counters are the trailing run lengths, the target is down exactly while an outage is unrecovered, and unknown exactly until the first success or first outage |
| HealthStates.OutageStep | crates/core/src/db/states.rs:58-67 | one more outcome continues an outage unless it completes a recovery, and starts one exactly when it completes a failure run |
| HealthStates.HistoryLawHoldsExactly | crates/core/src/db/states.rs:51-77 | the law holds on every history exactly when both thresholds are at least one; below, a success takes a target down or a failure brings it up |
| Incidents.GoingDownKeepsInv | crates/core/src/monitor/engine.rs:224-250 | when a target goes down no incident of it is open, so the insert is never rejected, and the ledger laws survive |
| Incidents.RunKeepsRecords | crates/core/src/monitor/engine.rs:201-274 | over any run of checks and manual resolutions a target has at most one open incident, an open incident means it is down, audited transitions alternate starting with down, and incidents match down events |
| Incidents.OneIncidentPerFall | crates/core/src/monitor/engine.rs:224-233 | incidents ever opened for a target are as many as its transitions into down |
| IncidentRecords.LedgerIsWellRecorded | crates/core/src/db/incidents.rs:5-70 | in every reachable ledger each incident has the time and error of the check that took its target down, and each closed one the time, author and note of the recovery or of the last resolution by hand that named it, with the time between as its duration |
| IncidentRecords.RecoveriesAreOutages | crates/core/src/stats.rs:236-251 | the mean recovery of a reachable ledger counts every closed incident with the time from its opening to its resolution, and no open one |
| IncidentTimes.CarefulRunsStayDisjoint | crates/core/src/db/incidents.rs:5-70 | when only open incidents are resolved by hand, recorded outages of a target never overlap |
| IncidentTimes.ResolvingKeepsDisjointExactly | crates/core/src/db/incidents.rs:25-47 | a manual resolution keeps outages apart exactly when no later incident of that target was opened before it |
| IncidentTimes.SecondResolutionCanOverlap | crates/core/src/db/incidents.rs:25-47 | a run in which resolving an incident a second time makes two outages overlap |
| Engine.ExecuteCheck | crates/core/src/monitor/engine.rs:165-198 | returns the first success among `retry_count` + 1 attempts, else the last failure, else a failure of its own, and makes no attempt after a success |
| Engine.Monitor.UpdateAfterCheck | crates/core/src/db/states.rs:103-150 | writes the decided status, counters and times of that target's row only, and fails when it has none |
| Engine.Monitor.MarkNotified | crates/core/src/db/states.rs:152-159 | stamps the notification time of that row and nothing else |
| Engine.Monitor.Open | crates/core/src/db/incidents.rs:5-23 | adds one open incident with the given cause unless the target already has one |
| Engine.Monitor.AutoResolve | crates/core/src/db/incidents.rs:49-70 | closes every open incident of the target as the system, with its duration, and touches no other row |
| Engine.Monitor.Resolve | crates/core/src/db/incidents.rs:25-47 | closes the named incident, open or not, with its duration and the note, and touches no other row |
| Engine.Monitor.RunCheck | crates/core/src/monitor/engine.rs:102-120 | one target's turn has exactly the effect of a check step of the ledger model: by columns, its row takes the health the thresholds give and the times of check, change and notification, a fall opens one incident with the check's error, a recovery closes the target's open ones, and nothing else changes |
| Engine.Monitor.HandleTransition | crates/core/src/monitor/engine.rs:201-274 | a fall opens an incident, a recovery from down closes it, either is audited and, outside maintenance, notified; no other transition does anything |
| Engine.CheckedTakesTurn | crates/core/src/monitor/engine.rs:102-120 | the check step of the ledger model changes exactly those columns |
| Scheduler.Store.RunScheduledChecks | crates/core/src/monitor/engine.rs:55-131 | checks the at most fifty enabled targets longest overdue, each once with its retries and its own thresholds in their roles; by columns, the states, the ledger and the due times of exactly those targets move as the attempts' outcomes say |
| Scheduler.Store.SelectDue | crates/core/src/monitor/engine.rs:61-72 | finds exactly the enabled targets whose time has come, each once |
| Scheduler.Store.CheckEach | crates/core/src/monitor/engine.rs:81-131 | runs the batch in order: each target's outcome goes through the state machine under its own thresholds and into the ledger, then its next check is due its interval in minutes later, and nothing of any other target changes |
| Scheduler.FirstFiftyIsBatch | crates/core/src/monitor/engine.rs:61-67 | the first fifty of any order by due time form such a batch, whatever the order on ties |
| Scheduler.BatchIsOldestFifty | crates/core/src/monitor/engine.rs:61-67 | a legal batch is at most fifty enabled targets with a due time up to now, in order of due time, where a due target is left out only for fifty that were due no later |
| Scheduler.PassedOver | crates/core/src/monitor/engine.rs:61-131 | a due target left out of a run has fifty rivals fewer after it |
| Scheduler.BoundedWaiting | crates/core/src/monitor/engine.rs:61-131 | an enabled target whose due time has come, with k rivals due no later, all with positive intervals, is checked within k / 50 + 1 runs |
| Scheduler.NeverTwiceWithinInterval | crates/core/src/monitor/engine.rs:122-130 | two checks of one target are at least sixty seconds times its interval apart, whatever the other intervals |
| Downtime.LedgerFollowsStatus | crates/core/src/monitor/engine.rs:224-273 | over every run in which nobody resolves an incident twice, the ledger shows a target down at exactly the seconds at which its status was down and nobody had resolved that outage by hand |
| Downtime.FiguresFollowStatus | crates/core/src/api/stats.rs:121-142 | the SLA figures computed from that ledger are those seconds, the excluded seconds, and those seconds outside exclusions |
| Downtime.UnattendedFigures | crates/core/src/stats.rs:11-14 | without resolutions by hand the figures are the seconds the status was down, the excluded seconds, and the seconds down outside exclusions |
| Downtime.OpenExactly | crates/core/src/monitor/engine.rs:224-273 | in such a run a target has an open incident exactly while it is down and nobody has resolved the outage by hand |
| Downtime.ResolvingKeepsSecondsExactly | crates/core/src/db/incidents.rs:25-47 | a manual resolution changes no recorded second of its target exactly when the incident is resolved already and the target is recorded as down from then to now; it never changes another target |
| Downtime.DownAndUnrecorded | crates/core/src/stats.rs:11-14 | a target whose open incident is resolved by hand while it stays down is down and not recorded as down |
| Downtime.UpAndRecorded | crates/core/src/stats.rs:11-14 | a target whose incident is resolved again after its recovery was up and is recorded as down |
| Cron.RunsTickByTick | crates/core/src/monitor/engine.rs:55-131 | the checks of a sequence of cron runs take the ledger through the effects promised for each run in turn |
| Cron.HealthFollowsChecks | crates/core/src/monitor/engine.rs:81-131 | over any sequence of runs from a fresh row, a target's health is that of its own history, one entry for each run that checked it, true when an attempt within its retries succeeded, under its own thresholds; so it is down exactly while an outage of that history is unrecovered |
| Cron.CronTellsTheTruth | crates/core/src/monitor/engine.rs:55-274 | over any sequence of cron runs the ledger laws hold, outages never overlap, and the SLA figures of every target over every window are the seconds its status was down |
| Identity.LoginsAreSafe | crates/core/src/db/users.rs:38-118 | under every interleaving of logins, administration and imports a set `sub` never changes and every granted login got the row carrying its own `sub` |
| Identity.GrantsMatchSubjects | crates/core/src/db/users.rs:28-70 | two granted logins got the same user exactly when they presented the same `sub` |
| Identity.SteadyLoginsMeetNoError | crates/core/src/db/users.rs:55-62 | under every interleaving in which each `sub` comes with one email and no write changes a stored email, no login ends in a constraint error |
| Identity.TwoEmailsCanMeetTheError | crates/core/src/db/users.rs:55-62 | two first logins with one `sub` and the emails of two unclaimed rows can interleave so that one meets the unique index |
| Identity.CarriedIsNotRefused | crates/core/src/db/users.rs:38-70 | under every interleaving a login whose `sub` a row carries is not refused, unless it has looked for that row and missed it before |
| Identity.AloneIsResolved | crates/core/src/db/users.rs:38-70 | a login that nothing interferes with ends as the method does: the carrier of `sub` is granted, else the unclaimed row with the email, which then carries it, else it is refused and nothing changes |
| Identity.SameEmailMeans | sql/0010_identity_subject_claim.sql:70-72 | two emails are the same exactly when they agree character by character up to the case of A to Z |
| Identity.UserStore.ResolveByIdentity | crates/core/src/db/users.rs:38-70 | run alone it grants exactly when the `sub` is known or the row with this email is unclaimed, claims only in the second case, and otherwise changes nothing |
| Identity.UserStore.GetBySub | crates/core/src/db/users.rs:21-26 | finds the row with the `sub` if there is one |
| Identity.UserStore.GetByEmail | crates/core/src/db/users.rs:14-19 | finds a row whose email matches without regard to ASCII case if there is one |
| Identity.UserStore.Upsert | crates/core/src/db/users.rs:72-118 | updates name, role and activity alone of the row with that email, or inserts an unclaimed row with the given columns; either is a step of the state machine |
| Upserts.RunCountsEveryRow | crates/core/src/db/migration.rs:186-199 | every row of a finished table import is inserted, replaced or skipped exactly once |
| Upserts.RunSettles | crates/core/src/db/migration.rs:150-173 | a finished table import with distinct keys leaves each row in a state told by the table before it alone, and rows outside the payload alone |
| Upserts.RunCountsCollisions | crates/core/src/db/migration.rs:179-199 | its replaced or skipped count is the number of keys the table had before |
| Upserts.RunFailsExactly | crates/core/src/db/migration.rs:150-173 | a table import whose admission depends on the row alone fails exactly when some row that is not skipped is inadmissible |
| Migration.Database.SetTags | crates/core/src/db/targets.rs:30-51 | the target's tags become the non-empty parsed ones; malformed text leaves none and reports it; no other target changes |
| Migration.Database.UpsertTarget | crates/core/src/db/migration.rs:276-370 | writes the row if the schema admits it, then the tags, then a new target's state row; malformed tags stop it between the last two |
| Migration.Database.UpsertUser | crates/core/src/db/migration.rs:462-498 | inserts without `sub` or updates the listed columns, and an unknown role or a taken email writes nothing |
| Migration.Database.UpsertChannel | crates/core/src/db/migration.rs:372-408 | inserts the row or updates all but its creation time, and an unknown type or owner writes nothing |
| Migration.Database.UpsertWindow | crates/core/src/db/migration.rs:410-460 | inserts with the default `exclude_from_sla`, or updates all but that flag and the creation columns; a window that does not end after it starts, has two scopes or names an unknown target writes nothing |
| Migration.Database.UpsertLink | crates/core/src/db/migration.rs:500-540 | inserts the pair or updates its two flags, and an unknown target or channel writes nothing |
| Migration.Database.CollectCollisions | crates/core/src/db/migration.rs:214-257 | lists every payload row whose key the store has, table by table, and nothing else |
| Migration.Database.ImportAll | crates/core/src/db/migration.rs:130-176 | the five loops have the effect of the five table imports in order, stop at the first failing statement with what precedes it written, and tally each outcome |
| Migration.Database.FindUnresolvableOwners | crates/core/src/db/migration.rs:552-589 | lists every target and channel whose owner is in neither the store nor the payload, in order, and writes nothing |
| MigrationFacts.ImportSettles | crates/core/src/db/migration.rs:109-116 | a finished import leaves every table as told by the store before it, the payload and the policy |
| MigrationFacts.ImportConserves | crates/core/src/db/migration.rs:186-210 | counts plus skipped equal the payload's size, table by table; replaced under `Replace` and skipped under `Skip` are the rows the store already had |
| MigrationFacts.FailRefusesExactlyOnCollision | crates/core/src/db/migration.rs:119-147 | under `Fail` the import is refused, with nothing written, exactly when some payload key is in the store |
| MigrationFacts.ImportLeavesTheRest | crates/core/src/db/migration.rs:109-116 | rows outside the payload are untouched, even by an import that fails part-way |
| MigrationFacts.ImportKeepsStates | crates/core/src/db/migration.rs:353-363 | no import changes the state row of a target that was there before |
| MigrationFacts.ImportedRows | crates/core/src/db/migration.rs:276-498 | every column of every row of the payload after a finished import, in all five tables: a new row is the document's but for the columns it does not decide, `Skip` leaves the stored row, and `Replace` keeps only creation columns, `sub`, state and `exclude_from_sla` |
| MigrationFacts.ReplacedRows | crates/core/src/db/migration.rs:372-540 | under `Replace` a colliding user, channel, window or link becomes the document's row in every other column |
| MigrationFacts.CollisionsNameRows | crates/core/src/db/migration.rs:214-257 | the reported collisions are exactly the payload's rows whose key the store has, by table and key |
| MigrationFacts.TargetsFailExactly | crates/core/src/db/migration.rs:296-351 | the target loop fails exactly when a target that is not skipped breaks a check of its row, names an unknown owner or has malformed tags |
| MigrationFacts.KeysMetAreKnown | crates/core/src/db/migration.rs:150-173 | after finished loops the foreign keys find exactly the stored rows and those of the payload |
| MigrationFacts.LoopsFailExactly | crates/core/src/db/migration.rs:150-173 | after finished loops, each loop fails exactly when some row of its table that is not skipped breaks the schema, or for a target has malformed tags |
| MigrationRepeat.ImportTwiceIsOnce | crates/core/src/db/migration.rs:111-119 | repeating an import changes nothing: `Skip` skips every row and `Replace` replaces every row by itself |
| MigrationRepeat.ImportKeepsEmailsUnique | crates/core/src/db/migration.rs:473-491 | the unique index on emails survives every import |
| MigrationRepeat.NothingUnresolvable | crates/core/src/db/migration.rs:542-589 | the list of unresolvable owners is empty exactly when every owner can be resolved |
| MigrationRepeat.UnresolvableNames | crates/core/src/db/migration.rs:542-589 | the list names exactly the targets and channels of the payload whose owner is no stored and no imported user, with that owner |
| MigrationRepeat.ImportedReferencesExist | crates/core/src/api/migration.rs:87-112 | after a validated, resolved import every imported target's and channel's owner and both ends of every imported link exist |
| MigrationRepeat.ImportKeepsOneState | crates/core/src/db/migration.rs:353-363 | a finished import keeps one state row per target |
| MigrationRepeat.StrandedExactly | crates/core/src/db/migration.rs:346-363 | a target loop that stops leaves a target without a state row exactly when the target it stops at is new and its own row fits the schema, so that its tags stopped it |
| MigrationSchema.ImportKeepsSchema | sql/0009_schema_integrity.sql:74-321 | roles, types, ranges, window ends and scopes, unique emails and every foreign key hold after every import, wherever it stops |
| MigrationSchema.SettingsByColumn | sql/0009_schema_integrity.sql:102-150 | admissible settings stay admissible under a change of one column exactly when the new value is of a known type or in the range of that column |
| MigrationSchema.RowsByColumn | sql/0009_schema_integrity.sql:152-321 | which users, channels, windows and links the store admits, by role, email, type, scope, order of ends and foreign keys |
| MigrationSchema.ImportKeepsKeys | crates/core/src/db/migration.rs:130-176 | every import stores each row under its own key, wherever it stops |
| MigrationValidate.CheckLinks | crates/core/src/migration.rs:89-111 | reports exactly the links with an unknown end and the repeated pairs |
| MigrationValidate.Validate | crates/core/src/migration.rs:44-156 | accepts exactly the payloads of the right version without problems, and otherwise reports all of the problems and nothing else |
| MigrationValidate.WellFormedMeans | crates/core/src/migration.rs:63-111 | an accepted payload has no repeated key in any table and no link to a row outside it |
| MigrationValidate.WellFormedExactly | crates/core/src/migration.rs:44-156 | the payloads without problems are exactly those without a repeated id or pair, with links between their own rows, targets with an id, a name and a host, and channels with an id and a known type |
| MigrationValidate.Import | crates/core/src/api/migration.rs:65-165 | nothing is written unless the payload is valid, its owners resolve and the caller asked to apply; a refused payload is answered with exactly its problems or its unresolvable owners, an applied import keeps references and state rows whole, and a dry run counts the payload's rows table by table, as many as an applied one accounts for |
| MigrationValidate.ValidImportCanStrandATarget | crates/core/src/migration.rs:130-150 | a valid payload with malformed tags stops the import and leaves its target without a state row |
| MigrationUsers.UsersFailExactly | crates/core/src/db/migration.rs:150-155 | the user loop fails exactly when some user it does not skip has an unknown role, the email of an earlier written payload user, or that of a stored user with another id whom the rows before leave alone |
| MigrationStops.ImportStopsExactly | crates/core/src/db/migration.rs:130-176 | an import is refused up front, fails at the first table with a row that is not skipped and cannot enter, or finishes, each exactly under a condition on the store, the payload and the policy |
| MigrationStops.UserStopLeaves | crates/core/src/db/migration.rs:150-155 | a refused user leaves exactly the users before it written, as in a finished import of those rows, and nothing else |
| MigrationStops.TargetStopLeaves | crates/core/src/db/migration.rs:276-363 | a target that cannot enter leaves every user and the targets before it written; if only its tags stopped it, also its own row without tags, without a state row if it is new |
| MigrationStops.ChannelStopLeaves | crates/core/src/db/migration.rs:161-164 | a channel that the schema refuses leaves users and targets as a finished import does, the channels before it, and nothing else |
| MigrationStops.WindowStopLeaves | crates/core/src/db/migration.rs:166-169 | a window that the schema refuses leaves users, targets and channels as a finished import does, the windows before it, and nothing else |
| MigrationStops.LinkStopLeaves | crates/core/src/db/migration.rs:171-174 | a link that the schema refuses leaves the other tables as a finished import does and the links before it |
| MigrationStops.HalfAppliedExactly | crates/core/src/migration.rs:3-6 | an import fails with something changed exactly when it is not refused, some row stops it, and not all that it writes before is stored already |
| MigrationStops.ValidImportFinishesExactly | crates/core/src/api/migration.rs:71-112 | an import that passes validation and the owner check never fails at a channel or a link, and finishes exactly when it is not refused, no user is refused, and each target and window that is not skipped is admitted by the schema, with readable tags |
| MigrationStops.ValidImportCanStopAtAUser | crates/core/src/migration.rs:3-6 | a valid payload without targets, a new user followed by one with a taken email, stops with the first user written |
| MigrationStops.ValidImportCanStopAtAWindow | crates/core/src/migration.rs:3-6 | a valid payload with a new user, its new target, and a window that does not end after it starts, has two scopes or names an unknown target stops with the user and the target written |
| MigrationExports.EveryStoreExports | crates/core/src/db/migration.rs:26-93 | every store has an export, as long as its tags can be written as text |
| MigrationRoundTrip.ExportImportRestores | crates/core/src/db/migration.rs:26-176 | importing an export of a store that meets its schema into an empty store, under any policy, rebuilds the store except `sub`, target authors and states, and `exclude_from_sla` |
| MigrationRoundTrip.RoundTrip | crates/core/src/db/migration.rs:26-176 | the second export is the first, row for row in the same order, except for those columns and the order of tags inside their text |
| Retention.DeleteTakesOnlyTheBatch | crates/core/src/db/retention.rs:153-173 | a delete removes only rows of the batch, each archived as it was selected, and exactly as it is unless it was rewritten since |
| Retention.DeleteTakesOnlyExpired | crates/core/src/db/retention.rs:48-54 | however passes are interleaved, a delete takes at most a hundred rows, all older than the days of a usable policy for their table at the time of a select of the run, and no open incident |
| Retention.DeleteLosesExactlyStaleRows | crates/core/src/db/retention.rs:166-172 | a delete loses contents exactly when some row of the batch was rewritten since and the archive does not hold it as it is now |
| Retention.UpdateInHandIsLost | crates/core/src/db/incidents.rs:25-47 | an incident resolved again between archive and delete keeps only its earlier columns |
| Retention.CleanupKeepsProtectedRows | crates/core/src/db/retention.rs:48-149 | under any policy table no run deletes an audit row, a row of an unknown table or an unresolved incident |
| Retention.CleanupLosesNothing | crates/core/src/db/retention.rs:99-182 | however passes are stopped and rerun among inserts and updates, no row is lost as long as no archive key repeats and no row in hand is rewritten |
| Retention.CleanupLosesNoId | crates/core/src/db/retention.rs:99-182 | whatever is rewritten meanwhile, some version of every row stays in its table or the archive as long as no archive key repeats |
| Retention.BatchKeepsSettled | crates/core/src/db/retention.rs:166-172 | a batch archived under a new key and deleted leaves every row in exactly one place |
| Retention.PutIsHarmlessExactly | crates/core/src/db/retention.rs:209-222 | in any state an archive write loses nothing exactly when every row under the object it replaces is still in its table, in the new batch unchanged, or under another key |
| Retention.PutLosesRowsExactlyOnKeyReuse | crates/core/src/db/retention.rs:209-222 | with no crash pending, that is when its key, made of table, second and batch length, is not taken |
| Retention.BacklogLosesRows | crates/core/src/db/retention.rs:153-173 | whenever two hundred rows are eligible and no crash is pending, select, put, delete, select, put within one second loses the first hundred's archive |
| Retention.Store.SelectEligibleBatch | crates/core/src/db/retention.rs:188-204 | returns up to a hundred of the rows older than the cutoff, resolved ones only for incidents, and none only when there is none |
| Retention.Store.CleanTable | crates/core/src/db/retention.rs:151-179 | the batch loop ends, is a run of the model's steps, touches only its table, removes only rows older than the policy's days and no open incident, and leaves none of those unless an archive write failed |
| Retention.Store.RunCleanup | crates/core/src/db/retention.rs:109-182 | a row leaves a table only if it is older than the days of a usable policy for it and no open incident; a pass that ends normally leaves no such row in any table with a usable policy and stamps those policies; tables without one are untouched, and it is a run of the model's steps |
| RateLimit.KeysDistinct | crates/gateway/src/rate_limit.rs:89-95 | no two counters share a key, whatever the subjects contain |
| RateLimit.IpForKeyInjective | crates/gateway/src/rate_limit.rs:97-107 | addresses, which hold no underscore, keep separate counters |
| RateLimit.WaitingReachesNextBucket | crates/gateway/src/rate_limit.rs:299-307 | waiting the reported time lands at the start of the next bucket, and any shorter wait stays in this one |
| RateLimit.Limiter.CheckAndConsume | crates/gateway/src/rate_limit.rs:208-245 | a request answers as the two counters stored under its texts say, and raises both, with their expiry, exactly when it is allowed |
| RateLimit.Limiter.CheckAndConsumeLogin | crates/gateway/src/rate_limit.rs:252-282 | the same for logins, keyed by the sanitised address |
| RateLimit.AnswerConsumes | crates/gateway/src/rate_limit.rs:89-148 | by stored texts and numbers: a full minute counter denies until the next minute, else a full hour counter until the next hour, else both counters go up and expire 90 and 4500 seconds from now |
| RateLimit.CountersAreExact | crates/gateway/src/rate_limit.rs:208-297 | over any run with a nondecreasing clock the expiring counters equal the allowed requests of the current minute and hour |
| RateLimit.AllowedExactlyBelowLimits | crates/gateway/src/rate_limit.rs:128-148 | a request is allowed exactly when both of its buckets have room |
| RateLimit.LimitsHold | crates/gateway/src/rate_limit.rs:128-148 | neither limit is exceeded in any bucket |
| RateLimit.AtMostTwiceInAnyMinute | crates/gateway/src/rate_limit.rs:114-148 | any sixty seconds allow at most twice the minute limit |
| RateLimit.WaitingClearsTheScope | crates/gateway/src/rate_limit.rs:128-148 | after waiting as told a request is allowed, or it was the minute limit and only the hour limit still stands |
| RateLimit.RetryAllowedExactly | crates/gateway/src/rate_limit.rs:128-148 | the retry is allowed exactly when the hour was the reason, the hour has room, or the wait runs into the next hour |
| RateLimit.RetryCanBeRefused | crates/gateway/src/rate_limit.rs:126-148 | a request with both counters at their limits is told to wait a minute and is refused again after it |
| RateLimit.LongerWaitReportedExactly | crates/gateway/src/rate_limit.rs:126-148 | with both limits reached the longer wait is reported exactly in the last minute of the hour |
| Csv.QuoteField | crates/gateway/src/csv_export.rs:32-40 | the text is a rendering of the field in the grammar, and the field itself when nothing needs quoting |
| Csv.ReaderInvertsGrammar | crates/gateway/src/csv_export.rs:1-5 | the reader returns the table from every text that denotes it, whatever fields the writer chose to quote |
| Csv.GrammarIsUnambiguous | crates/gateway/src/csv_export.rs:1-5 | no text denotes two tables |
| Csv.RowsRoundTrip | crates/gateway/src/csv_export.rs:68-73 | every table of non-empty rows survives the writer and the reader, commas, quotes and line breaks included |
| Csv.WrittenRow | crates/gateway/src/csv_export.rs:32-73 | a row is written with commas, quoted and doubled where the text asks for it, and a line break |
| Csv.SecondsRoundTrip | crates/gateway/src/csv_export.rs:63-65 | the numeral determines the number, sign included, and is never empty |
| Csv.NumeralIsPlain | crates/gateway/src/csv_export.rs:63-65 | the numeral is decimal digits without leading zeros, after a minus sign for a negative number |
| Csv.EncodeIncidents | crates/gateway/src/csv_export.rs:156-202 | the file is the byte order mark and the written rows, and after the mark the reader returns the header and one record per incident with its original field strings |
| Csv.IncidentColumns | crates/gateway/src/csv_export.rs:156-202 | which value of an incident stands under which of the ten names, and missing ones as the empty text |
| Csv.EncodeSlaSummary | crates/gateway/src/csv_export.rs:95-145 | the same for the SLA summary, for any format of the ratios |
| Csv.SlaColumns | crates/gateway/src/csv_export.rs:95-145 | which value of a report stands under which of the eleven names |
| Csv.FileDeterminesIncidents | crates/gateway/src/csv_export.rs:156-202 | the written rows, and so the encoder's files, are the same exactly when they show the same incidents in the same order, where only a missing and an empty text look alike |

## Left out

- Probes, notifications, the Core client, routers, sessions, HTML and the D1, KV and R2 bindings: foreign
  calls. A check outcome is an arbitrary value, a notification only its time stamp.
- SHA-256, JWT checks and random identifiers: assumed collision-free and fresh as said above.
- chrono parsing and formatting: timestamps are numbers or canonical strings; unreadable ones are `None`
  where the source ignores them.
- Floating point rounding in `compute_sla` and `aggregate_sla`: exact reals with an error bound instead; and
  the decimal format of ratios in the CSV, which is a parameter.
- UTF-8: CSV text is characters, so the mark is one character rather than three bytes. All special
  characters of the grammar are ASCII and no UTF-8 sequence contains them. The reader accepts every other
  character in an unquoted field, where section 2 of RFC 4180 lists printable ASCII only.
- Failed D1 statements outside imports and logins, and those that fail for no reason of the schema; cascades; the checks
  that bound booleans and bound texts cannot break.
- KV eventual consistency and concurrent requests: the limiter is read for one request at a time.
- Scheduler.Store.RunScheduledChecks: one reading of the clock serves the whole run, where the state machine and the
  ledger read it again for each target; the inserted check results are not modelled.
- `list_recent`, `list_active`, login history, role checks, cookies, redirects, `build_filename` and the
  fallback of misconfigured limits: short code with short claims.
- The hourly trigger of retention and its early return when no target is due: no claim about how often a pass
  runs.
- The audit record written after an import or export, and the reporting wrappers around audit writes.
- Migration.Database.UpsertTarget: the tag and state rows of a target are parts of its entry, since foreign
  keys leave none without a target; an order of rows inside those tables is not modelled.
- Migration.Database.ImportAll: the loops over the five tables are five methods of the class, and the collision
  pass is one generic loop called once per table.
- MigrationRoundTrip.RoundTrip: export is a relation between a store and a document, with users included; the
  queries themselves are not methods.
- MigrationValidate.Validate: problems are values rather than messages, and a set of problems rather than an
  order of messages is specified.
- Identity.UserStore.ResolveByIdentity: the method runs its four statements without interruption; interleavings are
  covered by the state machine in the same module.
- SlaReport.ComputeSla: a sum beyond 64 bits is not modelled.
