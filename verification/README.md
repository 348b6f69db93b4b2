# A verified model of the homebase sync kernel

Homebase is a multi-writer sync kernel. Each device keeps a durable submit log and a durable
log of captured admissions per space; a server judges submissions, gives them one total order
and keeps lazily materialized state. This project models that core in Dafny 4.11 and proves
what it is for. `dafny verify dfyconfig.toml` checks all of it.

| part | files |
|---|---|
| server state: range deletes, aggregates, heads, version gate | HistoricalHeads, RangeTree, AdmissionGate, Admission |
| server verbs: admit and pull over one log, its stored rows, leases, the audit | Wire, AdmissionRules, SpaceServer, AdmissionRows, Leases, LeasedSpace, LeaseLaw, AuditLog, AuditLeases, Audit |
| device store: submit log, admit log, certification | MetaLog, MetaRuns, MetaStore |
| push and pull protocols over device and server | Replication, Push, Pull, Coordination |
| ordered keys, scans, lease index | Keys, Storage, LeaseIndex |
| record codecs and the device checksum | Codec, RecordCodec, RecordLoops, Checksum, TombstoneCodec |
| SQL-side allocators: column order, rowids | ColumnOrder, Rowid |

Code that updates state is written as classes and loops, each proved against a function on
values; theorems about all histories, all inputs and all runs are lemmas on those functions.
Protocols are step relations, and their theorems range over every run. Automatic induction is
switched off, so each induction is written out.

The main results: the lazily maintained server state answers every question (is this key live,
how many keys lie under this range, who wrote here last, may this version be written) exactly
as the plain history would; admit takes a request exactly when every batch of it meets the rules on
the history before it, and obeys the contract the client relies on, with the log kept as rows that an
audit accepts; a lease lasts until its deadline passes or its holder releases it, and until then nothing
foreign enters the log under it after its barrier, so an assertion made under a lease cannot fail;
no run of commits, lost answers, crashes and rollbacks makes the server
admit a record twice, out of order, or after it was retired; the push loop ends within two calls
for each pending record and its reports are true of the calls it made; the captured log mirrors the server log; the tuple encoding, the record codecs and
the checksum input lose nothing.

Three properties do not hold of the code unconditionally, and each has its exact condition:

- `commit` checks only the entry count, so an unstamped commit can break certification
  (`MetaRuns.UnstampedCommitBreaksOracle`); `MetaRuns.CommitKeepsIffAcceptable` says exactly when
  it does not, and `persist_submission` always stamps.
- A rollback retires nothing admitted iff the server holds exactly the confirmed stream
  (`Replication.RollBackIsSafeIffSettled`, `Replication.AmbiguousRollbackRetiresAdmitted`).
- A folded range record survives its codec iff the device of its newest entry was among the first
  two to arrive at its admission number (`TombstoneCodec.FoldSurvivesIff`,
  `TombstoneCodec.ThreeDevicesBreakRoundTrip`); with one device per number it always does.

The law of leases needs a server clock that does not run backwards, which core/src/clock.rs provides
within one process; `LeaseLaw.ClockMustNotGoBack` shows that it is needed.

Where code and comment disagree: the header of server/src/space/data.rs lists the lease check
first, and the code checks checksum and sequence first (lines 84-115). The model follows the
code, and the client's reconciliation needs that order. The walk in multilite/src/catalog.rs has a
cycle error of its own; no rows produce it, because a cycle hangs from no root, so a cycle is
reported as a disconnected graph. core/src/lease.rs calls the barrier of a lease prefix-scoped; the
code and physics.md take the admission high water of the whole space, and so does the model.

## Model

| member | source | states |
|---|---|---|
| DeviceHeads.HeadsAnswerLikeScan | server/src/schema.rs:750-804 | for every sequence of observations in any order, the two kept heads answer "greatest admission by anyone but D" (and "by anyone") exactly as a scan of the whole history does |
| DeviceHeads.Observe | server/src/schema.rs:777-796 | one observation changes the answer for every excluded device by exactly that observation, and keeps the two heads on distinct devices |
| DeviceHeads.MergeIsUnion | server/src/schema.rs:798-804 | merging two summaries answers as observing both histories would |
| DeviceHeads.HistoricalHeads.ObserveOne | server/src/schema.rs:777-796 | the in-place update computes that observation |
| DeviceHeads.HistoricalHeads.MergeFrom | server/src/schema.rs:798-804 | the in-place merge computes that union |
| RangeTree.LazyVisibilityIsEager | sim/src/check.rs:279-298 | for every admission-ordered history, newest point record plus newest tombstone per exact range show a key live iff applying every operation to a plain map leaves it present, with the same value |
| RangeTree.EffectiveCountIsExact | server/src/schema.rs:833-887 | for every history and every range, the stored count, read as 0 when a covering tombstone is newer than its epoch, is the number of keys of the plain map under that range, although deletes never touch descendants |
| RangeTree.StaleStep | server/src/schema.rs:833-887 | one more operation makes an epoch stale exactly when it is a range delete covering the node |
| RangeTree.EffectiveStep | server/src/schema.rs:833-887 | how one operation moves the true count of every node: on the path, below the deleted range, elsewhere |
| RangeTree.MaterializationAgrees | sim/src/check.rs:140-174 | folding any history keeps records sourced in the history and points and counts equal to the plain map |
| RangeTree.PathIsCovering | sim/src/check.rs:257-277 | the aggregate path of a range is exactly the set of ranges covering it |
| RangeTree.IncrementalEqualsAudit | sim/src/check.rs:140-174 | the incremental materialization equals the audit's recount from scratch, for every history |
| AdmissionGate.EffectiveHeadsAreExact | server/src/space/data.rs:882-909 | own aggregate heads merged with every covering tombstone's heads give, for every device, the greatest relevant admission of the full history |
| AdmissionGate.RangeAssertIsExact | server/src/space/data.rs:358-378 | a range assert passes iff every relevant operation by another device was admitted at or before its bound |
| AdmissionGate.RecordsSummarizeHistory | server/src/schema.rs:649-666 | every aggregate and every tombstone holds the heads of exactly its own slice of the history |
| AdmissionGate.EffectiveVerIsExact | server/src/space/data.rs:882-909 | the effective greatest version is the greatest version among relevant operations |
| AdmissionGate.PointRecordIsNewest | server/src/space/data.rs:939-948 | in an admitted history the point record is an operation on that key and carries its greatest version |
| AdmissionGate.PointGateIsExact | server/src/space/data.rs:192-237 | the point version check passes iff the version exceeds every operation of the history that touches the key |
| AdmissionGate.RangeGateIsExact | server/src/space/data.rs:261-284 | the range version check passes iff the version exceeds every relevant operation |
| AdmissionGate.GateIsExact | server/src/space/data.rs:192-284 | the version gate equals the plain statement over the whole history, for all three mutations |
| AdmissionGate.VersionsIncrease | server/src/space/data.rs:192-284 | in every admitted history a later operation that affects an earlier one has a strictly greater version |
| Admission.TombIsNewest | server/src/space/data.rs:950-961 | the tombstone of an exact range is the newest delete of that range in the history, and none is stored iff there was none |
| Admission.ResetDecidesStale | server/src/space/data.rs:453-470 | comparing an epoch with the one newest covering reset decides staleness over all tombstones |
| Admission.ResetDecidesVisible | server/src/space/data.rs:851-866 | the same comparison decides visibility of a point record |
| Admission.StagedAdmission.constructor | server/src/space/data.rs:141-144 | an empty staging area over a materialized store stands for the stored history |
| Admission.StagedAdmission.CoveringRangeDelete | server/src/space/data.rs:797-817 | returns the newest stored range delete covering the target, or none iff there is none |
| Admission.StagedAdmission.NewestCoveringReset | server/src/space/data.rs:431-451 | returns the newest reset over stored and staged operations together |
| Admission.StagedAdmission.MaterializeAggregate | server/src/space/data.rs:453-470 | brings one aggregate up to date: heads and version kept, count equal to the true count |
| Admission.StagedAdmission.EffectiveLiveCount | server/src/space/data.rs:914-937 | returns the number of live keys of the plain map under any range |
| Admission.StagedAdmission.ApplyPointCount | server/src/space/data.rs:473-497 | after the path loop the aggregates are those of the history with this operation added |
| Admission.StagedAdmission.ApplyRangeCount | server/src/space/data.rs:499-534 | after both path loops the aggregates are those of the history with this range delete added |
| Admission.StagedAdmission.EffectiveHistory | server/src/space/data.rs:882-909 | the loop over covering tombstones computes the effective heads and greatest version |
| Admission.StagedAdmission.CoveringRangeMaxVer | server/src/space/data.rs:819-835 | a version is above the returned floor iff it is above every covering tombstone's |
| Admission.StagedAdmission.PointFloor | server/src/space/data.rs:206-237 | a version is above the returned floor iff it outranks every stored and staged operation on the key |
| Admission.StagedAdmission.RangeFloor | server/src/space/data.rs:261-284 | a version is above the returned floor iff it outranks every relevant stored and staged operation |
| Admission.StagedAdmission.PointRecordVisible | server/src/space/data.rs:851-866 | returns whether the key is live after the stored and staged operations |
| Admission.StagedAdmission.StageEntry | server/src/space/data.rs:192-317 | an operation is staged iff it outranks the whole history, and then points, tombstones and aggregates together equal the materialization of the extended history; otherwise nothing changes; the floor returned is the greatest version that bears on it |
| Admission.FloorIsExact | server/src/space/data.rs:192-284 | a version is above the floor of the history iff it outranks every operation that bears on the mutation |
| Wire.ValidateBatch | core/src/messages.rs:294-324 | accepts exactly the well-formed batches; otherwise names the first operation at fault and the first thing wrong with it |
| Wire.ValidateDense | core/src/messages.rs:326-366 | accepts exactly the pages whose batches are well formed and number the interval without a gap; otherwise names cursors, then count, then the first batch out of place |
| AdmissionRules.OutranksMeans | server/src/space/data.rs:186-316 | a point mutation must exceed every version put on its key by a point mutation or a range delete over it; a range delete must exceed every point version inside its range and every range delete that meets it |
| AdmissionRules.RelevantMeans | physics.md:390-394 | what bears on a prefix is a point at or below it, and a range delete above, at or below it |
| SpaceServer.Fence | server/src/space/data.rs:97-115 | accepts exactly the sequenced requests; otherwise reports the last good number and the first bad one |
| SpaceServer.SequencedIsNoFault | server/src/space/data.rs:97-115 | a request is sequenced iff no position is at fault |
| SpaceServer.FenceIsFirst | server/src/space/data.rs:97-115 | the fence stops a request iff some batch does not follow what precedes it, and reports the numbers at the first such batch |
| SpaceServer.RangeAssertFailures | server/src/space/data.rs:358-378 | returns exactly the failing asserts, in order, each with the greatest foreign admission of stored and staged history that broke it, although only the store is read |
| SpaceServer.NoFailureIffHold | server/src/space/data.rs:358-378 | nothing is returned iff no foreign operation after its bound bears on any asserted prefix |
| SpaceServer.FailuresListBroken | server/src/space/data.rs:358-378 | the failures reported name exactly the broken assertions, in their order, each with the newest foreign admission that breaks it |
| SpaceServer.StageOperation | server/src/space/data.rs:164-317 | one operation is refused for exactly the reason of the reference judgement, or extends the history |
| SpaceServer.StageBatch | server/src/space/data.rs:164-319 | folding a batch agrees with the reference fold, first fault included |
| SpaceServer.FoldRequest | server/src/space/data.rs:145-330 | folding all batches agrees with the reference fold, and builds the log rows and the checksum |
| SpaceServer.RequestVerdict | server/src/space/data.rs:145-330 | a request folds iff every batch fits: its assertions hold on the history before it, its count fits, and each operation has its device, its sequence, an empty seal payload and a version above everything it must outrank there; else the reason is that of the first thing that does not fit, with its contents |
| SpaceServer.JustifiedGrows | server/src/space/data.rs:145-330 | a log in which every batch met the rules on the history before it, and is stored as it was submitted, stays one when a fitting request is added |
| SpaceServer.JudgedIsServed | server/src/space/data.rs:77-356 | the reference judgement is what the rules say: checksum, then sequence, then leases; taken whole with consecutive numbers, the new checksum and one row for each batch iff every batch fits; a broken assertion fails every batch under the old checksum, any other fault is a rejection |
| SpaceServer.JudgeIsAdmitStep | server/src/space/data.rs:77-118 | every judgement obeys the contract the client relies on: atomic, fenced by sequence and checksum, checksum checked before any rejection |
| SpaceServer.AppliedIsTaken | server/src/space/data.rs:350-355 | an all-applied answer means the request was taken, with consecutive admission numbers |
| SpaceServer.LogIsMergeOfStreams | server/src/space/data.rs:319-330 | the log projected to one device is that device's ascending stream, row by row |
| SpaceServer.IntervalIsDense | server/src/space/data.rs:622-651 | every interval of a valid log is a dense page |
| SpaceServer.Server.constructor | server/src/schema.rs:916-924 | an empty log is valid |
| SpaceServer.Server.Admit | server/src/space/data.rs:77-356 | answers and changes the log as the rules say, contents included: it grows iff checksum and sequence fit, nothing is contended and every batch fits the history before it; keeps every batch of the log justified by the rules, the stored state the materialization of the log, and the device records the heads of their streams |
| SpaceServer.Server.Pull | server/src/space/data.rs:622-651 | refuses a cursor beyond the log, otherwise returns the dense page that starts there, cut at the cap |
| AdmissionRows.PartsInverse | server/src/schema.rs:240-310 | an operation key says exactly the admission number, index and target it was built from |
| AdmissionRows.PartsCanonical | server/src/schema.rs:288-310 | a key below a batch's scan that parses is the operation key of that batch with those parts |
| AdmissionRows.OperationOrder | server/src/schema.rs:240-285 | within a batch, key order is operation order |
| AdmissionRows.ScanListsBatch | server/src/schema.rs:278-285 | the scan of a stored batch lists exactly its operations, in order |
| AdmissionRows.ReadBatch | server/src/space/data.rs:662-721 | whatever the store holds, returns the one batch stored under the number, or nothing if there is none |
| AdmissionRows.ReadInterval | server/src/space/data.rs:653-723 | what is returned is always a dense page, and over a stored log it is that slice of the log |
| AdmissionRows.StoresAppend | server/src/space/data.rs:252-330 | writing the rows of the next batch stores the log extended by it, and disturbs no earlier batch |
| AdmissionRows.NewRows | server/src/space/data.rs:252-330 | the collected writes take the rows of the old log to those of the new one |
| LeasedSpace.VerdictJudgesOperations | server/src/space/data.rs:117-130 | the lease verdict passes a request iff none of its operations stands under a live foreign lease |
| LeasedSpace.Space.constructor | server/src/space/mod.rs:29-40 | an empty space is valid |
| LeasedSpace.Space.Admit | server/src/space/data.rs:77-356 | serves the request as the rules say, under the verdict of the stored lease index; the log is extended by exactly the batches of the request, in order, or left alone; if it changed then no operation of the request stood under a live foreign lease; afterwards the stored rows are exactly those of the log; and it is a step of the lease law |
| LeasedSpace.Space.Pull | server/src/space/data.rs:622-651 | the page read back from the stored rows is the page of the log |
| LeasedSpace.Space.Acquire | server/src/space/mod.rs:44-52 | grants with the length of the log as barrier, keeps the space valid, and is a step of the lease law |
| LeasedSpace.Space.Renew | server/src/space/mod.rs:54-61 | the named live leases of the caller get a new deadline, the named expired ones go, every other one stays; keeps the space valid, and is a step of the lease law |
| LeasedSpace.Space.Release | server/src/space/mod.rs:63-71 | a named lease goes iff it is the caller's or has expired, every other one stays; keeps the space valid, and is a step of the lease law that releases what is named |
| LeasedSpace.Space.ListLeases | server/src/space/mod.rs:73-80 | lists and purges, keeps the space valid, and is a step of the lease law |
| LeaseLaw.FreeIffIrrelevant | physics.md:302-308 | a write passes the leases iff it bears on no prefix that another device holds at the time |
| LeaseLaw.StepKeeps | physics.md:284-333 | every verb keeps the law of leases while the clock does not run backwards |
| LeaseLaw.LeasesHold | physics.md:296-333 | at every moment of every run, every operation that bears on the prefix of a live lease and was admitted after its barrier is the holder's own, and of two live leases one at or below the other both have mode Read |
| LeaseLaw.LeaseLasts | physics.md:296-308 | over every run a lease stays in force, unchanged but for a deadline that only moves forward, until its deadline passes or its holder releases it, whatever other devices do |
| LeaseLaw.LeaseGuardsAssertion | physics.md:406-429 | in every run, an assertion about anything under a prefix its device holds a live lease on, with `upto` at or after the barrier, does not fail |
| LeaseLaw.IdentityIsOneGrant | core/src/lease.rs:46-48 | over every run an identity names one grant: two records with it differ at most in their deadline |
| LeaseLaw.ClockMustNotGoBack | physics.md:335-350 | a run in which an expired lease, read with an earlier clock, has a foreign operation after its barrier |
| MetaLog.CertifiedMeans | client/src/meta.rs:322-423 | certified iff cursors are ordered, captured batches are exactly [head, tail) under their own numbers, records lie between the cursors, rollback markers point back, and in the active window versions rise along every key by record and place and stay at or under the high water |
| MetaLog.CommitKeepsShape | client/src/meta.rs:1125-1186 | any commit the store takes keeps the cursor, marker and density clauses |
| MetaLog.CommitKeeps | client/src/meta.rs:1125-1186 | a stamped commit keeps every certified clause and the dense oplog |
| MetaLog.TrimKeeps | client/src/meta.rs:1188-1243 | a trim keeps them |
| MetaLog.RollBackKeeps | client/src/meta.rs:1245-1290 | a rollback keeps them, with its marker at the old tail |
| MetaLog.AppendKeeps | client/src/meta.rs:1318-1387 | capturing a dense page keeps them |
| MetaLog.MarkKeeps | client/src/meta.rs:1389-1414 | marking applied keeps them |
| MetaLog.TrimAdmitsKeeps | client/src/meta.rs:1416-1440 | trimming captured batches keeps them |
| MetaLog.CommitIsExact | client/src/meta.rs:1125-1186 | taken iff number, version high water and count are those of the reservation; adds exactly the record at the tail |
| MetaLog.TrimIsExact | client/src/meta.rs:1188-1243 | refused iff it would change a confirmed checksum; removes exactly the records through its bound and moves head and neck past it |
| MetaLog.RollBackIsExact | client/src/meta.rs:1245-1290 | taken iff the target is in the active window and the tail can move, or the same rollback was just done; retires the window and adds the marker, or does nothing |
| MetaLog.AppendIsExact | client/src/meta.rs:1318-1387 | a dense page is taken iff it starts at the tail and its end fits; every batch is filed under its number and the high water becomes the greatest version seen |
| MetaLog.MarkIsExact | client/src/meta.rs:1389-1414 | taken iff neck <= to <= tail; only the neck moves |
| MetaLog.DiscardIsExact | client/src/meta.rs:1416-1440 | taken iff head <= to <= neck; exactly the batches before it go |
| MetaRuns.EveryRunIsSound | client/src/meta.rs:1093-1440 | over every run of transitions, in any order and with any arguments, cursors, markers and captured rows stay sound, oplog keys are exactly [head, tail) and numbers are used once, in order; as long as every commit was stamped from a reservation, the store is certified and seen versions stay below the high water |
| MetaRuns.CommitsAreFresh | client/src/meta.rs:1093-1186 | after any run, a commit the store takes has a sequence number never used before, and if commits are stamped its versions exceed every version ever committed or captured, rolled-back ones included |
| MetaRuns.UnstampedCommitBreaksOracle | client/src/meta.rs:1125-1186 | the commit transition alone does not keep certification: an input whose entries do not carry the reserved versions |
| MetaRuns.CommitKeepsIffAcceptable | client/src/meta.rs:1125-1186 | a commit keeps certification iff its versions rise along each key, past those of the window, and stay within the reserved high water |
| MetaRuns.GuardIsExact | client/src/meta.rs:1292-1316 | a guarded rollback succeeds iff the window is the expected one or shows exactly that rollback done; then it rolls back once or changes nothing |
| MetaRuns.GuardIsIdempotent | client/src/meta.rs:1292-1316 | retrying a guarded rollback that succeeded changes nothing more |
| MetaRuns.GuardedRollbackHappensOnce | client/src/client.rs:425-449 | after any run since the observation, success means the submit log is the observed one with that single rollback applied |
| MetaStore.MetaStore.ReserveCommit | client/src/meta.rs:1093-1123 | returns the next number and the versions above the high water, changing nothing |
| MetaStore.MetaStore.CommitReserved | client/src/meta.rs:1125-1186 | performs the commit transition or refuses and leaves the store alone |
| MetaStore.MetaStore.Trim | client/src/meta.rs:1188-1243 | performs the trim transition or refuses; the deleted rows are those through the bound |
| MetaStore.MetaStore.RollBackTo | client/src/meta.rs:1245-1290 | performs the rollback transition or refuses |
| MetaStore.MetaStore.RollBackToIfUnchanged | client/src/meta.rs:1292-1316 | performs the guarded rollback or refuses |
| MetaStore.MetaStore.Append | client/src/meta.rs:1318-1387 | captures exactly the dense pages that start at the tail and fit |
| MetaStore.MetaStore.Mark | client/src/meta.rs:1389-1414 | performs the applied-cursor transition or refuses |
| MetaStore.MetaStore.TrimCaptured | client/src/meta.rs:1416-1440 | performs the admit-log trim or refuses |
| MetaStore.MetaStore.Oplog | client/src/meta.rs:966-988 | returns the retained rows of an interval in sequence order |
| MetaStore.Certify | client/src/meta.rs:322-423 | the single pass with a last-version map accepts exactly the certified states |
| MetaStore.CertifyVersions | client/src/meta.rs:322-423 | the running map of last versions decides whether point versions increase across the whole window |
| MetaStore.CertifyAdmits | client/src/meta.rs:322-423 | counting and scanning decides whether captured keys are exactly [head, tail) |
| MetaStore.PersistSubmission | client/src/space.rs:533-578 | reserve, stamp and commit: commits iff every mutation seals under the next number and the next versions in order, and then the new row holds exactly those; otherwise nothing changes; a certified store stays certified |
| Replication.WindowSequenced | client/src/client.rs:283-309 | any window from neck is a sequenced continuation of the confirmed stream |
| Replication.BatchSaysRecord | client/src/client.rs:452-458 | the batch of a record has its number, its operations and its assertions; that of a rollback marker has neither |
| Replication.RequestAgrees | core/src/messages.rs:214-241 | whatever a request does, the server stream is the confirmed stream extended by a run of retained records |
| Replication.AppliedMeansAppended | client/src/client.rs:322-368 | all results applied iff the stream grew by exactly the request |
| Replication.AheadExtends | client/src/client.rs:369-395 | in every synced state a stream different from the confirmed one is reconcilable, so it is never taken for a fork |
| Replication.ReconcilesIffExplained | client/src/client.rs:369-395 | a reported stream is accepted iff beyond the confirmed one it lists exactly the retained records through the one it names, as they were committed |
| Replication.ForkIsExact | client/src/client.rs:369-402 | for any answer whatever, a fork is reported iff the sequence regressed or the retained records do not explain the reported stream |
| Replication.SettleIsSound | client/src/client.rs:322-410 | no answer of a contract-abiding server leads to Fork; keeping means the server holds the confirmed stream, advancing means the store now confirms the server's stream |
| Replication.RollBackIsSafeIffSettled | client/src/meta.rs:544-548 | rolling back retires nothing admitted iff the server holds exactly the confirmed stream |
| Replication.NextKeeps | client/src/client.rs:243-413 | every step (commit, request, answer, lost answer, rollback, capture, mark, trim, crash in between) keeps the protocol invariant |
| Replication.StreamIsCommittedInOrder | client/src/client.rs:243-413 | in every run the server stream is strictly ascending and every batch is a record this store committed under that number |
| Replication.StreamWasWritten | client/src/client.rs:243-413 | in every run every batch of the server stream is, field for field, what an earlier submit step wrote or the bare marker of an earlier rollback step |
| Replication.RetiredIsNeverAdmitted | client/src/client.rs:243-413 | in every run a record retired by rollback is in the stream at no time, before or after |
| Replication.RunGrows | client/src/client.rs:243-413 | along every run the stream, the retired set and the committed records only grow |
| Replication.HonestRunsNeverFork | client/src/client.rs:369-395 | no run against a contract-abiding server reports Fork, and a definitive answer leaves client and server agreed |
| Replication.AmbiguousRollbackRetiresAdmitted | client/src/meta.rs:544-548 | a run after a lost answer in which rolling back would retire an admitted record |
| Push.Coalesce | client/src/client.rs:283-309 | takes the longest consecutive run of the window within the cap, at least one row, exactly one when probing |
| Push.EntryCountIsAll | client/src/client.rs:291-296 | the count held against the cap is of every operation in the request |
| Push.CoalescedIsWindow | client/src/client.rs:283-309 | what is coalesced is the whole retained window up to its last row |
| Push.CoalescedIsFull | client/src/client.rs:283-309 | outside a probe no further record of the window would fit the request |
| Push.Reconcile | client/src/client.rs:369-395 | trims exactly when the server's checksum is the confirmed stream extended by the retained rows through its sequence; otherwise Fork with the store unchanged |
| Push.Act | client/src/client.rs:322-410 | one answer changes the store and the loop variables as the settle function says, for any server; a fork report names the number the server holds |
| Push.TurnIsSound | client/src/client.rs:322-410 | one settled call keeps client and server synced, and every report it allows is true of that call |
| Push.Network.Admit | core/src/messages.rs:214-241 | the call is recorded with the log it met; what came back is the server's judgement over that log or, only on a network that loses answers, nothing; any foreign requests are served before and after; an applied answer names where each batch sits in the log |
| SpaceServer.Meanwhile | server/src/space/data.rs:77-356 | any requests of other devices, in any order, only extend the log and leave a device's stream alone |
| Push.PushSpace | client/src/client.rs:243-413 | the loop terminates with at most two calls for each record pending at the start, every one recorded with the answer the server judged; from a synced state it only trims confirmed records and stays synced, and every record it confirmed is in the server log with its number, its assertions and its operations in order; Drained without a target means neck reached tail and the server confirms it; Stalled at n means the last call carried record n and nothing else and was refused, n is the new neck, and everything before it is admitted and trimmed; Fork is never reported; no answer means the last call came back with nothing; a network that answers every call ends in Drained, Stalled or NotPending; a target confirmed by a response is reported with its place in the server log, whatever other devices admit meanwhile |
| Push.ConfirmedAreHeld | client/src/client.rs:452-458 | every record confirmed between two synced states has its row in the server log, field by field |
| Push.AnsweredPushEnds | client/src/client.rs:243-413 | from a synced state, a push over a network that answers every call ends in Drained, Stalled or NotPending |
| Pull.EveryRunMirrors | client/src/meta.rs:1318-1440 | over every interleaving of appends, pulls, marks and trims the captured log equals the server log on [head, tail) and what was applied is the server log before neck |
| Pull.AppliedOnlyGrows | client/src/meta.rs:1389-1414 | admissions cross neck once and in order: the applied sequence only grows |
| Pull.CaptureMirrors | client/src/meta.rs:1318-1387 | capturing any honest page keeps the mirror and moves only the tail |
| Pull.ServedPageFits | core/src/messages.rs:326-366 | a page of the log a request met is accepted, a short one ends that log, and afterwards the store mirrors it and every longer log |
| Pull.PullPage | client/src/space.rs:796-859 | one page is captured whole or not at all, with any requests served before and after it; an honest server that answers is never reported as silent |
| Pull.PullInner | client/src/space.rs:796-859 | the paging loop terminates while the log may grow before and after every page; against an honest server it stops having captured all of the log its last page was served from, which starts with the log at the beginning, and mirrors the final log; or at an operation that does not open; or, only if the server leaves requests unanswered, with a last request that was; an honest server that answers and whose operations open is always caught up with |
| Keys.EncodingPreservesOrder | core/src/key.rs:189-203 | byte order of encodings is component-wise order of tuples, both ways |
| Keys.PrefixIsBytePrefix | core/src/key.rs:119-122 | component prefix is byte prefix, both ways, for any number of components |
| Keys.EncodingIsInjective | core/src/key.rs:189-203 | equal encodings come from equal tuples |
| Keys.EncodeComponents | core/src/key.rs:189-203 | the nested loops compute the encoding |
| Keys.EncodedLenIsExact | core/src/key.rs:215-222 | the length sum is the length of the encoding |
| Keys.DecodeComponents | core/src/key.rs:147-180 | the index loop computes the recursive parse, errors and positions included |
| Keys.DecodeIsExact | core/src/key.rs:147-180 | decoding yields a tuple iff it is valid and the bytes are its encoding |
| Keys.RefusalIsExact | core/src/key.rs:147-180 | every decoding error says truly where decoding stops, after which whole components, and why |
| Keys.NewKey | core/src/key.rs:84-99 | accepts exactly the tuples within the component and size limits; the error names the first limit broken and by how much |
| Keys.DecodeKey | core/src/key.rs:130-137 | accepts exactly the encodings of valid keys and returns that key, with the error of the first check that fails |
| Storage.PrefixSuccessor | core/src/storage.rs:184-194 | the carry loop computes the successor |
| Storage.PrefixIsInterval | core/src/storage.rs:153-194 | a byte string starts with p iff it lies in [p, successor(p)), unbounded for empty or all-0xFF p |
| Storage.LastOpWins | core/src/storage.rs:96-115 | after a batch a key holds the effect of the last operation on it |
| Storage.UntouchedStays | core/src/storage.rs:96-115 | a key no operation names keeps its value |
| Storage.MemoryStore.Scan | core/src/storage.rs:242-257 | lists exactly the rows of the half-open interval, in byte order |
| Storage.MemoryStore.ScanPrefix | core/src/storage.rs:154-156 | lists exactly the rows whose key starts with the prefix, in byte order |
| Storage.MemoryStore.Apply | core/src/storage.rs:259-273 | applies the operations one by one, in order |
| LeaseIndex.ScanSelects | server/src/schema.rs:334-358 | a depth scan's bytes are a prefix of a lease's index key iff the lease has that depth and extends that head |
| LeaseIndex.OverlapByDepth | server/src/space/lease.rs:314-340 | two prefixes overlap iff the head cut at the other's depth is its prefix |
| LeaseIndex.ScanFindsDepth | server/src/schema.rs:350-358 | the rows of one depth scan are exactly the overlapping leases of that depth |
| LeaseIndex.Overlapping | server/src/space/lease.rs:314-340 | ancestor and descendant scans together return exactly the overlapping leases, split by liveness, each once |
| LeaseIndex.Covering | server/src/space/lease.rs:273-292 | returns exactly the live leases covering the key |
| LeaseIndex.AllLive | server/src/space/lease.rs:294-309 | returns exactly the live leases |
| LeaseIndex.VerdictIsExact | server/src/space/lease.rs:238-271 | no verdict iff every key and range is free; else the first key that is not free or, if all are, the first such range |
| LeaseIndex.ValidateWrites | server/src/space/lease.rs:238-271 | passes iff no live foreign lease covers a key or overlaps a range; otherwise names the first contended key, or else the first contended range |
| Leases.PurgeIndexed | server/src/space/lease.rs:367-372 | removing the two rows of a record takes exactly that record out of both indexes |
| Leases.PutIndexed | server/src/space/lease.rs:361-365 | writing the two rows of a record puts it in both indexes, in place of an earlier one with its identity |
| Leases.LeaseManager.constructor | server/src/space/lease.rs:43-49 | no leases, no demand, and both indexes agree |
| Leases.LeaseManager.Acquire | server/src/space/lease.rs:54-127 | grants all specs, field by field as asked for and under consecutive new identities, iff no live lease that overlaps one excludes it (not both read) and no two of them exclude each other; otherwise names the first blocked prefix and the exact wait, noting demand on its blockers, or the first clashing pair; in every case only expired leases the request met are removed and both indexes agree |
| Leases.LeaseManager.Renew | server/src/space/lease.rs:132-171 | the named live leases of the caller, and only these, get the deadline now plus TTL, named expired ones are removed, all else stays; each identity is answered in order as granted, with its TTL and whether somebody waits for it, or as invalid |
| Leases.LeaseManager.Release | server/src/space/lease.rs:175-192 | a named lease is removed iff it is the caller's or has expired, with the demand for it; a live lease of another device stays |
| Leases.LeaseManager.ListLeases | server/src/space/lease.rs:196-218 | lists the live leases of the caller once each and removes exactly the expired ones |
| Codec.BeInverse | core/src/reader.rs:40-62 | big-endian bytes of a fixed width recover the number |
| Codec.BeCanonical | core/src/reader.rs:40-62 | and every such byte string is the encoding of what it reads as |
| Codec.ListCodec | client/src/meta.rs:1795-1871 | a counted list of any two-sided codec is a two-sided codec |
| RecordCodec.SealCodec | core/src/seal.rs:112-153 | seal encoding is a two-sided inverse on valid seals |
| RecordCodec.RangeCodec | core/src/range.rs:46-72 | range encoding is a two-sided inverse on valid ranges |
| RecordCodec.EntryInverse | client/src/meta.rs:1795-1871 | an entry is read back with the bytes after it |
| RecordCodec.EntryCanonical | client/src/meta.rs:1795-1871 | only canonical entry bytes are accepted |
| RecordCodec.OpInverse | client/src/meta.rs:1795-1871 | decoding an encoded oplog record returns it |
| RecordCodec.OpCanonical | client/src/meta.rs:1795-1871 | only canonical oplog bytes decode, to a valid record |
| RecordCodec.BatchInverse | client/src/meta.rs:1947-1993 | decoding an encoded admitted batch returns it |
| RecordCodec.BatchCanonical | client/src/meta.rs:1947-1993 | only canonical admitted-batch bytes decode, to a valid batch |
| RecordLoops.EncodeOpRecord | client/src/meta.rs:1795-1871 | the appending loops produce that encoding |
| RecordLoops.DecodeOpRecord | client/src/meta.rs:1795-1871 | the reader loops compute that decoding on every input |
| RecordLoops.EncodeAdmittedBatch | client/src/meta.rs:1947-1993 | the appending loops produce that encoding |
| RecordLoops.DecodeAdmittedBatch | client/src/meta.rs:1947-1993 | the reader loops compute that decoding on every input |
| Checksum.HashedBatchInverse | core/src/messages.rs:167-212 | the hashed bytes of a batch determine the batch |
| Checksum.PreimageIsInjective | core/src/messages.rs:167-212 | equal hash inputs, for spaces and devices of equal length, come from the same previous checksum, space, device and batch |
| Checksum.PreimageLayout | core/src/messages.rs:173-177 | domain, previous checksum, space, device and sequence number lie in the input in that order |
| Checksum.ChecksumCommitsToStream | core/src/messages.rs:167-212 | equal cumulative checksums, of any devices in any spaces, mean equal streams of one device in one space or two empty ones, unless the two streams themselves hash different inputs to one output, or one of them hashes an input to the empty checksum; the inputs are returned |
| Checksum.ChecksumIsStream | core/src/messages.rs:167-212 | on any set of streams whose own inputs the hash keeps apart, checksums are equal iff the streams are, of one device in one space |
| Checksum.ChecksumExtends | core/src/messages.rs:167-212 | the checksum of a stream longer by one batch is the hash over the checksum so far, the space, the device and that batch |
| Checksum.ExtendChecksum | core/src/messages.rs:167-212 | the hasher is fed exactly that input |
| TombstoneCodec.SurvivesIffCoherent | server/src/schema.rs:668-734 | a range record survives encode and decode iff one head is its entry's device and admission, that admission is the greatest, and its entry's version is within the greatest version |
| TombstoneCodec.FoldIsCoherent | server/src/schema.rs:649-662 | folding any deletes of a range, in any order, leaves a record whose first head is its newest entry, when each admission number belongs to one device |
| TombstoneCodec.FoldSurvives | server/src/schema.rs:624-734 | every such fold survives encode and decode |
| TombstoneCodec.HeadsKeepFirstTwo | server/src/schema.rs:777-796 | at the greatest number the heads keep the first two devices to arrive, and no later one |
| TombstoneCodec.FoldSurvivesIff | server/src/schema.rs:624-734 | without that condition, and with numbers from one up, a fold survives iff the device of its newest entry was among the first two to arrive at its number |
| TombstoneCodec.TombIsFold | server/src/schema.rs:649-662 | a materialized tombstone is the fold of exactly the deletes at its range |
| TombstoneCodec.TombsSurvive | server/src/schema.rs:668-734 | every tombstone of every history with one device per admission number survives encode and decode |
| TombstoneCodec.LogHasOneDevicePerSeq | server/src/space/data.rs:160-190 | every valid server log gives each admission number one device |
| TombstoneCodec.StoredTombsSurvive | server/src/schema.rs:668-734 | hence every tombstone of every valid log survives encode and decode |
| TombstoneCodec.ThreeDevicesBreakRoundTrip | server/src/schema.rs:805-831 | without that, three devices under one number fold to a record that does not decode |
| ColumnOrder.ColumnOrder | multilite/src/catalog.rs:720-802 | succeeds iff the rows have distinct ids, form one tree and hold an active column, and then returns the active columns in pre-order; otherwise reports the first fault, and never the cycle error, since a cycle hangs from no root and shows as a disconnected graph |
| ColumnOrder.Visit | multilite/src/catalog.rs:772-796 | the recursive walk terminates on any graph; on fresh ground it visits exactly what lies below and lists the active ones in order |
| ColumnOrder.OrderIsUnique | multilite/src/catalog.rs:720-802 | a set of columns has one pre-order listing |
| ColumnOrder.SameRowsSameOrder | multilite/src/catalog.rs:720-802 | the order depends only on the set of rows |
| ColumnOrder.AddingKeepsOrder | multilite/src/catalog.rs:623-644 | adding a column keeps the relative order of the others |
| ColumnOrder.AddingKeepsTree | multilite/src/catalog.rs:623-644 | adding a column under a present predecessor keeps the tree |
| ColumnOrder.RetiringKeepsOrder | multilite/src/catalog.rs:646-664 | retiring a column removes it and nothing else from the order |
| ColumnOrder.RestoreUndoesRetire | multilite/src/catalog.rs:646-689 | retire then restore, under any name and however the rows are read, gives the same column order, and under the old name the same table |
| ColumnOrder.RelativeOrderIsPermanent | multilite/src/catalog.rs:720-802 | however a table grows and whatever is retired or restored, two columns never swap places |
| ColumnOrder.ColumnTable.Order | multilite/src/catalog.rs:720-802 | ordering a table's rows orders its graph |
| ColumnOrder.ColumnTable.Insert | multilite/src/catalog.rs:623-644 | inserts a fresh binding, or refuses and changes nothing; moves no path |
| ColumnOrder.ColumnTable.Retire | multilite/src/catalog.rs:646-664 | clears the name of an active column only; moves no path |
| ColumnOrder.ColumnTable.Restore | multilite/src/catalog.rs:666-689 | names a retired column only; moves no path |
| Rowid.FieldsDoNotOverlap | multilite/src/rowid.rs:403-412 | on 64-bit words the shifted and or-ed fields are the sums used here |
| Rowid.LayoutIsWords | multilite/src/rowid.rs:368-412 | slots and rowids are the shifted, masked and or-ed words of 64 bits |
| Rowid.DrawsGiveSlots | multilite/src/rowid.rs:366-369 | different draws give different slots |
| Rowid.ComposeIsInjective | multilite/src/rowid.rs:407-412 | a rowid determines its slot and offset |
| Rowid.RowidsAreUnique | multilite/src/rowid.rs:263-305 | over every run of leases, rotations, restarts and allocations no rowid is issued twice, and each lies in [2^47, 2^63) |
| Rowid.DevicesNeverCollide | multilite/src/rowid.rs:388-412 | runs of devices with different tags share no rowid |
| Rowid.RowidStore.InsertUnusedSlot | multilite/src/rowid.rs:362-380 | returns the slot of the first draw that is unused, now recorded; none iff entropy fails first or every permitted draw is used, and then nothing changes |
| Rowid.RowidStore.LeaseWith | multilite/src/rowid.rs:267-305 | hands out the next block, up to the lease size or the end of the slot, and makes it durable first, rotating a full slot; fails iff the slot is full and no unused one is drawn |
| Rowid.RowidAllocator.NextRowid | multilite/src/rowid.rs:85-93 | every rowid handed out is one never issued before: the next of the current lease, else the first of the next block; fails iff the lease is spent, the slot is full and no unused one is drawn |
| Coordination.CoordinationLoop.GrantNext | client/src/coordination.rs:129-139 | grants the first waiter not gone away, dropping those before it, and forgets an empty space |
| Coordination.CoordinationLoop.Handle | client/src/coordination.rs:111-127 | handles one message as the step relation does |
| Coordination.NextKeeps | client/src/coordination.rs:81-139 | every step keeps the invariant of queues, grants and permits: among others, a space is kept exactly while one grant for it is open |
| Coordination.OnePermitPerSpace | client/src/coordination.rs:96-139 | in every run at most one permit per space is outstanding |
| Coordination.GrantedOnce | client/src/coordination.rs:129-139 | in every run no waiter is granted twice |
| Coordination.FreeSpaceIsGranted | client/src/coordination.rs:111-127 | in every run a waiter that is still there and asks for a space without an open grant is granted by that step |
| Coordination.ReleasedSpaceMovesOn | client/src/coordination.rs:129-139 | in every run a space given back goes at once to the first waiter in its queue that is still there |
| Coordination.GrantsReachSomebody | client/src/coordination.rs:111-139 | in every run only the loop grants, one waiter at a time, and never one that has gone away |
| Coordination.GrantsFollowArrival | client/src/coordination.rs:111-139 | in every run whoever arrived earlier was granted earlier or had gone away |
| Audit.NewestCovering | sim/src/check.rs:279-298 | returns the newest range delete covering a key |
| Audit.StoreAudit.VisibleCount | sim/src/check.rs:279-298 | counts exactly the visible keys under a range |
| Audit.StoreAudit.ReplayPath | sim/src/check.rs:162-173 | recounting each node of the path gives the incremental aggregates |
| Audit.StoreAudit.Replay | sim/src/check.rs:140-174 | replaying a history rebuilds its materialization |
| AuditLog.ReadLog | sim/src/check.rs:84-138 | finds a log iff the store holds the rows of one up to the high water, with ascending device sequences and no row besides, and returns it with its newest headers |
| AuditLog.StoresIffNoMore | sim/src/check.rs:129-133 | dense batches are the whole log iff the number of stored rows is the number of theirs |
| Audit.CheckTree | sim/src/check.rs:140-174 | accepts stored points, tombstones and aggregates iff they are the materialization of the history |
| AuditLeases.CheckLeases | sim/src/check.rs:194-221 | accepts iff both lease indexes leave the same record for every identity and every identity lies below the counter |
| AuditLeases.IndexPassesAudit | sim/src/check.rs:194-221 | an index of leases with their own identities, below the counter, passes |
| Audit.CheckStore | sim/src/check.rs:57-255 | accepts a store iff some log explains it (its rows, its materialization, its device high waters and checksums) and its lease indexes agree |
| Audit.ServerPassesAudit | sim/src/check.rs:57-255 | whatever the verbs of a space have done, its rows, state, device records, lease indexes and counter meet the whole condition of the auditor |

## Left out

Stated assumptions:

- A call to the server takes effect during the call or never; only answers are lost.
- In the protocol modules a checksum is the list of batches it commits to. `Checksum.ChecksumIsStream` says what that takes: the hash keeps apart the inputs those very streams hash, from each other and from the empty checksum. `Checksum.ChecksumCommitsToStream` names the inputs where it does not.
- A rollback step follows a definitive answer, as client/src/meta.rs:544-548 asks of its callers.
- Integers are unbounded. Limits the code checks are modelled; increments it does not check (server sequence numbers, client/src/meta.rs:1112-1114 and 1169) are taken not to wrap.
- The cipher is a parameter that binds the tag it is given; whether an entry opens is a predicate.

Not modelled:

- SpaceServer.Server.Admit: the explanatory text of a seal error is not modelled, only its kind.
- Leases.LeaseManager.Acquire: the request and grant stamps carried for the client are not modelled; identities are taken not to run out.
- AdmissionRows.ReadBatch: row values are records, not bytes; the byte form is modelled for range tombstones and for the device store's records. A store that holds no such batch gives no result, where the program panics.
- Coordination.GrantsFollowArrival: safety only; a grant sent to a future that is then dropped is never released, so no liveness is claimed.
- Push.PushSpace: one space and one device; a target below head reports Drained without a claim about that submission, which may have been rolled back.
- MetaStore.Certify: the cursor, marker, density and version clauses; the clock high water and the lease clauses depend on wall-clock timelines.
- MetaStore.MetaStore.Oplog: the store is kept as maps per table; its byte keys and their scans are covered by Keys and Storage in general, not table by table.
- Storage errors inside one transition: each transition is one atomic write batch, so a crash falls before or after it.
- The client side of leases: local deadlines, forgetting, `unlease` and `repair_leases`.
- The read verbs get, list and read_at, and the byte codecs of data, device, counters, lease and header records.
- Sealing and key derivation.
- The SQL layer: lowering, footprints, the committer, hooks and everything that runs inside SQLite.
- Executors, threads and channels beyond the grant loop, the simulation harness, command line, transports and language skins.
