# Verified model of the vaults API

The service keeps a Postgres picture of on-chain staking vaults: who owns each vault, who holds roles on it, which
reports were published about it and what it earned. Many writers keep that picture up to date from different blocks, in
any order, and any of their reads or writes can fail. This project models those writers and the report pipeline, and
proves what they keep true over whole runs.

## How it is modelled

**Vaults.** `VaultRows` gives the row of the `vaults` table (with its members) and the four statements that change it:
creating a row, a guarded ownership write, a members transaction, the provenance backfill. `VaultDb.VaultDbService` is
the table as a mutable object; every writer is a method over it that issues statements one at a time. Its `ensures`
gives the exact statements it adds to the ghost `trace`; the two cursor scans of the backfill give the exact outcome of
every row instead (for the owner scan when no vault is stored in two spellings). Lemmas about arbitrary sequences of statements therefore speak
about every run of every writer, in every interleaving of their statements. Addresses are text; ownership writes and
access checks compare them lower-cased, row creation and member writes compare them exactly.

**The chain.** `OwnershipChain` is the history of one vault: `TransferStarted` and `OwnershipTransferred` events in
(block, log index) order, a transfer clearing the pending owner, and the state they leave at each block.

**Writers.** `OwnershipScan` (the log scan), `Reconcile` (the daily state read), `FullSync` (the hourly sync),
`MembersRefresh` and `VaultViewer` (role members), `Backfill` and `MembersRepair` (the retrying backfill),
`BackfillSchedule` (its rescheduling), `VaultEvents` (the three event handlers). A failed read or write is an argument:
a missing key, a `None`, or membership in a set of failing keys.

**Main theorems about vaults.** `OwnershipRuns`: the cheap scan refines the expensive state read, heals after failed
writes, and has no blind spot between its windows. `RecordedOwners`: the writers establish what that refinement starts
from. `FullSyncExact`: after a full sync a row is connected if and only if
its vault was listed; `FullSyncFailures`: what each row is after a sync in which anything failed. `OwnershipOrder`: what the block guard makes of writes that arrive out of order. `Access`: who
can see a vault through recorded roles, over any run. `MembersRepair`: what a backfill that reports success guarantees.

**Reports.** `ReportSync` (walk the published reports backwards and store them), `ReportMetrics` (pairs of neighbouring
reports in batches), `AprSma` (the moving average calculated in the service and in SQL, over `real`), `FeeAccrual` (the
sentinel arithmetic), `IpfsFetch` (bounded, content-addressed fetch), `ReportsMerkle` (first-occurrence index and cache).

**Jobs.** `SingleFlight` is the in-flight table of the job decorator as a state machine over calls and completions.

## What the code does that its comments do not say

* A batch that fails in the full sync is skipped, but the list still counts as complete: its vaults are then marked
  disconnected (`FailedBatchDisconnectsListedVault`).
* Owner-only and flag-only writes do not commute with full ones (`PartialWritesDoNotCommute`,
  `SameBlockDisconnectDoesNotCommute`, exact conditions in `WritesCommuteIff` and `SameBlockWritesCommuteIff`).
* A hub-owned vault whose pending owner changes without a transfer is invisible to the scan
  (`HubRenamingPendingOwnerIsMissed`, exact conditions in `HubOwnedAgreesIff` and, for every history,
  `ScanAgreesWithReconcileIff`).
* A disconnect that resolves no owner keeps the old one at the new block (`OwnerlessDisconnectKeepsOldOwner`, exact
  condition in `OwnerlessDisconnectKeepsRecordIff`).
* A repeated scan whose write of the last transfer of a block fails can put an earlier one of that block back
  (`FailedOverlapPutsOwnerBack`, exact condition in `OverlapChangesNothingIff`).
* The owner role is one of the role keys, so a non-empty list for it replaces the owner the viewer reported
  (`OwnerListReplacesOwner`, exact condition in `ProvenanceIsOwnerIff`).
* The tail sync saves newest first and stops at the first stored report, so an error after the first save, or an event
  for a report whose predecessor is missing, leaves a gap (`FailedSaveLeavesTailOpen`, `EventLeavesTailOpen`, exact
  conditions in `RunClosesTailIff` and `EventKeepsTailClosedIff`) that no later run closes (`GapNeverHeals`).
* The metrics job has the same shape, and there a gap needs no error: a pair that records no row is enough
  (`UnreadableReportLeavesGap`, `SilentPairLeavesGap`, exact condition in `RunLeavesNoGapIff`).
* Leaves whose save failed are not repaired by later runs, because the report row is already there
  (`LostLeavesStayLost`, `SyncKeepsLeaves`, exact condition in `RunKeepsCompleteIff`).
* The service takes a timestamp of zero for a missing one, the query does not (`EpochIsMistakenForMissing`, exact
  condition in `AveragesAgreeIff`).
* A comment in the disconnect handler speaks of a 10-minute reconcile cron that retries the owner; the reconcile is a
  daily job and the frequent one is the log scan.

## Model

| member | source | states |
|---|---|---|
| Addresses.SameIff | src/db/vault-db/vault-db.service.ts:682-687 | two texts name one address if and only if they differ at most in the case of letters |
| Addresses.ZeroAddressIs | src/db/vault-db/vault-db.service.ts:600-607 | the zero address is `0x` and forty zeros |
| VaultDb.VaultDbService.ConnectVault | src/db/vault-db/vault-db.service.ts:162-169 | row by row: every row of the vault, in any spelling, whose block is not newer is connected under the connection owner at the new block; nothing else changes |
| VaultDb.VaultDbService.DisconnectVault | src/db/vault-db/vault-db.service.ts:176-187 | row by row: matching rows that are not newer get the flag, the block, and the owner if one was resolved; nothing else changes |
| VaultDb.VaultDbService.UpdateVaultOwnership | src/db/vault-db/vault-db.service.ts:189-201 | row by row: matching rows that are not newer, and disconnected when asked, get the owner and the block; nothing else changes |
| VaultDb.VaultDbService.GetOrCreateVaultByAddress | src/db/vault-db/vault-db.service.ts:137-147 | a row is created exactly when no row has this very spelling, with a larger id, the flag asked for, and nothing else known; otherwise nothing changes |
| VaultDb.VaultDbService.SetMembersForVault | src/db/vault-db/vault-db.service.ts:549-609 | address by address: a row of this very spelling that is not newer holds exactly the addresses the map lists, each under its role, with the block and the first usable owner as provenance; throws exactly for an unknown vault or an address twice under one role, and then, as for newer rows, changes nothing |
| VaultDb.VaultDbService.BackfillMembersOwnerFromRoleMembers | src/db/vault-db/vault-db.service.ts:616-640 | exactly the rows without a provenance that list a non-zero owner are filled, each with an owner it lists |
| VaultDb.VaultDbService.GetPage | src/db/vault-db/vault-db.service.ts:71-96 | a page holds exactly the rows the query selects past the cursor, in ascending id, up to its last id, and is shorter than the limit only when none is left |
| OwnershipOrder.OrderIndependence | src/db/vault-db/vault-db.service.ts:676-700 | full writes that agree per block end in the same row in every delivery order and with any repetition |
| OwnershipOrder.HighestFullWriteWins | src/db/vault-db/vault-db.service.ts:162-187 | that row is the one the write at the highest block alone would leave |
| OwnershipOrder.FullWritesCommuteIff | src/db/vault-db/vault-db.service.ts:689-691 | two full writes commute if and only if blocks differ, values agree, or both are stale |
| OwnershipOrder.WritesCommuteIff | src/db/vault-db/vault-db.service.ts:682-691 | exact condition under which two writes of any shape at two blocks commute: full or partial, guarded or not, stale or not |
| OwnershipOrder.SameBlockWritesCommuteIff | src/db/vault-db/vault-db.service.ts:682-697 | exact condition under which two writes of any shape at one block commute |
| OwnershipOrder.SameBlockDisconnectDoesNotCommute | src/db/vault-db/vault-db.service.ts:176-201 | a concrete pair at one block whose order matters |
| OwnershipOrder.PartialWritesDoNotCommute | src/db/vault-db/vault-db.service.ts:162-187 | a concrete pair of writes whose order matters |
| OwnershipOrder.AppliedBlocksAscend | src/db/vault-db/vault-db.service.ts:668-687 | over any mix of writes, those that pass the guard do so in block order |
| OwnershipOrder.ColumnComesFromHighestWrite | src/db/vault-db/vault-db.service.ts:668-700 | each column ends as the applied write that set it at the highest block left it |
| OwnershipChain.OwnerIsLastTransfer | src/vault/vault.service.ts:854-863 | the owner read at a block is the new owner of the last transfer up to it |
| OwnershipChain.ResolvedIsNotHub | src/vault/vault.service.ts:854-863 | the resolved owner is not the hub unless the hub is its own pending owner |
| OwnershipChain.PendingIsOfLastEvent | src/vault/vault.service.ts:854-863 | the pending owner read at a block is the one of the last started transfer, and none after a transfer |
| OwnershipScan.SortLogsSorts | src/vault/vault.service.ts:485-519 | the processed logs are a permutation of those received, in (block, log index) order |
| OwnershipScan.SyncDisconnectedVaultOwnersFromLogs | src/vault/vault.service.ts:475-527 | the exact table after a scan in which any logs fail; the scan throws exactly when the read of the vaults does, or when the log read does and there is something to scan; it issues guarded owner writes only and none names the hub |
| OwnershipScan.ScanTakesLastLog | src/vault/vault.service.ts:485-519 | a disconnected row ends stamped with the last log that concerns it, in chain order, at a block not older than its own |
| OwnershipScan.ScanSkipsConnected | src/db/vault-db/vault-db.service.ts:693-697 | a scan leaves connected rows as they are |
| Reconcile.ReconcileDisconnectedVaultOwners | src/vault/vault.service.ts:537-578 | the exact statements of a reconcile, whatever the batch size and whichever reads or writes of vaults fail; none when the list of vaults cannot be read |
| Reconcile.ReconcileIsPerRow | src/vault/vault.service.ts:541-569 | a row is written exactly when it is disconnected, not newer, and its read and write went through, and then from its own read only, so the order within concurrent batches does not matter |
| Reconcile.ReconcileSetsOwner | src/vault/vault.service.ts:545-560 | when nothing fails every disconnected row that is not newer carries the owner resolved at the block |
| Reconcile.ReconcileSparesHub | src/vault/vault.service.ts:545-560 | no statement of a reconcile names the hub as an owner |
| OwnershipRuns.CoveringScanSettles | src/vault/vault.service.ts:485-519 | a scan that covers the deciding log writes it, whatever earlier scans left |
| OwnershipRuns.RunsSelfHeal | src/vault/vault.service.ts:459-527 | whatever writes failed on the way, a run of scans ends with the last non-hub log as soon as the last scan covering it wrote it |
| OwnershipRuns.FailuresLeaveNoTrace | src/vault/vault.service.ts:485-519 | such a run ends in the same row as a run without failures |
| OwnershipRuns.OverlapChangesNothingIff | src/vault/vault.service.ts:469-519 | exact condition under which scanning a window again, with any failing writes, leaves a settled row alone |
| OwnershipRuns.FailedOverlapPutsOwnerBack | src/vault/vault.service.ts:485-519 | a concrete repeated scan that puts an earlier owner back |
| OwnershipRuns.OverlapIsIdempotent | src/vault/vault.service.ts:469-480 | in particular nothing changes while the write of the deciding log does not fail |
| OwnershipRuns.WindowsLeaveNoGap | src/vault/vault.service.ts:475-480 | scans at most 300 blocks apart cover every block in between |
| OwnershipRuns.WindowIsLast300Blocks | src/vault/vault.service.ts:475-480 | a scan covers a log if and only if it lies in the last 300 blocks up to the scan's |
| OwnershipRuns.UndecidedRowIsUntouched | src/vault/vault.service.ts:498-519 | a run over a vault with no deciding log leaves its row untouched |
| OwnershipRuns.ScanRefinesStateRead | src/vault/vault.service.ts:459-527 | any gap-free run of scans, in which any writes fail as long as that of the deciding log is made good, leaves the owner on chain at the last block, whenever that is not the hub, whatever transfers came in between; and the row is right again at the block it then records |
| OwnershipRuns.UnfailingRunSettles | src/vault/vault.service.ts:501-519 | a run in which the write of the deciding log never fails makes it good |
| OwnershipRuns.ScanAgreesWithReconcile | src/vault/vault.service.ts:529-569 | so it leaves exactly the owner a reconcile at that block would, also for a hub-owned vault whose pending owner stands |
| OwnershipRuns.ScanAgreesWithReconcileIff | src/vault/vault.service.ts:459-569 | for every history, transfers to the hub and failed writes included: exactly when the scans leave what a reconcile would |
| OwnershipRuns.HubOwnedAgreesIff | src/vault/vault.service.ts:854-863 | while the hub owns the vault, with no transfer to it in reach, both agree if and only if the pending owner is the one at the recorded block |
| OwnershipRuns.HubRenamingPendingOwnerIsMissed | src/vault/vault.service.ts:498-506 | a concrete history in which the scan misses a renamed pending owner |
| RecordedOwners.TruthfulWritesKeepRecord | src/db/vault-db/vault-db.service.ts:668-700 | writes of any kind in any order keep a right row right, and set a wrong one right once one gets through, when the last to get through names the owner resolved at its block |
| RecordedOwners.RecordIsOfLastApplied | src/db/vault-db/vault-db.service.ts:668-700 | when that write names an owner, the row is right if and only if it names the resolved one |
| RecordedOwners.TruthfulWritersQualify | src/db/vault-db/vault-db.service.ts:668-700 | writers all of whose writes to the vault name the resolved owner meet that condition |
| RecordedOwners.ReconcileIsTruthful | src/vault/vault.service.ts:541-569 | every write of a reconcile names the owner resolved at its block |
| RecordedOwners.SweepIsTruthful | src/vault/vault.service.ts:162-187 | so does every write of the full sync's sweep for a vault that names somebody |
| RecordedOwners.ResolvedDisconnectIsTruthful | src/vault/vault.service.ts:783-816 | so do the backfill and the disconnect handler for a disconnected vault that names somebody |
| RecordedOwners.OwnerlessDisconnectKeepsRecordIff | src/db/vault-db/vault-db.service.ts:176-187 | a disconnect without an owner leaves the row right if and only if it named nobody |
| RecordedOwners.OwnerlessDisconnectKeepsOldOwner | src/vault/vault.service.ts:854-863 | a concrete disconnect that keeps the connection owner |
| RecordedOwners.WritesThenScans | src/vault/vault.service.ts:459-569 | such writes followed by gap-free scans, with failures that are made good, end with the owner on chain |
| FullSync.FetchAllVaultsAndCalculateStates | src/vault/vault.service.ts:57-201 | the exact statements of a full sync, whichever batches, reads and writes fail |
| FullSyncExact.FullSyncFollowsFetchedList | src/vault/vault.service.ts:77-187 | after a full-mode run a row that was not newer is connected if and only if a batch that arrived lists it; newer rows are untouched |
| FullSyncExact.FullSyncExact | src/vault/vault.service.ts:77-187 | without failed batches that means if and only if it is on chain, and connected rows carry the connection owner |
| FullSyncExact.BatchesPartitionList | src/vault/vault.service.ts:87-101 | the offset and limit batches partition the list for any batch size |
| FullSyncExact.CreatedRowsStayConnected | src/vault/vault.service.ts:103-158 | rows created on the way are connected vaults of the list |
| FullSyncExact.FailedBatchDisconnectsListedVault | src/vault/vault.service.ts:91-187 | a concrete run in which a skipped batch disconnects a listed vault |
| FullSyncExact.MinimalModeNeverDisconnects | src/vault/vault.service.ts:76-192 | when a smaller number than the count is configured nothing is ever marked disconnected, whatever fails |
| FullSyncExact.FullSyncSparesHub | src/vault/vault.service.ts:145-187 | no statement names the hub unless it is its own connection or pending owner |
| FullSyncFailures.FullSyncOnRow | src/vault/vault.service.ts:57-201 | each row after a sync in either mode with any failing batches, creates, saves, reads and disconnects: joined, left, or as it was |
| FullSyncFailures.SweepOnRow | src/vault/vault.service.ts:162-187 | each row after a sweep with any failing reads and writes, in whatever spellings the vault is listed |
| FullSyncFailures.CreatedRowsAreListed | src/vault/vault.service.ts:103-115 | whatever fails, a created row is that of a vault that arrived: connected, under its connection owner once that is saved, and without an owner before |
| FullSyncFailures.CreatedRowsAfterRun | src/vault/vault.service.ts:103-187 | and it is so after the whole run, sweep included |
| FullSyncFailures.ListedArrives | src/vault/vault.service.ts:87-101 | everything listed below the limit in a batch that did not fail arrives, whatever other batches fail |
| FullSyncFailures.FetchedFromList | src/vault/vault.service.ts:87-101 | and nothing else does |
| Limits.BatchStartIs | src/vault/vault.service.ts:87-88 | the m-th batch starts at the m-th multiple of the batch size |
| RetryCall.RpcCallWithRetry | src/common/utils/rpc-call-with-retry.ts:15-35 | the first accepted answer within the attempts, or a failure after all were rejected |
| VaultViewer.TransformRoleMembersMap | src/common/contracts/modules/vault-viewer-contract/vault-viewer-contract.service.ts:160-174 | role by role: a role's member list, or the reported owner or node operator when that is empty, and no entry for a role without members |
| VaultViewer.ProvenanceIsOwnerIff | src/common/contracts/modules/vault-viewer-contract/vault-viewer-contract.service.ts:160-174 | the recorded provenance is the reported owner if and only if the owner list is empty or starts with it |
| VaultViewer.OwnerListReplacesOwner | src/common/contracts/modules/vault-viewer-contract/vault-viewer-contract.service.ts:160-174 | a concrete answer whose owner list replaces the reported owner |
| MembersRefresh.GetRoleMembersWithRetry | src/common/contracts/modules/vault-viewer-contract/vault-viewer-contract.service.ts:94-114 | members come from the first resolved reply of five, and exactly when there is one |
| MembersRefresh.FetchAllVaultsRoleMembers | src/vault/vault.service.ts:205-281 | the daily refresh stores exactly the resolved answers to its batches, whichever calls and writes fail |
| MembersRefresh.BatchesAnswerEachVault | src/vault/vault.service.ts:205-250 | for any batch size each vault is asked about once and in order |
| MembersRefresh.BatchAnswerIsReceived | src/vault/vault.service.ts:223-250 | every answer to a batch whose call goes through is received, whatever happens to other batches |
| MembersRefresh.AnswerIsFromBatch | src/vault/vault.service.ts:223-250 | and no other is |
| MembersRefresh.OnlyResolvedAnswersAreStored | src/vault/vault.service.ts:252-271 | exactly the answers that name an owner and a node operator, and whose writes go through, reach storage |
| MembersRefresh.RefreshVaultRoleMembers | src/vault/vault.service.ts:823-836 | an event refresh writes one resolved reply or nothing, and never throws |
| VaultEvents.OnVaultConnected | src/vault/vault.service.ts:288-393 | the statements of the handler for every combination of failures; none names the hub unless it is the connection owner |
| VaultEvents.OnVaultOwnershipTransferred | src/vault/vault.service.ts:395-422 | the owner follows even if the members refresh fails; no statement names the hub unless it is the new owner |
| VaultEvents.OnVaultDisconnectCompleted | src/vault/vault.service.ts:424-460 | the flag is set even if the owner cannot be read, and then the owner stays; the statement does not name the hub unless it is its own pending owner |
| Access.MembersAreOneCommittedWrite | src/db/vault-db/vault-db.service.ts:549-609 | over any run a vault's members are exactly the map of one accepted write |
| Access.MembersBlockNeverDecreases | src/db/vault-db/vault-db.service.ts:556-575 | and the members block is monotone |
| Access.CommittedProvenance | src/db/vault-db/vault-db.service.ts:600-640 | a recorded provenance is an owner that write lists |
| Access.AccessSafety | src/db/vault-db/vault-db.queries.ts:129-165 | over any run from an empty table, role access with both owner columns set comes from a members write that the row accepted, that lists the member and whose owner entry is the current owner (one without an owner entry lists the current owner) |
| Access.DelegatesStayHidden | src/db/vault-db/vault-db.constants.ts:16-29 | once the owner changed, no role grants access until a members write lists the member again, read through the new owner or through none |
| Access.OwnerSeesVault | src/db/vault-db/vault-db.queries.ts:144-149 | an owner, in any spelling, sees the vault from the applied write that named it until another names somebody else |
| Access.AccessIff | src/db/vault-db/vault-db.queries.ts:129-165 | over any run: an address sees a vault by role if and only if the last committed members write lists it there and an owner column is absent or both owners are the same; without a role, if and only if it is the owner or so listed as Dashboard owner |
| Access.PublicListIsConnected | src/db/vault-db/vault-db.queries.ts:25-27 | the list without an address shows exactly the connected rows |
| Access.PublicListFollowsFlag | src/db/vault-db/vault-db.queries.ts:25-27 | that is, those whose last applied write to set the flag connected them |
| Access.HubIsNeverRecorded | src/vault/vault.service.ts:498-506 | over any run of statements that do not name the hub no row, old or new, is owned by it |
| Access.GuardedWritesKeepFlag | src/db/vault-db/vault-db.service.ts:693-697 | scan and reconcile statements never change a connected row nor flip the flag |
| VaultRows.NextWellFormed | src/db/vault-db/vault-db.service.ts:137-147 | ids keep ascending and addresses stay unique under every statement |
| Backfill.BackfillSingleVaultOwnership | src/vault/vault.service.ts:783-816 | column by column: a disconnected vault that names an owner gets it and stays disconnected; a connected or hub-owned one is connected under a non-zero hub owner; nothing else changes; it throws exactly when a read or the write it needs fails |
| Backfill.ResolveMissingVaultOwners | src/vault/vault.service.ts:638-681 | the cursor loop ends, visits ids once in ascending order although the query shrinks, resolves each visited row on its own, and succeeds exactly when none failed |
| Backfill.OwnersDoneMeans | src/vault/vault.service.ts:638-681 | the end of the owner scan in those terms, for every row |
| Backfill.ResolvingNeverDisconnects | src/vault/vault.service.ts:783-816 | a connected vault is never marked disconnected |
| Backfill.OwnerWriteSparesHub | src/vault/vault.service.ts:783-816 | the backfill never names the hub unless the hub was given as an owner |
| MembersRepair.RepairVault | src/vault/vault.service.ts:703-728 | address by address: stores as Dashboard owners exactly the non-zero admins of the owner's Dashboard when that is bound to this very vault, and the owner as vault owner; throws exactly when one of the two calls is lost, the write fails, or an admin is named twice |
| MembersRepair.RepairedOrExcused | src/vault/vault.service.ts:757-781 | a repair that did not fail leaves the vault fresh unless its members are newer or its owner is unusable |
| MembersRepair.RepairDisconnectedVaultRoleMembers | src/vault/vault.service.ts:689-751 | the cursor loop visits exactly the rows selected at its start, once each, repairs each on its own, and succeeds exactly when none failed |
| MembersRepair.RepairDoneMeans | src/vault/vault.service.ts:689-751 | the end of the repair scan in those terms, for every row |
| MembersRepair.BackfillVaultOwnership | src/vault/vault.service.ts:594-608 | on success every ownerless row has a newer block or a zero hub owner and every stale row has newer members or an unusable owner; any failing vault makes it throw |
| BackfillSchedule.VaultJobsService.Fire | src/jobs/vault-jobs/vault-jobs.service.ts:161-191 | exactly one backfill job waits until the first success and none afterwards; other jobs are untouched |
| BackfillSchedule.DelaysSettle | src/jobs/vault-jobs/vault-jobs.service.ts:179-184 | delays double without passing ten minutes and sit there from the sixth attempt on |
| BackfillSchedule.RunBackfill | src/jobs/vault-jobs/vault-jobs.service.ts:143-191 | over any outcomes the job fires up to and including the first success |
| BackfillSchedule.AttemptsUntilSuccess | src/jobs/vault-jobs/vault-jobs.service.ts:161-191 | those attempts are all failures but the last, which is the first success if there is one |
| SingleFlight.AtMostOneRun | src/common/job/single-flight.decorator.ts:22-49 | over every interleaving a run starts only after all earlier runs of its instance and key ended and were cleaned up |
| SingleFlight.CallJoinsPendingRun | src/common/job/single-flight.decorator.ts:32-48 | a call while a run is in flight joins it and starts nothing; otherwise it starts a run |
| SingleFlight.FinishRemovesOwnEntry | src/common/job/single-flight.decorator.ts:41-46 | a completion removes its own entry and never another run's |
| SingleFlight.JoinersNeverSeeRejection | src/common/job/single-flight.decorator.ts:33-37 | a joiner settles with the leader, on the same value, and sees undefined exactly when the leader is rejected |
| SingleFlight.PromisesSettleOnce | src/common/job/single-flight.decorator.ts:41-49 | phases only advance, so a body runs once and a settled promise never changes |
| SingleFlight.PendingRunCanFinish | src/common/job/single-flight.decorator.ts:41-49 | every pending run can finish, which answers all its callers and frees the key |
| SingleFlight.InFlightTable.Invoke | src/common/job/single-flight.decorator.ts:19-50 | the wrapper's update of the table, after every history |
| SingleFlight.InFlightTable.Cleanup | src/common/job/single-flight.decorator.ts:41-46 | the cleanup's update of the table, before the promise settles |
| ReportMetrics.MetricsJob.CalculateVaultMetrics | src/report/report.service.ts:176-245 | for every batch size, in terms of the reports: the pairs calculated are the first neighbours with their own leaves; one pair without a limit; with one, none past a pair at it or a known pair; it ends there, at the oldest pair, or on an error; and exactly the recorded pairs are added |
| ReportMetrics.BatchesAgreeWithSinglePass | src/report/report.service.ts:186-245 | that cut is the one of a single pass over all neighbouring reports |
| ReportMetrics.RunKeepsTailCalculated | src/report/report.service.ts:207-220 | a run that records all it calculates keeps the calculated pairs without gaps down to the limit, which is what makes stopping at a calculated pair right |
| ReportMetrics.NextRunCalculatesNewPairs | src/report/report.service.ts:207-220 | the next run calculates the new pairs and the newest known one again |
| ReportMetrics.FailedRunLeavesGap | src/report/report.service.ts:200-225 | a run that fails after its first pair leaves a gap unless an earlier run had calculated the failing pair, and later runs stop above it |
| ReportMetrics.RunLeavesNoGapIff | src/report/report.service.ts:200-225 | exact condition, whatever fails or records nothing: a run leaves no gap if and only if no pair it records stands above one nobody recorded |
| ReportMetrics.RecordingRunLeavesNoGapIff | src/report/report.service.ts:200-225 | for a run that records what it calculates: no error, one before the first pair, or one on a pair calculated earlier |
| ReportMetrics.UnreadableReportLeavesGap | src/report/report.service.ts:200-225 | a concrete run that leaves a gap, and the next run that does not close it |
| ReportMetrics.SilentPairLeavesGap | src/report/report.service.ts:364-443 | a concrete run without any error that leaves a gap, and the next run that does not close it |
| ReportMetrics.FromCidStartsThere | src/db/report-db/report-db.service.ts:30-46 | a run from a CID goes through exactly that report and the older ones |
| ReportMetrics.ListedIs | src/db/report-db/report-db.service.ts:22-60 | which reports a run goes through, and that it throws exactly for a blank or unknown CID |
| ReportSync.ReportService.FetchAllReports | src/report/report.service.ts:122-166 | the loop ends on any predecessor graph and leaves the tables of the walk |
| ReportSync.ReportService.SaveLeaves | src/db/report-db/report-db.service.ts:79-118 | chunked upserts amount to one upsert of all leaves, or of the chunks before the first that fails, be it on an error or on a vault named twice in it |
| ReportSync.SaveFailsIff | src/db/report-db/report-db.service.ts:79-118 | leaves fail to be saved if and only if an error hits before their end or a vault is named twice in a chunk of 500 |
| ReportSync.LastLeafWins | src/db/report-db/report-db.service.ts:79-118 | a vault named in several chunks ends with the last leaf given for it |
| ReportSync.SyncClosesTail | src/report/report.service.ts:128-162 | a walk without errors from a closed tail closes it again and stores the report it began with |
| ReportSync.RunClosesTailIff | src/report/report.service.ts:122-166 | with a positive limit, if and only if the run saves nothing, or the stretch it sets out to store can be fetched to its end, all its saves succeed, and leaves fail at most for its last report |
| ReportSync.UndisturbedRunStoresStretch | src/report/report.service.ts:128-162 | a run in which no save fails stores exactly the stretch it sets out to store |
| ReportSync.FailedSaveLeavesTailOpen | src/report/report.service.ts:128-162 | a concrete run that leaves the tail open |
| ReportSync.LastTwoReports | src/report/report.service.ts:148-153 | without a positive limit at most two reports are stored, and both unless the first is below the limit |
| ReportSync.SyncStoresLinkedReports | src/report/report.service.ts:128-146 | what a run stores is one linked stretch beginning at the latest report |
| ReportSync.OnlyLastIsBelowLimit | src/report/report.service.ts:155-161 | a run goes no further than the first report below the limit |
| ReportSync.SyncStoresOnce | src/db/report-db/report-db.service.ts:62-77 | no report is stored twice |
| ReportSync.SyncStoresAsPublished | src/db/report-db/report-db.service.ts:62-77 | every stored report is as published |
| ReportSync.RunKeepsCompleteIff | src/report/report.service.ts:134-146 | exact condition under which every stored report has all its leaves after a run: the first save of its stretch to fail, if any, is that of a report or loses no leaves |
| ReportSync.LostLeavesStayLost | src/report/report.service.ts:130-146 | a concrete run that stores a report without its leaves, and the next run that leaves it so |
| ReportSync.SyncKeepsComplete | src/report/report.service.ts:134-146 | in particular while no run gives up every stored report has all its leaves |
| ReportSync.SyncKeepsLeaves | src/report/report.service.ts:130-133 | a run never touches the leaves of a stored report |
| ReportSync.EventRestoresLeaves | src/report/report.service.ts:266-274 | an event for a stored report stores its leaves again |
| Reports.PredecessorIs | src/report/report.service.ts:146 | a predecessor ends the walk if and only if it is blank, and is followed as it is otherwise |
| ReportSync.EventKeepsTailClosedIff | src/report/report.service.ts:258-285 | an event keeps the tail closed if and only if the predecessor is stored, absent or out of range |
| ReportSync.EventLeavesTailOpen | src/report/report.service.ts:258-285 | a concrete event that leaves the tail open |
| ReportSync.GapNeverHeals | src/report/report.service.ts:128-133 | over any history of runs and events, however many reports arrive between them, a missing report is not stored unless it is announced itself or a new report names it as predecessor |
| AprSma.GetVaultAprSmaForDays | src/db/vault-db/vault-db.service.ts:433-536 | the accumulator loop computes the averages, series and ranges of the specification |
| AprSma.AveragesAgreeIff | src/db/vault-db/vault-db.queries.ts:83-126 | service and query agree, in whatever row order, if and only if nothing is to be averaged or neither latest timestamp is zero |
| AprSma.EpochIsMistakenForMissing | src/db/vault-db/vault-db.service.ts:448-465 | a concrete vault on which they disagree |
| AprSma.UsedAreLastDays | src/db/vault-db/vault-db.service.ts:466-486 | the rows averaged are exactly those without anomaly in the last UTC days up to the latest valid one |
| AprSma.UsedIsNeverEmpty | src/db/vault-db/vault-db.service.ts:479-490 | that set is never empty |
| AprSma.SumIgnoresOrder | src/db/vault-db/vault-db.queries.ts:96-102 | a sum does not depend on the order of the rows |
| AprSma.AverageIsBetween | src/db/vault-db/vault-db.service.ts:517-534 | an average lies between the bounds of what it averages |
| AprSma.WindowIsReported | src/db/vault-db/vault-db.service.ts:464-519 | the reported window ends at the latest valid row and is outdated if and only if some row is later |
| AprSma.NothingToReport | src/db/vault-db/vault-db.service.ts:448-465 | what is reported when no row is valid, or there is none |
| FeeAccrual.StoppedPairIsFree | src/report/no-fee-snapshot.utils.ts:27-36 | a pair that touches the sentinel is charged nothing |
| FeeAccrual.PairIsChargedItsRise | src/report/no-fee-snapshot.utils.spec.ts:26-28 | a pair without a stop is charged its rise in earnings, and nothing for a fall |
| FeeAccrual.EarningsAre | src/report/no-fee-snapshot.utils.spec.ts:22-24 | earnings are the held fee and the growth at the rate, rounded toward zero |
| FeeAccrual.ChargesTelescopeIff | src/report/no-fee-snapshot.utils.spec.ts:22-28 | without a stop the charges add up to last minus first if and only if earnings never fall, and to more otherwise |
| FeeAccrual.ChargesAreStretchGains | src/report/no-fee-snapshot.utils.ts:10-36 | over any history the charges are at least what the stretches between two stops earned, and exactly that if and only if no stretch loses |
| FeeAccrual.SentinelWouldBeCharged | src/report/no-fee-snapshot.utils.spec.ts:90-101 | without the neutralisation the sentinel would be priced as growth |
| IpfsFetch.Assemble | src/lsv/lsv.service.ts:171-176 | the buffer filled in place equals the concatenation of the chunks |
| IpfsFetch.ReadAll | src/lsv/lsv.service.ts:147-176 | the stream loop yields the content or the first error and never holds more than the limit |
| IpfsFetch.ChunkingIsIrrelevant | src/lsv/lsv.service.ts:147-170 | an unbroken stream is refused exactly when its whole content is over the limit, however it is chunked |
| IpfsFetch.AcceptedIsVerified | src/lsv/lsv.service.ts:178-183 | an accepted document is within the limit and hashes to the CID |
| IpfsFetch.AcceptedIff | src/lsv/lsv.service.ts:125-183 | an answer is accepted if and only if header, stream, size, hash and document are right |
| IpfsFetch.TooLargeIff | src/lsv/lsv.service.ts:131-165 | an unbroken answer is too large if and only if its header or its content says so |
| IpfsFetch.FetchIPFS | src/lsv/lsv.service.ts:202-226 | the first gateway to succeed or to send too large a report decides; otherwise the last error |
| IpfsFetch.SameAddressSameDocument | src/lsv/lsv.service.ts:178-226 | two successful fetches of a CID return the same document unless two contents share it |
| ReportsMerkle.ReportsMerkleService.BuildIndex | src/report/reports-merkle.service.ts:77-81 | the index maps each lower-cased vault to its first leaf |
| ReportsMerkle.LookupIsFirstLeaf | src/report/reports-merkle.service.ts:47-50 | a lookup in any spelling finds the first leaf of the vault and misses exactly when there is none |
| ReportsMerkle.ReportsMerkleService.GetReportProofByVault | src/report/reports-merkle.service.ts:41-86 | for a report that is cached or fetched, the first leaf of the vault or a miss exactly when there is none, whatever tree the cache holds; otherwise the fetch error |

## Left out

- HTTP, validation, metrics, logging, Sentry, throttling, ENS names, list sorting and display paging: no core state.
- The payload of vault states and report statistics, health, rebase and APR formulas, and Merkle proofs: their libraries are not part of this model.
- SQL, TypeORM, ethers and multicall: a statement is one atomic step on the rows; a transaction is atomic; reads are answered by arguments.
- Concurrency inside a batch: `Promise.all` calls are issued one after another here; Reconcile.ReconcileIsPerRow and the per-row clauses of the two backfill scans show that their order does not matter.
- Interleaving during one job: a method runs without other writers between its statements, while the lemmas over statement sequences hold for any interleaving.
- Batch sizes below one: the paging loops of the source would not advance, so those methods require a positive size; the reconcile, which does not loop then, is modelled for every size.
- Order of rows with equal timestamps, and which row a query without an order returns first: a fixed order is an argument, or the choice is left open.
- Report rows inserted while the metrics job pages through them: its table is fixed during a run.
- ReportMetrics.MetricsJob.CalculateVaultMetrics: whether a pair records any row is an argument, because it depends on reads and formulas outside the model.
- ReportSync.ReportService.FetchAllReports: a failing `existsByCid` rejects the job, and the reports it saved before stay; it is not an outcome here.
- Backfill.ResolveMissingVaultOwners: a failing read of a page rejects the job after the pages before it; neither this nor the same failure of the repair scan and of the members refresh's reads of the vault list is an outcome here.
- ReportSync.OnReportEvent: the pair calculation that follows the save in the same handler is left out.
- ReportsMerkle.ReportsMerkleService.GetReportProofByVault: gives the leaf to prove; the proof and the vault data the source returns with it come from libraries that are not part of this model.
- The sub-second schedule, cron firing and time zones: each run is a step with a given block; only the delay of the backfill retry is modelled.
- AprSma.GetVaultAprSmaForDays: averages are over `real`, so floating-point rounding is not modelled.
- Unicode: white space is space, tab, line feed and carriage return, and lower-casing covers ASCII letters, which is all an address or a CID holds.
- IpfsFetch: the hash and the JSON parser are abstract functions, and a timeout is one of the errors a stream can end with.
- VaultEvents.OnVaultConnected: the state payload it stores is one step that may fail.
