/**
 Runs of scans under failures. A scan that could not read the logs leaves no mark, so a run is the list of the
 scans that did read them, each with its own set of failed writes.
 */
module OwnershipRuns {
  import opened Addresses
  import opened Wrappers
  import opened VaultRows
  import opened OwnershipChain
  import opened OwnershipScan
  import opened Reconcile

  datatype ScanRun = ScanRun(block: nat, logs: seq<TransferLog>, failed: set<TransferLog>)

  function RunScans(rows: seq<VaultRow>, hub: Address, runs: seq<ScanRun>): seq<VaultRow> {
    if runs == [] then rows
    else
      var n := |runs| - 1;
      ScanTable(RunScans(rows, hub, runs[..n]), hub, runs[n].logs, runs[n].failed)
  }

  /** No two logs of the chain share block and index. */
  ghost predicate UniquePositions(chain: set<TransferLog>) {
    forall l, l' | l in chain && l' in chain && l.block == l'.block && l.logIndex == l'.logIndex :: l == l'
  }

  predicate InWindow(run: ScanRun, l: TransferLog) {
    WindowStart(run.block) <= l.block <= run.block
  }

  /** The provider answered with the logs of the window, in whatever order. */
  ghost predicate Truthful(chain: set<TransferLog>, run: ScanRun) {
    forall l :: l in run.logs <==> l in chain && InWindow(run, l)
  }

  ghost predicate AllTruthful(chain: set<TransferLog>, runs: seq<ScanRun>, upTo: nat) {
    forall k | 0 <= k < |runs| :: Truthful(chain, runs[k]) && runs[k].block <= upTo
  }

  /** The log decides the owner of the row at the block: the last one in chain order that concerns it. */
  ghost predicate Decides(chain: set<TransferLog>, row: VaultRow, hub: Address, block: nat, m: TransferLog) {
    && m in chain && Relevant(row, hub, m) && m.block <= block
    && forall l | l in chain && Relevant(row, hub, l) && l.block <= block :: NotAfter(l, m)
  }

  /** The scan with this index covers the log and writes it, and no later scan covers it. */
  ghost predicate SettledBy(runs: seq<ScanRun>, m: TransferLog, k: nat) {
    k < |runs| && InWindow(runs[k], m) && m !in runs[k].failed && forall j | k < j < |runs| :: !InWindow(runs[j], m)
  }

  /** Some scan covers the log, and the last one to cover it did not fail to write it. */
  ghost predicate Settled(runs: seq<ScanRun>, m: TransferLog) {
    exists k :: SettledBy(runs, m, k)
  }

  /** The scan covering the deciding log writes it, whatever earlier scans left in the row. */
  lemma CoveringScanSettles(
      rows: seq<VaultRow>, hub: Address, chain: set<TransferLog>, run: ScanRun, i: nat, origin: VaultRow, upTo: nat, m: TransferLog)
    requires UniquePositions(chain) && Truthful(chain, run) && run.block <= upTo
    requires Decides(chain, origin, hub, upTo, m)
    requires i < |rows| && rows[i].isDisconnected
    requires rows[i] == origin || exists l :: l in chain && Relevant(origin, hub, l) && l.block <= upTo && rows[i] == Stamp(origin, l)
    requires InWindow(run, m) && m !in run.failed
    ensures |ScanTable(rows, hub, run.logs, run.failed)| == |rows|
    ensures ScanTable(rows, hub, run.logs, run.failed)[i] == Stamp(origin, m)
  {
    var last := ScanTakesLastLog(rows, hub, run.logs, run.failed, i);
    assert Relevant(rows[i], hub, m);
  }

  /** A scan whose window lies past the deciding log finds nothing to change. */
  lemma LaterScanKeeps(
      rows: seq<VaultRow>, hub: Address, chain: set<TransferLog>, run: ScanRun, i: nat, origin: VaultRow, upTo: nat, m: TransferLog)
    requires Truthful(chain, run) && run.block <= upTo
    requires Decides(chain, origin, hub, upTo, m)
    requires i < |rows| && rows[i].isDisconnected && rows[i] == Stamp(origin, m)
    requires !InWindow(run, m)
    ensures |ScanTable(rows, hub, run.logs, run.failed)| == |rows|
    ensures ScanTable(rows, hub, run.logs, run.failed)[i] == rows[i]
  {
    var last := ScanTakesLastLog(rows, hub, run.logs, run.failed, i);
  }

  /** Whatever fails, the row only ever holds its first value or the stamp of a log that concerns it. */
  lemma {:induction false} RunOnlyStamps(
      rows: seq<VaultRow>, hub: Address, chain: set<TransferLog>, runs: seq<ScanRun>, i: nat, upTo: nat)
    returns (stamp: Option<TransferLog>)
    requires AllTruthful(chain, runs, upTo)
    requires i < |rows| && rows[i].isDisconnected
    ensures |RunScans(rows, hub, runs)| == |rows|
    ensures stamp.Some? ==> stamp.value in chain && Relevant(rows[i], hub, stamp.value) && stamp.value.block <= upTo
    ensures stamp.Some? ==> exists k :: 0 <= k < |runs| && InWindow(runs[k], stamp.value)
    ensures RunScans(rows, hub, runs)[i] == if stamp.Some? then Stamp(rows[i], stamp.value) else rows[i]
  {
    stamp := None;
    if runs != [] {
      var n := |runs| - 1;
      stamp := RunOnlyStamps(rows, hub, chain, runs[..n], i, upTo);
      var last := ScanTakesLastLog(RunScans(rows, hub, runs[..n]), hub, runs[n].logs, runs[n].failed, i);
      if last.Some? {
        stamp := last;
        assert InWindow(runs[n], last.value);
      } else if stamp.Some? {
        var k :| 0 <= k < n && InWindow(runs[..n][k], stamp.value);
        assert InWindow(runs[k], stamp.value);
      }
    }
  }

  lemma {:induction false} SettledStays(
      rows: seq<VaultRow>, hub: Address, chain: set<TransferLog>, runs: seq<ScanRun>, i: nat, upTo: nat, m: TransferLog, k: nat)
    requires UniquePositions(chain) && AllTruthful(chain, runs, upTo)
    requires i < |rows| && rows[i].isDisconnected
    requires Decides(chain, rows[i], hub, upTo, m) && SettledBy(runs, m, k)
    ensures |RunScans(rows, hub, runs)| == |rows|
    ensures RunScans(rows, hub, runs)[i] == Stamp(rows[i], m)
    decreases |runs|
  {
    var n := |runs| - 1;
    var before := RunScans(rows, hub, runs[..n]);
    assert AllTruthful(chain, runs[..n], upTo);
    if k == n {
      var stamp := RunOnlyStamps(rows, hub, chain, runs[..n], i, upTo);
      CoveringScanSettles(before, hub, chain, runs[n], i, rows[i], upTo, m);
    } else {
      SettledStays(rows, hub, chain, runs[..n], i, upTo, m, k);
      LaterScanKeeps(before, hub, chain, runs[n], i, rows[i], upTo, m);
    }
  }

  /**
   Self-healing: whatever writes failed on the way, a run ends with the owner the deciding log names, as soon
   as the last scan to cover that log wrote it.
   */
  lemma RunsSelfHeal(
      rows: seq<VaultRow>, hub: Address, chain: set<TransferLog>, runs: seq<ScanRun>, i: nat, upTo: nat, m: TransferLog)
    requires UniquePositions(chain) && AllTruthful(chain, runs, upTo)
    requires i < |rows| && rows[i].isDisconnected
    requires Decides(chain, rows[i], hub, upTo, m) && Settled(runs, m)
    ensures |RunScans(rows, hub, runs)| == |rows|
    ensures RunScans(rows, hub, runs)[i] == Stamp(rows[i], m)
  {
    var k :| SettledBy(runs, m, k);
    SettledStays(rows, hub, chain, runs, i, upTo, m, k);
  }

  /** A run over a vault without a deciding log leaves its row untouched. */
  lemma UndecidedRowIsUntouched(
      rows: seq<VaultRow>, hub: Address, chain: set<TransferLog>, runs: seq<ScanRun>, i: nat, upTo: nat)
    requires AllTruthful(chain, runs, upTo)
    requires i < |rows| && rows[i].isDisconnected
    requires forall m :: !Decides(chain, rows[i], hub, upTo, m)
    ensures |RunScans(rows, hub, runs)| == |rows|
    ensures RunScans(rows, hub, runs)[i] == rows[i]
  {
    var stamp := RunOnlyStamps(rows, hub, chain, runs, i, upTo);
    if stamp.Some? {
      var m := SomeLogDecides(rows[i], hub, chain, upTo, stamp.value);
    }
  }

  /** As soon as one log concerns the row, the last of those that do decides. */
  lemma {:induction false} SomeLogDecides(row: VaultRow, hub: Address, chain: set<TransferLog>, upTo: nat, l: TransferLog)
    returns (m: TransferLog)
    requires l in chain && Relevant(row, hub, l) && l.block <= upTo
    ensures Decides(chain, row, hub, upTo, m)
    decreases |chain|
  {
    m := l;
    var rest := chain - {l};
    if next :| next in rest && Relevant(row, hub, next) && next.block <= upTo {
      var best := SomeLogDecides(row, hub, rest, upTo, next);
      m := if NotAfter(l, best) then best else l;
    }
  }

  /** Two runs that settle the same log agree: what failed in one of them leaves no trace. */
  lemma FailuresLeaveNoTrace(
      rows: seq<VaultRow>, hub: Address, chain: set<TransferLog>, runs: seq<ScanRun>, clean: seq<ScanRun>, i: nat, upTo: nat, m: TransferLog)
    requires UniquePositions(chain) && AllTruthful(chain, runs, upTo) && AllTruthful(chain, clean, upTo)
    requires i < |rows| && rows[i].isDisconnected
    requires Decides(chain, rows[i], hub, upTo, m) && Settled(runs, m) && Settled(clean, m)
    ensures |RunScans(rows, hub, runs)| == |RunScans(rows, hub, clean)| == |rows|
    ensures RunScans(rows, hub, runs)[i] == RunScans(rows, hub, clean)[i]
  {
    RunsSelfHeal(rows, hub, chain, runs, i, upTo, m);
    RunsSelfHeal(rows, hub, chain, clean, i, upTo, m);
  }

  /** Of the logs in the block of the deciding one, the last that this scan covers and writes. */
  ghost predicate LastWritten(chain: set<TransferLog>, row: VaultRow, hub: Address, run: ScanRun, m: TransferLog, l: TransferLog) {
    && l in chain && Relevant(row, hub, l) && l.block == m.block && InWindow(run, l) && l !in run.failed
    && forall l' | l' in chain && Relevant(row, hub, l') && l'.block == m.block && l' !in run.failed :: NotAfter(l', l)
  }

  /**
   Re-running a window over a row that holds its deciding log. The row is left alone exactly when the last log of
   that block which the scan does write names the same owner; so it changes only when the write of the deciding log
   fails while that of an earlier transfer in its block, to somebody else, goes through.
   */
  lemma OverlapChangesNothingIff(
      rows: seq<VaultRow>, hub: Address, chain: set<TransferLog>, runs: seq<ScanRun>, again: ScanRun, i: nat, upTo: nat, m: TransferLog)
    requires UniquePositions(chain) && AllTruthful(chain, runs, upTo)
    requires Truthful(chain, again) && again.block <= upTo
    requires i < |rows| && rows[i].isDisconnected
    requires Decides(chain, rows[i], hub, upTo, m) && Settled(runs, m)
    ensures |RunScans(rows, hub, runs + [again])| == |rows| == |RunScans(rows, hub, runs)|
    ensures RunScans(rows, hub, runs + [again])[i] == RunScans(rows, hub, runs)[i]
            <==> forall l | LastWritten(chain, rows[i], hub, again, m, l) :: l.newOwner == m.newOwner
  {
    RunsSelfHeal(rows, hub, chain, runs, i, upTo, m);
    assert (runs + [again])[..|runs|] == runs;
    var before := RunScans(rows, hub, runs);
    var last := ScanTakesLastLog(before, hub, again.logs, again.failed, i);
    forall l | LastWritten(chain, rows[i], hub, again, m, l)
      ensures last == Some(l)
    {
      assert l in again.logs && Relevant(before[i], hub, l);
    }
    if last.Some? {
      assert LastWritten(chain, rows[i], hub, again, m, last.value);
    }
  }

  /** In particular nothing changes when the deciding log is written again, or not covered any more. */
  lemma OverlapIsIdempotent(
      rows: seq<VaultRow>, hub: Address, chain: set<TransferLog>, runs: seq<ScanRun>, again: ScanRun, i: nat, upTo: nat, m: TransferLog)
    requires UniquePositions(chain) && AllTruthful(chain, runs, upTo)
    requires Truthful(chain, again) && again.block <= upTo && (m !in again.failed || !InWindow(again, m))
    requires i < |rows| && rows[i].isDisconnected
    requires Decides(chain, rows[i], hub, upTo, m) && Settled(runs, m)
    ensures |RunScans(rows, hub, runs + [again])| == |rows| == |RunScans(rows, hub, runs)|
    ensures RunScans(rows, hub, runs + [again])[i] == RunScans(rows, hub, runs)[i]
  {
    OverlapChangesNothingIff(rows, hub, chain, runs, again, i, upTo, m);
    forall l | LastWritten(chain, rows[i], hub, again, m, l)
      ensures l == m
    {
      assert m in chain && Relevant(rows[i], hub, m);
    }
  }

  /**
   A repeated scan that puts an earlier owner back: two transfers in one block, both recorded, and in the next scan the
   write of the later one fails.
   */
  lemma FailedOverlapPutsOwnerBack(vault: Address, hub: Address, first: Address, second: Address)
    requires first != second && !Same(first, hub) && !Same(second, hub)
    ensures var row := VaultRow(1, vault, true, None, None, 5, 0, {});
            var a, b := TransferLog(vault, first, 10, 0), TransferLog(vault, second, 10, 1);
            var runs, again := [ScanRun(20, [a, b], {})], ScanRun(30, [a, b], {b});
            && AllTruthful({a, b}, runs, 30) && Truthful({a, b}, again)
            && RunScans([row], hub, runs) == [Stamp(row, b)]
            && RunScans([row], hub, runs + [again]) == [Stamp(row, a)]
  {
    var row := VaultRow(1, vault, true, None, None, 5, 0, {});
    var a, b := TransferLog(vault, first, 10, 0), TransferLog(vault, second, 10, 1);
    var runs, again := [ScanRun(20, [a, b], {})], ScanRun(30, [a, b], {b});
    TwoLogsAreTruthful(a, b, 20, {});
    TwoLogsAreTruthful(a, b, 30, {b});
    BothWritten(row, hub, a, b);
    EarlierWritten(Stamp(row, b), hub, a, b);
    assert runs[..0] == [] && RunScans([row], hub, runs[..0]) == [row];
    assert (runs + [again])[..1] == runs;
  }

  lemma TwoLogsAreTruthful(a: TransferLog, b: TransferLog, block: nat, failed: set<TransferLog>)
    requires a.block <= block && b.block <= block && block < 300
    ensures Truthful({a, b}, ScanRun(block, [a, b], failed))
  {
  }

  /** A scan over two transfers of one block, in order. */
  lemma BothWritten(row: VaultRow, hub: Address, a: TransferLog, b: TransferLog)
    requires row.isDisconnected && a.block == b.block && a.logIndex < b.logIndex
    requires Relevant(row, hub, a) && Relevant(row, hub, b)
    ensures ScanTable([row], hub, [a, b], {}) == [Stamp(row, b)]
  {
    var last := ScanTakesLastLog([row], hub, [a, b], {}, 0);
    assert b in [a, b];
  }

  lemma EarlierWritten(row: VaultRow, hub: Address, a: TransferLog, b: TransferLog)
    requires row.isDisconnected && a.block == b.block && a.logIndex < b.logIndex
    requires Relevant(row, hub, a) && Relevant(row, hub, b)
    ensures ScanTable([row], hub, [a, b], {b}) == [Stamp(row, a)]
  {
    var last := ScanTakesLastLog([row], hub, [a, b], {b}, 0);
    assert a in [a, b];
  }

  // ---- A schedule of scans against one read of the state ----

  /** Scans at most one look-back apart, the first reaching back past `start`, the last at `end`. */
  ghost predicate NoGaps(runs: seq<ScanRun>, start: nat, end: nat) {
    && runs != []
    && WindowStart(runs[0].block) <= start + 1
    && (forall k | 0 <= k < |runs| - 1 :: runs[k + 1].block <= runs[k].block + OWNERSHIP_LOGS_LOOKBACK_BLOCKS)
    && runs[|runs| - 1].block == end
  }

  /** A scan covers a log exactly when it lies in the last 300 blocks up to the scan's own. */
  lemma WindowIsLast300Blocks(run: ScanRun, l: TransferLog)
    ensures InWindow(run, l) <==> l.block <= run.block < l.block + 300
  {
  }

  /** Every block after the start lies in some window. */
  lemma {:induction false} WindowsLeaveNoGap(runs: seq<ScanRun>, start: nat, end: nat, block: nat) returns (k: nat)
    requires NoGaps(runs, start, end) && start < block <= end
    ensures k < |runs| && WindowStart(runs[k].block) <= block <= runs[k].block
    decreases |runs|
  {
    k := |runs| - 1;
    if k > 0 && runs[k - 1].block >= block {
      k := WindowsLeaveNoGap(runs[..k], start, runs[k - 1].block, block);
    }
  }

  lemma {:induction false} LastCover(runs: seq<ScanRun>, m: TransferLog, k: nat)
    requires k < |runs| && InWindow(runs[k], m)
    requires forall j | 0 <= j < |runs| :: m !in runs[j].failed
    ensures Settled(runs, m)
    decreases |runs| - k
  {
    if j :| k < j < |runs| && InWindow(runs[j], m) {
      LastCover(runs, m, j);
    } else {
      assert SettledBy(runs, m, k);
    }
  }

  /** Every log of the vault is a transfer of its history and the other way round. */
  ghost predicate Emits(chain: set<TransferLog>, vault: Address, events: seq<OwnerEvent>) {
    && (forall l | l in chain && Same(vault, l.vault) ::
          OwnershipTransferred(l.block, l.logIndex, l.newOwner) in events)
    && (forall e | e in events && e.OwnershipTransferred? ::
          exists l :: l in chain && Same(vault, l.vault) && l.block == e.block && l.logIndex == e.logIndex && l.newOwner == e.newOwner)
  }

  /** The last transfer of the history, unless it went to the hub, is the log that decides the owner. */
  lemma LastTransferDecides(
      row: VaultRow, hub: Address, chain: set<TransferLog>, events: seq<OwnerEvent>, end: nat, k: int) returns (m: TransferLog)
    requires Ordered(events) && Emits(chain, row.address, events)
    requires k >= 0 && LastTransfer(events, end, k)
    requires row.ownershipBlock <= events[k].block && !Same(events[k].newOwner, hub)
    ensures Decides(chain, row, hub, end, m)
    ensures m.newOwner == events[k].newOwner && m.block == events[k].block
  {
    assert events[k] in events;
    m :| m in chain && Same(row.address, m.vault) && m.block == events[k].block && m.logIndex == events[k].logIndex
         && m.newOwner == events[k].newOwner;
    forall l | l in chain && Relevant(row, hub, l) && l.block <= end
      ensures NotAfter(l, m)
    {
      var j :| 0 <= j < |events| && events[j] == OwnershipTransferred(l.block, l.logIndex, l.newOwner);
    }
  }

  /** Without a transfer of the vault in reach, no scan changes the row. */
  lemma NothingToTake(
      rows: seq<VaultRow>, hub: Address, chain: set<TransferLog>, runs: seq<ScanRun>, i: nat, upTo: nat, events: seq<OwnerEvent>)
    requires AllTruthful(chain, runs, upTo)
    requires i < |rows| && rows[i].isDisconnected
    requires Emits(chain, rows[i].address, events)
    requires forall e | e in events && e.OwnershipTransferred? :: !(rows[i].ownershipBlock <= e.block <= upTo)
    ensures |RunScans(rows, hub, runs)| == |rows|
    ensures RunScans(rows, hub, runs)[i] == rows[i]
  {
    var stamp := RunOnlyStamps(rows, hub, chain, runs, i, upTo);
  }

  /**
   Writes may fail, any number of them; but of the scans that cover the log which decides the row's owner, the last
   one wrote it.
   */
  ghost predicate SettlesDecider(row: VaultRow, hub: Address, chain: set<TransferLog>, runs: seq<ScanRun>, end: nat) {
    forall m | Decides(chain, row, hub, end, m) && Covered(runs, m) :: Settled(runs, m)
  }

  ghost predicate Covered(runs: seq<ScanRun>, m: TransferLog) {
    exists c :: 0 <= c < |runs| && InWindow(runs[c], m)
  }

  /** A run in which that write never fails settles it. */
  lemma UnfailingRunSettles(row: VaultRow, hub: Address, chain: set<TransferLog>, runs: seq<ScanRun>, end: nat)
    requires forall m, k | Decides(chain, row, hub, end, m) && 0 <= k < |runs| :: m !in runs[k].failed
    ensures SettlesDecider(row, hub, chain, runs, end)
  {
    forall m | Decides(chain, row, hub, end, m) && Covered(runs, m)
      ensures Settled(runs, m)
    {
      var c :| 0 <= c < |runs| && InWindow(runs[c], m);
      LastCover(runs, m, c);
    }
  }

  /** The row names the owner a state read at its recorded block resolves. */
  ghost predicate RecordsOwner(row: VaultRow, hub: Address, genesis: OwnerState, events: seq<OwnerEvent>) {
    row.effectiveOwner == ResolveDisconnectedEffectiveOwner(StateAt(genesis, events, row.ownershipBlock), hub)
  }

  /** When the last transfer lies before a block, none lies from there on. */
  lemma NoTransferInReach(events: seq<OwnerEvent>, start: nat, end: nat, k: int)
    requires Ordered(events) && LastTransfer(events, end, k) && (k < 0 || events[k].block < start)
    ensures forall e | e in events && e.OwnershipTransferred? :: !(start <= e.block <= end)
  {
    forall e | e in events && e.OwnershipTransferred?
      ensures !(start <= e.block <= end)
    {
      var j :| 0 <= j < |events| && events[j] == e;
    }
  }

  /**
   The scan refines the state read. A disconnected row whose owner was right at its recorded block is followed
   by gapless scans up to a block, whose writes may fail as long as the deciding one is made good. If the vault is not owned by the hub there, the row names its owner, whatever
   transfers (to the hub and back, too) happened in between, and it is right again at the block it then records.
   */
  lemma ScanRefinesStateRead(
      rows: seq<VaultRow>, hub: Address, chain: set<TransferLog>, runs: seq<ScanRun>, i: nat, end: nat,
      genesis: OwnerState, events: seq<OwnerEvent>)
    requires UniquePositions(chain) && AllTruthful(chain, runs, end)
    requires i < |rows| && rows[i].isDisconnected && rows[i].ownershipBlock <= end
    requires SettlesDecider(rows[i], hub, chain, runs, end)
    requires Ordered(events) && Emits(chain, rows[i].address, events)
    requires RecordsOwner(rows[i], hub, genesis, events)
    requires NoGaps(runs, rows[i].ownershipBlock, end)
    requires !Same(StateAt(genesis, events, end).owner, hub)
    ensures |RunScans(rows, hub, runs)| == |rows|
    ensures RunScans(rows, hub, runs)[i].effectiveOwner == Some(StateAt(genesis, events, end).owner)
    ensures RecordsOwner(RunScans(rows, hub, runs)[i], hub, genesis, events)
  {
    var row := rows[i];
    var k := OwnerIsLastTransfer(genesis, events, end);
    if k >= 0 && events[k].block >= row.ownershipBlock {
      var m := LastTransferDecides(row, hub, chain, events, end, k);
      DecidingOwnerIsKept(rows, hub, chain, runs, i, end, genesis, events, m, k);
    } else {
      NoTransferInReach(events, row.ownershipBlock, end, k);
      NothingToTake(rows, hub, chain, runs, i, end, events);
      OwnerStandsStill(genesis, events, row.ownershipBlock, end);
    }
  }

  /** So the scans leave exactly the owner the reconcile job, run at the same block over the first table, leaves. */
  lemma ScanAgreesWithReconcile(
      rows: seq<VaultRow>, hub: Address, chain: set<TransferLog>, runs: seq<ScanRun>, i: nat, end: nat,
      genesis: OwnerState, events: seq<OwnerEvent>, ownership: map<Address, OwnerState>)
    requires UniquePositions(chain) && AllTruthful(chain, runs, end)
    requires i < |rows| && rows[i].isDisconnected && rows[i].ownershipBlock <= end
    requires SettlesDecider(rows[i], hub, chain, runs, end)
    requires Ordered(events) && Emits(chain, rows[i].address, events)
    requires RecordsOwner(rows[i], hub, genesis, events)
    requires NoGaps(runs, rows[i].ownershipBlock, end)
    requires rows[i].address in ownership && ReadsState(rows[i], ownership, StateAt(genesis, events, end))
    requires !Same(StateAt(genesis, events, end).owner, hub)
             || (NoTransferToHub(events, hub, rows[i].ownershipBlock, end)
                 && StateAt(genesis, events, end).pendingOwner == StateAt(genesis, events, rows[i].ownershipBlock).pendingOwner)
    ensures |RunScans(rows, hub, runs)| == |ReconcileTable(rows, hub, ownership, end, {})| == |rows|
    ensures RunScans(rows, hub, runs)[i].effectiveOwner == ReconcileTable(rows, hub, ownership, end, {})[i].effectiveOwner
  {
    ReconcileSetsOwner(rows, hub, ownership, end, i);
    if Same(StateAt(genesis, events, end).owner, hub) {
      HubOwnedAgreesIff(rows, hub, chain, runs, i, end, genesis, events);
    } else {
      ScanRefinesStateRead(rows, hub, chain, runs, i, end, genesis, events);
    }
  }

  /** The gapless run ends with the deciding owner, also when its log lies at the recorded block itself. */
  lemma DecidingOwnerIsKept(
      rows: seq<VaultRow>, hub: Address, chain: set<TransferLog>, runs: seq<ScanRun>, i: nat, end: nat,
      genesis: OwnerState, events: seq<OwnerEvent>, m: TransferLog, last: nat)
    requires UniquePositions(chain) && AllTruthful(chain, runs, end)
    requires i < |rows| && rows[i].isDisconnected
    requires SettlesDecider(rows[i], hub, chain, runs, end)
    requires Ordered(events) && LastTransfer(events, end, last)
    requires RecordsOwner(rows[i], hub, genesis, events)
    requires NoGaps(runs, rows[i].ownershipBlock, end)
    requires Decides(chain, rows[i], hub, end, m) && m.newOwner == events[last].newOwner && m.block == events[last].block
    requires StateAt(genesis, events, end).owner == m.newOwner
    ensures |RunScans(rows, hub, runs)| == |rows|
    ensures RunScans(rows, hub, runs)[i].effectiveOwner == Some(m.newOwner)
    ensures RecordsOwner(RunScans(rows, hub, runs)[i], hub, genesis, events)
  {
    var row := rows[i];
    if c :| 0 <= c < |runs| && InWindow(runs[c], m) {
      assert Covered(runs, m);
      RunsSelfHeal(rows, hub, chain, runs, i, end, m);
      OwnerAtRecordedBlock(m.block, end, genesis, events, last);
    } else {
      UncoveredLogIsRecorded(runs, row.ownershipBlock, end, m);
      UncoveredBlockIsUntouched(rows, hub, chain, runs, i, end, m);
      OwnerAtRecordedBlock(row.ownershipBlock, end, genesis, events, last);
    }
  }

  lemma UncoveredLogIsRecorded(runs: seq<ScanRun>, start: nat, end: nat, m: TransferLog)
    requires NoGaps(runs, start, end) && start <= m.block <= end
    requires forall c | 0 <= c < |runs| :: !InWindow(runs[c], m)
    ensures m.block == start
  {
    if m.block > start {
      var c := WindowsLeaveNoGap(runs, start, end, m.block);
      assert InWindow(runs[c], m);
    }
  }

  lemma UncoveredBlockIsUntouched(
      rows: seq<VaultRow>, hub: Address, chain: set<TransferLog>, runs: seq<ScanRun>, i: nat, end: nat, m: TransferLog)
    requires AllTruthful(chain, runs, end)
    requires i < |rows| && rows[i].isDisconnected
    requires Decides(chain, rows[i], hub, end, m) && m.block == rows[i].ownershipBlock
    requires forall c | 0 <= c < |runs| :: !InWindow(runs[c], m)
    ensures |RunScans(rows, hub, runs)| == |rows|
    ensures RunScans(rows, hub, runs)[i] == rows[i]
  {
    var stamp := RunOnlyStamps(rows, hub, chain, runs, i, end);
  }

  /** When the last transfer lies at the recorded block, the owner read there is already the one it names. */
  lemma OwnerAtRecordedBlock(start: nat, end: nat, genesis: OwnerState, events: seq<OwnerEvent>, last: nat)
    requires Ordered(events) && LastTransfer(events, end, last) && events[last].block == start
    ensures StateAt(genesis, events, start).owner == StateAt(genesis, events, end).owner
  {
    forall e | e in events && e.OwnershipTransferred?
      ensures !(start < e.block <= end)
    {
      var j :| 0 <= j < |events| && events[j] == e;
    }
    OwnerStandsStill(genesis, events, start, end);
  }

  ghost predicate NoTransferToHub(events: seq<OwnerEvent>, hub: Address, from: nat, to: nat) {
    forall e | e in events && e.OwnershipTransferred? && Same(e.newOwner, hub) :: !(from <= e.block <= to)
  }

  /**
   The other half. While the hub owns the vault the handover is only visible in the pending owner, which no log
   of the scan shows: with no transfer to the hub in reach, the scan and the state read agree exactly when the
   pending owner is still the one recorded.
   */
  lemma HubOwnedAgreesIff(
      rows: seq<VaultRow>, hub: Address, chain: set<TransferLog>, runs: seq<ScanRun>, i: nat, end: nat,
      genesis: OwnerState, events: seq<OwnerEvent>)
    requires AllTruthful(chain, runs, end)
    requires i < |rows| && rows[i].isDisconnected && rows[i].ownershipBlock <= end
    requires Ordered(events) && Emits(chain, rows[i].address, events)
    requires RecordsOwner(rows[i], hub, genesis, events)
    requires NoTransferToHub(events, hub, rows[i].ownershipBlock, end)
    requires Same(StateAt(genesis, events, end).owner, hub)
    ensures |RunScans(rows, hub, runs)| == |rows|
    ensures RunScans(rows, hub, runs)[i] == rows[i]
    ensures RunScans(rows, hub, runs)[i].effectiveOwner
            == ResolveDisconnectedEffectiveOwner(StateAt(genesis, events, end), hub)
            <==> StateAt(genesis, events, end).pendingOwner == StateAt(genesis, events, rows[i].ownershipBlock).pendingOwner
  {
    var start := rows[i].ownershipBlock;
    var k := OwnerIsLastTransfer(genesis, events, end);
    if k >= 0 {
      assert events[k] in events;
    }
    NoTransferInReach(events, start, end, k);
    NothingToTake(rows, hub, chain, runs, i, end, events);
    OwnerStandsStill(genesis, events, start, end);
  }

  /** Gapless scans leave the stamp of the deciding log they cover, or the row as it was. */
  lemma GaplessScansLeave(
      rows: seq<VaultRow>, hub: Address, chain: set<TransferLog>, runs: seq<ScanRun>, i: nat, end: nat) returns (m: Option<TransferLog>)
    requires UniquePositions(chain) && AllTruthful(chain, runs, end)
    requires i < |rows| && rows[i].isDisconnected
    requires SettlesDecider(rows[i], hub, chain, runs, end)
    requires NoGaps(runs, rows[i].ownershipBlock, end)
    ensures m.Some? ==> Decides(chain, rows[i], hub, end, m.value) && Covered(runs, m.value)
    ensures m.None? ==> forall l | Decides(chain, rows[i], hub, end, l) :: !Covered(runs, l)
    ensures |RunScans(rows, hub, runs)| == |rows|
    ensures RunScans(rows, hub, runs)[i] == if m.Some? then Stamp(rows[i], m.value) else rows[i]
  {
    m := None;
    if l :| Decides(chain, rows[i], hub, end, l) {
      if c :| 0 <= c < |runs| && InWindow(runs[c], l) {
        m := Some(l);
        assert Covered(runs, l);
        RunsSelfHeal(rows, hub, chain, runs, i, end, l);
      } else {
        UncoveredLogIsRecorded(runs, rows[i].ownershipBlock, end, l);
        UncoveredBlockIsUntouched(rows, hub, chain, runs, i, end, l);
        forall l' | Decides(chain, rows[i], hub, end, l')
          ensures !Covered(runs, l')
        {
          assert NotAfter(l', l) && NotAfter(l, l');
        }
      }
    } else {
      UndecidedRowIsUntouched(rows, hub, chain, runs, i, end);
    }
  }

  /**
   When the scans leave what the reconcile job would, for every history. Always while somebody else than the hub owns
   the vault. While the hub does, the job records the pending owner, if there is one, and the scans the last owner
   before the hub that they saw: they agree exactly when those are the same, or when there is no pending owner and
   the scans leave the owner the row had.
   */
  lemma ScanAgreesWithReconcileIff(
      rows: seq<VaultRow>, hub: Address, chain: set<TransferLog>, runs: seq<ScanRun>, i: nat, end: nat,
      genesis: OwnerState, events: seq<OwnerEvent>, ownership: map<Address, OwnerState>) returns (m: Option<TransferLog>)
    requires UniquePositions(chain) && AllTruthful(chain, runs, end)
    requires i < |rows| && rows[i].isDisconnected && rows[i].ownershipBlock <= end
    requires SettlesDecider(rows[i], hub, chain, runs, end)
    requires Ordered(events) && Emits(chain, rows[i].address, events)
    requires RecordsOwner(rows[i], hub, genesis, events)
    requires NoGaps(runs, rows[i].ownershipBlock, end)
    requires rows[i].address in ownership && ReadsState(rows[i], ownership, StateAt(genesis, events, end))
    ensures m.Some? ==> Decides(chain, rows[i], hub, end, m.value) && Covered(runs, m.value)
    ensures m.None? ==> forall l | Decides(chain, rows[i], hub, end, l) :: !Covered(runs, l)
    ensures |RunScans(rows, hub, runs)| == |ReconcileTable(rows, hub, ownership, end, {})| == |rows|
    ensures var state := StateAt(genesis, events, end);
            RunScans(rows, hub, runs)[i].effectiveOwner == ReconcileTable(rows, hub, ownership, end, {})[i].effectiveOwner
            <==>
              || !Same(state.owner, hub)
              || (var seen := if m.Some? then Some(m.value.newOwner) else rows[i].effectiveOwner;
                  seen == if state.pendingOwner == ZERO_ADDRESS then rows[i].effectiveOwner else Some(state.pendingOwner))
  {
    ReconcileSetsOwner(rows, hub, ownership, end, i);
    m := GaplessScansLeave(rows, hub, chain, runs, i, end);
    if !Same(StateAt(genesis, events, end).owner, hub) {
      ScanRefinesStateRead(rows, hub, chain, runs, i, end, genesis, events);
    }
  }

  /** The case the scan cannot see: the hub renames the pending owner. The reconcile job is behind it. */
  lemma HubRenamingPendingOwnerIsMissed(vault: Address, hub: Address, first: Address, second: Address)
    requires !Same(first, hub) && !Same(second, hub) && first != second
    requires first != ZERO_ADDRESS && second != ZERO_ADDRESS
    ensures var row := VaultRow(1, vault, true, Some(first), None, 10, 0, {});
            var events := [TransferStarted(10, 0, first), TransferStarted(20, 0, second)];
            var runs := [ScanRun(20, [], {})];
            && row.effectiveOwner == ResolveDisconnectedEffectiveOwner(StateAt(OwnerState(hub, ZERO_ADDRESS), events, 10), hub)
            && NoGaps(runs, 10, 20) && AllTruthful({}, runs, 20) && Emits({}, vault, events)
            && RunScans([row], hub, runs) == [row]
            && ReconciledOwner(row, StateAt(OwnerState(hub, ZERO_ADDRESS), events, 20), hub) == Some(second)
  {
    var row := VaultRow(1, vault, true, Some(first), None, 10, 0, {});
    var genesis := OwnerState(hub, ZERO_ADDRESS);
    var events := [TransferStarted(10, 0, first), TransferStarted(20, 0, second)];
    var runs := [ScanRun(20, [], {})];
    assert events[..1] == [TransferStarted(10, 0, first)] && events[..1][..0] == [];
    assert StateAt(genesis, events[..1], 10) == StateAt(genesis, events[..1], 20) == OwnerState(hub, first);
    var stamp := RunOnlyStamps([row], hub, {}, runs, 0, 20);
  }
}
