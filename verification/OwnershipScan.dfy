/**
 The sliding-window scan of `OwnershipTransferred` logs, and why it may stand in for reading the ownership of
 every disconnected vault.
 */
module OwnershipScan {
  import opened Addresses
  import opened Wrappers
  import opened VaultRows
  import opened VaultDb
  import opened OwnershipOrder
  import opened OwnershipChain
  import opened Sequences

  const OWNERSHIP_LOGS_LOOKBACK_BLOCKS := 300

  function WindowStart(block: nat): nat {
    if block - OWNERSHIP_LOGS_LOOKBACK_BLOCKS + 1 > 0 then block - OWNERSHIP_LOGS_LOOKBACK_BLOCKS + 1 else 0
  }

  // ---- One scan ----

  predicate NotAfter(a: TransferLog, b: TransferLog) {
    a.block < b.block || (a.block == b.block && a.logIndex <= b.logIndex)
  }

  ghost predicate Sorted(logs: seq<TransferLog>) {
    forall i, j | 0 <= i < j < |logs| :: NotAfter(logs[i], logs[j])
  }

  function Insert(l: TransferLog, logs: seq<TransferLog>): seq<TransferLog> {
    var n := |logs| - 1;
    if logs == [] || NotAfter(logs[n], l) then logs + [l] else Insert(l, logs[..n]) + [logs[n]]
  }

  /** Chain order: by block, then by log index. */
  function SortLogs(logs: seq<TransferLog>): seq<TransferLog> {
    if logs == [] then [] else Insert(logs[|logs| - 1], SortLogs(logs[..|logs| - 1]))
  }

  lemma {:induction false} InsertPermutes(l: TransferLog, logs: seq<TransferLog>)
    ensures multiset(Insert(l, logs)) == multiset(logs + [l])
  {
    var n := |logs| - 1;
    if logs != [] && !NotAfter(logs[n], l) {
      InsertPermutes(l, logs[..n]);
      assert logs == logs[..n] + [logs[n]];
    }
  }

  lemma {:induction false} InsertKeepsOrder(l: TransferLog, logs: seq<TransferLog>)
    requires Sorted(logs)
    ensures Sorted(Insert(l, logs))
  {
    var n := |logs| - 1;
    if logs != [] {
      var rest := Insert(l, logs[..n]);
      if NotAfter(logs[n], l) {
        forall x | x in logs
          ensures NotAfter(x, l)
        {
          var i :| 0 <= i < |logs| && logs[i] == x;
          assert i < n ==> NotAfter(logs[i], logs[n]);
        }
        SortedBack(logs, l);
      } else {
        InsertKeepsOrder(l, logs[..n]);
        InsertPermutes(l, logs[..n]);
        forall x | x in rest
          ensures NotAfter(x, logs[n])
        {
          assert x in multiset(rest);
          assert x in logs[..n] + [l];
        }
        SortedBack(rest, logs[n]);
      }
    }
  }

  lemma SortedBack(logs: seq<TransferLog>, l: TransferLog)
    requires Sorted(logs) && forall x | x in logs :: NotAfter(x, l)
    ensures Sorted(logs + [l])
  {
  }

  lemma {:induction false} SortLogsSorts(logs: seq<TransferLog>)
    ensures Sorted(SortLogs(logs))
    ensures multiset(SortLogs(logs)) == multiset(logs)
  {
    if logs != [] {
      var n := |logs| - 1;
      SortLogsSorts(logs[..n]);
      InsertKeepsOrder(logs[n], SortLogs(logs[..n]));
      InsertPermutes(logs[n], SortLogs(logs[..n]));
      assert logs == logs[..n] + [logs[n]];
    }
  }

  function LowerSet(addresses: seq<Address>): set<Address> {
    set a | a in addresses :: Lower(a)
  }

  /** The logs of the vaults that were disconnected when the scan began. */
  function OfVaults(logs: seq<TransferLog>, vaults: set<Address>): (r: seq<TransferLog>)
    ensures forall l :: l in r <==> l in logs && Lower(l.vault) in vaults
  {
    if logs == [] then []
    else if Lower(logs[0].vault) in vaults then [logs[0]] + OfVaults(logs[1..], vaults)
    else OfVaults(logs[1..], vaults)
  }

  /** The writes a pass over the sorted logs makes: transfers to the hub are skipped, failed ones change nothing. */
  function ScanWrites(logs: seq<TransferLog>, hub: Address, failed: set<TransferLog>): seq<OwnershipWrite> {
    if logs == [] then []
    else
      var n := |logs| - 1;
      var before := ScanWrites(logs[..n], hub, failed);
      if Same(logs[n].newOwner, hub) || logs[n] in failed then before
      else before + [TransferWrite(logs[n].vault, logs[n].newOwner, logs[n].block, true)]
  }

  function ScannedLogs(rows: seq<VaultRow>, logs: seq<TransferLog>): seq<TransferLog> {
    SortLogs(OfVaults(logs, LowerSet(AddressesOf(rows, true))))
  }

  function ScanTable(rows: seq<VaultRow>, hub: Address, logs: seq<TransferLog>, failed: set<TransferLog>): seq<VaultRow> {
    Replay(rows, AsSteps(ScanWrites(ScannedLogs(rows, logs), hub, failed)))
  }

  predicate IsScanStep(step: DbStep, hub: Address) {
    IsGuardedOwnerWrite(step) && !NamesHub(step, hub)
  }

  lemma {:induction false} ScanWritesAreScanSteps(logs: seq<TransferLog>, hub: Address, failed: set<TransferLog>)
    ensures forall step | step in AsSteps(ScanWrites(logs, hub, failed)) :: IsScanStep(step, hub)
  {
    if logs != [] {
      var n := |logs| - 1;
      ScanWritesAreScanSteps(logs[..n], hub, failed);
      var before := ScanWrites(logs[..n], hub, failed);
      forall k | 0 <= k < |ScanWrites(logs, hub, failed)|
        ensures IsScanStep(AsSteps(ScanWrites(logs, hub, failed))[k], hub)
      {
        if k < |before| {
          assert AsSteps(before)[k] in AsSteps(before);
        }
      }
    }
  }

  lemma {:induction false} OfNoVaults(logs: seq<TransferLog>)
    ensures OfVaults(logs, {}) == []
  {
    if logs != [] {
      OfNoVaults(logs[1..]);
    }
  }

  lemma NothingToScan(rows: seq<VaultRow>, hub: Address, logs: seq<TransferLog>, failed: set<TransferLog>)
    requires AddressesOf(rows, true) == []
    ensures ScanTable(rows, hub, logs, failed) == rows
  {
    assert LowerSet([]) == {};
    OfNoVaults(logs);
  }

  /** The statements of the first logs are issued. */
  ghost predicate ScannedUpTo(
      db: VaultDbService, before: seq<DbStep>, logs: seq<TransferLog>, k: nat, hub: Address, failed: set<TransferLog>)
    requires k <= |logs|
    reads db
  {
    db.trace == before + AsSteps(ScanWrites(logs[..k], hub, failed))
  }

  /** One log of the scan. */
  method TakeLog(
      db: VaultDbService, logs: seq<TransferLog>, k: nat, hub: Address, failed: set<TransferLog>, ghost before: seq<DbStep>)
    requires db.Valid() && k < |logs| && ScannedUpTo(db, before, logs, k, hub, failed)
    modifies db
    ensures db.Valid() && ScannedUpTo(db, before, logs, k + 1, hub, failed)
  {
    var log := logs[k];
    TakeOneMore(logs, k);
    if !Same(log.newOwner, hub) && log !in failed {
      ghost var writes := ScanWrites(logs[..k], hub, failed);
      ghost var write := TransferWrite(log.vault, log.newOwner, log.block, true);
      AsStepsOneMore(writes, write);
      Assoc(before, AsSteps(writes), [WriteOwnership(write)]);
      db.UpdateVaultOwnership(log.vault, log.newOwner, log.block, true);
    }
  }

  /**
   One scan at a block. The read of the disconnected vaults may throw (`readFails`), and so may the provider (`None`
   from `getLogs`), and then so does the scan; the writes of the logs in `failed` throw and are isolated. Every
   statement issued is a guarded owner write.
   */
  method SyncDisconnectedVaultOwnersFromLogs(
      db: VaultDbService, hub: Address, readFails: bool, getLogs: (nat, nat) -> Option<seq<TransferLog>>, blockNumber: nat,
      failed: set<TransferLog>)
    returns (ok: bool)
    requires db.Valid()
    modifies db
    ensures db.Valid()
    ensures ok <==> !readFails && (AddressesOf(old(db.vaults), true) == [] || getLogs(WindowStart(blockNumber), blockNumber).Some?)
    ensures db.vaults ==
            if readFails || getLogs(WindowStart(blockNumber), blockNumber).None? then old(db.vaults)
            else ScanTable(old(db.vaults), hub, getLogs(WindowStart(blockNumber), blockNumber).value, failed)
    ensures exists steps :: db.trace == old(db.trace) + steps && forall step | step in steps :: IsScanStep(step, hub)
  {
    if readFails {
      assert db.trace == old(db.trace) + [];
      return false;
    }
    var vaults := db.GetVaultAddresses(true);
    var fromBlock := WindowStart(blockNumber);
    var answer := getLogs(fromBlock, blockNumber);
    if vaults == [] {
      if answer.Some? {
        NothingToScan(db.vaults, hub, answer.value, failed);
      }
      assert db.trace == old(db.trace) + [];
      return true;
    }
    if answer.None? {
      assert db.trace == old(db.trace) + [];
      return false;
    }
    var vaultLogs := ScannedLogs(db.vaults, answer.value);
    ghost var before := db.trace;
    assert ScannedUpTo(db, before, vaultLogs, 0, hub, failed);
    for k := 0 to |vaultLogs|
      invariant db.Valid() && ScannedUpTo(db, before, vaultLogs, k, hub, failed)
    {
      TakeLog(db, vaultLogs, k, hub, failed, before);
    }
    TakeAll(vaultLogs);
    ReplayConcat(db.initial, before, AsSteps(ScanWrites(vaultLogs, hub, failed)));
    ScanWritesAreScanSteps(vaultLogs, hub, failed);
    ok := true;
  }

  // ---- What one scan does to a row ----

  /** A log the scan may apply to the row. */
  ghost predicate Relevant(row: VaultRow, hub: Address, l: TransferLog) {
    Same(row.address, l.vault) && !Same(l.newOwner, hub) && row.ownershipBlock <= l.block
  }

  function Stamp(row: VaultRow, l: TransferLog): VaultRow {
    row.(effectiveOwner := Some(l.newOwner), ownershipBlock := l.block)
  }

  lemma PassOneMore(row: VaultRow, hub: Address, logs: seq<TransferLog>, failed: set<TransferLog>, l: TransferLog)
    ensures var before := Deliver(row, ScanWrites(logs, hub, failed));
            Deliver(row, ScanWrites(logs + [l], hub, failed))
            == if Same(l.newOwner, hub) || l in failed || !Accepts(before, TransferWrite(l.vault, l.newOwner, l.block, true))
               then before else Stamp(before, l)
  {
    assert (logs + [l])[..|logs|] == logs;
    DeliverOneMore(row, ScanWrites(logs, hub, failed), TransferWrite(l.vault, l.newOwner, l.block, true));
  }

  /** The closed form of a pass: the row takes the last relevant log that was written, in chain order. */
  lemma {:induction false} PassTakesLastLog(row: VaultRow, hub: Address, logs: seq<TransferLog>, failed: set<TransferLog>)
    returns (last: Option<TransferLog>)
    requires row.isDisconnected && Sorted(logs)
    ensures last.None? ==> forall l | l in logs && Relevant(row, hub, l) :: l in failed
    ensures last.Some? ==> last.value in logs && Relevant(row, hub, last.value) && last.value !in failed
    ensures last.Some? ==> forall l | l in logs && Relevant(row, hub, l) && l !in failed :: NotAfter(l, last.value)
    ensures Deliver(row, ScanWrites(logs, hub, failed)) == if last.Some? then Stamp(row, last.value) else row
  {
    last := None;
    if logs != [] {
      var n := |logs| - 1;
      var init, l := logs[..n], logs[n];
      assert logs == init + [l];
      last := PassTakesLastLog(row, hub, init, failed);
      PassOneMore(row, hub, init, failed, l);
      forall e | e in init
        ensures NotAfter(e, l)
      {
        var k :| 0 <= k < n && logs[k] == e;
      }
      if Relevant(row, hub, l) && l !in failed {
        last := Some(l);
      }
    }
  }

  lemma ScanRowwise(rows: seq<VaultRow>, hub: Address, logs: seq<TransferLog>, failed: set<TransferLog>, i: nat)
    requires i < |rows|
    ensures |ScanTable(rows, hub, logs, failed)| == |rows|
    ensures ScanTable(rows, hub, logs, failed)[i] == Deliver(rows[i], ScanWrites(ScannedLogs(rows, logs), hub, failed))
  {
    var ws := ScanWrites(ScannedLogs(rows, logs), hub, failed);
    ReplayIsRowwise(rows, AsSteps(ws), i);
    ReplayIsDelivery(rows[i], ws);
    WritesAddNoRow(rows, ws);
  }

  /** The closed form on the whole table and on the provider's unsorted answer. */
  lemma ScanTakesLastLog(rows: seq<VaultRow>, hub: Address, logs: seq<TransferLog>, failed: set<TransferLog>, i: nat)
    returns (last: Option<TransferLog>)
    requires i < |rows| && rows[i].isDisconnected
    ensures last.None? ==> forall l | l in logs && Relevant(rows[i], hub, l) :: l in failed
    ensures last.Some? ==> last.value in logs && Relevant(rows[i], hub, last.value) && last.value !in failed
    ensures last.Some? ==> forall l | l in logs && Relevant(rows[i], hub, l) && l !in failed :: NotAfter(l, last.value)
    ensures |ScanTable(rows, hub, logs, failed)| == |rows|
    ensures ScanTable(rows, hub, logs, failed)[i] == if last.Some? then Stamp(rows[i], last.value) else rows[i]
  {
    ScanRowwise(rows, hub, logs, failed, i);
    var scanned := ScannedLogs(rows, logs);
    SortLogsSorts(OfVaults(logs, LowerSet(AddressesOf(rows, true))));
    last := PassTakesLastLog(rows[i], hub, scanned, failed);
    forall l | l in logs && Relevant(rows[i], hub, l)
      ensures l in scanned
    {
      assert rows[i].address in AddressesOf(rows, true);
      assert Lower(l.vault) in LowerSet(AddressesOf(rows, true));
      assert l in multiset(OfVaults(logs, LowerSet(AddressesOf(rows, true))));
      assert l in multiset(scanned);
    }
    forall l | l in scanned
      ensures l in logs
    {
      assert l in multiset(scanned);
    }
  }

  /** A connected row is left exactly as it was. */
  lemma {:induction false} ScanSkipsConnected(row: VaultRow, hub: Address, logs: seq<TransferLog>, failed: set<TransferLog>)
    requires !row.isDisconnected
    ensures Deliver(row, ScanWrites(logs, hub, failed)) == row
  {
    if logs != [] {
      var before := ScanWrites(logs[..|logs| - 1], hub, failed);
      ScanSkipsConnected(row, hub, logs[..|logs| - 1], failed);
      var ws := ScanWrites(logs, hub, failed);
      assert ws != before ==> ws[..|ws| - 1] == before;
    }
  }
}
