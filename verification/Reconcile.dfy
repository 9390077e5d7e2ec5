/** The state-based reconcile of disconnected vaults: one ownership read a vault, one guarded write each. */
module Reconcile {
  import opened Limits
  import opened Addresses
  import opened Wrappers
  import opened VaultRows
  import opened VaultDb
  import opened OwnershipOrder
  import opened OwnershipChain
  import opened Sequences

  /** The read of this vault succeeds, names an owner, and its write does not throw. */
  predicate Writes(a: Address, hub: Address, ownership: map<Address, OwnerState>, failed: set<Address>) {
    a in ownership && a !in failed && ResolveDisconnectedEffectiveOwner(ownership[a], hub).Some?
  }

  function ReconcileWrites(
      vaults: seq<Address>, hub: Address, ownership: map<Address, OwnerState>, block: nat, failed: set<Address>): seq<OwnershipWrite> {
    if vaults == [] then []
    else
      var n := |vaults| - 1;
      var before := ReconcileWrites(vaults[..n], hub, ownership, block, failed);
      if Writes(vaults[n], hub, ownership, failed)
      then before + [TransferWrite(vaults[n], ResolveDisconnectedEffectiveOwner(ownership[vaults[n]], hub).value, block, true)]
      else before
  }

  function ReconcileTable(
      rows: seq<VaultRow>, hub: Address, ownership: map<Address, OwnerState>, block: nat, failed: set<Address>): seq<VaultRow> {
    Replay(rows, AsSteps(ReconcileWrites(AddressesOf(rows, true), hub, ownership, block, failed)))
  }

  /** Every statement of the job is a guarded owner write at its block, naming the owner resolved for its vault. */
  lemma {:induction false} ReconcileWritesResolvedOwners(
      vaults: seq<Address>, hub: Address, ownership: map<Address, OwnerState>, block: nat, failed: set<Address>, k: nat)
    requires k < |ReconcileWrites(vaults, hub, ownership, block, failed)|
    ensures var w := ReconcileWrites(vaults, hub, ownership, block, failed)[k];
            && IsGuardedOwnerWrite(WriteOwnership(w))
            && w.block == block
            && w.vault in ownership
            && w.owner == ResolveDisconnectedEffectiveOwner(ownership[w.vault], hub)
  {
    var n := |vaults| - 1;
    if k < |ReconcileWrites(vaults[..n], hub, ownership, block, failed)| {
      ReconcileWritesResolvedOwners(vaults[..n], hub, ownership, block, failed, k);
    }
  }

  /** The job never names the hub, unless the hub was made its own pending owner. */
  lemma ReconcileSparesHub(vaults: seq<Address>, hub: Address, ownership: map<Address, OwnerState>, block: nat, failed: set<Address>)
    requires forall a | a in ownership :: !Same(ownership[a].pendingOwner, hub)
    ensures SparesHub(AsSteps(ReconcileWrites(vaults, hub, ownership, block, failed)), hub)
  {
    var ws := ReconcileWrites(vaults, hub, ownership, block, failed);
    forall k | 0 <= k < |ws|
      ensures !NamesHub(WriteOwnership(ws[k]), hub)
    {
      ReconcileWritesResolvedOwners(vaults, hub, ownership, block, failed, k);
      ResolvedIsNotHub(ownership[ws[k].vault], hub);
    }
  }

  /** The statements of the first vaults are issued. */
  ghost predicate ReconciledUpTo(
      db: VaultDbService, before: seq<DbStep>, vaults: seq<Address>, k: nat,
      hub: Address, ownership: map<Address, OwnerState>, block: nat, failed: set<Address>)
    requires k <= |vaults|
    reads db
  {
    db.trace == before + AsSteps(ReconcileWrites(vaults[..k], hub, ownership, block, failed))
  }

  lemma ReconcileWritesOneMore(
      vaults: seq<Address>, k: nat, hub: Address, ownership: map<Address, OwnerState>, block: nat, failed: set<Address>)
    requires k < |vaults|
    ensures var before := ReconcileWrites(vaults[..k], hub, ownership, block, failed);
            AsSteps(ReconcileWrites(vaults[..k + 1], hub, ownership, block, failed)) ==
              if Writes(vaults[k], hub, ownership, failed)
              then AsSteps(before) + [WriteOwnership(TransferWrite(
                vaults[k], ResolveDisconnectedEffectiveOwner(ownership[vaults[k]], hub).value, block, true))]
              else AsSteps(before)
  {
    TakeOneMore(vaults, k);
    if Writes(vaults[k], hub, ownership, failed) {
      AsStepsOneMore(ReconcileWrites(vaults[..k], hub, ownership, block, failed), TransferWrite(
        vaults[k], ResolveDisconnectedEffectiveOwner(ownership[vaults[k]], hub).value, block, true));
    }
  }

  /** One vault of a batch. */
  method ReconcileVault(
      db: VaultDbService, vaults: seq<Address>, k: nat, hub: Address, ownership: map<Address, OwnerState>, blockNumber: nat,
      failed: set<Address>, ghost before: seq<DbStep>)
    requires db.Valid() && k < |vaults| && ReconciledUpTo(db, before, vaults, k, hub, ownership, blockNumber, failed)
    modifies db
    ensures db.Valid() && ReconciledUpTo(db, before, vaults, k + 1, hub, ownership, blockNumber, failed)
  {
    ReconcileWritesOneMore(vaults, k, hub, ownership, blockNumber, failed);
    if Writes(vaults[k], hub, ownership, failed) {
      var effectiveOwner := ResolveDisconnectedEffectiveOwner(ownership[vaults[k]], hub).value;
      Assoc(before, AsSteps(ReconcileWrites(vaults[..k], hub, ownership, blockNumber, failed)),
            [WriteOwnership(TransferWrite(vaults[k], effectiveOwner, blockNumber, true))]);
      db.UpdateVaultOwnership(vaults[k], effectiveOwner, blockNumber, true);
    }
  }

  method ReconcileBatch(
      db: VaultDbService, vaults: seq<Address>, from: nat, to: nat, hub: Address, ownership: map<Address, OwnerState>, blockNumber: nat,
      failed: set<Address>, ghost before: seq<DbStep>)
    requires db.Valid() && from <= to <= |vaults| && ReconciledUpTo(db, before, vaults, from, hub, ownership, blockNumber, failed)
    modifies db
    ensures db.Valid() && ReconciledUpTo(db, before, vaults, to, hub, ownership, blockNumber, failed)
  {
    for k := from to to
      invariant db.Valid() && ReconciledUpTo(db, before, vaults, k, hub, ownership, blockNumber, failed)
    {
      ReconcileVault(db, vaults, k, hub, ownership, blockNumber, failed, before);
    }
  }

  /**
   The daily job. The read of the disconnected vaults may throw, and then so does the job. A vault missing from
   `ownership` is one whose read throws; `failed` are the vaults whose write throws. Both are isolated per vault. With
   a batch size below one `chunk` yields no batches at all.
   */
  method ReconcileDisconnectedVaultOwners(
      db: VaultDbService, hub: Address, ownership: map<Address, OwnerState>, blockNumber: nat, failed: set<Address>, batchSize: int,
      readFails: bool)
    returns (ok: bool)
    requires db.Valid()
    modifies db
    ensures db.Valid()
    ensures ok <==> !readFails
    ensures ok && batchSize >= 1 ==> db.vaults == ReconcileTable(old(db.vaults), hub, ownership, blockNumber, failed)
    ensures ok && batchSize >= 1 ==>
              db.trace == old(db.trace) + AsSteps(ReconcileWrites(AddressesOf(old(db.vaults), true), hub, ownership, blockNumber, failed))
    ensures !ok || batchSize < 1 ==> db.vaults == old(db.vaults) && db.trace == old(db.trace)
  {
    ok := !readFails;
    if !ok {
      return;
    }
    var vaults := db.GetVaultAddresses(true);
    if batchSize < 1 {
      return;
    }
    ghost var before := db.trace;
    var start := 0;
    assert ReconciledUpTo(db, before, vaults, 0, hub, ownership, blockNumber, failed);
    while start < |vaults|
      invariant db.Valid() && ReconciledUpTo(db, before, vaults, Min(start, |vaults|), hub, ownership, blockNumber, failed)
    {
      ReconcileBatch(db, vaults, start, Min(start + batchSize, |vaults|), hub, ownership, blockNumber, failed, before);
      start := start + batchSize;
    }
    TakeAll(vaults);
    ReplayConcat(db.initial, before, AsSteps(ReconcileWrites(vaults, hub, ownership, blockNumber, failed)));
  }

  /** The chain answers the same for an address however it is spelt. */
  ghost predicate ReadsState(row: VaultRow, ownership: map<Address, OwnerState>, state: OwnerState) {
    forall a | a in ownership && Same(row.address, a) :: ownership[a] == state
  }

  predicate Reached(row: VaultRow, vaults: seq<Address>, hub: Address, ownership: map<Address, OwnerState>, block: nat, failed: set<Address>) {
    && row.isDisconnected && row.ownershipBlock <= block
    && exists a | a in vaults ::
         && Same(row.address, a) && a in ownership && a !in failed
         && !(Same(ownership[a].owner, hub) && ownership[a].pendingOwner == ZERO_ADDRESS)
  }

  /** What the reconcile job leaves as the owner of a row it reads at this state. */
  function ReconciledOwner(row: VaultRow, state: OwnerState, hub: Address): Option<Address> {
    var owner := ResolveDisconnectedEffectiveOwner(state, hub);
    if owner.None? then row.effectiveOwner else owner
  }

  /**
   A row is written exactly when it is disconnected, not newer, and its read and write went through; then only
   its owner and block change. The list of vaults matters as a set, so the order within a batch, whose vaults
   are processed concurrently, does not.
   */
  lemma {:induction false} ReconcileIsPerRow(
      row: VaultRow, vaults: seq<Address>, hub: Address, ownership: map<Address, OwnerState>, block: nat, failed: set<Address>, state: OwnerState)
    requires ReadsState(row, ownership, state)
    ensures Deliver(row, ReconcileWrites(vaults, hub, ownership, block, failed))
            == if Reached(row, vaults, hub, ownership, block, failed)
               then row.(effectiveOwner := ReconciledOwner(row, state, hub), ownershipBlock := block)
               else row
  {
    if vaults != [] {
      var n := |vaults| - 1;
      var init, vault := vaults[..n], vaults[n];
      ReconcileIsPerRow(row, init, hub, ownership, block, failed, state);
      ReachedOneMore(row, init, vault, hub, ownership, block, failed);
      assert vaults == init + [vault];
      if Writes(vault, hub, ownership, failed) {
        var before := ReconcileWrites(init, hub, ownership, block, failed);
        var owner := ResolveDisconnectedEffectiveOwner(ownership[vault], hub).value;
        DeliverOneMore(row, before, TransferWrite(vault, owner, block, true));
        OneReconcileWrite(row, Deliver(row, before), vault, hub, ownership, block, state);
      }
    }
  }

  /** The write of one vault on a row that other writes of the job may have reached already. */
  lemma OneReconcileWrite(
      row: VaultRow, before: VaultRow, vault: Address, hub: Address, ownership: map<Address, OwnerState>, block: nat, state: OwnerState)
    requires vault in ownership && ResolveDisconnectedEffectiveOwner(ownership[vault], hub).Some? && ReadsState(row, ownership, state)
    requires before == row || (row.isDisconnected && row.ownershipBlock <= block
                               && before == row.(effectiveOwner := ReconciledOwner(row, state, hub), ownershipBlock := block))
    ensures var owner := ResolveDisconnectedEffectiveOwner(ownership[vault], hub).value;
            ApplyOwnership(before, TransferWrite(vault, owner, block, true)) ==
              if row.isDisconnected && row.ownershipBlock <= block && Same(row.address, vault)
              then row.(effectiveOwner := ReconciledOwner(row, state, hub), ownershipBlock := block)
              else before
  {
  }

  lemma ReachedOneMore(
      row: VaultRow, vaults: seq<Address>, vault: Address, hub: Address, ownership: map<Address, OwnerState>, block: nat, failed: set<Address>)
    ensures Reached(row, vaults + [vault], hub, ownership, block, failed)
            <==> Reached(row, vaults, hub, ownership, block, failed)
                 || (row.isDisconnected && row.ownershipBlock <= block && Same(row.address, vault) && Writes(vault, hub, ownership, failed))
  {
    assert forall a :: a in vaults + [vault] <==> a in vaults || a == vault;
  }

  /** On the table, when nothing fails: the owner of every disconnected row that is not newer is the one read. */
  lemma ReconcileSetsOwner(
      rows: seq<VaultRow>, hub: Address, ownership: map<Address, OwnerState>, block: nat, i: nat)
    requires i < |rows| && rows[i].isDisconnected && rows[i].ownershipBlock <= block
    requires rows[i].address in ownership && ReadsState(rows[i], ownership, ownership[rows[i].address])
    ensures |ReconcileTable(rows, hub, ownership, block, {})| == |rows|
    ensures ReconcileTable(rows, hub, ownership, block, {})[i].effectiveOwner == ReconciledOwner(rows[i], ownership[rows[i].address], hub)
    ensures ReconcileTable(rows, hub, ownership, block, {})[i].isDisconnected
  {
    var ws := ReconcileWrites(AddressesOf(rows, true), hub, ownership, block, {});
    ReplayIsRowwise(rows, AsSteps(ws), i);
    ReplayIsDelivery(rows[i], ws);
    WritesAddNoRow(rows, ws);
    ReconcileIsPerRow(rows[i], AddressesOf(rows, true), hub, ownership, block, {}, ownership[rows[i].address]);
    assert rows[i].address in AddressesOf(rows, true);
  }
}
