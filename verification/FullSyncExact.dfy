/** What a full synchronisation leaves in each row, and which of its failures it survives. */
module FullSyncExact {
  import opened Limits
  import opened Addresses
  import opened Wrappers
  import opened Sequences
  import opened VaultRows
  import opened VaultDb
  import opened OwnershipOrder
  import opened OwnershipChain
  import opened FullSync

  predicate Listed(items: seq<VaultData>, address: Address) {
    exists k | 0 <= k < |items| :: Same(items[k].vault, address)
  }

  ghost predicate DistinctVaults(items: seq<VaultData>) {
    forall j, k | 0 <= j < k < |items| :: !Same(items[j].vault, items[k].vault)
  }

  /** No call but the batch reads fails. */
  ghost predicate OnlyBatchesFail(world: World) {
    !world.countFails && world.failedCreates == {} && world.failedSaves == {} && world.failedDisconnects == {} && !world.connectedReadFails
  }

  /** A row as the run leaves a vault it found in the hub. */
  function Joined(row: VaultRow, item: VaultData, block: nat): VaultRow {
    row.(isDisconnected := false, effectiveOwner := Some(item.connectionOwner), ownershipBlock := block)
  }

  lemma {:induction false} OnChainIsListed(items: seq<VaultData>, address: Address)
    ensures Lower(address) in OnChain(items) <==> Listed(items, address)
  {
    if items != [] {
      var n := |items| - 1;
      OnChainIsListed(items[..n], address);
      assert items == items[..n] + [items[n]];
    }
  }

  // ---- The connect phase ----

  /** The row of this item could be created, and everything up to connecting it went through. */
  predicate ItemSaved(item: VaultData, world: World) {
    item.vault !in world.failedCreates && item.vault !in world.failedSaves
  }

  lemma ItemOnRow(row: VaultRow, item: VaultData, block: nat, world: World)
    ensures ReplayRow(row, ItemSteps(item, block, world))
            == if ItemSaved(item, world) && Same(row.address, item.vault) && row.ownershipBlock <= block
               then Joined(row, item, block) else row
  {
    var create, connect := CreateVault(item.vault, false), WriteOwnership(ConnectWrite(item.vault, block, item.connectionOwner));
    PrefixOfAppend([create], connect);
    assert [create] + [connect] == [create, connect];
    assert [create][..0] == [];
    assert ReplayRow(row, [create]) == row;
  }

  lemma {:induction false} UnsavedRowIsUntouched(row: VaultRow, items: seq<VaultData>, block: nat, world: World)
    requires forall k | 0 <= k < |items| && Same(row.address, items[k].vault) && row.ownershipBlock <= block :: !ItemSaved(items[k], world)
    ensures ReplayRow(row, ConnectSteps(items, block, world)) == row
  {
    if items != [] {
      var n := |items| - 1;
      UnsavedRowIsUntouched(row, items[..n], block, world);
      ReplayRowConcat(row, ConnectSteps(items[..n], block, world), ItemSteps(items[n], block, world));
      ItemOnRow(row, items[n], block, world);
    }
  }

  lemma {:induction false} SavedRowIsJoined(row: VaultRow, items: seq<VaultData>, block: nat, world: World, k: nat)
    requires DistinctVaults(items) && row.ownershipBlock <= block
    requires k < |items| && Same(row.address, items[k].vault) && ItemSaved(items[k], world)
    ensures ReplayRow(row, ConnectSteps(items, block, world)) == Joined(row, items[k], block)
  {
    var n := |items| - 1;
    ReplayRowConcat(row, ConnectSteps(items[..n], block, world), ItemSteps(items[n], block, world));
    if k == n {
      UnsavedRowIsUntouched(row, items[..n], block, world);
      ItemOnRow(row, items[n], block, world);
    } else {
      SavedRowIsJoined(row, items[..n], block, world, k);
      ItemOnRow(Joined(row, items[k], block), items[n], block, world);
    }
  }

  lemma UnlistedRowIsUntouched(row: VaultRow, items: seq<VaultData>, block: nat, world: World)
    requires row.ownershipBlock > block || !Listed(items, row.address)
    ensures ReplayRow(row, ConnectSteps(items, block, world)) == row
  {
    if !Listed(items, row.address) {
      UnlistedSpelling(row, items, row.address);
    }
    UnsavedRowIsUntouched(row, items, block, world);
  }

  /** A vault that is not listed is listed in no other spelling either. */
  lemma UnlistedSpelling(row: VaultRow, items: seq<VaultData>, a: Address)
    requires !Listed(items, row.address) && Same(row.address, a)
    ensures !Listed(items, a)
    ensures forall k | 0 <= k < |items| :: !Same(a, items[k].vault)
  {
    forall k | 0 <= k < |items|
      ensures !Same(items[k].vault, a)
    {
      assert !Same(items[k].vault, row.address);
    }
  }

  /** Every row the run creates is a listed vault, connected under its connection owner. */
  lemma {:induction false} CreatedRowsAreJoined(rows: seq<VaultRow>, items: seq<VaultData>, block: nat, world: World, j: nat) returns (k: nat)
    requires OnlyBatchesFail(world) && DistinctVaults(items)
    requires |rows| <= j < |Connected(rows, block, world, items)|
    ensures k < |items| && Connected(rows, block, world, items)[j].address == items[k].vault
    ensures Connected(rows, block, world, items)[j] == Joined(Connected(rows, block, world, items)[j], items[k], block)
  {
    var n := |items| - 1;
    var before := Connected(rows, block, world, items[..n]);
    ReplayConcat(rows, ConnectSteps(items[..n], block, world), ItemSteps(items[n], block, world));
    if j < |before| {
      k := CreatedRowsAreJoined(rows, items[..n], block, world, j);
      ReplayIsRowwise(before, ItemSteps(items[n], block, world), j);
      ItemOnRow(before[j], items[n], block, world);
    } else {
      k := n;
      CreatedByItem(before, items[n], block, world, j);
    }
  }

  lemma CreatedByItem(rows: seq<VaultRow>, item: VaultData, block: nat, world: World, j: nat)
    requires OnlyBatchesFail(world)
    requires |rows| <= j < |Replay(rows, ItemSteps(item, block, world))|
    ensures var row := Replay(rows, ItemSteps(item, block, world))[j];
            row.address == item.vault && row == Joined(row, item, block)
  {
    var create, connect := CreateVault(item.vault, false), WriteOwnership(ConnectWrite(item.vault, block, item.connectionOwner));
    PrefixOfAppend([create], connect);
    assert [create] + [connect] == [create, connect];
    assert [create][..0] == [];
    assert Replay(rows, [create]) == Next(rows, create);
    assert Replay(rows, [create, connect]) == Next(Next(rows, create), connect);
  }

  // ---- The sweep ----

  /** The sweep leaves listed and newer rows alone. */
  lemma {:induction false} SweepSpares(row: VaultRow, vaults: seq<Address>, onChain: set<Address>, hub: Address, block: nat, world: World)
    requires Lower(row.address) in onChain || row.ownershipBlock > block
    ensures Deliver(row, SweepWrites(vaults, onChain, hub, block, world)) == row
  {
    if vaults != [] {
      var n := |vaults| - 1;
      SweepSpares(row, vaults[..n], onChain, hub, block, world);
      if Swept(vaults[n], onChain, world) {
        DeliverOneMore(row, SweepWrites(vaults[..n], onChain, hub, block, world),
                       DisconnectWrite(vaults[n], block, ResolveDisconnectedEffectiveOwner(world.ownership[vaults[n]], hub)));
      }
    }
  }

  /** A row it reaches, or one disconnected already, is disconnected afterwards. */
  lemma {:induction false} SweepDisconnects(row: VaultRow, vaults: seq<Address>, onChain: set<Address>, hub: Address, block: nat, world: World)
    requires row.ownershipBlock <= block
    requires row.isDisconnected || (row.address in vaults && Swept(row.address, onChain, world))
    ensures var r := Deliver(row, SweepWrites(vaults, onChain, hub, block, world)); r.isDisconnected && r.ownershipBlock <= block
  {
    if vaults != [] {
      var n := |vaults| - 1;
      var before := SweepWrites(vaults[..n], onChain, hub, block, world);
      assert vaults == vaults[..n] + [vaults[n]];
      SweepKeepsBlock(row, vaults[..n], onChain, hub, block, world);
      if row.isDisconnected || row.address in vaults[..n] {
        SweepDisconnects(row, vaults[..n], onChain, hub, block, world);
      }
      if Swept(vaults[n], onChain, world) {
        DeliverOneMore(row, before, DisconnectWrite(vaults[n], block, ResolveDisconnectedEffectiveOwner(world.ownership[vaults[n]], hub)));
      }
    }
  }

  lemma {:induction false} SweepKeepsBlock(row: VaultRow, vaults: seq<Address>, onChain: set<Address>, hub: Address, block: nat, world: World)
    requires row.ownershipBlock <= block
    ensures var r := Deliver(row, SweepWrites(vaults, onChain, hub, block, world)); r.ownershipBlock <= block && r.address == row.address
  {
    if vaults != [] {
      var n := |vaults| - 1;
      SweepKeepsBlock(row, vaults[..n], onChain, hub, block, world);
      if Swept(vaults[n], onChain, world) {
        DeliverOneMore(row, SweepWrites(vaults[..n], onChain, hub, block, world),
                       DisconnectWrite(vaults[n], block, ResolveDisconnectedEffectiveOwner(world.ownership[vaults[n]], hub)));
      }
    }
  }

  // ---- The whole run in full mode ----

  ghost predicate FullMode(world: World, minimalCount: int) {
    VaultsLimit(minimalCount, |world.list|) == |world.list|
  }

  /** The vaults the sweep has to ask about answer. */
  ghost predicate Readable(rows: seq<VaultRow>, world: World) {
    forall i | 0 <= i < |rows| :: rows[i].address in world.ownership
  }

  /**
   Exactness, with failed batches. After a full-mode run at a block every row that was not newer is connected
   exactly when its vault was in a batch that arrived, connected rows carry the connection owner, rows with a
   newer block are untouched.
   */
  lemma FullSyncFollowsFetchedList(
      rows: seq<VaultRow>, hub: Address, block: nat, world: World, minimalCount: int, batchSize: nat, i: nat)
    requires batchSize >= 1 && OnlyBatchesFail(world) && FullMode(world, minimalCount) && Readable(rows, world)
    requires DistinctVaults(Fetched(world, 0, |world.list|, batchSize))
    requires i < |rows|
    ensures var items, after := Fetched(world, 0, |world.list|, batchSize), Replay(rows, SyncSteps(rows, hub, block, world, minimalCount, batchSize));
            && |rows| <= |after|
            && (rows[i].ownershipBlock > block ==> after[i] == rows[i])
            && (rows[i].ownershipBlock <= block ==> (!after[i].isDisconnected <==> Listed(items, rows[i].address)))
            && (forall k | 0 <= k < |items| && Same(items[k].vault, rows[i].address) && rows[i].ownershipBlock <= block ::
                  after[i] == Joined(rows[i], items[k], block))
  {
    var row := rows[i];
    var items := Fetched(world, 0, |world.list|, batchSize);
    var connect := ConnectSteps(items, block, world);
    var vaults := AddressesOf(Connected(rows, block, world, items), false);
    var writes := SweepWrites(vaults, OnChain(items), hub, block, world);
    ReplayIsRowwise(rows, SyncSteps(rows, hub, block, world, minimalCount, batchSize), i);
    ReplayIsRowwise(rows, connect, i);
    ReplayRowConcat(row, connect, AsSteps(writes));
    ReplayIsDelivery(ReplayRow(row, connect), writes);
    OnChainIsListed(items, row.address);
    if row.ownershipBlock > block {
      UnlistedRowIsUntouched(row, items, block, world);
      SweepSpares(row, vaults, OnChain(items), hub, block, world);
    } else if Listed(items, row.address) {
      forall k | 0 <= k < |items| && Same(items[k].vault, row.address)
        ensures ReplayRow(row, connect + AsSteps(writes)) == Joined(row, items[k], block)
      {
        SavedRowIsJoined(row, items, block, world, k);
        SweepSpares(Joined(row, items[k], block), vaults, OnChain(items), hub, block, world);
      }
    } else {
      UnlistedRowIsUntouched(row, items, block, world);
      assert Connected(rows, block, world, items)[i] == row;
      SweepDisconnects(row, vaults, OnChain(items), hub, block, world);
    }
  }

  /** The offset/limit batches partition the list, whatever the batch size. */
  lemma {:induction false} BatchesPartitionList(world: World, offset: nat, limit: nat, batchSize: nat)
    requires batchSize >= 1 && limit <= |world.list| && world.failedBatches == {}
    ensures Fetched(world, offset, limit, batchSize) == if offset <= limit then world.list[offset..limit] else []
    decreases limit - offset
  {
    if offset < limit {
      BatchesPartitionList(world, offset + batchSize, limit, batchSize);
    }
  }

  /** Without failures: connected means listed on chain. */
  lemma FullSyncExact(rows: seq<VaultRow>, hub: Address, block: nat, world: World, minimalCount: int, batchSize: nat, i: nat)
    requires batchSize >= 1 && OnlyBatchesFail(world) && FullMode(world, minimalCount) && Readable(rows, world)
    requires world.failedBatches == {} && DistinctVaults(world.list)
    requires i < |rows|
    ensures var after := Replay(rows, SyncSteps(rows, hub, block, world, minimalCount, batchSize));
            && |rows| <= |after|
            && (rows[i].ownershipBlock > block ==> after[i] == rows[i])
            && (rows[i].ownershipBlock <= block ==> (!after[i].isDisconnected <==> Listed(world.list, rows[i].address)))
            && (forall k | 0 <= k < |world.list| && Same(world.list[k].vault, rows[i].address) && rows[i].ownershipBlock <= block ::
                  after[i] == Joined(rows[i], world.list[k], block))
  {
    BatchesPartitionList(world, 0, |world.list|, batchSize);
    assert world.list[0..|world.list|] == world.list;
    FullSyncFollowsFetchedList(rows, hub, block, world, minimalCount, batchSize, i);
  }

  /** Rows created on the way are connected vaults of the list, and the sweep does not touch them. */
  lemma CreatedRowsStayConnected(
      rows: seq<VaultRow>, hub: Address, block: nat, world: World, minimalCount: int, batchSize: nat, j: nat) returns (k: nat)
    requires batchSize >= 1 && OnlyBatchesFail(world) && FullMode(world, minimalCount)
    requires DistinctVaults(Fetched(world, 0, |world.list|, batchSize))
    requires |rows| <= j < |Replay(rows, SyncSteps(rows, hub, block, world, minimalCount, batchSize))|
    ensures k < |Fetched(world, 0, |world.list|, batchSize)|
    ensures var row := Replay(rows, SyncSteps(rows, hub, block, world, minimalCount, batchSize))[j];
            var item := Fetched(world, 0, |world.list|, batchSize)[k];
            row.address == item.vault && row == Joined(row, item, block)
  {
    var items := Fetched(world, 0, |world.list|, batchSize);
    var connect := ConnectSteps(items, block, world);
    var middle := Connected(rows, block, world, items);
    var vaults := AddressesOf(middle, false);
    var writes := SweepWrites(vaults, OnChain(items), hub, block, world);
    ReplayConcat(rows, connect, AsSteps(writes));
    WritesAddNoRow(middle, writes);
    k := CreatedRowsAreJoined(rows, items, block, world, j);
    ReplayIsRowwise(middle, AsSteps(writes), j);
    ReplayIsDelivery(middle[j], writes);
    OnChainIsListed(items, middle[j].address);
    SweepSpares(middle[j], vaults, OnChain(items), hub, block, world);
  }

  /**
   The flaw the exact statement exposes: a batch that fails to arrive is skipped while the list still counts as
   complete, so a vault of that batch ends marked disconnected although the hub lists it.
   */
  lemma FailedBatchDisconnectsListedVault(vault: Address, owner: Address, hub: Address)
    ensures var row := VaultRow(1, vault, false, Some(owner), None, 0, 0, {});
            var world := World(false, [VaultData(vault, owner)], {0}, {}, {}, false, map[vault := OwnerState(hub, ZERO_ADDRESS)], {});
            && OnlyBatchesFail(world) && Listed(world.list, vault)
            && |Replay([row], SyncSteps([row], hub, 5, world, 0, 50))| >= 1
            && Replay([row], SyncSteps([row], hub, 5, world, 0, 50))[0].isDisconnected
  {
    var row := VaultRow(1, vault, false, Some(owner), None, 0, 0, {});
    var world := World(false, [VaultData(vault, owner)], {0}, {}, {}, false, map[vault := OwnerState(hub, ZERO_ADDRESS)], {});
    assert Fetched(world, 0, 1, 50) == [];
    assert Same(world.list[0].vault, vault);
    FullSyncFollowsFetchedList([row], hub, 5, world, 0, 50, 0);
  }

  // ---- Minimal mode ----

  /** Below the count nothing is ever marked disconnected, whatever fails. */
  lemma MinimalModeNeverDisconnects(
      rows: seq<VaultRow>, hub: Address, block: nat, world: World, minimalCount: int, batchSize: nat, i: nat)
    requires batchSize >= 1 && 0 < minimalCount < |world.list|
    requires i < |rows| && !rows[i].isDisconnected
    ensures |rows| <= |Replay(rows, SyncSteps(rows, hub, block, world, minimalCount, batchSize))|
    ensures !Replay(rows, SyncSteps(rows, hub, block, world, minimalCount, batchSize))[i].isDisconnected
  {
    ReplayIsRowwise(rows, SyncSteps(rows, hub, block, world, minimalCount, batchSize), i);
    var items := Fetched(world, 0, VaultsLimit(minimalCount, |world.list|), batchSize);
    ConnectPhaseNeverDisconnects(rows[i], items, block, world);
  }

  lemma {:induction false} ConnectPhaseNeverDisconnects(row: VaultRow, items: seq<VaultData>, block: nat, world: World)
    requires !row.isDisconnected
    ensures !ReplayRow(row, ConnectSteps(items, block, world)).isDisconnected
  {
    if items != [] {
      var n := |items| - 1;
      ConnectPhaseNeverDisconnects(row, items[..n], block, world);
      ReplayRowConcat(row, ConnectSteps(items[..n], block, world), ItemSteps(items[n], block, world));
      ItemNeverDisconnects(ReplayRow(row, ConnectSteps(items[..n], block, world)), items[n], block, world);
    }
  }

  lemma ItemNeverDisconnects(row: VaultRow, item: VaultData, block: nat, world: World)
    requires !row.isDisconnected
    ensures !ReplayRow(row, ItemSteps(item, block, world)).isDisconnected
  {
    var create, connect := CreateVault(item.vault, false), WriteOwnership(ConnectWrite(item.vault, block, item.connectionOwner));
    assert [create][..0] == [] && [create, connect][..1] == [create];
    assert ReplayRow(row, [create]) == row;
  }

  // ---- The hub ----

  lemma {:induction false} ConnectStepsSpareHub(items: seq<VaultData>, block: nat, world: World, hub: Address)
    requires forall item | item in items :: !Same(item.connectionOwner, hub)
    ensures SparesHub(ConnectSteps(items, block, world), hub)
  {
    if items != [] {
      var n := |items| - 1;
      assert items == items[..n] + [items[n]];
      ConnectStepsSpareHub(items[..n], block, world, hub);
      assert SparesHub(ItemSteps(items[n], block, world), hub);
    }
  }

  lemma {:induction false} SweepSparesHub(vaults: seq<Address>, onChain: set<Address>, hub: Address, block: nat, world: World)
    requires forall a | a in world.ownership :: !Same(world.ownership[a].pendingOwner, hub)
    ensures SparesHub(AsSteps(SweepWrites(vaults, onChain, hub, block, world)), hub)
  {
    if vaults != [] {
      var n := |vaults| - 1;
      SweepSparesHub(vaults[..n], onChain, hub, block, world);
      if Swept(vaults[n], onChain, world) {
        ResolvedIsNotHub(world.ownership[vaults[n]], hub);
        AsStepsOneMore(SweepWrites(vaults[..n], onChain, hub, block, world),
                       DisconnectWrite(vaults[n], block, ResolveDisconnectedEffectiveOwner(world.ownership[vaults[n]], hub)));
      }
    }
  }

  lemma {:induction false} FetchedIsListed(world: World, offset: nat, limit: nat, batchSize: nat)
    requires batchSize >= 1 && limit <= |world.list|
    ensures forall item | item in Fetched(world, offset, limit, batchSize) :: item in world.list
    decreases limit - offset
  {
    if offset < limit {
      FetchedIsListed(world, offset + batchSize, limit, batchSize);
    }
  }

  /** The run never names the hub, unless the hub is its own connection or pending owner. */
  lemma FullSyncSparesHub(rows: seq<VaultRow>, hub: Address, block: nat, world: World, minimalCount: int, batchSize: nat)
    requires batchSize >= 1
    requires forall item | item in world.list :: !Same(item.connectionOwner, hub)
    requires forall a | a in world.ownership :: !Same(world.ownership[a].pendingOwner, hub)
    ensures SparesHub(SyncSteps(rows, hub, block, world, minimalCount, batchSize), hub)
  {
    var items := Fetched(world, 0, VaultsLimit(minimalCount, |world.list|), batchSize);
    FetchedIsListed(world, 0, VaultsLimit(minimalCount, |world.list|), batchSize);
    ConnectStepsSpareHub(items, block, world, hub);
    SweepSparesHub(AddressesOf(Connected(rows, block, world, items), false), OnChain(items), hub, block, world);
  }
}
