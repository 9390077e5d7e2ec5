/** What a full synchronisation leaves in each row when any of its calls may fail. */
module FullSyncFailures {
  import opened Limits
  import opened Addresses
  import opened Wrappers
  import opened Sequences
  import opened VaultRows
  import opened VaultDb
  import opened OwnershipOrder
  import opened OwnershipChain
  import opened Reconcile
  import opened FullSync
  import opened FullSyncExact

  // ---- The rows a run creates ----

  /** The row is that of a vault the run came upon: connected, and owned by its connection owner once that is saved. */
  ghost predicate IsCreatedFor(row: VaultRow, item: VaultData, block: nat, world: World) {
    && row.address == item.vault && !row.isDisconnected && item.vault !in world.failedCreates
    && (if item.vault in world.failedSaves
        then row.effectiveOwner == None && row.ownershipBlock == 0
        else row.effectiveOwner == Some(item.connectionOwner) && row.ownershipBlock == block)
    && row.membersOwner == None && row.membersBlock == 0 && row.members == {}
  }

  lemma ItemCreatesItsVault(rows: seq<VaultRow>, item: VaultData, block: nat, world: World, j: nat)
    requires |rows| <= j < |Replay(rows, ItemSteps(item, block, world))|
    ensures IsCreatedFor(Replay(rows, ItemSteps(item, block, world))[j], item, block, world)
  {
    var create, connect := CreateVault(item.vault, false), WriteOwnership(ConnectWrite(item.vault, block, item.connectionOwner));
    PrefixOfAppend([create], connect);
    assert [create] + [connect] == [create, connect];
    assert [create][..0] == [];
    assert Replay(rows, [create]) == Next(rows, create);
    assert Replay(rows, [create, connect]) == Next(Next(rows, create), connect);
  }

  /** Every row the run creates is that of one of its items. */
  lemma {:induction false} CreatedRowsAreListed(rows: seq<VaultRow>, items: seq<VaultData>, block: nat, world: World, j: nat) returns (k: nat)
    requires DistinctVaults(items) && |rows| <= j < |Connected(rows, block, world, items)|
    ensures k < |items| && IsCreatedFor(Connected(rows, block, world, items)[j], items[k], block, world)
  {
    var n := |items| - 1;
    var before := Connected(rows, block, world, items[..n]);
    ReplayConcat(rows, ConnectSteps(items[..n], block, world), ItemSteps(items[n], block, world));
    if j < |before| {
      k := CreatedRowsAreListed(rows, items[..n], block, world, j);
      ReplayIsRowwise(before, ItemSteps(items[n], block, world), j);
      ItemOnRow(before[j], items[n], block, world);
    } else {
      k := n;
      ItemCreatesItsVault(before, items[n], block, world, j);
    }
  }

  // ---- The sweep ----

  predicate SweepReaches(row: VaultRow, vaults: seq<Address>, onChain: set<Address>, world: World) {
    exists a | a in vaults :: Same(row.address, a) && Swept(a, onChain, world)
  }

  /** A row as the sweep leaves a vault that is gone from the hub: the owner stays when the vault names nobody. */
  function Left(row: VaultRow, hub: Address, block: nat, state: OwnerState): VaultRow {
    row.(isDisconnected := true, effectiveOwner := ReconciledOwner(row, state, hub), ownershipBlock := block)
  }

  /** The sweep on a row that is not newer, with any reads and writes failing, in whatever spellings it is listed. */
  lemma {:induction false} SweepOnRow(
      row: VaultRow, vaults: seq<Address>, onChain: set<Address>, hub: Address, block: nat, world: World, state: OwnerState)
    requires row.ownershipBlock <= block && ReadsState(row, world.ownership, state)
    ensures Deliver(row, SweepWrites(vaults, onChain, hub, block, world))
            == if SweepReaches(row, vaults, onChain, world) then Left(row, hub, block, state) else row
  {
    if vaults != [] {
      var n := |vaults| - 1;
      var init, a := vaults[..n], vaults[n];
      SweepOnRow(row, init, onChain, hub, block, world, state);
      SweepReachesOneMore(row, init, a, onChain, world);
      assert vaults == init + [a];
      if Swept(a, onChain, world) {
        var before := SweepWrites(init, onChain, hub, block, world);
        var w := DisconnectWrite(a, block, ResolveDisconnectedEffectiveOwner(world.ownership[a], hub));
        DeliverOneMore(row, before, w);
        OneDisconnect(row, Deliver(row, before), a, hub, block, world, state);
      }
    }
  }

  lemma OneDisconnect(row: VaultRow, before: VaultRow, a: Address, hub: Address, block: nat, world: World, state: OwnerState)
    requires row.ownershipBlock <= block && a in world.ownership && ReadsState(row, world.ownership, state)
    requires before == row || before == Left(row, hub, block, state)
    ensures ApplyOwnership(before, DisconnectWrite(a, block, ResolveDisconnectedEffectiveOwner(world.ownership[a], hub)))
            == if Same(row.address, a) then Left(row, hub, block, state) else before
  {
  }

  lemma SweepReachesOneMore(row: VaultRow, vaults: seq<Address>, a: Address, onChain: set<Address>, world: World)
    ensures SweepReaches(row, vaults + [a], onChain, world)
            <==> SweepReaches(row, vaults, onChain, world) || (Same(row.address, a) && Swept(a, onChain, world))
  {
    assert forall b :: b in vaults + [a] <==> b in vaults || b == a;
  }

  // ---- The whole run ----

  /** Some row of this vault is connected, and its owner can be read and its disconnect written. */
  predicate CanBeSwept(rows: seq<VaultRow>, row: VaultRow, world: World) {
    exists j | 0 <= j < |rows| ::
      && !rows[j].isDisconnected && Same(row.address, rows[j].address)
      && rows[j].address in world.ownership && rows[j].address !in world.failedDisconnects
  }

  lemma UnlistedIsSweptIff(rows: seq<VaultRow>, items: seq<VaultData>, block: nat, world: World, i: nat)
    requires DistinctVaults(items) && i < |rows| && !Listed(items, rows[i].address)
    ensures SweepReaches(rows[i], AddressesOf(Connected(rows, block, world, items), false), OnChain(items), world)
            <==> CanBeSwept(rows, rows[i], world)
  {
    var row, after := rows[i], Connected(rows, block, world, items);
    var vaults := AddressesOf(after, false);
    var steps := ConnectSteps(items, block, world);
    ReplayIsRowwise(rows, steps, i);
    forall j | 0 <= j < |rows| && Same(row.address, rows[j].address)
      ensures after[j] == rows[j]
    {
      ReplayIsRowwise(rows, steps, j);
      UnlistedSpelling(row, items, rows[j].address);
      UnsavedRowIsUntouched(rows[j], items, block, world);
    }
    if a :| a in vaults && Same(row.address, a) && Swept(a, OnChain(items), world) {
      var k :| 0 <= k < |after| && !after[k].isDisconnected && after[k].address == a;
      UnlistedSpelling(row, items, a);
      if k >= |rows| {
        var item := CreatedRowsAreListed(rows, items, block, world, k);
      } else {
        ReplayIsRowwise(rows, steps, k);
        ReplayKeepsIdentity(rows[k], steps);
      }
    }
    if j :| 0 <= j < |rows| && !rows[j].isDisconnected && Same(row.address, rows[j].address)
            && rows[j].address in world.ownership && rows[j].address !in world.failedDisconnects
    {
      UnlistedSpelling(row, items, rows[j].address);
      OnChainIsListed(items, rows[j].address);
      assert after[j].address in vaults;
    }
  }

  /** No cap is configured, or it does not bite. */
  predicate SeesWholeList(world: World, minimalCount: int) {
    minimalCount <= 0 || minimalCount >= |world.list|
  }

  /** Everything that arrived was listed below the limit, in a batch that did not fail. */
  lemma {:induction false} FetchedFromList(world: World, offset: nat, limit: nat, batchSize: nat, item: VaultData) returns (k: nat, m: nat)
    requires batchSize >= 1 && limit <= |world.list| && item in Fetched(world, offset, limit, batchSize)
    ensures k < limit && BatchStart(offset, m, batchSize) <= k < BatchStart(offset, m, batchSize) + batchSize
    ensures world.list[k] == item && BatchStart(offset, m, batchSize) !in world.failedBatches
    decreases limit - offset
  {
    var batch := BatchAt(world, offset, limit, batchSize);
    if item in batch {
      var n :| 0 <= n < |batch| && batch[n] == item;
      k, m := offset + n, 0;
    } else {
      k, m := FetchedFromList(world, offset + batchSize, limit, batchSize, item);
      m := m + 1;
    }
  }

  /** And everything listed below the limit in a batch that did not fail arrived, whatever other batches failed. */
  lemma {:induction false} ListedArrives(world: World, offset: nat, limit: nat, batchSize: nat, k: nat, m: nat)
    requires batchSize >= 1 && limit <= |world.list| && k < limit
    requires BatchStart(offset, m, batchSize) <= k < BatchStart(offset, m, batchSize) + batchSize
    requires BatchStart(offset, m, batchSize) !in world.failedBatches
    ensures world.list[k] in Fetched(world, offset, limit, batchSize)
    decreases m
  {
    BatchStartsLater(offset, m, batchSize);
    if m == 0 {
      assert BatchAt(world, offset, limit, batchSize)[k - offset] == world.list[k];
    } else {
      ListedArrives(world, offset + batchSize, limit, batchSize, k, m - 1);
    }
  }

  /** The items of the batches that arrived. */
  function Arrived(world: World, minimalCount: int, batchSize: nat): seq<VaultData>
    requires batchSize >= 1
  {
    Fetched(world, 0, VaultsLimit(minimalCount, |world.list|), batchSize)
  }

  /**
   Each row after a run, in either mode and whatever fails. A run that cannot read the count, and a newer row, change
   nothing. A vault that arrived is joined when it was saved, and left as it was, never disconnected, when not. A vault
   that did not arrive leaves, if the run sweeps and some spelling of it can be swept; otherwise it stays as it was.
   */
  lemma FullSyncOnRow(
      rows: seq<VaultRow>, hub: Address, block: nat, world: World, minimalCount: int, batchSize: nat, i: nat, state: OwnerState)
    requires batchSize >= 1 && i < |rows|
    requires DistinctVaults(Arrived(world, minimalCount, batchSize)) && ReadsState(rows[i], world.ownership, state)
    ensures var items := Arrived(world, minimalCount, batchSize);
            var row, after := rows[i], Replay(rows, SyncSteps(rows, hub, block, world, minimalCount, batchSize));
            && |rows| <= |after|
            && (world.countFails || row.ownershipBlock > block ==> after[i] == row)
            && (!world.countFails && row.ownershipBlock <= block ==>
                  && (forall k | 0 <= k < |items| && Same(row.address, items[k].vault) ::
                        after[i] == if ItemSaved(items[k], world) then Joined(row, items[k], block) else row)
                  && (!Listed(items, row.address) ==>
                        after[i] == if SeesWholeList(world, minimalCount) && !world.connectedReadFails && CanBeSwept(rows, row, world)
                                    then Left(row, hub, block, state) else row))
  {
    var row := rows[i];
    var steps := SyncSteps(rows, hub, block, world, minimalCount, batchSize);
    ReplayIsRowwise(rows, steps, i);
    if !world.countFails {
      var items := Arrived(world, minimalCount, batchSize);
      ConnectOnRow(row, items, block, world);
      if Sweeps(world, minimalCount) {
        SweptRow(rows, hub, block, world, minimalCount, batchSize, i, state);
      }
    }
  }

  lemma ConnectOnRow(row: VaultRow, items: seq<VaultData>, block: nat, world: World)
    requires DistinctVaults(items)
    ensures var after := ReplayRow(row, ConnectSteps(items, block, world));
            && (row.ownershipBlock > block || !Listed(items, row.address) ==> after == row)
            && (row.ownershipBlock <= block ==> forall k | 0 <= k < |items| && Same(row.address, items[k].vault) ::
                  after == if ItemSaved(items[k], world) then Joined(row, items[k], block) else row)
  {
    if row.ownershipBlock > block || !Listed(items, row.address) {
      UnlistedRowIsUntouched(row, items, block, world);
    } else {
      forall k | 0 <= k < |items| && Same(row.address, items[k].vault)
        ensures ReplayRow(row, ConnectSteps(items, block, world))
                == if ItemSaved(items[k], world) then Joined(row, items[k], block) else row
      {
        if ItemSaved(items[k], world) {
          SavedRowIsJoined(row, items, block, world, k);
        } else {
          UnsavedRowIsUntouched(row, items, block, world);
        }
      }
    }
  }

  /** The row after the connect phase, and then after the sweep. */
  lemma SweptRow(
      rows: seq<VaultRow>, hub: Address, block: nat, world: World, minimalCount: int, batchSize: nat, i: nat, state: OwnerState)
    requires batchSize >= 1 && i < |rows| && !world.countFails && Sweeps(world, minimalCount)
    requires DistinctVaults(Arrived(world, minimalCount, batchSize)) && ReadsState(rows[i], world.ownership, state)
    ensures var items := Arrived(world, minimalCount, batchSize);
            var joined := ReplayRow(rows[i], ConnectSteps(items, block, world));
            ReplayRow(rows[i], SyncSteps(rows, hub, block, world, minimalCount, batchSize))
            == if rows[i].ownershipBlock <= block && !Listed(items, rows[i].address) && CanBeSwept(rows, rows[i], world)
               then Left(rows[i], hub, block, state) else joined
  {
    var items := Arrived(world, minimalCount, batchSize);
    var connect := ConnectSteps(items, block, world);
    var vaults := AddressesOf(Connected(rows, block, world, items), false);
    var writes := SweepWrites(vaults, OnChain(items), hub, block, world);
    var joined := ReplayRow(rows[i], connect);
    ReplayRowConcat(rows[i], connect, AsSteps(writes));
    ReplayIsDelivery(joined, writes);
    OnChainIsListed(items, rows[i].address);
    ReplayKeepsIdentity(rows[i], connect);
    ConnectOnRow(rows[i], items, block, world);
    if rows[i].ownershipBlock > block || Listed(items, rows[i].address) {
      SweepSpares(joined, vaults, OnChain(items), hub, block, world);
    } else {
      SweepOnRow(rows[i], vaults, OnChain(items), hub, block, world, state);
      UnlistedIsSweptIff(rows, items, block, world, i);
    }
  }

  /** And so they are after the whole run: the sweep does not touch them. */
  lemma CreatedRowsAfterRun(rows: seq<VaultRow>, hub: Address, block: nat, world: World, minimalCount: int, batchSize: nat, j: nat)
    returns (k: nat)
    requires batchSize >= 1 && DistinctVaults(Arrived(world, minimalCount, batchSize))
    requires |rows| <= j < |Replay(rows, SyncSteps(rows, hub, block, world, minimalCount, batchSize))|
    ensures k < |Arrived(world, minimalCount, batchSize)|
    ensures IsCreatedFor(Replay(rows, SyncSteps(rows, hub, block, world, minimalCount, batchSize))[j],
                         Arrived(world, minimalCount, batchSize)[k], block, world)
  {
    var items := Arrived(world, minimalCount, batchSize);
    var connect := ConnectSteps(items, block, world);
    var joined := Connected(rows, block, world, items);
    var writes := SweepWrites(AddressesOf(joined, false), OnChain(items), hub, block, world);
    ReplayConcat(rows, connect, AsSteps(writes));
    WritesAddNoRow(joined, writes);
    k := CreatedRowsAreListed(rows, items, block, world, j);
    ReplayIsRowwise(joined, AsSteps(writes), j);
    ReplayIsDelivery(joined[j], writes);
    OnChainIsListed(items, joined[j].address);
    assert Same(items[k].vault, joined[j].address);
    SweepSpares(joined[j], AddressesOf(joined, false), OnChain(items), hub, block, world);
  }
}
