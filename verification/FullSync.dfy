/** The hourly full synchronisation of the vault list, batch by batch, and the sweep that marks the missing vaults. */
module FullSync {
  import opened Limits
  import opened Addresses
  import opened Sequences
  import opened VaultRows
  import opened VaultDb
  import opened OwnershipOrder
  import opened OwnershipChain

  datatype VaultData = VaultData(vault: Address, connectionOwner: Address)

  /**
   What one run meets at its block: the list held by the hub, the ownership of the vaults (absent where the read
   throws), and which of the calls throw. `failedSaves` covers everything between creating a row and connecting it.
   */
  datatype World = World(
    countFails: bool,
    list: seq<VaultData>,
    failedBatches: set<nat>,
    failedCreates: set<Address>,
    failedSaves: set<Address>,
    connectedReadFails: bool,
    ownership: map<Address, OwnerState>,
    failedDisconnects: set<Address>)

  // ---- The statements of a run ----

  /** One batch, empty when its read throws. */
  function BatchAt(world: World, offset: nat, limit: nat, batchSize: nat): seq<VaultData>
    requires batchSize >= 1 && offset < limit <= |world.list|
  {
    if offset in world.failedBatches then [] else world.list[offset..Min(offset + batchSize, limit)]
  }

  /** The items of the batches that could be fetched, from an offset on. */
  function Fetched(world: World, offset: nat, limit: nat, batchSize: nat): seq<VaultData>
    requires batchSize >= 1 && limit <= |world.list|
    decreases limit - offset
  {
    if offset >= limit then []
    else BatchAt(world, offset, limit, batchSize) + Fetched(world, offset + batchSize, limit, batchSize)
  }

  function ItemSteps(item: VaultData, block: nat, world: World): seq<DbStep> {
    if item.vault in world.failedCreates then []
    else if item.vault in world.failedSaves then [CreateVault(item.vault, false)]
    else [CreateVault(item.vault, false), WriteOwnership(ConnectWrite(item.vault, block, item.connectionOwner))]
  }

  function ConnectSteps(items: seq<VaultData>, block: nat, world: World): seq<DbStep> {
    if items == [] then []
    else ConnectSteps(items[..|items| - 1], block, world) + ItemSteps(items[|items| - 1], block, world)
  }

  function OnChain(items: seq<VaultData>): set<Address> {
    if items == [] then {} else OnChain(items[..|items| - 1]) + {Lower(items[|items| - 1].vault)}
  }

  predicate Swept(a: Address, onChain: set<Address>, world: World) {
    Lower(a) !in onChain && a in world.ownership && a !in world.failedDisconnects
  }

  function SweepWrites(vaults: seq<Address>, onChain: set<Address>, hub: Address, block: nat, world: World): seq<OwnershipWrite> {
    if vaults == [] then []
    else
      var n := |vaults| - 1;
      var before := SweepWrites(vaults[..n], onChain, hub, block, world);
      if Swept(vaults[n], onChain, world)
      then before + [DisconnectWrite(vaults[n], block, ResolveDisconnectedEffectiveOwner(world.ownership[vaults[n]], hub))]
      else before
  }

  /** The list counts as complete when it was not capped, whether or not every batch arrived. */
  predicate Sweeps(world: World, minimalCount: int) {
    VaultsLimit(minimalCount, |world.list|) == |world.list| && !world.connectedReadFails
  }

  function Connected(rows: seq<VaultRow>, block: nat, world: World, items: seq<VaultData>): seq<VaultRow> {
    Replay(rows, ConnectSteps(items, block, world))
  }

  function SyncSteps(rows: seq<VaultRow>, hub: Address, block: nat, world: World, minimalCount: int, batchSize: nat): seq<DbStep>
    requires batchSize >= 1
  {
    if world.countFails then []
    else
      var items := Fetched(world, 0, VaultsLimit(minimalCount, |world.list|), batchSize);
      var connect := ConnectSteps(items, block, world);
      if Sweeps(world, minimalCount)
      then connect + AsSteps(SweepWrites(AddressesOf(Connected(rows, block, world, items), false), OnChain(items), hub, block, world))
      else connect
  }

  lemma ConnectOneMore(items: seq<VaultData>, item: VaultData, block: nat, world: World)
    ensures ConnectSteps(items + [item], block, world) == ConnectSteps(items, block, world) + ItemSteps(item, block, world)
  {
    PrefixOfAppend(items, item);
  }

  lemma {:induction false} ConnectConcat(a: seq<VaultData>, b: seq<VaultData>, block: nat, world: World)
    ensures ConnectSteps(a + b, block, world) == ConnectSteps(a, block, world) + ConnectSteps(b, block, world)
  {
    if b == [] {
      assert a + b == a;
    } else {
      var n := |b| - 1;
      ConnectConcat(a, b[..n], block, world);
      AppendLast(a, b);
      ConnectOneMore(a + b[..n], b[n], block, world);
      Assoc(ConnectSteps(a, block, world), ConnectSteps(b[..n], block, world), ItemSteps(b[n], block, world));
    }
  }

  /** Stores one fetched vault; its failures are swallowed. */
  method StoreVault(db: VaultDbService, item: VaultData, block: nat, world: World)
    requires db.Valid()
    modifies db
    ensures db.Valid()
    ensures db.trace == old(db.trace) + ItemSteps(item, block, world)
  {
    if item.vault !in world.failedCreates {
      var _ := db.GetOrCreateVaultByAddress(item.vault, false);
      if item.vault !in world.failedSaves {
        db.ConnectVault(item.vault, block, item.connectionOwner);
      }
    }
  }

  /** The statements and the addresses a list of fetched vaults amounts to. */
  ghost predicate Stored(stored: seq<DbStep>, listed: set<Address>, batch: seq<VaultData>, block: nat, world: World) {
    stored == ConnectSteps(batch, block, world) && listed == OnChain(batch)
  }

  /** Stores one fetched batch and returns the normalised addresses it listed. */
  method StoreBatch(db: VaultDbService, batch: seq<VaultData>, block: nat, world: World)
    returns (listed: set<Address>, ghost stored: seq<DbStep>)
    requires db.Valid()
    modifies db
    ensures db.Valid()
    ensures Stored(stored, listed, batch, block, world)
    ensures db.trace == old(db.trace) + stored
  {
    listed, stored := {}, [];
    for k := 0 to |batch|
      invariant db.Valid()
      invariant Stored(stored, listed, batch[..k], block, world)
      invariant db.trace == old(db.trace) + stored
    {
      var item := batch[k];
      TakeOneMore(batch, k);
      ConnectOneMore(batch[..k], item, block, world);
      Assoc(old(db.trace), stored, ItemSteps(item, block, world));
      listed := listed + {Lower(item.vault)};
      StoreVault(db, item, block, world);
      stored := stored + ItemSteps(item, block, world);
    }
    TakeAll(batch);
  }

  method SweepDisconnected(db: VaultDbService, hub: Address, block: nat, world: World, onChain: set<Address>)
    requires db.Valid()
    modifies db
    ensures db.Valid()
    ensures db.trace == old(db.trace) + AsSteps(SweepWrites(AddressesOf(old(db.vaults), false), onChain, hub, block, world))
  {
    var vaults := db.GetVaultAddresses(false);
    for i := 0 to |vaults|
      invariant db.Valid()
      invariant db.trace == old(db.trace) + AsSteps(SweepWrites(vaults[..i], onChain, hub, block, world))
    {
      var vault := vaults[i];
      TakeOneMore(vaults, i);
      if Lower(vault) !in onChain && vault in world.ownership {
        var effectiveOwner := ResolveDisconnectedEffectiveOwner(world.ownership[vault], hub);
        if vault !in world.failedDisconnects {
          ghost var before := SweepWrites(vaults[..i], onChain, hub, block, world);
          AsStepsOneMore(before, DisconnectWrite(vault, block, effectiveOwner));
          Assoc(old(db.trace), AsSteps(before), [WriteOwnership(DisconnectWrite(vault, block, effectiveOwner))]);
          db.DisconnectVault(vault, block, effectiveOwner);
        }
      }
    }
    TakeAll(vaults);
  }

  lemma {:induction false} OnChainConcat(a: seq<VaultData>, b: seq<VaultData>)
    ensures OnChain(a + b) == OnChain(a) + OnChain(b)
  {
    if b == [] {
      assert a + b == a;
    } else {
      AppendLast(a, b);
      OnChainConcat(a, b[..|b| - 1]);
    }
  }

  /** What was done up to an offset, and what the remaining batches add, make up the whole run. */
  ghost predicate Progress(
      done: seq<DbStep>, onChain: set<Address>, world: World, offset: nat, limit: nat, batchSize: nat, block: nat)
    requires batchSize >= 1 && limit <= |world.list|
  {
    && done + ConnectSteps(Fetched(world, offset, limit, batchSize), block, world)
       == ConnectSteps(Fetched(world, 0, limit, batchSize), block, world)
    && onChain + OnChain(Fetched(world, offset, limit, batchSize)) == OnChain(Fetched(world, 0, limit, batchSize))
  }

  lemma FetchedOneMore(world: World, offset: nat, limit: nat, batchSize: nat, block: nat)
    requires batchSize >= 1 && offset < limit <= |world.list|
    ensures var items, batch := Fetched(world, offset, limit, batchSize), BatchAt(world, offset, limit, batchSize);
            var rest := Fetched(world, offset + batchSize, limit, batchSize);
            && OnChain(items) == OnChain(batch) + OnChain(rest)
            && ConnectSteps(items, block, world) == ConnectSteps(batch, block, world) + ConnectSteps(rest, block, world)
  {
    var batch := BatchAt(world, offset, limit, batchSize);
    var rest := Fetched(world, offset + batchSize, limit, batchSize);
    OnChainConcat(batch, rest);
    ConnectConcat(batch, rest, block, world);
  }

  lemma ProgressByBatch(
      done: seq<DbStep>, onChain: set<Address>, stored: seq<DbStep>, listed: set<Address>,
      world: World, offset: nat, next: nat, limit: nat, batchSize: nat, block: nat)
    requires batchSize >= 1 && offset < limit <= |world.list| && next == offset + batchSize
    requires Progress(done, onChain, world, offset, limit, batchSize, block)
    requires Stored(stored, listed, BatchAt(world, offset, limit, batchSize), block, world)
    ensures Progress(done + stored, onChain + listed, world, next, limit, batchSize, block)
  {
    FetchedOneMore(world, offset, limit, batchSize, block);
    var items, rest, all := Fetched(world, offset, limit, batchSize), Fetched(world, next, limit, batchSize), Fetched(world, 0, limit, batchSize);
    AddInTheMiddle(done, stored, ConnectSteps(rest, block, world), ConnectSteps(items, block, world), ConnectSteps(all, block, world));
    UniteInTheMiddle(onChain, listed, OnChain(rest), OnChain(items), OnChain(all));
  }

  lemma AddInTheMiddle(done: seq<DbStep>, stored: seq<DbStep>, rest: seq<DbStep>, items: seq<DbStep>, all: seq<DbStep>)
    requires items == stored + rest && done + items == all
    ensures done + stored + rest == all
  {
    Assoc(done, stored, rest);
  }

  lemma UniteInTheMiddle(done: set<Address>, listed: set<Address>, rest: set<Address>, items: set<Address>, all: set<Address>)
    requires items == listed + rest && done + items == all
    ensures done + listed + rest == all
  {
    UnionAssoc(done, listed, rest);
  }

  lemma ProgressComplete(
      done: seq<DbStep>, onChain: set<Address>, world: World, offset: nat, limit: nat, batchSize: nat, block: nat)
    requires batchSize >= 1 && limit <= offset && limit <= |world.list|
    requires Progress(done, onChain, world, offset, limit, batchSize, block)
    ensures Stored(done, onChain, Fetched(world, 0, limit, batchSize), block, world)
  {
  }

  /** The batches, in order, however many of them fail to arrive. */
  method StoreAll(db: VaultDbService, block: nat, world: World, vaultsLimit: nat, batchSize: nat)
    returns (onChain: set<Address>, ghost done: seq<DbStep>)
    requires db.Valid() && batchSize >= 1 && vaultsLimit <= |world.list|
    modifies db
    ensures db.Valid()
    ensures Stored(done, onChain, Fetched(world, 0, vaultsLimit, batchSize), block, world)
    ensures db.trace == old(db.trace) + done
  {
    onChain, done := {}, [];
    assert Progress(done, onChain, world, 0, vaultsLimit, batchSize, block);
    var offset := 0;
    while offset < vaultsLimit
      invariant db.Valid()
      invariant Progress(done, onChain, world, offset, vaultsLimit, batchSize, block)
      invariant db.trace == old(db.trace) + done
    {
      var listed, stored := StoreBatch(db, BatchAt(world, offset, vaultsLimit, batchSize), block, world);
      var next := offset + batchSize;
      ProgressByBatch(done, onChain, stored, listed, world, offset, next, vaultsLimit, batchSize, block);
      Assoc(old(db.trace), done, stored);
      onChain, done, offset := onChain + listed, done + stored, next;
    }
    ProgressComplete(done, onChain, world, offset, vaultsLimit, batchSize, block);
  }

  /** The whole job. It does exactly the statements of `SyncSteps`, whatever fails. */
  method FetchAllVaultsAndCalculateStates(
      db: VaultDbService, hub: Address, blockNumber: nat, world: World, minimalCount: int, batchSize: nat)
    requires db.Valid() && batchSize >= 1
    modifies db
    ensures db.Valid()
    ensures db.vaults == Replay(old(db.vaults), SyncSteps(old(db.vaults), hub, blockNumber, world, minimalCount, batchSize))
    ensures db.trace == old(db.trace) + SyncSteps(old(db.vaults), hub, blockNumber, world, minimalCount, batchSize)
  {
    ghost var rows, before := db.vaults, db.trace;
    ghost var steps := SyncSteps(rows, hub, blockNumber, world, minimalCount, batchSize);
    if world.countFails {
      assert steps == [] && Replay(rows, []) == rows;
      return;
    }
    var vaultsCount := |world.list|;
    var vaultsLimit := VaultsLimit(minimalCount, vaultsCount);
    ghost var items := Fetched(world, 0, vaultsLimit, batchSize);
    var onChain, connect := StoreAll(db, blockNumber, world, vaultsLimit, batchSize);
    ReplayConcat(db.initial, before, connect);
    if vaultsLimit == vaultsCount && !world.connectedReadFails {
      ghost var sweep := AsSteps(SweepWrites(AddressesOf(db.vaults, false), onChain, hub, blockNumber, world));
      SweepDisconnected(db, hub, blockNumber, world, onChain);
      Assoc(before, connect, sweep);
      ReplayConcat(db.initial, before, steps);
    }
  }
}
