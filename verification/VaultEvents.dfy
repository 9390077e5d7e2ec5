/** The three `VaultHub` event handlers. Each runs at the block of its event, which may be older than what is stored. */
module VaultEvents {
  import opened Addresses
  import opened Wrappers
  import opened VaultRows
  import opened VaultDb
  import opened OwnershipChain
  import opened FullSync
  import opened VaultViewer
  import opened RetryCall
  import opened MembersRefresh
  import opened Sequences

  /** The calls of a handler that may throw, besides the reads passed to it. */
  datatype Faults = Faults(create: bool, ownership: bool, state: bool, members: bool)

  /** What a handler did, as statements. */
  ghost predicate Did(db: VaultDbService, before: seq<DbStep>, steps: seq<DbStep>)
    reads db
  {
    db.trace == before + steps
  }

  /** The item shows no connection yet. */
  predicate NotConnected(item: VaultData) {
    item.vault == ZERO_ADDRESS || item.connectionOwner == ZERO_ADDRESS
  }

  /**
   `VaultConnected`. A read that fails, or that shows no connection yet, writes nothing at all; otherwise the vault
   is created and connected under its connection owner, and members follow only from a resolved reply. No statement
   names the hub as an owner unless it is the connection owner.
   */
  method OnVaultConnected(
      db: VaultDbService, vault: Address, block: nat, item: Option<VaultData>, answer: nat -> Answer<RawRoleMembers>, faults: Faults,
      ghost hub: Address)
    returns (ok: bool, ghost steps: seq<DbStep>)
    requires db.Valid()
    modifies db
    ensures db.Valid() && Did(db, old(db.trace), steps)
    ensures item == None || item.value.vault == ZERO_ADDRESS || item.value.connectionOwner == ZERO_ADDRESS ==> !ok && steps == []
    ensures steps != [] ==> item.Some? && steps[0] == CreateVault(item.value.vault, false)
    ensures |steps| > 1 ==> steps[1] == WriteOwnership(ConnectWrite(vault, block, item.value.connectionOwner))
    ensures |steps| > 2 ==> IsEventMembersStep(steps[2], vault, block, answer)
    ensures item != None && item.value.vault != ZERO_ADDRESS && item.value.connectionOwner != ZERO_ADDRESS ==>
              |steps| == if faults.create then 0
                         else if faults.ownership then 1
                         else if faults.state || faults.members || !SomeResolved(answer) then 2
                         else 3
    ensures ok ==> |steps| == 3
    ensures item.Some? && !Same(item.value.connectionOwner, hub) ==> SparesHub(steps, hub)
  {
    steps, ok := [], false;
    if item.Some? && !NotConnected(item.value) && !faults.create {
      var _ := db.GetOrCreateVaultByAddress(item.value.vault, false);
      ghost var connect;
      ok, connect := ConnectCreatedVault(db, vault, block, item.value.connectionOwner, answer, faults, hub);
      SparesTogether([CreateVault(item.value.vault, false)], connect, hub);
      Assoc(old(db.trace), [CreateVault(item.value.vault, false)], connect);
      steps := [CreateVault(item.value.vault, false)] + connect;
    }
  }

  lemma SparesTogether(a: seq<DbStep>, b: seq<DbStep>, hub: Address)
    ensures SparesHub(a, hub) && SparesHub(b, hub) ==> SparesHub(a + b, hub)
  {
  }

  lemma MembersStepsSpare(steps: seq<DbStep>, hub: Address)
    requires forall k | 0 <= k < |steps| :: steps[k].SetMembers?
    ensures SparesHub(steps, hub)
  {
  }

  /** How many statements follow the creation of the row. */
  ghost function FollowUps(answer: nat -> Answer<RawRoleMembers>, faults: Faults): nat {
    if faults.ownership then 0
    else if faults.state || faults.members || !SomeResolved(answer) then 1
    else 2
  }

  /** The handler once the row is there. */
  method ConnectCreatedVault(
      db: VaultDbService, vault: Address, block: nat, connectionOwner: Address, answer: nat -> Answer<RawRoleMembers>, faults: Faults,
      ghost hub: Address)
    returns (ok: bool, ghost steps: seq<DbStep>)
    requires db.Valid()
    modifies db
    ensures db.Valid() && Did(db, old(db.trace), steps)
    ensures steps != [] ==> steps[0] == WriteOwnership(ConnectWrite(vault, block, connectionOwner))
    ensures |steps| > 1 ==> IsEventMembersStep(steps[1], vault, block, answer)
    ensures |steps| == FollowUps(answer, faults) && (ok ==> |steps| == 2)
    ensures !Same(connectionOwner, hub) ==> SparesHub(steps, hub)
  {
    steps, ok := [], false;
    if !faults.ownership {
      db.ConnectVault(vault, block, connectionOwner);
      ghost var refresh := [];
      if !faults.state {
        ok, refresh := RefreshConnectedMembers(db, vault, block, answer, faults);
      }
      MembersStepsSpare(refresh, hub);
      Assoc(old(db.trace), [WriteOwnership(ConnectWrite(vault, block, connectionOwner))], refresh);
      SparesTogether([WriteOwnership(ConnectWrite(vault, block, connectionOwner))], refresh, hub);
      steps := [WriteOwnership(ConnectWrite(vault, block, connectionOwner))] + refresh;
    }
  }

  /** The members of a freshly connected vault; a failure here fails the handler. */
  method RefreshConnectedMembers(db: VaultDbService, vault: Address, block: nat, answer: nat -> Answer<RawRoleMembers>, faults: Faults)
    returns (ok: bool, ghost steps: seq<DbStep>)
    requires db.Valid()
    modifies db
    ensures db.Valid() && Did(db, old(db.trace), steps)
    ensures |steps| == (if !faults.members && SomeResolved(answer) then 1 else 0) && (ok ==> |steps| == 1)
    ensures steps != [] ==> IsEventMembersStep(steps[0], vault, block, answer)
  {
    steps, ok := [], false;
    var members := GetRoleMembersWithRetry(vault, block, answer);
    if members.None? || faults.members {
      return;
    }
    ok := db.SetMembersForVault(vault, members.value, block);
    steps := [SetMembers(vault, members.value, block)];
  }

  /** `VaultOwnershipTransferred`. The owner follows; the members are refreshed at once, without failing the handler. */
  method OnVaultOwnershipTransferred(
      db: VaultDbService, vault: Address, newOwner: Address, block: nat, answer: nat -> Answer<RawRoleMembers>, faults: Faults,
      ghost hub: Address)
    returns (ok: bool, ghost steps: seq<DbStep>)
    requires db.Valid()
    modifies db
    ensures db.Valid() && Did(db, old(db.trace), steps)
    ensures ok <==> !faults.ownership
    ensures !ok ==> steps == []
    ensures ok ==> steps != [] && steps[0] == WriteOwnership(TransferWrite(vault, newOwner, block, false))
    ensures |steps| > 1 ==> IsEventMembersStep(steps[1], vault, block, answer)
    ensures |steps| == if !ok then 0 else if !faults.members && SomeResolved(answer) then 2 else 1
    ensures !Same(newOwner, hub) ==> SparesHub(steps, hub)
  {
    steps, ok := [], !faults.ownership;
    if ok {
      db.UpdateVaultOwnership(vault, newOwner, block, false);
      steps := [WriteOwnership(TransferWrite(vault, newOwner, block, false))];
      ghost var refresh := RefreshVaultRoleMembers(db, vault, block, answer, faults.members);
      MembersStepsSpare(refresh, hub);
      Assoc(old(db.trace), steps, refresh);
      SparesTogether(steps, refresh, hub);
      steps := steps + refresh;
    }
  }

  /**
   `VaultDisconnectCompleted`. The flag does not depend on the ownership read: when the read throws, or names
   nobody, every row of the vault that is not newer is still marked disconnected and keeps its owner.
   */
  method OnVaultDisconnectCompleted(db: VaultDbService, vault: Address, block: nat, hub: Address, ownership: Option<OwnerState>, faults: Faults)
    returns (ok: bool)
    requires db.Valid()
    modifies db
    ensures db.Valid()
    ensures ok <==> !faults.ownership
    ensures !ok ==> db.vaults == old(db.vaults) && db.trace == old(db.trace)
    ensures ok ==> |db.vaults| == |old(db.vaults)|
    ensures ok ==> forall i | 0 <= i < |old(db.vaults)| && Same(old(db.vaults)[i].address, vault) && old(db.vaults)[i].ownershipBlock <= block ::
              && db.vaults[i].isDisconnected && db.vaults[i].ownershipBlock == block
              && db.vaults[i].effectiveOwner == (if ownership.Some? && ResolveDisconnectedEffectiveOwner(ownership.value, hub).Some?
                                                 then ResolveDisconnectedEffectiveOwner(ownership.value, hub)
                                                 else old(db.vaults)[i].effectiveOwner)
    ensures ok ==> forall i | 0 <= i < |old(db.vaults)| && !(Same(old(db.vaults)[i].address, vault) && old(db.vaults)[i].ownershipBlock <= block) ::
              db.vaults[i] == old(db.vaults)[i]
    ensures ok ==> exists owner ::
              && db.trace == old(db.trace) + [WriteOwnership(DisconnectWrite(vault, block, owner))]
              && (ownership.None? || !Same(ownership.value.pendingOwner, hub) ==> !NamesHub(WriteOwnership(DisconnectWrite(vault, block, owner)), hub))
              && (owner.Some? ==> ownership.Some? && owner == ResolveDisconnectedEffectiveOwner(ownership.value, hub))
  {
    ok := !faults.ownership;
    if ok {
      var effectiveOwner: Option<Address> := None;
      if ownership.Some? {
        effectiveOwner := ResolveDisconnectedEffectiveOwner(ownership.value, hub);
      }
      db.DisconnectVault(vault, block, effectiveOwner);
    }
  }
}
