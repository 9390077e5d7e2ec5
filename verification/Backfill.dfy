/**
 The ownership backfill: two scans by id cursor over queries whose results shrink while they are walked, and what
 is known when the whole job reports success.
 */
module Backfill {
  import opened Addresses
  import opened Wrappers
  import opened VaultRows
  import opened VaultDb
  import opened OwnershipChain

  /** A contract call reverts (the address is no such contract), cannot be completed, or returns. */
  datatype Call<+T> = Reverts | Unreachable | Returns(value: T)

  datatype Dashboard = Dashboard(stakingVault: Call<Address>, admins: Call<seq<Address>>)

  datatype Failure = Failure

  /** What the job meets at its block; absent keys are reads that throw. */
  datatype World = World(
    ownership: map<Address, OwnerState>,
    hubOwners: map<Address, Address>,
    dashboards: map<Address, Dashboard>,
    failedWrites: set<Address>)

  // ---- One vault without an owner ----

  /** The write that resolves the vault, nothing when neither the vault nor the hub names an owner, or the throw. */
  function OwnerWrite(vault: VaultRow, hub: Address, block: nat, world: World): Result<Option<OwnershipWrite>, Failure> {
    if vault.isDisconnected && vault.address !in world.ownership then Err(Failure)
    else
      var effectiveOwner :=
        if vault.isDisconnected then ResolveDisconnectedEffectiveOwner(world.ownership[vault.address], hub) else None;
      if effectiveOwner.Some? then Ok(Some(DisconnectWrite(vault.address, block, effectiveOwner)))
      else if vault.address !in world.hubOwners then Err(Failure)
      else if world.hubOwners[vault.address] == ZERO_ADDRESS then Ok(None)
      else Ok(Some(ConnectWrite(vault.address, block, world.hubOwners[vault.address])))
  }

  predicate OwnerFails(vault: VaultRow, hub: Address, block: nat, world: World) {
    var w := OwnerWrite(vault, hub, block, world);
    w.Err? || (w.value.Some? && vault.address in world.failedWrites)
  }

  /** Why a vault may rightly stay ownerless. */
  predicate OwnerExcused(row: VaultRow, block: nat, world: World) {
    || row.ownershipBlock > block
    || (row.address in world.hubOwners && world.hubOwners[row.address] == ZERO_ADDRESS)
  }

  /** What resolving its owner makes of a row. */
  function OwnerResolved(row: VaultRow, hub: Address, block: nat, world: World): VaultRow {
    if OwnerFails(row, hub, block, world) || OwnerWrite(row, hub, block, world).value.None? then row
    else ApplyOwnership(row, OwnerWrite(row, hub, block, world).value.value)
  }

  /** A row is as it was, or an owner was filled in; members are not touched. */
  predicate OwnerFilled(before: VaultRow, after: VaultRow) {
    && after.id == before.id && after.address == before.address
    && (after == before || after.effectiveOwner.Some?)
    && after.members == before.members && after.membersOwner == before.membersOwner && after.membersBlock == before.membersBlock
  }

  ghost predicate AllFilled(before: seq<VaultRow>, after: seq<VaultRow>) {
    |after| == |before| && forall j | 0 <= j < |before| :: OwnerFilled(before[j], after[j])
  }

  /** No two rows are one vault in two spellings. */
  ghost predicate OneSpelling(rows: seq<VaultRow>) {
    forall i, j | 0 <= i < j < |rows| :: !Same(rows[i].address, rows[j].address)
  }

  /** What processing one vault did to the table. */
  ghost predicate OneProcessed(vault: VaultRow, before: seq<VaultRow>, after: seq<VaultRow>, hub: Address, block: nat, world: World) {
    && AllFilled(before, after)
    && (forall j | 0 <= j < |before| && !Same(before[j].address, vault.address) :: after[j] == before[j])
    && (forall j | 0 <= j < |before| && before[j] == vault :: after[j] == OwnerResolved(vault, hub, block, world))
  }

  function OwnerSteps(vault: VaultRow, hub: Address, block: nat, world: World): seq<DbStep> {
    if OwnerFails(vault, hub, block, world) || OwnerWrite(vault, hub, block, world).value.None? then []
    else [WriteOwnership(OwnerWrite(vault, hub, block, world).value.value)]
  }

  lemma StepsProcessOne(rows: seq<VaultRow>, vault: VaultRow, hub: Address, block: nat, world: World)
    ensures OwnerSteps(vault, hub, block, world) == [] ==> OneProcessed(vault, rows, rows, hub, block, world)
    ensures forall w | OwnerSteps(vault, hub, block, world) == [WriteOwnership(w)] ::
              OneProcessed(vault, rows, Next(rows, WriteOwnership(w)), hub, block, world)
  {
  }

  // ---- The same, column by column ----

  /** The vault is disconnected and its own contract names an owner: itself, or through a pending owner the hub keeps. */
  ghost predicate NamesItsOwner(vault: VaultRow, hub: Address, world: World, owner: Address) {
    && vault.isDisconnected && vault.address in world.ownership
    && var state := world.ownership[vault.address];
       if Lower(state.owner) == Lower(hub) then state.pendingOwner != ZERO_ADDRESS && owner == state.pendingOwner
       else owner == state.owner
  }

  /** The vault is connected, or its contract says the hub owns it and nobody is to follow. */
  ghost predicate AsksTheHub(vault: VaultRow, hub: Address, world: World) {
    !vault.isDisconnected
    || (vault.address in world.ownership
        && Lower(world.ownership[vault.address].owner) == Lower(hub)
        && world.ownership[vault.address].pendingOwner == ZERO_ADDRESS)
  }

  /** Every read it takes succeeds, and so does the write, if it comes to one. */
  ghost predicate OwnerGoesThrough(vault: VaultRow, hub: Address, world: World) {
    || ((exists o :: NamesItsOwner(vault, hub, world, o)) && vault.address !in world.failedWrites)
    || (AsksTheHub(vault, hub, world) && vault.address in world.hubOwners
        && (world.hubOwners[vault.address] == ZERO_ADDRESS || vault.address !in world.failedWrites))
  }

  /** What the resolution of a vault does to a row, and whether it throws. */
  ghost predicate OwnerOutcome(vault: VaultRow, before: VaultRow, after: VaultRow, ok: bool, hub: Address, block: nat, world: World) {
    var mine := Lower(before.address) == Lower(vault.address) && before.ownershipBlock <= block;
    && (ok <==> OwnerGoesThrough(vault, hub, world))
    && (forall o | ok && mine && NamesItsOwner(vault, hub, world, o) ::
          after == before.(isDisconnected := true, effectiveOwner := Some(o), ownershipBlock := block))
    && (ok && mine && AsksTheHub(vault, hub, world) && world.hubOwners[vault.address] != ZERO_ADDRESS ==>
          after == before.(isDisconnected := false, effectiveOwner := Some(world.hubOwners[vault.address]), ownershipBlock := block))
    && (!ok || !mine || (AsksTheHub(vault, hub, world) && world.hubOwners[vault.address] == ZERO_ADDRESS) ==> after == before)
  }

  lemma StepsHaveOutcome(vault: VaultRow, before: VaultRow, hub: Address, block: nat, world: World)
    ensures var ok := !OwnerFails(vault, hub, block, world);
            && (OwnerSteps(vault, hub, block, world) == [] ==> OwnerOutcome(vault, before, before, ok, hub, block, world))
            && (forall w | OwnerSteps(vault, hub, block, world) == [WriteOwnership(w)] ::
                  OwnerOutcome(vault, before, ApplyOwnership(before, w), ok, hub, block, world))
  {
    if vault.isDisconnected && vault.address in world.ownership {
      var state := world.ownership[vault.address];
      if Lower(state.owner) != Lower(hub) {
        assert NamesItsOwner(vault, hub, world, state.owner);
      } else if state.pendingOwner != ZERO_ADDRESS {
        assert NamesItsOwner(vault, hub, world, state.pendingOwner);
      }
    }
  }

  /** A connected vault is never marked disconnected, and one that ends disconnected was so before. */
  lemma ResolvingNeverDisconnects(row: VaultRow, hub: Address, block: nat, world: World)
    ensures OwnerOutcome(row, row, OwnerResolved(row, hub, block, world), !OwnerFails(row, hub, block, world), hub, block, world)
    ensures OwnerResolved(row, hub, block, world).isDisconnected ==> row.isDisconnected
  {
    StepsHaveOutcome(row, row, hub, block, world);
  }

  /**
   A disconnected vault gets its resolved owner; a connected one, or one that names nobody, the owner the hub has on
   record, unless that is the zero address.
   */
  method BackfillSingleVaultOwnership(db: VaultDbService, vault: VaultRow, hub: Address, block: nat, world: World) returns (ok: bool)
    requires db.Valid()
    modifies db
    ensures db.Valid()
    ensures ok <==> !OwnerFails(vault, hub, block, world)
    ensures OneProcessed(vault, old(db.vaults), db.vaults, hub, block, world)
    ensures db.trace == old(db.trace) + OwnerSteps(vault, hub, block, world)
    ensures forall j | 0 <= j < |old(db.vaults)| :: OwnerOutcome(vault, old(db.vaults)[j], db.vaults[j], ok, hub, block, world)
  {
    StepsProcessOne(db.vaults, vault, hub, block, world);
    forall j | 0 <= j < |db.vaults|
      ensures var good := !OwnerFails(vault, hub, block, world);
              && (OwnerSteps(vault, hub, block, world) == [] ==>
                    OwnerOutcome(vault, db.vaults[j], db.vaults[j], good, hub, block, world))
              && (forall w | OwnerSteps(vault, hub, block, world) == [WriteOwnership(w)] ::
                    OwnerOutcome(vault, db.vaults[j], NextRow(db.vaults[j], WriteOwnership(w)), good, hub, block, world))
    {
      StepsHaveOutcome(vault, db.vaults[j], hub, block, world);
    }
    assert db.trace == db.trace + [];
    if vault.isDisconnected {
      if vault.address !in world.ownership {
        return false;
      }
      var effectiveOwner := ResolveDisconnectedEffectiveOwner(world.ownership[vault.address], hub);
      if effectiveOwner.Some? {
        ok := vault.address !in world.failedWrites;
        if ok {
          db.DisconnectVault(vault.address, block, effectiveOwner);
        }
        return;
      }
    }
    if vault.address !in world.hubOwners {
      return false;
    }
    var owner := world.hubOwners[vault.address];
    if owner == ZERO_ADDRESS {
      return true;
    }
    ok := vault.address !in world.failedWrites;
    if ok {
      db.ConnectVault(vault.address, block, owner);
    }
  }

  /** No vault has the hub for its pending owner, or for its owner in the hub. */
  ghost predicate HubOwnsNothing(world: World, hub: Address) {
    && (forall a | a in world.ownership :: !Same(world.ownership[a].pendingOwner, hub))
    && (forall a | a in world.hubOwners :: !Same(world.hubOwners[a], hub))
  }

  /** Statements were added, none of which names the hub as an owner. */
  ghost predicate GrewSparingHub(before: seq<DbStep>, after: seq<DbStep>, hub: Address) {
    before <= after && forall k | |before| <= k < |after| :: !NamesHub(after[k], hub)
  }

  lemma GrewTwice(a: seq<DbStep>, b: seq<DbStep>, c: seq<DbStep>, hub: Address)
    requires GrewSparingHub(a, b, hub) && GrewSparingHub(b, c, hub)
    ensures GrewSparingHub(a, c, hub)
  {
    forall k | |a| <= k < |c|
      ensures !NamesHub(c[k], hub)
    {
      assert k < |b| ==> c[k] == b[k];
    }
  }

  /** A resolved owner is not the hub, so neither is any owner the backfill writes. */
  lemma OwnerWriteSparesHub(vault: VaultRow, hub: Address, block: nat, world: World)
    requires HubOwnsNothing(world, hub)
    ensures var w := OwnerWrite(vault, hub, block, world);
            w.Ok? && w.value.Some? ==> !NamesHub(WriteOwnership(w.value.value), hub)
  {
    if vault.address in world.ownership {
      ResolvedIsNotHub(world.ownership[vault.address], hub);
    }
  }

  lemma OwnerStepsSpareHub(before: seq<DbStep>, vault: VaultRow, hub: Address, block: nat, world: World)
    ensures HubOwnsNothing(world, hub) ==> GrewSparingHub(before, before + OwnerSteps(vault, hub, block, world), hub)
  {
    if HubOwnsNothing(world, hub) {
      OwnerWriteSparesHub(vault, hub, block, world);
    }
  }

  // ---- The two cursor loops ----

  ghost predicate AscendingIds(ids: seq<nat>) {
    forall j, k | 0 <= j < k < |ids| :: ids[j] < ids[k]
  }

  /** The rows a cursor loop visited, as they were when it began: each at most once, in id order, up to the cursor. */
  ghost predicate VisitedSoFar(visited: seq<nat>, start: seq<VaultRow>, q: Query, afterId: nat) {
    && AscendingIds(visited)
    && (forall id | id in visited :: id <= afterId && exists j :: 0 <= j < |start| && start[j].id == id && Selected(start[j], q))
  }

  lemma VisitOneMore(visited: seq<nat>, start: seq<VaultRow>, q: Query, afterId: nat, j: nat)
    requires VisitedSoFar(visited, start, q, afterId)
    requires j < |start| && Selected(start[j], q) && start[j].id > afterId
    ensures VisitedSoFar(visited + [start[j].id], start, q, start[j].id)
  {
    forall a, b | 0 <= a < b < |visited| + 1
      ensures (visited + [start[j].id])[a] < (visited + [start[j].id])[b]
    {
      if b == |visited| {
        assert visited[a] in visited;
      }
    }
  }

  /** The invariant of the owner loop. */
  ghost predicate OwnersProgress(
      start: seq<VaultRow>, now: seq<VaultRow>, visited: seq<nat>, afterId: nat, failed: nat, hub: Address, block: nat, world: World) {
    && AllFilled(start, now)
    && VisitedSoFar(visited, start, WithoutOwnership, afterId)
    && (forall j | 0 <= j < |start| && start[j].effectiveOwner.None? && start[j].id <= afterId ::
          start[j].id in visited || now[j].effectiveOwner.Some?)
    && (forall j | 0 <= j < |start| && start[j].id in visited && now[j].effectiveOwner.None? ::
          OwnerFails(start[j], hub, block, world) || OwnerExcused(start[j], block, world))
    && (failed > 0 <==> exists j :: 0 <= j < |start| && start[j].id in visited && OwnerFails(start[j], hub, block, world))
    && (OneSpelling(start) ==> EachResolved(start, now, visited, hub, block, world))
  }

  /** Every visited row is resolved on its own, and no other row changed. */
  ghost predicate EachResolved(start: seq<VaultRow>, now: seq<VaultRow>, visited: seq<nat>, hub: Address, block: nat, world: World)
    requires |now| == |start|
  {
    forall j | 0 <= j < |start| :: now[j] == if start[j].id in visited then OwnerResolved(start[j], hub, block, world) else start[j]
  }

  /** The cursor inside a page: the last id processed. */
  function Cursor(page: seq<VaultRow>, k: nat, afterId: nat): nat
    requires k <= |page|
  {
    if k == 0 then afterId else page[k - 1].id
  }

  /** Between two consecutive ids of a page the table it was taken from selects nothing. */
  lemma NothingBetween(page: seq<VaultRow>, loaded: seq<VaultRow>, q: Query, afterId: nat, k: nat, r: VaultRow)
    requires IsPage(page, loaded, q, afterId) && k < |page|
    requires r in loaded && Selected(r, q) && Cursor(page, k, afterId) < r.id <= page[k].id
    ensures r == page[k]
  {
    if k > 0 {
      assert page[k - 1] in page;
    }
    assert r in page;
    var m :| 0 <= m < |page| && page[m] == r;
  }

  /** Filling owners in composes. */
  lemma FilledTwice(a: seq<VaultRow>, b: seq<VaultRow>, c: seq<VaultRow>)
    requires AllFilled(a, b) && AllFilled(b, c)
    ensures AllFilled(a, c)
  {
    forall j | 0 <= j < |a|
      ensures OwnerFilled(a[j], c[j])
    {
      assert OwnerFilled(a[j], b[j]) && OwnerFilled(b[j], c[j]);
    }
  }

  /** A vault loaded without an owner is still as it was when the loop began. */
  lemma LoadedIsAsAtStart(start: seq<VaultRow>, loaded: seq<VaultRow>, vault: VaultRow) returns (j: nat)
    requires AllFilled(start, loaded) && vault in loaded && vault.effectiveOwner.None?
    ensures j < |start| && start[j] == vault && loaded[j] == vault
  {
    j :| 0 <= j < |loaded| && loaded[j] == vault;
    assert OwnerFilled(start[j], loaded[j]);
  }

  lemma IdsAreUnique(rows: seq<VaultRow>, i: nat, j: nat)
    requires WellFormed(rows) && i < |rows| && j < |rows| && rows[i].id == rows[j].id
    ensures i == j
  {
  }

  lemma OwnersStep(
      start: seq<VaultRow>, loaded: seq<VaultRow>, page: seq<VaultRow>, afterId: nat, k: nat,
      before: seq<VaultRow>, after: seq<VaultRow>, visited: seq<nat>, failed: nat, ok: bool, hub: Address, block: nat, world: World)
    requires WellFormed(start) && k < |page|
    requires AllFilled(start, loaded) && AllFilled(loaded, before) && IsPage(page, loaded, WithoutOwnership, afterId)
    requires OwnersProgress(start, before, visited, Cursor(page, k, afterId), failed, hub, block, world)
    requires ok == !OwnerFails(page[k], hub, block, world) && OneProcessed(page[k], before, after, hub, block, world)
    ensures AllFilled(loaded, after)
    ensures OwnersProgress(start, after, visited + [page[k].id], page[k].id, if ok then failed else failed + 1, hub, block, world)
  {
    var vault := page[k];
    assert vault in page;
    var j := LoadedIsAsAtStart(start, loaded, vault);
    FilledTwice(start, before, after);
    FilledTwice(loaded, before, after);
    VisitOneMoreInPage(start, page, loaded, afterId, k, visited, j);
    NotVisitedYet(page, loaded, afterId, k, visited, start);
    OwnersStepCoverage(start, loaded, page, afterId, k, before, after, visited, j);
    OwnersStepExcuses(start, before, after, visited, vault, j, hub, block, world);
    OwnersStepFailures(start, visited, failed, ok, vault, j, hub, block, world);
    if OneSpelling(start) {
      OwnersStepRows(start, before, after, visited, vault, j, hub, block, world);
    }
  }

  lemma VisitOneMoreInPage(
      start: seq<VaultRow>, page: seq<VaultRow>, loaded: seq<VaultRow>, afterId: nat, k: nat, visited: seq<nat>, j: nat)
    requires k < |page| && IsPage(page, loaded, WithoutOwnership, afterId)
    requires VisitedSoFar(visited, start, WithoutOwnership, Cursor(page, k, afterId))
    requires j < |start| && start[j] == page[k]
    ensures VisitedSoFar(visited + [page[k].id], start, WithoutOwnership, page[k].id)
  {
    assert page[k] in page;
    VisitOneMore(visited, start, WithoutOwnership, Cursor(page, k, afterId), j);
  }

  lemma NotVisitedYet(page: seq<VaultRow>, loaded: seq<VaultRow>, afterId: nat, k: nat, visited: seq<nat>, start: seq<VaultRow>)
    requires k < |page| && IsPage(page, loaded, WithoutOwnership, afterId)
    requires VisitedSoFar(visited, start, WithoutOwnership, Cursor(page, k, afterId))
    ensures page[k].id !in visited
  {
    assert page[k] in page;
  }

  lemma OwnersStepCoverage(
      start: seq<VaultRow>, loaded: seq<VaultRow>, page: seq<VaultRow>, afterId: nat, k: nat,
      before: seq<VaultRow>, after: seq<VaultRow>, visited: seq<nat>, v: nat)
    requires WellFormed(start) && k < |page| && v < |start| && start[v] == page[k]
    requires AllFilled(start, loaded) && AllFilled(loaded, before) && AllFilled(before, after)
    requires IsPage(page, loaded, WithoutOwnership, afterId)
    requires forall j | 0 <= j < |start| && start[j].effectiveOwner.None? && start[j].id <= Cursor(page, k, afterId) ::
               start[j].id in visited || before[j].effectiveOwner.Some?
    ensures forall j | 0 <= j < |start| && start[j].effectiveOwner.None? && start[j].id <= page[k].id ::
              start[j].id in visited + [page[k].id] || after[j].effectiveOwner.Some?
  {
    forall j | 0 <= j < |start| && start[j].effectiveOwner.None? && start[j].id <= page[k].id
      ensures start[j].id in visited + [page[k].id] || after[j].effectiveOwner.Some?
    {
      assert OwnerFilled(before[j], after[j]) && OwnerFilled(loaded[j], before[j]) && OwnerFilled(start[j], loaded[j]);
      if start[j].id > Cursor(page, k, afterId) && loaded[j].effectiveOwner.None? {
        assert loaded[j] in loaded;
        NothingBetween(page, loaded, WithoutOwnership, afterId, k, loaded[j]);
      }
    }
  }

  lemma OwnersStepExcuses(
      start: seq<VaultRow>, before: seq<VaultRow>, after: seq<VaultRow>, visited: seq<nat>,
      vault: VaultRow, v: nat, hub: Address, block: nat, world: World)
    requires WellFormed(start) && v < |start| && start[v] == vault && vault.effectiveOwner.None?
    requires AllFilled(start, before) && OneProcessed(vault, before, after, hub, block, world)
    requires forall j | 0 <= j < |start| && start[j].id in visited && before[j].effectiveOwner.None? ::
               OwnerFails(start[j], hub, block, world) || OwnerExcused(start[j], block, world)
    ensures forall j | 0 <= j < |start| && start[j].id in visited + [vault.id] && after[j].effectiveOwner.None? ::
              OwnerFails(start[j], hub, block, world) || OwnerExcused(start[j], block, world)
  {
    forall j | 0 <= j < |start| && start[j].id in visited + [vault.id] && after[j].effectiveOwner.None?
      ensures OwnerFails(start[j], hub, block, world) || OwnerExcused(start[j], block, world)
    {
      assert OwnerFilled(start[j], before[j]) && OwnerFilled(before[j], after[j]);
      if start[j].id == vault.id {
        IdsAreUnique(start, j, v);
      }
    }
  }

  lemma OwnersStepFailures(
      start: seq<VaultRow>, visited: seq<nat>, failed: nat, ok: bool, vault: VaultRow, v: nat, hub: Address, block: nat, world: World)
    requires WellFormed(start) && v < |start| && start[v] == vault && ok == !OwnerFails(vault, hub, block, world)
    requires failed > 0 <==> exists j :: 0 <= j < |start| && start[j].id in visited && OwnerFails(start[j], hub, block, world)
    ensures var visited', failed' := visited + [vault.id], if ok then failed else failed + 1;
            failed' > 0 <==> exists j :: 0 <= j < |start| && start[j].id in visited' && OwnerFails(start[j], hub, block, world)
  {
    var visited', failed' := visited + [vault.id], if ok then failed else failed + 1;
    assert forall id :: id in visited' <==> id in visited || id == vault.id;
    if failed' > 0 {
      if failed > 0 {
        var j :| 0 <= j < |start| && start[j].id in visited && OwnerFails(start[j], hub, block, world);
        assert start[j].id in visited';
      } else {
        assert start[v].id in visited';
      }
    }
    if j :| 0 <= j < |start| && start[j].id in visited' && OwnerFails(start[j], hub, block, world) {
      if start[j].id == vault.id {
        IdsAreUnique(start, j, v);
      }
    }
  }

  lemma OwnersStepRows(
      start: seq<VaultRow>, before: seq<VaultRow>, after: seq<VaultRow>, visited: seq<nat>, vault: VaultRow, v: nat,
      hub: Address, block: nat, world: World)
    requires WellFormed(start) && v < |start| && start[v] == vault && OneSpelling(start) && vault.id !in visited
    requires AllFilled(start, before) && OneProcessed(vault, before, after, hub, block, world)
    requires EachResolved(start, before, visited, hub, block, world)
    ensures EachResolved(start, after, visited + [vault.id], hub, block, world)
  {
    forall j | 0 <= j < |start|
      ensures after[j] == if start[j].id in visited + [vault.id] then OwnerResolved(start[j], hub, block, world) else start[j]
    {
      if start[j].id == vault.id {
        IdsAreUnique(start, j, v);
      } else {
        assert j != v && !Same(before[j].address, vault.address) by {
          assert OwnerFilled(start[j], before[j]) && !Same(start[j].address, start[v].address);
        }
      }
    }
  }

  function LastId(rows: seq<VaultRow>): nat {
    if rows == [] then 0 else rows[|rows| - 1].id
  }

  /** The owner loop in the middle of a page. */
  ghost predicate InPage(
      start: seq<VaultRow>, loaded: seq<VaultRow>, page: seq<VaultRow>, from: nat, k: nat,
      now: seq<VaultRow>, visited: seq<nat>, failed: nat, hub: Address, block: nat, world: World)
  {
    && WellFormed(start) && k <= |page|
    && IsPage(page, loaded, WithoutOwnership, from)
    && AllFilled(start, loaded) && AllFilled(loaded, now)
    && OwnersProgress(start, now, visited, Cursor(page, k, from), failed, hub, block, world)
  }

  method ResolveNext(
      db: VaultDbService, page: seq<VaultRow>, k: nat, hub: Address, block: nat, world: World,
      ghost start: seq<VaultRow>, ghost loaded: seq<VaultRow>, ghost from: nat, ghost visited: seq<nat>, failed: nat)
    returns (ghost visited': seq<nat>, failed': nat)
    requires db.Valid() && k < |page|
    requires InPage(start, loaded, page, from, k, db.vaults, visited, failed, hub, block, world)
    modifies db
    ensures db.Valid()
    ensures InPage(start, loaded, page, from, k + 1, db.vaults, visited', failed', hub, block, world)
    ensures HubOwnsNothing(world, hub) ==> GrewSparingHub(old(db.trace), db.trace, hub)
  {
    ghost var before, before' := db.vaults, db.trace;
    var ok := BackfillSingleVaultOwnership(db, page[k], hub, block, world);
    OwnersStep(start, loaded, page, from, k, before, db.vaults, visited, failed, ok, hub, block, world);
    OwnerStepsSpareHub(before', page[k], hub, block, world);
    visited' := visited + [page[k].id];
    failed' := if ok then failed else failed + 1;
  }

  method ResolvePage(
      db: VaultDbService, page: seq<VaultRow>, hub: Address, block: nat, world: World,
      ghost start: seq<VaultRow>, ghost from: nat, ghost visited: seq<nat>, failed: nat)
    returns (ghost visited': seq<nat>, failed': nat)
    requires db.Valid() && page != []
    requires InPage(start, db.vaults, page, from, 0, db.vaults, visited, failed, hub, block, world)
    modifies db
    ensures db.Valid()
    ensures OwnersProgress(start, db.vaults, visited', page[|page| - 1].id, failed', hub, block, world)
    ensures HubOwnsNothing(world, hub) ==> GrewSparingHub(old(db.trace), db.trace, hub)
  {
    ghost var loaded := db.vaults;
    visited', failed' := visited, failed;
    for k := 0 to |page|
      invariant db.Valid()
      invariant InPage(start, loaded, page, from, k, db.vaults, visited', failed', hub, block, world)
      invariant HubOwnsNothing(world, hub) ==> GrewSparingHub(old(db.trace), db.trace, hub)
    {
      ghost var sofar := db.trace;
      visited', failed' := ResolveNext(db, page, k, hub, block, world, start, loaded, from, visited', failed');
      if HubOwnsNothing(world, hub) {
        GrewTwice(old(db.trace), sofar, db.trace, hub);
      }
    }
  }

  /** What the end of the owner scan says about every row. */
  ghost predicate OwnersDone(
      start: seq<VaultRow>, now: seq<VaultRow>, visited: seq<nat>, ok: bool, hub: Address, block: nat, world: World) {
    && AllFilled(start, now)
    && AscendingIds(visited)
    && (forall id | id in visited :: exists j :: 0 <= j < |start| && start[j].id == id && start[j].effectiveOwner.None?)
    && (forall j | 0 <= j < |start| && start[j].effectiveOwner.None? :: start[j].id in visited || now[j].effectiveOwner.Some?)
    && (OneSpelling(start) ==> forall j | 0 <= j < |start| :: start[j].id in visited <==> start[j].effectiveOwner.None?)
    && (OneSpelling(start) ==> EachResolved(start, now, visited, hub, block, world))
    && (OneSpelling(start) ==> forall j | 0 <= j < |start| && !start[j].isDisconnected :: !now[j].isDisconnected)
    && (forall j | 0 <= j < |start| && now[j].effectiveOwner.None? ::
          OwnerFails(start[j], hub, block, world) || OwnerExcused(start[j], block, world))
    && (ok <==> forall j | 0 <= j < |start| && start[j].id in visited :: !OwnerFails(start[j], hub, block, world))
    && (ok ==> forall j | 0 <= j < |start| && now[j].effectiveOwner.None? :: OwnerExcused(now[j], block, world))
  }

  lemma OwnersFinish(
      start: seq<VaultRow>, now: seq<VaultRow>, visited: seq<nat>, afterId: nat, failed: nat, hub: Address, block: nat, world: World)
    requires WellFormed(start)
    requires OwnersProgress(start, now, visited, afterId, failed, hub, block, world)
    requires IsPage([], now, WithoutOwnership, afterId)
    ensures OwnersDone(start, now, visited, failed == 0, hub, block, world)
  {
    forall j | 0 <= j < |start|
      ensures start[j].effectiveOwner.None? ==> start[j].id in visited || now[j].effectiveOwner.Some?
      ensures now[j].effectiveOwner.None? ==> start[j] == now[j]
    {
      assert OwnerFilled(start[j], now[j]) && now[j] in now;
    }
    forall j | 0 <= j < |start| && start[j].id in visited
      ensures start[j].effectiveOwner.None?
    {
      var i :| 0 <= i < |start| && start[i].id == start[j].id && Selected(start[i], WithoutOwnership);
      IdsAreUnique(start, i, j);
    }
    if OneSpelling(start) {
      forall j | 0 <= j < |start|
        ensures !start[j].isDisconnected ==> !now[j].isDisconnected
      {
        ResolvingNeverDisconnects(start[j], hub, block, world);
      }
    }
  }

  /** The end of the owner scan, row by row and column by column, when no vault is stored in two spellings. */
  lemma OwnersDoneMeans(
      start: seq<VaultRow>, now: seq<VaultRow>, visited: seq<nat>, ok: bool, hub: Address, block: nat, world: World, j: nat)
    requires OwnersDone(start, now, visited, ok, hub, block, world) && OneSpelling(start) && j < |start|
    ensures if start[j].effectiveOwner == None
            then OwnerOutcome(start[j], start[j], now[j], OwnerGoesThrough(start[j], hub, world), hub, block, world)
            else now[j] == start[j]
    ensures ok ==> start[j].effectiveOwner == None ==> OwnerGoesThrough(start[j], hub, world)
    ensures !ok ==> exists i :: 0 <= i < |start| && start[i].effectiveOwner == None && !OwnerGoesThrough(start[i], hub, world)
  {
    forall i | 0 <= i < |start|
      ensures OwnerOutcome(start[i], start[i], OwnerResolved(start[i], hub, block, world),
                           !OwnerFails(start[i], hub, block, world), hub, block, world)
    {
      ResolvingNeverDisconnects(start[i], hub, block, world);
    }
  }

  lemma PageOpens(
      start: seq<VaultRow>, now: seq<VaultRow>, page: seq<VaultRow>, afterId: nat, visited: seq<nat>, failed: nat,
      hub: Address, block: nat, world: World)
    requires WellFormed(start) && IsPage(page, now, WithoutOwnership, afterId) && page != []
    requires OwnersProgress(start, now, visited, afterId, failed, hub, block, world)
    ensures InPage(start, now, page, afterId, 0, now, visited, failed, hub, block, world)
    ensures afterId < page[|page| - 1].id <= LastId(start)
  {
    assert page[|page| - 1] in page;
    var j :| 0 <= j < |now| && now[j] == page[|page| - 1];
    assert OwnerFilled(start[j], now[j]);
  }

  /**
   The owner scan. It ends; it visits ids in ascending order, so none twice; every row without an owner at the
   start is visited or was filled through another spelling of its vault; and it reports success exactly when no
   visited vault failed.
   */
  method ResolveMissingVaultOwners(db: VaultDbService, hub: Address, block: nat, world: World, batchSize: nat)
    returns (ok: bool, ghost visited: seq<nat>)
    requires db.Valid() && batchSize >= 1
    modifies db
    ensures db.Valid()
    ensures OwnersDone(old(db.vaults), db.vaults, visited, ok, hub, block, world)
    ensures HubOwnsNothing(world, hub) ==> GrewSparingHub(old(db.trace), db.trace, hub)
  {
    ghost var start := db.vaults;
    var afterId, failed := 0, 0;
    visited := [];
    assert OwnersProgress(start, db.vaults, visited, 0, 0, hub, block, world);
    while true
      invariant db.Valid() && WellFormed(start)
      invariant OwnersProgress(start, db.vaults, visited, afterId, failed, hub, block, world)
      invariant afterId <= LastId(start)
      invariant HubOwnsNothing(world, hub) ==> GrewSparingHub(old(db.trace), db.trace, hub)
      decreases LastId(start) - afterId
    {
      ghost var sofar := db.trace;
      var page := db.GetPage(WithoutOwnership, batchSize, afterId);
      if page == [] {
        break;
      }
      PageOpens(start, db.vaults, page, afterId, visited, failed, hub, block, world);
      visited, failed := ResolvePage(db, page, hub, block, world, start, afterId, visited, failed);
      if HubOwnsNothing(world, hub) {
        GrewTwice(old(db.trace), sofar, db.trace, hub);
      }
      afterId := page[|page| - 1].id;
    }
    OwnersFinish(start, db.vaults, visited, afterId, failed, hub, block, world);
    ok := failed == 0;
  }
}
