/** The second scan of the backfill, over disconnected vaults with stale members, and the backfill as a whole. */
module MembersRepair {
  import opened Addresses
  import opened Wrappers
  import opened VaultRows
  import opened VaultDb
  import opened Backfill

  // ---- One vault with stale members ----

  function WithoutZero(admins: seq<Address>): seq<Address> {
    if admins == [] then []
    else WithoutZero(admins[..|admins| - 1]) + if admins[|admins| - 1] != ZERO_ADDRESS then [admins[|admins| - 1]] else []
  }

  /**
   The admins of the Dashboard that owns the vault; nobody when the owner is not the Dashboard of this very vault;
   a throw when a call could not be completed.
   */
  function ReadVaultDashboardAdmins(vault: VaultRow, world: World): Result<Option<seq<Address>>, Failure> {
    if vault.effectiveOwner.None? || vault.effectiveOwner.value == "" || vault.effectiveOwner.value == ZERO_ADDRESS then Ok(None)
    else if vault.effectiveOwner.value !in world.dashboards then Err(Failure)
    else
      var d := world.dashboards[vault.effectiveOwner.value];
      match d.stakingVault
      case Reverts => Ok(None)
      case Unreachable => Err(Failure)
      case Returns(bound) =>
        if !Same(bound, vault.address) then Ok(None)
        else
          match d.admins
          case Reverts => Ok(None)
          case Unreachable => Err(Failure)
          case Returns(admins) => Ok(Some(WithoutZero(admins)))
  }

  function RepairedMembers(owner: Address, admins: Option<seq<Address>>): RoleMembers {
    if admins.Some? && |admins.value| > 0
    then map[StakingVaultOwner := [owner], DashboardOwner := admins.value]
    else map[StakingVaultOwner := [owner]]
  }

  predicate RepairFails(vault: VaultRow, block: nat, world: World) {
    var admins := ReadVaultDashboardAdmins(vault, world);
    || admins.Err?
    || vault.address in world.failedWrites
    || (vault.effectiveOwner.Some? && vault.membersBlock <= block && !NoDuplicates(RepairedMembers(vault.effectiveOwner.value, admins.value)))
  }

  // ---- The same, address by address ----

  /** The owner may be a contract to ask at all. */
  ghost predicate HasUsableOwner(vault: VaultRow) {
    vault.effectiveOwner != None && vault.effectiveOwner.value != "" && vault.effectiveOwner.value != ZERO_ADDRESS
  }

  /** The owner answers as the Dashboard of this very vault. */
  ghost predicate IsItsDashboard(vault: VaultRow, world: World) {
    && HasUsableOwner(vault) && vault.effectiveOwner.value in world.dashboards
    && var bound := world.dashboards[vault.effectiveOwner.value].stakingVault;
       bound.Returns? && Lower(bound.value) == Lower(vault.address)
  }

  /** And names this address as an admin. */
  ghost predicate IsItsAdmin(vault: VaultRow, world: World, a: Address) {
    && IsItsDashboard(vault, world) && a != ZERO_ADDRESS
    && var admins := world.dashboards[vault.effectiveOwner.value].admins;
       admins.Returns? && a in admins.value
  }

  /** A call that could not be completed, as opposed to one that shows the owner is no Dashboard. */
  ghost predicate CallIsLost(vault: VaultRow, world: World) {
    HasUsableOwner(vault)
    && (vault.effectiveOwner.value !in world.dashboards
        || world.dashboards[vault.effectiveOwner.value].stakingVault.Unreachable?
        || (IsItsDashboard(vault, world) && world.dashboards[vault.effectiveOwner.value].admins.Unreachable?))
  }

  /** The Dashboard names an admin twice, which the members table refuses. */
  ghost predicate AdminIsNamedTwice(vault: VaultRow, world: World) {
    && IsItsDashboard(vault, world) && world.dashboards[vault.effectiveOwner.value].admins.Returns?
    && var admins := world.dashboards[vault.effectiveOwner.value].admins.value;
       exists p, q :: 0 <= p < q < |admins| && admins[p] == admins[q] && admins[p] != ZERO_ADDRESS
  }

  /** What the repair of a vault makes of its row, and whether it throws. */
  ghost predicate RepairOutcome(vault: VaultRow, after: VaultRow, ok: bool, block: nat, world: World) {
    && (ok <==>
          && !CallIsLost(vault, world) && vault.address !in world.failedWrites
          && (vault.membersBlock > block || !AdminIsNamedTwice(vault, world)))
    && (!ok || vault.membersBlock > block ==> after == vault)
    && (ok && vault.membersBlock <= block ==>
          && (forall a :: Member(DashboardOwner, a) in after.members <==> IsItsAdmin(vault, world, a))
          && (forall a :: Member(StakingVaultOwner, a) in after.members <==> vault.effectiveOwner == Some(a))
          && (forall m | m in after.members :: m.role == DashboardOwner || m.role == StakingVaultOwner)
          && after.membersOwner == (if HasUsableOwner(vault) then vault.effectiveOwner else None)
          && after.membersBlock == block
          && after == vault.(members := after.members, membersOwner := after.membersOwner, membersBlock := after.membersBlock))
  }

  lemma {:induction false} WithoutZeroHas(admins: seq<Address>, a: Address)
    ensures a in WithoutZero(admins) <==> a in admins && a != ZERO_ADDRESS
  {
    if admins != [] {
      WithoutZeroHas(admins[..|admins| - 1], a);
      assert admins == admins[..|admins| - 1] + [admins[|admins| - 1]];
    }
  }

  ghost predicate NamesTwice(list: seq<Address>) {
    exists p, q :: 0 <= p < q < |list| && list[p] == list[q] && list[p] != ZERO_ADDRESS
  }

  lemma NamesTwiceFront(list: seq<Address>, a: Address)
    ensures NamesTwice(list + [a]) <==> NamesTwice(list) || (a != ZERO_ADDRESS && a in list)
  {
    var all := list + [a];
    if NamesTwice(list) {
      var p, q :| 0 <= p < q < |list| && list[p] == list[q] && list[p] != ZERO_ADDRESS;
      assert all[p] == all[q];
    }
    if a != ZERO_ADDRESS && a in list {
      var p :| 0 <= p < |list| && list[p] == a;
      assert all[p] == all[|list|];
    }
    if NamesTwice(all) {
      var p, q :| 0 <= p < q < |all| && all[p] == all[q] && all[p] != ZERO_ADDRESS;
      if q < |list| {
        assert list[p] == list[q];
      } else {
        assert list[p] == a;
      }
    }
  }

  lemma {:induction false} WithoutZeroNamesTwiceIff(admins: seq<Address>)
    ensures NamesTwice(WithoutZero(admins)) <==> NamesTwice(admins)
  {
    if admins != [] {
      var init, a := admins[..|admins| - 1], admins[|admins| - 1];
      WithoutZeroNamesTwiceIff(init);
      WithoutZeroHas(init, a);
      NamesTwiceFront(init, a);
      NamesTwiceFront(WithoutZero(init), a);
      assert admins == init + [a];
      assert WithoutZero(init) + [] == WithoutZero(init);
    }
  }

  lemma DuplicateAdminsIff(owner: Address, admins: seq<Address>)
    ensures NoDuplicates(RepairedMembers(owner, Some(WithoutZero(admins)))) <==> !NamesTwice(admins)
  {
    WithoutZeroNamesTwiceIff(admins);
    var list := WithoutZero(admins);
    forall k | 0 <= k < |list|
      ensures list[k] != ZERO_ADDRESS
    {
      WithoutZeroHas(admins, list[k]);
    }
    if list != [] {
      assert RepairedMembers(owner, Some(list))[DashboardOwner] == list;
    }
  }

  /** The repair as specified has this outcome. */
  lemma RepairHasOutcome(vault: VaultRow, block: nat, world: World)
    requires vault.effectiveOwner.Some?
    ensures RepairOutcome(vault, RepairedRow(vault, block, world), !RepairFails(vault, block, world), block, world)
  {
    var owner := vault.effectiveOwner.value;
    var read := ReadVaultDashboardAdmins(vault, world);
    assert read.Err? <==> CallIsLost(vault, world);
    if read.Ok? && read.value.Some? {
      var admins := world.dashboards[owner].admins.value;
      DuplicateAdminsIff(owner, admins);
      forall a
        ensures a in WithoutZero(admins) <==> a in admins && a != ZERO_ADDRESS
      {
        WithoutZeroHas(admins, a);
      }
    }
  }

  /** Why the members of a vault may rightly stay stale. */
  predicate RepairExcused(row: VaultRow, block: nat) {
    row.membersBlock > block || row.effectiveOwner == Some(ZERO_ADDRESS) || row.effectiveOwner == Some("")
  }

  /** Only the members columns may differ. */
  predicate MembersOnly(before: VaultRow, after: VaultRow) {
    after.(members := before.members, membersOwner := before.membersOwner, membersBlock := before.membersBlock) == before
  }

  /** The members write of a vault, when its Dashboard could be read and the write goes through. */
  function RepairSteps(vault: VaultRow, block: nat, world: World): seq<DbStep>
    requires vault.effectiveOwner.Some?
  {
    var admins := ReadVaultDashboardAdmins(vault, world);
    if admins.Err? || vault.address in world.failedWrites then []
    else [SetMembers(vault.address, RepairedMembers(vault.effectiveOwner.value, admins.value), block)]
  }

  /** What the repair makes of a row. */
  function RepairedRow(row: VaultRow, block: nat, world: World): VaultRow
    requires row.effectiveOwner.Some?
  {
    if RepairSteps(row, block, world) == [] then row else NextRow(row, RepairSteps(row, block, world)[0])
  }

  /** A vault whose repair did not fail is not stale any more, or has an excuse. */
  lemma RepairedOrExcused(row: VaultRow, block: nat, world: World)
    requires row.effectiveOwner.Some?
    ensures var after := RepairedRow(row, block, world);
            && MembersOnly(row, after)
            && (!RepairFails(row, block, world) && Selected(after, DisconnectedWithStaleMembers) ==> RepairExcused(after, block))
  {
  }

  ghost predicate OneRepaired(j: nat, before: seq<VaultRow>, after: seq<VaultRow>, block: nat, world: World) {
    && j < |before| == |after|
    && (forall i | 0 <= i < |before| && i != j :: after[i] == before[i])
    && before[j].effectiveOwner.Some? && after[j] == RepairedRow(before[j], block, world)
  }

  method RepairVault(db: VaultDbService, vault: VaultRow, block: nat, world: World, ghost j: nat) returns (ok: bool)
    requires db.Valid() && j < |db.vaults| && db.vaults[j] == vault && vault.effectiveOwner.Some?
    modifies db
    ensures db.Valid()
    ensures ok <==> !RepairFails(vault, block, world)
    ensures OneRepaired(j, old(db.vaults), db.vaults, block, world)
    ensures db.trace == old(db.trace) + RepairSteps(vault, block, world)
    ensures RepairOutcome(vault, db.vaults[j], ok, block, world)
  {
    RepairHasOutcome(vault, block, world);
    var admins := ReadVaultDashboardAdmins(vault, world);
    ok := admins.Ok? && vault.address !in world.failedWrites;
    assert db.trace == db.trace + [];
    if ok {
      var members := RepairedMembers(vault.effectiveOwner.value, admins.value);
      SetMembersReachesOne(db.vaults, j, members, block);
      ok := db.SetMembersForVault(vault.address, members, block);
    }
  }

  /** Addresses are unique, so a members write concerns one row. */
  lemma SetMembersReachesOne(rows: seq<VaultRow>, j: nat, members: RoleMembers, block: nat)
    requires WellFormed(rows) && j < |rows|
    ensures var next := Next(rows, SetMembers(rows[j].address, members, block));
            && |next| == |rows|
            && (forall i | 0 <= i < |rows| && i != j :: next[i] == rows[i])
            && next[j] == NextRow(rows[j], SetMembers(rows[j].address, members, block))
    ensures forall r | r in rows && r.address == rows[j].address :: r == rows[j]
    ensures rows[j] in rows
  {
    forall r | r in rows && r.address == rows[j].address
      ensures r == rows[j]
    {
      var i :| 0 <= i < |rows| && rows[i] == r;
    }
  }

  /** Statements were added, all of which set members. */
  ghost predicate GrewByMembers(before: seq<DbStep>, after: seq<DbStep>) {
    before <= after && forall k | |before| <= k < |after| :: after[k].SetMembers?
  }

  lemma GrewByMembersTwice(a: seq<DbStep>, b: seq<DbStep>, c: seq<DbStep>)
    requires GrewByMembers(a, b) && GrewByMembers(b, c)
    ensures GrewByMembers(a, c)
  {
    forall k | |a| <= k < |c|
      ensures c[k].SetMembers?
    {
      assert k < |b| ==> c[k] == b[k];
    }
  }

  lemma RepairStepsSetMembers(before: seq<DbStep>, vault: VaultRow, block: nat, world: World)
    requires vault.effectiveOwner.Some?
    ensures GrewByMembers(before, before + RepairSteps(vault, block, world))
  {
  }

  // ---- The loop ----

  ghost predicate RepairProgress(
      start: seq<VaultRow>, now: seq<VaultRow>, visited: seq<nat>, afterId: nat, failed: nat, block: nat, world: World)
  {
    && |now| == |start|
    && EachRepaired(start, now, visited, block, world)
    && VisitedSoFar(visited, start, DisconnectedWithStaleMembers, afterId)
    && (forall j | 0 <= j < |start| && Selected(start[j], DisconnectedWithStaleMembers) && start[j].id <= afterId :: start[j].id in visited)
    && (failed > 0 <==> exists j :: 0 <= j < |start| && start[j].id in visited && RepairFails(start[j], block, world))
  }

  /** Every visited row is repaired on its own, and no other row changed. */
  ghost predicate EachRepaired(start: seq<VaultRow>, now: seq<VaultRow>, visited: seq<nat>, block: nat, world: World)
    requires |now| == |start|
  {
    forall j | 0 <= j < |start| ::
      if start[j].id in visited
      then start[j].effectiveOwner.Some? && now[j] == RepairedRow(start[j], block, world)
      else now[j] == start[j]
  }

  lemma EachIsMembersOnly(start: seq<VaultRow>, now: seq<VaultRow>, visited: seq<nat>, block: nat, world: World)
    requires |now| == |start| && EachRepaired(start, now, visited, block, world)
    ensures forall j | 0 <= j < |start| :: MembersOnly(start[j], now[j])
    ensures forall j | 0 <= j < |start| && start[j].id !in visited :: now[j] == start[j]
    ensures forall j | 0 <= j < |start| && start[j].id in visited && Selected(now[j], DisconnectedWithStaleMembers) ::
              RepairFails(start[j], block, world) || RepairExcused(now[j], block)
  {
    forall j | 0 <= j < |start|
      ensures MembersOnly(start[j], now[j])
      ensures start[j].id !in visited ==> now[j] == start[j]
      ensures start[j].id in visited && Selected(now[j], DisconnectedWithStaleMembers) ==>
                RepairFails(start[j], block, world) || RepairExcused(now[j], block)
    {
      if start[j].id in visited {
        RepairedOrExcused(start[j], block, world);
      }
    }
  }

  /** A page read past the cursor is a page of the table as it was when the loop began. */
  lemma PageOfStart(start: seq<VaultRow>, now: seq<VaultRow>, page: seq<VaultRow>, visited: seq<nat>, afterId: nat, q: Query)
    requires |now| == |start| && VisitedSoFar(visited, start, q, afterId)
    requires forall j | 0 <= j < |start| :: MembersOnly(start[j], now[j])
    requires forall j | 0 <= j < |start| && start[j].id !in visited :: now[j] == start[j]
    requires IsPage(page, now, q, afterId)
    ensures IsPage(page, start, q, afterId)
  {
    forall r | r in page
      ensures r in start
    {
      var j :| 0 <= j < |now| && now[j] == r;
      assert start[j].id == r.id;
    }
    forall r | r in start && r.id > afterId && Selected(r, q)
      ensures r in now
    {
      var j :| 0 <= j < |start| && start[j] == r;
    }
  }

  ghost predicate InRepairPage(
      start: seq<VaultRow>, page: seq<VaultRow>, from: nat, k: nat, now: seq<VaultRow>, visited: seq<nat>, failed: nat, block: nat, world: World)
  {
    && WellFormed(start) && k <= |page|
    && IsPage(page, start, DisconnectedWithStaleMembers, from)
    && RepairProgress(start, now, visited, Cursor(page, k, from), failed, block, world)
  }

  lemma NextInRepairPage(
      start: seq<VaultRow>, page: seq<VaultRow>, from: nat, k: nat, now: seq<VaultRow>, visited: seq<nat>, failed: nat, block: nat, world: World)
    returns (j: nat)
    requires InRepairPage(start, page, from, k, now, visited, failed, block, world) && k < |page|
    ensures j < |start| && start[j] == page[k] == now[j]
    ensures start[j].id > Cursor(page, k, from) && Selected(start[j], DisconnectedWithStaleMembers)
  {
    assert page[k] in page;
    j :| 0 <= j < |start| && start[j] == page[k];
    if k > 0 {
      assert page[k - 1].id < page[k].id;
    }
  }

  lemma RepairStep(
      start: seq<VaultRow>, page: seq<VaultRow>, from: nat, k: nat, before: seq<VaultRow>, after: seq<VaultRow>, visited: seq<nat>,
      failed: nat, ok: bool, block: nat, world: World, j: nat)
    requires InRepairPage(start, page, from, k, before, visited, failed, block, world) && k < |page|
    requires j < |start| && start[j] == page[k] == before[j]
    requires start[j].id > Cursor(page, k, from) && Selected(start[j], DisconnectedWithStaleMembers)
    requires OneRepaired(j, before, after, block, world) && ok == !RepairFails(page[k], block, world)
    ensures InRepairPage(start, page, from, k + 1, after, visited + [page[k].id], if ok then failed else failed + 1, block, world)
  {
    VisitOneMore(visited, start, DisconnectedWithStaleMembers, Cursor(page, k, from), j);
    RepairStepRows(start, before, after, visited, failed, ok, block, world, j);
    forall i | 0 <= i < |start| && Selected(start[i], DisconnectedWithStaleMembers) && start[i].id <= page[k].id
      ensures start[i].id in visited + [page[k].id]
    {
      if start[i].id > Cursor(page, k, from) {
        assert start[i] in start;
        NothingBetween(page, start, DisconnectedWithStaleMembers, from, k, start[i]);
      }
    }
  }

  lemma RepairStepRows(
      start: seq<VaultRow>, before: seq<VaultRow>, after: seq<VaultRow>, visited: seq<nat>, failed: nat, ok: bool, block: nat, world: World, v: nat)
    requires WellFormed(start) && |before| == |start| && v < |start| && start[v] == before[v]
    requires OneRepaired(v, before, after, block, world) && ok == !RepairFails(start[v], block, world)
    requires EachRepaired(start, before, visited, block, world)
    requires failed > 0 <==> exists j :: 0 <= j < |start| && start[j].id in visited && RepairFails(start[j], block, world)
    ensures var visited', failed' := visited + [start[v].id], if ok then failed else failed + 1;
            && EachRepaired(start, after, visited', block, world)
            && (failed' > 0 <==> exists j :: 0 <= j < |start| && start[j].id in visited' && RepairFails(start[j], block, world))
  {
    var visited', failed' := visited + [start[v].id], if ok then failed else failed + 1;
    assert forall id :: id in visited' <==> id in visited || id == start[v].id;
    if failed' > 0 {
      if failed > 0 {
        var j :| 0 <= j < |start| && start[j].id in visited && RepairFails(start[j], block, world);
        assert start[j].id in visited';
      } else {
        assert start[v].id in visited';
      }
    }
    if j :| 0 <= j < |start| && start[j].id in visited' && RepairFails(start[j], block, world) {
      if start[j].id == start[v].id {
        IdsAreUnique(start, j, v);
      }
    }
    forall j | 0 <= j < |start|
      ensures if start[j].id in visited'
              then start[j].effectiveOwner.Some? && after[j] == RepairedRow(start[j], block, world)
              else after[j] == start[j]
    {
      if start[j].id == start[v].id {
        IdsAreUnique(start, j, v);
      }
    }
  }

  method RepairNext(
      db: VaultDbService, page: seq<VaultRow>, k: nat, block: nat, world: World,
      ghost start: seq<VaultRow>, ghost from: nat, ghost visited: seq<nat>, failed: nat)
    returns (ghost visited': seq<nat>, failed': nat)
    requires db.Valid() && k < |page|
    requires InRepairPage(start, page, from, k, db.vaults, visited, failed, block, world)
    modifies db
    ensures db.Valid()
    ensures InRepairPage(start, page, from, k + 1, db.vaults, visited', failed', block, world)
    ensures GrewByMembers(old(db.trace), db.trace)
  {
    ghost var before := db.vaults;
    ghost var j := NextInRepairPage(start, page, from, k, before, visited, failed, block, world);
    RepairStepsSetMembers(db.trace, page[k], block, world);
    var ok := RepairVault(db, page[k], block, world, j);
    RepairStep(start, page, from, k, before, db.vaults, visited, failed, ok, block, world, j);
    visited' := visited + [page[k].id];
    failed' := if ok then failed else failed + 1;
  }

  method RepairPage(
      db: VaultDbService, page: seq<VaultRow>, block: nat, world: World,
      ghost start: seq<VaultRow>, ghost from: nat, ghost visited: seq<nat>, failed: nat)
    returns (ghost visited': seq<nat>, failed': nat)
    requires db.Valid() && page != []
    requires InRepairPage(start, page, from, 0, db.vaults, visited, failed, block, world)
    modifies db
    ensures db.Valid()
    ensures RepairProgress(start, db.vaults, visited', page[|page| - 1].id, failed', block, world)
    ensures GrewByMembers(old(db.trace), db.trace)
  {
    visited', failed' := visited, failed;
    for k := 0 to |page|
      invariant db.Valid()
      invariant InRepairPage(start, page, from, k, db.vaults, visited', failed', block, world)
      invariant GrewByMembers(old(db.trace), db.trace)
    {
      ghost var sofar := db.trace;
      visited', failed' := RepairNext(db, page, k, block, world, start, from, visited', failed');
      GrewByMembersTwice(old(db.trace), sofar, db.trace);
    }
  }

  /** What the end of the repair scan says about every row. */
  ghost predicate RepairDone(start: seq<VaultRow>, now: seq<VaultRow>, visited: seq<nat>, ok: bool, block: nat, world: World) {
    && |now| == |start|
    && (forall j | 0 <= j < |start| :: MembersOnly(start[j], now[j]))
    && EachRepaired(start, now, visited, block, world)
    && AscendingIds(visited)
    && (forall j | 0 <= j < |start| :: start[j].id in visited <==> Selected(start[j], DisconnectedWithStaleMembers))
    && (ok <==> forall j | 0 <= j < |start| && start[j].id in visited :: !RepairFails(start[j], block, world))
    && (ok ==> forall j | 0 <= j < |start| && Selected(now[j], DisconnectedWithStaleMembers) :: RepairExcused(now[j], block))
  }

  lemma RepairFinish(start: seq<VaultRow>, now: seq<VaultRow>, visited: seq<nat>, afterId: nat, failed: nat, block: nat, world: World)
    requires WellFormed(start)
    requires RepairProgress(start, now, visited, afterId, failed, block, world)
    requires IsPage([], start, DisconnectedWithStaleMembers, afterId)
    ensures RepairDone(start, now, visited, failed == 0, block, world)
  {
    EachIsMembersOnly(start, now, visited, block, world);
    forall j | 0 <= j < |start|
      ensures start[j].id in visited <==> Selected(start[j], DisconnectedWithStaleMembers)
    {
      assert start[j] in start;
      if start[j].id in visited {
        var i :| 0 <= i < |start| && start[i].id == start[j].id && Selected(start[i], DisconnectedWithStaleMembers);
        IdsAreUnique(start, i, j);
      }
    }
  }

  /** The end of the repair scan, row by row and address by address. */
  lemma RepairDoneMeans(start: seq<VaultRow>, now: seq<VaultRow>, visited: seq<nat>, ok: bool, block: nat, world: World, j: nat)
    requires RepairDone(start, now, visited, ok, block, world) && j < |start|
    ensures if start[j].isDisconnected && start[j].effectiveOwner != None
               && (start[j].membersOwner == None || Lower(start[j].membersOwner.value) != Lower(start[j].effectiveOwner.value))
            then exists good :: RepairOutcome(start[j], now[j], good, block, world) && (ok ==> good)
            else now[j] == start[j]
  {
    if start[j].effectiveOwner.Some? {
      RepairHasOutcome(start[j], block, world);
    }
  }

  lemma LastOfPage(start: seq<VaultRow>, page: seq<VaultRow>, afterId: nat)
    requires WellFormed(start) && IsPage(page, start, DisconnectedWithStaleMembers, afterId) && page != []
    ensures afterId < page[|page| - 1].id <= LastId(start)
  {
    assert page[|page| - 1] in page;
  }

  /**
   The repair scan. It ends, and visits exactly the vaults selected at its start, each once in id order, although
   repaired vaults drop out of the query and failing ones stay in it; it succeeds exactly when none of them failed.
   */
  method RepairDisconnectedVaultRoleMembers(db: VaultDbService, block: nat, world: World, batchSize: nat)
    returns (ok: bool, ghost visited: seq<nat>)
    requires db.Valid() && batchSize >= 1
    modifies db
    ensures db.Valid()
    ensures RepairDone(old(db.vaults), db.vaults, visited, ok, block, world)
    ensures GrewByMembers(old(db.trace), db.trace)
  {
    ghost var start := db.vaults;
    var afterId, failed := 0, 0;
    visited := [];
    assert RepairProgress(start, db.vaults, visited, 0, 0, block, world);
    while true
      invariant db.Valid() && WellFormed(start)
      invariant RepairProgress(start, db.vaults, visited, afterId, failed, block, world)
      invariant afterId <= LastId(start)
      invariant GrewByMembers(old(db.trace), db.trace)
      decreases LastId(start) - afterId
    {
      ghost var sofar := db.trace;
      var page := db.GetPage(DisconnectedWithStaleMembers, batchSize, afterId);
      EachIsMembersOnly(start, db.vaults, visited, block, world);
      PageOfStart(start, db.vaults, page, visited, afterId, DisconnectedWithStaleMembers);
      if page == [] {
        break;
      }
      LastOfPage(start, page, afterId);
      visited, failed := RepairPage(db, page, block, world, start, afterId, visited, failed);
      GrewByMembersTwice(old(db.trace), sofar, db.trace);
      afterId := page[|page| - 1].id;
    }
    RepairFinish(start, db.vaults, visited, afterId, failed, block, world);
    ok := failed == 0;
  }

  // ---- The whole job ----

  /**
   The backfill. When it returns normally, a vault still ownerless has a newer ownership block or no owner in the
   hub, and a disconnected vault still stale has newer members or no usable owner. Any failing vault makes it throw.
   */
  method BackfillVaultOwnership(db: VaultDbService, hub: Address, block: nat, world: World, provenanceFails: bool, batchSize: nat)
    returns (ok: bool, ghost filled: seq<VaultRow>, ghost resolved: seq<VaultRow>, ghost owners: seq<nat>, ghost repairs: seq<nat>, ghost ownersOk: bool)
    requires db.Valid() && batchSize >= 1
    modifies db
    ensures db.Valid()
    ensures provenanceFails ==> !ok && db.vaults == old(db.vaults)
    ensures !provenanceFails ==> exists answers :: filled == Next(old(db.vaults), BackfillProvenance(answers))
    ensures !provenanceFails ==> OwnersDone(filled, resolved, owners, ownersOk, hub, block, world)
    ensures !provenanceFails && ownersOk ==> RepairDone(resolved, db.vaults, repairs, ok, block, world)
    ensures !provenanceFails && !ownersOk ==> !ok && db.vaults == resolved
    ensures ok ==> Repaired(db.vaults, block, world)
    ensures HubOwnsNothing(world, hub) ==> GrewSparingHub(old(db.trace), db.trace, hub)
  {
    filled, resolved, owners, repairs, ownersOk, ok := [], [], [], [], false, false;
    if !provenanceFails {
      RecoverProvenance(db, hub);
      filled := db.vaults;
      ghost var sofar := db.trace;
      ok, resolved, owners, repairs, ownersOk := ResolveAndRepair(db, hub, block, world, batchSize);
      if HubOwnsNothing(world, hub) {
        GrewTwice(old(db.trace), sofar, db.trace, hub);
      }
    }
  }

  /** The first phase: one statement, which names no owner. */
  method RecoverProvenance(db: VaultDbService, ghost hub: Address)
    requires db.Valid()
    modifies db
    ensures db.Valid()
    ensures exists answers :: db.vaults == Next(old(db.vaults), BackfillProvenance(answers))
    ensures GrewSparingHub(old(db.trace), db.trace, hub)
  {
    ghost var answers := db.BackfillMembersOwnerFromRoleMembers();
  }

  /** Every vault is resolved and fresh, or has an excuse. */
  ghost predicate Repaired(rows: seq<VaultRow>, block: nat, world: World) {
    && (forall r | r in rows && r.effectiveOwner == None ::
          r.ownershipBlock > block || (r.address in world.hubOwners && world.hubOwners[r.address] == ZERO_ADDRESS))
    && (forall r | r in rows && r.isDisconnected && r.effectiveOwner != None
                   && (r.membersOwner == None || Lower(r.membersOwner.value) != Lower(r.effectiveOwner.value)) ::
          r.membersBlock > block || r.effectiveOwner.value == ZERO_ADDRESS || r.effectiveOwner.value == "")
  }

  /** The two scans, the second only when no vault failed in the first. */
  method ResolveAndRepair(db: VaultDbService, hub: Address, block: nat, world: World, batchSize: nat)
    returns (ok: bool, ghost resolved: seq<VaultRow>, ghost owners: seq<nat>, ghost repairs: seq<nat>, ghost ownersOk: bool)
    requires db.Valid() && batchSize >= 1
    modifies db
    ensures db.Valid()
    ensures OwnersDone(old(db.vaults), resolved, owners, ownersOk, hub, block, world)
    ensures if ownersOk then RepairDone(resolved, db.vaults, repairs, ok, block, world) else !ok && db.vaults == resolved
    ensures ok ==> Repaired(db.vaults, block, world)
    ensures HubOwnsNothing(world, hub) ==> GrewSparingHub(old(db.trace), db.trace, hub)
  {
    repairs := [];
    ok, owners := ResolveMissingVaultOwners(db, hub, block, world, batchSize);
    ownersOk, resolved := ok, db.vaults;
    ghost var sofar := db.trace;
    if ok {
      ok, repairs := RepairDisconnectedVaultRoleMembers(db, block, world, batchSize);
      if HubOwnsNothing(world, hub) {
        GrewTwice(old(db.trace), sofar, db.trace, hub);
      }
      if ok {
        BackfillComplete(resolved, db.vaults, repairs, block, world);
      }
    }
  }

  lemma BackfillComplete(resolved: seq<VaultRow>, now: seq<VaultRow>, repairs: seq<nat>, block: nat, world: World)
    requires forall j | 0 <= j < |resolved| && resolved[j].effectiveOwner.None? :: OwnerExcused(resolved[j], block, world)
    requires RepairDone(resolved, now, repairs, true, block, world)
    ensures Repaired(now, block, world)
  {
    forall r | r in now
      ensures r.effectiveOwner.None? ==> OwnerExcused(r, block, world)
      ensures Selected(r, DisconnectedWithStaleMembers) ==> RepairExcused(r, block)
    {
      var j :| 0 <= j < |now| && now[j] == r;
      assert MembersOnly(resolved[j], now[j]);
    }
  }
}
