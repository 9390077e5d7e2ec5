/**
 Who sees a vault, and what that says about the run that led there. A run is any sequence of statements, so the
 results hold whatever the interleaving of jobs, handlers and backfills.
 */
module Access {
  import opened Addresses
  import opened Wrappers
  import opened VaultRows

  // ---- The access predicate of the vaults query ----

  /** Absent columns mean the ownership is not resolved yet, and then recorded roles still count. */
  predicate MembersOwnerIsCurrent(row: VaultRow) {
    row.effectiveOwner.None? || row.membersOwner.None? || Same(row.effectiveOwner.value, row.membersOwner.value)
  }

  predicate SeesByRole(row: VaultRow, address: Address, role: Role) {
    MembersOwnerIsCurrent(row) && exists m | m in row.members :: m.role == role && Same(m.address, address)
  }

  predicate Owns(row: VaultRow, address: Address) {
    row.effectiveOwner.Some? && Same(row.effectiveOwner.value, address)
  }

  /** Without an address the list is public and connected-only; with one it is the personal view. */
  predicate Sees(row: VaultRow, address: Address, role: Option<Role>) {
    if address == "" then !row.isDisconnected
    else if role.Some? then SeesByRole(row, address, role.value)
    else Owns(row, address) || SeesByRole(row, address, DashboardOwner)
  }

  // ---- The members of a row, over a run ----

  /** The k-th statement was a members write that committed on this row. */
  ghost predicate CommitsMembers(row: VaultRow, steps: seq<DbStep>, k: nat)
    requires k < |steps|
  {
    steps[k].SetMembers? && AcceptsMembers(ReplayRow(row, steps[..k]), steps[k].vault, steps[k].members, steps[k].block)
  }

  /** The address is one of the vault owners this map lists. */
  predicate ListsOwner(members: RoleMembers, owner: Address) {
    StakingVaultOwner in members && owner in members[StakingVaultOwner] && owner != ZERO_ADDRESS
  }

  /** The recorded provenance, if any, has its owner row. */
  predicate ProvenanceHasRow(row: VaultRow) {
    row.membersOwner.Some? ==> NamesOwner(row, row.membersOwner.value)
  }

  /**
   Atomicity and provenance. After any run the members of a row are exactly the map of the last members write that
   committed (or the ones it started with), its block is that write's, and a recorded provenance is an owner the
   same map lists.
   */
  lemma {:induction false} MembersAreOneCommittedWrite(row: VaultRow, steps: seq<DbStep>) returns (k: int)
    requires ProvenanceHasRow(row)
    ensures -1 <= k < |steps|
    ensures ProvenanceHasRow(ReplayRow(row, steps))
    ensures k >= 0 ==> CommitsMembers(row, steps, k)
    ensures forall j | k < j < |steps| :: !CommitsMembers(row, steps, j)
    ensures var after := ReplayRow(row, steps);
            if k >= 0 then
              && after.members == Flatten(steps[k].members) && after.membersBlock == steps[k].block
              && (after.membersOwner.Some? ==> ListsOwner(steps[k].members, after.membersOwner.value))
              && (after.membersOwner == OwnerEntry(steps[k].members) || OwnerEntry(steps[k].members).None?)
            else
              && after.members == row.members && after.membersBlock == row.membersBlock
              && (after.membersOwner == row.membersOwner || row.membersOwner.None?)
  {
    k := -1;
    if steps != [] {
      var n := |steps| - 1;
      var init, before := steps[..n], ReplayRow(row, steps[..n]);
      k := MembersAreOneCommittedWrite(row, init);
      forall j | 0 <= j < n
        ensures CommitsMembers(row, init, j) == CommitsMembers(row, steps, j)
      {
        assert init[..j] == steps[..j];
      }
      if CommitsMembers(row, steps, n) {
        k := n;
        CommittedProvenance(before, steps[n]);
      } else {
        OtherStepsKeepMembers(before, steps[n]);
      }
    }
  }

  lemma CommittedProvenance(row: VaultRow, step: DbStep)
    requires step.SetMembers? && AcceptsMembers(row, step.vault, step.members, step.block)
    ensures var after := NextRow(row, step);
            && after.members == Flatten(step.members) && after.membersBlock == step.block
            && after.membersOwner == OwnerEntry(step.members)
            && (after.membersOwner.Some? ==> ListsOwner(step.members, after.membersOwner.value))
            && ProvenanceHasRow(after)
  {
  }

  lemma OtherStepsKeepMembers(row: VaultRow, step: DbStep)
    requires ProvenanceHasRow(row)
    requires !(step.SetMembers? && AcceptsMembers(row, step.vault, step.members, step.block))
    ensures var after := NextRow(row, step);
            && after.members == row.members && after.membersBlock == row.membersBlock
            && (after.membersOwner == row.membersOwner || (row.membersOwner.None? && NamesOwner(row, after.membersOwner.value)))
            && ProvenanceHasRow(after)
  {
  }

  /** The members block never goes back. */
  lemma {:induction false} MembersBlockNeverDecreases(row: VaultRow, steps: seq<DbStep>, k: nat)
    requires k <= |steps|
    ensures ReplayRow(row, steps[..k]).membersBlock <= ReplayRow(row, steps).membersBlock
    decreases |steps|
  {
    if k == |steps| {
      assert steps[..k] == steps;
    } else {
      MembersBlockNeverDecreases(row, steps[..|steps| - 1], k);
      assert steps[..|steps| - 1][..k] == steps[..k];
    }
  }

  // ---- Access safety ----

  /**
   The write was read through an owner matching this one: its owner entry, which it records as provenance. A write
   without an owner entry records none, and the recovery may fill in any owner it lists.
   */
  ghost predicate ReadThrough(members: RoleMembers, owner: Address) {
    if OwnerEntry(members).Some? then Same(OwnerEntry(members).value, owner)
    else exists o :: ListsOwner(members, o) && Same(o, owner)
  }

  /** The write lists the member under this role and was read through an owner matching this one. */
  ghost predicate GrantsThrough(members: RoleMembers, role: Role, address: Address, owner: Address) {
    && (exists m :: m in Flatten(members) && m.role == role && Same(m.address, address))
    && ReadThrough(members, owner)
  }

  ghost predicate GrantsThroughOwner(members: RoleMembers, role: Role, address: Address, row: VaultRow) {
    row.effectiveOwner.Some? && GrantsThrough(members, role, address, row.effectiveOwner.value)
  }

  /**
   Safety on one row: with both owner columns set, a role grants access only if the last committed members write
   lists the member and was read through the current effective owner; or if nothing was committed in the run,
   the row began with those members and that provenance.
   */
  lemma RoleAccessIsThroughCurrentOwner(row: VaultRow, steps: seq<DbStep>, address: Address, role: Role) returns (k: int)
    requires ProvenanceHasRow(row)
    requires var after := ReplayRow(row, steps);
             after.effectiveOwner.Some? && after.membersOwner.Some? && SeesByRole(after, address, role)
    ensures -1 <= k < |steps|
    ensures forall j | k < j < |steps| :: !CommitsMembers(row, steps, j)
    ensures k >= 0 ==> CommitsMembers(row, steps, k)
    ensures k >= 0 ==> GrantsThrough(steps[k].members, role, address, ReplayRow(row, steps).effectiveOwner.value)
    ensures k == -1 ==>
              && (exists m :: m in row.members && m.role == role && Same(m.address, address))
              && (exists o :: NamesOwner(row, o) && Same(o, ReplayRow(row, steps).effectiveOwner.value))
  {
    k := MembersAreOneCommittedWrite(row, steps);
    var after := ReplayRow(row, steps);
    var m :| m in after.members && m.role == role && Same(m.address, address);
    var o := after.membersOwner.value;
    if k >= 0 {
      assert m in Flatten(steps[k].members);
      assert ListsOwner(steps[k].members, o) && Same(o, after.effectiveOwner.value);
    } else {
      assert NamesOwner(after, o) && Same(o, after.effectiveOwner.value);
    }
  }

  /** A row that the run created: the statement that created it, and the blank row it began as. */
  lemma {:induction false} RowBegins(rows: seq<VaultRow>, steps: seq<DbStep>, i: nat) returns (first: VaultRow, p: nat)
    requires i < |Replay(rows, steps)|
    ensures p <= |steps| && Replay(rows, steps)[i] == ReplayRow(first, steps[p..])
    ensures i < |rows| ==> first == rows[i] && p == 0
    ensures i >= |rows| ==> first.members == {} && first.membersOwner.None? && first.effectiveOwner.None?
    ensures i < |Replay(rows, steps[..p])| && Replay(rows, steps[..p])[i] == first
  {
    if i < |rows| {
      first, p := rows[i], 0;
      ReplayIsRowwise(rows, steps, i);
      assert steps[0..] == steps && steps[..0] == [];
    } else {
      var n := |steps| - 1;
      var before := Replay(rows, steps[..n]);
      if i < |before| {
        first, p := RowBegins(rows, steps[..n], i);
        assert steps[p..][..|steps[p..]| - 1] == steps[..n][p..] && steps[..n][..p] == steps[..p];
      } else {
        first, p := Replay(rows, steps)[i], |steps|;
        assert steps[p..] == [] && steps[..p] == steps;
      }
    }
  }

  /** The row at any time since. */
  lemma RowSince(rows: seq<VaultRow>, steps: seq<DbStep>, i: nat, p: nat, q: nat)
    requires p <= q <= |steps| && i < |Replay(rows, steps[..p])|
    ensures i < |Replay(rows, steps[..q])|
    ensures Replay(rows, steps[..q])[i] == ReplayRow(Replay(rows, steps[..p])[i], steps[p..][..q - p])
  {
    assert steps[..q] == steps[..p] + steps[p..][..q - p];
    ReplayConcat(rows, steps[..p], steps[p..][..q - p]);
    ReplayIsRowwise(Replay(rows, steps[..p]), steps[p..][..q - p], i);
  }

  /**
   Safety on the table. Started empty, the database lets an address see a vault by role, in either branch of the
   query, only through a committed members write that lists it and was read through the current effective owner.
   */
  lemma AccessSafety(steps: seq<DbStep>, i: nat, address: Address, role: Option<Role>) returns (k: nat)
    requires i < |Replay([], steps)| && address != ""
    requires var row := Replay([], steps)[i];
             row.effectiveOwner.Some? && row.membersOwner.Some? && Sees(row, address, role) && (role.None? ==> !Owns(row, address))
    ensures k < |steps| && steps[k].SetMembers? && steps[k].vault == Replay([], steps)[i].address
    ensures i < |Replay([], steps[..k])|
    ensures AcceptsMembers(Replay([], steps[..k])[i], steps[k].vault, steps[k].members, steps[k].block)
    ensures Replay([], steps)[i].members == Flatten(steps[k].members) && Replay([], steps)[i].membersBlock == steps[k].block
    ensures GrantsThrough(steps[k].members, if role.Some? then role.value else DashboardOwner, address,
                          Replay([], steps)[i].effectiveOwner.value)
  {
    var first, p := RowBegins([], steps, i);
    var r := if role.Some? then role.value else DashboardOwner;
    var j := RoleAccessIsThroughCurrentOwner(first, steps[p..], address, r);
    var j' := MembersAreOneCommittedWrite(first, steps[p..]);
    assert j == j';
    ReplayKeepsIdentity(first, steps[p..]);
    ReplayKeepsIdentity(first, steps[p..][..j]);
    k := p + j;
    RowSince([], steps, i, p, k);
  }

  // ---- After the vault changed hands ----

  /** A resolved owner stays resolved. */
  lemma {:induction false} OwnerStaysResolved(row: VaultRow, steps: seq<DbStep>)
    requires row.effectiveOwner.Some?
    ensures ReplayRow(row, steps).effectiveOwner.Some?
  {
    if steps != [] {
      OwnerStaysResolved(row, steps[..|steps| - 1]);
    }
  }

  /**
   Once the owner differs from the one the members were read through, no role grants access, now or after any
   continuation, unless a members write committed since lists the member, read through the then current owner or
   through none; or ownership went back to the owner the members were read through.
   */
  lemma DelegatesStayHidden(row: VaultRow, steps: seq<DbStep>, address: Address, role: Role) returns (k: nat)
    requires ProvenanceHasRow(row)
    requires row.effectiveOwner.Some? && row.membersOwner.Some? && !Same(row.effectiveOwner.value, row.membersOwner.value)
    requires SeesByRole(ReplayRow(row, steps), address, role) && !Owns(ReplayRow(row, steps), row.membersOwner.value)
    ensures k < |steps| && CommitsMembers(row, steps, k)
    ensures exists m :: m in Flatten(steps[k].members) && m.role == role && Same(m.address, address)
    ensures OwnerEntry(steps[k].members).Some? || ReplayRow(row, steps).membersOwner.Some? ==>
              GrantsThroughOwner(steps[k].members, role, address, ReplayRow(row, steps))
  {
    OwnerStaysResolved(row, steps);
    var after := ReplayRow(row, steps);
    var last := MembersAreOneCommittedWrite(row, steps);
    k := last;
    var m :| m in after.members && m.role == role && Same(m.address, address);
    if after.membersOwner.Some? {
      var o := after.membersOwner.value;
      assert ListsOwner(steps[k].members, o) && Same(o, after.effectiveOwner.value);
    }
  }

  // ---- When access is granted ----

  /** The k-th statement was an ownership write that got through to this row. */
  ghost predicate AppliesOwnership(row: VaultRow, steps: seq<DbStep>, k: nat)
    requires k < |steps|
  {
    var before := ReplayRow(row, steps[..k]);
    && steps[k].WriteOwnership?
    && Lower(before.address) == Lower(steps[k].write.vault) && before.ownershipBlock <= steps[k].write.block
    && (steps[k].write.onlyDisconnected ==> before.isDisconnected)
  }

  lemma AppliesInPrefix(row: VaultRow, steps: seq<DbStep>, j: nat)
    requires j + 1 < |steps|
    ensures AppliesOwnership(row, steps[..|steps| - 1], j) == AppliesOwnership(row, steps, j)
  {
    assert steps[..|steps| - 1][..j] == steps[..j];
  }

  /** The recorded owner is the one the last applied write to name an owner named. */
  lemma {:induction false} OwnerIsOfLastWrite(row: VaultRow, steps: seq<DbStep>, k: nat)
    requires k < |steps| && AppliesOwnership(row, steps, k) && steps[k].write.owner.Some?
    requires forall j | k < j < |steps| && AppliesOwnership(row, steps, j) :: steps[j].write.owner.None?
    ensures ReplayRow(row, steps).effectiveOwner == steps[k].write.owner
  {
    var n := |steps| - 1;
    if k < n {
      forall j | 0 <= j < n
        ensures AppliesOwnership(row, steps[..n], j) == AppliesOwnership(row, steps, j)
      {
        AppliesInPrefix(row, steps, j);
      }
      OwnerIsOfLastWrite(row, steps[..n], k);
      assert AppliesOwnership(row, steps, n) ==> steps[n].write.owner.None?;
    }
  }

  /** And the flag is the one the last applied write to set it set. */
  lemma {:induction false} FlagIsOfLastWrite(row: VaultRow, steps: seq<DbStep>, k: nat)
    requires k < |steps| && AppliesOwnership(row, steps, k) && steps[k].write.disconnected.Some?
    requires forall j | k < j < |steps| && AppliesOwnership(row, steps, j) :: steps[j].write.disconnected.None?
    ensures ReplayRow(row, steps).isDisconnected == steps[k].write.disconnected.value
  {
    var n := |steps| - 1;
    if k < n {
      forall j | 0 <= j < n
        ensures AppliesOwnership(row, steps[..n], j) == AppliesOwnership(row, steps, j)
      {
        AppliesInPrefix(row, steps, j);
      }
      FlagIsOfLastWrite(row, steps[..n], k);
      assert AppliesOwnership(row, steps, n) ==> steps[n].write.disconnected.None?;
    }
  }

  /** An owner sees the vault, connected or not, from the write that named it on, in any spelling of its address. */
  lemma OwnerSeesVault(row: VaultRow, steps: seq<DbStep>, k: nat, spelling: Address)
    requires k < |steps| && AppliesOwnership(row, steps, k) && steps[k].write.owner.Some?
    requires forall j | k < j < |steps| && AppliesOwnership(row, steps, j) :: steps[j].write.owner.None?
    requires spelling != "" && Lower(spelling) == Lower(steps[k].write.owner.value)
    ensures Sees(ReplayRow(row, steps), spelling, None)
  {
    OwnerIsOfLastWrite(row, steps, k);
  }

  /** The map lists the address, in some spelling, under the role. */
  ghost predicate Lists(members: RoleMembers, role: Role, address: Address) {
    role in members && exists a :: a in members[role] && Lower(a) == Lower(address)
  }

  /** The recorded roles count: one of the owners is not known, or they are the same. */
  ghost predicate RolesCount(row: VaultRow) {
    row.effectiveOwner != None && row.membersOwner != None ==> Lower(row.effectiveOwner.value) == Lower(row.membersOwner.value)
  }

  /**
   Who is granted access, both ways. After any run whose last committed members write is the k-th, an address sees the
   vault under a role exactly when that write lists it there and the roles count; without a role exactly when it is
   the recorded owner, or that write lists it as the Dashboard's owner and the roles count.
   */
  lemma AccessIff(row: VaultRow, steps: seq<DbStep>, k: nat, address: Address)
    requires ProvenanceHasRow(row) && address != ""
    requires k < |steps| && CommitsMembers(row, steps, k)
    requires forall j | k < j < |steps| :: !CommitsMembers(row, steps, j)
    ensures var after := ReplayRow(row, steps);
            && (forall role: Role :: Sees(after, address, Some(role)) <==> Lists(steps[k].members, role, address) && RolesCount(after))
            && (Sees(after, address, None) <==>
                  || (after.effectiveOwner != None && Lower(after.effectiveOwner.value) == Lower(address))
                  || (Lists(steps[k].members, DashboardOwner, address) && RolesCount(after)))
  {
    var last := MembersAreOneCommittedWrite(row, steps);
    assert last == k;
    var after := ReplayRow(row, steps);
    forall role: Role
      ensures SeesByRole(after, address, role) <==> Lists(steps[k].members, role, address) && RolesCount(after)
    {
      if Lists(steps[k].members, role, address) {
        var a :| a in steps[k].members[role] && Lower(a) == Lower(address);
        assert Member(role, a) in after.members;
      }
    }
  }

  /** The public list shows a row exactly when it is connected, whatever role is asked for. */
  lemma PublicListIsConnected(rows: seq<VaultRow>, i: nat, role: Option<Role>)
    requires i < |rows|
    ensures Sees(rows[i], "", role) <==> rows[i].isDisconnected == false
  {
  }

  /** So it shows a vault exactly while the last applied write to set the flag connected it. */
  lemma PublicListFollowsFlag(row: VaultRow, steps: seq<DbStep>, k: nat, role: Option<Role>)
    requires k < |steps| && AppliesOwnership(row, steps, k) && steps[k].write.disconnected.Some?
    requires forall j | k < j < |steps| && AppliesOwnership(row, steps, j) :: steps[j].write.disconnected.None?
    ensures Sees(ReplayRow(row, steps), "", role) <==> steps[k].write.disconnected == Some(false)
  {
    FlagIsOfLastWrite(row, steps, k);
  }

  // ---- The hub, and the guarded writers ----

  ghost predicate HubFree(row: VaultRow, hub: Address) {
    row.effectiveOwner.Some? ==> !Same(row.effectiveOwner.value, hub)
  }

  lemma {:induction false} RowStaysHubFree(row: VaultRow, steps: seq<DbStep>, hub: Address)
    requires HubFree(row, hub)
    requires SparesHub(steps, hub)
    ensures HubFree(ReplayRow(row, steps), hub)
  {
    if steps != [] {
      RowStaysHubFree(row, steps[..|steps| - 1], hub);
      assert steps[|steps| - 1] in steps;
    }
  }

  /** Over any run of statements that do not name the hub, no vault, old or created on the way, is recorded as owned by it. */
  lemma HubIsNeverRecorded(rows: seq<VaultRow>, steps: seq<DbStep>, hub: Address, i: nat)
    requires forall r | r in rows :: HubFree(r, hub)
    requires SparesHub(steps, hub)
    requires i < |Replay(rows, steps)|
    ensures HubFree(Replay(rows, steps)[i], hub)
  {
    var first, p := RowBegins(rows, steps, i);
    RowStaysHubFree(first, steps[p..], hub);
  }

  /** Guarded owner writes leave connected rows as they are and never flip the flag. */
  lemma {:induction false} GuardedWritesKeepFlag(row: VaultRow, steps: seq<DbStep>)
    requires forall s | s in steps :: IsGuardedOwnerWrite(s)
    ensures ReplayRow(row, steps).isDisconnected == row.isDisconnected
    ensures !row.isDisconnected ==> ReplayRow(row, steps) == row
    ensures ReplayRow(row, steps) == row.(effectiveOwner := ReplayRow(row, steps).effectiveOwner,
                                          ownershipBlock := ReplayRow(row, steps).ownershipBlock)
  {
    if steps != [] {
      GuardedWritesKeepFlag(row, steps[..|steps| - 1]);
      assert steps[|steps| - 1] in steps;
    }
  }
}
