/**
 The database service as an object the jobs and the event handlers share. Its state is the table itself;
 the ghost trace lists the statements executed so far, so that what a writer does and what a whole run of
 several writers may do are said in the same words.
 */
module VaultDb {
  import opened Addresses
  import opened Wrappers
  import opened VaultRows

  /** The two id-cursor queries of the ownership backfill. */
  datatype Query = WithoutOwnership | DisconnectedWithStaleMembers

  predicate Selected(row: VaultRow, q: Query) {
    match q
    case WithoutOwnership => row.effectiveOwner.None?
    case DisconnectedWithStaleMembers =>
      && row.isDisconnected
      && row.effectiveOwner.Some?
      && (row.membersOwner.None? || !Same(row.membersOwner.value, row.effectiveOwner.value))
  }

  /** `WHERE <q> AND id > afterId ORDER BY id ASC LIMIT limit`. */
  function Page(rows: seq<VaultRow>, q: Query, afterId: nat, limit: nat): seq<VaultRow> {
    if rows == [] || limit == 0 then []
    else if rows[0].id > afterId && Selected(rows[0], q) then [rows[0]] + Page(rows[1..], q, afterId, limit - 1)
    else Page(rows[1..], q, afterId, limit)
  }

  ghost predicate Ascending(rows: seq<VaultRow>) {
    forall j, k | 0 <= j < k < |rows| :: rows[j].id < rows[k].id
  }

  /** A page is an ascending run of selected rows that leaves out no selected id up to its last one. */
  ghost predicate IsPage(page: seq<VaultRow>, rows: seq<VaultRow>, q: Query, afterId: nat) {
    && (forall r | r in page :: r in rows && r.id > afterId && Selected(r, q))
    && Ascending(page)
    && (forall r | r in rows && r.id > afterId && Selected(r, q) ::
          r in page || (page != [] && r.id > page[|page| - 1].id))
  }

  lemma {:induction false} PageIsSelected(rows: seq<VaultRow>, q: Query, afterId: nat, limit: nat)
    ensures forall r | r in Page(rows, q, afterId, limit) :: r in rows && r.id > afterId && Selected(r, q)
  {
    if rows != [] && limit > 0 {
      var take := rows[0].id > afterId && Selected(rows[0], q);
      PageIsSelected(rows[1..], q, afterId, if take then limit - 1 else limit);
    }
  }

  lemma AscendingFront(r: VaultRow, rest: seq<VaultRow>)
    requires Ascending(rest) && forall s | s in rest :: r.id < s.id
    ensures Ascending([r] + rest)
  {
    var all := [r] + rest;
    forall j, k | 0 <= j < k < |all|
      ensures all[j].id < all[k].id
    {
      assert all[k] == rest[k - 1] && rest[k - 1] in rest;
      assert j > 0 ==> all[j] == rest[j - 1];
    }
  }

  lemma AscendingTail(rows: seq<VaultRow>)
    requires Ascending(rows) && rows != []
    ensures Ascending(rows[1..]) && forall s | s in rows[1..] :: rows[0].id < s.id
  {
  }

  lemma {:induction false} PageIsAscending(rows: seq<VaultRow>, q: Query, afterId: nat, limit: nat)
    requires Ascending(rows)
    ensures Ascending(Page(rows, q, afterId, limit))
  {
    if rows != [] && limit > 0 {
      var take := rows[0].id > afterId && Selected(rows[0], q);
      var left := if take then limit - 1 else limit;
      AscendingTail(rows);
      PageIsAscending(rows[1..], q, afterId, left);
      PageIsSelected(rows[1..], q, afterId, left);
      AscendingFront(rows[0], Page(rows[1..], q, afterId, left));
    }
  }

  /** A page is never longer than its limit, and shorter only when it holds everything that is left. */
  lemma {:induction false} PageFillsLimit(rows: seq<VaultRow>, q: Query, afterId: nat, limit: nat)
    ensures |Page(rows, q, afterId, limit)| <= limit
    ensures |Page(rows, q, afterId, limit)| < limit ==>
              forall r | r in rows && r.id > afterId && Selected(r, q) :: r in Page(rows, q, afterId, limit)
  {
    if rows != [] && limit > 0 {
      var take := rows[0].id > afterId && Selected(rows[0], q);
      PageFillsLimit(rows[1..], q, afterId, if take then limit - 1 else limit);
    }
  }

  lemma {:induction false} PageIsComplete(rows: seq<VaultRow>, q: Query, afterId: nat, limit: nat, r: VaultRow)
    requires Ascending(rows) && limit >= 1
    requires r in rows && r.id > afterId && Selected(r, q)
    ensures var page := Page(rows, q, afterId, limit);
            r in page || (page != [] && r.id > page[|page| - 1].id)
  {
    var take := rows[0].id > afterId && Selected(rows[0], q);
    if r != rows[0] {
      var n :| 0 <= n < |rows| && rows[n] == r;
      assert rows[1..][n - 1] == r;
      if !take || limit > 1 {
        PageIsComplete(rows[1..], q, afterId, if take then limit - 1 else limit, r);
      }
    }
  }

  lemma CreatedOrKnown(rows: seq<VaultRow>, address: Address, isDisconnected: bool)
    requires WellFormed(rows)
    ensures var next := Next(rows, CreateVault(address, isDisconnected));
            && (exists r :: r in next && r.address == address)
            && ((exists r :: r in rows && r.address == address) ==> next == rows)
            && ((forall r | r in rows :: r.address != address) ==>
                  |next| == |rows| + 1 && next[..|rows|] == rows
                  && next[|rows|] == VaultRow(next[|rows|].id, address, isDisconnected, None, None, 0, 0, {})
                  && forall r | r in rows :: r.id < next[|rows|].id)
  {
    var next := Next(rows, CreateVault(address, isDisconnected));
    if r :| r in rows && r.address == address {
      var i :| 0 <= i < |rows| && rows[i] == r;
      assert Known(rows, address) && next == rows;
    } else {
      assert !Known(rows, address);
      assert next[|rows|] in next;
    }
  }

  // ---- What a members write stores, address by address ----

  /** Some role lists an address twice. */
  ghost predicate ListsTwice(members: RoleMembers) {
    exists r, p, q :: r in members && 0 <= p < q < |members[r]| && members[r][p] == members[r][q]
  }

  /**
   Exactly the addresses of the map are stored, each under its role; the first vault owner becomes the provenance,
   unless there is none or it is empty or zero; and no other column changes.
   */
  ghost predicate StoresMembers(before: VaultRow, after: VaultRow, members: RoleMembers, block: nat) {
    && (forall role, a :: Member(role, a) in after.members <==> role in members && a in members[role])
    && after.membersBlock == block
    && (forall a :: after.membersOwner == Some(a) <==>
          && StakingVaultOwner in members && members[StakingVaultOwner] != [] && members[StakingVaultOwner][0] == a
          && a != "" && a != ZERO_ADDRESS)
    && after == before.(members := after.members, membersOwner := after.membersOwner, membersBlock := after.membersBlock)
  }

  lemma TwiceIsDuplicate(members: RoleMembers)
    ensures ListsTwice(members) <==> !NoDuplicates(members)
  {
  }

  lemma SetMembersOnRow(row: VaultRow, vault: Address, members: RoleMembers, block: nat)
    ensures var next := NextRow(row, SetMembers(vault, members, block));
            if row.address == vault && row.membersBlock <= block && !ListsTwice(members)
            then StoresMembers(row, next, members, block)
            else next == row
  {
    TwiceIsDuplicate(members);
  }

  class VaultDbService {
    var vaults: seq<VaultRow>
    ghost const initial: seq<VaultRow>
    ghost var trace: seq<DbStep>

    ghost predicate Valid()
      reads this
    {
      WellFormed(vaults) && vaults == Replay(initial, trace)
    }

    constructor (rows: seq<VaultRow>)
      requires WellFormed(rows)
      ensures Valid() && vaults == rows && initial == rows && trace == []
    {
      vaults, initial, trace := rows, rows, [];
    }

    /** Runs one atomic statement. */
    method Execute(step: DbStep)
      requires Valid()
      modifies this
      ensures Valid()
      ensures vaults == Next(old(vaults), step)
      ensures trace == old(trace) + [step]
    {
      NextWellFormed(vaults, step);
      assert (trace + [step])[..|trace|] == trace;
      vaults, trace := Next(vaults, step), trace + [step];
    }

    method GetOrCreateVaultByAddress(address: Address, isDisconnected: bool) returns (vault: VaultRow)
      requires Valid()
      modifies this
      ensures Valid()
      ensures vaults == Next(old(vaults), CreateVault(address, isDisconnected))
      ensures trace == old(trace) + [CreateVault(address, isDisconnected)]
      ensures vault in vaults && vault.address == address
      ensures (exists r :: r in old(vaults) && r.address == address) ==> vaults == old(vaults)
      ensures (forall r | r in old(vaults) :: r.address != address) ==>
                && vaults == old(vaults) + [vault] && (forall r | r in old(vaults) :: r.id < vault.id)
                && vault == VaultRow(vault.id, address, isDisconnected, None, None, 0, 0, {})
    {
      Execute(CreateVault(address, isDisconnected));
      CreatedOrKnown(old(vaults), address, isDisconnected);
      vault :| vault in vaults && vault.address == address;
    }

    method ConnectVault(vault: Address, block: nat, connectionOwner: Address)
      requires Valid()
      modifies this
      ensures Valid()
      ensures |vaults| == |old(vaults)|
      ensures forall i | 0 <= i < |vaults| ::
                vaults[i] ==
                if Same(old(vaults)[i].address, vault) && old(vaults)[i].ownershipBlock <= block
                then old(vaults)[i].(isDisconnected := false, effectiveOwner := Some(connectionOwner), ownershipBlock := block)
                else old(vaults)[i]
      ensures vaults == Next(old(vaults), WriteOwnership(ConnectWrite(vault, block, connectionOwner)))
      ensures trace == old(trace) + [WriteOwnership(ConnectWrite(vault, block, connectionOwner))]
    {
      Execute(WriteOwnership(ConnectWrite(vault, block, connectionOwner)));
    }

    method DisconnectVault(vault: Address, block: nat, owner: Option<Address>)
      requires Valid()
      modifies this
      ensures Valid()
      ensures |vaults| == |old(vaults)|
      ensures forall i | 0 <= i < |vaults| ::
                vaults[i] ==
                if Same(old(vaults)[i].address, vault) && old(vaults)[i].ownershipBlock <= block
                then old(vaults)[i].(
                  isDisconnected := true,
                  effectiveOwner := if owner.Some? then owner else old(vaults)[i].effectiveOwner,
                  ownershipBlock := block)
                else old(vaults)[i]
      ensures vaults == Next(old(vaults), WriteOwnership(DisconnectWrite(vault, block, owner)))
      ensures trace == old(trace) + [WriteOwnership(DisconnectWrite(vault, block, owner))]
    {
      Execute(WriteOwnership(DisconnectWrite(vault, block, owner)));
    }

    method UpdateVaultOwnership(vault: Address, owner: Address, block: nat, onlyDisconnected: bool)
      requires Valid()
      modifies this
      ensures Valid()
      ensures |vaults| == |old(vaults)|
      ensures forall i | 0 <= i < |vaults| ::
                vaults[i] ==
                if Same(old(vaults)[i].address, vault) && old(vaults)[i].ownershipBlock <= block
                   && (onlyDisconnected ==> old(vaults)[i].isDisconnected)
                then old(vaults)[i].(effectiveOwner := Some(owner), ownershipBlock := block)
                else old(vaults)[i]
      ensures vaults == Next(old(vaults), WriteOwnership(TransferWrite(vault, owner, block, onlyDisconnected)))
      ensures trace == old(trace) + [WriteOwnership(TransferWrite(vault, owner, block, onlyDisconnected))]
    {
      Execute(WriteOwnership(TransferWrite(vault, owner, block, onlyDisconnected)));
    }

    /**
     Replaces the members of a vault in one transaction. An unknown vault and a repeated address under one
     role both throw and leave the table as it was; members from an older block are skipped silently.
     */
    method SetMembersForVault(vault: Address, members: RoleMembers, block: nat) returns (ok: bool)
      requires Valid()
      modifies this
      ensures Valid()
      ensures vaults == Next(old(vaults), SetMembers(vault, members, block))
      ensures trace == old(trace) + [SetMembers(vault, members, block)]
      ensures |vaults| == |old(vaults)|
      ensures forall i | 0 <= i < |vaults| ::
                if old(vaults)[i].address == vault && old(vaults)[i].membersBlock <= block && !ListsTwice(members)
                then StoresMembers(old(vaults)[i], vaults[i], members, block)
                else vaults[i] == old(vaults)[i]
      ensures !ok ==> vaults == old(vaults)
      ensures ok <==> exists r :: r in old(vaults) && r.address == vault && (r.membersBlock > block || !ListsTwice(members))
    {
      forall i | 0 <= i < |vaults|
        ensures var next := NextRow(vaults[i], SetMembers(vault, members, block));
                if vaults[i].address == vault && vaults[i].membersBlock <= block && !ListsTwice(members)
                then StoresMembers(vaults[i], next, members, block)
                else next == vaults[i]
      {
        SetMembersOnRow(vaults[i], vault, members, block);
      }
      TwiceIsDuplicate(members);
      ok := exists r | r in vaults :: r.address == vault && (r.membersBlock > block || NoDuplicates(members));
      Execute(SetMembers(vault, members, block));
      if !ok {
        forall i | 0 <= i < |vaults|
          ensures vaults[i] == old(vaults)[i]
        {
          assert old(vaults)[i] in old(vaults);
        }
        assert vaults == old(vaults);
      }
    }

    /**
     Fills every missing provenance from the members table: exactly the rows that name an owner are filled,
     each with one of the owners it names (which one the statement leaves open), and no other row changes.
     */
    method BackfillMembersOwnerFromRoleMembers() returns (ghost answers: map<nat, Address>)
      requires Valid()
      modifies this
      ensures Valid()
      ensures vaults == Next(old(vaults), BackfillProvenance(answers))
      ensures trace == old(trace) + [BackfillProvenance(answers)]
      ensures |vaults| == |old(vaults)|
      ensures forall i | 0 <= i < |old(vaults)| ::
                if old(vaults)[i].membersOwner.None?
                   && (exists a :: Member(StakingVaultOwner, a) in old(vaults)[i].members && a != ZERO_ADDRESS)
                then
                  && vaults[i].membersOwner.Some? && vaults[i].membersOwner.value != ZERO_ADDRESS
                  && Member(StakingVaultOwner, vaults[i].membersOwner.value) in old(vaults)[i].members
                  && vaults[i] == old(vaults)[i].(membersOwner := vaults[i].membersOwner)
                else vaults[i] == old(vaults)[i]
    {
      var named: map<nat, Address> := map[];
      for k := 0 to |vaults|
        invariant forall i | 0 <= i < k ::
            if exists a :: NamesOwner(vaults[i], a)
            then vaults[i].id in named && NamesOwner(vaults[i], named[vaults[i].id])
            else vaults[i].id !in named
        invariant forall i | k <= i < |vaults| :: vaults[i].id !in named
      {
        var row := vaults[k];
        if m :| m in row.members && m.role == StakingVaultOwner && m.address != ZERO_ADDRESS {
          assert NamesOwner(row, m.address);
          named := named[row.id := m.address];
        } else {
          assert forall a | NamesOwner(row, a) :: Member(StakingVaultOwner, a) in row.members;
        }
      }
      forall i | 0 <= i < |vaults|
        ensures (exists a :: Member(StakingVaultOwner, a) in vaults[i].members && a != ZERO_ADDRESS) <==> vaults[i].id in named
        ensures vaults[i].id in named ==> NamesOwner(vaults[i], named[vaults[i].id])
      {
        if a :| Member(StakingVaultOwner, a) in vaults[i].members && a != ZERO_ADDRESS {
          assert NamesOwner(vaults[i], a);
        }
      }
      Execute(BackfillProvenance(named));
      answers := named;
    }

    method GetPage(q: Query, limit: nat, afterId: nat) returns (page: seq<VaultRow>)
      requires Valid() && limit >= 1
      ensures page == Page(vaults, q, afterId, limit)
      ensures IsPage(page, vaults, q, afterId)
      ensures |page| <= limit && (|page| < limit ==> forall r | r in vaults && r.id > afterId && Selected(r, q) :: r in page)
      ensures forall r | r in vaults && r.id > afterId && (page == [] || r.id <= page[|page| - 1].id) ::
                r in page <==>
                  match q
                  case WithoutOwnership => r.effectiveOwner == None
                  case DisconnectedWithStaleMembers =>
                    && r.isDisconnected && r.effectiveOwner != None
                    && (r.membersOwner == None || Lower(r.membersOwner.value) != Lower(r.effectiveOwner.value))
    {
      page := Page(vaults, q, afterId, limit);
      PageIsSelected(vaults, q, afterId, limit);
      PageFillsLimit(vaults, q, afterId, limit);
      PageIsAscending(vaults, q, afterId, limit);
      forall r | r in vaults && r.id > afterId && Selected(r, q)
        ensures r in page || (page != [] && r.id > page[|page| - 1].id)
      {
        PageIsComplete(vaults, q, afterId, limit, r);
      }
    }

    method GetVaultAddresses(isDisconnected: bool) returns (addresses: seq<Address>)
      ensures addresses == AddressesOf(vaults, isDisconnected)
    {
      addresses := AddressesOf(vaults, isDisconnected);
    }
  }

  /** The addresses of the connected or of the disconnected rows, in id order. */
  function AddressesOf(rows: seq<VaultRow>, isDisconnected: bool): (r: seq<Address>)
    ensures forall a :: a in r <==> exists k :: 0 <= k < |rows| && rows[k].isDisconnected == isDisconnected && rows[k].address == a
  {
    if rows == [] then []
    else
      var n := |rows| - 1;
      AddressesOf(rows[..n], isDisconnected) + if rows[n].isDisconnected == isDisconnected then [rows[n].address] else []
  }
}
