/** The role answers of `VaultViewer`, the test they must pass, and the map they become. */
module VaultViewer {
  import opened Addresses
  import opened Wrappers
  import opened VaultRows

  datatype RawRoleMembers = RawRoleMembers(vault: Address, owner: Address, nodeOperator: Address, members: seq<seq<Address>>)

  const ROLE_KEYS: seq<Role> := [
    StakingVaultOwner, StakingVaultNodeOperator, StakingVaultDepositor,
    DashboardOwner, DashboardRecoverAssets,
    NodeOperatorManager, RewardsAdjust,
    Fund, Withdraw, Mint, Burn, Rebalance, PauseDeposits, ResumeDeposits, RequestValidatorExit,
    TriggerValidatorWithdrawal, VoluntaryDisconnect, PdgCompensatePredeposit, PdgProveValidator,
    UnguaranteedDeposit, ChangeTier]

  /** A zero owner or node operator means the viewer could not reach the vault through the hub. */
  predicate IsResolved(raw: RawRoleMembers) {
    raw.owner != ZERO_ADDRESS && raw.nodeOperator != ZERO_ADDRESS
  }

  /** The k-th member list, empty when the answer is shorter. */
  function MembersAt(raw: RawRoleMembers, k: nat): seq<Address> {
    if k < |raw.members| then raw.members[k] else []
  }

  /** The map after the first `n` keys: a key with a non-empty list gets that list. */
  function RoleMembersUpTo(keys: seq<Role>, raw: RawRoleMembers, n: nat): RoleMembers
    requires n <= |keys|
  {
    if n == 0 then map[StakingVaultOwner := [raw.owner], StakingVaultNodeOperator := [raw.nodeOperator]]
    else
      var before := RoleMembersUpTo(keys, raw, n - 1);
      if MembersAt(raw, n - 1) == [] then before else before[keys[n - 1] := MembersAt(raw, n - 1)]
  }

  function RoleMembersOf(raw: RawRoleMembers): RoleMembers {
    RoleMembersUpTo(ROLE_KEYS, raw, |ROLE_KEYS|)
  }

  /** Where a role stands among the role keys. */
  function Position(role: Role): (k: nat)
    ensures k < |ROLE_KEYS| && ROLE_KEYS[k] == role
  {
    match role
    case StakingVaultOwner => 0
    case StakingVaultNodeOperator => 1
    case StakingVaultDepositor => 2
    case DashboardOwner => 3
    case DashboardRecoverAssets => 4
    case NodeOperatorManager => 5
    case RewardsAdjust => 6
    case Fund => 7
    case Withdraw => 8
    case Mint => 9
    case Burn => 10
    case Rebalance => 11
    case PauseDeposits => 12
    case ResumeDeposits => 13
    case RequestValidatorExit => 14
    case TriggerValidatorWithdrawal => 15
    case VoluntaryDisconnect => 16
    case PdgCompensatePredeposit => 17
    case PdgProveValidator => 18
    case UnguaranteedDeposit => 19
    case ChangeTier => 20
  }

  lemma PositionIsUnique(k: nat)
    requires k < |ROLE_KEYS|
    ensures Position(ROLE_KEYS[k]) == k
  {
    assert k == 0 || k == 1 || k == 2 || k == 3 || k == 4 || k == 5 || k == 6 || k == 7 || k == 8 || k == 9 || k == 10
           || k == 11 || k == 12 || k == 13 || k == 14 || k == 15 || k == 16 || k == 17 || k == 18 || k == 19 || k == 20;
  }

  ghost predicate Distinct(keys: seq<Role>) {
    forall j, k | 0 <= j < k < |keys| :: keys[j] != keys[k]
  }

  lemma RoleKeysAreDistinct()
    ensures Distinct(ROLE_KEYS)
  {
    forall j, k | 0 <= j < k < |ROLE_KEYS|
      ensures ROLE_KEYS[j] != ROLE_KEYS[k]
    {
      PositionIsUnique(j);
      PositionIsUnique(k);
    }
  }

  /** Whom the viewer names for a role besides its member lists. */
  function Reported(raw: RawRoleMembers, role: Role): seq<Address> {
    match role
    case StakingVaultOwner => [raw.owner]
    case StakingVaultNodeOperator => [raw.nodeOperator]
    case _ => []
  }

  /** The members of the k-th role: its list unless that is empty, else whom the viewer reported. */
  function MembersOfRole(raw: RawRoleMembers, role: Role, k: nat): seq<Address> {
    if MembersAt(raw, k) != [] then MembersAt(raw, k) else Reported(raw, role)
  }

  /** What the map holds for a role, before and after its key is read. */
  lemma {:induction false} RoleMembersAre(keys: seq<Role>, raw: RawRoleMembers, n: nat, k: nat)
    requires Distinct(keys) && n <= |keys| && k < |keys|
    ensures var members := if k < n then MembersOfRole(raw, keys[k], k) else Reported(raw, keys[k]);
            && (keys[k] in RoleMembersUpTo(keys, raw, n) <==> members != [])
            && (keys[k] in RoleMembersUpTo(keys, raw, n) ==> RoleMembersUpTo(keys, raw, n)[keys[k]] == members)
  {
    if n > 0 {
      RoleMembersAre(keys, raw, n - 1, k);
    }
  }

  /** The map of an answer, role by role: exactly the roles with members. */
  lemma RoleMembersOfAre(raw: RawRoleMembers, role: Role)
    ensures role in RoleMembersOf(raw) <==> MembersOfRole(raw, role, Position(role)) != []
    ensures role in RoleMembersOf(raw) ==> RoleMembersOf(raw)[role] == MembersOfRole(raw, role, Position(role))
  {
    RoleKeysAreDistinct();
    RoleMembersAre(ROLE_KEYS, raw, |ROLE_KEYS|, Position(role));
  }

  method TransformRoleMembersMap(raw: RawRoleMembers) returns (members: RoleMembers)
    ensures forall role: Role :: role in members <==> MembersOfRole(raw, role, Position(role)) != []
    ensures forall role: Role :: role in members ==> members[role] == MembersOfRole(raw, role, Position(role))
    ensures members == RoleMembersOf(raw)
  {
    members := map[StakingVaultOwner := [raw.owner], StakingVaultNodeOperator := [raw.nodeOperator]];
    for i := 0 to |ROLE_KEYS|
      invariant members == RoleMembersUpTo(ROLE_KEYS, raw, i)
    {
      var m := if i < |raw.members| then raw.members[i] else [];
      if |m| > 0 {
        members := members[ROLE_KEYS[i] := m];
      }
    }
    forall role: Role
      ensures role in members <==> MembersOfRole(raw, role, Position(role)) != []
      ensures role in members ==> members[role] == MembersOfRole(raw, role, Position(role))
    {
      RoleMembersOfAre(raw, role);
    }
  }

  /**
   The owner role is itself one of the role keys, so a non-empty first member list replaces the owner the viewer
   reported. The provenance a members write records is that owner exactly when the list is empty or starts with it.
   */
  lemma ProvenanceIsOwnerIff(raw: RawRoleMembers)
    requires IsResolved(raw) && raw.owner != ""
    ensures OwnerEntry(RoleMembersOf(raw)) == Some(raw.owner)
            <==> MembersAt(raw, 0) == [] || MembersAt(raw, 0)[0] == raw.owner
  {
    RoleMembersOfAre(raw, StakingVaultOwner);
  }

  /** An answer whose owner list names somebody else than the owner it reports. */
  lemma OwnerListReplacesOwner(vault: Address, owner: Address, operator: Address, listed: Address)
    requires owner !in {"", ZERO_ADDRESS, listed} && operator != ZERO_ADDRESS && listed !in {"", ZERO_ADDRESS}
    ensures var raw := RawRoleMembers(vault, owner, operator, [[listed]]);
            IsResolved(raw) && OwnerEntry(RoleMembersOf(raw)) == Some(listed)
  {
    RoleMembersOfAre(RawRoleMembers(vault, owner, operator, [[listed]]), StakingVaultOwner);
  }
}
