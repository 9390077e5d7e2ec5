/**
 The `vaults` and `vault_members` tables as values, and every atomic statement the service runs on them.
 A run of the service, whatever the interleaving of its writers, is a sequence of `DbStep`s.
 */
module VaultRows {
  import opened Addresses
  import opened Wrappers

  /** The roles of `ROLE_LABELS`, in the order of `ROLE_KEYS`. */
  datatype Role =
    | StakingVaultOwner
    | StakingVaultNodeOperator
    | StakingVaultDepositor
    | DashboardOwner
    | DashboardRecoverAssets
    | NodeOperatorManager
    | RewardsAdjust
    | Fund
    | Withdraw
    | Mint
    | Burn
    | Rebalance
    | PauseDeposits
    | ResumeDeposits
    | RequestValidatorExit
    | TriggerValidatorWithdrawal
    | VoluntaryDisconnect
    | PdgCompensatePredeposit
    | PdgProveValidator
    | UnguaranteedDeposit
    | ChangeTier

  datatype Member = Member(role: Role, address: Address)

  type RoleMembers = map<Role, seq<Address>>

  datatype VaultRow = VaultRow(
    id: nat,
    address: Address,
    isDisconnected: bool,
    effectiveOwner: Option<Address>,
    membersOwner: Option<Address>,
    ownershipBlock: nat,
    membersBlock: nat,
    members: set<Member>)

  /** One guarded `UPDATE vaults`: an absent column is left alone. */
  datatype OwnershipWrite = OwnershipWrite(
    vault: Address,
    block: nat,
    disconnected: Option<bool>,
    owner: Option<Address>,
    onlyDisconnected: bool)

  datatype DbStep =
    | CreateVault(address: Address, isDisconnected: bool)
    | WriteOwnership(write: OwnershipWrite)
    | SetMembers(vault: Address, members: RoleMembers, block: nat)
    | BackfillProvenance(answers: map<nat, Address>)

  function ConnectWrite(vault: Address, block: nat, connectionOwner: Address): OwnershipWrite {
    OwnershipWrite(vault, block, Some(false), Some(connectionOwner), false)
  }

  function DisconnectWrite(vault: Address, block: nat, owner: Option<Address>): OwnershipWrite {
    OwnershipWrite(vault, block, Some(true), owner, false)
  }

  function TransferWrite(vault: Address, owner: Address, block: nat, onlyDisconnected: bool): OwnershipWrite {
    OwnershipWrite(vault, block, None, Some(owner), onlyDisconnected)
  }

  /** The `WHERE` clause of the ownership update. */
  predicate Accepts(row: VaultRow, w: OwnershipWrite) {
    && Same(row.address, w.vault)
    && row.ownershipBlock <= w.block
    && (w.onlyDisconnected ==> row.isDisconnected)
  }

  function ApplyOwnership(row: VaultRow, w: OwnershipWrite): VaultRow {
    if Accepts(row, w) then
      row.(isDisconnected := if w.disconnected.Some? then w.disconnected.value else row.isDisconnected,
           effectiveOwner := if w.owner.Some? then w.owner else row.effectiveOwner,
           ownershipBlock := w.block)
    else row
  }

  function Flatten(members: RoleMembers): set<Member> {
    set r, a | r in members && a in members[r] :: Member(r, a)
  }

  /** `vault_members` is unique on (vault, address, role). */
  predicate NoDuplicates(members: RoleMembers) {
    forall r | r in members :: forall i, j | 0 <= i < j < |members[r]| :: members[r][i] != members[r][j]
  }

  /** The provenance a members write records: the first vault owner it lists, unless empty or zero. */
  function OwnerEntry(members: RoleMembers): Option<Address> {
    if StakingVaultOwner in members && |members[StakingVaultOwner]| > 0
       && members[StakingVaultOwner][0] != "" && members[StakingVaultOwner][0] != ZERO_ADDRESS
    then Some(members[StakingVaultOwner][0])
    else None
  }

  /** Whether the members transaction commits on this row: it is the addressed row, and not older than it. */
  predicate AcceptsMembers(row: VaultRow, vault: Address, members: RoleMembers, block: nat) {
    row.address == vault && row.membersBlock <= block && NoDuplicates(members)
  }

  /** The rows the provenance recovery may name for a vault. */
  predicate NamesOwner(row: VaultRow, a: Address) {
    Member(StakingVaultOwner, a) in row.members && a != ZERO_ADDRESS
  }

  function NextRow(row: VaultRow, step: DbStep): VaultRow {
    match step
    case CreateVault(_, _) => row
    case WriteOwnership(w) => ApplyOwnership(row, w)
    case SetMembers(v, m, b) =>
      if AcceptsMembers(row, v, m, b)
      then row.(members := Flatten(m), membersOwner := OwnerEntry(m), membersBlock := b)
      else row
    case BackfillProvenance(answers) =>
      if row.membersOwner.None? && row.id in answers && NamesOwner(row, answers[row.id])
      then row.(membersOwner := Some(answers[row.id]))
      else row
  }

  /** The only statement the scan and the reconcile job issue: an owner, for disconnected rows. */
  predicate IsGuardedOwnerWrite(step: DbStep) {
    step.WriteOwnership? && step.write.onlyDisconnected && step.write.disconnected.None? && step.write.owner.Some?
  }

  /** The statement would record the hub itself as an owner. */
  predicate NamesHub(step: DbStep, hub: Address) {
    step.WriteOwnership? && step.write.owner.Some? && Same(step.write.owner.value, hub)
  }

  ghost predicate SparesHub(steps: seq<DbStep>, hub: Address) {
    forall s | s in steps :: !NamesHub(s, hub)
  }

  predicate Known(rows: seq<VaultRow>, address: Address) {
    exists i | 0 <= i < |rows| :: rows[i].address == address
  }

  function NewRow(rows: seq<VaultRow>, address: Address, isDisconnected: bool): VaultRow {
    var id := if rows == [] then 1 else rows[|rows| - 1].id + 1;
    VaultRow(id, address, isDisconnected, None, None, 0, 0, {})
  }

  function Created(rows: seq<VaultRow>, step: DbStep): seq<VaultRow> {
    if step.CreateVault? && !Known(rows, step.address)
    then [NewRow(rows, step.address, step.isDisconnected)]
    else []
  }

  function Next(rows: seq<VaultRow>, step: DbStep): seq<VaultRow> {
    seq(|rows|, i requires 0 <= i < |rows| => NextRow(rows[i], step)) + Created(rows, step)
  }

  function Replay(rows: seq<VaultRow>, steps: seq<DbStep>): seq<VaultRow> {
    if steps == [] then rows else Next(Replay(rows, steps[..|steps| - 1]), steps[|steps| - 1])
  }

  function ReplayRow(row: VaultRow, steps: seq<DbStep>): VaultRow {
    if steps == [] then row else NextRow(ReplayRow(row, steps[..|steps| - 1]), steps[|steps| - 1])
  }

  /** Ids ascend, as the `id` order of every query assumes, and addresses are unique. */
  ghost predicate WellFormed(rows: seq<VaultRow>) {
    && (forall i | 0 <= i < |rows| :: rows[i].id > 0)
    && (forall i, j | 0 <= i < j < |rows| :: rows[i].id < rows[j].id)
    && (forall i, j | 0 <= i < j < |rows| :: rows[i].address != rows[j].address)
  }

  lemma NextWellFormed(rows: seq<VaultRow>, step: DbStep)
    requires WellFormed(rows)
    ensures WellFormed(Next(rows, step))
  {
    var next := Next(rows, step);
    forall i | 0 <= i < |rows|
      ensures next[i].id == rows[i].id && next[i].address == rows[i].address
    {
    }
  }

  /** No statement loses a row, and each row sees the same statements as if it were alone in the table. */
  lemma {:induction false} ReplayIsRowwise(rows: seq<VaultRow>, steps: seq<DbStep>, i: nat)
    requires i < |rows|
    ensures |rows| <= |Replay(rows, steps)|
    ensures Replay(rows, steps)[i] == ReplayRow(rows[i], steps)
  {
    if steps != [] {
      ReplayIsRowwise(rows, steps[..|steps| - 1], i);
    }
  }

  lemma {:induction false} ReplayConcat(rows: seq<VaultRow>, a: seq<DbStep>, b: seq<DbStep>)
    ensures Replay(rows, a + b) == Replay(Replay(rows, a), b)
  {
    if b == [] {
      assert a + b == a;
    } else {
      ReplayConcat(rows, a, b[..|b| - 1]);
      assert (a + b)[..|a + b| - 1] == a + b[..|b| - 1];
    }
  }

  lemma {:induction false} ReplayRowConcat(row: VaultRow, a: seq<DbStep>, b: seq<DbStep>)
    ensures ReplayRow(row, a + b) == ReplayRow(ReplayRow(row, a), b)
  {
    if b == [] {
      assert a + b == a;
    } else {
      ReplayRowConcat(row, a, b[..|b| - 1]);
      assert (a + b)[..|a + b| - 1] == a + b[..|b| - 1];
    }
  }

  /** A row keeps its identity for ever. */
  lemma {:induction false} ReplayKeepsIdentity(row: VaultRow, steps: seq<DbStep>)
    ensures ReplayRow(row, steps).id == row.id
    ensures ReplayRow(row, steps).address == row.address
  {
    if steps != [] {
      ReplayKeepsIdentity(row, steps[..|steps| - 1]);
    }
  }
}
