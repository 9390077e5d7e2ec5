/**
 Where the premise of the scan's refinement comes from: every writer that resolves an owner from the chain records one
 that is right at the block it records with it, and the scans keep it so.
 */
module RecordedOwners {
  import opened Addresses
  import opened Wrappers
  import opened VaultRows
  import opened OwnershipOrder
  import opened OwnershipChain
  import opened Reconcile
  import opened OwnershipRuns
  import opened Sequences
  import FullSync
  import Backfill

  /** The write names the owner that a state read at its block resolves. */
  ghost predicate IsTruthful(w: OwnershipWrite, hub: Address, genesis: OwnerState, events: seq<OwnerEvent>) {
    w.owner.Some? && w.owner == ResolveDisconnectedEffectiveOwner(StateAt(genesis, events, w.block), hub)
  }

  ghost predicate TruthfulFor(row: VaultRow, ws: seq<OwnershipWrite>, hub: Address, genesis: OwnerState, events: seq<OwnerEvent>) {
    forall w | w in ws && Same(row.address, w.vault) :: IsTruthful(w, hub, genesis, events)
  }

  /** The last write that got through to the row. */
  ghost predicate LastApplied(row: VaultRow, ws: seq<OwnershipWrite>, k: nat) {
    k < |ws| && Applied(row, ws, k) && forall j | k < j < |ws| :: !Applied(row, ws, j)
  }

  lemma {:induction false} SomeWriteIsLastApplied(row: VaultRow, ws: seq<OwnershipWrite>, j: nat) returns (k: nat)
    requires j < |ws| && Applied(row, ws, j)
    ensures LastApplied(row, ws, k)
    decreases |ws| - j
  {
    if n :| j < n < |ws| && Applied(row, ws, n) {
      k := SomeWriteIsLastApplied(row, ws, n);
    } else {
      k := j;
    }
  }

  /** What the last applied write left is what the row ends with. */
  lemma {:induction false} NothingAppliedSince(row: VaultRow, ws: seq<OwnershipWrite>, k: nat)
    requires k <= |ws| && forall j | k <= j < |ws| :: !Applied(row, ws, j)
    ensures Deliver(row, ws) == Deliver(row, ws[..k])
    decreases |ws|
  {
    if k == |ws| {
      assert ws[..k] == ws;
    } else {
      var n := |ws| - 1;
      assert !Applied(row, ws, n);
      forall j | k <= j < n
        ensures !Applied(row, ws[..n], j)
      {
        assert ws[..n][..j] == ws[..j] && !Applied(row, ws, j);
      }
      NothingAppliedSince(row, ws[..n], k);
      assert ws[..n][..k] == ws[..k];
    }
  }

  /**
   Only the last write that got through matters, whatever the others said: when it names an owner, the row is right
   exactly when that write is truthful. Without any, the row is as right as it was.
   */
  lemma RecordIsOfLastApplied(
      row: VaultRow, ws: seq<OwnershipWrite>, k: nat, hub: Address, genesis: OwnerState, events: seq<OwnerEvent>)
    requires LastApplied(row, ws, k) && ws[k].owner.Some?
    ensures RecordsOwner(Deliver(row, ws), hub, genesis, events) <==> IsTruthful(ws[k], hub, genesis, events)
  {
    NothingAppliedSince(row, ws, k + 1);
    TakeOneMore(ws, k);
  }

  /** If a write got through, the last to do so is truthful. */
  ghost predicate LastIsTruthful(row: VaultRow, ws: seq<OwnershipWrite>, hub: Address, genesis: OwnerState, events: seq<OwnerEvent>) {
    forall k: nat | LastApplied(row, ws, k) :: IsTruthful(ws[k], hub, genesis, events)
  }

  /**
   However many writes arrive, in whatever order, stale and superseded ones among them: when the last to get through
   is truthful, a row that was right stays right, and one that was not is right as soon as one gets through.
   */
  lemma TruthfulWritesKeepRecord(
      row: VaultRow, ws: seq<OwnershipWrite>, hub: Address, genesis: OwnerState, events: seq<OwnerEvent>)
    requires LastIsTruthful(row, ws, hub, genesis, events)
    requires RecordsOwner(row, hub, genesis, events) || exists k :: 0 <= k < |ws| && Applied(row, ws, k)
    ensures RecordsOwner(Deliver(row, ws), hub, genesis, events)
  {
    if j :| 0 <= j < |ws| && Applied(row, ws, j) {
      var k := SomeWriteIsLastApplied(row, ws, j);
      RecordIsOfLastApplied(row, ws, k, hub, genesis, events);
    } else {
      NothingAppliedSince(row, ws, 0);
      assert ws[..0] == [];
    }
  }

  lemma DeliverKeepsAddress(row: VaultRow, ws: seq<OwnershipWrite>)
    ensures Deliver(row, ws).address == row.address
  {
    ReplayIsDelivery(row, ws);
    ReplayKeepsIdentity(row, AsSteps(ws));
  }

  /** Writers whose every write to the row is truthful qualify. */
  lemma TruthfulWritersQualify(row: VaultRow, ws: seq<OwnershipWrite>, hub: Address, genesis: OwnerState, events: seq<OwnerEvent>)
    requires TruthfulFor(row, ws, hub, genesis, events)
    ensures LastIsTruthful(row, ws, hub, genesis, events)
  {
    forall k: nat | LastApplied(row, ws, k)
      ensures IsTruthful(ws[k], hub, genesis, events)
    {
      DeliverKeepsAddress(row, ws[..k]);
      assert ws[k] in ws;
    }
  }

  /** What the reconcile job writes is truthful. */
  lemma ReconcileIsTruthful(
      row: VaultRow, vaults: seq<Address>, hub: Address, ownership: map<Address, OwnerState>, block: nat, failed: set<Address>,
      genesis: OwnerState, events: seq<OwnerEvent>)
    requires ReadsState(row, ownership, StateAt(genesis, events, block))
    ensures TruthfulFor(row, ReconcileWrites(vaults, hub, ownership, block, failed), hub, genesis, events)
  {
    var ws := ReconcileWrites(vaults, hub, ownership, block, failed);
    forall w | w in ws && Same(row.address, w.vault)
      ensures IsTruthful(w, hub, genesis, events)
    {
      var k :| 0 <= k < |ws| && ws[k] == w;
      ReconcileWritesResolvedOwners(vaults, hub, ownership, block, failed, k);
    }
  }

  /** So is what the sweep of the full sync writes, whenever it names an owner at all. */
  lemma {:induction false} SweepIsTruthful(
      row: VaultRow, vaults: seq<Address>, onChain: set<Address>, hub: Address, block: nat, world: FullSync.World,
      genesis: OwnerState, events: seq<OwnerEvent>)
    requires ReadsState(row, world.ownership, StateAt(genesis, events, block))
    requires ResolveDisconnectedEffectiveOwner(StateAt(genesis, events, block), hub).Some?
    ensures TruthfulFor(row, FullSync.SweepWrites(vaults, onChain, hub, block, world), hub, genesis, events)
  {
    if vaults != [] {
      SweepIsTruthful(row, vaults[..|vaults| - 1], onChain, hub, block, world, genesis, events);
    }
  }

  /** And what the backfill and the disconnect handler write for a disconnected vault whose owner they resolved. */
  lemma ResolvedDisconnectIsTruthful(vault: VaultRow, hub: Address, block: nat, world: Backfill.World, genesis: OwnerState, events: seq<OwnerEvent>)
    requires vault.isDisconnected && ReadsState(vault, world.ownership, StateAt(genesis, events, block))
    requires ResolveDisconnectedEffectiveOwner(StateAt(genesis, events, block), hub).Some?
    ensures var w := Backfill.OwnerWrite(vault, hub, block, world);
            w.Ok? ==> w.value.Some? && IsTruthful(w.value.value, hub, genesis, events)
    ensures IsTruthful(DisconnectWrite(vault.address, block, ResolveDisconnectedEffectiveOwner(StateAt(genesis, events, block), hub)),
                       hub, genesis, events)
  {
    LowerIdempotent(vault.address);
  }

  /**
   The one way to lose it: a disconnect whose vault names nobody yet sets the flag at a new block and leaves the old
   owner standing. The row is then right exactly when it named nobody either.
   */
  lemma OwnerlessDisconnectKeepsRecordIff(row: VaultRow, block: nat, hub: Address, genesis: OwnerState, events: seq<OwnerEvent>)
    requires row.ownershipBlock <= block
    requires ResolveDisconnectedEffectiveOwner(StateAt(genesis, events, block), hub).None?
    ensures RecordsOwner(ApplyOwnership(row, DisconnectWrite(row.address, block, None)), hub, genesis, events)
            <==> row.effectiveOwner.None?
  {
  }

  /** A vault that the hub owns, with no pending owner, keeps its connection owner when it is disconnected. */
  lemma OwnerlessDisconnectKeepsOldOwner(vault: Address, owner: Address, hub: Address)
    ensures var row := VaultRow(1, vault, false, Some(owner), None, 5, 0, {});
            var after := ApplyOwnership(row, DisconnectWrite(vault, 10, ResolveDisconnectedEffectiveOwner(OwnerState(hub, ZERO_ADDRESS), hub)));
            && after == VaultRow(1, vault, true, Some(owner), None, 10, 0, {})
            && !RecordsOwner(after, hub, OwnerState(hub, ZERO_ADDRESS), [])
  {
    OwnerlessDisconnectKeepsRecordIff(
      VaultRow(1, vault, false, Some(owner), None, 5, 0, {}), 10, hub, OwnerState(hub, ZERO_ADDRESS), []);
  }

  /**
   The refinement from the writers on. Writes reach a table, in any order; then gapless scans run. As soon as one of
   the writes got through to a row (or it was right before), and the last to do so was truthful, the scans end with the
   owner on chain.
   */
  lemma WritesThenScans(
      rows: seq<VaultRow>, ws: seq<OwnershipWrite>, hub: Address, chain: set<TransferLog>, runs: seq<ScanRun>, i: nat, end: nat,
      genesis: OwnerState, events: seq<OwnerEvent>)
    requires i < |rows| && LastIsTruthful(rows[i], ws, hub, genesis, events)
    requires RecordsOwner(rows[i], hub, genesis, events) || exists k :: 0 <= k < |ws| && Applied(rows[i], ws, k)
    requires var row := Deliver(rows[i], ws);
             row.isDisconnected && row.ownershipBlock <= end && NoGaps(runs, row.ownershipBlock, end)
    requires UniquePositions(chain) && AllTruthful(chain, runs, end)
    requires SettlesDecider(Deliver(rows[i], ws), hub, chain, runs, end)
    requires Ordered(events) && Emits(chain, rows[i].address, events)
    requires !Same(StateAt(genesis, events, end).owner, hub)
    ensures var after := RunScans(Replay(rows, AsSteps(ws)), hub, runs);
            && |after| == |rows|
            && after[i].effectiveOwner == Some(StateAt(genesis, events, end).owner)
            && RecordsOwner(after[i], hub, genesis, events)
  {
    var written := Replay(rows, AsSteps(ws));
    WritesAddNoRow(rows, ws);
    ReplayIsRowwise(rows, AsSteps(ws), i);
    ReplayIsDelivery(rows[i], ws);
    DeliverKeepsAddress(rows[i], ws);
    TruthfulWritesKeepRecord(rows[i], ws, hub, genesis, events);
    ScanRefinesStateRead(written, hub, chain, runs, i, end, genesis, events);
  }
}
