/**
 Ownership updates come from handlers and jobs that read different blocks, so they arrive in any order and
 may be delivered twice. These lemmas say what the `ownership_block_number` guard makes of that.
 */
module OwnershipOrder {
  import opened Addresses
  import opened Wrappers
  import opened VaultRows

  function Deliver(row: VaultRow, ws: seq<OwnershipWrite>): VaultRow {
    if ws == [] then row else ApplyOwnership(Deliver(row, ws[..|ws| - 1]), ws[|ws| - 1])
  }

  function AsSteps(ws: seq<OwnershipWrite>): seq<DbStep> {
    seq(|ws|, k requires 0 <= k < |ws| => WriteOwnership(ws[k]))
  }

  lemma {:induction false} ReplayIsDelivery(row: VaultRow, ws: seq<OwnershipWrite>)
    ensures ReplayRow(row, AsSteps(ws)) == Deliver(row, ws)
  {
    if ws != [] {
      ReplayIsDelivery(row, ws[..|ws| - 1]);
      assert AsSteps(ws)[..|ws| - 1] == AsSteps(ws[..|ws| - 1]);
    }
  }

  lemma {:induction false} WritesAddNoRow(rows: seq<VaultRow>, ws: seq<OwnershipWrite>)
    ensures |Replay(rows, AsSteps(ws))| == |rows|
  {
    if ws != [] {
      WritesAddNoRow(rows, ws[..|ws| - 1]);
      assert AsSteps(ws)[..|ws| - 1] == AsSteps(ws[..|ws| - 1]);
    }
  }

  lemma AsStepsOneMore(ws: seq<OwnershipWrite>, w: OwnershipWrite)
    ensures AsSteps(ws + [w]) == AsSteps(ws) + [WriteOwnership(w)]
  {
  }

  lemma DeliverOneMore(row: VaultRow, ws: seq<OwnershipWrite>, w: OwnershipWrite)
    ensures Deliver(row, ws + [w]) == ApplyOwnership(Deliver(row, ws), w)
  {
    assert (ws + [w])[..|ws|] == ws;
  }

  // ---- Arbitrary mixes of writes ----

  datatype Column = OwnerColumn | FlagColumn

  predicate Sets(w: OwnershipWrite, c: Column) {
    match c
    case OwnerColumn => w.owner.Some?
    case FlagColumn => w.disconnected.Some?
  }

  predicate Shows(row: VaultRow, w: OwnershipWrite, c: Column) {
    match c
    case OwnerColumn => row.effectiveOwner == w.owner
    case FlagColumn => Some(row.isDisconnected) == w.disconnected
  }

  predicate SameColumn(a: VaultRow, b: VaultRow, c: Column) {
    match c
    case OwnerColumn => a.effectiveOwner == b.effectiveOwner
    case FlagColumn => a.isDisconnected == b.isDisconnected
  }

  /** The k-th write found its guard satisfied. */
  ghost predicate Applied(row: VaultRow, ws: seq<OwnershipWrite>, k: nat)
    requires k < |ws|
  {
    Accepts(Deliver(row, ws[..k]), ws[k])
  }

  lemma {:induction false} BlockNeverDecreases(row: VaultRow, ws: seq<OwnershipWrite>, k: nat)
    requires k <= |ws|
    ensures Deliver(row, ws[..k]).ownershipBlock <= Deliver(row, ws).ownershipBlock
    ensures k < |ws| && Applied(row, ws, k) ==> ws[k].block <= Deliver(row, ws).ownershipBlock
    decreases |ws|
  {
    if k == |ws| {
      assert ws[..k] == ws;
    } else {
      var init := ws[..|ws| - 1];
      BlockNeverDecreases(row, init, k);
      assert init[..k] == ws[..k];
    }
  }

  /** Whatever the mix, applied writes come in block order: a column is never overwritten from a lower block. */
  lemma AppliedBlocksAscend(row: VaultRow, ws: seq<OwnershipWrite>, j: nat, k: nat)
    requires j < k < |ws| && Applied(row, ws, j) && Applied(row, ws, k)
    ensures ws[j].block <= ws[k].block
  {
    BlockNeverDecreases(row, ws[..k], j);
    assert ws[..k][..j] == ws[..j];
  }

  lemma {:induction false} LastSetter(row: VaultRow, ws: seq<OwnershipWrite>, c: Column) returns (k: int)
    ensures -1 <= k < |ws|
    ensures k == -1 ==> SameColumn(Deliver(row, ws), row, c)
    ensures k >= 0 ==> Applied(row, ws, k) && Sets(ws[k], c) && Shows(Deliver(row, ws), ws[k], c)
    ensures forall j | k < j < |ws| && Applied(row, ws, j) :: !Sets(ws[j], c)
  {
    k := -1;
    if ws != [] {
      var n := |ws| - 1;
      var init := ws[..n];
      if Applied(row, ws, n) && Sets(ws[n], c) {
        k := n;
      } else {
        k := LastSetter(row, init, c);
        forall j | 0 <= j < n
          ensures Applied(row, init, j) == Applied(row, ws, j)
        {
          assert init[..j] == ws[..j];
        }
      }
    }
  }

  /**
   Each column ends as the applied write that set it at the highest block left it, and keeps its old value
   only when no applied write set it.
   */
  lemma ColumnComesFromHighestWrite(row: VaultRow, ws: seq<OwnershipWrite>, c: Column) returns (k: int)
    ensures -1 <= k < |ws|
    ensures k == -1 ==> SameColumn(Deliver(row, ws), row, c)
    ensures k >= 0 ==> Applied(row, ws, k) && Sets(ws[k], c) && Shows(Deliver(row, ws), ws[k], c)
    ensures forall j | 0 <= j < |ws| && Applied(row, ws, j) && Sets(ws[j], c) :: k >= 0 && ws[j].block <= ws[k].block
  {
    k := LastSetter(row, ws, c);
    forall j | 0 <= j < |ws| && Applied(row, ws, j) && Sets(ws[j], c)
      ensures k >= 0 && ws[j].block <= ws[k].block
    {
      if j < k {
        AppliedBlocksAscend(row, ws, j, k);
      }
    }
  }

  // ---- Full writes: `connectVault`, and `disconnectVault` with an owner ----

  predicate FullWrite(row: VaultRow, w: OwnershipWrite) {
    Same(row.address, w.vault) && w.disconnected.Some? && w.owner.Some? && !w.onlyDisconnected
  }

  predicate SameValues(a: OwnershipWrite, b: OwnershipWrite) {
    a.disconnected == b.disconnected && a.owner == b.owner
  }

  /** Writes that agree on what happened at a block; distinct blocks, and re-deliveries, satisfy it. */
  ghost predicate AgreePerBlock(row: VaultRow, ws: seq<OwnershipWrite>) {
    && (forall k | 0 <= k < |ws| :: FullWrite(row, ws[k]))
    && (forall j, k | 0 <= j < |ws| && 0 <= k < |ws| && ws[j].block == ws[k].block :: SameValues(ws[j], ws[k]))
  }

  ghost predicate Highest(ws: seq<OwnershipWrite>, k: nat) {
    k < |ws| && forall j | 0 <= j < |ws| :: ws[j].block <= ws[k].block
  }

  /** However they are delivered, full writes leave the row as the highest one alone would. */
  lemma {:induction false} HighestFullWriteWins(row: VaultRow, ws: seq<OwnershipWrite>, k: nat)
    requires AgreePerBlock(row, ws) && Highest(ws, k)
    ensures Deliver(row, ws) == ApplyOwnership(row, ws[k])
  {
    var n := |ws| - 1;
    var init := ws[..n];
    if n == 0 {
      assert init == [];
    } else {
      var m := HighestIndex(init);
      HighestFullWriteWins(row, init, m);
      assert ws[m] == init[m];
      if k < n {
        assert ws[k] == init[k];
      }
    }
  }

  lemma {:induction false} HighestIndex(ws: seq<OwnershipWrite>) returns (k: nat)
    requires ws != []
    ensures Highest(ws, k)
  {
    k := |ws| - 1;
    if |ws| > 1 {
      var m := HighestIndex(ws[..|ws| - 1]);
      if ws[m].block > ws[k].block {
        k := m;
      }
    }
  }

  lemma EmptyTogether(ws: seq<OwnershipWrite>, ws': seq<OwnershipWrite>)
    requires forall w :: w in ws <==> w in ws'
    ensures ws == [] <==> ws' == []
  {
    if ws != [] {
      assert ws[0] in ws';
    }
    if ws' != [] {
      assert ws'[0] in ws;
    }
  }

  /** Any two deliveries of the same full writes, in any order and with any repetition, end in the same row. */
  lemma OrderIndependence(row: VaultRow, ws: seq<OwnershipWrite>, ws': seq<OwnershipWrite>)
    requires AgreePerBlock(row, ws)
    requires forall w :: w in ws <==> w in ws'
    ensures Deliver(row, ws) == Deliver(row, ws')
  {
    EmptyTogether(ws, ws');
    if ws != [] {
      forall j | 0 <= j < |ws'|
        ensures ws'[j] in ws
      {
        assert ws'[j] in ws';
      }
      var k := HighestIndex(ws);
      var k' := HighestIndex(ws');
      HighestFullWriteWins(row, ws, k);
      HighestFullWriteWins(row, ws', k');
      assert ws[k] in ws' && ws'[k'] in ws;
    }
  }

  lemma DeliverTwo(row: VaultRow, a: OwnershipWrite, b: OwnershipWrite)
    ensures Deliver(row, [a, b]) == ApplyOwnership(ApplyOwnership(row, a), b)
  {
    assert [a, b][..1] == [a] && [a][..0] == [];
    assert Deliver(row, [a]) == ApplyOwnership(row, a);
  }

  /** Two full writes of one vault commute exactly when they differ in block, agree in values, or are both stale. */
  lemma FullWritesCommuteIff(row: VaultRow, a: OwnershipWrite, b: OwnershipWrite)
    requires FullWrite(row, a) && FullWrite(row, b)
    ensures Deliver(row, [a, b]) == Deliver(row, [b, a])
            <==> a.block != b.block || SameValues(a, b) || a.block < row.ownershipBlock
  {
    DeliverTwo(row, a, b);
    DeliverTwo(row, b, a);
  }

  /**
   With partial writes the order does matter: a disconnect that could not resolve the owner, delivered before
   an older connect, makes the guard drop the owner the connect carried.
   */
  lemma PartialWritesDoNotCommute(vault: Address, owner: Address)
    ensures var row := VaultRow(1, vault, true, None, None, 0, 0, {});
            var connect, disconnect := ConnectWrite(vault, 5, owner), DisconnectWrite(vault, 10, None);
            && Deliver(row, [connect, disconnect]).effectiveOwner == Some(owner)
            && Deliver(row, [disconnect, connect]).effectiveOwner == None
  {
    var row := VaultRow(1, vault, true, None, None, 0, 0, {});
    var connect, disconnect := ConnectWrite(vault, 5, owner), DisconnectWrite(vault, 10, None);
    DeliverTwo(row, connect, disconnect);
    DeliverTwo(row, disconnect, connect);
  }

  predicate Covers(w: OwnershipWrite, column: Column, low: OwnershipWrite, row: VaultRow) {
    Sets(low, column) ==> Sets(w, column) || Shows(row, low, column)
  }

  /** A guarded write reaches disconnected rows only. */
  predicate Fires(row: VaultRow, w: OwnershipWrite) {
    !w.onlyDisconnected || row.isDisconnected
  }

  /**
   Whether the order of two writes at different blocks makes no difference to a row. An earlier write that is stale,
   or that the flag keeps out, gets through in neither order. Otherwise it must leave the flag such that the later
   write gets through in both orders or in neither; and a later write that gets through has to set every column on
   which the earlier one would have changed the row.
   */
  predicate OrderIsIrrelevant(row: VaultRow, low: OwnershipWrite, high: OwnershipWrite) {
    if low.block < row.ownershipBlock || !Fires(row, low) then true
    else if !Fires(row, high) then low.disconnected != Some(true)
    else
      && !(high.onlyDisconnected && low.disconnected == Some(false))
      && Covers(high, OwnerColumn, low, row) && Covers(high, FlagColumn, low, row)
  }

  /** The exact condition, for writes of every shape: full or partial, guarded or not, stale or not. */
  lemma WritesCommuteIff(row: VaultRow, low: OwnershipWrite, high: OwnershipWrite)
    requires Same(row.address, low.vault) && Same(row.address, high.vault)
    requires low.block < high.block
    ensures Deliver(row, [low, high]) == Deliver(row, [high, low]) <==> OrderIsIrrelevant(row, low, high)
  {
    DeliverTwo(row, low, high);
    DeliverTwo(row, high, low);
  }

  function OwnerAfter(row: VaultRow, w: OwnershipWrite): Option<Address> {
    if w.owner.Some? then w.owner else row.effectiveOwner
  }

  /** The first of two writes shuts the row to the second, or opens it. */
  predicate Shuts(first: OwnershipWrite, second: OwnershipWrite) {
    second.onlyDisconnected && first.disconnected == Some(false)
  }

  /** Writing the second on top of the first, which the row let in while it was shut to the second, shows nothing. */
  predicate AddsNothingOpened(row: VaultRow, first: OwnershipWrite, second: OwnershipWrite) {
    first.disconnected == Some(true) ==>
      second.disconnected != Some(false) && (second.owner.Some? ==> second.owner == OwnerAfter(row, first))
  }

  /**
   Whether the order of two writes at the same block makes no difference to a row. Stale ones never get through. When
   the flag keeps both out nothing happens; when it keeps one out, that one must add nothing if the other opens the row
   to it. When both get in, each may shut the other out: if both do, they must leave the same owner; if one does, the
   other must not bring an owner that the row lacks; if none does, they must agree on the columns both set.
   */
  predicate SameBlockOrderIsIrrelevant(row: VaultRow, a: OwnershipWrite, b: OwnershipWrite) {
    if a.block < row.ownershipBlock || (!Fires(row, a) && !Fires(row, b)) then true
    else if !Fires(row, b) then AddsNothingOpened(row, a, b)
    else if !Fires(row, a) then AddsNothingOpened(row, b, a)
    else if Shuts(a, b) && Shuts(b, a) then OwnerAfter(row, a) == OwnerAfter(row, b)
    else if Shuts(a, b) then a.owner.None? && b.owner.Some? ==> b.owner == row.effectiveOwner
    else if Shuts(b, a) then b.owner.None? && a.owner.Some? ==> a.owner == row.effectiveOwner
    else (a.owner.Some? && b.owner.Some? ==> a.owner == b.owner)
         && (a.disconnected.Some? && b.disconnected.Some? ==> a.disconnected == b.disconnected)
  }

  /** The exact condition at one block, again for writes of every shape. */
  lemma SameBlockWritesCommuteIff(row: VaultRow, a: OwnershipWrite, b: OwnershipWrite)
    requires Same(row.address, a.vault) && Same(row.address, b.vault)
    requires a.block == b.block
    ensures Deliver(row, [a, b]) == Deliver(row, [b, a]) <==> SameBlockOrderIsIrrelevant(row, a, b)
  {
    DeliverTwo(row, a, b);
    DeliverTwo(row, b, a);
  }

  /** So a transfer the scan saw and an ownerless disconnect at its block end differently by order on a connected row. */
  lemma SameBlockDisconnectDoesNotCommute(vault: Address, owner: Address, before: Address)
    requires owner != before
    ensures var row := VaultRow(1, vault, false, Some(before), None, 0, 0, {});
            var transfer, disconnect := TransferWrite(vault, owner, 5, true), DisconnectWrite(vault, 5, None);
            && Deliver(row, [transfer, disconnect]).effectiveOwner == Some(before)
            && Deliver(row, [disconnect, transfer]).effectiveOwner == Some(owner)
  {
    var row := VaultRow(1, vault, false, Some(before), None, 0, 0, {});
    DeliverTwo(row, TransferWrite(vault, owner, 5, true), DisconnectWrite(vault, 5, None));
    DeliverTwo(row, DisconnectWrite(vault, 5, None), TransferWrite(vault, owner, 5, true));
  }
}
