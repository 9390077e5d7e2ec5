/**
 What the chain says about one vault: a history of the two OpenZeppelin `Ownable2Step` transitions, ordered by
 block and log index, and the state a read at a block observes. A transfer clears the pending owner.
 */
module OwnershipChain {
  import opened Addresses
  import opened Wrappers

  datatype OwnerEvent =
    | TransferStarted(block: nat, logIndex: nat, pendingOwner: Address)
    | OwnershipTransferred(block: nat, logIndex: nat, newOwner: Address)

  datatype OwnerState = OwnerState(owner: Address, pendingOwner: Address)

  /** An `OwnershipTransferred` log as the scan receives it. */
  datatype TransferLog = TransferLog(vault: Address, newOwner: Address, block: nat, logIndex: nat)

  ghost predicate Ordered(events: seq<OwnerEvent>) {
    forall i, j | 0 <= i < j < |events| ::
      events[i].block < events[j].block || (events[i].block == events[j].block && events[i].logIndex < events[j].logIndex)
  }

  function StateAt(genesis: OwnerState, events: seq<OwnerEvent>, block: nat): OwnerState {
    if events == [] then genesis
    else
      var n := |events| - 1;
      var before := StateAt(genesis, events[..n], block);
      if events[n].block > block then before
      else
        match events[n]
        case TransferStarted(_, _, p) => before.(pendingOwner := p)
        case OwnershipTransferred(_, _, o) => OwnerState(o, ZERO_ADDRESS)
  }

  /** The owner to record for a vault that left the hub, or `None` while the vault names nobody useful. */
  function ResolveDisconnectedEffectiveOwner(state: OwnerState, hub: Address): Option<Address> {
    if Same(state.owner, hub)
    then if state.pendingOwner == ZERO_ADDRESS then None else Some(state.pendingOwner)
    else Some(state.owner)
  }

  /** The resolved owner is never the hub unless the hub was made its own pending owner. */
  lemma ResolvedIsNotHub(state: OwnerState, hub: Address)
    requires !Same(state.pendingOwner, hub)
    ensures var o := ResolveDisconnectedEffectiveOwner(state, hub); o.Some? ==> !Same(o.value, hub)
  {
  }

  /** The k-th event is the last transfer at or before the block; -1 when there is none. */
  ghost predicate LastTransfer(events: seq<OwnerEvent>, block: nat, k: int) {
    && -1 <= k < |events|
    && (k >= 0 ==> events[k].OwnershipTransferred? && events[k].block <= block)
    && (forall j | k < j < |events| && events[j].OwnershipTransferred? :: events[j].block > block)
  }

  lemma {:induction false} OwnerIsLastTransfer(genesis: OwnerState, events: seq<OwnerEvent>, block: nat) returns (k: int)
    ensures LastTransfer(events, block, k)
    ensures StateAt(genesis, events, block).owner == if k >= 0 then events[k].newOwner else genesis.owner
  {
    k := -1;
    if events != [] {
      var n := |events| - 1;
      k := OwnerIsLastTransfer(genesis, events[..n], block);
      if events[n].OwnershipTransferred? && events[n].block <= block {
        k := n;
      } else {
        forall j | k < j < |events| && events[j].OwnershipTransferred?
          ensures events[j].block > block
        {
          if j < n {
            assert events[..n][j] == events[j];
          }
        }
      }
    }
  }

  /** Between two blocks without a transfer the owner stands still. */
  lemma {:induction false} OwnerStandsStill(genesis: OwnerState, events: seq<OwnerEvent>, from: nat, to: nat)
    requires from <= to
    requires forall e | e in events && e.OwnershipTransferred? :: !(from < e.block <= to)
    ensures StateAt(genesis, events, from).owner == StateAt(genesis, events, to).owner
  {
    if events != [] {
      var n := |events| - 1;
      OwnerStandsStill(genesis, events[..n], from, to);
      assert events[n] in events;
    }
  }

  /** The k-th event is the last one at or before the block. */
  ghost predicate LastEvent(events: seq<OwnerEvent>, block: nat, k: nat) {
    k < |events| && events[k].block <= block && forall j | k < j < |events| :: events[j].block > block
  }

  /** The pending owner is the one the last event started a transfer to, and none once it was a transfer. */
  lemma {:induction false} PendingIsOfLastEvent(genesis: OwnerState, events: seq<OwnerEvent>, block: nat, k: nat)
    requires LastEvent(events, block, k)
    ensures StateAt(genesis, events, block).pendingOwner ==
            if events[k].TransferStarted? then events[k].pendingOwner else ZERO_ADDRESS
  {
    var n := |events| - 1;
    if k < n {
      PendingIsOfLastEvent(genesis, events[..n], block, k);
    }
  }
}
