/** The two writers that read role members through `VaultViewer`: the daily refresh and the event path. */
module MembersRefresh {
  import opened Limits
  import opened Addresses
  import opened Wrappers
  import opened Sequences
  import opened VaultRows
  import opened VaultDb
  import opened VaultViewer
  import opened RetryCall

  /** The statements a list of answers leads to: unresolved answers and failing writes lead to none. */
  function MembersSteps(raws: seq<RawRoleMembers>, block: nat, failed: set<Address>): seq<DbStep> {
    if raws == [] then []
    else
      var n := |raws| - 1;
      var before := MembersSteps(raws[..n], block, failed);
      if IsResolved(raws[n]) && raws[n].vault !in failed
      then before + [SetMembers(raws[n].vault, RoleMembersOf(raws[n]), block)]
      else before
  }

  /** The viewer reached the vault through the hub: it names an owner and a node operator. */
  ghost predicate NamesBoth(raw: RawRoleMembers) {
    raw.owner != ZERO_ADDRESS && raw.nodeOperator != ZERO_ADDRESS
  }

  /** The step stores what an answer among these says that names both, at the block it was read. */
  ghost predicate StoresResolvedAnswer(step: DbStep, raws: seq<RawRoleMembers>, block: nat, failed: set<Address>) {
    exists raw :: raw in raws && NamesBoth(raw) && raw.vault !in failed && step == SetMembers(raw.vault, RoleMembersOf(raw), block)
  }

  /** Exactly the answers that name both, and whose writes go through, reach storage. */
  lemma {:induction false} OnlyResolvedAnswersAreStored(raws: seq<RawRoleMembers>, block: nat, failed: set<Address>, step: DbStep)
    ensures step in MembersSteps(raws, block, failed) <==> StoresResolvedAnswer(step, raws, block, failed)
  {
    if raws != [] {
      var n := |raws| - 1;
      OnlyResolvedAnswersAreStored(raws[..n], block, failed, step);
      assert raws == raws[..n] + [raws[n]];
      if StoresResolvedAnswer(step, raws[..n], block, failed) {
        var raw :| raw in raws[..n] && NamesBoth(raw) && raw.vault !in failed && step == SetMembers(raw.vault, RoleMembersOf(raw), block);
        assert raw in raws;
      }
    }
  }

  lemma {:induction false} MembersStepsConcat(a: seq<RawRoleMembers>, b: seq<RawRoleMembers>, block: nat, failed: set<Address>)
    ensures MembersSteps(a + b, block, failed) == MembersSteps(a, block, failed) + MembersSteps(b, block, failed)
  {
    if b == [] {
      assert a + b == a;
    } else {
      var n := |b| - 1;
      AppendLast(a, b);
      PrefixOfAppend(a + b[..n], b[n]);
      MembersStepsConcat(a, b[..n], block, failed);
    }
  }

  method StoreAnswers(db: VaultDbService, raws: seq<RawRoleMembers>, block: nat, failed: set<Address>)
    requires db.Valid()
    modifies db
    ensures db.Valid()
    ensures db.trace == old(db.trace) + MembersSteps(raws, block, failed)
  {
    for k := 0 to |raws|
      invariant db.Valid()
      invariant db.trace == old(db.trace) + MembersSteps(raws[..k], block, failed)
    {
      var raw := raws[k];
      TakeOneMore(raws, k);
      var members := TransformRoleMembersMap(raw);
      if IsResolved(raw) && raw.vault !in failed {
        Assoc(old(db.trace), MembersSteps(raws[..k], block, failed), [SetMembers(raw.vault, members, block)]);
        var _ := db.SetMembersForVault(raw.vault, members, block);
      }
    }
    TakeAll(raws);
  }

  /** The answers the viewer gives from an offset on, batch by batch; a batch whose call throws gives none. */
  function Answers(
      viewer: seq<Address> -> Option<seq<RawRoleMembers>>, vaults: seq<Address>, offset: nat, batchSize: nat): seq<RawRoleMembers>
    requires batchSize >= 1
    decreases |vaults| - offset
  {
    if offset >= |vaults| then []
    else
      var answer := viewer(vaults[offset..Min(offset + batchSize, |vaults|)]);
      (if answer.Some? then answer.value else []) + Answers(viewer, vaults, offset + batchSize, batchSize)
  }

  /** The viewer answers every batch, vault by vault. */
  ghost predicate AnswersEach(viewer: seq<Address> -> Option<seq<RawRoleMembers>>, each: Address -> RawRoleMembers) {
    forall vs: seq<Address> :: viewer(vs).Some? && |viewer(vs).value| == |vs| && forall k | 0 <= k < |vs| :: viewer(vs).value[k] == each(vs[k])
  }

  /** Then the refresh has every vault's answer once and in order, whatever the batch size. */
  lemma {:induction false} BatchesAnswerEachVault(
      viewer: seq<Address> -> Option<seq<RawRoleMembers>>, each: Address -> RawRoleMembers, vaults: seq<Address>, offset: nat, batchSize: nat)
    requires batchSize >= 1 && AnswersEach(viewer, each) && offset <= |vaults|
    ensures |Answers(viewer, vaults, offset, batchSize)| == |vaults| - offset
    ensures forall k | offset <= k < |vaults| :: Answers(viewer, vaults, offset, batchSize)[k - offset] == each(vaults[k])
    decreases |vaults| - offset
  {
    if offset < |vaults| {
      var next := Min(offset + batchSize, |vaults|);
      var batch := vaults[offset..next];
      BatchesAnswerEachVault(viewer, each, vaults, next, batchSize);
      assert Answers(viewer, vaults, offset + batchSize, batchSize) == Answers(viewer, vaults, next, batchSize);
      var all, rest := Answers(viewer, vaults, offset, batchSize), Answers(viewer, vaults, next, batchSize);
      assert all == viewer(batch).value + rest;
      forall k | offset <= k < |vaults|
        ensures all[k - offset] == each(vaults[k])
      {
        if k < next {
          assert all[k - offset] == viewer(batch).value[k - offset] && batch[k - offset] == vaults[k];
        } else {
          assert all[k - offset] == rest[k - next];
        }
      }
    }
  }

  /** An answer is received from some batch whose call went through. */
  lemma {:induction false} AnswerIsFromBatch(
      viewer: seq<Address> -> Option<seq<RawRoleMembers>>, vaults: seq<Address>, offset: nat, batchSize: nat, raw: RawRoleMembers)
    returns (m: nat)
    requires batchSize >= 1 && raw in Answers(viewer, vaults, offset, batchSize)
    ensures var start := BatchStart(offset, m, batchSize);
            && start < |vaults|
            && var answer := viewer(vaults[start..if start + batchSize < |vaults| then start + batchSize else |vaults|]);
               answer.Some? && raw in answer.value
    decreases |vaults| - offset
  {
    var answer := viewer(vaults[offset..Min(offset + batchSize, |vaults|)]);
    if answer.Some? && raw in answer.value {
      m := 0;
    } else {
      m := AnswerIsFromBatch(viewer, vaults, offset + batchSize, batchSize, raw);
      m := m + 1;
    }
  }

  /** And every answer to such a batch is received, whatever happened to the others. */
  lemma {:induction false} BatchAnswerIsReceived(
      viewer: seq<Address> -> Option<seq<RawRoleMembers>>, vaults: seq<Address>, offset: nat, batchSize: nat, raw: RawRoleMembers, m: nat)
    requires batchSize >= 1 && BatchStart(offset, m, batchSize) < |vaults|
    requires var start := BatchStart(offset, m, batchSize);
             var answer := viewer(vaults[start..if start + batchSize < |vaults| then start + batchSize else |vaults|]);
             answer.Some? && raw in answer.value
    ensures raw in Answers(viewer, vaults, offset, batchSize)
    decreases m
  {
    BatchStartsLater(offset, m, batchSize);
    if m > 0 {
      BatchAnswerIsReceived(viewer, vaults, offset + batchSize, batchSize, raw, m - 1);
    }
  }

  /** What was done up to an offset, and what the remaining batches add, make up the whole run. */
  ghost predicate Refreshed(
      db: VaultDbService, before: seq<DbStep>, vaults: seq<Address>, offset: nat, batchSize: nat, block: nat,
      viewer: seq<Address> -> Option<seq<RawRoleMembers>>, failed: set<Address>)
    requires batchSize >= 1
    reads db
  {
    db.trace + MembersSteps(Answers(viewer, vaults, offset, batchSize), block, failed)
    == before + MembersSteps(Answers(viewer, vaults, 0, batchSize), block, failed)
  }

  method RefreshBatch(
      db: VaultDbService, vaults: seq<Address>, offset: nat, batchSize: nat, block: nat,
      viewer: seq<Address> -> Option<seq<RawRoleMembers>>, failed: set<Address>, ghost before: seq<DbStep>)
    requires db.Valid() && batchSize >= 1 && offset < |vaults|
    requires Refreshed(db, before, vaults, offset, batchSize, block, viewer, failed)
    modifies db
    ensures db.Valid() && Refreshed(db, before, vaults, offset + batchSize, batchSize, block, viewer, failed)
  {
    var answer := viewer(vaults[offset..Min(offset + batchSize, |vaults|)]);
    ghost var rest := Answers(viewer, vaults, offset + batchSize, batchSize);
    if answer.Some? {
      MembersStepsConcat(answer.value, rest, block, failed);
      Assoc(db.trace, MembersSteps(answer.value, block, failed), MembersSteps(rest, block, failed));
      StoreAnswers(db, answer.value, block, failed);
    } else {
      assert [] + rest == rest;
    }
  }

  /**
   The daily refresh of connected vaults. `viewer` answers a batch of addresses (`None` when the call throws) and
   `failed` are the vaults whose write throws; both are isolated. It stores exactly the resolved answers to the
   batches of the first vaults of the list.
   */
  method FetchAllVaultsRoleMembers(
      db: VaultDbService, blockNumber: nat, minimalCount: int, batchSize: nat,
      viewer: seq<Address> -> Option<seq<RawRoleMembers>>, failed: set<Address>)
    requires db.Valid() && batchSize >= 1
    modifies db
    ensures db.Valid()
    ensures var vaults := AddressesOf(old(db.vaults), false);
            var asked := vaults[..if 0 < minimalCount < |vaults| then minimalCount else |vaults|];
            db.trace == old(db.trace) + MembersSteps(Answers(viewer, asked, 0, batchSize), blockNumber, failed)
  {
    var vaults := db.GetVaultAddresses(false);
    var vaultsLimit := VaultsLimit(minimalCount, |vaults|);
    var asked := vaults[..vaultsLimit];
    var offset := 0;
    ghost var before := db.trace;
    assert Refreshed(db, before, asked, 0, batchSize, blockNumber, viewer, failed);
    while offset < vaultsLimit
      invariant db.Valid() && Refreshed(db, before, asked, offset, batchSize, blockNumber, viewer, failed)
      decreases vaultsLimit - offset
    {
      RefreshBatch(db, asked, offset, batchSize, blockNumber, viewer, failed, before);
      offset := offset + batchSize;
    }
    RefreshEnds(db.trace, asked, offset, batchSize, blockNumber, viewer, failed);
  }

  lemma RefreshEnds(
      done: seq<DbStep>, vaults: seq<Address>, offset: nat, batchSize: nat, block: nat,
      viewer: seq<Address> -> Option<seq<RawRoleMembers>>, failed: set<Address>)
    requires batchSize >= 1 && offset >= |vaults|
    ensures done + MembersSteps(Answers(viewer, vaults, offset, batchSize), block, failed) == done
  {
  }

  /** A members step of an event: the first resolved reply of the viewer, at the block of the event. */
  ghost predicate IsEventMembersStep(step: DbStep, vault: Address, block: nat, answer: nat -> Answer<RawRoleMembers>) {
    exists k | 0 <= k < 5 ::
      && answer(k).Returned? && NamesBoth(answer(k).value)
      && step == SetMembers(vault, RoleMembersOf(answer(k).value), block)
      && forall j | 0 <= j < k :: !(answer(j).Returned? && NamesBoth(answer(j).value))
  }

  /** One of the five attempts meets a resolved reply. */
  ghost predicate SomeResolved(answer: nat -> Answer<RawRoleMembers>) {
    exists k | 0 <= k < 5 :: answer(k).Returned? && NamesBoth(answer(k).value)
  }

  /** `getRoleMembersWithRetry`: five attempts, and the first resolved reply as a map. */
  method GetRoleMembersWithRetry(vault: Address, block: nat, answer: nat -> Answer<RawRoleMembers>) returns (members: Option<RoleMembers>)
    ensures members.Some? ==> IsEventMembersStep(SetMembers(vault, members.value, block), vault, block, answer)
    ensures members.Some? <==> SomeResolved(answer)
  {
    var reply, calls := RpcCallWithRetry(answer, 5, raw => IsResolved(raw));
    assert forall j :: Accepted(answer(j), raw => IsResolved(raw)) <==> answer(j).Returned? && IsResolved(answer(j).value);
    if reply.None? {
      return None;
    }
    var m := TransformRoleMembersMap(reply.value);
    assert answer(calls - 1).Returned? && IsResolved(answer(calls - 1).value);
    members := Some(m);
  }

  /** The members refresh of an event handler; whatever fails in it is swallowed. */
  method RefreshVaultRoleMembers(db: VaultDbService, vault: Address, block: nat, answer: nat -> Answer<RawRoleMembers>, writeFails: bool)
    returns (ghost steps: seq<DbStep>)
    requires db.Valid()
    modifies db
    ensures db.Valid()
    ensures db.trace == old(db.trace) + steps
    ensures |steps| == if !writeFails && SomeResolved(answer) then 1 else 0
    ensures steps != [] ==> IsEventMembersStep(steps[0], vault, block, answer)
  {
    steps := [];
    var members := GetRoleMembersWithRetry(vault, block, answer);
    if members.Some? && !writeFails {
      var _ := db.SetMembersForVault(vault, members.value, block);
      steps := [SetMembers(vault, members.value, block)];
    }
  }
}
