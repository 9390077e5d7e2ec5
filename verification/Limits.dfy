/** How far a run over vaults or pages goes. */
module Limits {
  function Min(a: nat, b: nat): nat {
    if a < b then a else b
  }

  /** `MINIMAL_VAULTS_FETCHING_MODE_COUNT` caps the list when it is positive. */
  function VaultsLimit(minimalCount: int, count: nat): nat {
    if minimalCount > 0 && count > 0 then Min(minimalCount, count) else count
  }

  /** Where the m-th batch from an offset on starts. */
  function BatchStart(offset: nat, m: nat, batchSize: nat): nat
    decreases m
  {
    if m == 0 then offset else BatchStart(offset + batchSize, m - 1, batchSize)
  }

  lemma {:induction false} BatchStartIs(offset: nat, m: nat, batchSize: nat)
    ensures BatchStart(offset, m, batchSize) == offset + m * batchSize
    decreases m
  {
    if m > 0 {
      BatchStartIs(offset + batchSize, m - 1, batchSize);
      assert m * batchSize == (m - 1) * batchSize + batchSize;
    }
  }

  lemma {:induction false} BatchStartsLater(offset: nat, m: nat, batchSize: nat)
    ensures BatchStart(offset, m, batchSize) >= offset
    decreases m
  {
    if m > 0 {
      BatchStartsLater(offset + batchSize, m - 1, batchSize);
    }
  }
}
