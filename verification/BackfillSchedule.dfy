/** The registry entry of the one-off backfill job: rescheduled with a growing delay until it succeeds once. */
module BackfillSchedule {
  import opened Limits

  const OWNERSHIP_BACKFILL_JOB := "vaults-ownership-backfill-cron"
  const OWNERSHIP_BACKFILL_STARTUP_DELAY_MS: nat := 30000
  const OWNERSHIP_BACKFILL_MAX_RETRY_DELAY_MS: nat := 600000

  function Pow2(n: nat): (r: nat)
    ensures r >= 1
  {
    if n == 0 then 1 else 2 * Pow2(n - 1)
  }

  /** The delay before an attempt, counting from one. */
  function DelayOf(attempt: nat): nat
    requires attempt >= 1
  {
    Min(OWNERSHIP_BACKFILL_STARTUP_DELAY_MS * Pow2(attempt - 1), OWNERSHIP_BACKFILL_MAX_RETRY_DELAY_MS)
  }

  /** Delays never shrink, never pass the ceiling, and sit at it from the sixth attempt on. */
  lemma {:induction false} DelaysSettle(attempt: nat)
    requires attempt >= 1
    ensures DelayOf(attempt) <= DelayOf(attempt + 1) <= OWNERSHIP_BACKFILL_MAX_RETRY_DELAY_MS
    ensures DelayOf(attempt) == OWNERSHIP_BACKFILL_MAX_RETRY_DELAY_MS <==> attempt >= 6
    ensures DelayOf(1) == 30000 && (attempt <= 4 ==> DelayOf(attempt + 1) == 2 * DelayOf(attempt))
    ensures DelayOf(attempt + 1) == Min(2 * DelayOf(attempt), 600000)
  {
    if attempt > 6 {
      DelaysSettle(attempt - 1);
    } else {
      assert Pow2(0) == 1 && Pow2(1) == 2 && Pow2(2) == 4 && Pow2(3) == 8 && Pow2(4) == 16 && Pow2(5) == 32;
    }
  }

  /** A job that was scheduled: which attempt it is and how long it waits. */
  datatype Job = Job(attempt: nat, delay: nat)

  /** How many attempts an outcome history takes: up to the first success, if there is one. */
  function Attempts(outcomes: seq<bool>): nat {
    if outcomes == [] then 0
    else if outcomes[0] then 1
    else 1 + Attempts(outcomes[1..])
  }

  lemma {:induction false} AttemptsUntilSuccess(outcomes: seq<bool>)
    ensures Attempts(outcomes) <= |outcomes|
    ensures forall k | 0 <= k < Attempts(outcomes) - 1 :: !outcomes[k]
    ensures true in outcomes <==> Attempts(outcomes) > 0 && outcomes[Attempts(outcomes) - 1]
    ensures true !in outcomes ==> Attempts(outcomes) == |outcomes|
  {
    if outcomes != [] && !outcomes[0] {
      var rest := outcomes[1..];
      AttemptsUntilSuccess(rest);
      assert forall k | 0 <= k < |rest| :: rest[k] == outcomes[k + 1];
      assert true in outcomes <==> true in rest;
      forall k | 0 <= k < Attempts(outcomes) - 1
        ensures !outcomes[k]
      {
        assert k > 0 ==> !rest[k - 1];
      }
    }
  }

  class VaultJobsService {
    /** The scheduler registry, by job name; it rejects a second job under one name. */
    var registry: map<string, Job>
    ghost var fired: seq<Job>
    ghost var succeeded: bool

    /** Exactly one backfill job waits while none has succeeded, and none afterwards. */
    ghost predicate Valid()
      reads this
    {
      && (forall k | 0 <= k < |fired| :: fired[k] == Job(k + 1, DelayOf(k + 1)))
      && (if succeeded then OWNERSHIP_BACKFILL_JOB !in registry
          else OWNERSHIP_BACKFILL_JOB in registry && registry[OWNERSHIP_BACKFILL_JOB] == Job(|fired| + 1, DelayOf(|fired| + 1)))
    }

    constructor (others: map<string, Job>)
      requires OWNERSHIP_BACKFILL_JOB !in others
      ensures Valid() && !succeeded && fired == []
      ensures registry.Keys == others.Keys + {OWNERSHIP_BACKFILL_JOB}
    {
      registry, fired, succeeded := others, [], false;
      new;
      ScheduleOwnershipBackfill(OWNERSHIP_BACKFILL_STARTUP_DELAY_MS, 1);
    }

    method ScheduleOwnershipBackfill(delay: nat, attempt: nat)
      requires OWNERSHIP_BACKFILL_JOB !in registry
      modifies this`registry
      ensures registry == old(registry)[OWNERSHIP_BACKFILL_JOB := Job(attempt, delay)]
    {
      registry := registry[OWNERSHIP_BACKFILL_JOB := Job(attempt, delay)];
    }

    /** The waiting job fires; `ok` is whether the block read and the backfill both went through. */
    method Fire(ok: bool)
      requires Valid() && OWNERSHIP_BACKFILL_JOB in registry
      modifies this
      ensures Valid() && succeeded == ok
      ensures |fired| == old(|fired|) + 1 && fired[..|fired| - 1] == old(fired)
      ensures registry - {OWNERSHIP_BACKFILL_JOB} == old(registry) - {OWNERSHIP_BACKFILL_JOB}
    {
      var job := registry[OWNERSHIP_BACKFILL_JOB];
      fired := fired + [job];
      registry := registry - {OWNERSHIP_BACKFILL_JOB};
      if ok {
        succeeded := true;
      } else {
        var retryDelay := Min(job.delay * 2, OWNERSHIP_BACKFILL_MAX_RETRY_DELAY_MS);
        ScheduleOwnershipBackfill(retryDelay, job.attempt + 1);
      }
    }
  }

  /** Over any history of outcomes the job fires once per attempt, up to and including the first success. */
  method RunBackfill(outcomes: seq<bool>, others: map<string, Job>) returns (service: VaultJobsService)
    requires OWNERSHIP_BACKFILL_JOB !in others
    ensures fresh(service) && service.Valid()
    ensures service.succeeded <==> true in outcomes
    ensures |service.fired| == Attempts(outcomes)
    ensures service.registry.Keys == others.Keys + (if true in outcomes then {} else {OWNERSHIP_BACKFILL_JOB})
  {
    service := new VaultJobsService(others);
    var i := 0;
    while i < |outcomes| && OWNERSHIP_BACKFILL_JOB in service.registry
      invariant i <= |outcomes| && fresh(service) && service.Valid()
      invariant |service.fired| == i
      invariant service.succeeded <==> true in outcomes[..i]
      invariant Attempts(outcomes) == i + if service.succeeded then 0 else Attempts(outcomes[i..])
      invariant service.registry.Keys == others.Keys + (if service.succeeded then {} else {OWNERSHIP_BACKFILL_JOB})
    {
      ghost var before := service.registry;
      service.Fire(outcomes[i]);
      assert before.Keys - {OWNERSHIP_BACKFILL_JOB} == (before - {OWNERSHIP_BACKFILL_JOB}).Keys;
      assert outcomes[..i + 1] == outcomes[..i] + [outcomes[i]];
      assert outcomes[i..][1..] == outcomes[i + 1..];
      i := i + 1;
    }
    assert outcomes == outcomes[..i] + outcomes[i..];
  }
}
