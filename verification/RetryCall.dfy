/** The bounded retry around a contract call. */
module RetryCall {
  import opened Wrappers

  datatype Answer<+T> = Threw | Returned(value: T)

  predicate Accepted<T>(a: Answer<T>, accept: T -> bool) {
    a.Returned? && accept(a.value)
  }

  /**
   Calls until an answer is accepted, at most `attempts` times; `answer(k)` is what the k-th call meets. The first
   accepted answer is returned; `None` is the final throw, after every attempt was rejected.
   */
  method RpcCallWithRetry<T>(answer: nat -> Answer<T>, attempts: int, accept: T -> bool) returns (result: Option<T>, calls: nat)
    ensures calls <= attempts || calls == 0
    ensures result.Some? ==> calls > 0 && answer(calls - 1) == Returned(result.value) && accept(result.value)
    ensures result.Some? ==> forall k | 0 <= k < calls - 1 :: !Accepted(answer(k), accept)
    ensures result.None? ==> (calls == attempts || attempts < 0) && forall k | 0 <= k < attempts :: !Accepted(answer(k), accept)
  {
    calls := 0;
    var i := 1;
    while i <= attempts
      invariant calls == i - 1
      invariant i <= attempts + 1 || i == 1
      invariant forall k | 0 <= k < calls :: !Accepted(answer(k), accept)
    {
      var reply := answer(calls);
      calls := calls + 1;
      if reply.Returned? && accept(reply.value) {
        return Some(reply.value), calls;
      }
      i := i + 1;
    }
    result := None;
  }
}
