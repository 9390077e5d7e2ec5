/**
 The in-flight table behind the `@SingleFlight` job decorator: a promise per
 instance and key, joined by every call made while it is pending.
 */
module SingleFlight {
  import opened Wrappers

  type Instance = nat
  type RunId = nat
  type Value = nat

  /** How a body ends: its promise is fulfilled or rejected. */
  datatype Outcome = Fulfilled(value: Value) | Rejected(reason: nat)

  /**
   What a caller's own promise settles to. A joiner's `catch` turns a
   rejection into `undefined`.
   */
  datatype View = Pending | Saw(outcome: Outcome) | SawUndefined

  /**
   `Promise.resolve().then(body).finally(cleanup)`: the body runs in a later
   microtask, the cleanup in another one after the body has settled, and the
   promise itself settles later still.
   */
  datatype Phase = Queued | Running | Done(outcome: Outcome) | CleanedUp(outcome: Outcome) | Settled(outcome: Outcome)

  datatype Run = Run(instance: Instance, key: string, leader: nat, phase: Phase)

  datatype Caller = Caller(run: RunId, leads: bool)

  /**
   `inFlight` is the WeakMap of per-instance maps; `runs` and `callers` list
   every promise and every call made so far, in order.
   */
  datatype State = State(inFlight: map<Instance, map<string, RunId>>, runs: seq<Run>, callers: seq<Caller>)

  datatype Event =
    | Call(instance: Instance, key: string)
    | StartBody(run: RunId)
    | SettleBody(run: RunId, outcome: Outcome)
    | Finish(run: RunId)
    | Publish(run: RunId)

  const Start := State(map[], [], [])

  /** The key option wins unless it is missing or empty. */
  function KeyOf(option: Option<string>, propertyKey: string): (key: string)
    ensures key == "" ==> propertyKey == ""
    ensures option != None && option.value != "" ==> key == option.value
    ensures option == None || option.value == "" ==> key == propertyKey
  {
    if option.Some? && option.value != "" then option.value else propertyKey
  }

  function EntryOf(s: State, instance: Instance, key: string): (run: Option<RunId>) {
    if instance in s.inFlight && key in s.inFlight[instance] then Some(s.inFlight[instance][key]) else None
  }

  /** The body has settled and the cleanup has run; the promise itself settles no earlier. */
  predicate Ended(p: Phase) {
    p.CleanedUp? || p.Settled?
  }

  predicate Live(s: State, r: RunId) {
    r < |s.runs| && !Ended(s.runs[r].phase)
  }

  predicate For(s: State, r: RunId, instance: Instance, key: string) {
    r < |s.runs| && s.runs[r].instance == instance && s.runs[r].key == key
  }

  /** Whether the event loop can take this step. */
  predicate Enabled(s: State, e: Event) {
    match e
    case Call(_, _) => true
    case StartBody(r) => r < |s.runs| && s.runs[r].phase == Queued
    case SettleBody(r, _) => r < |s.runs| && s.runs[r].phase == Running
    case Finish(r) => r < |s.runs| && s.runs[r].phase.Done?
    case Publish(r) => r < |s.runs| && s.runs[r].phase.CleanedUp?
  }

  function WithPhase(s: State, r: RunId, phase: Phase): State
    requires r < |s.runs|
  {
    s.(runs := s.runs[r := s.runs[r].(phase := phase)])
  }

  function Next(s: State, e: Event): State
    requires Enabled(s, e)
  {
    match e
    case Call(instance, key) =>
      var own := if instance in s.inFlight then s.inFlight[instance] else map[];
      if key in own then
        State(s.inFlight[instance := own], s.runs, s.callers + [Caller(own[key], false)])
      else
        State(s.inFlight[instance := own[key := |s.runs|]],
              s.runs + [Run(instance, key, |s.callers|, Queued)],
              s.callers + [Caller(|s.runs|, true)])
    case StartBody(r) => WithPhase(s, r, Running)
    case SettleBody(r, outcome) => WithPhase(s, r, Done(outcome))
    case Finish(r) =>
      var run := s.runs[r];
      var own := if run.instance in s.inFlight then s.inFlight[run.instance] else map[];
      WithPhase(s, r, CleanedUp(run.phase.outcome)).(inFlight := s.inFlight[run.instance := own - {run.key}])
    case Publish(r) => WithPhase(s, r, Settled(s.runs[r].phase.outcome))
  }

  /**
   Any interleaving of calls and completions; a step that is not enabled does
   not happen.
   */
  function Exec(s: State, events: seq<Event>): State
    decreases |events|
  {
    if events == [] then s
    else
      var before := Exec(s, events[..|events| - 1]);
      var e := events[|events| - 1];
      if Enabled(before, e) then Next(before, e) else before
  }

  function ViewOf(s: State, c: nat): View
    requires c < |s.callers|
  {
    var caller := s.callers[c];
    if caller.run >= |s.runs| || !s.runs[caller.run].phase.Settled? then Pending
    else
      var outcome := s.runs[caller.run].phase.outcome;
      if caller.leads || outcome.Fulfilled? then Saw(outcome) else SawUndefined
  }

  // ---- Invariant ----

  /** The table holds exactly the live runs, each under its own instance and key. */
  ghost predicate TableIsLiveRuns(s: State) {
    && (forall i, k :: EntryOf(s, i, k).Some? ==> For(s, EntryOf(s, i, k).value, i, k) && Live(s, EntryOf(s, i, k).value))
    && (forall r: nat :: Live(s, r) ==> EntryOf(s, s.runs[r].instance, s.runs[r].key) == Some(r))
  }

  /** A run starts only after every earlier run of its instance and key has ended. */
  ghost predicate RunsFollow(s: State) {
    forall r: nat, q: nat | r < q < |s.runs| && s.runs[r].instance == s.runs[q].instance && s.runs[r].key == s.runs[q].key ::
      Ended(s.runs[r].phase)
  }

  ghost predicate CallersHaveRuns(s: State) {
    && (forall c: nat | c < |s.callers| :: s.callers[c].run < |s.runs|)
    && (forall c: nat | c < |s.callers| :: s.callers[c].leads <==> s.runs[s.callers[c].run].leader == c)
    && (forall r: nat | r < |s.runs| :: s.runs[r].leader < |s.callers| && s.callers[s.runs[r].leader].run == r)
  }

  ghost predicate Inv(s: State) {
    TableIsLiveRuns(s) && RunsFollow(s) && CallersHaveRuns(s)
  }

  /** A call adds its entry when there is none, a completion deletes its own. */
  lemma EntriesAfter(s: State, e: Event, i: Instance, k: string)
    requires TableIsLiveRuns(s) && Enabled(s, e)
    ensures EntryOf(Next(s, e), i, k) == match e
            case Call(instance, key) =>
              if i == instance && k == key && EntryOf(s, i, k).None? then Some(|s.runs|) else EntryOf(s, i, k)
            case Finish(r) => if For(s, r, i, k) then None else EntryOf(s, i, k)
            case StartBody(_) => EntryOf(s, i, k)
            case SettleBody(_, _) => EntryOf(s, i, k)
            case Publish(_) => EntryOf(s, i, k)
  {
  }

  lemma NextKeepsTable(s: State, e: Event)
    requires TableIsLiveRuns(s) && Enabled(s, e)
    ensures TableIsLiveRuns(Next(s, e))
  {
    var t := Next(s, e);
    forall i, k ensures EntryOf(t, i, k).Some? ==> For(t, EntryOf(t, i, k).value, i, k) && Live(t, EntryOf(t, i, k).value) {
      EntriesAfter(s, e, i, k);
      assert EntryOf(s, i, k).Some? ==> For(s, EntryOf(s, i, k).value, i, k) && Live(s, EntryOf(s, i, k).value);
    }
    forall r: nat | Live(t, r) ensures EntryOf(t, t.runs[r].instance, t.runs[r].key) == Some(r) {
      EntriesAfter(s, e, t.runs[r].instance, t.runs[r].key);
      assert r < |s.runs| ==> Live(s, r);
    }
  }

  lemma NextKeepsRuns(s: State, e: Event)
    requires Inv(s) && Enabled(s, e)
    ensures RunsFollow(Next(s, e))
  {
    if e.Call? {
      assert forall r: nat :: Live(s, r) ==> EntryOf(s, s.runs[r].instance, s.runs[r].key) == Some(r);
    }
  }

  lemma NextKeepsCallers(s: State, e: Event)
    requires Inv(s) && Enabled(s, e)
    ensures CallersHaveRuns(Next(s, e))
  {
    var t := Next(s, e);
    if e.Call? {
      CallKeepsCallers(s, e.instance, e.key);
    } else {
      assert t.callers == s.callers && |t.runs| == |s.runs|;
      assert forall r: nat | r < |s.runs| :: t.runs[r].leader == s.runs[r].leader;
    }
  }

  lemma CallKeepsCallers(s: State, instance: Instance, key: string)
    requires Inv(s)
    ensures CallersHaveRuns(Next(s, Call(instance, key)))
  {
    var t := Next(s, Call(instance, key));
    var n := |s.callers|;
    var entry := EntryOf(s, instance, key);
    assert entry.Some? ==> For(s, entry.value, instance, key);
    assert t.callers[n] == if entry.Some? then Caller(entry.value, false) else Caller(|s.runs|, true);
    assert t.runs == if entry.Some? then s.runs else s.runs + [Run(instance, key, n, Queued)];
    forall c: nat | c < |t.callers|
      ensures t.callers[c].run < |t.runs|
      ensures t.callers[c].leads <==> t.runs[t.callers[c].run].leader == c
    {
      assert c < n ==> t.callers[c] == s.callers[c];
    }
    forall r: nat | r < |t.runs|
      ensures t.runs[r].leader < |t.callers| && t.callers[t.runs[r].leader].run == r
    {
      assert r < |s.runs| ==> t.runs[r] == s.runs[r];
    }
  }

  lemma NextKeepsInv(s: State, e: Event)
    requires Inv(s) && Enabled(s, e)
    ensures Inv(Next(s, e))
  {
    NextKeepsTable(s, e);
    NextKeepsRuns(s, e);
    NextKeepsCallers(s, e);
  }

  lemma {:induction false} ExecKeepsInv(events: seq<Event>)
    ensures Inv(Exec(Start, events))
    decreases |events|
  {
    if events != [] {
      var before := Exec(Start, events[..|events| - 1]);
      ExecKeepsInv(events[..|events| - 1]);
      if Enabled(before, events[|events| - 1]) {
        NextKeepsInv(before, events[|events| - 1]);
      }
    }
  }

  // ---- What it promises ----

  /**
   Over every interleaving, at most one run per instance and key is in flight:
   two bodies of the same key never overlap, and it is always the latest one.
   */
  lemma AtMostOneRun(events: seq<Event>, r: RunId, q: RunId)
    requires r < q < |Exec(Start, events).runs|
    requires Exec(Start, events).runs[r].instance == Exec(Start, events).runs[q].instance
    requires Exec(Start, events).runs[r].key == Exec(Start, events).runs[q].key
    ensures Ended(Exec(Start, events).runs[r].phase)
  {
    ExecKeepsInv(events);
  }

  /**
   A call made while a run of its instance and key is in flight joins that run
   and starts nothing; otherwise it starts a run of its own. So a call starts
   a body exactly when none is in flight.
   */
  lemma CallJoinsPendingRun(events: seq<Event>, instance: Instance, key: string)
    ensures var s, t := Exec(Start, events), Exec(Start, events + [Call(instance, key)]);
            && |t.callers| == |s.callers| + 1
            && (forall r: nat | Live(s, r) && For(s, r, instance, key) ::
                  t.runs == s.runs && t.callers[|s.callers|] == Caller(r, false))
            && ((forall r: nat :: Live(s, r) ==> !For(s, r, instance, key)) ==>
                  |t.runs| == |s.runs| + 1 && t.callers[|s.callers|] == Caller(|s.runs|, true))
  {
    ExecKeepsInv(events);
    var all := events + [Call(instance, key)];
    assert all[..|all| - 1] == events;
    var s := Exec(Start, events);
    assert EntryOf(s, instance, key).Some? ==>
      For(s, EntryOf(s, instance, key).value, instance, key) && Live(s, EntryOf(s, instance, key).value);
    assert forall r: nat :: Live(s, r) && For(s, r, instance, key) ==> EntryOf(s, instance, key) == Some(r);
  }

  /** A completion removes its own entry and nobody else's. */
  lemma FinishRemovesOwnEntry(events: seq<Event>, r: RunId, i: Instance, k: string)
    requires Enabled(Exec(Start, events), Finish(r))
    ensures var s := Exec(Start, events);
            && EntryOf(s, s.runs[r].instance, s.runs[r].key) == Some(r)
            && EntryOf(Next(s, Finish(r)), i, k) == if EntryOf(s, i, k) == Some(r) then None else EntryOf(s, i, k)
  {
    ExecKeepsInv(events);
    assert Live(Exec(Start, events), r);
  }

  /**
   The leader sees how its body ended, a joiner sees the same value but never
   a rejection, and both learn it in the same step.
   */
  lemma JoinersNeverSeeRejection(events: seq<Event>, c: nat)
    requires c < |Exec(Start, events).callers| && !Exec(Start, events).callers[c].leads
    ensures var s := Exec(Start, events);
            && s.callers[c].run < |s.runs|
            && s.runs[s.callers[c].run].leader < |s.callers|
            && var led := ViewOf(s, s.runs[s.callers[c].run].leader);
               && (ViewOf(s, c).Pending? <==> led.Pending?)
               && (forall v :: ViewOf(s, c) == Saw(Fulfilled(v)) <==> led == Saw(Fulfilled(v)))
               && (ViewOf(s, c).SawUndefined? <==> led.Saw? && led.outcome.Rejected?)
               && !(ViewOf(s, c).Saw? && ViewOf(s, c).outcome.Rejected?)
  {
    ExecKeepsInv(events);
    var s := Exec(Start, events);
    assert s.callers[s.runs[s.callers[c].run].leader].leads;
  }

  lemma {:induction false} ExecConcat(s: State, a: seq<Event>, b: seq<Event>)
    ensures Exec(s, a + b) == Exec(Exec(s, a), b)
    decreases |b|
  {
    if b == [] {
      assert a + b == a;
    } else {
      var all := a + b;
      assert all[..|all| - 1] == a + b[..|b| - 1];
      assert all[|all| - 1] == b[|b| - 1];
      ExecConcat(s, a, b[..|b| - 1]);
    }
  }

  predicate Later(p: Phase, q: Phase) {
    match p
    case Queued => true
    case Running => !q.Queued?
    case Done(o) => q == Done(o) || q == CleanedUp(o) || q == Settled(o)
    case CleanedUp(o) => q == CleanedUp(o) || q == Settled(o)
    case Settled(_) => q == p
  }

  lemma {:induction false} CallersStay(s: State, events: seq<Event>)
    ensures s.callers <= Exec(s, events).callers
    decreases |events|
  {
    if events != [] {
      CallersStay(s, events[..|events| - 1]);
    }
  }

  lemma {:induction false} PhasesAdvance(s: State, events: seq<Event>)
    ensures |s.runs| <= |Exec(s, events).runs|
    ensures forall r: nat | r < |s.runs| :: Later(s.runs[r].phase, Exec(s, events).runs[r].phase)
    decreases |events|
  {
    if events != [] {
      PhasesAdvance(s, events[..|events| - 1]);
    }
  }

  /**
   Time only appends runs and callers and only advances phases, so a body is
   started and settled at most once and a settled promise never changes.
   */
  lemma PromisesSettleOnce(s: State, events: seq<Event>)
    requires CallersHaveRuns(s)
    ensures var t := Exec(s, events);
            && |s.runs| <= |t.runs| && s.callers <= t.callers
            && (forall r: nat | r < |s.runs| :: Later(s.runs[r].phase, t.runs[r].phase))
            && (forall c: nat | c < |s.callers| && !ViewOf(s, c).Pending? :: ViewOf(t, c) == ViewOf(s, c))
  {
    CallersStay(s, events);
    PhasesAdvance(s, events);
    var t := Exec(s, events);
    forall c: nat | c < |s.callers| && !ViewOf(s, c).Pending?
      ensures ViewOf(t, c) == ViewOf(s, c)
    {
      assert t.callers[c] == s.callers[c];
      assert Later(s.runs[s.callers[c].run].phase, t.runs[s.callers[c].run].phase);
    }
  }

  lemma ExecOneMore(s: State, events: seq<Event>, e: Event)
    ensures Exec(s, events + [e]) == if Enabled(Exec(s, events), e) then Next(Exec(s, events), e) else Exec(s, events)
  {
    assert (events + [e])[..|events|] == events;
  }

  /**
   Nothing blocks: whatever a pending run waits for can happen, and once its
   body has run every caller that joined it by then is answered.
   */
  lemma PendingRunCanFinish(events: seq<Event>, r: RunId, outcome: Outcome, c: nat)
    requires var s := Exec(Start, events);
             Live(s, r) && !s.runs[r].phase.Done? && c < |s.callers| && s.callers[c].run == r
    ensures var s := Exec(Start, events);
            var t := Exec(s, [StartBody(r), SettleBody(r, outcome), Finish(r), Publish(r)]);
            && t.callers == s.callers
            && ViewOf(t, c) == (if s.callers[c].leads || outcome.Fulfilled? then Saw(outcome) else SawUndefined)
            && EntryOf(t, s.runs[r].instance, s.runs[r].key) == None
  {
    var s := Exec(Start, events);
    BodyCanRun(s, r, outcome);
    var done := WithPhase(s, r, Done(outcome));
    CompletionCanRun(done, r);
    ExecConcat(s, [StartBody(r), SettleBody(r, outcome)], [Finish(r), Publish(r)]);
    assert [StartBody(r), SettleBody(r, outcome)] + [Finish(r), Publish(r)] ==
           [StartBody(r), SettleBody(r, outcome), Finish(r), Publish(r)];
  }

  lemma BodyCanRun(s: State, r: RunId, outcome: Outcome)
    requires Live(s, r) && !s.runs[r].phase.Done?
    ensures Exec(s, [StartBody(r), SettleBody(r, outcome)]) == WithPhase(s, r, Done(outcome))
  {
    ExecOneMore(s, [], StartBody(r));
    ExecOneMore(s, [StartBody(r)], SettleBody(r, outcome));
    assert [] + [StartBody(r)] == [StartBody(r)];
    assert [StartBody(r)] + [SettleBody(r, outcome)] == [StartBody(r), SettleBody(r, outcome)];
  }

  lemma CompletionCanRun(s: State, r: RunId)
    requires r < |s.runs| && s.runs[r].phase.Done?
    ensures Exec(s, [Finish(r), Publish(r)]) ==
            WithPhase(Next(s, Finish(r)), r, Settled(s.runs[r].phase.outcome))
  {
    ExecOneMore(s, [], Finish(r));
    ExecOneMore(s, [Finish(r)], Publish(r));
    assert [] + [Finish(r)] == [Finish(r)] && [Finish(r)] + [Publish(r)] == [Finish(r), Publish(r)];
  }

  // ---- The decorator ----

  /**
   One decorated process: the wrapper of a method (`Invoke`) and the three
   promise callbacks the event loop runs for it.
   */
  class InFlightTable {
    var inFlight: map<Instance, map<string, RunId>>
    var runs: seq<Run>
    var callers: seq<Caller>
    ghost var history: seq<Event>

    ghost function Now(): State
      reads this
    {
      State(inFlight, runs, callers)
    }

    ghost predicate Valid()
      reads this
    {
      Now() == Exec(Start, history)
    }

    constructor ()
      ensures Valid() && history == []
    {
      inFlight, runs, callers, history := map[], [], [], [];
    }

    ghost method Record(e: Event, before: State)
      requires before == Exec(Start, history) && Enabled(before, e) && Now() == Next(before, e)
      modifies this`history
      ensures Valid() && history == old(history) + [e]
    {
      ExecConcat(Start, history, [e]);
      assert [e][..0] == [] && Exec(before, [e]) == Next(before, e);
      history := history + [e];
    }

    method Invoke(option: Option<string>, propertyKey: string, instance: Instance) returns (caller: nat)
      requires Valid()
      modifies this
      ensures Valid() && history == old(history) + [Call(instance, KeyOf(option, propertyKey))]
      ensures caller == old(|callers|) && caller < |callers|
    {
      ghost var before := Now();
      var key := KeyOf(option, propertyKey);
      var own := map[];
      if instance in inFlight {
        own := inFlight[instance];
      } else {
        inFlight := inFlight[instance := own];
      }
      caller := |callers|;
      if key in own {
        callers := callers + [Caller(own[key], false)];
        assert inFlight == before.inFlight[instance := own];
      } else {
        var p := |runs|;
        runs := runs + [Run(instance, key, caller, Queued)];
        inFlight := inFlight[instance := own[key := p]];
        callers := callers + [Caller(p, true)];
        assert inFlight == before.inFlight[instance := own[key := p]];
      }
      Record(Call(instance, key), before);
    }

    method Begin(run: RunId)
      requires Valid() && Enabled(Now(), StartBody(run))
      modifies this
      ensures Valid() && history == old(history) + [StartBody(run)]
    {
      ghost var before := Now();
      runs := runs[run := runs[run].(phase := Running)];
      Record(StartBody(run), before);
    }

    method End(run: RunId, outcome: Outcome)
      requires Valid() && Enabled(Now(), SettleBody(run, outcome))
      modifies this
      ensures Valid() && history == old(history) + [SettleBody(run, outcome)]
    {
      ghost var before := Now();
      runs := runs[run := runs[run].(phase := Done(outcome))];
      Record(SettleBody(run, outcome), before);
    }

    /** The `finally` callback, on the map its wrapper captured. */
    method Cleanup(run: RunId)
      requires Valid() && Enabled(Now(), Finish(run))
      modifies this
      ensures Valid() && history == old(history) + [Finish(run)]
    {
      ghost var before := Now();
      ExecKeepsInv(history);
      assert Live(before, run);
      var done := runs[run];
      inFlight := inFlight[done.instance := inFlight[done.instance] - {done.key}];
      runs := runs[run := done.(phase := CleanedUp(done.phase.outcome))];
      Record(Finish(run), before);
    }

    /** The promise takes over the outcome once the cleanup is through. */
    method Conclude(run: RunId)
      requires Valid() && Enabled(Now(), Publish(run))
      modifies this
      ensures Valid() && history == old(history) + [Publish(run)]
    {
      ghost var before := Now();
      runs := runs[run := runs[run].(phase := Settled(runs[run].phase.outcome))];
      Record(Publish(run), before);
    }
  }
}
