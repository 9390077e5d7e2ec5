/**
 The metrics job: walk the stored reports from newest to oldest, in batches,
 and calculate statistics for every pair of neighbours.
 */
module ReportMetrics {
  import opened Limits
  import opened Wrappers
  import opened Reports
  import opened Sequences

  /**
   What a run meets: the leaves of each report by its id, the reports whose
   leaves cannot be read, the pairs (previous id, current id) on which the
   calculation raises, and those on which it records at least one row.
   */
  datatype World = World(
    leaves: map<nat, Leaves>,
    unreadable: set<nat>,
    raises: set<(nat, nat)>,
    records: set<(nat, nat)>)

  datatype Failure = ReportNotFound | ReadFailed | CalculationFailed

  datatype Pair = Pair(current: Report, previous: Report, currentLeaves: Leaves, previousLeaves: Leaves)

  function LeavesOf(w: World, r: Report): Leaves {
    if r.id in w.leaves then w.leaves[r.id] else map[]
  }

  function KeyOf(current: Report, previous: Report): (nat, nat) {
    (previous.id, current.id)
  }

  // ---- The pages ----

  predicate Descending(reports: seq<Report>) {
    forall i, j | 0 <= i < j < |reports| :: reports[i].timestamp >= reports[j].timestamp
  }

  predicate IdsAreUnique(reports: seq<Report>) {
    forall i, j | 0 <= i < j < |reports| :: reports[i].id != reports[j].id
  }

  /** `WHERE timestamp <= $1`, in the order of the table listing. */
  function UpTo(reports: seq<Report>, timestamp: int): seq<Report> {
    if reports == [] then []
    else (if reports[0].timestamp <= timestamp then [reports[0]] else []) + UpTo(reports[1..], timestamp)
  }

  predicate HasCid(reports: seq<Report>, cid: string) {
    exists i | 0 <= i < |reports| :: reports[i].cid == cid
  }

  function FindByCid(reports: seq<Report>, cid: string): (r: Option<Report>)
    ensures r.Some? <==> HasCid(reports, cid)
    ensures r.Some? ==> r.value in reports && r.value.cid == cid
  {
    if reports == [] then None
    else if reports[0].cid == cid then Some(reports[0])
    else
      var r := FindByCid(reports[1..], cid);
      assert HasCid(reports[1..], cid) <==> HasCid(reports, cid) by {
        assert forall i | 0 < i < |reports| :: reports[i] == reports[1..][i - 1];
      }
      r
  }

  /**
   The reports a run pages through: all of them, or those no newer than the one
   it was asked to start from. `reports` is the table, newest first.
   */
  function Listed(reports: seq<Report>, fromCid: Option<string>): Result<seq<Report>, Failure> {
    if fromCid == None || fromCid.value == "" then Ok(reports)
    else if Trim(fromCid.value) == "" then Err(ReportNotFound)
    else
      match FindByCid(reports, Trim(fromCid.value))
      case None => Err(ReportNotFound)
      case Some(r) => Ok(UpTo(reports, r.timestamp))
  }

  lemma {:induction false} UpToHas(reports: seq<Report>, timestamp: int, r: Report)
    ensures r in UpTo(reports, timestamp) <==> r in reports && r.timestamp <= timestamp
  {
    if reports != [] {
      UpToHas(reports[1..], timestamp, r);
    }
  }

  /** A run without a CID pages through every report; one with an unknown or blank CID throws; any other has a limit. */
  lemma ListedIs(reports: seq<Report>, fromCid: Option<string>)
    ensures fromCid == None || fromCid.value == "" ==> Listed(reports, fromCid) == Ok(reports)
    ensures fromCid != None && fromCid.value != "" ==>
              (Listed(reports, fromCid).Err? <==> Trim(fromCid.value) == "" || forall r | r in reports :: r.cid != Trim(fromCid.value))
    ensures fromCid != None && fromCid.value != "" && Listed(reports, fromCid).Ok? ==>
              exists start :: start in reports && start.cid == Trim(fromCid.value)
                && forall r :: r in Listed(reports, fromCid).value <==> r in reports && r.timestamp <= start.timestamp
  {
    if fromCid != None && fromCid.value != "" {
      var cid := Trim(fromCid.value);
      var found := FindByCid(reports, cid);
      assert HasCid(reports, cid) <==> exists r :: r in reports && r.cid == cid;
      if cid != "" && found.Some? {
        forall r
          ensures r in UpTo(reports, found.value.timestamp) <==> r in reports && r.timestamp <= found.value.timestamp
        {
          UpToHas(reports, found.value.timestamp, r);
        }
      }
    }
  }

  lemma {:induction false} UpToIsSuffix(reports: seq<Report>, i: nat)
    requires i < |reports| && Descending(reports)
    requires i > 0 ==> reports[i - 1].timestamp > reports[i].timestamp
    ensures UpTo(reports, reports[i].timestamp) == reports[i..]
  {
    var rest := reports[1..];
    assert forall k | 0 <= k < |rest| :: rest[k] == reports[k + 1];
    if i > 0 {
      UpToIsSuffix(rest, i - 1);
    } else {
      AllUpTo(reports, reports[0].timestamp);
    }
  }

  lemma {:induction false} AllUpTo(reports: seq<Report>, timestamp: int)
    requires forall r | r in reports :: r.timestamp <= timestamp
    ensures UpTo(reports, timestamp) == reports
  {
    if reports != [] {
      assert reports == [reports[0]] + reports[1..];
      AllUpTo(reports[1..], timestamp);
    }
  }

  /**
   A run started from a CID begins with that report, when no other report has
   its timestamp, and then goes through exactly the older ones.
   */
  lemma FromCidStartsThere(reports: seq<Report>, cid: string, i: nat)
    requires Descending(reports) && i < |reports| && Trim(cid) == reports[i].cid && Trim(cid) != ""
    requires forall j | 0 <= j < |reports| && j != i ::
               reports[j].cid != reports[i].cid && reports[j].timestamp != reports[i].timestamp
    ensures Listed(reports, Some(cid)) == Ok(reports[i..])
  {
    UpToIsSuffix(reports, i);
    assert HasCid(reports, Trim(cid));
  }

  function Page(reports: seq<Report>, skip: nat, take: nat): seq<Report> {
    if skip >= |reports| then [] else reports[skip..Min(skip + take, |reports|)]
  }

  lemma PageContinues(reports: seq<Report>, skip: nat, take: nat)
    requires take >= 1
    ensures var from, to := Min(skip, |reports|), Min(skip + take, |reports|);
            && Page(reports, skip, take) == reports[from..to]
            && |Page(reports, skip, take)| == to - from
            && (to == from ==> from == |reports|)
  {
  }

  // ---- The pairs to expect ----

  datatype Job = Job(reports: seq<Report>, limit: int, tailSync: bool, stats: set<(nat, nat)>)

  function PairAt(w: World, reports: seq<Report>, i: nat): Pair
    requires i + 1 < |reports|
  {
    Pair(reports[i], reports[i + 1], LeavesOf(w, reports[i]), LeavesOf(w, reports[i + 1]))
  }

  function PairsUpTo(w: World, reports: seq<Report>, k: nat): (pairs: seq<Pair>)
    requires k == 0 || k < |reports|
    ensures |pairs| == k
    ensures forall i | 0 <= i < k :: pairs[i] == PairAt(w, reports, i)
  {
    if k == 0 then [] else PairsUpTo(w, reports, k - 1) + [PairAt(w, reports, k - 1)]
  }

  function KeyAt(reports: seq<Report>, i: nat): (nat, nat)
    requires i + 1 < |reports|
  {
    KeyOf(reports[i], reports[i + 1])
  }

  /** The pair was calculated by an earlier run. */
  predicate IsTail(j: Job, i: nat)
    requires i + 1 < |j.reports|
  {
    j.tailSync && KeyAt(j.reports, i) in j.stats
  }

  predicate AtLimit(j: Job, i: nat)
    requires i + 1 < |j.reports|
  {
    j.limit < 1 || j.limit > j.reports[i].blockNumber
  }

  predicate StopsAt(j: Job, i: nat)
    requires i + 1 < |j.reports|
  {
    IsTail(j, i) || AtLimit(j, i)
  }

  predicate FailsAt(w: World, j: Job, i: nat)
    requires i + 1 < |j.reports|
  {
    j.reports[i + 1].id in w.unreadable || KeyAt(j.reports, i) in w.raises
  }

  predicate FailsAtOnce(w: World, j: Job) {
    j.reports != [] && j.reports[0].id in w.unreadable
  }

  ghost predicate Passed(w: World, j: Job, k: nat)
    requires k == 0 || k < |j.reports|
  {
    forall i: nat | i < k :: !FailsAt(w, j, i) && !StopsAt(j, i)
  }

  /**
   The first `k` pairs are the ones to calculate: no earlier pair stops the
   walk or fails, and the walk ends there.
   */
  ghost predicate IsCut(w: World, j: Job, k: nat, ok: bool) {
    && (k == 0 || k < |j.reports|)
    && (forall i: nat | i < k :: !FailsAt(w, j, i))
    && (forall i: nat | i + 1 < k :: !StopsAt(j, i))
    && (if FailsAtOnce(w, j) then k == 0 && !ok
        else if k > 0 && StopsAt(j, k - 1) then ok
        else if k + 1 >= |j.reports| then ok
        else !ok && FailsAt(w, j, k))
  }

  /** One pass over all neighbours, from pair `k` on: where it ends, and how. */
  function CutFrom(w: World, j: Job, k: nat): (cut: (nat, bool))
    requires k == 0 || k < |j.reports|
    requires Passed(w, j, k) && !FailsAtOnce(w, j)
    ensures IsCut(w, j, cut.0, cut.1)
    decreases |j.reports| - k
  {
    if k + 1 >= |j.reports| then
      CutAtTheEnd(w, j, k);
      (k, true)
    else if FailsAt(w, j, k) then
      assert k > 0 ==> !StopsAt(j, k - 1);
      (k, false)
    else if StopsAt(j, k) then (k + 1, true)
    else CutFrom(w, j, k + 1)
  }

  function SinglePass(w: World, j: Job): (cut: (nat, bool))
    ensures IsCut(w, j, cut.0, cut.1)
  {
    if FailsAtOnce(w, j) then (0, false) else CutFrom(w, j, 0)
  }

  /**
   There is one such cut, so what a run calculates does not depend on how the
   reports were cut into batches.
   */
  lemma BatchesAgreeWithSinglePass(w: World, j: Job, k: nat, ok: bool)
    ensures IsCut(w, j, k, ok) <==> (k, ok) == SinglePass(w, j)
  {
    var cut := SinglePass(w, j);
    assert IsCut(w, j, cut.0, cut.1);
  }

  lemma CutAtTheEnd(w: World, j: Job, k: nat)
    requires !FailsAtOnce(w, j) && (if j.reports == [] then k == 0 else k + 1 == |j.reports|)
    requires Passed(w, j, k)
    ensures IsCut(w, j, k, true) && (k > 0 ==> !IsTail(j, k - 1))
  {
    assert k > 0 ==> !StopsAt(j, k - 1);
  }

  /** The rows after calculating the first `k` pairs. */
  function StatsAfter(w: World, reports: seq<Report>, stats: set<(nat, nat)>, k: nat): set<(nat, nat)>
    requires k == 0 || k < |reports|
  {
    if k == 0 then stats
    else
      StatsAfter(w, reports, stats, k - 1)
      + (if KeyAt(reports, k - 1) in w.records then {KeyAt(reports, k - 1)} else {})
  }

  lemma {:induction false} StatsAfterAre(w: World, reports: seq<Report>, stats: set<(nat, nat)>, k: nat, i: nat)
    requires IdsAreUnique(reports) && (k == 0 || k < |reports|) && i + 1 < |reports|
    ensures KeyAt(reports, i) in StatsAfter(w, reports, stats, k) <==>
              KeyAt(reports, i) in stats || (i < k && KeyAt(reports, i) in w.records)
  {
    if k > 0 {
      StatsAfterAre(w, reports, stats, k - 1, i);
      assert i != k - 1 ==> reports[i].id != reports[k - 1].id;
    }
  }

  // ---- The closed tail ----

  /**
   Below a calculated pair every pair down to the limit is calculated: what
   makes it right to stop at the first calculated pair.
   */
  ghost predicate TailCalculated(reports: seq<Report>, limit: int, stats: set<(nat, nat)>) {
    forall i: nat | i + 2 < |reports| && KeyAt(reports, i) in stats && !AtLimit(Job(reports, limit, true, stats), i) ::
      KeyAt(reports, i + 1) in stats
  }

  /**
   A run that meets no error and records every pair it calculates leaves the
   newest pair calculated and the tail without gaps, if it was so before.
   */
  lemma RunKeepsTailCalculated(w: World, j: Job, k: nat)
    requires IdsAreUnique(j.reports) && j.tailSync && IsCut(w, j, k, true)
    requires TailCalculated(j.reports, j.limit, j.stats)
    requires forall i: nat | i < k :: KeyAt(j.reports, i) in w.records
    ensures TailCalculated(j.reports, j.limit, StatsAfter(w, j.reports, j.stats, k))
    ensures |j.reports| >= 2 ==> KeyAt(j.reports, 0) in StatsAfter(w, j.reports, j.stats, k)
  {
    var after := StatsAfter(w, j.reports, j.stats, k);
    if |j.reports| >= 2 {
      StatsAfterAre(w, j.reports, j.stats, k, 0);
    }
    forall i: nat | i + 2 < |j.reports| && KeyAt(j.reports, i) in after && !AtLimit(Job(j.reports, j.limit, true, after), i)
      ensures KeyAt(j.reports, i + 1) in after
    {
      StatsAfterAre(w, j.reports, j.stats, k, i);
      StatsAfterAre(w, j.reports, j.stats, k, i + 1);
      assert i < k ==> (i + 1 < k || IsTail(j, i));
    }
  }

  /**
   So, with every pair within range calculated, the next run calculates just
   the pairs of the reports that arrived since and the newest known pair again.
   */
  lemma NextRunCalculatesNewPairs(w: World, j: Job, news: nat, k: nat)
    requires j.tailSync && j.limit >= 1 && news + 1 < |j.reports|
    requires forall i: nat | i < news :: KeyAt(j.reports, i) !in j.stats && !AtLimit(j, i)
    requires KeyAt(j.reports, news) in j.stats
    requires IsCut(w, j, k, true)
    ensures k == news + 1
  {
    assert StopsAt(j, news);
  }

  /**
   A run that fails after its first pair leaves a gap when that pair was
   recorded, and the next runs stop above it.
   */
  lemma FailedRunLeavesGap(w: World, j: Job, k: nat)
    requires IdsAreUnique(j.reports) && j.tailSync && j.limit >= 1
    requires k > 0 && IsCut(w, j, k, false) && KeyAt(j.reports, k - 1) in w.records
    ensures var after := StatsAfter(w, j.reports, j.stats, k);
            TailCalculated(j.reports, j.limit, after) ==> KeyAt(j.reports, k) in j.stats
    ensures var again := j.(stats := StatsAfter(w, j.reports, j.stats, k));
            KeyAt(j.reports, 0) in w.records ==>
              forall v, l, ok :: IsCut(v, again, l, ok) ==> l <= 1
  {
    var after := StatsAfter(w, j.reports, j.stats, k);
    StatsAfterAre(w, j.reports, j.stats, k, k - 1);
    StatsAfterAre(w, j.reports, j.stats, k, k);
    StatsAfterAre(w, j.reports, j.stats, k, 0);
    assert !AtLimit(j, k - 1) && !AtLimit(Job(j.reports, j.limit, true, after), k - 1);
    var again := j.(stats := after);
    assert KeyAt(j.reports, 0) in w.records ==> StopsAt(again, 0);
  }

  /** The pair will be calculated: the run records it, or an earlier one did. */
  predicate Accounted(w: World, j: Job, i: nat)
    requires i + 1 < |j.reports|
  {
    KeyAt(j.reports, i) in w.records || KeyAt(j.reports, i) in j.stats
  }

  /**
   What a run of `k` pairs must meet to leave no gap. Below each pair it records, but the last, the next pair is
   accounted for; and so is the one below the last, unless that one is at the limit or the oldest.
   */
  ghost predicate NoRecordAboveAGap(w: World, j: Job, k: nat)
    requires k == 0 || k < |j.reports|
  {
    && (forall i: nat | i + 1 < k && KeyAt(j.reports, i) in w.records :: Accounted(w, j, i + 1))
    && (k > 0 && k + 1 < |j.reports| && KeyAt(j.reports, k - 1) in w.records && !AtLimit(j, k - 1) ==>
          KeyAt(j.reports, k) in j.stats)
  }

  /**
   The exact condition, whatever the run meets. From a tail without gaps a run leaves none exactly when no pair it
   records stands above one that nobody recorded: neither a pair it failed to reach, nor one that it calculated
   without an error and without a row to show for it.
   */
  lemma RunLeavesNoGapIff(w: World, j: Job, k: nat, ok: bool)
    requires IdsAreUnique(j.reports) && j.tailSync && IsCut(w, j, k, ok)
    requires TailCalculated(j.reports, j.limit, j.stats)
    ensures TailCalculated(j.reports, j.limit, StatsAfter(w, j.reports, j.stats, k)) <==> NoRecordAboveAGap(w, j, k)
  {
    var after := StatsAfter(w, j.reports, j.stats, k);
    forall i: nat | i + 1 < |j.reports|
      ensures KeyAt(j.reports, i) in after <==> KeyAt(j.reports, i) in j.stats || (i < k && KeyAt(j.reports, i) in w.records)
      ensures AtLimit(Job(j.reports, j.limit, true, after), i) == AtLimit(j, i)
      ensures i + 1 < k ==> !StopsAt(j, i)
    {
      StatsAfterAre(w, j.reports, j.stats, k, i);
    }
    if TailCalculated(j.reports, j.limit, after) {
      forall i: nat | i + 1 < k && KeyAt(j.reports, i) in w.records
        ensures Accounted(w, j, i + 1)
      {
        assert KeyAt(j.reports, i) in after;
      }
      if k > 0 && k + 1 < |j.reports| && KeyAt(j.reports, k - 1) in w.records && !AtLimit(j, k - 1) {
        assert KeyAt(j.reports, k - 1) in after;
      }
    }
    if NoRecordAboveAGap(w, j, k) {
      forall i: nat | i + 2 < |j.reports| && KeyAt(j.reports, i) in after && !AtLimit(Job(j.reports, j.limit, true, after), i)
        ensures KeyAt(j.reports, i + 1) in after
      {
        assert i + 1 < k && KeyAt(j.reports, i) in w.records ==> Accounted(w, j, i + 1);
      }
    }
  }

  /** When it records every pair it calculates, that is: no error, one before the first pair, or one on a known pair. */
  lemma RecordingRunLeavesNoGapIff(w: World, j: Job, k: nat, ok: bool)
    requires IdsAreUnique(j.reports) && j.tailSync && IsCut(w, j, k, ok)
    requires TailCalculated(j.reports, j.limit, j.stats)
    requires forall i: nat | i < k :: KeyAt(j.reports, i) in w.records
    ensures TailCalculated(j.reports, j.limit, StatsAfter(w, j.reports, j.stats, k)) <==>
              ok || k == 0 || KeyAt(j.reports, k) in j.stats
  {
    RunLeavesNoGapIff(w, j, k, ok);
    if k > 0 && k + 1 < |j.reports| {
      assert !StopsAt(j, k - 1) || ok;
    }
  }

  /**
   A run that leaves a gap: the oldest of three reports cannot be read once, so only the newest pair is calculated.
   The next run, with nothing failing any more, calculates that pair again and stops above the missing one.
   */
  lemma UnreadableReportLeavesGap()
    ensures var reports := [Report(3, "c", 30, 3, "b"), Report(2, "b", 20, 2, "a"), Report(1, "a", 10, 1, "")];
            var w := World(map[], {1}, {}, {(2, 3), (1, 2)});
            var after := StatsAfter(w, reports, {}, 1);
            && IsCut(w, Job(reports, 1, true, {}), 1, false)
            && TailCalculated(reports, 1, {}) && !TailCalculated(reports, 1, after)
            && IsCut(w.(unreadable := {}), Job(reports, 1, true, after), 1, true)
            && StatsAfter(w.(unreadable := {}), reports, after, 1) == after
  {
    var reports := [Report(3, "c", 30, 3, "b"), Report(2, "b", 20, 2, "a"), Report(1, "a", 10, 1, "")];
    var w := World(map[], {1}, {}, {(2, 3), (1, 2)});
    assert StatsAfter(w, reports, {}, 0) == {} && StatsAfter(w, reports, {}, 1) == {(2, 3)};
    assert FailsAt(w, Job(reports, 1, true, {}), 1);
    assert KeyAt(reports, 0) == (2, 3) && KeyAt(reports, 1) == (1, 2);
    assert StatsAfter(w.(unreadable := {}), reports, {(2, 3)}, 0) == {(2, 3)};
  }

  /**
   A run that leaves a gap and meets no error: the calculation of the older pair raises nothing and records nothing,
   as when every vault's task is skipped or rejected. The next run, which would record it, stops above it.
   */
  lemma SilentPairLeavesGap()
    ensures var reports := [Report(3, "c", 30, 3, "b"), Report(2, "b", 20, 2, "a"), Report(1, "a", 10, 1, "")];
            var w := World(map[], {}, {}, {(2, 3)});
            var after := StatsAfter(w, reports, {}, 2);
            && IsCut(w, Job(reports, 1, true, {}), 2, true)
            && TailCalculated(reports, 1, {}) && !TailCalculated(reports, 1, after)
            && IsCut(w.(records := {(2, 3), (1, 2)}), Job(reports, 1, true, after), 1, true)
            && StatsAfter(w.(records := {(2, 3), (1, 2)}), reports, after, 1) == after
  {
    var reports := [Report(3, "c", 30, 3, "b"), Report(2, "b", 20, 2, "a"), Report(1, "a", 10, 1, "")];
    var w := World(map[], {}, {}, {(2, 3)});
    assert KeyAt(reports, 0) == (2, 3) && KeyAt(reports, 1) == (1, 2);
    assert StatsAfter(w, reports, {}, 0) == {};
    assert StatsAfter(w, reports, {}, 1) == {(2, 3)};
    assert StatsAfter(w, reports, {}, 2) == {(2, 3)};
    assert StatsAfter(w.(records := {(2, 3), (1, 2)}), reports, {(2, 3)}, 0) == {(2, 3)};
  }

  // ---- The job ----

  class MetricsJob {
    var reports: seq<Report>   // the table, newest first
    var stats: set<(nat, nat)>
    ghost var calculated: seq<Pair>

    constructor (reports: seq<Report>, stats: set<(nat, nat)>)
      ensures this.reports == reports && this.stats == stats && calculated == []
    {
      this.reports, this.stats, calculated := reports, stats, [];
    }

    /** The calculation for one pair, with the leaves it is handed. */
    method CalculateForPair(w: World, current: Report, previous: Report, currentLeaves: Leaves, previousLeaves: Leaves)
      returns (ok: bool)
      modifies this`stats, this`calculated
      ensures ok <==> KeyOf(current, previous) !in w.raises
      ensures !ok ==> stats == old(stats) && calculated == old(calculated)
      ensures ok ==> stats == old(stats) + (if KeyOf(current, previous) in w.records then {KeyOf(current, previous)} else {})
      ensures ok ==> calculated == old(calculated) + [Pair(current, previous, currentLeaves, previousLeaves)]
    {
      ok := KeyOf(current, previous) !in w.raises;
      if ok {
        if KeyOf(current, previous) in w.records {
          stats := stats + {KeyOf(current, previous)};
        }
        calculated := calculated + [Pair(current, previous, currentLeaves, previousLeaves)];
      }
    }

    method GetPage(fromCid: Option<string>, skip: nat, take: nat) returns (page: Result<seq<Report>, Failure>)
      ensures page == match Listed(reports, fromCid)
                      case Err(e) => Err(e)
                      case Ok(list) => Ok(Page(list, skip, take))
    {
      var list := Listed(reports, fromCid);
      match list {
        case Err(e) => page := Err(e);
        case Ok(rs) => page := Ok(Page(rs, skip, take));
      }
    }

    /** The first `k` pairs of the job are calculated, with their own leaves. */
    ghost predicate Did(w: World, j: Job, was: seq<Pair>, k: nat)
      requires k == 0 || k < |j.reports|
      reads this
    {
      calculated == was + PairsUpTo(w, j.reports, k) && stats == StatsAfter(w, j.reports, j.stats, k)
    }

    /**
     The walk has read `position` reports of the job's list: the newest of them
     waits as `current`, and every pair before it is calculated.
     */
    ghost predicate At(w: World, j: Job, was: seq<Pair>, position: nat, current: Option<Report>, currentLeaves: Leaves)
      requires position <= |j.reports|
      reads this
    {
      if position == 0 then
        current == None && Did(w, j, was, 0)
      else
        && current == Some(j.reports[position - 1])
        && currentLeaves == LeavesOf(w, j.reports[position - 1])
        && !FailsAtOnce(w, j)
        && Passed(w, j, position - 1)
        && Did(w, j, was, position - 1)
    }

    /** How a run ends, after `k` pairs. */
    ghost predicate Ended(w: World, j: Job, was: seq<Pair>, k: nat, result: Result<nat, Failure>)
      reads this
    {
      && IsCut(w, j, k, result.Ok?)
      && Did(w, j, was, k)
      && (result.Ok? ==> result.value == if k > 0 && IsTail(j, k - 1) then k - 1 else k)
    }

    method CalculateNext(w: World, ghost j: Job, ghost was: seq<Pair>, ghost k: nat, current: Report, previous: Report,
                         currentLeaves: Leaves, previousLeaves: Leaves)
      returns (ok: bool)
      requires k + 1 < |j.reports| && current == j.reports[k] && previous == j.reports[k + 1] && Did(w, j, was, k)
      requires currentLeaves == LeavesOf(w, current) && previousLeaves == LeavesOf(w, previous)
      modifies this`stats, this`calculated
      ensures ok <==> KeyAt(j.reports, k) !in w.raises
      ensures if ok then Did(w, j, was, k + 1) else Did(w, j, was, k)
    {
      ghost var before := calculated;
      ok := CalculateForPair(w, current, previous, currentLeaves, previousLeaves);
      if ok {
        Assoc(was, PairsUpTo(w, j.reports, k), [PairAt(w, j.reports, k)]);
        assert calculated == before + [PairAt(w, j.reports, k)];
      }
    }

    /** What one report of a batch does to the walk. */
    method Visit(w: World, ghost j: Job, ghost was: seq<Pair>, ghost position: nat, tailSync: bool, blockLimit: int,
                 previous: Report, current: Option<Report>, currentLeaves: Leaves, pairsCalculated: nat)
      returns (stop: Option<Result<nat, Failure>>, next: Option<Report>, nextLeaves: Leaves, ghost k: nat)
      requires IdsAreUnique(j.reports) && j.tailSync == tailSync && j.limit == blockLimit
      requires position < |j.reports| && previous == j.reports[position]
      requires At(w, j, was, position, current, currentLeaves) && pairsCalculated == Before(position)
      modifies this`stats, this`calculated
      ensures stop == None ==> At(w, j, was, position + 1, next, nextLeaves)
      ensures stop.Some? ==> Ended(w, j, was, k, stop.value)
    {
      next, nextLeaves, stop, k := Some(previous), LeavesOf(w, previous), None, Before(position);
      if previous.id in w.unreadable {
        stop := Some(Err(ReadFailed));
        return;
      }
      if current == None {
        return;
      }
      StatsAfterAre(w, j.reports, j.stats, k, k);
      var tail := tailSync && KeyOf(current.value, previous) in stats;
      var ok := CalculateNext(w, j, was, k, current.value, previous, currentLeaves, nextLeaves);
      if !ok {
        stop := Some(Err(CalculationFailed));
        return;
      }
      k := k + 1;
      assert !FailsAt(w, j, k - 1);
      if tail {
        stop := Some(Ok(pairsCalculated));
      } else if blockLimit < 1 || blockLimit > current.value.blockNumber {
        stop := Some(Ok(pairsCalculated + 1));
      }
    }

    method WalkBatch(w: World, ghost j: Job, ghost was: seq<Pair>, ghost skip: nat, tailSync: bool, blockLimit: int,
                     batch: seq<Report>, current: Option<Report>, currentLeaves: Leaves, pairsCalculated: nat)
      returns (stop: Option<Result<nat, Failure>>, next: Option<Report>, nextLeaves: Leaves, pairs: nat, ghost k: nat)
      requires IdsAreUnique(j.reports) && j.tailSync == tailSync && j.limit == blockLimit
      requires skip + |batch| <= |j.reports| && batch == j.reports[skip..skip + |batch|]
      requires At(w, j, was, skip, current, currentLeaves) && pairsCalculated == Before(skip)
      modifies this`stats, this`calculated
      ensures stop == None ==> At(w, j, was, skip + |batch|, next, nextLeaves) && pairs == Before(skip + |batch|)
      ensures stop.Some? ==> Ended(w, j, was, k, stop.value)
    {
      next, nextLeaves, pairs, k, stop := current, currentLeaves, pairsCalculated, 0, None;
      for i := 0 to |batch|
        invariant At(w, j, was, skip + i, next, nextLeaves) && pairs == Before(skip + i)
      {
        var first := next == None;
        stop, next, nextLeaves, k :=
          Visit(w, j, was, skip + i, tailSync, blockLimit, batch[i], next, nextLeaves, pairs);
        if stop.Some? {
          return;
        }
        if !first {
          pairs := pairs + 1;
        }
      }
      stop := None;
    }

    method ReadPage(fromCid: Option<string>, skip: nat, take: nat, ghost list: seq<Report>) returns (batch: seq<Report>)
      requires Listed(reports, fromCid) == Ok(list)
      ensures batch == Page(list, skip, take)
    {
      var page := GetPage(fromCid, skip, take);
      batch := page.value;
    }

    /** One round of the outer loop: the next page, or the end of the reports. */
    method NextBatch(w: World, ghost j: Job, ghost was: seq<Pair>, fromCid: Option<string>, blockLimit: int, skip: nat, take: nat,
                     current: Option<Report>, currentLeaves: Leaves, pairsCalculated: nat)
      returns (stop: Option<Result<nat, Failure>>, next: Option<Report>, nextLeaves: Leaves, pairs: nat, ghost k: nat)
      requires take >= 1 && IdsAreUnique(j.reports) && Listed(reports, fromCid) == Ok(j.reports)
      requires j.tailSync == (fromCid == None || fromCid.value == "") && j.limit == blockLimit
      requires At(w, j, was, Min(skip, |j.reports|), current, currentLeaves) && pairsCalculated == Before(Min(skip, |j.reports|))
      modifies this`stats, this`calculated
      ensures stop == None ==> skip < |j.reports|
      ensures stop == None ==>
                At(w, j, was, Min(skip + take, |j.reports|), next, nextLeaves) && pairs == Before(Min(skip + take, |j.reports|))
      ensures stop.Some? ==> Ended(w, j, was, k, stop.value)
    {
      var batch := ReadPage(fromCid, skip, take, j.reports);
      ghost var position := Min(skip, |j.reports|);
      PageContinues(j.reports, skip, take);
      if |batch| == 0 {
        stop, next, nextLeaves, pairs, k := Some(Ok(pairsCalculated)), current, currentLeaves, pairsCalculated, pairsCalculated;
        CutAtTheEnd(w, j, k);
        return;
      }
      stop, next, nextLeaves, pairs, k :=
        WalkBatch(w, j, was, position, fromCid == None || fromCid.value == "", blockLimit, batch,
                  current, currentLeaves, pairsCalculated);
    }

    /** The outer loop, with `current` carried from batch to batch. */
    method WalkBatches(w: World, ghost j: Job, fromCid: Option<string>, blockLimit: int, batchSize: nat)
      returns (result: Result<nat, Failure>, ghost k: nat)
      requires batchSize >= 1 && IdsAreUnique(j.reports) && Listed(reports, fromCid) == Ok(j.reports)
      requires j.limit == blockLimit && j.stats == stats && j.tailSync == (fromCid == None || fromCid.value == "")
      modifies this`stats, this`calculated
      ensures Ended(w, j, old(calculated), k, result)
    {
      var skipPagination, pairsCalculated := 0, 0;
      var currentReport: Option<Report>, currentLeaves: Leaves := None, map[];
      ghost var was := calculated;
      var stop: Option<Result<nat, Failure>>;
      while true
        invariant At(w, j, was, Min(skipPagination, |j.reports|), currentReport, currentLeaves)
        invariant pairsCalculated == Before(Min(skipPagination, |j.reports|))
        decreases |j.reports| + batchSize - skipPagination
      {
        stop, currentReport, currentLeaves, pairsCalculated, k :=
          NextBatch(w, j, was, fromCid, blockLimit, skipPagination, batchSize, currentReport, currentLeaves, pairsCalculated);
        if stop.Some? {
          return stop.value, k;
        }
        skipPagination := skipPagination + batchSize;
      }
    }

    method CalculateVaultMetrics(w: World, fromCid: Option<string>, blockLimit: int, batchSize: nat)
      returns (result: Result<nat, Failure>, ghost k: nat)
      requires batchSize >= 1 && IdsAreUnique(reports)
      modifies this`stats, this`calculated
      ensures Listed(reports, fromCid).Err? ==>
                result == Err(Listed(reports, fromCid).error) && stats == old(stats) && calculated == old(calculated)
      ensures Listed(reports, fromCid).Ok? ==>
                Ended(w, JobOf(reports, fromCid, blockLimit, old(stats)), old(calculated), k, result)
      ensures Listed(reports, fromCid).Ok? ==>
                && (k == 0 || k < |Listed(reports, fromCid).value|)
                && old(calculated) <= calculated
                && RunMeans(w, Listed(reports, fromCid).value, blockLimit, fromCid == None || fromCid.value == "",
                            old(stats), stats, calculated[|old(calculated)|..], k, result)
    {
      ListedIdsAreUnique(reports, fromCid);
      var first := GetPage(fromCid, 0, batchSize);
      if first.Err? {
        return Err(first.error), 0;
      }
      result, k := WalkBatches(w, JobOf(reports, fromCid, blockLimit, stats), fromCid, blockLimit, batchSize);
      EndedMeans(w, JobOf(reports, fromCid, blockLimit, old(stats)), calculated[|old(calculated)|..], stats, k, result);
    }
  }

  // ---- What a run does, in terms of the reports ----

  /** The i-th report and the n-th are neighbours among the first `k` pairs. */
  predicate Neighbours(i: int, n: int, k: int) {
    0 <= i < k && n == i + 1
  }

  /**
   The run calculates the first `k` neighbours, each with its own leaves, and adds the rows they record. It goes past
   no pair that an earlier run had calculated, if it minds those, and past none at the limit; it calculates one pair
   only when no limit is set. It ends for one of these reasons, at the oldest pair, or on an error.
   */
  ghost predicate RunMeans(
      w: World, list: seq<Report>, blockLimit: int, tailSync: bool, stats: set<(nat, nat)>, statsAfter: set<(nat, nat)>,
      mine: seq<Pair>, k: nat, result: Result<nat, Failure>)
    requires k == 0 || k < |list|
  {
    && |mine| == k
    && (forall i, n | Neighbours(i, n, k) ::
          && mine[i].current == list[i] && mine[i].previous == list[n]
          && mine[i].currentLeaves == (if list[i].id in w.leaves then w.leaves[list[i].id] else map[])
          && mine[i].previousLeaves == (if list[n].id in w.leaves then w.leaves[list[n].id] else map[]))
    && (forall p :: p in statsAfter <==>
          p in stats || (p in w.records && exists i, n :: Neighbours(i, n, k) && p == (list[n].id, list[i].id)))
    && (blockLimit < 1 && result.Ok? && |list| >= 2 ==> k == 1)
    && (forall i, n | Neighbours(i, n, k) && n < k ::
          1 <= blockLimit <= list[i].blockNumber && !(tailSync && (list[n].id, list[i].id) in stats))
    && (result.Ok? && k + 1 < |list| ==>
          && k > 0
          && (blockLimit < 1 || blockLimit > list[k - 1].blockNumber || (tailSync && (list[k].id, list[k - 1].id) in stats)))
    && (list != [] && list[0].id in w.unreadable ==> result.Err? && k == 0)
    && (forall i, n | Neighbours(i, n, k) :: list[n].id !in w.unreadable && (list[n].id, list[i].id) !in w.raises)
    && (result.Err? ==>
          || (list != [] && list[0].id in w.unreadable)
          || (k + 1 < |list| && (list[k + 1].id in w.unreadable || (list[k + 1].id, list[k].id) in w.raises)))
    && (result.Ok? ==> result.value == if k > 0 && tailSync && (list[k].id, list[k - 1].id) in stats then k - 1 else k)
  }

  lemma {:induction false} StatsAfterMean(w: World, reports: seq<Report>, stats: set<(nat, nat)>, k: nat, p: (nat, nat))
    requires k == 0 || k < |reports|
    ensures p in StatsAfter(w, reports, stats, k) <==>
              p in stats || (p in w.records && exists i, n :: Neighbours(i, n, k) && p == (reports[n].id, reports[i].id))
  {
    if k > 0 {
      StatsAfterMean(w, reports, stats, k - 1, p);
      assert Neighbours(k - 1, k, k);
      assert forall i, n :: Neighbours(i, n, k) <==> Neighbours(i, n, k - 1) || (i == k - 1 && n == k);
    }
  }

  lemma EndedMeans(w: World, j: Job, mine: seq<Pair>, stats: set<(nat, nat)>, k: nat, result: Result<nat, Failure>)
    requires IsCut(w, j, k, result.Ok?)
    requires mine == PairsUpTo(w, j.reports, k) && stats == StatsAfter(w, j.reports, j.stats, k)
    requires result.Ok? ==> result.value == if k > 0 && IsTail(j, k - 1) then k - 1 else k
    ensures RunMeans(w, j.reports, j.limit, j.tailSync, j.stats, stats, mine, k, result)
  {
    forall p
      ensures p in stats <==>
                p in j.stats || (p in w.records && exists i, n :: Neighbours(i, n, k) && p == (j.reports[n].id, j.reports[i].id))
    {
      StatsAfterMean(w, j.reports, j.stats, k, p);
    }
    forall i, n | Neighbours(i, n, k)
      ensures !FailsAt(w, j, i) && mine[i] == PairAt(w, j.reports, i) && (n < k ==> !StopsAt(j, i))
    {
    }
    assert k >= 2 ==> !StopsAt(j, 0);
    assert k >= 1 ==> !FailsAt(w, j, k - 1);
  }

  /** The pairs behind a walk that has read this many reports. */
  function Before(position: nat): nat {
    if position == 0 then 0 else position - 1
  }

  function JobOf(reports: seq<Report>, fromCid: Option<string>, limit: int, stats: set<(nat, nat)>): Job {
    Job(if Listed(reports, fromCid).Ok? then Listed(reports, fromCid).value else [],
        limit, fromCid == None || fromCid.value == "", stats)
  }

  lemma {:induction false} UpToIsPart(reports: seq<Report>, timestamp: int)
    ensures forall r | r in UpTo(reports, timestamp) :: r in reports
  {
    if reports != [] {
      UpToIsPart(reports[1..], timestamp);
    }
  }

  lemma UniqueFront(r: Report, rest: seq<Report>)
    requires IdsAreUnique(rest) && forall s | s in rest :: s.id != r.id
    ensures IdsAreUnique([r] + rest)
  {
  }

  lemma UniqueTail(reports: seq<Report>)
    requires reports != [] && IdsAreUnique(reports)
    ensures IdsAreUnique(reports[1..]) && forall s | s in reports[1..] :: s.id != reports[0].id
  {
  }

  lemma {:induction false} UpToIdsAreUnique(reports: seq<Report>, timestamp: int)
    requires IdsAreUnique(reports)
    ensures IdsAreUnique(UpTo(reports, timestamp))
  {
    if reports != [] {
      UniqueTail(reports);
      UpToIdsAreUnique(reports[1..], timestamp);
      UpToIsPart(reports[1..], timestamp);
      UniqueFront(reports[0], UpTo(reports[1..], timestamp));
    }
  }

  lemma ListedIdsAreUnique(reports: seq<Report>, fromCid: Option<string>)
    requires IdsAreUnique(reports)
    ensures Listed(reports, fromCid).Ok? ==> IdsAreUnique(Listed(reports, fromCid).value)
  {
    forall t ensures IdsAreUnique(UpTo(reports, t)) {
      UpToIdsAreUnique(reports, t);
    }
  }
}
