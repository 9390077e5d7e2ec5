/**
 The tail sync: walk the published reports from the latest one backwards and
 store each, until one that is stored already.
 */
module ReportSync {
  import opened Limits
  import opened Sequences
  import opened Wrappers
  import opened Reports

  const LEAF_BATCH_SIZE: nat := 500

  /**
   What one run meets. A CID missing from `published` cannot be fetched; a CID
   in `leavesFail` stores at most that many chunks of its leaves before an error.
   */
  datatype World = World(latest: string, published: map<string, ReportData>, saveFails: set<string>, leavesFail: map<string, nat>)

  /** The report tables, `leaves` keyed by the report's CID. */
  datatype Store = Store(reports: seq<Report>, leaves: map<string, Leaves>)

  function Cids(s: Store): set<string> {
    set r | r in s.reports :: r.cid
  }

  predicate Stored(s: Store, cid: string) {
    exists i | 0 <= i < |s.reports| :: s.reports[i].cid == cid
  }

  function LeavesOf(s: Store, cid: string): Leaves {
    if cid in s.leaves then s.leaves[cid] else map[]
  }

  function Upserted(leaves: Leaves, values: seq<Leaf>): Leaves
    decreases |values|
  {
    if values == [] then leaves
    else
      var last := values[|values| - 1];
      Upserted(leaves, values[..|values| - 1])[last.vaultAddress := last]
  }

  function RowOf(s: Store, cid: string, data: ReportData): Report {
    Report(|s.reports|, cid, data.blockNumber, data.timestamp, data.prevTreeCID)
  }

  function SavedReport(s: Store, cid: string, data: ReportData): Store {
    if Stored(s, cid) then s else s.(reports := s.reports + [RowOf(s, cid, data)])
  }

  function SavedLeaves(s: Store, cid: string, values: seq<Leaf>): Store {
    s.(leaves := s.leaves[cid := Upserted(LeavesOf(s, cid), values)])
  }

  /** The k-th chunk of a report's leaves, stored by one upsert. */
  function Chunk(values: seq<Leaf>, k: nat): seq<Leaf>
    requires k * LEAF_BATCH_SIZE <= |values|
  {
    values[k * LEAF_BATCH_SIZE..Min((k + 1) * LEAF_BATCH_SIZE, |values|)]
  }

  /** An upsert cannot touch one row twice: a vault named twice in a chunk makes the database reject it. */
  predicate Repeats(chunk: seq<Leaf>) {
    exists i, j | 0 <= i < j < |chunk| :: chunk[i].vaultAddress == chunk[j].vaultAddress
  }

  function FirstChunks(values: seq<Leaf>, k: nat): seq<Leaf> {
    values[..Min(k * LEAF_BATCH_SIZE, |values|)]
  }

  predicate ChunkFails(failAt: Option<nat>, values: seq<Leaf>, k: nat)
    requires k * LEAF_BATCH_SIZE <= |values|
  {
    failAt == Some(k) || Repeats(Chunk(values, k))
  }

  /** How many chunks are stored, from one on: all, or the ones before the first that fails. */
  function ChunksKept(failAt: Option<nat>, values: seq<Leaf>, k: nat): (n: nat)
    ensures n >= k
    decreases |values| - k * LEAF_BATCH_SIZE
  {
    if k * LEAF_BATCH_SIZE >= |values| || ChunkFails(failAt, values, k) then k else ChunksKept(failAt, values, k + 1)
  }

  function KeptLeaves(failAt: Option<nat>, values: seq<Leaf>): seq<Leaf> {
    FirstChunks(values, ChunksKept(failAt, values, 0))
  }

  predicate SaveFails(failAt: Option<nat>, values: seq<Leaf>) {
    ChunksKept(failAt, values, 0) * LEAF_BATCH_SIZE < |values|
  }

  /** The chunks before the last one kept are without fault, and the one after it, if any, fails. */
  lemma {:induction false} ChunksKeptAre(failAt: Option<nat>, values: seq<Leaf>, from: nat, k: nat)
    requires k * LEAF_BATCH_SIZE < |values| && from <= k
    ensures k < ChunksKept(failAt, values, from) ==> !ChunkFails(failAt, values, k)
    ensures k == ChunksKept(failAt, values, from) ==> ChunkFails(failAt, values, k)
    decreases k - from
  {
    if from < k {
      ChunksKeptAre(failAt, values, from + 1, k);
    }
  }

  lemma {:induction false} SomeChunkFails(failAt: Option<nat>, values: seq<Leaf>, from: nat, k: nat)
    requires from <= k && k * LEAF_BATCH_SIZE < |values| && ChunkFails(failAt, values, k)
    ensures ChunksKept(failAt, values, from) * LEAF_BATCH_SIZE < |values|
    decreases k - from
  {
    if from < k && !ChunkFails(failAt, values, from) {
      SomeChunkFails(failAt, values, from + 1, k);
    }
  }

  /** Two leaves of one vault less than a chunk apart, in one chunk. */
  ghost predicate TwiceInAChunk(values: seq<Leaf>, k: nat, i: int, j: int) {
    && k * 500 <= i < j < (k + 1) * 500 && j < |values| && values[i].vaultAddress == values[j].vaultAddress
  }

  lemma RepeatsIff(values: seq<Leaf>, k: nat)
    requires k * LEAF_BATCH_SIZE <= |values|
    ensures Repeats(Chunk(values, k)) <==> exists i, j :: TwiceInAChunk(values, k, i, j)
  {
    var chunk := Chunk(values, k);
    if i, j :| TwiceInAChunk(values, k, i, j) {
      assert chunk[i - k * 500] == values[i] && chunk[j - k * 500] == values[j];
    }
    if p, q :| 0 <= p < q < |chunk| && chunk[p].vaultAddress == chunk[q].vaultAddress {
      assert TwiceInAChunk(values, k, k * 500 + p, k * 500 + q);
    }
  }

  /** Leaves fail to be saved exactly on an error before their end, or on a vault named twice in a chunk of 500. */
  lemma SaveFailsIff(failAt: Option<nat>, values: seq<Leaf>)
    ensures SaveFails(failAt, values) <==>
              || (failAt != None && failAt.value * 500 < |values|)
              || exists k: nat, i, j :: TwiceInAChunk(values, k, i, j)
  {
    if SaveFails(failAt, values) {
      var n := ChunksKept(failAt, values, 0);
      ChunksKeptAre(failAt, values, 0, n);
      RepeatsIff(values, n);
    }
    if failAt != None && failAt.value * 500 < |values| {
      SomeChunkFails(failAt, values, 0, failAt.value);
    }
    if k: nat, i, j :| TwiceInAChunk(values, k, i, j) {
      RepeatsIff(values, k);
      SomeChunkFails(failAt, values, 0, k);
    }
  }

  function FailAt(w: World, cid: string): Option<nat> {
    if cid in w.leavesFail then Some(w.leavesFail[cid]) else None
  }

  /** The leaves that reach the table: all of them, or the chunks before the error. */
  function LeavesKept(w: World, cid: string, values: seq<Leaf>): seq<Leaf> {
    KeptLeaves(FailAt(w, cid), values)
  }

  predicate LeavesFail(w: World, cid: string, values: seq<Leaf>) {
    SaveFails(FailAt(w, cid), values)
  }

  /** The tables once a new report is saved, with the leaves that made it. */
  function Saved(w: World, s: Store, cid: string, data: ReportData): Store {
    Store(s.reports + [RowOf(s, cid, data)], s.leaves[cid := Upserted(LeavesOf(s, cid), LeavesKept(w, cid, data.values))])
  }

  lemma SavingShrinksTheRest(w: World, s: Store, cid: string)
    requires cid in w.published && !Stored(s, cid)
    ensures |w.published.Keys - Cids(Saved(w, s, cid, w.published[cid]))| < |w.published.Keys - Cids(s)|
  {
    var t := Saved(w, s, cid, w.published[cid]);
    assert t.reports[|s.reports|] in t.reports;
    assert forall r :: r in s.reports ==> r in t.reports;
    var rest, less := w.published.Keys - Cids(s), w.published.Keys - Cids(t);
    assert cid in rest && cid !in less && less <= rest - {cid};
    Smaller(less, rest - {cid});
  }

  lemma Smaller<T>(a: set<T>, b: set<T>)
    requires a <= b
    ensures |a| <= |b|
  {
    assert b == a + (b - a);
  }

  /** Where the walk stops after a report, even if more lie behind it. */
  predicate StopsAfter(limit: int, data: ReportData, fetched: nat) {
    (limit < 1 && fetched + 1 >= 2) || limit > data.blockNumber
  }

  /**
   A run from `cid` on, after `fetched` reports; `ok` is false when it gave up
   on an error.
   */
  function Sync(w: World, limit: int, s: Store, cid: string, fetched: nat): (r: (Store, bool))
    decreases |w.published.Keys - Cids(s)|
  {
    if cid == "" || Stored(s, cid) then (s, true)
    else if cid !in w.published || cid in w.saveFails then (s, false)
    else
      SavingShrinksTheRest(w, s, cid);
      var data := w.published[cid];
      var t := Saved(w, s, cid, data);
      if LeavesFail(w, cid, data.values) then (t, false)
      else if StopsAfter(limit, data, fetched) then (t, true)
      else Sync(w, limit, t, Predecessor(data.prevTreeCID), fetched + 1)
  }

  /** Whether the walk saves the report it stands at. */
  predicate Saves(w: World, s: Store, cid: string) {
    cid != "" && !Stored(s, cid) && cid in w.published && cid !in w.saveFails
  }

  lemma SyncUnfolds(w: World, limit: int, s: Store, cid: string, fetched: nat)
    requires cid != "" && !Stored(s, cid)
    ensures !Saves(w, s, cid) ==> Sync(w, limit, s, cid, fetched) == (s, false)
    ensures Saves(w, s, cid) ==>
              var data := w.published[cid];
              var t := Saved(w, s, cid, data);
              && |w.published.Keys - Cids(t)| < |w.published.Keys - Cids(s)|
              && Sync(w, limit, s, cid, fetched) ==
                   if LeavesFail(w, cid, data.values) then (t, false)
                   else if StopsAfter(limit, data, fetched) then (t, true)
                   else Sync(w, limit, t, Predecessor(data.prevTreeCID), fetched + 1)
  {
    if Saves(w, s, cid) {
      SavingShrinksTheRest(w, s, cid);
    }
  }

  lemma SyncStep(w: World, limit: int, s: Store, cid: string, fetched: nat) returns (u: Store)
    requires Saves(w, s, cid)
    ensures u == Sync(w, limit, s, cid, fetched).0
    ensures var data := w.published[cid];
            var t := Saved(w, s, cid, data);
            u == t || u == Sync(w, limit, t, Predecessor(data.prevTreeCID), fetched + 1).0
  {
    SavingShrinksTheRest(w, s, cid);
    u := Sync(w, limit, s, cid, fetched).0;
  }

  // ---- Stored leaves ----

  lemma {:induction false} UpsertedConcat(leaves: Leaves, a: seq<Leaf>, b: seq<Leaf>)
    ensures Upserted(leaves, a + b) == Upserted(Upserted(leaves, a), b)
    decreases |b|
  {
    if b == [] {
      assert a + b == a;
    } else {
      assert (a + b)[..|a + b| - 1] == a + b[..|b| - 1];
      UpsertedConcat(leaves, a, b[..|b| - 1]);
    }
  }

  lemma UpsertedChunk(leaves: Leaves, values: seq<Leaf>, from: nat, to: nat)
    requires from <= to <= |values|
    ensures Upserted(Upserted(leaves, values[..from]), values[from..to]) == Upserted(leaves, values[..to])
  {
    UpsertedConcat(leaves, values[..from], values[from..to]);
    assert values[..from] + values[from..to] == values[..to];
  }

  lemma OneMoreChunk(tables: map<string, Leaves>, cid: string, start: Leaves, values: seq<Leaf>, k: nat)
    requires k * LEAF_BATCH_SIZE < |values|
    ensures var before := Upserted(start, FirstChunks(values, k));
            tables[cid := before][cid := Upserted(before, Chunk(values, k))]
            == tables[cid := Upserted(start, FirstChunks(values, k + 1))]
  {
    UpsertedChunk(start, values, k * LEAF_BATCH_SIZE, Min((k + 1) * LEAF_BATCH_SIZE, |values|));
  }

  predicate Names(values: seq<Leaf>, vault: string) {
    exists i | 0 <= i < |values| :: values[i].vaultAddress == vault
  }

  /** A vault that the report does not name keeps the leaf it had. */
  lemma {:induction false} UnnamedVaultIsKept(leaves: Leaves, values: seq<Leaf>, vault: string)
    requires !Names(values, vault)
    ensures vault in Upserted(leaves, values) <==> vault in leaves
    ensures vault in leaves ==> Upserted(leaves, values)[vault] == leaves[vault]
    decreases |values|
  {
    if values != [] {
      var rest := values[..|values| - 1];
      assert forall i | 0 <= i < |rest| :: rest[i] == values[i];
      UnnamedVaultIsKept(leaves, rest, vault);
    }
  }

  /** A named vault has the last leaf the report gives for it. */
  lemma {:induction false} LastLeafWins(leaves: Leaves, values: seq<Leaf>, i: nat)
    requires i < |values| && !Names(values[i + 1..], values[i].vaultAddress)
    ensures values[i].vaultAddress in Upserted(leaves, values)
    ensures Upserted(leaves, values)[values[i].vaultAddress] == values[i]
  {
    var upTo := values[..i + 1];
    assert values == upTo + values[i + 1..];
    UpsertedConcat(leaves, upTo, values[i + 1..]);
    UnnamedVaultIsKept(Upserted(leaves, upTo), values[i + 1..], values[i].vaultAddress);
  }

  // ---- The closed tail ----

  predicate EndsAt(s: Store, limit: int, r: Report) {
    Predecessor(r.prevTreeCID) == "" || Stored(s, Predecessor(r.prevTreeCID)) || limit > r.blockNumber
  }

  /**
   Every stored report's predecessor is stored, absent, or below the limit;
   `pending` is the one CID that may still be on its way.
   */
  ghost predicate Closed(s: Store, limit: int, pending: string) {
    forall i | 0 <= i < |s.reports| :: EndsAt(s, limit, s.reports[i]) || Predecessor(s.reports[i].prevTreeCID) == pending
  }

  ghost predicate TailClosed(s: Store, limit: int) {
    Closed(s, limit, "")
  }

  lemma SavedKeepsStored(w: World, s: Store, cid: string, data: ReportData, x: string)
    ensures Stored(Saved(w, s, cid, data), x) <==> Stored(s, x) || x == cid
  {
    var t := Saved(w, s, cid, data);
    assert t.reports[|s.reports|] == RowOf(s, cid, data);
    if Stored(s, x) {
      var i :| 0 <= i < |s.reports| && s.reports[i].cid == x;
      assert t.reports[i].cid == x;
    }
  }

  lemma SavedMovesPending(w: World, limit: int, s: Store, cid: string, data: ReportData)
    requires !Stored(s, cid) && Closed(s, limit, cid)
    ensures Closed(Saved(w, s, cid, data), limit, Predecessor(data.prevTreeCID))
  {
    var t := Saved(w, s, cid, data);
    forall i | 0 <= i < |t.reports|
      ensures EndsAt(t, limit, t.reports[i]) || Predecessor(t.reports[i].prevTreeCID) == Predecessor(data.prevTreeCID)
    {
      SavedKeepsStored(w, s, cid, data, Predecessor(t.reports[i].prevTreeCID));
    }
  }

  lemma NothingPending(s: Store, limit: int, cid: string)
    requires Closed(s, limit, cid) && (cid == "" || Stored(s, cid))
    ensures TailClosed(s, limit)
  {
    forall i | 0 <= i < |s.reports| ensures EndsAt(s, limit, s.reports[i]) {
    }
  }

  /**
   A run that gives up on nothing turns a closed tail into a closed tail that
   has the latest report in it, whatever the shape of the predecessor graph.
   */
  lemma {:induction false} SyncClosesTail(w: World, limit: int, s: Store, cid: string, fetched: nat)
    requires limit >= 1 && Closed(s, limit, cid) && Sync(w, limit, s, cid, fetched).1
    ensures TailClosed(Sync(w, limit, s, cid, fetched).0, limit)
    ensures cid == "" || Stored(Sync(w, limit, s, cid, fetched).0, cid)
    decreases |w.published.Keys - Cids(s)|
  {
    if cid == "" || Stored(s, cid) {
      NothingPending(s, limit, cid);
    } else {
      var data := w.published[cid];
      var t := Saved(w, s, cid, data);
      SavingShrinksTheRest(w, s, cid);
      SavedMovesPending(w, limit, s, cid, data);
      SavedKeepsStored(w, s, cid, data, cid);
      if limit > data.blockNumber {
        OnlyLastIsOpen(w, limit, s, cid, data);
      } else {
        SyncClosesTail(w, limit, t, Predecessor(data.prevTreeCID), fetched + 1);
        SyncOnlyAdds(w, limit, t, Predecessor(data.prevTreeCID), fetched + 1);
        LongerKeepsStored(t, Sync(w, limit, s, cid, fetched).0, cid);
      }
    }
  }

  /** After one more save only the row just written can be open. */
  lemma OnlyLastIsOpen(w: World, limit: int, s: Store, cid: string, data: ReportData)
    requires !Stored(s, cid) && Closed(s, limit, cid)
    ensures var t := Saved(w, s, cid, data);
            TailClosed(t, limit) <==> EndsAt(t, limit, RowOf(s, cid, data))
  {
    var t := Saved(w, s, cid, data);
    assert t.reports[|s.reports|] == RowOf(s, cid, data);
    forall i | 0 <= i < |s.reports| ensures EndsAt(t, limit, t.reports[i]) {
      SavedKeepsStored(w, s, cid, data, Predecessor(s.reports[i].prevTreeCID));
    }
  }

  /** A run only appends reports. */
  lemma {:induction false} SyncOnlyAdds(w: World, limit: int, s: Store, cid: string, fetched: nat)
    ensures s.reports <= Sync(w, limit, s, cid, fetched).0.reports
    decreases |w.published.Keys - Cids(s)|
  {
    if Saves(w, s, cid) {
      var data := w.published[cid];
      SyncUnfolds(w, limit, s, cid, fetched);
      SyncOnlyAdds(w, limit, Saved(w, s, cid, data), Predecessor(data.prevTreeCID), fetched + 1);
    }
  }

  lemma LongerKeepsStored(s: Store, t: Store, x: string)
    requires s.reports <= t.reports && Stored(s, x)
    ensures Stored(t, x)
  {
    var i :| 0 <= i < |s.reports| && s.reports[i].cid == x;
    assert t.reports[i] == s.reports[i];
  }

  /**
   A run never touches the leaves of a stored report, so an error on them is not
   repaired by later runs; only another event for that very report stores them
   again.
   */
  lemma {:induction false} SyncKeepsLeaves(w: World, limit: int, s: Store, cid: string, fetched: nat, x: string)
    requires Stored(s, x)
    ensures LeavesOf(Sync(w, limit, s, cid, fetched).0, x) == LeavesOf(s, x)
    decreases |w.published.Keys - Cids(s)|
  {
    if Saves(w, s, cid) {
      var data := w.published[cid];
      SyncUnfolds(w, limit, s, cid, fetched);
      SavedKeepsStored(w, s, cid, data, x);
      SyncKeepsLeaves(w, limit, Saved(w, s, cid, data), Predecessor(data.prevTreeCID), fetched + 1, x);
    }
  }

  // ---- Failures ----

  /** Whether the walk has a report to save where it stands, if the save goes through. */
  predicate Reaches(w: World, s: Store, cid: string) {
    cid != "" && !Stored(s, cid) && cid in w.published
  }

  function WithRow(s: Store, cid: string, data: ReportData): Store {
    Store(s.reports + [RowOf(s, cid, data)], map[])
  }

  lemma AddingShrinksTheRest(w: World, s: Store, cid: string)
    requires Reaches(w, s, cid)
    ensures |w.published.Keys - Cids(WithRow(s, cid, w.published[cid]))| < |w.published.Keys - Cids(s)|
  {
    SavingShrinksTheRest(w, s, cid);
    assert WithRow(s, cid, w.published[cid]).reports == Saved(w, s, cid, w.published[cid]).reports;
  }

  /**
   The stretch a run sets out to store from a CID on, read off the published reports before any save; and whether it
   ends where the run may stop, rather than at a report that cannot be fetched. `s` is a store without leaves.
   */
  function Stretch(w: World, limit: int, s: Store, cid: string, fetched: nat): (seq<Report>, bool)
    decreases |w.published.Keys - Cids(s)|
  {
    if !Reaches(w, s, cid) then ([], cid == "" || Stored(s, cid))
    else
      AddingShrinksTheRest(w, s, cid);
      var data := w.published[cid];
      if StopsAfter(limit, data, fetched) then ([RowOf(s, cid, data)], true)
      else
        var (rest, ends) := Stretch(w, limit, WithRow(s, cid, data), Predecessor(data.prevTreeCID), fetched + 1);
        ([RowOf(s, cid, data)] + rest, ends)
  }

  function Intended(w: World, limit: int, s: Store, cid: string, fetched: nat): (seq<Report>, bool) {
    Stretch(w, limit, Store(s.reports, map[]), cid, fetched)
  }

  predicate LeavesFailOf(w: World, cid: string) {
    cid in w.published && LeavesFail(w, cid, w.published[cid].values)
  }

  /** No save of the stretch fails, and its leaves fail at most for the last report. */
  predicate SavedToTheEnd(w: World, stretch: seq<Report>) {
    forall k | 0 <= k < |stretch| ::
      stretch[k].cid !in w.saveFails && (k + 1 < |stretch| ==> !LeavesFailOf(w, stretch[k].cid))
  }

  /** What reaches the table differs from the report's leaves. */
  predicate LosesLeaves(w: World, cid: string) {
    cid in w.published
    && Upserted(map[], LeavesKept(w, cid, w.published[cid].values)) != Upserted(map[], w.published[cid].values)
  }

  /** The first save of the stretch to fail, if there is one, is that of a report or loses no leaves. */
  predicate KeepsAllLeaves(w: World, stretch: seq<Report>) {
    if stretch == [] || stretch[0].cid in w.saveFails then true
    else if LeavesFailOf(w, stretch[0].cid) then !LosesLeaves(w, stretch[0].cid)
    else KeepsAllLeaves(w, stretch[1..])
  }

  lemma SavedToTheEndFront(w: World, r: Report, rest: seq<Report>)
    ensures SavedToTheEnd(w, [r] + rest) <==>
              r.cid !in w.saveFails && (rest != [] ==> !LeavesFailOf(w, r.cid)) && SavedToTheEnd(w, rest)
  {
    var all := [r] + rest;
    assert forall k | 0 <= k < |rest| :: all[k + 1] == rest[k];
    if SavedToTheEnd(w, all) {
      forall k | 0 <= k < |rest|
        ensures rest[k].cid !in w.saveFails && (k + 1 < |rest| ==> !LeavesFailOf(w, rest[k].cid))
      {
        assert all[k + 1].cid !in w.saveFails;
      }
      assert all[0] == r;
    }
  }

  /** The stretch from a report that can be saved: that report, and the stretch from its predecessor. */
  lemma IntendedUnfolds(w: World, limit: int, s: Store, cid: string, fetched: nat)
    requires Reaches(w, s, cid)
    ensures var data := w.published[cid];
            var rest := Intended(w, limit, Saved(w, s, cid, data), Predecessor(data.prevTreeCID), fetched + 1);
            Intended(w, limit, s, cid, fetched) ==
              if StopsAfter(limit, data, fetched) then ([RowOf(s, cid, data)], true)
              else ([RowOf(s, cid, data)] + rest.0, rest.1)
  {
    var bare := Store(s.reports, map[]);
    assert Stored(bare, cid) == Stored(s, cid);
    assert Store(Saved(w, s, cid, w.published[cid]).reports, map[]) == WithRow(bare, cid, w.published[cid]);
  }

  lemma NothingIntended(w: World, limit: int, s: Store, cid: string, fetched: nat)
    requires !Reaches(w, s, cid)
    ensures Intended(w, limit, s, cid, fetched) == ([], cid == "" || Stored(s, cid))
  {
    assert Stored(Store(s.reports, map[]), cid) == Stored(s, cid);
  }

  /** A run in which no save of its stretch fails stores exactly the stretch. */
  lemma {:induction false} UndisturbedRunStoresStretch(w: World, limit: int, s: Store, cid: string, fetched: nat)
    requires forall r | r in Intended(w, limit, s, cid, fetched).0 :: r.cid !in w.saveFails && !LeavesFailOf(w, r.cid)
    ensures var (stretch, ends) := Intended(w, limit, s, cid, fetched);
            var (t, ok) := Sync(w, limit, s, cid, fetched);
            t.reports == s.reports + stretch && ok == ends
    decreases |w.published.Keys - Cids(s)|
  {
    if Reaches(w, s, cid) {
      var data := w.published[cid];
      var next, t := Predecessor(data.prevTreeCID), Saved(w, s, cid, data);
      IntendedUnfolds(w, limit, s, cid, fetched);
      assert RowOf(s, cid, data) in Intended(w, limit, s, cid, fetched).0;
      SyncUnfolds(w, limit, s, cid, fetched);
      if !StopsAfter(limit, data, fetched) {
        UndisturbedRunStoresStretch(w, limit, t, next, fetched + 1);
        Assoc(s.reports, [RowOf(s, cid, data)], Intended(w, limit, t, next, fetched + 1).0);
      }
    } else {
      NothingIntended(w, limit, s, cid, fetched);
    }
  }

  lemma {:induction false} StretchClosesTailIff(w: World, limit: int, s: Store, cid: string, fetched: nat)
    requires limit >= 1 && Closed(s, limit, cid) && Saves(w, s, cid)
    ensures var (stretch, ends) := Intended(w, limit, s, cid, fetched);
            TailClosed(Sync(w, limit, s, cid, fetched).0, limit) <==> ends && SavedToTheEnd(w, stretch)
    decreases |w.published.Keys - Cids(s)|
  {
    var data := w.published[cid];
    var next, t := Predecessor(data.prevTreeCID), Saved(w, s, cid, data);
    SyncUnfolds(w, limit, s, cid, fetched);
    IntendedUnfolds(w, limit, s, cid, fetched);
    OnlyLastIsOpen(w, limit, s, cid, data);
    SavedToTheEndFront(w, RowOf(s, cid, data), Intended(w, limit, t, next, fetched + 1).0);
    SavedToTheEndFront(w, RowOf(s, cid, data), []);
    assert [RowOf(s, cid, data)] + [] == [RowOf(s, cid, data)];
    if limit <= data.blockNumber {
      if Saves(w, t, next) {
        SavedMovesPending(w, limit, s, cid, data);
        StretchClosesTailIff(w, limit, t, next, fetched + 1);
        IntendedUnfolds(w, limit, t, next, fetched + 1);
      } else if Reaches(w, t, next) {
        FailedSaveIsIntended(w, limit, t, next, fetched + 1);
      } else {
        NothingIntended(w, limit, t, next, fetched + 1);
      }
    }
  }

  /** A report whose save fails is the first one the run set out to store. */
  lemma FailedSaveIsIntended(w: World, limit: int, s: Store, cid: string, fetched: nat)
    requires Reaches(w, s, cid) && cid in w.saveFails
    ensures var stretch := Intended(w, limit, s, cid, fetched).0;
            && stretch != [] && stretch[0].cid == cid
            && !SavedToTheEnd(w, stretch) && KeepsAllLeaves(w, stretch)
  {
    IntendedUnfolds(w, limit, s, cid, fetched);
    assert Intended(w, limit, s, cid, fetched).0[0].cid == cid;
  }

  /**
   One hourly run with a positive limit, from a closed tail, whatever fails: it leaves the tail closed exactly when it
   saves nothing at all, or when the stretch it sets out to store can be fetched to its end, every save of it goes
   through, and leaves fail at most for its last report.
   */
  lemma RunClosesTailIff(w: World, limit: int, s: Store)
    requires limit >= 1 && TailClosed(s, limit)
    ensures var (t, ok) := Sync(w, limit, s, w.latest, 0);
            var (stretch, ends) := Intended(w, limit, s, w.latest, 0);
            && (ok && w.latest != "" ==> Stored(t, w.latest))
            && (TailClosed(t, limit) <==> !Saves(w, s, w.latest) || (ends && SavedToTheEnd(w, stretch)))
  {
    assert Closed(s, limit, w.latest);
    if Sync(w, limit, s, w.latest, 0).1 {
      SyncClosesTail(w, limit, s, w.latest, 0);
    }
    if Saves(w, s, w.latest) {
      StretchClosesTailIff(w, limit, s, w.latest, 0);
    }
  }

  /** A run that leaves the tail open: of two new reports, the newer is stored and the save of the older fails. */
  lemma FailedSaveLeavesTailOpen()
    ensures var older, newer := ReportData(10, 1, "", []), ReportData(20, 2, "a", []);
            var w := World("b", map["a" := older, "b" := newer], {"a"}, map[]);
            && TailClosed(Store([], map[]), 1)
            && !TailClosed(Sync(w, 1, Store([], map[]), w.latest, 0).0, 1)
  {
    var older, newer := ReportData(10, 1, "", []), ReportData(20, 2, "a", []);
    var w := World("b", map["a" := older, "b" := newer], {"a"}, map[]);
    var s := Store([], map[]);
    assert Predecessor("a") == "a";
    SyncUnfolds(w, 1, s, "b", 0);
    var t := Saved(w, s, "b", newer);
    SavedKeepsStored(w, s, "b", newer, "a");
    SyncUnfolds(w, 1, t, "a", 1);
    assert !EndsAt(t, 1, t.reports[0]);
  }

  /** Without a positive limit, the count of reports a run may still store. */
  lemma {:induction false} AtMostTwo(w: World, limit: int, s: Store, cid: string, fetched: nat)
    requires limit < 1 && fetched < 2
    ensures |Sync(w, limit, s, cid, fetched).0.reports| <= |s.reports| + 2 - fetched
    decreases 2 - fetched
  {
    if Saves(w, s, cid) {
      var data := w.published[cid];
      SyncUnfolds(w, limit, s, cid, fetched);
      if fetched == 0 {
        AtMostTwo(w, limit, Saved(w, s, cid, data), Predecessor(data.prevTreeCID), 1);
      }
    }
  }

  /**
   So it stores at most the last two reports, and it has both in the end unless
   it gives up or the latest is below the limit.
   */
  lemma LastTwoReports(w: World, limit: int, s: Store)
    requires limit < 1 && w.latest != "" && Sync(w, limit, s, w.latest, 0).1 && !Stored(s, w.latest)
    ensures var t := Sync(w, limit, s, w.latest, 0).0;
            && |t.reports| <= |s.reports| + 2
            && w.latest in w.published && Stored(t, w.latest)
            && var prev := Predecessor(w.published[w.latest].prevTreeCID);
               prev == "" || Stored(t, prev) || limit > w.published[w.latest].blockNumber
  {
    AtMostTwo(w, limit, s, w.latest, 0);
    var data := w.published[w.latest];
    var m := Saved(w, s, w.latest, data);
    SavingShrinksTheRest(w, s, w.latest);
    SavedKeepsStored(w, s, w.latest, data, w.latest);
    if limit <= data.blockNumber {
      var next := Predecessor(data.prevTreeCID);
      SyncOnlyAdds(w, limit, m, next, 1);
      LongerKeepsStored(m, Sync(w, limit, s, w.latest, 0).0, w.latest);
      if next != "" { OneStepStores(w, limit, m, next); }
    }
  }

  lemma OneStepStores(w: World, limit: int, s: Store, cid: string)
    requires limit < 1 && Sync(w, limit, s, cid, 1).1 && cid != ""
    ensures Stored(Sync(w, limit, s, cid, 1).0, cid)
  {
    if !Stored(s, cid) {
      SavingShrinksTheRest(w, s, cid);
      SavedKeepsStored(w, s, cid, w.published[cid], cid);
    }
  }

  // ---- What is stored ----

  predicate Linked(rows: seq<Report>, cid: string) {
    && (rows != [] ==> rows[0].cid == cid)
    && (forall i | 0 < i < |rows| :: rows[i].cid == Predecessor(rows[i - 1].prevTreeCID))
  }

  predicate Matches(r: Report, data: ReportData) {
    r.blockNumber == data.blockNumber && r.timestamp == data.timestamp && r.prevTreeCID == data.prevTreeCID
  }

  predicate CidsAreUnique(s: Store) {
    forall i, j | 0 <= i < j < |s.reports| :: s.reports[i].cid != s.reports[j].cid
  }

  /**
   A run appends one linked stretch of reports that starts at the CID it was
   given.
   */
  lemma {:induction false} SyncStoresLinkedReports(w: World, limit: int, s: Store, cid: string, fetched: nat)
    ensures var t := Sync(w, limit, s, cid, fetched).0;
            s.reports <= t.reports && Linked(t.reports[|s.reports|..], cid)
    decreases |w.published.Keys - Cids(s)|
  {
    SyncOnlyAdds(w, limit, s, cid, fetched);
    if Saves(w, s, cid) {
      var data := w.published[cid];
      var m := Saved(w, s, cid, data);
      SyncUnfolds(w, limit, s, cid, fetched);
      SyncOnlyAdds(w, limit, m, Predecessor(data.prevTreeCID), fetched + 1);
      SyncStoresLinkedReports(w, limit, m, Predecessor(data.prevTreeCID), fetched + 1);
      LinkedFront(Sync(w, limit, s, cid, fetched).0.reports, |s.reports|, cid);
    }
  }

  ghost predicate Published(w: World, r: Report) {
    r.cid in w.published && Matches(r, w.published[r.cid])
  }

  /** It goes no further than the first report below the limit: only the last report of a run can be. */
  lemma {:induction false} OnlyLastIsBelowLimit(w: World, limit: int, s: Store, cid: string, fetched: nat, i: nat)
    requires |s.reports| <= i && i + 1 < |Sync(w, limit, s, cid, fetched).0.reports|
    ensures limit <= Sync(w, limit, s, cid, fetched).0.reports[i].blockNumber
    decreases |w.published.Keys - Cids(s)|
  {
    if Saves(w, s, cid) {
      var data := w.published[cid];
      var t := Saved(w, s, cid, data);
      SyncUnfolds(w, limit, s, cid, fetched);
      SyncOnlyAdds(w, limit, t, Predecessor(data.prevTreeCID), fetched + 1);
      if i > |s.reports| {
        OnlyLastIsBelowLimit(w, limit, t, Predecessor(data.prevTreeCID), fetched + 1, i);
      } else {
        assert t.reports[i] == RowOf(s, cid, data);
      }
    }
  }

  /** It stores no report twice. */
  lemma {:induction false} SyncStoresOnce(w: World, limit: int, s: Store, cid: string, fetched: nat)
    requires CidsAreUnique(s)
    ensures CidsAreUnique(Sync(w, limit, s, cid, fetched).0)
    decreases |w.published.Keys - Cids(s)|
  {
    if Saves(w, s, cid) {
      var data := w.published[cid];
      SavingShrinksTheRest(w, s, cid);
      var u := SyncStep(w, limit, s, cid, fetched);
      assert CidsAreUnique(Saved(w, s, cid, data));
      SyncStoresOnce(w, limit, Saved(w, s, cid, data), Predecessor(data.prevTreeCID), fetched + 1);
    }
  }

  /** Each report it stores is as it was published. */
  lemma {:induction false} SyncStoresAsPublished(w: World, limit: int, s: Store, cid: string, fetched: nat, r: Report)
    requires r in Sync(w, limit, s, cid, fetched).0.reports && r !in s.reports
    ensures Published(w, r)
    decreases |w.published.Keys - Cids(s)|
  {
    if Saves(w, s, cid) {
      var data := w.published[cid];
      SavingShrinksTheRest(w, s, cid);
      var u := SyncStep(w, limit, s, cid, fetched);
      if r !in Saved(w, s, cid, data).reports {
        SyncStoresAsPublished(w, limit, Saved(w, s, cid, data), Predecessor(data.prevTreeCID), fetched + 1, r);
      }
    }
  }

  lemma LinkedFront(rows: seq<Report>, n: nat, cid: string)
    requires n < |rows| && rows[n].cid == cid
    requires |rows| > n + 1 ==> Linked(rows[n + 1..], Predecessor(rows[n].prevTreeCID))
    ensures Linked(rows[n..], cid)
  {
    var front, rest := rows[n..], rows[n + 1..];
    forall i | 0 < i < |front| ensures front[i].cid == Predecessor(front[i - 1].prevTreeCID) {
      assert front[i] == rest[i - 1];
      assert i > 1 ==> front[i - 1] == rest[i - 2];
    }
  }

  /** Every stored report is as published and has all its leaves. */
  ghost predicate Complete(book: map<string, ReportData>, s: Store) {
    forall x :: IsComplete(book, s, x)
  }

  ghost predicate IsComplete(book: map<string, ReportData>, s: Store, x: string) {
    if Stored(s, x) then x in book && LeavesOf(s, x) == Upserted(map[], book[x].values) else LeavesOf(s, x) == map[]
  }

  /** Saving one more report keeps every stored report complete exactly when none of its leaves is lost. */
  lemma SavedIsCompleteIff(book: map<string, ReportData>, w: World, s: Store, cid: string)
    requires Complete(book, s) && !Stored(s, cid) && cid in book && cid in w.published && w.published[cid] == book[cid]
    ensures Complete(book, Saved(w, s, cid, book[cid])) <==> !LosesLeaves(w, cid)
    ensures !LeavesFail(w, cid, book[cid].values) ==> !LosesLeaves(w, cid)
  {
    var t := Saved(w, s, cid, book[cid]);
    SavedKeepsStored(w, s, cid, book[cid], cid);
    assert IsComplete(book, s, cid);
    assert LeavesOf(t, cid) == Upserted(map[], LeavesKept(w, cid, book[cid].values));
    if !LosesLeaves(w, cid) {
      forall x ensures IsComplete(book, t, x) {
        SavedKeepsStored(w, s, cid, book[cid], x);
        assert IsComplete(book, s, x);
      }
    } else {
      assert !IsComplete(book, t, cid);
    }
    assert !LeavesFail(w, cid, book[cid].values) ==> LeavesKept(w, cid, book[cid].values) == book[cid].values;
  }

  /** Every run sees the same report under one CID: CIDs are content addresses. */
  ghost predicate ReadsBook(book: map<string, ReportData>, w: World) {
    w.published.Keys <= book.Keys && forall x | x in w.published :: w.published[x] == book[x]
  }

  lemma KeepsAllLeavesFront(w: World, r: Report, rest: seq<Report>)
    ensures KeepsAllLeaves(w, [r] + rest) <==>
              || r.cid in w.saveFails
              || (if LeavesFailOf(w, r.cid) then !LosesLeaves(w, r.cid) else KeepsAllLeaves(w, rest))
  {
    assert ([r] + rest)[1..] == rest;
  }

  lemma {:induction false} WalkKeepsCompleteIff(book: map<string, ReportData>, w: World, limit: int, s: Store, cid: string, fetched: nat)
    requires Complete(book, s) && ReadsBook(book, w)
    ensures Complete(book, Sync(w, limit, s, cid, fetched).0) <==> KeepsAllLeaves(w, Intended(w, limit, s, cid, fetched).0)
    decreases |w.published.Keys - Cids(s)|
  {
    if Saves(w, s, cid) {
      var data := w.published[cid];
      var next, t := Predecessor(data.prevTreeCID), Saved(w, s, cid, data);
      SyncUnfolds(w, limit, s, cid, fetched);
      IntendedUnfolds(w, limit, s, cid, fetched);
      SavedIsCompleteIff(book, w, s, cid);
      KeepsAllLeavesFront(w, RowOf(s, cid, data), Intended(w, limit, t, next, fetched + 1).0);
      KeepsAllLeavesFront(w, RowOf(s, cid, data), []);
      assert [RowOf(s, cid, data)] + [] == [RowOf(s, cid, data)];
      if !LeavesFail(w, cid, data.values) && !StopsAfter(limit, data, fetched) {
        WalkKeepsCompleteIff(book, w, limit, t, next, fetched + 1);
      }
    } else if Reaches(w, s, cid) {
      FailedSaveIsIntended(w, limit, s, cid, fetched);
    } else {
      NothingIntended(w, limit, s, cid, fetched);
    }
  }

  /**
   One run over complete reports, whatever fails: every stored report has all its leaves afterwards exactly when the
   first save to fail in the stretch the run sets out to store, if any does, is that of a report, or one of leaves that
   the table has anyway.
   */
  lemma RunKeepsCompleteIff(book: map<string, ReportData>, w: World, limit: int, s: Store)
    requires Complete(book, s) && ReadsBook(book, w)
    ensures Complete(book, Sync(w, limit, s, w.latest, 0).0) <==> KeepsAllLeaves(w, Intended(w, limit, s, w.latest, 0).0)
  {
    WalkKeepsCompleteIff(book, w, limit, s, w.latest, 0);
  }

  /** In particular while no run gives up. */
  lemma {:induction false} SyncKeepsComplete(book: map<string, ReportData>, w: World, limit: int, s: Store, cid: string, fetched: nat)
    requires Complete(book, s) && ReadsBook(book, w)
    requires Sync(w, limit, s, cid, fetched).1
    ensures Complete(book, Sync(w, limit, s, cid, fetched).0)
    decreases |w.published.Keys - Cids(s)|
  {
    if !(cid == "" || Stored(s, cid)) {
      var data := w.published[cid];
      SyncUnfolds(w, limit, s, cid, fetched);
      SavedIsCompleteIff(book, w, s, cid);
      if !StopsAfter(limit, data, fetched) {
        SyncKeepsComplete(book, w, limit, Saved(w, s, cid, data), Predecessor(data.prevTreeCID), fetched + 1);
      }
    }
  }

  /**
   A run that loses leaves for good: the report row is stored and the save of its leaves fails. The next run, with
   nothing failing any more, finds the row and does nothing.
   */
  lemma LostLeavesStayLost()
    ensures var book := map["a" := ReportData(10, 1, "", [Leaf("v", 7, 0)])];
            var w := World("a", book, {}, map["a" := 0]);
            var t := Sync(w, 1, Store([], map[]), w.latest, 0).0;
            && Complete(book, Store([], map[])) && ReadsBook(book, w)
            && Stored(t, "a") && LeavesOf(t, "a") == map[] && !Complete(book, t)
            && Sync(w.(leavesFail := map[]), 1, t, w.latest, 0) == (t, true)
  {
    var book := map["a" := ReportData(10, 1, "", [Leaf("v", 7, 0)])];
    var w := World("a", book, {}, map["a" := 0]);
    var s := Store([], map[]);
    var values := book["a"].values;
    assert ChunksKept(Some(0), values, 0) == 0 && LeavesKept(w, "a", values) == [];
    SyncUnfolds(w, 1, s, "a", 0);
    var t := Saved(w, s, "a", book["a"]);
    SavedKeepsStored(w, s, "a", book["a"], "a");
    assert values[..0] == [] && Upserted(map[], values) == map["v" := values[0]];
    assert !IsComplete(book, t, "a");
  }

  // ---- Whole histories ----

  datatype Activity = Tick(world: World) | ReportEvent(cid: string, world: World)

  /** The event handler stores the one report it was told about. */
  function OnReportEvent(w: World, s: Store, cid: string): Store {
    if cid !in w.published || cid in w.saveFails then s
    else if Stored(s, cid) then SavedLeaves(s, cid, LeavesKept(w, cid, w.published[cid].values))
    else Saved(w, s, cid, w.published[cid])
  }

  function Play(limit: int, s: Store, history: seq<Activity>): Store
    decreases |history|
  {
    if history == [] then s
    else
      var before := Play(limit, s, history[..|history| - 1]);
      match history[|history| - 1]
      case Tick(w) => Sync(w, limit, before, w.latest, 0).0
      case ReportEvent(cid, w) => OnReportEvent(w, before, cid)
  }

  /**
   An event about a report that is not stored yet keeps the tail closed exactly
   when the report before it is stored, absent, or out of range.
   */
  lemma EventKeepsTailClosedIff(w: World, limit: int, s: Store, cid: string)
    requires TailClosed(s, limit) && !Stored(s, cid) && cid in w.published && cid !in w.saveFails
    ensures var prev := Predecessor(w.published[cid].prevTreeCID);
            TailClosed(OnReportEvent(w, s, cid), limit) <==>
              prev == "" || prev == cid || Stored(s, prev) || limit > w.published[cid].blockNumber
  {
    var data := w.published[cid];
    OnlyLastIsOpen(w, limit, s, cid, data);
    SavedKeepsStored(w, s, cid, data, Predecessor(data.prevTreeCID));
  }

  /** An event that leaves the tail open: it announces a report whose predecessor was missed. */
  lemma EventLeavesTailOpen()
    ensures var w := World("b", map["b" := ReportData(20, 2, "a", [])], {}, map[]);
            TailClosed(Store([], map[]), 1) && !TailClosed(OnReportEvent(w, Store([], map[]), "b"), 1)
  {
    var w := World("b", map["b" := ReportData(20, 2, "a", [])], {}, map[]);
    assert Predecessor("a") == "a";
    EventKeepsTailClosedIff(w, 1, Store([], map[]), "b");
  }

  /** Only an event can give a stored report its leaves back: one whose fetch and saves go through stores them again. */
  lemma EventRestoresLeaves(w: World, s: Store, cid: string)
    requires Stored(s, cid) && cid in w.published && cid !in w.saveFails && !LeavesFailOf(w, cid)
    ensures var t := OnReportEvent(w, s, cid);
            && t.reports == s.reports
            && LeavesOf(t, cid) == Upserted(LeavesOf(s, cid), w.published[cid].values)
            && forall x | x != cid :: LeavesOf(t, x) == LeavesOf(s, x)
  {
    assert LeavesKept(w, cid, w.published[cid].values) == w.published[cid].values;
  }

  /**
   The missing report is not the one the activity starts from, and every published report that has it for its
   predecessor is stored, so no walk can step onto it.
   */
  ghost predicate Avoids(s: Store, a: Activity, gap: string) {
    match a
    case Tick(w) => w.latest != gap && Shielded(w, s, gap)
    case ReportEvent(cid, _) => cid != gap
  }

  ghost predicate Shielded(w: World, s: Store, gap: string) {
    forall x | x in w.published && Predecessor(w.published[x].prevTreeCID) == gap :: Stored(s, x)
  }

  /** However many new reports a walk stores, it stops above the missing one. */
  lemma {:induction false} WalkMissesGap(w: World, limit: int, s: Store, cid: string, fetched: nat, gap: string)
    requires cid != gap && Shielded(w, s, gap) && !Stored(s, gap)
    ensures !Stored(Sync(w, limit, s, cid, fetched).0, gap)
    decreases |w.published.Keys - Cids(s)|
  {
    if Saves(w, s, cid) {
      var data := w.published[cid];
      var t := Saved(w, s, cid, data);
      SyncUnfolds(w, limit, s, cid, fetched);
      SavedKeepsStored(w, s, cid, data, gap);
      forall x | x in w.published && Predecessor(w.published[x].prevTreeCID) == gap
        ensures Stored(t, x)
      {
        SavedKeepsStored(w, s, cid, data, x);
      }
      WalkMissesGap(w, limit, t, Predecessor(data.prevTreeCID), fetched + 1, gap);
    }
  }

  /**
   A gap never heals. Whatever runs and events follow, and however many reports arrive between them, the missing
   report is not stored and the tail stays open, unless it is announced itself or a new report names it as its
   predecessor.
   */
  lemma {:induction false} GapNeverHeals(limit: int, s: Store, history: seq<Activity>, at: nat)
    requires at < |s.reports| && !EndsAt(s, limit, s.reports[at])
    requires forall k | 0 <= k < |history| ::
               Avoids(Play(limit, s, history[..k]), history[k], Predecessor(s.reports[at].prevTreeCID))
    ensures var t := Play(limit, s, history);
            && s.reports <= t.reports
            && !Stored(t, Predecessor(s.reports[at].prevTreeCID))
            && !TailClosed(t, limit)
    decreases |history|
  {
    var gap := Predecessor(s.reports[at].prevTreeCID);
    if history != [] {
      var shorter := history[..|history| - 1];
      forall k | 0 <= k < |shorter| ensures Avoids(Play(limit, s, shorter[..k]), shorter[k], gap) {
        assert shorter[..k] == history[..k];
      }
      GapNeverHeals(limit, s, shorter, at);
      var before := Play(limit, s, shorter);
      assert Avoids(before, history[|history| - 1], gap);
      match history[|history| - 1] {
        case Tick(w) =>
          WalkMissesGap(w, limit, before, w.latest, 0, gap);
          SyncOnlyAdds(w, limit, before, w.latest, 0);
        case ReportEvent(cid, w) =>
          if cid in w.published && !Stored(before, cid) {
            SavedKeepsStored(w, before, cid, w.published[cid], gap);
          }
      }
    }
    var t := Play(limit, s, history);
    assert t.reports[at] == s.reports[at] && !EndsAt(t, limit, t.reports[at]);
  }

  // ---- The job ----

  class ReportService {
    var reports: seq<Report>
    var leaves: map<string, Leaves>

    ghost function Tables(): Store
      reads this
    {
      Store(reports, leaves)
    }

    constructor ()
      ensures Tables() == Store([], map[])
    {
      reports, leaves := [], map[];
    }

    method ExistsByCid(cid: string) returns (found: bool)
      ensures found == Stored(Tables(), cid)
    {
      found := false;
      for i := 0 to |reports|
        invariant found <==> exists j | 0 <= j < i :: reports[j].cid == cid
      {
        if reports[i].cid == cid {
          found := true;
        }
      }
    }

    method SaveReport(cid: string, data: ReportData)
      modifies this`reports
      ensures Tables() == SavedReport(old(Tables()), cid, data)
    {
      var found := ExistsByCid(cid);
      if !found {
        reports := reports + [Report(|reports|, cid, data.blockNumber, data.timestamp, data.prevTreeCID)];
      }
    }

    /** One upsert per chunk of leaves, up to the first that fails: on its own at `failAt`, or on a repeated vault. */
    method SaveLeaves(cid: string, values: seq<Leaf>, failAt: Option<nat>) returns (ok: bool)
      modifies this`leaves
      ensures ok <==> !SaveFails(failAt, values)
      ensures Tables() == SavedLeaves(old(Tables()), cid, KeptLeaves(failAt, values))
    {
      ghost var start := LeavesOf(Tables(), cid);
      ghost var kept;
      leaves := leaves[cid := if cid in leaves then leaves[cid] else map[]];
      ok, kept := SaveChunks(cid, values, failAt);
      assert leaves == old(leaves)[cid := Upserted(start, FirstChunks(values, kept))];
    }

    /** The loop over the chunks. */
    method SaveChunks(cid: string, values: seq<Leaf>, failAt: Option<nat>) returns (ok: bool, ghost kept: nat)
      requires cid in leaves
      modifies this`leaves
      ensures kept == ChunksKept(failAt, values, 0) && (ok <==> kept * LEAF_BATCH_SIZE >= |values|)
      ensures leaves == old(leaves)[cid := Upserted(old(leaves[cid]), FirstChunks(values, kept))]
    {
      ghost var start, tables := leaves[cid], leaves;
      var chunk := 0;
      ok := true;
      assert FirstChunks(values, 0) == [];
      while ok && chunk * LEAF_BATCH_SIZE < |values|
        invariant ChunksKept(failAt, values, 0) == if ok then ChunksKept(failAt, values, chunk) else chunk
        invariant !ok ==> chunk * LEAF_BATCH_SIZE < |values|
        invariant leaves == tables[cid := Upserted(start, FirstChunks(values, chunk))]
        decreases |values| - chunk * LEAF_BATCH_SIZE, ok
      {
        ok := SaveChunk(cid, values, chunk, failAt);
        if ok {
          OneMoreChunk(tables, cid, start, values, chunk);
          chunk := chunk + 1;
        }
      }
      kept := chunk;
    }

    method SaveChunk(cid: string, values: seq<Leaf>, chunk: nat, failAt: Option<nat>) returns (ok: bool)
      requires cid in leaves && chunk * LEAF_BATCH_SIZE < |values|
      modifies this`leaves
      ensures ok <==> !ChunkFails(failAt, values, chunk)
      ensures leaves == if ok then old(leaves)[cid := Upserted(old(leaves[cid]), Chunk(values, chunk))] else old(leaves)
    {
      ok := failAt != Some(chunk) && !Repeats(Chunk(values, chunk));
      if ok {
        UpsertChunk(cid, Chunk(values, chunk));
      }
    }

    method UpsertChunk(cid: string, values: seq<Leaf>)
      requires cid in leaves
      modifies this`leaves
      ensures leaves == old(leaves)[cid := Upserted(old(leaves[cid]), values)]
    {
      for i := 0 to |values|
        invariant leaves == old(leaves)[cid := Upserted(old(leaves[cid]), values[..i])]
      {
        assert values[..i + 1][..i] == values[..i];
        leaves := leaves[cid := leaves[cid][values[i].vaultAddress := values[i]]];
      }
      assert values[..|values|] == values;
    }

    /** Fetching and saving one report that is not stored yet. */
    method FetchAndSave(w: World, cid: string) returns (ok: bool)
      requires !Stored(Tables(), cid)
      modifies this
      ensures cid !in w.published || cid in w.saveFails ==> !ok && Tables() == old(Tables())
      ensures cid in w.published && cid !in w.saveFails ==>
                && ok == !LeavesFail(w, cid, w.published[cid].values)
                && Tables() == Saved(w, old(Tables()), cid, w.published[cid])
    {
      if cid !in w.published || cid in w.saveFails {
        return false;
      }
      var data := w.published[cid];
      SaveReport(cid, data);
      ok := SaveLeaves(cid, data.values, FailAt(w, cid));
    }

    method FetchAllReports(w: World, blockLimit: int) returns (ok: bool)
      modifies this
      ensures (Tables(), ok) == Sync(w, blockLimit, old(Tables()), w.latest, 0)
    {
      var fetchedCount := 0;
      var cid := w.latest;
      ghost var goal := Sync(w, blockLimit, Tables(), cid, 0);
      while cid != ""
        invariant Sync(w, blockLimit, Tables(), cid, fetchedCount) == goal
        decreases |w.published.Keys - Cids(Tables())|, |cid|
      {
        ghost var before := Tables();
        var stored := ExistsByCid(cid);
        if stored {
          break;
        }
        SyncUnfolds(w, blockLimit, before, cid, fetchedCount);
        ok := FetchAndSave(w, cid);
        if !ok {
          return;
        }
        var data := w.published[cid];
        fetchedCount := fetchedCount + 1;
        cid := Predecessor(data.prevTreeCID);
        if blockLimit < 1 && fetchedCount >= 2 {
          return;
        }
        if blockLimit > data.blockNumber {
          return;
        }
      }
      ok := true;
    }
  }
}
