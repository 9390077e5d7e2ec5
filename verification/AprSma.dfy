/**
 The moving average of a vault's APRs, calculated once by the service and once
 inside the list query.
 */
module AprSma {
  import opened Wrappers

  const VAULT_APR_SMA_DAYS: int := 7
  const SECONDS_PER_DAY: int := 86400

  /** One row of statistics of a vault, with its current report's timestamp. */
  datatype Stat = Stat(cid: string, timestamp: int, anomaly: bool, gross: real, net: real, carry: real)

  datatype Series = Series(sma: real, aprs: seq<real>)

  datatype Sma = Sma(outdated: bool, days: int, count: nat, fromTimestamp: int, toTimestamp: int,
                     meta: seq<(string, int)>, gross: Series, net: Series, carry: Series)

  /** One row of the query's sub-select; absent when the join finds nothing. */
  datatype Averages = Averages(gross: real, net: real, carry: real)

  /** `%` of both languages: the remainder has the sign of the dividend. */
  function Rem(a: int, b: int): (r: int)
    requires b > 0
    ensures -b < r < b && (a >= 0 ==> r >= 0) && (a <= 0 ==> r <= 0)
  {
    if a >= 0 then a % b else -((-a) % b)
  }

  function WindowStart(to: int, days: int): int {
    var from := to - (days - 1) * SECONDS_PER_DAY;
    from - Rem(from, SECONDS_PER_DAY)
  }

  const WINDOW_SECONDS: int := (VAULT_APR_SMA_DAYS - 1) * SECONDS_PER_DAY

  /** The query's own lower bound. */
  function QueryStart(latest: int): int {
    latest - WINDOW_SECONDS - Rem(latest - WINDOW_SECONDS, SECONDS_PER_DAY)
  }

  lemma QueryStartIsWindowStart(latest: int)
    ensures QueryStart(latest) == WindowStart(latest, VAULT_APR_SMA_DAYS)
  {
  }

  predicate InWindow(s: Stat, from: int, to: int) {
    from <= s.timestamp <= to
  }

  /** Rows kept by a query, in its order. */
  function Between(rows: seq<Stat>, from: int, to: int): seq<Stat> {
    if rows == [] then []
    else Between(rows[..|rows| - 1], from, to)
         + (if InWindow(rows[|rows| - 1], from, to) then [rows[|rows| - 1]] else [])
  }

  function Valid(rows: seq<Stat>): seq<Stat> {
    if rows == [] then []
    else Valid(rows[..|rows| - 1]) + (if rows[|rows| - 1].anomaly then [] else [rows[|rows| - 1]])
  }

  /** The greatest timestamp: `ORDER BY timestamp DESC LIMIT 1`, and `MAX(timestamp)`. */
  function Latest(rows: seq<Stat>): (t: Option<int>)
    ensures t.None? <==> rows == []
    ensures t.Some? ==> exists s | s in rows :: s.timestamp == t.value
    ensures t.Some? ==> forall s | s in rows :: s.timestamp <= t.value
  {
    if rows == [] then None
    else
      var last := rows[|rows| - 1];
      var rest := Latest(rows[..|rows| - 1]);
      assert rows == rows[..|rows| - 1] + [last];
      if rest.None? || rest.value < last.timestamp then Some(last.timestamp) else rest
  }

  function Sum(rows: seq<Stat>, of: Stat -> real): real {
    if rows == [] then 0.0 else Sum(rows[..|rows| - 1], of) + of(rows[|rows| - 1])
  }

  function Column(rows: seq<Stat>, of: Stat -> real): (c: seq<real>)
    ensures |c| == |rows| && forall i | 0 <= i < |rows| :: c[i] == of(rows[i])
  {
    if rows == [] then [] else Column(rows[..|rows| - 1], of) + [of(rows[|rows| - 1])]
  }

  function Meta(rows: seq<Stat>): (m: seq<(string, int)>)
    ensures |m| == |rows| && forall i | 0 <= i < |rows| :: m[i] == (rows[i].cid, rows[i].timestamp)
  {
    if rows == [] then [] else Meta(rows[..|rows| - 1]) + [(rows[|rows| - 1].cid, rows[|rows| - 1].timestamp)]
  }

  const Gross: Stat -> real := (s: Stat) => s.gross
  const Net: Stat -> real := (s: Stat) => s.net
  const Carry: Stat -> real := (s: Stat) => s.carry

  // ---- The query ----

  /**
   AVG over the window that ends at the latest row without an anomaly, in
   whatever order the rows are visited.
   */
  function QueryAverages(rows: seq<Stat>): Option<Averages> {
    var latest := Latest(Valid(rows));
    if latest.None? then None
    else
      var used := Between(Valid(rows), QueryStart(latest.value), latest.value);
      if used == [] then None
      else Some(Averages(Sum(used, Gross) / |used| as real, Sum(used, Net) / |used| as real, Sum(used, Carry) / |used| as real))
  }

  // ---- The service ----

  function ZeroData(days: int, from: int, to: int, outdated: bool): Sma {
    Sma(outdated, days, 0, from, to, [], Series(0.0, []), Series(0.0, []), Series(0.0, []))
  }

  /** The rows the service averages. */
  function Used(rows: seq<Stat>, days: int): seq<Stat> {
    var latest := Latest(Valid(rows));
    if latest.None? then [] else Valid(Between(rows, WindowStart(latest.value, days), latest.value))
  }

  /** A zero timestamp is falsy: the service takes it for a missing one. */
  predicate Missing(t: Option<int>) {
    t == None || t == Some(0)
  }

  function Average(used: seq<Stat>, of: Stat -> real): Series
    requires used != []
  {
    Series(Sum(used, of) / |used| as real, Column(used, of))
  }

  function SmaOf(rows: seq<Stat>, days: int): Sma {
    if Missing(Latest(rows)) then ZeroData(days, 0, 0, false)
    else if Missing(Latest(Valid(rows))) then ZeroData(days, 0, Latest(rows).value, true)
    else
      var to := Latest(Valid(rows)).value;
      var used := Used(rows, days);
      var outdated := Latest(rows).value != to;
      if used == [] then ZeroData(days, WindowStart(to, days), to, outdated)
      else Sma(outdated, days, |used|, WindowStart(to, days), to, Meta(used),
               Average(used, Gross), Average(used, Net), Average(used, Carry))
  }

  method GetVaultAprSmaForDays(found: bool, rows: seq<Stat>, days: int) returns (result: Option<Sma>)
    ensures result == if found then Some(SmaOf(rows, days)) else None
  {
    if !found {
      return None;
    }
    var latestTimestamp := Latest(rows);
    if Missing(latestTimestamp) {
      return Some(ZeroData(days, 0, 0, false));
    }
    var toTimestamp := Latest(Valid(rows));
    if Missing(toTimestamp) {
      return Some(ZeroData(days, 0, latestTimestamp.value, true));
    }
    var outdated := latestTimestamp != toTimestamp;
    var fromTimestamp := WindowStart(toTimestamp.value, days);
    var ranged := Between(rows, fromTimestamp, toTimestamp.value);
    if |ranged| == 0 {
      return Some(ZeroData(days, fromTimestamp, toTimestamp.value, outdated));
    }
    var validRows := Valid(ranged);
    if |validRows| == 0 {
      return Some(ZeroData(days, fromTimestamp, toTimestamp.value, outdated));
    }
    var meta, gross, net, carry := Accumulate(validRows);
    result := Some(Sma(outdated, days, |validRows|, fromTimestamp, toTimestamp.value, meta, gross, net, carry));
  }

  method Accumulate(validRows: seq<Stat>) returns (meta: seq<(string, int)>, gross: Series, net: Series, carry: Series)
    requires validRows != []
    ensures meta == Meta(validRows)
    ensures gross == Average(validRows, Gross) && net == Average(validRows, Net) && carry == Average(validRows, Carry)
  {
    meta := [];
    var grossSeries: seq<real>, netSeries: seq<real>, carrySeries: seq<real> := [], [], [];
    var grossSum, netSum, carrySum := 0.0, 0.0, 0.0;
    for i := 0 to |validRows|
      invariant meta == Meta(validRows[..i])
      invariant grossSeries == Column(validRows[..i], Gross) && grossSum == Sum(validRows[..i], Gross)
      invariant netSeries == Column(validRows[..i], Net) && netSum == Sum(validRows[..i], Net)
      invariant carrySeries == Column(validRows[..i], Carry) && carrySum == Sum(validRows[..i], Carry)
    {
      var row := validRows[i];
      assert validRows[..i + 1][..i] == validRows[..i];
      meta := meta + [(row.cid, row.timestamp)];
      grossSeries, netSeries, carrySeries := grossSeries + [row.gross], netSeries + [row.net], carrySeries + [row.carry];
      grossSum, netSum, carrySum := grossSum + row.gross, netSum + row.net, carrySum + row.carry;
    }
    assert validRows[..|validRows|] == validRows;
    gross := Series(grossSum / |validRows| as real, grossSeries);
    net := Series(netSum / |validRows| as real, netSeries);
    carry := Series(carrySum / |validRows| as real, carrySeries);
  }

  // ---- The window ----

  lemma {:induction false} ValidCounts(rows: seq<Stat>, s: Stat)
    ensures multiset(Valid(rows))[s] == if s.anomaly then 0 else multiset(rows)[s]
  {
    if rows != [] {
      assert rows == rows[..|rows| - 1] + [rows[|rows| - 1]];
      ValidCounts(rows[..|rows| - 1], s);
    }
  }

  lemma {:induction false} BetweenCounts(rows: seq<Stat>, from: int, to: int, s: Stat)
    ensures multiset(Between(rows, from, to))[s] == if InWindow(s, from, to) then multiset(rows)[s] else 0
  {
    if rows != [] {
      assert rows == rows[..|rows| - 1] + [rows[|rows| - 1]];
      BetweenCounts(rows[..|rows| - 1], from, to, s);
    }
  }

  lemma UsedIn(rows: seq<Stat>, days: int, s: Stat)
    requires Latest(Valid(rows)).Some?
    ensures var to := Latest(Valid(rows)).value;
            s in Used(rows, days) <==> s in rows && !s.anomaly && InWindow(s, WindowStart(to, days), to)
  {
    var to := Latest(Valid(rows)).value;
    var ranged := Between(rows, WindowStart(to, days), to);
    ValidCounts(ranged, s);
    BetweenCounts(rows, WindowStart(to, days), to, s);
    assert s in Used(rows, days) <==> s in multiset(Valid(ranged));
    assert s in rows <==> s in multiset(rows);
  }

  function Day(timestamp: int): int {
    timestamp / SECONDS_PER_DAY
  }

  /**
   For a window that does not reach before the epoch, the rows averaged are
   exactly the ones without an anomaly in the last `days` UTC days up to the
   latest such row.
   */
  lemma UsedAreLastDays(rows: seq<Stat>, days: int, s: Stat)
    requires Latest(Valid(rows)).Some? && Latest(Valid(rows)).value >= (days - 1) * SECONDS_PER_DAY
    ensures var to := Latest(Valid(rows)).value;
            s in Used(rows, days) <==>
              s in rows && !s.anomaly && s.timestamp <= to && Day(s.timestamp) >= Day(to) - (days - 1)
  {
    UsedIn(rows, days, s);
    WindowStartsAtMidnight(Latest(Valid(rows)).value, days);
  }

  /** The latest of some rows. */
  ghost predicate IsLatest(rows: seq<Stat>, s: Stat) {
    s in rows && forall t | t in rows :: t.timestamp <= s.timestamp
  }

  /** The latest row without an anomaly. */
  ghost predicate IsLatestValid(rows: seq<Stat>, s: Stat) {
    s in rows && !s.anomaly && forall t | t in rows && !t.anomaly :: t.timestamp <= s.timestamp
  }

  /**
   The window reported with the averages ends at the latest valid row, and counts as outdated exactly when some row
   is later than that.
   */
  lemma WindowIsReported(rows: seq<Stat>, days: int, latest: Stat, valid: Stat)
    requires IsLatest(rows, latest) && IsLatestValid(rows, valid) && latest.timestamp != 0 && valid.timestamp != 0
    ensures var sma := SmaOf(rows, days);
            && sma.days == days && sma.toTimestamp == valid.timestamp && (sma.outdated <==> latest.timestamp > valid.timestamp)
  {
    LatestIs(rows, latest);
    forall s: Stat
      ensures s in Valid(rows) <==> s in rows && !s.anomaly
    {
      ValidIs(rows, s);
    }
    LatestIs(Valid(rows), valid);
  }

  /** With anomalies only, the latest row is reported as outdated; without any row nothing is. */
  lemma NothingToReport(rows: seq<Stat>, days: int)
    requires forall s | s in rows :: s.anomaly
    ensures SmaOf(rows, days).count == 0 && SmaOf(rows, days).fromTimestamp == 0 && SmaOf(rows, days).days == days
    ensures rows == [] ==> SmaOf(rows, days).toTimestamp == 0 && !SmaOf(rows, days).outdated
    ensures forall latest | IsLatest(rows, latest) && latest.timestamp != 0 ::
              SmaOf(rows, days).toTimestamp == latest.timestamp && SmaOf(rows, days).outdated
  {
    NothingValid(rows);
    forall latest | IsLatest(rows, latest)
      ensures Latest(rows) == Some(latest.timestamp)
    {
      LatestIs(rows, latest);
    }
  }

  lemma ValidIs(rows: seq<Stat>, s: Stat)
    ensures s in Valid(rows) <==> s in rows && !s.anomaly
  {
    ValidCounts(rows, s);
    assert s in Valid(rows) <==> s in multiset(Valid(rows));
    assert s in rows <==> s in multiset(rows);
  }

  lemma LatestIs(rows: seq<Stat>, latest: Stat)
    requires latest in rows && forall s | s in rows :: s.timestamp <= latest.timestamp
    ensures Latest(rows) == Some(latest.timestamp)
  {
    assert rows != [] && Latest(rows).Some?;
    var s :| s in rows && s.timestamp == Latest(rows).value;
  }

  lemma {:induction false} NothingValid(rows: seq<Stat>)
    requires forall s | s in rows :: s.anomaly
    ensures Valid(rows) == []
  {
    if rows != [] {
      NothingValid(rows[..|rows| - 1]);
    }
  }

  lemma WindowStartsAtMidnight(to: int, days: int)
    requires to >= (days - 1) * SECONDS_PER_DAY
    ensures WindowStart(to, days) == (Day(to) - (days - 1)) * SECONDS_PER_DAY
  {
    var start := to - (days - 1) * SECONDS_PER_DAY;
    assert start == (Day(to) - (days - 1)) * SECONDS_PER_DAY + to % SECONDS_PER_DAY;
  }

  /**
   The window always holds the row that ends it, for a positive number of days.
   Before the epoch the remainder rounds up, which can empty a one-day window.
   */
  lemma UsedIsNeverEmpty(rows: seq<Stat>, days: int)
    requires Valid(rows) != [] && days >= 1 && (days >= 2 || Latest(Valid(rows)).value >= 0)
    ensures Used(rows, days) != []
  {
    var to := Latest(Valid(rows)).value;
    var s :| s in Valid(rows) && s.timestamp == to;
    WindowHoldsItsEnd(to, days);
    ValidCounts(rows, s);
    assert s in multiset(Valid(rows));
    UsedIn(rows, days, s);
  }

  lemma WindowHoldsItsEnd(to: int, days: int)
    requires days >= 1 && (days >= 2 || to >= 0)
    ensures WindowStart(to, days) <= to
  {
  }

  // ---- The two averages agree ----

  lemma {:induction false} FiltersCommute(rows: seq<Stat>, from: int, to: int)
    ensures Valid(Between(rows, from, to)) == Between(Valid(rows), from, to)
  {
    if rows != [] {
      var rest, last := rows[..|rows| - 1], rows[|rows| - 1];
      FiltersCommute(rest, from, to);
      var b, v := Between(rest, from, to), Valid(rest);
      assert (b + [last])[..|b|] == b && (v + [last])[..|v|] == v;
      assert b + [] == b && v + [] == v;
    }
  }

  lemma {:induction false} SumOfSplit(a: seq<Stat>, s: Stat, b: seq<Stat>, of: Stat -> real)
    ensures Sum(a + [s] + b, of) == Sum(a + b, of) + of(s)
    decreases |b|
  {
    if b == [] {
      assert a + [s] + b == a + [s] && (a + [s])[..|a|] == a && a + b == a;
    } else {
      var rest, last := b[..|b| - 1], b[|b| - 1];
      assert (a + [s] + b)[..|a| + |b|] == a + [s] + rest;
      assert (a + b)[..|a + b| - 1] == a + rest;
      SumOfSplit(a, s, rest, of);
    }
  }

  /** An average lies between the bounds of what it averages. */
  lemma AverageIsBetween(used: seq<Stat>, of: Stat -> real, low: real, high: real)
    requires used != [] && forall s | s in used :: low <= of(s) <= high
    ensures low <= Average(used, of).sma <= high
  {
    SumIsBetween(used, of, low, high);
    QuotientIsBetween(Sum(used, of), |used| as real, low, high);
  }

  lemma QuotientIsBetween(x: real, n: real, low: real, high: real)
    requires n > 0.0 && low * n <= x <= high * n
    ensures low <= x / n <= high
  {
    var q := x / n;
    assert q * n == x;
    if q < low {
      TimesIsMonotone(q, low, n);
    } else if high < q {
      TimesIsMonotone(high, q, n);
    }
  }

  lemma TimesIsMonotone(a: real, b: real, n: real)
    requires a < b && n > 0.0
    ensures a * n < b * n
  {
  }

  lemma OneTimesMore(x: real, n: nat)
    ensures x * (n + 1) as real == x * n as real + x
  {
    assert (n + 1) as real == n as real + 1.0;
  }

  lemma {:induction false} SumIsBetween(used: seq<Stat>, of: Stat -> real, low: real, high: real)
    requires forall s | s in used :: low <= of(s) <= high
    ensures low * |used| as real <= Sum(used, of) <= high * |used| as real
  {
    if used != [] {
      var init := used[..|used| - 1];
      SumIsBetween(init, of, low, high);
      assert used[|used| - 1] in used;
      OneTimesMore(low, |init|);
      OneTimesMore(high, |init|);
    }
  }

  lemma WithoutOne(a: seq<Stat>, i: nat)
    requires i < |a|
    ensures a == a[..i] + [a[i]] + a[i + 1..]
    ensures multiset(a[..i] + a[i + 1..]) == multiset(a) - multiset{a[i]}
  {
    assert a == a[..i] + [a[i]] + a[i + 1..];
    assert multiset(a) == multiset(a[..i]) + multiset{a[i]} + multiset(a[i + 1..]);
  }

  lemma WithoutLast(a: seq<Stat>)
    requires a != []
    ensures multiset(a[..|a| - 1]) == multiset(a) - multiset{a[|a| - 1]}
  {
    WithoutOne(a, |a| - 1);
    assert a[..|a| - 1] + a[|a|..] == a[..|a| - 1];
  }

  lemma Find(a: seq<Stat>, s: Stat) returns (i: nat)
    requires s in multiset(a)
    ensures i < |a| && a[i] == s
  {
    i :| i < |a| && a[i] == s;
  }

  lemma SumWithout(a: seq<Stat>, i: nat, of: Stat -> real)
    requires i < |a|
    ensures Sum(a, of) == Sum(a[..i] + a[i + 1..], of) + of(a[i])
  {
    WithoutOne(a, i);
    SumOfSplit(a[..i], a[i], a[i + 1..], of);
  }

  /** A sum does not depend on the order in which a query returns its rows. */
  lemma {:induction false} SumIgnoresOrder(a: seq<Stat>, b: seq<Stat>, of: Stat -> real)
    requires multiset(a) == multiset(b)
    ensures Sum(a, of) == Sum(b, of)
  {
    if a == [] {
      SameElements(a, b);
    } else {
      WithoutLast(a);
      assert a[|a| - 1] in multiset(a);
      var i := Find(b, a[|a| - 1]);
      WithoutOne(b, i);
      SumIgnoresOrder(a[..|a| - 1], b[..i] + b[i + 1..], of);
      SumWithout(b, i, of);
    }
  }

  lemma FiltersIgnoreOrder(a: seq<Stat>, b: seq<Stat>, from: int, to: int)
    requires multiset(a) == multiset(b)
    ensures multiset(Valid(a)) == multiset(Valid(b))
    ensures multiset(Between(a, from, to)) == multiset(Between(b, from, to))
  {
    forall s ensures multiset(Valid(a))[s] == multiset(Valid(b))[s] {
      ValidCounts(a, s);
      ValidCounts(b, s);
    }
    forall s ensures multiset(Between(a, from, to))[s] == multiset(Between(b, from, to))[s] {
      BetweenCounts(a, from, to, s);
      BetweenCounts(b, from, to, s);
    }
  }

  lemma LatestIgnoresOrder(a: seq<Stat>, b: seq<Stat>)
    requires multiset(a) == multiset(b)
    ensures Latest(a) == Latest(b)
  {
    SameElements(a, b);
    if a != [] {
      LatestAtMost(a, b);
      LatestAtMost(b, a);
    }
  }

  lemma LatestAtMost(a: seq<Stat>, b: seq<Stat>)
    requires a != [] && b != [] && forall s | s in a :: s in b
    ensures Latest(a).Some? && Latest(b).Some? && Latest(a).value <= Latest(b).value
  {
    assert Latest(a).Some? && Latest(b).Some?;
    var s :| s in a && s.timestamp == Latest(a).value;
    assert s in b;
  }

  lemma SameElements(a: seq<Stat>, b: seq<Stat>)
    requires multiset(a) == multiset(b)
    ensures |a| == |b| && forall s :: s in a <==> s in b
  {
    assert |a| == |multiset(a)| && |b| == |multiset(b)|;
    forall s ensures s in a <==> s in b {
      assert s in multiset(a) <==> s in multiset(b);
    }
  }

  /**
   What the query averages is what the service would, whatever the order in
   which each reads the rows.
   */
  lemma QueryUsesSameRows(rows: seq<Stat>, order: seq<Stat>)
    requires multiset(rows) == multiset(order) && Valid(rows) != []
    ensures Latest(Valid(order)) == Latest(Valid(rows))
    ensures var to := Latest(Valid(rows)).value;
            multiset(Between(Valid(order), QueryStart(to), to)) == multiset(Used(rows, VAULT_APR_SMA_DAYS))
  {
    FiltersIgnoreOrder(rows, order, 0, 0);
    LatestIgnoresOrder(Valid(rows), Valid(order));
    var to := Latest(Valid(rows)).value;
    QueryStartIsWindowStart(to);
    FiltersCommute(rows, QueryStart(to), to);
    FiltersIgnoreOrder(Valid(rows), Valid(order), QueryStart(to), to);
  }

  predicate Agree(sma: Sma, averages: Option<Averages>) {
    match averages
    case None => sma.count == 0
    case Some(a) => sma.count > 0 && sma.gross.sma == a.gross && sma.net.sma == a.net && sma.carry.sma == a.carry
  }

  lemma SameRowsSameAverage(a: seq<Stat>, b: seq<Stat>, of: Stat -> real)
    requires multiset(a) == multiset(b) && a != []
    ensures b != [] && Average(a, of).sma == Sum(b, of) / |b| as real
  {
    SameElements(a, b);
    SumIgnoresOrder(a, b, of);
  }

  lemma QueryAverageOf(rows: seq<Stat>, order: seq<Stat>)
    requires multiset(rows) == multiset(order) && Valid(rows) != []
    ensures var used := Used(rows, VAULT_APR_SMA_DAYS);
            used != [] && QueryAverages(order) ==
              Some(Averages(Average(used, Gross).sma, Average(used, Net).sma, Average(used, Carry).sma))
  {
    QueryUsesSameRows(rows, order);
    UsedIsNeverEmpty(rows, VAULT_APR_SMA_DAYS);
    var to := Latest(Valid(rows)).value;
    var used, queried := Used(rows, VAULT_APR_SMA_DAYS), Between(Valid(order), QueryStart(to), to);
    SameRowsSameAverage(used, queried, Gross);
    SameRowsSameAverage(used, queried, Net);
    SameRowsSameAverage(used, queried, Carry);
  }

  /**
   The two calculations agree exactly when there is nothing to average or
   neither the latest row nor the latest valid one sits at the epoch, which the
   service mistakes for a missing timestamp.
   */
  lemma AveragesAgreeIff(rows: seq<Stat>, order: seq<Stat>)
    requires multiset(rows) == multiset(order)
    ensures Agree(SmaOf(rows, VAULT_APR_SMA_DAYS), QueryAverages(order)) <==>
              Valid(rows) == [] || (Latest(rows) != Some(0) && Latest(Valid(rows)) != Some(0))
  {
    if Valid(rows) == [] {
      FiltersIgnoreOrder(rows, order, 0, 0);
      SameElements(Valid(rows), Valid(order));
    } else {
      QueryAverageOf(rows, order);
      ValidRowsHaveLatest(rows);
    }
  }

  lemma ValidRowsHaveLatest(rows: seq<Stat>)
    requires Valid(rows) != []
    ensures Latest(rows).Some?
  {
  }

  /** A vault whose only row sits at the epoch: the service finds nothing to average, the query averages it. */
  lemma EpochIsMistakenForMissing(cid: string, apr: real)
    ensures var rows := [Stat(cid, 0, false, apr, apr, apr)];
            SmaOf(rows, VAULT_APR_SMA_DAYS).count == 0 && QueryAverages(rows).Some?
            && !Agree(SmaOf(rows, VAULT_APR_SMA_DAYS), QueryAverages(rows))
  {
    var rows := [Stat(cid, 0, false, apr, apr, apr)];
    assert rows[..0] == [] && Valid(rows) == rows;
    AveragesAgreeIff(rows, rows);
    QueryAverageOf(rows, rows);
  }
}
