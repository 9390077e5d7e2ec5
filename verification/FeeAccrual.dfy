/**
 Node operator fees over a history of snapshots, with the sentinel that a
 stopped accrual leaves in `settledGrowth`.
 */
module FeeAccrual {
  /** type(int104).max */
  const MAX_SANE_SETTLED_GROWTH: int := 10141204801825835211973625643007
  const BASIS_POINTS_DENOMINATOR: int := 10000

  datatype Snapshot = Snapshot(accruedFee: int, settledGrowth: int, feeRate: int)

  const EMPTY := Snapshot(0, 0, 0)

  /** Division that truncates toward zero, as on BigInt. */
  function TruncDiv(a: int, b: int): (q: int)
    requires b > 0
    ensures a >= 0 ==> q * b <= a < (q + 1) * b
    ensures a < 0 ==> (q - 1) * b < a <= q * b
  {
    if a >= 0 then a / b else -((-a) / b)
  }

  predicate Stopped(s: Snapshot) {
    s.settledGrowth >= MAX_SANE_SETTLED_GROWTH
  }

  function Neutralize(curr: Snapshot, prev: Snapshot): (r: (Snapshot, Snapshot, bool))
    ensures r.2 <==> Stopped(curr) || Stopped(prev)
  {
    if !Stopped(curr) && !Stopped(prev) then (curr, prev, false) else (EMPTY, EMPTY, true)
  }

  /** The operator's cumulative earnings as the library values them. */
  function Earnings(s: Snapshot): int {
    TruncDiv(s.settledGrowth * s.feeRate, BASIS_POINTS_DENOMINATOR) + s.accruedFee
  }

  function FeeForPeriod(curr: Snapshot, prev: Snapshot): int {
    if Earnings(curr) - Earnings(prev) > 0 then Earnings(curr) - Earnings(prev) else 0
  }

  function Charge(curr: Snapshot, prev: Snapshot): int {
    var pair := Neutralize(curr, prev);
    FeeForPeriod(pair.0, pair.1)
  }

  /** What all neighbouring pairs of a history (oldest first) are charged. */
  function Total(history: seq<Snapshot>): int {
    if |history| < 2 then 0 else Charge(history[1], history[0]) + Total(history[1..])
  }

  lemma StoppedPairIsFree(curr: Snapshot, prev: Snapshot)
    requires Stopped(curr) || Stopped(prev)
    ensures Charge(curr, prev) == 0
  {
    assert Earnings(EMPTY) == 0;
  }

  /** The fee a snapshot holds counts in full, and its growth at the rate per ten thousand, rounded toward zero. */
  lemma EarningsAre(s: Snapshot)
    ensures s.settledGrowth * s.feeRate >= 0 ==>
              (Earnings(s) - s.accruedFee) * 10000 <= s.settledGrowth * s.feeRate < (Earnings(s) - s.accruedFee + 1) * 10000
    ensures s.settledGrowth * s.feeRate < 0 ==>
              (Earnings(s) - s.accruedFee - 1) * 10000 < s.settledGrowth * s.feeRate <= (Earnings(s) - s.accruedFee) * 10000
  {
  }

  /** A pair without a stop is charged its rise in earnings; a fall is forgiven, not refunded. */
  lemma PairIsChargedItsRise(curr: Snapshot, prev: Snapshot)
    requires !Stopped(curr) && !Stopped(prev)
    ensures Earnings(curr) >= Earnings(prev) ==> Charge(curr, prev) == Earnings(curr) - Earnings(prev)
    ensures Earnings(curr) <= Earnings(prev) ==> Charge(curr, prev) == 0
  {
  }

  predicate Running(history: seq<Snapshot>) {
    forall i | 0 <= i < |history| :: !Stopped(history[i])
  }

  predicate NeverLoses(history: seq<Snapshot>) {
    forall i | 0 < i < |history| :: Earnings(history[i - 1]) <= Earnings(history[i])
  }

  function Gain(history: seq<Snapshot>): int {
    if history == [] then 0 else Earnings(history[|history| - 1]) - Earnings(history[0])
  }

  /**
   Over a stretch without a stop the charges add up to last minus first exactly
   when the earnings never fall; a fall is forgiven, so otherwise they exceed it.
   */
  lemma {:induction false} ChargesTelescopeIff(history: seq<Snapshot>)
    requires Running(history)
    ensures Total(history) >= Gain(history)
    ensures Total(history) == Gain(history) <==> NeverLoses(history)
  {
    if |history| >= 2 {
      var rest := history[1..];
      ChargesTelescopeIff(rest);
      assert history[|history| - 1] == rest[|rest| - 1];
      NeverLosesFront(history);
    }
  }

  lemma NeverLosesFront(history: seq<Snapshot>)
    requires |history| >= 2
    ensures NeverLoses(history) <==> Earnings(history[0]) <= Earnings(history[1]) && NeverLoses(history[1..])
  {
    var rest := history[1..];
    if Earnings(history[0]) <= Earnings(history[1]) && NeverLoses(rest) {
      forall i | 0 < i < |history| ensures Earnings(history[i - 1]) <= Earnings(history[i]) {
        assert i > 1 ==> history[i] == rest[i - 1] && history[i - 1] == rest[i - 2];
      }
    }
    if NeverLoses(history) {
      forall i | 0 < i < |rest| ensures Earnings(rest[i - 1]) <= Earnings(rest[i]) {
        assert history[i] == rest[i - 1] && history[i + 1] == rest[i];
      }
    }
  }

  /** A stopped snapshot cuts a history in two that are charged apart. */
  lemma {:induction false} StopSplits(before: seq<Snapshot>, stop: Snapshot, after: seq<Snapshot>)
    requires Stopped(stop)
    ensures Total(before + [stop] + after) == Total(before) + Total(after)
    decreases |before|
  {
    var all := before + [stop] + after;
    if before == [] {
      assert all == [stop] + after && all[1..] == after;
      if after != [] {
        StoppedPairIsFree(after[0], stop);
      }
    } else {
      assert all[1..] == before[1..] + [stop] + after;
      StopSplits(before[1..], stop, after);
      if |before| == 1 {
        assert all[1] == stop;
        StoppedPairIsFree(stop, before[0]);
      } else {
        assert all[1] == before[1];
      }
    }
  }

  /** The stretches between stops, oldest first. */
  function Stretches(history: seq<Snapshot>, open: seq<Snapshot>): seq<seq<Snapshot>>
    decreases |history|
  {
    if history == [] then [open]
    else if Stopped(history[0]) then [open] + Stretches(history[1..], [])
    else Stretches(history[1..], open + [history[0]])
  }

  function Gains(stretches: seq<seq<Snapshot>>): int {
    if stretches == [] then 0 else Gain(stretches[0]) + Gains(stretches[1..])
  }

  /**
   Over any history the charges are at least what the stretches between two stops earned, and nothing for the stops
   themselves; they are exactly that when no stretch ever loses.
   */
  lemma {:induction false} ChargesAreStretchGains(history: seq<Snapshot>, open: seq<Snapshot>)
    requires Running(open)
    ensures Total(open + history) >= Gains(Stretches(history, open))
    ensures Total(open + history) == Gains(Stretches(history, open)) <==> NoneLoses(Stretches(history, open))
    decreases |history|
  {
    if history == [] {
      assert open + history == open;
      assert [open][1..] == [];
      NoneLosesFront(open, []);
      ChargesTelescopeIff(open);
    } else if Stopped(history[0]) {
      var rest := Stretches(history[1..], []);
      assert ([open] + rest)[1..] == rest;
      NoneLosesFront(open, rest);
      assert open + history == open + [history[0]] + history[1..];
      StopSplits(open, history[0], history[1..]);
      ChargesTelescopeIff(open);
      ChargesAreStretchGains(history[1..], []);
      assert [] + history[1..] == history[1..];
    } else {
      assert open + history == open + [history[0]] + history[1..];
      ChargesAreStretchGains(history[1..], open + [history[0]]);
    }
  }

  predicate NoneLoses(stretches: seq<seq<Snapshot>>) {
    forall s | s in stretches :: NeverLoses(s)
  }

  lemma NoneLosesFront(first: seq<Snapshot>, rest: seq<seq<Snapshot>>)
    ensures NoneLoses([first] + rest) <==> NeverLoses(first) && NoneLoses(rest)
  {
    if NoneLoses([first] + rest) {
      assert first in [first] + rest;
      assert forall s | s in rest :: s in [first] + rest;
    }
  }

  /** Without the neutralisation a stop at a rate of 5% would be priced as growth. */
  lemma SentinelWouldBeCharged()
    ensures var prev, curr := Snapshot(0, 0, 500), Snapshot(0, MAX_SANE_SETTLED_GROWTH, 500);
            FeeForPeriod(curr, prev) == 507060240091291760598681282150 && Charge(curr, prev) == 0
  {
    StoppedPairIsFree(Snapshot(0, MAX_SANE_SETTLED_GROWTH, 500), Snapshot(0, 0, 500));
  }
}
