/**
 * MachineController::totalRunningPercentage: the running fraction of a run
 * history.
 *
 * Each adjacent pair of tag-9 rows adds the whole hours between them,
 * rounded toward zero, to the running total when the earlier row's flag is
 * 1 and to the stopped total otherwise; the result is running over the sum
 * of both, or 0 when that sum is 0. PHP's float result is an exact `real`
 * here.
 */
module Utilisation {
  import opened Common

  /** The two accumulators `$ret[0]` (running hours) and `$ret[1]` (stopped hours). */
  datatype Hours = Hours(running: int, stopped: int)

  /** `(int)($seconds_diff / 3600)` for the pair ending at index k. */
  function GapHours(data: seq<RunSample>, k: nat): int
    requires 0 < k < |data|
  {
    TruncDiv(data[k].timestamp - data[k - 1].timestamp, SecondsPerHour)
  }

  /** The totals after the pairs ending at indices 1 .. k-1. */
  function HoursUpTo(data: seq<RunSample>, k: nat): Hours
    requires k <= |data|
  {
    if k <= 1 then Hours(0, 0)
    else
      var h := HoursUpTo(data, k - 1);
      var d := GapHours(data, k - 1);
      if data[k - 2].flag == 1 then Hours(h.running + d, h.stopped) else Hours(h.running, h.stopped + d)
  }

  function HoursOf(data: seq<RunSample>): Hours
  {
    HoursUpTo(data, |data|)
  }

  /** `$ret[0] / ($ret[0] + $ret[1])`, or 0 when the denominator is 0. */
  function Ratio(h: Hours): (r: real)
    ensures h.running >= 0 && h.stopped >= 0 ==> 0.0 <= r <= 1.0
    ensures h.running + h.stopped == 0 ==> r == 0.0
    ensures h.running + h.stopped != 0 ==> r * (h.running + h.stopped) as real == h.running as real
  {
    if h.running + h.stopped != 0 then h.running as real / (h.running + h.stopped) as real else 0.0
  }

  /** The source's `foreach`, keyed from index 0, skipping key 0. */
  method TotalRunningPercentage(data: seq<RunSample>) returns (ratio: real)
    ensures ratio == Ratio(HoursOf(data))
  {
    var ret := [0, 0];
    for key := 0 to |data|
      invariant |ret| == 2
      invariant Hours(ret[0], ret[1]) == HoursUpTo(data, key)
    {
      if key > 0 {
        var secondsDiff := data[key].timestamp - data[key - 1].timestamp;
        var hoursDiff := TruncDiv(secondsDiff, 3600);
        var isPreviousRunning := data[key - 1].flag == 1;
        if isPreviousRunning {
          ret := ret[0 := ret[0] + hoursDiff];
        } else {
          ret := ret[1 := ret[1] + hoursDiff];
        }
      }
    }
    if ret[0] + ret[1] != 0 {
      ratio := ret[0] as real / (ret[0] + ret[1]) as real;
    } else {
      ratio := 0.0;
    }
  }

  /** Timestamps never decrease along the history. */
  predicate Ordered(data: seq<RunSample>)
  {
    forall k :: 0 < k < |data| ==> data[k - 1].timestamp <= data[k].timestamp
  }

  /** The hours of every pair, whatever its state. */
  function AllGapHours(data: seq<RunSample>, k: nat): int
    requires k <= |data|
  {
    if k <= 1 then 0 else AllGapHours(data, k - 1) + GapHours(data, k - 1)
  }

  /** Every pair is counted once, on one side or the other. */
  lemma {:induction false} HoursSplitAllGaps(data: seq<RunSample>, k: nat)
    requires k <= |data|
    ensures HoursUpTo(data, k).running + HoursUpTo(data, k).stopped == AllGapHours(data, k)
  {
    if k > 1 {
      HoursSplitAllGaps(data, k - 1);
    }
  }

  /** On an ordered history both totals are non-negative. */
  lemma {:induction false} OrderedHoursNonNegative(data: seq<RunSample>, k: nat)
    requires k <= |data| && Ordered(data)
    ensures HoursUpTo(data, k).running >= 0 && HoursUpTo(data, k).stopped >= 0
  {
    if k > 1 {
      OrderedHoursNonNegative(data, k - 1);
    }
  }

  /**
   * On an ordered history the counted hours never exceed the whole hours
   * of the span from the first row to the last.
   */
  lemma {:induction false} CountedHoursWithinSpan(data: seq<RunSample>, k: nat)
    requires 0 < k <= |data| && Ordered(data)
    ensures 0 <= AllGapHours(data, k) <= (data[k - 1].timestamp - data[0].timestamp) / SecondsPerHour
  {
    if k > 1 {
      CountedHoursWithinSpan(data, k - 1);
      var a := data[k - 2].timestamp - data[0].timestamp;
      var b := data[k - 1].timestamp - data[k - 2].timestamp;
      TruncDivOfNatural(b, SecondsPerHour);
      FloorsAdd(a, b, SecondsPerHour);
    }
  }

  lemma FloorsAdd(a: int, b: int, n: int)
    requires a >= 0 && b >= 0 && n > 0
    ensures a / n + b / n <= (a + b) / n
  {
    var q := a / n + b / n;
    var r := a % n + b % n;
    assert a + b == n * q + r;
    if r < n {
      DivUnique(a + b, n, q, r);
    } else {
      DivUnique(a + b, n, q + 1, r - n);
    }
  }

  /** On an ordered history the running fraction lies in [0, 1]. */
  lemma OrderedRatioInUnitInterval(data: seq<RunSample>)
    requires Ordered(data)
    ensures 0.0 <= Ratio(HoursOf(data)) <= 1.0
  {
    OrderedHoursNonNegative(data, |data|);
  }

  /** With fewer than two rows there is no pair and the fraction is 0. */
  lemma NoPairsZeroRatio(data: seq<RunSample>)
    requires |data| <= 1
    ensures HoursOf(data) == Hours(0, 0) && Ratio(HoursOf(data)) == 0.0
  {
  }

  /** When every pair starts in the running state nothing is stopped. */
  lemma {:induction false} AlwaysRunningNothingStopped(data: seq<RunSample>, k: nat)
    requires k <= |data|
    requires forall j :: 0 <= j < |data| - 1 ==> data[j].flag == 1
    ensures HoursUpTo(data, k).stopped == 0
  {
    if k > 1 {
      AlwaysRunningNothingStopped(data, k - 1);
    }
  }

  /**
   * Rows at 0 (running), 3600 (stopped) and 7200 (running): one running
   * hour, one stopped hour, a fraction of one half. The span after the last
   * row does not count here, unlike in the downtime distribution.
   */
  lemma ThreeRowScenario()
    ensures HoursOf([RunSample(0, 1), RunSample(3600, 0), RunSample(7200, 1)]) == Hours(1, 1)
    ensures Ratio(HoursOf([RunSample(0, 1), RunSample(3600, 0), RunSample(7200, 1)])) == 0.5
  {
    var data := [RunSample(0, 1), RunSample(3600, 0), RunSample(7200, 1)];
    assert HoursUpTo(data, 2) == Hours(1, 0);
  }

  /**
   * The caller fetches the rows without ordering them. Rows at 0 (running),
   * 7200 (stopped) and 3600 (running) give two running hours and
   * (int)(-3600 / 3600) = -1 stopped hour, a "fraction" of 2.
   */
  lemma UnorderedRatioAboveOne()
    ensures !Ordered([RunSample(0, 1), RunSample(7200, 0), RunSample(3600, 1)])
    ensures HoursOf([RunSample(0, 1), RunSample(7200, 0), RunSample(3600, 1)]) == Hours(2, -1)
    ensures Ratio(HoursOf([RunSample(0, 1), RunSample(7200, 0), RunSample(3600, 1)])) == 2.0
  {
    UnorderedHours([RunSample(0, 1), RunSample(7200, 0), RunSample(3600, 1)]);
    assert Ratio(Hours(2, -1)) * 1.0 == 2.0;
  }

  /** The totals of those rows, pair by pair. */
  lemma UnorderedHours(data: seq<RunSample>)
    requires data == [RunSample(0, 1), RunSample(7200, 0), RunSample(3600, 1)]
    ensures !Ordered(data) && HoursOf(data) == Hours(2, -1)
  {
    assert data[1].timestamp > data[2].timestamp;
    assert GapHours(data, 1) == 2 by {
      assert TruncDiv(7200, SecondsPerHour) == 7200 / 3600;
    }
    assert GapHours(data, 2) == -1 by {
      assert TruncDiv(-3600, SecondsPerHour) == -(3600 / 3600);
    }
    assert HoursUpTo(data, 2) == Hours(2, 0);
  }
}
