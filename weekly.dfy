/**
 * MachineController::getWeeklyRunningHours: elapsed hours per weekday.
 *
 * From the first tag-9 row the query returns up to "now" (a synthetic row
 * appended at the current time) the source steps in whole hours and counts
 * each tick on its weekday, whatever the run flags say. `date('N', $t)` is
 * read in UTC here: 1970-01-01, day 0, was a Thursday.
 */
module Weekly {
  import opened Common

  const SecondsPerDay: int := 86400

  /** `date('N', $t) - 1` in UTC: Monday is 0 and Sunday 6. */
  function Weekday(t: int): (d: nat)
    ensures d < 7
  {
    (t / SecondsPerDay + 3) % 7
  }

  /** `date('N', $t)`: Monday is 1 and Sunday 7. */
  function IsoWeekday(t: int): (n: int)
    ensures 1 <= n <= 7
  {
    Weekday(t) + 1
  }

  const NoHours: seq<int> := [0, 0, 0, 0, 0, 0, 0]

  /** The number of ticks start, start + 3600, ... strictly below end: ceil((end - start) / 3600), or none. */
  function TickCount(start: int, end: int): nat
  {
    if end <= start then 0 else (end - start + SecondsPerHour - 1) / SecondsPerHour
  }

  /** Tick k is counted exactly when it falls before the end. */
  lemma TickCountMeaning(start: int, end: int, k: nat)
    ensures k < TickCount(start, end) <==> start + k * SecondsPerHour < end
  {
    if end > start {
      var n := TickCount(start, end);
      var d := end - start;
      assert d + SecondsPerHour - 1 == SecondsPerHour * n + (d + SecondsPerHour - 1) % SecondsPerHour;
      MulMonotone(k + 1, n, SecondsPerHour);
      MulMonotone(n, k, SecondsPerHour);
    }
  }

  /** The histogram of the first n ticks from start. */
  function Histogram(start: int, n: nat): (h: seq<int>)
    ensures |h| == 7
  {
    if n == 0 then NoHours
    else
      var h := Histogram(start, n - 1);
      var d := Weekday(start + (n - 1) * SecondsPerHour);
      h[d := h[d] + 1]
  }

  /** The seven slots the source returns for the rows found and the current time. */
  function WeeklyHours(runningValues: seq<RunSample>, now: int): (h: seq<int>)
    ensures |h| == 7
  {
    if runningValues == [] then NoHours
    else Histogram(runningValues[0].timestamp, TickCount(runningValues[0].timestamp, now))
  }

  /** The source's loop over hourly ticks, with `$ret` updated slot by slot. */
  method GetWeeklyRunningHours(runningValues: seq<RunSample>, now: int) returns (ret: seq<int>)
    ensures ret == WeeklyHours(runningValues, now)
  {
    ret := [0, 0, 0, 0, 0, 0, 0];
    var count := |runningValues|;
    if count <= 0 {
      return;
    }
    var currentObject := RunSample(now, runningValues[count - 1].flag);
    var values := runningValues + [currentObject];
    var startTimestamp := values[0].timestamp;
    var endTimestamp := values[count].timestamp;

    var i := startTimestamp;
    ghost var ticks: nat := 0;
    while i < endTimestamp
      invariant i == startTimestamp + ticks * SecondsPerHour
      invariant ticks == 0 || startTimestamp + (ticks - 1) * SecondsPerHour < endTimestamp
      invariant ret == Histogram(startTimestamp, ticks)
      decreases endTimestamp - i
    {
      var weekday := IsoWeekday(i);
      ret := ret[weekday - 1 := ret[weekday - 1] + 1];
      i := i + 3600;
      ticks := ticks + 1;
    }
    TickCountMeaning(startTimestamp, endTimestamp, ticks);
    if ticks > 0 {
      TickCountMeaning(startTimestamp, endTimestamp, ticks - 1);
    }
  }

  function Sum(h: seq<int>): int
  {
    if h == [] then 0 else Sum(h[..|h| - 1]) + h[|h| - 1]
  }

  lemma {:induction false} SumBump(h: seq<int>, d: nat)
    requires d < |h|
    ensures Sum(h[d := h[d] + 1]) == Sum(h) + 1
  {
    var h' := h[d := h[d] + 1];
    assert h'[..|h| - 1] == if d < |h| - 1 then h[..|h| - 1][d := h[d] + 1] else h[..|h| - 1];
    if d < |h| - 1 {
      SumBump(h[..|h| - 1], d);
    }
  }

  /** Every tick lands in exactly one slot: the slots add up to the number of ticks. */
  lemma {:induction false} HistogramTotal(start: int, n: nat)
    ensures Sum(Histogram(start, n)) == n
  {
    if n == 0 {
      assert [0][..0] == [];
      assert [0, 0][..1] == [0];
      assert [0, 0, 0][..2] == [0, 0];
      assert [0, 0, 0, 0][..3] == [0, 0, 0];
      assert [0, 0, 0, 0, 0][..4] == [0, 0, 0, 0];
      assert [0, 0, 0, 0, 0, 0][..5] == [0, 0, 0, 0, 0];
      assert NoHours[..6] == [0, 0, 0, 0, 0, 0];
    } else {
      HistogramTotal(start, n - 1);
      SumBump(Histogram(start, n - 1), Weekday(start + (n - 1) * SecondsPerHour));
    }
  }

  /** No slot is ever negative. */
  lemma {:induction false} HistogramNonNegative(start: int, n: nat)
    ensures forall d :: 0 <= d < 7 ==> Histogram(start, n)[d] >= 0
  {
    if n > 0 {
      HistogramNonNegative(start, n - 1);
    }
  }

  /**
   * With no rows the seven slots are zero; otherwise they add up to the
   * number of hourly ticks from the first row strictly before now, which is
   * ceil((now - first) / 3600) when now is later, else 0.
   */
  lemma WeeklyHoursTotal(runningValues: seq<RunSample>, now: int)
    ensures runningValues == [] ==> WeeklyHours(runningValues, now) == NoHours
    ensures runningValues != [] ==> Sum(WeeklyHours(runningValues, now)) == TickCount(runningValues[0].timestamp, now)
    ensures runningValues != [] && now > runningValues[0].timestamp ==>
      Sum(WeeklyHours(runningValues, now)) == (now - runningValues[0].timestamp + 3599) / 3600
  {
    if runningValues != [] {
      HistogramTotal(runningValues[0].timestamp, TickCount(runningValues[0].timestamp, now));
    }
  }

  /** Neither the run flags nor the later rows matter: only the first row's timestamp and now do. */
  lemma WeeklyHoursIgnoresFlags(a: seq<RunSample>, b: seq<RunSample>, now: int)
    requires (a == []) == (b == []) && (a != [] ==> a[0].timestamp == b[0].timestamp)
    ensures WeeklyHours(a, now) == WeeklyHours(b, now)
  {
  }

  /**
   * Moving the first row by a whole week changes nothing: every tick moves
   * to the same weekday.
   */
  lemma {:induction false} HistogramWeekShift(start: int, n: nat)
    ensures Histogram(start + 7 * SecondsPerDay, n) == Histogram(start, n)
  {
    if n > 0 {
      HistogramWeekShift(start, n - 1);
      var t := start + (n - 1) * SecondsPerHour;
      assert start + 7 * SecondsPerDay + (n - 1) * SecondsPerHour == t + 7 * SecondsPerDay;
      WeekdayWeekShift(t);
    }
  }

  /** A week later is the same weekday. */
  lemma WeekdayWeekShift(t: int)
    ensures Weekday(t + 7 * SecondsPerDay) == Weekday(t)
  {
    DivUnique(t + 7 * SecondsPerDay, SecondsPerDay, t / SecondsPerDay + 7, t % SecondsPerDay);
  }
}
