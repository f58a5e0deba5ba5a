/**
 * MachineController::getDowntimeDistribution: the run-state segmenter and the
 * downtime classifier.
 *
 * The tag-9 rows that the query found strictly inside the window, the
 * optional row found before it and the machine's downtime plans (each with
 * its date and time of day already resolved to timestamps) are inputs. The
 * one loop of the source walks the rows; each row closes the interval that
 * the previous state opened, and a stopped interval is split into planned
 * seconds (its overlap with the plans) and unplanned seconds (the rest).
 * The specification side names those intervals (Segments) and the totals
 * (Classify); the method is proved to compute exactly Distribution.
 */
module Downtime {
  import opened Common
  import opened Overlap

  /** A downtime plan, its two ends already resolved to timestamps. */
  datatype Plan = Plan(from: int, to: int)

  /** A derived run interval [start, end) tagged with the flag of the state that opened it. */
  datatype Interval = Interval(start: int, end: int, flag: int)
  {
    function Length(): int { end - start }

    /** The source treats an interval as downtime exactly when its flag is 0. */
    predicate Stopped() { flag == 0 }
  }

  /** Planned and unplanned seconds; the idle slot of the result is always 0. */
  datatype Split = Split(planned: int, unplanned: int)

  /** `if(!$start) $start = ...`: a zero bound is replaced by its default. */
  function Defaulted(bound: int, default: int): int
  {
    if bound == 0 then default else bound
  }

  /** The state before the window: the prior row's flag, or running (1) when there is none. */
  function PriorFlag(prior: Option<RunSample>): int
  {
    if prior.Some? then prior.value.flag else 1
  }

  // ---------------------------------------------------------------------------
  // Planned seconds of one stopped interval
  // ---------------------------------------------------------------------------

  /** The sum, plan by plan, of the overlap of [s, e) with each plan. */
  function PlannedIn(s: int, e: int, plans: seq<Plan>): int
  {
    if plans == [] then 0
    else
      var last := plans[|plans| - 1];
      PlannedIn(s, e, plans[..|plans| - 1]) + OverlapInSeconds(s, e, last.from, last.to)
  }

  /** The inner `foreach ($downtime_plans ...)` loop accumulating `$planned`. */
  method PlannedSeconds(s: int, e: int, plans: seq<Plan>) returns (planned: int)
    ensures planned == PlannedIn(s, e, plans)
  {
    planned := 0;
    for k := 0 to |plans|
      invariant planned == PlannedIn(s, e, plans[..k])
    {
      assert plans[..k + 1][..k] == plans[..k];
      planned := planned + OverlapInSeconds(s, e, plans[k].from, plans[k].to);
    }
    assert plans[..|plans|] == plans;
  }

  /** With no plans nothing is planned. */
  lemma NoPlansNothingPlanned(s: int, e: int)
    ensures PlannedIn(s, e, []) == 0
  {
  }

  /** Each plan adds a non-negative overlap, so the planned seconds are never negative. */
  lemma {:induction false} PlannedNonNegative(s: int, e: int, plans: seq<Plan>)
    ensures PlannedIn(s, e, plans) >= 0
  {
    if plans != [] {
      PlannedNonNegative(s, e, plans[..|plans| - 1]);
    }
  }

  /** The seconds covered by at least one plan. */
  function Covered(plans: seq<Plan>): set<int>
  {
    if plans == [] then {}
    else Covered(plans[..|plans| - 1]) + Seconds(plans[|plans| - 1].from, plans[|plans| - 1].to)
  }

  /** No two plans share a second. */
  predicate PairwiseDisjoint(plans: seq<Plan>)
  {
    forall i, j :: 0 <= i < j < |plans| ==>
      OverlapInSeconds(plans[i].from, plans[i].to, plans[j].from, plans[j].to) == 0
  }

  lemma {:induction false} CoveredMembers(plans: seq<Plan>, t: int)
    ensures t in Covered(plans) <==> exists i :: 0 <= i < |plans| && t in Seconds(plans[i].from, plans[i].to)
  {
    if plans != [] {
      var init := plans[..|plans| - 1];
      CoveredMembers(init, t);
      if t in Covered(init) {
        var i :| 0 <= i < |init| && t in Seconds(init[i].from, init[i].to);
        assert plans[i] == init[i];
      }
      if exists i :: 0 <= i < |plans| && t in Seconds(plans[i].from, plans[i].to) {
        var i :| 0 <= i < |plans| && t in Seconds(plans[i].from, plans[i].to);
        if i < |init| {
          assert init[i] == plans[i];
        }
      }
    }
  }

  /**
   * With plans that do not overlap one another, the planned seconds of
   * [s, e) are exactly the seconds of [s, e) that some plan covers.
   */
  lemma {:induction false} DisjointPlannedIsCovered(s: int, e: int, plans: seq<Plan>)
    requires PairwiseDisjoint(plans)
    ensures PlannedIn(s, e, plans) == |Seconds(s, e) * Covered(plans)|
  {
    if plans != [] {
      var init := plans[..|plans| - 1];
      var last := plans[|plans| - 1];
      var a := Seconds(s, e) * Covered(init);
      var b := Seconds(s, e) * Seconds(last.from, last.to);
      assert |a| == PlannedIn(s, e, init) by {
        DisjointPrefix(plans);
        DisjointPlannedIsCovered(s, e, init);
      }
      assert |b| == OverlapInSeconds(s, e, last.from, last.to) by {
        OverlapCountsCommonSeconds(s, e, last.from, last.to);
      }
      assert |a + b| == |a| + |b| by {
        LastApart(plans);
        DisjointUnionSize(a, b);
      }
      assert Seconds(s, e) * Covered(plans) == a + b by {
        IntersectDistributes(Seconds(s, e), Covered(init), Seconds(last.from, last.to));
      }
    }
  }

  lemma DisjointUnionSize(a: set<int>, b: set<int>)
    requires a * b == {}
    ensures |a + b| == |a| + |b|
  {
  }

  lemma IntersectDistributes(x: set<int>, y: set<int>, z: set<int>)
    ensures x * (y + z) == x * y + x * z
  {
  }

  /** Dropping the last plan keeps the rest pairwise disjoint. */
  lemma DisjointPrefix(plans: seq<Plan>)
    requires plans != [] && PairwiseDisjoint(plans)
    ensures PairwiseDisjoint(plans[..|plans| - 1])
  {
    var init := plans[..|plans| - 1];
    forall i, j | 0 <= i < j < |init|
      ensures OverlapInSeconds(init[i].from, init[i].to, init[j].from, init[j].to) == 0
    {
      assert init[i] == plans[i] && init[j] == plans[j];
    }
  }

  /** The last plan shares no second with the seconds the others cover. */
  lemma LastApart(plans: seq<Plan>)
    requires plans != [] && PairwiseDisjoint(plans)
    ensures Covered(plans[..|plans| - 1]) * Seconds(plans[|plans| - 1].from, plans[|plans| - 1].to) == {}
  {
    var init := plans[..|plans| - 1];
    var last := plans[|plans| - 1];
    forall t | t in Covered(init)
      ensures t !in Seconds(last.from, last.to)
    {
      CoveredMembers(init, t);
      var i :| 0 <= i < |init| && t in Seconds(init[i].from, init[i].to);
      assert init[i] == plans[i];
      OverlapCountsCommonSeconds(plans[i].from, plans[i].to, last.from, last.to);
      assert t !in Seconds(plans[i].from, plans[i].to) * Seconds(last.from, last.to);
    }
  }

  /**
   * With non-overlapping plans the planned seconds of a stopped interval
   * never exceed its length, so its unplanned seconds are never negative.
   */
  lemma DisjointPlannedBounded(s: int, e: int, plans: seq<Plan>)
    requires PairwiseDisjoint(plans)
    ensures 0 <= PlannedIn(s, e, plans) <= Max(0, e - s)
  {
    DisjointPlannedIsCovered(s, e, plans);
    SecondsCount(s, e);
    var c := Seconds(s, e) * Covered(plans);
    assert Seconds(s, e) == c + (Seconds(s, e) - c);
  }

  /**
   * Overlapping plans are added up, not merged: the same plan listed twice
   * makes the planned seconds of its interval exceed the interval's length,
   * and the unplanned seconds go negative.
   */
  lemma OverlappingPlansCountTwice()
    ensures PlannedIn(0, 100, [Plan(0, 100), Plan(0, 100)]) == 200
    ensures Classify([Interval(0, 100, 0)], [Plan(0, 100), Plan(0, 100)]) == Split(200, -100)
  {
    assert [Plan(0, 100), Plan(0, 100)][..1] == [Plan(0, 100)];
    assert [Interval(0, 100, 0)][..0] == [];
  }

  // ---------------------------------------------------------------------------
  // Segmentation of the window into run intervals
  // ---------------------------------------------------------------------------

  /**
   * The interval that the row at index k closes: the leading gap
   * [start, t0) in the state before the window when k is 0, otherwise
   * [t(k-1), t(k)) in the state of row k-1.
   */
  function Closed(samples: seq<RunSample>, priorFlag: int, start: int, k: nat): Interval
    requires k < |samples|
  {
    if k == 0 then Interval(start, samples[0].timestamp, priorFlag)
    else Interval(samples[k - 1].timestamp, samples[k].timestamp, samples[k - 1].flag)
  }

  /** The intervals closed by the first k rows, in order. */
  function Leading(samples: seq<RunSample>, priorFlag: int, start: int, k: nat): seq<Interval>
    requires k <= |samples|
  {
    if k == 0 then []
    else Leading(samples, priorFlag, start, k - 1) + [Closed(samples, priorFlag, start, k - 1)]
  }

  /** The interval the last row opens, which the end of the window closes. */
  function Trailing(samples: seq<RunSample>, end: int): Interval
    requires samples != []
  {
    Interval(samples[|samples| - 1].timestamp, end, samples[|samples| - 1].flag)
  }

  /**
   * All run intervals of the window; none when the query found no row
   * inside it, whatever the prior row says.
   */
  function Segments(samples: seq<RunSample>, prior: Option<RunSample>, start: int, end: int): seq<Interval>
  {
    if samples == [] then []
    else Leading(samples, PriorFlag(prior), start, |samples|) + [Trailing(samples, end)]
  }

  lemma {:induction false} LeadingAt(samples: seq<RunSample>, priorFlag: int, start: int, k: nat, j: nat)
    requires j < k <= |samples|
    ensures |Leading(samples, priorFlag, start, k)| == k
    ensures Leading(samples, priorFlag, start, k)[j] == Closed(samples, priorFlag, start, j)
  {
    LeadingLength(samples, priorFlag, start, k - 1);
    if j < k - 1 {
      LeadingAt(samples, priorFlag, start, k - 1, j);
    }
  }

  lemma {:induction false} LeadingLength(samples: seq<RunSample>, priorFlag: int, start: int, k: nat)
    requires k <= |samples|
    ensures |Leading(samples, priorFlag, start, k)| == k
  {
    if k > 0 {
      LeadingLength(samples, priorFlag, start, k - 1);
    }
  }

  /**
   * The segmenter, interval by interval: one more interval than rows; the
   * first runs from the window start to the first row in the prior state,
   * the middle ones join consecutive rows in the earlier row's state, and
   * the last runs from the last row to the window end in its state.
   */
  lemma SegmentAt(samples: seq<RunSample>, prior: Option<RunSample>, start: int, end: int, j: nat)
    requires samples != [] && j <= |samples|
    ensures |Segments(samples, prior, start, end)| == |samples| + 1
    ensures var iv := Segments(samples, prior, start, end)[j];
      if j == 0 then iv == Interval(start, samples[0].timestamp, PriorFlag(prior))
      else if j < |samples| then iv == Interval(samples[j - 1].timestamp, samples[j].timestamp, samples[j - 1].flag)
      else iv == Interval(samples[|samples| - 1].timestamp, end, samples[|samples| - 1].flag)
  {
    LeadingLength(samples, PriorFlag(prior), start, |samples|);
    if j < |samples| {
      LeadingAt(samples, PriorFlag(prior), start, |samples|, j);
    }
  }

  /** Total length of a run of intervals. */
  function TotalLength(ivs: seq<Interval>): int
  {
    if ivs == [] then 0 else TotalLength(ivs[..|ivs| - 1]) + ivs[|ivs| - 1].Length()
  }

  /** Each interval ends where the next begins. */
  predicate Contiguous(ivs: seq<Interval>)
  {
    forall j :: 0 <= j < |ivs| - 1 ==> ivs[j].end == ivs[j + 1].start
  }

  lemma {:induction false} LeadingTelescopes(samples: seq<RunSample>, priorFlag: int, start: int, k: nat)
    requires 0 < k <= |samples|
    ensures TotalLength(Leading(samples, priorFlag, start, k)) == samples[k - 1].timestamp - start
  {
    if k > 1 {
      LeadingTelescopes(samples, priorFlag, start, k - 1);
    }
  }

  /**
   * The run intervals partition the window: they are contiguous, start at
   * the window start, end at the window end, and their lengths add up to
   * the window's length.
   */
  lemma SegmentsPartitionWindow(samples: seq<RunSample>, prior: Option<RunSample>, start: int, end: int)
    requires samples != []
    ensures var ivs := Segments(samples, prior, start, end);
      && ivs != []
      && ivs[0].start == start
      && ivs[|ivs| - 1].end == end
      && Contiguous(ivs)
      && TotalLength(ivs) == end - start
  {
    var ivs := Segments(samples, prior, start, end);
    var lead := Leading(samples, PriorFlag(prior), start, |samples|);
    SegmentAt(samples, prior, start, end, 0);
    SegmentAt(samples, prior, start, end, |samples|);
    forall j | 0 <= j < |ivs| - 1
      ensures ivs[j].end == ivs[j + 1].start
    {
      SegmentAt(samples, prior, start, end, j);
      SegmentAt(samples, prior, start, end, j + 1);
    }
    LeadingTelescopes(samples, PriorFlag(prior), start, |samples|);
    assert ivs[..|ivs| - 1] == lead;
  }

  /** The rows are in timestamp order and strictly inside the window, as the query selects them. */
  predicate OrderedInWindow(samples: seq<RunSample>, start: int, end: int)
  {
    && (forall j :: 0 <= j < |samples| ==> start < samples[j].timestamp < end)
    && (forall j :: 0 < j < |samples| ==> samples[j - 1].timestamp <= samples[j].timestamp)
  }

  /** On ordered in-window rows no run interval has a negative length. */
  lemma SegmentsNonNegative(samples: seq<RunSample>, prior: Option<RunSample>, start: int, end: int, j: nat)
    requires samples != [] && OrderedInWindow(samples, start, end)
    requires j < |Segments(samples, prior, start, end)|
    ensures Segments(samples, prior, start, end)[j].Length() >= 0
  {
    LeadingLength(samples, PriorFlag(prior), start, |samples|);
    SegmentAt(samples, prior, start, end, j);
  }

  // ---------------------------------------------------------------------------
  // Classification of the stopped intervals
  // ---------------------------------------------------------------------------

  /**
   * Planned and unplanned seconds over a run of intervals. A stopped
   * interval adds its planned seconds to the first total and the rest of
   * its length to the second; a running one adds nothing.
   */
  function Classify(ivs: seq<Interval>, plans: seq<Plan>): Split
  {
    if ivs == [] then Split(0, 0)
    else
      var acc := Classify(ivs[..|ivs| - 1], plans);
      var iv := ivs[|ivs| - 1];
      if iv.Stopped() then
        var p := PlannedIn(iv.start, iv.end, plans);
        Split(acc.planned + p, acc.unplanned + (iv.Length() - p))
      else acc
  }

  /** Total length of the stopped intervals. */
  function StoppedLength(ivs: seq<Interval>): int
  {
    if ivs == [] then 0
    else StoppedLength(ivs[..|ivs| - 1]) + (if ivs[|ivs| - 1].Stopped() then ivs[|ivs| - 1].Length() else 0)
  }

  /** Appending one interval to the run extends the totals by that interval's share. */
  lemma ClassifyStep(ivs: seq<Interval>, iv: Interval, plans: seq<Plan>)
    ensures var acc := Classify(ivs, plans);
      var p := PlannedIn(iv.start, iv.end, plans);
      Classify(ivs + [iv], plans) == if iv.Stopped() then Split(acc.planned + p, acc.unplanned + (iv.Length() - p)) else acc
  {
    assert (ivs + [iv])[..|ivs|] == ivs;
  }

  /** The three-slot result `[planned, unplanned, idle]` for a window. */
  function Distribution(samples: seq<RunSample>, prior: Option<RunSample>, plans: seq<Plan>, start: int, end: int): (r: seq<int>)
    ensures |r| == 3 && r[2] == 0
  {
    var t := Classify(Segments(samples, prior, start, end), plans);
    [t.planned, t.unplanned, 0]
  }

  /** Planned plus unplanned seconds are exactly the stopped seconds. */
  lemma {:induction false} ClassifyCoversStopped(ivs: seq<Interval>, plans: seq<Plan>)
    ensures Classify(ivs, plans).planned + Classify(ivs, plans).unplanned == StoppedLength(ivs)
  {
    if ivs != [] {
      ClassifyCoversStopped(ivs[..|ivs| - 1], plans);
    }
  }

  /** Without plans every stopped second is unplanned. */
  lemma {:induction false} ClassifyWithoutPlans(ivs: seq<Interval>)
    ensures Classify(ivs, []) == Split(0, StoppedLength(ivs))
  {
    if ivs != [] {
      ClassifyWithoutPlans(ivs[..|ivs| - 1]);
    }
  }

  /** With non-overlapping plans on well-formed intervals both totals are non-negative. */
  lemma {:induction false} ClassifyNonNegative(ivs: seq<Interval>, plans: seq<Plan>)
    requires PairwiseDisjoint(plans)
    requires forall j :: 0 <= j < |ivs| ==> ivs[j].Length() >= 0
    ensures Classify(ivs, plans).planned >= 0 && Classify(ivs, plans).unplanned >= 0
  {
    if ivs != [] {
      var iv := ivs[|ivs| - 1];
      ClassifyNonNegative(ivs[..|ivs| - 1], plans);
      DisjointPlannedBounded(iv.start, iv.end, plans);
    }
  }

  /** No row inside the window: `[0, 0, 0]`, even after a stopped prior row. */
  lemma NoRowsNoDowntime(prior: Option<RunSample>, plans: seq<Plan>, start: int, end: int)
    ensures Distribution([], prior, plans, start, end) == [0, 0, 0]
  {
  }

  /**
   * The first two slots add up to the stopped seconds of the leading gap,
   * the gaps between rows and the trailing gap, counting each interval
   * exactly when the state that opened it has flag 0.
   */
  lemma DistributionCoversStopped(samples: seq<RunSample>, prior: Option<RunSample>, plans: seq<Plan>, start: int, end: int)
    ensures var r := Distribution(samples, prior, plans, start, end);
      r[0] + r[1] == StoppedLength(Segments(samples, prior, start, end))
  {
    ClassifyCoversStopped(Segments(samples, prior, start, end), plans);
  }

  /** Without plans the planned slot is 0 and the unplanned slot holds all stopped seconds. */
  lemma DistributionWithoutPlans(samples: seq<RunSample>, prior: Option<RunSample>, start: int, end: int)
    ensures var r := Distribution(samples, prior, [], start, end);
      r[0] == 0 && r[1] == StoppedLength(Segments(samples, prior, start, end))
  {
    ClassifyWithoutPlans(Segments(samples, prior, start, end));
  }

  /**
   * Without a prior row the leading gap counts as running: the result is
   * the one a running prior row would give.
   */
  lemma NoPriorMeansRunning(samples: seq<RunSample>, plans: seq<Plan>, start: int, end: int, t: int)
    ensures samples != [] ==> !Segments(samples, None, start, end)[0].Stopped()
    ensures Distribution(samples, None, plans, start, end) == Distribution(samples, Some(RunSample(t, 1)), plans, start, end)
  {
    if samples != [] {
      SegmentAt(samples, None, start, end, 0);
    }
  }

  /**
   * On ordered in-window rows with plans that do not overlap one another,
   * neither slot is negative and together they never exceed the window.
   */
  lemma DistributionBounded(samples: seq<RunSample>, prior: Option<RunSample>, plans: seq<Plan>, start: int, end: int)
    requires OrderedInWindow(samples, start, end) && PairwiseDisjoint(plans)
    ensures var r := Distribution(samples, prior, plans, start, end);
      r[0] >= 0 && r[1] >= 0 && r[0] + r[1] <= Max(0, end - start)
  {
    var ivs := Segments(samples, prior, start, end);
    if samples != [] {
      forall j | 0 <= j < |ivs|
        ensures ivs[j].Length() >= 0
      {
        SegmentsNonNegative(samples, prior, start, end, j);
      }
      ClassifyNonNegative(ivs, plans);
      ClassifyCoversStopped(ivs, plans);
      SegmentsPartitionWindow(samples, prior, start, end);
      StoppedAtMostTotal(ivs);
    }
  }

  lemma {:induction false} StoppedAtMostTotal(ivs: seq<Interval>)
    requires forall j :: 0 <= j < |ivs| ==> ivs[j].Length() >= 0
    ensures 0 <= StoppedLength(ivs) <= TotalLength(ivs)
  {
    if ivs != [] {
      StoppedAtMostTotal(ivs[..|ivs| - 1]);
    }
  }

  /**
   * The block the source repeats for each stopped interval [s, e): sum the
   * plan overlaps, add them to the planned slot and the rest of the
   * interval to the unplanned slot.
   */
  method AddStopped(ret: seq<int>, s: int, e: int, plans: seq<Plan>) returns (ret': seq<int>)
    requires |ret| == 3
    ensures ret' == [ret[0] + PlannedIn(s, e, plans), ret[1] + (e - s - PlannedIn(s, e, plans)), ret[2]]
  {
    var planned := PlannedSeconds(s, e, plans);
    ret' := ret[0 := ret[0] + planned];
    ret' := ret'[1 := ret'[1] + (e - s - planned)];
  }

  /**
   * The three slots after the rows before index k have closed their
   * intervals, accumulated as the source's loop does.
   */
  ghost function Progress(samples: seq<RunSample>, priorFlag: int, start: int, k: nat, plans: seq<Plan>): (r: seq<int>)
    requires k <= |samples|
    ensures |r| == 3
  {
    if k == 0 then [0, 0, 0]
    else
      var acc := Progress(samples, priorFlag, start, k - 1, plans);
      var iv := Closed(samples, priorFlag, start, k - 1);
      var p := PlannedIn(iv.start, iv.end, plans);
      if iv.Stopped() then [acc[0] + p, acc[1] + (iv.end - iv.start - p), acc[2]] else acc
  }

  /** The accumulated slots are the classification of the intervals closed so far. */
  lemma {:induction false} ProgressIsClassify(samples: seq<RunSample>, priorFlag: int, start: int, k: nat, plans: seq<Plan>)
    requires k <= |samples|
    ensures var t := Classify(Leading(samples, priorFlag, start, k), plans);
      Progress(samples, priorFlag, start, k, plans) == [t.planned, t.unplanned, 0]
  {
    if k > 0 {
      ProgressIsClassify(samples, priorFlag, start, k - 1, plans);
      var before := Leading(samples, priorFlag, start, k - 1);
      var iv := Closed(samples, priorFlag, start, k - 1);
      assert Leading(samples, priorFlag, start, k) == before + [iv];
      ClassifyStep(before, iv, plans);
    }
  }

  /** One loop iteration in the source's own terms: the first row closes the leading gap, any later row the gap after its predecessor. */
  lemma ProgressStep(samples: seq<RunSample>, priorFlag: int, start: int, k: nat, plans: seq<Plan>)
    requires k < |samples|
    ensures var acc := Progress(samples, priorFlag, start, k, plans);
      var s := if k == 0 then start else samples[k - 1].timestamp;
      var e := samples[k].timestamp;
      var stopped := if k == 0 then priorFlag == 0 else samples[k - 1].flag == 0;
      Progress(samples, priorFlag, start, k + 1, plans) ==
        if stopped then [acc[0] + PlannedIn(s, e, plans), acc[1] + (e - s - PlannedIn(s, e, plans)), acc[2]] else acc
  {
  }

  /** After the loop the trailing interval, from the last row to the end, adds its share. */
  lemma ProgressTail(samples: seq<RunSample>, prior: Option<RunSample>, plans: seq<Plan>, start: int, end: int)
    requires samples != []
    ensures var acc := Progress(samples, PriorFlag(prior), start, |samples|, plans);
      var s := samples[|samples| - 1].timestamp;
      Distribution(samples, prior, plans, start, end) ==
        if samples[|samples| - 1].flag == 0 then [acc[0] + PlannedIn(s, end, plans), acc[1] + (end - s - PlannedIn(s, end, plans)), acc[2]] else acc
  {
    ProgressIsClassify(samples, PriorFlag(prior), start, |samples|, plans);
    ClassifyStep(Leading(samples, PriorFlag(prior), start, |samples|), Trailing(samples, end), plans);
  }

  /**
   * The source's loop. `ret` is updated slot by slot as in the source; the
   * defaults for a zero start or end (a week ago, now) are parameters.
   */
  method GetDowntimeDistribution(running: seq<RunSample>, prior: Option<RunSample>, plans: seq<Plan>,
                                 start0: int, end0: int, weekAgo: int, now: int)
    returns (ret: seq<int>)
    ensures ret == Distribution(running, prior, plans, Defaulted(start0, weekAgo), Defaulted(end0, now))
  {
    var start := start0;
    var end := end0;
    if start == 0 { start := weekAgo; }
    if end == 0 { end := now; }

    ret := [0, 0, 0];
    var lastBeforeStartRunning := if prior.Some? then prior.value.flag else 1;
    assert lastBeforeStartRunning == PriorFlag(prior);
    assert start == Defaulted(start0, weekAgo) && end == Defaulted(end0, now);
    var count := |running|;
    if count == 0 && prior.None? {
      return;
    }

    for k := 0 to count
      invariant ret == Progress(running, lastBeforeStartRunning, start, k, plans)
    {
      ProgressStep(running, lastBeforeStartRunning, start, k, plans);
      if k == 0 {
        if lastBeforeStartRunning == 0 {
          ret := AddStopped(ret, start, running[k].timestamp, plans);
        }
      } else {
        if running[k - 1].flag == 0 {
          ret := AddStopped(ret, running[k - 1].timestamp, running[k].timestamp, plans);
        }
      }
    }

    if count == 0 {
      assert Segments(running, prior, start, end) == [];
    } else {
      ProgressTail(running, prior, plans, start, end);
      if running[count - 1].flag == 0 {
        ret := AddStopped(ret, running[count - 1].timestamp, end, plans);
      }
    }
  }

  /**
   * Rows at 0 (running), 3600 (stopped) and 7200 (running) in the window
   * [0, 10800) without a prior row: the query keeps the last two (it wants
   * timestamps strictly after the start), the leading gap runs, and the one
   * stopped hour is unplanned; with a plan covering exactly that hour it is
   * planned.
   */
  lemma StoppedHourScenario()
    ensures Distribution([RunSample(3600, 0), RunSample(7200, 1)], None, [], 0, 10800) == [0, 3600, 0]
    ensures Distribution([RunSample(3600, 0), RunSample(7200, 1)], None, [Plan(3600, 7200)], 0, 10800) == [3600, 0, 0]
  {
    var rows := [RunSample(3600, 0), RunSample(7200, 1)];
    var a, b, c := Interval(0, 3600, 1), Interval(3600, 7200, 0), Interval(7200, 10800, 1);
    assert Leading(rows, 1, 0, 1) == [a];
    assert Leading(rows, 1, 0, 2) == [a, b];
    assert Segments(rows, None, 0, 10800) == [a, b, c];
    assert [Plan(3600, 7200)][..0] == [];
    assert PlannedIn(3600, 7200, [Plan(3600, 7200)]) == 3600;
    var one := [Plan(3600, 7200)];
    ClassifyStep([], a, []);
    ClassifyStep([a], b, []);
    ClassifyStep([a, b], c, []);
    ClassifyStep([], a, one);
    ClassifyStep([a], b, one);
    ClassifyStep([a, b], c, one);
  }
}
