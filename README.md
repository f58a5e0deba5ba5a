# Machine telemetry helpers, modelled in Dafny

This project models the arithmetic core of an industrial monitoring back end. Machines log rows into `device_data`. Tag-9 rows record a run flag: 1 means running and 0 means stopped. Other tags record analogue series, and tags 15 and 16 hold the hop and actual inventory arrays. The controller turns these rows into dashboard figures. The model covers:

- `overlapInSeconds`: the number of seconds two periods share.
- `getDowntimeDistribution`: how many stopped seconds in a window fall inside *planned* downtime and how many are *unplanned*.
- `parseValid`, `parseValid1`, `parseValidWithTime`: a series reduced to at most 12 buckets with `array_chunk`, where each bucket is the mean of one field truncated toward zero. The third variant pairs each mean with a timestamp in milliseconds.
- `totalRunningPercentage`: the running fraction of a run history, counted in whole hours.
- `getWeeklyRunningHours`: the number of hourly ticks from the first run row up to "now", counted by weekday.
- `getInventories` and `DeviceData::getIventoryParserValues`: the `"<hop>.<padded actual>"` inventory strings, and the same strings read as numbers.

The modules follow the source's structure:

- `Common`: `Option`, the run row, and PHP's `(int)` of a quotient (`TruncDiv`, rounding toward zero).
- `Overlap`: the overlap function, with the shared-seconds set as its reference definition.
- `Downtime`: the run intervals derived from the rows and the planned/unplanned split, checked against a loop-based method.
- `Binning`: the `array_chunk` buckets and their means.
- `Utilisation`: the running fraction.
- `Weekly`: the weekday histogram.
- `Inventory`: both inventory builders, a parser that reads an entry back, and an exact reading of `floatval`.

Each loop in the source is a `method` with loop invariants, and each method is proved equal to a specification function. The properties are then proved as lemmas about those functions. The database queries are not modelled. Their results arrive as parameters: the fetched rows, the row before the window, and the plans with both ends already resolved to timestamps. The clock is a parameter too: `now`, and `weekAgo` for `strtotime("-7 days")`.

Error paths follow Laravel, which turns the PHP warning for an undefined array index into an exception:

- `parseValid` and `parseValid1` catch it and return `0`. The model calls this `CaughtZero`.
- `parseValidWithTime` lets it escape. The model returns `None`.
- The inventory builders let it escape at the first missing hop index. The model returns `UndefinedHopIndex`.

## Model

| member | source | states |
|---|---|---|
| Common.TruncDiv | app/Http/Controllers/MachineController.php:499 | PHP's `(int)($a / $b)`: the remainder is smaller than the divisor in magnitude and has the dividend's sign, so the quotient is rounded toward zero |
| Common.TruncDivOfNatural | app/Http/Controllers/MachineController.php:499 | for a non-negative dividend and a positive divisor, truncation agrees with floor division |
| Common.TruncDivBetween | app/Http/Controllers/MachineController.php:447 | if lo*n <= a <= hi*n, the truncated quotient a/n lies in [lo, hi]; this is the basis of every mean bound |
| Overlap.OverlapInSeconds | app/Http/Controllers/MachineController.php:667-681 | the overlap is at most each period's length; it is 0 for disjoint periods and the whole first period when that is contained in the second; it is positive exactly when both periods are non-empty and they intersect |
| Overlap.OverlapSymmetric | app/Http/Controllers/MachineController.php:667-681 | swapping the two periods gives the same overlap |
| Overlap.SecondsCount | app/Http/Controllers/MachineController.php:676-680 | a period [a, b) holds max(0, b - a) whole seconds |
| Overlap.OverlapCountsCommonSeconds | app/Http/Controllers/MachineController.php:667-681 | reference definition: the overlap is the number of seconds the two periods have in common |
| Downtime.PlannedSeconds | app/Http/Controllers/MachineController.php:612-620 | the inner plan loop computes the sum, plan by plan, of the interval's overlap with each plan |
| Downtime.NoPlansNothingPlanned | app/Http/Controllers/MachineController.php:612-620 | unfolding lemma, the base case of the plan sum: with no plans the planned seconds are 0 (the property it serves is `Downtime.DistributionWithoutPlans`) |
| Downtime.PlannedNonNegative | app/Http/Controllers/MachineController.php:612-620 | the planned seconds are never negative |
| Downtime.CoveredMembers | app/Http/Controllers/MachineController.php:613-619 | a second is covered exactly when some plan contains it |
| Downtime.DisjointPlannedIsCovered | app/Http/Controllers/MachineController.php:612-620 | when no two plans share a second, the planned seconds of [s, e) are exactly the seconds of [s, e) covered by some plan |
| Downtime.DisjointPlannedBounded | app/Http/Controllers/MachineController.php:612-622 | with pairwise disjoint plans, the planned seconds lie between 0 and the interval's length |
| Downtime.OverlappingPlansCountTwice | app/Http/Controllers/MachineController.php:612-622 | two identical plans over a stopped 100 s interval count 200 planned seconds and -100 unplanned ones |
| Downtime.LeadingAt | app/Http/Controllers/MachineController.php:608-639 | interval j of the first k is the one row j closes: from the window start, or from the previous row, with the previous state's flag |
| Downtime.LeadingLength | app/Http/Controllers/MachineController.php:608-639 | k rows close k intervals |
| Downtime.SegmentAt | app/Http/Controllers/MachineController.php:594-653 | with n rows there are n + 1 intervals; interval j starts at the window start or at row j - 1, ends at row j or at the window end, and carries the prior flag or row j - 1's flag |
| Downtime.LeadingTelescopes | app/Http/Controllers/MachineController.php:608-639 | the first k intervals together span from the window start to row k - 1 |
| Downtime.SegmentsPartitionWindow | app/Http/Controllers/MachineController.php:608-653 | the intervals are contiguous, start at the window start, end at the window end, and their lengths add up to end - start |
| Downtime.SegmentsNonNegative | app/Http/Controllers/MachineController.php:580-586 | on ordered rows strictly inside the window, no interval has a negative length |
| Downtime.ClassifyStep | app/Http/Controllers/MachineController.php:621-622 | unfolding lemma, one step of the classification: one more interval adds its planned seconds and its remaining stopped seconds when its flag is 0, and nothing otherwise |
| Downtime.ClassifyCoversStopped | app/Http/Controllers/MachineController.php:621-652 | planned plus unplanned is exactly the total length of the stopped intervals |
| Downtime.ClassifyWithoutPlans | app/Http/Controllers/MachineController.php:621-652 | with no plans every stopped second is unplanned |
| Downtime.ClassifyNonNegative | app/Http/Controllers/MachineController.php:621-652 | with pairwise disjoint plans and intervals of non-negative length, both totals are non-negative |
| Downtime.NoRowsNoDowntime | app/Http/Controllers/MachineController.php:600-641 | with no row inside the window the result is [0, 0, 0], even when the prior row says stopped: the loop at 608 does nothing and the `$count &&` guard at 641 skips the tail block |
| Downtime.DistributionCoversStopped | app/Http/Controllers/MachineController.php:608-653 | planned plus unplanned is the stopped length of the derived intervals |
| Downtime.DistributionWithoutPlans | app/Http/Controllers/MachineController.php:608-653 | with no plans the planned slot is 0 and the unplanned slot holds all stopped seconds |
| Downtime.NoPriorMeansRunning | app/Http/Controllers/MachineController.php:594-598 | with no row before the window the first interval counts as running, exactly as if a running prior row existed |
| Downtime.DistributionBounded | app/Http/Controllers/MachineController.php:571-656 | with ordered in-window rows and disjoint plans, both slots are non-negative and together at most the window's length |
| Downtime.StoppedAtMostTotal | app/Http/Controllers/MachineController.php:608-653 | the stopped length lies between 0 and the total length when no interval has negative length |
| Downtime.AddStopped | app/Http/Controllers/MachineController.php:621-622 | one stopped interval adds its planned overlap to slot 0 and the rest of its length to slot 1, leaving slot 2 unchanged |
| Downtime.GetDowntimeDistribution | app/Http/Controllers/MachineController.php:571-656 | the loop's three-slot result is the distribution of the intervals derived from the rows, with zero bounds replaced by the week-ago and now defaults; idle stays 0 |
| Downtime.StoppedHourScenario | app/Http/Controllers/MachineController.php:608-653 | rows at 3600 (stopped) and 7200 (running) in the window [0, 10800) give one unplanned stopped hour, and that hour becomes planned under a plan covering it |
| Binning.ChunksShape | app/Http/Controllers/MachineController.php:439-440 | `array_chunk`: the pieces concatenate to the input; each is non-empty and holds at most w elements; all but the last hold exactly w; there are ceil(n / w) of them |
| Binning.ChunksNonEmpty | app/Http/Controllers/MachineController.php:440 | no piece is empty |
| Binning.ChunkAt | app/Http/Controllers/MachineController.php:440 | piece k is the input slice from k*w to min((k+1)*w, n), and k*w < n |
| Binning.ChunkCountBound | app/Http/Controllers/MachineController.php:440 | at most n*w elements make at most n pieces |
| Binning.InFlatten | app/Http/Controllers/MachineController.php:440 | an element is in the concatenation exactly when it is in some piece |
| Binning.AtMostTwelveChunks | app/Http/Controllers/MachineController.php:439-440 | with width count/12 + 1 there are at most 12 buckets, and none exactly when the series is empty |
| Binning.TwentyFiveRows | app/Http/Controllers/MachineController.php:439-440 | 25 rows give width 3 and nine buckets: eight of 3 rows and a last one of 1 |
| Binning.ChunkMean | app/Http/Controllers/MachineController.php:441-448 | the closure's loop gives a value exactly when every row has field i, and that value is the sum of the field divided by the row count, truncated toward zero |
| Binning.FieldSumBetween | app/Http/Controllers/MachineController.php:442-446 | if every row's field lies in [lo, hi], the sum lies in [lo*n, hi*n] |
| Binning.ChunkMeanBetween | app/Http/Controllers/MachineController.php:441-448 | a bucket's mean lies between the smallest and the largest value of its field |
| Binning.ChunkMeanOfConstant | app/Http/Controllers/MachineController.php:441-448 | a bucket whose field is constant has that constant as its mean |
| Binning.MeansOf | app/Http/Controllers/MachineController.php:441-449 | `array_map` gives one mean per piece, in order |
| Binning.ChunksReadyIff | app/Http/Controllers/MachineController.php:440-449 | the pieces are ready to average exactly when every row of the series has field i |
| Binning.ParseValid | app/Http/Controllers/MachineController.php:437-453 | the chunk-and-map pipeline returns the bucket means, or the caught 0 when some row lacks the field |
| Binning.ParseValid1 | app/Http/Controllers/MachineController.php:455-472 | parseValid1 is parseValid on field 0 |
| Binning.EmptySeriesNoBuckets | app/Http/Controllers/MachineController.php:439-440 | an empty series gives an empty bucket list, not the caught 0 |
| Binning.BinnedMeansAt | app/Http/Controllers/MachineController.php:437-453 | the caught 0 occurs exactly when some row lacks the field; otherwise there are at most 12 means, and mean k is the truncated average of field i over rows k*w up to min((k+1)*w, n) |
| Binning.BucketTimeSpacing | app/Http/Controllers/MachineController.php:483 | bucket 0 is at `from`*1000 and a twelfth index would be at `to`*1000; consecutive buckets are (to - from)*1000/12 ms apart |
| Binning.ParseValidWithTime | app/Http/Controllers/MachineController.php:474-485 | the same buckets and means, each paired with its time, or None when some row lacks the field and the error escapes |
| Binning.TimedBinsMatchMeans | app/Http/Controllers/MachineController.php:474-485 | parseValidWithTime fails exactly when parseValid catches its 0; otherwise bucket k carries parseValid's mean k and the time of index k |
| Utilisation.Ratio | app/Http/Controllers/MachineController.php:508-511 | the fraction is 0 when running plus stopped hours add up to 0 (on unordered rows they can cancel); otherwise it times the total is the running hours, and it lies in [0, 1] when both totals are non-negative |
| Utilisation.TotalRunningPercentage | app/Http/Controllers/MachineController.php:493-512 | the `foreach` computes the ratio of the running hours to running-plus-stopped hours, where each pair of rows adds its whole hours (rounded toward zero) to the side its earlier row's flag selects (running iff the flag is 1) |
| Utilisation.HoursSplitAllGaps | app/Http/Controllers/MachineController.php:496-507 | every pair is counted once: running plus stopped hours are the hours of all pairs |
| Utilisation.OrderedHoursNonNegative | app/Http/Controllers/MachineController.php:496-507 | on a history ordered by time both totals are non-negative |
| Utilisation.CountedHoursWithinSpan | app/Http/Controllers/MachineController.php:498-499 | on an ordered history the counted hours are at most the whole hours from the first row to the last |
| Utilisation.OrderedRatioInUnitInterval | app/Http/Controllers/MachineController.php:493-512 | on an ordered history the running fraction lies in [0, 1] |
| Utilisation.NoPairsZeroRatio | app/Http/Controllers/MachineController.php:496-511 | with fewer than two rows both totals are 0 and so is the fraction |
| Utilisation.AlwaysRunningNothingStopped | app/Http/Controllers/MachineController.php:500-505 | when every pair's earlier row says running, the stopped hours are 0 |
| Utilisation.ThreeRowScenario | app/Http/Controllers/MachineController.php:493-512 | rows at 0 (running), 3600 (stopped) and 7200 (running) give one running and one stopped hour, a fraction of 1/2 |
| Utilisation.UnorderedRatioAboveOne | app/Http/Controllers/MachineController.php:336-346 | the rows reach the ratio unordered; rows at 0 (running), 7200 (stopped) and 3600 (running) give 2 running and -1 stopped hours, a result of 2, outside [0, 1] |
| Weekly.TickCountMeaning | app/Http/Controllers/MachineController.php:290 | tick k (start + 3600k) is visited exactly when it lies before the end |
| Weekly.GetWeeklyRunningHours | app/Http/Controllers/MachineController.php:266-306 | the loop returns seven zeros when there are no rows, and otherwise the weekday histogram of the hourly ticks from the first row's timestamp up to now |
| Weekly.HistogramTotal | app/Http/Controllers/MachineController.php:290-293 | every tick lands in exactly one slot: the slots add up to the number of ticks |
| Weekly.HistogramNonNegative | app/Http/Controllers/MachineController.php:290-293 | no slot is negative |
| Weekly.WeeklyHoursTotal | app/Http/Controllers/MachineController.php:275-293 | with no rows the slots are all zero; otherwise they add up to ceil((now - first) / 3600) when now is later, and to 0 when it is not |
| Weekly.WeeklyHoursIgnoresFlags | app/Http/Controllers/MachineController.php:280-293 | the run flags and the later rows never matter: only the first row's timestamp and now do |
| Weekly.HistogramWeekShift | app/Http/Controllers/MachineController.php:290-293 | moving the first row by a whole week leaves the histogram unchanged |
| Weekly.WeekdayWeekShift | app/Http/Controllers/MachineController.php:291 | a timestamp one week later has the same weekday |
| Inventory.NatToDecimal | app/DeviceData.php:40 | `strval` of a natural number is a non-empty string of digits with no leading zero |
| Inventory.GetInventories | app/Http/Controllers/MachineController.php:121-138 | the loop returns one `"<hop>.<padded actual>"` string per actual value, in order; it returns an empty list when either row is missing, and fails at the first missing hop index |
| Inventory.GetIventoryParserValues | app/DeviceData.php:26-45 | the same loop returns the strings read as numbers, with the same empty and failure cases |
| Inventory.InventoriesShape | app/DeviceData.php:30-41 | without both rows the list is empty; with both it succeeds exactly when there are at least as many hop values as actual values, then has one entry per actual value, and otherwise fails at index \|hop\| |
| Inventory.ParserValuesAt | app/DeviceData.php:32-41 | with enough hop values, number i is the exact value of entry i: the hop moved away from zero by the printed fraction |
| Inventory.FractionShape | app/DeviceData.php:34-38 | a zero actual value prints as "0"; any other prints as its digits left-padded with zeros to at least three characters; all characters are digits |
| Inventory.FractionExamples | app/DeviceData.php:34-38 | 0, 7, 45 and 1234 print as "0", "007", "045" and "1234" |
| Inventory.NatDecimalRoundTrip | app/DeviceData.php:40 | reading the decimal text of n gives n back |
| Inventory.ParseNatLeadingZeros | app/DeviceData.php:37 | leading zeros do not change the value |
| Inventory.FractionRoundTrip | app/DeviceData.php:34-38 | the padded fraction reads back as the actual value |
| Inventory.IntDecimalRoundTrip | app/DeviceData.php:40 | `strval` of the hop reads back as the hop; it contains no '.', and it starts with '-' exactly when the hop is negative |
| Inventory.EntryShape | app/DeviceData.php:40 | an entry is the hop text, one '.', then the padded fraction, and that '.' is the only one |
| Inventory.EntryRoundTrip | app/Http/Controllers/MachineController.php:126-132 | every entry parses back to the hop and actual value it was built from |
| Inventory.EntryInjective | app/Http/Controllers/MachineController.php:126-132 | distinct hop/actual pairs never give the same string |
| Inventory.FloatvalOfEntry | app/DeviceData.php:40 | `floatval` of an entry is the hop plus the actual value over 10^(printed digits), or the hop minus that fraction when the hop is negative |
| Inventory.FractionValueBounds | app/DeviceData.php:34-40 | the fraction a value contributes lies in [0, 1) and is 0 exactly for a zero value |
| Inventory.ThousandthsBelowThousand | app/DeviceData.php:37-40 | an actual value below 1000 reads as that many thousandths |
| Inventory.InventoryValueBounds | app/DeviceData.php:40 | the number lies between the hop and the next integer away from zero |
| Inventory.InventoryValueInjectiveBelowThousand | app/DeviceData.php:34-40 | while actual values stay below 1000, the number determines both the hop and the actual value |
| Inventory.FourDigitActualCollides | app/DeviceData.php:34-40 | from four digits on, values collide: with hop 1, actual values 100 and 1000 print as "1.100" and "1.1000" and both read as 1.1 |

## Left out

- Database queries, the `Device`/`Machine` lookups, `DowntimePlan::where`, JSON responses and HTTP status codes are not modelled. The fetched rows arrive as parameters. For the inventory builders, a missing row is `None` and a present row is the decoded array.
- `json_decode` is not modelled. A row of the analogue series is its decoded array of integers, a run row is its timestamp and first field (the flag), and inventory arrays are integer sequences.
- The window filter `timestamp > start AND timestamp < end` is the caller's duty, and so is the order of the rows. `Downtime.DistributionBounded` and `Downtime.SegmentsNonNegative` assume, through `OrderedInWindow`, that the rows are in timestamp order and strictly inside the window. The query orders the rows by `id` (MachineController.php:585), which gives timestamp order only when ids grow with timestamps, so the id order does not by itself establish the hypothesis. `GetDowntimeDistribution` accepts any sequence of rows, as the source's loop does.
- Utilisation.OrderedRatioInUnitInterval: the timestamp order it assumes (`Ordered`), and which `OrderedHoursNonNegative` and `CountedHoursWithinSpan` assume too, is not established by the caller: the rows are fetched without any `orderBy` (MachineController.php:336-339). On rows out of order the fraction can leave [0, 1]; `Utilisation.UnorderedRatioAboveOne` gives rows for which it is 2.
- Downtime.GetDowntimeDistribution: the row before the window is a parameter. The source fetches it with `orderBy('timestamp')->first()`, which picks the *earliest* row before the window rather than the latest; the model uses whatever row the caller passes.
- Downtime.GetDowntimeDistribution: `strtotime` of a plan's date and time columns is not modelled, and a plan arrives with both ends as timestamps. `strtotime("-7 days")` and `time()` arrive as the parameters `weekAgo` and `now`.
- Common.TruncDiv: PHP's `/` gives a float and `(int)` truncates it. The model uses exact integer truncation and ignores float rounding for very large sums.
- Utilisation.Ratio: the float division is an exact `real`.
- Binning.BucketTime: the millisecond time is an exact `real`, without float rounding.
- Inventory.Floatval: `floatval` is an exact decimal reading of the texts the builders make, not the nearest double. Other text reads as 0 here, whereas PHP would read its numeric prefix, but the builders never produce such text.
- Inventory: hop values are integers. A fractional hop value would print through PHP's float formatting, which is not modelled. Actual values are natural numbers, because `sprintf('%03d')` of a negative number puts the sign inside the padding and that case is not modelled.
- Weekly.Weekday: `date('N')` uses the server's time zone, which is read as UTC here, with 1970-01-01 a Thursday.
- The code's integers are unbounded; PHP's 64-bit overflow to float is not modelled.
- `getFromTo` (MachineController.php:683-740), machine dispatch and decoration (MachineController.php:514-565), the product overview and page-initialisation endpoints, the other controller actions, Report.php and the migration are not part of this model.
- A reading of `totalRunningPercentage` that also counted the span from the last row to now would give 2/3 for the three-row example. The code counts only adjacent pairs, which gives 1/2, and the model follows the code (`Utilisation.ThreeRowScenario`).
