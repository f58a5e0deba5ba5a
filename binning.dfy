/**
 * MachineController::parseValid, parseValid1 and parseValidWithTime: chart
 * binning.
 *
 * A series of decoded `values` rows is cut, as `array_chunk` does, into
 * pieces of width floor(N/12)+1, and each piece is reduced by the closure's
 * loop to the sum of one field over the piece divided by the piece's size,
 * rounded toward zero. A row without the selected field makes PHP raise;
 * parseValid and parseValid1 catch that and answer 0, parseValidWithTime
 * lets it escape.
 */
module Binning {
  import opened Common

  /** `$this->num_chunks`, and the literal 12 of parseValidWithTime. */
  const NumChunks: nat := 12

  /** `count / 12 + 1`, which `array_chunk` truncates to an integer width. */
  function Width(n: nat): nat
  {
    n / NumChunks + 1
  }

  // ---------------------------------------------------------------------------
  // array_chunk
  // ---------------------------------------------------------------------------

  /** `array_chunk($s, $w)`: consecutive pieces of w elements, the last one possibly shorter. */
  function Chunks<T>(s: seq<T>, w: nat): seq<seq<T>>
    requires w > 0
    decreases |s|
  {
    if s == [] then []
    else if |s| <= w then [s]
    else [s[..w]] + Chunks(s[w..], w)
  }

  function Flatten<T>(ss: seq<seq<T>>): seq<T>
  {
    if ss == [] then [] else ss[0] + Flatten(ss[1..])
  }

  /**
   * The shape of the pieces: put back together they are the input; each is
   * non-empty; all but the last have exactly w elements and the last at
   * most w; there are ceil(|s|/w) of them.
   */
  lemma {:induction false} ChunksShape<T>(s: seq<T>, w: nat)
    requires w > 0
    ensures var c := Chunks(s, w);
      && Flatten(c) == s
      && (forall k :: 0 <= k < |c| ==> 0 < |c[k]| <= w)
      && (forall k :: 0 <= k < |c| - 1 ==> |c[k]| == w)
      && |c| == (|s| + w - 1) / w
    decreases |s|
  {
    if |s| > w {
      ChunksShape(s[w..], w);
      assert s == s[..w] + s[w..];
      var c := Chunks(s, w);
      assert c[1..] == Chunks(s[w..], w);
      assert (|s| + w - 1) / w == (|s| - w + w - 1) / w + 1 by {
        DivShift(|s| - w + w - 1, w);
      }
    } else if s != [] {
      assert (|s| + w - 1) / w == 1 by {
        assert w <= |s| + w - 1 < 2 * w;
      }
    }
  }

  /** No piece is empty. */
  lemma ChunksNonEmpty<T>(s: seq<T>, w: nat)
    requires w > 0
    ensures forall k :: 0 <= k < |Chunks(s, w)| ==> |Chunks(s, w)[k]| > 0
  {
    ChunksShape(s, w);
  }

  lemma DivShift(a: int, w: int)
    requires a >= 0 && w > 0
    ensures (a + w) / w == a / w + 1
  {
    DivUnique(a + w, w, a / w + 1, a % w);
  }

  /** Piece k is the slice of the input from k*w up to (k+1)*w, cut short at the end. */
  lemma {:induction false} ChunkAt<T>(s: seq<T>, w: nat, k: nat)
    requires w > 0 && k < |Chunks(s, w)|
    ensures k * w < |s|
    ensures Chunks(s, w)[k] == s[k * w .. if (k + 1) * w <= |s| then (k + 1) * w else |s|]
    decreases |s|
  {
    if |s| > w && k > 0 {
      assert Chunks(s, w)[k] == Chunks(s[w..], w)[k - 1];
      ChunkAt(s[w..], w, k - 1);
      assert (k - 1) * w + w == k * w;
      assert k * w + w == (k + 1) * w;
    }
  }

  /** If the input has at most n*w elements there are at most n pieces. */
  lemma {:induction false} ChunkCountBound<T>(s: seq<T>, w: nat, n: nat)
    requires w > 0 && |s| <= n * w
    ensures |Chunks(s, w)| <= n
    decreases |s|
  {
    if |s| > w {
      assert |s[w..]| <= (n - 1) * w;
      ChunkCountBound(s[w..], w, n - 1);
    }
  }

  lemma InFlatten<T>(ss: seq<seq<T>>, x: T)
    ensures x in Flatten(ss) <==> exists k :: 0 <= k < |ss| && x in ss[k]
  {
    if ss != [] {
      InFlatten(ss[1..], x);
      if exists k :: 0 <= k < |ss[1..]| && x in ss[1..][k] {
        var k :| 0 <= k < |ss[1..]| && x in ss[1..][k];
        assert x in ss[k + 1];
      }
      if exists k :: 0 <= k < |ss| && x in ss[k] {
        var k :| 0 <= k < |ss| && x in ss[k];
        if k > 0 {
          assert x in ss[1..][k - 1];
        }
      }
    }
  }

  /**
   * The width floor(N/12)+1 gives at most twelve pieces, and none exactly
   * when the series is empty.
   */
  lemma AtMostTwelveChunks<T>(s: seq<T>)
    ensures |Chunks(s, Width(|s|))| <= NumChunks
    ensures |Chunks(s, Width(|s|))| == 0 <==> s == []
  {
    var n := |s|;
    assert n == NumChunks * (n / NumChunks) + n % NumChunks;
    assert n <= NumChunks * Width(n);
    ChunkCountBound(s, Width(n), NumChunks);
  }

  /** 25 rows: width 3, nine pieces, eight of 3 and a last one of 1. */
  lemma TwentyFiveRows<T>(s: seq<T>)
    requires |s| == 25
    ensures Width(|s|) == 3
    ensures |Chunks(s, 3)| == 9
    ensures forall k :: 0 <= k < 8 ==> |Chunks(s, 3)[k]| == 3
    ensures |Chunks(s, 3)[8]| == 1
  {
    ChunksShape(s, 3);
    ChunkAt(s, 3, 8);
  }

  // ---------------------------------------------------------------------------
  // Per-piece mean
  // ---------------------------------------------------------------------------

  /** `json_decode($item)[$i]` finds a value. */
  predicate HasField(row: seq<int>, i: int)
  {
    0 <= i < |row|
  }

  predicate AllHaveField(rows: seq<seq<int>>, i: int)
  {
    forall r :: r in rows ==> HasField(r, i)
  }

  /** The sum of field i over the rows. */
  function FieldSum(rows: seq<seq<int>>, i: int): int
    requires AllHaveField(rows, i)
  {
    if rows == [] then 0
    else
      var init, last := rows[..|rows| - 1], rows[|rows| - 1];
      assert last in rows && forall r :: r in init ==> r in rows;
      FieldSum(init, i) + last[i]
  }

  /** The closure's result for one piece: `(int)($sum / $count)`. */
  function ChunkMeanOf(chunk: seq<seq<int>>, i: int): int
    requires |chunk| > 0 && AllHaveField(chunk, i)
  {
    TruncDiv(FieldSum(chunk, i), |chunk|)
  }

  /**
   * The closure's loop over one piece. It fails, as the source raises,
   * exactly when some row lacks the field.
   */
  method ChunkMean(chunk: seq<seq<int>>, i: int) returns (r: Option<int>)
    requires |chunk| > 0
    ensures r.Some? <==> AllHaveField(chunk, i)
    ensures r.Some? ==> r.value == ChunkMeanOf(chunk, i)
  {
    var sum, count := 0, 0;
    for k := 0 to |chunk|
      invariant count == k
      invariant AllHaveField(chunk[..k], i)
      invariant sum == FieldSum(chunk[..k], i)
    {
      if !(0 <= i < |chunk[k]|) {
        assert chunk[k] in chunk;
        return None;
      }
      assert chunk[..k + 1][..k] == chunk[..k];
      sum := sum + chunk[k][i];
      count := count + 1;
    }
    assert chunk[..|chunk|] == chunk;
    r := Some(TruncDiv(sum, count));
  }

  lemma {:induction false} FieldSumBetween(rows: seq<seq<int>>, i: int, lo: int, hi: int)
    requires AllHaveField(rows, i)
    requires forall r :: r in rows ==> lo <= r[i] <= hi
    ensures lo * |rows| <= FieldSum(rows, i) <= hi * |rows|
  {
    if rows != [] {
      var init := rows[..|rows| - 1];
      assert forall r :: r in init ==> r in rows;
      var last := rows[|rows| - 1];
      assert last in rows;
      FieldSumBetween(init, i, lo, hi);
      assert FieldSum(rows, i) == FieldSum(init, i) + last[i];
      MulSucc(lo, |init|);
      MulSucc(hi, |init|);
    }
  }

  lemma MulSucc(x: int, n: int)
    ensures x * (n + 1) == x * n + x
  {
  }

  /** A piece's mean lies between the smallest and the largest value of its field. */
  lemma ChunkMeanBetween(chunk: seq<seq<int>>, i: int, lo: int, hi: int)
    requires |chunk| > 0 && AllHaveField(chunk, i)
    requires forall r :: r in chunk ==> lo <= r[i] <= hi
    ensures lo <= ChunkMeanOf(chunk, i) <= hi
  {
    FieldSumBetween(chunk, i, lo, hi);
    TruncDivBetween(FieldSum(chunk, i), |chunk|, lo, hi);
  }

  /** A piece whose field is constant has that constant as its mean. */
  lemma ChunkMeanOfConstant(chunk: seq<seq<int>>, i: int, v: int)
    requires |chunk| > 0 && AllHaveField(chunk, i)
    requires forall r :: r in chunk ==> r[i] == v
    ensures ChunkMeanOf(chunk, i) == v
  {
    ChunkMeanBetween(chunk, i, v, v);
  }

  // ---------------------------------------------------------------------------
  // parseValid, parseValid1, parseValidWithTime
  // ---------------------------------------------------------------------------

  /** The result of parseValid and parseValid1: the bucket means, or the 0 that the catch returns. */
  datatype Binned = Buckets(means: seq<int>) | CaughtZero

  /** Every piece is non-empty and every row of it has field i. */
  predicate ChunksReady(chunks: seq<seq<seq<int>>>, i: int)
  {
    forall k :: 0 <= k < |chunks| ==> |chunks[k]| > 0 && AllHaveField(chunks[k], i)
  }

  /** `array_map` of the closure over the pieces, as a specification. */
  function MeansOf(chunks: seq<seq<seq<int>>>, i: int): (r: seq<int>)
    requires ChunksReady(chunks, i)
    ensures |r| == |chunks|
    ensures forall k :: 0 <= k < |chunks| ==> r[k] == ChunkMeanOf(chunks[k], i)
  {
    if chunks == [] then []
    else
      assert ChunksReady(chunks[..|chunks| - 1], i);
      MeansOf(chunks[..|chunks| - 1], i) + [ChunkMeanOf(chunks[|chunks| - 1], i)]
  }

  /** Every row of the series lies in some piece and every piece row in the series. */
  lemma ChunksReadyIff(rows: seq<seq<int>>, i: int)
    ensures var c := Chunks(rows, Width(|rows|));
      ChunksReady(c, i) <==> AllHaveField(rows, i)
  {
    var c := Chunks(rows, Width(|rows|));
    ChunksShape(rows, Width(|rows|));
    forall r | r in rows
      ensures exists k :: 0 <= k < |c| && r in c[k]
    {
      InFlatten(c, r);
    }
    forall k, r | 0 <= k < |c| && r in c[k]
      ensures r in rows
    {
      InFlatten(c, r);
    }
  }

  /** parseValid(rows, i) as a value: the means of the pieces, or the caught 0. */
  function BinnedMeans(rows: seq<seq<int>>, i: int): Binned
  {
    var c := Chunks(rows, Width(|rows|));
    ChunksReadyIff(rows, i);
    if AllHaveField(rows, i) then Buckets(MeansOf(c, i)) else CaughtZero
  }

  /** The chunk-and-map pipeline of parseValid, with the closure's loop as ChunkMean. */
  method ParseValid(rows: seq<seq<int>>, i: int) returns (r: Binned)
    ensures r == BinnedMeans(rows, i)
  {
    var width := |rows| / NumChunks + 1;
    var chunks := Chunks(rows, width);
    ChunksNonEmpty(rows, width);
    ChunksReadyIff(rows, i);
    var means: seq<int> := [];
    for k := 0 to |chunks|
      invariant ChunksReady(chunks[..k], i)
      invariant means == MeansOf(chunks[..k], i)
    {
      var m := ChunkMean(chunks[k], i);
      if m.None? {
        assert !ChunksReady(chunks, i);
        return CaughtZero;
      }
      assert chunks[..k + 1] == chunks[..k] + [chunks[k]];
      assert chunks[..k + 1][..k] == chunks[..k];
      means := means + [m.value];
    }
    assert chunks[..|chunks|] == chunks;
    r := Buckets(means);
  }

  /** parseValid1 is parseValid on the first field. */
  method ParseValid1(rows: seq<seq<int>>) returns (r: Binned)
    ensures r == BinnedMeans(rows, 0)
  {
    r := ParseValid(rows, 0);
  }

  /** An empty series gives no buckets. */
  lemma EmptySeriesNoBuckets(i: int)
    ensures BinnedMeans([], i) == Buckets([])
  {
  }

  /**
   * The buckets of parseValid: one per piece, at most twelve, each the
   * rounded-toward-zero mean of field i over its piece; the catch answers 0
   * exactly when some row lacks the field.
   */
  lemma BinnedMeansAt(rows: seq<seq<int>>, i: int, k: nat)
    ensures BinnedMeans(rows, i).CaughtZero? <==> !AllHaveField(rows, i)
    ensures BinnedMeans(rows, i).Buckets? ==> |BinnedMeans(rows, i).means| <= NumChunks
    ensures BinnedMeans(rows, i).Buckets? && k < |BinnedMeans(rows, i).means| ==> k * Width(|rows|) < |rows|
    ensures BinnedMeans(rows, i).Buckets? && k < |BinnedMeans(rows, i).means| ==>
      var w := Width(|rows|);
      var piece := rows[k * w .. if (k + 1) * w <= |rows| then (k + 1) * w else |rows|];
      |piece| > 0 && AllHaveField(piece, i) &&
      BinnedMeans(rows, i).means[k] == TruncDiv(FieldSum(piece, i), |piece|)
  {
    AtMostTwelveChunks(rows);
    var w := Width(|rows|);
    ChunksShape(rows, w);
    ChunksReadyIff(rows, i);
    if BinnedMeans(rows, i).Buckets? && k < |BinnedMeans(rows, i).means| {
      ChunkAt(rows, w, k);
    }
  }

  /** One bucket of parseValidWithTime: a timestamp in milliseconds and the mean. */
  datatype TimedBucket = TimedBucket(timeMs: real, mean: int)

  /**
   * `($from + $index * ($to - $from) / 12) * 1000`: evenly spaced in the
   * requested range and independent of when the rows were taken.
   */
  function BucketTime(from: int, to: int, index: nat): real
  {
    (from as real + (index * (to - from)) as real / 12.0) * 1000.0
  }

  /** The first bucket sits at the range start, a twelfth index at its end, and the spacing is even. */
  lemma BucketTimeSpacing(from: int, to: int, index: nat)
    ensures BucketTime(from, to, 0) == from as real * 1000.0
    ensures BucketTime(from, to, 12) == to as real * 1000.0
    ensures BucketTime(from, to, index + 1) - BucketTime(from, to, index) == (to - from) as real * 1000.0 / 12.0
  {
  }

  /** parseValidWithTime as a value; None when a row lacks the field and the error escapes. */
  function TimedBins(rows: seq<seq<int>>, i: int, from: int, to: int): Option<seq<TimedBucket>>
  {
    match BinnedMeans(rows, i)
    case CaughtZero => None
    case Buckets(means) => Some(seq(|means|, k requires 0 <= k < |means| => TimedBucket(BucketTime(from, to, k), means[k])))
  }

  /** The pipeline of parseValidWithTime: the same pieces and means, each paired with its bucket time. */
  method ParseValidWithTime(rows: seq<seq<int>>, i: int, from: int, to: int) returns (r: Option<seq<TimedBucket>>)
    ensures r == TimedBins(rows, i, from, to)
  {
    var width := |rows| / 12 + 1;
    var chunks := Chunks(rows, width);
    ChunksNonEmpty(rows, width);
    ChunksReadyIff(rows, i);
    var buckets: seq<TimedBucket> := [];
    for index := 0 to |chunks|
      invariant forall j :: 0 <= j < index ==> AllHaveField(chunks[j], i)
      invariant |buckets| == index
      invariant forall k :: 0 <= k < index ==> buckets[k] == TimedBucket(BucketTime(from, to, k), ChunkMeanOf(chunks[k], i))
    {
      var m := ChunkMean(chunks[index], i);
      if m.None? {
        assert !ChunksReady(chunks, i);
        assert BinnedMeans(rows, i) == CaughtZero;
        return None;
      }
      buckets := buckets + [TimedBucket((from as real + (index * (to - from)) as real / 12.0) * 1000.0, m.value)];
    }
    assert ChunksReady(chunks, i);
    ghost var means := MeansOf(chunks, i);
    assert BinnedMeans(rows, i) == Buckets(means);
    assert buckets == TimedBins(rows, i, from, to).value;
    r := Some(buckets);
  }

  /**
   * The timed buckets carry the same means as parseValid's buckets, and
   * bucket k's time depends only on the range and k.
   */
  lemma TimedBinsMatchMeans(rows: seq<seq<int>>, i: int, from: int, to: int)
    ensures TimedBins(rows, i, from, to).None? <==> BinnedMeans(rows, i).CaughtZero?
    ensures TimedBins(rows, i, from, to).Some? ==>
      var b := TimedBins(rows, i, from, to).value;
      var means := BinnedMeans(rows, i).means;
      |b| == |means| &&
      forall k :: 0 <= k < |b| ==> b[k].mean == means[k] && b[k].timeMs == BucketTime(from, to, k)
  {
  }
}
