/**
 * The statistics engine: per-channel histograms accumulated row by row over a
 * frame, and the end-of-frame simple statistics and percentile.  Each method
 * is proved against the specification functions of module Histogram.
 */
module Statistics {
  import opened CameraTypes
  import opened Histogram

  /**
   * `update_histogram`: sample the row at positions 0, step, 2*step, ... below
   * its width and increment the bin of each sample.  Every bin grows by the
   * number of samples that land in it, bins no sample lands in are unchanged,
   * and the total count grows by exactly ceil(width / step).
   */
  method UpdateHistogram(bins: array<nat>, pix: seq<int8>, step: nat, q: nat)
    requires 0 < step && q <= 8 && bins.Length == BinCount(q)
    modifies bins
    ensures forall b :: 0 <= b < bins.Length ==>
      bins[b] == old(bins[b]) + SampleBins(pix, step, q, 0)[b]
    ensures forall b :: 0 <= b < bins.Length && b !in SampleBins(pix, step, q, 0) ==>
      bins[b] == old(bins[b])
    ensures Total(bins[..]) == Total(old(bins[..])) + SampleCount(|pix|, step)
  {
    var k := 0;
    while k < |pix|
      invariant forall b :: 0 <= b < bins.Length ==>
        bins[b] + Hits(pix, step, q, k, b) == old(bins[b]) + Hits(pix, step, q, 0, b)
      decreases |pix| - k
    {
      var val := pix[k] as int;
      val := val + 128;        // convert from int8 to uint8
      val := val / Pow2(q);    // val >>= q
      assert val == BinOf(pix[k], q);
      bins[val] := bins[val] + 1;
      k := k + step;
    }
    forall b | 0 <= b < bins.Length
      ensures bins[b] == old(bins[b]) + SampleBins(pix, step, q, 0)[b]
    {
      HitsIsMultiplicity(pix, step, q, 0, b);
    }
    SampleBinsSize(pix, step, q, 0);
    TotalAdd(old(bins[..]), bins[..], SampleBins(pix, step, q, 0));
  }

  /** `channel_stats_t`: one colour channel's histogram and derived statistics. */
  class ChannelStats {
    /** APP_HISTOGRAM_QUANTIZATION_BITS */
    const quantBits: nat
    /** `histogram.bins` */
    const bins: array<nat>
    /** `mean` before its floating-point normalisation: the sum of bin * index. */
    var weightedSum: nat
    var max: nat
    var min: nat
    /** `percentile`; None while `find_percentile` has left it unassigned. */
    var percentile: Option<nat>

    ghost predicate Valid()
      reads this
    {
      quantBits <= 8 && bins.Length == BinCount(quantBits)
    }

    /** A zero-initialised `channel_stats_t`, as declared at the start of each frame. */
    constructor Zeroed(q: nat)
      requires q <= 8
      ensures Valid() && quantBits == q && fresh(bins)
      ensures forall b :: 0 <= b < bins.Length ==> bins[b] == 0
      ensures weightedSum == 0 && max == 0 && min == 0 && percentile == Some(0)
    {
      quantBits := q;
      bins := new nat[BinCount(q)](_ => 0);
      weightedSum, max, min := 0, 0, 0;
      percentile := Some(0);
    }

    /**
     * `compute_simple_stats`: fold the bin counts into the incoming max, min
     * and weighted sum, then scale max and min by `<< q`.
     */
    method ComputeSimpleStats()
      requires Valid()
      modifies this`weightedSum, this`max, this`min
      ensures weightedSum == old(weightedSum) + Weighted(bins[..], bins.Length)
      ensures max == MaxUpTo(old(max), bins[..], bins.Length) * Pow2(quantBits)
      ensures min == MinUpTo(old(min), bins[..], bins.Length) * Pow2(quantBits)
    {
      ghost var s := bins[..];
      for k := 0 to bins.Length
        invariant weightedSum == old(weightedSum) + Weighted(s, k)
        invariant max == MaxUpTo(old(max), s, k)
        invariant min == MinUpTo(old(min), s, k)
      {
        var bin := bins[k];
        assert bin == s[k];
        MulMono(0, bin, k);
        weightedSum := weightedSum + bin * k;
        max := if max >= bin then max else bin;
        min := if min <= bin then min else bin;
      }
      var scale := Pow2(quantBits);
      MulMono(0, max, scale);
      MulMono(0, min, scale);
      max := max * scale;
      min := min * scale;
    }

    /**
     * `find_percentile` with the threshold already computed: a running total
     * over every bin, with no early exit, remembering the bin where the total
     * crosses the threshold.  The stored result is the percentile of the
     * histogram (None when no bin crosses).
     */
    method FindPercentile(threshold: nat)
      requires Valid()
      modifies this`percentile
      ensures percentile == Percentile(bins[..], threshold, quantBits)
    {
      var result: Option<nat> := None;
      var total := 0;
      for k := 0 to bins.Length
        invariant total == Prefix(bins[..], k)
        invariant result == LastCrossing(bins[..], threshold, k, quantBits)
      {
        var newTotal := total + bins[k];
        if total < threshold && newTotal >= threshold {
          result := Some(k * Pow2(quantBits));
        }
        total := newTotal;
      }
      ScanFindsPercentile(bins[..], threshold, quantBits);
      percentile := result;
    }
  }

  /** The bins hit, in channel c, by the first n rows of a frame. */
  function FrameBins(stream: seq<Option<Row>>, n: nat, c: nat, step: nat, q: nat): multiset<nat>
    requires n <= |stream| && c < ChannelCount && 0 < step && q <= 8
    requires forall i :: 0 <= i < n ==> stream[i].Some? && |stream[i].value| == ChannelCount
  {
    if n == 0 then multiset{}
    else FrameBins(stream, n - 1, c, step, q) + SampleBins(stream[n - 1].value[c], step, q, 0)
  }

  /** `global_stats_t`: one ChannelStats per colour channel, each with its own bins. */
  ghost predicate GlobalStats(stats: seq<ChannelStats>, q: nat)
    reads stats
  {
    && |stats| == ChannelCount
    && (forall c :: 0 <= c < ChannelCount ==> stats[c].Valid() && stats[c].quantBits == q)
    && (forall c, d :: 0 <= c < d < ChannelCount ==> stats[c] != stats[d] && stats[c].bins != stats[d].bins)
  }

  /**
   * The end-of-frame statistics of one channel, computed from zeroed fields:
   * the weighted sum, the scaled largest bin count, the minimum (which stays
   * 0) and the percentile of the accumulated histogram.
   */
  ghost predicate Finished(st: ChannelStats, threshold: nat)
    reads st, st.bins
  {
    && st.Valid()
    && st.min == 0
    && st.max == MaxUpTo(0, st.bins[..], st.bins.Length) * Pow2(st.quantBits)
    && st.weightedSum == Weighted(st.bins[..], st.bins.Length)
    && st.percentile == Percentile(st.bins[..], threshold, st.quantBits)
  }

  /** The body of the inner loop of `statistics_thread`: histogram one row in every channel. */
  method HistogramRow(stats: seq<ChannelStats>, row: Row, step: nat, q: nat)
    requires 0 < step && q <= 8 && GlobalStats(stats, q) && |row| == ChannelCount
    modifies stats[Red].bins, stats[Green].bins, stats[Blue].bins
    ensures forall c, b :: 0 <= c < ChannelCount && 0 <= b < BinCount(q) ==>
      stats[c].bins[b] == old(stats[c].bins[b]) + SampleBins(row[c], step, q, 0)[b]
  {
    for channel := 0 to ChannelCount
      invariant forall c, b :: 0 <= c < ChannelCount && 0 <= b < BinCount(q) ==>
        stats[c].bins[b] == old(stats[c].bins[b]) + (if c < channel then SampleBins(row[c], step, q, 0)[b] else 0)
    {
      UpdateHistogram(stats[channel].bins, row[channel], step, q);
    }
  }

  /**
   * End-of-frame work of `statistics_thread` on zeroed statistics: the simple
   * statistics and the percentile of every channel.
   */
  method FinishFrame(stats: seq<ChannelStats>, q: nat, threshold: nat)
    requires GlobalStats(stats, q)
    requires forall c :: 0 <= c < ChannelCount ==>
      stats[c].min == 0 && stats[c].max == 0 && stats[c].weightedSum == 0
    modifies stats[Red], stats[Green], stats[Blue]
    ensures forall c :: 0 <= c < ChannelCount ==> Finished(stats[c], threshold)
    ensures forall c :: 0 <= c < ChannelCount ==> unchanged(stats[c].bins)
  {
    for channel := 0 to ChannelCount
      invariant forall c :: channel <= c < ChannelCount ==>
        stats[c].min == 0 && stats[c].max == 0 && stats[c].weightedSum == 0
      invariant forall c :: 0 <= c < channel ==> Finished(stats[c], threshold)
    {
      stats[channel].ComputeSimpleStats();
      stats[channel].FindPercentile(threshold);
      ZeroedSimpleStats(stats[channel].bins[..], q);
    }
  }

  /** The zero-initialised `global_stats_t` declared at the start of each frame. */
  method NewGlobalStats(q: nat) returns (stats: seq<ChannelStats>)
    requires q <= 8
    ensures GlobalStats(stats, q)
    ensures forall c :: 0 <= c < ChannelCount ==> fresh(stats[c]) && fresh(stats[c].bins)
    ensures forall c :: 0 <= c < ChannelCount ==>
      stats[c].min == 0 && stats[c].max == 0 && stats[c].weightedSum == 0
    ensures forall c, b :: 0 <= c < ChannelCount && 0 <= b < BinCount(q) ==> stats[c].bins[b] == 0
  {
    var red := new ChannelStats.Zeroed(q);
    var green := new ChannelStats.Zeroed(q);
    var blue := new ChannelStats.Zeroed(q);
    stats := [red, green, blue];
  }

  /**
   * The inner loop of `statistics_thread`: rows are received and histogrammed
   * until the end-of-frame sentinel (None, the NULL row pointer).  `stream` is
   * what arrives on the row channel; if it runs out before a sentinel the
   * frame is still open.  Starting from empty bins, every channel's bins hold
   * the samples of the rows received.
   */
  method ReceiveRows(stats: seq<ChannelStats>, stream: seq<Option<Row>>, step: nat, q: nat)
    returns (rows: nat, ended: bool)
    requires 0 < step && q <= 8 && GlobalStats(stats, q)
    requires forall i :: 0 <= i < |stream| && stream[i].Some? ==> |stream[i].value| == ChannelCount
    requires forall c, b :: 0 <= c < ChannelCount && 0 <= b < BinCount(q) ==> stats[c].bins[b] == 0
    modifies stats[Red].bins, stats[Green].bins, stats[Blue].bins
    ensures rows <= |stream| && forall i :: 0 <= i < rows ==> stream[i].Some?
    ensures ended ==> rows < |stream| && stream[rows].None?
    ensures !ended ==> rows == |stream|
    ensures forall c, b :: 0 <= c < ChannelCount && 0 <= b < BinCount(q) ==>
      stats[c].bins[b] == FrameBins(stream, rows, c, step, q)[b]
  {
    rows, ended := 0, false;
    while rows < |stream|
      invariant rows <= |stream| && forall i :: 0 <= i < rows ==> stream[i].Some?
      invariant forall c, b :: 0 <= c < ChannelCount && 0 <= b < BinCount(q) ==>
        stats[c].bins[b] == FrameBins(stream, rows, c, step, q)[b]
      decreases |stream| - rows
    {
      if stream[rows].None? {
        // end of frame
        ended := true;
        break;
      }
      HistogramRow(stats, stream[rows].value, step, q);
      rows := rows + 1;
    }
  }

  /**
   * One iteration of the outer loop of `statistics_thread`: fresh zeroed
   * statistics for every channel, then the rows of the frame are received,
   * and once the sentinel arrives the simple statistics and percentile of
   * every channel are computed.  If the stream runs out before a sentinel no
   * end-of-frame work is done.
   */
  method CollectFrame(stream: seq<Option<Row>>, step: nat, q: nat, threshold: nat)
    returns (stats: seq<ChannelStats>, rows: nat, ended: bool)
    requires 0 < step && q <= 8
    requires forall i :: 0 <= i < |stream| && stream[i].Some? ==> |stream[i].value| == ChannelCount
    ensures GlobalStats(stats, q)
    ensures forall c :: 0 <= c < ChannelCount ==> fresh(stats[c]) && fresh(stats[c].bins)
    ensures rows <= |stream| && forall i :: 0 <= i < rows ==> stream[i].Some?
    ensures ended ==> rows < |stream| && stream[rows].None?
    ensures !ended ==> rows == |stream|
    ensures forall c, b :: 0 <= c < ChannelCount && 0 <= b < BinCount(q) ==>
      stats[c].bins[b] == FrameBins(stream, rows, c, step, q)[b]
    ensures ended ==> forall c :: 0 <= c < ChannelCount ==> Finished(stats[c], threshold)
  {
    stats := NewGlobalStats(q);
    rows, ended := ReceiveRows(stats, stream, step, q);
    if ended {
      FinishFrame(stats, q, threshold);
    }
  }
}
