/**
 * Specification of the integer parts of the statistics engine: which bin a
 * sample lands in, which samples a row contributes, prefix sums of a
 * histogram, the percentile a histogram defines, and the running max/min/
 * weighted-sum folds of `compute_simple_stats`.
 */
module Histogram {
  import opened CameraTypes

  /** HISTOGRAM_BIN_COUNT for `q` quantisation bits: 2^(8 - q). */
  function BinCount(q: nat): nat
    requires q <= 8
  {
    Pow2(8 - q)
  }

  lemma BinBound(v: int8, q: nat)
    requires q <= 8
    ensures 0 <= (v as int + 128) / Pow2(q) < BinCount(q)
  {
    Pow2Add(q, 8 - q);
    assert Pow2(8) == 256;
    DivBelow(v as int + 128, Pow2(q), Pow2(8 - q));
  }

  /**
   * The bin of one sample: bias the signed value by 128 to an unsigned one,
   * then drop its `q` low bits (`(val + 128) >> q`).  Every int8 value lands
   * in one of the BinCount(q) bins.
   */
  function BinOf(v: int8, q: nat): (b: nat)
    requires q <= 8
    ensures b < BinCount(q)
    ensures b * Pow2(q) <= v as int + 128 < (b + 1) * Pow2(q)
  {
    BinBound(v, q);
    DivBracket(v as int + 128, Pow2(q));
    (v as int + 128) / Pow2(q)
  }

  /**
   * The bins hit by the samples of `pix` at positions k, k + step, k + 2*step, ...
   * below |pix|, counted with multiplicity.
   */
  function SampleBins(pix: seq<int8>, step: nat, q: nat, k: nat): (m: multiset<nat>)
    requires 0 < step && q <= 8
    ensures forall b :: b in m ==> b < BinCount(q)
    decreases |pix| - k
  {
    if k >= |pix| then multiset{}
    else multiset{BinOf(pix[k], q)} + SampleBins(pix, step, q, k + step)
  }

  /** How many of the samples at positions k, k + step, ... land in bin b. */
  function Hits(pix: seq<int8>, step: nat, q: nat, k: nat, b: nat): nat
    requires 0 < step && q <= 8
    decreases |pix| - k
  {
    if k >= |pix| then 0
    else (if BinOf(pix[k], q) == b then 1 else 0) + Hits(pix, step, q, k + step, b)
  }

  /** Hits counts the multiplicity of b among the sampled bins. */
  lemma {:induction false} HitsIsMultiplicity(pix: seq<int8>, step: nat, q: nat, k: nat, b: nat)
    requires 0 < step && q <= 8
    ensures Hits(pix, step, q, k, b) == SampleBins(pix, step, q, k)[b]
    decreases |pix| - k
  {
    if k < |pix| {
      var v := BinOf(pix[k], q);
      assert SampleBins(pix, step, q, k) == multiset{v} + SampleBins(pix, step, q, k + step);
      HitsIsMultiplicity(pix, step, q, k + step, b);
    }
  }

  /** HISTOGRAM_SAMPLE_PER_ROW for a row of width `w`: ceil(w / step). */
  function SampleCount(w: nat, step: nat): nat
    requires 0 < step
  {
    (w + step - 1) / step
  }

  lemma DivBelow(a: int, d: int, n: int)
    requires 0 <= a < d * n && 0 < d
    ensures 0 <= a / d < n
  {
    var y, m := a / d, a % d;
    assert a == y * d + m && 0 <= m < d;
    if y >= n {
      MulMono(n, y, d);
      assert false;
    }
    if y < 0 {
      MulMono(y, -1, d);
      assert false;
    }
  }

  lemma DivStep(a: nat, d: nat)
    requires 0 < d
    ensures (a + d) / d == a / d + 1
  {
    assert a == (a / d) * d + a % d;
    assert a + d == (a / d + 1) * d + a % d;
    DivUnique(a + d, d, a / d + 1, a % d);
  }

  lemma DivOne(a: nat, d: nat)
    requires 0 < d <= a < 2 * d
    ensures a / d == 1
  {
    DivUnique(a, d, 1, a - d);
  }

  lemma SampleCountZero(step: nat)
    requires 0 < step
    ensures SampleCount(0, step) == 0
  {
    DivUnique(step - 1, step, 0, step - 1);
  }

  lemma SampleCountOne(n: nat, step: nat)
    requires 0 < n <= step
    ensures SampleCount(n, step) == 1
  {
    DivOne(n + step - 1, step);
  }

  lemma SampleCountStep(n: nat, step: nat)
    requires 0 < step < n
    ensures SampleCount(n, step) == 1 + SampleCount(n - step, step)
  {
    DivStep(n - 1, step);
    assert n + step - 1 == (n - 1) + step;
    assert n - step + step - 1 == n - 1;
  }

  /** A non-empty row yields its first sample, then the samples of the rest beyond one step. */
  lemma SampleCountSplit(w: nat, step: nat)
    requires 0 < step && 0 < w
    ensures SampleCount(w, step) == 1 + (if w > step then SampleCount(w - step, step) else 0)
  {
    if w > step {
      SampleCountStep(w, step);
    } else {
      SampleCountOne(w, step);
    }
  }

  /** A row of width w contributes exactly ceil(w / step) samples. */
  lemma {:induction false} SampleBinsSize(pix: seq<int8>, step: nat, q: nat, k: nat)
    requires 0 < step && q <= 8 && k <= |pix|
    ensures |SampleBins(pix, step, q, k)| == SampleCount(|pix| - k, step)
    decreases |pix| - k
  {
    if k == |pix| {
      SampleCountZero(step);
    } else {
      var rest := SampleBins(pix, step, q, k + step);
      assert |SampleBins(pix, step, q, k)| == 1 + |rest|;
      if k + step < |pix| {
        SampleBinsSize(pix, step, q, k + step);
      } else {
        assert rest == multiset{};
      }
      SampleCountSplit(|pix| - k, step);
    }
  }

  /** Sum of the first k bins. */
  function Prefix(s: seq<nat>, k: nat): nat
    requires k <= |s|
  {
    if k == 0 then 0 else Prefix(s, k - 1) + s[k - 1]
  }

  /** Sum of all bins. */
  function Total(s: seq<nat>): nat {
    Prefix(s, |s|)
  }

  /** Running totals never decrease. */
  lemma {:induction false} PrefixMonotone(s: seq<nat>, i: nat, j: nat)
    requires i <= j <= |s|
    ensures Prefix(s, i) <= Prefix(s, j)
    decreases j
  {
    if i < j { PrefixMonotone(s, i, j - 1); }
  }

  lemma {:induction false} PrefixIncrement(s: seq<nat>, b: nat, k: nat)
    requires b < |s| && k <= |s|
    ensures Prefix(s[b := s[b] + 1], k) == Prefix(s, k) + (if b < k then 1 else 0)
  {
    if k > 0 { PrefixIncrement(s, b, k - 1); }
  }

  /** Incrementing one bin increments the total by one. */
  lemma TotalIncrement(s: seq<nat>, b: nat)
    requires b < |s|
    ensures Total(s[b := s[b] + 1]) == Total(s) + 1
  {
    PrefixIncrement(s, b, |s|);
  }

  /**
   * Adding a multiset of bin indices to a histogram, one count per element,
   * adds its size to the total.
   */
  lemma {:induction false} TotalAdd(s: seq<nat>, t: seq<nat>, m: multiset<nat>)
    requires |s| == |t|
    requires forall b :: 0 <= b < |s| ==> t[b] == s[b] + m[b]
    requires forall x :: x in m ==> x < |s|
    ensures Total(t) == Total(s) + |m|
    decreases |m|
  {
    if m == multiset{} {
      assert t == s;
    } else {
      var x :| x in m;
      var m' := m - multiset{x};
      var t' := t[x := t[x] - 1];
      forall b | 0 <= b < |s|
        ensures t'[b] == s[b] + m'[b]
      {
      }
      TotalAdd(s, t', m');
      assert t == t'[x := t'[x] + 1];
      TotalIncrement(t', x);
    }
  }

  /**
   * Bin k is where the running total crosses the threshold:
   * the total before it is below `t`, the total including it reaches `t`.
   */
  predicate Crosses(s: seq<nat>, k: nat, t: nat) {
    k < |s| && Prefix(s, k) < t <= Prefix(s, k + 1)
  }

  /** At most one bin crosses any threshold. */
  lemma CrossingUnique(s: seq<nat>, t: nat, i: nat, j: nat)
    requires Crosses(s, i, t) && Crosses(s, j, t)
    ensures i == j
  {
    if i < j {
      PrefixMonotone(s, i + 1, j);
    } else if j < i {
      PrefixMonotone(s, j + 1, i);
    }
  }

  /** The first bin, from k on, whose prefix sum reaches `t`; |s| if none does. */
  function LeastReaching(s: seq<nat>, t: nat, k: nat): nat
    requires k <= |s|
    decreases |s| - k
  {
    if k == |s| then |s|
    else if Prefix(s, k + 1) >= t then k
    else LeastReaching(s, t, k + 1)
  }

  lemma {:induction false} LeastReachingCrosses(s: seq<nat>, t: nat, k: nat)
    requires k <= |s| && Prefix(s, k) < t <= Total(s)
    ensures Crosses(s, LeastReaching(s, t, k), t)
    ensures k <= LeastReaching(s, t, k)
    decreases |s| - k
  {
    if k == |s| {
    } else if Prefix(s, k + 1) >= t {
    } else {
      LeastReachingCrosses(s, t, k + 1);
    }
  }

  lemma MultipleMod(k: nat, d: nat)
    requires 0 < d
    ensures (k * d) % d == 0
  {
    DivUnique(k * d, d, k, 0);
    assert k * d == d * ((k * d) / d) + (k * d) % d;
  }

  lemma ByteBound(k: nat, q: nat)
    requires q <= 8 && k < BinCount(q)
    ensures k * Pow2(q) < 256
  {
    var d := Pow2(q);
    Pow2Add(8 - q, q);
    assert 8 - q + q == 8;
    assert Pow2(8) == 256;
    assert BinCount(q) * d == 256;
    MulMono(k + 1, BinCount(q), d);
    assert (k + 1) * d == k * d + d;
  }

  /** `k << q` is a multiple of 2^q, and fits a byte when k is a bin index. */
  lemma ScaledBin(k: nat, q: nat, n: nat)
    requires q <= 8 && k < n
    ensures 0 <= k * Pow2(q) && (k * Pow2(q)) % Pow2(q) == 0
    ensures n == BinCount(q) ==> k * Pow2(q) < 256
  {
    MulMono(0, k, Pow2(q));
    MultipleMod(k, Pow2(q));
    if n == BinCount(q) {
      ByteBound(k, q);
    }
  }

  /**
   * The pixel value below which a threshold's worth of samples fall: the
   * least bin whose prefix sum reaches `t`, scaled back by `<< q`.  Defined
   * only when 0 < t <= Total(s); otherwise the source leaves its result
   * unassigned, modelled as None.
   */
  function Percentile(s: seq<nat>, t: nat, q: nat): (r: Option<nat>)
    requires q <= 8
    ensures r.Some? <==> 0 < t <= Total(s)
    ensures r.Some? ==> r.value % Pow2(q) == 0
    ensures r.Some? && |s| == BinCount(q) ==> r.value < 256
  {
    if 0 < t <= Total(s) then
      LeastReachingCrosses(s, t, 0);
      var k := LeastReaching(s, t, 0);
      ScaledBin(k, q, |s|);
      Some(k * Pow2(q))
    else None
  }

  /**
   * When defined, the percentile is bin k scaled by 2^q, where k is the
   * crossing bin and no earlier bin reaches the threshold.
   */
  lemma PercentileIsLeast(s: seq<nat>, t: nat, q: nat)
    requires q <= 8 && 0 < t <= Total(s)
    ensures var k := LeastReaching(s, t, 0);
      && Percentile(s, t, q) == Some(k * Pow2(q))
      && Crosses(s, k, t)
      && forall j :: 0 <= j <= k ==> Prefix(s, j) < t
  {
    var k := LeastReaching(s, t, 0);
    LeastReachingCrosses(s, t, 0);
    forall j | 0 <= j <= k
      ensures Prefix(s, j) < t
    {
      PrefixMonotone(s, j, k);
    }
  }

  /** A larger threshold never yields a smaller percentile. */
  lemma PercentileMonotone(s: seq<nat>, t1: nat, t2: nat, q: nat)
    requires q <= 8 && 0 < t1 <= t2 <= Total(s)
    ensures Percentile(s, t1, q).value <= Percentile(s, t2, q).value
  {
    PercentileIsLeast(s, t1, q);
    PercentileIsLeast(s, t2, q);
    var k1, k2 := LeastReaching(s, t1, 0), LeastReaching(s, t2, 0);
    MulMono(k1, k2, Pow2(q));
  }

  /**
   * The value the loop of `find_percentile` holds in `result` after visiting
   * bins 0..k-1: the scaled index of the last crossing bin seen, or None while
   * `result` is still unassigned.
   */
  function LastCrossing(s: seq<nat>, t: nat, k: nat, q: nat): Option<nat>
    requires k <= |s|
  {
    if k == 0 then None
    else if Prefix(s, k - 1) < t && Prefix(s, k) >= t then Some((k - 1) * Pow2(q))
    else LastCrossing(s, t, k - 1, q)
  }

  lemma {:induction false} LastCrossingFound(s: seq<nat>, t: nat, k: nat, q: nat)
    requires k <= |s|
    ensures LastCrossing(s, t, k, q).Some? <==> exists j :: 0 <= j < k && Crosses(s, j, t)
    ensures forall j :: 0 <= j < k && Crosses(s, j, t) ==> LastCrossing(s, t, k, q) == Some(j * Pow2(q))
  {
    if k > 0 {
      LastCrossingFound(s, t, k - 1, q);
      if Crosses(s, k - 1, t) {
        forall j | 0 <= j < k && Crosses(s, j, t)
          ensures j == k - 1
        {
          CrossingUnique(s, t, j, k - 1);
        }
      }
    }
  }

  /**
   * Visiting every bin with no early exit and keeping the last crossing gives
   * exactly the percentile: the first (and only) crossing.
   */
  lemma ScanFindsPercentile(s: seq<nat>, t: nat, q: nat)
    requires q <= 8
    ensures LastCrossing(s, t, |s|, q) == Percentile(s, t, q)
  {
    LastCrossingFound(s, t, |s|, q);
    if 0 < t <= Total(s) {
      PercentileIsLeast(s, t, q);
    } else if exists j :: 0 <= j < |s| && Crosses(s, j, t) {
      var j :| 0 <= j < |s| && Crosses(s, j, t);
      PrefixMonotone(s, j + 1, |s|);
      assert false;
    }
  }

  /** `max = (max >= bin) ? max : bin` folded over bins 0..k-1, starting from m. */
  function MaxUpTo(m: nat, s: seq<nat>, k: nat): nat
    requires k <= |s|
  {
    if k == 0 then m
    else
      var p := MaxUpTo(m, s, k - 1);
      if p >= s[k - 1] then p else s[k - 1]
  }

  /** `min = (min <= bin) ? min : bin` folded over bins 0..k-1, starting from m. */
  function MinUpTo(m: nat, s: seq<nat>, k: nat): nat
    requires k <= |s|
  {
    if k == 0 then m
    else
      var p := MinUpTo(m, s, k - 1);
      if p <= s[k - 1] then p else s[k - 1]
  }

  /** `mean += bin * k` folded over bins 0..k-1, before the floating-point scaling. */
  function Weighted(s: seq<nat>, k: nat): nat
    requires k <= |s|
  {
    if k == 0 then 0 else Weighted(s, k - 1) + s[k - 1] * (k - 1)
  }

  /** The running max is the largest of its start value and the bin counts seen. */
  lemma {:induction false} MaxUpToIsMax(m: nat, s: seq<nat>, k: nat)
    requires k <= |s|
    ensures MaxUpTo(m, s, k) >= m
    ensures forall i :: 0 <= i < k ==> MaxUpTo(m, s, k) >= s[i]
    ensures MaxUpTo(m, s, k) == m || exists i :: 0 <= i < k && MaxUpTo(m, s, k) == s[i]
  {
    if k > 0 { MaxUpToIsMax(m, s, k - 1); }
  }

  /** The running min is the least of its start value and the bin counts seen. */
  lemma {:induction false} MinUpToIsMin(m: nat, s: seq<nat>, k: nat)
    requires k <= |s|
    ensures MinUpTo(m, s, k) <= m
    ensures forall i :: 0 <= i < k ==> MinUpTo(m, s, k) <= s[i]
    ensures MinUpTo(m, s, k) == m || exists i :: 0 <= i < k && MinUpTo(m, s, k) == s[i]
  {
    if k > 0 { MinUpToIsMin(m, s, k - 1); }
  }

  /**
   * From the zeroed stats of a new frame the running min stays 0 (bin counts
   * are unsigned), so after the shift min is 0 and max is at least min; max is
   * the largest bin count, scaled by 2^q.
   */
  lemma ZeroedSimpleStats(s: seq<nat>, q: nat)
    ensures MinUpTo(0, s, |s|) * Pow2(q) == 0
    ensures MaxUpTo(0, s, |s|) * Pow2(q) >= MinUpTo(0, s, |s|) * Pow2(q)
    ensures forall i :: 0 <= i < |s| ==> MaxUpTo(0, s, |s|) * Pow2(q) >= s[i] * Pow2(q)
  {
    var mx, scale := MaxUpTo(0, s, |s|), Pow2(q);
    MinUpToIsMin(0, s, |s|);
    MaxUpToIsMax(0, s, |s|);
    MulMono(0, mx, scale);
    forall i | 0 <= i < |s|
      ensures mx * scale >= s[i] * scale
    {
      MulMono(s[i], mx, scale);
    }
  }
}
