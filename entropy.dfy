/** The binning half of the entropy metrics (data_entropy, depth_entropy):
    NaN pixels are replaced by the -FLT_MAX sentinel, then `calcentropy2` bins
    the absolute values into `nBins` equal-width bins. The logarithmic sum over
    the bins is not part of this model. */
module Entropy {
  import opened Floats
  import opened Frame

  // ---------------------------------------------------------------------------
  // NaN-to-sentinel preprocessing.

  /** The buffer after the preprocessing loop over its first `size` entries. */
  function Sanitize(s: seq<Float>, size: nat): (r: seq<Float>)
    ensures |r| == |s|
    ensures forall i :: 0 <= i < |s| ==>
              r[i] == (if i < size && IsNaN(s[i]) then NegFltMax else s[i])
    ensures size >= |s| ==> forall i :: 0 <= i < |r| ==> !IsNaN(r[i])
  {
    if |s| == 0 then []
    else
      var last := s[|s| - 1];
      Sanitize(s[..|s| - 1], size) + [if |s| - 1 < size && IsNaN(last) then NegFltMax else last]
  }

  /** The preprocessing loop in place: each of the first `size` entries that is NaN
      (the only value unequal to itself) is overwritten with -FLT_MAX. */
  method ReplaceNaN(data: array<Float>, size: nat)
    requires size <= data.Length
    modifies data
    ensures data[..] == Sanitize(old(data[..]), size)
  {
    for i := 0 to size
      invariant forall k :: 0 <= k < data.Length ==>
                  data[k] == (if k < i && IsNaN(old(data[k])) then NegFltMax else old(data[k]))
    {
      if IsNaN(data[i]) {
        data[i] := NegFltMax;
      }
    }
  }

  // ---------------------------------------------------------------------------
  // Specification of calcentropy2's binning (exact real arithmetic).

  ghost predicate AllFinite(s: seq<Float>)
  {
    forall i :: 0 <= i < |s| ==> s[i].Finite?
  }

  /** `std::abs` of a finite value. */
  function Abs(x: Float): real
    requires x.Finite?
  {
    if x.r < 0.0 then -x.r else x.r
  }

  /** The running maximum of the absolute values of `s`, seeded with `m`. */
  ghost function FoldMax(m: real, s: seq<Float>): real
    requires AllFinite(s)
  {
    if |s| == 0 then m
    else
      var prev := FoldMax(m, s[..|s| - 1]);
      var x := Abs(s[|s| - 1]);
      if prev > x then prev else x
  }

  /** The running minimum of the absolute values of `s`, seeded with `m`. */
  ghost function FoldMin(m: real, s: seq<Float>): real
    requires AllFinite(s)
  {
    if |s| == 0 then m
    else
      var prev := FoldMin(m, s[..|s| - 1]);
      var x := Abs(s[|s| - 1]);
      if prev < x then prev else x
  }

  ghost function MaxAbs(s: seq<Float>): real
    requires |s| > 0 && AllFinite(s)
  {
    FoldMax(Abs(s[0]), s)
  }

  ghost function MinAbs(s: seq<Float>): real
    requires |s| > 0 && AllFinite(s)
  {
    FoldMin(Abs(s[0]), s)
  }

  lemma {:induction false} FoldMaxBounds(m: real, s: seq<Float>)
    requires AllFinite(s)
    ensures m <= FoldMax(m, s)
    ensures forall i :: 0 <= i < |s| ==> Abs(s[i]) <= FoldMax(m, s)
    ensures FoldMax(m, s) == m || exists i :: 0 <= i < |s| && Abs(s[i]) == FoldMax(m, s)
  {
    if |s| > 0 {
      FoldMaxBounds(m, s[..|s| - 1]);
    }
  }

  lemma {:induction false} FoldMinBounds(m: real, s: seq<Float>)
    requires AllFinite(s)
    ensures FoldMin(m, s) <= m
    ensures forall i :: 0 <= i < |s| ==> FoldMin(m, s) <= Abs(s[i])
    ensures FoldMin(m, s) == m || exists i :: 0 <= i < |s| && Abs(s[i]) == FoldMin(m, s)
  {
    if |s| > 0 {
      FoldMinBounds(m, s[..|s| - 1]);
    }
  }

  /** The loop keeps `min <= |a[i]| <= max`, and both are attained. */
  lemma MinMaxAbsBounds(s: seq<Float>)
    requires |s| > 0 && AllFinite(s)
    ensures forall i :: 0 <= i < |s| ==> MinAbs(s) <= Abs(s[i]) <= MaxAbs(s)
    ensures exists i :: 0 <= i < |s| && Abs(s[i]) == MaxAbs(s)
    ensures exists i :: 0 <= i < |s| && Abs(s[i]) == MinAbs(s)
  {
    FoldMaxBounds(Abs(s[0]), s);
    FoldMinBounds(Abs(s[0]), s);
  }

  /** The bin of |value| `x`: its distance above `lo` in steps, truncated to an
      integer; the top edge, which would give `nBins`, goes into the last bin. */
  function BinOf(x: real, lo: real, step: real, nBins: int): (k: int)
    requires step > 0.0 && nBins > 0
    requires lo <= x <= lo + step * nBins as real
    ensures 0 <= k < nBins
    ensures lo + k as real * step <= x <= lo + (k + 1) as real * step
  {
    var idx := (x - lo) / step;
    assert idx * step == x - lo;
    assert 0.0 <= idx <= nBins as real by {
      DivBounds(x - lo, step, nBins as real);
    }
    var f := idx.Floor;
    if f == nBins then
      assert idx == nBins as real;
      assert (idx - 1.0).Floor == nBins - 1;
      assert (nBins - 1) as real * step <= idx * step;
      (idx - 1.0).Floor
    else
      assert f as real * step <= idx * step;
      assert idx <= (f + 1) as real;
      assert idx * step <= (f + 1) as real * step;
      assert lo + f as real * step <= x <= lo + (f + 1) as real * step;
      f
  }

  lemma DivBounds(d: real, step: real, n: real)
    requires step > 0.0 && 0.0 <= d <= step * n
    ensures 0.0 <= d / step <= n
  {
    assert d / step * step == d;
  }

  lemma StepTimesBins(min: real, max: real, nBins: int)
    requires nBins > 0
    ensures min + (max - min) / nBins as real * nBins as real == max
  {
  }

  ghost predicate InRange(s: seq<Float>, lo: real, step: real, nBins: int)
  {
    AllFinite(s) && forall i :: 0 <= i < |s| ==> lo <= Abs(s[i]) <= lo + step * nBins as real
  }

  /** With `min`, `max` from the loop and `step = (max - min) / nBins`, every value is in range. */
  lemma ValuesInRange(s: seq<Float>, nBins: int, step: real)
    requires |s| > 0 && AllFinite(s) && nBins > 0
    requires step == (MaxAbs(s) - MinAbs(s)) / nBins as real
    ensures InRange(s, MinAbs(s), step, nBins)
  {
    var min, max := MinAbs(s), MaxAbs(s);
    StepTimesBins(min, max, nBins);
    var hi := min + step * nBins as real;
    assert hi == max;
    forall i | 0 <= i < |s|
      ensures min <= Abs(s[i]) <= hi
    {
      FoldMaxBounds(Abs(s[0]), s);
      FoldMinBounds(Abs(s[0]), s);
    }
  }

  /** The `hist` array after counting the values of `s` into their bins. */
  ghost function HistogramOf(s: seq<Float>, lo: real, step: real, nBins: int): (h: seq<int>)
    requires step > 0.0 && nBins > 0 && InRange(s, lo, step, nBins)
    ensures |h| == nBins
  {
    if |s| == 0 then seq(nBins, _ => 0)
    else
      var h := HistogramOf(s[..|s| - 1], lo, step, nBins);
      var k := BinOf(Abs(s[|s| - 1]), lo, step, nBins);
      h[k := h[k] + 1]
  }

  /** The indices of the values of `s` that fall into bin `k`. */
  ghost function BinMembers(s: seq<Float>, lo: real, step: real, nBins: int, k: int): set<int>
    requires step > 0.0 && nBins > 0 && InRange(s, lo, step, nBins)
  {
    set i | 0 <= i < |s| && BinOf(Abs(s[i]), lo, step, nBins) == k
  }

  /** Counter `k` of the histogram is the number of values whose bin is `k`. */
  lemma {:induction false} HistogramCounts(s: seq<Float>, lo: real, step: real, nBins: int, k: int)
    requires step > 0.0 && nBins > 0 && InRange(s, lo, step, nBins) && 0 <= k < nBins
    ensures HistogramOf(s, lo, step, nBins)[k] == |BinMembers(s, lo, step, nBins, k)|
  {
    if |s| == 0 {
      assert BinMembers(s, lo, step, nBins, k) == {};
    } else {
      var n := |s| - 1;
      var p := s[..n];
      assert InRange(p, lo, step, nBins);
      HistogramCounts(p, lo, step, nBins, k);
      var head := BinMembers(p, lo, step, nBins, k);
      assert forall i :: 0 <= i < n ==> p[i] == s[i];
      if BinOf(Abs(s[n]), lo, step, nBins) == k {
        assert BinMembers(s, lo, step, nBins, k) == head + {n};
        assert n !in head;
      } else {
        assert BinMembers(s, lo, step, nBins, k) == head;
      }
    }
  }

  function Sum(s: seq<int>): int
  {
    if |s| == 0 then 0 else Sum(s[..|s| - 1]) + s[|s| - 1]
  }

  lemma {:induction false} SumIncrement(s: seq<int>, k: nat)
    requires k < |s|
    ensures Sum(s[k := s[k] + 1]) == Sum(s) + 1
  {
    var t := s[k := s[k] + 1];
    if k < |s| - 1 {
      assert t[..|t| - 1] == s[..|s| - 1][k := s[k] + 1];
      SumIncrement(s[..|s| - 1], k);
    } else {
      assert t[..|t| - 1] == s[..|s| - 1];
    }
  }

  lemma {:induction false} SumZeros(n: nat)
    ensures Sum(seq(n, _ => 0)) == 0
  {
    if n > 0 {
      assert seq(n, _ => 0)[..n - 1] == seq(n - 1, _ => 0);
      SumZeros(n - 1);
    }
  }

  /** Every value is counted exactly once: the bins hold non-negative counts
      summing to the number of values. */
  lemma {:induction false} HistogramCountsAll(s: seq<Float>, lo: real, step: real, nBins: int)
    requires step > 0.0 && nBins > 0 && InRange(s, lo, step, nBins)
    ensures |HistogramOf(s, lo, step, nBins)| == nBins
    ensures Sum(HistogramOf(s, lo, step, nBins)) == |s|
    ensures forall k :: 0 <= k < nBins ==> HistogramOf(s, lo, step, nBins)[k] >= 0
  {
    if |s| == 0 {
      SumZeros(nBins);
    } else {
      var init := s[..|s| - 1];
      HistogramCountsAll(init, lo, step, nBins);
      var k := BinOf(Abs(s[|s| - 1]), lo, step, nBins);
      SumIncrement(HistogramOf(init, lo, step, nBins), k);
    }
  }

  /** The clamp: the largest value lands in the last bin, the smallest in the first. */
  lemma ExtremeBins(lo: real, step: real, nBins: int)
    requires step > 0.0 && nBins > 0
    ensures BinOf(lo + step * nBins as real, lo, step, nBins) == nBins - 1
    ensures BinOf(lo, lo, step, nBins) == 0
  {
    assert (lo + step * nBins as real - lo) / step == nBins as real;
  }

  /** The outcome of calcentropy2 up to the log sum: either the early `return 0.0`
      of a zero step, or the bin counts. */
  datatype EntropyBins = ZeroStep | Bins(lo: real, step: real, counts: seq<int>)

  ghost function Binned(s: seq<Float>, nBins: int): EntropyBins
    requires |s| > 0 && AllFinite(s) && nBins > 0
  {
    var max := MaxAbs(s);
    var min := MinAbs(s);
    var step := (max - min) / nBins as real;
    if step == 0.0 then ZeroStep
    else
      ValuesInRange(s, nBins, step);
      Bins(min, step, HistogramOf(s, min, step, nBins))
  }

  /** The step is zero exactly when every |a[i]| is the same value. */
  lemma ZeroStepIffUniform(s: seq<Float>, nBins: int)
    requires |s| > 0 && AllFinite(s) && nBins > 0
    ensures Binned(s, nBins).ZeroStep? <==>
            forall i, j :: 0 <= i < |s| && 0 <= j < |s| ==> Abs(s[i]) == Abs(s[j])
  {
    MinMaxAbsBounds(s);
    var max := MaxAbs(s);
    var min := MinAbs(s);
    if max != min {
      var i :| 0 <= i < |s| && Abs(s[i]) == max;
      var j :| 0 <= j < |s| && Abs(s[j]) == min;
      assert Abs(s[i]) != Abs(s[j]);
      assert (max - min) / nBins as real != 0.0;
    }
  }

  /** When the step is not zero, the counts cover every value once. */
  lemma BinsCountAll(s: seq<Float>, nBins: int)
    requires |s| > 0 && AllFinite(s) && nBins > 0
    requires Binned(s, nBins).Bins?
    ensures |Binned(s, nBins).counts| == nBins
    ensures Sum(Binned(s, nBins).counts) == |s|
    ensures forall k :: 0 <= k < nBins ==> Binned(s, nBins).counts[k] >= 0
  {
    var max := MaxAbs(s);
    var min := MinAbs(s);
    var step := (max - min) / nBins as real;
    ValuesInRange(s, nBins, step);
    assert Binned(s, nBins) == Bins(min, step, HistogramOf(s, min, step, nBins));
    HistogramCountsAll(s, min, step, nBins);
  }

  // ---------------------------------------------------------------------------
  // calcentropy2's loops.

  /** The first loop of calcentropy2: the extreme absolute values. */
  method AbsRange(a: array<Float>) returns (min: real, max: real)
    requires a.Length > 0 && AllFinite(a[..])
    ensures min == MinAbs(a[..]) && max == MaxAbs(a[..])
  {
    ghost var s := a[..];
    max := Abs(a[0]);
    min := Abs(a[0]);
    for i := 0 to a.Length
      invariant max == FoldMax(Abs(s[0]), s[..i])
      invariant min == FoldMin(Abs(s[0]), s[..i])
    {
      assert s[..i + 1][..i] == s[..i];
      max := if max > Abs(a[i]) then max else Abs(a[i]);
      min := if min < Abs(a[i]) then min else Abs(a[i]);
    }
    assert s[..a.Length] == s;
  }

  /** The counting loop of calcentropy2 over a freshly zeroed `long` array. */
  method CountIntoBins(a: array<Float>, min: real, stepSize: real, nBins: int) returns (counts: seq<int>)
    requires stepSize > 0.0 && nBins > 0 && InRange(a[..], min, stepSize, nBins)
    ensures counts == HistogramOf(a[..], min, stepSize, nBins)
  {
    ghost var s := a[..];
    var hist := new int[nBins];
    for i := 0 to nBins
      invariant forall k :: 0 <= k < i ==> hist[k] == 0
    {
      hist[i] := 0;
    }
    assert hist[..] == HistogramOf(s[..0], min, stepSize, nBins);

    for i := 0 to a.Length
      invariant hist[..] == HistogramOf(s[..i], min, stepSize, nBins)
    {
      assert s[..i + 1][..i] == s[..i];
      var idx := (Abs(a[i]) - min) / stepSize;
      if idx.Floor == nBins {
        idx := idx - 1.0;
      }
      assert idx.Floor == BinOf(Abs(a[i]), min, stepSize, nBins);
      hist[idx.Floor] := hist[idx.Floor] + 1;
    }
    assert s[..a.Length] == s;
    counts := hist[..];
  }

  /** calcentropy2 up to the log sum; `len` is the length of the array. */
  method CalcEntropyBins(a: array<Float>, nBins: int) returns (r: EntropyBins)
    requires a.Length > 0 && AllFinite(a[..]) && nBins > 0
    ensures r == Binned(a[..], nBins)
  {
    var min, max := AbsRange(a);
    var stepSize := (max - min) / nBins as real;
    if stepSize == 0.0 {
      return ZeroStep;
    }
    ValuesInRange(a[..], nBins, stepSize);
    var counts := CountIntoBins(a, min, stepSize, nBins);
    r := Bins(min, stepSize, counts);
  }

  /** The binning of calculateDataEntropy2 / calculateDepthEntropy2: copy the
      rendered buffer, replace NaN by -FLT_MAX, bin with 100 bins. */
  method BufferEntropyBins(data: seq<Float>, height: int, width: int) returns (r: EntropyBins)
    requires |data| == PixelCount(height, width) && |data| > 0
    requires forall i :: 0 <= i < |data| ==> data[i].NaN? || data[i].Finite?
    ensures r == Binned(Sanitize(data, |data|), 100)
  {
    var size := PixelCount(height, width);
    var a := new Float[|data|](k requires 0 <= k < |data| => data[k]);
    assert a[..] == data;
    ReplaceNaN(a, size);
    r := CalcEntropyBins(a, 100);
  }

  /** Scenario: a constant field (or one whose |values| agree) has a zero step,
      so calcentropy2 returns 0 before building a histogram. */
  lemma UniformFieldHasZeroStep(data: seq<Float>, v: real)
    requires |data| > 0 && forall i :: 0 <= i < |data| ==> data[i] == Finite(v)
    ensures Binned(Sanitize(data, |data|), 100).ZeroStep?
  {
    var s := Sanitize(data, |data|);
    ZeroStepIffUniform(s, 100);
  }

  /** A frame with no data at all becomes all -FLT_MAX, which also has a zero step. */
  lemma EmptyFrameHasZeroStep(data: seq<Float>)
    requires |data| > 0 && forall i :: 0 <= i < |data| ==> IsNaN(data[i])
    ensures Binned(Sanitize(data, |data|), 100).ZeroStep?
  {
    var s := Sanitize(data, |data|);
    ZeroStepIffUniform(s, 100);
  }

  lemma BelowOneStep(d: real, step: real)
    requires step > 0.0 && 0.0 <= d < step
    ensures 0.0 <= d / step < 1.0
  {
    var q := d / step;
    assert q * step == d;
    DivBounds(d, step, 1.0);
    if q == 1.0 {
      assert false;
    }
  }

  /** A hundredth of FLT_MAX: data below it lies within the first of 100 bins that
      reach up to FLT_MAX. */
  const BinLimit: real := FLT_MAX / 100.0

  /** A frame with both background (NaN) and data pixels, whose data stay below
      BinLimit in magnitude. */
  ghost predicate MixedFrame(data: seq<Float>)
  {
    && (forall i :: 0 <= i < |data| ==> data[i].NaN? || data[i].Finite?)
    && (exists i :: 0 <= i < |data| && IsNaN(data[i]))
    && (exists i :: 0 <= i < |data| && !IsNaN(data[i]))
    && (forall i :: 0 <= i < |data| && data[i].Finite? ==> Abs(data[i]) < BinLimit)
  }

  /** The extremes of a mixed frame after preprocessing: the sentinel is the
      largest |value|, and the smallest is a data value below BinLimit. */
  lemma SentinelExtremes(data: seq<Float>)
    requires MixedFrame(data)
    ensures |data| > 0 && AllFinite(Sanitize(data, |data|))
    ensures MaxAbs(Sanitize(data, |data|)) == FLT_MAX
    ensures 0.0 <= MinAbs(Sanitize(data, |data|)) < BinLimit
  {
    var s := Sanitize(data, |data|);
    MinMaxAbsBounds(s);
    var k :| 0 <= k < |data| && IsNaN(data[k]);
    var d :| 0 <= d < |data| && !IsNaN(data[d]);
    assert Abs(s[k]) == FLT_MAX;
    var j :| 0 <= j < |s| && Abs(s[j]) == MaxAbs(s);
    assert MinAbs(s) <= Abs(s[d]);
  }

  /** When the extremes differ, the binning starts at the smallest |value| and
      has width (max - min) / nBins, and every value lies within the bins. */
  lemma BinnedFields(s: seq<Float>, nBins: int)
    requires |s| > 0 && AllFinite(s) && nBins > 0
    requires MaxAbs(s) != MinAbs(s)
    ensures Binned(s, nBins).Bins?
    ensures Binned(s, nBins).lo == MinAbs(s)
    ensures Binned(s, nBins).step == (MaxAbs(s) - MinAbs(s)) / nBins as real
    ensures InRange(s, Binned(s, nBins).lo, Binned(s, nBins).step, nBins)
  {
    ValuesInRange(s, nBins, (MaxAbs(s) - MinAbs(s)) / nBins as real);
  }

  /** `x` falls in bin `k` of `nBins` bins of width `step` from `lo`. */
  ghost predicate InBin(x: real, lo: real, step: real, nBins: int, k: int)
  {
    step > 0.0 && nBins > 0 && lo <= x <= lo + step * nBins as real && BinOf(x, lo, step, nBins) == k
  }

  /** In a mixed frame the sentinel fixes the largest |value| at FLT_MAX: every
      background pixel falls in the last bin and every data pixel in bin 0, so the
      100 bins collapse to two and the entropy measures only the share of
      background. */
  lemma SentinelSplitsTwoBins(data: seq<Float>)
    requires MixedFrame(data)
    ensures |data| > 0 && AllFinite(Sanitize(data, |data|))
    ensures Binned(Sanitize(data, |data|), 100).Bins?
    ensures var s := Sanitize(data, |data|);
            var b := Binned(s, 100);
            && (forall i :: 0 <= i < |s| && IsNaN(data[i]) ==> InBin(Abs(s[i]), b.lo, b.step, 100, 99))
            && (forall i :: 0 <= i < |s| && !IsNaN(data[i]) ==> InBin(Abs(s[i]), b.lo, b.step, 100, 0))
            && (forall k :: 0 < k < 99 ==> b.counts[k] == 0)
  {
    SentinelExtremes(data);
    var s := Sanitize(data, |data|);
    BinnedFields(s, 100);
    var min := MinAbs(s);
    var step := (FLT_MAX - min) / 100.0;
    assert Binned(s, 100).lo == min && Binned(s, 100).step == step;
    forall i | 0 <= i < |s| && IsNaN(data[i])
      ensures InBin(Abs(s[i]), min, step, 100, 99)
    {
      SentinelPixelBin(data, s, i, min, step);
    }
    forall i | 0 <= i < |s| && !IsNaN(data[i])
      ensures InBin(Abs(s[i]), min, step, 100, 0)
    {
      SentinelPixelBin(data, s, i, min, step);
    }
    forall k | 0 < k < 99
      ensures HistogramOf(s, min, step, 100)[k] == 0
    {
      forall i | 0 <= i < |s|
        ensures BinOf(Abs(s[i]), min, step, 100) != k
      {
        SentinelPixelBin(data, s, i, min, step);
      }
      UnhitBinEmpty(s, min, step, 100, k);
    }
  }

  /** A bin that no value falls into keeps its initial count of zero. */
  lemma {:induction false} UnhitBinEmpty(s: seq<Float>, lo: real, step: real, nBins: int, k: int)
    requires step > 0.0 && nBins > 0 && InRange(s, lo, step, nBins) && 0 <= k < nBins
    requires forall i :: 0 <= i < |s| ==> BinOf(Abs(s[i]), lo, step, nBins) != k
    ensures HistogramOf(s, lo, step, nBins)[k] == 0
  {
    if |s| > 0 {
      var p := s[..|s| - 1];
      assert forall i :: 0 <= i < |p| ==> p[i] == s[i];
      UnhitBinEmpty(p, lo, step, nBins, k);
    }
  }

  /** One pixel of a mixed frame: its bin is the last for background, 0 for data. */
  lemma SentinelPixelBin(data: seq<Float>, s: seq<Float>, i: int, min: real, step: real)
    requires MixedFrame(data) && 0 <= i < |data|
    requires s == Sanitize(data, |data|) && |s| > 0 && AllFinite(s)
    requires min == MinAbs(s) && step == (FLT_MAX - min) / 100.0
    ensures InBin(Abs(s[i]), min, step, 100, if IsNaN(data[i]) then 99 else 0)
  {
    SentinelExtremes(data);
    var x := Abs(s[i]);
    assert min <= x by {
      MinMaxAbsBounds(s);
    }
    assert (x == FLT_MAX) == IsNaN(data[i]) && (x == FLT_MAX || x < BinLimit) by {
      if IsNaN(data[i]) {
        assert s[i] == NegFltMax;
      } else {
        assert s[i] == data[i];
      }
    }
    SentinelBin(x, min, step);
  }

  /** The bin of one |value| when the step is (FLT_MAX - min) / 100. */
  lemma SentinelBin(x: real, min: real, step: real)
    requires 0.0 <= min <= x && min < BinLimit && step == (FLT_MAX - min) / 100.0
    requires x == FLT_MAX || x < BinLimit
    ensures InBin(x, min, step, 100, if x == FLT_MAX then 99 else 0)
  {
    if x == FLT_MAX {
      ExtremeBins(min, step, 100);
    } else {
      BelowOneStep(x - min, step);
    }
  }
}
