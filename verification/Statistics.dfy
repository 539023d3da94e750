/** Running statistics (testing/kvstore/statistics.h) over exact reals: Welford's update of mean and
    variance, and bins of such statistics. */
module Statistics {
  import opened Options

  // ---------- Sums ----------

  function Sum(v: seq<real>): real {
    if v == [] then 0.0 else Sum(v[..|v| - 1]) + v[|v| - 1]
  }

  function Square(x: real): real { x * x }

  /** Sum of squared deviations from `m`. */
  function Deviation(v: seq<real>, m: real): real {
    if v == [] then 0.0 else Deviation(v[..|v| - 1], m) + Square(v[|v| - 1] - m)
  }

  lemma SumAppend(v: seq<real>, x: real)
    ensures Sum(v + [x]) == Sum(v) + x
  {
    assert (v + [x])[..|v|] == v;
  }

  lemma DeviationAppend(v: seq<real>, x: real, m: real)
    ensures Deviation(v + [x], m) == Deviation(v, m) + Square(x - m)
  {
    assert (v + [x])[..|v|] == v;
  }

  /** What moving the reference point from `m` by `d` adds to the deviations of `n` values of sum `s`. */
  function Shift(s: real, m: real, d: real, n: real): real {
    n * d * d - 2.0 * d * (s - m * n)
  }

  lemma ShiftMore(s: real, m: real, d: real, n: real, x: real)
    ensures Shift(s, m, d, n) + Square(x - (m + d)) == Square(x - m) + Shift(s + x, m, d, n + 1.0)
  {
    var e := x - m;
    assert Square(x - (m + d)) == e * e - 2.0 * d * e + d * d;
    assert Shift(s + x, m, d, n + 1.0) == Shift(s, m, d, n) + d * d - 2.0 * d * e;
  }

  lemma {:induction false} DeviationShift(v: seq<real>, m: real, d: real)
    ensures Deviation(v, m + d) == Deviation(v, m) + Shift(Sum(v), m, d, |v| as real)
  {
    if v == [] {
      NoShift(m, d);
    } else {
      hide Shift, Square;
      var n := |v| - 1;
      DeviationShift(v[..n], m, d);
      ShiftMore(Sum(v[..n]), m, d, n as real, v[n]);
    }
  }

  lemma NoShift(m: real, d: real)
    ensures Shift(0.0, m, d, 0.0) == 0.0
  {
  }

  // ---------- Welford's step ----------

  /** `mean_last + ((value - mean_last) / count)`, where `n` values came before. */
  function NewMean(m: real, x: real, n: real): real
    requires n >= 0.0
  {
    m + (x - m) / (n + 1.0)
  }

  /** `variance_last + (value - mean_last) * (value - mean)`. */
  function NewVariance(q: real, m: real, m': real, x: real): real {
    q + (x - m) * (x - m')
  }

  predicate IsMean(v: seq<real>, m: real) {
    m * |v| as real == Sum(v)
  }

  lemma NewMeanScaled(m: real, x: real, n: real)
    requires n >= 0.0
    ensures NewMean(m, x, n) * (n + 1.0) == m * n + x
    ensures (NewMean(m, x, n) - m) * (n + 1.0) == x - m
  {
    var d := (x - m) / (n + 1.0);
    assert d * (n + 1.0) == x - m;
    assert (m + d) * (n + 1.0) == m * (n + 1.0) + d * (n + 1.0);
  }

  lemma NewMeanIsMean(v: seq<real>, m: real, x: real)
    requires IsMean(v, m)
    ensures IsMean(v + [x], NewMean(m, x, |v| as real))
  {
    hide NewMean;
    SumAppend(v, x);
    NewMeanScaled(m, x, |v| as real);
    assert |v + [x]| as real == |v| as real + 1.0;
  }

  lemma ShiftFromMean(q: real, s: real, m: real, m': real, n: real, x: real)
    requires s == m * n && (m' - m) * (n + 1.0) == x - m
    ensures q + Shift(s, m, m' - m, n) + Square(x - m') == NewVariance(q, m, m', x)
  {
    var d, e := m' - m, x - m;
    assert Shift(s, m, d, n) == (n * d) * d;
    assert n * d == e - d;
    assert Square(x - m') == (e - d) * (e - d);
    assert (e - d) * d + (e - d) * (e - d) == e * (e - d);
  }

  lemma ShiftFromMeanOf(v: seq<real>, q: real, m: real, x: real)
    requires IsMean(v, m)
    ensures var n := |v| as real; var m' := NewMean(m, x, n);
            q + Shift(Sum(v), m, m' - m, n) + Square(x - m') == NewVariance(q, m, m', x)
  {
    hide NewMean, Shift, Square, NewVariance;
    NewMeanScaled(m, x, |v| as real);
    ShiftFromMean(q, Sum(v), m, NewMean(m, x, |v| as real), |v| as real, x);
  }

  /** If `m` is the mean of `v`, the updates give the mean and the sum of squared deviations of `v + [x]`. */
  lemma Welford(v: seq<real>, m: real, x: real)
    requires IsMean(v, m)
    ensures var m' := NewMean(m, x, |v| as real);
            IsMean(v + [x], m') && Deviation(v + [x], m') == NewVariance(Deviation(v, m), m, m', x)
  {
    hide IsMean, NewMean, NewVariance, Shift, Square, Deviation, Sum;
    var m' := NewMean(m, x, |v| as real);
    NewMeanIsMean(v, m, x);
    DeviationAppend(v, x, m');
    DeviationShift(v, m, m' - m);
    assert m + (m' - m) == m';
    ShiftFromMeanOf(v, Deviation(v, m), m, x);
  }

  // ---------- RunningStatistics ----------

  predicate IsMin(v: seq<real>, x: real) {
    x in v && forall y :: y in v ==> x <= y
  }

  predicate IsMax(v: seq<real>, x: real) {
    x in v && forall y :: y in v ==> y <= x
  }

  lemma Extremes(v: seq<real>, lo: real, hi: real, x: real)
    requires v != [] ==> IsMin(v, lo) && IsMax(v, hi)
    ensures IsMin(v + [x], if v == [] || x < lo then x else lo)
    ensures IsMax(v + [x], if v == [] || x > hi then x else hi)
  {
    assert (v + [x])[|v|] == x;
    if v != [] {
      assert forall y :: y in v + [x] <==> y in v || y == x;
    }
  }

  class RunningStatistics {
    var count: nat
    var min: real
    var max: real
    var mean: real
    var variance: real
    var meanLast: real
    var varianceLast: real
    ghost var values: seq<real>   // the values added so far

    /** The fields describe exactly the values added. */
    ghost predicate Valid()
      reads this
    {
      && count == |values|
      && (values == [] ==> variance == 0.0 && mean == 0.0)
      && (values != [] ==> IsMin(values, min) && IsMax(values, max))
      && IsMean(values, mean)
      && variance == Deviation(values, mean)
    }

    constructor ()
      ensures Valid() && values == []
    {
      count, min, max, mean, variance, meanLast, varianceLast := 0, 0.0, 0.0, 0.0, 0.0, 0.0, 0.0;
      values := [];
    }

    /** `add_value`. */
    method AddValue(value: real)
      requires Valid()
      modifies this
      ensures Valid() && values == old(values) + [value]
    {
      hide IsMin, IsMax, IsMean, Deviation, NewMean, NewVariance;
      Extremes(values, min, max, value);
      Welford(values, mean, value);
      ghost var v := values;
      UpdateCount();
      UpdateMin(value);
      UpdateMax(value);
      UpdateMean(value);
      UpdateVariance(value);
      values := v + [value];
      if v == [] {
        OneValue(value);
        assert v + [value] == [value];
      }
    }

    method UpdateCount()
      modifies `count
      ensures count == old(count) + 1
    {
      count := count + 1;
    }

    method UpdateMin(value: real)
      modifies `min
      ensures min == if count == 1 || value < old(min) then value else old(min)
    {
      if count == 1 {
        min := value;
      } else if value < min {
        min := value;
      }
    }

    method UpdateMax(value: real)
      modifies `max
      ensures max == if count == 1 || value > old(max) then value else old(max)
    {
      if count == 1 {
        max := value;
      } else if value > max {
        max := value;
      }
    }

    method UpdateMean(value: real)
      requires count > 0
      modifies `mean, `meanLast
      ensures count == 1 ==> mean == meanLast == value
      ensures count > 1 ==> meanLast == old(mean) && mean == NewMean(meanLast, value, (count - 1) as real)
    {
      if count == 1 {
        mean, meanLast := value, value;
      } else {
        meanLast := mean;
        mean := meanLast + (value - meanLast) / count as real;
      }
    }

    method UpdateVariance(value: real)
      modifies `variance, `varianceLast
      ensures count == 1 ==> variance == varianceLast == 0.0
      ensures count != 1 ==>
                varianceLast == old(variance) && variance == NewVariance(varianceLast, meanLast, mean, value)
    {
      if count == 1 {
        variance, varianceLast := 0.0, 0.0;
      } else {
        varianceLast := variance;
        variance := varianceLast + (value - meanLast) * (value - mean);
      }
    }
  }

  lemma OneValue(x: real)
    ensures IsMean([x], x) && Deviation([x], x) == 0.0
  {
  }

  // ---------- BinStatistics ----------

  /** Conversion of a floating-point number to `int`: truncation towards zero. */
  function Truncate(x: real): int {
    if x >= 0.0 then x.Floor else -((-x).Floor)
  }

  /** `find_bin_from_value`. */
  function FindBin(value: real, min: real, increment: real, bins: nat): nat
    requires bins > 0 && increment > 0.0
  {
    var bin := Truncate((value - min) / increment);
    if bins <= bin then bins - 1 else if bin < 0 then 0 else bin
  }

  lemma TruncateBounds(q: real)
    ensures Truncate(q) > 0 ==> Truncate(q) as real <= q < Truncate(q) as real + 1.0
    ensures Truncate(q) <= 0 ==> q < 1.0
  {
    if q >= 0.0 {
      assert q.Floor as real <= q < q.Floor as real + 1.0;
    } else {
      assert (-q).Floor as real <= -q;
      assert (-q).Floor >= 0;
    }
  }

  /** The bin of a value is the one whose interval holds it; the outermost bins are open outwards. */
  lemma BinHoldsValue(value: real, min: real, increment: real, bins: nat)
    requires bins > 0 && increment > 0.0
    ensures var b := FindBin(value, min, increment, bins);
            && b < bins
            && (b > 0 ==> min + b as real * increment <= value)
            && (b < bins - 1 ==> value < min + (b + 1) as real * increment)
  {
    hide Truncate;
    var q := (value - min) / increment;
    var b := FindBin(value, min, increment, bins);
    TruncateBounds(q);
    if b > 0 {
      LowerEdge(value, min, increment, b as real);
    }
    if b < bins - 1 {
      UpperEdge(value, min, increment, (b + 1) as real);
    }
  }

  lemma LowerEdge(value: real, min: real, increment: real, k: real)
    requires increment > 0.0 && k <= (value - min) / increment
    ensures min + k * increment <= value
  {
    var q := (value - min) / increment;
    assert q * increment == value - min;
    assert (q - k) * increment >= 0.0;
    assert q * increment == k * increment + (q - k) * increment;
  }

  lemma UpperEdge(value: real, min: real, increment: real, k: real)
    requires increment > 0.0 && (value - min) / increment < k
    ensures value < min + k * increment
  {
    var q := (value - min) / increment;
    assert q * increment == value - min;
    assert (k - q) * increment > 0.0;
    assert k * increment == q * increment + (k - q) * increment;
  }

  /** An update: a value, and the value that selects its bin. */
  datatype Record = Record(value: real, key: real)

  /** The values routed to bin `b`, in order. */
  function Routed(log: seq<Record>, min: real, increment: real, bins: nat, b: nat): seq<real>
    requires bins > 0 && increment > 0.0
  {
    if log == [] then []
    else
      var u := log[|log| - 1];
      var here := if FindBin(u.key, min, increment, bins) == b then [u.value] else [];
      Routed(log[..|log| - 1], min, increment, bins, b) + here
  }

  lemma RoutedAppend(log: seq<Record>, u: Record, min: real, increment: real, bins: nat, b: nat)
    requires bins > 0 && increment > 0.0
    ensures var before, after := Routed(log, min, increment, bins, b), Routed(log + [u], min, increment, bins, b);
            after == if FindBin(u.key, min, increment, bins) == b then before + [u.value] else before
  {
    assert (log + [u])[..|log|] == log;
  }

  /** Updates routed to the bins below `b`. */
  function RoutedBelow(log: seq<Record>, min: real, increment: real, bins: nat, b: nat): nat
    requires bins > 0 && increment > 0.0
  {
    if b == 0 then 0 else RoutedBelow(log, min, increment, bins, b - 1) + |Routed(log, min, increment, bins, b - 1)|
  }

  lemma {:induction false} RoutedBelowAppend(log: seq<Record>, u: Record, min: real, increment: real, bins: nat, b: nat)
    requires bins > 0 && increment > 0.0
    ensures RoutedBelow(log + [u], min, increment, bins, b)
         == RoutedBelow(log, min, increment, bins, b) + if FindBin(u.key, min, increment, bins) < b then 1 else 0
    decreases b
  {
    hide Routed, FindBin;
    if b > 0 {
      RoutedBelowAppend(log, u, min, increment, bins, b - 1);
      RoutedAppend(log, u, min, increment, bins, b - 1);
    }
  }

  lemma {:induction false} RoutedBelowNothing(min: real, increment: real, bins: nat, b: nat)
    requires bins > 0 && increment > 0.0
    ensures RoutedBelow([], min, increment, bins, b) == 0
  {
    if b > 0 {
      RoutedBelowNothing(min, increment, bins, b - 1);
    }
  }

  /** No update is lost and none is counted twice: the bins hold as many values as there were updates. */
  lemma {:induction false} EveryUpdateRouted(log: seq<Record>, min: real, increment: real, bins: nat)
    requires bins > 0 && increment > 0.0
    ensures RoutedBelow(log, min, increment, bins, bins) == |log|
    decreases |log|
  {
    hide RoutedBelow, FindBin;
    if log == [] {
      RoutedBelowNothing(min, increment, bins, bins);
    } else {
      var n := |log| - 1;
      assert log == log[..n] + [log[n]];
      EveryUpdateRouted(log[..n], min, increment, bins);
      RoutedBelowAppend(log[..n], log[n], min, increment, bins, bins);
      BinHoldsValue(log[n].key, min, increment, bins);
    }
  }

  class BinStatistics {
    const min: real
    const increment: real
    const bins: seq<RunningStatistics>
    ghost var log: seq<Record>

    ghost predicate Valid()
      reads this, bins
    {
      && |bins| > 0 && increment > 0.0
      && (forall i, j :: 0 <= i < j < |bins| ==> bins[i] != bins[j])
      && (forall b :: 0 <= b < |bins| ==> bins[b].Valid() && bins[b].values == Routed(log, min, increment, |bins|, b))
    }

    constructor (bins: seq<RunningStatistics>, min: real, increment: real)
      requires |bins| > 0 && forall i, j :: 0 <= i < j < |bins| ==> bins[i] != bins[j]
      requires forall b :: 0 <= b < |bins| ==> bins[b].Valid() && bins[b].values == []
      ensures (increment > 0.0 ==> Valid()) && log == [] && this.bins == bins
      ensures this.min == min && this.increment == increment
    {
      this.bins, this.min, this.increment := bins, min, increment;
      log := [];
    }

    /** What the counts of the bins below `b` add up to. */
    ghost function CountBelow(b: nat): nat
      requires b <= |bins|
      reads this, bins
    {
      if b == 0 then 0 else CountBelow(b - 1) + bins[b - 1].count
    }

    lemma {:induction false} CountsRouted(b: nat)
      requires Valid() && b <= |bins|
      ensures CountBelow(b) == RoutedBelow(log, min, increment, |bins|, b)
      decreases b
    {
      hide Routed, FindBin;
      if b > 0 {
        CountsRouted(b - 1);
      }
    }

    /** The counts of the bins add up to the number of updates. */
    lemma CountsAddUp()
      requires Valid()
      ensures CountBelow(|bins|) == |log|
    {
      hide Routed, FindBin;
      CountsRouted(|bins|);
      EveryUpdateRouted(log, min, increment, |bins|);
    }

    /** `update_value_for_bin`: the value joins the statistics of the bin of its key, and of no other. */
    method UpdateValueForBin(value: real, key: real)
      requires Valid()
      modifies this, bins
      ensures Valid() && log == old(log) + [Record(value, key)]
    {
      hide FindBin, Routed, RunningStatistics.Valid;
      var bin := FindBin(key, min, increment, |bins|);
      BinHoldsValue(key, min, increment, |bins|);
      ghost var u := Record(value, key);
      forall b | 0 <= b < |bins|
        ensures Routed(log + [u], min, increment, |bins|, b)
             == Routed(log, min, increment, |bins|, b) + if bin == b then [value] else []
      {
        RoutedAppend(log, u, min, increment, |bins|, b);
      }
      bins[bin].AddValue(value);
      log := log + [u];
    }

    /** `update`: the value selects its own bin. */
    method Update(value: real)
      requires Valid()
      modifies this, bins
      ensures Valid() && log == old(log) + [Record(value, value)]
    {
      UpdateValueForBin(value, value);
    }
  }

  /** The checked construction: an error for no bins or for thresholds out of order. Equal thresholds are
      accepted and leave bins of no width, which no value can be routed to. */
  method MakeBins(count: nat, lo: real, hi: real) returns (r: Result<BinStatistics>)
    ensures r.Error? <==> count == 0 || lo > hi
    ensures r.Ok? ==> (r.value.Valid() <==> lo < hi)
    ensures r.Ok? ==> r.value.log == [] && |r.value.bins| == count && r.value.min == lo
    ensures r.Ok? ==> r.value.increment * count as real == hi - lo
  {
    if count == 0 {
      return Error("BinStatistics: bin count is 0, should be at least 1");
    }
    if lo > hi {
      return Error("BinStatistics: threshold_min exceeds threshold_max");
    }
    var increment := (hi - lo) / count as real;
    var bins: seq<RunningStatistics> := [];
    while |bins| < count
      invariant |bins| <= count
      invariant forall i, j :: 0 <= i < j < |bins| ==> bins[i] != bins[j]
      invariant forall b :: 0 <= b < |bins| ==> fresh(bins[b]) && bins[b].Valid() && bins[b].values == []
    {
      var stat := new RunningStatistics();
      bins := bins + [stat];
    }
    Quotient(hi - lo, count as real);
    var stats := new BinStatistics(bins, lo, increment);
    r := Ok(stats);
  }

  lemma Quotient(a: real, n: real)
    requires a >= 0.0 && n > 0.0
    ensures (a / n > 0.0 <==> a > 0.0) && (a / n) * n == a
  {
  }
}
