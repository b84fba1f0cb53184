/** The estimation passes DIRA and TAM of src/papi_accurate_multiplexing.c.  Doubles
    are real numbers; rounding is not modelled. */
module Estimators {
  import opened Series

  /** The scale of each interval: enabled time over running time, 1 where nothing ran. */
  function Ratio(dTe: int, dTr: int): real {
    if dTr != 0 then dTe as real / dTr as real else 1.0
  }

  // ------------------------------------------------------- one interval with DIRA

  /** Counts drift linearly from a to b over the x running slots of an interval:
      the whole slots, then the fraction. */
  function LinearSum(a: int, m: real, n: nat): real {
    if n == 0 then a as real else LinearSum(a, m, n - 1) + (a as real + m * n as real)
  }

  /** The estimate dira_raw_to_est computes. */
  function DiraEstimate(a: int, b: int, x: real): real
    requires x != 0.0
  {
    var m := (b - a) as real / x;
    var n := Trunc(x);
    LinearSum(a, m, if n >= 1 then n - 1 else 0) + (x - n as real) * (a as real + m * x)
  }

  method DiraRawToEst(a: int, b: int, pmuIndex: real) returns (acc: real)
    requires pmuIndex != 0.0
    ensures acc == DiraEstimate(a, b, pmuIndex)
  {
    var m := (b - a) as real / pmuIndex;
    acc := a as real;
    var i := 0;
    while i < Trunc(pmuIndex) - 1
      invariant 0 <= i && (i == 0 || i <= Trunc(pmuIndex) - 1)
      invariant acc == LinearSum(a, m, i)
    {
      acc := acc + (a as real + m * (i + 1) as real);
      i := i + 1;
    }
    var restIndex := pmuIndex - Trunc(pmuIndex) as real;
    acc := acc + restIndex * (a as real + m * pmuIndex);
  }

  /** The arithmetic series. */
  function Progression(a: real, m: real, n: real): real {
    (n + 1.0) * a + m * (n * (n + 1.0) / 2.0)
  }

  lemma ProgressionStep(a: real, m: real, n: real)
    ensures Progression(a, m, n) + (a + m * (n + 1.0)) == Progression(a, m, n + 1.0)
  {
    assert (n + 1.0) * (n + 2.0) / 2.0 == n * (n + 1.0) / 2.0 + (n + 1.0);
    assert m * (n * (n + 1.0) / 2.0 + (n + 1.0)) == m * (n * (n + 1.0) / 2.0) + m * (n + 1.0);
  }

  lemma {:induction false} LinearSumClosed(a: int, m: real, n: nat)
    ensures LinearSum(a, m, n) == Progression(a as real, m, n as real)
  {
    if n > 0 {
      LinearSumClosed(a, m, n - 1);
      ProgressionStep(a as real, m, (n - 1) as real);
    }
  }

  /** What the fraction of a slot after the n whole ones of x adds at count c. */
  function Tail(n: real, x: real, c: real): real {
    (x - n) * c
  }

  /** Closed form for ratios of at least 1: the arithmetic series over the whole
      slots, and the fraction of a slot at the closing count b. */
  lemma DiraClosedForm(a: int, b: int, x: real)
    requires x >= 1.0
    ensures DiraEstimate(a, b, x)
         == Progression(a as real, (b - a) as real / x, x.Floor as real - 1.0) + Tail(x.Floor as real, x, b as real)
  {
    var m := (b - a) as real / x;
    LinearSumClosed(a, m, x.Floor - 1);
    assert m * x == (b - a) as real;
  }

  function Scaled(x: real, c: real): real {
    x * c
  }

  /** The series stays between n times its end points. */
  lemma ProgressionBounds(a: real, b: real, m: real, x: real, n: real)
    requires n >= 1.0 && n <= x && m * x == b - a
    ensures a <= b ==> Scaled(n, a) <= Progression(a, m, n - 1.0) <= Scaled(n, b)
    ensures a >= b ==> Scaled(n, b) <= Progression(a, m, n - 1.0) <= Scaled(n, a)
  {
    var h := (n - 1.0) / 2.0;
    assert Progression(a, m, n - 1.0) == n * a + m * (n * h) by {
      assert (n - 1.0) * n / 2.0 == n * h;
    }
    assert m * (n * h) == n * (m * h);
    assert 0.0 <= h <= x;
    if a <= b {
      SlopeSign(m, x, b - a);
      assert 0.0 <= m * h <= m * x;
      ScaleMonotone(n, 0.0, m * h);
      ScaleMonotone(n, m * h, b - a);
    }
    if a >= b {
      SlopeSign(-m, x, a - b);
      assert 0.0 <= (-m) * h <= (-m) * x;
      ScaleMonotone(n, 0.0, (-m) * h);
      ScaleMonotone(n, (-m) * h, a - b);
    }
  }

  lemma SlopeSign(m: real, x: real, d: real)
    requires x >= 1.0 && m * x == d && d >= 0.0
    ensures m >= 0.0
  {
    if m < 0.0 {
      NegativeProduct(m, x);
    }
  }

  lemma NegativeProduct(m: real, x: real)
    requires m < 0.0 && x > 0.0
    ensures m * x < 0.0
  {
  }

  lemma ScaleMonotone(n: real, c: real, d: real)
    requires n >= 0.0 && c <= d
    ensures n * c <= n * d
  {
    assert n * (d - c) >= 0.0;
  }

  function Min(a: int, b: int): int {
    if a <= b then a else b
  }

  function Max(a: int, b: int): int {
    if a <= b then b else a
  }

  /** The estimate lies between x times the smaller and x times the larger count. */
  lemma DiraBounds(a: int, b: int, x: real)
    requires x >= 1.0
    ensures Scaled(x, Min(a, b) as real) <= DiraEstimate(a, b, x) <= Scaled(x, Max(a, b) as real)
  {
    var m, n := (b - a) as real / x, x.Floor as real;
    DiraClosedForm(a, b, x);
    SlopeTimesRatio(a, b, x);
    ProgressionBounds(a as real, b as real, m, x, n);
    SplitTail(n, x, Min(a, b) as real, b as real);
    SplitTail(n, x, b as real, Max(a, b) as real);
    SplitTail(n, x, Max(a, b) as real, Max(a, b) as real);
  }

  lemma SlopeTimesRatio(a: int, b: int, x: real)
    requires x != 0.0
    ensures (b - a) as real / x * x == b as real - a as real
  {
  }

  lemma SplitTail(n: real, x: real, c: real, d: real)
    requires 0.0 <= n <= x && c <= d
    ensures Tail(n, x, c) <= Tail(n, x, d)
    ensures Scaled(n, c) + Tail(n, x, c) == Scaled(x, c)
  {
    ScaleMonotone(x - n, c, d);
  }

  // ---------------------------------------------------- truncating a whole series

  function Truncs(es: seq<real>): (ts: seq<int>)
    ensures |ts| == |es|
  {
    seq(|es|, i requires 0 <= i < |es| => Trunc(es[i]))
  }

  function RealSum(es: seq<real>, t: nat): real
    requires t <= |es|
  {
    if t == 0 then 0.0 else RealSum(es, t - 1) + es[t - 1]
  }

  /** Truncating nonnegative estimates keeps the series nondecreasing and within t
      below the untruncated sum at sample t. */
  lemma {:induction false} TruncationError(a: int, es: seq<real>, t: nat)
    requires t <= |es| && forall i :: 0 <= i < |es| ==> es[i] >= 0.0
    ensures Nondecreasing(Sums(a, Truncs(es)))
    ensures 0.0 <= a as real + RealSum(es, t) - Sums(a, Truncs(es))[t] as real <= t as real
  {
    SumsNondecreasing(a, Truncs(es));
    if t > 0 {
      TruncationError(a, es, t - 1);
      SumsStep(a, Truncs(es), t - 1);
    }
  }

  /** A truncated series rises exactly if no estimate is -1 or less. */
  lemma RisesExactly(a: int, es: seq<real>)
    ensures Nondecreasing(Sums(a, Truncs(es))) <==> forall i :: 0 <= i < |es| ==> es[i] > -1.0
  {
    SumsNondecreasing(a, Truncs(es));
    assert forall i :: 0 <= i < |es| ==> (Truncs(es)[i] >= 0 <==> es[i] > -1.0);
  }

  /** Every interval was enabled at least as long as it ran. */
  predicate EnabledCovers(dTe: seq<int>, dTr: seq<int>) {
    |dTe| == |dTr| && forall i :: 0 <= i < |dTr| ==> 0 <= dTr[i] <= dTe[i]
  }

  /** No interval ran without being enabled: the ratios are defined and not zero. */
  predicate RatiosNonzero(dTe: seq<int>, dTr: seq<int>) {
    |dTe| == |dTr| && forall i :: 0 <= i < |dTr| ==> dTr[i] == 0 || dTe[i] != 0
  }

  /** Every interval that ran was enabled for some time: the ratios are positive. */
  predicate RatiosPositive(dTe: seq<int>, dTr: seq<int>) {
    |dTe| == |dTr| && forall i :: 0 <= i < |dTr| ==> dTr[i] >= 0 && (dTr[i] > 0 ==> dTe[i] > 0)
  }

  lemma RatioPositive(dTe: int, dTr: int)
    requires dTr >= 0 && (dTr > 0 ==> dTe > 0)
    ensures Ratio(dTe, dTr) > 0.0
  {
  }

  lemma RatioNonzero(dTe: int, dTr: int)
    requires dTr == 0 || dTe != 0
    ensures Ratio(dTe, dTr) != 0.0
  {
    if dTr != 0 {
      QuotientNonzero(dTe as real, dTr as real);
    }
  }

  lemma QuotientNonzero(a: real, b: real)
    requires a != 0.0 && b != 0.0
    ensures a / b != 0.0
  {
    assert a == a / b * b;
  }

  lemma RatioAtLeastOne(dTe: int, dTr: int)
    requires 0 <= dTr <= dTe
    ensures Ratio(dTe, dTr) >= 1.0
    ensures dTe == dTr ==> Ratio(dTe, dTr) == 1.0
  {
    if dTr != 0 {
      QuotientAtLeastOne(dTe as real, dTr as real);
    }
  }

  lemma QuotientAtLeastOne(a: real, b: real)
    requires 0.0 < b <= a
    ensures a / b >= 1.0
    ensures a == b ==> a / b == 1.0
  {
  }

  // -------------------------------------------------------------------------- DIRA

  /** The estimates of all intervals; the last one drifts to zero. */
  function DiraEstimates(d: seq<int>, dTe: seq<int>, dTr: seq<int>): (es: seq<real>)
    requires |d| == |dTe| && RatiosNonzero(dTe, dTr)
    ensures |es| == |d|
  {
    seq(|d|, i requires 0 <= i < |d| =>
      RatioNonzero(dTe[i], dTr[i]);
      DiraEstimate(d[i], if i < |d| - 1 then d[i + 1] else 0, Ratio(dTe[i], dTr[i])))
  }

  function DiraSeries(count: seq<int>, te: seq<int>, tr: seq<int>): seq<int>
    requires |count| == |te| == |tr| > 0 && RatiosNonzero(Diffs(te), Diffs(tr))
  {
    Sums(count[0], Truncs(DiraEstimates(Diffs(count), Diffs(te), Diffs(tr))))
  }

  /** Below one slot the estimate is the first count and the fraction of the second, also
      for negative ratios. */
  lemma DiraBelowOne(a: int, b: int, x: real)
    requires x < 1.0 && x != 0.0
    ensures DiraEstimate(a, b, x) == a as real + (x - Trunc(x) as real) * b as real
    ensures x > 0.0 ==> DiraEstimate(a, b, x) == a as real + x * b as real
  {
    SlopeTimesRatio(a, b, x);
    assert x > 0.0 ==> Trunc(x) == 0;
    assert Trunc(x) <= 0;
  }

  lemma DiraNonnegative(a: int, b: int, x: real)
    requires x > 0.0 && a >= 0 && b >= 0
    ensures DiraEstimate(a, b, x) >= 0.0
  {
    if x >= 1.0 {
      DiraBounds(a, b, x);
      ScaleMonotone(x, 0.0, Min(a, b) as real);
    } else {
      DiraBelowOne(a, b, x);
      ScaleMonotone(x, 0.0, b as real);
    }
  }

  lemma DiraEstimatesNonnegative(d: seq<int>, dTe: seq<int>, dTr: seq<int>)
    requires |d| == |dTe| && Nonnegative(d) && RatiosPositive(dTe, dTr)
    ensures RatiosNonzero(dTe, dTr)
    ensures forall i :: 0 <= i < |d| ==> DiraEstimates(d, dTe, dTr)[i] >= 0.0
  {
    forall i | 0 <= i < |d|
      ensures DiraEstimates(d, dTe, dTr)[i] >= 0.0
    {
      RatioPositive(dTe[i], dTr[i]);
      DiraNonnegative(d[i], if i < |d| - 1 then d[i + 1] else 0, Ratio(dTe[i], dTr[i]));
    }
  }

  /** DIRA on counts that never decrease: the same first count, never decreasing,
      and sample t at most t below the sum of the estimates up to it. */
  lemma DiraOnCounts(count: seq<int>, te: seq<int>, tr: seq<int>, t: nat)
    requires t < |count| == |te| == |tr| && Nondecreasing(count)
    requires RatiosPositive(Diffs(te), Diffs(tr))
    ensures RatiosNonzero(Diffs(te), Diffs(tr))
    ensures |DiraSeries(count, te, tr)| == |count| && DiraSeries(count, te, tr)[0] == count[0]
    ensures Nondecreasing(DiraSeries(count, te, tr))
    ensures 0.0 <= count[0] as real + RealSum(DiraEstimates(Diffs(count), Diffs(te), Diffs(tr)), t)
                   - DiraSeries(count, te, tr)[t] as real <= t as real
  {
    DiraEstimatesNonnegative(Diffs(count), Diffs(te), Diffs(tr));
    TruncationError(count[0], DiraEstimates(Diffs(count), Diffs(te), Diffs(tr)), t);
  }

  /** The estimate of one interval with count a, next count b and ratio x: over the whole
      slots the counts go from a with slope (b - a) / x, and the fraction of a slot
      counts as b; below one slot it is a and the fraction of b. */
  function DriftSum(a: real, b: real, x: real): real
    requires x > 0.0
  {
    var n := x.Floor as real;
    if x >= 1.0 then n * a + (b - a) / x * (n * (n - 1.0) / 2.0) + (x - n) * b
    else a + x * b
  }

  lemma ProgressionOfSlots(a: real, m: real, n: real)
    ensures Progression(a, m, n - 1.0) == n * a + m * (n * (n - 1.0) / 2.0)
  {
    assert (n - 1.0) * n == n * (n - 1.0);
  }

  lemma EstimateIsDrift(a: int, b: int, x: real)
    requires x > 0.0
    ensures DiraEstimate(a, b, x) == DriftSum(a as real, b as real, x)
  {
    if x >= 1.0 {
      DiraClosedForm(a, b, x);
      ProgressionOfSlots(a as real, (b - a) as real / x, x.Floor as real);
      assert (b - a) as real == b as real - a as real;
    } else {
      DiraBelowOne(a, b, x);
    }
  }

  /** The steps of a series of truncated estimates. */
  lemma SeriesStep(a: int, es: seq<real>, i: nat, e: real)
    requires i < |es| && es[i] == e
    ensures Sums(a, Truncs(es))[i + 1] - Sums(a, Truncs(es))[i] == Trunc(e)
  {
    SumsStep(a, Truncs(es), i);
  }

  lemma DriftAt(d: seq<int>, dTe: seq<int>, dTr: seq<int>, i: nat, e: real)
    requires i < |d| == |dTe| && RatiosPositive(dTe, dTr) && RatiosNonzero(dTe, dTr)
    requires Ratio(dTe[i], dTr[i]) > 0.0
    requires e == DriftSum(d[i] as real, (if i + 1 < |d| then d[i + 1] else 0) as real, Ratio(dTe[i], dTr[i]))
    ensures DiraEstimates(d, dTe, dTr)[i] == e
  {
    EstimateIsDrift(d[i], if i + 1 < |d| then d[i + 1] else 0, Ratio(dTe[i], dTr[i]));
  }

  /** The ratio of interval i, 1 where the running time stands still. */
  function RatioAt(te: seq<int>, tr: seq<int>, i: nat): (x: real)
    requires |te| == |tr| && i < |te| - 1
    ensures x == if tr[i + 1] != tr[i] then (te[i + 1] - te[i]) as real / (tr[i + 1] - tr[i]) as real else 1.0
  {
    Ratio(te[i + 1] - te[i], tr[i + 1] - tr[i])
  }

  /** The step of a series from sample i on, 0 behind its end. */
  function StepAt(s: seq<int>, i: nat): int {
    if i + 1 < |s| then s[i + 1] - s[i] else 0
  }

  /** Every step of DIRA's result from the samples: an interval drifts to the count of
      the next one, the last to 0. */
  lemma DiraSteps(count: seq<int>, te: seq<int>, tr: seq<int>, i: nat)
    requires |count| == |te| == |tr| && i < |count| - 1 && RatiosPositive(Diffs(te), Diffs(tr))
    ensures RatiosNonzero(Diffs(te), Diffs(tr)) && |DiraSeries(count, te, tr)| == |count| && RatioAt(te, tr, i) > 0.0
    ensures StepAt(DiraSeries(count, te, tr), i)
         == Trunc(DriftSum(StepAt(count, i) as real, StepAt(count, i + 1) as real, RatioAt(te, tr, i)))
  {
    var d, dTe, dTr := Diffs(count), Diffs(te), Diffs(tr);
    RatioPositive(dTe[i], dTr[i]);
    var e := DriftSum(StepAt(count, i) as real, StepAt(count, i + 1) as real, RatioAt(te, tr, i));
    assert StepAt(count, i) == d[i] && StepAt(count, i + 1) == if i + 1 < |d| then d[i + 1] else 0;
    DriftAt(d, dTe, dTr, i, e);
    SeriesStep(count[0], DiraEstimates(d, dTe, dTr), i, e);
  }

  /** Where nothing was multiplexed out, DIRA changes nothing. */
  lemma DiraUnscaled(count: seq<int>, te: seq<int>, tr: seq<int>)
    requires |count| == |te| == |tr| > 0 && EnabledCovers(Diffs(te), Diffs(tr)) && Diffs(te) == Diffs(tr)
    ensures RatiosNonzero(Diffs(te), Diffs(tr)) && DiraSeries(count, te, tr) == count
  {
    var d, dTe, dTr := Diffs(count), Diffs(te), Diffs(tr);
    assert RatiosNonzero(dTe, dTr);
    var es := DiraEstimates(d, dTe, dTr);
    forall i | 0 <= i < |d|
      ensures Truncs(es)[i] == d[i]
    {
      RatioAtLeastOne(dTe[i], dTr[i]);
      DiraAtOne(d[i], if i < |d| - 1 then d[i + 1] else 0);
    }
    assert Truncs(es) == d;
    SumsOfDiffs(count);
  }

  lemma DiraAtOne(a: int, b: int)
    ensures DiraEstimate(a, b, 1.0) == a as real
  {
    DiraClosedForm(a, b, 1.0);
  }

  // --------------------------------------------------------------------------- TAM

  /** The trapezoid estimate of interval i. */
  function TamEstimate(d: seq<int>, dTe: seq<int>, dTr: seq<int>, i: nat): real
    requires i < |d| == |dTe| == |dTr|
  {
    if i == 0 then FirstHalf(d[0], Ratio(dTe[0], dTr[0]))
    else Trapezoid(d[i - 1], d[i], Ratio(dTe[i], dTr[i])) + (d[i - 1] - d[i]) as real / 2.0
  }

  function FirstHalf(a: int, x: real): real {
    x * a as real / 2.0
  }

  function Trapezoid(a: int, b: int, x: real): real {
    (a + b) as real * x / 2.0
  }

  function TamEstimates(d: seq<int>, dTe: seq<int>, dTr: seq<int>): (es: seq<real>)
    requires |d| == |dTe| == |dTr|
    ensures |es| == |d|
  {
    seq(|d|, i requires 0 <= i < |d| => TamEstimate(d, dTe, dTr, i))
  }

  function TamSeries(count: seq<int>, te: seq<int>, tr: seq<int>): seq<int>
    requires |count| == |te| == |tr| > 0
  {
    Sums(count[0], Truncs(TamEstimates(Diffs(count), Diffs(te), Diffs(tr))))
  }

  lemma TrapezoidAtLeast(a: int, b: int, x: real)
    requires a >= 0 && b >= 0 && x >= 1.0
    ensures Trapezoid(a, b, x) >= (a + b) as real / 2.0
    ensures x == 1.0 ==> Trapezoid(a, b, x) == (a + b) as real / 2.0
  {
    ScaleMonotone((a + b) as real, 1.0, x);
  }

  lemma HalfNonnegative(x: real, c: real)
    requires x >= 0.0 && c >= 0.0
    ensures x * c / 2.0 >= 0.0
  {
  }

  /** Each estimate after the first is at least the difference before it. */
  lemma TamEstimateAtLeast(d: seq<int>, dTe: seq<int>, dTr: seq<int>, i: nat)
    requires i < |d| == |dTe| && Nonnegative(d) && EnabledCovers(dTe, dTr)
    ensures TamEstimate(d, dTe, dTr, i) >= if i == 0 then 0.0 else d[i - 1] as real
  {
    RatioAtLeastOne(dTe[i], dTr[i]);
    if i == 0 {
      HalfNonnegative(Ratio(dTe[0], dTr[0]), d[0] as real);
    } else {
      TrapezoidAtLeast(d[i - 1], d[i], Ratio(dTe[i], dTr[i]));
    }
  }

  lemma TamEstimatesNonnegative(d: seq<int>, dTe: seq<int>, dTr: seq<int>)
    requires |d| == |dTe| && Nonnegative(d) && EnabledCovers(dTe, dTr)
    ensures forall i :: 0 <= i < |d| ==> TamEstimates(d, dTe, dTr)[i] >= 0.0
  {
    forall i | 0 <= i < |d|
      ensures TamEstimate(d, dTe, dTr, i) >= 0.0
    {
      TamEstimateAtLeast(d, dTe, dTr, i);
    }
  }

  lemma TruncAtLeast(x: real, n: int)
    requires n >= 0 && x >= n as real
    ensures Trunc(x) >= n
  {
  }

  /** TAM on counts that never decrease: the same first count, never decreasing,
      sample t within t of the untruncated sum and never below the raw count of
      the sample before it. */
  lemma TamOnCounts(count: seq<int>, te: seq<int>, tr: seq<int>, t: nat)
    requires t < |count| == |te| == |tr| && Nondecreasing(count)
    requires EnabledCovers(Diffs(te), Diffs(tr))
    ensures var out := TamSeries(count, te, tr);
      && |out| == |count| && out[0] == count[0] && Nondecreasing(out)
      && out[t] >= count[if t == 0 then 0 else t - 1]
    ensures 0.0 <= count[0] as real + RealSum(TamEstimates(Diffs(count), Diffs(te), Diffs(tr)), t)
                   - TamSeries(count, te, tr)[t] as real <= t as real
  {
    TamEstimatesNonnegative(Diffs(count), Diffs(te), Diffs(tr));
    TruncationError(count[0], TamEstimates(Diffs(count), Diffs(te), Diffs(tr)), t);
    TamNotBelow(count, te, tr, t);
  }

  lemma {:induction false} TamNotBelow(count: seq<int>, te: seq<int>, tr: seq<int>, t: nat)
    requires t < |count| == |te| == |tr| && Nondecreasing(count)
    requires EnabledCovers(Diffs(te), Diffs(tr))
    ensures TamSeries(count, te, tr)[t] >= count[if t == 0 then 0 else t - 1]
  {
    if t > 0 {
      var d, dTe, dTr := Diffs(count), Diffs(te), Diffs(tr);
      var ts := Truncs(TamEstimates(d, dTe, dTr));
      TamNotBelow(count, te, tr, t - 1);
      SumsStep(count[0], ts, t - 1);
      TamEstimateAtLeast(d, dTe, dTr, t - 1);
      TruncAtLeast(TamEstimate(d, dTe, dTr, t - 1), if t == 1 then 0 else d[t - 2]);
    }
  }

  /** Where an estimate of TAM stays above -1: the drop to the interval's own difference
      must not outweigh the one before it, for any ratio. */
  predicate TamStaysUp(d: seq<int>, dTe: seq<int>, dTr: seq<int>, i: nat)
    requires i < |d| == |dTe| == |dTr|
  {
    var x := Ratio(dTe[i], dTr[i]);
    if i == 0 then FirstHalf(d[0], x) > -1.0
    else d[i] as real * (1.0 - x) < d[i - 1] as real * (1.0 + x) + 2.0
  }

  lemma TamAboveMinusOne(d: seq<int>, dTe: seq<int>, dTr: seq<int>, i: nat)
    requires i < |d| == |dTe| == |dTr|
    ensures TamEstimate(d, dTe, dTr, i) > -1.0 <==> TamStaysUp(d, dTe, dTr, i)
  {
    if i > 0 {
      LaterAbove(d[i - 1], d[i], Ratio(dTe[i], dTr[i]));
    }
  }

  lemma LaterAbove(a: int, b: int, x: real)
    ensures Trapezoid(a, b, x) + (a - b) as real / 2.0 > -1.0
      <==> b as real * (1.0 - x) < a as real * (1.0 + x) + 2.0
  {
    TrapezoidSplit(a as real, b as real, x);
    HalfAbove(a as real * (1.0 + x), b as real * (1.0 - x));
  }

  lemma TrapezoidSplit(a: real, b: real, x: real)
    ensures (a + b) * x / 2.0 + (a - b) / 2.0 == (a * (1.0 + x) - b * (1.0 - x)) / 2.0
  {
  }

  lemma HalfAbove(p: real, q: real)
    ensures (p - q) / 2.0 > -1.0 <==> q < p + 2.0
  {
  }

  /** TAM's series rises exactly if that holds for every interval, on all inputs. */
  lemma TamRisesExactly(count: seq<int>, te: seq<int>, tr: seq<int>)
    requires |count| == |te| == |tr| > 0
    ensures Nondecreasing(TamSeries(count, te, tr))
      <==> forall i :: 0 <= i < |count| - 1 ==> TamStaysUp(Diffs(count), Diffs(te), Diffs(tr), i)
  {
    var d, dTe, dTr := Diffs(count), Diffs(te), Diffs(tr);
    var es := TamEstimates(d, dTe, dTr);
    RisesExactly(count[0], es);
    forall i | 0 <= i < |d| ensures es[i] > -1.0 <==> TamStaysUp(d, dTe, dTr, i) {
      TamAboveMinusOne(d, dTe, dTr, i);
    }
  }

  /** Every step of TAM's result from the samples: the trapezoid of the interval and the
      one before it, scaled by the ratio, and half of what they differ; half of the first
      interval, scaled. */
  lemma TamSteps(count: seq<int>, te: seq<int>, tr: seq<int>, i: nat)
    requires |count| == |te| == |tr| && i < |count| - 1
    ensures |TamSeries(count, te, tr)| == |count|
    ensures StepAt(TamSeries(count, te, tr), i) == Trunc(
      if i == 0 then RatioAt(te, tr, 0) * StepAt(count, 0) as real / 2.0
      else (StepAt(count, i - 1) + StepAt(count, i)) as real * RatioAt(te, tr, i) / 2.0
           + (StepAt(count, i - 1) - StepAt(count, i)) as real / 2.0)
  {
    var d, dTe, dTr := Diffs(count), Diffs(te), Diffs(tr);
    var e := if i == 0 then RatioAt(te, tr, 0) * StepAt(count, 0) as real / 2.0
             else (StepAt(count, i - 1) + StepAt(count, i)) as real * RatioAt(te, tr, i) / 2.0
                  + (StepAt(count, i - 1) - StepAt(count, i)) as real / 2.0;
    TamAt(d, dTe, dTr, i, e);
    SeriesStep(count[0], TamEstimates(d, dTe, dTr), i, e);
  }

  lemma TamAt(d: seq<int>, dTe: seq<int>, dTr: seq<int>, i: nat, e: real)
    requires i < |d| == |dTe| == |dTr|
    requires e == if i == 0 then Ratio(dTe[0], dTr[0]) * d[0] as real / 2.0
                  else (d[i - 1] + d[i]) as real * Ratio(dTe[i], dTr[i]) / 2.0 + (d[i - 1] - d[i]) as real / 2.0
    ensures TamEstimates(d, dTe, dTr)[i] == e
  {
  }

  /** The weighted trapezoids alone. */
  function TrapezoidSum(d: seq<int>, dTe: seq<int>, dTr: seq<int>, t: nat): real
    requires t <= |d| == |dTe| == |dTr|
  {
    if t == 0 then 0.0
    else TrapezoidSum(d, dTe, dTr, t - 1)
         + if t == 1 then FirstHalf(d[0], Ratio(dTe[0], dTr[0]))
           else Trapezoid(d[t - 2], d[t - 1], Ratio(dTe[t - 1], dTr[t - 1]))
  }

  /** The corrections telescope: the estimates add up to the trapezoids plus half
      the difference of the first and the last step. */
  lemma {:induction false} TamTelescopes(d: seq<int>, dTe: seq<int>, dTr: seq<int>, t: nat)
    requires 1 <= t <= |d| == |dTe| == |dTr|
    ensures RealSum(TamEstimates(d, dTe, dTr), t)
         == TrapezoidSum(d, dTe, dTr, t) + (d[0] - d[t - 1]) as real / 2.0
  {
    var es := TamEstimates(d, dTe, dTr);
    assert RealSum(es, t) == RealSum(es, t - 1) + TamEstimate(d, dTe, dTr, t - 1);
    if t > 1 {
      TamTelescopes(d, dTe, dTr, t - 1);
    }
  }

  /** Where nothing was multiplexed out, TAM delays the counts by one sample and
      adds half of the first step. */
  lemma TamUnscaled(d: seq<int>, dTe: seq<int>, dTr: seq<int>, i: nat)
    requires i < |d| == |dTe| && Nonnegative(d) && EnabledCovers(dTe, dTr) && dTe[i] == dTr[i]
    ensures TamEstimate(d, dTe, dTr, i) == if i == 0 then d[0] as real / 2.0 else d[i - 1] as real
  {
    RatioAtLeastOne(dTe[i], dTr[i]);
    if i > 0 {
      TrapezoidAtLeast(d[i - 1], d[i], 1.0);
    }
  }

  // ------------------------------------------------------------------- the passes

  method Ratios(alpha: array<real>, diffTe: array<int>, diffTr: array<int>, len: nat)
    requires len == alpha.Length == diffTe.Length == diffTr.Length
    modifies alpha
    ensures forall i :: 0 <= i < len ==> alpha[i] == Ratio(diffTe[i], diffTr[i])
  {
    var i := 0;
    while i < len
      invariant 0 <= i <= len
      invariant forall n :: 0 <= n < i ==> alpha[n] == Ratio(diffTe[n], diffTr[n])
    {
      if diffTr[i] != 0 {
        alpha[i] := diffTe[i] as real / diffTr[i] as real;
      } else {
        alpha[i] := 1.0;
      }
      i := i + 1;
    }
  }

  /** The cast of all estimates. */
  method Cast(diffCount: array<int>, alpha: array<real>, len: nat)
    requires len == diffCount.Length == alpha.Length
    modifies diffCount
    ensures diffCount[..] == Truncs(alpha[..])
  {
    var i := 0;
    while i < len
      invariant 0 <= i <= len
      invariant forall n :: 0 <= n < i ==> diffCount[n] == Trunc(alpha[n])
    {
      diffCount[i] := Trunc(alpha[i]);
      i := i + 1;
    }
  }

  /** The three difference arrays and the ratios, shared by the passes. */
  method Differences(count: array<int>, te: array<int>, tr: array<int>, nsamples: nat)
    returns (diffCount: array<int>, alpha: array<real>)
    requires 2 <= nsamples <= count.Length && nsamples <= te.Length && nsamples <= tr.Length
    ensures fresh(diffCount) && fresh(alpha) && diffCount.Length == alpha.Length == nsamples - 1
    ensures diffCount[..] == Diffs(count[..nsamples])
    ensures forall i :: 0 <= i < nsamples - 1 ==>
      alpha[i] == Ratio(Diffs(te[..nsamples])[i], Diffs(tr[..nsamples])[i])
  {
    var diffLen := nsamples - 1;
    diffCount := new int[diffLen];
    var diffTe := new int[diffLen];
    var diffTr := new int[diffLen];
    alpha := new real[diffLen];
    Diff(diffCount, count, nsamples);
    Diff(diffTe, te, nsamples);
    Diff(diffTr, tr, nsamples);
    assert diffTe[..diffLen] == diffTe[..] && diffTr[..diffLen] == diffTr[..] && diffCount[..diffLen] == diffCount[..];
    ghost var dTe, dTr := diffTe[..], diffTr[..];
    Ratios(alpha, diffTe, diffTr, diffLen);
    assert dTe == diffTe[..] && dTr == diffTr[..];
  }

  /** Turns the ratios into DIRA's estimates, in place. */
  method EstimateDira(alpha: array<real>, diffCount: array<int>, diffLen: nat, ghost dTe: seq<int>, ghost dTr: seq<int>)
    requires 1 <= diffLen == alpha.Length == diffCount.Length == |dTe| && RatiosNonzero(dTe, dTr)
    requires forall n :: 0 <= n < diffLen ==> alpha[n] == Ratio(dTe[n], dTr[n])
    modifies alpha
    ensures alpha[..] == DiraEstimates(diffCount[..], dTe, dTr)
  {
    ghost var es := DiraEstimates(diffCount[..], dTe, dTr);
    var i := 0;
    while i < diffLen - 1
      invariant 0 <= i <= diffLen - 1
      invariant forall n :: 0 <= n < i ==> alpha[n] == es[n]
      invariant forall n :: i <= n < diffLen ==> alpha[n] == Ratio(dTe[n], dTr[n])
    {
      RatioNonzero(dTe[i], dTr[i]);
      EstimateOne(alpha, i, diffCount[i], diffCount[i + 1], es[i]);
      i := i + 1;
    }
    RatioNonzero(dTe[i], dTr[i]);
    EstimateOne(alpha, i, diffCount[i], 0, es[i]);
  }

  /** Replaces the ratio of interval i by its estimate e. */
  method EstimateOne(alpha: array<real>, i: nat, a: int, b: int, ghost e: real)
    requires i < alpha.Length && alpha[i] != 0.0 && e == DiraEstimate(a, b, alpha[i])
    modifies alpha
    ensures alpha[i] == e
    ensures forall n :: 0 <= n < alpha.Length && n != i ==> alpha[n] == old(alpha[n])
  {
    alpha[i] := DiraRawToEst(a, b, alpha[i]);
  }

  /** Turns the ratios into TAM's estimates, in place. */
  method EstimateTam(alpha: array<real>, diffCount: array<int>, diffLen: nat, ghost dTe: seq<int>, ghost dTr: seq<int>)
    requires 1 <= diffLen == alpha.Length == diffCount.Length == |dTe| == |dTr|
    requires forall n :: 0 <= n < diffLen ==> alpha[n] == Ratio(dTe[n], dTr[n])
    modifies alpha
    ensures alpha[..] == TamEstimates(diffCount[..], dTe, dTr)
  {
    ghost var d := diffCount[..];
    alpha[0] := alpha[0] * diffCount[0] as real / 2.0;
    var i := 0;
    while i < diffLen - 1
      invariant 0 <= i <= diffLen - 1
      invariant forall n :: 0 <= n <= i ==> alpha[n] == TamEstimate(d, dTe, dTr, n)
      invariant forall n :: i < n < diffLen ==> alpha[n] == Ratio(dTe[n], dTr[n])
    {
      assert Trapezoid(d[i], d[i + 1], alpha[i + 1]) == (diffCount[i] + diffCount[i + 1]) as real * alpha[i + 1] / 2.0;
      alpha[i + 1] := (diffCount[i] + diffCount[i + 1]) as real * alpha[i + 1] / 2.0
                      + (diffCount[i] - diffCount[i + 1]) as real / 2.0;
      i := i + 1;
    }
  }

  method Dira(count: array<int>, te: array<int>, tr: array<int>, nsamples: nat)
    requires 2 <= nsamples <= count.Length && nsamples <= te.Length && nsamples <= tr.Length
    requires RatiosNonzero(Diffs(te[..nsamples]), Diffs(tr[..nsamples]))
    modifies count
    ensures count[..nsamples] == old(DiraSeries(count[..nsamples], te[..nsamples], tr[..nsamples]))
    ensures count[nsamples..] == old(count[nsamples..])
  {
    ghost var d, dTe, dTr := Diffs(count[..nsamples]), Diffs(te[..nsamples]), Diffs(tr[..nsamples]);
    var diffCount, alpha := Differences(count, te, tr, nsamples);
    EstimateDira(alpha, diffCount, nsamples - 1, dTe, dTr);
    assert diffCount[..] == d;
    Cast(diffCount, alpha, nsamples - 1);
    assert diffCount[..nsamples - 1] == diffCount[..];
    CumSum(count, diffCount, nsamples);
  }

  method Tam(count: array<int>, te: array<int>, tr: array<int>, nsamples: nat)
    requires 2 <= nsamples <= count.Length && nsamples <= te.Length && nsamples <= tr.Length
    modifies count
    ensures count[..nsamples] == old(TamSeries(count[..nsamples], te[..nsamples], tr[..nsamples]))
    ensures count[nsamples..] == old(count[nsamples..])
  {
    ghost var d, dTe, dTr := Diffs(count[..nsamples]), Diffs(te[..nsamples]), Diffs(tr[..nsamples]);
    var diffCount, alpha := Differences(count, te, tr, nsamples);
    EstimateTam(alpha, diffCount, nsamples - 1, dTe, dTr);
    assert diffCount[..] == d;
    Cast(diffCount, alpha, nsamples - 1);
    assert diffCount[..nsamples - 1] == diffCount[..];
    CumSum(count, diffCount, nsamples);
  }
}
