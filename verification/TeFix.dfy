/** The pass te_fix of src/papi_accurate_multiplexing.c: outliers among the steps
    of the enabled time are replaced by the centre of the commonest cluster. */
module TeFix {
  import opened Series
  import opened KMeans

  /** Final centres, labels and commonest label of the steps d. */
  function Centers(d: seq<int>, k: nat): (cs: seq<Double>)
    requires k >= 2 && |d| > 0
    ensures |cs| == k
  {
    Lloyd(d, InitialCenters(d, k))
  }

  function ModeLabel(d: seq<int>, k: nat): (m: nat)
    requires k >= 2 && |d| > 0
    ensures m < k
  {
    MaxIndex(Counts(Labels(d, Centers(d, k)), k))
  }

  /** The centres come from k steps as far apart as fits, by passes up to the first that
      changes nothing. */
  lemma CentersAre(d: seq<int>, k: nat) returns (s: nat, run: seq<seq<Double>>)
    requires k >= 2 && |d| > 0
    ensures (k - 1) * s <= |d| - 1 < (k - 1) * (s + 1)
    ensures IsRun(d, run) && |run[0]| == k && run[|run| - 1] == Centers(d, k)
    ensures forall i :: 0 <= i < k ==> i * s < |d| && run[0][i] == Num(d[i * s] as real)
  {
    s := InitialCentersAre(d, k);
    run := LloydRuns(d, InitialCenters(d, k));
  }

  /** A step, or the truncated centre of the commonest cluster in its place.  A
      centre that is NaN is never converted: see ModeIsNumber. */
  function FixedStep(d: seq<int>, k: nat, i: nat): int
    requires k >= 2 && i < |d|
  {
    var m := ModeLabel(d, k);
    if Labels(d, Centers(d, k))[i] == m then d[i]
    else
      ModeIsNumber(d, k, i);
      Trunc(Centers(d, k)[m].r)
  }

  function FixedSteps(d: seq<int>, k: nat): (f: seq<int>)
    requires k >= 2 && |d| > 0
    ensures |f| == |d|
  {
    seq(|d|, i requires 0 <= i < |d| => FixedStep(d, k, i))
  }

  lemma {:induction false} CountPositive(ls: seq<nat>, c: nat)
    ensures Count(ls, c) > 0 <==> c in ls
    ensures Count(ls, c) <= |ls|
  {
    if ls != [] {
      CountPositive(ls[..|ls| - 1], c);
      assert ls == ls[..|ls| - 1] + [ls[|ls| - 1]];
    }
  }

  /** If some step is to be replaced, the centre that replaces it is a number. */
  lemma ModeIsNumber(d: seq<int>, k: nat, i: nat)
    requires k >= 2 && i < |d|
    ensures Labels(d, Centers(d, k))[i] != ModeLabel(d, k) ==> Centers(d, k)[ModeLabel(d, k)].Num?
  {
    var cs := Centers(d, k);
    var ls, m := Labels(d, cs), ModeLabel(d, k);
    CountPositive(ls, ls[i]);
    CountPositive(ls, m);
    assert Counts(ls, k)[ls[i]] <= Counts(ls, k)[m];
    var j :| 0 <= j < |ls| && ls[j] == m;
    if cs[0].NaN? {
      NaNEndsTheLoop(d, cs);
    } else {
      NearestLabel(d[j], cs, 0);
    }
  }

  lemma ModeIsCommonest(d: seq<int>, k: nat, c: nat)
    requires k >= 2 && |d| > 0 && c < k
    ensures Count(Labels(d, Centers(d, k)), c) <= Count(Labels(d, Centers(d, k)), ModeLabel(d, k))
  {
    var ls, m := Labels(d, Centers(d, k)), ModeLabel(d, k);
    assert Counts(ls, k)[c] <= Counts(ls, k)[m];
  }

  /** The replacement of one step: labels are nearest centres with ties to the
      lowest index, the kept cluster has at least as many members as any other c,
      and what replaces a step outside it is a truncated number. */
  lemma FixedStepMeaning(d: seq<int>, k: nat, i: nat, c: nat)
    requires k >= 2 && i < |d| && c < k
    ensures IsMinIndex(Dists(d[i], Centers(d, k)), Labels(d, Centers(d, k))[i])
    ensures Count(Labels(d, Centers(d, k)), c) <= Count(Labels(d, Centers(d, k)), ModeLabel(d, k))
    ensures Labels(d, Centers(d, k))[i] == ModeLabel(d, k) ==> FixedStep(d, k, i) == d[i]
    ensures Labels(d, Centers(d, k))[i] != ModeLabel(d, k) ==>
      var center := Centers(d, k)[ModeLabel(d, k)]; center.Num? && FixedStep(d, k, i) == Trunc(center.r)
  {
    ModeIsCommonest(d, k, c);
    if Labels(d, Centers(d, k))[i] != ModeLabel(d, k) {
      ModeIsNumber(d, k, i);
    }
  }

  /** The pass on a series of enabled times: the first time stays, step i becomes
      the fixed step, and a step in the commonest cluster stays as well. */
  lemma FixedTimes(te: seq<int>, k: nat, i: nat)
    requires k >= 2 && i < |te| - 1
    ensures |Sums(te[0], FixedSteps(Diffs(te), k))| == |te| && Sums(te[0], FixedSteps(Diffs(te), k))[0] == te[0]
    ensures Diffs(Sums(te[0], FixedSteps(Diffs(te), k)))[i] == FixedStep(Diffs(te), k, i)
    ensures Labels(Diffs(te), Centers(Diffs(te), k))[i] == ModeLabel(Diffs(te), k) ==>
      Diffs(Sums(te[0], FixedSteps(Diffs(te), k)))[i] == te[i + 1] - te[i]
  {
    DiffsOfSums(te[0], FixedSteps(Diffs(te), k));
  }

  lemma SumOfSnoc(m: seq<int>, x: int)
    ensures SumOf(m + [x]) == SumOf(m) + x && m + [] == m
  {
    assert (m + [x])[..|m|] == m;
  }

  lemma {:induction false} MembersNonnegative(p: seq<int>, ls: seq<nat>, c: nat)
    requires |ls| == |p| && Nonnegative(p)
    ensures SumOf(Members(p, ls, c)) >= 0
  {
    if p != [] {
      var n := |p| - 1;
      MembersNonnegative(p[..n], ls[..n], c);
      var m' := Members(p[..n], ls[..n], c);
      SumOfSnoc(m', p[n]);
    }
  }

  lemma CenterNonnegative(d: seq<int>, k: nat, m: nat)
    requires k >= 2 && |d| > 0 && Nonnegative(d) && m < k
    ensures Centers(d, k)[m].Num? ==> Centers(d, k)[m].r >= 0.0
  {
    var last := LloydSettles(d, InitialCenters(d, k));
    var ms := Members(d, Labels(d, last), m);
    MembersNonnegative(d, Labels(d, last), m);
    assert Centers(d, k)[m] == Mean(ms);
    if ms != [] {
      QuotientNonnegative(SumOf(ms) as real, |ms| as real);
    }
  }

  lemma QuotientNonnegative(s: real, n: real)
    requires s >= 0.0 && n > 0.0
    ensures s / n >= 0.0
  {
  }

  /** Times that never run backwards still do not after the pass. */
  lemma FixedTimesNondecreasing(te: seq<int>, k: nat)
    requires k >= 2 && |te| >= 2 && Nondecreasing(te)
    ensures Nondecreasing(Sums(te[0], FixedSteps(Diffs(te), k)))
  {
    var d := Diffs(te);
    forall i | 0 <= i < |d|
      ensures FixedSteps(d, k)[i] >= 0
    {
      if Labels(d, Centers(d, k))[i] != ModeLabel(d, k) {
        ModeIsNumber(d, k, i);
        CenterNonnegative(d, k, ModeLabel(d, k));
      }
    }
    SumsNondecreasing(te[0], FixedSteps(d, k));
  }

  /** te_fix itself. */
  method Run(te: array<int>, nsamples: nat, kmeansClusters: nat)
    requires 2 <= nsamples <= te.Length && kmeansClusters >= 2
    modifies te
    ensures te[..nsamples] == Sums(old(te[0]), FixedSteps(Diffs(old(te[..nsamples])), kmeansClusters))
    ensures te[nsamples..] == old(te[nsamples..])
  {
    var diffTe := new int[nsamples - 1];
    Diff(diffTe, te, nsamples);
    assert diffTe[..nsamples - 1] == diffTe[..];
    ReplaceOutliers(diffTe, kmeansClusters);
    assert diffTe[..nsamples - 1] == diffTe[..];
    CumSum(te, diffTe, nsamples);
  }

  /** What the pass does with the steps. */
  method ReplaceOutliers(diffTe: array<int>, kmeansClusters: nat)
    requires diffTe.Length > 0 && kmeansClusters >= 2
    modifies diffTe
    ensures diffTe[..] == FixedSteps(old(diffTe[..]), kmeansClusters)
  {
    ghost var d := diffTe[..];
    var n := diffTe.Length;
    var labels := new nat[n];
    var center := new Double[kmeansClusters];
    assert diffTe[..n] == d;
    ghost var passes := KMeans.KMeans(labels, center, diffTe, n, kmeansClusters);
    assert diffTe[..n] == d && labels[..n] == labels[..];
    var mostCommonMode := Mode(labels, n, kmeansClusters);
    ReplaceSteps(diffTe, labels, center, mostCommonMode, n, d);
  }

  /** Overwrites every step outside the commonest cluster. */
  method ReplaceSteps(diffTe: array<int>, labels: array<nat>, center: array<Double>, mode: nat, len: nat,
                      ghost d: seq<int>)
    requires 0 < len == |d| == labels.Length == diffTe.Length && center.Length >= 2
    requires diffTe as object != labels && diffTe as object != center
    requires center[..] == Centers(d, center.Length) && labels[..] == Labels(d, center[..])
    requires diffTe[..] == d && mode == ModeLabel(d, center.Length)
    modifies diffTe
    ensures diffTe[..] == FixedSteps(d, center.Length)
  {
    ghost var fixed, ls, cs := FixedSteps(d, center.Length), labels[..], center[..];
    for i := 0 to len
      invariant labels[..] == ls && center[..] == cs
      invariant forall n :: 0 <= n < len ==> diffTe[n] == if n < i then fixed[n] else d[n]
    {
      ReplaceStep(diffTe, labels, center, mode, i, d);
    }
  }

  method ReplaceStep(diffTe: array<int>, labels: array<nat>, center: array<Double>, mode: nat, i: nat, ghost d: seq<int>)
    requires i < |d| == labels.Length == diffTe.Length && center.Length >= 2
    requires diffTe as object != labels && diffTe as object != center
    requires center[..] == Centers(d, center.Length) && labels[..] == Labels(d, center[..])
    requires diffTe[i] == d[i] && mode == ModeLabel(d, center.Length)
    modifies diffTe
    ensures forall n :: 0 <= n < |d| ==>
      diffTe[n] == if n == i then FixedSteps(d, center.Length)[i] else old(diffTe[n])
  {
    assert labels[i] == labels[..][i] && center[mode] == center[..][mode];
    if labels[i] != mode {
      ModeIsNumber(d, center.Length, i);
      diffTe[i] := Trunc(center[mode].r);
    }
  }
}
