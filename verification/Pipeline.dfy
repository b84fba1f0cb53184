/** The passes one after the other, as the driver of src/papi_accurate_multiplexing.c
    runs them: first the enabled times are fixed, then the counts are estimated from
    them. */
module Pipeline {
  import opened Series
  import opened KMeans
  import opened TeFix
  import opened Estimators
  import MissingFix

  /** The enabled times after te_fix. */
  function FixedTe(te: seq<int>, k: nat): (f: seq<int>)
    requires |te| >= 2 && k >= 2
    ensures |f| == |te| && f[0] == te[0]
  {
    Sums(te[0], FixedSteps(Diffs(te), k))
  }

  /** Step i is replaced by the mode centre. */
  predicate Replaced(d: seq<int>, k: nat, i: nat)
    requires k >= 2 && i < |d|
  {
    Labels(d, Centers(d, k))[i] != ModeLabel(d, k)
  }

  /** The truncated mode centre; it is a number where a step is replaced. */
  function Substitute(d: seq<int>, k: nat): int
    requires k >= 2 && |d| > 0
  {
    var center := Centers(d, k)[ModeLabel(d, k)];
    if center.Num? then Trunc(center.r) else 0
  }

  lemma FixedIs(d: seq<int>, k: nat, i: nat)
    requires k >= 2 && i < |d|
    ensures FixedSteps(d, k)[i] == if Replaced(d, k, i) then Substitute(d, k) else d[i]
  {
    ModeIsNumber(d, k, i);
  }

  /** te_fix keeps the enabled time above the running time exactly if no replaced step
      ran for longer than the truncated mode centre. */
  lemma CoverSurvives(te: seq<int>, tr: seq<int>, k: nat)
    requires |te| == |tr| >= 2 && k >= 2 && EnabledCovers(Diffs(te), Diffs(tr))
    ensures EnabledCovers(Diffs(FixedTe(te, k)), Diffs(tr)) <==>
      forall i :: 0 <= i < |te| - 1 && Replaced(Diffs(te), k, i) ==> Diffs(tr)[i] <= Substitute(Diffs(te), k)
  {
    var d := Diffs(te);
    DiffsOfSums(te[0], FixedSteps(d, k));
    forall i | 0 <= i < |d|
      ensures Diffs(FixedTe(te, k))[i] == if Replaced(d, k, i) then Substitute(d, k) else d[i]
    {
      FixedIs(d, k, i);
    }
  }

  /** The ratios stay positive exactly if the truncated mode centre is positive or no
      replaced step ran. */
  lemma RatiosSurvive(te: seq<int>, tr: seq<int>, k: nat)
    requires |te| == |tr| >= 2 && k >= 2 && RatiosPositive(Diffs(te), Diffs(tr))
    ensures RatiosPositive(Diffs(FixedTe(te, k)), Diffs(tr)) <==>
      forall i :: 0 <= i < |te| - 1 && Replaced(Diffs(te), k, i) ==> Diffs(tr)[i] == 0 || Substitute(Diffs(te), k) > 0
  {
    var d := Diffs(te);
    DiffsOfSums(te[0], FixedSteps(d, k));
    forall i | 0 <= i < |d|
      ensures Diffs(FixedTe(te, k))[i] == if Replaced(d, k, i) then Substitute(d, k) else d[i]
    {
      FixedIs(d, k, i);
    }
  }

  /** DIRA after te_fix: for rising counts, and a positive mode centre where a replaced
      step ran, the result rises, starts the same, and loses at most one a sample,
      however far te_fix has lowered the ratios. */
  lemma DiraAfterTeFix(count: seq<int>, te: seq<int>, tr: seq<int>, k: nat, t: nat)
    requires t < |count| == |te| == |tr| && |te| >= 2 && k >= 2 && Nondecreasing(count)
    requires RatiosPositive(Diffs(te), Diffs(tr))
    requires forall i :: 0 <= i < |te| - 1 && Replaced(Diffs(te), k, i) ==> Diffs(tr)[i] == 0 || Substitute(Diffs(te), k) > 0
    ensures RatiosNonzero(Diffs(FixedTe(te, k)), Diffs(tr))
    ensures var out := DiraSeries(count, FixedTe(te, k), tr);
      |out| == |count| && out[0] == count[0] && Nondecreasing(out)
    ensures 0.0 <= count[0] as real + RealSum(DiraEstimates(Diffs(count), Diffs(FixedTe(te, k)), Diffs(tr)), t)
                   - DiraSeries(count, FixedTe(te, k), tr)[t] as real <= t as real
  {
    RatiosSurvive(te, tr, k);
    DiraOnCounts(count, FixedTe(te, k), tr, t);
  }

  /** ... and missing_fix after both: it still rises, starts the same and is nowhere below
      the result of DIRA. */
  lemma DiraThenMissingFix(count: seq<int>, te: seq<int>, tr: seq<int>, k: nat, knnK: int, t: nat)
    requires t < |count| == |te| == |tr| && |te| >= 2 && k >= 2 && Nondecreasing(count)
    requires RatiosPositive(Diffs(te), Diffs(tr)) && knnK != -1
    requires forall i :: 0 <= i < |te| - 1 && Replaced(Diffs(te), k, i) ==> Diffs(tr)[i] == 0 || Substitute(Diffs(te), k) > 0
    ensures RatiosNonzero(Diffs(FixedTe(te, k)), Diffs(tr))
    ensures var dira := DiraSeries(count, FixedTe(te, k), tr);
      && |dira| == |count|
      && var out := MissingFix.Fixed(dira, knnK);
      |out| == |count| && out[0] == count[0] && Nondecreasing(out) && out[t] >= dira[t]
  {
    DiraAfterTeFix(count, te, tr, k, t);
    var dira := DiraSeries(count, FixedTe(te, k), tr);
    MissingFix.FixedNondecreasing(dira, knnK, Greatest(Diffs(dira)));
  }

  function Greatest(d: seq<int>): (m: int)
    ensures forall i :: 0 <= i < |d| ==> d[i] <= m
  {
    if d == [] then 0
    else
      var m := Greatest(d[..|d| - 1]);
      if d[|d| - 1] > m then d[|d| - 1] else m
  }

  /** TAM after te_fix keeps its lower bound where the cover survives. */
  lemma TamAfterTeFix(count: seq<int>, te: seq<int>, tr: seq<int>, k: nat, t: nat)
    requires t < |count| == |te| == |tr| && |te| >= 2 && k >= 2 && Nondecreasing(count)
    requires EnabledCovers(Diffs(te), Diffs(tr))
    requires forall i :: 0 <= i < |te| - 1 && Replaced(Diffs(te), k, i) ==> Diffs(tr)[i] <= Substitute(Diffs(te), k)
    ensures var out := TamSeries(count, FixedTe(te, k), tr);
      Nondecreasing(out) && out[t] >= count[if t == 0 then 0 else t - 1]
  {
    CoverSurvives(te, tr, k);
    TamOnCounts(count, FixedTe(te, k), tr, t);
  }

  // ------------------------------------------------------------ a run that falls

  /** Two steps of 2 and one of 10 with three clusters: the second cluster is empty,
      and the long step is replaced by the centre 2. */
  lemma OutlierIsCut(d: seq<int>)
    requires d == [2, 2, 10]
    ensures FixedSteps(d, 3) == [2, 2, 2]
  {
    OutlierCenters(d);
    var n := Centers(d, 3);
    OutlierLabels(d, n);
    OutlierMode(Labels(d, n));
    forall i | 0 <= i < 3 ensures FixedSteps(d, 3)[i] == 2 {
      FixedIs(d, 3, i);
    }
  }

  lemma OutlierCenters(d: seq<int>)
    requires d == [2, 2, 10]
    ensures Centers(d, 3) == [Num(2.0), NaN, Num(10.0)]
  {
    var cs, n := InitialCenters(d, 3), [Num(2.0), NaN, Num(10.0)];
    assert cs == [Num(2.0), Num(2.0), Num(10.0)];
    OutlierLabels(d, cs);
    OutlierMeans(d, Labels(d, cs));
    assert NewCenters(d, cs) == n;
    Settled(d, cs, n);
  }

  lemma Settled(d: seq<int>, cs: seq<Double>, n: seq<Double>)
    requires cs == [Num(2.0), Num(2.0), Num(10.0)] && n == [Num(2.0), NaN, Num(10.0)] && NewCenters(d, cs) == n
    ensures Lloyd(d, cs) == n
  {
    assert !Differs(n[0], cs[0]) && !Differs(n[1], cs[1]) && !Differs(n[2], cs[2]);
  }

  lemma MinIndexIs(a: seq<Double>, r: nat)
    requires |a| > 0 && IsMinIndex(a, r)
    ensures MinIndex(a) == r
  {
  }

  lemma OutlierLabels(d: seq<int>, cs: seq<Double>)
    requires d == [2, 2, 10]
    requires |cs| == 3 && cs[0] == Num(2.0) && (cs[1] == Num(2.0) || cs[1] == NaN) && cs[2] == Num(10.0)
    ensures Labels(d, cs) == [0, 0, 2]
  {
    var near, far := Dists(d[0], cs), Dists(d[2], cs);
    assert near[0] == Num(0.0) && near[2] == Num(8.0);
    MinIndexIs(near, 0);
    assert far[0] == Num(8.0) && far[2] == Num(0.0);
    MinIndexIs(far, 2);
  }

  lemma OutlierMeans(d: seq<int>, ls: seq<nat>)
    requires d == [2, 2, 10] && ls == [0, 0, 2]
    ensures Mean(Members(d, ls, 0)) == Num(2.0)
    ensures Mean(Members(d, ls, 1)) == NaN
    ensures Mean(Members(d, ls, 2)) == Num(10.0)
  {
    TwoMembers(d[..2], ls[..2]);
    var m := Members(d, ls, 0);
    assert m == [2, 2] && m[..1] == [2] && SumOf(m[..1]) == 2 && SumOf(m) == 4;
    assert Members(d, ls, 1) == [];
    var far := Members(d, ls, 2);
    assert far == [10] && SumOf(far) == 10;
  }

  lemma TwoMembers(d: seq<int>, ls: seq<nat>)
    requires d == [2, 2] && ls == [0, 0]
    ensures Members(d, ls, 0) == [2, 2] && Members(d, ls, 1) == [] && Members(d, ls, 2) == []
  {
    assert Members(d[..1], ls[..1], 0) == [2] && Members(d[..1], ls[..1], 1) == [] && Members(d[..1], ls[..1], 2) == [];
  }

  lemma OutlierMode(ls: seq<nat>)
    requires ls == [0, 0, 2]
    ensures MaxIndex(Counts(ls, 3)) == 0
  {
    var one, two := ls[..1], ls[..2];
    assert two[..1] == one && ls[..2] == two;
    assert Count(one, 0) == 1 && Count(one, 1) == 0 && Count(one, 2) == 0;
    assert Count(two, 0) == 2 && Count(two, 1) == 0 && Count(two, 2) == 0;
    assert Count(ls, 0) == 2 && Count(ls, 1) == 0 && Count(ls, 2) == 1;
  }

  /** On rising times with equal enabled and running times, and on rising counts, TAM
      alone rises, but after te_fix it can fall. */
  lemma TamFallsAfterTeFix(te: seq<int>, tr: seq<int>, count: seq<int>)
    requires te == tr == [0, 2, 4, 14] && count == [0, 0, 0, 10]
    ensures EnabledCovers(Diffs(te), Diffs(tr)) && Nondecreasing(count) && Nondecreasing(TamSeries(count, te, tr))
    ensures !Nondecreasing(TamSeries(count, FixedTe(te, 3), tr))
  {
    assert Diffs(te) == [2, 2, 10] == Diffs(tr);
    TamOnCounts(count, te, tr, 0);
    FixedOutlier(te);
    Falls(count, FixedTe(te, 3), tr);
  }

  lemma FixedOutlier(te: seq<int>)
    requires te == [0, 2, 4, 14]
    ensures Diffs(FixedTe(te, 3)) == [2, 2, 2]
  {
    var d := Diffs(te);
    assert d == [2, 2, 10];
    OutlierIsCut(d);
    DiffsOfSums(te[0], FixedSteps(d, 3));
  }

  lemma Falls(count: seq<int>, te: seq<int>, tr: seq<int>)
    requires count == [0, 0, 0, 10] && tr == [0, 2, 4, 14] && |te| == 4 && Diffs(te) == [2, 2, 2]
    ensures !Nondecreasing(TamSeries(count, te, tr))
  {
    var d, dTr := Diffs(count), Diffs(tr);
    assert d == [0, 0, 10] && dTr == [2, 2, 10];
    TamRisesExactly(count, te, tr);
    DropsTooFar(d, Diffs(te), dTr);
  }

  lemma DropsTooFar(d: seq<int>, dTe: seq<int>, dTr: seq<int>)
    requires d == [0, 0, 10] && dTe == [2, 2, 2] && dTr == [2, 2, 10]
    ensures !TamStaysUp(d, dTe, dTr, 2)
  {
    assert Ratio(dTe[2], dTr[2]) == 0.2;
  }
}
