/** The pass missing_fix of src/papi_accurate_multiplexing.c, with knn_mean of
    src/dataprocessing_utils.c: if more than a third of the differences are not
    positive, the zero ones are filled with the mean of their neighbourhood. */
module MissingFix {
  import opened Series

  // ------------------------------------------------------------------- knn_mean

  function SumFrom(s: seq<int>, lo: int, hi: int): int
    requires 0 <= lo <= hi <= |s|
    decreases hi - lo
  {
    if lo == hi then 0 else SumFrom(s, lo, hi - 1) + s[hi - 1]
  }

  /** floor(k / 2.0) and ceil(k / 2.0); Dafny's division rounds down here. */
  function HalfDown(k: int): int {
    k / 2
  }

  function HalfUp(k: int): int {
    (k + 1) / 2
  }

  /** First index of the neighbourhood: index - ceil(k / 2), cut off at 0. */
  function WindowStart(index: nat, k: int): nat {
    if index - HalfUp(k) >= 0 then index - HalfUp(k) else 0
  }

  /** Last index of the neighbourhood: index + floor(k / 2), cut off at len - 1. */
  function WindowEnd(len: nat, index: nat, k: int): int {
    if index + HalfDown(k) <= len - 1 then index + HalfDown(k) else len - 1
  }

  /** The neighbourhood of a negative k is empty and its sum 0; for -1 alone its length
      is 0 as well. */
  function KnnMean(s: seq<int>, index: nat, k: int): int
    requires index < |s| && k != -1
  {
    var start, end := WindowStart(index, k), WindowEnd(|s|, index, k);
    if k < 0 then Quot(0, end - start + 1) else Quot(SumFrom(s, start, end + 1), end - start + 1)
  }

  method ComputeKnnMean(s: array<int>, len: nat, index: nat, k: int) returns (mean: int)
    requires index < len <= s.Length && k != -1
    ensures mean == KnnMean(s[..len], index, k)
  {
    var start, end := 0, len - 1;
    var x := index - HalfUp(k);
    var y := index + HalfDown(k);
    if x >= 0 {
      start := x;
    }
    if y <= end {
      end := y;
    }
    var sum := 0;
    var i := start;
    while i <= end
      invariant k >= 0 ==> start <= i <= end + 1 && sum == SumFrom(s[..len], start, i)
      invariant k < 0 ==> i == start > end && sum == 0
    {
      sum := sum + s[i];
      i := i + 1;
    }
    mean := Quot(sum, end - start + 1);
  }

  lemma {:induction false} SumBounds(s: seq<int>, lo: int, hi: int, max: int)
    requires 0 <= lo <= hi <= |s| && Nonnegative(s)
    requires forall i :: 0 <= i < |s| ==> s[i] <= max
    ensures 0 <= SumFrom(s, lo, hi) <= (hi - lo) * max
    decreases hi - lo
  {
    if lo < hi {
      SumBounds(s, lo, hi - 1, max);
      assert (hi - lo) * max == (hi - 1 - lo) * max + max;
    }
  }

  /** A mean of nonnegative values lies between 0 and the greatest of them. */
  lemma KnnMeanBounds(s: seq<int>, index: nat, k: int, max: int)
    requires index < |s| && Nonnegative(s) && k != -1
    requires forall i :: 0 <= i < |s| ==> s[i] <= max
    ensures 0 <= KnnMean(s, index, k) <= max
  {
    var start, end := WindowStart(index, k), WindowEnd(|s|, index, k);
    if k >= 0 {
      SumBounds(s, start, end + 1, max);
      QuotientAtMost(SumFrom(s, start, end + 1), end - start + 1, max);
    } else {
      assert s[index] <= max;
    }
  }

  lemma {:induction false} SumOfConstant(s: seq<int>, lo: int, hi: int, c: int)
    requires 0 <= lo <= hi <= |s| && forall j :: lo <= j < hi ==> s[j] == c
    ensures SumFrom(s, lo, hi) == (hi - lo) * c
    decreases hi - lo
  {
    if lo < hi {
      SumOfConstant(s, lo, hi - 1, c);
      assert (hi - lo) * c == (hi - 1 - lo) * c + c;
    }
  }

  lemma {:induction false} SumOfUpdate(s: seq<int>, lo: int, hi: int, j: nat, x: int)
    requires 0 <= lo <= hi <= |s| && j < |s|
    ensures SumFrom(s[j := x], lo, hi) == SumFrom(s, lo, hi) + if lo <= j < hi then x - s[j] else 0
    decreases hi - lo
  {
    if lo < hi {
      SumOfUpdate(s, lo, hi - 1, j, x);
    }
  }

  lemma QuotientOfProduct(n: int, c: int)
    requires n > 0
    ensures Quot(n * c, n) == c
  {
    var q := Quot(n * c, n);
    if c >= 0 {
      NonnegativeProduct(n, c);
      assert n * c == c * n && (c + 1) * n == c * n + n && (q + 1) * n == q * n + n;
      OnlyQuotient(q, c, n, n * c);
    } else {
      NonnegativeProduct(n, -c);
      assert n * -c == -(n * c) && (1 - c) * n == n * -c + n && (1 - q) * n == -q * n + n;
      OnlyQuotient(-q, -c, n, n * -c);
    }
  }

  lemma NonnegativeProduct(n: int, c: int)
    requires n > 0 && c >= 0
    ensures n * c >= 0
  {
  }

  lemma OnlyQuotient(p: int, q: int, n: int, a: int)
    requires n > 0 && p * n <= a < (p + 1) * n && q * n <= a < (q + 1) * n
    ensures p == q
  {
    if p < q {
      ScaledOrder(p + 1, q, n);
    } else if q < p {
      ScaledOrder(q + 1, p, n);
    }
  }

  lemma ScaledOrder(a: int, b: int, n: int)
    requires a <= b && n > 0
    ensures a * n <= b * n
  {
  }

  /** Where all of the window holds c, the mean is c. */
  lemma KnnOfConstant(s: seq<int>, index: nat, k: nat, c: int)
    requires 0 <= index - (k + 1) / 2 && index + k / 2 < |s|
    requires forall j :: index - (k + 1) / 2 <= j <= index + k / 2 ==> s[j] == c
    ensures KnnMean(s, index, k) == c
  {
    var lo, hi := index - (k + 1) / 2, index + k / 2 + 1;
    SumOfConstant(s, lo, hi, c);
    assert hi - lo == k + 1;
    QuotientOfProduct(k + 1, c);
  }

  /** For values that are not negative, raising one element of the window by its size
      raises the mean by 1. */
  lemma KnnRaised(s: seq<int>, index: nat, k: nat, j: nat)
    requires 0 <= index - (k + 1) / 2 && index + k / 2 < |s| && Nonnegative(s)
    requires index - (k + 1) / 2 <= j <= index + k / 2
    ensures KnnMean(s[j := s[j] + (k + 1)], index, k) == KnnMean(s, index, k) + 1
  {
    var lo, hi := index - (k + 1) / 2, index + k / 2 + 1;
    var sum := SumFrom(s, lo, hi);
    SumOfUpdate(s, lo, hi, j, s[j] + (k + 1));
    SumNonnegative(s, lo, hi);
    QuotientPlus(sum, k + 1);
  }

  lemma {:induction false} SumNonnegative(s: seq<int>, lo: int, hi: int)
    requires 0 <= lo <= hi <= |s| && Nonnegative(s)
    ensures SumFrom(s, lo, hi) >= 0
    decreases hi - lo
  {
    if lo < hi {
      SumNonnegative(s, lo, hi - 1);
    }
  }

  lemma QuotientPlus(sum: int, n: int)
    requires sum >= 0 && n > 0
    ensures Quot(sum + n, n) == Quot(sum, n) + 1
  {
    var p, q := Quot(sum + n, n), Quot(sum, n);
    assert (q + 1) * n == q * n + n && (p + 1) * n == p * n + n && (q + 2) * n == q * n + n + n;
    OnlyQuotient(p, q + 1, n, sum + n);
  }

  /** Elements outside the window do not matter. */
  lemma KnnOutside(s: seq<int>, index: nat, k: nat, j: nat, x: int)
    requires 0 <= index - (k + 1) / 2 && index + k / 2 < |s| && j < |s|
    requires j < index - (k + 1) / 2 || j > index + k / 2
    ensures KnnMean(s[j := x], index, k) == KnnMean(s, index, k)
  {
    SumOfUpdate(s, index - (k + 1) / 2, index + k / 2 + 1, j, x);
  }

  /** The mean of an empty window is 0. */
  lemma KnnOfNothing(s: seq<int>, index: nat, k: int)
    requires index < |s| && k <= -2
    ensures KnnMean(s, index, k) == 0
  {
  }

  lemma QuotientAtMost(sum: int, n: int, max: int)
    requires n > 0 && 0 <= sum <= n * max
    ensures 0 <= Quot(sum, n) <= max
  {
    var q := Quot(sum, n);
    if q > max {
      MulMonotone(max + 1, q, n);
    }
  }

  // ------------------------------------------------------------------ the filling

  /** The indices the pass looks at: those at least knn_k / 2 + 1 from the left end
      and knn_k / 2 from the right one. */
  predicate InWindow(len: nat, i: nat, k: int) {
    Quot(k, 2) + 1 <= i <= len - 1 - Quot(k, 2)
  }

  /** Inside that range the neighbourhood is never cut off, whatever k is. */
  lemma WindowNeverClips(len: nat, i: nat, k: int)
    requires InWindow(len, i, k) && i < len
    ensures 0 <= i - HalfUp(k) == WindowStart(i, k)
    ensures WindowEnd(len, i, k) == i + HalfDown(k) <= len - 1
  {
  }

  /** The pass never takes a mean with k == -1, which would divide by 0. */
  predicate Fillable(d: seq<int>, k: int) {
    k == -1 ==> forall i :: 0 <= i < |d| && InWindow(|d|, i, k) ==> d[i] != 0
  }

  /** The differences after the first n iterations; later means use the values
      already filled in. */
  function Filled(d: seq<int>, k: int, n: nat): (f: seq<int>)
    requires n <= |d| && Fillable(d, k)
    ensures |f| == |d|
    ensures forall i :: n <= i < |d| ==> f[i] == d[i]
  {
    if n == 0 then d
    else
      var f := Filled(d, k, n - 1);
      if InWindow(|d|, n - 1, k) && f[n - 1] == 0 then f[n - 1 := KnnMean(f, n - 1, k)] else f
  }

  /** Filling keeps every nonzero difference and every one outside the window. */
  lemma {:induction false} FilledKeeps(d: seq<int>, k: int, n: nat, i: nat)
    requires n <= |d| && i < |d| && Fillable(d, k)
    requires d[i] != 0 || !InWindow(|d|, i, k)
    ensures Filled(d, k, n)[i] == d[i]
  {
    if n > 0 {
      FilledKeeps(d, k, n - 1, i);
    }
  }

  /** Filling nonnegative differences never lowers one nor exceeds their maximum. */
  lemma {:induction false} FilledBounds(d: seq<int>, k: int, n: nat, max: int)
    requires n <= |d| && Nonnegative(d) && Fillable(d, k)
    requires forall i :: 0 <= i < |d| ==> d[i] <= max
    ensures forall i :: 0 <= i < |d| ==> d[i] <= Filled(d, k, n)[i] <= max
  {
    if n > 0 {
      FilledBounds(d, k, n - 1, max);
      if k != -1 {
        KnnMeanBounds(Filled(d, k, n - 1), n - 1, k, max);
      }
    }
  }

  // ------------------------------------------------------------- sorting, the test

  /** The C library's qsort with the comparison cmp, by its result. */
  function Sorted(s: seq<int>): (t: seq<int>)
    ensures |t| == |s|
  {
    if s == [] then [] else Insert(s[|s| - 1], Sorted(s[..|s| - 1]))
  }

  function Insert(x: int, t: seq<int>): (u: seq<int>)
    ensures |u| == |t| + 1
  {
    if t == [] || t[|t| - 1] <= x then t + [x]
    else Insert(x, t[..|t| - 1]) + [t[|t| - 1]]
  }

  ghost predicate Ordered(s: seq<int>) {
    forall i, j :: 0 <= i < j < |s| ==> s[i] <= s[j]
  }

  lemma {:induction false} InsertBelow(x: int, t: seq<int>, y: int)
    requires x <= y && forall i :: 0 <= i < |t| ==> t[i] <= y
    ensures forall i :: 0 <= i < |t| + 1 ==> Insert(x, t)[i] <= y
  {
    if !(t == [] || t[|t| - 1] <= x) {
      InsertBelow(x, t[..|t| - 1], y);
    }
  }

  lemma {:induction false} InsertOrdered(x: int, t: seq<int>)
    requires Ordered(t)
    ensures Ordered(Insert(x, t))
  {
    if !(t == [] || t[|t| - 1] <= x) {
      InsertOrdered(x, t[..|t| - 1]);
      InsertBelow(x, t[..|t| - 1], t[|t| - 1]);
    }
  }

  lemma {:induction false} InsertPermutes(x: int, t: seq<int>)
    ensures multiset(Insert(x, t)) == multiset(t + [x])
  {
    if !(t == [] || t[|t| - 1] <= x) {
      var t', y := t[..|t| - 1], t[|t| - 1];
      InsertPermutes(x, t');
      assert t == t' + [y];
    }
  }

  lemma {:induction false} SortedIsOrdered(s: seq<int>)
    ensures Ordered(Sorted(s))
  {
    if s != [] {
      SortedIsOrdered(s[..|s| - 1]);
      InsertOrdered(s[|s| - 1], Sorted(s[..|s| - 1]));
    }
  }

  lemma {:induction false} SortedPermutes(s: seq<int>)
    ensures multiset(Sorted(s)) == multiset(s)
  {
    if s != [] {
      var s', x := s[..|s| - 1], s[|s| - 1];
      SortedPermutes(s');
      InsertPermutes(x, Sorted(s'));
      assert s == s' + [x];
    }
  }

  /** How many elements are not positive. */
  function NonPositive(s: seq<int>): (n: nat)
    ensures n <= |s|
  {
    if s == [] then 0 else NonPositive(s[..|s| - 1]) + if s[|s| - 1] <= 0 then 1 else 0
  }

  lemma {:induction false} NonPositiveInsert(x: int, t: seq<int>)
    ensures NonPositive(Insert(x, t)) == NonPositive(t) + if x <= 0 then 1 else 0
  {
    if t == [] || t[|t| - 1] <= x {
      assert (t + [x])[..|t|] == t;
    } else {
      var u := Insert(x, t[..|t| - 1]);
      NonPositiveInsert(x, t[..|t| - 1]);
      assert (u + [t[|t| - 1]])[..|u|] == u;
    }
  }

  lemma {:induction false} NonPositiveSorted(s: seq<int>)
    ensures NonPositive(Sorted(s)) == NonPositive(s)
  {
    if s != [] {
      NonPositiveSorted(s[..|s| - 1]);
      NonPositiveInsert(s[|s| - 1], Sorted(s[..|s| - 1]));
    }
  }

  lemma {:induction false} OrderedNonPositive(t: seq<int>, m: nat)
    requires Ordered(t) && m < |t|
    ensures t[m] <= 0 <==> NonPositive(t) > m
  {
    var n := |t| - 1;
    if m < n {
      OrderedNonPositive(t[..n], m);
      if t[n] <= 0 {
        AllNonPositive(t);
      }
    } else if t[n] <= 0 {
      AllNonPositive(t);
    }
  }

  lemma {:induction false} AllNonPositive(t: seq<int>)
    requires Ordered(t) && (t != [] ==> t[|t| - 1] <= 0)
    ensures NonPositive(t) == |t|
  {
    if t != [] {
      AllNonPositive(t[..|t| - 1]);
    }
  }

  /** The test on the sorted copy asks whether more than a third (rounded down) of
      the differences are not positive. */
  lemma SortedTestCounts(d: seq<int>)
    requires |d| > 0
    ensures Sorted(d)[|d| / 3] > 0 <==> NonPositive(d) <= |d| / 3
  {
    SortedIsOrdered(d);
    NonPositiveSorted(d);
    OrderedNonPositive(Sorted(d), |d| / 3);
  }

  // -------------------------------------------------------------------- the pass

  /** Few enough differences are not positive to leave the series alone. */
  predicate Sound(s: seq<int>)
    requires |s| >= 2
  {
    NonPositive(Diffs(s)) <= (|s| - 1) / 3
  }

  function Fixed(s: seq<int>, k: int): seq<int>
    requires |s| >= 2 && (Sound(s) || Fillable(Diffs(s), k))
  {
    if Sound(s) then s else Sums(s[0], Filled(Diffs(s), k, |s| - 1))
  }

  /** For a series that never decreases: the pass keeps the first value and the
      length, never decreases, is nowhere below its input, and no step exceeds
      the greatest step of the input. */
  lemma FixedNondecreasing(s: seq<int>, k: int, max: int)
    requires |s| >= 2 && Nondecreasing(s) && (Sound(s) || Fillable(Diffs(s), k))
    requires forall i :: 0 <= i < |s| - 1 ==> Diffs(s)[i] <= max
    ensures |Fixed(s, k)| == |s| && Fixed(s, k)[0] == s[0]
    ensures Nondecreasing(Fixed(s, k))
    ensures forall t :: 0 <= t < |s| ==> s[t] <= Fixed(s, k)[t]
    ensures forall i :: 0 <= i < |s| - 1 ==> Diffs(Fixed(s, k))[i] <= max
  {
    var d := Diffs(s);
    SumsOfDiffs(s);
    if Sound(s) {
      return;
    }
    var f := Filled(d, k, |d|);
    FilledBounds(d, k, |d|, max);
    DiffsOfSums(s[0], f);
    SumsNondecreasing(s[0], f);
    forall t | 0 <= t < |s|
      ensures Sums(s[0], d)[t] <= Sums(s[0], f)[t]
    {
      SumsMonotone(s[0], d, f, t);
    }
  }

  /** For every series: a step that is not zero, or lies outside the window, stays;
      and unless more than a third of the steps are not positive, all do. */
  lemma FixedKeepsSteps(s: seq<int>, k: int, i: nat)
    requires i < |s| - 1 && (Sound(s) || Fillable(Diffs(s), k))
    ensures |Fixed(s, k)| == |s|
    ensures s[i + 1] != s[i] || !InWindow(|s| - 1, i, k) ==> Diffs(Fixed(s, k))[i] == s[i + 1] - s[i]
    ensures NonPositive(Diffs(s)) <= (|s| - 1) / 3 ==> Fixed(s, k) == s
  {
    var d := Diffs(s);
    if Sound(s) {
      return;
    }
    DiffsOfSums(s[0], Filled(d, k, |d|));
    if s[i + 1] != s[i] || !InWindow(|d|, i, k) {
      FilledKeeps(d, k, |d|, i);
    }
  }

  /** What a later iteration has filled, it leaves. */
  lemma {:induction false} FilledStays(d: seq<int>, k: int, m: nat, n: nat, j: nat)
    requires Fillable(d, k) && j < m <= n <= |d|
    ensures Filled(d, k, n)[j] == Filled(d, k, m)[j]
  {
    if m < n {
      FilledStays(d, k, m, n - 1, j);
    }
  }

  /** A gap inside the range becomes the mean of its neighbourhood, of which the earlier
      elements are already filled. */
  lemma FixedGap(s: seq<int>, k: nat, i: nat) returns (m: seq<int>)
    requires i < |s| - 1 && s[i + 1] == s[i] && NonPositive(Diffs(s)) > (|s| - 1) / 3
    requires k / 2 + 1 <= i <= |s| - 2 - k / 2
    ensures |Fixed(s, k)| == |s| && |m| == |s| - 1
    ensures forall j :: 0 <= j < i ==> m[j] == Fixed(s, k)[j + 1] - Fixed(s, k)[j]
    ensures forall j :: i <= j < |m| ==> m[j] == s[j + 1] - s[j]
    ensures 0 <= i - (k + 1) / 2 && i + k / 2 < |m|
    ensures Fixed(s, k)[i + 1] - Fixed(s, k)[i] == KnnMean(m, i, k)
  {
    var d := Diffs(s);
    var f := Filled(d, k, |d|);
    m := Filled(d, k, i);
    DiffsOfSums(s[0], f);
    assert Diffs(Fixed(s, k)) == f;
    forall j | 0 <= j < i ensures m[j] == Fixed(s, k)[j + 1] - Fixed(s, k)[j] {
      FilledStays(d, k, i, |d|, j);
      assert Diffs(Fixed(s, k))[j] == m[j];
    }
    FilledStays(d, k, i + 1, |d|, i);
    assert Diffs(Fixed(s, k))[i] == KnnMean(m, i, k);
  }

  /** How many differences are not positive. */
  lemma {:induction false} NonPositiveCounts(s: seq<int>)
    ensures NonPositive(s) == |set i | 0 <= i < |s| && s[i] <= 0|
  {
    if s != [] {
      var n := |s| - 1;
      NonPositiveCounts(s[..n]);
      var a, b := set i | 0 <= i < n && s[..n][i] <= 0, set i | 0 <= i < |s| && s[i] <= 0;
      assert b == a + if s[n] <= 0 then {n} else {};
    }
  }

  method Run(s: array<int>, nsamples: nat, knnK: int)
    requires 2 <= nsamples <= s.Length
    requires Sound(s[..nsamples]) || Fillable(Diffs(s[..nsamples]), knnK)
    modifies s
    ensures s[..nsamples] == Fixed(old(s[..nsamples]), knnK)
    ensures s[nsamples..] == old(s[nsamples..])
  {
    var len := nsamples - 1;
    var diffSeq := new int[len];
    Diff(diffSeq, s, nsamples);
    ghost var d := Diffs(s[..nsamples]);
    assert diffSeq[..] == diffSeq[..len] == d;
    var sortSeq := Sorted(diffSeq[..]);
    SortedTestCounts(d);
    if sortSeq[len / 3] > 0 {
      return;
    }
    FillZeros(diffSeq, len, knnK);
    assert diffSeq[..len] == diffSeq[..];
    CumSum(s, diffSeq, nsamples);
  }

  method FillZeros(diffSeq: array<int>, len: nat, knnK: int)
    requires len == diffSeq.Length && Fillable(diffSeq[..], knnK)
    modifies diffSeq
    ensures diffSeq[..] == Filled(old(diffSeq[..]), knnK, len)
  {
    ghost var d := diffSeq[..];
    var x := Quot(knnK, 2) + 1;
    var y := len - 1 - Quot(knnK, 2);
    var i := 0;
    while i < len
      invariant 0 <= i <= len
      invariant diffSeq[..] == Filled(d, knnK, i)
    {
      if !(i < x || i > y) && diffSeq[i] == 0 {
        assert diffSeq[..len] == diffSeq[..];
        diffSeq[i] := ComputeKnnMean(diffSeq, len, i, knnK);
      }
      i := i + 1;
    }
  }
}
