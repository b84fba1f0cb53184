/** diff and CumSum of src/dataprocessing_utils.c, and C's conversions. */
module Series {

  /** C's conversion of a double to an integer: toward zero. */
  function Trunc(x: real): (t: int)
    ensures x >= 0.0 ==> 0 <= t && t as real <= x < t as real + 1.0
    ensures x <= 0.0 ==> t <= 0 && t as real - 1.0 < x <= t as real
  {
    if x >= 0.0 then x.Floor else -((-x).Floor)
  }

  /** C's integer division: toward zero. */
  function Quot(a: int, b: int): (q: int)
    requires b != 0
    ensures a >= 0 && b > 0 ==> q * b <= a < q * b + b && q >= 0
    ensures a <= 0 && b > 0 ==> q * b >= a > q * b - b && q <= 0
  {
    if a >= 0 then a / b else -((-a) / b)
  }

  lemma {:induction false} MulMonotone(i: nat, j: nat, step: nat)
    requires i <= j
    ensures 0 <= i * step <= j * step
  {
    if i < j {
      MulMonotone(i, j - 1, step);
    }
  }

  /** First-order differences. */
  function Diffs(s: seq<int>): (d: seq<int>)
    requires |s| > 0
  {
    seq(|s| - 1, i requires 0 <= i < |s| - 1 => s[i + 1] - s[i])
  }

  /** Running sums of d starting from a. */
  function Sums(a: int, d: seq<int>): (s: seq<int>)
    ensures |s| == |d| + 1 && s[0] == a
  {
    if d == [] then [a]
    else
      var s := Sums(a, d[..|d| - 1]);
      s + [s[|s| - 1] + d[|d| - 1]]
  }

  lemma {:induction false} SumsStep(a: int, d: seq<int>, i: nat)
    requires i < |d|
    ensures Sums(a, d)[i + 1] == Sums(a, d)[i] + d[i]
  {
    if i < |d| - 1 {
      SumsStep(a, d[..|d| - 1], i);
    }
  }

  lemma {:induction false} SumsPrefix(a: int, d: seq<int>, n: nat)
    requires n <= |d|
    ensures Sums(a, d[..n]) == Sums(a, d)[..n + 1]
  {
    if n < |d| {
      SumsPrefix(a, d[..|d| - 1], n);
      assert d[..|d| - 1][..n] == d[..n];
    } else {
      assert d[..n] == d;
    }
  }

  /** Summing the differences gives the series back. */
  lemma {:induction false} SumsOfDiffs(s: seq<int>)
    requires |s| > 0
    ensures Sums(s[0], Diffs(s)) == s
  {
    if |s| > 1 {
      var t := s[..|s| - 1];
      SumsOfDiffs(t);
      assert Diffs(s)[..|s| - 2] == Diffs(t);
    }
  }

  /** Taking differences gives the summands back. */
  lemma DiffsOfSums(a: int, d: seq<int>)
    ensures Diffs(Sums(a, d)) == d
  {
    forall i | 0 <= i < |d|
      ensures Diffs(Sums(a, d))[i] == d[i]
    {
      SumsStep(a, d, i);
    }
  }

  ghost predicate Nondecreasing(s: seq<int>) {
    forall i :: 0 <= i < |s| - 1 ==> s[i] <= s[i + 1]
  }

  ghost predicate Nonnegative(d: seq<int>) {
    forall i :: 0 <= i < |d| ==> d[i] >= 0
  }

  lemma SumsNondecreasing(a: int, d: seq<int>)
    ensures Nondecreasing(Sums(a, d)) <==> Nonnegative(d)
  {
    forall i | 0 <= i < |d|
      ensures Sums(a, d)[i] <= Sums(a, d)[i + 1] <==> d[i] >= 0
    {
      SumsStep(a, d, i);
    }
    if Nondecreasing(Sums(a, d)) {
      forall i | 0 <= i < |d|
        ensures d[i] >= 0
      {
        assert Sums(a, d)[i] <= Sums(a, d)[i + 1];
      }
    }
  }

  /** Larger summands give a series nowhere below. */
  lemma {:induction false} SumsMonotone(a: int, d: seq<int>, e: seq<int>, t: nat)
    requires |d| == |e| && t <= |d|
    requires forall i :: 0 <= i < t ==> d[i] <= e[i]
    ensures Sums(a, d)[t] <= Sums(a, e)[t]
  {
    if t > 0 {
      SumsMonotone(a, d, e, t - 1);
      SumsStep(a, d, t - 1);
      SumsStep(a, e, t - 1);
    }
  }

  method Diff(out: array<int>, s: array<int>, len: nat)
    requires out != s && 1 <= len <= s.Length && len - 1 <= out.Length
    modifies out
    ensures out[..len - 1] == Diffs(s[..len])
    ensures out[len - 1..] == old(out[len - 1..])
  {
    var i := 0;
    while i < len - 1
      invariant 0 <= i <= len - 1
      invariant forall k :: 0 <= k < i ==> out[k] == s[k + 1] - s[k]
      invariant out[len - 1..] == old(out[len - 1..])
    {
      out[i] := s[i + 1] - s[i];
      i := i + 1;
    }
  }

  /** The sums are written up to p[len - 1], and to p[1] even where len is below 2:
      the second element is written before the loop looks at len. */
  method CumSum(p: array<int>, diffP: array<int>, len: nat)
    requires p != diffP && 2 <= p.Length && len <= p.Length && 1 <= diffP.Length && len - 1 <= diffP.Length
    modifies p
    ensures var n := if len < 2 then 2 else len;
      p[..n] == Sums(old(p[0]), diffP[..n - 1]) && p[n..] == old(p[n..])
  {
    ghost var n := if len < 2 then 2 else len;
    ghost var s := Sums(p[0], diffP[..n - 1]);
    SumsStep(p[0], diffP[..n - 1], 0);
    var temp := diffP[0] + p[0];
    p[1] := diffP[0] + p[0];
    var i := 2;
    while i < len
      invariant 2 <= i <= n
      invariant temp == s[i - 1]
      invariant p[..i] == s[..i]
      invariant p[n..] == old(p[n..])
    {
      SumsStep(s[0], diffP[..n - 1], i - 1);
      temp := temp + diffP[i - 1];
      p[i] := temp;
      i := i + 1;
    }
  }
}
