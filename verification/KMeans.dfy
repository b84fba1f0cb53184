/** The one-dimensional k-means of src/dataprocessing_utils.c.

    A cluster that loses all its points gets the centre 0/0, so a double is a
    real number or NaN; rounding is not modelled. */
module KMeans {
  import opened Series

  datatype Double = NaN | Num(r: real)

  const KMEANS_THRESHOLD := 0.00001

  predicate Greater(a: Double, b: Double) {
    a.Num? && b.Num? && a.r > b.r
  }

  function Minus(a: Double, b: Double): Double {
    if a.Num? && b.Num? then Num(a.r - b.r) else NaN
  }

  function Fabs(a: Double): Double {
    if a.Num? && a.r < 0.0 then Num(-a.r) else a
  }

  function Distance(a: Double, b: Double): Double {
    if Greater(a, b) then Minus(a, b) else Minus(b, a)
  }

  function ToDouble(x: int): Double {
    Num(x as real)
  }

  predicate Differs(a: Double, b: Double) {
    Greater(Fabs(Minus(a, b)), Num(KMEANS_THRESHOLD))
  }

  // ------------------------------------------------------- array minimum, maximum

  /** r is the lowest index of a least number of a; NaN entries are passed over,
      except that a NaN at index 0 is never displaced. */
  ghost predicate IsMinIndex(a: seq<Double>, r: nat) {
    && r < |a|
    && (a[0].NaN? ==> r == 0)
    && (a[0].Num? ==>
          && a[r].Num?
          && (forall j :: 0 <= j < |a| && a[j].Num? ==> a[r].r <= a[j].r)
          && (forall j :: 0 <= j < r && a[j].Num? ==> a[r].r < a[j].r))
  }

  function MinIndex(a: seq<Double>): (r: nat)
    requires |a| > 0
    ensures IsMinIndex(a, r)
  {
    if |a| == 1 then 0
    else
      var r := MinIndex(a[..|a| - 1]);
      if Greater(a[r], a[|a| - 1]) then |a| - 1 else r
  }

  method MinArrayIndex(a: array<Double>, len: nat) returns (ret: nat)
    requires 1 <= len <= a.Length
    ensures ret == MinIndex(a[..len])
  {
    ret := 0;
    var temp := a[0];
    var i := 1;
    while i < len
      invariant 1 <= i <= len
      invariant ret == MinIndex(a[..i]) && temp == a[ret]
    {
      assert a[..i + 1][..i] == a[..i];
      if Greater(temp, a[i]) {
        temp := a[i];
        ret := i;
      }
      i := i + 1;
    }
  }

  /** The lowest index of a greatest element. */
  ghost predicate IsMaxIndex(a: seq<int>, r: nat) {
    && r < |a|
    && (forall j :: 0 <= j < |a| ==> a[j] <= a[r])
    && (forall j :: 0 <= j < r ==> a[j] < a[r])
  }

  function MaxIndex(a: seq<int>): (r: nat)
    requires |a| > 0
    ensures IsMaxIndex(a, r)
  {
    if |a| == 1 then 0
    else
      var r := MaxIndex(a[..|a| - 1]);
      if a[r] < a[|a| - 1] then |a| - 1 else r
  }

  method MaxArrayIndex(a: array<int>, len: nat) returns (ret: nat)
    requires 1 <= len <= a.Length
    ensures ret == MaxIndex(a[..len])
  {
    ret := 0;
    var temp := a[0];
    var i := 1;
    while i < len
      invariant 1 <= i <= len
      invariant ret == MaxIndex(a[..i]) && temp == a[ret]
    {
      assert a[..i + 1][..i] == a[..i];
      if temp < a[i] {
        temp := a[i];
        ret := i;
      }
      i := i + 1;
    }
  }

  // ------------------------------------------------------------- specification

  function Dists(x: int, cs: seq<Double>): seq<Double> {
    seq(|cs|, j requires 0 <= j < |cs| => Distance(ToDouble(x), cs[j]))
  }

  /** The cluster of each point: the nearest centre, ties to the lowest index. */
  function Labels(p: seq<int>, cs: seq<Double>): (ls: seq<nat>)
    requires |cs| > 0
    ensures |ls| == |p| && forall i :: 0 <= i < |p| ==> ls[i] < |cs|
  {
    seq(|p|, i requires 0 <= i < |p| => MinIndex(Dists(p[i], cs)))
  }

  /** The points labelled c, in order. */
  function Members(p: seq<int>, ls: seq<nat>, c: nat): (m: seq<int>)
    requires |ls| == |p|
  {
    if p == [] then []
    else Members(p[..|p| - 1], ls[..|p| - 1], c) + if ls[|p| - 1] == c then [p[|p| - 1]] else []
  }

  function SumOf(m: seq<int>): int {
    if m == [] then 0 else SumOf(m[..|m| - 1]) + m[|m| - 1]
  }

  function Mean(m: seq<int>): Double {
    if m == [] then NaN else Num(SumOf(m) as real / |m| as real)
  }

  /** One pass: the means of the clusters around the old centres. */
  function NewCenters(p: seq<int>, cs: seq<Double>): (n: seq<Double>)
    requires |cs| > 0
    ensures |n| == |cs|
  {
    var ls := Labels(p, cs);
    seq(|cs|, c requires 0 <= c < |cs| => Mean(Members(p, ls, c)))
  }

  predicate EqualCenters(a: seq<Double>, b: seq<Double>)
    requires |a| == |b|
  {
    forall i :: 0 <= i < |a| ==> !Differs(a[i], b[i])
  }

  function InitialCenters(p: seq<int>, k: nat): (cs: seq<Double>)
    requires k >= 2 && |p| > 0
    ensures |cs| == k && forall i :: 0 <= i < k ==> cs[i].Num?
  {
    var step := (|p| - 1) / (k - 1);
    seq(k, i requires 0 <= i < k => StrideInRange(|p|, k, i); ToDouble(p[i * step]))
  }

  /** start holds every s-th point from the first on. */
  ghost predicate EvenlySpaced(start: seq<Double>, p: seq<int>, s: nat) {
    forall i :: 0 <= i < |start| ==> i * s < |p| && start[i] == Num(p[i * s] as real)
  }

  /** The initial centres are k points, as far apart as fits. */
  lemma InitialCentersAre(p: seq<int>, k: nat) returns (s: nat)
    requires k >= 2 && |p| > 0
    ensures (k - 1) * s <= |p| - 1 < (k - 1) * (s + 1)
    ensures |InitialCenters(p, k)| == k && EvenlySpaced(InitialCenters(p, k), p, s)
  {
    s := (|p| - 1) / (k - 1);
    StrideFits(|p| - 1, k - 1);
    forall i | 0 <= i < k ensures i * s < |p| && InitialCenters(p, k)[i] == Num(p[i * s] as real) {
      StrideInRange(|p|, k, i);
    }
  }

  lemma StrideFits(n: nat, d: nat)
    requires d > 0
    ensures d * (n / d) <= n < d * (n / d + 1)
  {
    assert n == d * (n / d) + n % d;
  }

  lemma StrideInRange(len: nat, k: nat, i: nat)
    requires k >= 2 && len > 0 && i < k
    ensures 0 <= i * ((len - 1) / (k - 1)) < len
  {
    var step := (len - 1) / (k - 1);
    MulMonotone(i, k - 1, step);
    assert (k - 1) * step <= len - 1;
  }

  // ------------------------------------------------------------------- the cost

  function Square(x: real): real {
    x * x
  }

  function Term(x: int, c: Double): real {
    if c.Num? then Square(x as real - c.r) else 0.0
  }

  /** What a point and its centre contribute; the sums below are for any such
      function, so that they can be compared without looking inside it. */
  type Weight = (int, Double) -> real

  /** Sum over the points of the weight of the labelled centre. */
  function Cost(w: Weight, p: seq<int>, ls: seq<nat>, cs: seq<Double>): real
    requires |ls| == |p| && forall i :: 0 <= i < |p| ==> ls[i] < |cs|
  {
    if p == [] then 0.0
    else var n := |p| - 1; Cost(w, p[..n], ls[..n], cs) + w(p[n], cs[ls[n]])
  }

  /** The part of the cost that belongs to the points m of one cluster. */
  function ClusterCost(w: Weight, m: seq<int>, c: Double): real {
    if m == [] then 0.0 else ClusterCost(w, m[..|m| - 1], c) + w(m[|m| - 1], c)
  }

  /** Moving one centre changes the cost of its own points only. */
  lemma {:induction false} MovedCenter(w: Weight, p: seq<int>, ls: seq<nat>, cs: seq<Double>, c: nat, x: Double, y: Double)
    requires |ls| == |p| && c < |cs|
    requires forall i :: 0 <= i < |p| ==> ls[i] < |cs|
    ensures var m := Members(p, ls, c);
      Cost(w, p, ls, cs[c := x]) - Cost(w, p, ls, cs[c := y]) == ClusterCost(w, m, x) - ClusterCost(w, m, y)
  {
    if p != [] {
      var n := |p| - 1;
      MovedCenter(w, p[..n], ls[..n], cs, c, x, y);
      var m, m' := Members(p, ls, c), Members(p[..n], ls[..n], c);
      var f, g := cs[c := x], cs[c := y];
      assert Cost(w, p, ls, f) == Cost(w, p[..n], ls[..n], f) + w(p[n], f[ls[n]]);
      assert Cost(w, p, ls, g) == Cost(w, p[..n], ls[..n], g) + w(p[n], g[ls[n]]);
      if ls[n] == c {
        assert m == m' + [p[n]] && m[..|m| - 1] == m';
        assert ClusterCost(w, m, x) == ClusterCost(w, m', x) + w(p[n], x);
        assert ClusterCost(w, m, y) == ClusterCost(w, m', y) + w(p[n], y);
      } else {
        assert m == m';
        assert w(p[n], f[ls[n]]) == w(p[n], g[ls[n]]);
      }
    }
  }

  /** Better labels cannot cost more. */
  lemma {:induction false} RelabelLowersCost(w: Weight, p: seq<int>, ls: seq<nat>, ks: seq<nat>, cs: seq<Double>)
    requires |ls| == |ks| == |p|
    requires forall i :: 0 <= i < |p| ==> ls[i] < |cs| && ks[i] < |cs| && w(p[i], cs[ls[i]]) <= w(p[i], cs[ks[i]])
    ensures Cost(w, p, ls, cs) <= Cost(w, p, ks, cs)
  {
    if p != [] {
      var n := |p| - 1;
      RelabelLowersCost(w, p[..n], ls[..n], ks[..n], cs);
    }
  }

  lemma {:induction false} CostNonnegative(w: Weight, p: seq<int>, ls: seq<nat>, cs: seq<Double>)
    requires |ls| == |p| && forall i :: 0 <= i < |p| ==> ls[i] < |cs|
    requires forall i :: 0 <= i < |p| ==> w(p[i], cs[ls[i]]) >= 0.0
    ensures Cost(w, p, ls, cs) >= 0.0
  {
    if p != [] {
      var n := |p| - 1;
      CostNonnegative(w, p[..n], ls[..n], cs);
    }
  }

  lemma SquareNonnegative(x: real)
    ensures Square(x) >= 0.0
  {
  }

  lemma SquareMonotone(a: real, b: real)
    requires 0.0 <= a <= b
    ensures Square(a) <= Square(b)
  {
    assert a * a <= a * b <= b * b;
  }

  /** The cost under the nearest labels: what a pass drives down. */
  function Potential(p: seq<int>, cs: seq<Double>): real
    requires |cs| > 0
  {
    if cs[0].Num? then Cost(Term, p, Labels(p, cs), cs) else 0.0
  }

  lemma PotentialNonnegative(p: seq<int>, cs: seq<Double>)
    requires |cs| > 0
    ensures Potential(p, cs) >= 0.0
  {
    if cs[0].Num? {
      forall i | 0 <= i < |p|
        ensures Term(p[i], cs[Labels(p, cs)[i]]) >= 0.0
      {
        TermNonnegative(p[i], cs[Labels(p, cs)[i]]);
      }
      CostNonnegative(Term, p, Labels(p, cs), cs);
    }
  }

  lemma TermNonnegative(x: int, c: Double)
    ensures Term(x, c) >= 0.0
  {
    if c.Num? {
      SquareNonnegative(x as real - c.r);
    }
  }

  /** The label of a point: a number among the centres, at least squared distance. */
  lemma NearestLabel(x: int, cs: seq<Double>, j: nat)
    requires j < |cs| && cs[0].Num?
    ensures var l := MinIndex(Dists(x, cs)); cs[l].Num? && (cs[j].Num? ==> Term(x, cs[l]) <= Term(x, cs[j]))
  {
    var d := Dists(x, cs);
    var l := MinIndex(d);
    assert d[0].Num? && d[l].Num?;
    if cs[j].Num? {
      assert d[j].Num? && d[l].r <= d[j].r;
      SquareOfDistance(x, cs[l]);
      SquareOfDistance(x, cs[j]);
      SquareMonotone(d[l].r, d[j].r);
    }
  }

  lemma SquareOfDistance(x: int, c: Double)
    requires c.Num?
    ensures var d := Distance(ToDouble(x), c); d.Num? && d.r >= 0.0 && Square(d.r) == Term(x, c)
  {
  }

  /** How much more a cluster of n points with sum s costs around a than around u. */
  function Gap(n: real, s: real, a: real, u: real): real {
    (a - u) * (n * (a + u) - 2.0 * s)
  }

  function Saving(n: real, a: real, u: real): real {
    n * Square(a - u)
  }

  lemma GapStep(n: real, s: real, a: real, u: real, x: real)
    ensures Gap(n, s, a, u) + Square(x - a) - Square(x - u) == Gap(n + 1.0, s + x, a, u)
  {
    assert Square(x - a) - Square(x - u) == (a - u) * (a + u - 2.0 * x);
    assert Gap(n + 1.0, s + x, a, u) == (a - u) * ((n * (a + u) - 2.0 * s) + (a + u - 2.0 * x));
  }

  lemma GapAtMean(n: real, s: real, a: real, u: real)
    requires s == n * u
    ensures Gap(n, s, a, u) == Saving(n, a, u)
  {
    assert n * (a + u) - 2.0 * s == n * (a - u);
  }

  lemma {:induction false} ClusterGap(m: seq<int>, a: real, u: real)
    ensures ClusterCost(Term, m, Num(a)) - ClusterCost(Term, m, Num(u)) == Gap(|m| as real, SumOf(m) as real, a, u)
  {
    if m != [] {
      var m', x := m[..|m| - 1], m[|m| - 1];
      ClusterGap(m', a, u);
      GapStep(|m'| as real, SumOf(m') as real, a, u, x as real);
    }
  }

  /** Moving a centre from a to the mean of its n points saves n (a - mean)^2. */
  lemma MoveToMean(m: seq<int>, a: real)
    requires m != []
    ensures ClusterCost(Term, m, Num(a)) - ClusterCost(Term, m, Mean(m)) == Saving(|m| as real, a, Mean(m).r)
  {
    var n, s := |m| as real, SumOf(m) as real;
    var u := Mean(m).r;
    assert s == n * u;
    ClusterGap(m, a, u);
    GapAtMean(n, s, a, u);
  }

  lemma {:induction false} LabelledIsMember(p: seq<int>, ls: seq<nat>, i: nat)
    requires |ls| == |p| && i < |p|
    ensures Members(p, ls, ls[i]) != []
  {
    if i < |p| - 1 {
      LabelledIsMember(p[..|p| - 1], ls[..|p| - 1], i);
    }
  }

  lemma {:induction false} MemberIsLabelled(p: seq<int>, ls: seq<nat>, c: nat)
    returns (i: nat)
    requires |ls| == |p| && Members(p, ls, c) != []
    ensures i < |p| && ls[i] == c
  {
    if ls[|p| - 1] == c {
      i := |p| - 1;
    } else {
      i := MemberIsLabelled(p[..|p| - 1], ls[..|p| - 1], c);
    }
  }

  // ------------------------------------------------------------- one pass descends

  /** The threshold, squared: what a pass that is not the last must save. */
  const THRESHOLD_SQUARED := KMEANS_THRESHOLD * KMEANS_THRESHOLD

  lemma SavingBound(n: real, a: real, u: real)
    requires n >= 1.0
    ensures Saving(n, a, u) >= 0.0
    ensures Differs(Num(u), Num(a)) ==> Saving(n, a, u) > THRESHOLD_SQUARED
  {
    var d := if a > u then a - u else u - a;
    assert Square(a - u) == d * d;
    assert n * (d * d) >= d * d;
    if d > KMEANS_THRESHOLD {
      assert d * d > KMEANS_THRESHOLD * d > KMEANS_THRESHOLD * KMEANS_THRESHOLD;
    }
  }

  /** The first c centres already moved to the new means. */
  ghost function Mixed(nw: seq<Double>, cs: seq<Double>, c: nat): seq<Double>
    requires c <= |nw| == |cs|
  {
    nw[..c] + cs[c..]
  }

  lemma MoveOneCenter(p: seq<int>, cs: seq<Double>, c: nat)
    requires c < |cs| && cs[0].Num?
    ensures var ls, nw := Labels(p, cs), NewCenters(p, cs);
      && Cost(Term, p, ls, Mixed(nw, cs, c + 1)) <= Cost(Term, p, ls, Mixed(nw, cs, c))
      && (Differs(nw[c], cs[c]) ==>
            Cost(Term, p, ls, Mixed(nw, cs, c + 1)) + THRESHOLD_SQUARED < Cost(Term, p, ls, Mixed(nw, cs, c)))
  {
    var ls, nw := Labels(p, cs), NewCenters(p, cs);
    var m, base := Members(p, ls, c), Mixed(nw, cs, c);
    assert Mixed(nw, cs, c) == base[c := cs[c]] && Mixed(nw, cs, c + 1) == base[c := nw[c]];
    MovedCenter(Term, p, ls, base, c, cs[c], nw[c]);
    if m != [] {
      var i := MemberIsLabelled(p, ls, c);
      NearestLabel(p[i], cs, c);
      MoveToMean(m, cs[c].r);
      SavingBound(|m| as real, cs[c].r, nw[c].r);
    }
  }

  lemma {:induction false} MoveCenters(p: seq<int>, cs: seq<Double>, lo: nat, hi: nat)
    requires lo <= hi <= |cs| && |cs| > 0 && cs[0].Num?
    ensures var ls, nw := Labels(p, cs), NewCenters(p, cs);
      Cost(Term, p, ls, Mixed(nw, cs, hi)) <= Cost(Term, p, ls, Mixed(nw, cs, lo))
    decreases hi
  {
    if lo < hi {
      MoveCenters(p, cs, lo, hi - 1);
      MoveOneCenter(p, cs, hi - 1);
    }
  }

  /** Moving all centres to their means, with the labels unchanged. */
  lemma MeansDescend(p: seq<int>, cs: seq<Double>, d: nat)
    requires d < |cs| && cs[0].Num? && Differs(NewCenters(p, cs)[d], cs[d])
    ensures Cost(Term, p, Labels(p, cs), NewCenters(p, cs)) + THRESHOLD_SQUARED < Potential(p, cs)
  {
    var nw := NewCenters(p, cs);
    MoveCenters(p, cs, 0, d);
    MoveOneCenter(p, cs, d);
    MoveCenters(p, cs, d + 1, |cs|);
    assert Mixed(nw, cs, 0) == cs && Mixed(nw, cs, |cs|) == nw;
  }

  /** A pass that fails the equality test and keeps a number at index 0 lowers the
      potential by more than the squared threshold. */
  lemma PassDescends(p: seq<int>, cs: seq<Double>)
    requires |cs| > 0 && cs[0].Num?
    requires !EqualCenters(NewCenters(p, cs), cs) && NewCenters(p, cs)[0].Num?
    ensures Potential(p, NewCenters(p, cs)) + THRESHOLD_SQUARED < Potential(p, cs)
  {
    var nw := NewCenters(p, cs);
    var d :| 0 <= d < |cs| && Differs(nw[d], cs[d]);
    MeansDescend(p, cs, d);
    NewLabelsDescend(p, cs);
  }

  /** Relabelling with the new centres costs no more. */
  lemma NewLabelsDescend(p: seq<int>, cs: seq<Double>)
    requires |cs| > 0 && NewCenters(p, cs)[0].Num?
    ensures Potential(p, NewCenters(p, cs)) <= Cost(Term, p, Labels(p, cs), NewCenters(p, cs))
  {
    var ls, nw := Labels(p, cs), NewCenters(p, cs);
    var ks := Labels(p, nw);
    forall i | 0 <= i < |p|
      ensures Term(p[i], nw[ks[i]]) <= Term(p[i], nw[ls[i]])
    {
      LabelledIsMember(p, ls, i);
      NearestLabel(p[i], nw, ls[i]);
    }
    RelabelLowersCost(Term, p, ks, ls, nw);
  }

  /** Once centre 0 is NaN it attracts every point, and the next pass is the last. */
  lemma NaNEndsTheLoop(p: seq<int>, cs: seq<Double>)
    requires |cs| > 0 && cs[0].NaN?
    ensures EqualCenters(NewCenters(p, cs), cs)
    ensures forall i :: 0 <= i < |p| ==> Labels(p, cs)[i] == 0
  {
    var ls := Labels(p, cs);
    forall i | 0 <= i < |p|
      ensures ls[i] == 0
    {
      assert Dists(p[i], cs)[0].NaN?;
    }
    forall c | 0 < c < |cs|
      ensures NewCenters(p, cs)[c].NaN?
    {
      if Members(p, ls, c) != [] {
        var i := MemberIsLabelled(p, ls, c);
      }
    }
  }

  /** Passes until the centres settle.  The recursion is well-founded for every
      input: each further pass lowers the potential by more than one threshold
      squared, or it follows the one in which centre 0 became NaN. */
  function Lloyd(p: seq<int>, cs: seq<Double>): (r: seq<Double>)
    requires |cs| > 0
    ensures |r| == |cs|
    decreases if cs[0].Num? then 1 else 0, Potential(p, cs) / THRESHOLD_SQUARED
  {
    var nw := NewCenters(p, cs);
    if EqualCenters(nw, cs) then nw
    else
      LoopDecreases(p, cs);
      Lloyd(p, nw)
  }

  lemma LoopDecreases(p: seq<int>, cs: seq<Double>)
    requires |cs| > 0 && !EqualCenters(NewCenters(p, cs), cs)
    ensures cs[0].Num?
    ensures Potential(p, NewCenters(p, cs)) / THRESHOLD_SQUARED >= 0.0
    ensures NewCenters(p, cs)[0].Num? ==>
      Potential(p, NewCenters(p, cs)) / THRESHOLD_SQUARED <= Potential(p, cs) / THRESHOLD_SQUARED - 1.0
  {
    if cs[0].NaN? {
      NaNEndsTheLoop(p, cs);
    }
    PotentialNonnegative(p, NewCenters(p, cs));
    if NewCenters(p, cs)[0].Num? {
      PassDescends(p, cs);
    }
  }

  /** How many passes the loop makes. */
  ghost function Passes(p: seq<int>, cs: seq<Double>): nat
    requires |cs| > 0
    decreases if cs[0].Num? then 1 else 0, Potential(p, cs) / THRESHOLD_SQUARED
  {
    var nw := NewCenters(p, cs);
    if EqualCenters(nw, cs) then 1
    else
      LoopDecreases(p, cs);
      1 + Passes(p, nw)
  }

  /** The number of passes is bounded by the initial cost. */
  lemma {:induction false} PassesBounded(p: seq<int>, cs: seq<Double>)
    requires |cs| > 0
    ensures Passes(p, cs) as real <= Potential(p, cs) / THRESHOLD_SQUARED + 2.0
    decreases Passes(p, cs)
  {
    var nw := NewCenters(p, cs);
    PotentialNonnegative(p, cs);
    if !EqualCenters(nw, cs) {
      LoopDecreases(p, cs);
      if nw[0].NaN? {
        NaNEndsTheLoop(p, nw);
      }
      PassesBounded(p, nw);
    }
  }

  /** From a to b is a pass, and it changes nothing exactly if it is the last. */
  ghost predicate IsPass(p: seq<int>, a: seq<Double>, b: seq<Double>, last: bool) {
    && |a| > 0 && b == NewCenters(p, a)
    && (EqualCenters(b, a) <==> last)
  }

  /** A run of the loop: the centres before the first pass and after each, where exactly
      the last pass changes nothing that `Equal` sees. */
  ghost predicate IsRun(p: seq<int>, run: seq<seq<Double>>) {
    && |run| >= 2
    && forall i :: 0 <= i < |run| - 1 ==> IsPass(p, run[i], run[i + 1], i == |run| - 2)
  }

  lemma RunMore(p: seq<int>, start: seq<Double>, run: seq<seq<Double>>)
    requires IsRun(p, run) && IsPass(p, start, run[0], false)
    ensures IsRun(p, [start] + run)
  {
    var all := [start] + run;
    forall i | 0 <= i < |all| - 1 ensures IsPass(p, all[i], all[i + 1], i == |all| - 2) {
      if i > 0 {
        assert IsPass(p, run[i - 1], run[i], i - 1 == |run| - 2);
      }
    }
  }

  /** The loop is such a run from its start to its result. */
  lemma {:induction false} LloydRuns(p: seq<int>, start: seq<Double>) returns (run: seq<seq<Double>>)
    requires |start| > 0
    ensures IsRun(p, run) && run[0] == start && run[|run| - 1] == Lloyd(p, start) && |run| == Passes(p, start) + 1
    decreases Passes(p, start)
  {
    var next := NewCenters(p, start);
    if EqualCenters(next, start) {
      run := [start, next];
      assert IsPass(p, start, next, true);
    } else {
      LoopDecreases(p, start);
      var rest := LloydRuns(p, next);
      assert IsPass(p, start, next, false);
      RunMore(p, start, rest);
      run := [start] + rest;
    }
  }

  /** Centres are equal if no two numbers are more than the threshold apart; NaN never
      counts as different. */
  lemma EqualMeans(a: seq<Double>, b: seq<Double>)
    requires |a| == |b|
    ensures EqualCenters(a, b) <==> forall i :: 0 <= i < |a| && a[i].Num? && b[i].Num? ==>
      -0.00001 <= a[i].r - b[i].r <= 0.00001
  {
    forall i | 0 <= i < |a|
      ensures Differs(a[i], b[i]) <==> a[i].Num? && b[i].Num? && !(-0.00001 <= a[i].r - b[i].r <= 0.00001)
    {
    }
  }

  /** A label is the lowest index of a nearest centre; without a number at index 0 it
      is 0. */
  lemma LabelMeans(p: seq<int>, cs: seq<Double>, i: nat, j: nat)
    requires i < |p| && j < |cs|
    ensures var l := Labels(p, cs)[i];
      && (cs[0].NaN? ==> l == 0)
      && (cs[0].Num? ==> cs[l].Num?)
      && (cs[0].Num? && cs[j].Num? ==>
            && Apart(p[i] as real, cs[l].r) <= Apart(p[i] as real, cs[j].r)
            && (j < l ==> Apart(p[i] as real, cs[l].r) < Apart(p[i] as real, cs[j].r)))
  {
    var ds := Dists(p[i], cs);
    assert IsMinIndex(ds, Labels(p, cs)[i]);
    assert cs[j].Num? ==> ds[j] == Num(Apart(p[i] as real, cs[j].r));
    assert cs[0].Num? <==> ds[0].Num?;
  }

  function Apart(x: real, y: real): real {
    if x >= y then x - y else y - x
  }

  /** The loop stops at centres that no further mean differs from: the result is
      the set of means around centres that do not differ from it. */
  lemma {:induction false} LloydSettles(p: seq<int>, cs: seq<Double>) returns (last: seq<Double>)
    requires |cs| > 0
    ensures |last| == |cs| && Lloyd(p, cs) == NewCenters(p, last) && EqualCenters(Lloyd(p, cs), last)
    ensures last[0].NaN? ==> forall i :: 0 <= i < |p| ==> Labels(p, last)[i] == 0
    decreases Passes(p, cs)
  {
    if EqualCenters(NewCenters(p, cs), cs) {
      last := cs;
      if cs[0].NaN? {
        NaNEndsTheLoop(p, cs);
      }
    } else {
      last := LloydSettles(p, NewCenters(p, cs));
    }
  }

  // ----------------------------------------------------------------- the methods

  method GetCenter(m: array2<int>, row: nat, len: nat, ghost ms: seq<int>) returns (c: Double)
    requires IsRow(m, row, len, ms)
    ensures c == Mean(ms)
  {
    var sum := 0.0;
    var i := 0;
    while i < len
      invariant 0 <= i <= len
      invariant sum == SumOf(ms[..i]) as real
    {
      assert ms[..i + 1][..i] == ms[..i];
      sum := sum + m[row, i] as real;
      i := i + 1;
    }
    assert ms[..len] == ms;
    c := if len == 0 then NaN else Num(sum / len as real);
  }

  /** Compares old and new centres. */
  method Equal(a: array<Double>, b: array<Double>, k: nat) returns (eq: bool)
    requires k <= a.Length && k <= b.Length
    ensures eq <==> EqualCenters(a[..k], b[..k])
  {
    var i := 0;
    while i < k
      invariant 0 <= i <= k
      invariant forall j :: 0 <= j < i ==> !Differs(a[j], b[j])
    {
      if Greater(Fabs(Minus(a[i], b[i])), Num(KMEANS_THRESHOLD)) {
        assert Differs(a[..k][i], b[..k][i]);
        return false;
      }
      i := i + 1;
    }
    eq := true;
  }

  /** The distances of one point to all centres. */
  method FillDistances(dist: array<Double>, x: int, center: array<Double>, k: nat)
    requires k <= dist.Length && k <= center.Length && dist != center
    modifies dist
    ensures dist[..k] == Dists(x, center[..k])
  {
    var j := 0;
    while j < k
      invariant 0 <= j <= k
      invariant forall n :: 0 <= n < j ==> dist[n] == Distance(ToDouble(x), center[n])
    {
      dist[j] := Distance(ToDouble(x), center[j]);
      j := j + 1;
    }
  }

  /** Labels every point with its nearest centre. */
  method Assign(labels: array<nat>, p: array<int>, len: nat, center: array<Double>, k: nat)
    requires 1 <= k <= center.Length && len <= p.Length && len <= labels.Length
    requires labels as object != p && labels as object != center
    modifies labels
    ensures labels[..len] == Labels(p[..len], center[..k])
  {
    ghost var cs := center[..k];
    var dist := new Double[k];
    var i := 0;
    while i < len
      invariant 0 <= i <= len && center[..k] == cs
      invariant forall n :: 0 <= n < i ==> labels[n] == MinIndex(Dists(p[n], cs))
    {
      FillDistances(dist, p[i], center, k);
      labels[i] := MinArrayIndex(dist, k);
      i := i + 1;
    }
  }

  /** One pass: labels, groups and the mean of each group. */
  method Cluster(newCenter: array<Double>, p: array<int>, len: nat, oldCenter: array<Double>, k: nat)
    requires 1 <= k <= newCenter.Length && k <= oldCenter.Length && len <= p.Length
    requires newCenter != oldCenter && newCenter as object != p
    modifies newCenter
    ensures newCenter[..k] == NewCenters(p[..len], oldCenter[..k])
  {
    var labels := new nat[len];
    Assign(labels, p, len, oldCenter, k);
    ghost var pts, ls := p[..len], Labels(p[..len], oldCenter[..k]);
    assert labels[..] == labels[..len] == ls;
    var groupMember := new int[k, len];
    var groupNum := new nat[k];
    var i := 0;
    while i < k
      invariant 0 <= i <= k && labels[..] == ls
      invariant forall c :: 0 <= c < i ==> IsRow(groupMember, c, groupNum[c], Members(pts, ls, c))
    {
      var num := GatherGroup(groupMember, i, p, len, labels);
      groupNum[i] := num;
      i := i + 1;
    }
    MeansOfGroups(newCenter, groupMember, groupNum, k, pts, ls);
  }

  /** The new centres: the mean of each group. */
  method MeansOfGroups(newCenter: array<Double>, groupMember: array2<int>, groupNum: array<nat>, k: nat,
                       ghost pts: seq<int>, ghost ls: seq<nat>)
    requires k <= newCenter.Length && k == groupNum.Length == groupMember.Length0 && |pts| == |ls|
    requires newCenter as object != groupMember && newCenter as object != groupNum
    requires forall c :: 0 <= c < k ==> IsRow(groupMember, c, groupNum[c], Members(pts, ls, c))
    modifies newCenter
    ensures forall c :: 0 <= c < k ==> newCenter[c] == Mean(Members(pts, ls, c))
  {
    var i := 0;
    while i < k
      invariant 0 <= i <= k
      invariant forall c :: 0 <= c < i ==> newCenter[c] == Mean(Members(pts, ls, c))
    {
      newCenter[i] := GetCenter(groupMember, i, groupNum[i], Members(pts, ls, i));
      i := i + 1;
    }
  }

  /** The first num entries of a row hold m. */
  ghost predicate IsRow(g: array2<int>, row: nat, num: nat, m: seq<int>)
    reads g
  {
    row < g.Length0 && num == |m| <= g.Length1 && forall j :: 0 <= j < num ==> g[row, j] == m[j]
  }

  /** Collects the points labelled i into row i. */
  method GatherGroup(g: array2<int>, i: nat, p: array<int>, len: nat, labels: array<nat>) returns (num: nat)
    requires i < g.Length0 && g.Length1 == len == labels.Length <= p.Length
    modifies g
    ensures IsRow(g, i, num, Members(p[..len], labels[..], i))
    ensures forall c, j :: 0 <= c < g.Length0 && 0 <= j < g.Length1 && c != i ==> g[c, j] == old(g[c, j])
  {
    num := 0;
    var j := 0;
    while j < len
      invariant 0 <= num <= j <= len
      invariant IsRow(g, i, num, Members(p[..j], labels[..j], i))
      invariant forall c, j :: 0 <= c < g.Length0 && 0 <= j < g.Length1 && c != i ==> g[c, j] == old(g[c, j])
    {
      assert p[..j + 1][..j] == p[..j] && labels[..j + 1][..j] == labels[..j];
      if labels[j] == i {
        g[i, num] := p[j];
        num := num + 1;
      }
      j := j + 1;
    }
    assert labels[..len] == labels[..];
  }

  /** The initial centres: points at equal strides. */
  method PickInitialCenters(oldCenter: array<Double>, p: array<int>, len: nat, k: nat)
    requires k >= 2 && 1 <= len <= p.Length && oldCenter.Length == k && oldCenter as object != p
    modifies oldCenter
    ensures oldCenter[..] == InitialCenters(p[..len], k)
  {
    ghost var init := InitialCenters(p[..len], k);
    var index := 0;
    var addValue := (len - 1) / (k - 1);
    var i := 0;
    while i < k
      invariant 0 <= i <= k && index == i * addValue
      invariant forall n :: 0 <= n < i ==> oldCenter[n] == init[n]
    {
      StrideInRange(len, k, i);
      assert init[i] == ToDouble(p[..len][i * addValue]);
      oldCenter[i] := ToDouble(p[index]);
      index := index + addValue;
      i := i + 1;
    }
  }

  /** KMeans: the centres are those at which Lloyd's passes settle, the labels the
      nearest of them.  The loop ends on every input. */
  method KMeans(labels: array<nat>, center: array<Double>, p: array<int>, len: nat, k: nat)
    returns (ghost passes: nat)
    requires k >= 2 && 1 <= len <= p.Length && labels.Length == len && center.Length == k
    requires labels as object != p && center as object != p && labels as object != center
    modifies labels, center
    ensures center[..] == Lloyd(p[..len], InitialCenters(p[..len], k))
    ensures labels[..] == Labels(p[..len], center[..])
    ensures passes as real <= Potential(p[..len], InitialCenters(p[..len], k)) / THRESHOLD_SQUARED + 2.0
    ensures exists s: nat, run ::
      && (k - 1) * s <= len - 1 < (k - 1) * (s + 1)
      && IsRun(p[..len], run) && |run[0]| == k && EvenlySpaced(run[0], p[..len], s)
      && run[|run| - 1] == center[..] && |run| == passes + 1
  {
    ghost var pts := p[..len];
    ghost var init := InitialCenters(pts, k);
    var oldCenter := new Double[k];
    PickInitialCenters(oldCenter, p, len, k);
    passes := 0;
    ghost var cs := init;
    while true
      invariant cs == oldCenter[..] && |cs| == k && p[..len] == pts
      invariant Lloyd(pts, cs) == Lloyd(pts, init)
      invariant passes + Passes(pts, cs) == Passes(pts, init)
      decreases Passes(pts, cs)
    {
      Cluster(center, p, len, oldCenter, k);
      assert center[..] == center[..k] && oldCenter[..k] == cs;
      passes := passes + 1;
      var same := Equal(center, oldCenter, k);
      if same {
        break;
      }
      cs := NewCenters(pts, cs);
      CopyCenters(oldCenter, center, k);
      assert oldCenter[..] == oldCenter[..k];
    }
    PassesBounded(pts, init);
    ghost var run := LloydRuns(pts, init);
    ghost var s := InitialCentersAre(pts, k);
    ghost var final := center[..];
    Assign(labels, p, len, center, k);
    assert center[..] == center[..k] == final && labels[..] == labels[..len];
  }

  method CopyCenters(dst: array<Double>, src: array<Double>, k: nat)
    requires dst != src && k <= dst.Length && k <= src.Length
    modifies dst
    ensures dst[..k] == src[..k]
  {
    forall n | 0 <= n < k {
      dst[n] := src[n];
    }
  }

  // -------------------------------------------------------------------- the mode

  /** How many points carry label c. */
  function Count(ls: seq<nat>, c: nat): nat {
    if ls == [] then 0 else Count(ls[..|ls| - 1], c) + if ls[|ls| - 1] == c then 1 else 0
  }

  function Counts(ls: seq<nat>, k: nat): seq<int> {
    seq(k, c requires 0 <= c < k => Count(ls, c))
  }

  lemma {:induction false} CountIsMultiplicity(ls: seq<nat>, c: nat)
    ensures Count(ls, c) == multiset(ls)[c]
  {
    if ls != [] {
      CountIsMultiplicity(ls[..|ls| - 1], c);
      assert ls == ls[..|ls| - 1] + [ls[|ls| - 1]];
    }
  }

  /** The lowest label of greatest membership. */
  method Mode(labels: array<nat>, nsample: nat, k: nat) returns (mode: nat)
    requires nsample <= labels.Length && k >= 1
    requires forall i :: 0 <= i < nsample ==> labels[i] < k
    ensures mode == MaxIndex(Counts(labels[..nsample], k))
  {
    var counts := new int[k](_ => 0);
    var i := 0;
    while i < nsample
      invariant 0 <= i <= nsample
      invariant forall c :: 0 <= c < k ==> counts[c] == Count(labels[..i], c)
    {
      assert labels[..i + 1][..i] == labels[..i];
      counts[labels[i]] := counts[labels[i]] + 1;
      i := i + 1;
    }
    mode := MaxArrayIndex(counts, k);
    assert counts[..k] == Counts(labels[..nsample], k);
  }

  function Total(s: seq<int>): int {
    if s == [] then 0 else Total(s[..|s| - 1]) + s[|s| - 1]
  }

  /** The cluster counts add up to the number of points. */
  lemma {:induction false} CountsSumToSamples(ls: seq<nat>, k: nat)
    requires forall i :: 0 <= i < |ls| ==> ls[i] < k
    ensures Total(Counts(ls, k)) == |ls|
  {
    if ls == [] {
      ZeroCounts(k);
    } else {
      var n := |ls| - 1;
      CountsSumToSamples(ls[..n], k);
      BumpTotal(Counts(ls[..n], k), ls[n]);
      assert Counts(ls, k) == Counts(ls[..n], k)[ls[n] := Counts(ls[..n], k)[ls[n]] + 1];
    }
  }

  lemma {:induction false} ZeroCounts(k: nat)
    ensures Total(Counts([], k)) == 0
  {
    if k > 0 {
      ZeroCounts(k - 1);
      assert Counts([], k)[..k - 1] == Counts([], k - 1);
    }
  }

  lemma {:induction false} BumpTotal(s: seq<int>, c: nat)
    requires c < |s|
    ensures Total(s[c := s[c] + 1]) == Total(s) + 1
  {
    var n := |s| - 1;
    if c < n {
      BumpTotal(s[..n], c);
      assert s[c := s[c] + 1][..n] == s[..n][c := s[c] + 1];
    } else {
      assert s[c := s[c] + 1][..n] == s[..n];
    }
  }
}
