/** Facts about finite sets and sequences that several modules count with. */
module Sets {

  /** The naturals below n. */
  function Below(n: nat): (s: set<nat>)
    ensures |s| == n
    ensures forall x: nat :: x in s <==> x < n
  {
    if n == 0 then {} else Below(n - 1) + {n - 1}
  }

  function Elements<T(==, !new)>(q: seq<T>): (s: set<T>)
    ensures forall x :: x in s <==> x in q
  {
    if q == [] then {} else
      assert q == q[..|q| - 1] + [q[|q| - 1]];
      Elements(q[..|q| - 1]) + {q[|q| - 1]}
  }

  ghost predicate NoRepeats<T>(q: seq<T>) {
    forall i, j :: 0 <= i < j < |q| ==> q[i] != q[j]
  }

  lemma {:induction false} ElementCount<T(!new)>(q: seq<T>)
    requires NoRepeats(q)
    ensures |Elements(q)| == |q|
  {
    if q != [] {
      ElementCount(q[..|q| - 1]);
    }
  }

  lemma CardinalityOfSubset<T>(a: set<T>, b: set<T>)
    requires a <= b
    ensures |a| <= |b|
    ensures |a| == |b| ==> a == b
  {
    assert b == a + (b - a);
  }
}
