/** The recursive counter allocator of src/papi_bipartite.h.

    An event is the set of counters it may still be placed on.  The six
    component helpers are modelled by what their comments promise. */
module Bipartite {
  import opened Sets

  type Event = set<nat>

  predicate Avail(e: Event, ctr: nat) {
    ctr in e
  }

  predicate Exclusive(e: Event) {
    |e| == 1
  }

  predicate Shared(dst: Event, src: Event) {
    !(dst !! src)
  }

  function Preempt(dst: Event, src: Event): Event {
    dst - src
  }

  /** f places event i on counter f[i], each event on a counter of its own. */
  ghost predicate Assigns(evs: seq<Event>, f: seq<nat>) {
    && |f| == |evs|
    && (forall i :: 0 <= i < |evs| ==> f[i] in evs[i])
    && (forall i, j :: 0 <= i < j < |evs| ==> f[i] != f[j])
  }

  ghost predicate Allocatable(evs: seq<Event>) {
    exists f :: Assigns(evs, f)
  }

  /** Both lists have exactly the same assignments. */
  ghost predicate SameAssignments(a: seq<Event>, b: seq<Event>) {
    forall f :: Assigns(a, f) <==> Assigns(b, f)
  }

  ghost predicate DisjointSingletons(evs: seq<Event>) {
    && (forall i :: 0 <= i < |evs| ==> Exclusive(evs[i]))
    && (forall i, j :: 0 <= i < j < |evs| ==> evs[i] !! evs[j])
  }

  /** Total rank of the first n events. */
  ghost function Rank(evs: seq<Event>, n: nat): nat
    requires n <= |evs|
  {
    if n == 0 then 0 else Rank(evs, n - 1) + |evs[n - 1]|
  }

  /** Indices of the unmapped events among the first n, in order. */
  ghost function Unmapped(mapped: seq<bool>, n: nat): (u: seq<nat>)
    requires n <= |mapped|
    ensures |u| <= n
    ensures forall k :: 0 <= k < |u| ==> u[k] < n && !mapped[u[k]]
  {
    if n == 0 then [] else Unmapped(mapped, n - 1) + if mapped[n - 1] then [] else [n - 1]
  }

  lemma {:induction false} UnmappedComplete(mapped: seq<bool>, n: nat, i: nat)
    requires i < n <= |mapped| && !mapped[i]
    ensures i in Unmapped(mapped, n)
  {
    if i < n - 1 {
      UnmappedComplete(mapped, n - 1, i);
    }
  }

  /** The unmapped events themselves: the list handed to the recursive call. */
  ghost function Rest(evs: seq<Event>, mapped: seq<bool>, n: nat): (r: seq<Event>)
    requires n <= |evs| && n <= |mapped|
    ensures |r| == |Unmapped(mapped, n)|
  {
    if n == 0 then [] else Rest(evs, mapped, n - 1) + if mapped[n - 1] then [] else [evs[n - 1]]
  }

  lemma {:induction false} RestAt(evs: seq<Event>, mapped: seq<bool>, n: nat, k: nat)
    requires n <= |evs| && n <= |mapped| && k < |Unmapped(mapped, n)|
    ensures Rest(evs, mapped, n)[k] == evs[Unmapped(mapped, n)[k]]
  {
    if k < |Unmapped(mapped, n - 1)| {
      RestAt(evs, mapped, n - 1, k);
      assert Unmapped(mapped, n)[k] == Unmapped(mapped, n - 1)[k];
    }
  }

  lemma {:induction false} UnmappedOrdered(mapped: seq<bool>, n: nat, j: nat, k: nat)
    requires n <= |mapped| && j < k < |Unmapped(mapped, n)|
    ensures Unmapped(mapped, n)[j] < Unmapped(mapped, n)[k]
  {
    var u := Unmapped(mapped, n - 1);
    assert Unmapped(mapped, n)[j] == u[j];
    if k < |u| {
      UnmappedOrdered(mapped, n - 1, j, k);
    }
  }

  /** The first event fixed on counter c, and c taken from all the others. */
  ghost function Choose(evs: seq<Event>, c: nat): seq<Event>
    requires |evs| > 0
  {
    seq(|evs|, k requires 0 <= k < |evs| => if k == 0 then {c} else evs[k] - {c})
  }

  lemma ExclusiveIsSingleton(e: Event, c: nat)
    requires Exclusive(e) && c in e
    ensures e == {c}
  {
    CardinalityOfSubset({c}, e);
  }

  lemma {:induction false} RankMonotone(a: seq<Event>, b: seq<Event>, n: nat)
    requires n <= |a| && n <= |b|
    requires forall i :: 0 <= i < n ==> a[i] <= b[i]
    ensures Rank(a, n) <= Rank(b, n)
  {
    if n > 0 {
      RankMonotone(a, b, n - 1);
      CardinalityOfSubset(a[n - 1], b[n - 1]);
    }
  }

  /** Losing a member of one event makes the total rank strictly smaller. */
  lemma {:induction false} RankDrops(a: seq<Event>, b: seq<Event>, n: nat, at: nat)
    requires at < n <= |a| && n <= |b|
    requires forall i :: 0 <= i < n ==> a[i] <= b[i]
    requires a[at] != b[at]
    ensures Rank(a, n) < Rank(b, n)
  {
    CardinalityOfSubset(a[n - 1], b[n - 1]);
    if at == n - 1 {
      RankMonotone(a, b, n - 1);
    } else {
      RankDrops(a, b, n - 1, at);
    }
  }

  lemma {:induction false} RankPrefix(a: seq<Event>, b: seq<Event>, n: nat)
    requires n <= |a| && n <= |b| && a[..n] == b[..n]
    ensures Rank(a, n) == Rank(b, n)
  {
    if n > 0 {
      assert a[n - 1] == a[..n][n - 1] == b[n - 1];
      assert a[..n - 1] == a[..n][..n - 1] == b[..n - 1];
      RankPrefix(a, b, n - 1);
    }
  }

  lemma RankOfSnoc(p: seq<Event>, e: Event)
    ensures Rank(p + [e], |p| + 1) == Rank(p, |p|) + |e|
  {
    RankPrefix(p + [e], p, |p|);
  }

  lemma {:induction false} RestRank(evs: seq<Event>, mapped: seq<bool>, n: nat)
    requires n <= |evs| && n <= |mapped|
    ensures Rank(Rest(evs, mapped, n), |Rest(evs, mapped, n)|) <= Rank(evs, n)
  {
    if n > 0 {
      RestRank(evs, mapped, n - 1);
      var p, r := Rest(evs, mapped, n - 1), Rest(evs, mapped, n);
      if mapped[n - 1] {
        assert r == p;
      } else {
        assert r == p + [evs[n - 1]];
        RankOfSnoc(p, evs[n - 1]);
      }
    }
  }

  /** Taking the counter of a one-counter event away from another event keeps
      exactly the same assignments. */
  lemma PreemptKeepsAssignments(evs: seq<Event>, i: nat, h: nat)
    requires i < |evs| && h < |evs| && i != h && Exclusive(evs[h])
    ensures SameAssignments(evs, evs[i := Preempt(evs[i], evs[h])])
  {
    var evs' := evs[i := Preempt(evs[i], evs[h])];
    forall f
      ensures Assigns(evs, f) <==> Assigns(evs', f)
    {
      if Assigns(evs, f) {
        ExclusiveIsSingleton(evs[h], f[h]);
        assert f[i] != f[h];
      }
      if Assigns(evs', f) {
        forall k | 0 <= k < |evs|
          ensures f[k] in evs[k]
        {
          assert f[k] in evs'[k];
        }
      }
    }
  }

  /** Two one-counter events on the same counter: no assignment at all. */
  lemma ClashRefutes(evs: seq<Event>, i: nat, h: nat)
    requires i < |evs| && h < |evs| && i != h
    requires Exclusive(evs[h]) && Exclusive(evs[i]) && Shared(evs[i], evs[h])
    ensures !Allocatable(evs)
  {
    var c :| c in evs[i] && c in evs[h];
    ExclusiveIsSingleton(evs[i], c);
    ExclusiveIsSingleton(evs[h], c);
    forall f
      ensures !Assigns(evs, f)
    {
      if Assigns(evs, f) {
        assert false;
      }
    }
  }

  lemma RestOfAssignment(evs: seq<Event>, mapped: seq<bool>, f: seq<nat>)
    requires |mapped| == |evs| && Assigns(evs, f)
    ensures Allocatable(Rest(evs, mapped, |evs|))
  {
    var u := Unmapped(mapped, |evs|);
    var g := seq(|u|, k requires 0 <= k < |u| => f[u[k]]);
    forall k | 0 <= k < |u|
      ensures g[k] in Rest(evs, mapped, |evs|)[k]
    {
      RestAt(evs, mapped, |evs|, k);
    }
    forall j, k | 0 <= j < k < |u|
      ensures g[j] != g[k]
    {
      UnmappedOrdered(mapped, |evs|, j, k);
    }
    assert Assigns(Rest(evs, mapped, |evs|), g);
  }

  /** An assignment of the whole list that puts its first event on c is one of
      the list in which c has been chosen. */
  lemma AssignmentSurvivesChoice(evs: seq<Event>, f: seq<nat>)
    requires |evs| > 0 && Assigns(evs, f)
    ensures Assigns(Choose(evs, f[0]), f)
  {
  }

  lemma SingletonsAllocate(evs: seq<Event>, orig: seq<Event>)
    requires |orig| == |evs| && DisjointSingletons(evs)
    requires forall i :: 0 <= i < |evs| ==> evs[i] <= orig[i]
    ensures Allocatable(orig)
  {
    forall i | 0 <= i < |evs|
      ensures exists c :: c in evs[i]
    {
      assert evs[i] != {};
    }
    var f := seq(|evs|, i requires 0 <= i < |evs| => var c :| c in evs[i]; c);
    assert Assigns(orig, f);
  }

  /** The queue holds distinct indices below count. */
  ghost predicate QueueOk(q: seq<nat>, count: nat) {
    && (forall k :: 0 <= k < |q| ==> q[k] < count)
    && NoRepeats(q)
  }

  lemma QueueHasRoom(q: seq<nat>, count: nat, i: nat)
    requires QueueOk(q, count) && i < count && i !in q
    ensures |q| < count
  {
    ElementCount(q);
    CardinalityOfSubset(Elements(q) + {i}, Below(count));
  }

  lemma QueueFull(q: seq<nat>, count: nat)
    requires QueueOk(q, count)
    ensures |q| == count <==> forall i: nat :: i < count ==> i in q
  {
    ElementCount(q);
    var s, r := Elements(q), Below(count);
    CardinalityOfSubset(s, r);
    if forall i: nat :: i < count ==> i in q {
      assert s == r;
    }
  }

  /** What the propagation loop keeps: the queue is exactly the one-counter
      events, its first `head` entries are disjoint from every other event,
      and no assignment has been gained or lost. */
  ghost predicate Propagating(orig: seq<Event>, evs: seq<Event>, q: seq<nat>, head: nat) {
    && |evs| == |orig|
    && QueueOk(q, |evs|)
    && head <= |q|
    && (forall k :: 0 <= k < |evs| ==> evs[k] <= orig[k])
    && (forall k :: 0 <= k < |evs| ==> (Exclusive(evs[k]) <==> k in q))
    && (forall k, j :: 0 <= k < head && 0 <= j < |evs| && j != q[k] ==> evs[j] !! evs[q[k]])
    && SameAssignments(orig, evs)
  }

  lemma SameAssignmentsChain(a: seq<Event>, b: seq<Event>, c: seq<Event>)
    requires SameAssignments(a, b) && SameAssignments(b, c)
    ensures SameAssignments(a, c)
  {
    forall f
      ensures Assigns(a, f) <==> Assigns(c, f)
    {
      assert Assigns(a, f) <==> Assigns(b, f);
    }
  }

  lemma PropagateStep(orig: seq<Event>, evs: seq<Event>, q: seq<nat>, head: nat, i: nat)
    returns (evs': seq<Event>, q': seq<nat>)
    requires Propagating(orig, evs, q, head) && head < |q|
    requires i < |evs| && i != q[head] && !Exclusive(evs[i])
    requires Cleared(evs, q[head], i)
    ensures evs' == evs[i := Preempt(evs[i], evs[q[head]])]
    ensures q' == if Exclusive(evs'[i]) then q + [i] else q
    ensures Propagating(orig, evs', q', head) && Cleared(evs', q'[head], i + 1)
    ensures q'[..head + 1] == q[..head + 1]
  {
    evs' := evs[i := Preempt(evs[i], evs[q[head]])];
    q' := if Exclusive(evs'[i]) then q + [i] else q;
    PreemptKeepsAssignments(evs, i, q[head]);
    SameAssignmentsChain(orig, evs, evs');
    assert i !in q;
    forall k, j | 0 <= k < head && 0 <= j < |evs'| && j != q'[k]
      ensures evs'[j] !! evs'[q'[k]]
    {
      assert evs[j] !! evs[q[k]] && evs'[q[k]] == evs[q[k]] && evs'[j] <= evs[j];
    }
  }

  /** The scan for one queued event h: every other event sharing its counter
      either clashes or gives the counter up, joining the queue if that leaves
      it a single counter. */
  method ClaimCounter(list: array<Event>, count: nat, idxQ: array<nat>, head: nat, tail: nat,
                      ghost orig: seq<Event>, ghost q: seq<nat>)
    returns (ok: bool, tail': nat, ghost q': seq<nat>)
    requires count <= list.Length && idxQ.Length == count && list as object != idxQ
    requires |q| == tail <= count && head < tail
    requires forall k :: 0 <= k < tail ==> idxQ[k] == q[k]
    requires Propagating(orig, list[..count], q, head)
    modifies list, idxQ
    ensures list[count..] == old(list[count..])
    ensures |q'| == tail' <= count && head < tail'
    ensures forall k :: 0 <= k < tail' ==> idxQ[k] == q'[k]
    ensures q'[..head + 1] == q[..head + 1]
    ensures Propagating(orig, list[..count], q', if ok then head + 1 else head)
    ensures !ok ==> !Allocatable(orig)
  {
    ok, tail', q' := true, tail, q;
    var h := idxQ[head];
    ghost var evs := list[..count];
    var i := 0;
    while i < count
      invariant 0 <= i <= count && head < tail' == |q'| <= count
      invariant q'[..head + 1] == q[..head + 1] && h == q'[head]
      invariant evs == list[..count]
      invariant list[count..] == old(list[count..])
      invariant forall k :: 0 <= k < tail' ==> idxQ[k] == q'[k]
      invariant Propagating(orig, evs, q', head)
      invariant Cleared(evs, h, i)
    {
      if i != h && Shared(list[i], list[h]) {
        if Exclusive(list[i]) {
          ClashRefutes(evs, i, h);
          return false, tail', q';
        }
        ghost var q0 := q';
        evs, q' := PropagateStep(orig, evs, q', head, i);
        list[i] := Preempt(list[i], list[h]);
        if Exclusive(list[i]) {
          QueueHasRoom(q0, count, i);
          idxQ[tail'] := i;
          tail' := tail' + 1;
        }
      }
      i := i + 1;
    }
    ClearedExtends(orig, evs, q', head);
  }

  /** The first i events are h itself or do not share its counters. */
  ghost predicate Cleared(evs: seq<Event>, h: nat, i: nat)
    requires h < |evs| && i <= |evs|
  {
    forall j :: 0 <= j < i && j != h ==> evs[j] !! evs[h]
  }

  lemma ClearedExtends(orig: seq<Event>, evs: seq<Event>, q: seq<nat>, head: nat)
    requires Propagating(orig, evs, q, head) && head < |q| && Cleared(evs, q[head], |evs|)
    ensures Propagating(orig, evs, q, head + 1)
  {
  }

  /** Queues every event that lives on one counter only; none is mapped yet. */
  method BuildQueue(list: array<Event>, count: nat, idxQ: array<nat>, mapQ: array<bool>)
    returns (tail: nat, ghost q: seq<nat>)
    requires count <= list.Length && mapQ.Length == count == idxQ.Length
    requires list as object != mapQ && list as object != idxQ && mapQ as object != idxQ
    modifies idxQ, mapQ
    ensures tail == |q| <= count && forall k :: 0 <= k < tail ==> idxQ[k] == q[k]
    ensures forall k :: 0 <= k < count ==> !mapQ[k]
    ensures Propagating(list[..count], list[..count], q, 0)
  {
    var i := 0;
    tail, q := 0, [];
    while i < count
      invariant 0 <= tail <= i <= count && tail == |q|
      invariant forall k :: 0 <= k < i ==> !mapQ[k]
      invariant forall k :: 0 <= k < tail ==> idxQ[k] == q[k] < i
      invariant forall j, k :: 0 <= j < k < |q| ==> q[j] < q[k]
      invariant forall k :: 0 <= k < i ==> (Exclusive(list[k]) <==> k in q)
    {
      mapQ[i] := false;
      if Exclusive(list[i]) {
        idxQ[tail] := i;
        tail := tail + 1;
        q := q + [i];
      }
      i := i + 1;
    }
  }

  /** Unit propagation: every one-counter event claims its counter.
      On success `mapQ` marks exactly the one-counter events, `tail` counts
      them, and each of them is disjoint from every other event. */
  method Propagate(list: array<Event>, count: nat, mapQ: array<bool>)
    returns (ok: bool, tail: nat)
    requires count <= list.Length && mapQ.Length == count
    requires list as object != mapQ
    modifies list, mapQ
    ensures list[count..] == old(list[count..])
    ensures Narrows(list[..count], old(list[..count]))
    ensures SameAssignments(old(list[..count]), list[..count])
    ensures !ok ==> !Allocatable(old(list[..count]))
    ensures ok ==> Settled(list[..count], mapQ[..])
    ensures ok ==> (tail == count <==> forall i :: 0 <= i < count ==> mapQ[i])
  {
    var idxQ := new nat[count];
    ghost var orig, q := list[..count], [];
    tail, q := BuildQueue(list, count, idxQ, mapQ);
    var head := 0;
    ok := true;
    while head < tail
      invariant 0 <= head <= tail == |q| <= count
      invariant list[count..] == old(list[count..])
      invariant forall k :: 0 <= k < tail ==> idxQ[k] == q[k]
      invariant Propagating(orig, list[..count], q, head)
      invariant forall k :: 0 <= k < count ==> (mapQ[k] <==> k in q[..head])
      decreases count - head
    {
      ghost var q0 := q;
      ok, tail, q := ClaimCounter(list, count, idxQ, head, tail, orig, q);
      if !ok {
        return;
      }
      assert q[..head] == q[..head + 1][..head] == q0[..head + 1][..head] == q0[..head];
      assert q[..head + 1] == q[..head] + [q[head]];
      mapQ[idxQ[head]] := true;
      head := head + 1;
    }
    assert q[..head] == q;
    QueueFull(q, count);
    PropagatedIsSettled(orig, list[..count], q, mapQ[..]);
  }

  /** The outcome of propagation: mapped events are the one-counter events, and
      nobody else can use their counters. */
  ghost predicate Settled(evs: seq<Event>, mapped: seq<bool>) {
    && |mapped| == |evs|
    && (forall i :: 0 <= i < |evs| ==> (mapped[i] <==> Exclusive(evs[i])))
    && (forall i, j :: 0 <= i < |evs| && 0 <= j < |evs| && i != j && mapped[i] ==> evs[i] !! evs[j])
  }

  lemma PropagatedIsSettled(orig: seq<Event>, evs: seq<Event>, q: seq<nat>, mapped: seq<bool>)
    requires Propagating(orig, evs, q, |q|) && |mapped| == |evs|
    requires forall k :: 0 <= k < |evs| ==> (mapped[k] <==> k in q)
    ensures Settled(evs, mapped)
  {
    forall i, j | 0 <= i < |evs| && 0 <= j < |evs| && i != j && mapped[i]
      ensures evs[i] !! evs[j]
    {
      var k :| 0 <= k < |q| && q[k] == i;
      assert evs[j] !! evs[q[k]];
    }
  }

  /** Every event of b is a part of the same event of a. */
  ghost predicate Narrows(b: seq<Event>, a: seq<Event>) {
    |b| == |a| && forall i :: 0 <= i < |a| ==> b[i] <= a[i]
  }

  /** All counters are below the number of counters. */
  ghost predicate InRange(evs: seq<Event>, numCntrs: nat) {
    forall i, c :: 0 <= i < |evs| && c in evs[i] ==> c < numCntrs
  }

  /** `done` puts the solved events t back in the places of the unmapped ones. */
  ghost predicate Merges(done: seq<Event>, settled: seq<Event>, mapped: seq<bool>, t: seq<Event>, n: nat)
    requires n <= |mapped| == |settled| == |done| && |Unmapped(mapped, n)| <= |t|
  {
    && (forall k :: 0 <= k < |Unmapped(mapped, n)| ==> done[Unmapped(mapped, n)[k]] == t[k])
    && (forall i :: 0 <= i < |done| && (mapped[i] || n <= i) ==> done[i] == settled[i])
  }

  lemma MergeIsAllocation(orig: seq<Event>, done: seq<Event>, settled: seq<Event>, mapped: seq<bool>, t: seq<Event>)
    requires |done| == |settled| && Settled(settled, mapped) && Narrows(settled, orig)
    requires var u := Unmapped(mapped, |settled|);
      |u| <= |t| && DisjointSingletons(t[..|u|]) && Narrows(t[..|u|], Rest(settled, mapped, |settled|))
    requires Merges(done, settled, mapped, t, |settled|)
    ensures DisjointSingletons(done) && Narrows(done, orig) && Allocatable(orig)
  {
    var u := Unmapped(mapped, |settled|);
    forall i | 0 <= i < |done| && !mapped[i]
      ensures done[i] <= settled[i]
      ensures exists k :: 0 <= k < |u| && u[k] == i && done[i] == t[..|u|][k]
    {
      UnmappedComplete(mapped, |settled|, i);
      var k :| 0 <= k < |u| && u[k] == i;
      RestAt(settled, mapped, |settled|, k);
      assert t[..|u|][k] <= Rest(settled, mapped, |settled|)[k] == settled[i];
    }
    MergedDisjoint(done, settled, mapped, u, t[..|u|]);
    SingletonsAllocate(done, orig);
  }

  lemma MergedDisjoint(done: seq<Event>, settled: seq<Event>, mapped: seq<bool>, u: seq<nat>, t: seq<Event>)
    requires |done| == |settled| && Settled(settled, mapped)
    requires |u| == |t| && DisjointSingletons(t)
    requires forall i :: 0 <= i < |done| ==> done[i] <= settled[i]
    requires forall i :: 0 <= i < |done| && mapped[i] ==> done[i] == settled[i]
    requires forall i :: 0 <= i < |done| && !mapped[i] ==> exists k :: 0 <= k < |u| && u[k] == i && done[i] == t[k]
    ensures DisjointSingletons(done)
  {
    forall i, j | 0 <= i < j < |done|
      ensures done[i] !! done[j]
    {
      if !mapped[i] && !mapped[j] {
        var k :| 0 <= k < |u| && u[k] == i && done[i] == t[k];
        var l :| 0 <= l < |u| && u[l] == j && done[j] == t[l];
        assert t[k] !! t[l];
      }
    }
  }

  /** A failed trial of counter c: no assignment puts the first event there. */
  lemma TrialRefutes(rest: seq<Event>, c: nat)
    requires |rest| > 0 && !Allocatable(Choose(rest, c))
    ensures forall f :: Assigns(rest, f) ==> f[0] != c
  {
    forall f | Assigns(rest, f)
      ensures f[0] != c
    {
      AssignmentSurvivesChoice(rest, f);
    }
  }

  lemma UnsolvedRest(orig: seq<Event>, settled: seq<Event>, mapped: seq<bool>)
    requires |orig| == |settled| == |mapped| && SameAssignments(orig, settled)
    requires !Allocatable(Rest(settled, mapped, |settled|))
    ensures !Allocatable(orig)
  {
    if f :| Assigns(orig, f) {
      assert Assigns(settled, f);
      RestOfAssignment(settled, mapped, f);
    }
  }

  /** What the recursion works on: a nonempty part of the list, of no larger
      total rank, whose first event still has a choice (or none at all). */
  lemma RemainderIsSmaller(orig: seq<Event>, settled: seq<Event>, mapped: seq<bool>, numCntrs: nat)
    requires Narrows(settled, orig) && Settled(settled, mapped) && InRange(orig, numCntrs)
    requires exists i :: 0 <= i < |mapped| && !mapped[i]
    ensures var rest := Rest(settled, mapped, |settled|);
      && 0 < |rest| <= |settled|
      && Rank(rest, |rest|) <= Rank(orig, |orig|)
      && !Exclusive(rest[0])
      && InRange(rest, numCntrs)
  {
    var i :| 0 <= i < |mapped| && !mapped[i];
    UnmappedComplete(mapped, |settled|, i);
    forall k | 0 <= k < |Unmapped(mapped, |settled|)|
      ensures Rest(settled, mapped, |settled|)[k] == settled[Unmapped(mapped, |settled|)[k]]
    {
      RestAt(settled, mapped, |settled|, k);
    }
    RestRank(settled, mapped, |settled|);
    RankMonotone(settled, orig, |orig|);
  }

  /** Copies the unmapped events, in order, to a list and to its backup. */
  method CopyUnmapped(list: array<Event>, count: nat, mapQ: array<bool>, numCntrs: nat)
    returns (rest: array<Event>, copy: array<Event>, j: nat)
    requires count <= list.Length && mapQ.Length == count <= numCntrs
    ensures fresh(rest) && fresh(copy) && rest != copy && j <= rest.Length == copy.Length == numCntrs
    ensures rest[..j] == copy[..j] == Rest(list[..count], mapQ[..], count)
  {
    ghost var settled, mapped := list[..count], mapQ[..];
    rest := new Event[numCntrs];
    copy := new Event[numCntrs];
    ghost var r: seq<Event> := [];
    var i := 0;
    j := 0;
    while i < count
      invariant 0 <= j == |r| <= i <= count
      invariant r == Rest(settled, mapped, i)
      invariant forall k :: 0 <= k < j ==> copy[k] == r[k]
    {
      if !mapQ[i] {
        copy[j] := list[i];
        j := j + 1;
      }
      r := r + if mapped[i] then [] else [settled[i]];
      i := i + 1;
    }
    assert copy[..j] == r;
    CopyEvents(rest, copy, j);
  }

  /** The memcpy between the working list and its backup. */
  method CopyEvents(dst: array<Event>, src: array<Event>, n: nat)
    requires dst != src && n <= dst.Length && n <= src.Length
    modifies dst
    ensures dst[..n] == src[..n]
  {
    forall k | 0 <= k < n {
      dst[k] := src[k];
    }
  }

  /** Fixes the first event on counter c and takes c from all the others. */
  method ChooseCounter(rest: array<Event>, remainder: nat, c: nat)
    requires 0 < remainder <= rest.Length
    modifies rest
    ensures rest[..remainder] == Choose(old(rest[..remainder]), c)
  {
    rest[0] := {c};
    var j := 1;
    while j < remainder
      invariant 1 <= j <= remainder
      invariant rest[0] == {c}
      invariant forall k :: 1 <= k < j ==> rest[k] == old(rest[k]) - {c}
      invariant forall k :: j <= k < remainder ==> rest[k] == old(rest[k])
    {
      if Shared(rest[j], rest[0]) {
        rest[j] := Preempt(rest[j], rest[0]);
      }
      j := j + 1;
    }
  }

  /** Tries every counter for the first unmapped event, restoring the list from
      its backup after each failure. */
  method TryCounters(rest: array<Event>, copy: array<Event>, remainder: nat, numCntrs: nat)
    returns (ok: bool)
    requires rest != copy && 0 < remainder <= numCntrs == rest.Length == copy.Length
    requires rest[..remainder] == copy[..remainder] && InRange(copy[..remainder], numCntrs)
    requires !Exclusive(rest[0])
    modifies rest
    ensures ok ==> DisjointSingletons(rest[..remainder]) && Narrows(rest[..remainder], copy[..remainder])
    ensures !ok ==> !Allocatable(copy[..remainder])
    decreases Rank(copy[..remainder], remainder), 0
  {
    ghost var backup := copy[..remainder];
    var i := 0;
    while i < numCntrs
      invariant 0 <= i <= numCntrs
      invariant rest[..remainder] == copy[..remainder] == backup
      invariant forall f :: Assigns(backup, f) ==> f[0] >= i
    {
      if Avail(rest[0], i) {
        ChooseCounter(rest, remainder, i);
        assert Exclusive({i});
        RankDrops(Choose(backup, i), backup, remainder, 0);
        ok := BipartiteAlloc(rest, remainder, numCntrs);
        if ok {
          return;
        }
        TrialRefutes(backup, i);
        CopyEvents(rest, copy, remainder);
      }
      i := i + 1;
    }
    ok := false;
  }

  /** Puts the solved events back in the places of the unmapped ones. */
  method WriteBack(list: array<Event>, count: nat, mapQ: array<bool>, rest: array<Event>)
    requires count <= list.Length && mapQ.Length == count && rest != list
    requires |Unmapped(mapQ[..], count)| <= rest.Length
    modifies list
    ensures list[count..] == old(list[count..])
    ensures Merges(list[..count], old(list[..count]), mapQ[..], rest[..], count)
  {
    var i, j := 0, 0;
    ghost var mapped := mapQ[..];
    while i < count
      invariant 0 <= i <= count && j == |Unmapped(mapped, i)|
      invariant list[count..] == old(list[count..])
      invariant |Unmapped(mapped, i)| <= rest.Length
      invariant Merges(list[..count], old(list[..count]), mapped, rest[..], i)
    {
      if !mapQ[i] {
        UnmappedGrows(mapped, i + 1, count);
        list[i] := rest[j];
        j := j + 1;
      }
      i := i + 1;
    }
  }

  lemma {:induction false} UnmappedGrows(mapped: seq<bool>, m: nat, n: nat)
    requires m <= n <= |mapped|
    ensures |Unmapped(mapped, m)| <= |Unmapped(mapped, n)|
    decreases n
  {
    if m < n {
      UnmappedGrows(mapped, m, n - 1);
    }
  }

  /** _papi_bipartite_alloc: a complete decision procedure.  It succeeds exactly
      when the events can be given counters of their own; then every event is
      left on a single counter of its original ones, no two on the same. */
  method BipartiteAlloc(list: array<Event>, count: nat, numCntrs: nat) returns (ok: bool)
    requires count <= list.Length && count <= numCntrs
    requires InRange(list[..count], numCntrs)
    modifies list
    ensures list[count..] == old(list[count..])
    ensures ok <==> Allocatable(old(list[..count]))
    ensures Narrows(list[..count], old(list[..count]))
    ensures ok ==> DisjointSingletons(list[..count])
    decreases Rank(list[..count], count), 2
  {
    ghost var orig := list[..count];
    var mapQ := new bool[count];
    var tail;
    ok, tail := Propagate(list, count, mapQ);
    ghost var settled, mapped := list[..count], mapQ[..];
    if !ok {
      return;
    }
    if tail == count {
      SingletonsAllocate(settled, orig);
      return true;
    }
    assert exists i :: 0 <= i < |mapped| && !mapped[i];
    ok := SolveRest(list, count, mapQ, numCntrs, orig);
    if !ok {
      UnsolvedRest(orig, settled, mapped);
    }
  }

  /** The recursive half: solve the unmapped events on a copy and, if that works,
      write the result back. */
  method SolveRest(list: array<Event>, count: nat, mapQ: array<bool>, numCntrs: nat, ghost orig: seq<Event>)
    returns (ok: bool)
    requires count <= list.Length && mapQ.Length == count <= numCntrs
    requires Settled(list[..count], mapQ[..]) && Narrows(list[..count], orig) && InRange(orig, numCntrs)
    requires exists i :: 0 <= i < |mapQ[..]| && !mapQ[..][i]
    modifies list
    ensures list[count..] == old(list[count..])
    ensures !ok ==> list[..] == old(list[..])
    ensures !ok ==> !Allocatable(Rest(list[..count], mapQ[..], count))
    ensures ok ==> Allocatable(orig) && Narrows(list[..count], orig) && DisjointSingletons(list[..count])
    decreases Rank(orig, |orig|), 1
  {
    ghost var settled, mapped := list[..count], mapQ[..];
    RemainderIsSmaller(orig, settled, mapped, numCntrs);
    var rest, copy, remainder := CopyUnmapped(list, count, mapQ, numCntrs);
    assert rest[0] == rest[..remainder][0];
    ok := TryCounters(rest, copy, remainder, numCntrs);
    if ok {
      WriteBack(list, count, mapQ, rest);
      MergeIsAllocation(orig, list[..count], settled, mapped, rest[..]);
    }
  }
}
