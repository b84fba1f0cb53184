/** Software overflow: the dispatcher of src/extras.c and the decoder of its vector,
    PAPI_get_overflow_event_index of src/papi.c. */
module Dispatch {
  import opened Codes
  import opened EventSets
  import opened Sets
  import opened Words

  // ------------------------------------------------------------- one interrupt

  /** Entry i has reached its deadline in the counts just read. */
  predicate Fired(t: seq<Entry>, counts: seq<int>, i: nat)
    requires i < |t| && 0 <= t[i].index < |counts|
  {
    counts[t[i].index] >= t[i].deadline
  }

  /** One of the first n entries has. */
  predicate AnyFired(t: seq<Entry>, counts: seq<int>, n: nat)
    requires n <= |t| && forall i :: 0 <= i < |t| ==> 0 <= t[i].index < |counts|
  {
    n > 0 && (AnyFired(t, counts, n - 1) || Fired(t, counts, n - 1))
  }

  lemma {:induction false} AnyFiredMeans(t: seq<Entry>, counts: seq<int>, n: nat)
    requires n <= |t| && forall i :: 0 <= i < |t| ==> 0 <= t[i].index < |counts|
    ensures AnyFired(t, counts, n) <==> exists i :: 0 <= i < n && Fired(t, counts, i)
  {
    if n > 0 {
      AnyFiredMeans(t, counts, n - 1);
    }
  }

  /** Something fires exactly if some count has reached its deadline. */
  lemma SomeReached(t: seq<Entry>, counts: seq<int>)
    requires forall i :: 0 <= i < |t| ==> 0 <= t[i].index < |counts|
    ensures AnyFired(t, counts, |t|) <==> exists i :: 0 <= i < |t| && counts[t[i].index] >= t[i].deadline
  {
    AnyFiredMeans(t, counts, |t|);
    assert forall i :: 0 <= i < |t| ==> (Fired(t, counts, i) <==> counts[t[i].index] >= t[i].deadline);
  }

  /** Every entry's event exists and has a first counter position that a 64-bit
      vector can hold. */
  ghost predicate Wired(t: seq<Entry>, events: seq<EventInfo>) {
    && Scans(events)
    && forall i :: 0 <= i < |t| ==> 0 <= t[i].index < |events| && 0 <= events[t[i].index].pos[0] < 64
  }

  /** ... and has been counted. */
  ghost predicate Dispatchable(t: seq<Entry>, events: seq<EventInfo>, counts: seq<int>) {
    Wired(t, events) && |counts| == |events|
  }

  function PosOf(t: seq<Entry>, events: seq<EventInfo>, i: nat): (p: int)
    requires i < |t| && 0 <= t[i].index < |events| && Scans(events)
  {
    events[t[i].index].pos[0]
  }

  /** The vector after the first n entries: each that fired toggles its bit. */
  ghost function Vector(t: seq<Entry>, events: seq<EventInfo>, counts: seq<int>, n: nat): Word
    requires n <= |t| && Dispatchable(t, events, counts)
  {
    if n == 0 then {}
    else
      var v := Vector(t, events, counts, n - 1);
      if Fired(t, counts, n - 1) then Xor(v, Bit(PosOf(t, events, n - 1))) else v
  }

  /** How far an entry that fired is past its deadline, -1 for the others. */
  function Overshoot(t: seq<Entry>, counts: seq<int>, i: nat): int
    requires i < |t| && 0 <= t[i].index < |counts|
  {
    if Fired(t, counts, i) then counts[t[i].index] - t[i].deadline else -1
  }

  function Overshoots(t: seq<Entry>, counts: seq<int>): (o: seq<int>)
    requires forall i :: 0 <= i < |t| ==> 0 <= t[i].index < |counts|
    ensures |o| == |t| && forall i :: 0 <= i < |t| ==> o[i] == Overshoot(t, counts, i)
  {
    seq(|t|, i requires 0 <= i < |t| => Overshoot(t, counts, i))
  }

  /** An entry that fired gets the deadline latest + threshold. */
  function Rearmed(e: Entry, counts: seq<int>): Entry
    requires 0 <= e.index < |counts|
  {
    if counts[e.index] >= e.deadline then e.(deadline := counts[e.index] + e.threshold) else e
  }

  lemma FirstPosReached(e: EventInfo)
    requires |e.pos| == PAPI_EVENTS_IN_DERIVED_EVENT
    ensures ReachesPos(e.pos, e.pos[0], 0)
  {
  }

  /** How many of the first n entries fired and have b as first position. */
  ghost function FiredOn(t: seq<Entry>, events: seq<EventInfo>, counts: seq<int>, n: nat, b: nat): (f: nat)
    requires n <= |t| && Dispatchable(t, events, counts)
    ensures f > 0 <==> exists i :: 0 <= i < n && Fired(t, counts, i) && PosOf(t, events, i) == b
  {
    if n == 0 then 0
    else
      FiredOn(t, events, counts, n - 1, b)
      + if Fired(t, counts, n - 1) && PosOf(t, events, n - 1) == b then 1 else 0
  }

  /** Whatever the table, a bit is set exactly if an odd number of entries on it fired. */
  lemma {:induction false} VectorParity(t: seq<Entry>, events: seq<EventInfo>, counts: seq<int>, n: nat, b: nat)
    requires n <= |t| && Dispatchable(t, events, counts)
    ensures b in Vector(t, events, counts, n) <==> FiredOn(t, events, counts, n, b) % 2 == 1
  {
    if n > 0 {
      VectorParity(t, events, counts, n - 1, b);
    }
  }

  ghost predicate FirstPositionsDistinct(t: seq<Entry>, events: seq<EventInfo>)
    requires Wired(t, events)
  {
    forall i, j :: 0 <= i < j < |t| ==> PosOf(t, events, i) != PosOf(t, events, j)
  }

  /** With distinct first positions, a bit is set exactly if the entry it belongs to
      fired. */
  lemma {:induction false} VectorBits(t: seq<Entry>, events: seq<EventInfo>, counts: seq<int>, n: nat, b: nat)
    requires n <= |t| && Dispatchable(t, events, counts) && FirstPositionsDistinct(t, events)
    ensures FiredOn(t, events, counts, n, b) <= 1
    ensures b in Vector(t, events, counts, n)
      <==> exists i :: 0 <= i < n && Fired(t, counts, i) && PosOf(t, events, i) == b
  {
    VectorParity(t, events, counts, n, b);
    if n > 0 {
      VectorBits(t, events, counts, n - 1, b);
    }
  }

  ghost predicate IndicesDistinct(t: seq<Entry>) {
    forall i, j :: 0 <= i < j < |t| ==> t[i].index != t[j].index
  }

  /** The tables PAPI_overflow keeps have distinct indices. */
  lemma AlignedIndices(t: seq<Entry>, events: seq<EventInfo>)
    requires Aligned(t, events)
    ensures IndicesDistinct(t)
  {
  }

  /** The entry of an event, |t| if it has none. */
  ghost function EntryOf(t: seq<Entry>, x: int): (i: nat)
    ensures i <= |t| && (i < |t| ==> t[i].index == x)
    ensures forall k :: 0 <= k < i ==> t[k].index != x
  {
    if t == [] then 0
    else
      var i := EntryOf(t[..|t| - 1], x);
      if i < |t| - 1 then i else if t[|t| - 1].index == x then |t| - 1 else |t|
  }

  /** Counts at which exactly the entries of `on` fire. */
  ghost function CountsFor(t: seq<Entry>, events: seq<EventInfo>, on: set<nat>): (counts: seq<int>)
    requires Wired(t, events) && IndicesDistinct(t)
    ensures |counts| == |events|
    ensures forall i :: 0 <= i < |t| ==> (Fired(t, counts, i) <==> i in on)
  {
    var counts := seq(|events|, x requires 0 <= x < |events| => CountFor(t, x, on));
    assert forall i :: 0 <= i < |t| ==> EntryOf(t, t[i].index) == i && counts[t[i].index] == CountFor(t, t[i].index, on);
    counts
  }

  ghost function CountFor(t: seq<Entry>, x: int, on: set<nat>): int {
    var i := EntryOf(t, x);
    if i == |t| then 0 else if i in on then t[i].deadline else t[i].deadline - 1
  }

  lemma {:induction false} FiredOnPair(t: seq<Entry>, events: seq<EventInfo>, counts: seq<int>, i: nat, j: nat, n: nat, b: nat)
    requires Dispatchable(t, events, counts) && i < j < |t| && n <= |t|
    requires forall k :: 0 <= k < |t| ==> (Fired(t, counts, k) <==> k == i || k == j)
    ensures FiredOn(t, events, counts, n, b)
         == (if i < n && PosOf(t, events, i) == b then 1 else 0) + (if j < n && PosOf(t, events, j) == b then 1 else 0)
  {
    if n > 0 {
      FiredOnPair(t, events, counts, i, j, n - 1, b);
    }
  }

  /** Any two entries on the same first position cancel each other out: when exactly
      these two fire, the vector is empty. */
  lemma SharedPositionCancels(t: seq<Entry>, events: seq<EventInfo>, i: nat, j: nat) returns (counts: seq<int>)
    requires Wired(t, events) && IndicesDistinct(t)
    requires i < j < |t| && PosOf(t, events, i) == PosOf(t, events, j)
    ensures Dispatchable(t, events, counts)
    ensures forall k :: 0 <= k < |t| ==> (Fired(t, counts, k) <==> k == i || k == j)
    ensures Vector(t, events, counts, |t|) == {}
  {
    counts := CountsFor(t, events, {i, j});
    PairCancels(t, events, counts, i, j);
  }

  lemma PairCancels(t: seq<Entry>, events: seq<EventInfo>, counts: seq<int>, i: nat, j: nat)
    requires Dispatchable(t, events, counts) && i < j < |t| && PosOf(t, events, i) == PosOf(t, events, j)
    requires forall k :: 0 <= k < |t| ==> (Fired(t, counts, k) <==> k == i || k == j)
    ensures Vector(t, events, counts, |t|) == {}
  {
    forall b: nat ensures b !in Vector(t, events, counts, |t|) {
      FiredOnPair(t, events, counts, i, j, |t|, b);
      VectorParity(t, events, counts, |t|, b);
    }
  }

  /** The vector has exactly the first positions of the entries that fired. */
  ghost predicate MarksTheFired(t: seq<Entry>, events: seq<EventInfo>, counts: seq<int>)
    requires Dispatchable(t, events, counts)
  {
    forall b: nat :: b in Vector(t, events, counts, |t|)
      <==> exists i :: 0 <= i < |t| && Fired(t, counts, i) && PosOf(t, events, i) == b
  }

  /** The vector is right for all counts exactly if no two entries share their first
      position. */
  lemma VectorIsExact(t: seq<Entry>, events: seq<EventInfo>)
    requires Wired(t, events) && IndicesDistinct(t)
    ensures (forall counts: seq<int> :: |counts| == |events| ==> MarksTheFired(t, events, counts))
       <==> FirstPositionsDistinct(t, events)
  {
    if FirstPositionsDistinct(t, events) {
      forall counts: seq<int> | |counts| == |events| ensures MarksTheFired(t, events, counts) {
        forall b: nat
          ensures b in Vector(t, events, counts, |t|)
            <==> exists i :: 0 <= i < |t| && Fired(t, counts, i) && PosOf(t, events, i) == b
        {
          VectorBits(t, events, counts, |t|, b);
        }
      }
    } else {
      var i, j :| 0 <= i < j < |t| && PosOf(t, events, i) == PosOf(t, events, j);
      var counts := SharedPositionCancels(t, events, i, j);
      var b: nat := PosOf(t, events, i);
      assert Fired(t, counts, i) && b !in Vector(t, events, counts, |t|);
      assert !MarksTheFired(t, events, counts);
    }
  }

  // ------------------------------------------------------------ the profiling loop

  /** The first entry whose scan of positions meets bit b, |t| if there is none. */
  function Owner(t: seq<Entry>, events: seq<EventInfo>, b: int, from: nat): (j: nat)
    requires from <= |t| && Scans(events) && forall i :: 0 <= i < |t| ==> 0 <= t[i].index < |events|
    ensures from <= j <= |t|
    ensures j < |t| ==> Meets(t, events, j, b)
    ensures forall k :: from <= k < j ==> !Meets(t, events, k, b)
    decreases |t| - from
  {
    if from == |t| then |t|
    else if Meets(t, events, from, b) then from
    else Owner(t, events, b, from + 1)
  }

  /** The scan of entry i's positions meets bit b. */
  predicate Meets(t: seq<Entry>, events: seq<EventInfo>, i: nat, b: int)
    requires i < |t| && 0 <= t[i].index < |events| && Scans(events)
  {
    ReachesPos(events[t[i].index].pos, b, 0)
  }

  /** The owner of a bit is the first entry whose event has it among the positions that no
      negative one precedes. */
  lemma OwnerReaches(t: seq<Entry>, events: seq<EventInfo>, b: int)
    requires Scans(events) && forall i :: 0 <= i < |t| ==> 0 <= t[i].index < |events|
    ensures var j := Owner(t, events, b, 0);
      && (j < |t| ==>
            var pos := events[t[j].index].pos;
            exists n :: 0 <= n < |pos| && pos[n] == b && forall m :: 0 <= m < n ==> pos[m] >= 0)
      && forall i :: 0 <= i < j ==>
           var pos := events[t[i].index].pos;
           !exists n :: 0 <= n < |pos| && pos[n] == b && forall m :: 0 <= m < n ==> pos[m] >= 0
  {
    var j := Owner(t, events, b, 0);
    if j < |t| {
      ScanReaches(events[t[j].index].pos, b, 0);
    }
    forall i | 0 <= i < j
      ensures var pos := events[t[i].index].pos;
        !exists n :: 0 <= n < |pos| && pos[n] == b && forall m :: 0 <= m < n ==> pos[m] >= 0
    {
      assert !Meets(t, events, i, b);
      ScanReaches(events[t[i].index].pos, b, 0);
    }
  }

  /** The owner of each bit. */
  ghost function Owners(t: seq<Entry>, events: seq<EventInfo>): (o: seq<nat>)
    requires Scans(events) && forall i :: 0 <= i < |t| ==> 0 <= t[i].index < |events|
    ensures |o| == 64
  {
    seq(64, b requires 0 <= b < 64 => Owner(t, events, b, 0))
  }

  /** What the loop dispatches, lowest bit first: the owner of each bit with its
      overshoot; it ends early at a bit nobody owns. */
  ghost function Profiled(owners: seq<nat>, over: seq<int>, v: Word): seq<(nat, int)>
    requires |owners| == 64
    decreases |v|
  {
    if v == {} then []
    else
      var b := Ffs(v) - 1;
      var j := owners[b];
      if j >= |over| then [] else [(j, over[j])] + Profiled(owners, over, v - {b})
  }

  /** The bits of a word, lowest first. */
  ghost function BitsOf(v: Word): seq<nat>
    decreases |v|
  {
    if v == {} then [] else [Ffs(v) - 1] + BitsOf(v - {Ffs(v) - 1})
  }

  lemma {:induction false} BitsMembers(v: Word, b: nat)
    ensures b in BitsOf(v) <==> b in v
    decreases |v|
  {
    if v != {} {
      BitsMembers(v - {Ffs(v) - 1}, b);
    }
  }

  lemma HigherBit(v: Word, b: nat, c: nat)
    requires b in v && (forall c :: c in v ==> b <= c) && c in BitsOf(v - {b})
    ensures b < c
  {
    BitsMembers(v - {b}, c);
  }

  lemma {:induction false} BitsAscend(v: Word, i: nat, j: nat)
    requires i < j < |BitsOf(v)|
    ensures BitsOf(v)[i] < BitsOf(v)[j]
    decreases |v|
  {
    var b := Ffs(v) - 1;
    var rest := BitsOf(v - {b});
    assert BitsOf(v) == [b] + rest;
    if i > 0 {
      BitsAscend(v - {b}, i - 1, j - 1);
    } else {
      HigherBit(v, b, rest[j - 1]);
    }
  }

  /** p is what the loop dispatches along these bits: the owner of each with its overshoot,
      up to the first bit that nobody owns. */
  ghost predicate Along(p: seq<(nat, int)>, bits: seq<nat>, owners: seq<nat>, over: seq<int>) {
    && |owners| == 64 && (forall k :: 0 <= k < |bits| ==> bits[k] < 64)
    && |p| <= |bits| && (|p| < |bits| ==> owners[bits[|p|]] >= |over|)
    && forall k :: 0 <= k < |p| ==> owners[bits[k]] < |over| && p[k] == (owners[bits[k]], over[owners[bits[k]]])
  }

  lemma AlongMore(p: seq<(nat, int)>, bits: seq<nat>, owners: seq<nat>, over: seq<int>, b: nat)
    requires Along(p, bits, owners, over) && b < 64 && owners[b] < |over|
    ensures Along([(owners[b], over[owners[b]])] + p, [b] + bits, owners, over)
  {
  }

  /** Profiling goes through the bits in ascending order. */
  lemma {:induction false} ProfiledInOrder(owners: seq<nat>, over: seq<int>, v: Word)
    requires |owners| == 64
    ensures Along(Profiled(owners, over, v), BitsOf(v), owners, over)
    decreases |v|
  {
    if v != {} {
      var b := Ffs(v) - 1;
      ProfiledInOrder(owners, over, v - {b});
      if owners[b] < |over| {
        AlongMore(Profiled(owners, over, v - {b}), BitsOf(v - {b}), owners, over, b);
      }
    }
  }

  /** Entry j is dispatched exactly if it owns a bit of the vector, and then with its
      own overshoot; the vector is used up, one entry for each bit. */
  lemma {:induction false} ProfiledOwners(owners: seq<nat>, over: seq<int>, v: Word)
    requires |owners| == 64 && forall b :: b in v ==> owners[b] < |over|
    ensures |Profiled(owners, over, v)| == |v|
    ensures forall j: nat, x ::
      (j, x) in Profiled(owners, over, v) <==> j < |over| && x == over[j] && exists b :: b in v && owners[b] == j
    decreases |v|
  {
    if v != {} {
      var b := Ffs(v) - 1;
      ProfiledOwners(owners, over, v - {b});
      var rest := Profiled(owners, over, v - {b});
      forall j: nat, x
        ensures (j, x) in Profiled(owners, over, v)
          <==> j < |over| && x == over[j] && exists c :: c in v && owners[c] == j
      {
        assert (j, x) in Profiled(owners, over, v) <==> (j, x) == (owners[b], over[owners[b]]) || (j, x) in rest;
      }
    }
  }

  /** Every bit of the vector belongs to an entry that fired, and so has an owner. */
  lemma BitIsOwned(t: seq<Entry>, events: seq<EventInfo>, counts: seq<int>, b: nat) returns (i: nat)
    requires Dispatchable(t, events, counts) && b in Vector(t, events, counts, |t|)
    ensures i < |t| && Fired(t, counts, i) && PosOf(t, events, i) == b && Owner(t, events, b, 0) <= i
  {
    VectorParity(t, events, counts, |t|, b);
    i :| 0 <= i < |t| && Fired(t, counts, i) && PosOf(t, events, i) == b;
    FirstPosReached(events[t[i].index]);
    assert Meets(t, events, i, b);
  }

  /** No entry reaches the first position of a later one. */
  ghost predicate OwnersApart(t: seq<Entry>, events: seq<EventInfo>)
    requires Wired(t, events)
  {
    forall i, j :: 0 <= j < i < |t| ==> !Meets(t, events, j, PosOf(t, events, i))
  }

  lemma ApartAreDistinct(t: seq<Entry>, events: seq<EventInfo>)
    requires Wired(t, events) && OwnersApart(t, events)
    ensures FirstPositionsDistinct(t, events)
    ensures forall i :: 0 <= i < |t| ==> Owner(t, events, PosOf(t, events, i), 0) == i
  {
    forall i, j | 0 <= i < j < |t| ensures PosOf(t, events, i) != PosOf(t, events, j) {
      FirstPosReached(events[t[i].index]);
      assert !Meets(t, events, i, PosOf(t, events, j));
    }
    forall i | 0 <= i < |t| ensures Owner(t, events, PosOf(t, events, i), 0) == i {
      FirstPosReached(events[t[i].index]);
      assert Meets(t, events, i, PosOf(t, events, i));
    }
  }

  /** What profiling dispatches at these counts. */
  ghost function ProfiledAt(t: seq<Entry>, events: seq<EventInfo>, counts: seq<int>): seq<(nat, int)>
    requires Dispatchable(t, events, counts)
  {
    Profiled(Owners(t, events), Overshoots(t, counts), Vector(t, events, counts, |t|))
  }

  /** Profiling dispatches exactly the entries that fired, each once and with its own
      overshoot. */
  ghost predicate ProfilesExactly(t: seq<Entry>, events: seq<EventInfo>, counts: seq<int>)
    requires Dispatchable(t, events, counts)
  {
    && NoRepeats(ProfiledAt(t, events, counts))
    && forall j: nat, x :: (j, x) in ProfiledAt(t, events, counts)
         <==> j < |t| && Fired(t, counts, j) && x == counts[t[j].index] - t[j].deadline
  }

  /** So it does if no entry reaches the first position of a later one, and it
      dispatches as many entries as there are bits. */
  lemma {:induction false} ProfilesTheFired(t: seq<Entry>, events: seq<EventInfo>, counts: seq<int>)
    requires Dispatchable(t, events, counts) && OwnersApart(t, events)
    ensures |ProfiledAt(t, events, counts)| == |Vector(t, events, counts, |t|)|
    ensures ProfilesExactly(t, events, counts)
  {
    var v, owners, over := Vector(t, events, counts, |t|), Owners(t, events), Overshoots(t, counts);
    var fired := FiredFlags(t, counts);
    forall b | b in v ensures owners[b] < |t| && fired[owners[b]] {
      FiredOwner(t, events, counts, b);
    }
    forall j | 0 <= j < |t| && fired[j] ensures exists b :: b in v && owners[b] == j {
      OwnerInVector(t, events, counts, j);
    }
    ProfiledFired(owners, over, v, fired);
    forall b, c | b in v && c in v && b != c ensures owners[b] != owners[c] {
      FiredOwner(t, events, counts, b);
      FiredOwner(t, events, counts, c);
    }
    ProfiledOnce(owners, over, v);
  }

  /** Bits of different owners: nobody is dispatched twice. */
  lemma {:induction false} ProfiledOnce(owners: seq<nat>, over: seq<int>, v: Word)
    requires |owners| == 64 && forall b :: b in v ==> owners[b] < |over|
    requires forall b, c :: b in v && c in v && b != c ==> owners[b] != owners[c]
    ensures NoRepeats(Profiled(owners, over, v))
    decreases |v|
  {
    if v != {} {
      var b := Ffs(v) - 1;
      var rest := Profiled(owners, over, v - {b});
      ProfiledOnce(owners, over, v - {b});
      NotProfiled(owners, over, v - {b}, owners[b], over[owners[b]]);
      NoRepeatsAppend([(owners[b], over[owners[b]])], rest);
    }
  }

  lemma {:induction false} NotProfiled(owners: seq<nat>, over: seq<int>, v: Word, j: nat, x: int)
    requires |owners| == 64 && forall c :: c in v ==> owners[c] != j
    ensures (j, x) !in Profiled(owners, over, v)
    decreases |v|
  {
    if v != {} {
      NotProfiled(owners, over, v - {Ffs(v) - 1}, j, x);
    }
  }

  ghost function FiredFlags(t: seq<Entry>, counts: seq<int>): (f: seq<bool>)
    requires forall i :: 0 <= i < |t| ==> 0 <= t[i].index < |counts|
    ensures |f| == |t| && forall i :: 0 <= i < |t| ==> (f[i] <==> Fired(t, counts, i))
  {
    seq(|t|, i requires 0 <= i < |t| => Fired(t, counts, i))
  }

  lemma OwnerInVector(t: seq<Entry>, events: seq<EventInfo>, counts: seq<int>, j: nat)
    requires Dispatchable(t, events, counts) && OwnersApart(t, events) && j < |t| && Fired(t, counts, j)
    ensures var b := PosOf(t, events, j); b in Vector(t, events, counts, |t|) && Owners(t, events)[b] == j
  {
    ApartAreDistinct(t, events);
    VectorBits(t, events, counts, |t|, PosOf(t, events, j));
  }

  lemma ProfiledFired(owners: seq<nat>, over: seq<int>, v: Word, fired: seq<bool>)
    requires |owners| == 64 && |over| == |fired|
    requires forall b :: b in v ==> owners[b] < |over| && fired[owners[b]]
    requires forall j :: 0 <= j < |fired| && fired[j] ==> exists b :: b in v && owners[b] == j
    ensures |Profiled(owners, over, v)| == |v|
    ensures forall j: nat, x :: (j, x) in Profiled(owners, over, v) <==> j < |over| && fired[j] && x == over[j]
  {
    ProfiledOwners(owners, over, v);
  }

  lemma FiredOwner(t: seq<Entry>, events: seq<EventInfo>, counts: seq<int>, b: nat)
    requires Dispatchable(t, events, counts) && OwnersApart(t, events) && b in Vector(t, events, counts, |t|)
    ensures var o := Owner(t, events, b, 0); o < |t| && Fired(t, counts, o) && PosOf(t, events, o) == b
  {
    ApartAreDistinct(t, events);
    var i := BitIsOwned(t, events, counts, b);
  }

  /** When one entry fires alone, its bit is the vector. */
  lemma SingleBit(t: seq<Entry>, events: seq<EventInfo>, counts: seq<int>, i: nat)
    requires Dispatchable(t, events, counts) && i < |t|
    requires forall k :: 0 <= k < |t| ==> (Fired(t, counts, k) <==> k == i)
    ensures Vector(t, events, counts, |t|) == {PosOf(t, events, i)}
  {
    forall b: nat ensures b in Vector(t, events, counts, |t|) <==> b == PosOf(t, events, i) {
      FiredOnSingle(t, events, counts, i, |t|, b);
      VectorParity(t, events, counts, |t|, b);
    }
  }

  lemma {:induction false} FiredOnSingle(t: seq<Entry>, events: seq<EventInfo>, counts: seq<int>, i: nat, n: nat, b: nat)
    requires Dispatchable(t, events, counts) && i < |t| && n <= |t|
    requires forall k :: 0 <= k < |t| ==> (Fired(t, counts, k) <==> k == i)
    ensures FiredOn(t, events, counts, n, b) == if i < n && PosOf(t, events, i) == b then 1 else 0
  {
    if n > 0 {
      FiredOnSingle(t, events, counts, i, n - 1, b);
    }
  }

  /** Profiling is right for all counts exactly if no entry reaches the first
      position of a later one. */
  lemma ProfilingIsExact(t: seq<Entry>, events: seq<EventInfo>)
    requires Wired(t, events) && IndicesDistinct(t)
    ensures (forall counts: seq<int> :: |counts| == |events| ==> ProfilesExactly(t, events, counts))
       <==> OwnersApart(t, events)
  {
    if OwnersApart(t, events) {
      forall counts: seq<int> | |counts| == |events| ensures ProfilesExactly(t, events, counts) {
        ProfilesTheFired(t, events, counts);
      }
    } else {
      var i, j :| 0 <= j < i < |t| && Meets(t, events, j, PosOf(t, events, i));
      var counts := CountsFor(t, events, {i});
      WrongOwner(t, events, counts, i, j);
    }
  }

  /** An earlier entry that reaches the position of the one that fired is dispatched
      in its place. */
  lemma WrongOwner(t: seq<Entry>, events: seq<EventInfo>, counts: seq<int>, i: nat, j: nat)
    requires Dispatchable(t, events, counts) && j < i < |t| && Meets(t, events, j, PosOf(t, events, i))
    requires forall k :: 0 <= k < |t| ==> (Fired(t, counts, k) <==> k == i)
    ensures !ProfilesExactly(t, events, counts)
  {
    SingleBit(t, events, counts, i);
    var v, b := Vector(t, events, counts, |t|), PosOf(t, events, i);
    assert Ffs(v) - 1 == b && v - {b} == {};
    var o := Owners(t, events)[b];
    assert o == Owner(t, events, b, 0) <= j;
    var over := Overshoots(t, counts);
    assert Profiled(Owners(t, events), over, v - {b}) == [];
    assert ProfiledAt(t, events, counts) == [(o, over[o])];
    assert (i, counts[t[i].index] - t[i].deadline) !in ProfiledAt(t, events, counts);
  }

  /** t has the event indices of the table. */
  ghost predicate SameIndices(es: EventSet, t: seq<Entry>)
    requires es.Shape()
    reads es`eventCounter, es.eventIndex
  {
    |t| == es.eventCounter && forall i :: 0 <= i < |t| ==> t[i].index == es.eventIndex[i]
  }

  method FindOwner(es: EventSet, b: nat, ghost t: seq<Entry>) returns (j: nat)
    requires es.Shape() && Scans(es.events) && SameIndices(es, t)
    requires forall i :: 0 <= i < |t| ==> 0 <= t[i].index < |es.events|
    ensures j == Owner(t, es.events, b, 0)
    ensures b < 64 ==> j == Owners(t, es.events)[b]
  {
    j := 0;
    while j < es.eventCounter
      invariant 0 <= j <= es.eventCounter
      invariant Owner(t, es.events, b, 0) == Owner(t, es.events, b, j)
    {
      var found := ScanPositions(es.events[es.eventIndex[j]], b);
      if found {
        return;
      }
      j := j + 1;
    }
  }

  /** The scan for one position: all terms up to the first negative one. */
  method ScanPositions(e: EventInfo, b: nat) returns (found: bool)
    requires |e.pos| == PAPI_EVENTS_IN_DERIVED_EVENT
    ensures found <==> ReachesPos(e.pos, b, 0)
  {
    found := false;
    var k, pos := 0, 0;
    while k < PAPI_EVENTS_IN_DERIVED_EVENT && pos >= 0
      invariant 0 <= k <= PAPI_EVENTS_IN_DERIVED_EVENT
      invariant ReachesPos(e.pos, b, 0) <==> pos >= 0 && ReachesPos(e.pos, b, k)
    {
      pos := e.pos[k];
      if b == pos {
        return true;
      }
      k := k + 1;
    }
  }

  /** The bit loop of profiling; with hardware overflow there is no overshoot. */
  method ProfileBits(es: EventSet, vector: Word, temp: array<int>, ghost t: seq<Entry>)
    returns (ret: int, profiled: seq<(nat, int)>)
    requires es.Shape() && Scans(es.events) && SameIndices(es, t) && temp.Length == es.eventCounter
    requires forall i :: 0 <= i < |t| ==> 0 <= t[i].index < |es.events|
    ensures profiled == Profiled(Owners(t, es.events), OverOf(es.hardware, temp[..]), vector)
    ensures ret == if forall b :: b in vector ==> Owners(t, es.events)[b] < |t| then PAPI_OK else PAPI_EBUG
  {
    ghost var over, owners := OverOf(es.hardware, temp[..]), Owners(t, es.events);
    var v := vector;
    profiled := [];
    while v != {}
      invariant Profiling(owners, over, vector, v, profiled)
      decreases |v|
    {
      ProfiledStep(owners, over, vector, v, profiled);
      var bit := Ffsll(v);
      var i := bit - 1;
      var j, o := ProfileOne(es, i, temp, t);
      if j == es.eventCounter {
        return PAPI_EBUG, profiled;
      }
      profiled := profiled + [(j, o)];
      XorClears(v, i);
      v := Xor(v, Bit(i));
    }
    ret := PAPI_OK;
  }

  /** The owner of one bit and its overshoot. */
  method ProfileOne(es: EventSet, i: nat, temp: array<int>, ghost t: seq<Entry>) returns (j: nat, over: int)
    requires es.Shape() && Scans(es.events) && SameIndices(es, t) && temp.Length == es.eventCounter
    requires i < 64 && forall i :: 0 <= i < |t| ==> 0 <= t[i].index < |es.events|
    ensures j == Owners(t, es.events)[i] && (j < |t| ==> over == OverOf(es.hardware, temp[..])[j])
  {
    j := FindOwner(es, i, t);
    over := if es.hardware || j == es.eventCounter then 0 else temp[j];
  }

  function OverOf(hardware: bool, temp: seq<int>): (o: seq<int>)
    ensures |o| == |temp|
    ensures forall j :: 0 <= j < |o| ==> o[j] == if hardware then 0 else temp[j]
  {
    if hardware then seq(|temp|, _ => 0) else temp
  }

  /** `done` has been dispatched, and the bits of v are left. */
  ghost predicate Profiling(owners: seq<nat>, over: seq<int>, all: Word, v: Word, done: seq<(nat, int)>) {
    && |owners| == 64 && v <= all
    && done + Profiled(owners, over, v) == Profiled(owners, over, all)
    && forall b :: b in all && b !in v ==> owners[b] < |over|
  }

  lemma ProfiledStep(owners: seq<nat>, over: seq<int>, all: Word, v: Word, done: seq<(nat, int)>)
    requires Profiling(owners, over, all, v, done) && v != {}
    ensures var b := Ffs(v) - 1; var j := owners[b];
      if j < |over| then Profiling(owners, over, all, v - {b}, done + [(j, over[j])])
      else b in all && done == Profiled(owners, over, all)
  {
    var b := Ffs(v) - 1;
    var j := owners[b];
    if j < |over| {
      assert done + Profiled(owners, over, v) == (done + [(j, over[j])]) + Profiled(owners, over, v - {b});
    } else {
      assert done + [] == done;
    }
  }

  /** The table after the first n entries have been looked at. */
  ghost function RearmedTo(t: seq<Entry>, counts: seq<int>, n: nat): (u: seq<Entry>)
    requires n <= |t| && forall i :: 0 <= i < |t| ==> 0 <= t[i].index < |counts|
    ensures |u| == |t|
    ensures forall i :: n <= i < |t| ==> u[i] == t[i]
  {
    if n == 0 then t else RearmedTo(t, counts, n - 1)[n - 1 := Rearmed(t[n - 1], counts)]
  }

  lemma {:induction false} RearmedAt(t: seq<Entry>, counts: seq<int>, n: nat, i: nat)
    requires i < n <= |t| && forall i :: 0 <= i < |t| ==> 0 <= t[i].index < |counts|
    ensures RearmedTo(t, counts, n)[i] == Rearmed(t[i], counts)
  {
    if i < n - 1 {
      RearmedAt(t, counts, n - 1, i);
    }
  }

  /** Every entry whose count has reached its deadline gets the count plus its threshold
      as the next one; nothing else changes. */
  lemma RearmedMeans(t: seq<Entry>, counts: seq<int>)
    requires forall i :: 0 <= i < |t| ==> 0 <= t[i].index < |counts|
    ensures Moved(t, RearmedTo(t, counts, |t|), counts)
  {
    forall i | 0 <= i < |t| ensures RearmedTo(t, counts, |t|)[i] == Rearmed(t[i], counts) {
      RearmedAt(t, counts, |t|, i);
    }
  }

  ghost predicate Moved(t: seq<Entry>, u: seq<Entry>, counts: seq<int>)
    requires forall i :: 0 <= i < |t| ==> 0 <= t[i].index < |counts|
  {
    && |u| == |t|
    && forall i :: 0 <= i < |t| ==>
         && u[i].code == t[i].code && u[i].index == t[i].index && u[i].threshold == t[i].threshold
         && u[i].deadline == if counts[t[i].index] >= t[i].deadline then counts[t[i].index] + t[i].threshold
                             else t[i].deadline
  }

  /** Adjusts one deadline. */
  method SetDeadline(es: EventSet, i: nat, d: int)
    requires es.Shape() && i < es.eventCounter
    modifies es.deadline
    ensures es.Table() == old(es.Table())[i := old(es.Table())[i].(deadline := d)]
  {
    es.deadline[i] := d;
  }

  /** The reading loop: overshoots, new deadlines and the vector. */
  method ReadEntries(es: EventSet, swStop: seq<int>, temp: array<int>) returns (vector: Word, flag: bool)
    requires es.Shape() && Dispatchable(es.Table(), es.events, swStop)
    requires temp.Length == es.eventCounter
    requires temp != es.deadline && temp != es.threshold && temp != es.eventIndex && temp != es.eventCode
    modifies es.deadline, temp
    ensures es.Table() == RearmedTo(old(es.Table()), swStop, es.eventCounter)
    ensures vector == Vector(old(es.Table()), es.events, swStop, es.eventCounter)
    ensures flag == AnyFired(old(es.Table()), swStop, es.eventCounter)
    ensures temp[..] == Overshoots(old(es.Table()), swStop)
  {
    ghost var t, events := es.Table(), es.events;
    vector, flag := {}, false;
    var i := 0;
    while i < es.eventCounter
      invariant 0 <= i <= es.eventCounter
      invariant ReadTo(t, events, swStop, i, es.Table(), vector, flag, temp[..])
    {
      ghost var temps := temp[..];
      assert es.Table()[i] == t[i];
      var hit;
      hit, vector := ReadEntry(es, swStop, temp, i, vector);
      ReadStep(t, events, swStop, i, flag, temps);
      flag := flag || hit;
      i := i + 1;
    }
    assert temp[..] == temp[..i];
  }

  /** The loop's results after the first n entries. */
  ghost predicate ReadTo(t: seq<Entry>, events: seq<EventInfo>, counts: seq<int>, n: nat,
                         table: seq<Entry>, vector: Word, flag: bool, temps: seq<int>)
    requires Dispatchable(t, events, counts) && n <= |t|
  {
    && table == RearmedTo(t, counts, n) && vector == Vector(t, events, counts, n)
    && flag == AnyFired(t, counts, n)
    && |temps| == |t| && temps[..n] == Overshoots(t, counts)[..n]
  }

  lemma ReadStep(t: seq<Entry>, events: seq<EventInfo>, counts: seq<int>, n: nat, flag: bool, temps: seq<int>)
    requires Dispatchable(t, events, counts) && n < |t|
    requires ReadTo(t, events, counts, n, RearmedTo(t, counts, n), Vector(t, events, counts, n), flag, temps)
    ensures var hit := Fired(t, counts, n); var v := Vector(t, events, counts, n);
      ReadTo(t, events, counts, n + 1,
        RearmedTo(t, counts, n)[n := Rearmed(t[n], counts)],
        if hit then Xor(v, Bit(PosOf(t, events, n))) else v,
        flag || hit,
        temps[n := Overshoot(t, counts, n)])
  {
    assert temps[n := Overshoot(t, counts, n)][..n + 1] == temps[..n] + [Overshoot(t, counts, n)];
  }

  /** One entry of the reading loop. */
  method ReadEntry(es: EventSet, swStop: seq<int>, temp: array<int>, i: nat, vector: Word) returns (hit: bool, vector': Word)
    requires es.Shape() && i < es.eventCounter == temp.Length
    requires 0 <= es.Table()[i].index < |swStop| == |es.events| && Scans(es.events)
    requires 0 <= es.events[es.Table()[i].index].pos[0] < 64
    requires temp != es.deadline && temp != es.threshold && temp != es.eventIndex && temp != es.eventCode
    modifies es.deadline, temp
    ensures var e := old(es.Table())[i];
      && hit == (swStop[e.index] >= e.deadline)
      && es.Table() == old(es.Table())[i := Rearmed(e, swStop)]
      && temp[..] == old(temp[..])[i := if hit then swStop[e.index] - e.deadline else -1]
      && vector' == if hit then Xor(vector, Bit(es.events[e.index].pos[0])) else vector
  {
    var papiIndex := es.eventIndex[i];
    var latest := swStop[papiIndex];
    temp[i] := -1;
    hit, vector' := latest >= es.deadline[i], vector;
    if hit {
      var pos := es.events[papiIndex].pos[0];
      vector' := Xor(vector, Bit(pos));
      temp[i] := latest - es.deadline[i];
      SetDeadline(es, i, latest + es.threshold[i]);
    }
  }

  /** Who is told about an interrupt: nobody, the handler with a vector, or the
      profiler with entries and overshoots. */
  datatype Told = Nobody | Handler(vector: Word) | Profiler(entries: seq<(nat, int)>)

  /** The answer where the set overflows by software. */
  ghost function ToTell(t: seq<Entry>, events: seq<EventInfo>, counts: seq<int>, profiling: bool): Told
    requires Dispatchable(t, events, counts)
  {
    if !AnyFired(t, counts, |t|) then Nobody
    else if profiling then Profiler(ProfiledAt(t, events, counts))
    else Handler(Vector(t, events, counts, |t|))
  }

  /** The vector where the set overflows by hardware: the first entry's bit if the
      component cannot tell, the component's otherwise. */
  ghost function HardwareVector(t: seq<Entry>, events: seq<EventInfo>, genOverflowBit: bool, overflowBit: Word): Word
    requires Wired(t, events) && (genOverflowBit ==> t != [])
  {
    if genOverflowBit then {PosOf(t, events, 0)} else overflowBit
  }

  ghost function ToTellHardware(t: seq<Entry>, events: seq<EventInfo>, v: Word, profiling: bool): Told
    requires Scans(events) && forall i :: 0 <= i < |t| ==> 0 <= t[i].index < |events|
  {
    if profiling then Profiler(Profiled(Owners(t, events), OverOf(true, seq(|t|, _ => 0)), v)) else Handler(v)
  }

  /** A set with software overflow; readRet is the component's answer to the read of
      the counts.  Once that succeeds nothing fails: every bit has an owner. */
  method DispatchSoftware(es: EventSet, swStop: seq<int>, readRet: int) returns (ret: int, told: Told)
    requires es.Shape() && Dispatchable(es.Table(), es.events, swStop) && !es.hardware
    modifies es.deadline
    ensures readRet < PAPI_OK ==> ret == readRet && told == Nobody && es.Table() == old(es.Table())
    ensures readRet >= PAPI_OK ==>
      && ret == PAPI_OK
      && es.Table() == RearmedTo(old(es.Table()), swStop, es.eventCounter)
      && Moved(old(es.Table()), es.Table(), swStop)
      && told == ToTell(old(es.Table()), es.events, swStop, es.profiling)
    ensures told != Nobody <==>
      readRet >= PAPI_OK && exists i :: 0 <= i < es.eventCounter && swStop[old(es.Table())[i].index] >= old(es.Table())[i].deadline
    ensures told != Nobody ==> (told.Profiler? <==> es.profiling)
  {
    ghost var t := es.Table();
    SomeReached(t, swStop);
    if readRet < PAPI_OK {
      return readRet, Nobody;
    }
    RearmedMeans(t, swStop);
    var temp := new int[es.eventCounter];
    var vector, flag := ReadEntries(es, swStop, temp);
    ret, told := PAPI_OK, Nobody;
    if flag {
      if es.profiling {
        forall b | b in vector ensures Owners(t, es.events)[b] < |t| {
          var i := BitIsOwned(t, es.events, swStop, b);
        }
        var entries;
        ret, entries := ProfileBits(es, vector, temp, t);
        told := Profiler(entries);
      } else {
        told := Handler(vector);
      }
    }
  }

  /** A set with hardware overflow.  It fails exactly if profiling meets a bit that no
      entry reaches. */
  method DispatchHardware(es: EventSet, genOverflowBit: bool, overflowBit: Word) returns (ret: int, told: Told)
    requires es.Shape() && Wired(es.Table(), es.events) && es.hardware
    requires genOverflowBit ==> es.eventCounter > 0
    ensures told.Profiler? <==> es.profiling
    ensures told.Handler? <==> !es.profiling
    ensures told.Profiler? ==>
      forall k :: 0 <= k < |told.entries| ==> told.entries[k].0 < es.eventCounter && told.entries[k].1 == 0
    ensures told.Handler? ==>
      told.vector == if genOverflowBit then {es.events[es.Table()[0].index].pos[0]} else overflowBit
    ensures var t := es.Table(); var v := HardwareVector(t, es.events, genOverflowBit, overflowBit);
      && told == ToTellHardware(t, es.events, v, es.profiling)
      && ret == (if es.profiling && exists b :: b in v && Owners(t, es.events)[b] == |t| then PAPI_EBUG else PAPI_OK)
  {
    ghost var t := es.Table();
    var vector: Word := overflowBit;
    if genOverflowBit {
      assert t[0].index == es.eventIndex[0];
      vector := Bit(es.events[es.eventIndex[0]].pos[0]);
    }
    ret := PAPI_OK;
    if es.profiling {
      var temp := new int[es.eventCounter](_ => 0);
      var entries;
      ret, entries := ProfileBits(es, vector, temp, t);
      assert temp[..] == seq(|t|, _ => 0);
      told := Profiler(entries);
      ProfiledInOrder(Owners(t, es.events), seq(|t|, _ => 0), vector);
    } else {
      told := Handler(vector);
    }
  }

  /** The dispatcher, once it has its set. */
  method DispatchSet(es: EventSet, swStop: seq<int>, readRet: int, genOverflowBit: bool, overflowBit: Word)
    returns (ret: int, told: Told)
    requires es.Shape() && Dispatchable(es.Table(), es.events, swStop)
    requires es.hardware && genOverflowBit ==> es.eventCounter > 0
    modifies es.deadline
    ensures !es.overflowing ==> ret == PAPI_OK && told == Nobody
    ensures es.overflowing && !es.hardware ==>
      && ret == (if readRet < PAPI_OK then readRet else PAPI_OK)
      && told == if readRet < PAPI_OK then Nobody else ToTell(old(es.Table()), es.events, swStop, es.profiling)
    ensures es.overflowing && es.hardware ==>
      told == ToTellHardware(old(es.Table()), es.events,
                             HardwareVector(old(es.Table()), es.events, genOverflowBit, overflowBit), es.profiling)
    ensures es.Table() == if es.overflowing && !es.hardware && readRet >= PAPI_OK
                          then RearmedTo(old(es.Table()), swStop, es.eventCounter) else old(es.Table())
    ensures told != Nobody ==> es.overflowing && (told.Profiler? <==> es.profiling)
    ensures es.overflowing && es.hardware ==> told != Nobody
  {
    if !es.overflowing {
      return PAPI_OK, Nobody;
    }
    if !es.hardware {
      ret, told := DispatchSoftware(es, swStop, readRet);
    } else {
      ret, told := DispatchHardware(es, genOverflowBit, overflowBit);
    }
  }

  /** What the thread's slot for the component refers the dispatcher to: no set, one of
      another component or thread, or a set to go on with. */
  datatype Target = Nothing | Wrong(error: int) | Set(es: EventSet)

  function TargetOf(slots: array<EventSet?>, cidx: nat): Target
    requires cidx < slots.Length
    reads slots, if slots[cidx] != null then {slots[cidx]} else {}
  {
    var es := slots[cidx];
    if es == null || !es.overflowing then Nothing
    else if es.cmpIdx != cidx then Wrong(PAPI_ENOCMP)
    else if es.slots != slots then Wrong(PAPI_EBUG)
    else Set(es)
  }

  /** _papi_hwi_dispatch_overflow_signal: it goes on with the set in the thread's slot,
      if that overflows and belongs to thread and component. */
  method DispatchSignal(slots: array<EventSet?>, cidx: nat, swStop: seq<int>, readRet: int,
                        genOverflowBit: bool, overflowBit: Word)
    returns (ret: int, told: Told)
    requires cidx < slots.Length
    requires TargetOf(slots, cidx).Set? ==>
      var es := slots[cidx];
      && es.Shape() && Dispatchable(es.Table(), es.events, swStop)
      && (es.hardware && genOverflowBit ==> es.eventCounter > 0)
    modifies if slots[cidx] != null then {slots[cidx].deadline} else {}
    ensures slots[cidx] == null || !slots[cidx].overflowing ==> ret == PAPI_OK && told == Nobody
    ensures slots[cidx] != null && slots[cidx].overflowing ==>
      && (slots[cidx].cmpIdx != cidx ==> ret == PAPI_ENOCMP && told == Nobody)
      && (slots[cidx].cmpIdx == cidx && slots[cidx].slots != slots ==> ret == PAPI_EBUG && told == Nobody)
    ensures old(TargetOf(slots, cidx)).Nothing? ==> ret == PAPI_OK && told == Nobody
    ensures old(TargetOf(slots, cidx)).Wrong? ==> ret == old(TargetOf(slots, cidx)).error && told == Nobody
    ensures !old(TargetOf(slots, cidx)).Set? && slots[cidx] != null ==> unchanged(slots[cidx].deadline)
    ensures old(TargetOf(slots, cidx)).Set? ==>
      var es := slots[cidx];
      && told == (if es.hardware
                  then ToTellHardware(old(es.Table()), es.events,
                                      HardwareVector(old(es.Table()), es.events, genOverflowBit, overflowBit), es.profiling)
                  else if readRet < PAPI_OK then Nobody
                  else ToTell(old(es.Table()), es.events, swStop, es.profiling))
      && es.Table() == if !es.hardware && readRet >= PAPI_OK
                       then RearmedTo(old(es.Table()), swStop, es.eventCounter) else old(es.Table())
    ensures told != Nobody ==> slots[cidx] != null && slots[cidx].overflowing && (told.Profiler? <==> slots[cidx].profiling)
    ensures old(TargetOf(slots, cidx)).Set? && slots[cidx].hardware ==> told != Nobody
  {
    var es := slots[cidx];
    if es == null || !es.overflowing {
      return PAPI_OK, Nobody;
    }
    if es.cmpIdx != cidx {
      return PAPI_ENOCMP, Nobody;
    }
    if es.slots != slots {
      return PAPI_EBUG, Nobody;
    }
    ret, told := DispatchSet(es, swStop, readRet, genOverflowBit, overflowBit);
  }

  // --------------------------------------------------------------- many interrupts

  /** The counts at which one entry fires over a run of readings. */
  function Firings(threshold: int, deadline: int, readings: seq<int>): seq<int>
    decreases |readings|
  {
    if readings == [] then []
    else if readings[0] >= deadline then [readings[0]] + Firings(threshold, readings[0] + threshold, readings[1..])
    else Firings(threshold, deadline, readings[1..])
  }

  /** The k-th firing after the deadline was set to d comes no earlier than count
      d + k * threshold, whatever the readings are. */
  lemma {:induction false} FiringsAreSpaced(threshold: int, deadline: int, readings: seq<int>, k: nat)
    requires threshold > 0 && k < |Firings(threshold, deadline, readings)|
    ensures Firings(threshold, deadline, readings)[k] >= deadline + k * threshold
    decreases |readings|
  {
    if readings[0] >= deadline {
      if k > 0 {
        FiringsAreSpaced(threshold, readings[0] + threshold, readings[1..], k - 1);
        assert (k - 1) * threshold + threshold == k * threshold;
      }
    } else {
      FiringsAreSpaced(threshold, deadline, readings[1..], k);
    }
  }

  /** Every reading has a count for every entry. */
  ghost predicate Readable(t: seq<Entry>, readings: seq<seq<int>>) {
    && (forall i :: 0 <= i < |t| ==> t[i].index >= 0)
    && (forall k, i :: 0 <= k < |readings| && 0 <= i < |t| ==> t[i].index < |readings[k]|)
  }

  lemma ReadableNext(t: seq<Entry>, readings: seq<seq<int>>)
    requires Readable(t, readings) && readings != []
    ensures Readable(RearmedTo(t, readings[0], |t|), readings[1..])
    ensures forall i :: 0 <= i < |t| ==> RearmedTo(t, readings[0], |t|)[i] == Rearmed(t[i], readings[0])
  {
    forall i | 0 <= i < |t| ensures RearmedTo(t, readings[0], |t|)[i] == Rearmed(t[i], readings[0]) {
      RearmedAt(t, readings[0], |t|, i);
    }
  }

  /** The counts at which entry i fires along the run. */
  ghost function FiringCounts(t: seq<Entry>, i: nat, readings: seq<seq<int>>): (f: seq<int>)
    requires Readable(t, readings) && i < |t|
    decreases |readings|
  {
    if readings == [] then []
    else
      ReadableNext(t, readings);
      (if Fired(t, readings[0], i) then [readings[0][t[i].index]] else [])
      + FiringCounts(RearmedTo(t, readings[0], |t|), i, readings[1..])
  }

  /** The counts of one event along the run. */
  ghost function Column(readings: seq<seq<int>>, x: nat): (c: seq<int>)
    requires forall k :: 0 <= k < |readings| ==> x < |readings[k]|
    ensures |c| == |readings| && forall k :: 0 <= k < |c| ==> c[k] == readings[k][x]
  {
    seq(|readings|, k requires 0 <= k < |readings| => readings[k][x])
  }

  /** Along a run every entry fires by its own threshold and counts alone, whatever
      the others do. */
  lemma {:induction false} EntriesFireAlone(t: seq<Entry>, i: nat, readings: seq<seq<int>>)
    requires Readable(t, readings) && i < |t|
    ensures FiringCounts(t, i, readings) == Firings(t[i].threshold, t[i].deadline, Column(readings, t[i].index))
    decreases |readings|
  {
    if readings != [] {
      ReadableNext(t, readings);
      var u, c := RearmedTo(t, readings[0], |t|), Column(readings, t[i].index);
      EntriesFireAlone(u, i, readings[1..]);
      assert c[1..] == Column(readings[1..], u[i].index);
    }
  }

  /** So the k-th firing of an entry comes no earlier than its deadline at the start
      plus k thresholds. */
  lemma EntryFiringsAreSpaced(t: seq<Entry>, events: seq<EventInfo>, i: nat, readings: seq<seq<int>>, k: nat)
    requires Aligned(t, events) && Readable(t, readings) && i < |t| && k < |FiringCounts(t, i, readings)|
    ensures FiringCounts(t, i, readings)[k] >= t[i].deadline + k * t[i].threshold
  {
    EntriesFireAlone(t, i, readings);
    FiringsAreSpaced(t[i].threshold, t[i].deadline, Column(readings, t[i].index), k);
  }

  // -------------------------------------------------------------------- the decoder

  predicate Simple(e: EventInfo) {
    e.derived == NOT_DERIVED || e.derived == DERIVED_CMPD
  }

  predicate Matches(e: EventInfo, b: nat)
    requires |e.pos| == PAPI_EVENTS_IN_DERIVED_EVENT
  {
    Simple(e) && ReachesPos(e.pos, b, 0)
  }

  /** The events a bit stands for, from the j-th on. */
  function EventsOf(events: seq<EventInfo>, b: nat, j: nat): (r: seq<int>)
    requires j <= |events| && Scans(events)
    ensures forall x :: x in r <==> j <= x < |events| && Matches(events[x], b)
    decreases |events| - j
  {
    if j == |events| then []
    else (if Matches(events[j], b) then [j] else []) + EventsOf(events, b, j + 1)
  }

  lemma NoRepeatsAppend<T(!new)>(a: seq<T>, b: seq<T>)
    requires NoRepeats(a) && NoRepeats(b) && forall x :: x in a ==> x !in b
    ensures NoRepeats(a + b)
  {
    forall m, n | 0 <= m < n < |a + b|
      ensures (a + b)[m] != (a + b)[n]
    {
      if m < |a| <= n {
        assert a[m] in a && b[n - |a|] in b;
      }
    }
  }

  lemma {:induction false} EventsOfOnce(events: seq<EventInfo>, b: nat, j: nat)
    requires j <= |events| && Scans(events)
    ensures NoRepeats(EventsOf(events, b, j))
    decreases |events| - j
  {
    if j < |events| {
      EventsOfOnce(events, b, j + 1);
      NoRepeatsAppend(if Matches(events[j], b) then [j] else [], EventsOf(events, b, j + 1));
    }
  }

  /** Everything the decoder finds: by bits, then by events. */
  ghost function Decoded(events: seq<EventInfo>, v: Word): seq<int>
    requires Scans(events)
    decreases |v|
  {
    if v == {} then []
    else var b := Ffs(v) - 1; EventsOf(events, b, 0) + Decoded(events, v - {b})
  }

  lemma {:induction false} DecodedMembers(events: seq<EventInfo>, v: Word, x: int)
    requires Scans(events)
    ensures x in Decoded(events, v) <==> 0 <= x < |events| && exists b :: b in v && Matches(events[x], b)
    decreases |v|
  {
    if v != {} {
      DecodedMembers(events, v - {Ffs(v) - 1}, x);
    }
  }

  /** The decoder finds exactly the events that are not derived, or compounds, and have a
      bit of the vector among the positions that no negative one precedes. */
  lemma DecodedExactly(events: seq<EventInfo>, v: Word, x: int)
    requires Scans(events)
    ensures x in Decoded(events, v) <==>
      && 0 <= x < |events| && (events[x].derived == NOT_DERIVED || events[x].derived == DERIVED_CMPD)
      && exists b, n :: b in v && 0 <= n < |events[x].pos| && events[x].pos[n] == b
                        && forall m :: 0 <= m < n ==> events[x].pos[m] >= 0
  {
    DecodedMembers(events, v, x);
    if 0 <= x < |events| {
      forall b: nat
        ensures ReachesPos(events[x].pos, b, 0) <==>
          exists n :: 0 <= n < |events[x].pos| && events[x].pos[n] == b && forall m :: 0 <= m < n ==> events[x].pos[m] >= 0
      {
        ScanReaches(events[x].pos, b, 0);
      }
    }
  }

  /** The k-th event found matches bits[k]. */
  ghost predicate AllMatch(events: seq<EventInfo>, found: seq<int>, bits: seq<nat>, v: Word) {
    && Scans(events) && |bits| == |found|
    && forall k :: 0 <= k < |bits| ==>
         bits[k] in v && 0 <= found[k] < |events| && Matches(events[found[k]], bits[k])
  }

  /** By ascending bits, and for each bit by ascending events. */
  ghost predicate Ascending(found: seq<int>, bits: seq<nat>) {
    && |bits| == |found|
    && forall j, k :: 0 <= j < k < |bits| ==> bits[j] < bits[k] || (bits[j] == bits[k] && found[j] < found[k])
  }

  /** Every event stands there once for each bit of v it matches, in this order. */
  ghost predicate InOrder(events: seq<EventInfo>, found: seq<int>, bits: seq<nat>, v: Word) {
    && AllMatch(events, found, bits, v) && Ascending(found, bits)
    && forall b, x :: b in v && 0 <= x < |events| && Matches(events[x], b) ==> FoundFor(found, bits, x, b)
  }

  ghost predicate FoundFor(found: seq<int>, bits: seq<nat>, x: int, b: nat) {
    exists k :: 0 <= k < |found| == |bits| && found[k] == x && bits[k] == b
  }

  lemma FoundAmong(here: seq<int>, found: seq<int>, bits: seq<nat>, b: nat, x: int, c: nat)
    requires |found| == |bits| && ((x in here && c == b) || FoundFor(found, bits, x, c))
    ensures FoundFor(here + found, seq(|here|, _ => b) + bits, x, c)
  {
    var both, all := here + found, seq(|here|, _ => b) + bits;
    if x in here && c == b {
      var k :| 0 <= k < |here| && here[k] == x;
      assert both[k] == x && all[k] == c;
    } else {
      var k :| 0 <= k < |found| == |bits| && found[k] == x && bits[k] == c;
      assert both[|here| + k] == x && all[|here| + k] == c;
    }
  }

  lemma MatchesMore(events: seq<EventInfo>, here: seq<int>, found: seq<int>, bits: seq<nat>, v: Word, b: nat)
    requires AllMatch(events, found, bits, v - {b}) && b in v && here == EventsOf(events, b, 0)
    ensures AllMatch(events, here + found, seq(|here|, _ => b) + bits, v)
  {
    var both, all := here + found, seq(|here|, _ => b) + bits;
    forall k | 0 <= k < |all| ensures all[k] in v && 0 <= both[k] < |events| && Matches(events[both[k]], all[k]) {
      if k < |here| {
        assert here[k] in here;
      } else {
        assert all[k] == bits[k - |here|] && both[k] == found[k - |here|];
      }
    }
  }

  lemma AscendingMore(here: seq<int>, found: seq<int>, bits: seq<nat>, b: nat)
    requires Ascending(found, bits) && forall k :: 0 <= k < |bits| ==> b < bits[k]
    requires forall j, k :: 0 <= j < k < |here| ==> here[j] < here[k]
    ensures Ascending(here + found, seq(|here|, _ => b) + bits)
  {
    var all := seq(|here|, _ => b) + bits;
    forall k | |here| <= k < |all| ensures all[k] > b {
      assert all[k] == bits[k - |here|];
    }
  }

  lemma InOrderMore(events: seq<EventInfo>, here: seq<int>, found: seq<int>, bits: seq<nat>, v: Word, b: nat)
    requires InOrder(events, found, bits, v - {b}) && b in v && forall c :: c in v ==> b <= c
    requires here == EventsOf(events, b, 0)
    ensures InOrder(events, here + found, seq(|here|, _ => b) + bits, v)
  {
    MatchesMore(events, here, found, bits, v, b);
    EventsOfAscend(events, b, 0);
    AscendingMore(here, found, bits, b);
    forall c, x | c in v && 0 <= x < |events| && Matches(events[x], c)
      ensures FoundFor(here + found, seq(|here|, _ => b) + bits, x, c)
    {
      assert c == b || FoundFor(found, bits, x, c);
      FoundAmong(here, found, bits, b, x, c);
    }
  }

  /** So the decoder finds them. */
  lemma {:induction false} DecodedInOrder(events: seq<EventInfo>, v: Word) returns (bits: seq<nat>)
    requires Scans(events)
    ensures InOrder(events, Decoded(events, v), bits, v)
    decreases |v|
  {
    bits := [];
    if v != {} {
      var b := Ffs(v) - 1;
      var here := EventsOf(events, b, 0);
      var rest := DecodedInOrder(events, v - {b});
      InOrderMore(events, here, Decoded(events, v - {b}), rest, v, b);
      bits := seq(|here|, _ => b) + rest;
    }
  }

  lemma {:induction false} EventsOfAscend(events: seq<EventInfo>, b: nat, j: nat)
    requires j <= |events| && Scans(events)
    ensures forall i, k :: 0 <= i < k < |EventsOf(events, b, j)| ==> EventsOf(events, b, j)[i] < EventsOf(events, b, j)[k]
    decreases |events| - j
  {
    if j < |events| {
      var rest := EventsOf(events, b, j + 1);
      EventsOfAscend(events, b, j + 1);
      forall k | 0 <= k < |rest| ensures rest[k] > j {
        assert rest[k] in rest;
      }
    }
  }

  /** No event the decoder looks at reaches the first position of another event's
      entry. */
  ghost predicate SimpleApart(t: seq<Entry>, events: seq<EventInfo>)
    requires Wired(t, events)
  {
    forall i, x :: 0 <= i < |t| && 0 <= x < |events| && x != t[i].index ==> !Matches(events[x], PosOf(t, events, i))
  }

  /** An event that is not derived (or a compound) belongs to an entry that fired. */
  ghost predicate SimplyFired(t: seq<Entry>, events: seq<EventInfo>, counts: seq<int>, x: int)
    requires Dispatchable(t, events, counts)
  {
    exists i :: 0 <= i < |t| && t[i].index == x && Fired(t, counts, i) && Simple(events[x])
  }

  /** Decoding the vector gives exactly these events. */
  ghost predicate DecodesExactly(t: seq<Entry>, events: seq<EventInfo>, counts: seq<int>)
    requires Dispatchable(t, events, counts)
  {
    forall x :: x in Decoded(events, Vector(t, events, counts, |t|)) <==> SimplyFired(t, events, counts, x)
  }

  /** A fired entry of a simple event has its bit in the vector, since nothing else
      that fired can be on it. */
  lemma {:induction false} SimpleAlone(t: seq<Entry>, events: seq<EventInfo>, counts: seq<int>, i: nat, n: nat)
    requires Dispatchable(t, events, counts) && IndicesDistinct(t) && SimpleApart(t, events)
    requires i < |t| && n <= |t| && Fired(t, counts, i) && Simple(events[t[i].index])
    ensures FiredOn(t, events, counts, n, PosOf(t, events, i)) == if i < n then 1 else 0
  {
    if n > 0 {
      SimpleAlone(t, events, counts, i, n - 1);
      if PosOf(t, events, n - 1) == PosOf(t, events, i) && n - 1 != i {
        FirstPosReached(events[t[i].index]);
      }
    }
  }

  lemma DecodesTheFired(t: seq<Entry>, events: seq<EventInfo>, counts: seq<int>)
    requires Dispatchable(t, events, counts) && IndicesDistinct(t) && SimpleApart(t, events)
    ensures DecodesExactly(t, events, counts)
  {
    var v := Vector(t, events, counts, |t|);
    forall x ensures x in Decoded(events, v) <==> SimplyFired(t, events, counts, x) {
      DecodedMembers(events, v, x);
      if x in Decoded(events, v) {
        var b :| b in v && Matches(events[x], b);
        var i := BitIsOwned(t, events, counts, b);
        assert t[i].index == x;
      }
      if SimplyFired(t, events, counts, x) {
        var i :| 0 <= i < |t| && t[i].index == x && Fired(t, counts, i);
        SimpleAlone(t, events, counts, i, |t|);
        VectorParity(t, events, counts, |t|, PosOf(t, events, i));
        FirstPosReached(events[x]);
        assert PosOf(t, events, i) in v && Matches(events[x], PosOf(t, events, i));
      }
    }
  }

  /** Decoding is right for all counts exactly if no event it looks at reaches the
      first position of another event's entry. */
  lemma DecodingIsExact(t: seq<Entry>, events: seq<EventInfo>)
    requires Wired(t, events) && IndicesDistinct(t)
    ensures (forall counts: seq<int> :: |counts| == |events| ==> DecodesExactly(t, events, counts))
       <==> SimpleApart(t, events)
  {
    if SimpleApart(t, events) {
      forall counts: seq<int> | |counts| == |events| ensures DecodesExactly(t, events, counts) {
        DecodesTheFired(t, events, counts);
      }
    } else {
      var i, x :| 0 <= i < |t| && 0 <= x < |events| && x != t[i].index && Matches(events[x], PosOf(t, events, i));
      var counts := CountsFor(t, events, {i});
      SingleBit(t, events, counts, i);
      DecodedMembers(events, Vector(t, events, counts, |t|), x);
      assert PosOf(t, events, i) in Vector(t, events, counts, |t|);
      assert !SimplyFired(t, events, counts, x);
      assert !DecodesExactly(t, events, counts);
    }
  }

  /** Under the same condition no event is reported twice. */
  lemma {:induction false} DecodedOnce(t: seq<Entry>, events: seq<EventInfo>, counts: seq<int>, v: Word)
    requires Dispatchable(t, events, counts) && SimpleApart(t, events)
    requires v <= Vector(t, events, counts, |t|)
    ensures NoRepeats(Decoded(events, v))
    decreases |v|
  {
    if v != {} {
      var b := Ffs(v) - 1;
      var w := v - {b};
      DecodedOnce(t, events, counts, w);
      var i := BitIsOwned(t, events, counts, b);
      forall x | x in EventsOf(events, b, 0)
        ensures x !in Decoded(events, w)
      {
        DecodedMembers(events, w, x);
        if c :| c in w && Matches(events[x], c) {
          var j := BitIsOwned(t, events, counts, c);
        }
      }
      EventsOfOnce(events, b, 0);
      NoRepeatsAppend(EventsOf(events, b, 0), Decoded(events, w));
    }
  }

  /** PAPI_get_overflow_event_index: the first `number` finds, in order. */
  method GetOverflowEventIndex(events: seq<EventInfo>, vector: Word, out: array<int>, number: int)
    returns (ret: int, number': int)
    requires Scans(events) && number <= out.Length
    modifies out
    ensures ret == PAPI_OK <==> vector != {} && number >= 1 && events != []
    ensures ret != PAPI_OK ==> ret == PAPI_EINVAL && number' == number && out[..] == old(out[..])
    ensures ret == PAPI_OK ==>
      var found := Decoded(events, vector);
      && number' == (if |found| >= number then number else |found|)
      && out[..number'] == found[..number']
  {
    ret, number' := PAPI_EINVAL, number;
    if vector == {} || number < 1 || events == [] {
      return;
    }
    ret := PAPI_OK;
    var v := vector;
    var count := 0;
    while v != {}
      invariant 0 <= count < number
      invariant out[..count] + Decoded(events, v) == Decoded(events, vector)
      decreases |v|
    {
      var bit := Ffsll(v);
      var setBit := bit - 1;
      XorClears(v, setBit);
      v := Xor(v, Bit(setBit));
      var full;
      count, full := CollectEvents(events, setBit, out, count, number, Decoded(events, v));
      if full {
        return;
      }
    }
    number' := count;
  }

  /** Appends event j if the bit stands for it. */
  method CollectEvent(events: seq<EventInfo>, j: nat, setBit: nat, out: array<int>, count: nat) returns (count': nat)
    requires Scans(events) && j < |events| && count < out.Length
    modifies out
    ensures count <= count' <= count + 1
    ensures out[..count'] == old(out[..count]) + if Matches(events[j], setBit) then [j] else []
  {
    count' := count;
    var reached := ScanPositions(events[j], setBit);
    if reached && (events[j].derived == NOT_DERIVED || events[j].derived == DERIVED_CMPD) {
      out[count] := j;
      count' := count + 1;
    }
  }

  /** Appends the events of one bit until `number` are found. */
  method CollectEvents(events: seq<EventInfo>, setBit: nat, out: array<int>, count: int, number: int, ghost later: seq<int>)
    returns (count': int, full: bool)
    requires Scans(events) && 0 <= count < number <= out.Length
    modifies out
    ensures 0 <= count' <= number && (full <==> count' == number)
    ensures !full ==> out[..count'] + later == old(out[..count]) + (EventsOf(events, setBit, 0) + later)
    ensures full ==> out[..count'] <= old(out[..count]) + (EventsOf(events, setBit, 0) + later)
  {
    count', full := count, false;
    ghost var all := out[..count] + EventsOf(events, setBit, 0);
    var j := 0;
    while j < |events| && !full
      invariant 0 <= j <= |events| && 0 <= count' <= number && (full <==> count' == number)
      invariant out[..count'] + EventsOf(events, setBit, j) == all
      decreases |events| - j
    {
      ghost var before := out[..count'];
      count' := CollectEvent(events, j, setBit, out, count');
      assert EventsOf(events, setBit, j)
          == (if Matches(events[j], setBit) then [j] else []) + EventsOf(events, setBit, j + 1);
      full := count' == number;
      j := j + 1;
    }
    assert old(out[..count]) + (EventsOf(events, setBit, 0) + later) == all + later;
  }
}
