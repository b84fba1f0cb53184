/** Event sets as src/papi.c and src/extras.c use them: state bits, the events and
    the table of overflowing events in four parallel arrays. */
module EventSets {
  import opened Codes

  const PAPI_EVENTS_IN_DERIVED_EVENT := 8

  datatype Derived = NOT_DERIVED | DERIVED_CMPD | DERIVED_OTHER

  /** An added event; pos holds counter positions up to the first negative one. */
  datatype EventInfo = EventInfo(code: int, pos: seq<int>, derived: Derived)

  /** Position b is one the scan of pos reaches, starting at k. */
  predicate ReachesPos(pos: seq<int>, b: int, k: nat)
    requires |pos| == PAPI_EVENTS_IN_DERIVED_EVENT && k <= |pos|
    decreases |pos| - k
  {
    k < |pos| && (pos[k] == b || (pos[k] >= 0 && ReachesPos(pos, b, k + 1)))
  }

  /** The scan reaches exactly the positions with no negative one before them. */
  lemma {:induction false} ScanReaches(pos: seq<int>, b: int, from: nat)
    requires |pos| == PAPI_EVENTS_IN_DERIVED_EVENT && from <= |pos|
    ensures ReachesPos(pos, b, from)
      <==> exists n :: from <= n < |pos| && pos[n] == b && forall m :: from <= m < n ==> pos[m] >= 0
    decreases |pos| - from
  {
    if from < |pos| {
      ScanReaches(pos, b, from + 1);
      if pos[from] != b && pos[from] >= 0 && ReachesPos(pos, b, from + 1) {
        var n :| from + 1 <= n < |pos| && pos[n] == b && forall m :: from + 1 <= m < n ==> pos[m] >= 0;
        assert forall m :: from <= m < n ==> pos[m] >= 0;
      }
      if n :| from <= n < |pos| && pos[n] == b && forall m :: from <= m < n ==> pos[m] >= 0 {
        assert n > from ==> pos[from] >= 0;
      }
    }
  }

  predicate Scans(events: seq<EventInfo>) {
    forall i :: 0 <= i < |events| ==> |events[i].pos| == PAPI_EVENTS_IN_DERIVED_EVENT
  }

  /** _papi_hwi_lookup_EventCodeIndex: the first event with the code. */
  function LookupCode(events: seq<EventInfo>, code: int): (r: int)
    ensures r == PAPI_EINVAL <==> forall i :: 0 <= i < |events| ==> events[i].code != code
    ensures r != PAPI_EINVAL ==> 0 <= r < |events| && events[r].code == code
    ensures forall i :: 0 <= i < r ==> events[i].code != code
  {
    if events == [] then PAPI_EINVAL
    else
      var r := LookupCode(events[..|events| - 1], code);
      if r != PAPI_EINVAL then r
      else if events[|events| - 1].code == code then |events| - 1 else PAPI_EINVAL
  }

  // -------------------------------------------------------- the table, abstractly

  datatype Entry = Entry(code: int, index: int, threshold: int, deadline: int)

  /** The entries held by four parallel arrays. */
  function Entries(codes: seq<int>, indices: seq<int>, thresholds: seq<int>, deadlines: seq<int>): (t: seq<Entry>)
    requires |codes| == |indices| == |thresholds| == |deadlines|
    ensures |t| == |codes|
    ensures forall i :: 0 <= i < |t| ==> t[i] == Entry(codes[i], indices[i], thresholds[i], deadlines[i])
  {
    seq(|codes|, i requires 0 <= i < |codes| => Entry(codes[i], indices[i], thresholds[i], deadlines[i]))
  }

  /** Codes are distinct, belong to events of the set, and thresholds are positive. */
  ghost predicate Aligned(t: seq<Entry>, events: seq<EventInfo>) {
    && (forall i, j :: 0 <= i < j < |t| ==> t[i].code != t[j].code)
    && (forall i :: 0 <= i < |t| ==>
          t[i].index != PAPI_EINVAL && t[i].index == LookupCode(events, t[i].code) && t[i].threshold > 0)
  }

  /** Position of a code in the table, |t| if absent. */
  function Find(t: seq<Entry>, code: int): (i: nat)
    ensures i <= |t|
    ensures i < |t| ==> t[i].code == code
    ensures forall j :: 0 <= j < i ==> t[j].code != code
  {
    if t == [] then 0
    else
      var i := Find(t[..|t| - 1], code);
      if i < |t| - 1 then i else if t[|t| - 1].code == code then |t| - 1 else |t|
  }

  function Dropped(t: seq<Entry>, at: nat): seq<Entry>
    requires at < |t|
  {
    t[..at] + t[at + 1..]
  }

  /** The entry replaces the one with its code, or is appended. */
  function Put(t: seq<Entry>, e: Entry): (u: seq<Entry>)
    ensures e in u
  {
    var i := Find(t, e.code);
    if i < |t| then
      assert t[i := e][i] == e;
      t[i := e]
    else
      assert (t + [e])[|t|] == e;
      t + [e]
  }

  /** u is t with e in the place of the entry of its code, or behind all others. */
  ghost predicate Stored(t: seq<Entry>, u: seq<Entry>, e: Entry) {
    && |u| == |t| + (if exists i :: 0 <= i < |t| && t[i].code == e.code then 0 else 1)
    && (forall i :: 0 <= i < |t| ==> u[i] == if t[i].code == e.code then e else t[i])
    && (|u| > |t| ==> u[|t|] == e)
    && e in u && forall d: Entry :: d.code != e.code ==> (d in u <==> d in t)
  }

  /** u is t without the entry of that code. */
  ghost predicate Removed(t: seq<Entry>, u: seq<Entry>, code: int) {
    && (exists at :: 0 <= at < |t| && t[at].code == code && u == t[..at] + t[at + 1..])
    && (forall d :: d in u ==> d.code != code)
    && forall d: Entry :: d.code != code ==> (d in u <==> d in t)
  }

  lemma PutMeans(t: seq<Entry>, e: Entry)
    requires forall i, j :: 0 <= i < j < |t| ==> t[i].code != t[j].code
    ensures Stored(t, Put(t, e), e)
  {
    var u := Put(t, e);
    var at := Find(t, e.code);
    assert u[if at < |t| then at else |t|] == e;
    forall d: Entry | d.code != e.code ensures d in u <==> d in t {
      if d in t {
        var i :| 0 <= i < |t| && t[i] == d;
        assert u[i] == d;
      }
      if d in u {
        var i :| 0 <= i < |u| && u[i] == d;
        assert i < |t| && t[i] == d;
      }
    }
  }

  lemma DropMeans(t: seq<Entry>, code: int)
    requires forall i, j :: 0 <= i < j < |t| ==> t[i].code != t[j].code
    requires Find(t, code) < |t|
    ensures Removed(t, Dropped(t, Find(t, code)), code)
  {
    var at := Find(t, code);
    var u := Dropped(t, at);
    assert t == t[..at] + [t[at]] + t[at + 1..];
  }

  lemma DroppedAligned(t: seq<Entry>, events: seq<EventInfo>, at: nat)
    requires Aligned(t, events) && at < |t|
    ensures Aligned(Dropped(t, at), events)
    ensures forall i :: 0 <= i < |t| - 1 ==> Dropped(t, at)[i].code != t[at].code
  {
  }

  lemma PutAligned(t: seq<Entry>, events: seq<EventInfo>, e: Entry)
    requires Aligned(t, events) && e.threshold > 0
    requires e.index == LookupCode(events, e.code) && e.index != PAPI_EINVAL
    ensures Aligned(Put(t, e), events)
  {
  }

  class EventSet {
    /** The owning thread's running_eventset array, one slot for each component, and
        the component this set is assigned to until it is cleaned up. */
    const slots: array<EventSet?>
    const cmpIdx: nat

    var hasComponent: bool
    var stopped: bool
    var running: bool
    var overflowing: bool
    var profiling: bool
    var attached: bool
    var cpuAttached: bool
    var events: seq<EventInfo>
    /** Whether the component counts for this set. */
    ghost var counting: bool

    // the overflow part
    const deadline: array<int>
    const threshold: array<int>
    const eventIndex: array<int>
    const eventCode: array<int>
    var eventCounter: nat
    var forceSw: bool
    var hardware: bool
    var handler: int

    /** The arrays have room for one entry per counter and do not overlap. */
    ghost predicate Shape()
      reads this`eventCounter
    {
      && deadline.Length == threshold.Length == eventIndex.Length == eventCode.Length
      && eventCounter <= deadline.Length
      && deadline != threshold && deadline != eventIndex && deadline != eventCode
      && threshold != eventIndex && threshold != eventCode && eventIndex != eventCode
    }

    ghost function Table(): (t: seq<Entry>)
      requires Shape()
      reads this`eventCounter, deadline, threshold, eventIndex, eventCode
      ensures |t| == eventCounter
    {
      Entries(eventCode[..eventCounter], eventIndex[..eventCounter],
              threshold[..eventCounter], deadline[..eventCounter])
    }

    ghost predicate TableOk()
      reads this`eventCounter, this`events, deadline, threshold, eventIndex, eventCode
    {
      Shape() && Aligned(Table(), events)
    }

    /** The overflowing bit agrees with the table. */
    ghost predicate FlagOk()
      reads this`overflowing, this`eventCounter
    {
      overflowing <==> eventCounter >= 1
    }

    /** valid_ESI_component */
    function Component(): int
      reads this`hasComponent
    {
      if hasComponent then cmpIdx else PAPI_ENOCMP
    }

    constructor (slots: array<EventSet?>, cmpIdx: nat, numCntrs: nat, events: seq<EventInfo>)
      ensures this.slots == slots && this.cmpIdx == cmpIdx
      ensures TableOk() && FlagOk() && stopped && !running && this.events == events
      ensures deadline.Length == numCntrs && Table() == [] && hasComponent
      ensures !attached && !cpuAttached && !profiling && !counting
    {
      this.slots, this.cmpIdx, hasComponent := slots, cmpIdx, true;
      stopped, running, overflowing, profiling, attached, cpuAttached := true, false, false, false, false, false;
      this.events, counting := events, false;
      deadline := new int[numCntrs];
      threshold := new int[numCntrs];
      eventIndex := new int[numCntrs];
      eventCode := new int[numCntrs];
      eventCounter, forceSw, hardware, handler := 0, false, false, 0;
    }
  }
}
