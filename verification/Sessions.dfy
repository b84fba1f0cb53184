/** Runs that mix PAPI_overflow, PAPI_cleanup_eventset, PAPI_start, PAPI_stop and the
    overflow signal on a family of event sets: every call keeps what the others rely
    on. */
module Sessions {
  import opened Codes
  import opened EventSets
  import opened Words
  import Overflow
  import StartStop
  import Dispatch

  /** No two sets share an overflow array. */
  ghost predicate Separate(sets: set<EventSet>) {
    forall d, e :: d in sets && e in sets && d != e ==> Arrays(d) !! Arrays(e)
  }

  ghost function Arrays(e: EventSet): set<array<int>> {
    {e.deadline, e.threshold, e.eventIndex, e.eventCode}
  }

  /** The table of every set is in order. */
  ghost predicate TablesOk(sets: set<EventSet>)
    reads sets`eventCounter, sets`events, set e | e in sets :: e.deadline, set e | e in sets :: e.threshold
    reads set e | e in sets :: e.eventIndex, set e | e in sets :: e.eventCode
  {
    Separate(sets) && forall e :: e in sets ==> e.TableOk()
  }

  /** ... and so are slots and signal. */
  ghost predicate Sound(sets: set<EventSet>, sig: StartStop.Signal)
    reads sets, sig, set e | e in sets :: e.slots, set e | e in sets :: e.deadline
    reads set e | e in sets :: e.threshold, set e | e in sets :: e.eventIndex, set e | e in sets :: e.eventCode
  {
    StartStop.SlotsOk(sets) && StartStop.SignalOk(sets, sig) && TablesOk(sets)
  }

  /** PAPI_overflow and the table of every set. */
  method OverflowTables(e: EventSet, code: int, threshold: int, flags: Overflow.Flags, handler: int, c: Overflow.Component,
                        ghost sets: set<EventSet>) returns (ret: int)
    requires e in sets && TablesOk(sets) && (e.running ==> !e.stopped || e.attached || e.cpuAttached)
    modifies e`eventCounter, e`overflowing, e`forceSw, e`hardware, e`handler
    modifies e.deadline, e.threshold, e.eventIndex, e.eventCode
    ensures TablesOk(sets) && (e.running ==> unchanged(e`overflowing, e`hardware))
  {
    ghost var applied;
    ret, applied := Overflow.Call(e, code, threshold, flags, handler, c);
    forall d | d in sets && d != e ensures d.TableOk() {
      assert Arrays(d) !! Arrays(e);
      assert d.Shape() && d.Table() == old(d.Table());
    }
  }

  /** PAPI_cleanup_eventset and the table of every set. */
  method CleanupTables(e: EventSet, c: Overflow.Component, a: Overflow.CleanupAnswers, ghost sets: set<EventSet>)
    returns (ret: int)
    requires e in sets && TablesOk(sets)
    modifies e`hasComponent, e`events, e`eventCounter, e`overflowing, e`forceSw, e`hardware, e`handler
    modifies e.deadline, e.threshold, e.eventIndex, e.eventCode
    ensures !old(Overflow.OutOfStep(e, c, a)) ==> TablesOk(sets)
    ensures ret == PAPI_OK && old(e.hasComponent) ==> !e.hasComponent && e.events == [] && e.Shape() && e.Table() == []
    ensures e.running ==> unchanged(e`overflowing, e`hardware)
  {
    ret := Overflow.Cleanup(e, c, a);
    forall d | d in sets && d != e ensures d.TableOk() {
      assert Arrays(d) !! Arrays(e);
      assert d.Shape() && d.Table() == old(d.Table());
    }
  }

  /** ... and the slots, and the sets that count as uses of the signal. */
  method OverflowSlots(e: EventSet, code: int, threshold: int, flags: Overflow.Flags, handler: int, c: Overflow.Component,
                       ghost sets: set<EventSet>) returns (ret: int)
    requires e in sets && TablesOk(sets) && StartStop.SlotsOk(sets)
    modifies e`eventCounter, e`overflowing, e`forceSw, e`hardware, e`handler
    modifies e.deadline, e.threshold, e.eventIndex, e.eventCode
    ensures TablesOk(sets) && StartStop.SlotsOk(sets)
    ensures e.running ==> unchanged(e`overflowing, e`hardware)
  {
    ret := OverflowTables(e, code, threshold, flags, handler, c, sets);
  }

  method CleanupSlots(e: EventSet, c: Overflow.Component, a: Overflow.CleanupAnswers, ghost sets: set<EventSet>)
    returns (ret: int)
    requires e in sets && TablesOk(sets) && StartStop.SlotsOk(sets)
    modifies e`hasComponent, e`events, e`eventCounter, e`overflowing, e`forceSw, e`hardware, e`handler
    modifies e.deadline, e.threshold, e.eventIndex, e.eventCode
    ensures StartStop.SlotsOk(sets) && (!old(Overflow.OutOfStep(e, c, a)) ==> TablesOk(sets))
    ensures ret == PAPI_OK && old(e.hasComponent) ==> !e.hasComponent && e.events == [] && e.Shape() && e.Table() == []
    ensures e.running ==> unchanged(e`overflowing, e`hardware)
  {
    ret := CleanupTables(e, c, a, sets);
  }

  method CallOverflow(e: EventSet, code: int, threshold: int, flags: Overflow.Flags, handler: int, c: Overflow.Component,
                      ghost sig: StartStop.Signal, ghost sets: set<EventSet>) returns (ret: int)
    requires e in sets && Sound(sets, sig)
    modifies e`eventCounter, e`overflowing, e`forceSw, e`hardware, e`handler
    modifies e.deadline, e.threshold, e.eventIndex, e.eventCode
    ensures Sound(sets, sig)
  {
    ret := OverflowSlots(e, code, threshold, flags, handler, c, sets);
    assert StartStop.RunningBySoftware(sets) == old(StartStop.RunningBySoftware(sets));
  }

  /** A cleanup keeps slots and signal count, and the tables unless it wipes events
      that a table still names. */
  method CallCleanup(e: EventSet, c: Overflow.Component, a: Overflow.CleanupAnswers,
                     ghost sig: StartStop.Signal, ghost sets: set<EventSet>) returns (ret: int)
    requires e in sets && Sound(sets, sig)
    modifies e`hasComponent, e`events, e`eventCounter, e`overflowing, e`forceSw, e`hardware, e`handler
    modifies e.deadline, e.threshold, e.eventIndex, e.eventCode
    ensures StartStop.SlotsOk(sets) && StartStop.SignalOk(sets, sig)
    ensures Sound(sets, sig) || old(Overflow.OutOfStep(e, c, a))
    ensures ret == PAPI_OK && old(e.hasComponent) ==> !e.hasComponent && e.events == [] && e.Shape() && e.Table() == []
  {
    ret := CleanupSlots(e, c, a, sets);
    assert StartStop.RunningBySoftware(sets) == old(StartStop.RunningBySoftware(sets));
  }

  /** After a cleanup that succeeded the set cannot be started. */
  method NoStartAfterCleanup(e: EventSet, c: Overflow.Component, a: Overflow.CleanupAnswers, b: StartStop.StartAnswers,
                             sig: StartStop.Signal, ghost sets: set<EventSet>) returns (cleaned: int, started: int)
    requires e in sets && Sound(sets, sig) && e.hasComponent
    modifies e, e.slots, sig, e.deadline, e.threshold, e.eventIndex, e.eventCode
    ensures cleaned == PAPI_OK ==> started == PAPI_ENOCMP && e.running == old(e.running) && e.events == []
  {
    cleaned := CallCleanup(e, c, a, sig, sets);
    started := StartStop.Start(e, b, sig, sets);
  }

  method CallStart(e: EventSet, a: StartStop.StartAnswers, sig: StartStop.Signal, ghost sets: set<EventSet>)
    returns (ret: int)
    requires e in sets && Sound(sets, sig)
    modifies e`stopped, e`running, e`counting, e.slots, sig
    ensures Sound(sets, sig)
  {
    ret := StartStop.Start(e, a, sig, sets);
  }

  method CallStop(e: EventSet, a: StartStop.StopAnswers, sig: StartStop.Signal, ghost sets: set<EventSet>)
    returns (ret: int)
    requires e in sets && Sound(sets, sig)
    modifies e`stopped, e`running, e`counting, e.slots, sig`using
    ensures Sound(sets, sig)
  {
    ret := StartStop.Stop(e, a, sig, sets);
  }

  lemma OneDeadline(t: seq<Entry>, events: seq<EventInfo>, i: nat, d: int)
    requires Aligned(t, events) && i < |t|
    ensures Aligned(t[i := t[i].(deadline := d)], events)
  {
  }

  /** Moving deadlines on keeps a table in order. */
  lemma {:induction false} RearmedAligned(t: seq<Entry>, events: seq<EventInfo>, counts: seq<int>, n: nat)
    requires Aligned(t, events) && n <= |t| && forall i :: 0 <= i < |t| ==> 0 <= t[i].index < |counts|
    ensures Aligned(Dispatch.RearmedTo(t, counts, n), events)
  {
    if n > 0 {
      var u := Dispatch.RearmedTo(t, counts, n - 1);
      RearmedAligned(t, events, counts, n - 1);
      OneDeadline(u, events, n - 1, Dispatch.Rearmed(t[n - 1], counts).deadline);
    }
  }

  /** A thread's slot never refers the signal to a set of another thread or component. */
  lemma NeverWrong(sets: set<EventSet>, e: EventSet, cidx: nat)
    requires StartStop.SlotsOk(sets) && e in sets && cidx < e.slots.Length
    ensures !Dispatch.TargetOf(e.slots, cidx).Wrong?
  {
  }

  /** The signal in the thread of e, for e's component. */
  method InterruptTable(e: EventSet, swStop: seq<int>, readRet: int, genOverflowBit: bool, overflowBit: Word)
    returns (ret: int, told: Dispatch.Told)
    requires e.TableOk() && e.cmpIdx < e.slots.Length && e.slots[e.cmpIdx] == e
    requires Dispatch.Dispatchable(e.Table(), e.events, swStop)
    requires e.hardware && genOverflowBit ==> e.eventCounter > 0
    modifies e.deadline
    ensures e.TableOk()
  {
    RearmedAligned(e.Table(), e.events, swStop, e.eventCounter);
    ret, told := Dispatch.DispatchSignal(e.slots, e.cmpIdx, swStop, readRet, genOverflowBit, overflowBit);
  }

  method InterruptTables(e: EventSet, swStop: seq<int>, readRet: int, genOverflowBit: bool, overflowBit: Word,
                         ghost sets: set<EventSet>) returns (ret: int, told: Dispatch.Told)
    requires e in sets && TablesOk(sets) && e.cmpIdx < e.slots.Length && e.slots[e.cmpIdx] == e
    requires Dispatch.Dispatchable(e.Table(), e.events, swStop)
    requires e.hardware && genOverflowBit ==> e.eventCounter > 0
    modifies e.deadline
    ensures TablesOk(sets)
  {
    ret, told := InterruptTable(e, swStop, readRet, genOverflowBit, overflowBit);
    forall d | d in sets && d != e ensures d.TableOk() {
      assert Arrays(d) !! Arrays(e);
      assert d.Shape() && d.Table() == old(d.Table());
    }
  }

  method Interrupt(e: EventSet, swStop: seq<int>, readRet: int, genOverflowBit: bool, overflowBit: Word,
                   ghost sig: StartStop.Signal, ghost sets: set<EventSet>) returns (ret: int, told: Dispatch.Told)
    requires e in sets && Sound(sets, sig) && e.slots[e.cmpIdx] == e
    requires Dispatch.Dispatchable(e.Table(), e.events, swStop)
    requires e.hardware && genOverflowBit ==> e.eventCounter > 0
    modifies e.deadline
    ensures Sound(sets, sig)
  {
    ret, told := InterruptTables(e, swStop, readRet, genOverflowBit, overflowBit, sets);
  }
}
