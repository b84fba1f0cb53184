/** PAPI_start and PAPI_stop of src/papi.c, with the signal use count of src/extras.c,
    for event sets that are not multiplexed in software. */
module StartStop {
  import opened Codes
  import opened EventSets

  /** _papi_hwi_using_signal for the timer's signal.  `installed` says whether the
      system has the handler, `attempts` what sigaction answered or would have
      answered to each start, and `leaked` counts the uses that no stop gives back. */
  class Signal {
    var using: int
    ghost var installed: bool
    ghost var attempts: seq<bool>
    ghost var leaked: nat

    /** The first sigaction decides for good: if it fails, its use is never given
        back, so that sigaction is never tried again. */
    ghost predicate Sound()
      reads this
    {
      && leaked <= 1 && using >= leaked
      && (attempts == [] ==> using == 0 && !installed)
      && (attempts != [] ==> (installed <==> attempts[0]))
      && (attempts != [] && !attempts[0] ==> leaked == 1)
    }

    constructor ()
      ensures Sound() && using == 0 && leaked == 0 && !installed && attempts == []
    {
      using, installed, attempts, leaked := 0, false, [], 0;
    }

    /** _papi_hwi_start_signal: the use is counted before sigaction is tried, and
        stays counted when it fails. */
    method Start(sigactionOk: bool) returns (ret: int)
      requires Sound()
      modifies this
      ensures Sound() && using == old(using) + 1 && attempts == old(attempts) + [sigactionOk]
      ensures ret == if old(using) != 0 || sigactionOk then PAPI_OK else PAPI_ESYS
      ensures leaked == old(leaked) + if ret == PAPI_OK then 0 else 1
      ensures installed <==> old(installed) || (old(using) == 0 && sigactionOk)
    {
      using := using + 1;
      attempts := attempts + [sigactionOk];
      if using - 1 != 0 {
        return PAPI_OK;
      }
      if !sigactionOk {
        leaked := leaked + 1;
        return PAPI_ESYS;
      }
      installed := true;
      ret := PAPI_OK;
    }

    /** _papi_hwi_stop_signal.  At 0 it calls sigaction with no action, which changes
        nothing: an installed handler stays.  Its answer is not looked at. */
    method Stop()
      requires Sound() && using > leaked
      modifies this`using
      ensures Sound() && using == old(using) - 1
    {
      using := using - 1;
    }
  }

  predicate BySoftware(e: EventSet)
    reads e`overflowing, e`hardware
  {
    e.overflowing && !e.hardware
  }

  /** Attached to another thread or to a CPU. */
  predicate Attached(e: EventSet)
    reads e`attached, e`cpuAttached
  {
    e.attached || e.cpuAttached
  }

  /** Whether a start puts the set into its slot: an attached set only if it overflows
      by software. */
  predicate TakesSlot(e: EventSet)
    reads e`attached, e`cpuAttached, e`overflowing, e`hardware
  {
    !Attached(e) || BySoftware(e)
  }

  /** Every set is stopped or running, and not both unless it is attached; a slot holds
      a set that is not attached exactly while that set is running; and a slot holds
      nothing but a set of its thread and component.  So at most one set that is not
      attached runs for each slot. */
  ghost predicate SlotsOk(sets: set<EventSet>)
    reads sets`stopped, sets`running, sets`attached, sets`cpuAttached, sets`overflowing, sets`hardware
    reads set e | e in sets :: e.slots
  {
    && (forall e :: e in sets ==> e.cmpIdx < e.slots.Length)
    && (forall e :: e in sets ==> e.stopped || e.running)
    && (forall e :: e in sets && !Attached(e) ==> e.stopped != e.running)
    && (forall e :: e in sets && !Attached(e) ==> (e.running <==> e.slots[e.cmpIdx] == e))
    && (forall e :: e in sets && e.running && BySoftware(e) ==> e.slots[e.cmpIdx] == e)
    && (forall e, c :: e in sets && 0 <= c < e.slots.Length && e.slots[c] != null ==>
          e.slots[c] in sets && e.slots[c].slots == e.slots && e.slots[c].cmpIdx == c)
  }

  ghost function RunningBySoftware(sets: set<EventSet>): set<EventSet>
    reads sets`running, sets`overflowing, sets`hardware
  {
    set e | e in sets && e.running && BySoftware(e)
  }

  ghost function UseCount(sets: set<EventSet>): nat
    reads sets`running, sets`overflowing, sets`hardware
  {
    |RunningBySoftware(sets)|
  }

  /** The signal is in use once for each running set with software overflow. */
  ghost predicate SignalOk(sets: set<EventSet>, sig: Signal)
    reads sets`running, sets`overflowing, sets`hardware, sig
  {
    sig.Sound() && sig.using == UseCount(sets) + sig.leaked
  }

  /** Nobody waits for a signal that has no handler. */
  ghost predicate Handled(sets: set<EventSet>, sig: Signal)
    reads sets`running, sets`overflowing, sets`hardware, sig
  {
    (exists e :: e in sets && e.running && BySoftware(e)) ==> sig.installed
  }

  /** Two running sets are never in the same slot. */
  lemma OneSetPerSlot(sets: set<EventSet>, d: EventSet, e: EventSet)
    requires SlotsOk(sets) && d in sets && e in sets && d.running && e.running
    requires d.slots == e.slots && d.cmpIdx == e.cmpIdx && !Attached(d) && !Attached(e)
    ensures d == e
  {
    assert d.slots[d.cmpIdx] == d && e.slots[e.cmpIdx] == e;
  }

  /** The state in which every set is created. */
  lemma FreshSets(sets: set<EventSet>, sig: Signal)
    requires forall e :: e in sets ==> e.cmpIdx < e.slots.Length && e.stopped && !e.running
    requires forall e, c :: e in sets && 0 <= c < e.slots.Length ==> e.slots[c] == null
    requires sig.Sound() && sig.using == 0 && sig.leaked == 0
    ensures SlotsOk(sets) && SignalOk(sets, sig)
  {
    assert RunningBySoftware(sets) == {};
  }

  /** Without a leaked use, the count is 0 exactly when no set runs with software
      overflow. */
  lemma IdleSignal(sets: set<EventSet>, sig: Signal)
    requires SignalOk(sets, sig) && sig.leaked == 0
    ensures sig.using == 0 <==> forall e :: e in sets ==> !(e.running && BySoftware(e))
  {
    assert RunningBySoftware(sets) == {} <==> sig.using == 0;
    if sig.using == 0 {
      forall e | e in sets ensures !(e.running && BySoftware(e)) {
        assert e !in RunningBySoftware(sets);
      }
    }
  }

  /** Over every run of starts and stops: the sets that run by software have a handler
      exactly if it is installed or only the leaked use is left; without a leaked use
      they always have; and installed it is exactly if the first sigaction worked. */
  lemma HandledExactly(sets: set<EventSet>, sig: Signal)
    requires SignalOk(sets, sig)
    ensures Handled(sets, sig) <==> sig.installed || sig.using == sig.leaked
    ensures sig.leaked == 0 ==> Handled(sets, sig)
    ensures sig.installed <==> sig.attempts != [] && sig.attempts[0]
  {
    var r := RunningBySoftware(sets);
    if sig.using == sig.leaked {
      assert r == {};
      forall e | e in sets ensures !(e.running && BySoftware(e)) {
        assert e !in r;
      }
    } else {
      assert r != {};
      var e :| e in r;
      assert e in sets && e.running && BySoftware(e);
    }
  }

  /** What the component, the signal and the timer answer to a start. */
  datatype StartAnswers = StartAnswers(dirty: bool, updateControlState: int, sigactionOk: bool,
                                       start: int, startTimer: int)

  /** The first failure of signal, component and timer, in this order. */
  function SoftwareAnswer(a: StartAnswers, using: int): int {
    if using == 0 && !a.sigactionOk then PAPI_ESYS
    else if a.start != PAPI_OK then a.start
    else a.startTimer
  }

  /** What refuses a start before anything is changed; PAPI_OK if nothing does. */
  function StartRefusal(e: EventSet, a: StartAnswers): int
    requires e.cmpIdx < e.slots.Length
    reads e`hasComponent, e`events, e.slots
  {
    if e.Component() < 0 then e.Component()
    else if e.slots[e.cmpIdx] != null then PAPI_EISRUN
    else if |e.events| < 1 then PAPI_EINVAL
    else if a.dirty then a.updateControlState
    else PAPI_OK
  }

  /** Only a start that finds the signal unused calls sigaction. */
  predicate TriesSigaction(e: EventSet, a: StartAnswers, sig: Signal)
    requires e.cmpIdx < e.slots.Length
    reads e, e.slots, sig
  {
    StartRefusal(e, a) == PAPI_OK && BySoftware(e) && sig.using == 0
  }

  /** PAPI_start.  It succeeds exactly if nothing refuses; then the set runs in its
      slot, and otherwise set and slots are as before.  A set that overflows by
      software then has its handler exactly if it was installed or no use had leaked
      before.  A start of an attached set looks at a slot the set need not take, so it
      can be started twice. */
  method Start(e: EventSet, a: StartAnswers, sig: Signal, ghost sets: set<EventSet>) returns (ret: int)
    requires e in sets && SlotsOk(sets) && SignalOk(sets, sig)
    modifies e`stopped, e`running, e`counting, e.slots, sig
    ensures SlotsOk(sets) && SignalOk(sets, sig)
    ensures var refused := old(StartRefusal(e, a));
      ret == if refused != PAPI_OK then refused
             else if BySoftware(e) then SoftwareAnswer(a, old(sig.using)) else a.start
    ensures !e.hasComponent ==> ret == PAPI_ENOCMP
    ensures e.hasComponent && old(e.slots[e.cmpIdx]) != null ==> ret == PAPI_EISRUN
    ensures e.hasComponent && old(e.slots[e.cmpIdx]) == null && e.events == [] ==> ret == PAPI_EINVAL
    ensures e.hasComponent && old(e.slots[e.cmpIdx]) == null && e.events != [] ==>
      ret == if a.dirty && a.updateControlState != PAPI_OK then a.updateControlState
             else if e.overflowing && !e.hardware then
               (if old(sig.using) == 0 && !a.sigactionOk then PAPI_ESYS else if a.start != PAPI_OK then a.start else a.startTimer)
             else a.start
    ensures !e.overflowing || e.hardware ==> unchanged(sig)
    ensures ret == PAPI_OK ==> e.running && e.counting && e.stopped == !old(e.stopped)
    ensures ret == PAPI_OK && BySoftware(e) ==> (sig.installed <==> old(sig.installed || sig.leaked == 0))
    ensures e.slots[..] == if ret == PAPI_OK && ((!e.attached && !e.cpuAttached) || (e.overflowing && !e.hardware))
                           then old(e.slots[..])[e.cmpIdx := e] else old(e.slots[..])
    ensures ret != PAPI_OK && old(e.stopped && !e.running) ==> e.stopped && !e.running
    ensures ret != PAPI_OK && TakesSlot(e) ==> e.stopped == old(e.stopped) && e.running == old(e.running)
    ensures old(StartRefusal(e, a)) != PAPI_OK ==> unchanged(e) && unchanged(sig)
    ensures old(e.counting == e.running) ==> e.counting == e.running
    ensures sig.leaked == old(sig.leaked) + if old(TriesSigaction(e, a, sig)) && !a.sigactionOk then 1 else 0
    ensures sig.installed <==> old(sig.installed) || (old(TriesSigaction(e, a, sig)) && a.sigactionOk)
  {
    ret := StartRefusal(e, a);
    if ret != PAPI_OK {
      return;
    }
    if BySoftware(e) {
      ret := StartSoftware(e, a, sig, sets);
    } else if Attached(e) {
      ret := StartAttached(e, a, sig, sets);
    } else {
      ret := StartCounting(e, a, sig, sets);
    }
  }

  /** The branch of PAPI_start that takes the signal and the timer. */
  method StartSoftware(e: EventSet, a: StartAnswers, sig: Signal, ghost sets: set<EventSet>) returns (ret: int)
    requires e in sets && SlotsOk(sets) && SignalOk(sets, sig)
    requires e.slots[e.cmpIdx] == null && BySoftware(e)
    modifies e`stopped, e`running, e`counting, e.slots, sig
    ensures SlotsOk(sets) && SignalOk(sets, sig)
    ensures ret == SoftwareAnswer(a, old(sig.using))
    ensures old(e.stopped) && !old(e.running)
    ensures ret == PAPI_OK ==> e.running && e.counting && !e.stopped && e.slots[..] == old(e.slots[..])[e.cmpIdx := e]
    ensures sig.leaked == old(sig.leaked) + if old(sig.using) == 0 && !a.sigactionOk then 1 else 0
    ensures sig.installed <==> old(sig.installed) || (old(sig.using) == 0 && a.sigactionOk)
    ensures ret != PAPI_OK ==> e.stopped && !e.running && e.slots[..] == old(e.slots[..])
    ensures ret != PAPI_OK && e.counting ==> old(e.counting)
  {
    ret := sig.Start(a.sigactionOk);
    if ret != PAPI_OK {
      return;
    }
    ret := RunSoftware(e, a, sig, sets);
  }

  /** The rest of that branch, with one use of the signal taken ahead. */
  method RunSoftware(e: EventSet, a: StartAnswers, sig: Signal, ghost sets: set<EventSet>) returns (ret: int)
    requires e in sets && SlotsOk(sets) && sig.Sound() && sig.using == UseCount(sets) + sig.leaked + 1
    requires e.slots[e.cmpIdx] == null && BySoftware(e)
    modifies e`stopped, e`running, e`counting, e.slots, sig`using
    ensures SlotsOk(sets) && SignalOk(sets, sig)
    ensures ret == (if a.start != PAPI_OK then a.start else a.startTimer) && old(e.stopped) && !old(e.running)
    ensures ret == PAPI_OK ==> e.running && e.counting && !e.stopped && e.slots[..] == old(e.slots[..])[e.cmpIdx := e]
    ensures ret != PAPI_OK ==> e.stopped && !e.running && e.slots[..] == old(e.slots[..])
    ensures ret != PAPI_OK && e.counting ==> old(e.counting)
  {
    Occupy(e, sets);
    ret := CountAndTime(e, a);
    if ret != PAPI_OK {
      GiveUp(e, true, sig, sets);
    }
  }

  /** Starts the component and then the timer; without the timer the component is
      stopped again. */
  method CountAndTime(e: EventSet, a: StartAnswers) returns (ret: int)
    modifies e`counting
    ensures ret == if a.start != PAPI_OK then a.start else a.startTimer
    ensures if ret == PAPI_OK then e.counting else e.counting ==> old(e.counting)
  {
    if a.start != PAPI_OK {
      return a.start;
    }
    e.counting := true;
    if a.startTimer != PAPI_OK {
      e.counting := false;
    }
    ret := a.startTimer;
  }

  /** The other branch of PAPI_start; after a failure the component is stopped. */
  method StartCounting(e: EventSet, a: StartAnswers, sig: Signal, ghost sets: set<EventSet>) returns (ret: int)
    requires e in sets && SlotsOk(sets) && SignalOk(sets, sig)
    requires e.slots[e.cmpIdx] == null && !BySoftware(e) && !Attached(e)
    modifies e`stopped, e`running, e`counting, e.slots
    ensures SlotsOk(sets) && SignalOk(sets, sig)
    ensures ret == a.start && old(e.stopped) && !old(e.running)
    ensures ret == PAPI_OK ==> e.running && e.counting && !e.stopped && e.slots[..] == old(e.slots[..])[e.cmpIdx := e]
    ensures ret != PAPI_OK ==> e.stopped && !e.running && !e.counting && e.slots[..] == old(e.slots[..])
  {
    Occupy(e, sets);
    ret := a.start;
    e.counting := ret == PAPI_OK;
    if ret != PAPI_OK {
      Vacate(e, true, sets);
    }
  }

  /** The same branch for an attached set, which has no slot of the thread. */
  method StartAttached(e: EventSet, a: StartAnswers, sig: Signal, ghost sets: set<EventSet>) returns (ret: int)
    requires e in sets && SlotsOk(sets) && SignalOk(sets, sig) && !BySoftware(e) && Attached(e)
    modifies e`stopped, e`running, e`counting, e.slots
    ensures SlotsOk(sets) && SignalOk(sets, sig)
    ensures ret == a.start && e.slots[..] == old(e.slots[..])
    ensures ret == PAPI_OK ==> e.running && e.counting && e.stopped == !old(e.stopped)
    ensures ret != PAPI_OK ==> e.stopped && !e.running && !e.counting
  {
    EnterAttached(e, sig, sets);
    ret := a.start;
    e.counting := ret == PAPI_OK;
    if ret != PAPI_OK {
      Vacate(e, false, sets);
    }
  }

  method EnterAttached(e: EventSet, sig: Signal, ghost sets: set<EventSet>)
    requires e in sets && SlotsOk(sets) && SignalOk(sets, sig) && !BySoftware(e) && Attached(e)
    modifies e`stopped, e`running
    ensures SlotsOk(sets) && SignalOk(sets, sig) && e.stopped == !old(e.stopped) && e.running
  {
    ghost var before := RunningBySoftware(sets);
    e.stopped := !e.stopped;
    e.running := true;
    assert RunningBySoftware(sets) == before;
  }

  /** The set starts to run, in its slot. */
  method Enter(e: EventSet, ghost sets: set<EventSet>)
    requires e in sets && SlotsOk(sets) && e.slots[e.cmpIdx] == null && TakesSlot(e)
    modifies e`stopped, e`running, e.slots
    ensures SlotsOk(sets) && e.running && !e.stopped && old(e.stopped) && !old(e.running)
    ensures e.slots[..] == old(e.slots[..])[e.cmpIdx := e]
    ensures e !in old(RunningBySoftware(sets))
    ensures RunningBySoftware(sets) == Joined(old(RunningBySoftware(sets)), e)
  {
    e.stopped := !e.stopped;
    e.running := true;
    e.slots[e.cmpIdx] := e;
  }

  /** The set stops to run; its slot is freed if `free` says so. */
  method Leave(e: EventSet, free: bool, ghost sets: set<EventSet>)
    requires e in sets && SlotsOk(sets) && e.running
    requires if free then e.slots[e.cmpIdx] == e else Attached(e)
    modifies e`stopped, e`running, e.slots
    ensures SlotsOk(sets) && !e.running && e.stopped
    ensures e.slots[..] == if free then old(e.slots[..])[e.cmpIdx := null] else old(e.slots[..])
    ensures BySoftware(e) <==> e in old(RunningBySoftware(sets))
    ensures RunningBySoftware(sets) == old(RunningBySoftware(sets)) - {e}
  {
    e.running := !e.running;
    e.stopped := true;
    if free {
      e.slots[e.cmpIdx] := null;
    }
  }

  /** Entering seen from outside: one more use of the signal is due, or none. */
  method Occupy(e: EventSet, ghost sets: set<EventSet>)
    requires e in sets && SlotsOk(sets) && e.slots[e.cmpIdx] == null && TakesSlot(e)
    modifies e`stopped, e`running, e.slots
    ensures SlotsOk(sets) && e.running && !e.stopped && old(e.stopped) && !old(e.running)
    ensures e.slots[..] == old(e.slots[..])[e.cmpIdx := e]
    ensures UseCount(sets) == old(UseCount(sets)) + if BySoftware(e) then 1 else 0
  {
    ghost var before := RunningBySoftware(sets);
    Enter(e, sets);
    OneMore(before, e);
  }

  /** Leaving seen from outside. */
  method Vacate(e: EventSet, free: bool, ghost sets: set<EventSet>)
    requires e in sets && SlotsOk(sets) && e.running
    requires if free then e.slots[e.cmpIdx] == e else Attached(e)
    modifies e`stopped, e`running, e.slots
    ensures SlotsOk(sets) && !e.running && e.stopped
    ensures e.slots[..] == if free then old(e.slots[..])[e.cmpIdx := null] else old(e.slots[..])
    ensures UseCount(sets) == old(UseCount(sets)) - if BySoftware(e) then 1 else 0
  {
    ghost var before := RunningBySoftware(sets);
    Leave(e, free, sets);
    OneLess(before, e);
  }

  ghost function Joined(r: set<EventSet>, e: EventSet): (q: set<EventSet>)
    reads e`overflowing, e`hardware
  {
    r + if BySoftware(e) then {e} else {}
  }

  lemma OneMore(r: set<EventSet>, e: EventSet)
    requires e !in r
    ensures |Joined(r, e)| == |r| + if BySoftware(e) then 1 else 0
  {
  }

  lemma OneLess(r: set<EventSet>, e: EventSet)
    ensures |r - {e}| == |r| - if e in r then 1 else 0
  {
    assert e in r ==> r == (r - {e}) + {e};
    assert e !in r ==> r == r - {e};
  }

  /** A set that runs by software accounts for a use of the signal. */
  lemma InUse(sets: set<EventSet>, sig: Signal, e: EventSet)
    requires SignalOk(sets, sig) && e in sets && e.running && BySoftware(e)
    ensures sig.using > sig.leaked
  {
    assert e in RunningBySoftware(sets);
  }

  /** Gives the signal back and leaves: both failure exits of the branch that took
      signal and slot, and the end of a stop. */
  method GiveUp(e: EventSet, free: bool, sig: Signal, ghost sets: set<EventSet>)
    requires e in sets && SlotsOk(sets) && e.running && BySoftware(e) && SignalOk(sets, sig)
    requires !free ==> Attached(e)
    modifies e`stopped, e`running, e.slots, sig`using
    ensures SlotsOk(sets) && SignalOk(sets, sig) && !e.running && e.stopped
    ensures e.slots[..] == if free then old(e.slots[..])[e.cmpIdx := null] else old(e.slots[..])
  {
    InUse(sets, sig, e);
    sig.Stop();
    Vacate(e, free, sets);
  }

  datatype StopAnswers = StopAnswers(read: int, stop: int, stopTimer: int)

  /** The component has stopped, but the timer does not. */
  predicate TimerStays(e: EventSet, a: StopAnswers)
    reads e`hasComponent, e`running, e`overflowing, e`hardware
  {
    e.hasComponent && e.running && a.read == PAPI_OK && a.stop == PAPI_OK && BySoftware(e) && a.stopTimer != PAPI_OK
  }

  /** PAPI_stop.  Only a running set stops; then its slot is free exactly if it is not
      attached or held no slot before.  Where an answer is not PAPI_OK, the set is
      still marked running, in its slot and with its use of the signal.  It still
      counts as well, except exactly if the timer was all that refused. */
  method Stop(e: EventSet, a: StopAnswers, sig: Signal, ghost sets: set<EventSet>) returns (ret: int)
    requires e in sets && SlotsOk(sets) && SignalOk(sets, sig)
    modifies e`stopped, e`running, e`counting, e.slots, sig`using
    ensures SlotsOk(sets) && SignalOk(sets, sig)
    ensures ret == if !e.hasComponent then PAPI_ENOCMP
                   else if !old(e.running) then PAPI_ENOTRUN
                   else if a.read != PAPI_OK then a.read
                   else if a.stop != PAPI_OK then a.stop
                   else if e.overflowing && !e.hardware then a.stopTimer else PAPI_OK
    ensures ret == PAPI_OK ==> e.stopped && !e.running && !e.counting
    ensures e.slots[..] == if ret == PAPI_OK && !e.attached && !e.cpuAttached then old(e.slots[..])[e.cmpIdx := null] else old(e.slots[..])
    ensures ret != PAPI_OK ==> unchanged(e`stopped, e`running) && unchanged(sig)
    ensures old(e.counting == e.running) ==> (e.counting == e.running <==> !old(TimerStays(e, a)))
  {
    if e.Component() < 0 {
      return e.Component();
    }
    if !e.running {
      return PAPI_ENOTRUN;
    }
    if a.read != PAPI_OK {
      return a.read;
    }
    if a.stop != PAPI_OK {
      return a.stop;
    }
    e.counting := false;
    if e.overflowing && !e.hardware {
      if a.stopTimer != PAPI_OK {
        return a.stopTimer;
      }
      GiveUp(e, !Attached(e), sig, sets);
    } else {
      Vacate(e, !Attached(e), sets);
    }
    ret := PAPI_OK;
  }

  // --------------------------------------------------------- runs that go wrong

  /** The first sigaction fails, and the next start succeeds and arms the timer with
      no handler for its signal. */
  method RunsWithoutHandler(e: EventSet, sig: Signal, ghost sets: set<EventSet>) returns (first: int, second: int)
    requires e in sets && SlotsOk(sets) && SignalOk(sets, sig) && sig.attempts == []
    requires !Attached(e) && BySoftware(e) && e.events != [] && e.slots[e.cmpIdx] == null && e.hasComponent
    modifies e`stopped, e`running, e`counting, e.slots, sig
    ensures first == PAPI_ESYS && second == PAPI_OK && e.running && !sig.installed && !Handled(sets, sig)
  {
    first := Start(e, StartAnswers(false, PAPI_OK, false, PAPI_OK, PAPI_OK), sig, sets);
    second := Start(e, StartAnswers(false, PAPI_OK, true, PAPI_OK, PAPI_OK), sig, sets);
    assert e in sets && e.running && BySoftware(e);
  }

  /** The timer refuses to stop: the set is marked running and does not count. */
  method RunsWithoutCounting(e: EventSet, sig: Signal, ghost sets: set<EventSet>) returns (ret: int)
    requires e in sets && SlotsOk(sets) && SignalOk(sets, sig)
    requires !Attached(e) && BySoftware(e) && e.running && e.counting && e.hasComponent
    modifies e`stopped, e`running, e`counting, e.slots, sig
    ensures ret == PAPI_ESYS && e.running && !e.counting
  {
    ret := Stop(e, StopAnswers(PAPI_OK, PAPI_OK, PAPI_ESYS), sig, sets);
  }

  /** An attached set is started twice: both calls succeed, and the second marks the
      running set as stopped as well. */
  method StartsTwice(e: EventSet, sig: Signal, ghost sets: set<EventSet>) returns (first: int, second: int)
    requires e in sets && SlotsOk(sets) && SignalOk(sets, sig)
    requires Attached(e) && !BySoftware(e) && e.events != [] && e.slots[e.cmpIdx] == null && e.hasComponent && e.stopped && !e.running
    modifies e`stopped, e`running, e`counting, e.slots, sig
    ensures first == PAPI_OK && second == PAPI_OK && e.running && e.stopped
  {
    var a := StartAnswers(false, PAPI_OK, true, PAPI_OK, PAPI_OK);
    first := Start(e, a, sig, sets);
    second := Start(e, a, sig, sets);
  }

  /** An attached set that overflows by software takes its slot and never frees it: it
      stops, and nothing starts in that slot any more. */
  method SlotStaysTaken(d: EventSet, e: EventSet, a: StartAnswers, sig: Signal, ghost sets: set<EventSet>)
    returns (stopped: int, again: int)
    requires d in sets && e in sets && SlotsOk(sets) && SignalOk(sets, sig)
    requires Attached(e) && BySoftware(e) && e.running && d.slots == e.slots && d.cmpIdx == e.cmpIdx && d.hasComponent && e.hasComponent
    modifies d`stopped, d`running, d`counting, e`stopped, e`running, e`counting, e.slots, sig
    ensures stopped == PAPI_OK && !e.running && e.slots[e.cmpIdx] == e && again == PAPI_EISRUN
  {
    stopped := Stop(e, StopAnswers(PAPI_OK, PAPI_OK, PAPI_OK), sig, sets);
    again := Start(d, a, sig, sets);
  }
}
