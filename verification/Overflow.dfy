/** PAPI_overflow and PAPI_cleanup_eventset (src/papi.c), the latter with
    _papi_hwi_cleanup_eventset of src/papi_internal.c. */
module Overflow {
  import opened Codes
  import opened EventSets

  /** Whether the component has hardware interrupts, and the result of its
      set_overflow. */
  datatype Component = Component(hardwareIntr: bool, setOverflow: int)

  datatype Flags = Flags(forceSw: bool, hardware: bool)

  /** The checks before anything is changed; PAPI_OK if they all pass. */
  function Refusal(es: EventSet, code: int, threshold: int, flags: Flags, handler: int): int
    reads es
  {
    var index := LookupCode(es.events, code);
    if es.Component() < 0 then es.Component()
    else if !es.stopped then PAPI_EISRUN
    else if es.attached || es.cpuAttached then PAPI_EINVAL
    else if index < 0 then PAPI_ENOEVNT
    else if threshold < 0 then PAPI_EINVAL
    else if !flags.forceSw && threshold != 0 && es.events[index].derived == DERIVED_OTHER then PAPI_EINVAL
    else if !es.overflowing && (handler == 0 || threshold == 0) then PAPI_EINVAL
    else if threshold > 0 && es.eventCounter >= es.deadline.Length then PAPI_ECNFLCT
    else PAPI_OK
  }

  /** Mixing forced software and hardware overflow in one table. */
  predicate Mixes(es: EventSet, flags: Flags)
    reads es
  {
    es.eventCounter > 0 && ((flags.forceSw && es.hardware) || (!flags.forceSw && es.forceSw))
  }

  /** The handler and the kind of overflow while there are entries, and neither when
      there are none.  Forced software excludes hardware. */
  predicate Kind(es: EventSet, handler: int, forceSw: bool, c: Component)
    reads es
  {
    if es.eventCounter == 0 then es.handler == 0 && !es.forceSw && !es.hardware
    else es.handler == handler && es.forceSw == forceSw && es.hardware == (c.hardwareIntr && !forceSw)
  }

  /** An overflowing set has someone to call. */
  predicate HandlerSet(es: EventSet)
    reads es
  {
    es.overflowing ==> es.handler != 0
  }

  /** The error of a call that does not touch the table. */
  function FirstError(es: EventSet, code: int, threshold: int, flags: Flags, handler: int): int
    reads es
  {
    var refused := Refusal(es, code, threshold, flags, handler);
    if refused != PAPI_OK then refused
    else if threshold == 0 then PAPI_EINVAL
    else PAPI_ECNFLCT
  }

  /** What a call makes of the table; None if it is refused. */
  datatype Change = None | Became(table: seq<Entry>)

  ghost function Changed(es: EventSet, code: int, threshold: int, flags: Flags, handler: int): Change
    requires es.Shape()
    reads es, es.deadline, es.threshold, es.eventIndex, es.eventCode
  {
    var t := es.Table();
    if Refusal(es, code, threshold, flags, handler) != PAPI_OK then None
    else if threshold == 0 then
      (if Find(t, code) == |t| then None else Became(Dropped(t, Find(t, code))))
    else if Mixes(es, flags) then None
    else Became(Put(t, Entry(code, LookupCode(es.events, code), threshold, threshold)))
  }

  method FindCode(es: EventSet, code: int) returns (i: nat)
    requires es.Shape()
    ensures i == Find(es.Table(), code)
  {
    i := 0;
    while i < es.eventCounter
      invariant 0 <= i <= es.eventCounter
      invariant forall j :: 0 <= j < i ==> es.Table()[j].code != code
    {
      if es.eventCode[i] == code {
        assert es.Table()[i].code == code;
        return;
      }
      i := i + 1;
    }
  }

  /** Closes the gap at `at` in all four arrays and clears the slot set free. */
  method Compact(es: EventSet, at: nat)
    requires es.Shape() && at < es.eventCounter
    modifies es`eventCounter, es.deadline, es.threshold, es.eventIndex, es.eventCode
    ensures es.Shape() && es.eventCounter == old(es.eventCounter) - 1
    ensures es.Table() == Dropped(old(es.Table()), at)
  {
    ghost var t, n := es.Table(), es.eventCounter;
    ghost var s := t;
    ShiftedEnds(t, at);
    var i := at;
    while i < es.eventCounter - 1
      invariant at <= i <= n - 1 && es.eventCounter == n && es.Shape()
      invariant es.Table() == s && s == Shifted(t, at, i)
    {
      MoveDown(es, i);
      s := s[i := s[i + 1]];
      i := i + 1;
    }
    ClearLast(es);
  }

  /** The table while the entries behind `at` move down, the first up to i. */
  ghost function Shifted(t: seq<Entry>, at: nat, i: nat): (s: seq<Entry>)
    requires at <= i < |t|
    ensures |s| == |t|
  {
    if i == at then t else var s := Shifted(t, at, i - 1); s[i - 1 := s[i]]
  }

  lemma {:induction false} ShiftedAt(t: seq<Entry>, at: nat, i: nat, n: nat)
    requires at <= i < |t| && n < |t|
    ensures Shifted(t, at, i)[n] == if at <= n < i then t[n + 1] else t[n]
  {
    if i > at {
      ShiftedAt(t, at, i - 1, n);
      ShiftedAt(t, at, i - 1, i);
    }
  }

  lemma ShiftedEnds(t: seq<Entry>, at: nat)
    requires at < |t|
    ensures Shifted(t, at, |t| - 1)[..|t| - 1] == Dropped(t, at)
  {
    forall n | 0 <= n < |t| - 1
      ensures Shifted(t, at, |t| - 1)[n] == Dropped(t, at)[n]
    {
      ShiftedAt(t, at, |t| - 1, n);
    }
  }

  /** Zeroes the last entry and gives it up. */
  method ClearLast(es: EventSet)
    requires es.Shape() && es.eventCounter > 0
    modifies es`eventCounter, es.deadline, es.threshold, es.eventIndex, es.eventCode
    ensures es.Shape() && es.eventCounter == old(es.eventCounter) - 1
    ensures es.Table() == old(es.Table())[..es.eventCounter]
  {
    var i := es.eventCounter - 1;
    es.deadline[i] := 0;
    es.threshold[i] := 0;
    es.eventIndex[i] := 0;
    es.eventCode[i] := 0;
    es.eventCounter := i;
  }

  /** Copies entry i + 1 over entry i. */
  method MoveDown(es: EventSet, i: nat)
    requires es.Shape() && i + 1 < es.eventCounter
    modifies es.deadline, es.threshold, es.eventIndex, es.eventCode
    ensures es.Table() == old(es.Table())[i := old(es.Table())[i + 1]]
  {
    es.deadline[i] := es.deadline[i + 1];
    es.threshold[i] := es.threshold[i + 1];
    es.eventIndex[i] := es.eventIndex[i + 1];
    es.eventCode[i] := es.eventCode[i + 1];
  }

  /** Writes the entry in place of the one with its code, or behind the last. */
  method Store(es: EventSet, code: int, index: int, threshold: int)
    requires es.Shape() && (es.eventCounter < es.deadline.Length || Find(es.Table(), code) < es.eventCounter)
    modifies es`eventCounter, es.deadline, es.threshold, es.eventIndex, es.eventCode
    ensures es.Shape()
    ensures es.Table() == Put(old(es.Table()), Entry(code, index, threshold, threshold))
    ensures es.eventCounter >= 1
  {
    var i := FindCode(es, code);
    if i == es.eventCounter {
      es.eventCode[i] := code;
      es.eventCounter := es.eventCounter + 1;
    }
    es.deadline[i] := threshold;
    es.threshold[i] := threshold;
    es.eventIndex[i] := index;
  }

  /** PAPI_overflow.  `applied` says whether the table was touched; it is exactly
      when the checks pass.  The table stays aligned whatever the component says.
      The overflowing bit is right afterwards if the component accepts.  If it refuses
      a bit that was right is wrong afterwards exactly if the call stored the first
      entry or dropped the only one.  A bit that was wrong is put right, where it was
      clear, exactly by a call that succeeds, and where it was set exactly by one that
      touches the table.  An overflowing set that had a handler has one afterwards
      unless the call that touched the table brought none. */
  method Call(es: EventSet, code: int, threshold: int, flags: Flags, handler: int, c: Component)
    returns (ret: int, ghost applied: bool)
    requires es.TableOk()
    modifies es`eventCounter, es`overflowing, es`forceSw, es`hardware, es`handler
    modifies es.deadline, es.threshold, es.eventIndex, es.eventCode
    ensures es.TableOk()
    ensures applied <==> old(Changed(es, code, threshold, flags, handler)).Became?
    ensures applied ==> es.Table() == old(Changed(es, code, threshold, flags, handler)).table
    ensures applied && threshold > 0 ==>
      Stored(old(es.Table()), es.Table(), Entry(code, LookupCode(es.events, code), threshold, threshold))
    ensures applied && threshold == 0 ==> Removed(old(es.Table()), es.Table(), code)
    ensures !applied ==> ret == old(FirstError(es, code, threshold, flags, handler)) != PAPI_OK
    ensures !applied ==> es.Table() == old(es.Table()) && unchanged(es)
    ensures applied ==> ret == Answer(c, HeldSw(old(es.forceSw), threshold, flags))
    ensures ret == PAPI_OK ==> es.FlagOk() && Kind(es, handler, HeldSw(old(es.forceSw), threshold, flags), c)
    ensures ret != PAPI_OK ==> es.overflowing == old(es.overflowing)
    ensures applied && ret != PAPI_OK ==>
      && es.handler == handler && es.forceSw == HeldSw(old(es.forceSw), threshold, flags)
      && es.hardware == if threshold == 0 then old(es.hardware) else flags.hardware
    ensures old(!es.FlagOk()) ==> (es.FlagOk() <==> if old(es.overflowing) then applied else ret == PAPI_OK)
    ensures old(es.FlagOk()) && applied && ret != PAPI_OK ==>
      (!es.FlagOk() <==> old(es.eventCounter) == if threshold > 0 then 0 else 1)
    ensures old(es.FlagOk() && HandlerSet(es)) ==> (HandlerSet(es) <==>
      !applied || handler != 0 || (ret == PAPI_OK && threshold == 0 && old(es.eventCounter) == 1))
  {
    ghost var t, u := es.Table(), Changed(es, code, threshold, flags, handler);
    ret, applied := CallSteps(es, code, threshold, flags, handler, c);
    if applied {
      ChangeMeans(t, es.events, code, threshold, u.table);
    }
  }

  /** When a call that passes the first checks is applied, what the component is then
      asked, and the state bits of a call that succeeds. */
  lemma AppliedMeans(es: EventSet, code: int, threshold: int, flags: Flags, handler: int, c: Component, before: bool)
    requires es.Shape()
    ensures Refusal(es, code, threshold, flags, handler) == PAPI_OK ==>
      (Changed(es, code, threshold, flags, handler).Became? <==>
        if threshold == 0 then exists e: Entry :: e in es.Table() && e.code == code
        else es.eventCounter == 0 || if flags.forceSw then !es.hardware else !es.forceSw)
    ensures var sw := if threshold == 0 then before else flags.forceSw;
      && Answer(c, HeldSw(before, threshold, flags)) == (if c.hardwareIntr && !sw then c.setOverflow else PAPI_OK)
      && (Kind(es, handler, HeldSw(before, threshold, flags), c) <==>
            if es.eventCounter == 0 then es.handler == 0 && !es.forceSw && !es.hardware
            else es.handler == handler && es.forceSw == sw && (es.hardware <==> c.hardwareIntr && !sw))
  {
    var t := es.Table();
    forall e: Entry | e in t && e.code == code ensures Find(t, code) < |t| {
      var i :| 0 <= i < |t| && t[i] == e;
    }
  }

  lemma ChangeMeans(t: seq<Entry>, events: seq<EventInfo>, code: int, threshold: int, u: seq<Entry>)
    requires Aligned(t, events) && threshold >= 0 && (threshold == 0 ==> Find(t, code) < |t|)
    requires u == if threshold == 0 then Dropped(t, Find(t, code))
                  else Put(t, Entry(code, LookupCode(events, code), threshold, threshold))
    ensures threshold > 0 ==> Stored(t, u, Entry(code, LookupCode(events, code), threshold, threshold))
    ensures threshold == 0 ==> Removed(t, u, code)
  {
    if threshold == 0 {
      DropMeans(t, code);
    } else {
      PutMeans(t, Entry(code, LookupCode(events, code), threshold, threshold));
    }
  }

  /** The steps of PAPI_overflow. */
  method CallSteps(es: EventSet, code: int, threshold: int, flags: Flags, handler: int, c: Component)
    returns (ret: int, ghost applied: bool)
    requires es.TableOk()
    modifies es`eventCounter, es`overflowing, es`forceSw, es`hardware, es`handler
    modifies es.deadline, es.threshold, es.eventIndex, es.eventCode
    ensures es.TableOk()
    ensures applied <==> old(Changed(es, code, threshold, flags, handler)).Became?
    ensures applied ==> es.Table() == old(Changed(es, code, threshold, flags, handler)).table
    ensures !applied ==> ret == old(FirstError(es, code, threshold, flags, handler)) != PAPI_OK
    ensures !applied ==> es.Table() == old(es.Table()) && unchanged(es)
    ensures applied ==> ret == Answer(c, HeldSw(old(es.forceSw), threshold, flags))
    ensures ret == PAPI_OK ==> es.FlagOk() && Kind(es, handler, HeldSw(old(es.forceSw), threshold, flags), c)
    ensures ret != PAPI_OK ==> es.overflowing == old(es.overflowing)
    ensures applied && ret != PAPI_OK ==>
      && es.handler == handler && es.forceSw == HeldSw(old(es.forceSw), threshold, flags)
      && es.hardware == if threshold == 0 then old(es.hardware) else flags.hardware
    ensures old(!es.FlagOk()) ==> (es.FlagOk() <==> if old(es.overflowing) then applied else ret == PAPI_OK)
    ensures old(es.FlagOk()) && applied && ret != PAPI_OK ==>
      (!es.FlagOk() <==> old(es.eventCounter) == if threshold > 0 then 0 else 1)
    ensures old(es.FlagOk() && HandlerSet(es)) ==> (HandlerSet(es) <==>
      !applied || handler != 0 || (ret == PAPI_OK && threshold == 0 && old(es.eventCounter) == 1))
  {
    applied := false;
    ret := Refusal(es, code, threshold, flags, handler);
    if ret == PAPI_OK {
      ret, applied := UpdateTable(es, code, threshold, flags);
      if ret == PAPI_OK {
        es.handler := handler;
        ret := Finish(es, c);
      }
    }
  }

  /** Which refusal a call meets, and that it meets none exactly if all of these pass. */
  lemma RefusalMeans(es: EventSet, code: int, threshold: int, flags: Flags, handler: int)
    ensures !es.hasComponent ==> Refusal(es, code, threshold, flags, handler) == PAPI_ENOCMP
    ensures es.hasComponent && !es.stopped ==> Refusal(es, code, threshold, flags, handler) == PAPI_EISRUN
    ensures es.hasComponent && es.stopped && (es.attached || es.cpuAttached) ==>
      Refusal(es, code, threshold, flags, handler) == PAPI_EINVAL
    ensures Refusal(es, code, threshold, flags, handler) == PAPI_ENOEVNT
      <==> && es.hasComponent && es.stopped && !es.attached && !es.cpuAttached
           && forall i :: 0 <= i < |es.events| ==> es.events[i].code != code
    ensures Refusal(es, code, threshold, flags, handler) == PAPI_OK
      <==> && es.hasComponent && es.stopped && !es.attached && !es.cpuAttached && threshold >= 0
           && (exists i :: 0 <= i < |es.events| && es.events[i].code == code
                           && (forall j :: 0 <= j < i ==> es.events[j].code != code)
                           && (flags.forceSw || threshold == 0 || es.events[i].derived != DERIVED_OTHER))
           && (es.overflowing || (handler != 0 && threshold > 0))
           && (threshold > 0 ==> es.eventCounter < es.deadline.Length)
    ensures Refusal(es, code, threshold, flags, handler) == PAPI_ECNFLCT ==>
      threshold > 0 && es.eventCounter >= es.deadline.Length
  {
  }

  /** A set whose flag is clear after a refused entry: exactly these calls put it right.
      Where the arrays are full none does. */
  lemma WhenRepaired(es: EventSet, code: int, threshold: int, flags: Flags, handler: int, c: Component)
    requires es.TableOk() && !es.overflowing && es.eventCounter >= 1
    requires es.hasComponent && es.stopped && !es.attached && !es.cpuAttached
    ensures Changed(es, code, threshold, flags, handler).Became? && Answer(c, HeldSw(es.forceSw, threshold, flags)) == PAPI_OK
      <==>
      && LookupCode(es.events, code) >= 0 && threshold > 0 && handler != 0 && es.eventCounter < es.deadline.Length
      && (!flags.forceSw ==> es.events[LookupCode(es.events, code)].derived != DERIVED_OTHER)
      && !Mixes(es, flags) && (c.hardwareIntr && !flags.forceSw ==> c.setOverflow == PAPI_OK)
  {
  }

  /** A component that refuses the first entry: the entry stays, the flag is clear, and
      a call to drop the entry fails.  With room for another entry a later call that
      the component accepts sets the flag, and then the entry can be dropped. */
  method RefusedEntry(es: EventSet, code: int, handler: int, refusal: int) returns (dropped: int, again: int, last: int)
    requires es.TableOk() && es.Table() == [] && !es.overflowing && es.deadline.Length > 1
    requires es.hasComponent && es.stopped && !es.attached && !es.cpuAttached
    requires LookupCode(es.events, code) >= 0 && es.events[LookupCode(es.events, code)].derived == NOT_DERIVED
    requires handler != 0 && refusal != PAPI_OK
    modifies es, es.deadline, es.threshold, es.eventIndex, es.eventCode
    ensures dropped == PAPI_EINVAL && again == PAPI_OK && last == PAPI_OK
    ensures es.TableOk() && es.Table() == [] && es.FlagOk()
  {
    var flags := Flags(false, false);
    dropped := RefuseAndDrop(es, code, handler, refusal);
    ghost var applied;
    assert Find(es.Table(), code) == 0;
    again, applied := Call(es, code, 10, flags, handler, Component(true, PAPI_OK));
    last := DropOnly(es, code, handler);
  }

  /** The refused entry and the failing drop. */
  method RefuseAndDrop(es: EventSet, code: int, handler: int, refusal: int) returns (dropped: int)
    requires es.TableOk() && es.Table() == [] && !es.overflowing && es.deadline.Length > 1
    requires es.hasComponent && es.stopped && !es.attached && !es.cpuAttached
    requires LookupCode(es.events, code) >= 0 && es.events[LookupCode(es.events, code)].derived == NOT_DERIVED
    requires handler != 0 && refusal != PAPI_OK
    modifies es`eventCounter, es`overflowing, es`forceSw, es`hardware, es`handler
    modifies es.deadline, es.threshold, es.eventIndex, es.eventCode
    ensures dropped == PAPI_EINVAL && es.TableOk() && !es.overflowing && !es.forceSw && !es.hardware
    ensures es.Table() == [Entry(code, LookupCode(es.events, code), 10, 10)]
  {
    var flags := Flags(false, false);
    ghost var applied;
    dropped, applied := Call(es, code, 10, flags, handler, Component(true, refusal));
    dropped, applied := Call(es, code, 0, flags, handler, Component(true, PAPI_OK));
  }

  method DropOnly(es: EventSet, code: int, handler: int) returns (ret: int)
    requires es.TableOk() && es.overflowing && es.eventCounter == 1 && es.Table()[0].code == code
    requires es.hasComponent && es.stopped && !es.attached && !es.cpuAttached
    modifies es`eventCounter, es`overflowing, es`forceSw, es`hardware, es`handler
    modifies es.deadline, es.threshold, es.eventIndex, es.eventCode
    ensures ret == PAPI_OK && es.TableOk() && es.Table() == [] && es.FlagOk()
  {
    assert Find(es.Table(), code) == 0;
    ghost var applied;
    ret, applied := Call(es, code, 0, Flags(false, false), handler, Component(true, PAPI_OK));
  }

  /** Dropping one of two entries with no handler: the set goes on overflowing with
      nobody to call. */
  method DropLosesTheHandler(es: EventSet, c: Component) returns (ret: int)
    requires es.TableOk() && es.FlagOk() && es.eventCounter == 2 && HandlerSet(es)
    requires es.stopped && !es.attached && !es.cpuAttached
    requires es.hasComponent && c.setOverflow == PAPI_OK
    modifies es, es.deadline, es.threshold, es.eventIndex, es.eventCode
    ensures ret == PAPI_OK && es.overflowing && es.eventCounter == 1 && es.handler == 0
  {
    assert es.Table()[0].code == es.eventCode[0] && Find(es.Table(), es.eventCode[0]) == 0;
    ghost var applied;
    ret, applied := Call(es, es.eventCode[0], 0, Flags(false, false), 0, c);
  }

  /** What the component answers to a table held in forced software or not. */
  function Answer(c: Component, forceSw: bool): int {
    if c.hardwareIntr && !forceSw then c.setOverflow else PAPI_OK
  }

  /** The table's part of a call that has passed the first checks. */
  method UpdateTable(es: EventSet, code: int, threshold: int, flags: Flags) returns (ret: int, ghost applied: bool)
    requires es.TableOk() && LookupCode(es.events, code) >= 0 && threshold >= 0
    requires threshold > 0 ==> es.eventCounter < es.deadline.Length
    modifies es`eventCounter, es`forceSw, es`hardware, es.deadline, es.threshold, es.eventIndex, es.eventCode
    ensures es.TableOk()
    ensures applied <==> ret == PAPI_OK
    ensures applied <==> if threshold == 0 then Find(old(es.Table()), code) < old(es.eventCounter) else !old(Mixes(es, flags))
    ensures applied && threshold == 0 ==> es.Table() == Dropped(old(es.Table()), Find(old(es.Table()), code))
    ensures applied && threshold > 0 ==>
      && es.Table() == Put(old(es.Table()), Entry(code, LookupCode(es.events, code), threshold, threshold))
      && Entry(code, LookupCode(es.events, code), threshold, threshold) in es.Table()
    ensures applied ==> es.forceSw == HeldSw(old(es.forceSw), threshold, flags)
    ensures applied ==> es.hardware == if threshold == 0 then old(es.hardware) else flags.hardware
    ensures !applied ==> es.Table() == old(es.Table()) && unchanged(es)
    ensures !applied ==> ret == if threshold == 0 then PAPI_EINVAL else PAPI_ECNFLCT
  {
    if threshold == 0 {
      var i := FindCode(es, code);
      if i == es.eventCounter {
        return PAPI_EINVAL, false;
      }
      DroppedAligned(es.Table(), es.events, i);
      Compact(es, i);
    } else {
      if Mixes(es, flags) {
        return PAPI_ECNFLCT, false;
      }
      StoreEvent(es, code, threshold);
      es.forceSw, es.hardware := flags.forceSw, flags.hardware;
    }
    return PAPI_OK, true;
  }

  /** Stores the entry of an event of the set. */
  method StoreEvent(es: EventSet, code: int, threshold: int)
    requires es.TableOk() && LookupCode(es.events, code) >= 0 && threshold > 0 && es.eventCounter < es.deadline.Length
    modifies es`eventCounter, es.deadline, es.threshold, es.eventIndex, es.eventCode
    ensures es.TableOk()
    ensures es.Table() == Put(old(es.Table()), Entry(code, LookupCode(es.events, code), threshold, threshold))
  {
    var index := LookupCode(es.events, code);
    PutAligned(es.Table(), es.events, Entry(code, index, threshold, threshold));
    Store(es, code, index, threshold);
  }

  /** Whether the table is held in forced software after the call. */
  predicate HeldSw(before: bool, threshold: int, flags: Flags) {
    if threshold == 0 then before else flags.forceSw
  }

  /** The component's part and the state bits. */
  method Finish(es: EventSet, c: Component) returns (ret: int)
    requires es.Shape() && (es.eventCounter == 0 ==> es.overflowing)
    modifies es`hardware, es`overflowing, es`forceSw, es`handler
    ensures ret == Answer(c, old(es.forceSw))
    ensures ret == PAPI_OK ==> es.FlagOk() && Kind(es, old(es.handler), old(es.forceSw), c)
    ensures ret != PAPI_OK ==> unchanged(es)
  {
    if c.hardwareIntr && !es.forceSw {
      ret := c.setOverflow;
      if ret == PAPI_OK {
        es.hardware := true;
      } else {
        return;
      }
    } else {
      es.hardware := false;
    }
    if es.eventCounter >= 1 {
      es.overflowing := true;
    } else {
      es.overflowing := !es.overflowing;
      es.forceSw, es.hardware := false, false;
      es.handler := 0;
    }
    ret := PAPI_OK;
  }

  // --------------------------------------------------------------------- cleanup

  /** The answers of the remaining steps of a cleanup: the end of profiling, and the
      component's cleanup_eventset and update_control_state. */
  datatype CleanupAnswers = CleanupAnswers(profile: int, component: int, update: int)

  /** What the loop that drops the entries answers: the first refusal. */
  function LoopAnswer(es: EventSet, c: Component): int
    reads es
  {
    if !es.overflowing || es.eventCounter == 0 then PAPI_OK
    else if !es.stopped then PAPI_EISRUN
    else if es.attached || es.cpuAttached then PAPI_EINVAL
    else Answer(c, es.forceSw)
  }

  /** The table after the loop: a component that refuses does so after the first entry. */
  ghost function LoopTable(es: EventSet, c: Component): seq<Entry>
    requires es.Shape()
    reads es, es.deadline, es.threshold, es.eventIndex, es.eventCode
  {
    if !es.overflowing || es.eventCounter == 0 then es.Table()
    else if LoopAnswer(es, c) == PAPI_OK then []
    else if !es.stopped || es.attached || es.cpuAttached then es.Table()
    else Dropped(es.Table(), 0)
  }

  /** The answer of a cleanup. */
  function CleanupAnswer(es: EventSet, c: Component, a: CleanupAnswers): int
    reads es
  {
    if es.Component() < 0 then (if es.events == [] then PAPI_OK else es.Component())
    else if es.running then PAPI_EISRUN
    else if LoopAnswer(es, c) != PAPI_OK then LoopAnswer(es, c)
    else if a.profile != PAPI_OK then a.profile
    else if a.component != PAPI_OK then a.component
    else a.update
  }

  /** The cleanup gets as far as wiping the events. */
  predicate Wipes(es: EventSet, c: Component, a: CleanupAnswers)
    reads es
  {
    es.hasComponent && !es.running && LoopAnswer(es, c) == PAPI_OK && a.profile == PAPI_OK && a.component == PAPI_OK
  }

  /** The loop of PAPI_cleanup_eventset: take entry 0 off `total` times. */
  method DropAll(es: EventSet, c: Component) returns (ret: int)
    requires es.TableOk() && es.hasComponent
    modifies es`eventCounter, es`overflowing, es`forceSw, es`hardware, es`handler
    modifies es.deadline, es.threshold, es.eventIndex, es.eventCode
    ensures es.TableOk()
    ensures ret == old(LoopAnswer(es, c)) && es.Table() == old(LoopTable(es, c))
    ensures es.overflowing == if ret == PAPI_OK then old(es.overflowing && es.eventCounter == 0) else old(es.overflowing)
  {
    ret := PAPI_OK;
    if es.overflowing {
      var total := es.eventCounter;
      var i := 0;
      while i < total
        invariant 0 <= i <= total && es.TableOk() && es.eventCounter == total - i && ret == PAPI_OK
        invariant i == 0 ==> es.overflowing && es.Table() == old(es.Table()) && es.forceSw == old(es.forceSw)
        invariant i > 0 ==> old(LoopAnswer(es, c)) == PAPI_OK && es.FlagOk()
        invariant 0 < i < total ==> es.forceSw == old(es.forceSw)
      {
        ret := DropFirst(es, c);
        if ret != PAPI_OK {
          return;
        }
        i := i + 1;
      }
    }
  }

  /** One turn of the loop. */
  method DropFirst(es: EventSet, c: Component) returns (ret: int)
    requires es.TableOk() && es.hasComponent && es.overflowing && es.eventCounter > 0
    modifies es`eventCounter, es`overflowing, es`forceSw, es`hardware, es`handler
    modifies es.deadline, es.threshold, es.eventIndex, es.eventCode
    ensures es.TableOk() && ret == old(LoopAnswer(es, c))
    ensures ret == PAPI_OK ==> es.FlagOk() && es.Table() == Dropped(old(es.Table()), 0)
    ensures ret == PAPI_OK && es.eventCounter > 0 ==> es.forceSw == old(es.forceSw)
    ensures ret != PAPI_OK ==> es.Table() == old(LoopTable(es, c)) && es.overflowing
  {
    assert es.Table()[0].code == es.eventCode[0] && Find(es.Table(), es.eventCode[0]) == 0;
    ghost var applied;
    ret, applied := Call(es, es.eventCode[0], 0, Flags(false, false), 0, c);
  }

  /** An event of which only the place is left. */
  const NO_EVENT := EventInfo(PAPI_NULL, [PAPI_NULL, PAPI_NULL, PAPI_NULL, PAPI_NULL, PAPI_NULL, PAPI_NULL, PAPI_NULL, PAPI_NULL],
                              NOT_DERIVED)

  /** _papi_hwi_cleanup_eventset: the events are wiped before the component is asked,
      and the overflow part after it has agreed; the overflowing bit is not touched. */
  method Clear(es: EventSet, update: int) returns (ret: int)
    modifies es`hasComponent, es`events, es`eventCounter, es`forceSw, es`hardware, es`handler
    ensures ret == update
    ensures ret == PAPI_OK ==>
      && !es.hasComponent && es.events == [] && es.eventCounter == 0
      && !es.forceSw && !es.hardware && es.handler == 0
    ensures ret != PAPI_OK ==>
      && unchanged(es`hasComponent, es`eventCounter, es`forceSw, es`hardware, es`handler)
      && es.events == seq(|old(es.events)|, _ => NO_EVENT)
  {
    es.events := seq(|es.events|, _ => NO_EVENT);
    if update != PAPI_OK {
      return update;
    }
    es.hasComponent, es.events, es.eventCounter := false, [], 0;
    es.forceSw, es.hardware, es.handler := false, false, 0;
    ret := PAPI_OK;
  }

  /** PAPI_cleanup_eventset.  Success on a set with a component leaves no event, no
      entry and no component, and it leaves the overflowing bit set exactly if it was
      set with an empty table before.  The table gets out of step with the events
      exactly if entries were left where the bit was clear, and the events were wiped
      before the component refused. */
  method Cleanup(es: EventSet, c: Component, a: CleanupAnswers) returns (ret: int)
    requires es.TableOk()
    modifies es`hasComponent, es`events, es`eventCounter, es`overflowing, es`forceSw, es`hardware, es`handler
    modifies es.deadline, es.threshold, es.eventIndex, es.eventCode
    ensures es.Shape() && ret == old(CleanupAnswer(es, c, a))
    ensures ret == PAPI_OK && old(es.hasComponent) ==>
      && es.Table() == [] && es.events == [] && !es.hasComponent
      && !es.forceSw && !es.hardware && es.handler == 0
      && (es.overflowing <==> old(es.overflowing && es.eventCounter == 0))
    ensures ret == PAPI_OK <==> old(
      if !es.hasComponent then es.events == []
      else
        && !es.running && a.profile == PAPI_OK && a.component == PAPI_OK && a.update == PAPI_OK
        && (es.overflowing && es.eventCounter > 0 ==>
              es.stopped && !es.attached && !es.cpuAttached && (c.hardwareIntr && !es.forceSw ==> c.setOverflow == PAPI_OK)))
    ensures old(es.hasComponent && es.running) ==> ret == PAPI_EISRUN
    ensures old(!es.hasComponent && es.events != []) ==> ret == PAPI_ENOCMP
    ensures old(!es.hasComponent || es.running) ==> unchanged(es) && es.Table() == old(es.Table())
    ensures ret != PAPI_OK && old(es.hasComponent && !es.running) ==> es.Table() == old(LoopTable(es, c)) && es.hasComponent
    ensures ret != PAPI_OK ==> es.events == if old(Wipes(es, c, a)) then seq(|old(es.events)|, _ => NO_EVENT) else old(es.events)
    ensures !old(OutOfStep(es, c, a)) ==> es.TableOk()
    ensures old(OutOfStep(es, c, a) && forall e :: e in es.Table() ==> e.code != PAPI_NULL) ==> !es.TableOk()
  {
    if es.Component() < 0 {
      return if es.events != [] then es.Component() else PAPI_OK;
    }
    if es.running {
      return PAPI_EISRUN;
    }
    ret := DropAll(es, c);
    if ret != PAPI_OK {
      return;
    }
    if a.profile != PAPI_OK {
      return a.profile;
    }
    if a.component != PAPI_OK {
      return a.component;
    }
    ghost var t, n := es.Table(), |es.events|;
    ret := Clear(es, a.update);
    if ret != PAPI_OK {
      assert es.Table() == t;
      WipedOutOfStep(t, n);
    }
  }

  /** Entries of wiped events are out of step. */
  lemma WipedOutOfStep(t: seq<Entry>, n: nat)
    ensures t == [] ==> Aligned(t, seq(n, _ => NO_EVENT))
    ensures t != [] && (forall e :: e in t ==> e.code != PAPI_NULL) ==> !Aligned(t, seq(n, _ => NO_EVENT))
  {
    if t != [] && t[0].code != PAPI_NULL {
      assert t[0] in t;
      assert LookupCode(seq(n, _ => NO_EVENT), t[0].code) == PAPI_EINVAL;
    }
  }

  predicate OutOfStep(es: EventSet, c: Component, a: CleanupAnswers)
    reads es
  {
    Wipes(es, c, a) && a.update != PAPI_OK && !es.overflowing && es.eventCounter > 0
  }

  /** The drop of the only entry is refused, and a cleanup that succeeds leaves the
      overflowing bit set. */
  method FlagOutlivesCleanup(es: EventSet, refusal: int) returns (dropped: int, cleaned: int)
    requires es.TableOk() && es.FlagOk() && es.eventCounter == 1 && !es.forceSw
    requires es.hasComponent && es.stopped && !es.running && !es.attached && !es.cpuAttached && refusal != PAPI_OK
    modifies es, es.deadline, es.threshold, es.eventIndex, es.eventCode
    ensures dropped == refusal && cleaned == PAPI_OK
    ensures es.TableOk() && es.Table() == [] && es.events == [] && !es.hasComponent && es.overflowing
  {
    assert es.Table()[0].code == es.eventCode[0] && Find(es.Table(), es.eventCode[0]) == 0;
    ghost var applied;
    dropped, applied := Call(es, es.eventCode[0], 0, Flags(false, false), 0, Component(true, refusal));
    cleaned := Cleanup(es, Component(true, PAPI_OK), CleanupAnswers(PAPI_OK, PAPI_OK, PAPI_OK));
  }
}
