/** The NeoMPX hand-off between the client thread and the sampling thread
    (src/papi_accurate_multiplexing.c), as a transition system.

    `mut` is a mutex with an owner.  `mut2` is taken by the client and released
    by the worker, so it is a token without an owner.  `barrier_start` is a
    rendezvous of two.  The signal handler clears `sampling`. */
module MpxProtocol {

  /** One API call with the arguments it stores in the shared record. */
  datatype Command =
    | Create(set_: int)
    | Add(set_: int, event: int)
    | Start(set_: int, interval: int)
    | Stop(set_: int, values: int, postMethod: int, dataFlag: int)
    | Finalize

  datatype Status = INIT | WAIT | CREATE | ADD | START | STOP | FINAL

  /** The shared PAPI_MPX_attr record. */
  datatype Attr = Attr(status: Status, eventSet: int, event: int, interval: int,
                       values: int, postMethod: int, dataFlag: int)

  /** The assignments each call makes while it holds `mut`. */
  function Store(a: Attr, c: Command): Attr {
    match c
    case Create(s) => a.(eventSet := s, status := CREATE)
    case Add(s, e) => a.(eventSet := s, event := e, status := ADD)
    case Start(s, i) => a.(eventSet := s, interval := i, status := START)
    case Stop(s, v, m, f) => a.(eventSet := s, dataFlag := f, postMethod := m, values := v, status := STOP)
    case Finalize => a.(status := FINAL)
  }

  /** The command the worker acts on, rebuilt from the fields it reads. */
  function Load(a: Attr): Command
    requires a.status != WAIT && a.status != INIT
  {
    match a.status
    case CREATE => Create(a.eventSet)
    case ADD => Add(a.eventSet, a.event)
    case START => Start(a.eventSet, a.interval)
    case STOP => Stop(a.eventSet, a.values, a.postMethod, a.dataFlag)
    case FINAL => Finalize
  }

  datatype Owner = Free | ByClient | ByWorker

  datatype ClientPc =
    | InitLock | Ready | TakeToken | TakeMut | Write | ReleaseMut
    | Install | Arrive | InBarrier | Join

  datatype WorkerPc =
    | TakeLock | Check | Asleep | Waking | Run | Arriving | Waiting | Sampling
    | ReleaseToken | ReleaseLock | Exited

  /** The client makes the calls of `script` in order; `next` of them have
      returned, and script[next] is in progress unless the client is Ready.
      `issued` and `executed` record the commands written to the shared record
      and those the worker has completed; `raced` that the worker released a
      token nobody held; `meetings` the rendezvous at the barrier; `sampleLog`
      how many samples each completed START took. */
  datatype State = State(
    script: seq<Command>, next: nat, cpc: ClientPc, wpc: WorkerPc, run: bool,
    mutex: Owner, token: bool, attr: Attr, sampling: bool, handler: bool, dead: bool,
    raced: bool, addFailed: bool,
    issued: seq<Command>, executed: seq<Command>,
    meetings: nat, samples: nat, sampleLog: seq<nat>)

  datatype Step =
    | CInitLock | CBegin | CKill | CTakeToken | CTakeMut | CWrite | CReleaseMut | CInstall | CArrive | CJoin
    | WTakeLock | WSleep | WGo | WSpurious | WWake | WExec | WAddFail | WArrive
    | WSample | WLastSample | WReleaseToken | WReleaseLock
    | Meet

  /** Right after pthread_create in PAPI_MPX_sampling_init. */
  ghost predicate Init(s: State) {
    && s.next == 0 && s.cpc.InitLock? && s.wpc.TakeLock? && s.run
    && s.mutex.Free? && !s.token && s.attr.status == INIT
    && s.sampling && !s.handler && !s.dead && !s.raced && !s.addFailed
    && s.issued == [] && s.executed == []
    && s.meetings == 0 && s.samples == 0 && s.sampleLog == []
  }

  predicate Enabled(s: State, step: Step) {
    && !s.dead
    && match step
       case CInitLock => s.cpc.InitLock? && !s.token
       case CBegin => s.cpc.Ready? && s.next < |s.script| && !s.script[s.next].Stop?
       case CKill => s.cpc.Ready? && s.next < |s.script| && s.script[s.next].Stop?
       case CTakeToken => s.cpc.TakeToken? && s.next < |s.script| && !s.token
       case CTakeMut => s.cpc.TakeMut? && s.mutex.Free?
       case CWrite => s.cpc.Write? && s.next < |s.script|
       case CReleaseMut => s.cpc.ReleaseMut? && s.next < |s.script|
       case CInstall => s.cpc.Install?
       case CArrive => s.cpc.Arrive?
       case CJoin => s.cpc.Join? && s.next < |s.script| && s.wpc.Exited?
       case WTakeLock => s.wpc.TakeLock? && s.mutex.Free?
       case WSleep => s.wpc.Check? && s.attr.status == WAIT
       case WGo => s.wpc.Check? && s.attr.status != WAIT
       case WSpurious => s.wpc.Asleep?
       case WWake => s.wpc.Waking? && s.mutex.Free?
       case WExec => s.wpc.Run? && s.attr.status != WAIT
       case WAddFail => s.wpc.Run? && s.attr.status == ADD
       case WArrive => s.wpc.Arriving?
       case WSample => s.wpc.Sampling? && s.sampling
       case WLastSample => s.wpc.Sampling? && !s.sampling && s.attr.status == START
       case WReleaseToken => s.wpc.ReleaseToken?
       case WReleaseLock => s.wpc.ReleaseLock?
       case Meet => s.cpc.InBarrier? && s.wpc.Waiting? && s.next < |s.script|
  }

  /** The current call returns to the application. */
  function Return(s: State): State
    requires s.next < |s.script|
  {
    s.(cpc := Ready, next := s.next + 1)
  }

  /** The worker has finished the command in `attr` and is about to loop. */
  function Finish(s: State): State
    requires s.attr.status != WAIT && s.attr.status != INIT
  {
    s.(executed := s.executed + [Load(s.attr)], attr := s.attr.(status := WAIT), wpc := ReleaseToken)
  }

  function Apply(s: State, step: Step): State
    requires Enabled(s, step)
  {
    match step
    case CInitLock => s.(token := true, cpc := Ready)
    case CBegin =>
      s.(cpc := TakeToken)
    case CKill =>
      // PAPI_MPX_stop sends SIGUSR1 first; without a handler that ends the process
      s.(cpc := TakeToken, sampling := s.sampling && !s.handler, dead := !s.handler)
    case CTakeToken => s.(token := true, cpc := TakeMut)
    case CTakeMut => s.(mutex := ByClient, cpc := Write)
    case CWrite =>
      s.(attr := Store(s.attr, s.script[s.next]), issued := s.issued + [s.script[s.next]], cpc := ReleaseMut,
         wpc := if s.wpc.Asleep? then Waking else s.wpc)
    case CReleaseMut =>
      var t := s.(mutex := Free);
      if s.script[s.next].Start? then t.(cpc := Install)
      else if s.script[s.next].Finalize? then t.(cpc := Join)
      else Return(t)
    case CInstall => s.(handler := true, cpc := Arrive)
    case CArrive => s.(cpc := InBarrier)
    case CJoin => Return(s)
    case WTakeLock => s.(mutex := ByWorker, wpc := Check)
    case WSleep => s.(mutex := Free, wpc := Asleep)
    case WGo => s.(wpc := Run)
    case WSpurious => s.(wpc := Waking)
    case WWake => s.(mutex := ByWorker, wpc := Check)
    case WExec =>
      if s.attr.status == INIT then s.(attr := s.attr.(status := WAIT), wpc := ReleaseToken)
      else if s.attr.status == START then s.(wpc := Arriving)
      else if s.attr.status == FINAL then s.(executed := s.executed + [Finalize], run := false, wpc := ReleaseToken)
      else Finish(s)
    case WAddFail => s.(run := false, addFailed := true, wpc := ReleaseToken)
    case WArrive => s.(samples := 0, wpc := Waiting)
    case WSample => s.(samples := s.samples + 1)
    case WLastSample => Finish(s).(samples := s.samples + 1, sampleLog := s.sampleLog + [s.samples + 1])
    case WReleaseToken => s.(raced := s.raced || !s.token, token := false, wpc := ReleaseLock)
    case WReleaseLock => s.(mutex := Free, wpc := if s.run then TakeLock else Exited)
    case Meet => Return(s).(wpc := Sampling, meetings := s.meetings + 1)
  }

  /** steps takes s to t. */
  ghost predicate Reaches(s: State, steps: seq<Step>, t: State)
    decreases |steps|
  {
    if steps == [] then s == t
    else Enabled(s, steps[0]) && Reaches(Apply(s, steps[0]), steps[1..], t)
  }

  /** PAPI_MPX_finalize ends the worker, so no call comes after it. */
  predicate FinalizeLast(script: seq<Command>) {
    forall k :: 0 <= k < |script| - 1 ==> !script[k].Finalize?
  }

  // ------------------------------------------------------------------ invariant

  predicate WorkerHolds(w: WorkerPc) {
    (w.Check? || w.Run? || w.Arriving? || w.Waiting? || w.Sampling? || w.ReleaseToken? || w.ReleaseLock?)
  }

  predicate AfterWrite(c: ClientPc) {
    (c.ReleaseMut? || c.Install? || c.Arrive? || c.InBarrier? || c.Join?)
  }

  /** `mut` excludes client and worker from each other's critical section. */
  predicate MutexInv(s: State) {
    && (s.mutex.ByClient? <==> (s.cpc.Write? || s.cpc.ReleaseMut?))
    && (s.mutex.ByWorker? <==> WorkerHolds(s.wpc))
  }

  /** What has been issued is the script up to the call in progress. */
  predicate ScriptInv(s: State) {
    && s.next <= |s.script| && FinalizeLast(s.script)
    && (s.cpc.InitLock? ==> s.next == 0)
    && ((!s.cpc.InitLock? && !s.cpc.Ready?) ==> s.next < |s.script|)
    && s.issued == s.script[..if AfterWrite(s.cpc) then s.next + 1 else s.next]
    && ((s.cpc.Install? || s.cpc.Arrive? || s.cpc.InBarrier?) ==> s.script[s.next].Start?)
    && (s.cpc.Join? ==> s.script[s.next].Finalize?)
  }

  predicate WorkerInv(s: State) {
    && ((s.wpc.ReleaseToken? || s.wpc.ReleaseLock?) && s.run ==> s.attr.status == WAIT)
    && (s.wpc.Asleep? ==> s.attr.status == WAIT)
    && (s.wpc.Run? ==> s.attr.status != WAIT)
    && ((s.wpc.Arriving? || s.wpc.Waiting? || s.wpc.Sampling?) ==> s.attr.status == START)
    && (!s.run ==> (s.wpc.ReleaseToken? || s.wpc.ReleaseLock? || s.wpc.Exited?))
    && (s.wpc.Exited? ==> !s.run)
  }

  /** The worker's INIT release came before the client took the token. */
  predicate RacedInv(s: State) {
    && s.issued == [] && s.executed == []
    && s.attr.status == WAIT && s.run && !s.addFailed
    && (s.cpc.InitLock? || s.cpc.Ready? || s.cpc.TakeToken?) && (s.token <==> !s.cpc.InitLock?)
    && (s.wpc.ReleaseLock? || s.wpc.TakeLock? || s.wpc.Check? || s.wpc.Asleep? || s.wpc.Waking?)
  }

  /** An ADD failed and the worker is leaving or gone. */
  predicate FailedInv(s: State) {
    && !s.raced && !s.run && !s.cpc.InitLock?
    && (s.wpc.ReleaseToken? ==> s.token && (!s.cpc.TakeMut? && !s.cpc.Write?) && |s.issued| == |s.executed| + 1)
    && |s.executed| < |s.issued| <= |s.executed| + 2 && s.executed == s.issued[..|s.executed|]
    && s.issued[|s.executed|].Add?
    && (!s.wpc.ReleaseToken? ==>
          (s.token <==> (s.cpc.TakeMut? || s.cpc.Write?) || |s.issued| == |s.executed| + 2))
    && ((s.cpc.TakeMut? || s.cpc.Write?) ==> |s.issued| == |s.executed| + 1)
  }

  /** The regular course: at most one command is in flight, and it is the one in
      the shared record. */
  predicate NormalInv(s: State) {
    match s.attr.status
    case WAIT =>
      && s.executed == s.issued && s.run && !AfterWrite(s.cpc)
      && (s.issued != [] ==> !s.issued[|s.issued| - 1].Finalize?)
      && (s.wpc.TakeLock? || s.wpc.Check? || s.wpc.Asleep? || s.wpc.Waking? || s.wpc.ReleaseToken? || s.wpc.ReleaseLock?)
      && (if s.cpc.InitLock? then s.wpc.ReleaseToken? && !s.token
          else (s.token <==> s.wpc.ReleaseToken? || (s.cpc.TakeMut? || s.cpc.Write?)))
      && (s.wpc.ReleaseToken? ==> (!s.cpc.TakeMut? && !s.cpc.Write?))
    case INIT =>
      && s.executed == [] && s.issued == [] && s.run
      && (s.cpc.InitLock? || s.cpc.Ready? || s.cpc.TakeToken?) && (s.token <==> !s.cpc.InitLock?)
      && (s.wpc.TakeLock? || s.wpc.Check? || s.wpc.Run?)
    case _ =>
      && (!s.cpc.InitLock? && !s.cpc.TakeMut? && !s.cpc.Write?)
      && (s.run ==>
            && s.token
            && s.issued == s.executed + [Load(s.attr)]
            && (s.wpc.TakeLock? || s.wpc.Waking? || s.wpc.Check? || s.wpc.Run? || s.wpc.Arriving? || s.wpc.Waiting? || s.wpc.Sampling?)
            && (s.attr.status == FINAL ==> (s.cpc.ReleaseMut? || s.cpc.Join?))
            && (s.attr.status == START ==>
                  (s.wpc.Sampling? <==> !AfterWrite(s.cpc))))
      && (!s.run ==>
            && s.attr.status == FINAL && s.executed == s.issued
            && (s.token <==> s.wpc.ReleaseToken?)
            && (s.cpc.Join? || (s.cpc.Ready? && s.next == |s.script| && s.wpc.Exited?)))
  }

  /** Meetings at the barrier and sampling. */
  predicate SampleInv(s: State)
    requires s.next <= |s.script|
  {
    && s.meetings == Starts(s.script, s.next)
    && |s.sampleLog| == Starts(s.executed, |s.executed|)
    && (!s.raced && !s.addFailed ==>
          |s.sampleLog| == s.meetings - if s.wpc.Sampling? then 1 else 0)
    && (s.sampleLog != [] ==> !s.sampling)
    && (forall k :: 1 <= k < |s.sampleLog| ==> s.sampleLog[k] == 1)
    && (s.wpc.Waiting? || (s.sampleLog != [] && s.wpc.Sampling?) ==> s.samples == 0)
    && (s.meetings > 0 ==> s.handler)
    && ((s.cpc.Arrive? || s.cpc.InBarrier?) ==> s.handler)
    && ((s.cpc.TakeToken? || s.cpc.TakeMut? || s.cpc.Write?) && s.next < |s.script| && s.script[s.next].Stop? ==>
          s.dead || !s.sampling)
  }

  /** How many of the first n commands are STARTs. */
  function Starts(cs: seq<Command>, n: nat): nat
    requires n <= |cs|
  {
    if n == 0 then 0 else Starts(cs, n - 1) + if cs[n - 1].Start? then 1 else 0
  }

  predicate Inv(s: State) {
    && MutexInv(s) && ScriptInv(s) && WorkerInv(s)
    && (s.raced ==> RacedInv(s))
    && (s.addFailed ==> FailedInv(s))
    && (!s.raced && !s.addFailed ==> NormalInv(s))
    && SampleInv(s)
  }

  lemma InitInv(s: State)
    requires Init(s) && FinalizeLast(s.script)
    ensures Inv(s)
  {
  }

  lemma StartsSnoc(cs: seq<Command>, c: Command)
    ensures Starts(cs + [c], |cs| + 1) == Starts(cs, |cs|) + if c.Start? then 1 else 0
  {
    StartsPrefix(cs, cs + [c], |cs|);
  }

  lemma {:induction false} StartsPrefix(a: seq<Command>, b: seq<Command>, n: nat)
    requires n <= |a| && n <= |b| && forall k :: 0 <= k < n ==> a[k] == b[k]
    ensures Starts(a, n) == Starts(b, n)
  {
    if n > 0 {
      StartsPrefix(a, b, n - 1);
    }
  }

  /** The client follows each START with STOP and ends with finalize. */
  predicate Disciplined(script: seq<Command>) {
    && script != [] && script[|script| - 1].Finalize? && FinalizeLast(script)
    && (forall k :: 0 <= k < |script| - 1 && script[k].Start? ==> script[k + 1].Stop?)
    && (forall k :: 0 <= k < |script| && script[k].Stop? ==> k > 0 && script[k - 1].Start?)
  }

  /** Spurious wakeups and further samples are not progress. */
  predicate IsProgress(step: Step) {
    step != WSpurious && step != WSample
  }

  function ClientWeight(c: ClientPc): nat {
    match c
    case InitLock => 41
    case Ready => 40
    case TakeToken => 39
    case TakeMut => 38
    case Write => 37
    case ReleaseMut => 20
    case Install => 19
    case Arrive => 18
    case InBarrier => 17
    case Join => 17
  }

  function WorkerWeight(w: WorkerPc, pending: bool): nat {
    match w
    case TakeLock => if pending then 12 else 4
    case Waking => if pending then 12 else 4
    case Check => if pending then 11 else 3
    case Asleep => 2
    case Run => 10
    case Arriving => 9
    case Waiting => 8
    case Sampling => 7
    case ReleaseToken => 6
    case ReleaseLock => 5
    case Exited => 0
  }

  /** Bounds the progress steps still to come. */
  function Measure(s: State): nat
    requires s.next <= |s.script|
  {
    40 * (|s.script| - s.next) + ClientWeight(s.cpc) + WorkerWeight(s.wpc, s.attr.status != WAIT)
  }

  /** What every step does: it keeps the invariant and the script, moves the
      measure down (a spurious wakeup puts it up by 2 at most, a further sample
      leaves it), and never kills a disciplined client's process. */
  predicate GoodStep(s: State, step: Step, t: State)
    requires s.next <= |s.script|
  {
    && Inv(t) && t.script == s.script
    && (if step == WSample then Measure(t) == Measure(s)
        else if step == WSpurious then Measure(t) <= Measure(s) + 2
        else Measure(t) < Measure(s))
    && (t.dead ==> step == CKill && !s.handler)
  }

  lemma KeepsCInitLock(s: State)
    requires Inv(s) && Enabled(s, CInitLock)
    ensures GoodStep(s, CInitLock, Apply(s, CInitLock))
  {
  }

  lemma KeepsCBegin(s: State)
    requires Inv(s) && Enabled(s, CBegin)
    ensures GoodStep(s, CBegin, Apply(s, CBegin))
  {
  }

  lemma KeepsCKill(s: State)
    requires Inv(s) && Enabled(s, CKill)
    ensures GoodStep(s, CKill, Apply(s, CKill))
  {
  }

  lemma KeepsCTakeToken(s: State)
    requires Inv(s) && Enabled(s, CTakeToken)
    ensures GoodStep(s, CTakeToken, Apply(s, CTakeToken))
  {
  }

  lemma KeepsCTakeMut(s: State)
    requires Inv(s) && Enabled(s, CTakeMut)
    ensures GoodStep(s, CTakeMut, Apply(s, CTakeMut))
  {
  }

  lemma KeepsCWrite(s: State)
    requires Inv(s) && Enabled(s, CWrite)
    ensures GoodStep(s, CWrite, Apply(s, CWrite))
  {
  }

  lemma KeepsCReleaseMut(s: State)
    requires Inv(s) && Enabled(s, CReleaseMut)
    ensures GoodStep(s, CReleaseMut, Apply(s, CReleaseMut))
  {
    if s.script[s.next].Start? || s.script[s.next].Finalize? {
      KeepsCReleaseMutAndStay(s);
    }
  }

  lemma KeepsCReleaseMutAndStay(s: State)
    requires Inv(s) && Enabled(s, CReleaseMut) && (s.script[s.next].Start? || s.script[s.next].Finalize?)
    ensures GoodStep(s, CReleaseMut, Apply(s, CReleaseMut))
  {
  }

  lemma KeepsCInstall(s: State)
    requires Inv(s) && Enabled(s, CInstall)
    ensures GoodStep(s, CInstall, Apply(s, CInstall))
  {
  }

  lemma KeepsCArrive(s: State)
    requires Inv(s) && Enabled(s, CArrive)
    ensures GoodStep(s, CArrive, Apply(s, CArrive))
  {
  }

  lemma KeepsCJoin(s: State)
    requires Inv(s) && Enabled(s, CJoin)
    ensures GoodStep(s, CJoin, Apply(s, CJoin))
  {
  }

  lemma KeepsWTakeLock(s: State)
    requires Inv(s) && Enabled(s, WTakeLock)
    ensures GoodStep(s, WTakeLock, Apply(s, WTakeLock))
  {
  }

  lemma KeepsWSleep(s: State)
    requires Inv(s) && Enabled(s, WSleep)
    ensures GoodStep(s, WSleep, Apply(s, WSleep))
  {
  }

  lemma KeepsWGo(s: State)
    requires Inv(s) && Enabled(s, WGo)
    ensures GoodStep(s, WGo, Apply(s, WGo))
  {
  }

  lemma KeepsWSpurious(s: State)
    requires Inv(s) && Enabled(s, WSpurious)
    ensures GoodStep(s, WSpurious, Apply(s, WSpurious))
  {
  }

  lemma KeepsWWake(s: State)
    requires Inv(s) && Enabled(s, WWake)
    ensures GoodStep(s, WWake, Apply(s, WWake))
  {
  }

  lemma KeepsWExec(s: State)
    requires Inv(s) && Enabled(s, WExec)
    ensures GoodStep(s, WExec, Apply(s, WExec))
  {
    if s.attr.status == INIT || s.attr.status == START {
      KeepsWExecQuiet(s);
    } else {
      StartsSnoc(s.executed, Load(s.attr));
      KeepsWExecCommand(s);
    }
  }

  lemma KeepsWExecQuiet(s: State)
    requires Inv(s) && Enabled(s, WExec) && (s.attr.status == INIT || s.attr.status == START)
    ensures GoodStep(s, WExec, Apply(s, WExec))
  {
  }

  lemma KeepsWExecCommand(s: State)
    requires Inv(s) && Enabled(s, WExec) && s.attr.status != INIT && s.attr.status != START
    requires var e := s.executed + [Load(s.attr)];
      Starts(e, |e|) == Starts(s.executed, |s.executed|)
    ensures GoodStep(s, WExec, Apply(s, WExec))
  {
  }

  lemma KeepsWAddFail(s: State)
    requires Inv(s) && Enabled(s, WAddFail)
    ensures GoodStep(s, WAddFail, Apply(s, WAddFail))
  {
  }

  lemma KeepsWArrive(s: State)
    requires Inv(s) && Enabled(s, WArrive)
    ensures GoodStep(s, WArrive, Apply(s, WArrive))
  {
  }

  lemma KeepsWSample(s: State)
    requires Inv(s) && Enabled(s, WSample)
    ensures GoodStep(s, WSample, Apply(s, WSample))
  {
  }

  lemma KeepsWLastSample(s: State)
    requires Inv(s) && Enabled(s, WLastSample)
    ensures GoodStep(s, WLastSample, Apply(s, WLastSample))
  {
    StartsSnoc(s.executed, Load(s.attr));
  }

  lemma KeepsWReleaseToken(s: State)
    requires Inv(s) && Enabled(s, WReleaseToken)
    ensures GoodStep(s, WReleaseToken, Apply(s, WReleaseToken))
  {
  }

  lemma KeepsWReleaseLock(s: State)
    requires Inv(s) && Enabled(s, WReleaseLock)
    ensures GoodStep(s, WReleaseLock, Apply(s, WReleaseLock))
  {
  }

  lemma KeepsMeet(s: State)
    requires Inv(s) && Enabled(s, Meet)
    ensures GoodStep(s, Meet, Apply(s, Meet))
  {
  }

  predicate IsClientStep(step: Step) {
    match step
    case CInitLock => true
    case CBegin => true
    case CKill => true
    case CTakeToken => true
    case CTakeMut => true
    case CWrite => true
    case CReleaseMut => true
    case CInstall => true
    case CArrive => true
    case CJoin => true
    case _ => false
  }

  lemma ClientStepInv(s: State, step: Step)
    requires Inv(s) && Enabled(s, step) && IsClientStep(step)
    ensures GoodStep(s, step, Apply(s, step))
  {
    match step
    case CInitLock => KeepsCInitLock(s);
    case CBegin => KeepsCBegin(s);
    case CKill => KeepsCKill(s);
    case CTakeToken => KeepsCTakeToken(s);
    case CTakeMut => KeepsCTakeMut(s);
    case CWrite => KeepsCWrite(s);
    case CReleaseMut => KeepsCReleaseMut(s);
    case CInstall => KeepsCInstall(s);
    case CArrive => KeepsCArrive(s);
    case CJoin => KeepsCJoin(s);
  }

  lemma WorkerStepInv(s: State, step: Step)
    requires Inv(s) && Enabled(s, step) && !IsClientStep(step)
    ensures GoodStep(s, step, Apply(s, step))
  {
    match step
    case WTakeLock => KeepsWTakeLock(s);
    case WSleep => KeepsWSleep(s);
    case WGo => KeepsWGo(s);
    case WSpurious => KeepsWSpurious(s);
    case WWake => KeepsWWake(s);
    case WExec => KeepsWExec(s);
    case WAddFail => KeepsWAddFail(s);
    case WArrive => KeepsWArrive(s);
    case WSample => KeepsWSample(s);
    case WLastSample => KeepsWLastSample(s);
    case WReleaseToken => KeepsWReleaseToken(s);
    case WReleaseLock => KeepsWReleaseLock(s);
    case Meet => KeepsMeet(s);
  }

  lemma StepInv(s: State, step: Step)
    requires Inv(s) && Enabled(s, step)
    ensures GoodStep(s, step, Apply(s, step))
  {
    if IsClientStep(step) {
      ClientStepInv(s, step);
    } else {
      WorkerStepInv(s, step);
    }
  }

  lemma {:induction false} RunInv(s: State, steps: seq<Step>, t: State)
    requires Inv(s) && Reaches(s, steps, t)
    ensures Inv(t) && t.script == s.script
    decreases |steps|
  {
    if steps != [] {
      StepInv(s, steps[0]);
      RunInv(Apply(s, steps[0]), steps[1..], t);
    }
  }

  // ------------------------------------------------------------------- safety

  /** In every interleaving the worker executes a prefix of what was issued, in
      order and with the arguments of the call; without a failed ADD it is at
      most one command behind, and a client overwrites `status` only when it is
      WAIT.  Client and worker are never both inside `mut`. */
  lemma ExecutedInOrder(s: State, steps: seq<Step>, t: State)
    requires Init(s) && FinalizeLast(s.script) && Reaches(s, steps, t)
    ensures t.executed <= t.issued <= t.script
    ensures !t.addFailed ==> |t.issued| <= |t.executed| + 1
    ensures !t.addFailed && t.cpc.Write? ==> t.attr.status == WAIT
    ensures !((t.cpc.Write? || t.cpc.ReleaseMut?) && WorkerHolds(t.wpc))
  {
    InitInv(s);
    RunInv(s, steps, t);
  }

  /** When PAPI_MPX_finalize has returned and no ADD failed, the whole script ran,
      each command once and in order, and the worker is gone. */
  lemma FinalizeMeansAllExecuted(s: State, steps: seq<Step>, t: State)
    requires Init(s) && FinalizeLast(s.script) && Reaches(s, steps, t)
    requires t.next == |t.script| > 0 && t.script[t.next - 1].Finalize?
    ensures !t.addFailed ==> t.executed == t.script && t.wpc.Exited?
    ensures t.addFailed ==> t.executed != t.script
  {
    InitInv(s);
    RunInv(s, steps, t);
    assert t.issued == t.script;
  }

  /** A failed ADD: exactly the commands before it have run, and no later one
      ever will; at most one more is written to the record. */
  lemma FailedAddStopsTheWorker(s: State, steps: seq<Step>, t: State)
    requires Init(s) && FinalizeLast(s.script) && Reaches(s, steps, t) && t.addFailed
    ensures var k := |t.executed|;
      && k < |t.script| && t.script[k].Add? && t.executed == t.script[..k]
      && |t.issued| <= k + 2 && !t.run
  {
    InitInv(s);
    RunInv(s, steps, t);
  }

  /** If the worker's first release of `mut2` came before sampling_init took it,
      no command is ever issued. */
  lemma RacedInitNeverIssues(s: State, steps: seq<Step>, t: State)
    requires Init(s) && FinalizeLast(s.script) && Reaches(s, steps, t) && t.raced
    ensures t.issued == [] && t.executed == [] && t.next == 0
  {
    InitInv(s);
    RunInv(s, steps, t);
  }

  /** Every returned START met the worker at the barrier exactly once, and only
      the first START of a run ever takes more than one sample, because nothing
      sets `sampling` back to 1. */
  lemma OneMeetingPerStart(s: State, steps: seq<Step>, t: State)
    requires Init(s) && FinalizeLast(s.script) && Reaches(s, steps, t)
    ensures t.next <= |t.script| && t.meetings == Starts(t.script, t.next)
    ensures |t.sampleLog| == Starts(t.executed, |t.executed|)
    ensures forall k :: 1 <= k < |t.sampleLog| ==> t.sampleLog[k] == 1
  {
    InitInv(s);
    RunInv(s, steps, t);
  }

  // ----------------------------------------------------------------- progress

  predicate Done(s: State) {
    s.cpc.Ready? && s.next == |s.script|
  }

  lemma {:induction false} AliveRun(s: State, steps: seq<Step>, t: State)
    requires Inv(s) && Disciplined(s.script) && !s.dead && Reaches(s, steps, t)
    ensures !t.dead
    decreases |steps|
  {
    if steps != [] {
      StepInv(s, steps[0]);
      if steps[0].CKill? {
        HandlerBeforeKill(s);
      }
      AliveRun(Apply(s, steps[0]), steps[1..], t);
    }
  }

  lemma HandlerBeforeKill(s: State)
    requires Inv(s) && Disciplined(s.script) && Enabled(s, CKill)
    ensures s.handler
  {
    assert s.script[s.next - 1].Start?;
    assert Starts(s.script, s.next) > 0;
  }

  /** No reachable state of a disciplined client is stuck before the end. */
  lemma NeverStuck(s: State) returns (step: Step)
    requires Inv(s) && Disciplined(s.script) && !s.dead && !s.raced && !s.addFailed && !Done(s)
    ensures IsProgress(step) && Enabled(s, step)
    ensures step != WAddFail && (step == WReleaseToken ==> s.token)
  {
    match s.cpc
    case InitLock => step := CInitLock;
    case Ready => step := if s.script[s.next].Stop? then CKill else CBegin;
    case Write => step := CWrite;
    case ReleaseMut => step := CReleaseMut;
    case Install => step := CInstall;
    case Arrive => step := CArrive;
    case TakeToken =>
      if !s.token {
        step := CTakeToken;
      } else {
        if s.wpc.Sampling? {
          assert s.issued[|s.issued| - 1] == s.script[s.next - 1];
        }
        step := WorkerNext(s);
      }
    case TakeMut => step := if s.mutex.Free? then CTakeMut else WorkerNext(s);
    case InBarrier => step := if s.wpc.Waiting? then Meet else WorkerNext(s);
    case Join => step := if s.wpc.Exited? then CJoin else WorkerNext(s);
  }

  /** The worker's next progress step. */
  function WorkerNext(s: State): Step {
    match s.wpc
    case TakeLock => WTakeLock
    case Check => if s.attr.status == WAIT then WSleep else WGo
    case Waking => WWake
    case Run => WExec
    case Arriving => WArrive
    case Sampling => WLastSample
    case ReleaseToken => WReleaseToken
    case _ => WReleaseLock
  }

  function Count(steps: seq<Step>, progress: bool): nat {
    if steps == [] then 0
    else Count(steps[1..], progress)
         + if (if progress then IsProgress(steps[0]) else steps[0] == WSpurious) then 1 else 0
  }

  /** A run has only boundedly many progress steps, two more for each spurious
      wakeup. */
  lemma {:induction false} ProgressIsBounded(s: State, steps: seq<Step>, t: State)
    requires Inv(s) && Reaches(s, steps, t) && Inv(t)
    ensures Count(steps, true) + Measure(t) <= Measure(s) + 2 * Count(steps, false)
    decreases |steps|
  {
    if steps != [] {
      StepInv(s, steps[0]);
      ProgressIsBounded(Apply(s, steps[0]), steps[1..], t);
    }
  }

  /** A run of a disciplined client takes at most 40n + 53 progress steps and two
      more for each spurious wakeup; where it cannot go on, it has executed the
      whole script if and only if no ADD failed and init won its race. */
  lemma EveryRunCompletes(s: State, steps: seq<Step>, t: State)
    requires Init(s) && Disciplined(s.script) && Reaches(s, steps, t)
    ensures Count(steps, true) <= 40 * |s.script| + 53 + 2 * Count(steps, false)
    ensures (forall step :: Enabled(t, step) ==> !IsProgress(step)) ==>
              (t.executed == t.script <==> !t.raced && !t.addFailed)
  {
    InitInv(s);
    RunInv(s, steps, t);
    ProgressIsBounded(s, steps, t);
    if forall step :: Enabled(t, step) ==> !IsProgress(step) {
      if t.raced {
        RacedInitNeverIssues(s, steps, t);
      } else if t.addFailed {
        FailedAddStopsTheWorker(s, steps, t);
      } else {
        AliveRun(s, steps, t);
        if !Done(t) {
          var step := NeverStuck(t);
        }
        FinalizeMeansAllExecuted(s, steps, t);
      }
    }
  }

  /** From every state of a disciplined client that init has not lost, some run leads
      to the end. */
  lemma {:induction false} Finishes(s: State) returns (steps: seq<Step>, t: State)
    requires Inv(s) && Disciplined(s.script) && !s.dead && !s.raced && !s.addFailed
    ensures Reaches(s, steps, t) && Done(t) && !t.raced && !t.addFailed
    decreases Measure(s)
  {
    if Done(s) {
      return [], s;
    }
    var step := GoesOn(s);
    var rest;
    rest, t := Finishes(Apply(s, step));
    ReachesCons(s, step, rest, t);
    steps := [step] + rest;
  }

  /** A step towards the end that loses nothing. */
  lemma GoesOn(s: State) returns (step: Step)
    requires Inv(s) && Disciplined(s.script) && !s.dead && !s.raced && !s.addFailed && !Done(s)
    ensures Enabled(s, step)
    ensures var t := Apply(s, step);
      Inv(t) && t.script == s.script && Measure(t) < Measure(s) && !t.dead && !t.raced && !t.addFailed
  {
    step := NeverStuck(s);
    StepInv(s, step);
    if step.CKill? {
      HandlerBeforeKill(s);
    }
    LosesNothing(s, step);
  }

  lemma LosesNothing(s: State, step: Step)
    requires Enabled(s, step) && step != WAddFail && (step == WReleaseToken ==> s.token)
    ensures Apply(s, step).raced == s.raced && Apply(s, step).addFailed == s.addFailed
  {
    if IsClientStep(step) {
      ClientLosesNothing(s, step);
    } else {
      match step
      case WTakeLock =>
      case WSleep =>
      case WGo =>
      case WSpurious =>
      case WWake =>
      case WExec =>
      case WArrive =>
      case WSample =>
      case WLastSample =>
      case WReleaseToken =>
      case WReleaseLock =>
      case Meet =>
    }
  }

  lemma ClientLosesNothing(s: State, step: Step)
    requires Enabled(s, step) && IsClientStep(step)
    ensures Apply(s, step).raced == s.raced && Apply(s, step).addFailed == s.addFailed
  {
    match step
    case CInitLock =>
    case CBegin =>
    case CKill =>
    case CTakeToken =>
    case CTakeMut =>
    case CWrite =>
    case CReleaseMut =>
    case CInstall =>
    case CArrive =>
    case CJoin =>
  }

  /** Every disciplined script has a run that executes all of it. */
  lemma CompleteRun(s: State) returns (steps: seq<Step>, t: State)
    requires Init(s) && Disciplined(s.script)
    ensures Reaches(s, steps, t) && t.executed == t.script == s.script
  {
    InitInv(s);
    steps, t := Finishes(s);
    RunInv(s, steps, t);
    FinalizeMeansAllExecuted(s, steps, t);
  }

  // ------------------------------------------------------- the series a STOP gets

  /** How often the worker took a sample because nobody had told it to stop. */
  function SampleSteps(steps: seq<Step>): nat {
    if steps == [] then 0 else SampleSteps(steps[1..]) + if steps[0].WSample? then 1 else 0
  }

  /** The samples of the first START so far, but for the last one. */
  function FirstSamples(s: State): int {
    if s.sampleLog != [] then s.sampleLog[0] - 1
    else if s.wpc.Sampling? then s.samples
    else 0
  }

  lemma FirstSamplesStep(s: State, step: Step)
    requires Enabled(s, step)
    requires (s.sampleLog != [] ==> !s.sampling) && (s.wpc.Waiting? ==> s.samples == 0)
    ensures FirstSamples(Apply(s, step)) == FirstSamples(s) + if step.WSample? then 1 else 0
  {
    if IsClientStep(step) {
      FirstSamplesClient(s, step);
    } else {
      FirstSamplesWorker(s, step);
    }
  }

  lemma FirstSamplesClient(s: State, step: Step)
    requires Enabled(s, step) && IsClientStep(step)
    ensures FirstSamples(Apply(s, step)) == FirstSamples(s)
  {
    match step
    case CInitLock =>
    case CBegin =>
    case CKill =>
    case CTakeToken =>
    case CTakeMut =>
    case CWrite =>
    case CReleaseMut =>
    case CInstall =>
    case CArrive =>
    case CJoin =>
  }

  lemma FirstSamplesWorker(s: State, step: Step)
    requires Enabled(s, step) && !IsClientStep(step)
    requires (s.sampleLog != [] ==> !s.sampling) && (s.wpc.Waiting? ==> s.samples == 0)
    ensures FirstSamples(Apply(s, step)) == FirstSamples(s) + if step.WSample? then 1 else 0
  {
    match step
    case WTakeLock => FirstSamplesLocking(s, step);
    case WSleep => FirstSamplesLocking(s, step);
    case WGo => FirstSamplesLocking(s, step);
    case WSpurious => FirstSamplesLocking(s, step);
    case WWake => FirstSamplesLocking(s, step);
    case WAddFail => FirstSamplesLocking(s, step);
    case WReleaseToken => FirstSamplesLocking(s, step);
    case WReleaseLock => FirstSamplesLocking(s, step);
    case WExec => FirstSamplesExec(s);
    case _ => FirstSamplesSampling(s, step);
  }

  lemma FirstSamplesLocking(s: State, step: Step)
    requires Enabled(s, step)
    requires step in {WTakeLock, WSleep, WGo, WSpurious, WWake, WAddFail, WReleaseToken, WReleaseLock}
    ensures FirstSamples(Apply(s, step)) == FirstSamples(s)
  {
    match step
    case WTakeLock =>
    case WSleep =>
    case WGo =>
    case WSpurious =>
    case WWake =>
    case WAddFail =>
    case WReleaseToken =>
    case WReleaseLock =>
  }

  lemma FirstSamplesExec(s: State)
    requires Enabled(s, WExec)
    ensures FirstSamples(Apply(s, WExec)) == FirstSamples(s)
  {
  }

  lemma FirstSamplesSampling(s: State, step: Step)
    requires Enabled(s, step) && step in {WArrive, WSample, WLastSample, Meet}
    requires (s.sampleLog != [] ==> !s.sampling) && (s.wpc.Waiting? ==> s.samples == 0)
    ensures FirstSamples(Apply(s, step)) == FirstSamples(s) + if step.WSample? then 1 else 0
  {
    match step
    case WArrive =>
    case WSample =>
    case WLastSample =>
    case Meet =>
  }

  lemma {:induction false} FirstSamplesRun(s: State, steps: seq<Step>, t: State)
    requires Inv(s) && Reaches(s, steps, t)
    ensures FirstSamples(t) == FirstSamples(s) + SampleSteps(steps)
    decreases |steps|
  {
    if steps != [] {
      StepInv(s, steps[0]);
      FirstSamplesStep(s, steps[0]);
      FirstSamplesRun(Apply(s, steps[0]), steps[1..], t);
    }
  }

  /** The number of samples in the file when the k-th executed command, a STOP,
      processes it: every START begins the file anew. */
  function SeriesLength(t: State, k: nat): nat
    requires k < |t.executed| && 1 <= Starts(t.executed, k) <= |t.sampleLog|
  {
    t.sampleLog[Starts(t.executed, k) - 1]
  }

  lemma {:induction false} StartsMonotone(cs: seq<Command>, m: nat, n: nat)
    requires m <= n <= |cs|
    ensures Starts(cs, m) <= Starts(cs, n)
  {
    if m < n {
      StartsMonotone(cs, m, n - 1);
    }
  }

  /** In every run of a disciplined client the first STOP gets one sample more than the
      worker took before the signal, and every later STOP gets a single one. */
  lemma StopSeries(s: State, steps: seq<Step>, t: State, k: nat)
    requires Init(s) && Disciplined(s.script) && Reaches(s, steps, t)
    requires k < |t.executed| && t.executed[k].Stop?
    ensures 1 <= Starts(t.executed, k) <= |t.sampleLog|
    ensures SeriesLength(t, k) == if Starts(t.executed, k) == 1 then SampleSteps(steps) + 1 else 1
  {
    InitInv(s);
    RunInv(s, steps, t);
    ExecutedInOrder(s, steps, t);
    FirstSamplesRun(s, steps, t);
    assert t.executed[k] == s.script[k] && t.executed[k - 1] == s.script[k - 1];
    StartsMonotone(t.executed, k, |t.executed|);
  }

  /** The passes need two samples.  A run that has executed its script gave every STOP
      that many exactly if the script starts at most once, and then sampled before the
      signal. */
  lemma SeriesLongEnough(s: State, steps: seq<Step>, t: State)
    requires Init(s) && Disciplined(s.script) && Reaches(s, steps, t) && t.executed == t.script
    ensures forall k :: 0 <= k < |t.executed| && t.executed[k].Stop? ==> 1 <= Starts(t.executed, k) <= |t.sampleLog|
    ensures (forall k :: 0 <= k < |t.executed| && t.executed[k].Stop? ==> SeriesLength(t, k) >= 2)
       <==> Starts(t.script, |t.script|) == 0 || (Starts(t.script, |t.script|) == 1 && SampleSteps(steps) >= 1)
  {
    RunsScript(s, steps, t);
    var n := |t.script|;
    forall k | 0 <= k < n && t.executed[k].Stop?
      ensures 1 <= Starts(t.executed, k) <= |t.sampleLog|
      ensures SeriesLength(t, k) == if Starts(t.executed, k) == 1 then SampleSteps(steps) + 1 else 1
    {
      StopSeries(s, steps, t, k);
    }
    if Starts(t.script, n) > 0 {
      var k := LastStop(t.script, n);
      assert t.executed[k].Stop? && Starts(t.executed, k) == Starts(t.script, n);
    }
    forall k | 0 <= k < n && t.executed[k].Stop? ensures Starts(t.executed, k) <= Starts(t.script, n) {
      StartsMonotone(t.script, k, n);
    }
  }

  lemma RunsScript(s: State, steps: seq<Step>, t: State)
    requires Init(s) && Disciplined(s.script) && Reaches(s, steps, t)
    ensures t.script == s.script
  {
    InitInv(s);
    RunInv(s, steps, t);
  }

  /** The STOP after the last of the STARTs. */
  lemma {:induction false} LastStop(script: seq<Command>, n: nat) returns (k: nat)
    requires Disciplined(script) && n <= |script| && Starts(script, n) > 0
    ensures k < |script| && script[k].Stop? && Starts(script, k) == Starts(script, n)
    decreases n
  {
    if script[n - 1].Start? {
      k := n;
    } else {
      k := LastStop(script, n - 1);
    }
  }

  /** Any script that starts twice has a complete run, and in it a STOP that gets a
      series of one sample. */
  lemma SecondStopIsShort(s: State) returns (steps: seq<Step>, t: State, k: nat)
    requires Init(s) && Disciplined(s.script) && Starts(s.script, |s.script|) >= 2
    ensures Reaches(s, steps, t) && t.executed == t.script == s.script
    ensures k < |t.executed| && t.executed[k].Stop?
    ensures 1 <= Starts(t.executed, k) <= |t.sampleLog| && SeriesLength(t, k) == 1
  {
    steps, t := CompleteRun(s);
    k := LastStop(t.script, |t.script|);
    StopSeries(s, steps, t, k);
  }

  lemma ReachesCons(s: State, step: Step, steps: seq<Step>, t: State)
    requires Enabled(s, step) && Reaches(Apply(s, step), steps, t)
    ensures Reaches(s, [step] + steps, t)
  {
    assert ([step] + steps)[1..] == steps;
  }

  lemma {:induction false} ReachesConcat(s: State, xs: seq<Step>, t: State, ys: seq<Step>, u: State)
    requires Reaches(s, xs, t) && Reaches(t, ys, u)
    ensures Reaches(s, xs + ys, u)
    decreases |xs|
  {
    if xs == [] {
      assert xs + ys == ys;
    } else {
      ReachesConcat(Apply(s, xs[0]), xs[1..], t, ys, u);
      assert (xs + ys)[1..] == xs[1..] + ys;
    }
  }

  /** The worker runs INIT and releases `mut2` before the client has taken it. */
  lemma WorkerWinsTheRace(s: State) returns (steps: seq<Step>, t: State)
    requires Init(s)
    ensures Reaches(s, steps, t) && t.raced && !t.dead && !t.token && t.run && t.mutex == Free
    ensures t.cpc == InitLock && t.wpc == TakeLock && t.attr.status == WAIT
    ensures t.executed == [] && t.next == 0 && t.script == s.script
  {
    var s1 := Apply(s, WTakeLock);
    var s2 := Apply(s1, WGo);
    var s3 := Apply(s2, WExec);
    var s4 := Apply(s3, WReleaseToken);
    t := Apply(s4, WReleaseLock);
    ReachesCons(s4, WReleaseLock, [], t);
    ReachesCons(s3, WReleaseToken, [WReleaseLock], t);
    ReachesCons(s2, WExec, [WReleaseToken] + [WReleaseLock], t);
    ReachesCons(s1, WGo, [WExec] + ([WReleaseToken] + [WReleaseLock]), t);
    ReachesCons(s, WTakeLock, [WGo] + ([WExec] + ([WReleaseToken] + [WReleaseLock])), t);
    steps := [WTakeLock] + ([WGo] + ([WExec] + ([WReleaseToken] + [WReleaseLock])));
  }

  /** After losing the race the client takes the token and then waits for it. */
  lemma ClientLocksItselfOut(s: State) returns (steps: seq<Step>, t: State)
    requires s.raced && !s.dead && !s.token && s.run && s.mutex == Free
    requires s.cpc == InitLock && s.wpc == TakeLock && s.attr.status == WAIT
    requires s.next == 0 < |s.script| && !s.script[0].Stop?
    ensures Reaches(s, steps, t) && t.raced && t.executed == s.executed
    ensures t.cpc == TakeToken && t.token && t.wpc == Asleep
  {
    var s1 := Apply(s, WTakeLock);
    var s2 := Apply(s1, WSleep);
    var s3 := Apply(s2, CInitLock);
    t := Apply(s3, CBegin);
    ReachesCons(s3, CBegin, [], t);
    ReachesCons(s2, CInitLock, [CBegin], t);
    ReachesCons(s1, WSleep, [CInitLock] + [CBegin], t);
    ReachesCons(s, WTakeLock, [WSleep] + ([CInitLock] + [CBegin]), t);
    steps := [WTakeLock] + ([WSleep] + ([CInitLock] + [CBegin]));
  }

  /** The race in sampling_init is real: from every initial state of a disciplined
      client there is a run that gets stuck with nothing executed. */
  lemma RacedInitDeadlocks(s: State) returns (steps: seq<Step>, t: State)
    requires Init(s) && Disciplined(s.script)
    ensures Reaches(s, steps, t) && t.raced && t.executed == []
    ensures forall step :: Enabled(t, step) ==> !IsProgress(step)
  {
    var xs, u := WorkerWinsTheRace(s);
    var ys;
    ys, t := ClientLocksItselfOut(u);
    ReachesConcat(s, xs, u, ys, t);
    steps := xs + ys;
  }

  /** What the worker rebuilds from the record is what the call put there. */
  lemma LoadStore(a: Attr, c: Command)
    ensures Store(a, c).status != WAIT && Store(a, c).status != INIT && Load(Store(a, c)) == c
  {
  }
}
