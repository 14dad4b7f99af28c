/**
 `StartStopOnce`: a compare-and-swap on the state followed by a read-write lock.
 Any number of threads call `StartOnce`, `StopOnce`, `IfStarted` and `IfNotStopped`; each
 compare-and-swap, lock, unlock, load, callback begin and callback end is one atomic step.
 */
module StartStop {
  import opened Wrappers

  type Tid = nat

  /** In the declaration order of the source, which is not the order in time. */
  datatype Phase = Unstarted | Started | Starting | Stopping | Stopped

  /** The begin and the end of the start and stop callbacks. */
  datatype Event =
    | StartBegan(t: Tid)
    | StartEnded(t: Tid, failed: bool)
    | StopBegan(t: Tid)
    | StopEnded(t: Tid, failed: bool)

  /** What a thread's latest call returned. */
  datatype Ret =
    | Nothing
    | AlreadyStarted
    | StartReturned(failed: bool)
    | NotStarted
    | StopReturned(failed: bool)
    | Guarded(ran: bool)

  datatype Pc =
    | Idle(last: Ret)
    | StartWon                     // the swap succeeded, the lock is not held yet
    | StartLocked                  // the lock is held, the callback has not begun
    | StartInFn
    | StartFnDone(failed: bool)    // the callback returned, the second swap is next
    | StartUnlock(failed: bool)
    | StopWait
    | StopLocked                   // the lock is held, the first swap is next
    | StopSwapped
    | StopInFn
    | StopFnDone(failed: bool)
    | StopUnlock(ret: Ret)
    | IfStartedWait
    | IfStartedLocked              // the read lock is held, the load is next
    | IfStartedInFn
    | IfNotStoppedWait
    | IfNotStoppedLocked
    | IfNotStoppedInFn
    | ReadUnlock(ran: bool)
    | Panicked                     // the "unreachable state" panics

  datatype Once = Once(
    phase: Phase,
    writer: Option<Tid>,
    readers: set<Tid>,
    pcs: map<Tid, Pc>,
    history: seq<Phase>,
    log: seq<Event>)
  {
    /** A thread that has made no call yet is idle. */
    function At(t: Tid): Pc {
      if t in pcs then pcs[t] else Idle(Nothing)
    }

    function Goto(t: Tid, pc: Pc): Once {
      this.(pcs := pcs[t := pc])
    }

    function SetPhase(p: Phase): Once {
      this.(phase := p, history := history + [p])
    }

    function Emit(e: Event): Once {
      this.(log := log + [e])
    }

    predicate Free() {
      writer.None? && readers == {}
    }
  }

  const INITIAL := Once(Unstarted, None, {}, map[], [Unstarted], [])

  const ORDER: seq<Phase> := [Unstarted, Starting, Started, Stopping, Stopped]

  function Rank(p: Phase): (r: nat)
    ensures r < |ORDER| && ORDER[r] == p
  {
    match p
    case Unstarted => 0
    case Starting => 1
    case Started => 2
    case Stopping => 3
    case Stopped => 4
  }

  function StartSwap(s: Once, t: Tid): Once {
    if s.phase == Unstarted then s.SetPhase(Starting).Goto(t, StartWon) else s.Goto(t, Idle(AlreadyStarted))
  }

  /** `StartOnce`. The first swap is made before the lock is taken. */
  ghost predicate StartStep(s: Once, t: Tid, s': Once) {
    match s.At(t)
    case Idle(_) => s' == StartSwap(s, t)
    case StartWon => s.Free() && s' == s.(writer := Some(t)).Goto(t, StartLocked)
    case StartLocked => s' == s.Emit(StartBegan(t)).Goto(t, StartInFn)
    case StartInFn => exists failed: bool :: s' == s.Emit(StartEnded(t, failed)).Goto(t, StartFnDone(failed))
    case StartFnDone(failed) =>
      s' == if s.phase == Starting then s.SetPhase(Started).Goto(t, StartUnlock(failed)) else s.Goto(t, Panicked)
    case StartUnlock(failed) => s' == s.(writer := None).Goto(t, Idle(StartReturned(failed)))
    case _ => false
  }

  /** `StopOnce`. Both swaps are made under the lock. */
  ghost predicate StopStep(s: Once, t: Tid, s': Once) {
    match s.At(t)
    case Idle(_) => s' == s.Goto(t, StopWait)
    case StopWait => s.Free() && s' == s.(writer := Some(t)).Goto(t, StopLocked)
    case StopLocked =>
      s' == if s.phase == Started then s.SetPhase(Stopping).Goto(t, StopSwapped) else s.Goto(t, StopUnlock(NotStarted))
    case StopSwapped => s' == s.Emit(StopBegan(t)).Goto(t, StopInFn)
    case StopInFn => exists failed: bool :: s' == s.Emit(StopEnded(t, failed)).Goto(t, StopFnDone(failed))
    case StopFnDone(failed) =>
      s' == if s.phase == Stopping then s.SetPhase(Stopped).Goto(t, StopUnlock(StopReturned(failed)))
            else s.Goto(t, Panicked)
    case StopUnlock(ret) => s' == s.(writer := None).Goto(t, Idle(ret))
    case _ => false
  }

  /** `IfStarted` and `IfNotStopped`, under the read lock. */
  ghost predicate GuardStep(s: Once, t: Tid, s': Once) {
    match s.At(t)
    case Idle(_) => s' == s.Goto(t, IfStartedWait) || s' == s.Goto(t, IfNotStoppedWait)
    case IfStartedWait => s.writer.None? && s' == s.(readers := s.readers + {t}).Goto(t, IfStartedLocked)
    case IfStartedLocked => s' == s.Goto(t, if s.phase == Started then IfStartedInFn else ReadUnlock(false))
    case IfStartedInFn => s' == s.Goto(t, ReadUnlock(true))
    case IfNotStoppedWait => s.writer.None? && s' == s.(readers := s.readers + {t}).Goto(t, IfNotStoppedLocked)
    case IfNotStoppedLocked => s' == s.Goto(t, if s.phase == Stopped then ReadUnlock(false) else IfNotStoppedInFn)
    case IfNotStoppedInFn => s' == s.Goto(t, ReadUnlock(true))
    case ReadUnlock(ran) => s' == s.(readers := s.readers - {t}).Goto(t, Idle(Guarded(ran)))
    case _ => false
  }

  /** One atomic step of thread `t`. Other threads may step while a callback runs. */
  ghost predicate Step(s: Once, t: Tid, s': Once) {
    StartStep(s, t, s') || StopStep(s, t, s') || GuardStep(s, t, s')
  }

  ghost predicate Next(s: Once, s': Once) {
    exists t: Tid :: Step(s, t, s')
  }

  ghost predicate StepAt(run: seq<Once>, i: nat)
    requires i < |run| - 1
  {
    Next(run[i], run[i + 1])
  }

  /** A run: every schedule of any number of threads is one of these. */
  ghost predicate IsRun(run: seq<Once>) {
    && |run| > 0
    && run[0] == INITIAL
    && forall i: nat :: i < |run| - 1 ==> StepAt(run, i)
  }

  // ----- the invariant -----

  predicate InStart(pc: Pc) {
    pc.StartWon? || pc.StartLocked? || pc.StartInFn? || pc.StartFnDone?
  }

  predicate InStop(pc: Pc) {
    pc.StopSwapped? || pc.StopInFn? || pc.StopFnDone?
  }

  predicate HoldsWrite(pc: Pc) {
    || pc.StartLocked? || pc.StartInFn? || pc.StartFnDone? || pc.StartUnlock?
    || pc.StopLocked? || pc.StopSwapped? || pc.StopInFn? || pc.StopFnDone? || pc.StopUnlock?
  }

  predicate HoldsRead(pc: Pc) {
    || pc.IfStartedLocked? || pc.IfStartedInFn?
    || pc.IfNotStoppedLocked? || pc.IfNotStoppedInFn? || pc.ReadUnlock?
  }

  /** Begin and end of one start callback, then begin and end of one stop callback. */
  predicate LogShape(log: seq<Event>) {
    && |log| <= 4
    && (|log| > 0 ==> log[0].StartBegan?)
    && (|log| > 1 ==> log[1].StartEnded? && log[1].t == log[0].t)
    && (|log| > 2 ==> log[2].StopBegan?)
    && (|log| > 3 ==> log[3].StopEnded? && log[3].t == log[2].t)
  }

  predicate RetOk(s: Once, t: Tid, ret: Ret) {
    match ret
    case AlreadyStarted => s.phase != Unstarted
    case StartReturned(failed) => |s.log| >= 2 && s.log[1] == StartEnded(t, failed)
    case StopReturned(failed) => |s.log| >= 4 && s.log[3] == StopEnded(t, failed) && s.phase == Stopped
    case _ => true
  }

  predicate PcOk(s: Once, t: Tid) {
    match s.At(t)
    case Idle(ret) => RetOk(s, t, ret)
    case StartWon => s.phase == Starting && |s.log| == 0
    case StartLocked => s.phase == Starting && |s.log| == 0
    case StartInFn => s.phase == Starting && |s.log| == 1 && s.log[0] == StartBegan(t)
    case StartFnDone(failed) => s.phase == Starting && |s.log| == 2 && s.log[1] == StartEnded(t, failed)
    case StartUnlock(failed) => s.phase == Started && RetOk(s, t, StartReturned(failed))
    case StopSwapped => s.phase == Stopping && |s.log| == 2
    case StopInFn => s.phase == Stopping && |s.log| == 3 && s.log[2] == StopBegan(t)
    case StopFnDone(failed) => s.phase == Stopping && |s.log| == 4 && s.log[3] == StopEnded(t, failed)
    case StopUnlock(ret) => RetOk(s, t, ret)
    case IfStartedInFn => s.phase == Started
    case IfNotStoppedInFn => s.phase != Stopping && s.phase != Stopped
    case Panicked => false
    case _ => true
  }

  /** What holds of one thread: its view of the state, and the locks it holds. */
  predicate ThreadOk(s: Once, t: Tid) {
    PcOk(s, t) && LocksOk(s, t)
  }

  predicate LocksOk(s: Once, t: Tid) {
    (HoldsWrite(s.At(t)) <==> s.writer == Some(t)) && (HoldsRead(s.At(t)) <==> t in s.readers)
  }

  predicate PhaseOk(s: Once) {
    && s.history == ORDER[..Rank(s.phase) + 1]
    && LogShape(s.log)
    && (s.writer.Some? ==> s.readers == {})
    && match s.phase
       case Unstarted => |s.log| == 0
       case Starting => true
       case Started => |s.log| == 2
       case Stopping => s.writer.Some? && InStop(s.At(s.writer.value))
       case Stopped => |s.log| == 4
  }

  ghost predicate SomeStarter(s: Once) {
    exists t: Tid :: InStart(s.At(t))
  }

  /** Two threads are never both between winning the first swap and making the second. */
  predicate OneStarter(s: Once, t: Tid, u: Tid) {
    InStart(s.At(t)) && InStart(s.At(u)) ==> t == u
  }

  ghost predicate Inv(s: Once) {
    && PhaseOk(s)
    && (s.phase == Starting ==> SomeStarter(s))
    && (forall t: Tid :: ThreadOk(s, t))
    && (forall t: Tid, u: Tid :: OneStarter(s, t, u))
  }

  /** A step moves only the thread that takes it. */
  lemma OthersStay(s: Once, t: Tid, s': Once, u: Tid)
    requires Step(s, t, s') && u != t
    ensures s'.At(u) == s.At(u)
  {
  }

  lemma StartStepKeepsPhase(s: Once, t: Tid, s': Once)
    requires PhaseOk(s) && ThreadOk(s, t) && StartStep(s, t, s')
    ensures PhaseOk(s')
  {
    if s.phase == Stopping && s.writer != Some(t) { OthersStay(s, t, s', s.writer.value); }
  }

  lemma StopStepKeepsPhase(s: Once, t: Tid, s': Once)
    requires PhaseOk(s) && ThreadOk(s, t) && StopStep(s, t, s')
    ensures PhaseOk(s')
  {
    if s.phase == Stopping && s.writer != Some(t) { OthersStay(s, t, s', s.writer.value); }
  }

  lemma GuardStepKeepsPhase(s: Once, t: Tid, s': Once)
    requires PhaseOk(s) && ThreadOk(s, t) && GuardStep(s, t, s')
    ensures PhaseOk(s')
  {
    if s.phase == Stopping && s.writer != Some(t) { OthersStay(s, t, s', s.writer.value); }
  }

  lemma StartStepKeepsOwn(s: Once, t: Tid, s': Once)
    requires PhaseOk(s) && ThreadOk(s, t) && StartStep(s, t, s')
    ensures ThreadOk(s', t)
  {
    StartStepKeepsPc(s, t, s');
    StartStepKeepsLocks(s, t, s');
  }

  lemma StartStepKeepsPc(s: Once, t: Tid, s': Once)
    requires PhaseOk(s) && ThreadOk(s, t) && StartStep(s, t, s')
    ensures PcOk(s', t)
  {
  }

  lemma StartStepKeepsLocks(s: Once, t: Tid, s': Once)
    requires LocksOk(s, t) && StartStep(s, t, s') && !s'.At(t).Panicked?
    ensures LocksOk(s', t)
  {
  }

  lemma StopStepKeepsOwn(s: Once, t: Tid, s': Once)
    requires PhaseOk(s) && ThreadOk(s, t) && StopStep(s, t, s')
    ensures ThreadOk(s', t)
  {
    StopStepKeepsPc(s, t, s');
    StopStepKeepsLocks(s, t, s');
  }

  lemma StopStepKeepsPc(s: Once, t: Tid, s': Once)
    requires PhaseOk(s) && ThreadOk(s, t) && StopStep(s, t, s')
    ensures PcOk(s', t)
  {
  }

  lemma StopStepKeepsLocks(s: Once, t: Tid, s': Once)
    requires LocksOk(s, t) && StopStep(s, t, s') && !s'.At(t).Panicked?
    ensures LocksOk(s', t)
  {
  }

  lemma GuardStepKeepsOwn(s: Once, t: Tid, s': Once)
    requires PhaseOk(s) && ThreadOk(s, t) && GuardStep(s, t, s')
    ensures ThreadOk(s', t)
  {
    GuardStepKeepsPc(s, t, s');
    GuardStepKeepsLocks(s, t, s');
  }

  lemma GuardStepKeepsPc(s: Once, t: Tid, s': Once)
    requires PhaseOk(s) && ThreadOk(s, t) && GuardStep(s, t, s')
    ensures PcOk(s', t)
  {
  }

  lemma GuardStepKeepsLocks(s: Once, t: Tid, s': Once)
    requires LocksOk(s, t) && GuardStep(s, t, s') && !s'.At(t).Panicked?
    ensures LocksOk(s', t)
  {
  }

  lemma StartStepKeepsOther(s: Once, t: Tid, s': Once, u: Tid)
    requires PhaseOk(s) && ThreadOk(s, t) && ThreadOk(s, u) && OneStarter(s, t, u)
    requires StartStep(s, t, s') && u != t
    ensures ThreadOk(s', u)
  {
    OthersStay(s, t, s', u);
  }

  lemma StopStepKeepsOther(s: Once, t: Tid, s': Once, u: Tid)
    requires PhaseOk(s) && ThreadOk(s, t) && ThreadOk(s, u)
    requires StopStep(s, t, s') && u != t
    ensures ThreadOk(s', u)
  {
    OthersStay(s, t, s', u);
  }

  lemma GuardStepKeepsOther(s: Once, t: Tid, s': Once, u: Tid)
    requires PhaseOk(s) && ThreadOk(s, t) && ThreadOk(s, u)
    requires GuardStep(s, t, s') && u != t
    ensures ThreadOk(s', u)
  {
    OthersStay(s, t, s', u);
  }

  lemma StepKeepsThread(s: Once, t: Tid, s': Once, u: Tid)
    requires PhaseOk(s) && ThreadOk(s, t) && ThreadOk(s, u) && OneStarter(s, t, u)
    requires Step(s, t, s')
    ensures ThreadOk(s', u)
  {
    if StartStep(s, t, s') {
      if u == t { StartStepKeepsOwn(s, t, s'); } else { StartStepKeepsOther(s, t, s', u); }
    } else if StopStep(s, t, s') {
      if u == t { StopStepKeepsOwn(s, t, s'); } else { StopStepKeepsOther(s, t, s', u); }
    } else {
      if u == t { GuardStepKeepsOwn(s, t, s'); } else { GuardStepKeepsOther(s, t, s', u); }
    }
  }

  lemma StepKeepsSomeStarter(s: Once, t: Tid, s': Once)
    requires Inv(s) && Step(s, t, s') && s'.phase == Starting
    ensures SomeStarter(s')
  {
    assert ThreadOk(s, t);
    var u: Tid := t;
    if s.phase == Starting { u :| InStart(s.At(u)); }
    if u == t { OwnStarter(s, t, s'); } else { OthersStay(s, t, s', u); }
    assert InStart(s'.At(u));
  }

  /** A thread that leaves the start, or does not enter it, leaves the phase elsewhere. */
  lemma OwnStarter(s: Once, t: Tid, s': Once)
    requires PcOk(s, t) && Step(s, t, s') && s'.phase == Starting && (s.phase == Starting ==> InStart(s.At(t)))
    ensures InStart(s'.At(t))
  {
  }

  /** Only the thread that wins the first swap enters the start, and then nobody else is in it. */
  lemma EntersStart(s: Once, t: Tid, s': Once)
    requires Step(s, t, s') && InStart(s'.At(t)) && !InStart(s.At(t))
    ensures s.phase == Unstarted
  {
  }

  lemma StepKeepsOneStarter(s: Once, t: Tid, s': Once, u: Tid, v: Tid)
    requires Step(s, t, s') && PcOk(s, u) && PcOk(s, v) && OneStarter(s, u, v)
    ensures OneStarter(s', u, v)
  {
    if u != t { OthersStay(s, t, s', u); }
    if v != t { OthersStay(s, t, s', v); }
    if InStart(s'.At(t)) && !InStart(s.At(t)) { EntersStart(s, t, s'); }
  }

  lemma StepKeepsInv(s: Once, t: Tid, s': Once)
    requires Inv(s) && Step(s, t, s')
    ensures Inv(s')
  {
    assert ThreadOk(s, t);
    if StartStep(s, t, s') {
      StartStepKeepsPhase(s, t, s');
    } else if StopStep(s, t, s') {
      StopStepKeepsPhase(s, t, s');
    } else {
      GuardStepKeepsPhase(s, t, s');
    }
    if s'.phase == Starting { StepKeepsSomeStarter(s, t, s'); }
    forall u: Tid, v: Tid ensures OneStarter(s', u, v) {
      assert ThreadOk(s, u) && ThreadOk(s, v) && OneStarter(s, u, v);
      StepKeepsOneStarter(s, t, s', u, v);
    }
    forall u: Tid ensures ThreadOk(s', u) {
      assert ThreadOk(s, u) && OneStarter(s, t, u);
      StepKeepsThread(s, t, s', u);
    }
  }

  // ----- every run -----

  /** The invariant holds in every state of every run, whatever the number of threads. */
  lemma {:induction false} RunKeepsInv(run: seq<Once>, i: nat)
    requires IsRun(run) && i < |run|
    ensures Inv(run[i])
  {
    if i == 0 {
    } else {
      RunKeepsInv(run, i - 1);
      assert StepAt(run, i - 1);
      var t: Tid :| Step(run[i - 1], t, run[i]);
      StepKeepsInv(run[i - 1], t, run[i]);
    }
  }

  /** The phases and the callback events of a run only ever grow. */
  lemma {:induction false} RunExtends(run: seq<Once>, i: nat, j: nat)
    requires IsRun(run) && i <= j < |run|
    ensures run[i].history <= run[j].history
    ensures run[i].log <= run[j].log
    decreases j
  {
    if i == j {
    } else {
      RunExtends(run, i, j - 1);
      assert StepAt(run, j - 1);
      var t: Tid :| Step(run[j - 1], t, run[j]);
    }
  }

  lemma RunAppends(run: seq<Once>, t: Tid, s: Once)
    requires IsRun(run) && Step(run[|run| - 1], t, s)
    ensures IsRun(run + [s])
  {
    var run' := run + [s];
    assert Next(run[|run| - 1], s);
    forall i: nat | i < |run'| - 1 ensures StepAt(run', i) {
      if i < |run| - 1 { assert StepAt(run, i); }
    }
  }

  /**
   The phases passed through are a prefix of Unstarted, Starting, Started, Stopping, Stopped;
   neither panic is reached; at most one start and one stop callback run, in that order and
   without overlap; and the number of callback events fixes, and is fixed by, how far the phases got.
   */
  lemma Lifecycle(run: seq<Once>, i: nat)
    requires IsRun(run) && i < |run|
    ensures run[i].history == ORDER[..Rank(run[i].phase) + 1]
    ensures forall t: Tid :: !run[i].At(t).Panicked?
    ensures LogShape(run[i].log)
    ensures Rank(run[i].phase) >= 2 ==> |run[i].log| >= 2
    ensures run[i].phase == Stopped ==> |run[i].log| == 4
    ensures |run[i].log| > 2 ==> run[i].phase == Stopping || run[i].phase == Stopped
    ensures forall t: Tid, failed: bool :: run[i].At(t) == Idle(StartReturned(failed)) ==>
              Rank(run[i].phase) >= 2 && run[i].log[1] == StartEnded(t, failed)
    ensures forall t: Tid, failed: bool :: run[i].At(t) == Idle(StopReturned(failed)) ==>
              run[i].phase == Stopped && run[i].log[3] == StopEnded(t, failed)
  {
    RunKeepsInv(run, i);
    var s := run[i];
    forall t: Tid ensures !s.At(t).Panicked? && PcOk(s, t) { assert ThreadOk(s, t); }
    if s.phase == Starting {
      var t: Tid :| InStart(s.At(t));
      assert ThreadOk(s, t);
    }
    if s.phase == Stopping { assert ThreadOk(s, s.writer.value); }
    forall t: Tid, failed: bool | s.At(t) == Idle(StartReturned(failed))
      ensures Rank(s.phase) >= 2 && s.log[1] == StartEnded(t, failed)
    {
      assert PcOk(s, t);
    }
    forall t: Tid, failed: bool | s.At(t) == Idle(StopReturned(failed))
      ensures s.phase == Stopped && s.log[3] == StopEnded(t, failed)
    {
      assert PcOk(s, t);
    }
  }

  predicate InLifecycleFn(pc: Pc) {
    pc.StartInFn? || pc.StopInFn?
  }

  /**
   While an `IfStarted` callback runs the phase is Started, and while an `IfNotStopped` callback runs
   it is neither Stopping nor Stopped; no start or stop callback overlaps either, nor each other.
   */
  lemma GuardedCallbacks(run: seq<Once>, i: nat, t: Tid, u: Tid)
    requires IsRun(run) && i < |run|
    ensures run[i].At(t).IfStartedInFn? ==> run[i].phase == Started
    ensures run[i].At(t).IfNotStoppedInFn? ==> run[i].phase in {Unstarted, Starting, Started}
    ensures run[i].At(t).IfStartedInFn? || run[i].At(t).IfNotStoppedInFn? ==> !InLifecycleFn(run[i].At(u))
    ensures InLifecycleFn(run[i].At(t)) && InLifecycleFn(run[i].At(u)) ==> t == u
  {
    RunKeepsInv(run, i);
    assert ThreadOk(run[i], t) && ThreadOk(run[i], u);
  }

  // ----- what the calls answer -----

  datatype Call = OfStart | OfStop | OfIfStarted | OfIfNotStopped

  /** The places a call passes through, and the answers it can give. */
  predicate Belongs(c: Call, pc: Pc) {
    match pc
    case StartWon => c.OfStart?
    case StartLocked => c.OfStart?
    case StartInFn => c.OfStart?
    case StartFnDone(_) => c.OfStart?
    case StartUnlock(_) => c.OfStart?
    case StopWait => c.OfStop?
    case StopLocked => c.OfStop?
    case StopSwapped => c.OfStop?
    case StopInFn => c.OfStop?
    case StopFnDone(_) => c.OfStop?
    case StopUnlock(ret) => c.OfStop? && (ret.NotStarted? || ret.StopReturned?)
    case IfStartedWait => c.OfIfStarted?
    case IfStartedLocked => c.OfIfStarted?
    case IfStartedInFn => c.OfIfStarted?
    case IfNotStoppedWait => c.OfIfNotStopped?
    case IfNotStoppedLocked => c.OfIfNotStopped?
    case IfNotStoppedInFn => c.OfIfNotStopped?
    case ReadUnlock(_) => c.OfIfStarted? || c.OfIfNotStopped?
    case Panicked => true
    case Idle(ret) =>
      match ret {
        case StartReturned(_) => c.OfStart?
        case NotStarted => c.OfStop?
        case StopReturned(_) => c.OfStop?
        case Guarded(_) => c.OfIfStarted? || c.OfIfNotStopped?
        case _ => false
      }
  }

  predicate InCallback(pc: Pc) {
    pc.StartInFn? || pc.StopInFn? || pc.IfStartedInFn? || pc.IfNotStoppedInFn?
  }

  /** The answers that say the callback has run. */
  predicate SaysRan(ret: Ret) {
    ret.StartReturned? || ret.StopReturned? || ret == Guarded(true)
  }

  /** The places a call gets to only behind its callback. */
  predicate HasRun(pc: Pc) {
    match pc
    case StartFnDone(_) => true
    case StartUnlock(_) => true
    case StopFnDone(_) => true
    case StopUnlock(ret) => SaysRan(ret)
    case ReadUnlock(ran) => ran
    case Idle(ret) => SaysRan(ret)
    case _ => InCallback(pc)
  }

  /** Thread `t` is idle at `i` and again at `j`, and in one call in between. */
  predicate IsCall(run: seq<Once>, i: nat, j: nat, t: Tid) {
    && i + 1 < j < |run|
    && run[i].At(t).Idle? && run[j].At(t).Idle?
    && forall k: nat :: i < k < j ==> !run[k].At(t).Idle?
  }

  /** The callback of `t` runs at some state behind `i` and up to `k`. */
  ghost predicate RanBy(run: seq<Once>, i: nat, k: nat, t: Tid)
    requires k < |run|
  {
    exists m: nat :: i < m <= k && InCallback(run[m].At(t))
  }

  lemma StepRuns(s: Once, t: Tid, s': Once)
    requires Step(s, t, s') && !s'.At(t).Panicked?
    ensures s.At(t).Idle? ==> !HasRun(s'.At(t)) || s'.At(t) == s.At(t)
    ensures !s.At(t).Idle? ==> (HasRun(s'.At(t)) <==> InCallback(s'.At(t)) || HasRun(s.At(t)))
  {
  }

  lemma StepBelongs(s: Once, t: Tid, s': Once, c: Call)
    requires Step(s, t, s') && !s.At(t).Idle? && Belongs(c, s.At(t))
    ensures Belongs(c, s'.At(t))
  {
  }

  /** One step of a run, seen from a thread: it stays where it is or makes the step. */
  lemma ThreadMoves(run: seq<Once>, k: nat, t: Tid)
    requires IsRun(run) && k + 1 < |run|
    ensures run[k + 1].At(t) == run[k].At(t) || Step(run[k], t, run[k + 1])
    ensures !run[k + 1].At(t).Panicked?
  {
    assert StepAt(run, k);
    var u: Tid :| Step(run[k], u, run[k + 1]);
    if u != t { OthersStay(run[k], u, run[k + 1], t); }
    Lifecycle(run, k + 1);
  }

  lemma {:induction false} CallRuns(run: seq<Once>, i: nat, j: nat, t: Tid, k: nat)
    requires IsRun(run) && IsCall(run, i, j, t) && i < k <= j
    ensures HasRun(run[k].At(t)) <==> RanBy(run, i, k, t)
  {
    ThreadMoves(run, k - 1, t);
    if Step(run[k - 1], t, run[k]) { StepRuns(run[k - 1], t, run[k]); }
    if k == i + 1 {
    } else {
      CallRuns(run, i, j, t, k - 1);
    }
  }

  lemma {:induction false} CallBelongs(run: seq<Once>, i: nat, j: nat, t: Tid, c: Call, k: nat)
    requires IsRun(run) && IsCall(run, i, j, t) && Belongs(c, run[i + 1].At(t)) && i < k <= j
    ensures Belongs(c, run[k].At(t))
  {
    if k == i + 1 {
    } else {
      CallBelongs(run, i, j, t, c, k - 1);
      ThreadMoves(run, k - 1, t);
      if Step(run[k - 1], t, run[k]) { StepBelongs(run[k - 1], t, run[k], c); }
    }
  }

  /**
   In every run a call answers that its callback has run if and only if it did, at some state of the call; and the
   answer is of the kind of the call.
   */
  lemma AnswerTellsIfRan(run: seq<Once>, i: nat, j: nat, t: Tid, c: Call)
    requires IsRun(run) && IsCall(run, i, j, t) && Belongs(c, run[i + 1].At(t))
    ensures Belongs(c, run[j].At(t))
    ensures SaysRan(run[j].At(t).last) <==> exists m: nat :: i < m < j && InCallback(run[m].At(t))
  {
    CallBelongs(run, i, j, t, c, j);
    CallRuns(run, i, j, t, j);
    if m: nat :| i < m < j && InCallback(run[m].At(t)) { assert RanBy(run, i, j, t); }
  }

  /** The places where a call looks at the phase and decides. */
  predicate Deciding(pc: Pc) {
    pc.StopLocked? || pc.IfStartedLocked? || pc.IfNotStoppedLocked?
  }

  predicate LetsIn(pc: Pc, phase: Phase) {
    if pc.IfNotStoppedLocked? then phase != Stopped else phase == Started
  }

  /** The places where only the answer is left to give. */
  predicate Leaving(pc: Pc) {
    pc.StartUnlock? || pc.StopUnlock? || pc.ReadUnlock?
  }

  function Answer(pc: Pc): Ret
    requires Leaving(pc)
  {
    match pc
    case StartUnlock(failed) => StartReturned(failed)
    case StopUnlock(ret) => ret
    case ReadUnlock(ran) => Guarded(ran)
  }

  lemma {:induction false} LeavesWith(run: seq<Once>, k: nat, j: nat, t: Tid)
    requires IsRun(run) && k < j < |run| && Leaving(run[k].At(t)) && run[j].At(t).Idle?
    requires forall m: nat :: k <= m < j ==> !run[m].At(t).Idle?
    ensures run[j].At(t) == Idle(Answer(run[k].At(t)))
    decreases j - k
  {
    ThreadMoves(run, k, t);
    if k + 1 < j { LeavesWith(run, k + 1, j, t); }
  }

  lemma StepDecides(s: Once, t: Tid, s': Once)
    requires Step(s, t, s') && Deciding(s.At(t))
    ensures !LetsIn(s.At(t), s.phase) ==> Leaving(s'.At(t)) && !SaysRan(Answer(s'.At(t)))
    ensures LetsIn(s.At(t), s.phase) ==> InCallback(s'.At(t)) || s'.At(t).StopSwapped?
  {
  }

  lemma {:induction false} SwappedRuns(run: seq<Once>, k: nat, j: nat, t: Tid)
    requires IsRun(run) && k < j < |run| && run[k].At(t).StopSwapped? && run[j].At(t).Idle?
    requires forall m: nat :: k <= m < j ==> !run[m].At(t).Idle?
    ensures exists m: nat :: k < m < j && InCallback(run[m].At(t))
    decreases j - k
  {
    ThreadMoves(run, k, t);
    if run[k + 1].At(t).StopSwapped? {
      SwappedRuns(run, k + 1, j, t);
    } else {
      assert InCallback(run[k + 1].At(t));
    }
  }

  /**
   What a call answers is decided by the phase at the state `l` where it looks: `StopOnce` and `IfStarted` run their
   callback if and only if the phase is Started there, `IfNotStopped` if and only if it is not Stopped.
   */
  lemma PhaseDecides(run: seq<Once>, i: nat, j: nat, t: Tid, l: nat)
    requires IsRun(run) && IsCall(run, i, j, t) && i < l < j
    requires Deciding(run[l].At(t)) && run[l + 1].At(t) != run[l].At(t)
    ensures SaysRan(run[j].At(t).last) <==> LetsIn(run[l].At(t), run[l].phase)
  {
    ThreadMoves(run, l, t);
    StepDecides(run[l], t, run[l + 1]);
    if LetsIn(run[l].At(t), run[l].phase) {
      if run[l + 1].At(t).StopSwapped? { SwappedRuns(run, l + 1, j, t); }
      assert RanBy(run, i, j, t);
      CallRuns(run, i, j, t, j);
    } else {
      LeavesWith(run, l + 1, j, t);
    }
  }

  /** `StartOnce` is refused at its first swap if and only if the phase is not Unstarted there. */
  lemma SwapDecides(run: seq<Once>, i: nat, t: Tid)
    requires IsRun(run) && i + 1 < |run| && run[i].At(t).Idle? && run[i + 1].At(t) != run[i].At(t)
    ensures run[i + 1].At(t).StartWon? ==> run[i].phase == Unstarted && run[i + 1].phase == Starting
    ensures run[i + 1].At(t).Idle? ==> run[i + 1].At(t).last == AlreadyStarted && run[i].phase != Unstarted
  {
    ThreadMoves(run, i, t);
  }

  /**
   The comment on `StopOnce` says that it blocks until a racing `StartOnce` has executed. It does,
   except in the window between the swap and the lock of `StartOnce`: a `StopOnce` that holds the lock
   is about to give up on a start in progress if and only if some `StartOnce` stands in that window.
   */
  lemma StopOvertakesStartIff(s: Once, t: Tid)
    requires Inv(s) && s.At(t).StopLocked?
    ensures s.phase == Starting <==> exists u: Tid :: s.At(u).StartWon?
  {
    assert ThreadOk(s, t);
    if s.phase == Starting {
      var u: Tid :| InStart(s.At(u));
      assert ThreadOk(s, u);
      assert s.At(u).StartWon?;
    }
    if u: Tid :| s.At(u).StartWon? { assert ThreadOk(s, u); }
  }

  /** A run in which `StopOnce` returns an error although a `StartOnce` has already won the swap. */
  lemma StopCanOvertakeStart() returns (run: seq<Once>)
    ensures IsRun(run)
    ensures var s := run[|run| - 1]; s.At(0).StartWon? && s.At(1) == Idle(NotStarted)
  {
    var s1 := INITIAL.SetPhase(Starting).Goto(0, StartWon);
    var s2 := s1.Goto(1, StopWait);
    var s3 := s2.(writer := Some(1)).Goto(1, StopLocked);
    var s4 := s3.Goto(1, StopUnlock(NotStarted));
    var s5 := s4.(writer := None).Goto(1, Idle(NotStarted));
    assert StartStep(INITIAL, 0, s1);
    assert StopStep(s1, 1, s2);
    assert StopStep(s2, 1, s3);
    assert StopStep(s3, 1, s4);
    assert StopStep(s4, 1, s5);
    assert Next(INITIAL, s1) by { assert Step(INITIAL, 0, s1); }
    assert Next(s1, s2) by { assert Step(s1, 1, s2); }
    assert Next(s2, s3) by { assert Step(s2, 1, s3); }
    assert Next(s3, s4) by { assert Step(s3, 1, s4); }
    assert Next(s4, s5) by { assert Step(s4, 1, s5); }
    run := [INITIAL, s1, s2, s3, s4, s5];
  }

  predicate WantsWrite(pc: Pc) {
    pc.StartWon? || pc.StopWait?
  }

  predicate WantsRead(pc: Pc) {
    pc.IfStartedWait? || pc.IfNotStoppedWait?
  }

  /** Go's lock lets no new reader in while a writer waits. */
  ghost predicate Barred(s: Once, t: Tid) {
    WantsRead(s.At(t)) && exists u: Tid :: WantsWrite(s.At(u))
  }

  /** The thread has a call in flight and a step to make, even if new readers have to let writers pass. */
  ghost predicate CanStep(s: Once, t: Tid) {
    !s.At(t).Idle? && !Barred(s, t) && exists s': Once :: Step(s, t, s')
  }

  /** A step that a thread with a call in flight takes next, if the locks let it. */
  function Successor(s: Once, t: Tid): Once {
    match s.At(t)
    case Idle(_) => s.Goto(t, StopWait)
    case StartWon => s.(writer := Some(t)).Goto(t, StartLocked)
    case StartLocked => s.Emit(StartBegan(t)).Goto(t, StartInFn)
    case StartInFn => s.Emit(StartEnded(t, false)).Goto(t, StartFnDone(false))
    case StartFnDone(failed) => s.SetPhase(Started).Goto(t, StartUnlock(failed))
    case StartUnlock(failed) => s.(writer := None).Goto(t, Idle(StartReturned(failed)))
    case StopWait => s.(writer := Some(t)).Goto(t, StopLocked)
    case StopLocked =>
      if s.phase == Started then s.SetPhase(Stopping).Goto(t, StopSwapped) else s.Goto(t, StopUnlock(NotStarted))
    case StopSwapped => s.Emit(StopBegan(t)).Goto(t, StopInFn)
    case StopInFn => s.Emit(StopEnded(t, false)).Goto(t, StopFnDone(false))
    case StopFnDone(failed) => s.SetPhase(Stopped).Goto(t, StopUnlock(StopReturned(failed)))
    case StopUnlock(ret) => s.(writer := None).Goto(t, Idle(ret))
    case IfStartedWait => s.(readers := s.readers + {t}).Goto(t, IfStartedLocked)
    case IfStartedLocked => s.Goto(t, if s.phase == Started then IfStartedInFn else ReadUnlock(false))
    case IfNotStoppedWait => s.(readers := s.readers + {t}).Goto(t, IfNotStoppedLocked)
    case IfNotStoppedLocked => s.Goto(t, if s.phase == Stopped then ReadUnlock(false) else IfNotStoppedInFn)
    case ReadUnlock(ran) => s.(readers := s.readers - {t}).Goto(t, Idle(Guarded(ran)))
    case _ => s.Goto(t, ReadUnlock(true))
  }

  /** A thread that holds a lock, or finds it free, can step. */
  lemma HolderCanStep(s: Once, t: Tid)
    requires ThreadOk(s, t) && !s.At(t).Idle?
    requires HoldsWrite(s.At(t)) || HoldsRead(s.At(t)) || (s.Free() && !Barred(s, t))
    ensures CanStep(s, t)
  {
    assert Step(s, t, Successor(s, t));
  }

  /** No deadlock: while some call is in flight, some call in flight can step. */
  lemma NoDeadlock(run: seq<Once>, i: nat, t: Tid)
    requires IsRun(run) && i < |run|
    requires !run[i].At(t).Idle?
    ensures exists u: Tid :: CanStep(run[i], u)
  {
    RunKeepsInv(run, i);
    var s := run[i];
    var u: Tid := t;
    if s.writer.Some? {
      u := s.writer.value;
    } else if s.readers != {} {
      u :| u in s.readers;
    } else if w: Tid :| WantsWrite(s.At(w)) {
      u := w;
    }
    assert ThreadOk(s, u);
    HolderCanStep(s, u);
  }
}
