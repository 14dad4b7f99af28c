/**
 `SleeperTask`: a one-slot wake-up channel, a worker loop, and a `StartStopOnce` whose stop callback
 closes the stop channel and waits for the loop. The lifecycle is the one of module `StartStop`.
 */
module SleeperTask {
  import opened Wrappers
  import S = StartStop

  type Tid = S.Tid

  datatype Worker =
    | Selecting
    | Committed      // took the token, `Work` is next
    | Working
    | Returning      // saw the closed stop channel, the deferred close is next
    | Exited

  datatype Event =
    | Woke(t: Tid, sent: bool)     // a `WakeUp` finished its select; `sent` if the slot was empty
    | Received
    | WorkBegan
    | WorkEnded
    | LoopLeft

  /** Where a thread stands inside `WakeUp` or inside one of the callbacks. */
  datatype Local =
    | Outside
    | Sending            // `WakeUp` has read the state, its select is next
    | WakePanicked       // "cannot wake up stopped sleeper task"
    | GuardedDone        // the `WakeUpIfStarted` callback has done its select
    | AwaitingLoop       // the stop callback closed the stop channel
    | ClosePanicked      // closed a closed channel

  datatype Task = Task(
    once: S.Once,
    token: bool,
    stopClosed: bool,
    doneClosed: bool,
    worker: Worker,
    locals: map<Tid, Local>,
    log: seq<Event>)
  {
    function Local(t: Tid): Local {
      if t in locals then locals[t] else Outside
    }

    function Goto(t: Tid, l: Local): Task {
      this.(locals := locals[t := l])
    }

    function Emit(e: Event): Task {
      this.(log := log + [e])
    }

    /** The select with a default branch. */
    function Send(t: Tid): Task {
      this.(token := true).Emit(Woke(t, !token))
    }

    function StopFnReturns(t: Tid, failed: bool): Task {
      this.(once := once.Emit(S.StopEnded(t, failed)).Goto(t, S.StopFnDone(failed))).Goto(t, Outside)
    }
  }

  /** The lifecycle as the constructor leaves it: thread 0 has completed `StartOnce`. */
  const SPAWNED := S.Once(S.Started, None, {}, map[0 := S.Idle(S.StartReturned(false))],
                          [S.Unstarted, S.Starting, S.Started], [S.StartBegan(0), S.StartEnded(0, false)])

  const INITIAL := Task(SPAWNED, false, false, false, Selecting, map[], [])

  ghost predicate WakeStep(s: Task, t: Tid, s': Task) {
    match s.Local(t)
    case Outside =>
      s.once.At(t).Idle? && s' == s.Goto(t, if s.once.phase == S.Stopped then WakePanicked else Sending)
    case Sending => s' == s.Send(t).Goto(t, Outside)
    case _ => false
  }

  ghost predicate GuardedStep(s: Task, t: Tid, s': Task) {
    && s.once.At(t).IfStartedInFn?
    && match s.Local(t)
       case Outside => s' == s.Send(t).Goto(t, GuardedDone)
       case GuardedDone => s' == s.(once := s.once.Goto(t, S.ReadUnlock(true))).Goto(t, Outside)
       case _ => false
  }

  /** The 15 seconds of the source may elapse at any time. */
  ghost predicate StopFnStep(s: Task, t: Tid, s': Task) {
    && s.once.At(t).StopInFn?
    && match s.Local(t)
       case Outside =>
         s' == if s.stopClosed then s.Goto(t, ClosePanicked) else s.(stopClosed := true).Goto(t, AwaitingLoop)
       case AwaitingLoop => (s.doneClosed && s' == s.StopFnReturns(t, false)) || s' == s.StopFnReturns(t, true)
       case _ => false
  }

  ghost predicate LifecycleStep(s: Task, t: Tid, s': Task) {
    && s.Local(t).Outside?
    && !s.once.At(t).IfStartedInFn? && !s.once.At(t).StopInFn?
    && S.Step(s.once, t, s'.once)
    && s' == s.(once := s'.once)
  }

  ghost predicate ThreadStep(s: Task, t: Tid, s': Task) {
    WakeStep(s, t, s') || GuardedStep(s, t, s') || StopFnStep(s, t, s') || LifecycleStep(s, t, s')
  }

  /** With a token and a closed stop channel both ready, the select takes either. */
  predicate WorkerStep(s: Task, s': Task) {
    match s.worker
    case Selecting =>
      || (s.token && s' == s.(token := false, worker := Committed).Emit(Received))
      || (s.stopClosed && s' == s.(worker := Returning).Emit(LoopLeft))
    case Committed => s' == s.(worker := Working).Emit(WorkBegan)
    case Working => s' == s.(worker := Selecting).Emit(WorkEnded)
    case Returning => s' == s.(doneClosed := true, worker := Exited)
    case Exited => false
  }

  ghost predicate Next(s: Task, s': Task) {
    WorkerStep(s, s') || exists t: Tid :: ThreadStep(s, t, s')
  }

  ghost predicate StepAt(run: seq<Task>, i: nat)
    requires i < |run| - 1
  {
    Next(run[i], run[i + 1])
  }

  ghost predicate IsRun(run: seq<Task>) {
    && |run| > 0
    && run[0] == INITIAL
    && forall i: nat :: i < |run| - 1 ==> StepAt(run, i)
  }

  // ----- the lifecycle is the one already proved -----

  /** Every step of a sleeper task is a step of the lifecycle, or leaves it alone. */
  lemma Projects(s: Task, t: Tid, s': Task)
    requires ThreadStep(s, t, s')
    ensures s'.once == s.once || S.Step(s.once, t, s'.once)
  {
    if GuardedStep(s, t, s') {
      assert s.Local(t).GuardedDone? ==> S.GuardStep(s.once, t, s'.once);
    } else if StopFnStep(s, t, s') && s.Local(t).AwaitingLoop? {
      assert S.StopStep(s.once, t, s'.once);
    }
  }

  /** The constructor's state is what a run of `StartOnce` by thread 0 ends in. */
  lemma SpawnedIsReached() returns (run: seq<S.Once>)
    ensures S.IsRun(run) && run[|run| - 1] == SPAWNED
  {
    var s1 := S.StartSwap(S.INITIAL, 0);
    var s2 := S.Successor(s1, 0);
    var s3 := S.Successor(s2, 0);
    var s4 := S.Successor(s3, 0);
    var s5 := S.Successor(s4, 0);
    var s6 := S.Successor(s5, 0);
    run := [S.INITIAL, s1, s2, s3, s4, s5, s6];
    assert S.StartStep(S.INITIAL, 0, s1) && S.StartStep(s1, 0, s2) && S.StartStep(s2, 0, s3);
    assert S.StartStep(s3, 0, s4) && S.StartStep(s4, 0, s5) && S.StartStep(s5, 0, s6);
    assert S.Next(S.INITIAL, s1) by { assert S.Step(S.INITIAL, 0, s1); }
    assert S.Next(s1, s2) by { assert S.Step(s1, 0, s2); }
    assert S.Next(s2, s3) by { assert S.Step(s2, 0, s3); }
    assert S.Next(s3, s4) by { assert S.Step(s3, 0, s4); }
    assert S.Next(s4, s5) by { assert S.Step(s4, 0, s5); }
    assert S.Next(s5, s6) by { assert S.Step(s5, 0, s6); }
    assert s6.pcs == SPAWNED.pcs;
  }

  // ----- the invariant -----

  predicate LocalOk(s: Task, t: Tid) {
    match s.Local(t)
    case Outside => s.once.At(t).StopInFn? ==> !s.stopClosed
    case Sending => s.once.At(t).Idle?
    case WakePanicked => s.once.At(t).Idle?
    case GuardedDone => s.once.At(t).IfStartedInFn?
    case AwaitingLoop => s.once.At(t).StopInFn? && s.stopClosed
    case ClosePanicked => false
  }

  predicate ChannelsOk(s: Task) {
    && |s.once.log| >= 2
    && (s.stopClosed ==> |s.once.log| >= 3)
    && (s.worker.Returning? || s.worker.Exited? ==> s.stopClosed)
    && (s.doneClosed <==> s.worker.Exited?)
    && (|s.once.log| == 4 && s.once.log[3].StopEnded? && !s.once.log[3].failed ==> s.doneClosed)
  }

  datatype Kind = Sent | Taken | Begun | Ended

  predicate Is(e: Event, k: Kind) {
    match k
    case Sent => e.Woke? && e.sent
    case Taken => e.Received?
    case Begun => e.WorkBegan?
    case Ended => e.WorkEnded?
  }

  function Count(log: seq<Event>, k: Kind): nat {
    if |log| == 0 then 0 else Count(log[..|log| - 1], k) + if Is(log[|log| - 1], k) then 1 else 0
  }

  predicate CountsOk(log: seq<Event>, token: bool, worker: Worker) {
    && Count(log, Sent) == Count(log, Taken) + (if token then 1 else 0)
    && Count(log, Taken) == Count(log, Begun) + (if worker.Committed? then 1 else 0)
    && Count(log, Begun) == Count(log, Ended) + (if worker.Working? then 1 else 0)
  }

  /** The loop received a token after event `w`. */
  ghost predicate ReceivedAfter(log: seq<Event>, w: nat) {
    exists j: nat :: w < j < |log| && log[j].Received?
  }

  ghost predicate WorkAfter(log: seq<Event>, w: nat) {
    exists k: nat :: w < k < |log| && log[k].WorkBegan?
  }

  /** A completed `WakeUp` that no receive has followed. */
  ghost predicate Pending(log: seq<Event>, w: nat) {
    w < |log| && log[w].Woke? && !ReceivedAfter(log, w)
  }

  ghost predicate TokensOk(log: seq<Event>, token: bool, worker: Worker) {
    && (!token ==> forall w: nat :: !Pending(log, w))
    && (token ==> exists w: nat :: Pending(log, w))
    && (!worker.Committed? ==> forall j: nat :: j < |log| && log[j].Received? ==> WorkAfter(log, j))
  }

  ghost predicate Accounted(s: Task) {
    CountsOk(s.log, s.token, s.worker) && TokensOk(s.log, s.token, s.worker)
  }

  ghost predicate Inv(s: Task) {
    && S.Inv(s.once)
    && ChannelsOk(s)
    && Accounted(s)
    && forall t: Tid :: LocalOk(s, t)
  }

  // ----- the log -----

  lemma ReceivedAfterExtends(log: seq<Event>, e: Event, w: nat)
    ensures ReceivedAfter(log + [e], w) <==> ReceivedAfter(log, w) || (w < |log| && e.Received?)
  {
    if j: nat :| w < j < |log + [e]| && (log + [e])[j].Received? {
      assert j < |log| ==> log[j].Received?;
    }
    if j: nat :| w < j < |log| && log[j].Received? {
      assert (log + [e])[j].Received?;
    }
    if w < |log| && e.Received? { assert (log + [e])[|log|].Received?; }
  }

  lemma WorkAfterExtends(log: seq<Event>, e: Event, w: nat)
    requires WorkAfter(log, w) || (w < |log| && e.WorkBegan?)
    ensures WorkAfter(log + [e], w)
  {
    if WorkAfter(log, w) {
      var k: nat :| w < k < |log| && log[k].WorkBegan?;
      assert (log + [e])[k].WorkBegan?;
    } else {
      assert (log + [e])[|log|].WorkBegan?;
    }
  }

  lemma CountsExtend(log: seq<Event>, e: Event)
    ensures forall k: Kind :: Count(log + [e], k) == Count(log, k) + if Is(e, k) then 1 else 0
  {
    assert (log + [e])[..|log|] == log;
  }

  /** A completed `WakeUp` leaves the slot full, whether or not its own send went through. */
  lemma WokeKeepsTokens(s: Task, t: Tid)
    requires Accounted(s)
    ensures Accounted(s.Send(t))
  {
    var s' := s.Send(t);
    var e := Woke(t, !s.token);
    CountsExtend(s.log, e);
    ReceivedAfterExtends(s.log, e, |s.log|);
    assert Pending(s'.log, |s.log|);
    if !s.worker.Committed? {
      forall j: nat | j < |s'.log| && s'.log[j].Received? ensures WorkAfter(s'.log, j) {
        WorkAfterExtends(s.log, e, j);
      }
    }
  }

  lemma WorkerKeepsCounts(s: Task, s': Task)
    requires CountsOk(s.log, s.token, s.worker) && WorkerStep(s, s')
    ensures CountsOk(s'.log, s'.token, s'.worker)
  {
    if s.worker.Returning? { return; }
    var e := s'.log[|s.log|];
    assert s'.log == s.log + [e];
    CountsExtend(s.log, e);
    EventMatches(s, s', e);
  }

  /** The event of a step is of the kind that its move of the loop and the token stands for. */
  lemma EventMatches(s: Task, s': Task, e: Event)
    requires WorkerStep(s, s') && !s.worker.Returning? && s'.log == s.log + [e]
    ensures !Is(e, Sent)
    ensures Is(e, Taken) <==> s.token && !s'.token
    ensures Is(e, Taken) <==> s'.worker.Committed?
    ensures Is(e, Begun) <==> s.worker.Committed?
    ensures Is(e, Begun) <==> s'.worker.Working?
    ensures Is(e, Ended) <==> s.worker.Working?
    ensures s'.token ==> s.token
  {
    assert s'.log[|s.log|] == e;
  }

  lemma WorkerKeepsPending(s: Task, s': Task)
    requires TokensOk(s.log, s.token, s.worker) && WorkerStep(s, s') && !s.worker.Returning?
    ensures !s'.token ==> forall w: nat :: !Pending(s'.log, w)
    ensures s'.token ==> exists w: nat :: Pending(s'.log, w)
  {
    var e := s'.log[|s.log|];
    assert s'.log == s.log + [e] && !e.Woke?;
    forall w: nat ensures Pending(s'.log, w) <==> Pending(s.log, w) && !e.Received? {
      ReceivedAfterExtends(s.log, e, w);
    }
    if s'.token { var w: nat :| Pending(s.log, w); assert Pending(s'.log, w); }
  }

  lemma WorkerKeepsServed(s: Task, s': Task)
    requires TokensOk(s.log, s.token, s.worker) && WorkerStep(s, s') && !s.worker.Returning? && !s'.worker.Committed?
    ensures forall j: nat :: j < |s'.log| && s'.log[j].Received? ==> WorkAfter(s'.log, j)
  {
    var e := s'.log[|s.log|];
    assert s'.log == s.log + [e] && !e.Received?;
    forall j: nat | j < |s'.log| && s'.log[j].Received? ensures WorkAfter(s'.log, j) {
      assert j < |s.log| && s.log[j] == s'.log[j];
      WorkAfterExtends(s.log, e, j);
    }
  }

  lemma WorkerKeepsAccounts(s: Task, s': Task)
    requires Accounted(s) && WorkerStep(s, s')
    ensures Accounted(s')
  {
    WorkerKeepsCounts(s, s');
    if s.worker.Returning? { return; }
    WorkerKeepsPending(s, s');
    if !s'.worker.Committed? { WorkerKeepsServed(s, s'); }
  }

  // ----- preservation -----

  /** A thread step changes no other thread's place, in the lifecycle or outside it. */
  lemma OthersStay(s: Task, t: Tid, s': Task, u: Tid)
    requires ThreadStep(s, t, s') && u != t
    ensures s'.Local(u) == s.Local(u) && s'.once.At(u) == s.once.At(u)
  {
    if LifecycleStep(s, t, s') {
      S.OthersStay(s.once, t, s'.once, u);
    } else {
      OthersStayInside(s, t, s', u);
    }
  }

  lemma OthersStayInside(s: Task, t: Tid, s': Task, u: Tid)
    requires WakeStep(s, t, s') || GuardedStep(s, t, s') || StopFnStep(s, t, s')
    requires u != t
    ensures s'.Local(u) == s.Local(u) && s'.once.At(u) == s.once.At(u)
  {
    if WakeStep(s, t, s') {
      WakeStaysInside(s, t, s', u);
    } else if GuardedStep(s, t, s') {
      GuardedStaysInside(s, t, s', u);
    }
  }

  lemma WakeStaysInside(s: Task, t: Tid, s': Task, u: Tid)
    requires WakeStep(s, t, s') && u != t
    ensures s'.Local(u) == s.Local(u) && s'.once.At(u) == s.once.At(u)
  {
  }

  lemma GuardedStaysInside(s: Task, t: Tid, s': Task, u: Tid)
    requires GuardedStep(s, t, s') && u != t
    ensures s'.Local(u) == s.Local(u) && s'.once.At(u) == s.once.At(u)
  {
  }

  lemma ThreadKeepsLocals(s: Task, t: Tid, s': Task, u: Tid)
    requires S.ThreadOk(s.once, t) && S.ThreadOk(s.once, u)
    requires LocalOk(s, t) && LocalOk(s, u) && ChannelsOk(s) && ThreadStep(s, t, s')
    ensures LocalOk(s', u)
  {
    if u == t {
      if LifecycleStep(s, t, s') { LifecycleKeepsLocal(s, t, s'); } else { InsideKeepsLocal(s, t, s'); }
    } else {
      OthersStay(s, t, s', u);
      ClosesOwn(s, t, s');
    }
  }

  lemma LifecycleKeepsLocal(s: Task, t: Tid, s': Task)
    requires S.ThreadOk(s.once, t) && LocalOk(s, t) && ChannelsOk(s) && LifecycleStep(s, t, s')
    ensures LocalOk(s', t)
  {
  }

  lemma InsideKeepsLocal(s: Task, t: Tid, s': Task)
    requires LocalOk(s, t) && (WakeStep(s, t, s') || GuardedStep(s, t, s') || StopFnStep(s, t, s'))
    ensures LocalOk(s', t)
  {
  }

  /** Only the stop callback closes the stop channel, and nothing opens it. */
  lemma ClosesOwn(s: Task, t: Tid, s': Task)
    requires ThreadStep(s, t, s')
    ensures s.stopClosed ==> s'.stopClosed
    ensures s'.stopClosed && !s.stopClosed ==> s.once.At(t).StopInFn?
  {
  }

  lemma ThreadKeepsChannels(s: Task, t: Tid, s': Task)
    requires S.PhaseOk(s.once) && S.ThreadOk(s.once, t) && LocalOk(s, t) && ChannelsOk(s) && ThreadStep(s, t, s')
    ensures ChannelsOk(s')
  {
    if LifecycleStep(s, t, s') {
      LifecycleKeepsLog(s.once, t, s'.once);
    } else {
      InsideKeepsChannels(s, t, s');
    }
  }

  /** Outside the callbacks the lifecycle adds only their beginnings to its log, and the end of the start callback. */
  lemma LifecycleKeepsLog(o: S.Once, t: Tid, o': S.Once)
    requires S.ThreadOk(o, t) && S.Step(o, t, o') && !o.At(t).StopInFn? && |o.log| >= 2
    ensures o.log <= o'.log
    ensures |o'.log| == 4 ==> o'.log == o.log
  {
  }

  lemma InsideKeepsChannels(s: Task, t: Tid, s': Task)
    requires S.ThreadOk(s.once, t) && LocalOk(s, t) && ChannelsOk(s)
    requires WakeStep(s, t, s') || GuardedStep(s, t, s') || StopFnStep(s, t, s')
    ensures ChannelsOk(s')
  {
  }

  /** A thread step leaves the loop alone, and the log too unless it completes a wake-up. */
  lemma ThreadLogs(s: Task, t: Tid, s': Task)
    requires ThreadStep(s, t, s')
    ensures s'.worker == s.worker
    ensures || (s'.log == s.log && s'.token == s.token)
            || (s'.log == s.Send(t).log && s'.token)
  {
    if WakeStep(s, t, s') {
      WakeLogs(s, t, s');
    } else if GuardedStep(s, t, s') {
      GuardedLogs(s, t, s');
    }
  }

  lemma WakeLogs(s: Task, t: Tid, s': Task)
    requires WakeStep(s, t, s')
    ensures s'.worker == s.worker
    ensures || (s'.log == s.log && s'.token == s.token)
            || (s'.log == s.Send(t).log && s'.token)
  {
  }

  lemma GuardedLogs(s: Task, t: Tid, s': Task)
    requires GuardedStep(s, t, s')
    ensures s'.worker == s.worker
    ensures || (s'.log == s.log && s'.token == s.token)
            || (s'.log == s.Send(t).log && s'.token)
  {
  }

  lemma ThreadKeepsAccounts(s: Task, t: Tid, s': Task)
    requires Accounted(s)
    requires s'.worker == s.worker
    requires || (s'.log == s.log && s'.token == s.token)
             || (s'.log == s.Send(t).log && s'.token)
    ensures Accounted(s')
  {
    if s'.log != s.log || s'.token != s.token { WokeKeepsTokens(s, t); }
  }

  lemma ThreadKeepsLifecycle(s: Task, t: Tid, s': Task)
    requires S.Inv(s.once) && ThreadStep(s, t, s')
    ensures S.Inv(s'.once)
  {
    Projects(s, t, s');
    if s'.once != s.once { S.StepKeepsInv(s.once, t, s'.once); }
  }

  lemma WorkerKeepsChannels(s: Task, s': Task)
    requires ChannelsOk(s) && WorkerStep(s, s')
    ensures ChannelsOk(s') && s'.once == s.once && s'.locals == s.locals && s'.stopClosed == s.stopClosed
  {
  }

  lemma NextKeepsInv(s: Task, s': Task)
    requires Inv(s) && Next(s, s')
    ensures Inv(s')
  {
    if WorkerStep(s, s') {
      WorkerKeepsAccounts(s, s');
      WorkerKeepsChannels(s, s');
      forall u: Tid ensures LocalOk(s', u) { assert LocalOk(s, u); }
    } else {
      var t: Tid :| ThreadStep(s, t, s');
      assert S.ThreadOk(s.once, t) && LocalOk(s, t);
      ThreadKeepsLifecycle(s, t, s');
      ThreadKeepsChannels(s, t, s');
      ThreadLogs(s, t, s');
      ThreadKeepsAccounts(s, t, s');
      forall u: Tid ensures LocalOk(s', u) {
        assert S.ThreadOk(s.once, u) && LocalOk(s, u);
        ThreadKeepsLocals(s, t, s', u);
      }
    }
  }

  lemma InitialInv()
    ensures Inv(INITIAL)
  {
    var run := SpawnedIsReached();
    S.RunKeepsInv(run, |run| - 1);
  }

  lemma {:induction false} RunKeepsInv(run: seq<Task>, i: nat)
    requires IsRun(run) && i < |run|
    ensures Inv(run[i])
  {
    if i == 0 {
      InitialInv();
    } else {
      RunKeepsInv(run, i - 1);
      assert StepAt(run, i - 1);
      NextKeepsInv(run[i - 1], run[i]);
    }
  }

  // ----- every run -----

  /** What the lifecycle goes through in a run is a run of it, so all that is proved about those holds here. */
  lemma {:induction false} LifecycleRun(run: seq<Task>, i: nat) returns (base: seq<S.Once>)
    requires IsRun(run) && i < |run|
    ensures S.IsRun(base) && base[|base| - 1] == run[i].once
    ensures run[i].once.history == S.ORDER[..S.Rank(run[i].once.phase) + 1]
    ensures forall t: Tid :: !run[i].once.At(t).Panicked?
  {
    if i == 0 {
      base := SpawnedIsReached();
    } else {
      base := LifecycleRun(run, i - 1);
      assert StepAt(run, i - 1);
      base := LifecycleNext(base, run[i - 1], run[i]);
    }
    S.Lifecycle(base, |base| - 1);
  }

  lemma LifecycleNext(base: seq<S.Once>, s: Task, s': Task) returns (base': seq<S.Once>)
    requires S.IsRun(base) && base[|base| - 1] == s.once && Next(s, s')
    ensures S.IsRun(base') && base'[|base'| - 1] == s'.once
  {
    base' := base;
    if s'.once != s.once {
      var t: Tid :| ThreadStep(s, t, s');
      Projects(s, t, s');
      S.RunAppends(base, t, s'.once);
      base' := base + [s'.once];
    }
  }

  /**
   No completed `WakeUp` is forgotten: in every reachable state its token is still in the slot, or the
   loop took a token after it and is about to begin a Work, or a Work has begun after it.
   */
  lemma WakeUpHonoured(run: seq<Task>, i: nat, w: nat)
    requires IsRun(run) && i < |run|
    requires w < |run[i].log| && run[i].log[w].Woke?
    ensures run[i].token || run[i].worker.Committed? || WorkAfter(run[i].log, w)
  {
    RunKeepsInv(run, i);
    var s := run[i];
    if !s.token && !s.worker.Committed? {
      assert !Pending(s.log, w);
      var j: nat :| w < j < |s.log| && s.log[j].Received?;
      assert WorkAfter(s.log, j);
    }
  }

  /** The slot is full exactly when some completed `WakeUp` has not been followed by a receive. */
  lemma TokenIffPending(run: seq<Task>, i: nat)
    requires IsRun(run) && i < |run|
    ensures run[i].token <==> exists w: nat :: Pending(run[i].log, w)
  {
    RunKeepsInv(run, i);
  }

  /**
   Works never overlap, and there are never more of them than tokens sent: tokens sent, less the one in
   the slot, are the tokens received; less the one in hand, the Works begun; less the one running, the
   Works ended. This is so in every state, so also of every prefix of the log. The loop leaves only
   after a stop callback has begun, and no channel is closed twice.
   */
  lemma WorksAreSerial(run: seq<Task>, i: nat)
    requires IsRun(run) && i < |run|
    ensures Count(run[i].log, Ended) <= Count(run[i].log, Begun) <= Count(run[i].log, Ended) + 1
    ensures Count(run[i].log, Begun) <= Count(run[i].log, Taken) <= Count(run[i].log, Sent)
    ensures Count(run[i].log, Sent) <= Count(run[i].log, Begun) + 2
    ensures run[i].worker.Returning? || run[i].worker.Exited? ==>
              |run[i].once.log| >= 3 && run[i].once.log[2].StopBegan?
    ensures forall t: Tid :: !run[i].Local(t).ClosePanicked?
  {
    RunKeepsInv(run, i);
    forall t: Tid ensures !run[i].Local(t).ClosePanicked? { assert LocalOk(run[i], t); }
  }

  /** An exited loop stays exited and no Work begins or ends any more. */
  lemma ExitedStays(s: Task, s': Task)
    requires Next(s, s') && s.worker.Exited?
    ensures s'.worker.Exited?
    ensures Count(s'.log, Begun) == Count(s.log, Begun) && Count(s'.log, Ended) == Count(s.log, Ended)
  {
    var t: Tid :| ThreadStep(s, t, s');
    ThreadLogs(s, t, s');
    CountsExtend(s.log, Woke(t, !s.token));
  }

  /** Once `Stop` has returned nil, no Work is running and none will ever begin. */
  lemma {:induction false} NoWorkAfterStop(run: seq<Task>, i: nat, j: nat, t: Tid)
    requires IsRun(run) && i <= j < |run|
    requires run[i].once.At(t) == S.Idle(S.StopReturned(false))
    ensures run[j].worker.Exited?
    ensures Count(run[j].log, Ended) == Count(run[j].log, Begun) == Count(run[i].log, Begun)
    decreases j
  {
    if i == j {
      RunKeepsInv(run, i);
      assert S.ThreadOk(run[i].once, t);
    } else {
      NoWorkAfterStop(run, i, j - 1, t);
      assert StepAt(run, j - 1);
      ExitedStays(run[j - 1], run[j]);
    }
  }

  /** When the loop has exited, every `WakeUp` had a receive and then a Work after it, unless a token is left behind. */
  lemma AllServedIff(run: seq<Task>, i: nat)
    requires IsRun(run) && i < |run| && run[i].worker.Exited?
    ensures (forall w: nat | w < |run[i].log| && run[i].log[w].Woke? ::
               ReceivedAfter(run[i].log, w) && WorkAfter(run[i].log, w))
            <==> !run[i].token
  {
    RunKeepsInv(run, i);
    var s := run[i];
    if s.token {
      var w: nat :| Pending(s.log, w);
      assert !ReceivedAfter(s.log, w);
    } else {
      forall w: nat | w < |s.log| && s.log[w].Woke? ensures ReceivedAfter(s.log, w) && WorkAfter(s.log, w) {
        assert !Pending(s.log, w);
        var j: nat :| w < j < |s.log| && s.log[j].Received?;
        assert WorkAfter(s.log, j);
      }
    }
  }

  // ----- what a wake-up does -----

  ghost predicate InCallback(s: Task, t: Tid) {
    s.once.At(t).IfStartedInFn?
  }

  /** The place of a thread changes only by a step of its own. */
  lemma OwnStep(s: Task, s': Task, t: Tid)
    requires Next(s, s') && (s'.Local(t) != s.Local(t) || s'.once.At(t) != s.once.At(t))
    ensures ThreadStep(s, t, s')
  {
    assert WorkerStep(s, s') ==> s'.locals == s.locals && s'.once == s.once;
    var u: Tid :| ThreadStep(s, u, s');
    if u != t { OthersStay(s, u, s', t); }
  }

  /** `WakeUp` has read the state, and goes on to its select or panics: it panics exactly when the task is stopped. */
  lemma WakeUpPanicsIff(run: seq<Task>, i: nat, t: Tid)
    requires IsRun(run) && i + 1 < |run|
    requires run[i].Local(t).Outside? && (run[i + 1].Local(t).Sending? || run[i + 1].Local(t).WakePanicked?)
    ensures run[i + 1].Local(t).WakePanicked? <==> run[i].once.phase == S.Stopped
  {
    assert StepAt(run, i);
    OwnStep(run[i], run[i + 1], t);
  }

  /** A `WakeUp` that has not panicked ends in one way, with the slot full: its token is sent if the slot was empty. */
  lemma WakeUpSends(run: seq<Task>, i: nat, t: Tid)
    requires IsRun(run) && i + 1 < |run|
    requires run[i].Local(t).Sending? && !run[i + 1].Local(t).Sending?
    ensures run[i + 1].Local(t).Outside? && run[i + 1].token
    ensures run[i + 1].log == run[i].log + [Woke(t, !run[i].token)]
  {
    assert StepAt(run, i);
    OwnStep(run[i], run[i + 1], t);
  }

  /** Thread `t` completed a select among the events from `from` on. */
  ghost predicate WokeSince(log: seq<Event>, from: nat, t: Tid) {
    exists w: nat :: from <= w < |log| && log[w].Woke? && log[w].t == t
  }

  lemma {:induction false} CallbackStands(run: seq<Task>, i: nat, j: nat, t: Tid)
    requires IsRun(run) && i <= j < |run| && run[i].Local(t).Outside?
    requires forall k: nat :: i <= k <= j ==> InCallback(run[k], t)
    ensures run[j].Local(t).Outside? || (run[j].Local(t).GuardedDone? && WokeSince(run[j].log, |run[i].log|, t))
    decreases j
  {
    if i < j {
      CallbackStands(run, i, j - 1, t);
      var s, s' := run[j - 1], run[j];
      assert InCallback(s, t) && InCallback(s', t) && StepAt(run, j - 1);
      LogGrows(run, i, j - 1);
      NextGrows(s, s');
      if s.Local(t).GuardedDone? {
        var w: nat :| |run[i].log| <= w < |s.log| && s.log[w].Woke? && s.log[w].t == t;
        assert s'.log[w].Woke?;
      }
      if s'.Local(t) != s.Local(t) {
        OwnStep(s, s', t);
        if s.Local(t).Outside? { assert s'.log[|s.log|] == Woke(t, !s.token); }
      }
    }
  }

  /** The callback of a `WakeUpIfStarted` does not end before its select has. */
  lemma WakeUpIfStartedSends(run: seq<Task>, i: nat, j: nat, t: Tid)
    requires IsRun(run) && i < j < |run| && run[i].Local(t).Outside?
    requires (forall k: nat :: i <= k < j ==> InCallback(run[k], t)) && !InCallback(run[j], t)
    ensures WokeSince(run[j].log, |run[i].log|, t)
  {
    CallbackStands(run, i, j - 1, t);
    var s, s' := run[j - 1], run[j];
    assert InCallback(s, t) && StepAt(run, j - 1);
    OwnStep(s, s', t);
    NextGrows(s, s');
    var w: nat :| |run[i].log| <= w < |s.log| && s.log[w].Woke? && s.log[w].t == t;
    assert s'.log[w].Woke?;
  }

  lemma RunExtends(run: seq<Task>, s: Task)
    requires IsRun(run) && Next(run[|run| - 1], s)
    ensures IsRun(run + [s])
  {
    var run' := run + [s];
    forall i: nat | i < |run'| - 1 ensures StepAt(run', i) {
      if i < |run| - 1 { assert StepAt(run, i); }
    }
  }

  lemma RunExtendsBy(run: seq<Task>, t: Tid, s: Task)
    requires IsRun(run) && ThreadStep(run[|run| - 1], t, s)
    ensures IsRun(run + [s])
  {
    RunExtends(run, s);
  }

  // ----- when the stop channel is closed -----

  lemma NextGrows(s: Task, s': Task)
    requires Next(s, s')
    ensures s.log <= s'.log
  {
    if !WorkerStep(s, s') {
      var t: Tid :| ThreadStep(s, t, s');
      ThreadLogs(s, t, s');
    }
  }

  lemma {:induction false} LogGrows(run: seq<Task>, i: nat, j: nat)
    requires IsRun(run) && i <= j < |run|
    ensures run[i].log <= run[j].log
    decreases j
  {
    if i == j {
    } else {
      LogGrows(run, i, j - 1);
      assert StepAt(run, j - 1);
      NextGrows(run[j - 1], run[j]);
    }
  }

  /** The longer log has as many events of a kind, and more only if one of them is among the new events. */
  lemma {:induction false} CountGrows(log: seq<Event>, log': seq<Event>, k: Kind)
    requires log <= log'
    ensures Count(log, k) <= Count(log', k)
    ensures Count(log, k) < Count(log', k) ==> exists i: nat :: |log| <= i < |log'| && Is(log'[i], k)
  {
    if |log| == |log'| {
      assert log == log';
    } else {
      CountGrows(log, log'[..|log'| - 1], k);
    }
  }

  /** The run can go on with the event `e`. */
  ghost predicate CanLog(run: seq<Task>, e: Event) {
    exists s: Task :: |run| > 0 && IsRun(run + [s]) && s.log == run[|run| - 1].log + [e]
  }

  lemma LastStep(run: seq<Task>, s: Task)
    requires IsRun(run) && IsRun(run + [s])
    ensures Next(run[|run| - 1], s)
  {
    assert StepAt(run + [s], |run| - 1);
  }

  /**
   At its select the loop is free to take a token if there is one, and free to leave if the stop channel is closed,
   and neither rules out the other.
   */
  lemma SelectTakesEither(run: seq<Task>)
    requires IsRun(run) && run[|run| - 1].worker.Selecting?
    ensures CanLog(run, Received) <==> run[|run| - 1].token
    ensures CanLog(run, LoopLeft) <==> run[|run| - 1].stopClosed
  {
    var s := run[|run| - 1];
    if s.token { RunExtends(run, s.(token := false, worker := Committed).Emit(Received)); }
    if s.stopClosed { RunExtends(run, s.(worker := Returning).Emit(LoopLeft)); }
    forall e: Event | !e.Woke? && CanLog(run, e)
      ensures (e.Received? && s.token) || (e.LoopLeft? && s.stopClosed)
    {
      var s': Task :| IsRun(run + [s']) && s'.log == s.log + [e];
      LastStep(run, s');
      LogsOwn(s, s', e);
      assert s'.log[|s.log|] == e;
    }
  }

  lemma LogsOwn(s: Task, s': Task, e: Event)
    requires Next(s, s') && s'.log == s.log + [e] && !e.Woke?
    ensures WorkerStep(s, s')
  {
    if !WorkerStep(s, s') {
      var t: Tid :| ThreadStep(s, t, s');
      assert s.Send(t).log[|s.log|].Woke? && s'.log[|s.log|] == e;
      ThreadLogs(s, t, s');
    }
  }

  ghost predicate EndsRun(run: seq<Task>, run': seq<Task>) {
    |run| > 0 && IsRun(run') && run <= run' && run'[|run'| - 1].worker.Exited?
  }

  /** Events that are no receive, and begin no Work unless the loop has a token in hand. */
  predicate Idles(s: Task, tail: seq<Event>) {
    forall i: nat :: i < |tail| ==> !tail[i].Received? && (tail[i].WorkBegan? ==> s.worker.Committed?)
  }

  /** The loop finishes the Work in hand. */
  lemma FinishesWork(run: seq<Task>) returns (run': seq<Task>, tail: seq<Event>)
    requires IsRun(run)
    ensures IsRun(run') && run <= run' && Idles(run[|run| - 1], tail)
    ensures var s, s' := run[|run| - 1], run'[|run'| - 1];
            s'.log == s.log + tail && s'.stopClosed == s.stopClosed && !s'.worker.Committed? && !s'.worker.Working?
  {
    run', tail := run, [];
    var s := run[|run| - 1];
    if s.worker.Committed? {
      s := s.(worker := Working).Emit(WorkBegan);
      RunExtends(run', s);
      run' := run' + [s];
      tail := [WorkBegan];
    }
    if s.worker.Working? {
      s := s.(worker := Selecting).Emit(WorkEnded);
      RunExtends(run', s);
      run' := run' + [s];
      tail := tail + [WorkEnded];
    }
  }

  /** It leaves. */
  lemma Leaves(run: seq<Task>) returns (run': seq<Task>, tail: seq<Event>)
    requires IsRun(run)
    requires var s := run[|run| - 1]; s.stopClosed && !s.worker.Committed? && !s.worker.Working?
    ensures EndsRun(run, run') && (tail == [] || tail == [LoopLeft])
    ensures run'[|run'| - 1].log == run[|run| - 1].log + tail
  {
    run', tail := run, [];
    var s := run[|run| - 1];
    if s.worker.Selecting? {
      s := s.(worker := Returning).Emit(LoopLeft);
      RunExtends(run', s);
      run' := run' + [s];
      tail := [LoopLeft];
    }
    if s.worker.Returning? {
      s := s.(doneClosed := true, worker := Exited);
      RunExtends(run', s);
      run' := run' + [s];
    }
  }

  /** Once the stop channel is closed the loop is free to leave as soon as it is back at its select. */
  lemma LeavesAtOnce(run: seq<Task>) returns (run': seq<Task>, tail: seq<Event>)
    requires IsRun(run) && run[|run| - 1].stopClosed
    ensures EndsRun(run, run') && Idles(run[|run| - 1], tail)
    ensures run'[|run'| - 1].log == run[|run| - 1].log + tail
  {
    var done, work := FinishesWork(run);
    var last: seq<Event>;
    run', last := Leaves(done);
    tail := work + last;
  }

  lemma StaysUnserved(log: seq<Event>, tail: seq<Event>, w: nat)
    requires w < |log|
    requires forall i: nat :: i < |tail| ==> !tail[i].Received?
    ensures ReceivedAfter(log + tail, w) ==> ReceivedAfter(log, w)
    ensures (forall i: nat :: i < |tail| ==> !tail[i].WorkBegan?) && WorkAfter(log + tail, w) ==> WorkAfter(log, w)
  {
    var log' := log + tail;
    assert forall j: nat :: |log| <= j < |log'| ==> log'[j] == tail[j - |log|];
    assert forall j: nat :: j < |log| ==> log'[j] == log[j];
  }

  /** A loop with a token in hand begins a Work before it exits. */
  lemma CommittedWorks(run: seq<Task>, run': seq<Task>, w: nat)
    requires IsRun(run) && EndsRun(run, run') && run[|run| - 1].worker.Committed? && w < |run[|run| - 1].log|
    ensures WorkAfter(run'[|run'| - 1].log, w)
  {
    var i, j := |run| - 1, |run'| - 1;
    assert run'[i] == run[i];
    RunKeepsInv(run', i);
    RunKeepsInv(run', j);
    LogGrows(run', i, j);
    CountGrows(run'[i].log, run'[j].log, Taken);
    CountGrows(run'[i].log, run'[j].log, Begun);
    var k: nat :| |run'[i].log| <= k < |run'[j].log| && Is(run'[j].log[k], Begun);
    assert run'[j].log[k].WorkBegan?;
  }

  /**
   The constructor's comment promises a Work for every `WakeUp`. From any state in which `Stop` has closed its
   channel, a `WakeUp` completed before then is sure of a Work that begins after it if and only if there has been
   one already or the loop has a token in hand.
   */
  lemma SureOfWorkIff(run: seq<Task>, w: nat)
    requires IsRun(run) && run[|run| - 1].stopClosed
    requires w < |run[|run| - 1].log| && run[|run| - 1].log[w].Woke?
    ensures (forall run': seq<Task> :: EndsRun(run, run') ==> WorkAfter(run'[|run'| - 1].log, w))
            <==> WorkAfter(run[|run| - 1].log, w) || run[|run| - 1].worker.Committed?
  {
    var s := run[|run| - 1];
    if WorkAfter(s.log, w) || s.worker.Committed? {
      forall run': seq<Task> | EndsRun(run, run') ensures WorkAfter(run'[|run'| - 1].log, w) {
        if s.worker.Committed? {
          CommittedWorks(run, run', w);
        } else {
          assert run'[|run| - 1] == s;
          LogGrows(run', |run| - 1, |run'| - 1);
          var k: nat :| w < k < |s.log| && s.log[k].WorkBegan?;
          assert run'[|run'| - 1].log[k].WorkBegan?;
        }
      }
    } else {
      var run', tail := LeavesAtOnce(run);
      StaysUnserved(s.log, tail, w);
    }
  }

  /**
   The same for a Work of its own, one for which a token was received after the `WakeUp`: it is sure of that if and
   only if it is not pending when the channel is closed.
   */
  lemma SureOfOwnWorkIff(run: seq<Task>, w: nat)
    requires IsRun(run) && run[|run| - 1].stopClosed
    requires w < |run[|run| - 1].log| && run[|run| - 1].log[w].Woke?
    ensures (forall run': seq<Task> :: EndsRun(run, run') ==>
               ReceivedAfter(run'[|run'| - 1].log, w) && WorkAfter(run'[|run'| - 1].log, w))
            <==> !Pending(run[|run| - 1].log, w)
  {
    var s := run[|run| - 1];
    if Pending(s.log, w) {
      var run', tail := LeavesAtOnce(run);
      StaysUnserved(s.log, tail, w);
    } else {
      forall run': seq<Task> | EndsRun(run, run')
        ensures ReceivedAfter(run'[|run'| - 1].log, w) && WorkAfter(run'[|run'| - 1].log, w)
      {
        assert run'[|run| - 1] == s;
        LogGrows(run', |run| - 1, |run'| - 1);
        RunKeepsInv(run', |run'| - 1);
        var log' := run'[|run'| - 1].log;
        var j: nat :| w < j < |s.log| && s.log[j].Received?;
        assert log'[j].Received?;
        assert WorkAfter(log', j);
      }
    }
  }

  lemma LifecycleExtends(run: seq<Task>, t: Tid, o: S.Once) returns (run': seq<Task>)
    requires IsRun(run)
    requires var s := run[|run| - 1];
             s.Local(t).Outside? && !s.once.At(t).IfStartedInFn? && !s.once.At(t).StopInFn? && S.StopStep(s.once, t, o)
    ensures IsRun(run') && run' == run + [run[|run| - 1].(once := o)]
  {
    var s' := run[|run| - 1].(once := o);
    RunExtendsBy(run, t, s');
    run' := run + [s'];
  }

  /** Thread 1 completes a `WakeUp`. */
  lemma WokenRun() returns (run: seq<Task>)
    ensures IsRun(run) && run[|run| - 1] == INITIAL.Goto(1, Sending).Send(1).Goto(1, Outside)
  {
    var a := INITIAL.Goto(1, Sending);
    RunExtendsBy([INITIAL], 1, a);
    RunExtendsBy([INITIAL] + [a], 1, a.Send(1).Goto(1, Outside));
    run := [INITIAL] + [a] + [a.Send(1).Goto(1, Outside)];
  }

  /** Then thread 2 calls `Stop` and closes the stop channel. */
  lemma WokenThenStopping() returns (woken: seq<Task>, run: seq<Task>)
    ensures IsRun(woken) && woken <= run && woken[|woken| - 1].log == [Woke(1, true)]
    ensures woken[|woken| - 1].once == SPAWNED
    ensures IsRun(run)
    ensures var s := run[|run| - 1]; s.log == [Woke(1, true)] && s.token && s.stopClosed && s.worker.Selecting?
  {
    woken := WokenRun();
    run := LifecycleExtends(woken, 2, SPAWNED.Goto(2, S.StopWait));
    run := LifecycleExtends(run, 2, S.Successor(run[|run| - 1].once, 2));
    run := LifecycleExtends(run, 2, S.Successor(run[|run| - 1].once, 2));
    run := LifecycleExtends(run, 2, S.Successor(run[|run| - 1].once, 2));
    var f := run[|run| - 1];
    var g := f.(stopClosed := true).Goto(2, AwaitingLoop);
    RunExtendsBy(run, 2, g);
    run := run + [g];
  }

  /** A `WakeUp` that completes before `Stop` is called can still get no Work: the select is free to leave. */
  lemma WakeUpCanBeDropped() returns (woken: seq<Task>, run: seq<Task>)
    ensures IsRun(woken) && woken <= run && woken[|woken| - 1].log == [Woke(1, true)]
    ensures woken[|woken| - 1].once == SPAWNED
    ensures IsRun(run) && run[|run| - 1].worker.Exited?
    ensures run[|run| - 1].log == [Woke(1, true), LoopLeft]
  {
    woken, run := WokenThenStopping();
    var g := run[|run| - 1];
    var h := g.(worker := Returning).Emit(LoopLeft);
    RunExtends(run, h);
    run := run + [h];
    var z := h.(doneClosed := true, worker := Exited);
    RunExtends(run, z);
    run := run + [z];
  }
}
