/**
 The generic chain set under concurrency: any number of threads call `Chain`, `Add`, `Configure`,
 `Remove`, `Start` and `Close`. The lifecycle is that of module `StartStop`; the start and stop callbacks
 and the operations contend for `chainsMu`. A critical section under its write lock is one step, since
 nothing else reads or writes what it guards; taking and releasing the lock, and each look at the
 lifecycle state, are steps of their own.
 */
module ChainSetRuns {
  import opened Wrappers
  import opened ChainTable
  import opened ChainTraces
  import S = StartStop

  type Tid = S.Tid

  datatype Local =
    | Outside
    | ChainPassed(id: Id)       // the first `Ready` succeeded, the read lock is next
    | ChainReading(id: Id)
    | ChainMissed(id: Id)       // not in the map, the write lock is next
    | ChainHolding(id: Id)      // the second `Ready` is next
    | ChainReady(id: Id)        // it succeeded
    | OpWaiting(op: Op)
    | OpHolding(op: Op)
    | Unlocking
    | BodyHolding               // a callback holds the lock
    | BodyUnlock
    | BodyDone

  /** `swept` and `failed` are what the callbacks did, as in `ChainTraces`. */
  datatype Sys = Sys(
    once: S.Once,
    mu: Option<Tid>,
    muReaders: set<Tid>,
    table: Table,
    locals: map<Tid, Local>,
    swept: Option<nat>,
    failed: Option<set<nat>>)
  {
    function Local(t: Tid): Local {
      if t in locals then locals[t] else Outside
    }

    function Goto(t: Tid, l: Local): Sys {
      this.(locals := locals[t := l])
    }

    predicate Free() {
      mu.None? && muReaders == {}
    }

    function Lock(t: Tid): Sys {
      this.(mu := Some(t))
    }
  }

  // ----- steps -----

  ghost predicate LifecycleStep(s: Sys, t: Tid, s': Sys) {
    && s.Local(t).Outside?
    && !s.once.At(t).StartInFn? && !s.once.At(t).StopInFn?
    && S.Step(s.once, t, s'.once)
    && s' == s.(once := s'.once)
  }

  /** A thread calls an operation. An empty formatted id is refused at once, as is a set that is not ready. */
  ghost predicate CallStep(f: Id -> string, s: Sys, t: Tid, s': Sys) {
    && s.Local(t).Outside? && s.once.At(t).Idle?
    && (|| (exists id: Id :: f(id) != "" && s.once.phase == S.Started && s' == s.Goto(t, ChainPassed(id)))
        || (exists op: Op :: s' == s.Goto(t, OpWaiting(op))))
  }

  predicate ChainStep(f: Id -> string, s: Sys, t: Tid, s': Sys) {
    match s.Local(t)
    case ChainPassed(id) => s.mu.None? && s' == s.(muReaders := s.muReaders + {t}).Goto(t, ChainReading(id))
    case ChainReading(id) =>
      s' == s.(muReaders := s.muReaders - {t}).Goto(t, if s.table.Has(f(id)) then Outside else ChainMissed(id))
    case ChainMissed(id) => s.Free() && s' == s.Lock(t).Goto(t, ChainHolding(id))
    case ChainHolding(id) => s' == s.Goto(t, if s.once.phase == S.Started then ChainReady(id) else Unlocking)
    case Unlocking => s' == s.(mu := None).Goto(t, Outside)
    case _ => false
  }

  ghost predicate ChainBodyStep(f: Id -> string, s: Sys, t: Tid, env: Env, s': Sys) {
    && s.Local(t).ChainReady?
    && s' == s.(table := ChainBody(f, s.table, s.Local(t).id, env).0).Goto(t, Unlocking)
  }

  predicate OpLockStep(s: Sys, t: Tid, s': Sys) {
    s.Local(t).OpWaiting? && s.Free() && s' == s.Lock(t).Goto(t, OpHolding(s.Local(t).op))
  }

  ghost predicate OpBodyStep(f: Id -> string, s: Sys, t: Tid, env: Env, s': Sys) {
    && s.Local(t).OpHolding? && InBounds(s.table)
    && s' == s.(table := OpBody(f, s.table, s.Local(t).op, env).0).Goto(t, Unlocking)
  }

  /** Either callback: lock, body, unlock, return. */
  ghost predicate CallbackStep(s: Sys, t: Tid, s': Sys) {
    && (s.once.At(t).StartInFn? || s.once.At(t).StopInFn?)
    && match s.Local(t)
       case Outside => s.Free() && s' == s.Lock(t).Goto(t, BodyHolding)
       case BodyHolding =>
         if s.once.At(t).StartInFn? then StartBodyStep(s, t, s') else s' == Sweep(s).Goto(t, BodyUnlock)
       case BodyUnlock => s' == s.(mu := None).Goto(t, BodyDone)
       case BodyDone =>
         if s.once.At(t).StartInFn? then s' == StartFnReturns(s, t)
         else exists failed: bool :: s' == StopFnReturns(s, t, failed)
       case _ => false
  }

  ghost predicate StartBodyStep(s: Sys, t: Tid, s': Sys) {
    exists fails: set<nat> :: s' == Started(s, fails).Goto(t, BodyUnlock)
  }

  function Started(s: Sys, fails: set<nat>): Sys {
    s.(table := StartAll(s.table, fails), failed := Some(fails))
  }

  function Sweep(s: Sys): Sys {
    s.(table := CloseAll(s.table), swept := Some(|s.table.services|))
  }

  /** The start callback returns nil even when chains failed to start. */
  function StartFnReturns(s: Sys, t: Tid): Sys {
    s.(once := s.once.Emit(S.StartEnded(t, false)).Goto(t, S.StartFnDone(false))).Goto(t, Outside)
  }

  function StopFnReturns(s: Sys, t: Tid, failed: bool): Sys {
    s.(once := s.once.Emit(S.StopEnded(t, failed)).Goto(t, S.StopFnDone(failed))).Goto(t, Outside)
  }

  ghost predicate BodyStep(f: Id -> string, s: Sys, t: Tid, s': Sys) {
    exists env: Env :: ChainBodyStep(f, s, t, env, s') || OpBodyStep(f, s, t, env, s')
  }

  ghost predicate Step(f: Id -> string, s: Sys, t: Tid, s': Sys) {
    || LifecycleStep(s, t, s')
    || CallStep(f, s, t, s')
    || ChainStep(f, s, t, s')
    || OpLockStep(s, t, s')
    || BodyStep(f, s, t, s')
    || CallbackStep(s, t, s')
  }

  ghost predicate Next(f: Id -> string, s: Sys, s': Sys) {
    exists t: Tid :: Step(f, s, t, s')
  }

  ghost predicate Initial(f: Id -> string, s: Sys) {
    FreshlyLoaded(f, s.table) && s == Sys(S.INITIAL, None, {}, s.table, map[], None, None)
  }

  ghost predicate StepAt(f: Id -> string, run: seq<Sys>, i: nat)
    requires i < |run| - 1
  {
    Next(f, run[i], run[i + 1])
  }

  ghost predicate IsRun(f: Id -> string, run: seq<Sys>) {
    && |run| > 0
    && Initial(f, run[0])
    && forall i: nat :: i < |run| - 1 ==> StepAt(f, run, i)
  }

  /** Every step is a step of the lifecycle, or leaves it alone. */
  lemma Projects(f: Id -> string, s: Sys, t: Tid, s': Sys)
    requires Step(f, s, t, s')
    ensures s'.once == s.once || S.Step(s.once, t, s'.once)
  {
    if CallbackStep(s, t, s') && s.Local(t).BodyDone? {
      if s.once.At(t).StartInFn? {
        assert S.StartStep(s.once, t, s'.once);
      } else {
        assert S.StopStep(s.once, t, s'.once);
      }
    }
  }

  // ----- the invariant -----

  predicate HoldsMu(l: Local) {
    l.ChainHolding? || l.ChainReady? || l.OpHolding? || l.Unlocking? || l.BodyHolding? || l.BodyUnlock?
  }

  predicate InCallback(l: Local) {
    l.BodyHolding? || l.BodyUnlock? || l.BodyDone?
  }

  /** One thread: the lock it holds, the side it is on, and what it knows about the sweep. */
  predicate LocalOk(s: Sys, t: Tid) {
    var l := s.Local(t);
    && (HoldsMu(l) <==> s.mu == Some(t))
    && (l.ChainReading? <==> t in s.muReaders)
    && (InCallback(l) ==> s.once.At(t).StartInFn? || s.once.At(t).StopInFn?)
    && (!l.Outside? && !InCallback(l) ==> s.once.At(t).Idle?)
    && (l.ChainReady? ==> s.swept.None?)
    && (s.once.At(t).StopInFn? ==> (s.swept.Some? <==> l.BodyUnlock? || l.BodyDone?))
    && (s.once.At(t).StartInFn? ==> (s.failed.Some? <==> l.BodyUnlock? || l.BodyDone?))
  }

  predicate SweepOk(s: Sys) {
    && (s.mu.Some? ==> s.muReaders == {})
    && (s.swept.Some? ==> |s.once.log| >= 3)
    && (|s.once.log| == 4 ==> s.swept.Some?)
    && (s.failed.Some? ==> |s.once.log| >= 1)
    && (|s.once.log| >= 2 ==> s.failed.Some? && s.once.log[1].StartEnded? && !s.once.log[1].failed)
  }

  function SnapOf(s: Sys): Snap {
    Snap(s.table, s.swept, s.failed)
  }

  ghost predicate Inv(f: Id -> string, s: Sys) {
    && S.Inv(s.once)
    && SweepOk(s)
    && SnapOk(f, SnapOf(s))
    && forall t: Tid :: LocalOk(s, t)
  }

  // ----- preservation -----

  lemma OthersStay(f: Id -> string, s: Sys, t: Tid, s': Sys, u: Tid)
    requires Step(f, s, t, s') && u != t
    ensures s'.Local(u) == s.Local(u) && s'.once.At(u) == s.once.At(u)
  {
    LocalsStay(f, s, t, s', u);
    Projects(f, s, t, s');
    if s'.once != s.once { S.OthersStay(s.once, t, s'.once, u); }
  }

  lemma LocalsStay(f: Id -> string, s: Sys, t: Tid, s': Sys, u: Tid)
    requires Step(f, s, t, s') && u != t
    ensures s'.Local(u) == s.Local(u)
  {
  }

  lemma KeepsLifecycle(f: Id -> string, s: Sys, t: Tid, s': Sys)
    requires S.Inv(s.once) && Step(f, s, t, s')
    ensures S.Inv(s'.once)
  {
    Projects(f, s, t, s');
    if s'.once != s.once { S.StepKeepsInv(s.once, t, s'.once); }
  }

  /** A lifecycle step from outside the callbacks enters the stop callback only with three events logged. */
  lemma LifecycleFacts(s: Sys, t: Tid, s': Sys)
    requires S.PhaseOk(s.once) && S.ThreadOk(s.once, t) && LifecycleStep(s, t, s')
    ensures s'.once.At(t).StopInFn? ==> |s.once.log| == 2
    ensures s'.once.At(t).StartInFn? ==> |s.once.log| == 0
    ensures s.once.log <= s'.once.log && (|s'.once.log| >= 2 ==> |s.once.log| >= 2)
    ensures |s.once.log| <= |s'.once.log|
    ensures |s'.once.log| == 4 ==> |s.once.log| == 4
  {
  }

  lemma LifecycleKeeps(s: Sys, t: Tid, s': Sys)
    requires S.PhaseOk(s.once) && S.ThreadOk(s.once, t)
    requires SweepOk(s) && LocalOk(s, t) && LifecycleStep(s, t, s')
    ensures LocalOk(s', t) && SweepOk(s')
  {
    LifecycleFacts(s, t, s');
  }

  lemma CallKeeps(f: Id -> string, s: Sys, t: Tid, s': Sys)
    requires SweepOk(s) && LocalOk(s, t)
    requires CallStep(f, s, t, s') || OpLockStep(s, t, s')
    ensures LocalOk(s', t) && SweepOk(s')
  {
  }

  lemma ChainKeeps(f: Id -> string, s: Sys, t: Tid, s': Sys)
    requires S.PhaseOk(s.once) && SweepOk(s) && LocalOk(s, t) && ChainStep(f, s, t, s')
    ensures LocalOk(s', t) && SweepOk(s')
  {
  }

  lemma BodyKeeps(f: Id -> string, s: Sys, t: Tid, s': Sys)
    requires SweepOk(s) && LocalOk(s, t) && BodyStep(f, s, t, s')
    ensures LocalOk(s', t) && SweepOk(s')
  {
  }

  lemma CallbackKeeps(s: Sys, t: Tid, s': Sys)
    requires S.PhaseOk(s.once) && S.ThreadOk(s.once, t)
    requires SweepOk(s) && LocalOk(s, t) && CallbackStep(s, t, s')
    ensures LocalOk(s', t) && SweepOk(s')
  {
  }

  /** What a step does to the shared state, seen from another thread. */
  lemma Shared(f: Id -> string, s: Sys, t: Tid, s': Sys)
    requires Step(f, s, t, s')
    ensures s'.mu == s.mu || (s.mu == None && s'.mu == Some(t)) || (HoldsMu(s.Local(t)) && s'.mu == None)
    ensures s'.muReaders - {t} == s.muReaders - {t}
    ensures s'.swept == s.swept || (HoldsMu(s.Local(t)) && s.once.At(t).StopInFn? && s'.swept.Some?)
    ensures s'.failed == s.failed || (HoldsMu(s.Local(t)) && s.once.At(t).StartInFn? && s'.failed.Some?)
  {
  }

  lemma KeepsOther(f: Id -> string, s: Sys, t: Tid, s': Sys, u: Tid)
    requires S.ThreadOk(s.once, t) && S.ThreadOk(s.once, u)
    requires LocalOk(s, t) && LocalOk(s, u) && Step(f, s, t, s') && u != t
    ensures LocalOk(s', u)
  {
    OthersStay(f, s, t, s', u);
    Shared(f, s, t, s');
    assert u in s'.muReaders <==> u in s'.muReaders - {t};
    assert u in s.muReaders <==> u in s.muReaders - {t};
  }

  /** A step leaves the table alone, or is one of the critical sections. */
  lemma StepChanges(f: Id -> string, s: Sys, t: Tid, s': Sys)
    requires Step(f, s, t, s') && LocalOk(s, t) && S.ThreadOk(s.once, t) && SweepOk(s) && InBounds(s.table)
    ensures Changes(f, SnapOf(s), SnapOf(s'))
  {
    var m := Stay;
    if BodyStep(f, s, t, s') {
      var env: Env :| ChainBodyStep(f, s, t, env, s') || OpBodyStep(f, s, t, env, s');
      m := if s.Local(t).OpHolding? then ByOp(s.Local(t).op, env) else ByLookup(s.Local(t).id, env);
    } else if CallbackStep(s, t, s') && s.Local(t).BodyHolding? {
      if s.once.At(t).StartInFn? {
        var fails: set<nat> :| s' == Started(s, fails).Goto(t, BodyUnlock);
        m := ByStart(fails);
      } else {
        m := BySweep;
      }
    }
    assert MovesTo(f, SnapOf(s), m, SnapOf(s'));
  }

  lemma StepKeepsInv(f: Id -> string, s: Sys, t: Tid, s': Sys)
    requires Injective(f) && Inv(f, s) && Step(f, s, t, s')
    ensures Inv(f, s')
  {
    assert LocalOk(s, t) && S.ThreadOk(s.once, t);
    KeepsLifecycle(f, s, t, s');
    StepChanges(f, s, t, s');
    ChangeKeepsOk(f, SnapOf(s), SnapOf(s'));
    if LifecycleStep(s, t, s') {
      LifecycleKeeps(s, t, s');
    } else if CallbackStep(s, t, s') {
      CallbackKeeps(s, t, s');
    } else if BodyStep(f, s, t, s') {
      BodyKeeps(f, s, t, s');
    } else if ChainStep(f, s, t, s') {
      ChainKeeps(f, s, t, s');
    } else {
      CallKeeps(f, s, t, s');
    }
    forall u: Tid ensures LocalOk(s', u) {
      assert LocalOk(s, u) && S.ThreadOk(s.once, u);
      if u != t { KeepsOther(f, s, t, s', u); }
    }
  }

  lemma NextKeepsInv(f: Id -> string, s: Sys, s': Sys)
    requires Injective(f) && Inv(f, s) && Next(f, s, s')
    ensures Inv(f, s')
  {
    var t: Tid :| Step(f, s, t, s');
    StepKeepsInv(f, s, t, s');
  }

  lemma InitialInv(f: Id -> string, s: Sys)
    requires Injective(f) && Initial(f, s)
    ensures Inv(f, s)
  {
  }

  lemma {:induction false} RunKeepsInv(f: Id -> string, run: seq<Sys>, i: nat)
    requires Injective(f) && IsRun(f, run) && i < |run|
    ensures Inv(f, run[i])
  {
    if i > 0 {
      RunKeepsInv(f, run, i - 1);
      assert StepAt(f, run, i - 1);
      NextKeepsInv(f, run[i - 1], run[i]);
    } else {
      InitialInv(f, run[0]);
    }
  }

  // ----- every run -----

  /** What the lifecycle goes through in a run is a run of it, so all that is proved about those holds here. */
  lemma {:induction false} LifecycleRun(f: Id -> string, run: seq<Sys>, i: nat) returns (base: seq<S.Once>)
    requires IsRun(f, run) && i < |run|
    ensures S.IsRun(base) && base[|base| - 1] == run[i].once
    ensures run[i].once.history == S.ORDER[..S.Rank(run[i].once.phase) + 1]
    ensures forall t: Tid :: !run[i].once.At(t).Panicked?
  {
    if i == 0 {
      base := [S.INITIAL];
    } else {
      base := LifecycleRun(f, run, i - 1);
      assert StepAt(f, run, i - 1);
      base := LifecycleNext(f, base, run[i - 1], run[i]);
    }
    S.Lifecycle(base, |base| - 1);
  }

  lemma LifecycleNext(f: Id -> string, base: seq<S.Once>, s: Sys, s': Sys) returns (base': seq<S.Once>)
    requires S.IsRun(base) && base[|base| - 1] == s.once && Next(f, s, s')
    ensures S.IsRun(base') && base'[|base'| - 1] == s'.once
  {
    base' := base;
    if s'.once != s.once {
      var t: Tid :| Step(f, s, t, s');
      Projects(f, s, t, s');
      S.RunAppends(base, t, s'.once);
      base' := base + [s'.once];
    }
  }

  /**
   No orphans. Once the callback of `Close` has ended, every service that a `Chain` call started, or that
   the constructor made and `Start` started, has had `Close` called on it.
   */
  lemma NoOrphans(f: Id -> string, run: seq<Sys>, i: nat, r: nat)
    requires Injective(f) && IsRun(f, run) && i < |run| && r < |run[i].table.services|
    requires |run[i].once.log| == 4
    ensures run[i].once.log[3].StopEnded?
    ensures var s := run[i].table.services[r];
            (s.via == ByChain || s.via == Loaded) && s.running ==> s.closed
  {
    RunKeepsInv(f, run, i);
  }

  /**
   In every state a loaded id has an enabled row with the same config, and so has every live service,
   which is the loaded one for its id: there is at most one live service per id, even when queries and
   starts fail.
   */
  lemma AlwaysCoherent(f: Id -> string, run: seq<Sys>, i: nat, r: nat, q: nat)
    requires Injective(f) && IsRun(f, run) && i < |run|
    requires r < |run[i].table.services| && q < |run[i].table.services|
    ensures var d := run[i].table; forall sid <- d.chains ::
              d.chains[sid] < |d.services| &&
              var s := d.services[d.chains[sid]];
              f(s.id) == sid && s.id in d.rows && d.rows[s.id] == Row(true, s.cfg)
    ensures var d := run[i].table; var s := d.services[r];
            s.Live() ==> s.id in d.rows && d.rows[s.id] == Row(true, s.cfg)
    ensures var d := run[i].table;
            d.services[r].Live() && d.services[q].Live() && d.services[r].id == d.services[q].id ==> r == q
  {
    RunKeepsInv(f, run, i);
    var d := run[i].table;
    assert LiveOk(f, d, r) && LiveOk(f, d, q);
    forall sid <- d.chains ensures LoadedOk(f, d, sid) { }
    if d.services[r].Live() { assert LoadedOk(f, d, f(d.services[r].id)); }
  }

  /**
   What has been started. Once the callback of `Start` has ended, everything in the map is running, except for the
   constructor's services whose own `Start` failed in that callback; and `Start` answers nil all the same.
   */
  lemma StartedIff(f: Id -> string, run: seq<Sys>, i: nat, sid: string)
    requires Injective(f) && IsRun(f, run) && i < |run| && |run[i].once.log| >= 2 && sid in run[i].table.chains
    ensures run[i].failed.Some? && run[i].table.chains[sid] < |run[i].table.services|
    ensures var r := run[i].table.chains[sid]; var c := run[i].table.services[r];
            c.running <==> !(c.via == Loaded && r in run[i].failed.value)
  {
    RunKeepsInv(f, run, i);
  }

  lemma StartAnswersNil(f: Id -> string, run: seq<Sys>, i: nat, t: Tid, failed: bool)
    requires Injective(f) && IsRun(f, run) && i < |run| && run[i].once.At(t) == S.Idle(S.StartReturned(failed))
    ensures !failed
  {
    RunKeepsInv(f, run, i);
    assert S.ThreadOk(run[i].once, t);
  }

  /** What `chainsMu` guards goes through a trace. */
  function Trace(run: seq<Sys>): (trace: seq<Snap>)
    ensures |trace| == |run| && forall i: nat :: i < |run| ==> trace[i] == SnapOf(run[i])
  {
    seq(|run|, (i: nat) requires i < |run| => SnapOf(run[i]))
  }

  lemma RunIsTrace(f: Id -> string, run: seq<Sys>)
    requires Injective(f) && IsRun(f, run)
    ensures IsTrace(f, Trace(run))
  {
    forall i: nat | i < |run| - 1 ensures ChangesAt(f, Trace(run), i) {
      RunKeepsInv(f, run, i);
      assert StepAt(f, run, i);
      var t: Tid :| Step(f, run[i], t, run[i + 1]);
      assert LocalOk(run[i], t) && S.ThreadOk(run[i].once, t);
      StepChanges(f, run[i], t, run[i + 1]);
    }
  }

  /**
   `Add` and an enabling `Configure` do not look at the lifecycle, so the guarantee for what they start
   depends on when: everything made before the stop callback swept the map is closed afterwards, and
   what is live afterwards was made by them, after the sweep. While the set is ready it has not swept.
   */
  lemma ClosedIfMadeBeforeSweep(f: Id -> string, run: seq<Sys>, i: nat, j: nat, r: nat)
    requires Injective(f) && IsRun(f, run) && i <= j < |run|
    requires r < |run[j].table.services| && run[j].swept.Some?
    ensures run[i].once.phase == S.Started ==> run[i].swept.None?
    ensures run[i].swept.None? && r < |run[i].table.services| ==> !run[j].table.services[r].Live()
    ensures run[j].table.services[r].Live() ==>
              && run[j].swept.value <= r
              && (run[j].table.services[r].via == ByAdd || run[j].table.services[r].via == ByConfigure)
  {
    RunKeepsInv(f, run, i);
    RunIsTrace(f, run);
    SweepCloses(f, Trace(run), i, j, r);
  }

  /**
   Which services `Close` leaves running. Whoever made and started a service, in whatever state: once the callback
   of `Close` has ended the service is closed if and only if it was made before the sweep, or something took it out
   of the map again.
   */
  lemma RunClosesIff(f: Id -> string, run: seq<Sys>, i: nat, j: nat, r: nat)
    requires Injective(f) && IsRun(f, run) && Makes(Trace(run), i, r) && i < j < |run|
    requires |run[j].once.log| == 4
    ensures r < |run[j].table.services|
    ensures run[j].table.services[r].closed <==> run[i].swept.None? || !StaysInMap(Trace(run), i, j, r)
  {
    RunKeepsInv(f, run, j);
    RunIsTrace(f, run);
    MadeIsClosedIff(f, Trace(run), i, j, r);
  }

  /** Step `i` is thread `t` finding its chain: at the first look at the map, or under the write lock. */
  ghost predicate Finds(f: Id -> string, run: seq<Sys>, i: nat, t: Tid, id: Id) {
    && i + 1 < |run|
    && (|| (run[i].Local(t) == ChainReading(id) && run[i + 1].Local(t).Outside? && ChainStep(f, run[i], t, run[i + 1]))
        || FindsUnderLock(f, run[i], t, id, run[i + 1]))
  }

  ghost predicate FindsUnderLock(f: Id -> string, s: Sys, t: Tid, id: Id, s': Sys) {
    && s.Local(t) == ChainReady(id)
    && exists env: Env :: ChainBodyStep(f, s, t, env, s') && ChainBody(f, s.table, id, env).1.None?
  }

  /**
   What a call of `Chain` returns in a run: a service for its id, whose row is enabled and has the same config; that
   has been started, or is the constructor's; and that is open, unless the sweep came between the call's first
   check of the lifecycle and its first look at the map. Found under the write lock it is always open.
   */
  lemma ChainReturns(f: Id -> string, run: seq<Sys>, i: nat, t: Tid, id: Id)
    requires Injective(f) && IsRun(f, run) && Finds(f, run, i, t, id)
    ensures var d := run[i + 1].table;
            && f(id) in d.chains && d.chains[f(id)] < |d.services|
            && var c := d.services[d.chains[f(id)]];
               && c.id == id && id in d.rows && d.rows[id] == Row(true, c.cfg)
               && (c.running || c.via == Loaded)
               && (run[i].swept.None? || FindsUnderLock(f, run[i], t, id, run[i + 1]) ==> !c.closed)
  {
    RunKeepsInv(f, run, i);
    RunKeepsInv(f, run, i + 1);
    var s, s' := run[i], run[i + 1];
    assert LocalOk(s, t);
    if FindsUnderLock(f, s, t, id, s') {
      var env: Env :| ChainBodyStep(f, s, t, env, s') && ChainBody(f, s.table, id, env).1.None?;
      assert f(id) in s'.table.chains;
    }
    assert LoadedOk(f, s'.table, f(id));
  }

  /** Thread `t` is inside a call of `Chain` for `id`. */
  predicate InChain(l: Local, id: Id) {
    match l
    case ChainPassed(x) => x == id
    case ChainReading(x) => x == id
    case ChainMissed(x) => x == id
    case ChainHolding(x) => x == id
    case ChainReady(x) => x == id
    case _ => false
  }

  lemma ChainMoves(f: Id -> string, s: Sys, t: Tid, s': Sys, id: Id)
    requires Step(f, s, t, s') && InChain(s'.Local(t), id)
    ensures || InChain(s.Local(t), id)
            || (s.Local(t).Outside? && s.once.phase == S.Started && f(id) != "")
  {
  }

  /** Every call of `Chain` that gets anywhere began when the set was ready, with an id that is not empty. */
  lemma {:induction false} ChainBegan(f: Id -> string, run: seq<Sys>, i: nat, t: Tid, id: Id) returns (k: nat)
    requires IsRun(f, run) && i < |run| && InChain(run[i].Local(t), id)
    ensures k < i && run[k].Local(t).Outside? && run[k].once.phase == S.Started && f(id) != ""
    ensures forall m: nat :: k < m <= i ==> InChain(run[m].Local(t), id)
  {
    assert i > 0;
    assert StepAt(f, run, i - 1);
    var u: Tid :| Step(f, run[i - 1], u, run[i]);
    if u != t { LocalsStay(f, run[i - 1], u, run[i], t); } else { ChainMoves(f, run[i - 1], t, run[i], id); }
    if InChain(run[i - 1].Local(t), id) {
      k := ChainBegan(f, run, i - 1, t, id);
    } else {
      k := i - 1;
    }
  }

  /**
   What a call of `Chain` does at each of its looks, in any run: at the map, it returns if and only if the id is there,
   and goes on to the write lock if not; at the lifecycle, holding the lock, it goes on if and only if the set is
   ready; and then it does what `ChainBody` does.
   */
  lemma ChainLooks(f: Id -> string, run: seq<Sys>, i: nat, t: Tid, id: Id)
    requires Injective(f) && IsRun(f, run) && i + 1 < |run|
    requires InChain(run[i].Local(t), id) && run[i + 1].Local(t) != run[i].Local(t)
    ensures run[i].Local(t).ChainReading? ==>
              run[i + 1].Local(t) == if f(id) in run[i].table.chains then Outside else ChainMissed(id)
    ensures run[i].Local(t).ChainHolding? ==>
              run[i + 1].Local(t) == if run[i].once.phase == S.Started then ChainReady(id) else Unlocking
    ensures run[i].Local(t).ChainReady? ==>
              exists env: Env :: run[i + 1].table == ChainBody(f, run[i].table, id, env).0
    ensures !run[i].Local(t).ChainReady? ==> run[i + 1].table == run[i].table
  {
    RunKeepsInv(f, run, i);
    assert StepAt(f, run, i);
    var u: Tid :| Step(f, run[i], u, run[i + 1]);
    if u != t { LocalsStay(f, run[i], u, run[i + 1], t); }
    assert LocalOk(run[i], t);
    ChainSteps(f, run[i], t, run[i + 1], id);
  }

  lemma ChainSteps(f: Id -> string, s: Sys, t: Tid, s': Sys, id: Id)
    requires Step(f, s, t, s') && LocalOk(s, t) && Coherent(f, s.table)
    requires InChain(s.Local(t), id) && s'.Local(t) != s.Local(t)
    ensures s.Local(t).ChainReading? ==> s'.Local(t) == if f(id) in s.table.chains then Outside else ChainMissed(id)
    ensures s.Local(t).ChainHolding? ==> s'.Local(t) == if s.once.phase == S.Started then ChainReady(id) else Unlocking
    ensures s.Local(t).ChainReady? ==> exists env: Env :: s'.table == ChainBody(f, s.table, id, env).0
    ensures !s.Local(t).ChainReady? ==> s'.table == s.table
  {
    if s.Local(t).ChainReady? {
      var env: Env :| ChainBodyStep(f, s, t, env, s') || OpBodyStep(f, s, t, env, s');
    }
  }

  /** The run can go on with thread `t` past the first check of `Chain`. */
  ghost predicate CanPass(f: Id -> string, run: seq<Sys>, t: Tid, id: Id) {
    exists s: Sys :: IsRun(f, run + [s]) && s.Local(t) == ChainPassed(id)
  }

  /** A thread that is in no call gets past the first check if and only if the set is ready and the id is not empty. */
  lemma ChainPassesIff(f: Id -> string, run: seq<Sys>, t: Tid, id: Id)
    requires IsRun(f, run) && run[|run| - 1].Local(t).Outside? && run[|run| - 1].once.At(t).Idle?
    ensures CanPass(f, run, t, id) <==> run[|run| - 1].once.phase == S.Started && f(id) != ""
  {
    var s := run[|run| - 1];
    if s.once.phase == S.Started && f(id) != "" {
      assert CallStep(f, s, t, s.Goto(t, ChainPassed(id)));
      RunExtends(f, run, t, s.Goto(t, ChainPassed(id)));
    }
    if s': Sys :| IsRun(f, run + [s']) && s'.Local(t) == ChainPassed(id) {
      assert StepAt(f, run + [s'], |run| - 1);
      var u: Tid :| Step(f, s, u, s');
      if u != t { LocalsStay(f, s, u, s', t); } else { ChainMoves(f, s, t, s', id); }
    }
  }

  // ----- an orphan -----

  /** Nobody holds or waits for anything, and thread `t` is about to call `Add`. */
  ghost predicate Quiet(s: Sys, t: Tid) {
    s.Free() && s.Local(t).Outside? && s.once.At(t).Idle?
  }

  lemma RunExtends(f: Id -> string, run: seq<Sys>, t: Tid, s: Sys)
    requires IsRun(f, run) && Step(f, run[|run| - 1], t, s)
    ensures IsRun(f, run + [s])
  {
    var run' := run + [s];
    assert Next(f, run[|run| - 1], s);
    forall i: nat | i < |run'| - 1 ensures StepAt(f, run', i) {
      if i < |run| - 1 { assert StepAt(f, run, i); }
    }
  }

  /**
   From any state after `Close`, an `Add` of a new id that meets no error ends with a live service that
   the stop callback, which never runs again, does not close.
   */
  lemma AddAfterCloseOrphans(f: Id -> string, run: seq<Sys>, t: Tid, id: Id, cfg: Config) returns (run': seq<Sys>)
    requires Injective(f) && IsRun(f, run)
    requires var s := run[|run| - 1];
             Quiet(s, t) && s.once.phase == S.Stopped && f(id) !in s.table.chains && id !in s.table.rows
    ensures IsRun(f, run') && run <= run'
    ensures var s := run'[|run'| - 1];
            && |s.once.log| == 4 && Quiet(s, t)
            && exists r: nat :: r < |s.table.services| && s.table.services[r].Live()
  {
    var s := run[|run| - 1];
    RunKeepsInv(f, run, |run| - 1);
    var env := Env(true, true, true, true);
    var a := s.Goto(t, OpWaiting(Add(id, cfg)));
    assert CallStep(f, s, t, a);
    RunExtends(f, run, t, a);
    var b := a.Lock(t).Goto(t, OpHolding(Add(id, cfg)));
    assert OpLockStep(a, t, b);
    RunExtends(f, run + [a], t, b);
    var c := b.(table := OpBody(f, b.table, Add(id, cfg), env).0).Goto(t, Unlocking);
    assert OpBodyStep(f, b, t, env, c);
    assert BodyStep(f, b, t, c);
    RunExtends(f, run + [a] + [b], t, c);
    var d := c.(mu := None).Goto(t, Outside);
    assert ChainStep(f, c, t, d);
    RunExtends(f, run + [a] + [b] + [c], t, d);
    run' := run + [a] + [b] + [c] + [d];
    assert d.table.services[|s.table.services|].Live();
  }

  /** A thread takes its next lifecycle step. */
  lemma LifecycleExtends(f: Id -> string, run: seq<Sys>, t: Tid) returns (run': seq<Sys>)
    requires IsRun(f, run)
    requires var s := run[|run| - 1];
             s.Local(t).Outside? && !s.once.At(t).StartInFn? && !s.once.At(t).StopInFn? &&
             S.Step(s.once, t, S.Successor(s.once, t))
    ensures IsRun(f, run') && run' == run + [run[|run| - 1].(once := S.Successor(run[|run| - 1].once, t))]
  {
    var s := run[|run| - 1];
    var s' := s.(once := S.Successor(s.once, t));
    assert LifecycleStep(s, t, s');
    RunExtends(f, run, t, s');
    run' := run + [s'];
  }

  /** A callback runs from its first step to its return, alone. */
  lemma CallbackExtends(f: Id -> string, run: seq<Sys>, t: Tid) returns (run': seq<Sys>)
    requires IsRun(f, run)
    requires var s := run[|run| - 1];
             s.Local(t).Outside? && s.Free() && (s.once.At(t).StartInFn? || s.once.At(t).StopInFn?)
    ensures IsRun(f, run') && run <= run'
    ensures var s, s' := run[|run| - 1], run'[|run'| - 1];
            && s'.once == S.Successor(s.once, t) && s'.Local(t).Outside? && s'.Free()
            && s'.table.chains == s.table.chains && s'.table.rows == s.table.rows
  {
    var s := run[|run| - 1];
    var a := s.Lock(t).Goto(t, BodyHolding);
    assert CallbackStep(s, t, a);
    RunExtends(f, run, t, a);
    var b := (if s.once.At(t).StartInFn? then Started(a, {}) else Sweep(a)).Goto(t, BodyUnlock);
    assert s.once.At(t).StartInFn? ==> StartBodyStep(a, t, b);
    assert CallbackStep(a, t, b);
    RunExtends(f, run + [a], t, b);
    var c := b.(mu := None).Goto(t, BodyDone);
    assert CallbackStep(b, t, c);
    RunExtends(f, run + [a] + [b], t, c);
    var d := if s.once.At(t).StartInFn? then StartFnReturns(c, t) else StopFnReturns(c, t, false);
    assert CallbackStep(c, t, d);
    RunExtends(f, run + [a] + [b] + [c], t, d);
    run' := run + [a] + [b] + [c] + [d];
  }

  /** A set without chains, after one thread has completed `Start`. */
  lemma StartedRun(f: Id -> string) returns (run: seq<Sys>)
    ensures IsRun(f, run)
    ensures var s := run[|run| - 1];
            && Quiet(s, 0) && s.once.phase == S.Started && s.once.Free()
            && s.table.chains == map[] && s.table.rows == map[]
  {
    var s := Sys(S.INITIAL, None, {}, Table(map[], map[], [], {}), map[], None, None);
    run := [s];
    assert Initial(f, s);
    var a := s.(once := S.StartSwap(s.once, 0));
    assert LifecycleStep(s, 0, a);
    RunExtends(f, run, 0, a);
    run := run + [a];
    run := LifecycleExtends(f, run, 0);
    run := LifecycleExtends(f, run, 0);
    run := CallbackExtends(f, run, 0);
    run := LifecycleExtends(f, run, 0);
    run := LifecycleExtends(f, run, 0);
  }

  /** The same thread then calls `Close` and gets to its callback. */
  lemma StoppingRun(f: Id -> string) returns (run: seq<Sys>)
    ensures IsRun(f, run)
    ensures var s := run[|run| - 1];
            && s.Local(0).Outside? && s.Free() && s.once.phase == S.Stopping && s.once.At(0).StopInFn?
            && s.table.chains == map[] && s.table.rows == map[]
  {
    run := StartedRun(f);
    run := LifecycleExtends(f, run, 0);
    run := LifecycleExtends(f, run, 0);
    run := LifecycleExtends(f, run, 0);
    run := LifecycleExtends(f, run, 0);
  }

  /** It then completes `Close`. */
  lemma StoppedRun(f: Id -> string) returns (run: seq<Sys>)
    ensures IsRun(f, run)
    ensures var s := run[|run| - 1];
            Quiet(s, 0) && s.once.phase == S.Stopped && s.table.chains == map[] && s.table.rows == map[]
  {
    run := StoppingRun(f);
    run := CallbackExtends(f, run, 0);
    run := LifecycleExtends(f, run, 0);
    run := LifecycleExtends(f, run, 0);
  }

  /** So there are runs in which a service is live although the callback of `Close` has ended. */
  lemma OrphansExist(f: Id -> string) returns (run: seq<Sys>)
    requires Injective(f)
    ensures IsRun(f, run)
    ensures var s := run[|run| - 1];
            && |s.once.log| == 4
            && exists r: nat :: r < |s.table.services| && s.table.services[r].Live()
  {
    run := StoppedRun(f);
    run := AddAfterCloseOrphans(f, run, 0, 0, 0);
  }

  // ----- progress -----

  predicate InFlight(s: Sys, t: Tid) {
    !s.Local(t).Outside? || !s.once.At(t).Idle?
  }

  predicate WantsMu(s: Sys, t: Tid) {
    || s.Local(t).ChainMissed? || s.Local(t).OpWaiting?
    || (s.Local(t).Outside? && (s.once.At(t).StartInFn? || s.once.At(t).StopInFn?))
  }

  /** Go's locks let no new reader in while a writer waits. */
  ghost predicate Barred(s: Sys, t: Tid) {
    || (s.Local(t).ChainPassed? && exists u: Tid :: WantsMu(s, u))
    || (s.Local(t).Outside? && S.Barred(s.once, t))
  }

  ghost predicate CanStep(f: Id -> string, s: Sys, t: Tid) {
    InFlight(s, t) && !Barred(s, t) && exists s': Sys :: Step(f, s, t, s')
  }

  /** The two locks cannot block each other: a thread inside the set steps unless `chainsMu` stops it. */
  lemma InsideCanStep(f: Id -> string, s: Sys, t: Tid)
    requires InBounds(s.table) && LocalOk(s, t)
    requires !s.Local(t).Outside? || s.once.At(t).StartInFn? || s.once.At(t).StopInFn?
    requires HoldsMu(s.Local(t)) || s.Local(t).ChainReading? || s.Free()
    requires !Barred(s, t)
    ensures CanStep(f, s, t)
  {
    var env := Env(true, true, true, true);
    var l := s.Local(t);
    if l.ChainReady? {
      var s' := s.(table := ChainBody(f, s.table, l.id, env).0).Goto(t, Unlocking);
      assert ChainBodyStep(f, s, t, env, s');
      assert Step(f, s, t, s');
    } else if l.OpHolding? {
      var s' := s.(table := OpBody(f, s.table, l.op, env).0).Goto(t, Unlocking);
      assert OpBodyStep(f, s, t, env, s');
      assert Step(f, s, t, s');
    } else if l.OpWaiting? {
      var s' := s.Lock(t).Goto(t, OpHolding(l.op));
      assert OpLockStep(s, t, s');
      assert Step(f, s, t, s');
    } else if l.Outside? || InCallback(l) {
      CallbackCanStep(f, s, t);
    } else {
      var s' := match l
        case ChainPassed(id) => s.(muReaders := s.muReaders + {t}).Goto(t, ChainReading(id))
        case ChainReading(id) =>
          s.(muReaders := s.muReaders - {t}).Goto(t, if s.table.Has(f(id)) then Outside else ChainMissed(id))
        case ChainMissed(id) => s.Lock(t).Goto(t, ChainHolding(id))
        case ChainHolding(id) => s.Goto(t, if s.once.phase == S.Started then ChainReady(id) else Unlocking)
        case _ => s.(mu := None).Goto(t, Outside);
      assert ChainStep(f, s, t, s');
      assert Step(f, s, t, s');
    }
  }

  lemma CallbackCanStep(f: Id -> string, s: Sys, t: Tid)
    requires LocalOk(s, t) && (s.Local(t).Outside? || InCallback(s.Local(t)))
    requires s.once.At(t).StartInFn? || s.once.At(t).StopInFn?
    requires s.Local(t).Outside? ==> s.Free()
    requires !Barred(s, t)
    ensures CanStep(f, s, t)
  {
    var s' := match s.Local(t)
      case Outside => s.Lock(t).Goto(t, BodyHolding)
      case BodyHolding =>
        (if s.once.At(t).StartInFn? then Started(s, {}) else Sweep(s)).Goto(t, BodyUnlock)
      case BodyUnlock => s.(mu := None).Goto(t, BodyDone)
      case _ => if s.once.At(t).StartInFn? then StartFnReturns(s, t) else StopFnReturns(s, t, false);
    assert s.Local(t).BodyHolding? && s.once.At(t).StartInFn? ==> StartBodyStep(s, t, s');
    assert CallbackStep(s, t, s');
    assert Step(f, s, t, s');
  }

  /** No deadlock: while some call is in flight, some call in flight can step. */
  lemma NoDeadlock(f: Id -> string, run: seq<Sys>, i: nat, t: Tid)
    requires Injective(f) && IsRun(f, run) && i < |run| && InFlight(run[i], t)
    ensures exists u: Tid :: CanStep(f, run[i], u)
  {
    RunKeepsInv(f, run, i);
    var s := run[i];
    var u := Mover(s, t);
    assert LocalOk(s, u) && S.ThreadOk(s.once, u);
    if !s.Local(u).Outside? || s.once.At(u).StartInFn? || s.once.At(u).StopInFn? {
      InsideCanStep(f, s, u);
    } else {
      S.HolderCanStep(s.once, u);
      var o: S.Once :| S.Step(s.once, u, o);
      assert LifecycleStep(s, u, s.(once := o));
      assert Step(f, s, u, s.(once := o));
    }
    assert CanStep(f, s, u);
  }

  /**
   A thread that holds the lock the others wait for: `chainsMu` first, then the lifecycle lock. If nobody holds one,
   a thread that waits to write.
   */
  lemma Mover(s: Sys, t: Tid) returns (u: Tid)
    requires S.Inv(s.once) && (forall x: Tid :: LocalOk(s, x)) && InFlight(s, t)
    requires s.mu.Some? ==> s.muReaders == {}
    ensures InFlight(s, u) && !Barred(s, u)
    ensures !s.Local(u).Outside? || s.once.At(u).StartInFn? || s.once.At(u).StopInFn? ==>
              HoldsMu(s.Local(u)) || s.Local(u).ChainReading? || s.Free()
    ensures s.Local(u).Outside? && !s.once.At(u).StartInFn? && !s.once.At(u).StopInFn? ==>
              S.HoldsWrite(s.once.At(u)) || S.HoldsRead(s.once.At(u)) || s.once.Free()
  {
    u := t;
    if s.mu.Some? {
      u := s.mu.value;
    } else if s.muReaders != {} {
      u :| u in s.muReaders;
    } else if w: Tid :| WantsMu(s, w) {
      u := w;
    } else if !s.Local(t).Outside? {
    } else if s.once.writer.Some? {
      u := s.once.writer.value;
    } else if s.once.readers != {} {
      u :| u in s.once.readers;
    } else if w: Tid :| S.WantsWrite(s.once.At(w)) {
      u := w;
    }
    assert LocalOk(s, u) && S.ThreadOk(s.once, u);
    assert LocalOk(s, t) && S.ThreadOk(s.once, t);
  }
}
