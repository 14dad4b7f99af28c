/**
 What happens over time to what `chainsMu` guards: each table is made from the one before by a critical section, and
 the stop callback sweeps the map once. The runs of module `ChainSetRuns` go through such traces.
 */
module ChainTraces {
  import opened Wrappers
  import opened ChainTable

  /**
   `swept` is the number of services there were when the stop callback closed them all; `failed` are the services
   whose `Start` failed in the start callback. There is none before each callback.
   */
  datatype Snap = Snap(table: Table, swept: Option<nat>, failed: Option<set<nat>>)

  /** The critical sections, with how their calls turn out. */
  datatype Move = Stay | ByOp(op: Op, env: Env) | ByLookup(id: Id, env: Env) | ByStart(fails: set<nat>) | BySweep

  function Moved(f: Id -> string, d: Table, m: Move): Table
    requires InBounds(d)
  {
    match m
    case Stay => d
    case ByOp(op, env) => OpBody(f, d, op, env).0
    case ByLookup(id, env) => ChainBody(f, d, id, env).0
    case ByStart(fails) => StartAll(d, fails)
    case BySweep => CloseAll(d)
  }

  /** The lookup and the start callback come before the sweep; each callback comes once. */
  ghost predicate MovesTo(f: Id -> string, a: Snap, m: Move, b: Snap) {
    && InBounds(a.table)
    && b.table == Moved(f, a.table, m)
    && b.swept == (if m.BySweep? then Some(|a.table.services|) else a.swept)
    && b.failed == (if m.ByStart? then Some(m.fails) else a.failed)
    && (m.BySweep? || m.ByLookup? || m.ByStart? ==> a.swept.None?)
    && (m.ByStart? ==> a.failed.None?)
  }

  ghost predicate Changes(f: Id -> string, a: Snap, b: Snap) {
    exists m: Move :: MovesTo(f, a, m, b)
  }

  ghost predicate ChangesAt(f: Id -> string, trace: seq<Snap>, i: nat)
    requires i < |trace| - 1
  {
    Changes(f, trace[i], trace[i + 1])
  }

  ghost predicate IsTrace(f: Id -> string, trace: seq<Snap>) {
    && Injective(f)
    && |trace| > 0
    && FreshlyLoaded(f, trace[0].table) && trace[0].swept.None? && trace[0].failed.None?
    && forall i: nat :: i < |trace| - 1 ==> ChangesAt(f, trace, i)
  }

  // ----- the invariant -----

  /** After the sweep, only what `Add` or `Configure` made since is live. */
  predicate LateOnly(d: Table, n: nat) {
    && n <= |d.services|
    && forall r: nat :: r < |d.services| ==>
         && (d.services[r].Live() ==> n <= r)
         && (n <= r ==> d.services[r].via == ByAdd || d.services[r].via == ByConfigure)
  }

  /**
   What is in the map is running, unless it is the constructor's and the start callback has yet to come, or came and
   failed to start it; and it is open until the sweep.
   */
  predicate MapOk(d: Table, unswept: bool, failed: Option<set<nat>>)
    requires InBounds(d)
  {
    forall sid <- d.chains ::
      var r := d.chains[sid];
      var c := d.services[r];
      && (c.running <==> c.via != Loaded || (failed.Some? && r !in failed.value))
      && (unswept ==> !c.closed)
  }

  ghost predicate SnapOk(f: Id -> string, s: Snap) {
    && Coherent(f, s.table)
    && MapOk(s.table, s.swept.None?, s.failed)
    && (s.swept.Some? ==> LateOnly(s.table, s.swept.value))
  }

  lemma MoveKeepsCoherence(f: Id -> string, d: Table, m: Move)
    requires Coherent(f, d) && Injective(f)
    ensures Coherent(f, Moved(f, d, m))
  {
    match m
    case Stay =>
    case ByOp(op, env) => OpKeepsCoherence(f, d, op, env);
    case ByLookup(id, env) => ChainKeepsCoherence(f, d, id, env);
    case ByStart(fails) => StartAllKeepsCoherence(f, d, fails);
    case BySweep => CloseAllClosesAll(f, d);
  }

  /** The operations revive nothing, and make services of their own kind only. */
  lemma OpKeepsLate(f: Id -> string, d: Table, op: Op, env: Env, n: nat)
    requires Coherent(f, d) && LateOnly(d, n)
    ensures LateOnly(OpBody(f, d, op, env).0, n)
  {
  }

  lemma OpKeepsMap(f: Id -> string, d: Table, op: Op, env: Env, unswept: bool, failed: Option<set<nat>>)
    requires Coherent(f, d) && MapOk(d, unswept, failed) && InBounds(OpBody(f, d, op, env).0)
    ensures MapOk(OpBody(f, d, op, env).0, unswept, failed)
  {
    var sid := f(op.id);
    match op
    case Add(_, _) =>
    case Configure(id, enabled, cfg) =>
      if sid in d.chains && enabled {
        ReconfigureKeepsMap(f, d, sid, cfg, unswept, failed);
      } else if sid in d.chains {
        UnloadKeepsMap(f, d, sid, unswept, failed);
      }
    case Remove(_) => if sid in d.chains { UnloadKeepsMap(f, d, sid, unswept, failed); }
  }

  lemma UnloadKeepsMap(f: Id -> string, d: Table, sid: string, unswept: bool, failed: Option<set<nat>>)
    requires Coherent(f, d) && MapOk(d, unswept, failed) && sid in d.chains
    ensures InBounds(Unload(d, sid)) && MapOk(Unload(d, sid), unswept, failed)
  {
    var d' := Unload(d, sid);
    assert LoadedOk(f, d, sid);
    forall other <- d'.chains ensures d'.chains[other] != d.chains[sid] { assert LoadedOk(f, d, other); }
  }

  lemma ReconfigureKeepsMap(f: Id -> string, d: Table, sid: string, cfg: Config, unswept: bool,
                            failed: Option<set<nat>>)
    requires Coherent(f, d) && MapOk(d, unswept, failed) && sid in d.chains
    ensures var r := d.chains[sid];
            var d' := d.(services := d.services[r := d.services[r].(cfg := cfg)]);
            InBounds(d') && MapOk(d', unswept, failed)
  {
  }

  lemma MoveKeepsMap(f: Id -> string, a: Snap, m: Move, b: Snap)
    requires Coherent(f, a.table) && MapOk(a.table, a.swept.None?, a.failed) && MovesTo(f, a, m, b) && InBounds(b.table)
    ensures MapOk(b.table, b.swept.None?, b.failed)
  {
    if m.ByOp? { OpKeepsMap(f, a.table, m.op, m.env, a.swept.None?, a.failed); }
  }

  lemma MoveKeepsLate(f: Id -> string, d: Table, m: Move, n: nat)
    requires Coherent(f, d) && LateOnly(d, n) && (m.Stay? || m.ByOp?)
    ensures LateOnly(Moved(f, d, m), n)
  {
    if m.ByOp? { OpKeepsLate(f, d, m.op, m.env, n); }
  }

  lemma ChangeKeepsOk(f: Id -> string, a: Snap, b: Snap)
    requires Injective(f) && SnapOk(f, a) && Changes(f, a, b)
    ensures SnapOk(f, b)
  {
    var m: Move :| MovesTo(f, a, m, b);
    MoveKeepsCoherence(f, a.table, m);
    MoveKeepsMap(f, a, m, b);
    if a.swept.Some? {
      MoveKeepsLate(f, a.table, m, a.swept.value);
    } else if m.BySweep? {
      CloseAllClosesAll(f, a.table);
    }
  }

  lemma FreshIsOk(f: Id -> string, s: Snap)
    requires FreshlyLoaded(f, s.table) && s.swept.None? && s.failed.None?
    ensures SnapOk(f, s)
  {
    LoadedIsCoherentIff(f, s.table, {});
    forall sid <- s.table.chains ensures s.table.services[s.table.chains[sid]] in s.table.services { }
  }

  lemma {:induction false} TraceIsOk(f: Id -> string, trace: seq<Snap>, i: nat)
    requires IsTrace(f, trace) && i < |trace|
    ensures SnapOk(f, trace[i])
  {
    if i == 0 {
      FreshIsOk(f, trace[0]);
    } else {
      TraceIsOk(f, trace, i - 1);
      assert ChangesAt(f, trace, i - 1);
      ChangeKeepsOk(f, trace[i - 1], trace[i]);
    }
  }

  // ----- how the services grow -----

  /** Services are only ever added, at the end of the list, and the sweep happens once. */
  predicate Grew(a: Snap, b: Snap) {
    && |a.table.services| <= |b.table.services|
    && (a.swept.Some? ==> b.swept == a.swept)
    && (a.swept.None? && b.swept.Some? ==> |a.table.services| <= b.swept.value)
  }

  lemma MoveGrows(f: Id -> string, d: Table, m: Move)
    requires InBounds(d)
    ensures |d.services| <= |Moved(f, d, m).services|
  {
  }

  lemma {:induction false} TraceGrows(f: Id -> string, trace: seq<Snap>, i: nat, j: nat)
    requires IsTrace(f, trace) && i <= j < |trace|
    ensures Grew(trace[i], trace[j])
    decreases j
  {
    if i == j {
    } else {
      TraceGrows(f, trace, i, j - 1);
      assert ChangesAt(f, trace, j - 1);
      var m: Move :| MovesTo(f, trace[j - 1], m, trace[j]);
      MoveGrows(f, trace[j - 1].table, m);
    }
  }

  /** What was made before the sweep is not live after it; what is live after it was made later, by the other two. */
  lemma SweepCloses(f: Id -> string, trace: seq<Snap>, i: nat, j: nat, r: nat)
    requires IsTrace(f, trace) && i <= j < |trace|
    requires r < |trace[j].table.services| && trace[j].swept.Some?
    ensures trace[i].swept.None? && r < |trace[i].table.services| ==> !trace[j].table.services[r].Live()
    ensures trace[j].table.services[r].Live() ==>
              && trace[j].swept.value <= r
              && (trace[j].table.services[r].via == ByAdd || trace[j].table.services[r].via == ByConfigure)
  {
    TraceIsOk(f, trace, j);
    TraceGrows(f, trace, i, j);
  }

  // ----- which services are closed -----

  predicate InMap(d: Table, r: nat) {
    r in d.chains.Values
  }

  /** An operation closes only what it unloads. */
  lemma OpClosesUnloaded(f: Id -> string, d: Table, op: Op, env: Env, r: nat)
    requires Coherent(f, d) && r < |d.services| && !d.services[r].closed
    ensures var d' := OpBody(f, d, op, env).0; d'.services[r].closed ==> !InMap(d', r)
  {
    var d' := OpBody(f, d, op, env).0;
    if d'.services[r].closed {
      forall sid <- d'.chains ensures d'.chains[sid] != r { assert LoadedOk(f, d, sid); }
    }
  }

  /** A service that stays loaded is closed by the sweep only; and none stops running or is reopened. */
  lemma MoveCloses(f: Id -> string, d: Table, m: Move, r: nat)
    requires Coherent(f, d) && r < |d.services|
    ensures var d' := Moved(f, d, m);
            && r < |d'.services|
            && (d.services[r].closed ==> d'.services[r].closed)
            && (d.services[r].running ==> d'.services[r].running)
            && (!m.BySweep? && InMap(d', r) && d'.services[r].closed ==> d.services[r].closed)
  {
    if m.ByOp? {
      OpKeepsService(f, d, m.op, m.env, r);
      if !d.services[r].closed { OpClosesUnloaded(f, d, m.op, m.env, r); }
    }
  }

  lemma OpKeepsService(f: Id -> string, d: Table, op: Op, env: Env, r: nat)
    requires Coherent(f, d) && r < |d.services|
    ensures var d' := OpBody(f, d, op, env).0;
            && r < |d'.services|
            && (d.services[r].closed ==> d'.services[r].closed)
            && (d.services[r].running ==> d'.services[r].running)
  {
  }

  lemma ChangeCloses(f: Id -> string, trace: seq<Snap>, k: nat, r: nat)
    requires IsTrace(f, trace) && k + 1 < |trace| && r < |trace[k].table.services|
    ensures var a, b := trace[k], trace[k + 1];
            && r < |b.table.services|
            && (a.table.services[r].closed ==> b.table.services[r].closed)
            && (a.table.services[r].running ==> b.table.services[r].running)
            && (a.swept.Some? && InMap(b.table, r) && b.table.services[r].closed ==> a.table.services[r].closed)
  {
    TraceIsOk(f, trace, k);
    assert ChangesAt(f, trace, k);
    var m: Move :| MovesTo(f, trace[k], m, trace[k + 1]);
    MoveCloses(f, trace[k].table, m, r);
  }

  /** Step `i` made the service `r` and started it. */
  predicate Makes(trace: seq<Snap>, i: nat, r: nat) {
    && i + 1 < |trace|
    && r == |trace[i].table.services| < |trace[i + 1].table.services|
    && trace[i + 1].table.services[r].running
  }

  ghost predicate StaysInMap(trace: seq<Snap>, i: nat, j: nat, r: nat)
    requires j < |trace|
  {
    forall k: nat :: i < k <= j ==> InMap(trace[k].table, r)
  }

  lemma MoveMakes(f: Id -> string, d: Table, m: Move)
    requires InBounds(d) && |d.services| < |Moved(f, d, m).services|
    ensures !m.BySweep? && !Moved(f, d, m).services[|d.services|].closed
  {
  }

  lemma MadeOpen(f: Id -> string, trace: seq<Snap>, i: nat, r: nat)
    requires IsTrace(f, trace) && Makes(trace, i, r)
    ensures trace[i + 1].swept == trace[i].swept && !trace[i + 1].table.services[r].closed
  {
    assert ChangesAt(f, trace, i);
    var m: Move :| MovesTo(f, trace[i], m, trace[i + 1]);
    MoveMakes(f, trace[i].table, m);
  }

  lemma {:induction false} OpenWhileLoaded(f: Id -> string, trace: seq<Snap>, i: nat, j: nat, r: nat)
    requires IsTrace(f, trace) && Makes(trace, i, r) && i < j < |trace|
    ensures r < |trace[j].table.services| && trace[j].table.services[r].running
    ensures trace[i].swept.Some? ==> trace[j].swept == trace[i].swept
    ensures trace[i].swept.Some? && StaysInMap(trace, i, j, r) ==> !trace[j].table.services[r].closed
    decreases j
  {
    if j == i + 1 {
      MadeOpen(f, trace, i, r);
    } else {
      OpenWhileLoaded(f, trace, i, j - 1, r);
      TraceGrows(f, trace, j - 1, j);
      ChangeCloses(f, trace, j - 1, r);
      assert StaysInMap(trace, i, j, r) ==> StaysInMap(trace, i, j - 1, r) && InMap(trace[j].table, r);
    }
  }

  lemma {:induction false} ClosedStays(f: Id -> string, trace: seq<Snap>, k: nat, j: nat, r: nat)
    requires IsTrace(f, trace) && k <= j < |trace|
    requires r < |trace[k].table.services| && trace[k].table.services[r].closed
    ensures r < |trace[j].table.services| && trace[j].table.services[r].closed
    decreases j
  {
    if k == j {
    } else {
      ClosedStays(f, trace, k, j - 1, r);
      ChangeCloses(f, trace, j - 1, r);
    }
  }

  /** A started service that is not in the map has been closed. */
  lemma UnloadedIsClosed(f: Id -> string, trace: seq<Snap>, i: nat, k: nat, j: nat, r: nat)
    requires IsTrace(f, trace) && Makes(trace, i, r) && i < k <= j < |trace| && !InMap(trace[k].table, r)
    ensures r < |trace[j].table.services| && trace[j].table.services[r].closed
  {
    OpenWhileLoaded(f, trace, i, k, r);
    TraceIsOk(f, trace, k);
    assert LiveOk(f, trace[k].table, r);
    ClosedStays(f, trace, k, j, r);
  }

  /**
   Whoever made and started a service, in whatever state: after the sweep it is closed if and only if it was made
   before, or something took it out of the map again.
   */
  lemma MadeIsClosedIff(f: Id -> string, trace: seq<Snap>, i: nat, j: nat, r: nat)
    requires IsTrace(f, trace) && Makes(trace, i, r) && i < j < |trace| && trace[j].swept.Some?
    ensures r < |trace[j].table.services|
    ensures trace[j].table.services[r].closed <==> trace[i].swept.None? || !StaysInMap(trace, i, j, r)
  {
    OpenWhileLoaded(f, trace, i, j, r);
    MadeOpen(f, trace, i, r);
    if trace[i].swept.None? {
      SweepCloses(f, trace, i + 1, j, r);
    } else if k: nat :| i < k <= j && !InMap(trace[k].table, r) {
      UnloadedIsClosed(f, trace, i, k, j, r);
    }
  }
}
