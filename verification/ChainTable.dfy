/**
 What `chainsMu` guards in the generic chain set: the live map, the chain rows in the database, and the
 chain services made so far. Each critical section is a function here, and a method of `ChainSet`
 updates the same state in place and is proved to compute that function.
 */
module ChainTable {
  import opened Wrappers

  type Id = nat

  type Config = nat

  datatype Row = Row(enabled: bool, cfg: Config)

  /** Who made a service: the constructor, or the three operations that start one. */
  datatype Via = Loaded | ByChain | ByAdd | ByConfigure

  /** `running` once `Start` has succeeded, `closed` once `Close` has been called. */
  datatype Service = Service(id: Id, cfg: Config, via: Via, running: bool, closed: bool)
  {
    predicate Live() {
      running && !closed
    }
  }

  /**
   Services are named by their index in `services`, which only grows. The source has one map; its entries for
   chains are `chains`, and the keys under which the constructor has stored nil are `nils`.
   */
  datatype Table = Table(chains: map<string, nat>, rows: map<Id, Row>, services: seq<Service>, nils: set<string>)
  {
    predicate Has(sid: string) {
      sid in chains || sid in nils
    }

    predicate IsNil(sid: string) {
      sid in nils && sid !in chains
    }
  }

  /** How the calls out of the set turn out: the query, `NewChain`, `Start` and `Close`. */
  datatype Env = Env(ormOk: bool, newOk: bool, startOk: bool, closeOk: bool)

  /** `NilChain` stands for the panic of a method call on nil. */
  datatype Error = ChainExists | ChainIDInvalid | OrmFailed | NoRow | NewFailed | StartFailed | CloseFailed | NilChain

  datatype Op =
    | Add(id: Id, cfg: Config)
    | Configure(id: Id, enabled: bool, cfg: Config)
    | Remove(id: Id)

  // ----- the critical sections -----

  /** `NewChain` refuses a disabled row; a service whose `Start` fails is not put in the map. */
  function Initialize(f: Id -> string, d: Table, id: Id, row: Row, via: Via, env: Env): (Table, Option<Error>) {
    if !row.enabled || !env.newOk then
      (d, Some(NewFailed))
    else if !env.startOk then
      (d.(services := d.services + [Service(id, row.cfg, via, false, false)]), Some(StartFailed))
    else
      (d.(services := d.services + [Service(id, row.cfg, via, true, false)], chains := d.chains[f(id) := |d.services|]),
       None)
  }

  function ChainBody(f: Id -> string, d: Table, id: Id, env: Env): (Table, Option<Error>) {
    if d.Has(f(id)) then (d, None)
    else if !env.ormOk then (d, Some(OrmFailed))
    else if id !in d.rows then (d, Some(ChainIDInvalid))
    else Initialize(f, d, id, d.rows[id], ByChain, env)
  }

  /** A new row is enabled by default. */
  function AddBody(f: Id -> string, d: Table, id: Id, cfg: Config, env: Env): (Table, Option<Error>) {
    if d.Has(f(id)) then (d, Some(ChainExists))
    else if !env.ormOk || id in d.rows then (d, Some(OrmFailed))
    else
      var row := Row(true, cfg);
      Initialize(f, d.(rows := d.rows[id := row]), id, row, ByAdd, env)
  }

  /** Takes the service named by `sid` out of the map and calls its `Close`. */
  function Unload(d: Table, sid: string): Table
    requires sid in d.chains && d.chains[sid] < |d.services|
  {
    var r := d.chains[sid];
    d.(chains := d.chains - {sid}, services := d.services[r := d.services[r].(closed := true)])
  }

  function Closed(env: Env): Option<Error> {
    if env.closeOk then None else Some(CloseFailed)
  }

  /** Takes what the map has for `sid` out of it and calls its `Close`. */
  function Drop(d: Table, sid: string, env: Env): (Table, Option<Error>)
    requires InBounds(d) && d.Has(sid)
  {
    if sid in d.chains then (Unload(d, sid), Closed(env)) else (d.(nils := d.nils - {sid}), Some(NilChain))
  }

  function ConfigureBody(f: Id -> string, d: Table, id: Id, enabled: bool, cfg: Config, env: Env)
      : (Table, Option<Error>)
    requires InBounds(d)
  {
    if !env.ormOk then (d, Some(OrmFailed))
    else if id !in d.rows then (d, Some(NoRow))
    else
      var row := Row(enabled, cfg);
      var d' := d.(rows := d.rows[id := row]);
      var sid := f(id);
      if d.Has(sid) && !enabled then
        Drop(d', sid, env)
      else if !d.Has(sid) && enabled then
        Initialize(f, d', id, row, ByConfigure, env)
      else if sid in d.chains then
        var r := d.chains[sid];
        (d'.(services := d.services[r := d.services[r].(cfg := cfg)]), None)
      else
        (d', if d.Has(sid) then Some(NilChain) else None)
  }

  function RemoveBody(f: Id -> string, d: Table, id: Id, env: Env): (Table, Option<Error>)
    requires InBounds(d)
  {
    if !env.ormOk then (d, Some(OrmFailed))
    else if id !in d.rows then (d, Some(NoRow))
    else
      var d' := d.(rows := d.rows - {id});
      if d.Has(f(id)) then Drop(d', f(id), env) else (d', None)
  }

  function OpBody(f: Id -> string, d: Table, op: Op, env: Env): (Table, Option<Error>)
    requires InBounds(d)
  {
    match op
    case Add(id, cfg) => AddBody(f, d, id, cfg, env)
    case Configure(id, enabled, cfg) => ConfigureBody(f, d, id, enabled, cfg, env)
    case Remove(id) => RemoveBody(f, d, id, env)
  }

  /** The start callback: `Start` on every loaded service; `fails` are those whose `Start` fails. */
  function StartAll(d: Table, fails: set<nat>): Table {
    d.(services := seq(|d.services|, (i: nat) requires i < |d.services| =>
         if i in d.chains.Values && i !in fails then d.services[i].(running := true) else d.services[i]))
  }

  /** The stop callback: `Close` on every loaded service. They stay in the map. */
  function CloseAll(d: Table): Table {
    d.(services := seq(|d.services|, (i: nat) requires i < |d.services| =>
         if i in d.chains.Values then d.services[i].(closed := true) else d.services[i]))
  }

  // ----- coherence of the map with the database -----

  predicate InBounds(d: Table) {
    forall sid <- d.chains :: d.chains[sid] < |d.services|
  }

  ghost predicate Injective(f: Id -> string) {
    forall a: Id, b: Id :: f(a) == f(b) ==> a == b
  }

  /** A loaded id has an enabled row with the same config. */
  predicate LoadedOk(f: Id -> string, d: Table, sid: string)
    requires sid in d.chains && d.chains[sid] < |d.services|
  {
    var s := d.services[d.chains[sid]];
    f(s.id) == sid && s.id in d.rows && d.rows[s.id] == Row(true, s.cfg)
  }

  /** A live service is the one the map has for its id. */
  predicate LiveOk(f: Id -> string, d: Table, r: nat)
    requires r < |d.services|
  {
    d.services[r].Live() ==> f(d.services[r].id) in d.chains && d.chains[f(d.services[r].id)] == r
  }

  ghost predicate EntriesOk(f: Id -> string, d: Table) {
    && InBounds(d)
    && (forall sid <- d.chains :: LoadedOk(f, d, sid))
    && (forall r: nat :: r < |d.services| ==> LiveOk(f, d, r))
  }

  /** The map agrees with the rows and with the services, and has no nil. */
  ghost predicate Coherent(f: Id -> string, d: Table) {
    EntriesOk(f, d) && d.nils == {}
  }

  predicate Enabled(rows: map<Id, Row>, id: Id) {
    id in rows && rows[id].enabled
  }

  /** The keys of the enabled rows whose `NewChain` fails. */
  function Failed(f: Id -> string, rows: map<Id, Row>, fails: set<Id>): set<string> {
    set id <- rows | rows[id].enabled && id in fails :: f(id)
  }

  /** The constructor is through with the enabled rows outside `todo`, and has started nothing. */
  ghost predicate Loading(f: Id -> string, d: Table, todo: set<Id>, fails: set<Id>) {
    && EntriesOk(f, d)
    && (forall id: Id :: Enabled(d.rows, id) && id !in todo && id !in fails <==> f(id) in d.chains)
    && d.nils == Failed(f, d.rows, fails - todo)
    && (forall s <- d.services :: !s.running && !s.closed && s.via == Loaded)
  }

  ghost predicate FreshlyLoaded(f: Id -> string, d: Table) {
    Loading(f, d, {}, {})
  }

  /** A set that has just been made is coherent if and only if `NewChain` succeeded for every enabled row. */
  lemma LoadedIsCoherentIff(f: Id -> string, d: Table, fails: set<Id>)
    requires Loading(f, d, {}, fails)
    ensures Coherent(f, d) <==> forall id <- fails :: !Enabled(d.rows, id)
    ensures Coherent(f, d) <==> FreshlyLoaded(f, d)
  {
    assert fails - {} == fails;
    if id: Id :| id in fails && Enabled(d.rows, id) {
      assert f(id) in Failed(f, d.rows, fails);
    } else {
      assert Failed(f, d.rows, fails) == {};
    }
    assert Failed(f, d.rows, {} - {}) == {};
  }

  lemma InitializeKeeps(f: Id -> string, d: Table, id: Id, row: Row, via: Via, env: Env)
    requires Coherent(f, d) && Injective(f)
    requires f(id) !in d.chains && id in d.rows && d.rows[id] == row
    ensures Coherent(f, Initialize(f, d, id, row, via, env).0)
  {
    var d' := Initialize(f, d, id, row, via, env).0;
    forall sid <- d'.chains ensures LoadedOk(f, d', sid) {
      assert sid in d.chains ==> LoadedOk(f, d, sid);
    }
    forall r: nat | r < |d'.services| ensures LiveOk(f, d', r) {
      assert r < |d.services| ==> LiveOk(f, d, r);
    }
  }

  /** Adds an unstarted service, as the constructor does for each enabled row. */
  function LoadOne(f: Id -> string, d: Table, id: Id): Table
    requires id in d.rows
  {
    d.(services := d.services + [Service(id, d.rows[id].cfg, Loaded, false, false)],
       chains := d.chains[f(id) := |d.services|])
  }

  lemma NothingLoaded(f: Id -> string, rows: map<Id, Row>, todo: set<Id>, fails: set<Id>)
    requires forall id: Id :: id in todo <==> Enabled(rows, id)
    ensures Loading(f, Table(map[], rows, [], {}), todo, fails)
  {
    assert Failed(f, rows, fails - todo) == {};
  }

  lemma LoadKeeps(f: Id -> string, d: Table, todo: set<Id>, fails: set<Id>, id: Id)
    requires Loading(f, d, todo, fails) && Injective(f)
    requires id in todo && Enabled(d.rows, id) && id !in fails
    ensures Loading(f, LoadOne(f, d, id), todo - {id}, fails) && f(id) !in d.chains
  {
    var d' := LoadOne(f, d, id);
    assert f(id) !in d.chains;
    assert fails - (todo - {id}) == fails - todo;
    LoadKeepsEntries(f, d, id);
  }

  lemma LoadKeepsEntries(f: Id -> string, d: Table, id: Id)
    requires EntriesOk(f, d) && Injective(f) && Enabled(d.rows, id) && f(id) !in d.chains
    ensures EntriesOk(f, LoadOne(f, d, id))
  {
    var d' := LoadOne(f, d, id);
    forall sid <- d'.chains ensures LoadedOk(f, d', sid) {
      assert sid in d.chains ==> LoadedOk(f, d, sid);
    }
    forall r: nat | r < |d'.services| ensures LiveOk(f, d', r) {
      assert r < |d.services| ==> LiveOk(f, d, r);
    }
  }

  /** A failing `NewChain` leaves a nil in the map. */
  lemma FailKeeps(f: Id -> string, d: Table, todo: set<Id>, fails: set<Id>, id: Id)
    requires Loading(f, d, todo, fails)
    requires id in todo && Enabled(d.rows, id) && id in fails
    ensures Loading(f, d.(nils := d.nils + {f(id)}), todo - {id}, fails)
  {
    var d' := d.(nils := d.nils + {f(id)});
    assert fails - (todo - {id}) == (fails - todo) + {id};
    forall sid <- d'.chains ensures LoadedOk(f, d', sid) { assert LoadedOk(f, d, sid); }
    forall r: nat | r < |d'.services| ensures LiveOk(f, d', r) { assert LiveOk(f, d, r); }
  }

  function RowLoaded(f: Id -> string, d: Table, id: Id, fails: set<Id>): Table
    requires id in d.rows
  {
    if id in fails then d.(nils := d.nils + {f(id)}) else LoadOne(f, d, id)
  }

  lemma RowKeeps(f: Id -> string, d: Table, todo: set<Id>, fails: set<Id>, id: Id)
    requires Loading(f, d, todo, fails) && Injective(f) && id in todo && Enabled(d.rows, id)
    ensures Loading(f, RowLoaded(f, d, id, fails), todo - {id}, fails)
    ensures f(id) !in d.chains
  {
    if id in fails { FailKeeps(f, d, todo, fails, id); } else { LoadKeeps(f, d, todo, fails, id); }
  }

  lemma UnloadKeeps(f: Id -> string, d: Table, d0: Table, id: Id)
    requires Coherent(f, d0) && Injective(f) && f(id) in d0.chains
    requires d == d0.(rows := d.rows) && d.rows - {id} == d0.rows - {id}
    ensures Coherent(f, Unload(d, f(id)))
  {
    var d' := Unload(d, f(id));
    assert LoadedOk(f, d0, f(id));
    forall sid <- d'.chains ensures LoadedOk(f, d', sid) {
      assert LoadedOk(f, d0, sid);
      var s := d0.services[d0.chains[sid]];
      assert s.id in d0.rows - {id} && (d0.rows - {id})[s.id] == d0.rows[s.id];
      assert (d.rows - {id})[s.id] == d.rows[s.id];
    }
    forall r: nat | r < |d'.services| ensures LiveOk(f, d', r) {
      assert LiveOk(f, d0, r);
    }
  }

  lemma ReconfigureKeeps(f: Id -> string, d: Table, id: Id, cfg: Config)
    requires Coherent(f, d) && Injective(f) && f(id) in d.chains
    ensures var r := d.chains[f(id)];
            Coherent(f, d.(rows := d.rows[id := Row(true, cfg)],
                           services := d.services[r := d.services[r].(cfg := cfg)]))
  {
    var r := d.chains[f(id)];
    var d' := d.(rows := d.rows[id := Row(true, cfg)], services := d.services[r := d.services[r].(cfg := cfg)]);
    assert LoadedOk(f, d, f(id));
    forall sid <- d'.chains ensures LoadedOk(f, d', sid) { assert LoadedOk(f, d, sid); }
    forall k: nat | k < |d'.services| ensures LiveOk(f, d', k) { assert LiveOk(f, d, k); }
  }

  /** Changing the row of an id that is not loaded. */
  lemma RowsKeep(f: Id -> string, d: Table, d': Table, id: Id)
    requires Coherent(f, d) && f(id) !in d.chains
    requires d' == d.(rows := d'.rows) && d'.rows - {id} == d.rows - {id}
    ensures Coherent(f, d')
  {
    forall sid <- d'.chains ensures LoadedOk(f, d', sid) {
      assert LoadedOk(f, d, sid);
      var s := d.services[d.chains[sid]];
      assert s.id in d.rows - {id} && (d.rows - {id})[s.id] == d.rows[s.id];
      assert (d'.rows - {id})[s.id] == d'.rows[s.id];
    }
    forall r: nat | r < |d'.services| ensures LiveOk(f, d', r) { assert LiveOk(f, d, r); }
  }

  /** `Add`, `Configure` and `Remove` keep coherence, whichever of their calls fail. */
  lemma OpKeepsCoherence(f: Id -> string, d: Table, op: Op, env: Env)
    requires Coherent(f, d) && Injective(f)
    ensures Coherent(f, OpBody(f, d, op, env).0)
  {
    var d' := OpBody(f, d, op, env).0;
    match op
    case Add(id, cfg) =>
      if d' != d {
        var d1 := d.(rows := d.rows[id := Row(true, cfg)]);
        RowsKeep(f, d, d1, id);
        InitializeKeeps(f, d1, id, Row(true, cfg), ByAdd, env);
      }
    case Configure(id, enabled, cfg) =>
      if env.ormOk && id in d.rows {
        var d1 := d.(rows := d.rows[id := Row(enabled, cfg)]);
        if f(id) !in d.chains {
          RowsKeep(f, d, d1, id);
          if enabled { InitializeKeeps(f, d1, id, Row(true, cfg), ByConfigure, env); }
        } else if enabled {
          ReconfigureKeeps(f, d, id, cfg);
        } else {
          UnloadKeeps(f, d1, d, id);
        }
      }
    case Remove(id) =>
      if env.ormOk && id in d.rows {
        var d1 := d.(rows := d.rows - {id});
        if f(id) in d.chains { UnloadKeeps(f, d1, d, id); } else { RowsKeep(f, d, d1, id); }
      }
  }

  lemma ChainKeepsCoherence(f: Id -> string, d: Table, id: Id, env: Env)
    requires Coherent(f, d) && Injective(f)
    ensures Coherent(f, ChainBody(f, d, id, env).0)
  {
    if f(id) !in d.chains && id in d.rows { InitializeKeeps(f, d, id, d.rows[id], ByChain, env); }
  }

  lemma StartAllKeepsCoherence(f: Id -> string, d: Table, fails: set<nat>)
    requires Coherent(f, d)
    ensures Coherent(f, StartAll(d, fails))
  {
    var d' := StartAll(d, fails);
    forall sid <- d'.chains ensures LoadedOk(f, d', sid) { assert LoadedOk(f, d, sid); }
    forall r: nat | r < |d'.services| ensures LiveOk(f, d', r) {
      assert LiveOk(f, d, r);
      if r in d.chains.Values {
        var sid :| sid in d.chains && d.chains[sid] == r;
        assert LoadedOk(f, d, sid);
      }
    }
  }

  /** The stop callback leaves no service live, loaded or not. */
  lemma CloseAllClosesAll(f: Id -> string, d: Table)
    requires Coherent(f, d)
    ensures Coherent(f, CloseAll(d))
    ensures forall r: nat :: r < |CloseAll(d).services| ==> !CloseAll(d).services[r].Live()
  {
    var d' := CloseAll(d);
    forall sid <- d'.chains ensures LoadedOk(f, d', sid) { assert LoadedOk(f, d, sid); }
    forall r: nat | r < |d'.services| ensures !d'.services[r].Live() { assert LiveOk(f, d, r); }
  }

  /** Coherence means at most one live service per id. */
  lemma AtMostOneLive(f: Id -> string, d: Table, r: nat, q: nat)
    requires Coherent(f, d) && r < |d.services| && q < |d.services|
    requires d.services[r].Live() && d.services[q].Live() && d.services[r].id == d.services[q].id
    ensures r == q
  {
    assert LiveOk(f, d, r) && LiveOk(f, d, q);
  }

  // ----- the object -----

  class ChainSet {
    const formatID: Id -> string
    var chains: map<string, nat>
    var rows: map<Id, Row>
    var services: seq<Service>
    var nils: set<string>

    function View(): Table
      reads this
    {
      Table(chains, rows, services, nils)
    }

    /** The set agrees with its database, whose ids are told apart by their keys. */
    ghost predicate Sound()
      reads this
    {
      Injective(formatID) && Coherent(formatID, View())
    }

    /**
     Loads a service for every enabled row, in any order. Where `NewChain` fails the error is dropped and nil goes
     into the map: the new set is coherent if and only if that happens for no enabled row.
     */
    constructor (formatID: Id -> string, rows: map<Id, Row>, fails: set<Id>)
      requires Injective(formatID)
      ensures this.formatID == formatID && this.rows == rows && nils == Failed(formatID, rows, fails)
      ensures Loading(formatID, View(), {}, fails) && |services| == |chains|
      ensures Coherent(formatID, View()) <==> forall id <- fails :: !Enabled(rows, id)
    {
      this.formatID := formatID;
      this.rows := rows;
      this.chains := map[];
      this.services := [];
      this.nils := {};
      new;
      LoadEnabled(fails);
      LoadedIsCoherentIff(formatID, View(), fails);
      assert fails - {} == fails;
    }

    /** One turn of the loop: nil for a row whose `NewChain` fails, a service for any other. */
    method LoadRow(id: Id, fails: set<Id>)
      requires id in rows
      modifies this`chains, this`services, this`nils
      ensures View() == RowLoaded(formatID, old(View()), id, fails)
      ensures formatID(id) !in old(chains) ==> |services| - |chains| == old(|services| - |chains|)
    {
      if id in fails {
        nils := nils + {formatID(id)};
        return;
      }
      assert chains[formatID(id) := 0].Keys == chains.Keys + {formatID(id)};
      services := services + [Service(id, rows[id].cfg, Loaded, false, false)];
      chains := chains[formatID(id) := |services| - 1];
    }

    method LoadEnabled(fails: set<Id>)
      requires Injective(formatID) && chains == map[] && services == [] && nils == {}
      modifies this`chains, this`services, this`nils
      ensures Loading(formatID, View(), {}, fails) && |services| == |chains|
    {
      var todo: set<Id> := set id <- rows | rows[id].enabled;
      NothingLoaded(formatID, rows, todo, fails);
      while todo != {}
        invariant forall id <- todo :: Enabled(rows, id)
        invariant Loading(formatID, View(), todo, fails) && |services| == |chains|
      {
        var id: Id :| id in todo;
        RowKeeps(formatID, View(), todo, fails, id);
        LoadRow(id, fails);
        todo := todo - {id};
      }
    }

    /** There is one more service, for `id`, that has been started. */
    predicate Made(before: seq<Service>, id: Id, cfg: Config, via: Via)
      reads this
    {
      services == before + [Service(id, cfg, via, true, false)]
    }

    /** Without success there is one more at most: one whose `Start` failed. */
    predicate Tried(before: seq<Service>, id: Id, cfg: Config, via: Via, startFailed: bool)
      reads this
    {
      services == if startFailed then before + [Service(id, cfg, via, false, false)] else before
    }

    /** What the map had for `sid` is out of it and closed, and nothing else has changed. */
    predicate Closes(oldChains: map<string, nat>, before: seq<Service>, sid: string)
      requires sid in oldChains && oldChains[sid] < |before|
      reads this
    {
      var r := oldChains[sid];
      chains == oldChains - {sid} && services == before[r := before[r].(closed := true)]
    }

    method InitializeChain(id: Id, row: Row, via: Via, env: Env) returns (err: Option<Error>)
      modifies this`chains, this`services
      ensures (View(), err) == Initialize(formatID, old(View()), id, row, via, env)
      ensures err.None? <==> row.enabled && env.newOk && env.startOk
      ensures err.None? ==>
                Made(old(services), id, row.cfg, via) && chains == old(chains)[formatID(id) := |services| - 1]
      ensures err.Some? ==>
                chains == old(chains) && err.value == if row.enabled && env.newOk then StartFailed else NewFailed
      ensures err.Some? ==> Tried(old(services), id, row.cfg, via, err == Some(StartFailed))
    {
      if !row.enabled || !env.newOk {
        return Some(NewFailed);
      }
      var service := Service(id, row.cfg, via, false, false);
      if !env.startOk {
        services := services + [service];
        return Some(StartFailed);
      }
      services := services + [service.(running := true)];
      chains := chains[formatID(id) := |services| - 1];
      return None;
    }

    /** `Chain` from the second look at the map on. */
    method ChainLocked(id: Id, env: Env) returns (err: Option<Error>)
      modifies this
      ensures (View(), err) == ChainBody(formatID, old(View()), id, env)
      ensures rows == old(rows) && nils == old(nils)
      ensures old(View()).Has(formatID(id)) ==> err.None? && View() == old(View())
      ensures !old(View()).Has(formatID(id)) ==>
                (err.None? <==> env.ormOk && Enabled(rows, id) && env.newOk && env.startOk)
      ensures !old(View()).Has(formatID(id)) && err.None? ==>
                && Made(old(services), id, rows[id].cfg, ByChain)
                && chains == old(chains)[formatID(id) := |services| - 1]
      ensures err.Some? ==> chains == old(chains)
      ensures err == Some(OrmFailed) <==> !old(View()).Has(formatID(id)) && !env.ormOk
      ensures err == Some(ChainIDInvalid) <==> !old(View()).Has(formatID(id)) && env.ormOk && id !in rows
      ensures err.Some? ==>
                if id in rows then Tried(old(services), id, rows[id].cfg, ByChain, err == Some(StartFailed))
                else services == old(services)
      ensures old(Sound()) ==> Sound()
    {
      if Sound() { ChainKeepsCoherence(formatID, View(), id, env); }
      if formatID(id) in chains || formatID(id) in nils {
        return None;
      }
      if !env.ormOk {
        return Some(OrmFailed);
      }
      if id !in rows {
        return Some(ChainIDInvalid);
      }
      err := InitializeChain(id, rows[id], ByChain, env);
    }

    method AddLocked(id: Id, cfg: Config, env: Env) returns (err: Option<Error>)
      modifies this
      ensures (View(), err) == AddBody(formatID, old(View()), id, cfg, env)
      ensures nils == old(nils)
      ensures err == Some(ChainExists) <==> old(View()).Has(formatID(id))
      ensures err == Some(OrmFailed) <==> !old(View()).Has(formatID(id)) && (!env.ormOk || id in old(rows))
      ensures err == Some(ChainExists) || err == Some(OrmFailed) ==> View() == old(View())
      ensures err != Some(ChainExists) && err != Some(OrmFailed) ==> rows == old(rows)[id := Row(true, cfg)]
      ensures err.None? ==>
                Made(old(services), id, cfg, ByAdd) && chains == old(chains)[formatID(id) := |services| - 1]
      ensures err.Some? ==> chains == old(chains)
      ensures err.Some? ==> Tried(old(services), id, cfg, ByAdd, err == Some(StartFailed))
      ensures err.None? <==>
                !old(View()).Has(formatID(id)) && env.ormOk && id !in old(rows) && env.newOk && env.startOk
      ensures old(Sound()) ==> Sound()
    {
      if Sound() { OpKeepsCoherence(formatID, View(), Add(id, cfg), env); }
      if formatID(id) in chains || formatID(id) in nils {
        return Some(ChainExists);
      }
      if !env.ormOk || id in rows {
        return Some(OrmFailed);
      }
      rows := rows[id := Row(true, cfg)];
      err := InitializeChain(id, Row(true, cfg), ByAdd, env);
    }

    /** What `Close` returns is what its caller returns. */
    method CloseService(sid: string, env: Env) returns (err: Option<Error>)
      requires InBounds(View()) && View().Has(sid)
      modifies this`chains, this`services, this`nils
      ensures (View(), err) == Drop(old(View()), sid, env)
      ensures sid in old(chains) ==> Closes(old(chains), old(services), sid) && nils == old(nils)
      ensures sid in old(chains) ==> (err.None? <==> env.closeOk)
      ensures sid !in old(chains) ==>
                nils == old(nils) - {sid} && chains == old(chains) && services == old(services) && err == Some(NilChain)
    {
      if sid !in chains {
        nils := nils - {sid};
        return Some(NilChain);
      }
      var r := chains[sid];
      chains := chains - {sid};
      services := services[r := services[r].(closed := true)];
      err := if env.closeOk then None else Some(CloseFailed);
    }

    method ConfigureLocked(id: Id, enabled: bool, cfg: Config, env: Env) returns (err: Option<Error>)
      requires InBounds(View())
      modifies this
      ensures (View(), err) == ConfigureBody(formatID, old(View()), id, enabled, cfg, env)
      ensures !env.ormOk || id !in old(rows) ==> View() == old(View()) && err.Some?
      ensures env.ormOk && id in old(rows) ==> rows == old(rows)[id := Row(enabled, cfg)]
      ensures err == Some(OrmFailed) <==> !env.ormOk
      ensures err == Some(NoRow) <==> env.ormOk && id !in old(rows)
      ensures env.ormOk && id in old(rows) && old(View()).IsNil(formatID(id)) ==>
                && err == Some(NilChain) && chains == old(chains) && services == old(services)
                && nils == if enabled then old(nils) else old(nils) - {formatID(id)}
      ensures env.ormOk && id in old(rows) && !enabled && formatID(id) in old(chains) ==>
                Closes(old(chains), old(services), formatID(id)) && (err.None? <==> env.closeOk)
      ensures env.ormOk && id in old(rows) && !enabled && !old(View()).Has(formatID(id)) ==>
                chains == old(chains) && services == old(services) && err.None?
      ensures env.ormOk && id in old(rows) && enabled && !old(View()).Has(formatID(id)) ==>
                && (err.None? <==> env.newOk && env.startOk)
                && (err.None? ==> Made(old(services), id, cfg, ByConfigure) &&
                                  chains == old(chains)[formatID(id) := |services| - 1])
                && (err.Some? ==> Tried(old(services), id, cfg, ByConfigure, err == Some(StartFailed)) &&
                                  chains == old(chains) && err.value == if env.newOk then StartFailed else NewFailed)
      ensures env.ormOk && id in old(rows) && enabled && formatID(id) in old(chains) ==>
                var r := old(chains)[formatID(id)];
                err.None? && chains == old(chains) && services == old(services)[r := old(services)[r].(cfg := cfg)]
      ensures old(Sound()) ==> Sound()
    {
      if Sound() { OpKeepsCoherence(formatID, View(), Configure(id, enabled, cfg), env); }
      if !env.ormOk {
        return Some(OrmFailed);
      }
      if id !in rows {
        return Some(NoRow);
      }
      rows := rows[id := Row(enabled, cfg)];
      var sid := formatID(id);
      var loaded := sid in chains || sid in nils;
      if loaded && !enabled {
        err := CloseService(sid, env);
        return;
      } else if !loaded && enabled {
        err := InitializeChain(id, Row(enabled, cfg), ByConfigure, env);
        return;
      } else if loaded {
        if sid !in chains {
          return Some(NilChain);
        }
        var r := chains[sid];
        services := services[r := services[r].(cfg := cfg)];
      }
      err := None;
    }

    method RemoveLocked(id: Id, env: Env) returns (err: Option<Error>)
      requires InBounds(View())
      modifies this
      ensures (View(), err) == RemoveBody(formatID, old(View()), id, env)
      ensures !env.ormOk || id !in old(rows) ==> View() == old(View()) && err.Some?
      ensures env.ormOk && id in old(rows) ==> rows == old(rows) - {id}
      ensures err == Some(OrmFailed) <==> !env.ormOk
      ensures err == Some(NoRow) <==> env.ormOk && id !in old(rows)
      ensures env.ormOk && id in old(rows) && old(View()).IsNil(formatID(id)) ==>
                && err == Some(NilChain) && chains == old(chains) && services == old(services)
                && nils == old(nils) - {formatID(id)}
      ensures env.ormOk && id in old(rows) && formatID(id) in old(chains) ==>
                Closes(old(chains), old(services), formatID(id)) && (err.None? <==> env.closeOk)
      ensures env.ormOk && id in old(rows) && !old(View()).Has(formatID(id)) ==>
                chains == old(chains) && services == old(services) && err.None?
      ensures old(Sound()) ==> Sound()
    {
      if Sound() { OpKeepsCoherence(formatID, View(), Remove(id), env); }
      if !env.ormOk {
        return Some(OrmFailed);
      }
      if id !in rows {
        return Some(NoRow);
      }
      rows := rows - {id};
      if formatID(id) in chains || formatID(id) in nils {
        err := CloseService(formatID(id), env);
        return;
      }
      err := None;
    }

    /** The body of the start callback visits the map in any order, and panics at a nil. */
    method StartChains(fails: set<nat>) returns (panicked: bool)
      requires InBounds(View())
      modifies this`services
      ensures panicked <==> nils != {}
      ensures !panicked ==> View() == StartAll(old(View()), fails)
      ensures |services| == old(|services|)
      ensures !panicked ==> forall i: nat :: i < |services| ==>
                services[i] == old(services)[i].(running := old(services)[i].running ||
                                                            (i in chains.Values && i !in fails))
      ensures forall i: nat :: i < |services| ==>
                services[i] == old(services)[i] || services[i] == old(services)[i].(running := true)
      ensures old(Sound()) ==> !panicked && Sound()
    {
      if Sound() { StartAllKeepsCoherence(formatID, View(), fails); }
      var todo := chains.Keys + nils;
      ghost var seen: set<nat> := {};
      while todo != {}
        invariant nils <= todo <= chains.Keys + nils && |services| == old(|services|)
        invariant forall i: nat :: i in seen <==> exists sid :: sid in chains.Keys - todo && chains[sid] == i
        invariant forall i: nat :: i < |services| ==>
                    services[i] ==
                    if i in seen && i !in fails then old(services)[i].(running := true) else old(services)[i]
      {
        var sid :| sid in todo;
        if sid in nils {
          return true;
        }
        var r := chains[sid];
        if r !in fails {
          services := services[r := services[r].(running := true)];
        }
        todo := todo - {sid};
        seen := seen + {r};
      }
      assert seen == chains.Values;
      panicked := false;
    }

    /** `fails` are the services whose `Close` fails; their errors are combined. */
    method CloseChains(fails: set<nat>) returns (failed: bool, panicked: bool)
      requires InBounds(View())
      modifies this`services
      ensures panicked <==> nils != {}
      ensures !panicked ==> View() == CloseAll(old(View()))
      ensures !panicked ==> (failed <==> exists sid <- chains :: chains[sid] in fails)
      ensures |services| == old(|services|)
      ensures !panicked ==> forall i: nat :: i < |services| ==>
                services[i] == old(services)[i].(closed := old(services)[i].closed || i in chains.Values)
      ensures forall i: nat :: i < |services| ==>
                services[i] == old(services)[i] || services[i] == old(services)[i].(closed := true)
      ensures old(Sound()) ==> !panicked && Sound()
    {
      if Sound() { CloseAllClosesAll(formatID, View()); }
      failed, panicked := false, false;
      var todo := chains.Keys + nils;
      ghost var seen: set<nat> := {};
      while todo != {}
        invariant nils <= todo <= chains.Keys + nils && |services| == old(|services|)
        invariant forall i: nat :: i in seen <==> exists sid :: sid in chains.Keys - todo && chains[sid] == i
        invariant forall i: nat :: i < |services| ==>
                    services[i] == if i in seen then old(services)[i].(closed := true) else old(services)[i]
        invariant failed <==> exists sid :: sid in chains.Keys - todo && chains[sid] in fails
      {
        var sid :| sid in todo;
        if sid in nils {
          panicked := true;
          return;
        }
        var r := chains[sid];
        services := services[r := services[r].(closed := true)];
        failed := failed || r in fails;
        todo := todo - {sid};
        seen := seen + {r};
      }
      assert seen == chains.Values;
    }
  }
}
