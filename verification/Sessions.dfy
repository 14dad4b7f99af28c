/**
 The session table and its reaper. Times and durations are integers; each operation is one statement or
 transaction of the database, at the time `now` of the database clock, and a call that makes two statements is
 two operations, with others in between. The reaper takes its threshold from the clock of the node instead.
 */
module Sessions {
  import opened Wrappers

  type Time = int

  /** Whether there is an API user, and when each session was last used. */
  datatype Table = Table(user: bool, sessions: map<string, Time>)

  const EMPTY := Table(false, map[])

  /** `skew` bounds how far the node's clock runs ahead of the database's when the reaper works. */
  datatype Config = Config(duration: int, timeout: int, expiration: int, skew: int)

  datatype Op =
    | CreateUser
    | FindUser
    | Insert(id: string)
    | Refresh(id: string)
    | DeleteSession(id: string)
    | ClearOthers(id: string)
    | DeleteUser
    | Reap(nodeNow: Time)

  datatype Event = Event(now: Time, op: Op)

  datatype Answer = Found | NoUser | Refreshed | NoRows | Duplicate | Done

  /** What `AuthorizedUserWithSession` returns. */
  datatype Outcome = Accepted | EmptyId | Unknown | UserGone

  /** The row check of the update statement. */
  predicate RowAccepts(cfg: Config, t: Table, id: string, now: Time) {
    id in t.sessions && t.sessions[id] + cfg.duration >= now
  }

  function Threshold(cfg: Config, nodeNow: Time): Time {
    nodeNow - cfg.timeout - cfg.expiration
  }

  function Apply(cfg: Config, t: Table, e: Event): (Table, Answer) {
    match e.op
    case CreateUser => (t.(user := true), Done)
    case FindUser => (t, if t.user then Found else NoUser)
    case Insert(id) =>
      if id in t.sessions then (t, Duplicate) else (t.(sessions := t.sessions[id := e.now]), Done)
    case Refresh(id) =>
      if RowAccepts(cfg, t, id, e.now) then (t.(sessions := t.sessions[id := e.now]), Refreshed) else (t, NoRows)
    case DeleteSession(id) => (t.(sessions := t.sessions - {id}), Done)
    case ClearOthers(id) => (t.(sessions := map k <- t.sessions | k == id :: t.sessions[k]), Done)
    case DeleteUser => (EMPTY, Done)
    case Reap(nodeNow) =>
      (t.(sessions := map k <- t.sessions | t.sessions[k] >= Threshold(cfg, nodeNow) :: t.sessions[k]), Done)
  }

  /** A call of `AuthorizedUserWithSession` that nothing interrupts. */
  function AuthorizeAtOnce(cfg: Config, t: Table, id: string, now: Time): (Table, Outcome) {
    if |id| == 0 then (t, EmptyId)
    else
      var (t', a) := Apply(cfg, t, Event(now, Refresh(id)));
      (t', if a != Refreshed then Unknown else if t'.user then Accepted else UserGone)
  }

  // ----- the objects -----

  class Store {
    const sessionDuration: int
    var user: bool
    var sessions: map<string, Time>

    function View(): Table
      reads this
    {
      Table(user, sessions)
    }

    constructor (sessionDuration: int)
      ensures this.sessionDuration == sessionDuration && View() == EMPTY
    {
      this.sessionDuration := sessionDuration;
      user, sessions := false, map[];
    }

    method FindUser() returns (r: Answer)
      ensures r == if user then Found else NoUser
    {
      r := if user then Found else NoUser;
    }

    /** An update, then a look at the rows it affected, then the user. */
    method AuthorizedUserWithSession(sessionID: string, now: Time, ghost cfg: Config) returns (r: Outcome)
      requires cfg.duration == sessionDuration
      modifies this`sessions
      ensures r == EmptyId <==> sessionID == ""
      ensures r.Accepted? || r.UserGone? <==>
                sessionID != "" && sessionID in old(sessions) && old(sessions)[sessionID] + sessionDuration >= now
      ensures r.Accepted? ==> user
      ensures r.UserGone? ==> !user
      ensures sessions ==
              if r.Accepted? || r.UserGone? then old(sessions)[sessionID := now] else old(sessions)
      ensures (View(), r) == AuthorizeAtOnce(cfg, old(View()), sessionID, now)
    {
      if |sessionID| == 0 {
        return EmptyId;
      }
      var rowsAffected := 0;
      if sessionID in sessions && sessions[sessionID] + sessionDuration >= now {
        sessions := sessions[sessionID := now];
        rowsAffected := 1;
      }
      if rowsAffected == 0 {
        return Unknown;
      }
      var found := FindUser();
      r := if found == Found then Accepted else UserGone;
    }

    /** The insert at the end of `CreateSession`, which looks at nothing but the new id. */
    method InsertSession(id: string, now: Time, ghost cfg: Config) returns (r: Answer)
      modifies this`sessions
      ensures r == Duplicate || r == Done
      ensures r == Duplicate <==> id in old(sessions)
      ensures sessions == if r == Duplicate then old(sessions) else old(sessions)[id := now]
      ensures (View(), r) == Apply(cfg, old(View()), Event(now, Insert(id)))
    {
      if id in sessions {
        return Duplicate;
      }
      sessions := sessions[id := now];
      r := Done;
    }

    method DeleteUserSession(sessionID: string, now: Time, ghost cfg: Config)
      modifies this`sessions
      ensures sessions.Keys == old(sessions.Keys) - {sessionID}
      ensures forall k <- sessions :: sessions[k] == old(sessions)[k]
      ensures View() == Apply(cfg, old(View()), Event(now, DeleteSession(sessionID))).0
    {
      sessions := sessions - {sessionID};
    }

    method ClearNonCurrentSessions(sessionID: string, now: Time, ghost cfg: Config)
      modifies this`sessions
      ensures sessions.Keys == old(sessions.Keys) * {sessionID}
      ensures forall k <- sessions :: sessions[k] == old(sessions)[k]
      ensures View() == Apply(cfg, old(View()), Event(now, ClearOthers(sessionID))).0
    {
      sessions := map k <- sessions | k == sessionID :: sessions[k];
    }

    method DeleteUser(now: Time, ghost cfg: Config)
      modifies this
      ensures !user && sessions == map[]
      ensures View() == Apply(cfg, old(View()), Event(now, Op.DeleteUser)).0
    {
      user := false;
      sessions := map[];
    }

    method DeleteStaleSessions(before: Time)
      modifies this`sessions
      ensures sessions == map k <- old(sessions) | old(sessions)[k] >= before :: old(sessions)[k]
    {
      sessions := map k <- sessions | !(sessions[k] < before) :: sessions[k];
    }
  }

  class Reaper {
    const db: Store
    const sessionTimeout: int
    const reaperExpiration: int

    constructor (db: Store, sessionTimeout: int, reaperExpiration: int)
      ensures this.db == db && this.sessionTimeout == sessionTimeout && this.reaperExpiration == reaperExpiration
    {
      this.db, this.sessionTimeout, this.reaperExpiration := db, sessionTimeout, reaperExpiration;
    }

    method Work(nodeNow: Time, now: Time, ghost cfg: Config)
      requires cfg.timeout == sessionTimeout && cfg.expiration == reaperExpiration
      modifies db`sessions
      ensures forall k: string :: k in db.sessions <==>
                k in old(db.sessions) && old(db.sessions)[k] + sessionTimeout + reaperExpiration >= nodeNow
      ensures forall k <- db.sessions :: db.sessions[k] == old(db.sessions)[k]
      ensures db.View() == Apply(cfg, old(db.View()), Event(now, Reap(nodeNow))).0
    {
      var threshold := nodeNow - sessionTimeout - reaperExpiration;
      db.DeleteStaleSessions(threshold);
    }
  }

  // ----- histories -----

  /** The table a history leads to, and what its operations other than the reaper's answered. */
  function Run(cfg: Config, h: seq<Event>): (Table, seq<Answer>) {
    if |h| == 0 then (EMPTY, [])
    else
      var e := h[|h| - 1];
      var (t, answers) := Run(cfg, h[..|h| - 1]);
      var (t', a) := Apply(cfg, t, e);
      (t', if e.op.Reap? then answers else answers + [a])
  }

  /** The history without the reaper. */
  function Strip(h: seq<Event>): seq<Event> {
    if |h| == 0 then []
    else Strip(h[..|h| - 1]) + if h[|h| - 1].op.Reap? then [] else [h[|h| - 1]]
  }

  predicate Inserted(h: seq<Event>, id: string) {
    exists i: nat :: i < |h| && h[i].op == Insert(id)
  }

  /** The database clock never goes back. */
  predicate Monotone(h: seq<Event>) {
    forall i: nat, j: nat :: i < j < |h| ==> h[i].now <= h[j].now
  }

  /** No session id is drawn twice. */
  predicate Fresh(h: seq<Event>) {
    forall i: nat, j: nat :: i < j < |h| && h[i].op.Insert? ==> h[j].op != h[i].op
  }

  predicate ClocksAgree(cfg: Config, h: seq<Event>) {
    forall i: nat :: i < |h| && h[i].op.Reap? ==> h[i].op.nodeNow <= h[i].now + cfg.skew
  }

  predicate Admissible(cfg: Config, h: seq<Event>) {
    Monotone(h) && Fresh(h) && ClocksAgree(cfg, h)
  }

  /** What the reaper may cost: `timeout` and `expiration` must make up for `duration` and the skew. */
  predicate Safe(cfg: Config) {
    cfg.duration + cfg.skew <= cfg.timeout + cfg.expiration
  }

  /** `a` is `b` less some sessions that have expired by `now`. */
  predicate Related(cfg: Config, a: Table, b: Table, now: Time) {
    && a.user == b.user
    && (forall id <- a.sessions :: id in b.sessions && a.sessions[id] == b.sessions[id])
    && (forall id <- b.sessions :: id in a.sessions || b.sessions[id] + cfg.duration < now)
  }

  lemma ApplyKeepsRelated(cfg: Config, a: Table, b: Table, now: Time, e: Event)
    requires Safe(cfg) && Related(cfg, a, b, now) && now <= e.now
    requires e.op.Insert? ==> e.op.id !in b.sessions
    requires e.op.Reap? ==> e.op.nodeNow <= e.now + cfg.skew
    ensures e.op.Reap? ==> Related(cfg, Apply(cfg, a, e).0, b, e.now)
    ensures !e.op.Reap? ==>
              && Related(cfg, Apply(cfg, a, e).0, Apply(cfg, b, e).0, e.now)
              && Apply(cfg, a, e).1 == Apply(cfg, b, e).1
  {
  }

  /** Only sessions that were inserted are in the table. */
  lemma {:induction false} OnlyInserted(cfg: Config, h: seq<Event>, id: string)
    requires id in Run(cfg, h).0.sessions
    ensures Inserted(h, id)
  {
    var before := h[..|h| - 1];
    if id in Run(cfg, before).0.sessions {
      OnlyInserted(cfg, before, id);
      var i: nat :| i < |before| && before[i].op == Insert(id);
      assert h[i].op == Insert(id);
    } else {
      assert h[|h| - 1].op == Insert(id);
    }
  }

  lemma {:induction false} StripInserted(h: seq<Event>, id: string)
    requires Inserted(Strip(h), id)
    ensures Inserted(h, id)
  {
    var before := h[..|h| - 1];
    var i: nat :| i < |Strip(h)| && Strip(h)[i].op == Insert(id);
    if i < |Strip(before)| {
      assert Strip(before)[i].op == Insert(id);
      StripInserted(before, id);
      var j: nat :| j < |before| && before[j].op == Insert(id);
      assert h[j].op == Insert(id);
    } else {
      assert h[|h| - 1].op == Insert(id);
    }
  }

  function LastTime(h: seq<Event>): Time {
    if |h| == 0 then 0 else h[|h| - 1].now
  }

  lemma RunExtends(cfg: Config, h: seq<Event>, e: Event)
    ensures var (t, answers) := Run(cfg, h);
            var (t', a) := Apply(cfg, t, e);
            Run(cfg, h + [e]) == (t', if e.op.Reap? then answers else answers + [a])
  {
    assert (h + [e])[..|h|] == h;
  }

  /** A session id that is about to be inserted is in neither table. */
  lemma NotYetInserted(cfg: Config, h: seq<Event>, e: Event)
    requires Fresh(h + [e]) && e.op.Insert?
    ensures e.op.id !in Run(cfg, h).0.sessions && e.op.id !in Run(cfg, Strip(h)).0.sessions
  {
    var h' := h + [e];
    assert h'[|h|] == e && forall i: nat :: i < |h| ==> h[i] == h'[i];
    assert !Inserted(h, e.op.id);
    if e.op.id in Run(cfg, h).0.sessions { OnlyInserted(cfg, h, e.op.id); }
    if e.op.id in Run(cfg, Strip(h)).0.sessions {
      OnlyInserted(cfg, Strip(h), e.op.id);
      StripInserted(h, e.op.id);
    }
  }

  lemma AdmissiblePrefix(cfg: Config, h: seq<Event>, e: Event)
    requires Admissible(cfg, h + [e])
    ensures Admissible(cfg, h)
    ensures |h| > 0 ==> LastTime(h) <= e.now
    ensures e.op.Reap? ==> e.op.nodeNow <= e.now + cfg.skew
  {
    var h' := h + [e];
    assert forall i: nat :: i < |h| ==> h[i] == h'[i];
    assert h'[|h|] == e;
  }

  lemma StripExtends(h: seq<Event>, e: Event)
    ensures Strip(h + [e]) == Strip(h) + if e.op.Reap? then [] else [e]
  {
    assert (h + [e])[..|h|] == h;
  }

  /** The two runs agree so far. */
  predicate Agree(cfg: Config, h: seq<Event>) {
    && Run(cfg, h).1 == Run(cfg, Strip(h)).1
    && Related(cfg, Run(cfg, h).0, Run(cfg, Strip(h)).0, LastTime(h))
  }

  lemma AgreeExtends(cfg: Config, h: seq<Event>, e: Event)
    requires Safe(cfg) && Admissible(cfg, h + [e]) && Agree(cfg, h)
    ensures Agree(cfg, h + [e])
  {
    AdmissiblePrefix(cfg, h, e);
    if e.op.Insert? { NotYetInserted(cfg, h, e); }
    ApplyKeepsRelated(cfg, Run(cfg, h).0, Run(cfg, Strip(h)).0, if |h| == 0 then e.now else LastTime(h), e);
    RunExtends(cfg, h, e);
    StripExtends(h, e);
    if e.op.Reap? {
      assert Strip(h + [e]) == Strip(h);
    } else {
      RunExtends(cfg, Strip(h), e);
    }
  }

  lemma {:induction false} ReapingBisimulates(cfg: Config, h: seq<Event>)
    requires Safe(cfg) && Admissible(cfg, h)
    ensures Agree(cfg, h)
  {
    if |h| == 0 {
    } else {
      var before, e := h[..|h| - 1], h[|h| - 1];
      assert h == before + [e];
      AdmissiblePrefix(cfg, before, e);
      ReapingBisimulates(cfg, before);
      AgreeExtends(cfg, before, e);
    }
  }

  /**
   Reaping is unobservable: on every history, with the reaper running whenever it likes, all other
   operations answer as if it never ran, if and only if the session timeout and the reaper's expiration
   together cover the session duration and the skew between the two clocks. With `duration` equal to
   `timeout`, that is: if and only if the expiration covers the skew.
   */
  lemma ReapingUnobservableIff(cfg: Config)
    requires cfg.duration >= 0
    ensures (forall h: seq<Event> :: Admissible(cfg, h) ==> Run(cfg, h).1 == Run(cfg, Strip(h)).1) <==> Safe(cfg)
  {
    if Safe(cfg) {
      forall h: seq<Event> | Admissible(cfg, h) ensures Run(cfg, h).1 == Run(cfg, Strip(h)).1 {
        ReapingBisimulates(cfg, h);
      }
    } else {
      var h := Witness(cfg);
      assert Admissible(cfg, h) && Run(cfg, h).1 != Run(cfg, Strip(h)).1;
    }
  }

  /** A session is inserted at time 0. */
  const LOGIN: seq<Event> := [Event(0, CreateUser), Event(0, Insert("s"))]

  lemma AfterLogin(cfg: Config)
    ensures Run(cfg, LOGIN).0 == Table(true, map["s" := 0]) && Strip(LOGIN) == LOGIN
  {
    var a, b := Event(0, CreateUser), Event(0, Insert("s"));
    RunExtends(cfg, [], a);
    RunExtends(cfg, [a], b);
    StripExtends([], a);
    StripExtends([a], b);
    assert [] + [a] == [a] && [a] + [b] == LOGIN;
  }

  lemma ReapedAtOnce(cfg: Config, reap: Event, auth: Event)
    requires reap.op.Reap? && Threshold(cfg, reap.op.nodeNow) > 0 && auth.op == Refresh("s")
    ensures Run(cfg, LOGIN + [reap] + [auth]).1 == Run(cfg, LOGIN).1 + [NoRows]
  {
    AfterLogin(cfg);
    RunExtends(cfg, LOGIN, reap);
    RunExtends(cfg, LOGIN + [reap], auth);
  }

  lemma StillGood(cfg: Config, auth: Event)
    requires auth.op == Refresh("s") && auth.now <= cfg.duration
    ensures Run(cfg, LOGIN + [auth]).1 == Run(cfg, LOGIN).1 + [Refreshed]
  {
    AfterLogin(cfg);
    RunExtends(cfg, LOGIN, auth);
  }

  /** The reaper takes a session that is still good at that very moment. */
  lemma Witness(cfg: Config) returns (h: seq<Event>)
    requires cfg.duration >= 0 && !Safe(cfg)
    ensures Admissible(cfg, h) && Run(cfg, h).1 != Run(cfg, Strip(h)).1
  {
    var d := cfg.duration;
    var reap, auth := Event(d, Reap(d + cfg.skew)), Event(d, Refresh("s"));
    h := LOGIN + [reap] + [auth];
    AfterLogin(cfg);
    StripExtends(LOGIN, reap);
    StripExtends(LOGIN + [reap], auth);
    assert Strip(h) == LOGIN + [] + [auth] == LOGIN + [auth];
    ReapedAtOnce(cfg, reap, auth);
    StillGood(cfg, auth);
    var n := |Run(cfg, LOGIN).1|;
    assert Run(cfg, h).1[n] == NoRows && Run(cfg, Strip(h)).1[n] == Refreshed;
  }

  // ----- which sessions are good -----

  /** Whether there is a user, from the history alone. */
  predicate HasUser(h: seq<Event>) {
    |h| > 0 && (h[|h| - 1].op.CreateUser? || (!h[|h| - 1].op.DeleteUser? && HasUser(h[..|h| - 1])))
  }

  predicate Kills(op: Op, id: string) {
    match op
    case DeleteSession(x) => x == id
    case ClearOthers(x) => x != id
    case DeleteUser => true
    case _ => false
  }

  predicate GapOk(cfg: Config, h: seq<Event>, uses: seq<nat>, j: nat)
    requires j + 1 < |uses| && uses[j] < |h| && uses[j + 1] < |h|
  {
    h[uses[j + 1]].now <= h[uses[j]].now + cfg.duration
  }

  /**
   The session was inserted and used since at the given events, never with a gap longer than the session
   duration, and nothing ended it.
   */
  predicate KeptUp(cfg: Config, h: seq<Event>, id: string, uses: seq<nat>) {
    && |uses| > 0
    && (forall j: nat :: j < |uses| ==> uses[j] < |h|)
    && (forall i: nat, j: nat :: i < j < |uses| ==> uses[i] < uses[j])
    && (forall j: nat :: j + 1 < |uses| ==> GapOk(cfg, h, uses, j))
    && h[uses[0]].op == Insert(id)
    && (forall j: nat :: 0 < j < |uses| ==> h[uses[j]].op == Refresh(id))
    && (forall k: nat :: uses[0] < k < |h| ==> !Kills(h[k].op, id))
  }

  function LastUse(h: seq<Event>, uses: seq<nat>): Time
    requires |uses| > 0 && uses[|uses| - 1] < |h|
  {
    h[uses[|uses| - 1]].now
  }

  /** It has been kept up, and its last use is no longer ago than the session duration. */
  ghost predicate GoodAt(cfg: Config, h: seq<Event>, id: string, now: Time) {
    exists uses: seq<nat> :: KeptUp(cfg, h, id, uses) && now <= LastUse(h, uses) + cfg.duration
  }

  predicate ReapFree(h: seq<Event>) {
    forall i: nat :: i < |h| ==> !h[i].op.Reap?
  }

  lemma {:induction false} TableHasUser(cfg: Config, h: seq<Event>)
    ensures Run(cfg, h).0.user == HasUser(h)
  {
    if |h| == 0 {
    } else {
      TableHasUser(cfg, h[..|h| - 1]);
    }
  }

  lemma KeptUpExtends(cfg: Config, h: seq<Event>, e: Event, id: string, uses: seq<nat>)
    requires KeptUp(cfg, h, id, uses) && !Kills(e.op, id)
    ensures KeptUp(cfg, h + [e], id, uses) && LastUse(h + [e], uses) == LastUse(h, uses)
  {
    forall j: nat | j + 1 < |uses| ensures GapOk(cfg, h + [e], uses, j) { assert GapOk(cfg, h, uses, j); }
  }

  lemma KeptUpUsed(cfg: Config, h: seq<Event>, e: Event, id: string, uses: seq<nat>)
    requires KeptUp(cfg, h, id, uses) && e.op == Refresh(id) && e.now <= LastUse(h, uses) + cfg.duration
    ensures KeptUp(cfg, h + [e], id, uses + [|h|]) && LastUse(h + [e], uses + [|h|]) == e.now
  {
    var h', uses' := h + [e], uses + [|h|];
    forall j: nat | j + 1 < |uses'| ensures GapOk(cfg, h', uses', j) {
      if j + 1 < |uses| { assert GapOk(cfg, h, uses, j); }
    }
  }

  /** A row of the table was kept up until its last use. */
  lemma {:induction false} RowWasKeptUp(cfg: Config, h: seq<Event>, id: string) returns (uses: seq<nat>)
    requires id in Run(cfg, h).0.sessions
    ensures KeptUp(cfg, h, id, uses) && LastUse(h, uses) == Run(cfg, h).0.sessions[id]
  {
    var before, e := h[..|h| - 1], h[|h| - 1];
    assert h == before + [e];
    var t := Run(cfg, before).0;
    if id !in t.sessions {
      uses := [|before|];
    } else {
      uses := RowWasKeptUp(cfg, before, id);
      if e.op == Refresh(id) && RowAccepts(cfg, t, id, e.now) {
        KeptUpUsed(cfg, before, e, id, uses);
        uses := uses + [|before|];
      } else {
        KeptUpExtends(cfg, before, e, id, uses);
      }
    }
  }

  /** The last event is no use: what it leaves of the history is enough. */
  lemma KeptUpBefore(cfg: Config, h: seq<Event>, e: Event, id: string, uses: seq<nat>)
    requires KeptUp(cfg, h + [e], id, uses) && uses[|uses| - 1] < |h|
    ensures KeptUp(cfg, h, id, uses) && LastUse(h, uses) == LastUse(h + [e], uses) && !Kills(e.op, id)
  {
    var h' := h + [e];
    assert forall k: nat :: k < |h| ==> h[k] == h'[k];
    assert h'[|h|] == e;
    assert forall j: nat :: j < |uses| ==> j == |uses| - 1 || uses[j] < uses[|uses| - 1];
    forall j: nat | j + 1 < |uses| ensures GapOk(cfg, h, uses, j) { assert GapOk(cfg, h', uses, j); }
  }

  /** The last event is a use: it was within the duration of the one before. */
  lemma KeptUpLast(cfg: Config, h: seq<Event>, e: Event, id: string, uses: seq<nat>)
    requires KeptUp(cfg, h + [e], id, uses) && uses[|uses| - 1] == |h| && |uses| > 1
    ensures var short := uses[..|uses| - 1];
            KeptUp(cfg, h, id, short) && e.now <= LastUse(h, short) + cfg.duration && e.op == Refresh(id)
  {
    var h', short := h + [e], uses[..|uses| - 1];
    assert forall k: nat :: k < |h| ==> h[k] == h'[k];
    assert h'[|h|] == e;
    forall j: nat | j + 1 < |short| ensures GapOk(cfg, h, short, j) { assert GapOk(cfg, h', uses, j); }
    assert GapOk(cfg, h', uses, |uses| - 2);
  }

  ghost predicate HasRow(cfg: Config, h: seq<Event>, id: string, since: Time) {
    var t := Run(cfg, h).0;
    id in t.sessions && t.sessions[id] >= since
  }

  /** A session that was kept up is in the table, used at least as lately. */
  lemma {:induction false} KeptUpHasRow(cfg: Config, h: seq<Event>, id: string, uses: seq<nat>)
    requires Monotone(h) && Fresh(h) && ReapFree(h)
    requires KeptUp(cfg, h, id, uses)
    ensures HasRow(cfg, h, id, LastUse(h, uses))
  {
    var before, e := h[..|h| - 1], h[|h| - 1];
    assert h == before + [e];
    PrefixFacts(before, e);
    if uses[|uses| - 1] < |before| {
      KeptUpBefore(cfg, before, e, id, uses);
      KeptUpHasRow(cfg, before, id, uses);
      RowSurvives(cfg, before, e, id, LastUse(before, uses));
    } else if |uses| > 1 {
      KeptUpLast(cfg, before, e, id, uses);
      KeptUpHasRow(cfg, before, id, uses[..|uses| - 1]);
      RowIsUsed(cfg, before, e, id, LastUse(before, uses[..|uses| - 1]));
    } else {
      RowIsMade(cfg, before, e, id);
    }
  }

  lemma RowIsUsed(cfg: Config, h: seq<Event>, e: Event, id: string, since: Time)
    requires HasRow(cfg, h, id, since) && e.op == Refresh(id) && e.now <= since + cfg.duration
    ensures HasRow(cfg, h + [e], id, e.now)
  {
    RunExtends(cfg, h, e);
  }

  lemma RowIsMade(cfg: Config, h: seq<Event>, e: Event, id: string)
    requires Fresh(h + [e]) && e.op == Insert(id)
    ensures HasRow(cfg, h + [e], id, e.now)
  {
    NotYetInserted(cfg, h, e);
    RunExtends(cfg, h, e);
  }

  lemma RowSurvives(cfg: Config, h: seq<Event>, e: Event, id: string, since: Time)
    requires HasRow(cfg, h, id, since) && since <= e.now
    requires !e.op.Reap? && !Kills(e.op, id)
    ensures HasRow(cfg, h + [e], id, since)
  {
    RunExtends(cfg, h, e);
  }

  lemma RowAcceptsIff(cfg: Config, h: seq<Event>, id: string, now: Time)
    requires Monotone(h) && Fresh(h) && ReapFree(h)
    ensures RowAccepts(cfg, Run(cfg, h).0, id, now)
            <==> GoodAt(cfg, h, id, now)
  {
    if RowAccepts(cfg, Run(cfg, h).0, id, now) {
      var uses := RowWasKeptUp(cfg, h, id);
      assert KeptUp(cfg, h, id, uses) && now <= LastUse(h, uses) + cfg.duration;
    }
    if uses: seq<nat> :| KeptUp(cfg, h, id, uses) && now <= LastUse(h, uses) + cfg.duration {
      KeptUpHasRow(cfg, h, id, uses);
    }
  }

  lemma PrefixFacts(h: seq<Event>, e: Event)
    requires Monotone(h + [e]) && Fresh(h + [e]) && ReapFree(h + [e])
    ensures Monotone(h) && Fresh(h) && ReapFree(h) && !e.op.Reap?
    ensures forall i: nat :: i < |h| ==> h[i].now <= e.now
  {
    var h' := h + [e];
    assert h'[|h|] == e && forall i: nat :: i < |h| ==> h[i] == h'[i];
  }

  /**
   What a call of `AuthorizedUserWithSession` returns when its update comes after the history `h`, and the events
   `between` come before it looks for the user.
   */
  function CallAnswer(cfg: Config, h: seq<Event>, id: string, now: Time, between: seq<Event>): Outcome {
    var e := Event(now, Refresh(id));
    if |id| == 0 then EmptyId
    else if Apply(cfg, Run(cfg, h).0, e).1 != Refreshed then Unknown
    else if Run(cfg, h + [e] + between).0.user then Accepted
    else UserGone
  }

  lemma CallAtOnce(cfg: Config, h: seq<Event>, id: string, now: Time)
    ensures CallAnswer(cfg, h, id, now, []) == AuthorizeAtOnce(cfg, Run(cfg, h).0, id, now).1
  {
    var e := Event(now, Refresh(id));
    RunExtends(cfg, h, e);
    assert h + [e] + [] == h + [e];
  }

  /**
   What a session id is good for, told from the history alone: in any history, with or without reaping, a call of
   `AuthorizedUserWithSession` is accepted if and only if its session was inserted, had been used since with no gap
   longer than the session duration, the last one up to the call's update included, nothing had ended it, and
   there is a user when the call looks for one.
   */
  lemma AcceptedIff(cfg: Config, h: seq<Event>, id: string, now: Time, between: seq<Event>)
    requires Safe(cfg) && Admissible(cfg, h + [Event(now, Refresh(id))])
    ensures CallAnswer(cfg, h, id, now, between) == Accepted <==>
              && |id| > 0 && GoodAt(cfg, Strip(h), id, now)
              && HasUser(h + [Event(now, Refresh(id))] + between)
  {
    var e := Event(now, Refresh(id));
    AdmissiblePrefix(cfg, h, e);
    ReapingBisimulates(cfg, h);
    StripKeeps(h);
    RowAcceptsIff(cfg, Strip(h), id, now);
    TableHasUser(cfg, h + [e] + between);
    SameAnswer(cfg, h, e);
  }

  /** Whether there was a user at an earlier event, told from who has been created since, if nobody was deleted. */
  lemma {:induction false} UserSince(h: seq<Event>, i: nat)
    requires i <= |h| && HasUser(h)
    requires forall k: nat :: i <= k < |h| ==> !h[k].op.DeleteUser?
    ensures HasUser(h[..i]) <==> forall k: nat :: i <= k < |h| && h[k].op.CreateUser? ==> HasUser(h[..k])
    decreases |h|
  {
    if i == |h| {
      assert h[..i] == h;
    } else {
      var before, n := h[..|h| - 1], |h| - 1;
      assert forall k: nat :: k <= n ==> before[..k] == h[..k];
      assert before[..n] == before;
      if HasUser(before) {
        UserSince(before, i);
      } else {
        NobodySince(before, i);
        assert h[n].op.CreateUser?;
      }
    }
  }

  lemma {:induction false} NobodySince(h: seq<Event>, i: nat)
    requires i <= |h| && !HasUser(h)
    requires forall k: nat :: i <= k < |h| ==> !h[k].op.DeleteUser?
    ensures !HasUser(h[..i])
    decreases |h|
  {
    if i == |h| {
      assert h[..i] == h;
    } else {
      NobodySince(h[..|h| - 1], i);
      assert h[..|h| - 1][..i] == h[..i];
    }
  }

  /**
   When a session that is good belongs to a user of its own time. In any history that has kept it up and has a user
   at the end, there was a user when the session was inserted if and only if nobody was created since without a user
   being there already. The first is what the login could check in the insert's own transaction.
   */
  lemma InsertedForUserIff(cfg: Config, h: seq<Event>, id: string, uses: seq<nat>)
    requires KeptUp(cfg, h, id, uses) && HasUser(h)
    ensures HasUser(h[..uses[0]])
            <==> forall k: nat :: uses[0] <= k < |h| && h[k].op.CreateUser? ==> HasUser(h[..k])
  {
    forall k: nat | uses[0] <= k < |h| ensures !h[k].op.DeleteUser? {
      assert k > uses[0] ==> !Kills(h[k].op, id);
    }
    UserSince(h, uses[0]);
  }

  lemma SameAnswer(cfg: Config, h: seq<Event>, e: Event)
    requires Agree(cfg, h) && Safe(cfg) && e.op.Refresh? && (|h| > 0 ==> LastTime(h) <= e.now)
    ensures Apply(cfg, Run(cfg, h).0, e).1 == Apply(cfg, Run(cfg, Strip(h)).0, e).1
  {
    ApplyKeepsRelated(cfg, Run(cfg, h).0, Run(cfg, Strip(h)).0, if |h| == 0 then e.now else LastTime(h), e);
  }

  /**
   The insert of `CreateSession` does not look for the user again, so a user who is deleted in between leaves a
   session behind, and it is good for the next user.
   */
  lemma SessionForNextUser(cfg: Config)
    requires cfg.duration >= 0
    ensures var login := [Event(0, CreateUser)] + [Event(0, FindUser)];
            var h := login + [Event(0, Op.DeleteUser)] + [Event(0, Insert("s"))] + [Event(0, CreateUser)];
            && Run(cfg, login).1 == [Done] + [Found]
            && CallAnswer(cfg, h, "s", 0, []) == Accepted
  {
    var a, b, c := [Event(0, CreateUser)], Event(0, FindUser), Event(0, Op.DeleteUser);
    var d, f, e := Event(0, Insert("s")), Event(0, CreateUser), Event(0, Refresh("s"));
    RunExtends(cfg, [], Event(0, CreateUser));
    assert [] + a == a;
    RunExtends(cfg, a, b);
    RunExtends(cfg, a + [b], c);
    RunExtends(cfg, a + [b] + [c], d);
    RunExtends(cfg, a + [b] + [c] + [d], f);
    CallAtOnce(cfg, a + [b] + [c] + [d] + [f], "s", 0);
  }

  predicate Precedes(x: Event, e: Event) {
    x.now <= e.now && (x.op.Insert? ==> x.op != e.op)
  }

  lemma AppendKeeps(g: seq<Event>, e: Event)
    requires Monotone(g) && Fresh(g) && ReapFree(g) && !e.op.Reap?
    requires forall x <- g :: Precedes(x, e)
    ensures Monotone(g + [e]) && Fresh(g + [e]) && ReapFree(g + [e])
  {
    forall i: nat | i < |g| ensures Precedes(g[i], e) { assert g[i] in g; }
  }

  /** Stripping keeps the order of times, the freshness of ids, and leaves no reaping. */
  lemma {:induction false} StripKeeps(h: seq<Event>)
    requires Monotone(h) && Fresh(h)
    ensures Monotone(Strip(h)) && Fresh(Strip(h)) && ReapFree(Strip(h))
    ensures forall x <- Strip(h) :: x in h
  {
    if |h| == 0 {
    } else {
      var before, e := h[..|h| - 1], h[|h| - 1];
      assert h == before + [e];
      assert forall i: nat :: i < |before| ==> before[i] == h[i];
      StripKeeps(before);
      var g := Strip(before);
      forall x <- g ensures x in h && Precedes(x, e) {
        var j: nat :| j < |before| && before[j] == x;
        assert h[j] == x && h[|h| - 1] == e;
      }
      if !e.op.Reap? { AppendKeeps(g, e); }
    }
  }
}
