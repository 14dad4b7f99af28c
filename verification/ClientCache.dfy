/**
 The client cache of a Solana chain: any number of threads look a URL up under the read lock, make a client
 outside the lock if it is missing, check its chain id, and look again before they store it. Each access
 to the cache under its lock is one step.
 */
module ClientCache {
  import opened Wrappers

  type Tid = nat

  type Url = string

  /** Clients are told apart by a number; `id` is the chain id the client reports. */
  datatype Client = Client(number: nat, id: string)

  datatype Pc =
    | Idle
    | Missed(url: Url)                   // not in the cache, a client is to be made
    | Checking(url: Url, client: Client, cached: bool)
    | Storing(url: Url, client: Client)  // the check passed, the lock is next

  /** A successful return. */
  datatype Reply = Reply(t: Tid, url: Url, client: Client)

  /** `made` counts the clients made; `returned` are the successful returns so far. */
  datatype Sys = Sys(cache: map<Url, Client>, made: nat, pcs: map<Tid, Pc>, returned: seq<Reply>)
  {
    function At(t: Tid): Pc {
      if t in pcs then pcs[t] else Idle
    }

    function Goto(t: Tid, pc: Pc): Sys {
      this.(pcs := pcs[t := pc])
    }

    function Return(t: Tid, url: Url, client: Client): Sys {
      this.(returned := returned + [Reply(t, url, client)]).Goto(t, Idle)
    }
  }

  const INITIAL := Sys(map[], 0, map[], [])

  ghost predicate LookStep(s: Sys, t: Tid, url: Url, s': Sys) {
    && s.At(t).Idle?
    && s' == s.Goto(t, if url in s.cache then Checking(url, s.cache[url], true) else Missed(url))
  }

  /** Making the client, or asking it for its chain id, can fail; the chain id can be anything. */
  ghost predicate MakeStep(s: Sys, t: Tid, id: string, s': Sys) {
    && s.At(t).Missed?
    && (|| s' == s.Goto(t, Idle)
        || s' == s.(made := s.made + 1).Goto(t, Checking(s.At(t).url, Client(s.made, id), false)))
  }

  predicate CheckStep(expected: string, s: Sys, t: Tid, s': Sys) {
    match s.At(t)
    case Checking(url, client, cached) =>
      s' == if client.id != expected then s.Goto(t, Idle)
            else if cached then s.Return(t, url, client)
            else s.Goto(t, Storing(url, client))
    case Storing(url, client) =>
      s' == if url !in s.cache then s.(cache := s.cache[url := client]).Return(t, url, client)
            else s.Return(t, url, s.cache[url])
    case _ => false
  }

  ghost predicate Step(expected: string, s: Sys, t: Tid, s': Sys) {
    || (exists url: Url :: LookStep(s, t, url, s'))
    || (exists id: string :: MakeStep(s, t, id, s'))
    || CheckStep(expected, s, t, s')
  }

  ghost predicate Next(expected: string, s: Sys, s': Sys) {
    exists t: Tid :: Step(expected, s, t, s')
  }

  ghost predicate StepAt(expected: string, run: seq<Sys>, i: nat)
    requires i < |run| - 1
  {
    Next(expected, run[i], run[i + 1])
  }

  ghost predicate IsRun(expected: string, run: seq<Sys>) {
    && |run| > 0
    && run[0] == INITIAL
    && forall i: nat :: i < |run| - 1 ==> StepAt(expected, run, i)
  }

  predicate Cached(s: Sys, url: Url, client: Client) {
    url in s.cache && s.cache[url] == client
  }

  predicate LocalOk(expected: string, s: Sys, t: Tid) {
    match s.At(t)
    case Checking(url, client, cached) => cached ==> Cached(s, url, client)
    case Storing(_, client) => client.id == expected
    case _ => true
  }

  ghost predicate Inv(expected: string, s: Sys) {
    && (forall url <- s.cache :: s.cache[url].id == expected)
    && (forall r <- s.returned :: Cached(s, r.url, r.client))
    && (forall t: Tid :: LocalOk(expected, s, t))
  }

  lemma StepKeepsLocal(expected: string, s: Sys, t: Tid, s': Sys, u: Tid)
    requires LocalOk(expected, s, t) && LocalOk(expected, s, u) && Step(expected, s, t, s')
    ensures LocalOk(expected, s', u)
  {
  }

  lemma StepKeepsInv(expected: string, s: Sys, t: Tid, s': Sys)
    requires Inv(expected, s) && Step(expected, s, t, s')
    ensures Inv(expected, s')
    ensures forall url <- s.cache :: Cached(s', url, s.cache[url])
    ensures s.returned <= s'.returned
  {
    assert LocalOk(expected, s, t);
    forall u: Tid ensures LocalOk(expected, s', u) {
      assert LocalOk(expected, s, u);
      StepKeepsLocal(expected, s, t, s', u);
    }
  }

  lemma {:induction false} RunKeepsInv(expected: string, run: seq<Sys>, i: nat)
    requires IsRun(expected, run) && i < |run|
    ensures Inv(expected, run[i])
  {
    if i == 0 {
    } else {
      RunKeepsInv(expected, run, i - 1);
      assert StepAt(expected, run, i - 1);
      var t: Tid :| Step(expected, run[i - 1], t, run[i]);
      StepKeepsInv(expected, run[i - 1], t, run[i]);
    }
  }

  lemma {:induction false} EntriesStay(expected: string, run: seq<Sys>, i: nat, j: nat, url: Url)
    requires IsRun(expected, run) && i <= j < |run| && url in run[i].cache
    ensures Cached(run[j], url, run[i].cache[url])
    decreases j
  {
    if i == j {
    } else {
      EntriesStay(expected, run, i, j - 1, url);
      RunKeepsInv(expected, run, j - 1);
      assert StepAt(expected, run, j - 1);
      var t: Tid :| Step(expected, run[j - 1], t, run[j]);
      StepKeepsInv(expected, run[j - 1], t, run[j]);
    }
  }

  /**
   However the calls interleave, all successful returns for one URL give the same client, at any two times;
   it is the one in the cache, where an entry never changes once written, and it has the expected chain id.
   */
  lemma OneClientPerUrl(expected: string, run: seq<Sys>, i: nat, j: nat, p: nat, q: nat)
    requires IsRun(expected, run) && i <= j < |run|
    requires p < |run[i].returned| && q < |run[j].returned|
    ensures var Reply(_, url, client) := run[i].returned[p];
            && client.id == expected
            && Cached(run[i], url, client) && Cached(run[j], url, client)
            && (run[j].returned[q].url == url ==> run[j].returned[q].client == client)
  {
    RunKeepsInv(expected, run, i);
    RunKeepsInv(expected, run, j);
    var r, r' := run[i].returned[p], run[j].returned[q];
    assert r in run[i].returned && r' in run[j].returned;
    EntriesStay(expected, run, i, j, r.url);
  }

  // ----- which calls succeed -----

  /** Thread `t` goes from a call at `i` to being idle at `j`. */
  predicate Finishes(run: seq<Sys>, i: nat, j: nat, t: Tid) {
    && i < j < |run|
    && run[j].At(t).Idle?
    && forall k: nat :: i <= k < j ==> !run[k].At(t).Idle?
  }

  /** Between `i` and `j` thread `t` has returned a client for `url`. */
  ghost predicate Replied(run: seq<Sys>, i: nat, j: nat, t: Tid, url: Url)
    requires i < |run| && j < |run|
  {
    exists p: nat ::
      |run[i].returned| <= p < |run[j].returned| && run[j].returned[p].t == t && run[j].returned[p].url == url
  }

  ghost predicate RepliedAtAll(run: seq<Sys>, i: nat, j: nat, t: Tid)
    requires i < |run| && j < |run|
  {
    exists p: nat :: |run[i].returned| <= p < |run[j].returned| && run[j].returned[p].t == t
  }

  /** One step, seen from thread `t`: it makes the step, or stays where it is and returns nothing. */
  lemma ThreadMoves(expected: string, run: seq<Sys>, k: nat, t: Tid)
    requires IsRun(expected, run) && k + 1 < |run|
    ensures run[k].returned <= run[k + 1].returned
    ensures || Step(expected, run[k], t, run[k + 1])
            || (run[k + 1].At(t) == run[k].At(t) && !RepliedAtAll(run, k, k + 1, t))
  {
    assert StepAt(expected, run, k);
    var u: Tid :| Step(expected, run[k], u, run[k + 1]);
  }

  lemma {:induction false} RepliesGrow(expected: string, run: seq<Sys>, i: nat, j: nat)
    requires IsRun(expected, run) && i <= j < |run|
    ensures run[i].returned <= run[j].returned
    decreases j
  {
    if i == j {
    } else {
      RepliesGrow(expected, run, i, j - 1);
      ThreadMoves(expected, run, j - 1, 0);
    }
  }

  /** What is returned in the first step of a stretch, or in the rest of it. */
  lemma RepliedSplit(expected: string, run: seq<Sys>, i: nat, j: nat, t: Tid, url: Url)
    requires IsRun(expected, run) && i < j < |run|
    ensures Replied(run, i, j, t, url) <==> Replied(run, i, i + 1, t, url) || Replied(run, i + 1, j, t, url)
    ensures RepliedAtAll(run, i, j, t) <==> RepliedAtAll(run, i, i + 1, t) || RepliedAtAll(run, i + 1, j, t)
  {
    RepliesGrow(expected, run, i, i + 1);
    RepliesGrow(expected, run, i + 1, j);
    var a, b, c := run[i].returned, run[i + 1].returned, run[j].returned;
    assert forall p: nat :: p < |b| ==> b[p] == c[p];
  }

  lemma {:induction false} StoringReplies(expected: string, run: seq<Sys>, i: nat, j: nat, t: Tid)
    requires IsRun(expected, run) && Finishes(run, i, j, t) && run[i].At(t).Storing?
    ensures Replied(run, i, j, t, run[i].At(t).url)
    decreases j - i
  {
    ThreadMoves(expected, run, i, t);
    RepliedSplit(expected, run, i, j, t, run[i].At(t).url);
    if run[i + 1].At(t) == run[i].At(t) {
      StoringReplies(expected, run, i + 1, j, t);
    } else {
      var p := |run[i].returned|;
      assert run[i + 1].returned[p].t == t && run[i + 1].returned[p].url == run[i].At(t).url;
    }
  }

  /**
   A call that has got a client, from the cache or its own, returns one for its URL if and only if the chain id of
   that client is the expected one.
   */
  lemma {:induction false} ReturnsIff(expected: string, run: seq<Sys>, i: nat, j: nat, t: Tid)
    requires IsRun(expected, run) && Finishes(run, i, j, t) && run[i].At(t).Checking?
    ensures run[i].At(t).client.id == expected ==> Replied(run, i, j, t, run[i].At(t).url)
    ensures run[i].At(t).client.id != expected ==> !RepliedAtAll(run, i, j, t)
    decreases j - i
  {
    ThreadMoves(expected, run, i, t);
    RepliedSplit(expected, run, i, j, t, run[i].At(t).url);
    if run[i + 1].At(t) == run[i].At(t) {
      ReturnsIff(expected, run, i + 1, j, t);
    } else if run[i + 1].At(t).Storing? {
      StoringReplies(expected, run, i + 1, j, t);
    } else if run[i].At(t).client.id == expected {
      var p := |run[i].returned|;
      assert run[i + 1].returned[p].t == t && run[i + 1].returned[p].url == run[i].At(t).url;
    }
  }

  /** A call takes the client from the cache if and only if there is one for its URL when it looks. */
  lemma LooksUp(expected: string, run: seq<Sys>, i: nat, t: Tid)
    requires IsRun(expected, run) && i + 1 < |run| && run[i].At(t).Idle? && !run[i + 1].At(t).Idle?
    ensures match run[i + 1].At(t)
            case Missed(url) => url !in run[i].cache
            case Checking(url, client, cached) => cached && Cached(run[i], url, client)
            case _ => false
  {
    ThreadMoves(expected, run, i, t);
  }

  lemma RunExtends(expected: string, run: seq<Sys>, t: Tid, s: Sys)
    requires IsRun(expected, run) && Step(expected, run[|run| - 1], t, s)
    ensures IsRun(expected, run + [s])
  {
    var run' := run + [s];
    forall i: nat | i < |run'| - 1 ensures StepAt(expected, run', i) {
      if i < |run| - 1 { assert StepAt(expected, run, i); }
    }
  }

  /** Thread `t` finds nothing in the cache. */
  lemma Misses(expected: string, run: seq<Sys>, t: Tid, url: Url) returns (run': seq<Sys>)
    requires IsRun(expected, run) && run[|run| - 1].At(t).Idle? && url !in run[|run| - 1].cache
    ensures IsRun(expected, run') && run <= run' && run'[|run'| - 1] == run[|run| - 1].Goto(t, Missed(url))
  {
    var s := run[|run| - 1].Goto(t, Missed(url));
    assert LookStep(run[|run| - 1], t, url, s);
    RunExtends(expected, run, t, s);
    run' := run + [s];
  }

  /** Then it makes a client with the expected chain id. */
  lemma Makes(expected: string, run: seq<Sys>, t: Tid, url: Url) returns (run': seq<Sys>)
    requires IsRun(expected, run) && run[|run| - 1].At(t) == Missed(url)
    ensures var s := run[|run| - 1];
            && IsRun(expected, run') && run <= run'
            && run'[|run'| - 1] ==
               s.(made := s.made + 1, pcs := s.pcs[t := Storing(url, Client(s.made, expected))])
  {
    var s := run[|run| - 1];
    var client := Client(s.made, expected);
    var a := s.(made := s.made + 1).Goto(t, Checking(url, client, false));
    assert MakeStep(s, t, expected, a);
    RunExtends(expected, run, t, a);
    var b := a.Goto(t, Storing(url, client));
    assert CheckStep(expected, a, t, b);
    RunExtends(expected, run + [a], t, b);
    assert a.pcs[t := Storing(url, client)] == s.pcs[t := Storing(url, client)];
    run' := run + [a] + [b];
  }

  /** The race happens: two calls make a client each, and the one that is late returns the other's. */
  lemma RaceIsSettled(expected: string, url: Url) returns (run: seq<Sys>)
    ensures IsRun(expected, run)
    ensures var s, client := run[|run| - 1], Client(0, expected);
            && s.made == 2 && s.cache == map[url := client]
            && s.returned == [Reply(0, url, client), Reply(1, url, client)]
  {
    run := Misses(expected, [INITIAL], 0, url);
    run := Misses(expected, run, 1, url);
    run := Makes(expected, run, 0, url);
    run := Makes(expected, run, 1, url);
    var s := run[|run| - 1];
    var a := s.(cache := s.cache[url := Client(0, expected)]).Return(0, url, Client(0, expected));
    assert CheckStep(expected, s, 0, a);
    RunExtends(expected, run, 0, a);
    var b := a.Return(1, url, Client(0, expected));
    assert CheckStep(expected, a, 1, b);
    RunExtends(expected, run + [a], 1, b);
    run := run + [a] + [b];
  }

  // ----- choosing a node -----

  datatype Error = NodesFailed | NoNodes | NoValidNode

  predicate Occurs(index: seq<nat>, i: nat) {
    exists k: nat :: k < |index| && index[k] == i
  }

  /** `index` lists every number below `n` and nothing else, with no room for one twice. */
  predicate IsPermutation(index: seq<nat>, n: nat) {
    && |index| == n
    && (forall k: nat :: k < n ==> index[k] < n)
    && (forall i: nat :: i < n ==> Occurs(index, i))
  }

  /**
   Tries the nodes in the order of `index`, which is a permutation; `verified` is what `verifiedClient` gives
   for each, if the nodes can be queried at all. Succeeds if and only if some node verifies, with the first of
   them in that order.
   */
  method GetClient(nodes: Option<seq<Option<Client>>>, index: seq<nat>) returns (r: Result<Client, Error>)
    requires nodes.Some? ==> IsPermutation(index, |nodes.value|)
    ensures r.Ok? <==> nodes.Some? && exists i: nat :: i < |nodes.value| && nodes.value[i].Some?
    ensures r.Ok? ==> exists k: nat :: k < |index| && nodes.value[index[k]] == Some(r.value) &&
                        forall j: nat :: j < k ==> nodes.value[index[j]].None?
    ensures r == Err(NodesFailed) <==> nodes.None?
    ensures r == Err(NoNodes) <==> nodes == Some([])
  {
    if nodes.None? {
      return Err(NodesFailed);
    }
    var verified := nodes.value;
    if |verified| == 0 {
      return Err(NoNodes);
    }
    var client: Option<Client> := None;
    for k := 0 to |index|
      invariant client.None? && forall j: nat :: j < k ==> verified[index[j]].None?
    {
      client := verified[index[k]];
      if client.None? {
        continue;
      }
      break;
    }
    if client.None? {
      forall i: nat | i < |verified| ensures verified[i].None? {
        assert Occurs(index, i);
      }
      return Err(NoValidNode);
    }
    r := Ok(client.value);
  }
}
