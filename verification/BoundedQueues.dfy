/** `BoundedQueue` and `BoundedPriorityQueue`: objects that share sub-queues by reference. */
module BoundedQueues {
  import opened Wrappers

  /** The last `n` elements, or all if there are fewer. */
  function Newest<T>(s: seq<T>, n: nat): (r: seq<T>)
    ensures |r| == if |s| > n then n else |s|
    ensures forall i: nat :: i < |r| ==> r[i] == s[|s| - |r| + i]
  {
    if |s| > n then s[|s| - n..] else s
  }

  class BoundedQueue<T> {
    const capacity: int
    var items: seq<T>

    constructor (capacity: int)
      ensures this.capacity == capacity && items == []
    {
      this.capacity := capacity;
      items := [];
    }

    /** With a negative capacity the slice expression is out of range, and panics. */
    method Add(x: T) returns (panicked: bool)
      modifies this`items
      ensures panicked <==> capacity < 0
      ensures !panicked ==> items == Newest(old(items) + [x], capacity)
      ensures panicked ==> items == old(items) + [x]
    {
      items := items + [x];
      if |items| > capacity {
        var excess := |items| - capacity;
        if excess > |items| {
          return true;
        }
        items := items[excess..];
      }
      panicked := false;
    }

    method Take() returns (t: Option<T>)
      modifies this`items
      ensures old(items) == [] ==> t.None? && items == []
      ensures old(items) != [] ==> t == Some(old(items)[0]) && items == old(items)[1..]
    {
      if |items| == 0 {
        return None;
      }
      t := Some(items[0]);
      items := items[1..];
    }

    predicate Empty()
      reads this
    {
      |items| == 0
    }
  }

  predicate Ascending(s: seq<nat>) {
    forall i: nat, j: nat :: i < j < |s| ==> s[i] < s[j]
  }

  /** Puts `p` into its place in an ascending sequence that does not have it. */
  method Insert(s: seq<nat>, p: nat) returns (r: seq<nat>)
    requires Ascending(s) && p !in s
    ensures Ascending(r) && forall x :: x in r <==> x in s || x == p
  {
    var i := 0;
    while i < |s| && s[i] < p
      invariant i <= |s|
      invariant forall j: nat :: j < i ==> s[j] < p
    {
      i := i + 1;
    }
    r := s[..i] + [p] + s[i..];
    assert forall x :: x in s <==> x in s[..i] || x in s[i..];
  }

  /** What the sub-queues hold, by priority. */
  type View<T> = map<nat, seq<T>>

  /** The smallest priority whose sub-queue is not empty. */
  ghost predicate First<T>(v: View<T>, p: nat) {
    p in v && v[p] != [] && forall q <- v :: q < p ==> v[q] == []
  }

  lemma FirstIsUnique<T>(v: View<T>, p: nat, q: nat)
    requires First(v, p) && First(v, q)
    ensures p == q
  {
  }

  /** The priority a `Take` takes from, if it finds anything. */
  ghost function Chosen<T>(v: View<T>): (r: Option<nat>)
    ensures r.Some? ==> First(v, r.value)
  {
    if p: nat :| First(v, p) then Some(p) else None
  }

  lemma ChosenIs<T>(v: View<T>, p: nat)
    requires First(v, p)
    ensures Chosen(v) == Some(p)
  {
    FirstIsUnique(v, p, Chosen(v).value);
  }

  lemma {:induction false} SmallestExists<T>(v: View<T>, p: nat)
    requires p in v && v[p] != []
    ensures Chosen(v).Some?
    decreases p
  {
    if q: nat :| q < p && q in v && v[q] != [] {
      SmallestExists(v, q);
    } else {
      assert First(v, p);
    }
  }

  /** A `Take` finds nothing exactly if every sub-queue is empty. */
  lemma NothingChosenIff<T>(v: View<T>)
    ensures Chosen(v).None? <==> forall p <- v :: v[p] == []
  {
    if p: nat :| p in v && v[p] != [] { SmallestExists(v, p); }
  }

  ghost function TakeFrom<T>(v: View<T>): (View<T>, Option<T>) {
    match Chosen(v)
    case Some(p) => (v[p := v[p][1..]], Some(v[p][0]))
    case None => (v, None)
  }

  /** No sub-queue serves two priorities. */
  ghost predicate Separate<T>(queues: map<nat, BoundedQueue<T>>) {
    forall p: nat, q: nat :: p in queues && q in queues && p != q ==> queues[p] != queues[q]
  }

  /** One empty sub-queue for each priority. */
  method MakeQueues<T>(capacities: map<nat, int>) returns (queues: map<nat, BoundedQueue<T>>)
    ensures queues.Keys == capacities.Keys && Separate(queues)
    ensures forall p <- queues :: fresh(queues[p]) && queues[p].capacity == capacities[p] && queues[p].items == []
  {
    queues := map[];
    var todo := capacities.Keys;
    while todo != {}
      invariant todo <= capacities.Keys && queues.Keys == capacities.Keys - todo && Separate(queues)
      invariant forall p <- queues :: fresh(queues[p]) && queues[p].capacity == capacities[p] && queues[p].items == []
    {
      var p :| p in todo;
      var q := new BoundedQueue<T>(capacities[p]);
      queues := queues[p := q];
      todo := todo - {p};
    }
  }

  /** The priorities come out of the map in any order, and are sorted. */
  method SortedPriorities(keys: set<nat>) returns (priorities: seq<nat>)
    ensures Ascending(priorities) && forall p: nat :: p in priorities <==> p in keys
  {
    priorities := [];
    var todo := keys;
    while todo != {}
      invariant todo <= keys && Ascending(priorities)
      invariant forall p: nat :: p in priorities <==> p in keys - todo
    {
      var p :| p in todo;
      priorities := Insert(priorities, p);
      todo := todo - {p};
    }
  }

  class BoundedPriorityQueue<T> {
    var queues: map<nat, BoundedQueue<T>>
    var priorities: seq<nat>

    ghost predicate Valid()
      reads this
    {
      && Ascending(priorities)
      && (forall p: nat :: p in priorities <==> p in queues)
      && Separate(queues)
    }

    ghost function Contents(): (v: View<T>)
      reads this, queues.Values
    {
      map p <- queues :: queues[p].items
    }

    ghost function Capacities(): map<nat, int>
      reads this
    {
      map p <- queues :: queues[p].capacity
    }

    constructor (capacities: map<nat, int>)
      ensures Valid() && fresh(queues.Values)
      ensures Capacities() == capacities && Contents() == map p <- capacities :: []
    {
      var qs := MakeQueues<T>(capacities);
      var ps := SortedPriorities(capacities.Keys);
      queues, priorities := qs, ps;
    }

    /** An unknown priority panics, and so does a negative capacity. */
    method Add(priority: nat, x: T) returns (panicked: bool)
      requires Valid()
      modifies queues.Values
      ensures Valid() && queues == old(queues) && priorities == old(priorities)
      ensures panicked <==> priority !in queues || Capacities()[priority] < 0
      ensures priority !in queues ==> Contents() == old(Contents())
      ensures panicked && priority in queues ==>
                Contents() == old(Contents())[priority := old(Contents())[priority] + [x]]
      ensures !panicked ==>
                Contents() ==
                old(Contents())[priority := Newest(old(Contents())[priority] + [x], Capacities()[priority])]
    {
      if priority !in queues {
        return true;
      }
      ghost var before := Contents();
      panicked := queues[priority].Add(x);
      assert forall p <- queues :: p != priority ==> queues[p] != queues[priority];
      assert Contents() == before[priority := queues[priority].items];
    }

    /** The oldest item of the smallest priority that has any. */
    method Take() returns (t: Option<T>)
      requires Valid()
      modifies queues.Values
      ensures Valid() && queues == old(queues) && priorities == old(priorities)
      ensures (Contents(), t) == TakeFrom(old(Contents()))
      ensures t.None? <==> forall p <- old(Contents()) :: old(Contents())[p] == []
      ensures t.None? ==> Contents() == old(Contents())
      ensures t.Some? ==> exists p: nat ::
                && First(old(Contents()), p)
                && t == Some(old(Contents())[p][0])
                && Contents() == old(Contents())[p := old(Contents())[p][1..]]
    {
      for i := 0 to |priorities|
        invariant forall j: nat :: j < i ==> queues[priorities[j]].items == []
        invariant Contents() == old(Contents())
      {
        var queue := queues[priorities[i]];
        if queue.Empty() {
          continue;
        }
        ghost var p := priorities[i];
        assert First(old(Contents()), p);
        ChosenIs(old(Contents()), p);
        t := queue.Take();
        assert Contents() == old(Contents())[p := old(Contents())[p][1..]];
        return;
      }
      t := None;
    }

    method Empty() returns (empty: bool)
      requires Valid()
      ensures empty <==> forall p <- Contents() :: Contents()[p] == []
    {
      for i := 0 to |priorities|
        invariant forall j: nat :: j < i ==> queues[priorities[j]].items == []
      {
        if !queues[priorities[i]].Empty() {
          assert priorities[i] in Contents();
          return false;
        }
      }
      empty := true;
    }
  }

  // ----- histories -----

  datatype Call<T> = Add(priority: nat, x: T) | Take

  /**
   The history of one priority: what its sub-queue holds, everything added to it so far, what was returned from it
   and at which positions of `added` that was, and how many items were dropped.
   */
  datatype Line<T> = Line(held: seq<T>, added: seq<T>, returned: seq<T>, taken: seq<nat>, dropped: nat)

  type History<T> = map<nat, Line<T>>

  function AddLine<T>(capacity: nat, l: Line<T>, x: T): Line<T> {
    var all := l.held + [x];
    var kept := Newest(all, capacity);
    l.(held := kept, added := l.added + [x], dropped := l.dropped + (|all| - |kept|))
  }

  function TakeLine<T>(l: Line<T>): Line<T>
    requires l.held != [] && |l.held| <= |l.added|
  {
    l.(held := l.held[1..], returned := l.returned + [l.held[0]], taken := l.taken + [|l.added| - |l.held|])
  }

  function Held<T>(h: History<T>): View<T> {
    map p <- h :: h[p].held
  }

  /** An unknown priority panics before anything changes. */
  ghost function Record<T>(capacities: map<nat, nat>, h: History<T>, c: Call<T>): (r: History<T>)
    requires h.Keys == capacities.Keys && forall p <- h :: |h[p].held| <= |h[p].added|
    ensures r.Keys == capacities.Keys && forall p <- r :: |r[p].held| <= |r[p].added|
  {
    match c
    case Add(p, x) => if p in h then h[p := AddLine(capacities[p], h[p], x)] else h
    case Take =>
      match Chosen(Held(h))
      case Some(p) => h[p := TakeLine(h[p])]
      case None => h
  }

  ghost function Run<T>(capacities: map<nat, nat>, calls: seq<Call<T>>): (h: History<T>)
    ensures h.Keys == capacities.Keys && forall p <- h :: |h[p].held| <= |h[p].added|
  {
    if |calls| == 0 then map p <- capacities :: Line([], [], [], [], 0)
    else Record(capacities, Run(capacities, calls[..|calls| - 1]), calls[|calls| - 1])
  }

  /**
   Histories hold what the methods make of the contents, and what a `Take` of the method returns is what is appended to
   `returned`, under its priority only.
   */
  lemma RecordHolds<T>(capacities: map<nat, nat>, h: History<T>, c: Call<T>)
    requires h.Keys == capacities.Keys && forall p <- h :: |h[p].held| <= |h[p].added|
    ensures c.Take? ==> Held(Record(capacities, h, c)) == TakeFrom(Held(h)).0
    ensures c.Take? && TakeFrom(Held(h)).1.None? ==> Record(capacities, h, c) == h
    ensures c.Take? && TakeFrom(Held(h)).1.Some? ==> exists p: nat ::
              && First(Held(h), p) && p in Record(capacities, h, c)
              && Record(capacities, h, c)[p].returned == h[p].returned + [TakeFrom(Held(h)).1.value]
              && Record(capacities, h, c) == h[p := Record(capacities, h, c)[p]]
    ensures c.Add? && c.priority in h ==>
              && Held(Record(capacities, h, c))
                 == Held(h)[c.priority := Newest(Held(h)[c.priority] + [c.x], capacities[c.priority])]
              && Record(capacities, h, c)[c.priority].returned == h[c.priority].returned
  {
    if c.Take? {
      match Chosen(Held(h))
      case Some(p) => assert First(Held(h), p);
      case None =>
    }
  }

  /** Where in `added` the items begin that came after the last one taken. */
  function Untaken(taken: seq<nat>): nat {
    if |taken| == 0 then 0 else taken[|taken| - 1] + 1
  }

  /** `held` are the newest, at most `capacity`, of the items added from `k` on. */
  predicate HeldFrom<T(==)>(added: seq<T>, k: nat, capacity: nat, held: seq<T>) {
    && k <= |added|
    && |held| == (if |added| - k > capacity then capacity else |added| - k)
    && forall i: nat :: i < |held| ==> held[i] == added[|added| - |held| + i]
  }

  /** What is held is the newest of what was added after the last item taken. */
  predicate HoldsNewest<T(==)>(capacity: nat, l: Line<T>) {
    HeldFrom(l.added, Untaken(l.taken), capacity, l.held)
  }

  lemma HeldIsNewest<T>(added: seq<T>, k: nat, capacity: nat, held: seq<T>)
    requires HeldFrom(added, k, capacity, held)
    ensures held == Newest(added[k..], capacity)
  {
    HeldIsSuffix(added, held);
    if |added| - k > capacity { SliceOfSlice(added, k, |added| - k - capacity); }
  }

  lemma HeldIsSuffix<T>(added: seq<T>, held: seq<T>)
    requires |held| <= |added| && forall i: nat :: i < |held| ==> held[i] == added[|added| - |held| + i]
    ensures held == added[|added| - |held|..]
  {
  }

  lemma SliceOfSlice<T>(s: seq<T>, a: nat, b: nat)
    requires a + b <= |s|
    ensures s[a..][b..] == s[a + b..]
  {
  }

  lemma HeldAfterAdd<T>(added: seq<T>, k: nat, capacity: nat, held: seq<T>, x: T)
    requires HeldFrom(added, k, capacity, held)
    ensures HeldFrom(added + [x], k, capacity, Newest(held + [x], capacity))
  {
    var all := held + [x];
    var r := Newest(all, capacity);
    forall i: nat | i < |r| ensures r[i] == (added + [x])[|added| + 1 - |r| + i] {
      var j := |all| - |r| + i;
      assert r[i] == all[j];
      if j < |held| { assert all[j] == held[j] == added[|added| - |held| + j]; }
    }
  }

  /** Items were returned in the order they were added. */
  predicate ReturnsInOrder<T(==)>(l: Line<T>) {
    && Ascending(l.taken)
    && |l.returned| == |l.taken|
    && forall i: nat :: i < |l.taken| ==> l.taken[i] < |l.added| && l.returned[i] == l.added[l.taken[i]]
  }

  predicate LineOk<T(==)>(capacity: nat, l: Line<T>) {
    && HoldsNewest(capacity, l)
    && ReturnsInOrder(l)
    && |l.added| == |l.returned| + l.dropped + |l.held|
  }

  lemma AddHoldsNewest<T>(capacity: nat, l: Line<T>, x: T)
    requires HoldsNewest(capacity, l)
    ensures HoldsNewest(capacity, AddLine(capacity, l, x))
  {
    HeldAfterAdd(l.added, Untaken(l.taken), capacity, l.held, x);
  }

  /** Adding drops an item exactly if the sub-queue is full. */
  lemma AddKeepsLine<T>(capacity: nat, l: Line<T>, x: T)
    requires LineOk(capacity, l)
    ensures LineOk(capacity, AddLine(capacity, l, x))
    ensures AddLine(capacity, l, x).dropped == l.dropped + if |l.held| == capacity then 1 else 0
  {
    AddHoldsNewest(capacity, l, x);
    assert |l.held| <= capacity;
  }

  lemma TakeHoldsNewest<T>(capacity: nat, l: Line<T>)
    requires HoldsNewest(capacity, l) && l.held != []
    ensures HoldsNewest(capacity, TakeLine(l))
    ensures var at := |l.added| - |l.held|; Untaken(l.taken) <= at && l.held[0] == l.added[at]
  {
  }

  lemma TakeReturnsInOrder<T>(l: Line<T>, at: nat, x: T)
    requires ReturnsInOrder(l) && Untaken(l.taken) <= at < |l.added| && x == l.added[at]
    ensures ReturnsInOrder(l.(taken := l.taken + [at], returned := l.returned + [x]))
  {
    forall i: nat, j: nat | i < j < |l.taken| + 1 ensures (l.taken + [at])[i] < (l.taken + [at])[j] {
      assert j == |l.taken| ==> l.taken[i] <= l.taken[|l.taken| - 1];
    }
  }

  lemma TakeKeepsLine<T>(capacity: nat, l: Line<T>)
    requires LineOk(capacity, l) && l.held != []
    ensures LineOk(capacity, TakeLine(l))
  {
    var at := |l.added| - |l.held|;
    TakeHoldsNewest(capacity, l);
    TakeReturnsInOrder(l, at, l.held[0]);
    assert ReturnsInOrder(TakeLine(l));
  }

  ghost predicate AllLinesOk<T>(capacities: map<nat, nat>, h: History<T>)
    requires h.Keys == capacities.Keys
  {
    forall p <- capacities :: LineOk(capacities[p], h[p])
  }

  lemma RecordKeepsLines<T>(capacities: map<nat, nat>, h: History<T>, c: Call<T>)
    requires h.Keys == capacities.Keys && (forall p <- h :: |h[p].held| <= |h[p].added|) && AllLinesOk(capacities, h)
    ensures AllLinesOk(capacities, Record(capacities, h, c))
  {
    match c
    case Add(p, x) => if p in h { AddKeepsLine(capacities[p], h[p], x); }
    case Take =>
      var p := Chosen(Held(h));
      if p.Some? { TakeKeepsLine(capacities[p.value], h[p.value]); }
  }

  lemma {:induction false} LinesStayOk<T>(capacities: map<nat, nat>, calls: seq<Call<T>>)
    ensures AllLinesOk(capacities, Run(capacities, calls))
  {
    if |calls| == 0 {
    } else {
      LinesStayOk(capacities, calls[..|calls| - 1]);
      RecordKeepsLines(capacities, Run(capacities, calls[..|calls| - 1]), calls[|calls| - 1]);
    }
  }

  /**
   After any calls, under each priority: the sub-queue holds the newest items, at most `capacity` of them, among
   those added after the last one taken; what was taken was returned in the order it was added; and every item
   added was returned, or dropped, or is held.
   */
  lemma QueueHistory<T>(capacities: map<nat, nat>, calls: seq<Call<T>>, p: nat)
    requires p in capacities
    ensures var l := Run(capacities, calls)[p];
            && Untaken(l.taken) <= |l.added|
            && l.held == Newest(l.added[Untaken(l.taken)..], capacities[p])
            && ReturnsInOrder(l)
            && |l.added| == |l.returned| + l.dropped + |l.held|
  {
    LinesStayOk(capacities, calls);
    var l := Run(capacities, calls)[p];
    assert LineOk(capacities[p], l);
    HeldIsNewest(l.added, Untaken(l.taken), capacities[p], l.held);
  }
}
