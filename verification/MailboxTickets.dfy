/** The notification channel of a mailbox, with consumers that retrieve once for each notification they take. */
module MailboxTickets {
  import opened Wrappers
  import opened Mailboxes

  /** `holding` are the consumers that took a notification and have not made their one `Retrieve` yet. */
  datatype Sys = Sys(box: Box<int>, holding: set<nat>, empty: bool)

  const INITIAL := Sys(Box([], false), {}, false)

  datatype Act = Produce(x: int) | Take(c: nat) | Fetch(c: nat)

  predicate Enabled(k: nat, s: Sys, a: Act) {
    match a
    case Produce(_) => true
    case Take(c) => c < k && c !in s.holding && s.box.notify
    case Fetch(c) => c in s.holding
  }

  /** `empty` is set by a `Retrieve` that finds nothing although it follows a notification. */
  function Do(capacity: nat, s: Sys, a: Act): Sys {
    match a
    case Produce(x) => s.(box := DeliverTo(capacity, s.box, x).0)
    case Take(c) => s.(box := s.box.(notify := false), holding := s.holding + {c})
    case Fetch(c) =>
      var (b, x) := RetrieveFrom(s.box);
      Sys(b, s.holding - {c}, s.empty || x.None?)
  }

  function Exec(capacity: nat, acts: seq<Act>): Sys {
    if |acts| == 0 then INITIAL else Do(capacity, Exec(capacity, acts[..|acts| - 1]), acts[|acts| - 1])
  }

  /** Each act of the schedule is possible when it is made, with consumers 0 to k - 1. */
  predicate Possible(capacity: nat, k: nat, acts: seq<Act>) {
    |acts| == 0 ||
    (Possible(capacity, k, acts[..|acts| - 1]) && Enabled(k, Exec(capacity, acts[..|acts| - 1]), acts[|acts| - 1]))
  }

  lemma Append(capacity: nat, k: nat, acts: seq<Act>, a: Act)
    requires Possible(capacity, k, acts) && Enabled(k, Exec(capacity, acts), a)
    ensures Possible(capacity, k, acts + [a]) && Exec(capacity, acts + [a]) == Do(capacity, Exec(capacity, acts), a)
  {
    assert (acts + [a])[..|acts|] == acts;
  }

  function Below(k: nat): (s: set<nat>)
    ensures |s| == k
    ensures forall c: nat :: c in s <==> c < k
  {
    if k == 0 then {} else Below(k - 1) + {k - 1}
  }

  lemma AtMost(s: set<nat>, k: nat)
    requires forall c: nat :: c in s ==> c < k
    ensures |s| <= k
  {
    assert s <= Below(k);
    Subset(s, Below(k));
  }

  lemma Subset(a: set<nat>, b: set<nat>)
    requires a <= b
    ensures |a| <= |b|
  {
    assert |b - a| == |b| - |a|;
  }

  /** Every outstanding notification, taken or not, is covered by an item in the queue. */
  predicate Covered(k: nat, s: Sys) {
    && !s.empty
    && (forall c <- s.holding :: c < k)
    && (if s.box.notify then 1 else 0) + |s.holding| <= |s.box.queue|
  }

  lemma DoKeepsCovered(capacity: nat, k: nat, s: Sys, a: Act)
    requires (capacity == 0 || capacity > k) && Covered(k, s) && Enabled(k, s, a)
    ensures Covered(k, Do(capacity, s, a))
  {
    AtMost(s.holding, k);
    if a.Fetch? { assert |s.holding - {a.c}| == |s.holding| - 1; }
  }

  lemma {:induction false} NeverEmpty(capacity: nat, k: nat, acts: seq<Act>)
    requires (capacity == 0 || capacity > k) && Possible(capacity, k, acts)
    ensures Covered(k, Exec(capacity, acts))
  {
    if |acts| == 0 {
    } else {
      NeverEmpty(capacity, k, acts[..|acts| - 1]);
      DoKeepsCovered(capacity, k, Exec(capacity, acts[..|acts| - 1]), acts[|acts| - 1]);
    }
  }

  /** Each of the first `n` consumers takes a notification and dawdles. */
  lemma Filled(capacity: nat, k: nat, n: nat) returns (acts: seq<Act>)
    requires n <= capacity <= k
    ensures Possible(capacity, k, acts)
    ensures var s := Exec(capacity, acts); s.holding == Below(n) && |s.box.queue| == n && !s.box.notify
  {
    acts := [];
    for i := 0 to n
      invariant Possible(capacity, k, acts)
      invariant var s := Exec(capacity, acts); s.holding == Below(i) && |s.box.queue| == i && !s.box.notify
    {
      Append(capacity, k, acts, Produce(0));
      acts := acts + [Produce(0)];
      Append(capacity, k, acts, Take(i));
      acts := acts + [Take(i)];
    }
  }

  /** They all fetch, with one more notification in the slot. */
  lemma Emptied(capacity: nat, k: nat) returns (acts: seq<Act>)
    requires 0 < capacity <= k
    ensures Possible(capacity, k, acts)
    ensures var s := Exec(capacity, acts); s.holding == {} && s.box.queue == [] && s.box.notify
  {
    acts := Filled(capacity, k, capacity);
    Append(capacity, k, acts, Produce(0));
    acts := acts + [Produce(0)];
    var n := capacity;
    while n > 0
      invariant n <= capacity && Possible(capacity, k, acts)
      invariant var s := Exec(capacity, acts); s.holding == Below(n) && |s.box.queue| == n && s.box.notify
    {
      n := n - 1;
      Append(capacity, k, acts, Fetch(n));
      acts := acts + [Fetch(n)];
    }
  }

  /**
   The note on `capacity` says that with capacity 1 an empty `Retrieve` may follow a notification. In
   general, with `k` consumers that retrieve once for each notification they take, an empty `Retrieve`
   can happen if and only if the capacity is limited and at most `k`.
   */
  lemma EmptyRetrieveIff(capacity: nat, k: nat)
    ensures (exists acts: seq<Act> :: Possible(capacity, k, acts) && Exec(capacity, acts).empty)
            <==> 0 < capacity <= k
  {
    if 0 < capacity <= k {
      var acts := Emptied(capacity, k);
      Append(capacity, k, acts, Take(0));
      Append(capacity, k, acts + [Take(0)], Fetch(0));
      assert Possible(capacity, k, acts + [Take(0)] + [Fetch(0)]);
      assert Exec(capacity, acts + [Take(0)] + [Fetch(0)]).empty;
    } else {
      forall acts: seq<Act> | Possible(capacity, k, acts) ensures !Exec(capacity, acts).empty {
        NeverEmpty(capacity, k, acts);
      }
    }
  }
}
