/**
 `Mailbox`: a queue, newest first, that drops its oldest item when it is over capacity, and a
 notification channel with one slot.
 */
module Mailboxes {
  import opened Wrappers

  /** `notify` says that the slot of the notification channel is full. */
  datatype Box<T> = Box(queue: seq<T>, notify: bool)

  function DeliverTo<T>(capacity: nat, b: Box<T>, x: T): (Box<T>, bool) {
    var q := [x] + b.queue;
    if |q| > capacity && capacity > 0 then (Box(q[..|q| - 1], true), true) else (Box(q, true), false)
  }

  function RetrieveFrom<T>(b: Box<T>): (Box<T>, Option<T>) {
    if |b.queue| == 0 then (b, None) else (b.(queue := b.queue[..|b.queue| - 1]), Some(b.queue[|b.queue| - 1]))
  }

  function LatestFrom<T>(b: Box<T>): (Box<T>, Option<T>) {
    if |b.queue| == 0 then (b, None) else (b.(queue := []), Some(b.queue[0]))
  }

  class Mailbox<T> {
    /** 0 means no limit. */
    const capacity: nat
    var queue: seq<T>
    var notify: bool

    function View(): Box<T>
      reads this
    {
      Box(queue, notify)
    }

    constructor (capacity: nat)
      ensures this.capacity == capacity && View() == Box([], false)
    {
      this.capacity := capacity;
      queue, notify := [], false;
    }

    /** The slot of the channel is full afterwards, with or without a limit; only an item too many drops the oldest. */
    method Deliver(x: T) returns (wasOverCapacity: bool)
      modifies this
      ensures notify
      ensures wasOverCapacity <==> 0 < capacity <= old(|queue|)
      ensures wasOverCapacity ==> queue + [old(queue[|queue| - 1])] == [x] + old(queue)
      ensures !wasOverCapacity ==> queue == [x] + old(queue)
      ensures (View(), wasOverCapacity) == DeliverTo(capacity, old(View()), x)
    {
      wasOverCapacity := false;
      queue := [x] + queue;
      if |queue| > capacity && capacity > 0 {
        queue := queue[..|queue| - 1];
        wasOverCapacity := true;
      }
      notify := true;
    }

    method Retrieve() returns (t: Option<T>)
      modifies this`queue
      ensures t.None? <==> old(queue) == []
      ensures t.None? ==> queue == []
      ensures t.Some? ==> old(queue) == queue + [t.value]
      ensures (View(), t) == RetrieveFrom(old(View()))
    {
      if |queue| == 0 {
        return None;
      }
      t := Some(queue[|queue| - 1]);
      queue := queue[..|queue| - 1];
    }

    method RetrieveLatestAndClear() returns (t: Option<T>)
      modifies this`queue
      ensures t.None? <==> old(queue) == []
      ensures t.Some? ==> t.value == old(queue)[0]
      ensures queue == []
      ensures (View(), t) == LatestFrom(old(View()))
    {
      if |queue| == 0 {
        return None;
      }
      t := Some(queue[0]);
      queue := [];
    }
  }

  // ----- histories -----

  datatype Call<T> = Deliver(x: T) | Retrieve | RetrieveLatestAndClear

  /** What became of a delivered item that has left the queue. */
  datatype Fate = Retrieved | Dropped | Cleared | Latest

  /** `returned` and `latest` are what the two retrievals gave; `overflows` counts the reports of `Deliver`. */
  datatype History<T> = History(
    box: Box<T>,
    delivered: seq<T>,
    fates: seq<Fate>,
    returned: seq<T>,
    latest: seq<T>,
    overflows: nat)

  function Repeat<A>(a: A, n: nat): seq<A> {
    seq(n, _ => a)
  }

  function Record<T>(capacity: nat, h: History<T>, c: Call<T>): History<T> {
    match c
    case Deliver(x) =>
      var (b, over) := DeliverTo(capacity, h.box, x);
      var h' := h.(box := b, delivered := h.delivered + [x]);
      if over then h'.(fates := h.fates + [Dropped], overflows := h.overflows + 1) else h'
    case Retrieve =>
      var (b, t) := RetrieveFrom(h.box);
      if t.Some? then h.(box := b, fates := h.fates + [Retrieved], returned := h.returned + [t.value]) else h
    case RetrieveLatestAndClear =>
      var (b, t) := LatestFrom(h.box);
      if t.Some? then
        h.(box := b, fates := h.fates + Repeat(Cleared, |h.box.queue| - 1) + [Latest], latest := h.latest + [t.value])
      else h
  }

  /** The history of a mailbox after any sequence of calls. */
  function Run<T>(capacity: nat, calls: seq<Call<T>>): History<T> {
    if |calls| == 0 then History(Box([], false), [], [], [], [], 0)
    else Record(capacity, Run(capacity, calls[..|calls| - 1]), calls[|calls| - 1])
  }

  /** The delivered items with a given fate, in delivery order. */
  function Having<T>(delivered: seq<T>, fates: seq<Fate>, fate: Fate): seq<T>
    requires |fates| <= |delivered|
  {
    if |fates| == 0 then []
    else
      var n := |fates| - 1;
      Having(delivered, fates[..n], fate) + if fates[n] == fate then [delivered[n]] else []
  }

  /** The queue is the reverse of what was delivered and has not left. */
  predicate HoldsSuffix<T(==)>(h: History<T>) {
    && |h.delivered| == |h.fates| + |h.box.queue|
    && forall k: nat :: k < |h.box.queue| ==> h.box.queue[k] == h.delivered[|h.delivered| - 1 - k]
  }

  predicate Accounted<T(==)>(h: History<T>) {
    && HoldsSuffix(h)
    && h.returned == Having(h.delivered, h.fates, Retrieved)
    && h.latest == Having(h.delivered, h.fates, Latest)
    && h.overflows == |Having(h.delivered, h.fates, Dropped)|
  }

  lemma HavingExtends<T>(delivered: seq<T>, x: T, fates: seq<Fate>, fate: Fate)
    requires |fates| <= |delivered|
    ensures Having(delivered + [x], fates, fate) == Having(delivered, fates, fate)
  {
    if |fates| == 0 {
    } else {
      HavingExtends(delivered, x, fates[..|fates| - 1], fate);
    }
  }

  lemma HavingOneMore<T>(delivered: seq<T>, fates: seq<Fate>, one: Fate, fate: Fate)
    requires |fates| < |delivered|
    ensures Having(delivered, fates + [one], fate)
         == Having(delivered, fates, fate) + if one == fate then [delivered[|fates|]] else []
  {
    assert (fates + [one])[..|fates|] == fates;
  }

  lemma {:induction n} HavingCleared<T>(delivered: seq<T>, fates: seq<Fate>, n: nat, fate: Fate)
    requires |fates| + n <= |delivered| && fate != Cleared
    ensures Having(delivered, fates + Repeat(Cleared, n), fate) == Having(delivered, fates, fate)
  {
    if n > 0 {
      HavingCleared(delivered, fates, n - 1, fate);
      assert fates + Repeat(Cleared, n) == fates + Repeat(Cleared, n - 1) + [Cleared];
      HavingOneMore(delivered, fates + Repeat(Cleared, n - 1), Cleared, fate);
    } else {
      assert fates + Repeat(Cleared, 0) == fates;
    }
  }

  lemma DeliverKeeps<T>(capacity: nat, h: History<T>, x: T)
    requires Accounted(h) && (capacity > 0 ==> |h.box.queue| <= capacity)
    ensures Accounted(Record(capacity, h, Deliver(x)))
  {
    var h' := Record(capacity, h, Deliver(x));
    forall fate: Fate
      ensures Having(h'.delivered, h.fates, fate) == Having(h.delivered, h.fates, fate)
      ensures Having(h'.delivered, h.fates + [Dropped], fate)
           == Having(h.delivered, h.fates, fate) + if fate == Dropped then [h'.delivered[|h.fates|]] else []
    {
      HavingExtends(h.delivered, x, h.fates, fate);
      HavingOneMore(h'.delivered, h.fates, Dropped, fate);
    }
  }

  lemma RetrieveKeeps<T>(capacity: nat, h: History<T>)
    requires Accounted(h)
    ensures Accounted(Record(capacity, h, Retrieve))
  {
    if |h.box.queue| > 0 {
      forall fate: Fate
        ensures Having(h.delivered, h.fates + [Retrieved], fate)
             == Having(h.delivered, h.fates, fate) + if fate == Retrieved then [h.delivered[|h.fates|]] else []
      {
        HavingOneMore(h.delivered, h.fates, Retrieved, fate);
      }
    }
  }

  lemma LatestKeeps<T>(capacity: nat, h: History<T>)
    requires Accounted(h)
    ensures Accounted(Record(capacity, h, RetrieveLatestAndClear))
  {
    if |h.box.queue| > 0 {
      var n := |h.box.queue| - 1;
      var cleared := h.fates + Repeat(Cleared, n);
      forall fate: Fate | fate != Cleared
        ensures Having(h.delivered, cleared + [Latest], fate)
             == Having(h.delivered, h.fates, fate) + if fate == Latest then [h.box.queue[0]] else []
      {
        HavingCleared(h.delivered, h.fates, n, fate);
        HavingOneMore(h.delivered, cleared, Latest, fate);
      }
    }
  }

  /**
   After any sequence of calls the mailbox holds the reverse of a suffix of everything delivered, of at
   most `capacity` items; what `Retrieve` returned is exactly the delivered items with that fate, in
   delivery order, and likewise for the other retrieval; `Deliver` reported an overflow once per dropped
   item; and every delivered item is held or has met one of the four fates.
   */
  lemma {:induction false} MailboxHistory<T>(capacity: nat, calls: seq<Call<T>>)
    ensures var h := Run(capacity, calls);
            && HoldsSuffix(h)
            && (capacity > 0 ==> |h.box.queue| <= capacity)
            && h.returned == Having(h.delivered, h.fates, Retrieved)
            && h.latest == Having(h.delivered, h.fates, Latest)
            && h.overflows == |Having(h.delivered, h.fates, Dropped)|
            && |h.delivered| == |h.returned| + |h.latest| + h.overflows
                              + |Having(h.delivered, h.fates, Cleared)| + |h.box.queue|
  {
    if |calls| == 0 {
    } else {
      var before := calls[..|calls| - 1];
      MailboxHistory(capacity, before);
      var h := Run(capacity, before);
      match calls[|calls| - 1] {
        case Deliver(x) => DeliverKeeps(capacity, h, x);
        case Retrieve => RetrieveKeeps(capacity, h);
        case RetrieveLatestAndClear => LatestKeeps(capacity, h);
      }
    }
    var h := Run(capacity, calls);
    FatesPartition(h.delivered, h.fates);
  }

  lemma FatesPartition<T>(delivered: seq<T>, fates: seq<Fate>)
    requires |fates| <= |delivered|
    ensures |fates| == |Having(delivered, fates, Retrieved)| + |Having(delivered, fates, Latest)|
                     + |Having(delivered, fates, Dropped)| + |Having(delivered, fates, Cleared)|
  {
    if |fates| == 0 {
    } else {
      FatesPartition(delivered, fates[..|fates| - 1]);
    }
  }
}
