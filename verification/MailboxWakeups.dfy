/** The notification channel of a mailbox, with consumers that drain the queue after each notification. */
module MailboxWakeups {
  import opened Wrappers
  import opened Mailboxes

  type Tid = nat

  datatype Pc =
    | Idle
    | Delivering(x: int)     // at the lock
    | Appending(x: int)      // the lock is held
    | Notifying              // the item is in the queue, the select is next
    | Delivered              // unlock is next
    | Draining               // a consumer between two calls of `Retrieve`
    | Retrieving             // the lock is held
    | Got                    // unlock is next, then another `Retrieve`
    | GotNothing             // unlock is next, then back to waiting

  datatype Sys = Sys(box: Box<int>, mu: Option<Tid>, pcs: map<Tid, Pc>)
  {
    /** An idle thread may deliver, or wait for a notification. */
    function At(t: Tid): Pc {
      if t in pcs then pcs[t] else Idle
    }

    function Goto(t: Tid, pc: Pc): Sys {
      this.(pcs := pcs[t := pc])
    }
  }

  const INITIAL := Sys(Box([], false), None, map[])

  ghost predicate Step(capacity: nat, s: Sys, t: Tid, s': Sys) {
    match s.At(t)
    case Idle =>
      || (exists x: int :: s' == s.Goto(t, Delivering(x)))
      || (s.box.notify && s' == s.(box := s.box.(notify := false)).Goto(t, Draining))
    case Delivering(x) => s.mu.None? && s' == s.(mu := Some(t)).Goto(t, Appending(x))
    case Appending(x) =>
      s' == s.(box := DeliverTo(capacity, s.box, x).0.(notify := s.box.notify)).Goto(t, Notifying)
    case Notifying => s' == s.(box := s.box.(notify := true)).Goto(t, Delivered)
    case Delivered => s' == s.(mu := None).Goto(t, Idle)
    case Draining => s.mu.None? && s' == s.(mu := Some(t)).Goto(t, Retrieving)
    case Retrieving =>
      var (b, x) := RetrieveFrom(s.box);
      s' == s.(box := b).Goto(t, if x.Some? then Got else GotNothing)
    case Got => s' == s.(mu := None).Goto(t, Draining)
    case GotNothing => s' == s.(mu := None).Goto(t, Idle)
  }

  ghost predicate Next(capacity: nat, s: Sys, s': Sys) {
    exists t: Tid :: Step(capacity, s, t, s')
  }

  ghost predicate StepAt(capacity: nat, run: seq<Sys>, i: nat)
    requires i < |run| - 1
  {
    Next(capacity, run[i], run[i + 1])
  }

  ghost predicate IsRun(capacity: nat, run: seq<Sys>) {
    && |run| > 0
    && run[0] == INITIAL
    && forall i: nat :: i < |run| - 1 ==> StepAt(capacity, run, i)
  }

  predicate HoldsMu(pc: Pc) {
    pc.Appending? || pc.Notifying? || pc.Delivered? || pc.Retrieving? || pc.Got? || pc.GotNothing?
  }

  /** On its way to another look at the queue, or about to fill the slot. */
  predicate Attending(pc: Pc) {
    pc.Draining? || pc.Retrieving? || pc.Got? || pc.Notifying?
  }

  ghost predicate Inv(s: Sys) {
    && (forall t: Tid :: HoldsMu(s.At(t)) <==> s.mu == Some(t))
    && (s.box.queue != [] ==> s.box.notify || exists t: Tid :: Attending(s.At(t)))
  }

  lemma StepKeepsInv(capacity: nat, s: Sys, t: Tid, s': Sys)
    requires Inv(s) && Step(capacity, s, t, s')
    ensures Inv(s')
  {
    assert forall u: Tid :: u != t ==> s'.At(u) == s.At(u);
    assert HoldsMu(s.At(t)) <==> s.mu == Some(t);
    if s'.box.queue != [] && !s'.box.notify {
      if Attending(s'.At(t)) {
      } else {
        var u: Tid :| Attending(s.At(u));
        assert u != t;
        assert Attending(s'.At(u));
      }
    }
  }

  /**
   No lost wake-ups. With any number of producers, and of consumers that drain until `Retrieve` is empty,
   whenever the queue is not empty the slot is full, or a consumer is still draining, or a `Deliver` is
   inside its critical section with its notification still to come.
   */
  lemma {:induction false} NoLostWakeups(capacity: nat, run: seq<Sys>, i: nat)
    requires IsRun(capacity, run) && i < |run|
    ensures Inv(run[i])
    ensures run[i].box.queue != [] ==> run[i].box.notify || exists t: Tid :: Attending(run[i].At(t))
  {
    if i == 0 {
    } else {
      NoLostWakeups(capacity, run, i - 1);
      assert StepAt(capacity, run, i - 1);
      var t: Tid :| Step(capacity, run[i - 1], t, run[i]);
      StepKeepsInv(capacity, run[i - 1], t, run[i]);
    }
  }
}
