/**
  * The ICMP forwarder's waiters: a hash map keyed by echo requests under an equality that compares
  * data by prefix, and an index of the same requests by deadline that a maintenance loop prunes.
  *
  * The equality is not transitive, so a lookup may meet several equal keys. Which one a lookup
  * finds is left open: operations pick any equal key.
  */
module IcmpListeners {
  import opened Wrappers
  import opened Bytes
  import opened NetAddress
  import opened IcmpMessages

  type Instant = int

  lemma EchoEqBasics(a: Echo, b: Echo)
    ensures EchoEq(a, a) && (EchoEq(a, b) <==> EchoEq(b, a))
    ensures EchoEq(a, b) ==> HashKey(a) == HashKey(b)
  {
  }

  /** It carries over from `b` exactly when the data agree beyond those of `b` too. */
  lemma EchoEqCarriesExactly(a: Echo, b: Echo, c: Echo)
    requires EchoEq(a, b) && EchoEq(b, c)
    ensures EchoEq(a, c) <==> forall i :: |b.data| <= i < |a.data| && i < |c.data| ==> a.data[i] == c.data[i]
  {
    var n := if |a.data| < |c.data| then |a.data| else |c.data|;
    if forall i :: |b.data| <= i < |a.data| && i < |c.data| ==> a.data[i] == c.data[i] {
      assert forall i :: 0 <= i < n && i < |b.data| ==> a.data[i] == b.data[i] == c.data[i];
      assert a.data[..n] == c.data[..n];
    }
  }

  /** Not always: an echo without data equals two echoes that do not equal each other. */
  lemma EchoEqNotTransitive()
    ensures exists a, b, c :: EchoEq(a, b) && EchoEq(b, c) && !EchoEq(a, c)
  {
    var a, b, c := Echo(0, 1, 1, [1]), Echo(0, 1, 1, []), Echo(0, 1, 1, [2]);
    assert EchoEq(a, b) && EchoEq(b, c);
    assert a.data[0] != c.data[0];
  }

  ghost predicate PairwiseUnequal(keys: set<Echo>) {
    forall a, b :: a in keys && b in keys && a != b ==> !EchoEq(a, b)
  }

  ghost predicate Indexed(keys: set<Echo>, deadlines: map<Instant, seq<Echo>>, later: Instant) {
    forall k :: k in keys ==> exists d :: d in deadlines && d > later && k in deadlines[d]
  }

  /** Some list that expires by `now` asks for a key equal to `k`. */
  ghost predicate Due(k: Echo, deadlines: map<Instant, seq<Echo>>, now: Instant) {
    exists d, r :: d in deadlines && d <= now && r in deadlines[d] && EchoEq(k, r)
  }

  class Listeners {
    var replyWaiters: map<Echo, IpAddr>
    var deadlines: map<Instant, seq<Echo>>

    /** Waiter keys are pairwise unequal and every one of them stands in some deadline's list. */
    ghost predicate Valid()
      reads this
    {
      && PairwiseUnequal(replyWaiters.Keys)
      && forall k :: k in replyWaiters ==> exists d :: d in deadlines && k in deadlines[d]
    }

    constructor ()
      ensures Valid() && replyWaiters == map[] && deadlines == map[]
    {
      replyWaiters, deadlines := map[], map[];
    }

    /**
      * Registers a request that has been sent. An equal key that is there already stays and gets the
      * new waiter; the list gets the new request. The maintenance loop is notified of a first deadline.
      */
    method Register(echo: Echo, peer: IpAddr, deadline: Instant) returns (notify: bool)
      requires Valid()
      modifies this
      ensures Valid()
      ensures exists k :: EchoEq(k, echo) && replyWaiters == old(replyWaiters)[k := peer] &&
                          (k in old(replyWaiters) || (k == echo && forall o :: o in old(replyWaiters) ==> !EchoEq(o, echo)))
      ensures deadlines == old(deadlines)[deadline := (if deadline in old(deadlines) then old(deadlines)[deadline] else []) + [echo]]
      ensures notify <==> old(deadlines) == map[]
    {
      EchoEqBasics(echo, echo);
      var slot := echo;
      if exists k :: k in replyWaiters && EchoEq(k, echo) {
        slot :| slot in replyWaiters && EchoEq(slot, echo);
      }
      replyWaiters := replyWaiters[slot := peer];
      notify := false;
      if deadline in deadlines {
        deadlines := deadlines[deadline := deadlines[deadline] + [echo]];
      } else {
        notify := deadlines == map[];
        deadlines := deadlines[deadline := [echo]];
        assert [] + [echo] == [echo];
      }
      forall k | k in replyWaiters ensures exists d :: d in deadlines && k in deadlines[d] {
        if k in old(replyWaiters) {
          var d :| d in old(deadlines) && k in old(deadlines)[d];
          assert d in deadlines && k in deadlines[d];
        } else {
          assert deadline in deadlines && k in deadlines[deadline];
        }
      }
      forall a, b | a in replyWaiters && b in replyWaiters && a != b ensures !EchoEq(a, b) {
        EchoEqBasics(a, b);
      }
    }

    /** Takes out one waiter whose key equals the request, if there is one. */
    method Forget(request: Echo) returns (found: bool)
      modifies this`replyWaiters
      ensures found <==> exists k :: k in old(replyWaiters) && EchoEq(k, request)
      ensures !found ==> replyWaiters == old(replyWaiters)
      ensures found ==> exists k :: k in old(replyWaiters) && EchoEq(k, request) && replyWaiters == old(replyWaiters) - {k}
    {
      found := exists k :: k in replyWaiters && EchoEq(k, request);
      if found {
        var slot :| slot in replyWaiters && EchoEq(slot, request);
        replyWaiters := replyWaiters - {slot};
      }
    }

    /** A reply: its waiter is forgotten when its queue is full or closed. */
    method Dispatch(request: Echo, delivered: bool) returns (found: bool)
      requires Valid()
      modifies this
      ensures Valid() && deadlines == old(deadlines)
      ensures found <==> exists k :: k in old(replyWaiters) && EchoEq(k, request)
      ensures !found || delivered ==> replyWaiters == old(replyWaiters)
      ensures found && !delivered ==>
                exists k :: k in old(replyWaiters) && EchoEq(k, request) && replyWaiters == old(replyWaiters) - {k}
    {
      found := exists k :: k in replyWaiters && EchoEq(k, request);
      if found && !delivered {
        found := Forget(request);
        forall k | k in replyWaiters ensures exists d :: d in deadlines && k in deadlines[d] {
          var d :| d in old(deadlines) && k in old(deadlines)[d];
          assert d in deadlines && k in deadlines[d];
        }
      }
    }

    /** Forgets what one expired list asks for: no key of the list is left among the waiters. */
    method ExpireList(requests: seq<Echo>)
      requires PairwiseUnequal(replyWaiters.Keys)
      modifies this`replyWaiters
      ensures replyWaiters.Keys <= old(replyWaiters.Keys)
      ensures forall k :: k in replyWaiters ==> replyWaiters[k] == old(replyWaiters)[k] && k !in requests
      ensures forall k :: k in old(replyWaiters) && k !in replyWaiters ==> exists r :: r in requests && EchoEq(k, r)
    {
      for i := 0 to |requests|
        invariant replyWaiters.Keys <= old(replyWaiters.Keys)
        invariant forall k :: k in replyWaiters ==> replyWaiters[k] == old(replyWaiters)[k] && k !in requests[..i]
        invariant forall k :: k in old(replyWaiters) && k !in replyWaiters ==> exists r :: r in requests && EchoEq(k, r)
      {
        var request := requests[i];
        assert requests[..i + 1] == requests[..i] + [request];
        EchoEqBasics(request, request);
        assert request in requests;
        var found := Forget(request);
      }
      assert requests[..|requests|] == requests;
    }

    /** Takes one deadline out of the index, and the waiters its list asks for. */
    method ExpireDeadline(d: Instant)
      requires Valid() && d in deadlines
      modifies this
      ensures Valid() && deadlines == old(deadlines) - {d}
      ensures replyWaiters.Keys <= old(replyWaiters.Keys)
      ensures forall k :: k in old(replyWaiters) && k !in replyWaiters ==> exists r :: r in old(deadlines)[d] && EchoEq(k, r)
    {
      var requests := deadlines[d];
      deadlines := deadlines - {d};
      ExpireList(requests);
      forall k | k in replyWaiters ensures exists o :: o in deadlines && k in deadlines[o] {
        var o :| o in old(deadlines) && k in old(deadlines)[o];
        assert o != d && o in deadlines && k in deadlines[o];
      }
    }

    /** One pass of the maintenance loop at time `now`. */
    method Maintain(now: Instant)
      requires Valid()
      modifies this
      ensures Valid()
      ensures deadlines == map d | d in old(deadlines) && d > now :: old(deadlines)[d]
      ensures replyWaiters.Keys <= old(replyWaiters.Keys)
      ensures Indexed(replyWaiters.Keys, deadlines, now)
      ensures forall k :: k in old(replyWaiters) && k !in replyWaiters ==> Due(k, old(deadlines), now)
    {
      var left := set d | d in deadlines && d <= now;
      while left != {}
        invariant Valid()
        invariant forall d :: d in left ==> d in old(deadlines) && d <= now
        invariant replyWaiters.Keys <= old(replyWaiters.Keys)
        invariant deadlines == map d | d in old(deadlines) && (d > now || d in left) :: old(deadlines)[d]
        invariant forall k :: k in old(replyWaiters) && k !in replyWaiters ==> Due(k, old(deadlines), now)
        decreases left
      {
        var d :| d in left;
        ExpireDeadline(d);
        left := left - {d};
      }
      forall k | k in replyWaiters ensures exists d :: d in deadlines && d > now && k in deadlines[d] {
        var d :| d in deadlines && k in deadlines[d];
      }
    }
  }

  // ---------- The maintenance loop's timer ----------

  /**
    * The loop looks the earliest deadline up, then sleeps until it or, when there is none, waits for
    * a notification. A notification that nobody waits for is kept as one permit.
    */
  datatype Phase = LookingUp | Sleeping(until: Instant) | AwaitingNotification

  datatype Timer = Timer(index: set<Instant>, phase: Phase, permit: bool)

  const IDLE := Timer({}, LookingUp, false)

  datatype Event =
    | Inserted(deadline: Instant)
    | LookedUp
    | Woken(now: Instant)
    | Restarted

  predicate Enabled(t: Timer, e: Event) {
    match e
    case Inserted(_) => true
    case LookedUp => t.phase.LookingUp?
    case Woken(now) => (t.phase.Sleeping? && now >= t.phase.until) || (t.phase.AwaitingNotification? && t.permit)
    case Restarted => true
  }

  ghost predicate IsStep(t: Timer, e: Event, u: Timer) {
    Enabled(t, e) &&
    match e
    case Inserted(d) => u == t.(index := t.index + {d}, permit := t.permit || t.index == {})
    case LookedUp =>
      if t.index == {} then u == t.(phase := AwaitingNotification)
      else
        && u.phase.Sleeping? && u.phase.until in t.index && (forall d :: d in t.index ==> u.phase.until <= d)
        && u == t.(phase := u.phase)
    case Woken(now) =>
      u == Timer((set d | d in t.index && d > now), LookingUp, t.permit && t.phase.Sleeping?)
    case Restarted => u == t.(phase := LookingUp)
  }

  /**
    * A non-empty index has a lookup ahead, a sleep that ends in time or, while a notification is waited
    * for, a permit to wake up with. A permit does not end a sleep: it is left for a later wait.
    */
  ghost predicate Guarded(t: Timer) {
    t.index != {} ==>
      match t.phase
      case LookingUp => true
      case Sleeping(until) => forall d :: d in t.index ==> until <= d
      case AwaitingNotification => t.permit
  }

  /** A deadline earlier than the one slept on: its sender read the clock before a later registration. */
  predicate Overtakes(t: Timer, e: Event) {
    e.Inserted? && t.phase.Sleeping? && e.deadline < t.phase.until
  }

  /** A step leaves a deadline unguarded exactly when it is such an insertion. */
  lemma GuardedStep(t: Timer, e: Event, u: Timer)
    requires Guarded(t) && IsStep(t, e, u)
    ensures Guarded(u) <==> !Overtakes(t, e)
  {
    if Overtakes(t, e) {
      assert e.deadline in u.index;
    }
  }

  /** The weaker reading: a permit counts in every phase. */
  ghost predicate GuardedOrPermitted(t: Timer) {
    Guarded(t) || t.permit
  }

  /** This one is lost exactly on such an insertion that neither finds a permit nor leaves one. */
  lemma PermittedStep(t: Timer, e: Event, u: Timer)
    requires GuardedOrPermitted(t) && IsStep(t, e, u)
    ensures GuardedOrPermitted(u) <==> !(Overtakes(t, e) && !t.permit && t.index != {})
  {
    if Overtakes(t, e) {
      assert e.deadline in u.index;
    }
  }

  ghost predicate IsRun(states: seq<Timer>, events: seq<Event>) {
    && |states| == |events| + 1 && states[0] == IDLE
    && forall i :: 0 <= i < |events| ==> IsStep(states[i], events[i], states[i + 1])
  }

  /** Registrations reach the index in the order of their deadlines. */
  ghost predicate InOrder(events: seq<Event>) {
    forall i, j :: 0 <= i < j < |events| && events[i].Inserted? && events[j].Inserted? ==>
      events[i].deadline <= events[j].deadline
  }

  ghost predicate InsertedBefore(events: seq<Event>, n: nat, d: Instant)
    requires n <= |events|
  {
    exists i :: 0 <= i < n && events[i] == Inserted(d)
  }

  /** Every deadline in the index, and the one slept on, has been inserted. */
  lemma {:induction false} TimerRun(states: seq<Timer>, events: seq<Event>, n: nat)
    requires IsRun(states, events) && InOrder(events) && n < |states|
    ensures Guarded(states[n])
    ensures forall d :: d in states[n].index ==> InsertedBefore(events, n, d)
    ensures states[n].phase.Sleeping? ==> InsertedBefore(events, n, states[n].phase.until)
  {
    if n > 0 {
      TimerRun(states, events, n - 1);
      var t, e, u := states[n - 1], events[n - 1], states[n];
      assert IsStep(t, e, u);
      forall d | InsertedBefore(events, n - 1, d) ensures InsertedBefore(events, n, d) {
        var i :| 0 <= i < n - 1 && events[i] == Inserted(d);
        assert 0 <= i < n && events[i] == Inserted(d);
      }
      if e.Inserted? {
        assert 0 <= n - 1 < n && events[n - 1] == Inserted(e.deadline);
      }
      GuardedStep(t, e, u);
    }
  }

  /** When registrations arrive in deadline order, no deadline is ever left unguarded. */
  lemma DeadlinesGuarded(states: seq<Timer>, events: seq<Event>, n: nat)
    requires IsRun(states, events) && InOrder(events) && n < |states|
    ensures Guarded(states[n])
  {
    TimerRun(states, events, n);
  }

  /** Two senders that read the clock in one order and register in the other: neither reading holds. */
  lemma OvertakenDeadlineIsUnguarded()
    ensures exists states, events ::
      IsRun(states, events) && !Guarded(states[|states| - 1]) && !GuardedOrPermitted(states[|states| - 1])
  {
    var t1 := Timer({}, AwaitingNotification, false);
    var t2 := Timer({10}, AwaitingNotification, true);
    var t3 := Timer({10}, LookingUp, false);
    var t4 := Timer({10}, Sleeping(10), false);
    var t5 := Timer({10, 5}, Sleeping(10), false);
    var states := [IDLE, t1, t2, t3, t4, t5];
    var events := [LookedUp, Inserted(10), Woken(0), LookedUp, Inserted(5)];
    assert {} + {10} == {10} && {10} + {5} == {10, 5} && (set d | d in t2.index && d > 0) == {10};
    assert IsStep(IDLE, LookedUp, t1) && IsStep(t1, Inserted(10), t2) && IsStep(t2, Woken(0), t3);
    assert IsStep(t3, LookedUp, t4) && IsStep(t4, Inserted(5), t5);
    assert 5 in t5.index;
    assert IsRun(states, events);
  }
}
