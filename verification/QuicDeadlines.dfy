/**
  * The QUIC multiplexer's timers: a deadline per connection and a cached closest deadline that
  * some operations refresh and some do not.
  */
module QuicDeadlines {
  import opened Wrappers

  type ConnId = nat
  type Instant = int

  /** `closest` is the exact minimum of the stored deadlines. */
  ghost predicate IsEarliest(deadlines: map<ConnId, Instant>, closest: Option<Instant>) {
    if deadlines == map[] then closest.None?
    else closest.Some? && (exists id :: id in deadlines && deadlines[id] == closest.value) && NotLater(deadlines, closest)
  }

  /** `closest` is there and not later than any stored deadline. */
  ghost predicate NotLater(deadlines: map<ConnId, Instant>, closest: Option<Instant>) {
    forall id :: id in deadlines ==> closest.Some? && closest.value <= deadlines[id]
  }

  /** What the deadlines become when the timers due at `now` fire; `again` holds the timers restarted. */
  function Fired(deadlines: map<ConnId, Instant>, connections: set<ConnId>, now: Instant, again: map<ConnId, Instant>)
    : (r: map<ConnId, Instant>)
  {
    map id | id in deadlines && (deadlines[id] > now || (id in connections && id in again)) ::
      if deadlines[id] > now then deadlines[id] else again[id]
  }

  datatype Mux = Mux(connections: set<ConnId>, deadlines: map<ConnId, Instant>, closest: Option<Instant>)

  datatype Event =
    | NewConnection(id: ConnId)
    | HandshakeCompleted(id: ConnId, established: bool)
    | Updated(id: ConnId, now: Instant, duration: nat)
    | TimeoutsProcessed(now: Instant, again: map<ConnId, Instant>)
    | SocketClosed(id: ConnId)
    | Refreshed(id: ConnId, now: Instant, timeout: Option<nat>)
    | ClosedRemoved(closed: set<ConnId>)

  /** The deadlines after an event. */
  function Deadlines(s: Mux, e: Event): (r: map<ConnId, Instant>) {
    match e
    case NewConnection(_) => s.deadlines
    case HandshakeCompleted(id, _) => s.deadlines - {id}
    case Updated(id, now, duration) => s.deadlines[id := now + duration]
    case TimeoutsProcessed(now, again) => Fired(s.deadlines, s.connections, now, again)
    case SocketClosed(_) => s.deadlines
    case Refreshed(id, now, timeout) =>
      if id !in s.connections then s.deadlines
      else if timeout.Some? then s.deadlines[id := now + timeout.value]
      else s.deadlines - {id}
    case ClosedRemoved(closed) => s.deadlines - (closed * s.connections)
  }

  /** The event ends with the cache recomputed. */
  predicate Refreshes(s: Mux, e: Event) {
    match e
    case Updated(_, _, _) => true
    case TimeoutsProcessed(_, _) => true
    case Refreshed(id, _, timeout) => id in s.connections && (timeout.Some? || id in s.deadlines)
    case _ => false
  }

  ghost predicate IsStep(s: Mux, e: Event, t: Mux) {
    && t.deadlines == Deadlines(s, e)
    && (if Refreshes(s, e) then IsEarliest(t.deadlines, t.closest) else t.closest == s.closest)
    && match e
       case NewConnection(id) => t.connections == s.connections + {id}
       case HandshakeCompleted(id, established) =>
         t.connections == if established then s.connections + {id} else s.connections - {id}
       case SocketClosed(id) => t.connections == s.connections - {id}
       case ClosedRemoved(closed) => t.connections == s.connections - closed
       case _ => t.connections == s.connections
  }

  class QuicMultiplexer {
    var connections: set<ConnId>
    var deadlines: map<ConnId, Instant>
    var closestDeadline: Option<Instant>

    ghost function View(): (s: Mux)
      reads this
    {
      Mux(connections, deadlines, closestDeadline)
    }

    constructor ()
      ensures View() == Mux({}, map[], None)
    {
      connections, deadlines, closestDeadline := {}, map[], None;
    }

    method Earliest() returns (closest: Option<Instant>)
      ensures IsEarliest(deadlines, closest)
    {
      closest := None;
      var ids := deadlines.Keys;
      while ids != {}
        invariant ids <= deadlines.Keys
        invariant closest.None? <==> ids == deadlines.Keys
        invariant closest.Some? ==> exists id :: id in deadlines && deadlines[id] == closest.value
        invariant forall id :: id in deadlines.Keys - ids ==> closest.Some? && closest.value <= deadlines[id]
        decreases ids
      {
        var id :| id in ids;
        if closest.None? || deadlines[id] < closest.value {
          closest := Some(deadlines[id]);
        }
        ids := ids - {id};
      }
    }

    method UpdateConnectionDeadline(id: ConnId, now: Instant, duration: nat)
      modifies this
      ensures IsStep(old(View()), Updated(id, now, duration), View())
    {
      deadlines := deadlines[id := now + duration];
      closestDeadline := Earliest();
    }

    /** `clock` and `timeout` are the time and the timeout of each connection when its timer has fired. */
    method ProcessTimeouts(now: Instant, clock: map<ConnId, Instant>, timeout: map<ConnId, nat>)
      requires timeout.Keys <= clock.Keys
      modifies this
      ensures IsStep(old(View()), TimeoutsProcessed(now, map id | id in timeout :: clock[id] + timeout[id]), View())
    {
      ghost var again := map id | id in timeout :: clock[id] + timeout[id];
      var timedOut := set id | id in deadlines && deadlines[id] <= now;
      var ids := timedOut;
      while ids != {}
        invariant ids <= timedOut && connections == old(connections)
        invariant forall id :: id in ids ==> id in deadlines && deadlines[id] == old(deadlines)[id]
        invariant deadlines.Keys == ids + Fired(old(deadlines), connections, now, again).Keys
        invariant forall id :: id in deadlines && id !in ids ==> deadlines[id] == Fired(old(deadlines), connections, now, again)[id]
        decreases ids
      {
        var id :| id in ids;
        deadlines := deadlines - {id};
        ids := ids - {id};
        if id in connections && id in timeout {
          UpdateConnectionDeadline(id, clock[id], timeout[id]);
        }
      }
      closestDeadline := Earliest();
    }

    /** Neither the handshake's end nor the removal of closed connections refreshes the cache. */
    method CompleteHandshake(id: ConnId, established: bool)
      modifies this
      ensures IsStep(old(View()), HandshakeCompleted(id, established), View())
    {
      deadlines := deadlines - {id};
      connections := connections - {id};
      if established {
        connections := connections + {id};
      }
    }

    method RemoveClosedConnections(closed: set<ConnId>)
      modifies this
      ensures IsStep(old(View()), ClosedRemoved(closed), View())
    {
      var ids := closed * connections;
      ghost var gone := ids;
      while ids != {}
        invariant ids <= gone && closestDeadline == old(closestDeadline)
        invariant deadlines == old(deadlines) - (gone - ids)
        invariant connections == old(connections) - (gone - ids)
        decreases ids
      {
        var id :| id in ids;
        deadlines := deadlines - {id};
        connections := connections - {id};
        ids := ids - {id};
        assert (gone - ids) == (gone - ids - {id}) + {id};
      }
    }

    /** `timeout` is the connection's timeout when the multiplexer re-reads it. */
    method RefreshDeadline(id: ConnId, now: Instant, timeout: Option<nat>)
      modifies this
      ensures IsStep(old(View()), Refreshed(id, now, timeout), View())
    {
      if id !in connections {
        return;
      }
      if timeout.Some? {
        UpdateConnectionDeadline(id, now, timeout.value);
      } else if id in deadlines {
        deadlines := deadlines - {id};
        closestDeadline := Earliest();
      } else {
        assert deadlines - {id} == deadlines;
      }
    }
  }

  // ---------- Single deadlines ----------

  /** What an event does to the deadline of one connection. */
  lemma DeadlineStep(s: Mux, e: Event, t: Mux, id: ConnId)
    requires IsStep(s, e, t)
    ensures e.Updated? && e.id == id ==> id in t.deadlines && t.deadlines[id] == e.now + e.duration
    ensures e.Refreshed? && e.id == id && id in s.connections ==>
              if e.timeout.Some? then id in t.deadlines && t.deadlines[id] == e.now + e.timeout.value else id !in t.deadlines
    ensures e.TimeoutsProcessed? && id in s.deadlines && s.deadlines[id] <= e.now ==>
              if id in s.connections && id in e.again then id in t.deadlines && t.deadlines[id] == e.again[id]
              else id !in t.deadlines
    ensures (e.HandshakeCompleted? && e.id == id) || (e.ClosedRemoved? && id in e.closed && id in s.connections) ==>
              id !in t.deadlines
    ensures !Touches(s, e, id) ==> (id in t.deadlines <==> id in s.deadlines)
    ensures !Touches(s, e, id) && id in s.deadlines ==> t.deadlines[id] == s.deadlines[id]
  {
  }

  /** The events that change it: a timer that is not due is not one of them. */
  predicate Touches(s: Mux, e: Event, id: ConnId) {
    match e
    case HandshakeCompleted(x, _) => x == id
    case Updated(x, _, _) => x == id
    case Refreshed(x, _, _) => x == id && id in s.connections
    case TimeoutsProcessed(now, _) => id in s.deadlines && s.deadlines[id] <= now
    case ClosedRemoved(closed) => id in closed && id in s.connections
    case _ => false
  }

  // ---------- Runs ----------

  ghost predicate IsRun(states: seq<Mux>, events: seq<Event>) {
    && |states| == |events| + 1
    && states[0] == Mux({}, map[], None)
    && forall i :: 0 <= i < |events| ==> IsStep(states[i], events[i], states[i + 1])
  }

  /** The cached deadline is never later than a stored one, and exact after every refresh. */
  lemma {:induction false} ClosestNeverLater(states: seq<Mux>, events: seq<Event>, n: nat)
    requires IsRun(states, events) && n < |states|
    ensures NotLater(states[n].deadlines, states[n].closest)
    ensures n > 0 && Refreshes(states[n - 1], events[n - 1]) ==> IsEarliest(states[n].deadlines, states[n].closest)
  {
    if n > 0 {
      ClosestNeverLater(states, events, n - 1);
      assert IsStep(states[n - 1], events[n - 1], states[n]);
    }
  }

  /** A removal that does not refresh leaves the cache exact unless it takes the only closest deadline. */
  lemma RemovalExactly(deadlines: map<ConnId, Instant>, closest: Option<Instant>, gone: set<ConnId>)
    requires IsEarliest(deadlines, closest)
    ensures IsEarliest(deadlines - gone, closest) <==>
            (deadlines == map[] || exists id :: id in deadlines && id !in gone && deadlines[id] == closest.value)
  {
    var after := deadlines - gone;
    if deadlines != map[] {
      if id :| id in deadlines && id !in gone && deadlines[id] == closest.value {
        assert id in after && after[id] == closest.value;
      }
    } else {
      assert after == map[];
    }
  }
}
