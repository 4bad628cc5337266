/**
  * The HTTP/3 codec's stream table and the hand-over that wakes a sink parked for writability.
  *
  * A sink that finds too little stream capacity queues a message and waits on a one-slot
  * channel. The codec moves the stream id to the socket's waiting set, the socket moves it into
  * a Writable event, and the codec answers the event with a token in the sink's channel. All
  * these steps interleave with requests, half closes, drops and the end of the codec.
  */
module Http3Streams {
  import opened Wrappers

  type StreamId = nat

  const MIN_USABLE_CAPACITY := 3

  datatype Direction = Read | Write

  datatype StreamMessage =
    | WaitingWritable(id: StreamId)
    | Shutdown(id: StreamId, direction: Option<Direction>)

  datatype Stream = Stream(readShutdown: bool, writeShutdown: bool)

  /**
    * The codec's table, the socket's waiting set, the sinks' channels that still have a receiver and
    * those that hold a token, and the stream halves that the shutdown handler has closed on the socket.
    */
  datatype Codec = Codec(
    streams: map<StreamId, Stream>,
    waiting: set<StreamId>,
    receivers: set<StreamId>,
    tokens: set<StreamId>,
    closed: multiset<(StreamId, Direction)>)

  /** A shutdown without a direction is for both. */
  predicate Covers(direction: Option<Direction>, d: Direction) {
    direction.None? || direction.value == d
  }

  /** What a shutdown closes on the socket: the halves asked for that are still open. */
  function Closing(id: StreamId, s: Stream, direction: Option<Direction>): (m: multiset<(StreamId, Direction)>) {
    (if Covers(direction, Read) && !s.readShutdown then multiset{(id, Read)} else multiset{}) +
    (if Covers(direction, Write) && !s.writeShutdown then multiset{(id, Write)} else multiset{})
  }

  function CloseStream(s: Stream, direction: Option<Direction>): (t: Stream) {
    Stream(s.readShutdown || Covers(direction, Read), s.writeShutdown || Covers(direction, Write))
  }

  function Shut(c: Codec, id: StreamId, direction: Option<Direction>): (r: Codec) {
    if id !in c.streams then c
    else
      var s := CloseStream(c.streams[id], direction);
      c.(streams := if s.readShutdown && s.writeShutdown then c.streams - {id} else c.streams[id := s],
         closed := c.closed + Closing(id, c.streams[id], direction))
  }

  function Message(c: Codec, m: StreamMessage): (r: Codec) {
    match m
    case WaitingWritable(id) => c.(waiting := c.waiting + {id})
    case Shutdown(id, direction) => Shut(c, id, direction)
  }

  /** The answer to one stream of a Writable event; `capacity` is what the socket reports for it. */
  function Notify(c: Codec, id: StreamId, capacity: Option<nat>): (r: Codec) {
    if id !in c.streams || capacity.None? then c
    else if capacity.value < MIN_USABLE_CAPACITY then c.(waiting := c.waiting + {id})
    else if id in c.receivers then c.(tokens := c.tokens + {id})
    else c
  }

  function NotifyAll(c: Codec, ids: seq<StreamId>, capacity: map<StreamId, nat>): (r: Codec)
    decreases ids
  {
    if ids == [] then c
    else NotifyAll(Notify(c, ids[0], Lookup(capacity, ids[0])), ids[1..], capacity)
  }

  /** A stream without an entry is one whose capacity query fails. */
  function Lookup(capacity: map<StreamId, nat>, id: StreamId): (r: Option<nat>) {
    if id in capacity then Some(capacity[id]) else None
  }

  /** The waiting streams that the socket reports as writable, an unknown capacity included. */
  function Ready(c: Codec, capacity: map<StreamId, nat>): (ids: set<StreamId>) {
    set id | id in c.waiting && (id in capacity ==> capacity[id] >= MIN_USABLE_CAPACITY)
  }

  class Http3Codec {
    var streams: map<StreamId, Stream>
    var waiting: set<StreamId>
    var receivers: set<StreamId>
    var tokens: set<StreamId>
    ghost var closed: multiset<(StreamId, Direction)>

    ghost function View(): (c: Codec)
      reads this
    {
      Codec(streams, waiting, receivers, tokens, closed)
    }

    constructor ()
      ensures View() == Codec(map[], {}, {}, {}, multiset{})
    {
      streams, waiting, receivers, tokens, closed := map[], {}, {}, {}, multiset{};
    }

    method OnRequest(id: StreamId)
      modifies this
      ensures View() == old(View()).(streams := old(streams)[id := Stream(false, false)], receivers := old(receivers) + {id})
    {
      streams := streams[id := Stream(false, false)];
      receivers := receivers + {id};
    }

    method OnStreamShutdown(id: StreamId, direction: Option<Direction>) returns (found: bool)
      modifies this
      ensures found <==> id in old(streams)
      ensures View() == Shut(old(View()), id, direction)
    {
      if id !in streams {
        return false;
      }
      var stream := streams[id];
      var (closeRead, closeWrite) :=
        match direction
        case Some(Read) => (true, false)
        case Some(Write) => (false, true)
        case None => (true, true);
      ghost var calls := multiset{};
      if closeRead && !stream.readShutdown {
        calls := calls + multiset{(id, Read)};
        stream := stream.(readShutdown := true);
      }
      if closeWrite && !stream.writeShutdown {
        calls := calls + multiset{(id, Write)};
        stream := stream.(writeShutdown := true);
      }
      assert closeRead == Covers(direction, Read) && closeWrite == Covers(direction, Write);
      assert calls == Closing(id, streams[id], direction);
      assert stream == CloseStream(streams[id], direction);
      closed := closed + calls;
      if stream.readShutdown && stream.writeShutdown {
        streams := streams - {id};
      } else {
        streams := streams[id := stream];
      }
      return true;
    }

    /** A message that fails because its stream is gone leaves everything as it is. */
    method OnStreamMessage(m: StreamMessage)
      modifies this
      ensures View() == Message(old(View()), m)
    {
      match m {
        case WaitingWritable(id) =>
          waiting := waiting + {id};
        case Shutdown(id, direction) =>
          var found := OnStreamShutdown(id, direction);
          if !found {
            found := OnStreamShutdown(id, None);
          }
      }
    }

    method NotifyWritableStreams(ids: seq<StreamId>, capacity: map<StreamId, nat>)
      modifies this
      ensures View() == NotifyAll(old(View()), ids, capacity)
    {
      for i := 0 to |ids|
        invariant NotifyAll(old(View()), ids, capacity) == NotifyAll(View(), ids[i..], capacity)
      {
        var id := ids[i];
        if id in streams && id in capacity {
          if capacity[id] < MIN_USABLE_CAPACITY {
            waiting := waiting + {id};
          } else if id in receivers {
            tokens := tokens + {id};
          }
        }
        assert ids[i..][1..] == ids[i + 1..];
      }
    }

    /** Takes the writable streams out of the waiting set; the event is sent if there are any. */
    method TakeWritable(capacity: map<StreamId, nat>) returns (ids: set<StreamId>)
      modifies this
      ensures ids == Ready(old(View()), capacity)
      ensures View() == old(View()).(waiting := old(waiting) - ids)
    {
      ids := set id | id in waiting && (id in capacity ==> capacity[id] >= MIN_USABLE_CAPACITY);
      waiting := waiting - ids;
    }
  }

  // ---------- The whole protocol ----------

  datatype Sink = Running | Parked | Dropped

  /**
    * `inFlight` holds the streams of the Writable event being answered. `dropped` holds the stream
    * halves whose drop message has been handled; `requested` every stream there has been.
    */
  datatype System = System(
    alive: bool,
    codec: Codec,
    queue: seq<StreamMessage>,
    inFlight: set<StreamId>,
    sinks: map<StreamId, Sink>,
    sources: set<StreamId>,
    requested: set<StreamId>,
    dropped: set<(StreamId, Direction)>)

  const START := System(true, Codec(map[], {}, {}, {}, multiset{}), [], {}, map[], {}, {}, {})

  datatype Event =
    | Request(id: StreamId)
    | Park(id: StreamId)
    | Wake(id: StreamId)
    | WakeClosed(id: StreamId)
    | CancelWait(id: StreamId)
    | ResponseEof(id: StreamId)
    | DropSink(id: StreamId)
    | DropSource(id: StreamId)
    | CloseReceived(id: StreamId)
    | HandleMessage
    | SocketWritable(capacity: map<StreamId, nat>)
    | NotifyStream(id: StreamId, result: Option<nat>)
    | Terminate

  /** Between two events the codec is listening; while it answers a Writable event it is not. */
  predicate Listening(s: System) {
    s.alive && s.inFlight == {}
  }

  predicate Enabled(s: System, e: Event) {
    match e
    case Request(id) => Listening(s) && id !in s.requested
    case Park(id) => s.alive && id in s.sinks && s.sinks[id].Running?
    case Wake(id) => id in s.sinks && s.sinks[id].Parked? && id in s.codec.tokens
    case WakeClosed(id) => id in s.sinks && s.sinks[id].Parked? && id !in s.codec.tokens && id !in s.codec.streams
    case CancelWait(id) => id in s.sinks && s.sinks[id].Parked?
    case ResponseEof(id) => s.alive && id in s.sinks && s.sinks[id].Running?
    case DropSink(id) => id in s.sinks && s.sinks[id].Running?
    case DropSource(id) => id in s.sources
    case CloseReceived(_) => Listening(s)
    case HandleMessage => Listening(s) && s.codec.streams != map[] && s.queue != []
    case SocketWritable(capacity) => Listening(s) && Ready(s.codec, capacity) != {}
    case NotifyStream(id, _) => s.alive && id in s.inFlight
    case Terminate => s.alive
  }

  /** Messages to a codec that is gone are lost. */
  function Send(s: System, m: StreamMessage): (r: System) {
    if s.alive then s.(queue := s.queue + [m]) else s
  }

  function Next(s: System, e: Event): (r: System)
    requires Enabled(s, e)
  {
    match e
    case Request(id) =>
      s.(codec := s.codec.(streams := s.codec.streams[id := Stream(false, false)], receivers := s.codec.receivers + {id}),
         sinks := s.sinks[id := Running], sources := s.sources + {id}, requested := s.requested + {id})
    case Park(id) => Send(s.(sinks := s.sinks[id := Parked]), WaitingWritable(id))
    case Wake(id) => s.(sinks := s.sinks[id := Running], codec := s.codec.(tokens := s.codec.tokens - {id}))
    case WakeClosed(id) => s.(sinks := s.sinks[id := Running])
    case CancelWait(id) => s.(sinks := s.sinks[id := Running])
    case ResponseEof(id) => Send(s, Shutdown(id, None))
    case DropSink(id) => Send(s.(sinks := s.sinks[id := Dropped], codec := s.codec.(receivers := s.codec.receivers - {id})), Shutdown(id, Some(Write)))
    case DropSource(id) => Send(s.(sources := s.sources - {id}), Shutdown(id, Some(Read)))
    case CloseReceived(id) => s.(codec := Shut(s.codec, id, Some(Read)))
    case HandleMessage =>
      var m := s.queue[0];
      s.(codec := Message(s.codec, m), queue := s.queue[1..],
         dropped := if m.Shutdown? && m.direction.Some? then s.dropped + {(m.id, m.direction.value)} else s.dropped)
    case SocketWritable(capacity) =>
      var ids := Ready(s.codec, capacity);
      s.(codec := s.codec.(waiting := s.codec.waiting - ids), inFlight := ids)
    case NotifyStream(id, result) =>
      s.(codec := Notify(s.codec, id, result), inFlight := s.inFlight - {id})
    case Terminate => s.(alive := false, codec := s.codec.(streams := map[], waiting := {}), queue := [], inFlight := {})
  }

  ghost predicate IsRun(s: System, events: seq<Event>)
    decreases events
  {
    events != [] ==> Enabled(s, events[0]) && IsRun(Next(s, events[0]), events[1..])
  }

  ghost function Run(s: System, events: seq<Event>): (r: System)
    requires IsRun(s, events)
    decreases events
  {
    if events == [] then s else Run(Next(s, events[0]), events[1..])
  }

  // ---------- The stream table ----------

  /** What the table says of one stream, used or not. */
  predicate EntryInv(s: System, id: StreamId) {
    var read, write := s.codec.closed[(id, Read)], s.codec.closed[(id, Write)];
    && read <= 1 && write <= 1
    && (id !in s.requested ==> read == write == 0 && id !in s.codec.streams)
    && (id in s.codec.streams ==> s.codec.streams[id] == Stream(read == 1, write == 1) && read + write < 2)
    && (s.alive && id in s.requested && id !in s.codec.streams ==> read == write == 1)
    && (s.alive && (id, Read) in s.dropped ==> read == 1)
    && (s.alive && (id, Write) in s.dropped ==> write == 1)
  }

  ghost predicate TableInv(s: System) {
    && s.sinks.Keys == s.requested && s.sources <= s.requested
    && (forall id :: id in s.sinks ==> (s.sinks[id].Dropped? <==> id !in s.codec.receivers))
    && (forall id: StreamId :: EntryInv(s, id))
    && (forall m :: m in s.queue ==> m.id in s.requested)
  }

  lemma ClosingCount(x: StreamId, stream: Stream, direction: Option<Direction>, id: StreamId, d: Direction)
    ensures Closing(x, stream, direction)[(id, d)] ==
            if id == x && (direction == None || direction == Some(d))
               && !(if d == Read then stream.readShutdown else stream.writeShutdown) then 1 else 0
  {
    assert d == Read || d == Write;
  }

  /** A shutdown closes the halves asked for, and no others. */
  lemma ShutCloses(s: System, x: StreamId, direction: Option<Direction>, id: StreamId, d: Direction)
    requires s.alive && EntryInv(s, x)
    ensures var after := Shut(s.codec, x, direction).closed[(id, d)];
            if id == x
            then after == 1 <==> s.codec.closed[(x, d)] == 1 || (x in s.requested && (direction == None || direction == Some(d)))
            else after == s.codec.closed[(id, d)]
  {
    if x in s.codec.streams {
      ClosingCount(x, s.codec.streams[x], direction, id, d);
    }
  }

  /** What it does to the table. */
  lemma ShutKeepsTable(s: System, id: StreamId, direction: Option<Direction>)
    requires TableInv(s) && s.alive
    ensures TableInv(s.(codec := Shut(s.codec, id, direction)))
    ensures forall d :: Shut(s.codec, id, direction).closed[(id, d)] == 1 <==>
              s.codec.closed[(id, d)] == 1 || (id in s.requested && (direction == None || direction == Some(d)))
    ensures forall other: StreamId, d :: other != id ==>
              Shut(s.codec, id, direction).closed[(other, d)] == s.codec.closed[(other, d)]
  {
    ShutKeepsEntries(s, id, direction);
    forall other: StreamId, d ensures
        var after := Shut(s.codec, id, direction).closed[(other, d)];
        if other == id
        then after == 1 <==> s.codec.closed[(id, d)] == 1 || (id in s.requested && (direction == None || direction == Some(d)))
        else after == s.codec.closed[(other, d)]
    {
      ShutCloses(s, id, direction, other, d);
    }
  }

  lemma ShutKeepsEntries(s: System, id: StreamId, direction: Option<Direction>)
    requires TableInv(s) && s.alive
    ensures TableInv(s.(codec := Shut(s.codec, id, direction)))
  {
    var t := s.(codec := Shut(s.codec, id, direction));
    assert EntryInv(s, id);
    forall other: StreamId ensures EntryInv(t, other) {
      assert EntryInv(s, other);
    }
  }

  lemma MessageKeepsTable(s: System)
    requires TableInv(s) && Enabled(s, HandleMessage)
    ensures TableInv(Next(s, HandleMessage))
  {
    var m, t := s.queue[0], Next(s, HandleMessage);
    assert m in s.queue;
    if m.Shutdown? {
      ShutKeepsTable(s, m.id, m.direction);
      var u := s.(codec := Shut(s.codec, m.id, m.direction));
      forall id: StreamId ensures EntryInv(t, id) {
        assert EntryInv(u, id);
      }
    } else {
      forall id: StreamId ensures EntryInv(t, id) {
        assert EntryInv(s, id);
      }
    }
  }

  lemma TableStep(s: System, e: Event)
    requires TableInv(s) && Enabled(s, e)
    ensures TableInv(Next(s, e))
  {
    if e.HandleMessage? {
      MessageKeepsTable(s);
    } else if e.CloseReceived? {
      ShutKeepsTable(s, e.id, Some(Read));
    } else {
      var t := Next(s, e);
      forall id: StreamId ensures EntryInv(t, id) {
        assert EntryInv(s, id);
      }
    }
  }

  /**
    * On every run: the handler closes each half of a stream at most once; while the codec lives an
    * entry is there exactly while some half is open; and once the drop messages of both halves
    * have been handled the entry is gone.
    */
  lemma StreamTable(events: seq<Event>)
    requires IsRun(START, events)
    ensures var s := Run(START, events);
            && (forall id: StreamId, d: Direction :: s.codec.closed[(id, d)] <= 1)
            && (s.alive ==> forall id :: id in s.requested ==>
                  (id in s.codec.streams <==> s.codec.closed[(id, Read)] == 0 || s.codec.closed[(id, Write)] == 0))
            && (s.alive ==> forall id: StreamId :: (id, Read) in s.dropped && (id, Write) in s.dropped ==> id !in s.codec.streams)
  {
    TableRun(START, events);
    var s := Run(START, events);
    forall id: StreamId, d: Direction ensures s.codec.closed[(id, d)] <= 1 {
      assert EntryInv(s, id) && (d == Read || d == Write);
    }
    if s.alive {
      forall id | id in s.requested
        ensures id in s.codec.streams <==> s.codec.closed[(id, Read)] == 0 || s.codec.closed[(id, Write)] == 0
      {
        assert EntryInv(s, id);
      }
      forall id: StreamId | (id, Read) in s.dropped && (id, Write) in s.dropped ensures id !in s.codec.streams {
        assert EntryInv(s, id);
      }
    }
  }

  lemma {:induction false} TableRun(s: System, events: seq<Event>)
    requires TableInv(s) && IsRun(s, events)
    ensures TableInv(Run(s, events))
    decreases events
  {
    if events != [] {
      TableStep(s, events[0]);
      TableRun(Next(s, events[0]), events[1..]);
    }
  }

  // ---------- Which halves are closed ----------

  /** The event asks for a half of a stream: the peer has finished sending, or a shutdown for it is handled. */
  predicate Asks(s: System, e: Event, id: StreamId, d: Direction)
    requires Enabled(s, e)
  {
    && id in s.requested
    && ((e == CloseReceived(id) && d == Read)
        || (e.HandleMessage? && (s.queue[0] == Shutdown(id, None) || s.queue[0] == Shutdown(id, Some(d)))))
  }

  lemma ClosedByMessage(s: System, id: StreamId, d: Direction)
    requires Enabled(s, HandleMessage) && EntryInv(s, s.queue[0].id)
    ensures Next(s, HandleMessage).codec.closed[(id, d)] == 1 <==>
            s.codec.closed[(id, d)] == 1 || Asks(s, HandleMessage, id, d)
  {
    if s.queue[0].Shutdown? {
      ShutCloses(s, s.queue[0].id, s.queue[0].direction, id, d);
    }
  }

  lemma ClosedByOthers(s: System, e: Event, id: StreamId, d: Direction)
    requires Enabled(s, e) && !e.HandleMessage? && (e.CloseReceived? ==> EntryInv(s, e.id))
    ensures Next(s, e).codec.closed[(id, d)] == 1 <==> s.codec.closed[(id, d)] == 1 || Asks(s, e, id, d)
  {
    if e.CloseReceived? {
      ShutCloses(s, e.id, Some(Read), id, d);
    }
  }

  lemma ClosedStep(s: System, e: Event, id: StreamId, d: Direction)
    requires TableInv(s) && Enabled(s, e)
    ensures Next(s, e).codec.closed[(id, d)] == 1 <==> s.codec.closed[(id, d)] == 1 || Asks(s, e, id, d)
  {
    if e.HandleMessage? {
      ClosedByMessage(s, id, d);
    } else {
      ClosedByOthers(s, e, id, d);
    }
  }

  ghost predicate AskedFor(s: System, events: seq<Event>, id: StreamId, d: Direction)
    requires IsRun(s, events)
    decreases events
  {
    events != [] && (Asks(s, events[0], id, d) || AskedFor(Next(s, events[0]), events[1..], id, d))
  }

  lemma {:induction false} ClosedRun(s: System, events: seq<Event>, id: StreamId, d: Direction)
    requires TableInv(s) && IsRun(s, events)
    ensures Run(s, events).codec.closed[(id, d)] == 1 <==> s.codec.closed[(id, d)] == 1 || AskedFor(s, events, id, d)
    decreases events
  {
    if events != [] {
      TableStep(s, events[0]);
      ClosedStep(s, events[0], id, d);
      ClosedRun(Next(s, events[0]), events[1..], id, d);
    }
  }

  /**
    * On every run a half of a stream has been closed exactly when it was asked for: in particular the end
    * of a request's body leaves the write half open for the response.
    */
  lemma ClosedExactlyWhenAsked(events: seq<Event>, id: StreamId, d: Direction)
    requires IsRun(START, events)
    ensures Run(START, events).codec.closed[(id, d)] == if AskedFor(START, events, id, d) then 1 else 0
  {
    ClosedRun(START, events, id, d);
    StreamTable(events);
  }

  /** What brings a shutdown about: the half's own drop, or the end of the response for both. */
  predicate Causes(e: Event, id: StreamId, d: Direction) {
    || e == ResponseEof(id)
    || (d == Write && e == DropSink(id))
    || (d == Read && (e == DropSource(id) || e == CloseReceived(id)))
  }

  ghost predicate Happened(past: seq<Event>, id: StreamId, d: Direction) {
    exists e :: e in past && Causes(e, id, d)
  }

  lemma HappenedGrows(past: seq<Event>, e: Event, id: StreamId, d: Direction)
    ensures Happened(past, id, d) || Causes(e, id, d) ==> Happened(past + [e], id, d)
  {
    if Happened(past, id, d) {
      var c :| c in past && Causes(c, id, d);
      assert c in past + [e];
    } else if Causes(e, id, d) {
      assert e in past + [e];
    }
  }

  predicate Reaches(m: StreamMessage, id: StreamId, d: Direction) {
    m == Shutdown(id, None) || m == Shutdown(id, Some(d))
  }

  /** Every shutdown in the queue, and every half that is closed, goes back to such an event. */
  ghost predicate Caused(s: System, past: seq<Event>, id: StreamId, d: Direction) {
    && (forall m :: m in s.queue && Reaches(m, id, d) ==> Happened(past, id, d))
    && (s.codec.closed[(id, d)] == 1 ==> Happened(past, id, d))
  }

  lemma CausedStep(s: System, past: seq<Event>, e: Event, id: StreamId, d: Direction)
    requires TableInv(s) && Enabled(s, e) && Caused(s, past, id, d)
    ensures Caused(Next(s, e), past + [e], id, d)
  {
    var t := Next(s, e);
    HappenedGrows(past, e, id, d);
    ClosedStep(s, e, id, d);
    if e.HandleMessage? {
      assert s.queue[0] in s.queue;
    }
    forall m | m in t.queue && Reaches(m, id, d) ensures m in s.queue || Causes(e, id, d) {
    }
  }

  lemma {:induction false} CausedRun(s: System, past: seq<Event>, events: seq<Event>, id: StreamId, d: Direction)
    requires TableInv(s) && IsRun(s, events) && Caused(s, past, id, d)
    ensures Caused(Run(s, events), past + events, id, d)
    decreases events
  {
    if events == [] {
      assert past + events == past;
    } else {
      TableStep(s, events[0]);
      CausedStep(s, past, events[0], id, d);
      CausedRun(Next(s, events[0]), past + [events[0]], events[1..], id, d);
      assert past + [events[0]] + events[1..] == past + events;
    }
  }

  /** On every run, a closed half goes back to its own drop, the peer's end, or the end of the response. */
  lemma ClosedForAReason(events: seq<Event>, id: StreamId, d: Direction)
    requires IsRun(START, events) && Run(START, events).codec.closed[(id, d)] == 1
    ensures exists e :: e in events && Causes(e, id, d)
  {
    CausedRun(START, [], events, id, d);
    assert [] + events == events;
  }

  // ---------- No lost wake-up ----------

  predicate Announced(s: System, id: StreamId) {
    || WaitingWritable(id) in s.queue
    || id in s.codec.waiting
    || id in s.inFlight
    || id in s.codec.tokens
    || id !in s.codec.streams
  }

  ghost predicate NoLostWakeup(s: System) {
    forall id :: id in s.sinks && s.sinks[id].Parked? ==> Announced(s, id)
  }

  /** The event drops the only trace of a parked sink: its stream's capacity query has failed. */
  predicate LosesWakeup(s: System, e: Event) {
    && e.NotifyStream? && e.result.None?
    && e.id in s.sinks && s.sinks[e.id].Parked? && e.id in s.codec.streams
    && WaitingWritable(e.id) !in s.queue && e.id !in s.codec.waiting && e.id !in s.codec.tokens
  }

  /** A step loses a wake-up exactly when it is such an event. */
  lemma WakeupStep(s: System, e: Event)
    requires TableInv(s) && NoLostWakeup(s) && Enabled(s, e)
    ensures NoLostWakeup(Next(s, e)) <==> !LosesWakeup(s, e)
  {
    var t := Next(s, e);
    if LosesWakeup(s, e) {
      assert !Announced(t, e.id);
    } else {
      forall id | id in t.sinks && t.sinks[id].Parked? ensures Announced(t, id) {
        if id in s.sinks && s.sinks[id].Parked? {
          assert Announced(s, id);
        }
        if e.HandleMessage? {
          assert s.queue == [s.queue[0]] + s.queue[1..];
        }
      }
    }
  }

  ghost predicate QueriesSucceed(events: seq<Event>) {
    forall e :: e in events ==> !(e.NotifyStream? && e.result.None?)
  }

  lemma {:induction false} WakeupRun(s: System, events: seq<Event>)
    requires TableInv(s) && NoLostWakeup(s) && IsRun(s, events) && QueriesSucceed(events)
    ensures NoLostWakeup(Run(s, events)) && TableInv(Run(s, events))
    decreases events
  {
    if events != [] {
      assert events[0] in events;
      TableStep(s, events[0]);
      WakeupStep(s, events[0]);
      WakeupRun(Next(s, events[0]), events[1..]);
    }
  }

  /** On every run in which the notification's capacity queries succeed, no wake-up is lost. */
  lemma NoWakeupIsLost(events: seq<Event>)
    requires IsRun(START, events) && QueriesSucceed(events)
    ensures NoLostWakeup(Run(START, events))
  {
    WakeupRun(START, events);
  }

  /** The failing case: one stream, parked, whose capacity query fails when it becomes writable. */
  lemma FailedQueryLosesWakeup() returns (events: seq<Event>, e: Event)
    ensures IsRun(START, events) && Enabled(Run(START, events), e)
    ensures !NoLostWakeup(Next(Run(START, events), e))
  {
    var s1 := Next(START, Request(0));
    var s2 := Next(s1, Park(0));
    assert 0 in s2.codec.streams;
    var s3 := Next(s2, HandleMessage);
    assert 0 in Ready(s3.codec, map[]);
    var s4 := Next(s3, SocketWritable(map[]));
    e := NotifyStream(0, None);
    RunPrepend(s3, SocketWritable(map[]), []);
    RunPrepend(s2, HandleMessage, [SocketWritable(map[])]);
    RunPrepend(s1, Park(0), [HandleMessage, SocketWritable(map[])]);
    RunPrepend(START, Request(0), [Park(0), HandleMessage, SocketWritable(map[])]);
    events := [Request(0)] + [Park(0), HandleMessage, SocketWritable(map[])];
    assert LosesWakeup(s4, e);
    assert !Announced(Next(s4, e), 0);
  }

  lemma RunPrepend(s: System, e: Event, rest: seq<Event>)
    requires Enabled(s, e) && IsRun(Next(s, e), rest)
    ensures IsRun(s, [e] + rest) && Run(s, [e] + rest) == Run(Next(s, e), rest)
  {
    assert ([e] + rest)[1..] == rest;
  }

  /** With a token sent on a failed query as well, every run is safe. */
  function Corrected(e: Event): (f: Event) {
    if e.NotifyStream? && e.result.None? then e.(result := Some(MIN_USABLE_CAPACITY)) else e
  }

  lemma CorrectedStepKeepsWakeups(s: System, e: Event)
    requires TableInv(s) && NoLostWakeup(s) && Enabled(s, e)
    ensures Enabled(s, Corrected(e)) && NoLostWakeup(Next(s, Corrected(e)))
  {
    WakeupStep(s, Corrected(e));
  }

  ghost predicate IsCorrectedRun(s: System, events: seq<Event>)
    decreases events
  {
    events != [] ==> Enabled(s, events[0]) && IsCorrectedRun(Next(s, Corrected(events[0])), events[1..])
  }

  ghost function CorrectedRun(s: System, events: seq<Event>): (r: System)
    requires IsCorrectedRun(s, events)
    decreases events
  {
    if events == [] then s else CorrectedRun(Next(s, Corrected(events[0])), events[1..])
  }

  /** With that correction no wake-up is lost on any run, failed queries included. */
  lemma {:induction false} CorrectedRunKeepsWakeups(s: System, events: seq<Event>)
    requires TableInv(s) && NoLostWakeup(s) && IsCorrectedRun(s, events)
    ensures NoLostWakeup(CorrectedRun(s, events))
    decreases events
  {
    if events != [] {
      var e := Corrected(events[0]);
      CorrectedStepKeepsWakeups(s, events[0]);
      TableStep(s, e);
      CorrectedRunKeepsWakeups(Next(s, e), events[1..]);
    }
  }

  lemma CorrectedNoWakeupIsLost(events: seq<Event>)
    requires IsCorrectedRun(START, events)
    ensures NoLostWakeup(CorrectedRun(START, events))
  {
    CorrectedRunKeepsWakeups(START, events);
  }

  /**
    * A step puts a token into a sink's channel exactly when it answers for that stream with at least 3
    * octets of capacity, the stream is there and so is its sink; with less, the stream waits again.
    */
  lemma TokenGivenExactly(s: System, e: Event, id: StreamId)
    requires TableInv(s) && Enabled(s, e) && id in s.sinks
    ensures id !in s.codec.tokens ==>
              (id in Next(s, e).codec.tokens <==>
               && e.NotifyStream? && e.id == id && e.result.Some? && e.result.value >= 3
               && id in s.codec.streams && !s.sinks[id].Dropped?)
    ensures e.NotifyStream? && e.id == id && e.result.Some? && e.result.value < 3 && id in s.codec.streams ==>
              id in Next(s, e).codec.waiting
  {
  }

  /** The socket reports exactly the waiting streams without a known capacity below 3 octets. */
  lemma ReportedExactly(s: System, capacity: map<StreamId, nat>, id: StreamId)
    requires Enabled(s, SocketWritable(capacity))
    ensures var t := Next(s, SocketWritable(capacity));
            && (id in t.inFlight <==> id in s.codec.waiting && !(id in capacity && capacity[id] < 3))
            && (id in t.codec.waiting <==> id in s.codec.waiting && id in capacity && capacity[id] < 3)
  {
  }

  // ---------- Answering a Writable event ----------

  /** The answers to the streams of a Writable event, one event each. */
  function Answering(ids: seq<StreamId>, capacity: map<StreamId, nat>): (events: seq<Event>) {
    if ids == [] then [] else [NotifyStream(ids[0], Lookup(capacity, ids[0]))] + Answering(ids[1..], capacity)
  }

  /** Answering a Writable event in one call is answering its streams by events in the same order. */
  lemma {:induction false} NotifyAllIsEvents(s: System, ids: seq<StreamId>, capacity: map<StreamId, nat>)
    requires s.alive && s.inFlight == (set id | id in ids) && forall i, j :: 0 <= i < j < |ids| ==> ids[i] != ids[j]
    ensures IsRun(s, Answering(ids, capacity))
    ensures Run(s, Answering(ids, capacity)) == s.(codec := NotifyAll(s.codec, ids, capacity), inFlight := {})
    decreases ids
  {
    if ids != [] {
      var e := NotifyStream(ids[0], Lookup(capacity, ids[0]));
      var t := Next(s, e);
      assert t.inFlight == (set id | id in ids[1..]);
      NotifyAllIsEvents(t, ids[1..], capacity);
      RunPrepend(s, e, Answering(ids[1..], capacity));
    }
  }

  // ---------- A parked sink can be woken by the codec alone ----------

  predicate CodecEvent(e: Event) {
    e.HandleMessage? || e.SocketWritable? || e.NotifyStream?
  }

  predicate Released(s: System, id: StreamId) {
    id in s.codec.tokens || id !in s.codec.streams
  }

  /**
    * Wherever no wake-up has been lost, the codec and the socket by themselves, given stream
    * capacity, come to release a parked sink: nothing the sink has to do is missing.
    */
  lemma {:induction false} ParkedSinkCanBeReleased(s: System, id: StreamId) returns (events: seq<Event>)
    requires s.alive && TableInv(s) && NoLostWakeup(s) && id in s.sinks && s.sinks[id].Parked?
    ensures IsRun(s, events) && Released(Run(s, events), id)
    ensures forall e :: e in events ==> CodecEvent(e)
    decreases |s.queue|, s.codec.waiting != {}, |s.inFlight|
  {
    if Released(s, id) {
      events := [];
    } else {
      var e := ReleasingEvent(s, id);
      TableStep(s, e);
      WakeupStep(s, e);
      var t := Next(s, e);
      var rest := ParkedSinkCanBeReleased(t, id);
      events := [e] + rest;
      RunPrepend(s, e, rest);
    }
  }

  lemma ReleasingEvent(s: System, id: StreamId) returns (e: Event)
    requires s.alive && NoLostWakeup(s) && id in s.sinks && s.sinks[id].Parked? && !Released(s, id)
    ensures Enabled(s, e) && CodecEvent(e) && !LosesWakeup(s, e)
    ensures var t := Next(s, e);
            && t.alive && t.sinks == s.sinks
            && (|t.queue| < |s.queue| ||
                (t.queue == s.queue && t.codec.waiting == {} != s.codec.waiting) ||
                (t.queue == s.queue && t.codec.waiting == s.codec.waiting && |t.inFlight| < |s.inFlight|))
  {
    assert Announced(s, id);
    if s.inFlight != {} {
      var other :| other in s.inFlight;
      e := NotifyStream(other, Some(MIN_USABLE_CAPACITY));
    } else if s.codec.waiting != {} {
      e := SocketWritable(map[]);
      assert Ready(s.codec, map[]) == s.codec.waiting;
    } else {
      e := HandleMessage;
    }
  }
}
