/**
  * The two UDP connection tables of a tunnel: the pipe's, which counts pending DNS queries and
  * ages connections out, and the direct forwarder's, which owns the sockets. Both pipe halves run
  * in one task, so the tables are compared where that task can be suspended.
  */
module UdpTables {
  import opened Wrappers
  import opened NetAddress

  const PLAIN_DNS_PORT := 53

  datatype Meta = Meta(source: SocketAddr, destination: SocketAddr) {
    function Reversed(): (m: Meta) {
      Meta(destination, source)
    }
  }

  /** `queries` is there for plain DNS connections only. */
  datatype UdpConnection = UdpConnection(lastActivity: int, queries: Option<nat>) {
    function Outgoing(now: int): (c: UdpConnection) {
      UdpConnection(now, if queries.Some? then Some(queries.value + 1) else None)
    }

    function Incoming(now: int): (c: UdpConnection) {
      UdpConnection(now, if queries.Some? then Some(if queries.value > 0 then queries.value - 1 else 0) else None)
    }
  }

  /** The forwarder's flag tells whether its reader has been woken for the connection. */
  datatype Tables = Tables(pipe: map<Meta, UdpConnection>, forwarder: map<Meta, bool>, closures: seq<Meta>)

  const EMPTY := Tables(map[], map[], [])

  /**
    * Both tables hold the same connections, no closure waits to be reported, and every DNS
    * connection has a query pending, so that no reply makes the count saturate.
    */
  ghost predicate Agree(t: Tables) {
    && t.pipe.Keys == t.forwarder.Keys
    && t.closures == []
    && forall m :: m in t.pipe ==>
         && (t.pipe[m].queries.Some? <==> m.destination.port == PLAIN_DNS_PORT)
         && (t.pipe[m].queries.Some? ==> t.pipe[m].queries.value > 0)
  }

  function Fresh(m: Meta, now: int): (c: UdpConnection) {
    UdpConnection(now, if m.destination.port == PLAIN_DNS_PORT then Some(1) else None)
  }

  /** A client packet; `usable` says that its destination is allowed and a socket can be made. */
  function ClientPacket(t: Tables, m: Meta, now: int, usable: bool): (r: (Tables, bool)) {
    if m in t.pipe then (t.(pipe := t.pipe[m := t.pipe[m].Outgoing(now)]), true)
    else if !usable || m in t.forwarder then (t, false)
    else (t.(pipe := t.pipe[m := Fresh(m, now)], forwarder := t.forwarder[m := false]), true)
  }

  /** The forwarder drops the connection that answers to `m`. */
  function ConnectionClosed(t: Tables, m: Meta): (r: Tables) {
    t.(forwarder := t.forwarder - {m.Reversed()})
  }

  /** A peer's datagram, addressed the other way round, has been passed to the client. */
  function PeerDatagram(t: Tables, m: Meta, now: int): (r: Tables) {
    var key := m.Reversed();
    if key !in t.pipe then t
    else
      var c := t.pipe[key].Incoming(now);
      if c.queries == Some(0) then ConnectionClosed(t.(pipe := t.pipe - {key}), m)
      else t.(pipe := t.pipe[key := c])
  }

  function SocketError(t: Tables, m: Meta): (r: Tables) {
    if m in t.forwarder then t.(forwarder := t.forwarder - {m}, closures := t.closures + [m]) else t
  }

  function ReportClosure(t: Tables): (r: Tables)
    requires t.closures != []
  {
    t.(closures := t.closures[1..], pipe := t.pipe - {t.closures[0]})
  }

  function Expired(t: Tables, cutoff: int): (ms: set<Meta>) {
    set m | m in t.pipe && t.pipe[m].lastActivity < cutoff
  }

  /** The timer tick: the pipe drops the expired keys, the forwarder the keys it takes them for. */
  function Tick(t: Tables, cutoff: int): (r: Tables) {
    var gone := Expired(t, cutoff);
    t.(pipe := t.pipe - gone, forwarder := t.forwarder - Reversals(gone))
  }

  function Reversals(ms: set<Meta>): (rs: set<Meta>) {
    set m | m in ms :: m.Reversed()
  }

  /** The tick that passes the reversed key. */
  function CorrectedTick(t: Tables, cutoff: int): (r: Tables) {
    var gone := Expired(t, cutoff);
    t.(pipe := t.pipe - gone, forwarder := t.forwarder - gone)
  }

  datatype WriteResult = NotFound | SendFailed | Sent

  class UdpTunnel {
    var udpConnections: map<Meta, UdpConnection>
    var connections: map<Meta, bool>
    var pendingClosures: seq<Meta>
    /** The one slot of the channel that wakes the reader. */
    var wakeToken: bool

    ghost function View(): (t: Tables)
      reads this
    {
      Tables(udpConnections, connections, pendingClosures)
    }

    constructor ()
      ensures View() == EMPTY && !wakeToken
    {
      udpConnections, connections, pendingClosures, wakeToken := map[], map[], [], false;
    }

    method OnNewUdpConnection(m: Meta, usable: bool) returns (ok: bool)
      modifies this`connections
      ensures ok <==> usable && m !in old(connections)
      ensures connections == if ok then old(connections)[m := false] else old(connections)
    {
      ok := usable && m !in connections;
      if ok {
        connections := connections[m := false];
      }
    }

    method OnConnectionClosed(m: Meta)
      modifies this`connections
      ensures View() == ConnectionClosed(old(View()), m)
    {
      connections := connections - {m.Reversed()};
    }

    method LeftOnUdpPacket(m: Meta, now: int, usable: bool) returns (ok: bool)
      modifies this
      ensures (View(), ok) == ClientPacket(old(View()), m, now, usable)
    {
      if m in udpConnections {
        udpConnections := udpConnections[m := udpConnections[m].Outgoing(now)];
        return true;
      }
      ok := OnNewUdpConnection(m, usable);
      if ok {
        var isPlainDns := m.destination.port == PLAIN_DNS_PORT;
        var connection := UdpConnection(now, if isPlainDns then Some(0) else None);
        udpConnections := udpConnections[m := connection.Outgoing(now)];
      }
    }

    /** The first half of a write, up to the socket's answer: an unknown connection is an error. */
    method SinkWrite(m: Meta, sendOk: bool) returns (r: WriteResult)
      ensures r == if m !in connections then NotFound else if sendOk then Sent else SendFailed
    {
      if m !in connections {
        return NotFound;
      }
      return if sendOk then Sent else SendFailed;
    }

    /**
      * The second half: a connection that is still there is noted as listened to, and the reader is
      * woken for it the first time only. A token that is already there will do.
      */
    method SinkWake(m: Meta, readerAlive: bool) returns (ok: bool)
      modifies this`connections, this`wakeToken
      ensures ok <==> readerAlive || m !in old(connections) || old(connections)[m]
      ensures connections == if ok && m in old(connections) then old(connections)[m := true] else old(connections)
      ensures wakeToken <==> old(wakeToken) || (ok && m in old(connections) && !old(connections)[m])
    {
      if m in connections && !connections[m] {
        if !readerAlive {
          return false;
        }
        wakeToken := true;
        connections := connections[m := true];
      }
      assert m in old(connections) && old(connections)[m] ==> old(connections)[m := true] == old(connections);
      return true;
    }

    method RightOnDatagram(m: Meta, now: int)
      modifies this
      ensures View() == PeerDatagram(old(View()), m, now)
    {
      var reversed := m.Reversed();
      if reversed !in udpConnections {
        return;
      }
      var c := udpConnections[reversed].Incoming(now);
      udpConnections := udpConnections[reversed := c];
      if c.queries == Some(0) {
        udpConnections := udpConnections - {reversed};
        assert udpConnections == old(udpConnections) - {reversed};
        OnConnectionClosed(m);
      }
    }

    method OnSocketError(m: Meta)
      modifies this
      ensures View() == SocketError(old(View()), m)
    {
      if m in connections {
        connections := connections - {m};
        pendingClosures := pendingClosures + [m];
      }
    }

    /** The reader pops a closure and the pipe forgets the connection. */
    method RightOnClose()
      requires pendingClosures != []
      modifies this
      ensures View() == ReportClosure(old(View()))
    {
      var m := pendingClosures[0];
      pendingClosures := pendingClosures[1..];
      udpConnections := udpConnections - {m};
    }

    method OnTimerTick(cutoff: int)
      modifies this
      ensures View() == Tick(old(View()), cutoff)
    {
      var expired := set m | m in udpConnections && udpConnections[m].lastActivity < cutoff;
      var left := expired;
      while left != {}
        invariant left <= expired && pendingClosures == old(pendingClosures)
        invariant udpConnections == old(udpConnections) - (expired - left)
        invariant connections == old(connections) - Reversals(expired - left)
        decreases left
      {
        var m :| m in left;
        udpConnections := udpConnections - {m};
        OnConnectionClosed(m);
        assert expired - (left - {m}) == (expired - left) + {m};
        ReversalsAdd(expired - left, m);
        left := left - {m};
      }
    }
  }

  lemma ReversalsAdd(ms: set<Meta>, m: Meta)
    ensures Reversals(ms + {m}) == Reversals(ms) + {m.Reversed()}
  {
    assert m in ms + {m};
    forall r | r in Reversals(ms) ensures r in Reversals(ms + {m}) {
      var n :| n in ms && n.Reversed() == r;
      assert n in ms + {m};
    }
  }

  lemma InReversals(ms: set<Meta>, m: Meta)
    ensures m in Reversals(ms) <==> m.Reversed() in ms
  {
    if m.Reversed() in ms {
      assert m.Reversed().Reversed() == m;
    }
  }

  // ---------- Runs ----------

  /** What can happen between two suspension points of the task. */
  datatype Event =
    | FromClient(meta: Meta, now: int, usable: bool)
    | Written(meta: Meta)
    | FromPeer(meta: Meta, now: int)
    | SocketFailed(meta: Meta)
    | TimerTick(cutoff: int)

  /** A socket error and the report of its closure happen without a suspension in between. */
  function Next(t: Tables, e: Event): (r: Tables) {
    match e
    case FromClient(m, now, usable) => ClientPacket(t, m, now, usable).0
    case Written(m) => if m in t.forwarder then t.(forwarder := t.forwarder[m := true]) else t
    case FromPeer(m, now) => PeerDatagram(t, m, now)
    case SocketFailed(m) =>
      var s := SocketError(t, m);
      if s.closures == [] then s else ReportClosure(s)
    case TimerTick(cutoff) => Tick(t, cutoff)
  }

  function Run(t: Tables, events: seq<Event>): (r: Tables)
    decreases events
  {
    if events == [] then t else Run(Next(t, events[0]), events[1..])
  }

  /** A creation that fails changes neither table; otherwise the packet's connection is in both. */
  lemma ClientPacketKeepsAgreement(t: Tables, m: Meta, now: int, usable: bool)
    requires Agree(t)
    ensures var (r, ok) := ClientPacket(t, m, now, usable);
            && Agree(r)
            && (ok <==> m in t.pipe || usable)
            && (ok ==> m in r.pipe && m in r.forwarder)
            && (!ok ==> r == t)
  {
  }

  lemma StepKeepsAgreement(t: Tables, e: Event)
    requires Agree(t) && !e.TimerTick?
    ensures Agree(Next(t, e))
  {
    match e {
      case FromClient(m, now, usable) =>
        ClientPacketKeepsAgreement(t, m, now, usable);
      case FromPeer(m, now) =>
        assert m.Reversed().Reversed() == m;
      case SocketFailed(m) =>
        if m in t.forwarder {
          assert SocketError(t, m).closures == [m];
        }
      case _ =>
    }
  }

  lemma {:induction false} AgreementRun(t: Tables, events: seq<Event>)
    requires Agree(t) && forall e :: e in events ==> !e.TimerTick?
    ensures Agree(Run(t, events))
    decreases events
  {
    if events != [] {
      assert events[0] in events;
      StepKeepsAgreement(t, events[0]);
      AgreementRun(Next(t, events[0]), events[1..]);
    }
  }

  /** On every run without a timer tick the two tables agree. */
  lemma TablesAgree(events: seq<Event>)
    requires forall e :: e in events ==> !e.TimerTick?
    ensures Agree(Run(EMPTY, events))
  {
    AgreementRun(EMPTY, events);
  }

  /** A tick keeps the agreement exactly when what expires is closed under reversal. */
  lemma TickKeepsAgreementExactly(t: Tables, cutoff: int)
    requires Agree(t)
    ensures Agree(Tick(t, cutoff)) <==>
            forall m :: m in Expired(t, cutoff) ==> m.Reversed() in Expired(t, cutoff)
  {
    var gone, after := Expired(t, cutoff), Tick(t, cutoff);
    forall m ensures m in after.pipe <==> m in t.pipe && m !in gone {
    }
    forall m ensures m in after.forwarder <==> m in t.pipe && m.Reversed() !in gone {
      InReversals(gone, m);
    }
    if forall m :: m in gone ==> m.Reversed() in gone {
      forall m | m in t.pipe ensures m in gone <==> m.Reversed() in gone {
        assert m.Reversed().Reversed() == m;
      }
      assert after.pipe.Keys == after.forwarder.Keys;
    } else {
      var m :| m in gone && m.Reversed() !in gone;
      assert m in after.forwarder && m !in after.pipe;
    }
  }

  /** The failing case: one connection that is not its own reversal expires. */
  lemma TickBreaksAgreement(m: Meta)
    requires m.Reversed() != m
    ensures !Agree(Run(EMPTY, [FromClient(m, 0, true), TimerTick(1)]))
  {
    var events := [FromClient(m, 0, true), TimerTick(1)];
    var t := Next(EMPTY, events[0]);
    assert Expired(t, 1) == {m};
    AgreementRun(EMPTY, [events[0]]);
    TickKeepsAgreementExactly(t, 1);
    assert events[1..][0] == TimerTick(1) && events[1..][1..] == [];
    assert Run(t, events[1..]) == Run(Tick(t, 1), events[1..][1..]);
  }

  /** A connection that a tick has taken out of the pipe's table only. */
  predicate Stale(t: Tables, m: Meta) {
    m in t.forwarder && m !in t.pipe
  }

  /** The events that clear such an entry: its socket fails, or its reversal expires. */
  predicate Clears(t: Tables, m: Meta, e: Event) {
    e == SocketFailed(m) || (e.TimerTick? && m.Reversed() in Expired(t, e.cutoff))
  }

  lemma StaleStaysExactly(t: Tables, m: Meta, e: Event)
    requires Stale(t, m)
    ensures Stale(Next(t, e), m) <==> !Clears(t, m, e)
  {
    if e.TimerTick? {
      InReversals(Expired(t, e.cutoff), m);
    }
  }

  predicate NeverCleared(t: Tables, m: Meta, events: seq<Event>)
    decreases events
  {
    events == [] || (!Clears(t, m, events[0]) && NeverCleared(Next(t, events[0]), m, events[1..]))
  }

  /** Until it is cleared, the entry stays and every packet for the connection fails. */
  lemma {:induction false} StaleEntryBlocksClient(t: Tables, m: Meta, events: seq<Event>, now: int, usable: bool)
    requires Stale(t, m) && NeverCleared(t, m, events)
    ensures Stale(Run(t, events), m) && ClientPacket(Run(t, events), m, now, usable) == (Run(t, events), false)
    decreases events
  {
    if events != [] {
      StaleStaysExactly(t, m, events[0]);
      StaleEntryBlocksClient(Next(t, events[0]), m, events[1..], now, usable);
    }
  }

  lemma CorrectedTickKeepsAgreement(t: Tables, cutoff: int)
    requires Agree(t)
    ensures Agree(CorrectedTick(t, cutoff))
  {
  }

  function CorrectedNext(t: Tables, e: Event): (r: Tables) {
    if e.TimerTick? then CorrectedTick(t, e.cutoff) else Next(t, e)
  }

  function CorrectedRun(t: Tables, events: seq<Event>): (r: Tables)
    decreases events
  {
    if events == [] then t else CorrectedRun(CorrectedNext(t, events[0]), events[1..])
  }

  /** With the reversed key passed on, every run agrees, ticks included. */
  lemma {:induction false} CorrectedTablesAgree(t: Tables, events: seq<Event>)
    requires Agree(t)
    ensures Agree(CorrectedRun(t, events))
    decreases events
  {
    if events != [] {
      if !events[0].TimerTick? {
        StepKeepsAgreement(t, events[0]);
      }
      CorrectedTablesAgree(CorrectedNext(t, events[0]), events[1..]);
    }
  }

  // ---------- What the table says of a connection ----------

  /** A connection's history since it was made: its client packets, its replies, and the last of either. */
  datatype Life = Absent | Live(sent: nat, replies: nat, last: int)

  /** `held` says whether the forwarder has a socket for the connection when the event happens. */
  function LifeNext(life: Life, m: Meta, held: bool, e: Event): (r: Life) {
    match e
    case FromClient(x, now, usable) =>
      if x != m then life
      else if life.Live? then Live(life.sent + 1, life.replies, now)
      else if usable && !held then Live(1, 0, now)
      else Absent
    case FromPeer(x, now) =>
      if life.Absent? || x != Meta(m.destination, m.source) then life
      else if m.destination.port == 53 && life.replies + 1 == life.sent then Absent
      else Live(life.sent, life.replies + 1, now)
    case SocketFailed(x) => if x == m && held then Absent else life
    case TimerTick(cutoff) => if life.Live? && life.last < cutoff then Absent else life
    case Written(_) => life
  }

  /** The pipe's entry is the history: a DNS connection counts the packets that have no reply yet. */
  predicate Records(t: Tables, m: Meta, life: Life) {
    && (m in t.pipe <==> life.Live?)
    && (life.Live? ==> t.pipe[m].lastActivity == life.last)
    && (life.Live? && m.destination.port == 53 ==>
          life.sent > life.replies && t.pipe[m].queries == Some((life.sent - life.replies) as nat))
    && (life.Live? && m.destination.port != 53 ==> t.pipe[m].queries == None)
  }

  lemma RecordsStep(t: Tables, m: Meta, life: Life, e: Event)
    requires Records(t, m, life) && t.closures == []
    ensures Records(Next(t, e), m, LifeNext(life, m, m in t.forwarder, e)) && Next(t, e).closures == []
  {
    match e {
      case FromPeer(x, now) =>
        assert x.Reversed() == m <==> x == m.Reversed();
      case SocketFailed(x) =>
        assert x in t.forwarder ==> SocketError(t, x).closures == [x];
      case _ =>
    }
  }

  function LifeAlong(t: Tables, m: Meta, life: Life, events: seq<Event>): (r: Life)
    decreases events
  {
    if events == [] then life
    else LifeAlong(Next(t, events[0]), m, LifeNext(life, m, m in t.forwarder, events[0]), events[1..])
  }

  lemma {:induction false} RecordsRun(t: Tables, m: Meta, life: Life, events: seq<Event>)
    requires Records(t, m, life) && t.closures == []
    ensures Records(Run(t, events), m, LifeAlong(t, m, life, events))
    decreases events
  {
    if events != [] {
      RecordsStep(t, m, life, events[0]);
      RecordsRun(Next(t, events[0]), m, LifeNext(life, m, m in t.forwarder, events[0]), events[1..]);
    }
  }

  /** On every run, ticks included, the pipe's entry for a connection is its history. */
  lemma TableIsHistory(events: seq<Event>, m: Meta)
    ensures Records(Run(EMPTY, events), m, LifeAlong(EMPTY, m, Absent, events))
  {
    RecordsRun(EMPTY, m, Absent, events);
  }

  /** The history on the events alone, for tables that agree: a socket is held while the connection lives. */
  function LifeOf(m: Meta, life: Life, events: seq<Event>): (r: Life)
    decreases events
  {
    if events == [] then life else LifeOf(m, LifeNext(life, m, life.Live?, events[0]), events[1..])
  }

  lemma {:induction false} CorrectedRecordsRun(t: Tables, m: Meta, life: Life, events: seq<Event>)
    requires Records(t, m, life) && Agree(t)
    ensures Records(CorrectedRun(t, events), m, LifeOf(m, life, events))
    ensures m in CorrectedRun(t, events).forwarder <==> LifeOf(m, life, events).Live?
    decreases events
  {
    if events != [] {
      if !events[0].TimerTick? {
        StepKeepsAgreement(t, events[0]);
        RecordsStep(t, m, life, events[0]);
      }
      CorrectedRecordsRun(CorrectedNext(t, events[0]), m, LifeNext(life, m, life.Live?, events[0]), events[1..]);
    }
  }

  lemma {:induction false} WithoutTicks(t: Tables, events: seq<Event>)
    requires forall e :: e in events ==> !e.TimerTick?
    ensures Run(t, events) == CorrectedRun(t, events)
    decreases events
  {
    if events != [] {
      assert events[0] in events;
      WithoutTicks(Next(t, events[0]), events[1..]);
    }
  }

  /** Without a tick, or with the corrected one, both tables follow from the events alone. */
  lemma TablesFollowEvents(events: seq<Event>, m: Meta)
    ensures var t, life := CorrectedRun(EMPTY, events), LifeOf(m, Absent, events);
            Records(t, m, life) && (m in t.forwarder <==> life.Live?)
    ensures (forall e :: e in events ==> !e.TimerTick?) ==>
              var t, life := Run(EMPTY, events), LifeOf(m, Absent, events);
              Records(t, m, life) && (m in t.forwarder <==> life.Live?)
  {
    CorrectedRecordsRun(EMPTY, m, Absent, events);
    if forall e :: e in events ==> !e.TimerTick? {
      WithoutTicks(EMPTY, events);
    }
  }
}
