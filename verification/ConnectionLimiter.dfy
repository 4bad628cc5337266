/**
  * Per-client connection limits. A tunnel holds at most one guard; the limiter counts guards per
  * credentials and protocol family, and a guard gives its slot back when its tunnel is dropped.
  */
module ConnectionLimiter {
  import opened Wrappers

  const U32_LIMIT := 0x1_0000_0000

  type Credentials = string

  datatype Protocol = Http1 | Http2 | Http3

  /** The counters: HTTP/1 and HTTP/2 share one. */
  datatype Family = Tcp | Quic

  function FamilyOf(p: Protocol): (f: Family) {
    if p == Http3 then Quic else Tcp
  }

  datatype ClientEntry = ClientEntry(maxHttp2: Option<nat>, maxHttp3: Option<nat>, http2Count: nat, http3Count: nat) {
    function Count(f: Family): (n: nat) {
      if f == Tcp then http2Count else http3Count
    }

    function WithCount(f: Family, n: nat): (e: ClientEntry) {
      if f == Tcp then this.(http2Count := n) else this.(http3Count := n)
    }
  }

  datatype Limiter = Limiter(clients: map<Credentials, ClientEntry>, defaultHttp2: Option<nat>, defaultHttp3: Option<nat>) {
    /** The limit in force: the client's own, or the default. */
    function Limit(creds: Credentials, f: Family): (max: Option<nat>)
      requires creds in clients
    {
      if f == Tcp then (if clients[creds].maxHttp2.Some? then clients[creds].maxHttp2 else defaultHttp2)
      else (if clients[creds].maxHttp3.Some? then clients[creds].maxHttp3 else defaultHttp3)
    }

    function Count(creds: Credentials, f: Family): (n: nat)
      requires creds in clients
    {
      clients[creds].Count(f)
    }

    /** Every limit is a 32-bit number. */
    predicate LimitsFit() {
      forall creds, f :: creds in clients && Limit(creds, f).Some? ==> Limit(creds, f).value < U32_LIMIT
    }
  }

  datatype Guard = Guard(creds: Credentials, protocol: Protocol)

  /** Takes a slot. A counter wraps at 32 bits. */
  function Acquired(l: Limiter, creds: Credentials, protocol: Protocol): (r: (Limiter, Option<Guard>)) {
    if creds !in l.clients then (l, None)
    else
      var f := FamilyOf(protocol);
      var max := l.Limit(creds, f);
      if max.Some? && l.Count(creds, f) >= max.value then (l, None)
      else
        (l.(clients := l.clients[creds := l.clients[creds].WithCount(f, (l.Count(creds, f) + 1) % U32_LIMIT)]),
         Some(Guard(creds, protocol)))
  }

  /** Gives a slot back. A counter stays at zero. */
  function Released(l: Limiter, g: Guard): (r: Limiter) {
    if g.creds !in l.clients then l
    else
      var f := FamilyOf(g.protocol);
      var n := l.Count(g.creds, f);
      l.(clients := l.clients[g.creds := l.clients[g.creds].WithCount(f, if n == 0 then 0 else n - 1)])
  }

  /** A slot is counted as one more exactly when the counter does not wrap. */
  lemma AcquireCountsExactly(l: Limiter, creds: Credentials, protocol: Protocol)
    requires Acquired(l, creds, protocol).1.Some? && l.Count(creds, FamilyOf(protocol)) < U32_LIMIT
    ensures var m, f := Acquired(l, creds, protocol).0, FamilyOf(protocol);
            && (m.Count(creds, f) == l.Count(creds, f) + 1 <==> l.Count(creds, f) != U32_LIMIT - 1)
            && (l.LimitsFit() && l.Limit(creds, f).Some? ==> m.Count(creds, f) == l.Count(creds, f) + 1 <= l.Limit(creds, f).value)
  {
  }

  /** Giving a slot back undoes taking it, unless the counter wrapped. */
  lemma ReleaseUndoesAcquire(l: Limiter, creds: Credentials, protocol: Protocol)
    requires Acquired(l, creds, protocol).1.Some? && l.Count(creds, FamilyOf(protocol)) + 1 < U32_LIMIT
    ensures Released(Acquired(l, creds, protocol).0, Acquired(l, creds, protocol).1.value) == l
  {
    var f := FamilyOf(protocol);
    var e := l.clients[creds];
    assert e.WithCount(f, e.Count(f) + 1).WithCount(f, e.Count(f)) == e;
    assert l.clients[creds := e] == l.clients;
  }

  class LimiterState {
    var clients: map<Credentials, ClientEntry>
    const defaultHttp2: Option<nat>
    const defaultHttp3: Option<nat>

    ghost function View(): (l: Limiter)
      reads this
    {
      Limiter(clients, defaultHttp2, defaultHttp3)
    }

    constructor (entries: map<Credentials, (Option<nat>, Option<nat>)>, max2: Option<nat>, max3: Option<nat>)
      ensures View() == Limiter(map c | c in entries :: ClientEntry(entries[c].0, entries[c].1, 0, 0), max2, max3)
    {
      clients := map c | c in entries :: ClientEntry(entries[c].0, entries[c].1, 0, 0);
      defaultHttp2, defaultHttp3 := max2, max3;
    }

    method TryAcquire(creds: Credentials, protocol: Protocol) returns (guard: Option<Guard>)
      modifies this
      ensures (View(), guard) == Acquired(old(View()), creds, protocol)
    {
      if creds !in clients {
        return None;
      }
      var entry := clients[creds];
      var f := FamilyOf(protocol);
      var own := if f == Tcp then entry.maxHttp2 else entry.maxHttp3;
      var limit := if own.Some? then own else if f == Tcp then defaultHttp2 else defaultHttp3;
      if limit.Some? && entry.Count(f) >= limit.value {
        return None;
      }
      clients := clients[creds := entry.WithCount(f, (entry.Count(f) + 1) % U32_LIMIT)];
      return Some(Guard(creds, protocol));
    }

    method Release(g: Guard)
      modifies this
      ensures View() == Released(old(View()), g)
    {
      if g.creds in clients {
        var entry := clients[g.creds];
        var f := FamilyOf(g.protocol);
        clients := clients[g.creds := entry.WithCount(f, if entry.Count(f) == 0 then 0 else entry.Count(f) - 1)];
      }
    }
  }

  // ---------- Tunnels ----------

  datatype Source = Sni(creds: Credentials) | ProxyBasic(creds: Credentials)

  datatype Policy = Default | Authenticated(source: Source)

  /** The authentication info of a request. */
  datatype AuthInfo = Unreadable | Absent | Given(source: Source)

  datatype Tunnel = Tunnel(policy: Policy, guard: Option<Guard>, protocol: Protocol)

  /** The endpoint's settings: without an authenticator nothing is checked. */
  type Authenticator = Option<set<Source>>

  predicate Accepts(a: Authenticator, s: Source) {
    a.Some? && s in a.value
  }

  /** A new tunnel, possibly authenticated by its server name. */
  function Opened(a: Authenticator, l: Option<Limiter>, protocol: Protocol, sni: Option<Credentials>)
    : (r: (Option<Limiter>, Option<Tunnel>))
  {
    if a.None? || sni.None? then (l, Some(Tunnel(Default, None, protocol)))
    else
      var source := Sni(sni.value);
      if !Accepts(a, source) then (l, None)
      else if l.None? then (l, Some(Tunnel(Authenticated(source), None, protocol)))
      else
        var (m, guard) := Acquired(l.value, sni.value, protocol);
        (Some(m), if guard.None? then None else Some(Tunnel(Authenticated(source), guard, protocol)))
  }

  /** Before a request is handled: the first authenticated one takes the tunnel's slot, or ends the tunnel. */
  function Admitted(a: Authenticator, l: Option<Limiter>, t: Tunnel, info: AuthInfo): (r: (Option<Limiter>, Option<Tunnel>)) {
    if t.guard.None? && l.Some? && info.Given? && Accepts(a, info.source) then
      var (m, guard) := Acquired(l.value, info.source.creds, t.protocol);
      (Some(m), if guard.None? then None else Some(t.(guard := guard)))
    else (l, Some(t))
  }

  /** Whether a request's task gets past authentication. */
  predicate Passes(a: Authenticator, policy: Policy, info: AuthInfo) {
    match info
    case Unreadable => false
    case Given(source) => a.None? || source in a.value
    case Absent => a.None? || policy.Authenticated?
  }

  class TunnelState {
    const policy: Policy
    const protocol: Protocol
    const authenticator: Authenticator
    const limiter: LimiterState?
    var connectionGuard: Option<Guard>

    ghost function View(): (t: Tunnel)
      reads this
    {
      Tunnel(policy, connectionGuard, protocol)
    }

    ghost function Limits(): (l: Option<Limiter>)
      reads this, limiter
    {
      if limiter == null then None else Some(limiter.View())
    }

    constructor (a: Authenticator, l: LimiterState?, t: Tunnel)
      ensures View() == t && authenticator == a && limiter == l
    {
      policy, protocol, connectionGuard := t.policy, t.protocol, t.guard;
      authenticator, limiter := a, l;
    }

    /** Takes the slot before the request's task is spawned; false when the limit ends the tunnel. */
    method OnRequest(info: AuthInfo) returns (ok: bool)
      modifies this, limiter
      ensures (Limits(), if ok then Some(View()) else None) == Admitted(authenticator, old(Limits()), old(View()), info)
    {
      if connectionGuard.None? && limiter != null {
        if info.Given? && Accepts(authenticator, info.source) {
          var guard := limiter.TryAcquire(info.source.creds, protocol);
          if guard.None? {
            return false;
          }
          connectionGuard := guard;
        }
      }
      return true;
    }
  }

  method OnTunnelRequest(a: Authenticator, l: LimiterState?, protocol: Protocol, sni: Option<Credentials>)
    returns (tunnel: TunnelState?)
    modifies l
    ensures var (m, t) := Opened(a, if l == null then None else Some(old(l.View())), protocol, sni);
            && (l != null ==> Some(l.View()) == m)
            && (t.None? <==> tunnel == null) && (t.Some? ==> tunnel.View() == t.value && tunnel.limiter == l)
  {
    var t := Tunnel(Default, None, protocol);
    if a.Some? && sni.Some? {
      var source := Sni(sni.value);
      if source !in a.value {
        return null;
      }
      t := Tunnel(Authenticated(source), None, protocol);
      if l != null {
        var guard := l.TryAcquire(sni.value, protocol);
        if guard.None? {
          return null;
        }
        t := t.(guard := guard);
      }
    }
    tunnel := new TunnelState(a, l, t);
  }

  // ---------- Runs ----------

  type TunnelId = nat

  /** A spawned task, with the guard that its tunnel held then and the first source accepted on the tunnel. */
  datatype Task = Task(policy: Policy, info: AuthInfo, guard: Option<Guard>, first: Option<Source>) {
    /** The credentials that the task passes authentication with. */
    function Own(): (c: Credentials)
      requires info.Given? || policy.Authenticated?
    {
      if info.Given? then info.source.creds else policy.source.creds
    }
  }

  /** `firsts` records the first source, server name or request, that was accepted on each tunnel. */
  datatype System = System(authenticator: Authenticator, limiter: Option<Limiter>, tunnels: map<TunnelId, Tunnel>,
                           firsts: map<TunnelId, Source>, tasks: seq<Task>)

  datatype Event =
    | Open(id: TunnelId, protocol: Protocol, sni: Option<Credentials>)
    | Request(id: TunnelId, info: AuthInfo)
    | Drop(id: TunnelId)

  predicate Enabled(s: System, e: Event) {
    if e.Open? then e.id !in s.tunnels else e.id in s.tunnels
  }

  function Next(s: System, e: Event): (t: System)
    requires Enabled(s, e)
  {
    match e
    case Open(id, protocol, sni) =>
      var (l, tunnel) := Opened(s.authenticator, s.limiter, protocol, sni);
      if tunnel.None? then s.(limiter := l)
      else
        s.(limiter := l, tunnels := s.tunnels[id := tunnel.value],
           firsts := if tunnel.value.policy.Authenticated? then s.firsts[id := tunnel.value.policy.source] else s.firsts)
    case Request(id, info) =>
      var (l, tunnel) := Admitted(s.authenticator, s.limiter, s.tunnels[id], info);
      if tunnel.None? then Dropped(s.(limiter := l), id)
      else
        var firsts := Recorded(s, id, info);
        s.(limiter := l, tunnels := s.tunnels[id := tunnel.value], firsts := firsts,
           tasks := s.tasks + [Task(tunnel.value.policy, info, tunnel.value.guard,
                                    if id in firsts then Some(firsts[id]) else None)])
    case Drop(id) => Dropped(s, id)
  }

  /** A request's source counts if it is the first that is accepted on the tunnel. */
  function Recorded(s: System, id: TunnelId, info: AuthInfo): (m: map<TunnelId, Source>) {
    if info.Given? && Accepts(s.authenticator, info.source) && id !in s.firsts then s.firsts[id := info.source] else s.firsts
  }

  /** A dropped tunnel gives its slot back. */
  function Dropped(s: System, id: TunnelId): (t: System)
    requires id in s.tunnels
  {
    var guard := s.tunnels[id].guard;
    s.(limiter := if s.limiter.Some? && guard.Some? then Some(Released(s.limiter.value, guard.value)) else s.limiter,
       tunnels := s.tunnels - {id}, firsts := s.firsts - {id})
  }

  predicate Holds(t: Tunnel, creds: Credentials, f: Family) {
    t.guard.Some? && t.guard.value.creds == creds && FamilyOf(t.guard.value.protocol) == f
  }

  /** The tunnels that hold a guard for the credentials. */
  function Holders(tunnels: map<TunnelId, Tunnel>, creds: Credentials, f: Family): (ids: set<TunnelId>) {
    set id | id in tunnels && Holds(tunnels[id], creds, f)
  }

  /** The counter is the number of live guards, within the limit. */
  ghost predicate Exact(l: Limiter, tunnels: map<TunnelId, Tunnel>, creds: Credentials, f: Family) {
    creds in l.clients ==>
      && l.Count(creds, f) == |Holders(tunnels, creds, f)|
      && (l.Limit(creds, f).Some? ==> l.Count(creds, f) <= l.Limit(creds, f).value)
  }

  ghost predicate Accounted(s: System) {
    s.limiter.Some? ==>
      && (forall creds, f :: Exact(s.limiter.value, s.tunnels, creds, f))
      && (forall id :: id in s.tunnels && s.tunnels[id].guard.Some? ==> s.tunnels[id].guard.value.creds in s.limiter.value.clients)
  }

  /** With an authenticator and a limiter, authenticated tunnels hold a guard, and so did those of passing tasks. */
  predicate Guarded(s: System) {
    s.limiter.Some? && s.authenticator.Some? ==>
      && (forall id :: id in s.tunnels && s.tunnels[id].policy.Authenticated? ==> s.tunnels[id].guard.Some?)
      && (forall i :: 0 <= i < |s.tasks| && Passes(s.authenticator, s.tasks[i].policy, s.tasks[i].info) ==> s.tasks[i].guard.Some?)
  }

  /** A guard, if any, is for the first source that was accepted. */
  predicate IsFirsts(guard: Option<Guard>, first: Option<Source>, policy: Policy) {
    && (guard.Some? <==> first.Some?)
    && (guard.Some? ==> guard.value.creds == first.value.creds)
    && (policy.Authenticated? ==> first == Some(policy.source))
  }

  /** With an authenticator and a limiter, so are the guards of all tunnels and of all tasks. */
  predicate Credited(s: System) {
    s.limiter.Some? && s.authenticator.Some? ==>
      && s.firsts.Keys <= s.tunnels.Keys
      && (forall id :: id in s.tunnels ==>
            IsFirsts(s.tunnels[id].guard, if id in s.firsts then Some(s.firsts[id]) else None, s.tunnels[id].policy))
      && (forall i :: 0 <= i < |s.tasks| ==> IsFirsts(s.tasks[i].guard, s.tasks[i].first, s.tasks[i].policy))
  }

  /** Fewer tunnels than a counter can count. */
  predicate Countable(s: System) {
    |s.tunnels| < U32_LIMIT
  }

  lemma HoldersPut(tunnels: map<TunnelId, Tunnel>, id: TunnelId, t: Tunnel, creds: Credentials, f: Family)
    requires id in tunnels ==> tunnels[id].guard.None?
    ensures |Holders(tunnels[id := t], creds, f)| == |Holders(tunnels, creds, f)| + if Holds(t, creds, f) then 1 else 0
  {
    var before, after := Holders(tunnels, creds, f), Holders(tunnels[id := t], creds, f);
    assert after == if Holds(t, creds, f) then before + {id} else before;
  }

  lemma HoldersDropped(tunnels: map<TunnelId, Tunnel>, id: TunnelId, creds: Credentials, f: Family)
    requires id in tunnels
    ensures |Holders(tunnels, creds, f)| == |Holders(tunnels - {id}, creds, f)| + if Holds(tunnels[id], creds, f) then 1 else 0
  {
    var before, after := Holders(tunnels, creds, f), Holders(tunnels - {id}, creds, f);
    assert before == if Holds(tunnels[id], creds, f) then after + {id} else after;
  }

  /** A slot is taken for a tunnel that did not hold one. */
  lemma AcquireKeepsExact(l: Limiter, tunnels: map<TunnelId, Tunnel>, id: TunnelId, t: Tunnel, creds: Credentials, f: Family)
    requires Exact(l, tunnels, creds, f) && t.guard.Some? && (id in tunnels ==> tunnels[id].guard.None?)
    requires |tunnels[id := t]| < U32_LIMIT
    requires Acquired(l, t.guard.value.creds, t.guard.value.protocol).1 == t.guard
    ensures Exact(Acquired(l, t.guard.value.creds, t.guard.value.protocol).0, tunnels[id := t], creds, f)
  {
    HoldersPut(tunnels, id, t, creds, f);
    Counted(tunnels[id := t], creds, f);
  }

  lemma Counted(tunnels: map<TunnelId, Tunnel>, creds: Credentials, f: Family)
    ensures |Holders(tunnels, creds, f)| <= |tunnels|
  {
    Smaller(Holders(tunnels, creds, f), tunnels.Keys);
    assert |tunnels.Keys| == |tunnels|;
  }

  lemma {:induction false} Smaller<T>(a: set<T>, b: set<T>)
    requires a <= b
    ensures |a| <= |b|
    decreases a
  {
    if a != {} {
      var x :| x in a;
      Smaller(a - {x}, b - {x});
    }
  }

  /** A slot is given back with the tunnel that held it: the counter is not zero then. */
  lemma ReleaseKeepsExact(l: Limiter, tunnels: map<TunnelId, Tunnel>, id: TunnelId, creds: Credentials, f: Family)
    requires Exact(l, tunnels, creds, f) && id in tunnels && tunnels[id].guard.Some?
    ensures Exact(Released(l, tunnels[id].guard.value), tunnels - {id}, creds, f)
    ensures creds in l.clients && Holds(tunnels[id], creds, f) ==> l.Count(creds, f) > 0
  {
    HoldersDropped(tunnels, id, creds, f);
  }

  /** A tunnel that holds no guard counts for nothing. */
  lemma UnguardedKeepsExact(l: Limiter, tunnels: map<TunnelId, Tunnel>, id: TunnelId, t: Tunnel, creds: Credentials, f: Family)
    requires Exact(l, tunnels, creds, f) && (id in tunnels ==> tunnels[id].guard.None?)
    ensures Exact(l, tunnels - {id}, creds, f)
    ensures t.guard.None? ==> Exact(l, tunnels[id := t], creds, f)
  {
    assert Holders(tunnels - {id}, creds, f) == Holders(tunnels, creds, f);
    if t.guard.None? {
      assert Holders(tunnels[id := t], creds, f) == Holders(tunnels, creds, f);
    }
  }

  lemma DropKeepsAccounts(s: System, id: TunnelId)
    requires Accounted(s) && id in s.tunnels
    ensures Accounted(Dropped(s, id))
  {
    var t := Dropped(s, id);
    if s.limiter.Some? {
      forall creds, f ensures Exact(t.limiter.value, t.tunnels, creds, f) {
        if s.tunnels[id].guard.Some? {
          ReleaseKeepsExact(s.limiter.value, s.tunnels, id, creds, f);
        } else {
          UnguardedKeepsExact(s.limiter.value, s.tunnels, id, s.tunnels[id], creds, f);
        }
      }
    }
  }

  /** A tunnel takes its slot, or is there without one. */
  lemma PutKeepsAccounts(s: System, id: TunnelId, l: Option<Limiter>, t: Tunnel)
    requires Accounted(s) && (id in s.tunnels ==> s.tunnels[id].guard.None?)
    requires |s.tunnels[id := t]| < U32_LIMIT
    requires if s.limiter.Some? && t.guard.Some?
             then l.Some? && (l.value, t.guard) == Acquired(s.limiter.value, t.guard.value.creds, t.guard.value.protocol)
             else l == s.limiter && (s.limiter.Some? ==> t.guard.None?)
    ensures Accounted(s.(limiter := l, tunnels := s.tunnels[id := t]))
  {
    if s.limiter.Some? {
      var tunnels := s.tunnels[id := t];
      forall creds, f ensures Exact(l.value, tunnels, creds, f) {
        if t.guard.Some? {
          AcquireKeepsExact(s.limiter.value, s.tunnels, id, t, creds, f);
        } else {
          UnguardedKeepsExact(s.limiter.value, s.tunnels, id, t, creds, f);
        }
      }
    }
  }

  lemma OpenKeepsAccounts(s: System, e: Event)
    requires e.Open? && Enabled(s, e) && Accounted(s) && Countable(Next(s, e))
    ensures Accounted(Next(s, e))
  {
    var (l, tunnel) := Opened(s.authenticator, s.limiter, e.protocol, e.sni);
    if tunnel.Some? {
      PutKeepsAccounts(s, e.id, l, tunnel.value);
    }
  }

  lemma RequestKeepsAccounts(s: System, e: Event)
    requires e.Request? && Enabled(s, e) && Accounted(s) && Countable(Next(s, e))
    ensures Accounted(Next(s, e))
  {
    var held := s.tunnels[e.id];
    var (l, tunnel) := Admitted(s.authenticator, s.limiter, held, e.info);
    if tunnel.None? {
      assert l == s.limiter;
      DropKeepsAccounts(s, e.id);
    } else if held.guard.Some? {
      assert s.tunnels[e.id := held] == s.tunnels;
    } else {
      PutKeepsAccounts(s, e.id, l, tunnel.value);
    }
  }

  lemma StepKeepsAccounts(s: System, e: Event)
    requires Enabled(s, e) && Accounted(s) && Countable(Next(s, e))
    ensures Accounted(Next(s, e))
  {
    match e
    case Open(_, _, _) => OpenKeepsAccounts(s, e);
    case Request(_, _) => RequestKeepsAccounts(s, e);
    case Drop(id) => DropKeepsAccounts(s, id);
  }

  lemma StepKeepsGuarded(s: System, e: Event)
    requires Enabled(s, e) && Guarded(s)
    ensures Guarded(Next(s, e))
  {
  }

  lemma StepKeepsCredited(s: System, e: Event)
    requires Enabled(s, e) && Credited(s)
    ensures Credited(Next(s, e))
  {
  }

  /** The first accepted source is recorded when it comes and stays for as long as the tunnel does. */
  lemma FirstStays(s: System, e: Event, id: TunnelId)
    requires Enabled(s, e) && id in s.tunnels && id in Next(s, e).tunnels
    ensures id in s.firsts ==> id in Next(s, e).firsts && Next(s, e).firsts[id] == s.firsts[id]
    ensures id !in s.firsts ==>
      (id in Next(s, e).firsts <==> e.Request? && e.id == id && e.info.Given? && Accepts(s.authenticator, e.info.source))
  {
  }

  predicate IsRun(s: System, events: seq<Event>)
    decreases events
  {
    events == [] || (Enabled(s, events[0]) && Countable(Next(s, events[0])) && IsRun(Next(s, events[0]), events[1..]))
  }

  function Run(s: System, events: seq<Event>): (t: System)
    requires IsRun(s, events)
    decreases events
  {
    if events == [] then s else Run(Next(s, events[0]), events[1..])
  }

  lemma {:induction false} RunKeeps(s: System, events: seq<Event>)
    requires IsRun(s, events) && Accounted(s) && Guarded(s) && Credited(s)
    ensures Accounted(Run(s, events)) && Guarded(Run(s, events)) && Credited(Run(s, events))
    decreases events
  {
    if events != [] {
      StepKeepsAccounts(s, events[0]);
      StepKeepsGuarded(s, events[0]);
      StepKeepsCredited(s, events[0]);
      RunKeeps(Next(s, events[0]), events[1..]);
    }
  }

  /** An endpoint that has just started: no tunnels, and every counter at zero. */
  predicate Started(s: System) {
    && s.tunnels == map[] && s.firsts == map[] && s.tasks == []
    && (s.limiter.Some? ==> forall creds, f :: creds in s.limiter.value.clients ==> s.limiter.value.Count(creds, f) == 0)
  }

  lemma StartKeeps(s: System, events: seq<Event>)
    requires Started(s) && IsRun(s, events)
    ensures Accounted(Run(s, events)) && Guarded(Run(s, events)) && Credited(Run(s, events))
  {
    forall c, g ensures s.limiter.Some? ==> Exact(s.limiter.value, s.tunnels, c, g) {
      assert Holders(s.tunnels, c, g) == {};
    }
    RunKeeps(s, events);
  }

  /**
    * Over every run: each counter is the number of its live guards and within its limit, and with
    * an authenticator and a limiter every task that passes authentication was spawned by a tunnel
    * that held a guard.
    */
  lemma LimitsHold(s: System, events: seq<Event>, creds: Credentials, f: Family, i: nat)
    requires Started(s) && IsRun(s, events)
    ensures var t := Run(s, events);
            && (t.limiter.Some? && creds in t.limiter.value.clients ==>
                  && t.limiter.value.Count(creds, f) == |Holders(t.tunnels, creds, f)|
                  && (t.limiter.value.Limit(creds, f).Some? ==>
                        |Holders(t.tunnels, creds, f)| <= t.limiter.value.Limit(creds, f).value))
            && (t.limiter.Some? && t.authenticator.Some? && i < |t.tasks| ==>
                  Passes(t.authenticator, t.tasks[i].policy, t.tasks[i].info) ==> t.tasks[i].guard.Some?)
  {
    StartKeeps(s, events);
    var t := Run(s, events);
    assert t.limiter.Some? ==> Exact(t.limiter.value, t.tunnels, creds, f);
  }

  /**
    * Over every run, a slot is refused exactly to unknown clients and to those whose live guards have
    * reached the client's own limit or, where it has none, the default.
    */
  lemma SlotGivenExactly(s: System, events: seq<Event>, creds: Credentials, protocol: Protocol)
    requires Started(s) && IsRun(s, events) && Run(s, events).limiter.Some?
    ensures var t := Run(s, events);
            var l := t.limiter.value;
            var given := Acquired(l, creds, protocol).1 == Some(Guard(creds, protocol));
            && (creds !in l.clients ==> Acquired(l, creds, protocol) == (l, None))
            && (creds in l.clients && protocol != Http3 ==>
                  (given <==> WithinLimit(t, creds, Tcp, l.clients[creds].maxHttp2, l.defaultHttp2)))
            && (creds in l.clients && protocol == Http3 ==>
                  (given <==> WithinLimit(t, creds, Quic, l.clients[creds].maxHttp3, l.defaultHttp3)))
  {
    StartKeeps(s, events);
    var t := Run(s, events);
    assert Exact(t.limiter.value, t.tunnels, creds, FamilyOf(protocol));
  }

  predicate WithinLimit(s: System, creds: Credentials, f: Family, own: Option<nat>, byDefault: Option<nat>) {
    && (own.Some? ==> |Holders(s.tunnels, creds, f)| < own.value)
    && (own.None? && byDefault.Some? ==> |Holders(s.tunnels, creds, f)| < byDefault.value)
  }

  /**
    * Over every run, a task that passes authentication is counted under the first credentials that were
    * accepted on its tunnel: under its own exactly when they are the same, and always when it passes by
    * the server name.
    */
  lemma CountedUnderOwnExactly(s: System, events: seq<Event>, i: nat)
    requires Started(s) && IsRun(s, events) && i < |Run(s, events).tasks|
    requires Run(s, events).limiter.Some? && Run(s, events).authenticator.Some?
    requires var task := Run(s, events).tasks[i]; Passes(Run(s, events).authenticator, task.policy, task.info)
    ensures var task := Run(s, events).tasks[i];
            && task.guard.Some? && task.first.Some? && task.guard.value.creds == task.first.value.creds
            && (task.guard.value.creds == task.Own() <==> task.first.value.creds == task.Own())
            && (task.info.Absent? ==> task.guard.value.creds == task.Own())
  {
    StartKeeps(s, events);
    var t := Run(s, events);
    assert IsFirsts(t.tasks[i].guard, t.tasks[i].first, t.tasks[i].policy);
  }

  /** The failing case: a later request on the tunnel passes with other credentials. */
  lemma GuardIsOfTheFirst(s: System, a: Credentials, b: Credentials, events: seq<Event>)
    requires Started(s) && a != b && s.authenticator == Some({ProxyBasic(a), ProxyBasic(b)})
    requires s.limiter == Some(Limiter(map[a := ClientEntry(None, None, 0, 0), b := ClientEntry(None, None, 0, 0)], None, None))
    requires events == [Open(0, Http2, None), Request(0, Given(ProxyBasic(a))), Request(0, Given(ProxyBasic(b)))]
    ensures IsRun(s, events) && |Run(s, events).tasks| == 2
    ensures Run(s, events).tasks[1].guard == Some(Guard(a, Http2)) && Run(s, events).tasks[1].info == Given(ProxyBasic(b))
  {
    var s1 := Next(s, events[0]);
    var s2 := Next(s1, events[1]);
    var s3 := Next(s2, events[2]);
    assert events[1..][0] == events[1] && events[1..][1..][0] == events[2] && events[1..][1..][1..] == [];
    assert s1.tunnels == map[0 := Tunnel(Default, None, Http2)];
    assert s2.tunnels == map[0 := Tunnel(Default, Some(Guard(a, Http2)), Http2)];
    assert s3.tunnels == s2.tunnels;
    assert IsRun(s2, events[1..][1..]) && IsRun(s1, events[1..]);
    assert Run(s2, events[1..][1..]) == s3;
    assert Run(s1, events[1..]) == s3;
  }
}
