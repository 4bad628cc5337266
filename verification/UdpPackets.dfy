/**
  * What the UDP decoder makes of whole packets, however the stream that carries them is cut.
  *
  * A packet is a 4-octet length and a body. Acceptable bodies are decoded whatever the
  * segmentation; any other body makes the decoder lose what follows it. A decoder that hands
  * back what follows the dropped octets is right on every stream.
  */
module UdpPackets {
  import opened Wrappers
  import opened Bytes
  import opened NetAddress
  import opened Utf8
  import opened UdpFraming

  // ---------- Packets ----------

  predicate Sized(body: seq<byte>) {
    |body| < 0x1_0000_0000
  }

  function Packet(body: seq<byte>): (s: seq<byte>)
    requires Sized(body)
  {
    ToBE(|body|, LENGTH_SIZE) + body
  }

  function Packets(bodies: seq<seq<byte>>): (s: seq<byte>)
    requires forall b :: b in bodies ==> Sized(b)
  {
    if bodies == [] then [] else Packet(bodies[0]) + Packets(bodies[1..])
  }

  /** The size tests of the header and the UTF-8 test of the name. */
  predicate Acceptable(body: seq<byte>) {
    && 37 <= |body|
    && 37 + body[36] as int <= |body| <= 65471 - body[36] as int
    && IsUtf8(body[37..37 + body[36]])
  }

  function DatagramOf(body: seq<byte>): (d: Datagram)
    requires Acceptable(body)
  {
    var nameEnd := FIXED_HEADER_SIZE + body[36];
    Datagram(ReadSocketAddr(body[..18]), ReadSocketAddr(body[18..36]),
             Some(body[FIXED_HEADER_SIZE..nameEnd]), body[nameEnd..])
  }

  function Intended(body: seq<byte>): (ds: seq<Datagram>) {
    if Acceptable(body) then [DatagramOf(body)] else []
  }

  function IntendedAll(bodies: seq<seq<byte>>): (ds: seq<Datagram>) {
    if bodies == [] then [] else Intended(bodies[0]) + IntendedAll(bodies[1..])
  }

  // ---------- Datagrams as a client writes them ----------

  predicate Sendable(d: Datagram) {
    && d.source.WellFormed() && d.destination.WellFormed()
    && d.appName.Some? && |d.appName.value| < 256 && IsUtf8(d.appName.value)
    && FIXED_HEADER_SIZE + |d.appName.value| + |d.payload| <= MAX_UDP_IN_PAYLOAD_SIZE - |d.appName.value|
  }

  function WriteSocketAddr(a: SocketAddr): (s: seq<byte>)
    requires a.WellFormed()
    ensures |s| == 18
  {
    PutFixedSizeIp(a.ip) + ToBE(a.port, 2)
  }

  function Body(d: Datagram): (s: seq<byte>)
    requires Sendable(d)
  {
    WriteSocketAddr(d.source) + WriteSocketAddr(d.destination) + [|d.appName.value|] + d.appName.value + d.payload
  }

  function CanonicalAddr(a: SocketAddr): (c: SocketAddr)
    requires a.WellFormed()
  {
    a.(ip := Canonical(a.ip))
  }

  lemma ReadWriteSocketAddr(a: SocketAddr)
    requires a.WellFormed()
    ensures ReadSocketAddr(WriteSocketAddr(a)) == CanonicalAddr(a)
  {
    var s := WriteSocketAddr(a);
    assert s[..16] == PutFixedSizeIp(a.ip) && s[16..] == ToBE(a.port, 2);
    GetPutFixedSizeIp(a.ip);
    Pow256Values();
    FromToBE(a.port, 2);
  }

  /** A sendable datagram is read back with its addresses in canonical form. */
  lemma DatagramRoundTrip(d: Datagram)
    requires Sendable(d)
    ensures Acceptable(Body(d))
    ensures DatagramOf(Body(d)) ==
            d.(source := CanonicalAddr(d.source), destination := CanonicalAddr(d.destination))
  {
    var body := Body(d);
    var n := |d.appName.value|;
    assert body[36] == n;
    assert body[..18] == WriteSocketAddr(d.source);
    assert body[18..36] == WriteSocketAddr(d.destination);
    assert body[FIXED_HEADER_SIZE..FIXED_HEADER_SIZE + n] == d.appName.value;
    assert body[FIXED_HEADER_SIZE + n..] == d.payload;
    ReadWriteSocketAddr(d.source);
    ReadWriteSocketAddr(d.destination);
  }

  // ---------- The decoder that hands back what follows the dropped octets ----------

  function CorrectedStep(f: Fields, data: seq<byte>): (r: Outcome)
    requires Coherent(f) && data != []
    ensures Coherent(r.fields)
    ensures Smaller(r.fields, r.tail, f, data)
  {
    if !f.state.Dropping? then Step(f, data)
    else if |data| < f.state.remaining then
      Outcome(f.(state := Dropping(f.state.remaining - |data|)), None, [])
    else
      Outcome(f.(state := Length), None, data[f.state.remaining..])
  }

  function CorrectedFeed(f: Fields, data: seq<byte>): (r: (Fields, seq<Datagram>))
    requires Coherent(f)
    ensures Coherent(r.0)
    decreases |data|, Rank(f.state), ToDrop(f.state)
  {
    if data == [] then (f, [])
    else
      var s := CorrectedStep(f, data);
      var (g, ds) := CorrectedFeed(s.fields, s.tail);
      (g, Emitted(s.emitted) + ds)
  }

  function CorrectedFeedAll(f: Fields, chunks: seq<seq<byte>>): (r: (Fields, seq<Datagram>))
    requires Coherent(f)
    ensures Coherent(r.0)
    decreases chunks
  {
    if chunks == [] then (f, [])
    else
      var (g, ds) := CorrectedFeed(f, chunks[0]);
      var (h, es) := CorrectedFeedAll(g, chunks[1..]);
      (h, ds + es)
  }

  /** Cutting a piece in two changes nothing. */
  lemma {:induction false} CorrectedCut(f: Fields, a: seq<byte>, b: seq<byte>)
    requires Coherent(f)
    ensures CutHolds(f, a, b)
    decreases |a|, Rank(f.state), ToDrop(f.state)
  {
    if a == [] {
      assert a + b == b && [] + CorrectedFeed(f, b).1 == CorrectedFeed(f, b).1;
    } else if b == [] {
      assert a + b == a && CorrectedFeed(f, a).1 + [] == CorrectedFeed(f, a).1;
    } else if StaysInField(f, a) {
      CutInField(f, a, b);
    } else {
      CorrectedCut(CorrectedStep(f, a).fields, CorrectedStep(f, a).tail, b);
      CutAfterField(f, a, b);
    }
  }

  ghost predicate CutHolds(f: Fields, a: seq<byte>, b: seq<byte>)
    requires Coherent(f)
  {
    var (g, ds) := CorrectedFeed(f, a);
    CorrectedFeed(f, a + b) == (CorrectedFeed(g, b).0, ds + CorrectedFeed(g, b).1)
  }

  lemma CutInField(f: Fields, a: seq<byte>, b: seq<byte>)
    requires Coherent(f) && a != [] && b != [] && StaysInField(f, a)
    ensures CutHolds(f, a, b)
  {
    JoinedField(f, a, b);
    var s := CorrectedStep(f, a);
    var g := s.fields;
    assert CorrectedFeed(g, s.tail) == (g, []) && Emitted(s.emitted) + [] == [];
    assert CorrectedFeed(f, a) == (g, []);
    assert CorrectedFeed(f, a + b) == CorrectedFeed(g, b);
    assert [] + CorrectedFeed(g, b).1 == CorrectedFeed(g, b).1;
  }

  lemma CutAfterField(f: Fields, a: seq<byte>, b: seq<byte>)
    requires Coherent(f) && a != [] && !StaysInField(f, a)
    requires CutHolds(CorrectedStep(f, a).fields, CorrectedStep(f, a).tail, b)
    ensures CutHolds(f, a, b)
  {
    FieldEnds(f, a, b);
    var s := CorrectedStep(f, a);
    var (g, ds) := CorrectedFeed(s.fields, s.tail);
    assert CorrectedFeed(f, a) == (g, Emitted(s.emitted) + ds);
    var es := CorrectedFeed(g, b).1;
    assert Emitted(s.emitted) + (ds + es) == (Emitted(s.emitted) + ds) + es;
  }

  /** The piece ends before the field being received, or the octets being dropped, do. */
  predicate StaysInField(f: Fields, a: seq<byte>)
    requires Coherent(f)
  {
    |f.buffer| + |a| < if f.state.Dropping? then f.state.remaining else FieldSize(f.state)
  }

  lemma JoinedField(f: Fields, a: seq<byte>, b: seq<byte>)
    requires Coherent(f) && a != [] && b != [] && StaysInField(f, a)
    ensures CorrectedStep(f, a).tail == [] && CorrectedStep(f, a).emitted.None?
    ensures CorrectedStep(f, a + b) == CorrectedStep(CorrectedStep(f, a).fields, b)
  {
    assert f.buffer + (a + b) == (f.buffer + a) + b;
    if f.state.Dropping? && f.state.remaining <= |a + b| {
      assert (a + b)[f.state.remaining..] == b[f.state.remaining - |a|..];
    }
  }

  lemma FieldEnds(f: Fields, a: seq<byte>, b: seq<byte>)
    requires Coherent(f) && a != [] && !StaysInField(f, a)
    ensures CorrectedStep(f, a + b) ==
            var s := CorrectedStep(f, a); s.(tail := s.tail + b)
  {
    assert f.buffer + (a + b) == (f.buffer + a) + b;
    if f.state.Dropping? {
      assert (a + b)[f.state.remaining..] == a[f.state.remaining..] + b;
    } else {
      var n := FieldSize(f.state);
      assert ((f.buffer + a) + b)[..n] == (f.buffer + a)[..n];
      assert ((f.buffer + a) + b)[n..] == (f.buffer + a)[n..] + b;
    }
  }

  /** The corrected decoder does to a list of pieces what it does to the whole stream. */
  lemma {:induction false} CorrectedSegmentation(f: Fields, chunks: seq<seq<byte>>)
    requires Coherent(f)
    ensures CorrectedFeedAll(f, chunks) == CorrectedFeed(f, Flatten(chunks))
    decreases chunks
  {
    if chunks != [] {
      CorrectedCut(f, chunks[0], Flatten(chunks[1..]));
      CorrectedSegmentation(CorrectedFeed(f, chunks[0]).0, chunks[1..]);
    }
  }

  // ---------- Streams on which the decoder drops nothing ----------

  predicate Clean(f: Fields, data: seq<byte>)
    requires Coherent(f)
    decreases |data|, Rank(f.state), ToDrop(f.state)
  {
    data == [] || (!f.state.Dropping? && Clean(Step(f, data).fields, Step(f, data).tail))
  }

  lemma {:induction false} CleanAgrees(f: Fields, data: seq<byte>)
    requires Coherent(f) && Clean(f, data)
    ensures Feed(f, data) == CorrectedFeed(f, data)
    decreases |data|, Rank(f.state), ToDrop(f.state)
  {
    if data != [] {
      CleanAgrees(Step(f, data).fields, Step(f, data).tail);
    }
  }

  lemma {:induction false} CleanCut(f: Fields, a: seq<byte>, b: seq<byte>)
    requires Coherent(f) && Clean(f, a + b)
    ensures Clean(f, a) && Clean(Feed(f, a).0, b)
    decreases |a|, Rank(f.state), ToDrop(f.state)
  {
    if a == [] {
      assert a + b == b;
    } else if b == [] {
      assert a + b == a;
    } else if StaysInField(f, a) {
      JoinedField(f, a, b);
      assert Step(f, a + b) == Step(Step(f, a).fields, b);
    } else {
      FieldEnds(f, a, b);
      CleanCut(Step(f, a).fields, Step(f, a).tail, b);
    }
  }

  /** On a stream with nothing to drop, the decoder as written is segmentation independent too. */
  lemma {:induction false} CleanSegmentation(f: Fields, chunks: seq<seq<byte>>)
    requires Coherent(f) && Clean(f, Flatten(chunks))
    ensures FeedAll(f, chunks) == CorrectedFeed(f, Flatten(chunks)) == Feed(f, Flatten(chunks))
    decreases chunks
  {
    CleanAgrees(f, Flatten(chunks));
    if chunks != [] {
      var rest := Flatten(chunks[1..]);
      CleanCut(f, chunks[0], rest);
      CleanAgrees(f, chunks[0]);
      CorrectedCut(f, chunks[0], rest);
      CleanSegmentation(Feed(f, chunks[0]).0, chunks[1..]);
    }
  }

  // ---------- One packet ----------

  predicate Idle(f: Fields) {
    f.state.Length? && f.buffer == []
  }

  /** The part of a body that follows what the decoder reads before it starts the payload or drops. */
  function Remainder(body: seq<byte>): (s: seq<byte>) {
    if |body| < FIXED_HEADER_SIZE then body
    else if !(FIXED_HEADER_SIZE + body[36] <= |body| <= MAX_UDP_IN_PAYLOAD_SIZE - body[36]) then body[FIXED_HEADER_SIZE..]
    else body[FIXED_HEADER_SIZE + body[36]..]
  }

  /** The fields once that has been read. */
  function AfterHeader(f: Fields, body: seq<byte>): (g: Fields)
    requires Idle(f)
    ensures Coherent(g) && g.buffer == []
    ensures g.state == if Acceptable(body) then Payload(|Remainder(body)|) else Dropping(|Remainder(body)|)
  {
    var g := f.(totalLength := |body|, state := Dropping(|Remainder(body)|));
    if |body| < FIXED_HEADER_SIZE then g
    else
      var h := g.(source := Some(ReadSocketAddr(body[..18])), destination := Some(ReadSocketAddr(body[18..36])));
      if Acceptable(body) then
        h.(appName := DatagramOf(body).appName, state := Payload(|Remainder(body)|))
      else h
  }

  /** The run from `f` over `data` goes on as the run from `g` over `rest`, for both decoders. */
  ghost predicate GoesOn(f: Fields, data: seq<byte>, g: Fields, rest: seq<byte>) {
    && Coherent(f) && Coherent(g)
    && Feed(f, data) == Feed(g, rest)
    && CorrectedFeed(f, data) == CorrectedFeed(g, rest)
    && (Clean(g, rest) ==> Clean(f, data))
  }

  lemma GoesOnAfterStep(f: Fields, data: seq<byte>)
    requires Coherent(f) && data != [] && !f.state.Dropping? && Step(f, data).emitted.None?
    ensures GoesOn(f, data, Step(f, data).fields, Step(f, data).tail)
  {
    var s := Step(f, data);
    assert [] + Feed(s.fields, s.tail).1 == Feed(s.fields, s.tail).1;
    assert [] + CorrectedFeed(s.fields, s.tail).1 == CorrectedFeed(s.fields, s.tail).1;
  }

  function AfterLength(f: Fields, n: nat): (g: Fields) {
    f.(totalLength := n, state := if n >= FIXED_HEADER_SIZE then FixedHeader else Dropping(n))
  }

  lemma ReadsLength(f: Fields, body: seq<byte>, t: seq<byte>)
    requires Idle(f) && Sized(body)
    ensures GoesOn(f, Packet(body) + t, AfterLength(f, |body|), body + t)
  {
    var data := Packet(body) + t;
    assert f.buffer + data == data;
    assert data[..LENGTH_SIZE] == ToBE(|body|, LENGTH_SIZE);
    assert data[LENGTH_SIZE..] == body + t;
    Pow256Values();
    FromToBE(|body|, LENGTH_SIZE);
    GoesOnAfterStep(f, data);
  }

  function AfterFixed(f: Fields, body: seq<byte>): (g: Fields)
    requires |body| >= FIXED_HEADER_SIZE
  {
    f.(source := Some(ReadSocketAddr(body[..18])), destination := Some(ReadSocketAddr(body[18..36])),
       state := if FIXED_HEADER_SIZE + body[36] <= |body| <= MAX_UDP_IN_PAYLOAD_SIZE - body[36]
                then AppName(body[36]) else Dropping(|body| - FIXED_HEADER_SIZE))
  }

  lemma ReadsFixed(f: Fields, body: seq<byte>, t: seq<byte>)
    requires f.state.FixedHeader? && f.buffer == [] && f.totalLength == |body| >= FIXED_HEADER_SIZE
    ensures GoesOn(f, body + t, AfterFixed(f, body), body[FIXED_HEADER_SIZE..] + t)
  {
    var data := body + t;
    assert f.buffer + data == data;
    var header := data[..FIXED_HEADER_SIZE];
    assert header[..18] == body[..18] && header[18..36] == body[18..36];
    assert data[FIXED_HEADER_SIZE..] == body[FIXED_HEADER_SIZE..] + t;
    GoesOnAfterStep(f, data);
  }

  function AfterName(f: Fields, name: seq<byte>, n: nat): (g: Fields) {
    if IsUtf8(name) then f.(appName := Some(name), state := Payload(n)) else f.(state := Dropping(n))
  }

  predicate AtName(f: Fields, body: seq<byte>) {
    && Coherent(f) && |body| >= FIXED_HEADER_SIZE && f.state == AppName(body[36])
    && f.buffer == [] && f.totalLength == |body|
  }

  lemma NameStep(f: Fields, body: seq<byte>, t: seq<byte>)
    requires AtName(f, body) && body[FIXED_HEADER_SIZE..] + t != []
    ensures var n := FIXED_HEADER_SIZE + body[36];
            Step(f, body[FIXED_HEADER_SIZE..] + t) ==
            Outcome(AfterName(f, body[FIXED_HEADER_SIZE..n], |body| - n), None, body[n..] + t)
  {
    var data := body[FIXED_HEADER_SIZE..] + t;
    assert f.buffer + data == data;
    assert data[..body[36]] == body[FIXED_HEADER_SIZE..FIXED_HEADER_SIZE + body[36]];
    assert data[body[36]..] == body[FIXED_HEADER_SIZE + body[36]..] + t;
  }

  lemma ReadsName(f: Fields, body: seq<byte>, t: seq<byte>)
    requires AtName(f, body) && body[FIXED_HEADER_SIZE..] + t != []
    ensures var n := FIXED_HEADER_SIZE + body[36];
            GoesOn(f, body[FIXED_HEADER_SIZE..] + t, AfterName(f, body[FIXED_HEADER_SIZE..n], |body| - n), body[n..] + t)
  {
    NameStep(f, body, t);
    GoesOnAfterStep(f, body[FIXED_HEADER_SIZE..] + t);
  }

  /** The fields once the header has been read, step by step. */
  lemma AfterHeaderIs(f: Fields, body: seq<byte>)
    requires Idle(f)
    ensures |body| < FIXED_HEADER_SIZE ==>
              AfterHeader(f, body) == AfterLength(f, |body|) && Remainder(body) == body
    ensures |body| >= FIXED_HEADER_SIZE ==>
              var g, n := AfterFixed(AfterLength(f, |body|), body), FIXED_HEADER_SIZE + body[36];
              if g.state.AppName?
              then n <= |body| && Remainder(body) == body[n..] &&
                   AfterHeader(f, body) == AfterName(g, body[FIXED_HEADER_SIZE..n], |body| - n)
              else Remainder(body) == body[FIXED_HEADER_SIZE..] && AfterHeader(f, body) == g
  {
  }

  lemma GoesOnFurther(f: Fields, a: seq<byte>, g: Fields, b: seq<byte>, h: Fields, c: seq<byte>)
    requires GoesOn(f, a, g, b) && GoesOn(g, b, h, c)
    ensures GoesOn(f, a, h, c)
  {
  }

  /** Both decoders read a packet up to its payload, or up to what they drop, in the same way. */
  lemma ReadsHeader(f: Fields, body: seq<byte>, t: seq<byte>)
    requires Idle(f) && Sized(body) && Remainder(body) + t != []
    ensures GoesOn(f, Packet(body) + t, AfterHeader(f, body), Remainder(body) + t)
  {
    var data, f1 := Packet(body) + t, AfterLength(f, |body|);
    AfterHeaderIs(f, body);
    ReadsLength(f, body, t);
    if |body| >= FIXED_HEADER_SIZE {
      var f2, rest := AfterFixed(f1, body), body[FIXED_HEADER_SIZE..] + t;
      ReadsFixed(f1, body, t);
      GoesOnFurther(f, data, f1, body + t, f2, rest);
      if f2.state.AppName? {
        ReadsName(f2, body, t);
        GoesOnFurther(f, data, f2, rest, AfterHeader(f, body), Remainder(body) + t);
      }
    }
  }

  /** The datagram that only waits for one more octet of any kind: its payload is empty. */
  function Withheld(f: Fields): (ds: seq<Datagram>)
    requires Coherent(f)
  {
    match f.state
    case Payload(0) => [Datagram(f.source.value, f.destination.value, f.appName, [])]
    case AppName(0) =>
      if f.totalLength == FIXED_HEADER_SIZE
      then [Datagram(f.source.value, f.destination.value, Some([]), [])] else []
    case _ => []
  }

  lemma WithheldComesNext(f: Fields, data: seq<byte>)
    requires Coherent(f) && data != []
    ensures Withheld(f) <= Feed(f, data).1
    decreases Rank(f.state)
  {
    if f.state == Payload(0) {
      assert f.buffer + data == data && data[..0] == [];
      assert Step(f, data).emitted == Some(Withheld(f)[0]);
    } else if f.state == AppName(0) && f.totalLength == FIXED_HEADER_SIZE {
      assert f.buffer + data == data && data[..0] == [] && data[0..] == data;
      var s := Step(f, data);
      assert s.fields.state == Payload(0) && s.tail == data;
      WithheldComesNext(s.fields, data);
      GoesOnAfterStep(f, data);
      assert Withheld(s.fields) == Withheld(f);
    }
  }

  /** The idle fields once a whole packet has been read or dropped. */
  function Resumed(f: Fields, body: seq<byte>): (g: Fields)
    requires Idle(f)
    ensures Idle(g)
  {
    var h := AfterHeader(f, body);
    h.(state := Length, appName := if Acceptable(body) then None else h.appName)
  }

  /** A packet with something after it: its datagram, if any, then the rest from an idle decoder. */
  lemma PacketThenMore(f: Fields, body: seq<byte>, t: seq<byte>)
    requires Idle(f) && Sized(body) && t != []
    ensures var g := Resumed(f, body);
            && CorrectedFeed(f, Packet(body) + t) == (CorrectedFeed(g, t).0, Intended(body) + CorrectedFeed(g, t).1)
            && (Acceptable(body) && Clean(g, t) ==> Clean(f, Packet(body) + t))
  {
    var h, rest := AfterHeader(f, body), Remainder(body);
    ReadsHeader(f, body, t);
    assert h.buffer + (rest + t) == rest + t;
    DropAppend(rest, t);
    if Acceptable(body) {
      assert Step(h, rest + t).emitted == Some(DatagramOf(body));
    } else {
      assert CorrectedStep(h, rest + t).tail == t;
    }
  }

  /** What the end of a packet leaves withheld: its datagram, if nothing follows its header and name. */
  function HeldBack(body: seq<byte>): (ds: seq<Datagram>) {
    if Remainder(body) == [] then Intended(body) else []
  }

  /** The last packet of a stream. */
  lemma PacketAtEnd(f: Fields, body: seq<byte>)
    requires Idle(f) && Sized(body)
    ensures var (g, ds) := CorrectedFeed(f, Packet(body));
            ds + Withheld(g) == Intended(body) && Withheld(g) == HeldBack(body)
    ensures Acceptable(body) ==> Clean(f, Packet(body))
  {
    if Remainder(body) == [] {
      PacketWithoutRemainder(f, body);
    } else {
      PacketWithRemainder(f, body);
    }
  }

  lemma PacketWithRemainder(f: Fields, body: seq<byte>)
    requires Idle(f) && Sized(body) && Remainder(body) != []
    ensures CorrectedFeed(f, Packet(body)).1 == Intended(body)
    ensures Withheld(CorrectedFeed(f, Packet(body)).0) == []
    ensures Acceptable(body) ==> Clean(f, Packet(body))
  {
    var rest := Remainder(body);
    assert Packet(body) + [] == Packet(body) && rest + [] == rest;
    ReadsHeader(f, body, []);
    RemainderAtEnd(f, body);
  }

  lemma RemainderAtEnd(f: Fields, body: seq<byte>)
    requires Idle(f) && Remainder(body) != []
    ensures var (g, ds) := CorrectedFeed(AfterHeader(f, body), Remainder(body));
            ds == Intended(body) && Withheld(g) == []
    ensures Acceptable(body) ==> Clean(AfterHeader(f, body), Remainder(body))
  {
    var h, rest := AfterHeader(f, body), Remainder(body);
    assert h.buffer + rest == rest && rest[..|rest|] == rest && rest[|rest|..] == [];
    var s := CorrectedStep(h, rest);
    assert s.tail == [] && s.fields.state.Length?;
    assert Emitted(s.emitted) == Intended(body);
    assert CorrectedFeed(s.fields, s.tail) == (s.fields, []);
  }

  lemma PacketWithoutRemainder(f: Fields, body: seq<byte>)
    requires Idle(f) && Sized(body) && Remainder(body) == []
    ensures CorrectedFeed(f, Packet(body)).1 == []
    ensures Withheld(CorrectedFeed(f, Packet(body)).0) == Intended(body)
    ensures Acceptable(body) ==> Clean(f, Packet(body))
  {
    assert Packet(body) + [] == Packet(body) && body + [] == body;
    ReadsLength(f, body, []);
    if |body| >= FIXED_HEADER_SIZE {
      var f1 := AfterLength(f, |body|);
      ReadsFixed(f1, body, []);
      var tail := body[FIXED_HEADER_SIZE..];
      assert tail + [] == tail;
      if tail != [] {
        ReadsName(AfterFixed(f1, body), body, []);
      }
    }
  }

  // ---------- Streams of packets ----------

  lemma {:induction false} PacketStream(f: Fields, bodies: seq<seq<byte>>)
    requires Idle(f) && forall b :: b in bodies ==> Sized(b)
    ensures var (g, ds) := CorrectedFeed(f, Packets(bodies));
            ds + Withheld(g) == IntendedAll(bodies)
    ensures (forall b :: b in bodies ==> Acceptable(b)) ==> Clean(f, Packets(bodies))
    decreases bodies
  {
    if |bodies| == 1 {
      assert Packets(bodies) == Packet(bodies[0]) + Packets([]) == Packet(bodies[0]);
      assert IntendedAll(bodies) == Intended(bodies[0]) + IntendedAll([]) == Intended(bodies[0]);
      PacketAtEnd(f, bodies[0]);
    } else if |bodies| > 1 {
      assert bodies[1..][0] == bodies[1];
      assert |Packets(bodies[1..])| >= |Packet(bodies[1])| >= LENGTH_SIZE;
      PacketStream(Resumed(f, bodies[0]), bodies[1..]);
      FirstPacket(f, bodies[0], bodies[1..]);
    }
  }

  lemma FirstPacket(f: Fields, body: seq<byte>, others: seq<seq<byte>>)
    requires Idle(f) && Sized(body) && (forall b :: b in others ==> Sized(b)) && Packets(others) != []
    requires var (g, ds) := CorrectedFeed(Resumed(f, body), Packets(others));
             ds + Withheld(g) == IntendedAll(others)
    ensures var (g, ds) := CorrectedFeed(f, Packet(body) + Packets(others));
            ds + Withheld(g) == Intended(body) + IntendedAll(others)
    ensures Acceptable(body) && Clean(Resumed(f, body), Packets(others)) ==> Clean(f, Packet(body) + Packets(others))
  {
    PacketThenMore(f, body, Packets(others));
    var (g, ds) := CorrectedFeed(Resumed(f, body), Packets(others));
    assert (Intended(body) + ds) + Withheld(g) == Intended(body) + (ds + Withheld(g));
  }

  /** Only the last packet of a stream can be withheld, and is exactly when it has no payload octets. */
  lemma {:induction false} StreamWithholds(f: Fields, bodies: seq<seq<byte>>)
    requires Idle(f) && bodies != [] && forall b :: b in bodies ==> Sized(b)
    ensures Withheld(CorrectedFeed(f, Packets(bodies)).0) == HeldBack(bodies[|bodies| - 1])
    decreases bodies
  {
    if |bodies| == 1 {
      assert Packets(bodies) == Packet(bodies[0]) + Packets([]) == Packet(bodies[0]);
      PacketAtEnd(f, bodies[0]);
    } else {
      assert bodies[1..][0] == bodies[1];
      assert |Packets(bodies[1..])| >= |Packet(bodies[1])| >= LENGTH_SIZE;
      StreamWithholds(Resumed(f, bodies[0]), bodies[1..]);
      PacketThenMore(f, bodies[0], Packets(bodies[1..]));
    }
  }

  /** The corrected decoder: every stream of packets, acceptable or not, and every segmentation. */
  lemma CorrectedDecodesEveryStream(f: Fields, bodies: seq<seq<byte>>, chunks: seq<seq<byte>>)
    requires Idle(f) && (forall b :: b in bodies ==> Sized(b)) && Flatten(chunks) == Packets(bodies)
    ensures var (g, ds) := CorrectedFeedAll(f, chunks);
            ds + Withheld(g) == IntendedAll(bodies)
  {
    CorrectedSegmentation(f, chunks);
    PacketStream(f, bodies);
  }

  /** The decoder as written: every stream of acceptable packets and every segmentation. */
  lemma DecodesAcceptableStream(f: Fields, bodies: seq<seq<byte>>, chunks: seq<seq<byte>>)
    requires Idle(f) && (forall b :: b in bodies ==> Sized(b) && Acceptable(b)) && Flatten(chunks) == Packets(bodies)
    ensures var (g, ds) := FeedAll(f, chunks);
            ds + Withheld(g) == IntendedAll(bodies)
    ensures bodies != [] ==> Withheld(FeedAll(f, chunks).0) == HeldBack(bodies[|bodies| - 1])
  {
    PacketStream(f, bodies);
    CleanSegmentation(f, chunks);
    if bodies != [] {
      StreamWithholds(f, bodies);
    }
  }

  /** The packets of a list of datagrams. */
  function Bodies(ds: seq<Datagram>): (bodies: seq<seq<byte>>)
    requires forall d :: d in ds ==> Sendable(d)
    ensures |bodies| == |ds|
    ensures forall i :: 0 <= i < |ds| ==> bodies[i] == Body(ds[i])
  {
    seq(|ds|, i requires 0 <= i < |ds| => Body(ds[i]))
  }

  /** What each sendable datagram arrives as. */
  function Arrives(ds: seq<Datagram>): (es: seq<Datagram>)
    requires forall d :: d in ds ==> Sendable(d)
  {
    if ds == [] then []
    else
      assert Sendable(ds[0]);
      [ds[0].(source := CanonicalAddr(ds[0].source), destination := CanonicalAddr(ds[0].destination))] + Arrives(ds[1..])
  }

  lemma {:induction false} IntendedBodies(ds: seq<Datagram>)
    requires forall d :: d in ds ==> Sendable(d)
    ensures IntendedAll(Bodies(ds)) == Arrives(ds)
    ensures forall b :: b in Bodies(ds) ==> Sized(b) && Acceptable(b)
  {
    forall b | b in Bodies(ds) ensures Sized(b) && Acceptable(b) {
      var i :| 0 <= i < |ds| && Bodies(ds)[i] == b;
      DatagramRoundTrip(ds[i]);
    }
    if ds != [] {
      DatagramRoundTrip(ds[0]);
      IntendedBodies(ds[1..]);
      assert Bodies(ds)[1..] == Bodies(ds[1..]);
    }
  }

  /** A last datagram without payload waits for more of the stream. */
  predicate Waits(ds: seq<Datagram>) {
    ds != [] && ds[|ds| - 1].payload == []
  }

  lemma LastBody(d: Datagram)
    requires Sendable(d)
    ensures Sized(Body(d)) && Acceptable(Body(d)) && |HeldBack(Body(d))| == if d.payload == [] then 1 else 0
  {
    DatagramRoundTrip(d);
    assert DatagramOf(Body(d)).payload == d.payload;
  }

  lemma {:induction false} ArrivesAll(ds: seq<Datagram>)
    requires forall d :: d in ds ==> Sendable(d)
    ensures |Arrives(ds)| == |ds|
  {
    if ds != [] {
      ArrivesAll(ds[1..]);
    }
  }

  /** What a client's datagrams arrive as up to the end of the stream. */
  function Emitting(ds: seq<Datagram>): (es: seq<Datagram>)
    requires forall d :: d in ds ==> Sendable(d)
  {
    ArrivesAll(ds);
    if Waits(ds) then Arrives(ds)[..|ds| - 1] else Arrives(ds)
  }

  /** From a client's datagrams to the decoder's, across any segmentation of the stream. */
  lemma SegmentationIndependence(ds: seq<Datagram>, chunks: seq<seq<byte>>)
    requires forall d :: d in ds ==> Sendable(d)
    requires (forall b :: b in Bodies(ds) ==> Sized(b)) && Flatten(chunks) == Packets(Bodies(ds))
    ensures var (g, es) := FeedAll(INITIAL, chunks);
            && es == Emitting(ds) && es + Withheld(g) == Arrives(ds)
            && (forall extra :: extra != [] ==> Withheld(g) <= Feed(g, extra).1)
  {
    IntendedBodies(ds);
    DecodesAcceptableStream(INITIAL, Bodies(ds), chunks);
    var (g, es) := FeedAll(INITIAL, chunks);
    forall extra | extra != [] ensures Withheld(g) <= Feed(g, extra).1 {
      WithheldComesNext(g, extra);
    }
    if ds != [] {
      LastBody(ds[|ds| - 1]);
    }
    AllButWithheld(ds, es, Withheld(g));
  }

  lemma AllButWithheld(ds: seq<Datagram>, es: seq<Datagram>, held: seq<Datagram>)
    requires forall d :: d in ds ==> Sendable(d)
    requires es + held == Arrives(ds) && |held| == if Waits(ds) then 1 else 0
    ensures es == Emitting(ds)
  {
    ArrivesAll(ds);
    assert es == Arrives(ds)[..|es|];
  }

  // ---------- Packets that are not acceptable ----------

  /** After such a packet the decoder reads the dropped octets again and loses all that follows them. */
  lemma LosesWhatFollows(f: Fields, body: seq<byte>, t: seq<byte>)
    requires Idle(f) && Sized(body) && !Acceptable(body) && t != []
    ensures Feed(f, Packet(body) + t) == Feed(AfterHeader(f, body).(state := Length), Remainder(body))
  {
    var h, rest := AfterHeader(f, body), Remainder(body);
    ReadsHeader(f, body, t);
    DropAppend(rest, t);
    var s := Step(h, rest + t);
    assert s == Outcome(h.(state := Length), None, rest);
    assert [] + Feed(s.fields, s.tail).1 == Feed(s.fields, s.tail).1;
  }

  /** The packet and any acceptable packets after it are decoded, whatever the segmentation. */
  ghost predicate Served(f: Fields, body: seq<byte>)
    requires Idle(f) && Sized(body)
  {
    forall bodies: seq<seq<byte>>, chunks: seq<seq<byte>> ::
      (forall b :: b in bodies ==> Sized(b) && Acceptable(b)) && Flatten(chunks) == Packet(body) + Packets(bodies) ==>
      FeedAll(f, chunks).1 + Withheld(FeedAll(f, chunks).0) == Intended(body) + IntendedAll(bodies)
  }

  /** A packet is served exactly when it is acceptable. */
  lemma ServedExactlyWhenAcceptable(f: Fields, body: seq<byte>)
    requires Idle(f) && Sized(body)
    ensures Served(f, body) <==> Acceptable(body)
  {
    if Acceptable(body) {
      forall bodies: seq<seq<byte>>, chunks: seq<seq<byte>> |
        (forall b :: b in bodies ==> Sized(b) && Acceptable(b)) && Flatten(chunks) == Packet(body) + Packets(bodies)
        ensures FeedAll(f, chunks).1 + Withheld(FeedAll(f, chunks).0) == Intended(body) + IntendedAll(bodies)
      {
        assert ([body] + bodies)[1..] == bodies;
        DecodesAcceptableStream(f, [body] + bodies, chunks);
      }
    } else if Served(f, body) {
      ProbeIsAcceptable(1);
      ProbeIsAcceptable(2);
      OnePacketAfter(f, body, Probe(1));
      OnePacketAfter(f, body, Probe(2));
      assert false;
    }
  }

  /** The smallest packet with a payload of one octet. */
  function Probe(x: byte): (body: seq<byte>) {
    seq(FIXED_HEADER_SIZE, _ => 0) + [x]
  }

  lemma ProbeIsAcceptable(x: byte)
    ensures Acceptable(Probe(x)) && DatagramOf(Probe(x)).payload == [x]
  {
    assert Probe(x)[FIXED_HEADER_SIZE..FIXED_HEADER_SIZE + 0] == [];
  }

  lemma OnePacketAfter(f: Fields, body: seq<byte>, p: seq<byte>)
    requires Idle(f) && Sized(body) && !Acceptable(body) && Served(f, body)
    requires Sized(p) && Acceptable(p)
    ensures var (g, ds) := Feed(AfterHeader(f, body).(state := Length), Remainder(body));
            ds + Withheld(g) == [DatagramOf(p)]
  {
    var stream := Packet(body) + Packets([p]);
    assert Flatten([stream]) == stream + Flatten([]) == stream;
    assert FeedAll(f, [stream]).1 + Withheld(FeedAll(f, [stream]).0) == Intended(body) + IntendedAll([p]);
    assert IntendedAll([p]) == [DatagramOf(p)] + IntendedAll([]) == [DatagramOf(p)];
    assert Packets([p]) == Packet(p) + Packets([]) == Packet(p);
    LosesWhatFollows(f, body, Packet(p));
    var (g, ds) := Feed(f, stream);
    assert FeedAll(g, [stream][1..]) == (g, []);
    assert ds + [] == ds;
  }
}
