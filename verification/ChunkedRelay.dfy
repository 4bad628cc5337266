/**
  * The reverse proxy's relay of a chunked HTTP/1.1 response to an HTTP/2 or HTTP/3 client. The
  * upstream connection delivers the stream in arbitrary pieces; the client's sink accepts
  * arbitrary parts of what it is offered.
  */
module ChunkedRelay {
  import opened Wrappers
  import opened Bytes
  import opened ChunkSizes

  /** How a size line is read; the relay itself uses `SizeOf`. */
  type SizeReader = seq<byte> -> Option<nat>

  const BODY_LIMIT := 2 * 1024 * 1024
  const CR: byte := 0x0D
  const LF: byte := 0x0A
  const CRLF: seq<byte> := [CR, LF]

  /** What the client has received: `contentLength` is the header that was set for it. */
  datatype Client = Unopened | Opened(contentLength: Option<nat>, body: seq<byte>, eofs: nat)

  /** `writes` are the sizes of the writes that the client's sink has been asked for. */
  datatype Relay = Relay(bufferedBody: seq<byte>, client: Client, writes: seq<nat>) {
    predicate Fresh() {
      bufferedBody == [] && client.Unopened? && writes == []
    }

    /** The body as far as it is decoded. */
    function Content(): (s: seq<byte>) {
      if client.Unopened? then bufferedBody else client.body
    }

    /** How often the client's stream has been closed. */
    function Eofs(): (n: nat) {
      if client.Unopened? then 0 else client.eofs
    }
  }

  function Deliver(r: Relay, data: seq<byte>): (t: Relay)
    ensures t.Content() == r.Content() + data && t.Eofs() == r.Eofs()
    ensures r.client.Opened? ==> t.client.Opened?
  {
    match r.client
    case Unopened =>
      var body := r.bufferedBody + data;
      if |body| > BODY_LIMIT then Relay([], Opened(None, body, 0), r.writes + [|body|])
      else Relay(body, Unopened, r.writes)
    case Opened(length, body, eofs) => Relay(r.bufferedBody, Opened(length, body + data, eofs), r.writes + [|data|])
  }

  function Finish(r: Relay): (t: Relay)
    ensures t.Content() == r.Content() && t.Eofs() == r.Eofs() + 1
  {
    match r.client
    case Unopened => Relay([], Opened(Some(|r.bufferedBody|), r.bufferedBody, 1), r.writes + [|r.bufferedBody|])
    case Opened(length, body, eofs) => r.(client := Opened(length, body, eofs + 1))
  }

  // ---------- The client's sink ----------

  /**
    * What is left of a sink's acceptances after a write of `n` octets, each acceptance being how much
    * one attempt takes. `None`: the sink fails before all of it is accepted.
    */
  function Left(acceptances: seq<nat>, n: nat): (r: Option<seq<nat>>)
    decreases acceptances
  {
    if n == 0 then Some(acceptances)
    else if acceptances == [] then None
    else Left(acceptances[1..], if acceptances[0] < n then n - acceptances[0] else 0)
  }

  /** The same after several writes. */
  function Served(acceptances: seq<nat>, writes: seq<nat>): (r: Option<seq<nat>>) {
    if writes == [] then Some(acceptances)
    else
      match Served(acceptances, writes[..|writes| - 1])
      case None => None
      case Some(rest) => Left(rest, writes[|writes| - 1])
  }

  function Total(ns: seq<nat>): (n: nat) {
    if ns == [] then 0 else ns[0] + Total(ns[1..])
  }

  /** How much of the writes a sink accepts before it fails. */
  function Accepted(acceptances: seq<nat>, writes: seq<nat>): (n: nat) {
    if writes == [] then 0
    else
      var front, last := writes[..|writes| - 1], writes[|writes| - 1];
      match Served(acceptances, front)
      case None => Accepted(acceptances, front)
      case Some(rest) => Total(front) + if Total(rest) < last then Total(rest) else last
  }

  lemma {:induction false} TotalNext(ns: seq<nat>)
    requires ns != []
    ensures Total(ns) == Total(ns[..|ns| - 1]) + ns[|ns| - 1]
  {
    if |ns| > 1 {
      TotalNext(ns[1..]);
      assert ns[1..][..|ns| - 2] == ns[..|ns| - 1][1..];
    } else {
      assert ns[1..] == [] && ns[..0] == [];
    }
  }

  lemma NextWrite(acceptances: seq<nat>, writes: seq<nat>, n: nat, rest: seq<nat>)
    requires Served(acceptances, writes) == Some(rest)
    ensures Served(acceptances, writes + [n]) == Left(rest, n)
    ensures Accepted(acceptances, writes + [n]) == Total(writes) + if Total(rest) < n then Total(rest) else n
    ensures Total(writes + [n]) == Total(writes) + n
  {
    assert (writes + [n])[..|writes|] == writes;
    TotalNext(writes + [n]);
  }

  /** A sink that has failed stays failed. */
  lemma {:induction false} FailureLasts(acceptances: seq<nat>, some: seq<nat>, more: seq<nat>)
    requires Served(acceptances, some).None? && some <= more
    ensures Served(acceptances, more).None? && Accepted(acceptances, more) == Accepted(acceptances, some)
    decreases |more|
  {
    if some != more {
      FailureLasts(acceptances, some, more[..|more| - 1]);
    }
  }

  // ---------- Decoding a whole stream ----------

  predicate CrlfAt(s: seq<byte>, i: int) {
    0 <= i && i + 2 <= |s| && s[i] == 0x0D && s[i + 1] == 0x0A
  }

  /** The first line end of a stream. */
  function FindCrlf(s: seq<byte>): (r: Option<nat>)
    ensures r.Some? ==> r.value + 2 <= |s|
  {
    if |s| < 2 then None
    else if CrlfAt(s, 0) then Some(0)
    else
      var tail := FindCrlf(s[1..]);
      if tail.None? then None else Some(tail.value + 1)
  }

  lemma {:induction false} FirstCrlf(s: seq<byte>)
    ensures FindCrlf(s).Some? ==> CrlfAt(s, FindCrlf(s).value)
    ensures forall i :: CrlfAt(s, i) ==> FindCrlf(s).Some? && FindCrlf(s).value <= i
  {
    if |s| >= 2 && !CrlfAt(s, 0) {
      FirstCrlf(s[1..]);
      forall i | CrlfAt(s, i) ensures FindCrlf(s).Some? && FindCrlf(s).value <= i {
        assert CrlfAt(s[1..], i - 1);
      }
    }
  }

  predicate BlankLineAt(s: seq<byte>, i: nat) {
    i + 4 <= |s| && s[i..i + 4] == CRLF + CRLF
  }

  predicate HasBlankLine(s: seq<byte>) {
    exists i | 0 <= i < |s| :: BlankLineAt(s, i)
  }

  datatype Stop = NeedsMore | BadSize | TooLarge | LastChunk

  /** Where decoding stops, what it has delivered and, after the last chunk, the octets behind it. */
  datatype Scanned = Scanned(relay: Relay, stop: Stop, rest: seq<byte>)

  function Scan(sizes: SizeReader, s: seq<byte>, r: Relay): (d: Scanned)
    ensures |d.rest| <= |s|
    decreases |s|
  {
    match FindCrlf(s)
    case None => Scanned(r, NeedsMore, [])
    case Some(end) =>
      var rest := s[end + 2..];
      match sizes(s[..end])
      case None => Scanned(r, BadSize, rest)
      case Some(size) =>
        if size == 0 then Scanned(r, LastChunk, rest)
        else if size + 2 >= USIZE_LIMIT then Scanned(r, TooLarge, rest)
        else if |rest| < size + 2 then Scanned(r, NeedsMore, [])
        else Scan(sizes, rest[size + 2..], Deliver(r, rest[..size]))
  }

  /** Decoding only adds to what is delivered. */
  predicate Extends(r: Relay, t: Relay) {
    r.Content() <= t.Content() && r.writes <= t.writes && r.Eofs() == t.Eofs()
  }

  lemma {:induction false} ScanExtends(sizes: SizeReader, s: seq<byte>, r: Relay)
    ensures Extends(r, Scan(sizes, s, r).relay)
    decreases |s|
  {
    match FindCrlf(s)
    case None =>
    case Some(end) =>
      var rest := s[end + 2..];
      match sizes(s[..end])
      case None =>
      case Some(size) =>
        if 0 < size && size + 2 < USIZE_LIMIT && size + 2 <= |rest| {
          var t := Deliver(r, rest[..size]);
          assert Extends(r, t);
          ScanExtends(sizes, rest[size + 2..], t);
        }
  }

  // ---------- Pieces ----------

  /** How the upstream connection goes on after its last piece. */
  datatype Ending = Closed | Failed | Silent

  datatype Outcome = Finished | UnexpectedEof | ReadFailed | Waiting | InvalidData | Overflow | SinkFailed

  function AtEnd(ending: Ending): (o: Outcome) {
    match ending
    case Closed => UnexpectedEof
    case Failed => ReadFailed
    case Silent => Waiting
  }

  /** Octets already read beyond position `n` when pieces are read only to get to `n`. */
  function ReadAhead(pieces: seq<seq<byte>>, n: nat): (k: nat)
    requires pieces != [] && n <= |Flatten(pieces)|
    ensures n + k <= |Flatten(pieces)|
    decreases |pieces|
  {
    if n <= |pieces[0]| then |pieces[0]| - n else ReadAhead(pieces[1..], n - |pieces[0]|)
  }

  /** The last chunk is followed by a line end at hand, by trailers, or by the end of the stream. */
  predicate Terminated(atHand: seq<byte>, rest: seq<byte>, ending: Ending) {
    CRLF <= atHand || HasBlankLine(rest) || ending == Closed
  }

  /** How the relay ends where decoding stops with `ahead` further octets at hand. */
  function Ended(d: Scanned, ahead: nat, ending: Ending): (t: (Relay, Outcome))
    requires ahead <= |d.rest|
  {
    match d.stop
    case NeedsMore => (d.relay, AtEnd(ending))
    case BadSize => (d.relay, InvalidData)
    case TooLarge => (d.relay, Overflow)
    case LastChunk =>
      if Terminated(d.rest[..ahead], d.rest, ending) then (Finish(d.relay), Finished) else (d.relay, AtEnd(ending))
  }

  /** Up to `needed` and beyond, reading further pieces keeps what is at hand. */
  ghost predicate Lazy(before: seq<seq<byte>>, after: seq<seq<byte>>, needed: nat) {
    && before != [] && after != [] && Flatten(before) == Flatten(after)
    && forall m: nat :: needed <= m <= |Flatten(before)| ==> ReadAhead(before, m) == ReadAhead(after, m)
  }

  lemma Joined(a: seq<byte>, b: seq<byte>, more: seq<seq<byte>>, needed: nat)
    requires needed > |a|
    ensures Lazy([a, b] + more, [a + b] + more, needed)
  {
    var before, after := [a, b] + more, [a + b] + more;
    assert before[1..] == [b] + more && ([b] + more)[1..] == more && after[1..] == more;
    forall m: nat | needed <= m <= |Flatten(before)| ensures ReadAhead(before, m) == ReadAhead(after, m) {
      assert ReadAhead(before, m) == ReadAhead([b] + more, m - |a|);
    }
  }

  lemma LazyTrans(a: seq<seq<byte>>, b: seq<seq<byte>>, c: seq<seq<byte>>, needed: nat)
    requires (exists n: nat :: n <= needed && Lazy(a, b, n)) && Lazy(b, c, needed)
    ensures Lazy(a, c, needed)
  {
  }

  /** Taking octets off the buffer moves every position. */
  lemma Advanced(buffer: seq<byte>, more: seq<seq<byte>>, k: nat, m: nat)
    requires k <= |buffer| && m <= |Flatten([buffer[k..]] + more)|
    ensures Flatten([buffer] + more)[k..] == Flatten([buffer[k..]] + more)
    ensures ReadAhead([buffer] + more, k + m) == ReadAhead([buffer[k..]] + more, m)
  {
    assert ([buffer] + more)[1..] == more && ([buffer[k..]] + more)[1..] == more;
  }

  lemma FirstLineStays(a: seq<byte>, b: seq<byte>)
    requires FindCrlf(a).Some?
    ensures FindCrlf(a + b) == FindCrlf(a)
  {
    FirstCrlf(a);
    FirstCrlf(a + b);
    assert CrlfAt(a + b, FindCrlf(a).value);
    var i := FindCrlf(a + b).value;
    assert CrlfAt(a, i);
  }

  lemma BlankLineStays(a: seq<byte>, b: seq<byte>)
    requires HasBlankLine(a)
    ensures HasBlankLine(a + b)
  {
    var i :| 0 <= i < |a| && BlankLineAt(a, i);
    assert (a + b)[i..i + 4] == a[i..i + 4];
    assert BlankLineAt(a + b, i);
  }

  /** Octets that a first line needs at least. */
  function LineNeeds(s: seq<byte>): (n: nat) {
    match FindCrlf(s)
    case Some(end) => end + 2
    case None => |s| + 1
  }

  lemma NeedsGrow(a: seq<byte>, b: seq<byte>)
    requires FindCrlf(a).None? && a <= b
    ensures LineNeeds(b) > |a|
  {
    FirstCrlf(a);
    FirstCrlf(b);
    if FindCrlf(b).Some? {
      assert !CrlfAt(a, FindCrlf(b).value);
    }
  }

  lemma SplitLine(s: seq<byte>, end: nat)
    requires FindCrlf(s) == Some(end)
    ensures s == s[..end] + CRLF + s[end + 2..]
  {
    FirstCrlf(s);
  }

  /** The first line of the stream is the first line of the buffer. */
  lemma LineOfBuffer(line: seq<byte>, rest: seq<byte>, more: seq<seq<byte>>)
    requires FindCrlf(line + CRLF + rest) == Some(|line|)
    ensures var whole := [line + CRLF + rest] + more;
            && FindCrlf(Flatten(whole)) == Some(|line|) && Flatten(whole)[..|line|] == line
            && Flatten(whole)[|line| + 2..] == Flatten([rest] + more)
            && ReadAhead(whole, |line| + 2) == |rest|
  {
    var buffer := line + CRLF + rest;
    assert ([buffer] + more)[1..] == more && ([rest] + more)[1..] == more;
    FirstLineStays(buffer, Flatten(more));
    assert buffer[|line| + 2..] == rest;
    Advanced(buffer, more, |line| + 2, 0);
  }

  /** Decoding stops behind the first line. */
  lemma ScanPassesLine(sizes: SizeReader, s: seq<byte>, r: Relay, end: nat)
    requires FindCrlf(s) == Some(end)
    ensures |Scan(sizes, s, r).rest| + end + 2 <= |s|
  {
  }

  lemma ScanChunk(sizes: SizeReader, s: seq<byte>, r: Relay, end: nat, size: nat)
    requires FindCrlf(s) == Some(end) && sizes(s[..end]) == Some(size)
    requires 0 < size && size + 2 < USIZE_LIMIT && end + 2 + size + 2 <= |s|
    ensures Scan(sizes, s, r) == Scan(sizes, s[end + 2..][size + 2..], Deliver(r, s[end + 2..][..size]))
  {
  }

  /** From these pieces decoding stops as `d` says, with `ahead` further octets at hand. */
  ghost predicate Stops(sizes: SizeReader, p: seq<seq<byte>>, r: Relay, d: Scanned, ahead: nat) {
    p != [] && Scan(sizes, Flatten(p), r) == d && ReadAhead(p, |Flatten(p)| - |d.rest|) == ahead
  }

  lemma StopsInside(sizes: SizeReader, p: seq<seq<byte>>, r: Relay, d: Scanned, ahead: nat)
    requires Stops(sizes, p, r, d, ahead)
    ensures ahead <= |d.rest|
  {
  }

  /** Reading further pieces of the first line changes nothing. */
  lemma LineRead(sizes: SizeReader, before: seq<seq<byte>>, after: seq<seq<byte>>, r: Relay, d: Scanned, ahead: nat, end: nat)
    requires Stops(sizes, before, r, d, ahead)
    requires Lazy(before, after, end + 2) && FindCrlf(Flatten(before)) == Some(end)
    ensures Stops(sizes, after, r, d, ahead)
  {
    ScanPassesLine(sizes, Flatten(before), r, end);
  }

  /** The same, with the first line already taken off the buffer. */
  ghost predicate Behind(sizes: SizeReader, line: seq<byte>, rest: seq<byte>, more: seq<seq<byte>>, r: Relay, d: Scanned, ahead: nat) {
    FindCrlf(line + CRLF + rest) == Some(|line|) && Stops(sizes, [line + CRLF + rest] + more, r, d, ahead)
  }

  /** Where decoding stops behind a size line that does not announce a complete chunk. */
  lemma LineStops(sizes: SizeReader, line: seq<byte>, rest: seq<byte>, more: seq<seq<byte>>,
                  size: Option<nat>, r: Relay, d: Scanned, ahead: nat)
    requires Behind(sizes, line, rest, more, r, d, ahead) && sizes(line) == size
    ensures var unread := Flatten([rest] + more);
            && (size.None? ==> d == Scanned(r, BadSize, unread))
            && (size == Some(0) ==> d == Scanned(r, LastChunk, unread) && ahead <= |unread| && unread[..ahead] == rest)
            && (size.Some? && size.value + 2 >= USIZE_LIMIT ==> d == Scanned(r, TooLarge, unread))
            && (size.Some? && 0 < size.value && size.value + 2 < USIZE_LIMIT && |unread| < size.value + 2 ==>
                  d == Scanned(r, NeedsMore, []))
  {
    LineOfBuffer(line, rest, more);
    assert ([rest] + more)[0] == rest;
  }

  lemma ChunkScanned(sizes: SizeReader, line: seq<byte>, rest: seq<byte>, more: seq<seq<byte>>, size: nat,
                     filled: seq<byte>, left: seq<seq<byte>>, r: Relay)
    requires FindCrlf(line + CRLF + rest) == Some(|line|) && sizes(line) == Some(size)
    requires 0 < size && size + 2 < USIZE_LIMIT && size + 2 <= |filled|
    requires Flatten([rest] + more) == Flatten([filled] + left)
    ensures var whole, next := Flatten([line + CRLF + rest] + more), Flatten([filled[size + 2..]] + left);
            && |whole| == |line| + 2 + size + 2 + |next|
            && Scan(sizes, whole, r) == Scan(sizes, next, Deliver(r, filled[..size]))
  {
    var whole, unread := Flatten([line + CRLF + rest] + more), Flatten([rest] + more);
    LineOfBuffer(line, rest, more);
    Advanced(filled, left, size + 2, 0);
    assert ([filled] + left)[0] == filled;
    assert unread[..size] == filled[..size];
    ScanChunk(sizes, whole, r, |line|, size);
  }

  /** One chunk is taken off the stream and delivered. */
  lemma ChunkStep(sizes: SizeReader, line: seq<byte>, rest: seq<byte>, more: seq<seq<byte>>, size: nat,
                  filled: seq<byte>, left: seq<seq<byte>>, r: Relay, d: Scanned, ahead: nat)
    requires Behind(sizes, line, rest, more, r, d, ahead) && sizes(line) == Some(size)
    requires 0 < size && size + 2 < USIZE_LIMIT
    requires size + 2 <= |filled| && Lazy([rest] + more, [filled] + left, size + 2)
    ensures Stops(sizes, [filled[size + 2..]] + left, Deliver(r, filled[..size]), d, ahead)
    ensures |Flatten([filled[size + 2..]] + left)| < |Flatten([line + CRLF + rest] + more)|
    ensures Extends(Deliver(r, filled[..size]), d.relay)
  {
    var next, t := [filled[size + 2..]] + left, Deliver(r, filled[..size]);
    ChunkScanned(sizes, line, rest, more, size, filled, left, r);
    ScanExtends(sizes, Flatten(next), t);
    var m := |Flatten(next)| - |d.rest|;
    ChunkAhead(line, rest, more, size, filled, left, m);
    assert |Flatten([line + CRLF + rest] + more)| - |d.rest| == |line| + 2 + (size + 2 + m);
  }

  /** Taking a line and a chunk off the pieces keeps what is read ahead of a later position. */
  lemma ChunkAhead(line: seq<byte>, rest: seq<byte>, more: seq<seq<byte>>, size: nat,
                   filled: seq<byte>, left: seq<seq<byte>>, m: nat)
    requires size + 2 <= |filled| && Lazy([rest] + more, [filled] + left, size + 2)
    requires m <= |Flatten([filled[size + 2..]] + left)|
    ensures |line| + 2 + size + 2 + m <= |Flatten([line + CRLF + rest] + more)|
    ensures ReadAhead([line + CRLF + rest] + more, |line| + 2 + (size + 2 + m)) ==
            ReadAhead([filled[size + 2..]] + left, m)
  {
    var buffer := line + CRLF + rest;
    Advanced(filled, left, size + 2, m);
    assert buffer[|line| + 2..] == rest;
    Advanced(buffer, more, |line| + 2, size + 2 + m);
  }

  // ---------- The relay ----------

  class ChunkRelay {
    var buffer: seq<byte>
    /** Pieces that the upstream connection has still to deliver. */
    var incoming: seq<seq<byte>>
    const ending: Ending
    const sizes: SizeReader
    var bufferedBody: seq<byte>
    var client: Client
    /** How much each further write accepts; the sink fails where the list ends. */
    var acceptances: seq<nat>
    /** The sink's acceptances at the start, and the sizes of the writes since then. */
    ghost const script: seq<nat>
    ghost var writes: seq<nat>

    ghost predicate Valid()
      reads this
    {
      Served(script, writes) == Some(acceptances) && Total(writes) == if client.Unopened? then 0 else |client.body|
    }

    ghost function View(): (r: Relay)
      reads this
    {
      Relay(bufferedBody, client, writes)
    }

    ghost function Pieces(): (p: seq<seq<byte>>)
      reads this
    {
      [buffer] + incoming
    }

    constructor (chunk: seq<byte>, pieces: seq<seq<byte>>, e: Ending, sink: seq<nat>)
      ensures Valid() && View().Fresh() && Pieces() == [chunk] + pieces && ending == e && sizes == SizeOf && script == sink
    {
      buffer, incoming, ending, acceptances := chunk, pieces, e, sink;
      sizes, bufferedBody, client := SizeOf, [], Unopened;
      script, writes := sink, [];
    }

    method NeedMore() returns (end: bool)
      modifies this`buffer, this`incoming
      ensures end <==> old(incoming) == []
      ensures end ==> Pieces() == old(Pieces())
      ensures !end ==> buffer == old(buffer) + old(incoming)[0] && incoming == old(incoming)[1..]
      ensures !end ==> forall needed: nat :: needed > |old(buffer)| ==> Lazy(old(Pieces()), Pieces(), needed)
    {
      if incoming == [] {
        return true;
      }
      ghost var a, b, more := buffer, incoming[0], incoming[1..];
      assert Pieces() == [a, b] + more;
      forall needed: nat | needed > |a| ensures Lazy([a, b] + more, [a + b] + more, needed) {
        Joined(a, b, more, needed);
      }
      buffer, incoming := buffer + incoming[0], incoming[1..];
      return false;
    }

    /** Offers `data` to the sink until all of it is accepted or the sink fails. */
    method WriteAll(data: seq<byte>) returns (ok: bool)
      requires client.Opened?
      modifies this`client, this`acceptances
      ensures client.Opened? && client == old(client).(body := client.body)
      ensures Left(old(acceptances), |data|) == if ok then Some(acceptances) else None
      ensures ok ==> client.body == old(client).body + data
      ensures !ok ==> acceptances == [] && old(client).body <= client.body < old(client).body + data
      ensures !ok ==> |client.body| == |old(client).body| + Total(old(acceptances)) < |old(client).body| + |data|
    {
      var left := data;
      while left != []
        invariant client.Opened? && client == old(client).(body := client.body)
        invariant client.body + left == old(client).body + data
        invariant |client.body| >= |old(client).body|
        invariant Left(acceptances, |left|) == Left(old(acceptances), |data|)
        invariant left != [] ==> |client.body| + Total(acceptances) == |old(client).body| + Total(old(acceptances))
        decreases |acceptances|
      {
        if acceptances == [] {
          assert client.body == (old(client).body + data)[..|client.body|];
          assert old(client).body == (old(client).body + data)[..|old(client).body|];
          return false;
        }
        var n := if acceptances[0] < |left| then acceptances[0] else |left|;
        client := client.(body := client.body + left[..n]);
        left, acceptances := left[n..], acceptances[1..];
      }
      return true;
    }

    /** Reads until a line end is in the buffer. */
    method ReadLine() returns (end: Option<nat>)
      modifies this`buffer, this`incoming
      ensures Flatten(Pieces()) == old(Flatten(Pieces()))
      ensures end.None? ==> FindCrlf(Flatten(Pieces())).None?
      ensures end.Some? ==> FindCrlf(buffer) == end == FindCrlf(Flatten(Pieces()))
      ensures end.Some? ==> Lazy(old(Pieces()), Pieces(), end.value + 2)
    {
      while FindCrlf(buffer).None?
        invariant Flatten(Pieces()) == old(Flatten(Pieces()))
        invariant Lazy(old(Pieces()), Pieces(), LineNeeds(buffer))
        decreases |incoming|
      {
        label Before:
        var end := NeedMore();
        if end {
          assert Flatten(Pieces()) == buffer by { OnePiece(); }
          return None;
        }
        NeedsGrow(old@Before(buffer), buffer);
        assert Lazy(old@Before(Pieces()), Pieces(), LineNeeds(buffer));
        LazyTrans(old(Pieces()), old@Before(Pieces()), Pieces(), LineNeeds(buffer));
      }
      end := FindCrlf(buffer);
      FirstLineStays(buffer, Flatten(incoming));
      assert Pieces()[1..] == incoming;
    }

    lemma OnePiece()
      requires incoming == []
      ensures Flatten(Pieces()) == buffer
    {
      assert Pieces()[1..] == [];
    }

    /** Reads until `needed` octets are in the buffer. */
    method Ensure(needed: nat) returns (ok: bool)
      modifies this`buffer, this`incoming
      ensures Flatten(Pieces()) == old(Flatten(Pieces()))
      ensures ok <==> |Flatten(Pieces())| >= needed
      ensures ok ==> |buffer| >= needed && Lazy(old(Pieces()), Pieces(), needed)
    {
      while |buffer| < needed
        invariant Lazy(old(Pieces()), Pieces(), needed)
        decreases |incoming|
      {
        label Before:
        var end := NeedMore();
        if end {
          OnePiece();
          return false;
        }
        LazyTrans(old(Pieces()), old@Before(Pieces()), Pieces(), needed);
      }
      assert Pieces()[0] == buffer;
      return true;
    }

    /** Skips trailers; false when the stream neither has a blank line nor ends. */
    method SkipTrailers() returns (ok: bool)
      modifies this`buffer, this`incoming
      ensures ok <==> Terminated(old(buffer), old(Flatten(Pieces())), ending)
    {
      if CRLF <= buffer {
        buffer := buffer[2..];
        return true;
      }
      while !HasBlankLine(buffer)
        invariant Flatten(Pieces()) == old(Flatten(Pieces()))
        decreases |incoming|
      {
        label Before:
        var end := NeedMore();
        if end {
          OnePiece();
          return ending == Closed;
        }
        assert Lazy(old@Before(Pieces()), Pieces(), |old@Before(buffer)| + 1);
      }
      BlankLineStays(buffer, Flatten(incoming));
      assert Pieces()[1..] == incoming;
      return true;
    }

    /** The sink has failed on the way to `t`: its acceptances are used up, and a part is missing. */
    ghost predicate FailedBefore(t: Relay, eofs: nat)
      reads this
    {
      && acceptances == [] && Served(script, t.writes).None?
      && client.Opened? && client.eofs == eofs
      && client.body < t.Content() && |client.body| == Accepted(script, t.writes)
    }

    lemma FailureCarries(t: Relay, u: Relay, eofs: nat)
      requires FailedBefore(t, eofs) && t.Content() <= u.Content() && t.writes <= u.writes
      ensures FailedBefore(u, eofs)
    {
      FailureLasts(script, t.writes, u.writes);
    }

    /** One write to the sink, taken into the account of writes. */
    method Write(data: seq<byte>) returns (ok: bool)
      requires Valid() && client.Opened?
      modifies this`client, this`acceptances, this`writes
      ensures writes == old(writes) + [|data|]
      ensures client.Opened? && client == old(client).(body := client.body)
      ensures ok ==> Valid() && client.body == old(client).body + data
      ensures !ok ==> acceptances == [] && Served(script, writes).None?
      ensures !ok ==> client.body < old(client).body + data && |client.body| == Accepted(script, writes)
    {
      ghost var before := acceptances;
      ok := WriteAll(data);
      NextWrite(script, writes, |data|, before);
      writes := writes + [|data|];
    }

    /** Sends one chunk's data, or keeps it while the length may still be announced. */
    method Send(data: seq<byte>) returns (ok: bool)
      requires Valid()
      modifies this`bufferedBody, this`client, this`acceptances, this`writes
      ensures ok ==> Valid() && View() == Deliver(old(View()), data)
      ensures !ok ==> FailedBefore(Deliver(old(View()), data), old(View()).Eofs())
    {
      if client.Unopened? {
        bufferedBody := bufferedBody + data;
        if |bufferedBody| <= BODY_LIMIT {
          return true;
        }
        client := Opened(None, [], 0);
        var body := bufferedBody;
        bufferedBody := [];
        ok := Write(body);
        assert [] + body == body;
        return;
      }
      ok := Write(data);
    }

    /** Announces the length if nothing was sent yet, and closes the client's stream. */
    method Close() returns (ok: bool)
      requires Valid()
      modifies this`bufferedBody, this`client, this`acceptances, this`writes
      ensures ok ==> Valid() && View() == Finish(old(View()))
      ensures !ok ==> FailedBefore(Finish(old(View())), old(View()).Eofs())
    {
      if client.Unopened? {
        client := Opened(Some(|bufferedBody|), [], 0);
        var body := bufferedBody;
        bufferedBody := [];
        ok := Write(body);
        assert [] + body == body;
        if !ok {
          return;
        }
      }
      client := client.(eofs := client.eofs + 1);
      return true;
    }

    /** Takes the next line off the stream. */
    method TakeLine(ghost d: Scanned, ghost ahead: nat) returns (line: Option<seq<byte>>)
      requires Stops(sizes, Pieces(), View(), d, ahead)
      modifies this`buffer, this`incoming
      ensures line.None? ==> d == Scanned(View(), NeedsMore, [])
      ensures line.Some? ==> Behind(sizes, line.value, buffer, incoming, View(), d, ahead)
      ensures line.Some? ==> old(Flatten(Pieces())) == Flatten([line.value + CRLF + buffer] + incoming)
    {
      ghost var before := Pieces();
      var end := ReadLine();
      if end.None? {
        return None;
      }
      LineRead(sizes, before, Pieces(), View(), d, ahead, end.value);
      SplitLine(buffer, end.value);
      line := Some(buffer[..end.value]);
      buffer := buffer[end.value + 2..];
    }

    /** Goes on behind a size line: passes its chunk on, or ends the relay. */
    method TakeChunk(line: seq<byte>, ghost d: Scanned, ghost ahead: nat) returns (end: Option<Outcome>)
      requires Valid() && Behind(sizes, line, buffer, incoming, View(), d, ahead) && ahead <= |d.rest|
      modifies this
      ensures end.None? ==> Valid() && Stops(sizes, Pieces(), View(), d, ahead)
      ensures end.None? ==> |Flatten(Pieces())| < old(|Flatten([line + CRLF + buffer] + incoming)|)
      ensures end.Some? && end.value != SinkFailed ==> Valid() && (View(), end.value) == Ended(d, ahead, ending)
      ensures end == Some(SinkFailed) ==> FailedBefore(Ended(d, ahead, ending).0, d.relay.Eofs())
    {
      var size := sizes(line);
      LineStops(sizes, line, buffer, incoming, size, View(), d, ahead);
      if size.None? {
        return Some(InvalidData);
      }
      if size.value == 0 {
        var outcome := LastLine();
        return Some(outcome);
      }
      if size.value + 2 >= USIZE_LIMIT {
        return Some(Overflow);
      }
      end := PassOn(line, size.value, d, ahead);
      if end == Some(SinkFailed) {
        FailureCarries(d.relay, Ended(d, ahead, ending).0, d.relay.Eofs());
      }
    }

    /** Reads a chunk and the two octets behind it. */
    method ReadChunk(size: nat) returns (data: Option<seq<byte>>, ghost filled: seq<byte>)
      modifies this`buffer, this`incoming
      ensures data.None? <==> |old(Flatten(Pieces()))| < size + 2
      ensures data.Some? ==> size + 2 <= |filled| && Lazy(old(Pieces()), [filled] + incoming, size + 2)
      ensures data.Some? ==> data.value == filled[..size] && buffer == filled[size + 2..]
    {
      var ok := Ensure(size + 2);
      filled := buffer;
      if !ok {
        return None, filled;
      }
      data := Some(buffer[..size]);
      buffer := buffer[size + 2..];
    }

    /** Passes a chunk on to the client. */
    method PassOn(ghost line: seq<byte>, size: nat, ghost d: Scanned, ghost ahead: nat) returns (end: Option<Outcome>)
      requires Valid() && Behind(sizes, line, buffer, incoming, View(), d, ahead)
      requires sizes(line) == Some(size) && 0 < size && size + 2 < USIZE_LIMIT
      modifies this
      ensures end.None? ==> Valid() && Stops(sizes, Pieces(), View(), d, ahead)
      ensures end.None? ==> |Flatten(Pieces())| < old(|Flatten([line + CRLF + buffer] + incoming)|)
      ensures end.Some? && end.value != SinkFailed ==>
        Valid() && old(|Flatten(Pieces())|) < size + 2 && View() == old(View()) && end.value == AtEnd(ending)
      ensures end == Some(SinkFailed) ==> FailedBefore(d.relay, d.relay.Eofs())
    {
      ghost var rest, more := buffer, incoming;
      var data, filled := ReadChunk(size);
      if data.None? {
        return Some(AtEnd(ending));
      }
      ChunkStep(sizes, line, rest, more, size, filled, incoming, View(), d, ahead);
      ghost var next := Deliver(View(), data.value);
      var ok := Send(data.value);
      if ok {
        return None;
      }
      FailureCarries(next, d.relay, d.relay.Eofs());
      return Some(SinkFailed);
    }

    /**
      * Relays the whole response. The client gets what the stream says and the relay ends as the
      * stream says, exactly when the sink can serve the writes that takes; a sink that cannot has
      * failed with a part missing and is not closed.
      */
    method Run(ghost d: Scanned, ghost ahead: nat) returns (outcome: Outcome)
      requires Valid() && Stops(sizes, Pieces(), View(), d, ahead)
      modifies this
      ensures ahead <= |d.rest|
      ensures outcome == SinkFailed <==> Served(script, Ended(d, ahead, ending).0.writes).None?
      ensures outcome != SinkFailed ==> (View(), outcome) == Ended(d, ahead, ending)
      ensures outcome == SinkFailed ==> FailedBefore(Ended(d, ahead, ending).0, d.relay.Eofs())
    {
      StopsInside(sizes, Pieces(), View(), d, ahead);
      while true
        invariant Valid() && Stops(sizes, Pieces(), View(), d, ahead)
        decreases |Flatten(Pieces())|
      {
        var line := TakeLine(d, ahead);
        if line.None? {
          return AtEnd(ending);
        }
        var end := TakeChunk(line.value, d, ahead);
        if end.Some? {
          return end.value;
        }
      }
    }

    /** Behind the last chunk: skips the trailers and closes the client's stream. */
    method LastLine() returns (outcome: Outcome)
      requires Valid()
      modifies this
      ensures !old(Terminated(buffer, Flatten(Pieces()), ending)) ==>
        Valid() && View() == old(View()) && outcome == AtEnd(ending)
      ensures old(Terminated(buffer, Flatten(Pieces()), ending)) ==>
        || (outcome == Finished && Valid() && View() == Finish(old(View())))
        || (outcome == SinkFailed && FailedBefore(Finish(old(View())), old(View()).Eofs()))
    {
      var ok := SkipTrailers();
      if !ok {
        return AtEnd(ending);
      }
      ok := Close();
      return if ok then Finished else SinkFailed;
    }
  }
}
