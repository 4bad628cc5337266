/** What the chunked relay does with well-formed bodies, however they are cut into pieces. */
module ChunkedBodies {
  import opened Wrappers
  import opened Bytes
  import opened ChunkSizes
  import opened ChunkedRelay

  /** A chunk with its size line; the relay does not look at the two octets behind the data. */
  datatype Chunk = Chunk(line: seq<byte>, data: seq<byte>, after: seq<byte>)

  predicate IsLine(sizes: SizeReader, line: seq<byte>, size: nat) {
    FindCrlf(line).None? && sizes(line) == Some(size)
  }

  predicate WellFormed(sizes: SizeReader, c: Chunk) {
    && c.data != [] && |c.data| + 2 < USIZE_LIMIT && |c.after| == 2
    && IsLine(sizes, c.line, |c.data|)
  }

  predicate AllWellFormed(sizes: SizeReader, chunks: seq<Chunk>) {
    forall i :: 0 <= i < |chunks| ==> WellFormed(sizes, chunks[i])
  }

  function Encoded(chunks: seq<Chunk>): (s: seq<byte>) {
    if chunks == [] then []
    else chunks[0].line + CRLF + (chunks[0].data + chunks[0].after + Encoded(chunks[1..]))
  }

  function Body(chunks: seq<Chunk>): (s: seq<byte>) {
    if chunks == [] then [] else chunks[0].data + Body(chunks[1..])
  }

  /** Chunks, the last-chunk line, and whatever follows it. */
  function Stream(chunks: seq<Chunk>, last: seq<byte>, tail: seq<byte>): (s: seq<byte>) {
    Encoded(chunks) + (last + CRLF + tail)
  }

  lemma LineFound(line: seq<byte>, rest: seq<byte>)
    requires FindCrlf(line).None?
    ensures FindCrlf(line + CRLF + rest) == Some(|line|)
  {
    var s := line + CRLF + rest;
    FirstCrlf(line);
    FirstCrlf(s);
    assert CrlfAt(s, |line|);
    assert s[|line|] == CR;
    assert !CrlfAt(line, FindCrlf(s).value);
  }

  function DeliverAll(r: Relay, chunks: seq<Chunk>): (t: Relay)
    decreases chunks
  {
    if chunks == [] then r else DeliverAll(Deliver(r, chunks[0].data), chunks[1..])
  }

  lemma ScanOne(sizes: SizeReader, c: Chunk, rest: seq<byte>, r: Relay)
    requires WellFormed(sizes, c)
    ensures Scan(sizes, c.line + CRLF + (c.data + c.after + rest), r) == Scan(sizes, rest, Deliver(r, c.data))
  {
    var behind := c.data + c.after + rest;
    var s := c.line + CRLF + behind;
    LineFound(c.line, behind);
    assert s[..|c.line|] == c.line && s[|c.line| + 2..] == behind;
    assert behind[..|c.data|] == c.data && behind[|c.data| + 2..] == rest;
    ScanChunk(sizes, s, r, |c.line|, |c.data|);
  }

  lemma ScanLast(sizes: SizeReader, last: seq<byte>, tail: seq<byte>, r: Relay)
    requires IsLine(sizes, last, 0)
    ensures Scan(sizes, last + CRLF + tail, r) == Scanned(r, LastChunk, tail)
  {
    var s := last + CRLF + tail;
    LineFound(last, tail);
    assert s[..|last|] == last && s[|last| + 2..] == tail;
  }

  lemma StreamOfOne(chunks: seq<Chunk>, last: seq<byte>, tail: seq<byte>)
    requires chunks != []
    ensures var c := chunks[0];
            Stream(chunks, last, tail) == c.line + CRLF + (c.data + c.after + Stream(chunks[1..], last, tail))
  {
  }

  lemma {:induction false} ScanStream(sizes: SizeReader, chunks: seq<Chunk>, last: seq<byte>, tail: seq<byte>, r: Relay)
    requires AllWellFormed(sizes, chunks) && IsLine(sizes, last, 0)
    ensures Scan(sizes, Stream(chunks, last, tail), r) == Scanned(DeliverAll(r, chunks), LastChunk, tail)
    decreases chunks
  {
    if chunks == [] {
      assert Stream(chunks, last, tail) == last + CRLF + tail;
      ScanLast(sizes, last, tail, r);
    } else {
      var c := chunks[0];
      StreamOfOne(chunks, last, tail);
      ScanOne(sizes, c, Stream(chunks[1..], last, tail), r);
      ScanStream(sizes, chunks[1..], last, tail, Deliver(r, c.data));
    }
  }

  /** The sizes of the writes that chunks take once the client's stream is open. */
  function Sizes(chunks: seq<Chunk>): (ns: seq<nat>) {
    if chunks == [] then [] else [|chunks[0].data|] + Sizes(chunks[1..])
  }

  /** The same from the start, with `kept` octets buffered: all of the body if it is within the limit. */
  function Writes(chunks: seq<Chunk>, kept: nat): (ns: seq<nat>)
    decreases chunks
  {
    if chunks == [] then [kept]
    else
      var n := kept + |chunks[0].data|;
      if n > BODY_LIMIT then [n] + Sizes(chunks[1..]) else Writes(chunks[1..], n)
  }

  /** The body is kept while it is within the limit and passed on once it exceeds it. */
  predicate IsKept(r: Relay, body: seq<byte>) {
    if |body| <= BODY_LIMIT then r == Relay(body, Unopened, [])
    else r.bufferedBody == [] && r.client == Opened(None, body, 0)
  }

  lemma {:induction false} DeliverOpened(r: Relay, chunks: seq<Chunk>)
    requires r.client.Opened?
    ensures DeliverAll(r, chunks) ==
            Relay(r.bufferedBody, r.client.(body := r.client.body + Body(chunks)), r.writes + Sizes(chunks))
    decreases chunks
  {
    if chunks == [] {
      assert r.client.body + Body(chunks) == r.client.body && r.writes + Sizes(chunks) == r.writes;
    } else {
      var data := chunks[0].data;
      DeliverOpened(Deliver(r, data), chunks[1..]);
      assert r.client.body + data + Body(chunks[1..]) == r.client.body + Body(chunks);
      assert r.writes + [|data|] + Sizes(chunks[1..]) == r.writes + Sizes(chunks);
    }
  }

  /** The whole body, decoded: kept or passed on, with the writes that closing it takes in the end. */
  lemma {:induction false} DeliverAllKeeps(r: Relay, chunks: seq<Chunk>)
    requires r.client.Unopened? && r.writes == [] && |r.bufferedBody| <= BODY_LIMIT
    ensures var t := DeliverAll(r, chunks);
            IsKept(t, r.bufferedBody + Body(chunks)) && Finish(t).writes == Writes(chunks, |r.bufferedBody|)
    decreases chunks
  {
    if chunks == [] {
      assert r.bufferedBody + Body(chunks) == r.bufferedBody;
    } else {
      var t, rest := Deliver(r, chunks[0].data), chunks[1..];
      assert r.bufferedBody + chunks[0].data + Body(rest) == r.bufferedBody + Body(chunks);
      if t.client.Opened? {
        DeliverOpened(t, rest);
      } else {
        DeliverAllKeeps(t, rest);
      }
    }
  }

  /** What the client has received at the end. */
  function Complete(body: seq<byte>): (c: Client) {
    Opened(if |body| <= 2_097_152 then Some(|body|) else None, body, 1)
  }

  lemma BodyScanned(sizes: SizeReader, chunks: seq<Chunk>, last: seq<byte>, tail: seq<byte>, r: Relay)
    requires AllWellFormed(sizes, chunks) && IsLine(sizes, last, 0) && r.Fresh()
    ensures var d := Scan(sizes, Stream(chunks, last, tail), r);
            && d == Scanned(d.relay, LastChunk, tail) && IsKept(d.relay, Body(chunks))
            && Finish(d.relay).writes == Writes(chunks, 0)
  {
    ScanStream(sizes, chunks, last, tail, r);
    DeliverAllKeeps(r, chunks);
    assert r.bufferedBody + Body(chunks) == Body(chunks);
  }

  /** Where decoding of a well-formed body stops. */
  lemma {:induction false} StreamStops(sizes: SizeReader, pieces: seq<seq<byte>>, chunks: seq<Chunk>, last: seq<byte>, tail: seq<byte>,
                                       r: Relay, d: Scanned, ahead: nat)
    requires AllWellFormed(sizes, chunks) && IsLine(sizes, last, 0) && Flatten(pieces) == Stream(chunks, last, tail)
    requires Stops(sizes, pieces, r, d, ahead) && r.Fresh()
    ensures d == Scanned(d.relay, LastChunk, tail) && IsKept(d.relay, Body(chunks))
    ensures Finish(d.relay).writes == Writes(chunks, 0)
    ensures |tail| <= |Flatten(pieces)| && ahead == ReadAhead(pieces, |Flatten(pieces)| - |tail|) <= |tail|
  {
    BodyScanned(sizes, chunks, last, tail, r);
  }

  /**
    * Whatever the pieces, a chunked body followed by its terminator and the end of the stream
    * reaches the client whole and is closed once, and its length is announced exactly when it is
    * within the limit.
    */
  lemma BodyDelivered(sizes: SizeReader, pieces: seq<seq<byte>>, chunks: seq<Chunk>, last: seq<byte>, tail: seq<byte>,
                                       r: Relay, d: Scanned, ahead: nat)
    requires AllWellFormed(sizes, chunks) && IsLine(sizes, last, 0) && Flatten(pieces) == Stream(chunks, last, tail)
    requires Stops(sizes, pieces, r, d, ahead) && r.Fresh()
    ensures ahead <= |d.rest| && d.relay.Content() == Body(chunks) && d.relay.Eofs() == 0
    ensures Ended(d, ahead, Closed) == (Relay([], Complete(Body(chunks)), Writes(chunks, 0)), Finished)
  {
    StreamStops(sizes, pieces, chunks, last, tail, r, d, ahead);
  }

  /** Some piece ends at position `n` of the stream. */
  predicate CutAt(pieces: seq<seq<byte>>, n: nat)
    decreases pieces
  {
    pieces != [] && (n == |pieces[0]| || (n > |pieces[0]| && CutAt(pieces[1..], n - |pieces[0]|)))
  }

  lemma {:induction false} AheadIsToTheNextCut(pieces: seq<seq<byte>>, n: nat)
    requires pieces != [] && n <= |Flatten(pieces)|
    ensures CutAt(pieces, n + ReadAhead(pieces, n))
    ensures forall m :: n <= m < n + ReadAhead(pieces, n) ==> !CutAt(pieces, m)
    decreases pieces
  {
    if n > |pieces[0]| {
      var k := n - |pieces[0]|;
      AheadIsToTheNextCut(pieces[1..], k);
      forall m | n <= m < n + ReadAhead(pieces, n) ensures !CutAt(pieces, m) {
        assert !CutAt(pieces[1..], m - |pieces[0]|);
      }
    }
  }

  lemma SilentExactly(pieces: seq<seq<byte>>, n: nat, body: Relay, ahead: nat)
    requires pieces != [] && n + 2 == |Flatten(pieces)| && ahead == ReadAhead(pieces, n) <= 2
    ensures Ended(Scanned(body, LastChunk, CRLF), ahead, Silent).1
         == if CutAt(pieces, n) || CutAt(pieces, n + 1) then Waiting else Finished
  {
    AheadIsToTheNextCut(pieces, n);
    if ahead == 2 {
      assert CRLF[..ahead] == CRLF;
    } else {
      assert CutAt(pieces, n + ahead) && !(CRLF <= CRLF[..ahead]);
    }
  }

  /**
    * On a connection that stays open after the final line end, the relay completes exactly when no
    * piece ends just before that line end or inside it; otherwise it waits for the connection.
    */
  lemma OpenConnectionExactly(sizes: SizeReader, pieces: seq<seq<byte>>, chunks: seq<Chunk>, last: seq<byte>, tail: seq<byte>,
                                                 r: Relay, d: Scanned, ahead: nat)
    requires AllWellFormed(sizes, chunks) && IsLine(sizes, last, 0) && Flatten(pieces) == Stream(chunks, last, tail) && tail == CRLF
    requires Stops(sizes, pieces, r, d, ahead) && r.Fresh()
    ensures |Flatten(pieces)| >= 2 && ahead <= |d.rest|
    ensures var n := |Flatten(pieces)| - 2;
            Ended(d, ahead, Silent).1 == if CutAt(pieces, n) || CutAt(pieces, n + 1) then Waiting else Finished
  {
    StreamStops(sizes, pieces, chunks, last, tail, r, d, ahead);
    SilentExactly(pieces, |Flatten(pieces)| - 2, d.relay, ahead);
  }

  /** The failing case: any body whose final line end comes as a piece of its own. */
  lemma LateLineEndWaits(sizes: SizeReader, chunks: seq<Chunk>, last: seq<byte>, tail: seq<byte>, pieces: seq<seq<byte>>,
                         r: Relay, d: Scanned, ahead: nat)
    requires AllWellFormed(sizes, chunks) && IsLine(sizes, last, 0) && tail == CRLF
    requires pieces == [Encoded(chunks) + (last + CRLF), tail]
    requires Stops(sizes, pieces, r, d, ahead) && r.Fresh()
    ensures ahead <= |d.rest| && Ended(d, ahead, Silent).1 == Waiting
  {
    assert pieces[1..] == [tail] && pieces[1..][1..] == [];
    assert Flatten(pieces) == pieces[0] + (tail + Flatten(pieces[1..][1..])) == Stream(chunks, last, tail);
    OpenConnectionExactly(sizes, pieces, chunks, last, tail, r, d, ahead);
  }

  /** The hexadecimal form of a size is a size line. */
  lemma HexLine(n: nat)
    requires n < USIZE_LIMIT
    ensures IsLine(SizeOf, ToHex(n), n)
  {
    var h := ToHex(n);
    SizeRoundTrip(n, []);
    assert h + [] == h;
    FirstCrlf(h);
    assert forall i :: 0 <= i < |h| ==> h[i] != CR;
  }

  lemma SomeStop(sizes: SizeReader, pieces: seq<seq<byte>>, r: Relay) returns (d: Scanned, ahead: nat)
    requires pieces != []
    ensures Stops(sizes, pieces, r, d, ahead)
  {
    d := Scan(sizes, Flatten(pieces), r);
    ahead := ReadAhead(pieces, |Flatten(pieces)| - |d.rest|);
  }

  lemma Outlook(sizes: SizeReader, pieces: seq<seq<byte>>, chunks: seq<Chunk>, last: seq<byte>, tail: seq<byte>, r: Relay)
    returns (d: Scanned, ahead: nat)
    requires AllWellFormed(sizes, chunks) && IsLine(sizes, last, 0)
    requires pieces != [] && Flatten(pieces) == Stream(chunks, last, tail) && r.Fresh()
    ensures Stops(sizes, pieces, r, d, ahead) && ahead <= |d.rest| && d.relay.Eofs() == 0
    ensures Ended(d, ahead, Closed) == (Relay([], Complete(Body(chunks)), Writes(chunks, 0)), Finished)
  {
    d, ahead := SomeStop(sizes, pieces, r);
    BodyDelivered(sizes, pieces, chunks, last, tail, r, d, ahead);
  }

  // ---------- Which sinks suffice ----------

  /** How many attempts a sink accepts anything at. */
  function Attempts(acceptances: seq<nat>): (n: nat) {
    if acceptances == [] then 0 else (if acceptances[0] > 0 then 1 else 0) + Attempts(acceptances[1..])
  }

  /** A write is served exactly when the acceptances add up to it; it takes an attempt per octet at most. */
  lemma {:induction false} LeftExactly(acceptances: seq<nat>, n: nat)
    ensures Left(acceptances, n).Some? <==> Total(acceptances) >= n
    ensures Left(acceptances, n).Some? ==>
      && Attempts(Left(acceptances, n).value) + n >= Attempts(acceptances)
      && Total(Left(acceptances, n).value) + n <= Total(acceptances)
    ensures Attempts(acceptances) <= Total(acceptances)
    decreases acceptances
  {
    if acceptances != [] {
      LeftExactly(acceptances[1..], if acceptances[0] < n then n - acceptances[0] else 0);
    }
  }

  /** An attempt per octet is enough for any writes; a sink that serves them accepts as much as they hold. */
  lemma {:induction false} EnoughServes(acceptances: seq<nat>, writes: seq<nat>)
    ensures Attempts(acceptances) >= Total(writes) ==> Served(acceptances, writes).Some?
    ensures Served(acceptances, writes).Some? ==>
      && Attempts(Served(acceptances, writes).value) + Total(writes) >= Attempts(acceptances)
      && Total(Served(acceptances, writes).value) + Total(writes) <= Total(acceptances)
    decreases |writes|
  {
    if writes != [] {
      var front, n := writes[..|writes| - 1], writes[|writes| - 1];
      EnoughServes(acceptances, front);
      TotalNext(writes);
      if Served(acceptances, front).Some? {
        LeftExactly(Served(acceptances, front).value, n);
      }
    }
  }

  lemma {:induction false} TotalOfSizes(chunks: seq<Chunk>)
    ensures Total(Sizes(chunks)) == |Body(chunks)|
  {
    if chunks != [] {
      TotalOfSizes(chunks[1..]);
      assert Sizes(chunks)[1..] == Sizes(chunks[1..]);
    }
  }

  /** The writes hold the body; within the limit there is one. */
  lemma {:induction false} TotalOfWrites(chunks: seq<Chunk>, kept: nat)
    requires kept <= BODY_LIMIT
    ensures Total(Writes(chunks, kept)) == kept + |Body(chunks)|
    ensures kept + |Body(chunks)| <= BODY_LIMIT ==> Writes(chunks, kept) == [kept + |Body(chunks)|]
    decreases chunks
  {
    if chunks == [] {
      assert [kept][1..] == [];
    } else {
      var n := kept + |chunks[0].data|;
      if n > BODY_LIMIT {
        TotalOfSizes(chunks[1..]);
        assert Writes(chunks, kept)[1..] == Sizes(chunks[1..]);
      } else {
        TotalOfWrites(chunks[1..], n);
      }
    }
  }

  /** Which sinks a body gets through. */
  lemma SinksThatSuffice(sink: seq<nat>, chunks: seq<Chunk>)
    ensures Attempts(sink) >= |Body(chunks)| ==> Served(sink, Writes(chunks, 0)).Some?
    ensures Served(sink, Writes(chunks, 0)).Some? ==> Total(sink) >= |Body(chunks)|
    ensures |Body(chunks)| <= BODY_LIMIT ==> (Served(sink, Writes(chunks, 0)).Some? <==> Total(sink) >= |Body(chunks)|)
  {
    TotalOfWrites(chunks, 0);
    EnoughServes(sink, Writes(chunks, 0));
    if |Body(chunks)| <= BODY_LIMIT {
      assert [|Body(chunks)|][..0] == [];
      LeftExactly(sink, |Body(chunks)|);
    }
  }

  /** Beyond the limit the sum is not enough: what an attempt could take more than its write holds is lost. */
  lemma SumIsNotEnough(sink: seq<nat>, chunks: seq<Chunk>)
    requires |chunks| == 2 && |chunks[0].data| == BODY_LIMIT + 1 && |chunks[1].data| == 1
    requires sink == [BODY_LIMIT + 2]
    ensures Total(sink) == |Body(chunks)| && Served(sink, Writes(chunks, 0)).None?
  {
    assert chunks[1..][1..] == [] && sink[1..] == [];
    assert Body(chunks[1..]) == chunks[1].data + Body(chunks[1..][1..]);
    assert Sizes(chunks[1..]) == [1] + Sizes(chunks[1..][1..]) == [1];
    assert Writes(chunks, 0) == [BODY_LIMIT + 1] + Sizes(chunks[1..]) == [BODY_LIMIT + 1, 1];
    var first := Writes(chunks, 0)[..1];
    assert first[..0] == [] && Served(sink, first) == Left(sink, BODY_LIMIT + 1) == Some([]);
  }

  /**
    * The relay of a whole response, from the first piece to the end of the stream: the client gets all
    * of the body and one end of stream exactly when the sink serves the writes.
    */
  method RelayBody(first: seq<byte>, pieces: seq<seq<byte>>, sink: seq<nat>, ghost sizes: SizeReader,
                   ghost chunks: seq<Chunk>, ghost last: seq<byte>, ghost tail: seq<byte>)
    returns (outcome: Outcome, client: Client)
    requires sizes == SizeOf && AllWellFormed(sizes, chunks) && IsLine(sizes, last, 0)
    requires Flatten([first] + pieces) == Stream(chunks, last, tail)
    ensures outcome == if Served(sink, Writes(chunks, 0)).Some? then Finished else SinkFailed
    ensures Attempts(sink) >= |Body(chunks)| ==> outcome == Finished
    ensures |Body(chunks)| <= BODY_LIMIT ==> (outcome == Finished <==> Total(sink) >= |Body(chunks)|)
    ensures outcome == Finished ==> client == Complete(Body(chunks))
    ensures outcome == SinkFailed ==>
      && client.Opened? && client.eofs == 0 && client.body < Body(chunks)
      && |client.body| == Accepted(sink, Writes(chunks, 0))
  {
    var relay := new ChunkRelay(first, pieces, Closed, sink);
    ghost var d, ahead := Outlook(sizes, [first] + pieces, chunks, last, tail, relay.View());
    outcome := relay.Run(d, ahead);
    client := relay.client;
    SinksThatSuffice(sink, chunks);
  }
}
