/** The incoming ICMP-over-HTTP framing: requests of a fixed size, cut anywhere. */
module IcmpFraming {
  import opened Wrappers
  import opened Bytes
  import opened NetAddress

  const REQUEST_SIZE := 23

  /** The echo data itself is random; only its size comes from the client. */
  datatype Request = Request(identifier: nat, destination: IpAddr, sequenceNumber: nat, ttl: byte, dataSize: nat)

  function ReadRequest(raw: seq<byte>): (r: Request)
    requires |raw| == REQUEST_SIZE
  {
    Request(FromBE(raw[..2]), GetFixedSizeIp(raw[2..18]), FromBE(raw[18..20]), raw[20], FromBE(raw[21..]))
  }

  /** The request as a client writes it. */
  function WriteRequest(r: Request): (raw: seq<byte>)
    requires r.identifier < 0x1_0000 && r.sequenceNumber < 0x1_0000 && r.dataSize < 0x1_0000
    requires r.destination.WellFormed()
    ensures |raw| == REQUEST_SIZE
  {
    ToBE(r.identifier, 2) + PutFixedSizeIp(r.destination) + ToBE(r.sequenceNumber, 2) + [r.ttl] + ToBE(r.dataSize, 2)
  }

  lemma RequestRoundTrip(r: Request)
    requires r.identifier < 0x1_0000 && r.sequenceNumber < 0x1_0000 && r.dataSize < 0x1_0000
    requires r.destination.WellFormed()
    ensures ReadRequest(WriteRequest(r)) == r.(destination := Canonical(r.destination))
  {
    var raw := WriteRequest(r);
    assert raw[..2] == ToBE(r.identifier, 2) && raw[2..18] == PutFixedSizeIp(r.destination);
    assert raw[18..20] == ToBE(r.sequenceNumber, 2) && raw[21..] == ToBE(r.dataSize, 2);
    Pow256Values();
    FromToBE(r.identifier, 2);
    FromToBE(r.sequenceNumber, 2);
    FromToBE(r.dataSize, 2);
    GetPutFixedSizeIp(r.destination);
  }

  /** The requests a whole stream holds. */
  function Requests(stream: seq<byte>): (rs: seq<Request>) {
    if |stream| < REQUEST_SIZE then []
    else [ReadRequest(stream[..REQUEST_SIZE])] + Requests(stream[REQUEST_SIZE..])
  }

  function Leftover(stream: seq<byte>): (s: seq<byte>) {
    if |stream| < REQUEST_SIZE then stream else Leftover(stream[REQUEST_SIZE..])
  }

  class Decoder {
    var buffer: seq<byte>

    constructor ()
      ensures buffer == []
    {
      buffer := [];
    }

    method OnMessageChunk(chunk: seq<byte>) returns (r: Option<(seq<byte>, seq<byte>)>)
      requires |buffer| < REQUEST_SIZE
      modifies this
      ensures |buffer| < REQUEST_SIZE
      ensures var joined := old(buffer) + chunk;
              if |joined| < REQUEST_SIZE then r.None? && buffer == joined
              else r == Some((joined[..REQUEST_SIZE], joined[REQUEST_SIZE..])) && buffer == []
    {
      if buffer != [] || |buffer| + |chunk| < REQUEST_SIZE {
        ghost var joined := buffer + chunk;
        var n := if |chunk| < REQUEST_SIZE - |buffer| then |chunk| else REQUEST_SIZE - |buffer|;
        buffer := buffer + chunk[..n];
        var rest := chunk[n..];
        if |buffer| < REQUEST_SIZE {
          assert rest == [] && chunk[..n] == chunk;
          r := None;
        } else {
          assert buffer == joined[..REQUEST_SIZE] && rest == joined[REQUEST_SIZE..];
          r := Some((buffer, rest));
          buffer := [];
        }
      } else {
        assert buffer + chunk == chunk;
        r := Some((chunk[..REQUEST_SIZE], chunk[REQUEST_SIZE..]));
      }
    }

    /** Reads a source to its end, tails first: the requests are those of the whole stream. */
    method ReadAll(incoming: seq<seq<byte>>) returns (requests: seq<Request>)
      requires |buffer| < REQUEST_SIZE
      modifies this
      ensures requests == Requests(old(buffer) + Flatten(incoming))
      ensures buffer == Leftover(old(buffer) + Flatten(incoming))
    {
      requests := [];
      ghost var stream := buffer + Flatten(incoming);
      var queue := incoming;
      while queue != []
        invariant |buffer| < REQUEST_SIZE
        invariant Requests(stream) == requests + Requests(buffer + Flatten(queue))
        invariant Leftover(stream) == Leftover(buffer + Flatten(queue))
        decreases |Flatten(queue)|, |queue|
      {
        ghost var before := buffer + Flatten(queue);
        ghost var later := Flatten(queue[1..]);
        var decoded := OnMessageChunk(queue[0]);
        if decoded.None? {
          queue := queue[1..];
          assert before == buffer + later;
        } else {
          var (raw, tail) := decoded.value;
          assert before[..REQUEST_SIZE] == raw && before[REQUEST_SIZE..] == tail + later;
          ghost var others := queue[1..];
          queue := if tail == [] then queue[1..] else [tail] + queue[1..];
          TailFirst(tail, others);
          assert buffer + Flatten(queue) == tail + later;
          requests := requests + [ReadRequest(raw)];
        }
      }
    }
  }

  lemma TailFirst(tail: seq<byte>, others: seq<seq<byte>>)
    ensures Flatten([tail] + others) == tail + Flatten(others)
  {
    assert ([tail] + others)[1..] == others;
  }
}
