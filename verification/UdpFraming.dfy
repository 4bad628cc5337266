/**
  * The incoming UDP-over-HTTP framing: an incremental decoder with five states that is
  * fed arbitrary pieces of the client's byte stream.
  *
  * `Step` and `Feed` say what the decoder does to its fields; `Decoder` is the decoder
  * itself. The theorems about packets and segmentations are in module UdpPackets.
  */
module UdpFraming {
  import opened Wrappers
  import opened Bytes
  import opened NetAddress
  import opened Utf8

  const LENGTH_SIZE := 4
  const FIXED_HEADER_SIZE := 37
  const MAX_UDP_PAYLOAD_SIZE := 65536 - 20 - 8
  const MAX_UDP_IN_PAYLOAD_SIZE := MAX_UDP_PAYLOAD_SIZE - FIXED_HEADER_SIZE

  datatype RecvState =
    | Length
    | FixedHeader
    | AppName(length: nat)
    | Payload(length: nat)
    | Dropping(remaining: nat)

  /** The application name is a string, held as its UTF-8 octets. */
  datatype Datagram = Datagram(
    source: SocketAddr,
    destination: SocketAddr,
    appName: Option<seq<byte>>,
    payload: seq<byte>)

  /** The decoder's fields as one value. */
  datatype Fields = Fields(
    state: RecvState,
    totalLength: nat,
    buffer: seq<byte>,
    source: Option<SocketAddr>,
    destination: Option<SocketAddr>,
    appName: Option<seq<byte>>)

  const INITIAL := Fields(Length, 0, [], None, None, None)

  /** Octets that the field being received is made of. */
  function FieldSize(s: RecvState): (n: nat)
    requires !s.Dropping?
  {
    match s
    case Length => LENGTH_SIZE
    case FixedHeader => FIXED_HEADER_SIZE
    case AppName(length) => length
    case Payload(length) => length
  }

  /**
    * The invariant behind every assertion, subtraction and unwrapped option of the decoder:
    * the buffer is a proper part of the field being received, the lengths add up, and the
    * addresses and the name are known once they are needed.
    */
  predicate Coherent(f: Fields) {
    match f.state
    case Length => |f.buffer| < LENGTH_SIZE
    case FixedHeader => |f.buffer| < FIXED_HEADER_SIZE <= f.totalLength
    case AppName(length) =>
      && length < 256
      && (|f.buffer| < length || |f.buffer| == length == 0)
      && FIXED_HEADER_SIZE + length <= f.totalLength <= MAX_UDP_IN_PAYLOAD_SIZE - length
      && f.source.Some? && f.destination.Some?
    case Payload(length) =>
      && (|f.buffer| < length || |f.buffer| == length == 0)
      && FIXED_HEADER_SIZE + length <= f.totalLength <= MAX_UDP_IN_PAYLOAD_SIZE
      && f.source.Some? && f.destination.Some? && f.appName.Some?
    case Dropping(_) => f.buffer == []
  }

  function ReadSocketAddr(s: seq<byte>): (a: SocketAddr)
    requires |s| == 18
    ensures a.WellFormed()
  {
    ToFromBE(s[16..]);
    Pow256Values();
    SocketAddr(GetFixedSizeIp(s[..16]), FromBE(s[16..]))
  }

  /** The fields once the one being received is complete, and the datagram that completes with it. */
  function Complete(f: Fields, field: seq<byte>): (r: (Fields, Option<Datagram>))
    requires Coherent(f) && !f.state.Dropping? && |field| == FieldSize(f.state)
    ensures Coherent(r.0) && r.0.buffer == []
    ensures r.1.Some? <==> f.state.Payload?
  {
    var g := f.(buffer := []);
    match f.state
    case Length =>
      var total := FromBE(field);
      (g.(totalLength := total,
          state := if total >= FIXED_HEADER_SIZE then FixedHeader else Dropping(total)),
       None)
    case FixedHeader =>
      var nameLength := field[36];
      (g.(source := Some(ReadSocketAddr(field[..18])),
          destination := Some(ReadSocketAddr(field[18..36])),
          state := if FIXED_HEADER_SIZE + nameLength <= f.totalLength <= MAX_UDP_IN_PAYLOAD_SIZE - nameLength
                   then AppName(nameLength)
                   else Dropping(f.totalLength - FIXED_HEADER_SIZE)),
       None)
    case AppName(length) =>
      var payloadLength := f.totalLength - FIXED_HEADER_SIZE - length;
      (if IsUtf8(field) then g.(appName := Some(field), state := Payload(payloadLength))
       else g.(state := Dropping(payloadLength)),
       None)
    case Payload(_) =>
      (g.(appName := None, state := Length),
       Some(Datagram(f.source.value, f.destination.value, f.appName, field)))
  }

  datatype Outcome = Outcome(fields: Fields, emitted: Option<Datagram>, tail: seq<byte>)

  /** One turn of the decoder over a non-empty piece of the stream. */
  function Step(f: Fields, data: seq<byte>): (r: Outcome)
    requires Coherent(f) && data != []
    ensures Coherent(r.fields)
    ensures r.emitted.Some? ==> r.fields.state.Length?
    ensures Smaller(r.fields, r.tail, f, data)
  {
    match f.state
    case Dropping(remaining) =>
      // The octets to drop are handed back; what follows them in this piece is lost.
      var n := if remaining < |data| then remaining else |data|;
      Outcome(f.(state := if remaining <= n then Length else Dropping(remaining - n)), None, data[..n])
    case _ =>
      var n := FieldSize(f.state);
      var joined := f.buffer + data;
      if |joined| < n then Outcome(f.(buffer := joined), None, [])
      else
        var (g, d) := Complete(f, joined[..n]);
        Outcome(g, d, joined[n..])
  }

  function Rank(s: RecvState): (n: nat) {
    match s
    case AppName(_) => 3
    case Dropping(_) => 2
    case Payload(_) => 1
    case _ => 0
  }

  /** The measure that makes decoding a piece terminate: octets left, state rank, octets to drop. */
  predicate Smaller(f1: Fields, data1: seq<byte>, f0: Fields, data0: seq<byte>) {
    || |data1| < |data0|
    || (|data1| == |data0| && Rank(f1.state) < Rank(f0.state))
    || (|data1| == |data0| && f1.state.Dropping? && f0.state.Dropping? && f1.state.remaining < f0.state.remaining)
  }

  function ToDrop(s: RecvState): (n: nat) {
    if s.Dropping? then s.remaining else 0
  }

  /** Everything the decoder does to one piece of the stream, across the datagrams it completes. */
  function Feed(f: Fields, data: seq<byte>): (r: (Fields, seq<Datagram>))
    requires Coherent(f)
    ensures Coherent(r.0)
    decreases |data|, Rank(f.state), ToDrop(f.state)
  {
    if data == [] then (f, [])
    else
      var s := Step(f, data);
      var (g, ds) := Feed(s.fields, s.tail);
      (g, Emitted(s.emitted) + ds)
  }

  function Emitted(d: Option<Datagram>): (ds: seq<Datagram>) {
    if d.Some? then [d.value] else []
  }

  /** A list of pieces, one after the other. */
  function FeedAll(f: Fields, chunks: seq<seq<byte>>): (r: (Fields, seq<Datagram>))
    requires Coherent(f)
    ensures Coherent(r.0)
    decreases chunks
  {
    if chunks == [] then (f, [])
    else
      var (g, ds) := Feed(f, chunks[0]);
      var (h, es) := FeedAll(g, chunks[1..]);
      (h, ds + es)
  }

  datatype DecodeResult = WantMore | Completed(datagram: Datagram, tail: seq<byte>)

  class Decoder {
    var state: RecvState
    var totalLength: nat
    var buffer: seq<byte>
    var source: Option<SocketAddr>
    var destination: Option<SocketAddr>
    var appName: Option<seq<byte>>

    function View(): (f: Fields)
      reads this
    {
      Fields(state, totalLength, buffer, source, destination, appName)
    }

    constructor ()
      ensures View() == INITIAL
    {
      state, totalLength, buffer := Length, 0, [];
      source, destination, appName := None, None, None;
    }

    method DecodeChunkOnce(data: seq<byte>) returns (d: Option<Datagram>, tail: seq<byte>)
      requires Coherent(View()) && data != []
      modifies this
      ensures Outcome(View(), d, tail) == Step(old(View()), data)
    {
      match state {
        case Length =>
          d := None;
          tail := ProcessClientLength(data);
        case FixedHeader =>
          d := None;
          tail := ProcessClientFixedHeader(data);
        case AppName(length) =>
          d := None;
          tail := ProcessClientAppName(length, data);
        case Payload(length) =>
          d, tail := ProcessClientPayload(length, data);
        case Dropping(remaining) =>
          var toDrop := if remaining < |data| then remaining else |data|;
          if remaining <= toDrop {
            state := Length;
          } else {
            state := Dropping(remaining - toDrop);
          }
          d, tail := None, data[..toDrop];
      }
    }

    method ProcessClientLength(data: seq<byte>) returns (tail: seq<byte>)
      requires Coherent(View()) && data != [] && state.Length?
      modifies this
      ensures Outcome(View(), None, tail) == Step(old(View()), data)
    {
      var r := BufferedRead(data, LENGTH_SIZE);
      if r.None? {
        return [];
      }
      totalLength := FromBE(r.value.0);
      if totalLength >= FIXED_HEADER_SIZE {
        state := FixedHeader;
      } else {
        state := Dropping(totalLength);
      }
      tail := r.value.1;
    }

    method ProcessClientFixedHeader(data: seq<byte>) returns (tail: seq<byte>)
      requires Coherent(View()) && data != [] && state.FixedHeader?
      modifies this
      ensures Outcome(View(), None, tail) == Step(old(View()), data)
    {
      var r := BufferedRead(data, FIXED_HEADER_SIZE);
      if r.None? {
        return [];
      }
      var header := r.value.0;
      source := Some(ReadSocketAddr(header[..18]));
      destination := Some(ReadSocketAddr(header[18..36]));
      var appNameLength := header[36];
      assert appNameLength <= MAX_UDP_IN_PAYLOAD_SIZE;
      if totalLength > MAX_UDP_IN_PAYLOAD_SIZE - appNameLength {
        state := Dropping(totalLength - FIXED_HEADER_SIZE);
      } else if totalLength >= FIXED_HEADER_SIZE + appNameLength {
        state := AppName(appNameLength);
      } else {
        state := Dropping(totalLength - FIXED_HEADER_SIZE);
      }
      tail := r.value.1;
    }

    method ProcessClientAppName(length: nat, data: seq<byte>) returns (tail: seq<byte>)
      requires Coherent(View()) && data != [] && state == AppName(length)
      modifies this
      ensures Outcome(View(), None, tail) == Step(old(View()), data)
    {
      var r := BufferedRead(data, length);
      if r.None? {
        return [];
      }
      assert totalLength >= FIXED_HEADER_SIZE + length;
      var payloadLength := totalLength - FIXED_HEADER_SIZE - length;
      if IsUtf8(r.value.0) {
        appName := Some(r.value.0);
        state := Payload(payloadLength);
      } else {
        state := Dropping(payloadLength);
      }
      tail := r.value.1;
    }

    method ProcessClientPayload(length: nat, data: seq<byte>) returns (d: Option<Datagram>, tail: seq<byte>)
      requires Coherent(View()) && data != [] && state == Payload(length)
      modifies this
      ensures Outcome(View(), d, tail) == Step(old(View()), data)
    {
      var toSend: seq<byte>;
      if buffer == [] && |data| >= length {
        assert buffer + data == data;
        toSend, tail := data[..length], data[length..];
      } else {
        assert |buffer| <= length;
        var toDrain := if |data| < length - |buffer| then |data| else length - |buffer|;
        ghost var joined := buffer + data;
        buffer := buffer + data[..toDrain];
        if |buffer| < length {
          assert data[..toDrain] == data;
          return None, data[toDrain..];
        }
        assert buffer == joined[..length];
        toSend, tail := buffer, data[toDrain..];
        assert tail == joined[length..];
        buffer := [];
      }
      state := Length;
      d := Some(Datagram(source.value, destination.value, appName, toSend));
      appName := None;
    }

    /** The next `cap` octets of the buffer followed by the input, and what is left of the input. */
    method BufferedRead(input: seq<byte>, cap: nat) returns (r: Option<(seq<byte>, seq<byte>)>)
      requires |buffer| < cap || |buffer| == cap == 0
      modifies this`buffer
      ensures |old(buffer) + input| < cap ==> r.None? && buffer == old(buffer) + input
      ensures |old(buffer) + input| >= cap ==>
                r == Some(((old(buffer) + input)[..cap], (old(buffer) + input)[cap..])) && buffer == []
    {
      var toDrain := if |input| < cap - |buffer| then |input| else cap - |buffer|;
      ghost var joined := buffer + input;
      buffer := buffer + input[..toDrain];
      var rest := input[toDrain..];
      if |buffer| < cap {
        assert rest == [] && input[..toDrain] == input;
        return None;
      }
      assert buffer == joined[..cap] && rest == joined[cap..];
      r := Some((buffer, rest));
      buffer := [];
    }

    /** Decodes up to the first datagram that completes; all the rest of the piece is handed back. */
    method DecodeChunk(input: seq<byte>) returns (r: DecodeResult)
      requires Coherent(View())
      modifies this
      ensures Coherent(View())
      ensures r.WantMore? ==> Feed(old(View()), input) == (View(), [])
      ensures r.Completed? ==>
                && |r.tail| <= |input|
                && Feed(old(View()), input) == (Feed(View(), r.tail).0, [r.datagram] + Feed(View(), r.tail).1)
    {
      var data := input;
      while data != []
        invariant Coherent(View())
        invariant |data| <= |input|
        invariant Feed(old(View()), input) == Feed(View(), data)
        decreases |data|, Rank(state), ToDrop(state)
      {
        ghost var f, before := View(), data;
        var d, tail := DecodeChunkOnce(data);
        assert Outcome(View(), d, tail) == Step(f, before);
        if d.Some? {
          return Completed(d.value, tail);
        }
        assert [] + Feed(View(), tail).1 == Feed(View(), tail).1;
        data := tail;
      }
      return WantMore;
    }
  }
}
