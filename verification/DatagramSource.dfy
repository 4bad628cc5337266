/**
  * The driver that turns a source of pieces into a source of datagrams: it re-feeds the tail of
  * a piece before it reads the next one.
  */
module DatagramSource {
  import opened Wrappers
  import opened Bytes
  import opened UdpFraming
  import opened UdpPackets

  class DatagramDecoder {
    /** Pieces the source has still to deliver; after the last one it reports end of stream. */
    var incoming: seq<seq<byte>>
    var decoder: Decoder
    var pendingBytes: seq<seq<byte>>

    ghost predicate Valid()
      reads this, decoder
    {
      Coherent(decoder.View())
    }

    /** Pieces still to decode, in order. */
    ghost function Queue(): (chunks: seq<seq<byte>>)
      reads this
    {
      pendingBytes + incoming
    }

    /** The decoder's fields and the datagrams still to come, were the stream read to its end. */
    ghost function Outlook(): (r: (Fields, seq<Datagram>))
      reads this, decoder
      requires Valid()
    {
      FeedAll(decoder.View(), Queue())
    }

    constructor (chunks: seq<seq<byte>>)
      ensures Valid() && fresh(decoder)
      ensures Outlook() == FeedAll(INITIAL, chunks)
    {
      incoming, pendingBytes := chunks, [];
      decoder := new Decoder();
      new;
      assert Queue() == chunks;
    }

    /** The first of the datagrams to come; end of stream exactly when there is none. */
    method Read() returns (r: Option<Datagram>)
      requires Valid()
      modifies this, decoder
      ensures Valid() && decoder == old(decoder)
      ensures r.Some? ==> old(Outlook()) == (Outlook().0, [r.value] + Outlook().1)
      ensures r.None? ==> old(Outlook()) == Outlook() && Outlook().1 == []
    {
      r := None;
      while r.None?
        invariant Valid() && decoder == old(decoder)
        invariant r.None? ==> Outlook() == old(Outlook())
        invariant r.Some? ==> old(Outlook()) == (Outlook().0, [r.value] + Outlook().1)
        decreases r.None?, |Queue()|
      {
        var piece := NextPiece();
        if piece.None? {
          return None;
        }
        r := Decode(piece.value);
      }
    }

    /** Every datagram to come, up to the end of the stream. */
    method ReadToEnd() returns (ds: seq<Datagram>)
      requires Valid()
      modifies this, decoder
      ensures Valid() && ds == old(Outlook()).1 && Outlook() == (old(Outlook()).0, [])
    {
      ds := [];
      var more := true;
      while more
        invariant Valid() && decoder == old(decoder)
        invariant Outlook().0 == old(Outlook()).0 && ds + Outlook().1 == old(Outlook()).1
        invariant !more ==> Outlook().1 == []
        decreases more, |Outlook().1|
      {
        var d := Read();
        more := d.Some?;
        if d.Some? {
          ds := ds + [d.value];
        }
      }
      assert ds + [] == ds;
    }

    method NextPiece() returns (piece: Option<seq<byte>>)
      modifies this`pendingBytes, this`incoming
      ensures piece.None? ==> old(Queue()) == [] == Queue()
      ensures piece.Some? ==> old(Queue()) == [piece.value] + Queue()
    {
      if pendingBytes != [] {
        piece := Some(pendingBytes[0]);
        pendingBytes := pendingBytes[1..];
      } else if incoming != [] {
        piece := Some(incoming[0]);
        incoming := incoming[1..];
      } else {
        piece := None;
      }
    }

    method Decode(piece: seq<byte>) returns (r: Option<Datagram>)
      requires Valid()
      modifies this`pendingBytes, decoder
      ensures Valid()
      ensures r.None? ==> FeedAll(old(decoder.View()), [piece] + old(Queue())) == Outlook() && Queue() == old(Queue())
      ensures r.Some? ==> FeedAll(old(decoder.View()), [piece] + old(Queue())) == (Outlook().0, [r.value] + Outlook().1)
    {
      ghost var f, rest := decoder.View(), Queue();
      var decoded := decoder.DecodeChunk(piece);
      if decoded.WantMore? {
        PieceConsumed(f, piece, rest, decoder.View());
        return None;
      }
      PieceCompletes(f, piece, rest, decoder.View(), decoded.datagram, decoded.tail);
      if decoded.tail != [] {
        pendingBytes := [decoded.tail] + pendingBytes;
        assert Queue() == [decoded.tail] + rest;
      }
      return Some(decoded.datagram);
    }
  }

  /** A client's datagrams, read to the end of the stream: exactly those that have arrived, in order. */
  method ReadStream(chunks: seq<seq<byte>>, ghost sent: seq<Datagram>) returns (ds: seq<Datagram>)
    requires (forall d :: d in sent ==> Sendable(d)) && (forall b :: b in Bodies(sent) ==> Sized(b))
    requires Flatten(chunks) == Packets(Bodies(sent))
    ensures ds == Emitting(sent)
  {
    var source := new DatagramDecoder(chunks);
    SegmentationIndependence(sent, chunks);
    ds := source.ReadToEnd();
  }

  lemma PieceConsumed(f: Fields, chunk: seq<byte>, rest: seq<seq<byte>>, g: Fields)
    requires Coherent(f) && Feed(f, chunk) == (g, [])
    ensures FeedAll(f, [chunk] + rest) == FeedAll(g, rest)
  {
    assert ([chunk] + rest)[1..] == rest;
    assert [] + FeedAll(g, rest).1 == FeedAll(g, rest).1;
  }

  lemma PieceCompletes(f: Fields, chunk: seq<byte>, rest: seq<seq<byte>>, g: Fields, d: Datagram, tail: seq<byte>)
    requires Coherent(f) && Coherent(g)
    requires Feed(f, chunk) == (Feed(g, tail).0, [d] + Feed(g, tail).1)
    ensures var after := if tail == [] then rest else [tail] + rest;
            FeedAll(f, [chunk] + rest) == (FeedAll(g, after).0, [d] + FeedAll(g, after).1)
  {
    var (h, ds) := Feed(g, tail);
    var es := FeedAll(h, rest).1;
    assert ([chunk] + rest)[1..] == rest && ([tail] + rest)[1..] == rest;
    assert ([d] + ds) + es == [d] + (ds + es);
    if tail == [] {
      assert [] + es == es;
    }
  }
}
