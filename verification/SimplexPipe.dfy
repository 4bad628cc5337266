/**
  * One direction of a TCP relay: chunks read from a source are written to a sink that may accept
  * only a part of what it is offered. An exchange can time out while it waits, and is resumed
  * later with the chunk that is still pending.
  */
module SimplexPipe {
  import opened Wrappers
  import opened Bytes

  datatype Data = Chunk(bytes: seq<byte>) | Eof

  /** How a wait ends: `Elapsed` is a timeout, or the exchange being dropped while it waits. */
  datatype Wait = Ready | Elapsed | Broken

  datatype Write = Accepts(n: nat) | Fails

  /** What source and sink answer in one turn of the loop, where they are asked. */
  datatype Turn = Turn(wait: Wait, data: Data, write: Write, consumeOk: bool, eofOk: bool, flush: Wait)

  datatype Status = TimedOut | Finished | Failed

  /** `bytesRead` and `accepted` are the octets that left the source and reached the sink. */
  datatype Pipe = Pipe(bytesRead: seq<byte>, accepted: seq<byte>, pending: Option<seq<byte>>,
                       consumed: nat, metered: nat, eofs: nat) {
    function Unsent(): (s: seq<byte>) {
      if pending.None? then [] else pending.value
    }
  }

  const IDLE := Pipe([], [], None, 0, 0, 0)

  /** Offers a chunk that has just been taken to the sink. */
  function Offer(p: Pipe, bytes: seq<byte>, t: Turn): (r: (Pipe, Option<Status>)) {
    if t.write.Fails? then (p.(pending := None), Some(Failed))
    else
      var sent := if t.write.n < |bytes| then t.write.n else |bytes|;
      var q := p.(accepted := p.accepted + bytes[..sent], metered := p.metered + sent, pending := None);
      if !t.consumeOk then (q, Some(Failed))
      else (q.(consumed := q.consumed + sent, pending := if sent < |bytes| then Some(bytes[sent..]) else None), None)
  }

  function Shut(p: Pipe, t: Turn): (r: (Pipe, Option<Status>)) {
    if !t.eofOk then (p, Some(Failed))
    else
      (p.(eofs := p.eofs + 1),
       Some(match t.flush case Ready => Finished case Elapsed => TimedOut case Broken => Failed))
  }

  /** One turn of the loop. A status ends the exchange. */
  function Step(p: Pipe, t: Turn): (r: (Pipe, Option<Status>)) {
    match t.wait
    case Elapsed => (p, Some(TimedOut))
    case Broken => (p, Some(Failed))
    case Ready =>
      if p.pending.Some? then Offer(p, p.pending.value, t)
      else if t.data.Chunk? then Offer(p.(bytesRead := p.bytesRead + t.data.bytes), t.data.bytes, t)
      else Shut(p, t)
  }

  /** A whole exchange; one that runs out of turns is dropped where it waits. */
  function Exchanged(p: Pipe, turns: seq<Turn>): (r: (Pipe, Status))
    decreases turns
  {
    if turns == [] then (p, TimedOut)
    else
      var (q, status) := Step(p, turns[0]);
      if status.Some? then (q, status.value) else Exchanged(q, turns[1..])
  }

  class Relay {
    var pendingChunk: Option<seq<byte>>
    /** The source's and the sink's side of the relay. */
    var bytesRead: seq<byte>
    var accepted: seq<byte>
    var consumed: nat
    var metered: nat
    var eofs: nat

    ghost function View(): (p: Pipe)
      reads this
    {
      Pipe(bytesRead, accepted, pendingChunk, consumed, metered, eofs)
    }

    constructor ()
      ensures View() == IDLE
    {
      pendingChunk, bytesRead, accepted, consumed, metered, eofs := None, [], [], 0, 0, 0;
    }

    /** Takes the pending chunk, or reads one. */
    method Take(t: Turn) returns (data: Data)
      modifies this`pendingChunk, this`bytesRead
      ensures old(pendingChunk).Some? ==> data == Chunk(old(pendingChunk).value) && bytesRead == old(bytesRead)
      ensures old(pendingChunk).None? ==> data == t.data
      ensures old(pendingChunk).None? ==> bytesRead == old(bytesRead) + if data.Chunk? then data.bytes else []
      ensures pendingChunk.None?
    {
      if pendingChunk.Some? {
        data := Chunk(pendingChunk.value);
        pendingChunk := None;
      } else {
        data := t.data;
        bytesRead := bytesRead + if data.Chunk? then data.bytes else [];
      }
    }

    /** Writes a chunk, accounts for what was sent and keeps the rest. */
    method Forward(bytes: seq<byte>, t: Turn) returns (failed: bool)
      requires pendingChunk.None?
      modifies this
      ensures (View(), if failed then Some(Failed) else None) == Offer(old(View()), bytes, t)
    {
      if t.write.Fails? {
        return true;
      }
      var unsent := if t.write.n < |bytes| then bytes[t.write.n..] else [];
      var sent := |bytes| - |unsent|;
      accepted := accepted + bytes[..sent];
      metered := metered + sent;
      if !t.consumeOk {
        return true;
      }
      consumed := consumed + sent;
      if unsent != [] {
        pendingChunk := Some(unsent);
      }
      return false;
    }

    /** One turn of the loop. */
    method TakeTurn(t: Turn) returns (status: Option<Status>)
      modifies this
      ensures (View(), status) == Step(old(View()), t)
    {
      if t.wait == Elapsed {
        return Some(TimedOut);
      }
      if t.wait == Broken {
        return Some(Failed);
      }
      var data := Take(t);
      if data.Chunk? {
        var failed := Forward(data.bytes, t);
        return if failed then Some(Failed) else None;
      }
      assert bytesRead == old(bytesRead);
      if !t.eofOk {
        return Some(Failed);
      }
      eofs := eofs + 1;
      return Some(if t.flush == Ready then Finished else if t.flush == Elapsed then TimedOut else Failed);
    }

    method Exchange(turns: seq<Turn>) returns (status: Status)
      modifies this
      ensures (View(), status) == Exchanged(old(View()), turns)
    {
      var left := turns;
      while left != []
        invariant Exchanged(View(), left) == Exchanged(old(View()), turns)
        decreases left
      {
        var end := TakeTurn(left[0]);
        if end.Some? {
          return end.value;
        }
        left := left[1..];
      }
      return TimedOut;
    }
  }

  // ---------- Conservation ----------

  /** Nothing is lost, repeated or reordered, and the accounts agree. */
  predicate Conserved(p: Pipe) {
    && p.accepted + p.Unsent() == p.bytesRead
    && p.consumed == p.metered == |p.accepted|
    && p.pending != Some([])
  }

  /** The chunk that a turn offers to the sink. */
  function Offered(p: Pipe, t: Turn): (s: seq<byte>) {
    if t.wait != Ready then []
    else if p.pending.Some? then p.pending.value
    else if t.data.Chunk? then t.data.bytes
    else []
  }

  /** The sink or the source fails with octets in hand that are in no place any more. */
  predicate Loses(p: Pipe, t: Turn) {
    Offered(p, t) != [] && (t.write.Fails? || !t.consumeOk)
  }

  lemma Parted(front: seq<byte>, bytes: seq<byte>, all: seq<byte>, n: nat)
    requires front + bytes == all && n <= |bytes|
    ensures (front + bytes[..n]) + bytes[n..] == all && front + bytes[..n] <= all
  {
    assert all[..|front| + n] == front + bytes[..n];
  }

  lemma OfferKeepsExactly(p: Pipe, bytes: seq<byte>, t: Turn)
    requires p.accepted + bytes == p.bytesRead && p.consumed == p.metered == |p.accepted|
    ensures Conserved(Offer(p, bytes, t).0) <==> !(bytes != [] && (t.write.Fails? || !t.consumeOk))
    ensures Offer(p, bytes, t).0.accepted <= p.bytesRead
  {
    var q := Offer(p, bytes, t).0;
    var sent := if t.write.Fails? then 0 else if t.write.n < |bytes| then t.write.n else |bytes|;
    Parted(p.accepted, bytes, p.bytesRead, sent);
    assert |q.accepted| == |p.accepted| + sent && |p.bytesRead| == |p.accepted| + |bytes|;
    if t.write.Fails? || !t.consumeOk {
      assert q.accepted + q.Unsent() == q.accepted;
    } else if sent == |bytes| {
      assert bytes[sent..] == [] && q.accepted + [] == q.accepted;
    }
  }

  /** A turn conserves the octets exactly when nothing fails with octets in hand. */
  lemma StepKeepsExactly(p: Pipe, t: Turn)
    requires Conserved(p)
    ensures Conserved(Step(p, t).0) <==> !Loses(p, t)
    ensures Step(p, t).0.accepted <= Step(p, t).0.bytesRead
    ensures Loses(p, t) ==> Step(p, t).1 == Some(Failed)
  {
    assert p.accepted == p.bytesRead[..|p.accepted|];
    if t.wait == Ready {
      if p.pending.Some? {
        OfferKeepsExactly(p, p.pending.value, t);
      } else if t.data.Chunk? {
        assert p.accepted + [] == p.accepted;
        OfferKeepsExactly(p.(bytesRead := p.bytesRead + t.data.bytes), t.data.bytes, t);
      }
    }
  }

  /** Whatever ends an exchange, the sink has got a leading part; a resumable end loses nothing. */
  lemma {:induction false} ExchangeConserves(p: Pipe, turns: seq<Turn>)
    requires Conserved(p)
    ensures var (q, status) := Exchanged(p, turns);
            && q.accepted <= q.bytesRead && p.bytesRead <= q.bytesRead && p.accepted <= q.accepted
            && (status != Failed ==> Conserved(q))
            && (status == Finished ==> q.accepted == q.bytesRead && q.eofs > p.eofs)
            && (q.eofs > p.eofs ==> q.accepted == q.bytesRead && q.pending.None?)
    decreases turns
  {
    if turns == [] {
      assert p.accepted == p.bytesRead[..|p.accepted|];
    } else {
      StepKeepsExactly(p, turns[0]);
      StepGrows(p, turns[0]);
      var (q, status) := Step(p, turns[0]);
      if status.None? {
        ExchangeConserves(q, turns[1..]);
      }
    }
  }

  /** A turn only adds octets, and closes the sink only with nothing in hand. */
  lemma StepGrows(p: Pipe, t: Turn)
    ensures var (q, status) := Step(p, t);
            && p.bytesRead <= q.bytesRead && p.accepted <= q.accepted
            && (q.eofs > p.eofs <==> t.wait == Ready && p.pending.None? && t.data.Eof? && t.eofOk)
            && (q.eofs > p.eofs ==> status.Some? && q == p.(eofs := p.eofs + 1))
            && (status == Some(Finished) <==> q.eofs > p.eofs && t.flush == Ready)
            && (status == Some(TimedOut) <==> t.wait == Elapsed || (q.eofs > p.eofs && t.flush == Elapsed))
            && (status.None? ==> q.eofs == p.eofs)
  {
  }

  // ---------- Resumed exchanges ----------

  /** Exchanges one after the other, each resumed only after a timeout. */
  function Resumed(p: Pipe, runs: seq<seq<Turn>>): (r: (Pipe, Status))
    decreases runs
  {
    if runs == [] then (p, TimedOut)
    else
      var (q, status) := Exchanged(p, runs[0]);
      if status == TimedOut then Resumed(q, runs[1..]) else (q, status)
  }

  lemma {:induction false} ResumedConserves(p: Pipe, runs: seq<seq<Turn>>)
    requires Conserved(p)
    ensures var (q, status) := Resumed(p, runs);
            && q.accepted <= q.bytesRead
            && (status != Failed ==> Conserved(q))
            && (status == Finished ==> q.accepted == q.bytesRead && q.eofs > 0)
    decreases runs
  {
    if runs == [] {
      assert p.accepted == p.bytesRead[..|p.accepted|];
    } else {
      ExchangeConserves(p, runs[0]);
      var (q, status) := Exchanged(p, runs[0]);
      if status == TimedOut {
        ResumedConserves(q, runs[1..]);
      }
    }
  }

  /** From the start, over any timeouts: accepted, then pending, are the octets read. */
  lemma RelayConserves(runs: seq<seq<Turn>>)
    ensures var (q, status) := Resumed(IDLE, runs);
            && q.accepted <= q.bytesRead
            && (status != Failed ==>
                  q.accepted + q.Unsent() == q.bytesRead && q.consumed == q.metered == |q.accepted|)
            && (status == Finished ==> q.accepted == q.bytesRead && q.eofs > 0)
  {
    ResumedConserves(IDLE, runs);
  }

  // ---------- Progress ----------

  function Lesser(a: nat, b: nat): (n: nat) {
    if a < b then a else b
  }

  /** The sink's answer decides how much of the chunk in hand it has got, and the rest stays in hand. */
  lemma TakesTheFirstOctets(p: Pipe, t: Turn)
    requires t.wait == Ready && t.write.Accepts? && (p.pending.Some? || t.data.Chunk?)
    ensures var (q, status) := Step(p, t);
            var k := Lesser(t.write.n, |Offered(p, t)|);
            && q.accepted == p.accepted + Offered(p, t)[..k]
            && q.metered == p.metered + k
            && (t.consumeOk ==> status.None? && q.Unsent() == Offered(p, t)[k..] && q.consumed == p.consumed + k)
            && (!t.consumeOk ==> status == Some(Failed) && q.consumed == p.consumed)
  {
  }

  predicate Takes(t: Turn) {
    t.wait == Ready && t.write.Accepts? && t.write.n >= 1 && t.consumeOk
  }

  /** Turns in which the sink takes something of all it is offered, the source gives these chunks, and then ends. */
  predicate Obliging(inHand: nat, chunks: seq<seq<byte>>, turns: seq<Turn>)
    decreases turns
  {
    && turns != []
    && var t := turns[0];
       if inHand > 0 then
         Takes(t) && Obliging(inHand - Lesser(t.write.n, inHand), chunks, turns[1..])
       else if chunks != [] then
         && Takes(t) && t.data == Chunk(chunks[0])
         && Obliging(|chunks[0]| - Lesser(t.write.n, |chunks[0]|), chunks[1..], turns[1..])
       else
         t.wait == Ready && t.data.Eof? && t.eofOk && t.flush == Ready
  }

  lemma TakingStep(p: Pipe, t: Turn)
    requires Takes(t) && (p.pending.Some? || t.data.Chunk?)
    ensures var (q, status) := Step(p, t);
            && status.None? && q.eofs == p.eofs && q.pending != Some([])
            && |q.Unsent()| == |Offered(p, t)| - Lesser(t.write.n, |Offered(p, t)|)
            && q.accepted + q.Unsent() == p.accepted + Offered(p, t)
            && q.bytesRead == p.bytesRead + if p.pending.Some? then [] else t.data.bytes
  {
    TakesTheFirstOctets(p, t);
    Parted(p.accepted, Offered(p, t), p.accepted + Offered(p, t), Lesser(t.write.n, |Offered(p, t)|));
    assert p.bytesRead + [] == p.bytesRead;
  }

  /** Such an exchange finishes with every octet delivered, whatever was pending first. */
  lemma {:induction false} ObligingExchangeFinishes(p: Pipe, chunks: seq<seq<byte>>, turns: seq<Turn>)
    requires p.pending != Some([]) && Obliging(|p.Unsent()|, chunks, turns)
    ensures var (q, status) := Exchanged(p, turns);
            && status == Finished && q.pending.None? && q.eofs == p.eofs + 1
            && q.bytesRead == p.bytesRead + Flatten(chunks)
            && q.accepted == (p.accepted + p.Unsent()) + Flatten(chunks)
    decreases turns
  {
    if p.pending.Some? {
      TakingStep(p, turns[0]);
      ObligingExchangeFinishes(Step(p, turns[0]).0, chunks, turns[1..]);
    } else if chunks != [] {
      TakingStep(p, turns[0]);
      ObligingExchangeFinishes(Step(p, turns[0]).0, chunks[1..], turns[1..]);
      Regrouped(p.accepted, chunks[0], Flatten(chunks[1..]));
      Regrouped(p.bytesRead, chunks[0], Flatten(chunks[1..]));
    } else {
      assert p.accepted + [] + [] == p.accepted && p.bytesRead + [] == p.bytesRead;
    }
  }

  lemma Regrouped(a: seq<byte>, b: seq<byte>, c: seq<byte>)
    ensures (a + b) + c == (a + []) + (b + c) == a + (b + c)
  {
  }

  /** The octets still to be delivered; an empty chunk takes a turn too. */
  function Work(inHand: nat, chunks: seq<seq<byte>>): (n: nat)
    decreases chunks
  {
    inHand + if chunks == [] then 0 else (if chunks[0] == [] then 1 else |chunks[0]|) + Work(0, chunks[1..])
  }

  /** The turns that these chunks make with a sink that takes so many octets of each write. */
  function Schedule(inHand: nat, chunks: seq<seq<byte>>, takes: seq<nat>): (turns: seq<Turn>)
    requires Work(inHand, chunks) <= |takes| && forall i :: 0 <= i < |takes| ==> takes[i] >= 1
    ensures Obliging(inHand, chunks, turns) && |turns| <= Work(inHand, chunks) + 1
    decreases takes
  {
    if inHand > 0 then
      var t := Turn(Ready, Eof, Accepts(takes[0]), true, true, Ready);
      [t] + Schedule(inHand - Lesser(takes[0], inHand), chunks, takes[1..])
    else if chunks != [] then
      var t := Turn(Ready, Chunk(chunks[0]), Accepts(takes[0]), true, true, Ready);
      [t] + Schedule(|chunks[0]| - Lesser(takes[0], |chunks[0]|), chunks[1..], takes[1..])
    else
      [Turn(Ready, Eof, Accepts(0), true, true, Ready)]
  }

  /** A sink that takes at least one octet of each write is served within as many turns as there are octets. */
  lemma RelayMakesProgress(p: Pipe, chunks: seq<seq<byte>>, takes: seq<nat>)
    requires p.pending != Some([]) && Work(|p.Unsent()|, chunks) <= |takes|
    requires forall i :: 0 <= i < |takes| ==> takes[i] >= 1
    ensures var turns := Schedule(|p.Unsent()|, chunks, takes);
            var (q, status) := Exchanged(p, turns);
            && |turns| <= Work(|p.Unsent()|, chunks) + 1
            && status == Finished && q.accepted == (p.accepted + p.Unsent()) + Flatten(chunks)
  {
    ObligingExchangeFinishes(p, chunks, Schedule(|p.Unsent()|, chunks, takes));
  }

  // ---------- Closing the sink ----------

  /** The turn of an exchange that closes the sink, if it comes to one. */
  function ClosingTurn(p: Pipe, turns: seq<Turn>): (r: Option<Turn>)
    decreases turns
  {
    if turns == [] then None
    else
      var t := turns[0];
      if t.wait == Ready && p.pending.None? && t.data.Eof? && t.eofOk then Some(t)
      else if Step(p, t).1.None? then ClosingTurn(Step(p, t).0, turns[1..])
      else None
  }

  /** An exchange closes the sink at most once, and how it ends then is up to its last flush. */
  lemma {:induction false} ExchangeCloses(p: Pipe, turns: seq<Turn>)
    ensures var (q, status) := Exchanged(p, turns);
            match ClosingTurn(p, turns)
            case None => q.eofs == p.eofs
            case Some(t) =>
              && q.eofs == p.eofs + 1
              && status == if t.flush == Ready then Finished else if t.flush == Elapsed then TimedOut else Failed
    decreases turns
  {
    if turns != [] {
      StepGrows(p, turns[0]);
      if Step(p, turns[0]).1.None? {
        ExchangeCloses(Step(p, turns[0]).0, turns[1..]);
      }
    }
  }

  /** Some exchange of the series closes the sink. */
  predicate ClosesLater(p: Pipe, runs: seq<seq<Turn>>)
    decreases runs
  {
    && runs != []
    && (ClosingTurn(p, runs[0]).Some?
        || (Exchanged(p, runs[0]).1 == TimedOut && ClosesLater(Exchanged(p, runs[0]).0, runs[1..])))
  }

  /** Some exchange is dropped in its last flush, and a later one closes the sink too. */
  predicate DroppedThenClosed(p: Pipe, runs: seq<seq<Turn>>)
    decreases runs
  {
    && runs != []
    && match ClosingTurn(p, runs[0])
       case Some(t) => t.flush == Elapsed && ClosesLater(Exchanged(p, runs[0]).0, runs[1..])
       case None => Exchanged(p, runs[0]).1 == TimedOut && DroppedThenClosed(Exchanged(p, runs[0]).0, runs[1..])
  }

  lemma {:induction false} ResumedCloses(p: Pipe, runs: seq<seq<Turn>>)
    ensures Resumed(p, runs).0.eofs >= p.eofs
    ensures Resumed(p, runs).0.eofs > p.eofs <==> ClosesLater(p, runs)
    decreases runs
  {
    if runs != [] {
      ExchangeCloses(p, runs[0]);
      if Exchanged(p, runs[0]).1 == TimedOut {
        ResumedCloses(Exchanged(p, runs[0]).0, runs[1..]);
      }
    }
  }

  /** The sink is closed at most once exactly when no exchange is dropped in its last flush and closed again. */
  lemma {:induction false} ClosedOnceExactly(p: Pipe, runs: seq<seq<Turn>>)
    ensures Resumed(p, runs).0.eofs <= p.eofs + 1 <==> !DroppedThenClosed(p, runs)
    decreases runs
  {
    if runs != [] {
      ExchangeCloses(p, runs[0]);
      var (q, status) := Exchanged(p, runs[0]);
      if status == TimedOut {
        ResumedCloses(q, runs[1..]);
        ClosedOnceExactly(q, runs[1..]);
      }
    }
  }

  /** So it is on every series without a drop in a last flush. */
  lemma {:induction false} UndroppedClosesOnce(p: Pipe, runs: seq<seq<Turn>>)
    requires forall i, j :: 0 <= i < |runs| && 0 <= j < |runs[i]| ==> runs[i][j].flush != Elapsed
    ensures Resumed(p, runs).0.eofs <= p.eofs + 1
    decreases runs
  {
    if runs != [] {
      ExchangeCloses(p, runs[0]);
      if ClosingTurn(p, runs[0]).Some? {
        ClosingTurnIsATurn(p, runs[0]);
      }
      UndroppedClosesOnce(Exchanged(p, runs[0]).0, runs[1..]);
    }
  }

  lemma {:induction false} ClosingTurnIsATurn(p: Pipe, turns: seq<Turn>)
    requires ClosingTurn(p, turns).Some?
    ensures ClosingTurn(p, turns).value in turns
    decreases turns
  {
    if ClosingTurn(p, turns) != Some(turns[0]) {
      ClosingTurnIsATurn(Step(p, turns[0]).0, turns[1..]);
    }
  }

  /** The failing case: an exchange dropped in its last flush and resumed closes the sink again. */
  lemma DroppedFlushClosesTwice()
    ensures var dropped := Turn(Ready, Eof, Fails, true, true, Elapsed);
            var (q, status) := Resumed(IDLE, [[dropped], [dropped.(flush := Ready)]]);
            status == Finished && q.eofs == 2
  {
    var dropped := Turn(Ready, Eof, Fails, true, true, Elapsed);
    var runs := [[dropped], [dropped.(flush := Ready)]];
    var p := Exchanged(IDLE, runs[0]).0;
    assert Step(IDLE, runs[0][0]) == (IDLE.(eofs := 1), Some(TimedOut));
    assert runs[1..] == [[dropped.(flush := Ready)]];
    assert Step(p, runs[1][0]) == (IDLE.(eofs := 2), Some(Finished));
    assert Resumed(p, runs[1..]) == Exchanged(p, runs[1]);
  }
}
