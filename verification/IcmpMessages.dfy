/**
  * ICMP and ICMPv6 messages: the echo request that is sent, the messages that come back, and how an
  * answer is matched to the request it answers.
  */
module IcmpMessages {
  import opened Wrappers
  import opened Bytes
  import opened Checksum

  const ICMP := 1
  const ICMPV6 := 58
  const HOP_BY_HOP := 0
  const ROUTING := 43
  const FRAGMENT := 44
  const DESTINATION_OPTIONS := 60

  datatype Echo = Echo(code: byte, identifier: nat, sequenceNumber: nat, data: seq<byte>) {
    predicate WellFormed() {
      identifier < 0x1_0000 && sequenceNumber < 0x1_0000
    }
  }

  /** Equality as the map of waiters sees it: data are compared over their common length. */
  predicate EchoEq(a: Echo, b: Echo) {
    && a.identifier == b.identifier && a.sequenceNumber == b.sequenceNumber
    && (if |a.data| >= |b.data| then b.data <= a.data else a.data <= b.data)
  }

  /** The fields that are hashed. */
  function HashKey(e: Echo): (k: (nat, nat)) {
    (e.identifier, e.sequenceNumber)
  }

  // ---------- The echo request ----------

  function EchoFields(e: Echo): (s: seq<byte>)
    ensures |s| == 4 + |e.data|
  {
    ToBE(e.identifier, 2) + ToBE(e.sequenceNumber, 2) + e.data
  }

  function Serialized(e: Echo, typeId: byte): (s: seq<byte>) {
    Filled([typeId, 0, 0, 0] + EchoFields(e))
  }

  method SerializeEcho(e: Echo, typeId: byte) returns (packet: seq<byte>)
    requires |e.data| <= 0xFFFF
    ensures packet == Serialized(e, typeId)
  {
    packet := [typeId, 0] + ToBE(0, 2) + ToBE(e.identifier, 2) + ToBE(e.sequenceNumber, 2) + e.data;
    assert ToBE(0, 2) == [0, 0] by {
      assert ToBE(0, 1) == ToBE(0, 0) + [0];
    }
    assert packet == [typeId, 0, 0, 0] + EchoFields(e);
    var checksum := Rfc1071Checksum(packet);
    packet := packet[..2] + ToBE(checksum, 2) + packet[4..];
  }

  lemma SerializedLayout(e: Echo, typeId: byte)
    ensures var s := Serialized(e, typeId);
            |s| == 8 + |e.data| && s[0] == typeId && s[1] == 0 && s[4..] == EchoFields(e)
  {
    var p := [typeId, 0, 0, 0] + EchoFields(e);
    assert p[4..] == EchoFields(e);
  }

  /** The request verifies at its receiver exactly when its sum needs one fold. */
  lemma SentEchoVerifiesExactly(e: Echo, typeId: byte)
    requires |e.data| <= 0xFFFF
    ensures Folded(WordSum(Serialized(e, typeId))) == 0xFFFF <==> FitsOneFold(WordSum([typeId, 0, 0, 0] + EchoFields(e)))
  {
    FilledPacketVerifiesExactly([typeId, 0, 0, 0] + EchoFields(e));
  }

  function ParseEcho(code: byte, rest: seq<byte>): (e: Echo)
    requires |rest| >= 4
  {
    Echo(code, FromBE(rest[..2]), FromBE(rest[2..4]), rest[4..])
  }

  lemma ParseEchoFields(e: Echo, code: byte, rest: seq<byte>)
    requires e.WellFormed() && |rest| >= 4 && rest <= EchoFields(e)
    ensures ParseEcho(code, rest) == Echo(code, e.identifier, e.sequenceNumber, rest[4..])
    ensures EchoEq(ParseEcho(code, rest), e) && HashKey(ParseEcho(code, rest)) == HashKey(e)
  {
    var f := EchoFields(e);
    assert rest[..2] == f[..2] == ToBE(e.identifier, 2);
    assert rest[2..4] == f[2..4] == ToBE(e.sequenceNumber, 2);
    assert f[4..] == e.data && rest[4..] == f[4..|rest|] == e.data[..|rest| - 4];
    Pow256Values();
    FromToBE(e.identifier, 2);
    FromToBE(e.sequenceNumber, 2);
  }

  /** A serialised request reads back as itself, with code 0. */
  lemma SentEchoRoundTrip(e: Echo)
    requires e.WellFormed()
    ensures Deserialize4(Serialized(e, 8)) == Ok(EchoRequest(e.(code := 0)))
    ensures Deserialize6(Serialized(e, 128)) == Ok(EchoRequest6(e.(code := 0)))
  {
    SerializedLayout(e, 8);
    SerializedLayout(e, 128);
    ParseEchoFields(e, 0, EchoFields(e));
    assert EchoFields(e)[4..] == e.data;
  }

  // ---------- IP headers of quoted packets ----------

  /** The protocol and the payload of an IPv4 packet. */
  function SkipIpv4Header(p: seq<byte>): (r: Option<(byte, seq<byte>)>) {
    if |p| < 20 then None
    else
      var headerLength := p[0] % 16 * 4;
      if headerLength < 20 || headerLength > |p| then None else Some((p[9], p[headerLength..]))
  }

  predicate IsOptions(protocol: byte) {
    protocol == HOP_BY_HOP || protocol == ROUTING || protocol == DESTINATION_OPTIONS
  }

  /** `Crash`: the skipped length runs past the end of the packet. */
  datatype Skipped = Malformed | Crash | Payload(protocol: byte, rest: seq<byte>)

  /** The extension headers of an IPv6 packet, their length field taken for octets. */
  function SkipExtensions(protocol: byte, p: seq<byte>): (r: Skipped)
    decreases |p|
  {
    if IsOptions(protocol) then
      if |p| < 2 then Malformed
      else if 2 + p[1] > |p| then Crash
      else SkipExtensions(p[0], p[2 + p[1]..])
    else if protocol == FRAGMENT then
      if |p| < 8 then Malformed else SkipExtensions(p[0], p[8..])
    else Payload(protocol, p)
  }

  method SkipIpv6Header(packet: seq<byte>) returns (r: Skipped)
    ensures |packet| < 40 ==> r == Malformed
    ensures |packet| >= 40 ==> r == SkipExtensions(packet[6], packet[40..])
  {
    if |packet| < 40 {
      return Malformed;
    }
    var p: seq<byte>, nextProtocol: byte := packet[40..], packet[6];
    while IsOptions(nextProtocol) || nextProtocol == FRAGMENT
      invariant SkipExtensions(packet[6], packet[40..]) == SkipExtensions(nextProtocol, p)
      decreases |p|
    {
      if IsOptions(nextProtocol) {
        if |p| < 2 {
          return Malformed;
        }
        if 2 + p[1] > |p| {
          return Crash;
        }
        nextProtocol, p := p[0], p[2 + p[1]..];
      } else {
        if |p| < 8 {
          return Malformed;
        }
        nextProtocol, p := p[0], p[8..];
      }
    }
    return Payload(nextProtocol, p);
  }

  /** The length of an options header in section 4 of RFC 8200: 8-octet units beyond the first. */
  function StandardLength(units: nat): (n: nat) {
    8 * (units + 1)
  }

  function StandardExtensions(protocol: byte, p: seq<byte>): (r: Skipped)
    decreases |p|
  {
    if IsOptions(protocol) then
      if |p| < 2 || StandardLength(p[1]) > |p| then Malformed
      else StandardExtensions(p[0], p[StandardLength(p[1])..])
    else if protocol == FRAGMENT then
      if |p| < 8 then Malformed else StandardExtensions(p[0], p[8..])
    else Payload(protocol, p)
  }

  predicate FragmentsOnly(protocol: byte, p: seq<byte>)
    decreases |p|
  {
    !IsOptions(protocol) && (protocol == FRAGMENT && |p| >= 8 ==> FragmentsOnly(p[0], p[8..]))
  }

  /** Without an options header both walks agree. */
  lemma {:induction false} FragmentsAgree(protocol: byte, p: seq<byte>)
    requires FragmentsOnly(protocol, p)
    ensures SkipExtensions(protocol, p) == StandardExtensions(protocol, p)
    decreases |p|
  {
    if protocol == FRAGMENT && |p| >= 8 {
      FragmentsAgree(p[0], p[8..]);
    }
  }

  predicate IsExtension(protocol: byte) {
    IsOptions(protocol) || protocol == FRAGMENT
  }

  /** With a single extension header they agree exactly when it is not an options header that can be looked at. */
  lemma SingleExtensionExactly(protocol: byte, p: seq<byte>)
    requires p != [] ==> !IsExtension(p[0])
    ensures SkipExtensions(protocol, p) == StandardExtensions(protocol, p) <==> !IsOptions(protocol) || |p| < 2
  {
    if IsOptions(protocol) && |p| >= 2 {
      if 2 + p[1] <= |p| {
        assert SkipExtensions(protocol, p) == Payload(p[0], p[2 + p[1]..]);
        if StandardLength(p[1]) <= |p| {
          assert |p[2 + p[1]..]| != |p[StandardLength(p[1])..]|;
        }
      }
    } else if protocol == FRAGMENT && p != [] {
      FragmentsAgree(protocol, p);
    }
  }

  // ---------- Lengths past the end ----------

  /** An extension header, complete by the octet count that the walk takes its length for. */
  predicate IsHeader(protocol: byte, h: seq<byte>) {
    if IsOptions(protocol) then |h| >= 2 && |h| - 2 == h[1] as int else protocol == FRAGMENT && |h| == 8
  }

  /** Such headers, each named by the one before it; `last` is the protocol behind them. */
  predicate IsChain(protocol: byte, hs: seq<seq<byte>>, last: byte)
    decreases hs
  {
    if hs == [] then protocol == last else IsHeader(protocol, hs[0]) && IsChain(hs[0][0], hs[1..], last)
  }

  /** An options header whose length field points past the end of the packet. */
  predicate Overruns(protocol: byte, p: seq<byte>) {
    IsOptions(protocol) && |p| >= 2 && 2 + p[1] > |p|
  }

  /** The walk comes to such a header. */
  ghost predicate ReachesOverrun(protocol: byte, p: seq<byte>) {
    exists hs, last, rest :: p == Flatten(hs) + rest && IsChain(protocol, hs, last) && Overruns(last, rest)
  }

  lemma {:induction false} ChainSkipped(protocol: byte, hs: seq<seq<byte>>, last: byte, rest: seq<byte>, p: seq<byte>)
    requires IsChain(protocol, hs, last) && p == Flatten(hs) + rest
    ensures SkipExtensions(protocol, p) == SkipExtensions(last, rest)
    decreases hs
  {
    if hs == [] {
      assert p == rest;
    } else {
      var h := hs[0];
      assert p[|h|..] == Flatten(hs[1..]) + rest && p[0] == h[0];
      assert IsOptions(protocol) ==> p[1] == h[1];
      ChainSkipped(h[0], hs[1..], last, rest, p[|h|..]);
    }
  }

  /** The length of the header that the walk skips. */
  function SkippedLength(protocol: byte, p: seq<byte>): (n: nat)
    requires |p| >= 2
  {
    if IsOptions(protocol) then p[1] as int + 2 else 8
  }

  lemma ChainGrows(protocol: byte, p: seq<byte>, more: seq<seq<byte>>, last: byte, rest: seq<byte>)
    requires IsExtension(protocol) && |p| >= 2 && SkippedLength(protocol, p) <= |p|
    requires p[SkippedLength(protocol, p)..] == Flatten(more) + rest && IsChain(p[0], more, last)
    ensures var hs := [p[..SkippedLength(protocol, p)]] + more;
            p == Flatten(hs) + rest && IsChain(protocol, hs, last)
  {
    var h := p[..SkippedLength(protocol, p)];
    var hs := [h] + more;
    assert hs[0] == h && hs[1..] == more;
    assert IsHeader(protocol, h) && h[0] == p[0];
    assert Flatten(hs) == h + Flatten(more);
    assert p == h + (Flatten(more) + rest);
  }

  lemma {:induction false} CrashComesFromOverrun(protocol: byte, p: seq<byte>)
    returns (hs: seq<seq<byte>>, last: byte, rest: seq<byte>)
    requires SkipExtensions(protocol, p) == Crash
    ensures p == Flatten(hs) + rest && IsChain(protocol, hs, last) && Overruns(last, rest)
    decreases |p|
  {
    if Overruns(protocol, p) {
      hs, last, rest := [], protocol, p;
    } else {
      var n := SkippedLength(protocol, p);
      var more;
      more, last, rest := CrashComesFromOverrun(p[0], p[n..]);
      hs := [p[..n]] + more;
      ChainGrows(protocol, p, more, last, rest);
    }
  }

  /** The walk stops the endpoint exactly when it comes to an options header that points past the end. */
  lemma CrashExactly(protocol: byte, p: seq<byte>)
    ensures SkipExtensions(protocol, p) == Crash <==> ReachesOverrun(protocol, p)
  {
    if SkipExtensions(protocol, p) == Crash {
      var hs, last, rest := CrashComesFromOverrun(protocol, p);
    }
    if ReachesOverrun(protocol, p) {
      var hs, last, rest :| p == Flatten(hs) + rest && IsChain(protocol, hs, last) && Overruns(last, rest);
      ChainSkipped(protocol, hs, last, rest, p);
    }
  }

  /** With one extension header: exactly when that one does. Without options headers: never. */
  lemma SingleCrashExactly(protocol: byte, p: seq<byte>)
    requires p != [] ==> !IsExtension(p[0])
    ensures SkipExtensions(protocol, p) == Crash <==> Overruns(protocol, p)
  {
    if protocol == FRAGMENT && p != [] {
      FragmentsNeverCrash(protocol, p);
    }
  }

  lemma {:induction false} FragmentsNeverCrash(protocol: byte, p: seq<byte>)
    requires FragmentsOnly(protocol, p)
    ensures SkipExtensions(protocol, p) != Crash
    decreases |p|
  {
    if protocol == FRAGMENT && |p| >= 8 {
      FragmentsNeverCrash(p[0], p[8..]);
    }
  }

  // ---------- Messages ----------

  datatype DeserializeError =
    | InvalidLength
    | MessageType(typeId: byte)
    | DestinationUnreachableCode(code: byte)
    | TimeExceededCode(code: byte)

  datatype Message4 =
    | DestinationUnreachable(code: byte, data: seq<byte>)
    | TimeExceeded(code: byte, data: seq<byte>)
    | ParameterProblem(code: byte, pointer: nat, data: seq<byte>)
    | SourceQuench(code: byte, data: seq<byte>)
    | Redirect(code: byte, gateway: nat, data: seq<byte>)
    | EchoRequest(echo: Echo)
    | EchoReply(echo: Echo)
    | Timestamp(code: byte, reply: bool, identifier: nat, sequenceNumber: nat, times: seq<nat>)
    | Information(code: byte, reply: bool, identifier: nat, sequenceNumber: nat)

  datatype Message6 =
    | DestinationUnreachable6(code: byte, data: seq<byte>)
    | PacketTooBig6(code: byte, mtu: nat, data: seq<byte>)
    | TimeExceeded6(code: byte, data: seq<byte>)
    | ParameterProblem6(code: byte, pointer: nat, data: seq<byte>)
    | EchoRequest6(echo: Echo)
    | EchoReply6(echo: Echo)

  function Deserialize4(p: seq<byte>): (r: Result<Message4, DeserializeError>) {
    if p == [] then Err(InvalidLength)
    else
      match p[0]
      case 0 => if |p| < 8 then Err(InvalidLength) else Ok(EchoReply(ParseEcho(p[1], p[4..])))
      case 3 =>
        if |p| < 36 then Err(InvalidLength)
        else if p[1] > 5 then Err(DestinationUnreachableCode(p[1]))
        else Ok(DestinationUnreachable(p[1], p[8..]))
      case 4 => if |p| < 36 then Err(InvalidLength) else Ok(SourceQuench(p[1], p[8..]))
      case 5 => if |p| < 36 then Err(InvalidLength) else Ok(Redirect(p[1], FromBE(p[4..8]), p[8..]))
      case 8 => if |p| < 8 then Err(InvalidLength) else Ok(EchoRequest(ParseEcho(p[1], p[4..])))
      case 11 =>
        if |p| < 36 then Err(InvalidLength)
        else if p[1] > 1 then Err(TimeExceededCode(p[1]))
        else Ok(TimeExceeded(p[1], p[8..]))
      case 12 => if |p| < 36 then Err(InvalidLength) else Ok(ParameterProblem(p[1], p[4], p[8..]))
      case 13 => if |p| != 20 then Err(InvalidLength) else Ok(ParseTimestamp(p, false))
      case 14 => if |p| != 20 then Err(InvalidLength) else Ok(ParseTimestamp(p, true))
      case 15 => if |p| != 20 then Err(InvalidLength) else Ok(Information(p[1], false, FromBE(p[4..6]), FromBE(p[6..8])))
      case 16 => if |p| != 20 then Err(InvalidLength) else Ok(Information(p[1], true, FromBE(p[4..6]), FromBE(p[6..8])))
      case other => Err(MessageType(other))
  }

  function ParseTimestamp(p: seq<byte>, reply: bool): (m: Message4)
    requires |p| == 20
  {
    Timestamp(p[1], reply, FromBE(p[4..6]), FromBE(p[6..8]), [FromBE(p[8..12]), FromBE(p[12..16]), FromBE(p[16..20])])
  }

  function Deserialize6(p: seq<byte>): (r: Result<Message6, DeserializeError>) {
    if p == [] then Err(InvalidLength)
    else
      match p[0]
      case 1 =>
        if |p| < 48 then Err(InvalidLength)
        else if p[1] > 6 then Err(DestinationUnreachableCode(p[1]))
        else Ok(DestinationUnreachable6(p[1], p[8..]))
      case 2 => if |p| < 48 then Err(InvalidLength) else Ok(PacketTooBig6(p[1], FromBE(p[4..8]), p[8..]))
      case 3 =>
        if |p| < 48 then Err(InvalidLength)
        else if p[1] > 1 then Err(TimeExceededCode(p[1]))
        else Ok(TimeExceeded6(p[1], p[8..]))
      case 4 => if |p| < 48 then Err(InvalidLength) else Ok(ParameterProblem6(p[1], FromBE(p[4..8]), p[8..]))
      case 128 => if |p| < 8 then Err(InvalidLength) else Ok(EchoRequest6(ParseEcho(p[1], p[4..])))
      case 129 => if |p| < 8 then Err(InvalidLength) else Ok(EchoReply6(ParseEcho(p[1], p[4..])))
      case other => Err(MessageType(other))
  }

  /** The length that a message claims for itself on the wire. */
  function Length4(m: Message4): (n: nat) {
    8 + match m
        case EchoRequest(e) => |e.data|
        case EchoReply(e) => |e.data|
        case Timestamp(_, _, _, _, _) => 12
        case Information(_, _, _, _) => 0
        case _ => |m.data|
  }

  /** It is the length of the packet, except for information requests (15) and replies (16). */
  lemma Length4Exactly(p: seq<byte>)
    requires Deserialize4(p).Ok?
    ensures Length4(Deserialize4(p).value) == |p| <==> p[0] != 15 && p[0] != 16
  {
  }

  /** The echo request inside a quoted packet's payload. */
  function QuotedEcho(protocol: byte, payload: seq<byte>, expected: byte, typeId: byte): (r: Option<Echo>) {
    if protocol != expected || payload == [] || payload[0] != typeId || |payload| < 8 then None
    else Some(ParseEcho(payload[1], payload[4..]))
  }

  /** What a message is found to answer. `Stops`: looking for it stops the endpoint. */
  datatype Answer = NoEcho | Answered(echo: Echo) | Stops

  function AsAnswer(r: Option<Echo>): (a: Answer) {
    if r.Some? then Answered(r.value) else NoEcho
  }

  function Responded4(m: Message4): (r: Answer) {
    match m
    case EchoReply(e) => Answered(e)
    case EchoRequest(_) => NoEcho
    case Timestamp(_, _, _, _, _) => NoEcho
    case Information(_, _, _, _) => NoEcho
    case _ =>
      match SkipIpv4Header(m.data)
      case None => NoEcho
      case Some((protocol, payload)) => AsAnswer(QuotedEcho(protocol, payload, ICMP, 8))
  }

  function Responded6(m: Message6): (r: Answer) {
    match m
    case EchoReply6(e) => Answered(e)
    case EchoRequest6(_) => NoEcho
    case _ =>
      if |m.data| < 40 then NoEcho
      else
        match SkipExtensions(m.data[6], m.data[40..])
        case Payload(protocol, payload) => AsAnswer(QuotedEcho(protocol, payload, ICMPV6, 128))
        case Malformed => NoEcho
        case Crash => Stops
  }

  // ---------- Matching ----------

  predicate Answers(found: Answer, e: Echo) {
    found.Answered? && EchoEq(found.echo, e) && HashKey(found.echo) == HashKey(e)
  }

  /** An echo reply as a peer writes it: any code and checksum, the request's fields. */
  function ReplyPacket(e: Echo, typeId: byte, code: byte, checksum: seq<byte>): (p: seq<byte>)
    requires |checksum| == 2
  {
    [typeId, code] + checksum + EchoFields(e)
  }

  lemma EchoReplyMatches(e: Echo, code: byte, checksum: seq<byte>)
    requires e.WellFormed() && |checksum| == 2
    ensures var r := Deserialize4(ReplyPacket(e, 0, code, checksum)); r.Ok? && Answers(Responded4(r.value), e)
    ensures var r := Deserialize6(ReplyPacket(e, 129, code, checksum)); r.Ok? && Answers(Responded6(r.value), e)
  {
    var p4, p6 := ReplyPacket(e, 0, code, checksum), ReplyPacket(e, 129, code, checksum);
    assert p4[4..] == EchoFields(e) && p6[4..] == EchoFields(e);
    ParseEchoFields(e, code, EchoFields(e));
  }

  /** An error message: its own eight octets, the quoted IP header and a leading part of the request. */
  function ErrorPacket(head: seq<byte>, header: seq<byte>, quoted: seq<byte>): (p: seq<byte>)
    requires |head| == 8
  {
    head + header + quoted
  }

  predicate AcceptedError4(typeId: byte, code: byte) {
    (typeId == 3 && code <= 5) || typeId == 4 || typeId == 5 || (typeId == 11 && code <= 1) || typeId == 12
  }

  predicate AcceptedError6(typeId: byte, code: byte) {
    (typeId == 1 && code <= 6) || typeId == 2 || (typeId == 3 && code <= 1) || typeId == 4
  }

  /** The part of the request that an error must quote to be matched. */
  predicate Quotes(quoted: seq<byte>, e: Echo, typeId: byte) {
    8 <= |quoted| && quoted <= Serialized(e, typeId)
  }

  lemma QuotedEchoMatches(e: Echo, quoted: seq<byte>, protocol: byte, typeId: byte)
    requires e.WellFormed() && Quotes(quoted, e, typeId)
    ensures Answers(AsAnswer(QuotedEcho(protocol, quoted, protocol, typeId)), e)
  {
    SerializedLayout(e, typeId);
    var s := Serialized(e, typeId);
    assert quoted == s[..|quoted|];
    assert quoted[4..] == s[4..][..|quoted| - 4];
    ParseEchoFields(e, quoted[1], quoted[4..]);
  }

  /** Every accepted IPv4 error that quotes the request matches it. */
  lemma Error4Matches(e: Echo, head: seq<byte>, header: seq<byte>, quoted: seq<byte>)
    requires e.WellFormed() && |head| == 8 && AcceptedError4(head[0], head[1]) && Quotes(quoted, e, 8)
    requires |header| >= 20 && |header| == header[0] % 16 * 4 && header[9] == ICMP
    ensures var r := Deserialize4(ErrorPacket(head, header, quoted)); r.Ok? && Answers(Responded4(r.value), e)
  {
    var p := ErrorPacket(head, header, quoted);
    assert p[8..] == header + quoted;
    assert (header + quoted)[|header|..] == quoted;
    QuotedEchoMatches(e, quoted, ICMP, 8);
  }

  /** Every accepted IPv6 error that quotes the request right after the fixed header matches it. */
  lemma Error6Matches(e: Echo, head: seq<byte>, header: seq<byte>, quoted: seq<byte>)
    requires e.WellFormed() && |head| == 8 && AcceptedError6(head[0], head[1]) && Quotes(quoted, e, 128)
    requires |header| == 40 && header[6] == ICMPV6
    ensures var r := Deserialize6(ErrorPacket(head, header, quoted)); r.Ok? && Answers(Responded6(r.value), e)
  {
    var p := ErrorPacket(head, header, quoted);
    assert p[8..] == header + quoted;
    assert (header + quoted)[40..] == quoted;
    QuotedEchoMatches(e, quoted, ICMPV6, 128);
  }

  /** An error matches no request with another identifier or sequence number. */
  lemma ErrorMatchesOnlyItsRequest(e: Echo, other: Echo, head: seq<byte>, header: seq<byte>, quoted: seq<byte>)
    requires e.WellFormed() && |head| == 8 && AcceptedError4(head[0], head[1]) && Quotes(quoted, e, 8)
    requires |header| >= 20 && |header| == header[0] % 16 * 4 && header[9] == ICMP
    ensures var r := Deserialize4(ErrorPacket(head, header, quoted));
            r.Ok? && (Answers(Responded4(r.value), other) ==> HashKey(other) == HashKey(e))
  {
    Error4Matches(e, head, header, quoted);
  }

  lemma Error6MatchesOnlyItsRequest(e: Echo, other: Echo, head: seq<byte>, header: seq<byte>, quoted: seq<byte>)
    requires e.WellFormed() && |head| == 8 && AcceptedError6(head[0], head[1]) && Quotes(quoted, e, 128)
    requires |header| == 40 && header[6] == ICMPV6
    ensures var r := Deserialize6(ErrorPacket(head, header, quoted));
            r.Ok? && (Answers(Responded6(r.value), other) ==> HashKey(other) == HashKey(e))
  {
    Error6Matches(e, head, header, quoted);
  }

  // ---------- Which packets answer a request ----------

  /** The octets of an echo message that carry the request's fields and agree with its data as far as both go. */
  predicate Carries(s: seq<byte>, typeId: byte, e: Echo) {
    && |s| >= 8 && s[0] == typeId
    && s[4..6] == ToBE(e.identifier, 2) && s[6..8] == ToBE(e.sequenceNumber, 2)
    && forall i :: 0 <= i < |e.data| && 8 + i < |s| ==> s[8 + i] == e.data[i]
  }

  lemma FieldExactly(s: seq<byte>, n: nat)
    requires |s| == 2 && n < 0x1_0000
    ensures FromBE(s) == n <==> s == ToBE(n, 2)
  {
    Pow256Values();
    FromToBE(n, 2);
    if FromBE(s) == n {
      ToFromBE(s);
    }
  }

  lemma CarriesExactly(s: seq<byte>, e: Echo)
    requires e.WellFormed() && |s| >= 8
    ensures EchoEq(ParseEcho(s[1], s[4..]), e) <==> Carries(s, s[0], e)
  {
    var found := ParseEcho(s[1], s[4..]);
    assert s[4..][..2] == s[4..6] && s[4..][2..4] == s[6..8] && s[4..][4..] == s[8..];
    FieldExactly(s[4..6], e.identifier);
    FieldExactly(s[6..8], e.sequenceNumber);
    CommonData(s, e.data);
  }

  lemma CommonData(s: seq<byte>, data: seq<byte>)
    requires |s| >= 8
    ensures (if |s[8..]| >= |data| then data <= s[8..] else s[8..] <= data) <==>
            forall i :: 0 <= i < |data| && 8 + i < |s| ==> s[8 + i] == data[i]
  {
    var tail := s[8..];
    assert forall i :: 0 <= i < |tail| ==> tail[i] == s[8 + i];
    if forall i :: 0 <= i < |data| && 8 + i < |s| ==> s[8 + i] == data[i] {
      var n := if |tail| >= |data| then |data| else |tail|;
      assert tail[..n] == data[..n];
      assert data[..|data|] == data && tail[..|tail|] == tail;
    }
  }

  lemma QuotedEchoExactly(protocol: byte, payload: seq<byte>, expected: byte, typeId: byte, e: Echo)
    requires e.WellFormed()
    ensures Answers(AsAnswer(QuotedEcho(protocol, payload, expected, typeId)), e) <==>
            protocol == expected && Carries(payload, typeId, e)
  {
    if |payload| >= 8 {
      CarriesExactly(payload, e);
    }
  }

  /**
    * A packet answers the request exactly when it is an echo reply with its fields, or an accepted error
    * that quotes an IPv4 packet of protocol 1 with an echo request of these fields.
    */
  lemma Answers4Exactly(p: seq<byte>, e: Echo)
    requires e.WellFormed()
    ensures var r := Deserialize4(p);
            r.Ok? && Answers(Responded4(r.value), e) <==> Carries(p, 0, e) || ErrorCarries4(p, e)
  {
    if |p| >= 8 {
      CarriesExactly(p, e);
    }
    if |p| >= 28 && AcceptedError4(p[0], p[1]) {
      var h := p[8] % 16 * 4;
      assert p[8..][0] == p[8] && p[8..][9] == p[17];
      if 20 <= h && 8 + h <= |p| {
        assert p[8..][h..] == p[8 + h..];
        QuotedEchoExactly(p[17], p[8 + h..], 1, 8, e);
      }
    }
  }

  predicate ErrorCarries4(p: seq<byte>, e: Echo) {
    && |p| >= 28 && AcceptedError4(p[0], p[1])
    && var h := p[8] % 16 * 4;
       20 <= h && 8 + h <= |p| && p[17] == 1 && Carries(p[8 + h..], 8, e)
  }

  lemma {:induction false} PayloadComesFromChain(protocol: byte, p: seq<byte>) returns (hs: seq<seq<byte>>)
    requires SkipExtensions(protocol, p).Payload?
    ensures var (last, rest) := (SkipExtensions(protocol, p).protocol, SkipExtensions(protocol, p).rest);
            p == Flatten(hs) + rest && IsChain(protocol, hs, last)
    decreases |p|
  {
    if IsExtension(protocol) {
      var n := SkippedLength(protocol, p);
      var more := PayloadComesFromChain(p[0], p[n..]);
      hs := [p[..n]] + more;
      ChainGrows(protocol, p, more, SkipExtensions(protocol, p).protocol, SkipExtensions(protocol, p).rest);
    } else {
      hs := [];
    }
  }

  /** An echo request of these fields, behind extension headers of the walk's lengths or behind none. */
  ghost predicate QuoteCarries6(protocol: byte, quoted: seq<byte>, e: Echo) {
    exists hs, rest :: quoted == Flatten(hs) + rest && IsChain(protocol, hs, 58) && Carries(rest, 128, e)
  }

  lemma QuoteCarriesExactly(protocol: byte, quoted: seq<byte>, e: Echo)
    ensures QuoteCarries6(protocol, quoted, e) <==>
            exists rest :: SkipExtensions(protocol, quoted) == Payload(58, rest) && Carries(rest, 128, e)
  {
    if hs, rest :| quoted == Flatten(hs) + rest && IsChain(protocol, hs, 58) && Carries(rest, 128, e) {
      ChainSkipped(protocol, hs, 58, rest, quoted);
      assert SkipExtensions(protocol, quoted) == Payload(58, rest);
    } else if rest :| SkipExtensions(protocol, quoted) == Payload(58, rest) && Carries(rest, 128, e) {
      var hs := PayloadComesFromChain(protocol, quoted);
    }
  }

  /** The same for ICMPv6. */
  lemma Answers6Exactly(p: seq<byte>, e: Echo)
    requires e.WellFormed()
    ensures var r := Deserialize6(p);
            r.Ok? && Answers(Responded6(r.value), e) <==>
            || Carries(p, 129, e)
            || (|p| >= 48 && AcceptedError6(p[0], p[1]) && QuoteCarries6(p[14], p[48..], e))
  {
    if |p| >= 8 {
      CarriesExactly(p, e);
    }
    if |p| >= 48 && AcceptedError6(p[0], p[1]) {
      assert p[8..][6] == p[14] && p[8..][40..] == p[48..];
      QuoteCarriesExactly(p[14], p[48..], e);
      var found := SkipExtensions(p[14], p[48..]);
      if found.Payload? {
        QuotedEchoExactly(found.protocol, found.rest, 58, 128, e);
      }
    }
  }

  /** The messages that are read at all. */
  lemma ReadExactly(p: seq<byte>)
    ensures Deserialize4(p).Ok? <==>
            || (|p| >= 8 && p[0] in {0, 8})
            || (|p| >= 36 && AcceptedError4(p[0], p[1]))
            || (|p| == 20 && p[0] in {13, 14, 15, 16})
    ensures Deserialize6(p).Ok? <==>
            || (|p| >= 8 && p[0] in {128, 129})
            || (|p| >= 48 && AcceptedError6(p[0], p[1]))
  {
  }

  /** An accepted error stops the endpoint exactly when the packet it quotes has such a header. */
  lemma ErrorStopsExactly(head: seq<byte>, header: seq<byte>, quoted: seq<byte>)
    requires |head| == 8 && AcceptedError6(head[0], head[1]) && |header| == 40
    ensures var r := Deserialize6(ErrorPacket(head, header, quoted));
            r.Ok? && (Responded6(r.value) == Stops <==> ReachesOverrun(header[6], quoted))
  {
    var p := ErrorPacket(head, header, quoted);
    assert p[8..] == header + quoted && (header + quoted)[40..] == quoted;
    CrashExactly(header[6], quoted);
  }

  /** The failing case: a hop-by-hop header that claims 255 octets and has none. */
  lemma ShortHeaderStops(head: seq<byte>, header: seq<byte>, quoted: seq<byte>)
    requires |head| == 8 && head[0] == 1 && head[1] == 0
    requires |header| == 40 && header[6] == HOP_BY_HOP && quoted == [ICMPV6, 255]
    ensures var r := Deserialize6(ErrorPacket(head, header, quoted)); r.Ok? && Responded6(r.value) == Stops
  {
    ErrorStopsExactly(head, header, quoted);
    CrashExactly(header[6], quoted);
  }
}
