/** The Python writer of deep links, and that it writes what the Rust one writes. */
module PythonDeepLink {
  import opened Wrappers
  import opened Bytes
  import opened Varint
  import opened DeepLinkTypes
  import DeepLink

  datatype PyError = KeyError(tag: int) | ValueError

  const HTTP2: Text := [0x68, 0x74, 0x74, 0x70, 0x32]
  const HTTP3: Text := [0x68, 0x74, 0x74, 0x70, 0x33]

  /** A parsed configuration file: a key may be absent. The certificate is already in DER. */
  datatype Settings = Settings(
    hostname: Option<Text>, username: Option<Text>, password: Option<Text>, addresses: Option<seq<Text>>,
    clientRandomPrefix: Option<Text>, customSni: Option<Text>, hasIpv6: Option<bool>, skipVerification: Option<bool>,
    antiDpi: Option<bool>, certificate: Option<seq<byte>>, upstreamProtocol: Option<Text>, name: Option<Text>,
    dnsUpstreams: Option<seq<Text>>)

  function PyVarint(value: int): (r: Result<seq<byte>, PyError>) {
    if value < 0 then Err(ValueError)
    else if value <= 0x3F then Ok(ToBE(value, 1))
    else if value <= 0x3FFF then Ok(ToBE(value + 0x4000, 2))
    else if value <= 0x3FFF_FFFF then Ok(ToBE(value + 0x8000_0000, 4))
    else if value <= 0x3FFF_FFFF_FFFF_FFFF then Ok(ToBE(value + 0xC000_0000_0000_0000, 8))
    else Err(ValueError)
  }

  function PyTlv(tag: int, value: seq<byte>): (r: Result<seq<byte>, PyError>) {
    match PyVarint(tag)
    case Err(e) => Err(e)
    case Ok(t) =>
      match PyVarint(|value|)
      case Err(e) => Err(e)
      case Ok(l) => Ok(t + l + value)
  }

  function PyTexts(texts: seq<Text>): (r: Result<seq<byte>, PyError>) {
    if texts == [] then Ok([])
    else
      match PyVarint(|texts[0]|)
      case Err(e) => Err(e)
      case Ok(length) => DeepLink.Behind(length + texts[0], PyTexts(texts[1..]))
  }

  method EncodeStringArray(texts: seq<Text>) returns (r: Result<seq<byte>, PyError>)
    ensures r == PyTexts(texts)
  {
    var buf: seq<byte> := [];
    assert texts[0..] == texts;
    assert PyTexts(texts).Ok? ==> [] + PyTexts(texts).value == PyTexts(texts).value;
    for i := 0 to |texts|
      invariant PyTexts(texts) == DeepLink.Behind(buf, PyTexts(texts[i..]))
    {
      var length := PyVarint(|texts[i]|);
      assert texts[i..][1..] == texts[i + 1..];
      if length.Err? {
        return Err(length.error);
      }
      DeepLink.BehindBehind(buf, length.value + texts[i], PyTexts(texts[i + 1..]));
      buf := buf + (length.value + texts[i]);
    }
    assert buf + [] == buf;
    return Ok(buf);
  }

  // ---------- The payload ----------

  /** What a step of the writer does: it appends an entry, or raises. */
  datatype Piece = Put(tag: int, value: seq<byte>) | PutTexts(texts: seq<Text>) | Raise(e: PyError)

  function PieceOctets(p: Piece): (r: Result<seq<byte>, PyError>) {
    match p
    case Put(tag, value) => PyTlv(tag, value)
    case PutTexts(texts) => (match PyTexts(texts) case Err(e) => Err(e) case Ok(value) => PyTlv(0x0D, value))
    case Raise(e) => Err(e)
  }

  function AllOctets(ps: seq<Piece>): (r: Result<seq<byte>, PyError>) {
    if ps == [] then Ok([])
    else
      match AllOctets(ps[..|ps| - 1])
      case Err(e) => Err(e)
      case Ok(front) =>
        match PieceOctets(ps[|ps| - 1])
        case Err(e) => Err(e)
        case Ok(back) => Ok(front + back)
  }

  function RequiredPiece(tag: int, text: Option<Text>): (p: Piece) {
    if text.Some? then Put(tag, text.value) else Raise(KeyError(tag))
  }

  function AddressPieces(addresses: seq<Text>): (ps: seq<Piece>) {
    if addresses == [] then [] else AddressPieces(addresses[..|addresses| - 1]) + [Put(0x02, addresses[|addresses| - 1])]
  }

  function RequiredPieces(s: Settings): (ps: seq<Piece>) {
    [Put(0x00, [1]), RequiredPiece(0x01, s.hostname), RequiredPiece(0x05, s.username), RequiredPiece(0x06, s.password)]
    + if s.addresses.None? || s.addresses.value == [] then [Raise(KeyError(0x02))] else AddressPieces(s.addresses.value)
  }

  /** A text that is written when it is there and, unless `empty` says otherwise, not empty. */
  function TextPiece(tag: int, text: Option<Text>, empty: bool): (ps: seq<Piece>) {
    if text.Some? && (empty || text.value != []) then [Put(tag, text.value)] else []
  }

  function FlagPiece(tag: int, flag: Option<bool>, default: bool): (ps: seq<Piece>) {
    if flag.Some? && flag.value != default then [Put(tag, if flag.value then [1] else [0])] else []
  }

  function OptionalPieces(s: Settings): (ps: seq<Piece>) {
    TextPiece(0x0B, s.clientRandomPrefix, false) + TextPiece(0x03, s.customSni, true)
  }

  function FlagPieces(s: Settings): (ps: seq<Piece>) {
    FlagPiece(0x04, s.hasIpv6, true) + FlagPiece(0x07, s.skipVerification, false) + FlagPiece(0x0A, s.antiDpi, false)
  }

  function ProtocolPieces(protocol: Option<Text>): (ps: seq<Piece>) {
    if protocol.None? || protocol.value == [] || protocol.value == HTTP2 then []
    else if protocol.value == HTTP3 then [Put(0x09, [2])]
    else [Raise(ValueError)]
  }

  function TrailingPieces(s: Settings): (ps: seq<Piece>) {
    TextPiece(0x08, s.certificate, true) + ProtocolPieces(s.upstreamProtocol) + TextPiece(0x0C, s.name, false)
  }

  function DnsPieces(s: Settings): (ps: seq<Piece>) {
    if s.dnsUpstreams.None? || s.dnsUpstreams.value == [] then [] else [PutTexts(s.dnsUpstreams.value)]
  }

  function Pieces(s: Settings): (ps: seq<Piece>) {
    RequiredPieces(s) + OptionalPieces(s) + FlagPieces(s) + TrailingPieces(s) + DnsPieces(s)
  }

  /** The payload that the writer returns, or what it raises first. */
  function PyEncoded(s: Settings): (r: Result<seq<byte>, PyError>) {
    AllOctets(Pieces(s))
  }

  /** The growing byte array. */
  class Writer {
    var buf: seq<byte>
    var raised: Option<PyError>
    ghost var written: seq<Piece>

    ghost predicate Valid()
      reads this
    {
      AllOctets(written) == if raised.None? then Ok(buf) else Err(raised.value)
    }

    constructor ()
      ensures Valid() && written == []
    {
      buf, raised, written := [], None, [];
    }

    /** One step; after an exception nothing is appended. */
    method Step(p: Piece)
      requires Valid()
      modifies this
      ensures Valid() && written == old(written) + [p]
    {
      assert (written + [p])[..|written|] == written;
      if raised.None? {
        var octets := Octets(p);
        if octets.Ok? {
          buf := buf + octets.value;
        } else {
          raised := Some(octets.error);
        }
      }
      written := written + [p];
    }

    method Octets(p: Piece) returns (r: Result<seq<byte>, PyError>)
      ensures r == PieceOctets(p)
    {
      match p
      case Put(tag, value) => return PyTlv(tag, value);
      case Raise(e) => return Err(e);
      case PutTexts(texts) =>
        var value := EncodeStringArray(texts);
        return if value.Ok? then PyTlv(0x0D, value.value) else value;
    }

    method Steps(ps: seq<Piece>)
      requires Valid()
      modifies this
      ensures Valid() && written == old(written) + ps
    {
      for i := 0 to |ps|
        invariant Valid() && written == old(written) + ps[..i]
      {
        assert ps[..i + 1] == ps[..i] + [ps[i]];
        Step(ps[i]);
      }
      assert ps[..|ps|] == ps;
    }

    method Required(s: Settings)
      requires Valid() && written == []
      modifies this
      ensures Valid() && written == RequiredPieces(s)
    {
      Step(Put(0x00, [1]));
      Step(RequiredPiece(0x01, s.hostname));
      Step(RequiredPiece(0x05, s.username));
      Step(RequiredPiece(0x06, s.password));
      if s.addresses.None? || s.addresses.value == [] {
        Step(Raise(KeyError(0x02)));
      } else {
        var addresses := s.addresses.value;
        ghost var head := written;
        for i := 0 to |addresses|
          invariant Valid() && written == head + AddressPieces(addresses[..i])
        {
          assert addresses[..i + 1][..i] == addresses[..i];
          Step(Put(0x02, addresses[i]));
        }
        assert addresses[..|addresses|] == addresses;
      }
    }
  }

  method EncodeConfig(s: Settings) returns (r: Result<seq<byte>, PyError>)
    ensures r == PyEncoded(s)
  {
    var w := new Writer();
    w.Required(s);
    w.Steps(OptionalPieces(s));
    w.Steps(FlagPieces(s));
    w.Steps(TrailingPieces(s));
    w.Steps(DnsPieces(s));
    return if w.raised.Some? then Err(w.raised.value) else Ok(w.buf);
  }

  // ---------- The two writers ----------

  /** Both succeed with the same octets, or both fail. */
  predicate Same<E, F>(a: Result<seq<byte>, E>, b: Result<seq<byte>, F>) {
    if a.Ok? then b.Ok? && a.value == b.value else b.Err?
  }

  lemma SameVarint(value: nat)
    ensures Same(PyVarint(value), EncodeVarint(value))
  {
  }

  lemma SameTlv(e: DeepLink.Entry)
    ensures Same(PyTlv(Code(e.tag), e.value), DeepLink.EncodeTlv(e))
  {
    SameVarint(Code(e.tag));
    SameVarint(|e.value|);
  }

  lemma {:induction false} SameTexts(texts: seq<Text>)
    ensures Same(PyTexts(texts), DeepLink.EncodeTexts(texts))
  {
    if texts != [] {
      SameVarint(|texts[0]|);
      SameTexts(texts[1..]);
    }
  }

  function AsPiece(e: DeepLink.Entry): (p: Piece) {
    Put(Code(e.tag), e.value)
  }

  function AsPieces(es: seq<DeepLink.Entry>): (ps: seq<Piece>)
    ensures |ps| == |es| && forall i :: 0 <= i < |es| ==> ps[i] == AsPiece(es[i])
  {
    seq(|es|, i requires 0 <= i < |es| => AsPiece(es[i]))
  }

  lemma PiecesAppend(a: seq<DeepLink.Entry>, b: seq<DeepLink.Entry>)
    ensures AsPieces(a + b) == AsPieces(a) + AsPieces(b)
  {
  }

  lemma {:induction false} SamePieces(es: seq<DeepLink.Entry>)
    ensures Same(AllOctets(AsPieces(es)), DeepLink.EncodeAll(es))
    decreases |es|
  {
    if es != [] {
      var ps := AsPieces(es);
      SamePieces(es[..|es| - 1]);
      assert ps[..|ps| - 1] == AsPieces(es[..|es| - 1]);
      SameTlv(es[|es| - 1]);
    }
  }

  /** The settings say the same as the configuration; keys at their defaults may be absent. */
  predicate Expresses(s: Settings, c: Config) {
    && s.hostname == Some(c.hostname) && s.username == Some(c.username) && s.password == Some(c.password)
    && s.addresses == Some(c.addresses) && s.clientRandomPrefix == c.clientRandomPrefix
    && s.customSni == c.customSni && s.certificate == c.certificate && s.name == c.name
    && (s.hasIpv6 == Some(c.hasIpv6) || (s.hasIpv6.None? && c.hasIpv6))
    && (s.skipVerification == Some(c.skipVerification) || (s.skipVerification.None? && !c.skipVerification))
    && (s.antiDpi == Some(c.antiDpi) || (s.antiDpi.None? && !c.antiDpi))
    && (s.upstreamProtocol == Some(if c.upstreamProtocol == Http2 then HTTP2 else HTTP3)
        || (s.upstreamProtocol.None? && c.upstreamProtocol == Http2))
    && (s.dnsUpstreams == Some(c.dnsUpstreams) || (s.dnsUpstreams.None? && c.dnsUpstreams == []))
  }

  lemma {:induction false} AddressesMatch(addresses: seq<Text>)
    ensures AddressPieces(addresses) == AsPieces(DeepLink.AddressEntries(addresses))
    decreases |addresses|
  {
    if addresses != [] {
      AddressesMatch(addresses[..|addresses| - 1]);
      var es := DeepLink.AddressEntries(addresses);
      assert es[..|es| - 1] == DeepLink.AddressEntries(addresses[..|addresses| - 1]);
    }
  }

  lemma HeadMatches(c: Config, head: seq<DeepLink.Entry>)
    requires head == [DeepLink.Entry(VersionTag, [1]), DeepLink.Entry(HostnameTag, c.hostname),
                      DeepLink.Entry(UsernameTag, c.username), DeepLink.Entry(PasswordTag, c.password)]
    ensures AsPieces(head) == [Put(0x00, [1]), Put(0x01, c.hostname), Put(0x05, c.username), Put(0x06, c.password)]
  {
  }

  lemma RequiredMatches(s: Settings, c: Config)
    requires Expresses(s, c) && c.addresses != []
    ensures RequiredPieces(s) == AsPieces(DeepLink.RequiredEntries(c))
  {
    var head := [DeepLink.Entry(VersionTag, [1]), DeepLink.Entry(HostnameTag, c.hostname),
                 DeepLink.Entry(UsernameTag, c.username), DeepLink.Entry(PasswordTag, c.password)];
    HeadMatches(c, head);
    AddressesMatch(c.addresses);
    PiecesAppend(head, DeepLink.AddressEntries(c.addresses));
  }

  lemma TextMatches(tag: Tag, text: Option<Text>)
    ensures TextPiece(Code(tag), text, true) == AsPieces(DeepLink.TextEntry(tag, text))
    ensures text != Some([]) ==> TextPiece(Code(tag), text, false) == AsPieces(DeepLink.TextEntry(tag, text))
  {
  }

  lemma OptionalMatches(s: Settings, c: Config)
    requires Expresses(s, c)
    ensures OptionalPieces(s) == AsPieces(DeepLink.OptionalEntries(c))
  {
    var prefix := if c.clientRandomPrefix == Some([]) then [] else DeepLink.TextEntry(ClientRandomPrefixTag, c.clientRandomPrefix);
    TextMatches(ClientRandomPrefixTag, c.clientRandomPrefix);
    TextMatches(CustomSniTag, c.customSni);
    PiecesAppend(prefix, DeepLink.TextEntry(CustomSniTag, c.customSni));
  }

  lemma FlagMatches(tag: Tag, flag: Option<bool>, value: bool, default: bool)
    requires flag == Some(value) || (flag.None? && value == default)
    ensures FlagPiece(Code(tag), flag, default) == AsPieces(DeepLink.FlagIf(tag, value, default))
  {
  }

  lemma FlagsMatch(s: Settings, c: Config)
    requires Expresses(s, c)
    ensures FlagPieces(s) == AsPieces(DeepLink.FlagEntries(c))
  {
    var ipv6, skip := DeepLink.FlagIf(HasIpv6Tag, c.hasIpv6, true), DeepLink.FlagIf(SkipVerificationTag, c.skipVerification, false);
    var dpi := DeepLink.FlagIf(AntiDpiTag, c.antiDpi, false);
    FlagMatches(HasIpv6Tag, s.hasIpv6, c.hasIpv6, true);
    FlagMatches(SkipVerificationTag, s.skipVerification, c.skipVerification, false);
    FlagMatches(AntiDpiTag, s.antiDpi, c.antiDpi, false);
    PiecesOfThree(ipv6, skip, dpi);
  }

  lemma PiecesOfThree(a: seq<DeepLink.Entry>, b: seq<DeepLink.Entry>, c: seq<DeepLink.Entry>)
    ensures AsPieces(a + b + c) == AsPieces(a) + AsPieces(b) + AsPieces(c)
  {
    PiecesAppend(a, b);
    PiecesAppend(a + b, c);
  }

  /** The trailing fields up to the name. */
  function BeforeName(c: Config): (es: seq<DeepLink.Entry>) {
    DeepLink.TextEntry(CertificateTag, c.certificate)
    + if c.upstreamProtocol == Http2 then [] else [DeepLink.ProtocolEntry(c.upstreamProtocol)]
  }

  lemma BeforeNameMatches(s: Settings, c: Config)
    requires Expresses(s, c)
    ensures TextPiece(0x08, s.certificate, true) + ProtocolPieces(s.upstreamProtocol) == AsPieces(BeforeName(c))
  {
    var protocol := if c.upstreamProtocol == Http2 then [] else [DeepLink.ProtocolEntry(c.upstreamProtocol)];
    TextMatches(CertificateTag, c.certificate);
    assert HTTP2[4] != HTTP3[4];
    PiecesAppend(DeepLink.TextEntry(CertificateTag, c.certificate), protocol);
  }

  /** What both writers write before the name and the DNS servers. */
  function Common(c: Config): (es: seq<DeepLink.Entry>) {
    DeepLink.RequiredEntries(c) + DeepLink.OptionalEntries(c) + DeepLink.FlagEntries(c) + BeforeName(c)
  }

  lemma PiecesOfFour(a: seq<DeepLink.Entry>, b: seq<DeepLink.Entry>, c: seq<DeepLink.Entry>, d: seq<DeepLink.Entry>)
    ensures AsPieces(a + b + c + d) == AsPieces(a) + AsPieces(b) + AsPieces(c) + AsPieces(d)
  {
    PiecesOfThree(a, b, c);
    PiecesAppend(a + b + c, d);
  }

  lemma Regrouped<T>(a: seq<T>, b: seq<T>, c: seq<T>, x: seq<T>, y: seq<T>)
    ensures a + b + c + (x + y) == (a + b + c + x) + y
  {
  }

  lemma CommonPieces(s: Settings, c: Config)
    requires Expresses(s, c) && c.addresses != []
    ensures RequiredPieces(s) + OptionalPieces(s) + FlagPieces(s) + (TextPiece(0x08, s.certificate, true) + ProtocolPieces(s.upstreamProtocol))
         == AsPieces(Common(c))
  {
    RequiredMatches(s, c);
    OptionalMatches(s, c);
    FlagsMatch(s, c);
    BeforeNameMatches(s, c);
    PiecesOfFour(DeepLink.RequiredEntries(c), DeepLink.OptionalEntries(c), DeepLink.FlagEntries(c), BeforeName(c));
  }

  lemma CommonMatches(s: Settings, c: Config)
    requires Expresses(s, c) && c.addresses != []
    ensures Pieces(s) == AsPieces(Common(c)) + TextPiece(0x0C, s.name, false) + DnsPieces(s)
    ensures DeepLink.PlainEntries(c) == Common(c) + DeepLink.TextEntry(NameTag, c.name)
  {
    CommonPieces(s, c);
    Regrouped(RequiredPieces(s), OptionalPieces(s), FlagPieces(s),
              TextPiece(0x08, s.certificate, true) + ProtocolPieces(s.upstreamProtocol), TextPiece(0x0C, s.name, false));
    Regrouped(DeepLink.RequiredEntries(c), DeepLink.OptionalEntries(c), DeepLink.FlagEntries(c),
              BeforeName(c), DeepLink.TextEntry(NameTag, c.name));
  }

  // ---------- The same payload ----------

  lemma {:induction false} LastOctets(ps: seq<Piece>, p: Piece)
    ensures AllOctets(ps + [p]) == match AllOctets(ps) case Err(e) => Err(e) case Ok(front) => DeepLink.Behind(front, PieceOctets(p))
  {
    assert (ps + [p])[..|ps|] == ps;
  }

  lemma {:induction false} LastEntry(es: seq<DeepLink.Entry>, e: DeepLink.Entry)
    ensures DeepLink.EncodeAll(es + [e])
         == match DeepLink.EncodeAll(es) case Err(x) => Err(x) case Ok(front) => DeepLink.Behind(front, DeepLink.EncodeTlv(e))
  {
    assert (es + [e])[..|es|] == es;
  }

  lemma NextEntryMatches(e: DeepLink.Entry, es: seq<DeepLink.Entry>, ps: seq<Piece>)
    requires Same(AllOctets(ps), DeepLink.EncodeAll(es))
    ensures Same(AllOctets(ps + [AsPiece(e)]), DeepLink.EncodeAll(es + [e]))
  {
    LastEntry(es, e);
    LastOctets(ps, AsPiece(e));
    SameTlv(e);
  }

  lemma EmptyNameIsLonger(e: DeepLink.Entry, es: seq<DeepLink.Entry>)
    requires e.value == []
    ensures DeepLink.EncodeAll(es + [e]).Ok? <==> DeepLink.EncodeAll(es).Ok?
    ensures DeepLink.EncodeAll(es).Ok? ==> |DeepLink.EncodeAll(es).value| < |DeepLink.EncodeAll(es + [e]).value|
  {
    LastEntry(es, e);
    EmptyEntry(e);
  }

  /** The part before the DNS servers: the same, but for an empty name. */
  lemma NamesMatch(name: Option<Text>, es: seq<DeepLink.Entry>, ps: seq<Piece>,
                                      named: seq<DeepLink.Entry>, pieces: seq<Piece>)
    requires Same(AllOctets(ps), DeepLink.EncodeAll(es))
    requires named == es + DeepLink.TextEntry(NameTag, name) && pieces == ps + TextPiece(0x0C, name, false)
    ensures name != Some([]) ==> Same(AllOctets(pieces), DeepLink.EncodeAll(named))
    ensures AllOctets(pieces).Ok? <==> DeepLink.EncodeAll(named).Ok?
    ensures name == Some([]) && AllOctets(pieces).Ok? ==> |AllOctets(pieces).value| < |DeepLink.EncodeAll(named).value|
  {
    if name.None? {
      assert pieces == ps && named == es;
    } else if name.value == [] {
      assert pieces == ps;
      EmptyNameIsLonger(DeepLink.Entry(NameTag, name.value), es);
    } else {
      NextEntryMatches(DeepLink.Entry(NameTag, name.value), es, ps);
    }
  }

  lemma EmptyEntry(e: DeepLink.Entry)
    requires e.value == []
    ensures DeepLink.EncodeTlv(e).Ok? && |DeepLink.EncodeTlv(e).value| > 0
  {
  }

  /** The DNS servers, written behind the rest. */
  lemma {:induction false} DnsMatches(texts: seq<Text>)
    ensures Same(PieceOctets(PutTexts(texts)),
                 match DeepLink.EncodeTexts(texts)
                 case Err(e) => Err(e)
                 case Ok(value) => DeepLink.EncodeTlv(DeepLink.Entry(DnsUpstreamsTag, value)))
  {
    SameTexts(texts);
    if DeepLink.EncodeTexts(texts).Ok? {
      SameTlv(DeepLink.Entry(DnsUpstreamsTag, DeepLink.EncodeTexts(texts).value));
    }
  }

  /**
    * For every valid configuration that settings express, both writers succeed or neither does, and
    * they write the same octets exactly when the name is not an empty text.
    */
  lemma SamePayloadExactly(s: Settings, c: Config)
    requires Expresses(s, c) && c.Missing().None?
    ensures PyEncoded(s).Ok? <==> DeepLink.Encoded(c).Ok?
    ensures PyEncoded(s).Ok? ==> (PyEncoded(s).value == DeepLink.Encoded(c).value <==> c.name != Some([]))
  {
    CommonMatches(s, c);
    var es, ps := Common(c), AsPieces(Common(c));
    SamePieces(es);
    var named := ps + TextPiece(0x0C, s.name, false);
    NamesMatch(c.name, es, ps, DeepLink.PlainEntries(c), named);
    if c.dnsUpstreams == [] {
      assert named + DnsPieces(s) == named;
    } else {
      LastOctets(named, PutTexts(c.dnsUpstreams));
      DnsMatches(c.dnsUpstreams);
    }
  }
}
