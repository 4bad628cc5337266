/** Reading a deep link's payload: a sequence of tag-length-value entries in any order. */
module TlvPayload {
  import opened Wrappers
  import opened Bytes
  import opened Hex
  import opened Utf8
  import opened Varint
  import opened DeepLinkTypes

  const SLASH: byte := 0x2F
  const CURRENT_VERSION := 1

  // ---------- Values ----------

  function DecodeBool(value: seq<byte>): (r: Result<bool, DeepLinkError>) {
    if |value| != 1 then Err(InvalidBoolean(if value == [] then 0xFF else value[0]))
    else if value[0] == 0 then Ok(false)
    else if value[0] == 1 then Ok(true)
    else Err(InvalidBoolean(value[0]))
  }

  function DecodeProtocol(value: seq<byte>): (r: Result<Protocol, DeepLinkError>) {
    if |value| != 1 then Err(InvalidProtocol(if value == [] then 0xFF else value[0]))
    else if value[0] == 1 then Ok(Http2)
    else if value[0] == 2 then Ok(Http3)
    else Err(InvalidProtocol(value[0]))
  }

  /** The text at an offset, behind its length, and the offset behind it. */
  function TextAt(data: seq<byte>, offset: nat): (r: Result<(Text, nat), DeepLinkError>)
    ensures r.Ok? ==> offset < r.value.1 <= |data|
  {
    match DecodeVarint(data, offset)
    case Err(e) => Err(VarintFailure(e))
    case Ok((length, start)) =>
      if start + length > |data| then Err(TruncatedListEntry(length, |data| - start))
      else if !IsUtf8(data[start..start + length]) then Err(InvalidUtf8)
      else Ok((data[start..start + length], start + length))
  }

  /** The texts from an offset on, after those read before. */
  function TextsFrom(data: seq<byte>, offset: nat, done: seq<Text>): (r: Result<seq<Text>, DeepLinkError>)
    requires offset <= |data|
    decreases |data| - offset
  {
    if offset == |data| then Ok(done)
    else
      match TextAt(data, offset)
      case Err(e) => Err(e)
      case Ok((text, next)) => TextsFrom(data, next, done + [text])
  }

  method DecodeStringArray(data: seq<byte>) returns (r: Result<seq<Text>, DeepLinkError>)
    ensures r == TextsFrom(data, 0, [])
  {
    var result: seq<Text> := [];
    var offset := 0;
    while offset < |data|
      invariant offset <= |data|
      invariant TextsFrom(data, 0, []) == TextsFrom(data, offset, result)
    {
      var next := TextAt(data, offset);
      if next.Err? {
        return Err(next.error);
      }
      result := result + [next.value.0];
      offset := next.value.1;
    }
    return Ok(result);
  }

  /** Splits at the first slash. */
  function SplitOnce(s: Text): (r: (Text, Text)) {
    if s == [] then ([], [])
    else if s[0] == SLASH then ([], s[1..])
    else
      var (head, tail) := SplitOnce(s[1..]);
      ([s[0]] + head, tail)
  }

  predicate HexOctets(s: Text) {
    |s| % 2 == 0 && AllHex(s)
  }

  /** Hexadecimal octets, optionally with a mask behind a slash. */
  predicate ValidPrefix(s: Text) {
    HexOctets(SplitOnce(s).0) && HexOctets(SplitOnce(s).1)
  }

  // ---------- Fields ----------

  /** What one entry does to the configuration being read. */
  datatype Update =
    | Nothing
    | Hostname(text: Text)
    | Address(text: Text)
    | CustomSni(text: Text)
    | HasIpv6(flag: bool)
    | Username(text: Text)
    | Password(text: Text)
    | SkipVerification(flag: bool)
    | Certificate(der: seq<byte>)
    | UpstreamProtocol(protocol: Protocol)
    | AntiDpi(flag: bool)
    | ClientRandomPrefix(text: Text)
    | Name(text: Text)
    | DnsUpstreams(texts: seq<Text>)

  function Parsed(tag: Tag, value: seq<byte>): (r: Result<Update, DeepLinkError>) {
    match tag
    case VersionTag =>
      (match DecodeVarint(value, 0)
       case Err(e) => Err(VarintFailure(e))
       case Ok((v, _)) => if v > CURRENT_VERSION then Err(UnsupportedVersion(v)) else Ok(Nothing))
    case HasIpv6Tag => (match DecodeBool(value) case Err(e) => Err(e) case Ok(b) => Ok(HasIpv6(b)))
    case SkipVerificationTag => (match DecodeBool(value) case Err(e) => Err(e) case Ok(b) => Ok(SkipVerification(b)))
    case AntiDpiTag => (match DecodeBool(value) case Err(e) => Err(e) case Ok(b) => Ok(AntiDpi(b)))
    case CertificateTag => Ok(Certificate(value))
    case UpstreamProtocolTag =>
      (match DecodeProtocol(value) case Err(e) => Err(e) case Ok(p) => Ok(UpstreamProtocol(p)))
    case DnsUpstreamsTag => (match TextsFrom(value, 0, []) case Err(e) => Err(e) case Ok(texts) => Ok(DnsUpstreams(texts)))
    case _ => if IsUtf8(value) then ParsedText(tag, value) else Err(InvalidUtf8)
  }

  predicate IsTextTag(tag: Tag) {
    tag in {HostnameTag, AddressTag, CustomSniTag, UsernameTag, PasswordTag, NameTag, ClientRandomPrefixTag}
  }

  function ParsedText(tag: Tag, text: Text): (r: Result<Update, DeepLinkError>)
    requires IsTextTag(tag)
  {
    match tag
    case HostnameTag => Ok(Hostname(text))
    case AddressTag => Ok(Address(text))
    case CustomSniTag => Ok(CustomSni(text))
    case UsernameTag => Ok(Username(text))
    case PasswordTag => Ok(Password(text))
    case NameTag => Ok(Name(text))
    case ClientRandomPrefixTag => if ValidPrefix(text) then Ok(ClientRandomPrefix(text)) else Err(InvalidPrefix)
  }

  /** The fields read so far. */
  datatype Partial = Partial(
    hostname: Option<Text>, addresses: seq<Text>, username: Option<Text>, password: Option<Text>,
    clientRandomPrefix: Option<Text>, customSni: Option<Text>, hasIpv6: bool, skipVerification: bool,
    certificate: Option<seq<byte>>, upstreamProtocol: Protocol, antiDpi: bool, name: Option<Text>,
    dnsUpstreams: seq<Text>)

  const DEFAULTS := Partial(None, [], None, None, None, None, true, false, None, Http2, false, None, [])

  function Put(p: Partial, u: Update): (q: Partial) {
    match u
    case Nothing => p
    case Hostname(text) => p.(hostname := Some(text))
    case Address(text) => p.(addresses := p.addresses + [text])
    case CustomSni(text) => p.(customSni := Some(text))
    case HasIpv6(flag) => p.(hasIpv6 := flag)
    case Username(text) => p.(username := Some(text))
    case Password(text) => p.(password := Some(text))
    case SkipVerification(flag) => p.(skipVerification := flag)
    case Certificate(der) => p.(certificate := Some(der))
    case UpstreamProtocol(protocol) => p.(upstreamProtocol := protocol)
    case AntiDpi(flag) => p.(antiDpi := flag)
    case ClientRandomPrefix(text) => p.(clientRandomPrefix := Some(text))
    case Name(text) => p.(name := Some(text))
    case DnsUpstreams(texts) => p.(dnsUpstreams := texts)
  }

  /** The configuration, once every required field is there and not empty. */
  function Built(p: Partial): (r: Result<Config, DeepLinkError>) {
    if p.hostname.None? then Err(MissingRequiredField(HostnameTag))
    else if p.addresses == [] then Err(MissingRequiredField(AddressTag))
    else if p.username.None? then Err(MissingRequiredField(UsernameTag))
    else if p.password.None? then Err(MissingRequiredField(PasswordTag))
    else
      var c := Config(p.hostname.value, p.addresses, p.username.value, p.password.value,
                      p.clientRandomPrefix, p.customSni, p.hasIpv6, p.skipVerification, p.certificate,
                      p.upstreamProtocol, p.antiDpi, p.name, p.dnsUpstreams);
      match c.Missing()
      case Some(tag) => Err(MissingRequiredField(tag))
      case None => Ok(c)
  }

  // ---------- The payload ----------

  datatype Next = End | Bad(error: DeepLinkError) | Field(tag: Option<Tag>, value: seq<byte>, next: nat)

  /** The entry at an offset. A tag is cut to its low octet. */
  function FieldAt(data: seq<byte>, offset: nat): (f: Next)
    ensures f.Field? ==> offset < f.next <= |data|
    ensures f.End? <==> offset >= |data|
  {
    if offset >= |data| then End
    else
      match DecodeVarint(data, offset)
      case Err(e) => Bad(VarintFailure(e))
      case Ok((code, afterTag)) =>
        match DecodeVarint(data, afterTag)
        case Err(e) => Bad(VarintFailure(e))
        case Ok((length, start)) =>
          if start + length > |data| then Bad(TruncatedTlv(code % 256, length, |data| - start))
          else Field(TagOf(code % 256), data[start..start + length], start + length)
  }

  /** The fields that the entries from an offset on set, on top of those read before. */
  function FieldsFrom(data: seq<byte>, offset: nat, p: Partial): (r: Result<Partial, DeepLinkError>)
    decreases |data| - offset
  {
    match FieldAt(data, offset)
    case End => Ok(p)
    case Bad(e) => Err(e)
    case Field(None, _, next) => FieldsFrom(data, next, p)
    case Field(Some(tag), value, next) =>
      match Parsed(tag, value)
      case Err(e) => Err(e)
      case Ok(u) => FieldsFrom(data, next, Put(p, u))
  }

  function Decoded(data: seq<byte>): (r: Result<Config, DeepLinkError>) {
    match FieldsFrom(data, 0, DEFAULTS)
    case Err(e) => Err(e)
    case Ok(p) => Built(p)
  }

  class TlvParser {
    const data: seq<byte>
    var offset: nat

    constructor (bytes: seq<byte>)
      ensures data == bytes && offset == 0
    {
      data, offset := bytes, 0;
    }

    /** The next entry, or nothing at the end. After an error the offset is not used again. */
    method NextField() returns (r: Option<Result<(Option<Tag>, seq<byte>), DeepLinkError>>)
      modifies this
      ensures match FieldAt(data, old(offset))
              case End => r.None?
              case Bad(e) => r == Some(Err(e))
              case Field(tag, value, next) => r == Some(Ok((tag, value))) && offset == next
    {
      if offset >= |data| {
        return None;
      }
      var tag := DecodeVarint(data, offset);
      if tag.Err? {
        return Some(Err(VarintFailure(tag.error)));
      }
      offset := tag.value.1;
      var length := DecodeVarint(data, offset);
      if length.Err? {
        return Some(Err(VarintFailure(length.error)));
      }
      offset := length.value.1;
      if offset + length.value.0 > |data| {
        return Some(Err(TruncatedTlv(tag.value.0 % 256, length.value.0, |data| - offset)));
      }
      var value := data[offset..offset + length.value.0];
      offset := offset + length.value.0;
      return Some(Ok((TagOf(tag.value.0 % 256), value)));
    }
  }

  method DecodeTlvPayload(payload: seq<byte>) returns (r: Result<Config, DeepLinkError>)
    ensures r == Decoded(payload)
  {
    var parser := new TlvParser(payload);
    var fields := DEFAULTS;
    var more := true;
    while more
      invariant parser.data == payload
      invariant more ==> FieldsFrom(payload, 0, DEFAULTS) == FieldsFrom(payload, parser.offset, fields)
      invariant !more ==> FieldsFrom(payload, 0, DEFAULTS) == Ok(fields)
      decreases more, |payload| - parser.offset
    {
      var next := parser.NextField();
      if next.None? {
        more := false;
      } else {
        if next.value.Err? {
          return Err(next.value.error);
        }
        var (tag, value) := next.value.value;
        if tag.Some? {
          var update := Parsed(tag.value, value);
          if update.Err? {
            return Err(update.error);
          }
          fields := Put(fields, update.value);
        }
      }
    }
    return Built(fields);
  }

  // ---------- Entries ----------

  /** An entry, in any form that its tag and length may take. */
  datatype Tlv = Tlv(tagForm: seq<byte>, tag: nat, lengthForm: seq<byte>, value: seq<byte>)

  predicate WellFormed(t: Tlv) {
    IsForm(t.tagForm, t.tag) && IsForm(t.lengthForm, |t.value|)
  }

  predicate AllWellFormed(ts: seq<Tlv>) {
    forall i :: 0 <= i < |ts| ==> WellFormed(ts[i])
  }

  function Octets(t: Tlv): (s: seq<byte>) {
    t.tagForm + t.lengthForm + t.value
  }

  function Payload(ts: seq<Tlv>): (s: seq<byte>) {
    if ts == [] then [] else Octets(ts[0]) + Payload(ts[1..])
  }

  /** What an entry does, whatever was read before it. */
  function Effect(t: Tlv): (r: Result<Update, DeepLinkError>) {
    match TagOf(t.tag % 256)
    case None => Ok(Nothing)
    case Some(tag) => Parsed(tag, t.value)
  }

  function Fold(p: Partial, ts: seq<Tlv>): (r: Result<Partial, DeepLinkError>)
    decreases ts
  {
    if ts == [] then Ok(p)
    else
      match Effect(ts[0])
      case Err(e) => Err(e)
      case Ok(u) => Fold(Put(p, u), ts[1..])
  }

  lemma Regrouped(before: seq<byte>, t: Tlv, after: seq<byte>)
    ensures before + Octets(t) + after == before + t.tagForm + (t.lengthForm + t.value + after)
    ensures before + Octets(t) + after == (before + t.tagForm) + t.lengthForm + (t.value + after)
    ensures before + Octets(t) + after == (before + t.tagForm + t.lengthForm) + (t.value + after)
  {
  }

  lemma FormIn(data: seq<byte>, before: seq<byte>, form: seq<byte>, after: seq<byte>, value: nat)
    requires IsForm(form, value) && data == before + form + after
    ensures DecodeVarint(data, |before|) == Ok((value, |before| + |form|))
  {
    FormAnywhere(before, form, after, value);
  }

  lemma FieldOf(data: seq<byte>, offset: nat, code: nat, afterTag: nat, length: nat, start: nat)
    requires DecodeVarint(data, offset) == Ok((code, afterTag))
    requires DecodeVarint(data, afterTag) == Ok((length, start)) && start + length <= |data|
    ensures FieldAt(data, offset) == Field(TagOf(code % 256), data[start..start + length], start + length)
  {
  }

  lemma EntryRead(before: seq<byte>, t: Tlv, after: seq<byte>)
    requires WellFormed(t)
    ensures FieldAt(before + Octets(t) + after, |before|)
         == Field(TagOf(t.tag % 256), t.value, |before| + |Octets(t)|)
  {
    var data := before + Octets(t) + after;
    var start := |before| + |t.tagForm| + |t.lengthForm|;
    Regrouped(before, t, after);
    FormIn(data, before, t.tagForm, t.lengthForm + t.value + after, t.tag);
    FormIn(data, before + t.tagForm, t.lengthForm, t.value + after, |t.value|);
    Middle(data, before + t.tagForm + t.lengthForm, t.value, after);
    FieldOf(data, |before|, t.tag, |before| + |t.tagForm|, |t.value|, start);
  }

  /** Reading goes on behind an entry that is read. */
  lemma {:induction false} FieldsStep(data: seq<byte>, offset: nat, t: Tlv, next: nat, p: Partial)
    requires FieldAt(data, offset) == Field(TagOf(t.tag % 256), t.value, next)
    ensures FieldsFrom(data, offset, p) == match Effect(t) case Err(e) => Err(e) case Ok(u) => FieldsFrom(data, next, Put(p, u))
  {
  }

  /** Reading a payload is folding the effects of its entries. */
  lemma {:induction false} FieldsAreFold(before: seq<byte>, ts: seq<Tlv>, data: seq<byte>, p: Partial)
    requires AllWellFormed(ts) && data == before + Payload(ts)
    ensures FieldsFrom(data, |before|, p) == Fold(p, ts)
    decreases ts
  {
    if ts != [] {
      var t, rest := ts[0], Payload(ts[1..]);
      assert data == before + Octets(t) + rest;
      EntryRead(before, t, rest);
      var next := before + Octets(t);
      FieldsStep(data, |before|, t, |next|, p);
      if Effect(t).Ok? {
        FieldsAreFold(next, ts[1..], data, Put(p, Effect(t).value));
      }
    }
  }

  lemma {:induction false} FoldAppend(p: Partial, a: seq<Tlv>, b: seq<Tlv>)
    ensures Fold(p, a + b) == match Fold(p, a) case Err(e) => Err(e) case Ok(q) => Fold(q, b)
    decreases a
  {
    if a == [] {
      assert a + b == b;
    } else {
      assert (a + b)[0] == a[0] && (a + b)[1..] == a[1..] + b;
      if Effect(a[0]).Ok? {
        FoldAppend(Put(p, Effect(a[0]).value), a[1..], b);
      }
    }
  }

  /** Both succeed with the same value, or both fail. */
  predicate Agree<T(==), E>(a: Result<T, E>, b: Result<T, E>) {
    if a.Ok? then b.Ok? && a.value == b.value else b.Err?
  }

  /** Updates of different fields commute. */
  lemma UpdatesCommute(p: Partial, s: Tag, x: seq<byte>, t: Tag, y: seq<byte>)
    requires s != t && Parsed(s, x).Ok? && Parsed(t, y).Ok?
    ensures Put(Put(p, Parsed(s, x).value), Parsed(t, y).value) == Put(Put(p, Parsed(t, y).value), Parsed(s, x).value)
  {
    KindOfUpdate(s, x);
    KindOfUpdate(t, y);
    DifferentKinds(p, Parsed(s, x).value, Parsed(t, y).value);
  }

  /** The field that an update sets. */
  function Kind(u: Update): (t: Tag) {
    match u
    case Nothing => VersionTag
    case Hostname(_) => HostnameTag
    case Address(_) => AddressTag
    case CustomSni(_) => CustomSniTag
    case HasIpv6(_) => HasIpv6Tag
    case Username(_) => UsernameTag
    case Password(_) => PasswordTag
    case SkipVerification(_) => SkipVerificationTag
    case Certificate(_) => CertificateTag
    case UpstreamProtocol(_) => UpstreamProtocolTag
    case AntiDpi(_) => AntiDpiTag
    case ClientRandomPrefix(_) => ClientRandomPrefixTag
    case Name(_) => NameTag
    case DnsUpstreams(_) => DnsUpstreamsTag
  }

  lemma KindOfText(t: Tag, value: seq<byte>)
    requires IsTextTag(t) && ParsedText(t, value).Ok?
    ensures Kind(ParsedText(t, value).value) == t
  {
  }

  lemma KindOfUpdate(t: Tag, value: seq<byte>)
    requires Parsed(t, value).Ok?
    ensures Kind(Parsed(t, value).value) == t
  {
    match t
    case VersionTag =>
    case HasIpv6Tag =>
    case SkipVerificationTag =>
    case AntiDpiTag =>
    case CertificateTag =>
    case UpstreamProtocolTag =>
    case DnsUpstreamsTag =>
    case _ => KindOfText(t, value);
  }

  datatype Slot = TextSlot(text: Option<Text>) | TextsSlot(texts: seq<Text>) | FlagSlot(flag: bool)
                | BlobSlot(der: Option<seq<byte>>) | ProtocolSlot(protocol: Protocol) | NoSlot

  /** One field of what is read so far. */
  function Get(p: Partial, t: Tag): (s: Slot) {
    match t
    case VersionTag => NoSlot
    case HostnameTag => TextSlot(p.hostname)
    case AddressTag => TextsSlot(p.addresses)
    case CustomSniTag => TextSlot(p.customSni)
    case HasIpv6Tag => FlagSlot(p.hasIpv6)
    case UsernameTag => TextSlot(p.username)
    case PasswordTag => TextSlot(p.password)
    case SkipVerificationTag => FlagSlot(p.skipVerification)
    case CertificateTag => BlobSlot(p.certificate)
    case UpstreamProtocolTag => ProtocolSlot(p.upstreamProtocol)
    case AntiDpiTag => FlagSlot(p.antiDpi)
    case ClientRandomPrefixTag => TextSlot(p.clientRandomPrefix)
    case NameTag => TextSlot(p.name)
    case DnsUpstreamsTag => TextsSlot(p.dnsUpstreams)
  }

  /** An update leaves the other fields as they are. */
  lemma OthersStay(p: Partial, u: Update, t: Tag)
    requires t != Kind(u)
    ensures Get(Put(p, u), t) == Get(p, t)
  {
  }

  /** What an update makes of its field depends on that field only. */
  lemma OwnField(p: Partial, q: Partial, u: Update)
    requires Get(p, Kind(u)) == Get(q, Kind(u))
    ensures Get(Put(p, u), Kind(u)) == Get(Put(q, u), Kind(u))
  {
  }

  lemma FieldsDecide(p: Partial, q: Partial)
    requires forall t :: Get(p, t) == Get(q, t)
    ensures p == q
  {
    assert Get(p, HostnameTag) == Get(q, HostnameTag) && Get(p, AddressTag) == Get(q, AddressTag);
    assert Get(p, CustomSniTag) == Get(q, CustomSniTag) && Get(p, HasIpv6Tag) == Get(q, HasIpv6Tag);
    assert Get(p, UsernameTag) == Get(q, UsernameTag) && Get(p, PasswordTag) == Get(q, PasswordTag);
    assert Get(p, SkipVerificationTag) == Get(q, SkipVerificationTag) && Get(p, CertificateTag) == Get(q, CertificateTag);
    assert Get(p, UpstreamProtocolTag) == Get(q, UpstreamProtocolTag) && Get(p, AntiDpiTag) == Get(q, AntiDpiTag);
    assert Get(p, ClientRandomPrefixTag) == Get(q, ClientRandomPrefixTag);
    assert Get(p, NameTag) == Get(q, NameTag) && Get(p, DnsUpstreamsTag) == Get(q, DnsUpstreamsTag);
  }

  /** Which values a field takes. */
  lemma ParsedExactly(tag: Tag, value: seq<byte>)
    ensures Parsed(tag, value).Ok? <==>
            match tag
            case VersionTag => DecodeVarint(value, 0).Ok? && DecodeVarint(value, 0).value.0 <= 1
            case HasIpv6Tag => value == [0] || value == [1]
            case SkipVerificationTag => value == [0] || value == [1]
            case AntiDpiTag => value == [0] || value == [1]
            case UpstreamProtocolTag => value == [1] || value == [2]
            case CertificateTag => true
            case DnsUpstreamsTag => TextsFrom(value, 0, []).Ok?
            case ClientRandomPrefixTag => IsUtf8(value) && ValidPrefix(value)
            case _ => IsUtf8(value)
  {
  }

  /** What an entry makes of its field: addresses are collected, and of the others the last one counts. */
  lemma EntrySets(p: Partial, tag: Tag, value: seq<byte>)
    requires Parsed(tag, value).Ok?
    ensures Get(Put(p, Parsed(tag, value).value), tag) ==
            match tag
            case VersionTag => NoSlot
            case AddressTag => TextsSlot(p.addresses + [value])
            case HasIpv6Tag => FlagSlot(value == [1])
            case SkipVerificationTag => FlagSlot(value == [1])
            case AntiDpiTag => FlagSlot(value == [1])
            case UpstreamProtocolTag => ProtocolSlot(if value == [1] then Http2 else Http3)
            case CertificateTag => BlobSlot(Some(value))
            case DnsUpstreamsTag => TextsSlot(TextsFrom(value, 0, []).value)
            case _ => TextSlot(Some(value))
    ensures forall other :: other != tag ==> Get(Put(p, Parsed(tag, value).value), other) == Get(p, other)
  {
    KindOfUpdate(tag, value);
    forall other | other != tag ensures Get(Put(p, Parsed(tag, value).value), other) == Get(p, other) {
      OthersStay(p, Parsed(tag, value).value, other);
    }
  }

  lemma FieldCommutes(p: Partial, u: Update, v: Update, t: Tag)
    requires Kind(u) != Kind(v)
    ensures Get(Put(Put(p, u), v), t) == Get(Put(Put(p, v), u), t)
  {
    if t != Kind(v) {
      OthersStay(Put(p, u), v, t);
      OthersStay(p, v, t);
      if t == Kind(u) {
        OwnField(p, Put(p, v), u);
      } else {
        OthersStay(p, u, t);
        OthersStay(Put(p, v), u, t);
      }
    } else {
      OthersStay(Put(p, v), u, t);
      OthersStay(p, u, t);
      OwnField(p, Put(p, u), v);
    }
  }

  lemma DifferentKinds(p: Partial, u: Update, v: Update)
    requires Kind(u) != Kind(v)
    ensures Put(Put(p, u), v) == Put(Put(p, v), u)
  {
    forall t ensures Get(Put(Put(p, u), v), t) == Get(Put(Put(p, v), u), t) {
      FieldCommutes(p, u, v, t);
    }
    FieldsDecide(Put(Put(p, u), v), Put(Put(p, v), u));
  }

  /** Neighbours whose tags differ in the low octet can be swapped. */
  lemma SwapEntries(p: Partial, a: Tlv, b: Tlv)
    requires a.tag % 256 != b.tag % 256
    ensures Agree(Fold(p, [a, b]), Fold(p, [b, a]))
  {
    FoldTwo(p, a, b);
    FoldTwo(p, b, a);
    TagCodes(a.tag % 256);
    TagCodes(b.tag % 256);
    var s, t := TagOf(a.tag % 256), TagOf(b.tag % 256);
    if s.Some? && t.Some? && Effect(a).Ok? && Effect(b).Ok? {
      UpdatesCommute(p, s.value, a.value, t.value, b.value);
    }
  }

  lemma {:induction false} FoldTwo(p: Partial, a: Tlv, b: Tlv)
    ensures Fold(p, [a, b]) == match Effect(a)
                               case Err(e) => Err(e)
                               case Ok(u) => match Effect(b) case Err(e) => Err(e) case Ok(v) => Ok(Put(Put(p, u), v))
  {
    assert [a, b][1..] == [b] && [b][1..] == [];
    if Effect(a).Ok? {
      var q := Put(p, Effect(a).value);
      assert Fold(q, [b]) == match Effect(b) case Err(e) => Err(e) case Ok(v) => Fold(Put(q, v), [b][1..]);
    }
  }

  lemma FoldAgrees(p: Partial, a: seq<Tlv>, x: seq<Tlv>, y: seq<Tlv>, b: seq<Tlv>)
    requires forall q :: Agree(Fold(q, x), Fold(q, y))
    ensures Agree(Fold(p, a + x + b), Fold(p, a + y + b))
  {
    FoldAppend(p, a + x, b);
    FoldAppend(p, a, x);
    FoldAppend(p, a + y, b);
    FoldAppend(p, a, y);
  }

  /** A payload is decoded by folding its entries. */
  lemma {:induction false} DecodedIsFold(ts: seq<Tlv>)
    requires AllWellFormed(ts)
    ensures Decoded(Payload(ts)) == match Fold(DEFAULTS, ts) case Err(e) => Err(e) case Ok(p) => Built(p)
  {
    assert Payload(ts) == [] + Payload(ts);
    FieldsAreFold([], ts, Payload(ts), DEFAULTS);
  }

  /** Swapping neighbours changes neither success nor the configuration. */
  lemma OrderInsensitive(a: seq<Tlv>, x: Tlv, y: Tlv, b: seq<Tlv>)
    requires AllWellFormed(a + [x, y] + b) && x.tag % 256 != y.tag % 256
    ensures Agree(Decoded(Payload(a + [x, y] + b)), Decoded(Payload(a + [y, x] + b)))
  {
    forall q ensures Agree(Fold(q, [x, y]), Fold(q, [y, x])) {
      SwapEntries(q, x, y);
    }
    FoldAgrees(DEFAULTS, a, [x, y], [y, x], b);
    assert AllWellFormed(a + [y, x] + b) by {
      var ts := a + [x, y] + b;
      assert ts[|a|] == x && ts[|a| + 1] == y;
      forall i | 0 <= i < |ts| ensures WellFormed((a + [y, x] + b)[i]) {
        assert WellFormed(ts[i]);
      }
    }
    DecodedIsFold(a + [x, y] + b);
    DecodedIsFold(a + [y, x] + b);
  }

  /** An entry with an unknown tag changes nothing at all. */
  lemma UnknownIgnored(a: seq<Tlv>, x: Tlv, b: seq<Tlv>)
    requires AllWellFormed(a + [x] + b) && x.tag % 256 > 0x0D
    ensures Decoded(Payload(a + [x] + b)) == Decoded(Payload(a + b))
  {
    TagCodes(x.tag % 256);
    FoldAppend(DEFAULTS, a + [x], b);
    FoldAppend(DEFAULTS, a, [x]);
    FoldAppend(DEFAULTS, a, b);
    assert forall q :: Fold(q, [x]) == Ok(q);
    assert AllWellFormed(a + b) by {
      var ts := a + [x] + b;
      forall i | 0 <= i < |a + b| ensures WellFormed((a + b)[i]) {
        assert (a + b)[i] == ts[if i < |a| then i else i + 1];
      }
    }
    DecodedIsFold(a + [x] + b);
    DecodedIsFold(a + b);
  }
}
