/** Writing deep links, and reading back what was written. */
module DeepLink {
  import opened Wrappers
  import opened Bytes
  import opened Hex
  import opened Utf8
  import opened Varint
  import opened DeepLinkTypes
  import opened TlvPayload
  import Base64Url

  // ---------- Encoding ----------

  /** A field to be written. */
  datatype Entry = Entry(tag: Tag, value: seq<byte>)

  function EncodeTlv(e: Entry): (r: Result<seq<byte>, DeepLinkError>) {
    match EncodeVarint(Code(e.tag))
    case Err(x) => Err(VarintFailure(x))
    case Ok(tag) =>
      match EncodeVarint(|e.value|)
      case Err(x) => Err(VarintFailure(x))
      case Ok(length) => Ok(tag + length + e.value)
  }

  function EncodeAll(entries: seq<Entry>): (r: Result<seq<byte>, DeepLinkError>) {
    if entries == [] then Ok([])
    else
      match EncodeAll(entries[..|entries| - 1])
      case Err(e) => Err(e)
      case Ok(front) =>
        match EncodeTlv(entries[|entries| - 1])
        case Err(e) => Err(e)
        case Ok(back) => Ok(front + back)
  }

  /** A text behind its length. */
  function EncodeText(text: Text): (r: Result<seq<byte>, DeepLinkError>) {
    match EncodeVarint(|text|)
    case Err(x) => Err(VarintFailure(x))
    case Ok(length) => Ok(length + text)
  }

  function EncodeTexts(texts: seq<Text>): (r: Result<seq<byte>, DeepLinkError>) {
    if texts == [] then Ok([])
    else
      match EncodeText(texts[0])
      case Err(e) => Err(e)
      case Ok(first) => Behind(first, EncodeTexts(texts[1..]))
  }

  function Behind<E>(front: seq<byte>, r: Result<seq<byte>, E>): (t: Result<seq<byte>, E>) {
    if r.Ok? then Ok(front + r.value) else r
  }

  method EncodeStringArray(texts: seq<Text>) returns (r: Result<seq<byte>, DeepLinkError>)
    ensures r == EncodeTexts(texts)
  {
    var buf: seq<byte> := [];
    assert texts[0..] == texts;
    assert EncodeTexts(texts).Ok? ==> [] + EncodeTexts(texts).value == EncodeTexts(texts).value;
    for i := 0 to |texts|
      invariant EncodeTexts(texts) == Behind(buf, EncodeTexts(texts[i..]))
    {
      var length := EncodeVarint(|texts[i]|);
      assert texts[i..][1..] == texts[i + 1..];
      if length.Err? {
        return Err(VarintFailure(length.error));
      }
      ghost var before := buf;
      buf := buf + length.value;
      buf := buf + texts[i];
      BehindBehind(before, length.value + texts[i], EncodeTexts(texts[i + 1..]));
      assert buf == before + (length.value + texts[i]);
    }
    assert buf + [] == buf;
    return Ok(buf);
  }

  lemma BehindBehind<E>(a: seq<byte>, b: seq<byte>, r: Result<seq<byte>, E>)
    ensures Behind(a, Behind(b, r)) == Behind(a + b, r)
  {
    if r.Ok? {
      assert a + (b + r.value) == (a + b) + r.value;
    }
  }

  function FlagEntry(tag: Tag, flag: bool): (e: Entry) {
    Entry(tag, if flag then [1] else [0])
  }

  function ProtocolEntry(p: Protocol): (e: Entry) {
    Entry(UpstreamProtocolTag, [match p case Http2 => 1 case Http3 => 2])
  }

  function TextEntry(tag: Tag, text: Option<Text>): (es: seq<Entry>) {
    if text.Some? then [Entry(tag, text.value)] else []
  }

  function AddressEntries(addresses: seq<Text>): (es: seq<Entry>) {
    if addresses == [] then []
    else AddressEntries(addresses[..|addresses| - 1]) + [Entry(AddressTag, addresses[|addresses| - 1])]
  }

  /** The version and the required fields. */
  function RequiredEntries(c: Config): (es: seq<Entry>) {
    [Entry(VersionTag, [1]), Entry(HostnameTag, c.hostname), Entry(UsernameTag, c.username),
     Entry(PasswordTag, c.password)] + AddressEntries(c.addresses)
  }

  /** The optional fields before the flags. An empty prefix is not written. */
  function OptionalEntries(c: Config): (es: seq<Entry>) {
    (if c.clientRandomPrefix == Some([]) then [] else TextEntry(ClientRandomPrefixTag, c.clientRandomPrefix))
    + TextEntry(CustomSniTag, c.customSni)
  }

  /** A flag is written when it is not at its default. */
  function FlagIf(tag: Tag, flag: bool, default: bool): (es: seq<Entry>) {
    if flag == default then [] else [FlagEntry(tag, flag)]
  }

  function FlagEntries(c: Config): (es: seq<Entry>) {
    FlagIf(HasIpv6Tag, c.hasIpv6, true) + FlagIf(SkipVerificationTag, c.skipVerification, false)
    + FlagIf(AntiDpiTag, c.antiDpi, false)
  }

  /** The optional fields behind the flags. */
  function TrailingEntries(c: Config): (es: seq<Entry>) {
    TextEntry(CertificateTag, c.certificate)
    + (if c.upstreamProtocol == Http2 then [] else [ProtocolEntry(c.upstreamProtocol)])
    + TextEntry(NameTag, c.name)
  }

  function PlainEntries(c: Config): (es: seq<Entry>) {
    RequiredEntries(c) + OptionalEntries(c) + FlagEntries(c) + TrailingEntries(c)
  }

  function Encoded(c: Config): (r: Result<seq<byte>, DeepLinkError>) {
    match c.Missing()
    case Some(tag) => Err(MissingRequiredField(tag))
    case None =>
      match EncodeAll(PlainEntries(c))
      case Err(e) => Err(e)
      case Ok(plain) =>
        if c.dnsUpstreams == [] then Ok(plain)
        else
          match EncodeTexts(c.dnsUpstreams)
          case Err(e) => Err(e)
          case Ok(texts) =>
            match EncodeTlv(Entry(DnsUpstreamsTag, texts))
            case Err(e) => Err(e)
            case Ok(last) => Ok(plain + last)
  }

  /** A payload that is being written. */
  class Writer {
    var payload: seq<byte>
    var failure: Option<DeepLinkError>
    ghost var written: seq<Entry>

    ghost predicate Valid()
      reads this
    {
      EncodeAll(written) == if failure.None? then Ok(payload) else Err(failure.value)
    }

    constructor ()
      ensures Valid() && written == []
    {
      payload, failure, written := [], None, [];
    }

    /** Appends one field; after a failure nothing is appended. */
    method Extend(e: Entry)
      requires Valid()
      modifies this
      ensures Valid() && written == old(written) + [e]
    {
      assert (written + [e])[..|written|] == written;
      if failure.None? {
        var tlv := EncodeTlv(e);
        if tlv.Ok? {
          payload := payload + tlv.value;
        } else {
          failure := Some(tlv.error);
        }
      }
      written := written + [e];
    }

    method Required(c: Config)
      requires Valid() && written == []
      modifies this
      ensures Valid() && written == RequiredEntries(c)
    {
      Extend(Entry(VersionTag, [1]));
      Extend(Entry(HostnameTag, c.hostname));
      Extend(Entry(UsernameTag, c.username));
      Extend(Entry(PasswordTag, c.password));
      ghost var head := written;
      for i := 0 to |c.addresses|
        invariant Valid() && written == head + AddressEntries(c.addresses[..i])
      {
        assert c.addresses[..i + 1][..i] == c.addresses[..i];
        Extend(Entry(AddressTag, c.addresses[i]));
      }
      assert c.addresses[..|c.addresses|] == c.addresses;
    }

    method Optional(c: Config)
      requires Valid()
      modifies this
      ensures Valid() && written == old(written) + OptionalEntries(c)
    {
      if c.clientRandomPrefix.Some? && c.clientRandomPrefix.value != [] {
        Extend(Entry(ClientRandomPrefixTag, c.clientRandomPrefix.value));
      }
      if c.customSni.Some? {
        Extend(Entry(CustomSniTag, c.customSni.value));
      }
    }

    method Flags(c: Config)
      requires Valid()
      modifies this
      ensures Valid() && written == old(written) + FlagEntries(c)
    {
      if !c.hasIpv6 {
        Extend(FlagEntry(HasIpv6Tag, false));
      }
      if c.skipVerification {
        Extend(FlagEntry(SkipVerificationTag, true));
      }
      if c.antiDpi {
        Extend(FlagEntry(AntiDpiTag, true));
      }
    }

    method Trailing(c: Config)
      requires Valid()
      modifies this
      ensures Valid() && written == old(written) + TrailingEntries(c)
    {
      if c.certificate.Some? {
        Extend(Entry(CertificateTag, c.certificate.value));
      }
      if c.upstreamProtocol != Http2 {
        Extend(ProtocolEntry(c.upstreamProtocol));
      }
      if c.name.Some? {
        Extend(Entry(NameTag, c.name.value));
      }
    }
  }

  method EncodeTlvPayload(c: Config) returns (r: Result<seq<byte>, DeepLinkError>)
    ensures r == Encoded(c)
  {
    if c.Missing().Some? {
      return Err(MissingRequiredField(c.Missing().value));
    }
    var w := new Writer();
    w.Required(c);
    w.Optional(c);
    w.Flags(c);
    w.Trailing(c);
    if w.failure.Some? {
      return Err(w.failure.value);
    }
    if c.dnsUpstreams != [] {
      var texts := EncodeStringArray(c.dnsUpstreams);
      if texts.Err? {
        return texts;
      }
      var last := EncodeTlv(Entry(DnsUpstreamsTag, texts.value));
      return if last.Ok? then Ok(w.payload + last.value) else last;
    }
    return Ok(w.payload);
  }

  // ---------- Reading back ----------

  /** An entry as it stands in a payload. */
  function AsTlv(e: Entry): (t: Tlv)
    requires EncodeTlv(e).Ok?
  {
    Tlv(EncodeVarint(Code(e.tag)).value, Code(e.tag), EncodeVarint(|e.value|).value, e.value)
  }

  lemma EntryIsTlv(e: Entry)
    requires EncodeTlv(e).Ok?
    ensures WellFormed(AsTlv(e)) && Octets(AsTlv(e)) == EncodeTlv(e).value
  {
    VarintRoundTrip(Code(e.tag));
    VarintRoundTrip(|e.value|);
  }

  function AsTlvs(es: seq<Entry>): (ts: seq<Tlv>)
    requires EncodeAll(es).Ok?
    ensures |ts| == |es|
  {
    if es == [] then [] else AsTlvs(es[..|es| - 1]) + [AsTlv(es[|es| - 1])]
  }

  lemma {:induction false} PayloadAppend(a: seq<Tlv>, b: seq<Tlv>)
    ensures Payload(a + b) == Payload(a) + Payload(b)
    decreases a
  {
    if a == [] {
      assert a + b == b;
    } else {
      assert (a + b)[1..] == a[1..] + b;
      PayloadAppend(a[1..], b);
    }
  }

  lemma {:induction false} EntriesAreTlvs(es: seq<Entry>)
    requires EncodeAll(es).Ok?
    ensures AllWellFormed(AsTlvs(es)) && Payload(AsTlvs(es)) == EncodeAll(es).value
    decreases |es|
  {
    if es != [] {
      var front, last := es[..|es| - 1], es[|es| - 1];
      EntriesAreTlvs(front);
      EntryIsTlv(last);
      PayloadAppend(AsTlvs(front), [AsTlv(last)]);
      assert Payload([AsTlv(last)]) == Octets(AsTlv(last));
    }
  }

  /** Reading entries in order, without their octets. */
  function Read(p: Partial, es: seq<Entry>): (r: Result<Partial, DeepLinkError>)
    decreases es
  {
    if es == [] then Ok(p)
    else
      match Parsed(es[0].tag, es[0].value)
      case Err(e) => Err(e)
      case Ok(u) => Read(Put(p, u), es[1..])
  }

  lemma {:induction false} ReadAppend(p: Partial, a: seq<Entry>, b: seq<Entry>)
    ensures Read(p, a + b) == match Read(p, a) case Err(e) => Err(e) case Ok(q) => Read(q, b)
    decreases a
  {
    if a == [] {
      assert a + b == b;
    } else {
      assert (a + b)[0] == a[0] && (a + b)[1..] == a[1..] + b;
      if Parsed(a[0].tag, a[0].value).Ok? {
        ReadAppend(Put(p, Parsed(a[0].tag, a[0].value).value), a[1..], b);
      }
    }
  }

  lemma {:induction false} FoldIsRead(p: Partial, es: seq<Entry>)
    requires EncodeAll(es).Ok?
    ensures Fold(p, AsTlvs(es)) == Read(p, es)
    decreases |es|
  {
    if es != [] {
      var front, last := es[..|es| - 1], es[|es| - 1];
      FoldIsRead(p, front);
      FoldAppend(p, AsTlvs(front), [AsTlv(last)]);
      ReadAppend(p, front, [last]);
      assert es == front + [last];
      FoldOne(last);
    }
  }

  lemma FoldOne(e: Entry)
    requires EncodeTlv(e).Ok?
    ensures forall q :: Fold(q, [AsTlv(e)]) == Read(q, [e])
  {
    CodeTags(e.tag);
    assert Code(e.tag) % 256 == Code(e.tag);
    forall q ensures Fold(q, [AsTlv(e)]) == Read(q, [e]) {
      assert Effect(AsTlv(e)) == Parsed(e.tag, e.value);
    }
  }

  lemma {:induction false} ReadOne(p: Partial, e: Entry)
    ensures Read(p, [e]) == match Parsed(e.tag, e.value) case Err(x) => Err(x) case Ok(u) => Ok(Put(p, u))
  {
    assert [e][1..] == [];
  }

  lemma ReadSecond(p: Partial, a: seq<Entry>, b: seq<Entry>, q: Partial)
    requires Read(p, a) == Ok(q)
    ensures Read(p, a + b) == Read(q, b)
  {
    ReadAppend(p, a, b);
  }

  lemma {:induction false} ReadAddresses(p: Partial, addresses: seq<Text>)
    requires AllUtf8(addresses)
    ensures Read(p, AddressEntries(addresses)) == Ok(p.(addresses := p.addresses + addresses))
    decreases |addresses|
  {
    if addresses == [] {
      assert p.addresses + addresses == p.addresses;
    } else {
      var front, last := addresses[..|addresses| - 1], addresses[|addresses| - 1];
      ReadAddresses(p, front);
      var q := p.(addresses := p.addresses + front);
      ReadSecond(p, AddressEntries(front), [Entry(AddressTag, last)], q);
      ReadOne(q, Entry(AddressTag, last));
      assert q.addresses + [last] == p.addresses + addresses;
    }
  }

  /** The version octet is the encoding of the current version, and is accepted. */
  lemma VersionAccepted()
    ensures EncodeVarint(CURRENT_VERSION) == Ok([1]) && Parsed(VersionTag, [1]) == Ok(Nothing)
  {
    VarintRoundTrip(CURRENT_VERSION);
    var one: nat := CURRENT_VERSION;
    assert ToBE(one, 1) == ToBE(one / 256, 0) + [one % 256];
    assert EncodeVarint(one).value == [1];
  }

  lemma ReadHead(p: Partial, c: Config, head: seq<Entry>)
    requires c.WellTyped()
    requires head == [Entry(VersionTag, [1]), Entry(HostnameTag, c.hostname), Entry(UsernameTag, c.username),
                      Entry(PasswordTag, c.password)]
    ensures Read(p, head) == Ok(p.(hostname := Some(c.hostname), username := Some(c.username), password := Some(c.password)))
  {
    VersionAccepted();
    var q1 := p.(hostname := Some(c.hostname));
    var q2 := q1.(username := Some(c.username));
    assert head[1..][1..][1..] == [Entry(PasswordTag, c.password)];
    ReadOne(q2, Entry(PasswordTag, c.password));
    assert Read(q1, head[1..][1..]) == Read(q2, head[1..][1..][1..]);
    assert Read(p, head[1..]) == Read(q1, head[1..][1..]);
  }

  lemma ReadRequired(p: Partial, c: Config)
    requires c.WellTyped()
    ensures Read(p, RequiredEntries(c))
         == Ok(p.(hostname := Some(c.hostname), username := Some(c.username), password := Some(c.password),
                  addresses := p.addresses + c.addresses))
  {
    var head := [Entry(VersionTag, [1]), Entry(HostnameTag, c.hostname), Entry(UsernameTag, c.username),
                 Entry(PasswordTag, c.password)];
    ReadHead(p, c, head);
    var q := p.(hostname := Some(c.hostname), username := Some(c.username), password := Some(c.password));
    ReadSecond(p, head, AddressEntries(c.addresses), q);
    ReadAddresses(q, c.addresses);
  }

  /** A prefix that is read back: an empty one is not written, any other must be valid. */
  predicate Readable(prefix: Option<Text>) {
    prefix.None? || prefix.value == [] || ValidPrefix(prefix.value)
  }

  function Rewritten(prefix: Option<Text>): (r: Option<Text>) {
    if prefix == Some([]) then None else prefix
  }

  lemma ReadTextEntry(p: Partial, tag: Tag, text: Option<Text>)
    requires text.Some? ==> IsUtf8(text.value)
    ensures tag == CustomSniTag && p.customSni.None? ==> Read(p, TextEntry(tag, text)) == Ok(p.(customSni := text))
    ensures tag == NameTag && p.name.None? ==> Read(p, TextEntry(tag, text)) == Ok(p.(name := text))
  {
    if text.Some? {
      ReadOne(p, Entry(tag, text.value));
    }
  }

  lemma ReadPrefix(p: Partial, prefix: Option<Text>)
    requires p.clientRandomPrefix.None? && (prefix.Some? ==> IsUtf8(prefix.value))
    ensures Read(p, if prefix == Some([]) then [] else TextEntry(ClientRandomPrefixTag, prefix))
         == if Readable(prefix) then Ok(p.(clientRandomPrefix := Rewritten(prefix))) else Err(InvalidPrefix)
  {
    if prefix.Some? && prefix.value != [] {
      ReadOne(p, Entry(ClientRandomPrefixTag, prefix.value));
    }
  }

  lemma ReadOptional(p: Partial, c: Config)
    requires c.WellTyped() && p.clientRandomPrefix.None? && p.customSni.None?
    ensures Read(p, OptionalEntries(c))
         == if Readable(c.clientRandomPrefix)
            then Ok(p.(clientRandomPrefix := Rewritten(c.clientRandomPrefix), customSni := c.customSni))
            else Err(InvalidPrefix)
  {
    var first := if c.clientRandomPrefix == Some([]) then [] else TextEntry(ClientRandomPrefixTag, c.clientRandomPrefix);
    ReadPrefix(p, c.clientRandomPrefix);
    ReadAppend(p, first, TextEntry(CustomSniTag, c.customSni));
    if Readable(c.clientRandomPrefix) {
      ReadTextEntry(p.(clientRandomPrefix := Rewritten(c.clientRandomPrefix)), CustomSniTag, c.customSni);
    }
  }

  lemma ReadFlags(p: Partial, c: Config)
    requires p.hasIpv6 && !p.skipVerification && !p.antiDpi
    ensures Read(p, FlagEntries(c))
         == Ok(p.(hasIpv6 := c.hasIpv6, skipVerification := c.skipVerification, antiDpi := c.antiDpi))
  {
    var ipv6, skip := FlagIf(HasIpv6Tag, c.hasIpv6, true), FlagIf(SkipVerificationTag, c.skipVerification, false);
    var q1 := p.(hasIpv6 := c.hasIpv6);
    var q2 := q1.(skipVerification := c.skipVerification);
    ReadFlag(p, HasIpv6Tag, c.hasIpv6, true);
    ReadFlag(q1, SkipVerificationTag, c.skipVerification, false);
    ReadFlag(q2, AntiDpiTag, c.antiDpi, false);
    ReadSecond(p, ipv6, skip, q1);
    ReadSecond(p, ipv6 + skip, FlagIf(AntiDpiTag, c.antiDpi, false), q2);
  }

  lemma ReadFlag(p: Partial, tag: Tag, flag: bool, default: bool)
    ensures tag == HasIpv6Tag && p.hasIpv6 == default ==> Read(p, FlagIf(tag, flag, default)) == Ok(p.(hasIpv6 := flag))
    ensures tag == SkipVerificationTag && p.skipVerification == default ==>
      Read(p, FlagIf(tag, flag, default)) == Ok(p.(skipVerification := flag))
    ensures tag == AntiDpiTag && p.antiDpi == default ==> Read(p, FlagIf(tag, flag, default)) == Ok(p.(antiDpi := flag))
  {
    ReadOne(p, FlagEntry(tag, flag));
  }

  lemma ReadTrailing(p: Partial, c: Config)
    requires c.WellTyped() && p.certificate.None? && p.upstreamProtocol == Http2 && p.name.None?
    ensures Read(p, TrailingEntries(c))
         == Ok(p.(certificate := c.certificate, upstreamProtocol := c.upstreamProtocol, name := c.name))
  {
    var certificate := TextEntry(CertificateTag, c.certificate);
    var protocol := if c.upstreamProtocol == Http2 then [] else [ProtocolEntry(c.upstreamProtocol)];
    var q1 := p.(certificate := c.certificate);
    var q2 := q1.(upstreamProtocol := c.upstreamProtocol);
    if c.certificate.Some? {
      ReadOne(p, Entry(CertificateTag, c.certificate.value));
    }
    ReadOne(q1, ProtocolEntry(c.upstreamProtocol));
    assert Read(p, certificate) == Ok(q1) && Read(q1, protocol) == Ok(q2);
    ReadSecond(p, certificate, protocol, q1);
    ReadSecond(p, certificate + protocol, TextEntry(NameTag, c.name), q2);
    ReadTextEntry(q2, NameTag, c.name);
  }

  // ---------- Text arrays ----------

  /** A text with its length in any of its forms. */
  datatype Item = Item(lengthForm: seq<byte>, text: Text)

  predicate ItemsOk(items: seq<Item>) {
    forall i :: 0 <= i < |items| ==> IsForm(items[i].lengthForm, |items[i].text|) && IsUtf8(items[i].text)
  }

  function ItemOctets(items: seq<Item>): (s: seq<byte>) {
    if items == [] then [] else items[0].lengthForm + items[0].text + ItemOctets(items[1..])
  }

  function ItemTexts(items: seq<Item>): (texts: seq<Text>) {
    if items == [] then [] else [items[0].text] + ItemTexts(items[1..])
  }

  lemma {:induction false} TextRead(data: seq<byte>, before: seq<byte>, length: seq<byte>, text: Text, after: seq<byte>)
    requires data == before + length + (text + after) && IsForm(length, |text|) && IsUtf8(text)
    ensures TextAt(data, |before|) == Ok((text, |before| + |length| + |text|))
  {
    Middle(data, before + length, text, after);
    FormIn(data, before, length, text + after, |text|);
  }

  lemma TextsStep(data: seq<byte>, offset: nat, text: Text, next: nat, done: seq<Text>, all: seq<Text>)
    requires offset < |data| && TextAt(data, offset) == Ok((text, next)) && all == done + [text]
    ensures TextsFrom(data, offset, done) == TextsFrom(data, next, all)
  {
  }

  lemma ItemRead(data: seq<byte>, before: seq<byte>, item: Item, after: seq<byte>, next: nat,
                                    done: seq<Text>, more: seq<Text>)
    requires data == before + item.lengthForm + (item.text + after) && next == |before| + |item.lengthForm| + |item.text|
    requires IsForm(item.lengthForm, |item.text|) && IsUtf8(item.text) && more == done + [item.text]
    ensures TextsFrom(data, |before|, done) == TextsFrom(data, next, more)
  {
    TextRead(data, before, item.lengthForm, item.text, after);
    TextsStep(data, |before|, item.text, next, done, more);
  }

  lemma {:induction false} ItemsStep(items: seq<Item>, before: seq<byte>, data: seq<byte>, next: seq<byte>)
    requires items != [] && data == before + ItemOctets(items)
    requires next == before + items[0].lengthForm + items[0].text
    ensures data == before + items[0].lengthForm + (items[0].text + ItemOctets(items[1..]))
    ensures data == next + ItemOctets(items[1..])
  {
  }

  /** Texts are read back, whatever the forms of their lengths. */
  lemma {:induction false} ItemsRead(items: seq<Item>, before: seq<byte>, data: seq<byte>, done: seq<Text>, all: seq<Text>)
    requires ItemsOk(items) && all == done + ItemTexts(items) && data == before + ItemOctets(items)
    ensures TextsFrom(data, |before|, done) == Ok(all)
    decreases items
  {
    if items == [] {
      assert all == done;
    } else {
      var item, rest := items[0], items[1..];
      var next, more := before + item.lengthForm + item.text, done + [item.text];
      ItemsStep(items, before, data, next);
      assert all == more + ItemTexts(rest);
      ItemsRead(rest, next, data, more, all);
      ItemRead(data, before, item, ItemOctets(rest), |next|, done, more);
    }
  }

  lemma {:induction false} EncodedItems(texts: seq<Text>) returns (items: seq<Item>)
    requires EncodeTexts(texts).Ok? && AllUtf8(texts)
    ensures ItemsOk(items) && ItemTexts(items) == texts && ItemOctets(items) == EncodeTexts(texts).value
  {
    if texts == [] {
      items := [];
    } else {
      var rest := EncodedItems(texts[1..]);
      var first := Item(EncodeVarint(|texts[0]|).value, texts[0]);
      VarintRoundTrip(|texts[0]|);
      items := [first] + rest;
      assert items[1..] == rest;
    }
  }

  lemma TextsRoundTrip(texts: seq<Text>)
    requires EncodeTexts(texts).Ok? && AllUtf8(texts)
    ensures TextsFrom(EncodeTexts(texts).value, 0, []) == Ok(texts)
  {
    var items := EncodedItems(texts);
    var data, none: seq<Text> := ItemOctets(items), [];
    assert [] + data == data && none + texts == texts;
    ItemsRead(items, [], data, none, texts);
  }

  // ---------- Round trip ----------

  function DnsEntries(c: Config): (es: seq<Entry>)
    requires EncodeTexts(c.dnsUpstreams).Ok?
  {
    if c.dnsUpstreams == [] then [] else [Entry(DnsUpstreamsTag, EncodeTexts(c.dnsUpstreams).value)]
  }

  lemma EncodedIsAll(c: Config)
    requires Encoded(c).Ok?
    ensures EncodeTexts(c.dnsUpstreams).Ok? && EncodeAll(PlainEntries(c) + DnsEntries(c)) == Encoded(c)
  {
    var plain := PlainEntries(c);
    if c.dnsUpstreams == [] {
      assert plain + DnsEntries(c) == plain;
    } else {
      var all := plain + DnsEntries(c);
      assert all[..|all| - 1] == plain;
    }
  }

  lemma DnsParsed(value: seq<byte>, texts: seq<Text>)
    requires EncodeTexts(texts) == Ok(value) && AllUtf8(texts)
    ensures Parsed(DnsUpstreamsTag, value) == Ok(DnsUpstreams(texts))
  {
    TextsRoundTrip(texts);
  }

  lemma ReadDns(p: Partial, c: Config)
    requires c.WellTyped() && p.dnsUpstreams == [] && EncodeTexts(c.dnsUpstreams).Ok?
    ensures Read(p, DnsEntries(c)) == Ok(p.(dnsUpstreams := c.dnsUpstreams))
  {
    if c.dnsUpstreams != [] {
      var entry := DnsEntries(c)[0];
      DnsParsed(entry.value, c.dnsUpstreams);
      ReadOne(p, entry);
    }
  }

  /** The fields of a configuration as they are read back. */
  function Fields(c: Config): (p: Partial) {
    Partial(Some(c.hostname), c.addresses, Some(c.username), Some(c.password), Rewritten(c.clientRandomPrefix),
            c.customSni, c.hasIpv6, c.skipVerification, c.certificate, c.upstreamProtocol, c.antiDpi, c.name,
            c.dnsUpstreams)
  }

  lemma ReadPlain(c: Config)
    requires c.WellTyped()
    ensures Read(DEFAULTS, PlainEntries(c))
         == if Readable(c.clientRandomPrefix) then Ok(Fields(c).(dnsUpstreams := [])) else Err(InvalidPrefix)
  {
    var p := DEFAULTS;
    var q1 := p.(hostname := Some(c.hostname), username := Some(c.username), password := Some(c.password),
                 addresses := c.addresses);
    ReadRequired(p, c);
    assert p.addresses + c.addresses == c.addresses;
    var r1 := RequiredEntries(c);
    ReadSecond(p, r1, OptionalEntries(c), q1);
    ReadOptional(q1, c);
    var r2 := r1 + OptionalEntries(c);
    ReadAppend(p, r2, FlagEntries(c));
    ReadAppend(p, r2 + FlagEntries(c), TrailingEntries(c));
    if Readable(c.clientRandomPrefix) {
      var q2 := q1.(clientRandomPrefix := Rewritten(c.clientRandomPrefix), customSni := c.customSni);
      ReadFlags(q2, c);
      ReadTrailing(q2.(hasIpv6 := c.hasIpv6, skipVerification := c.skipVerification, antiDpi := c.antiDpi), c);
    }
  }

  /** What an encoded configuration decodes to. */
  lemma DecodedEncoding(c: Config)
    requires c.WellTyped() && Encoded(c).Ok?
    ensures Decoded(Encoded(c).value)
         == if Readable(c.clientRandomPrefix)
            then Ok(c.(clientRandomPrefix := Rewritten(c.clientRandomPrefix)))
            else Err(InvalidPrefix)
  {
    EncodedIsAll(c);
    var all := PlainEntries(c) + DnsEntries(c);
    EntriesAreTlvs(all);
    DecodedIsFold(AsTlvs(all));
    FoldIsRead(DEFAULTS, all);
    ReadPlain(c);
    ReadAppend(DEFAULTS, PlainEntries(c), DnsEntries(c));
    if Readable(c.clientRandomPrefix) {
      ReadDns(Fields(c).(dnsUpstreams := []), c);
      assert Built(Fields(c)) == Ok(c.(clientRandomPrefix := Rewritten(c.clientRandomPrefix)));
    }
  }

  /** A configuration comes back unchanged exactly when its prefix is absent, or valid and not empty. */
  lemma RoundTripExactly(c: Config)
    requires c.WellTyped() && Encoded(c).Ok?
    ensures Decoded(Encoded(c).value) == Ok(c) <==>
            c.clientRandomPrefix.None? || (c.clientRandomPrefix.value != [] && ValidPrefix(c.clientRandomPrefix.value))
  {
    DecodedEncoding(c);
  }

  /** Hexadecimal octets are valid prefixes, alone or with a mask. */
  lemma HexIsValid(prefix: Text, mask: Text)
    requires HexOctets(prefix) && HexOctets(mask)
    ensures ValidPrefix(prefix) && ValidPrefix(prefix + [SLASH] + mask)
  {
    SplitHex(prefix, []);
    SplitHex(prefix, [SLASH] + mask);
    assert prefix + [] == prefix && prefix + [SLASH] + mask == prefix + ([SLASH] + mask);
  }

  lemma {:induction false} SplitHex(s: Text, rest: Text)
    requires AllHex(s) && (rest == [] || rest[0] == SLASH)
    ensures SplitOnce(s + rest) == (s, if rest == [] then [] else rest[1..])
  {
    if s == [] {
      assert s + rest == rest;
    } else {
      assert (s + rest)[1..] == s[1..] + rest;
      SplitHex(s[1..], rest);
      assert s == [s[0]] + s[1..];
    }
  }

  lemma {:induction false} SplitParts(s: Text)
    ensures SLASH !in s ==> SplitOnce(s) == (s, [])
    ensures SLASH in s ==> s == SplitOnce(s).0 + [SLASH] + SplitOnce(s).1 && SLASH !in SplitOnce(s).0
  {
    if s != [] {
      assert s == [s[0]] + s[1..];
      if s[0] != SLASH {
        SplitParts(s[1..]);
        assert SLASH in s <==> SLASH in s[1..];
      }
    }
  }

  /** An even number of hexadecimal digits. */
  ghost predicate SpellsOctets(s: Text) {
    |s| % 2 == 0 && exists ds :: Spells(s, ds)
  }

  /** A prefix is valid exactly when it is hexadecimal octets, or two such texts around a slash. */
  lemma ValidPrefixExactly(s: Text)
    ensures ValidPrefix(s) <==>
            || SpellsOctets(s)
            || exists prefix, mask :: SpellsOctets(prefix) && SpellsOctets(mask) && s == prefix + [SLASH] + mask
  {
    SplitParts(s);
    var (head, tail) := SplitOnce(s);
    AllHexExactly(head);
    AllHexExactly(tail);
    AllHexExactly(s);
    if ValidPrefix(s) && SLASH in s {
      assert SpellsOctets(head) && SpellsOctets(tail) && s == head + [SLASH] + tail;
    }
    if SpellsOctets(s) {
      HexIsValid(s, []);
    } else if prefix, mask :| SpellsOctets(prefix) && SpellsOctets(mask) && s == prefix + [SLASH] + mask {
      AllHexExactly(prefix);
      AllHexExactly(mask);
      HexIsValid(prefix, mask);
    }
  }

  // ---------- Links ----------

  const SCHEME: seq<byte> := [0x74, 0x74, 0x3A, 0x2F, 0x2F]
  const QUESTION: byte := 0x3F

  function Link(c: Config): (r: Result<seq<byte>, DeepLinkError>) {
    match Encoded(c)
    case Err(e) => Err(e)
    case Ok(payload) => Ok(SCHEME + [QUESTION] + Base64Url.Encode(payload))
  }

  /** Links are accepted with the question mark and, as older ones are, without it. */
  function ReadLink(uri: seq<byte>): (r: Result<Config, DeepLinkError>) {
    if !(SCHEME <= uri) then Err(InvalidScheme)
    else
      var text := if SCHEME + [QUESTION] <= uri then uri[|SCHEME| + 1..] else uri[|SCHEME|..];
      match Base64Url.Decode(text)
      case None => Err(InvalidBase64)
      case Some(payload) => Decoded(payload)
  }

  lemma LinkText(payload: seq<byte>)
    ensures ReadLink(SCHEME + [QUESTION] + Base64Url.Encode(payload)) == Decoded(payload)
    ensures ReadLink(SCHEME + Base64Url.Encode(payload)) == Decoded(payload)
  {
    var text := Base64Url.Encode(payload);
    Base64Url.DecodeEncode(payload);
    var modern, legacy := SCHEME + [QUESTION] + text, SCHEME + text;
    assert modern[|SCHEME| + 1..] == text && legacy[|SCHEME|..] == text;
    assert legacy[..|SCHEME|] == SCHEME && modern[..|SCHEME|] == SCHEME;
    if SCHEME + [QUESTION] <= legacy {
      assert text[0] == legacy[|SCHEME|] == QUESTION;
      NoQuestion(payload);
    }
  }

  lemma NoQuestion(payload: seq<byte>)
    ensures Base64Url.Encode(payload) == [] || Base64Url.Encode(payload)[0] != QUESTION
  {
  }

  /** Reading a link gives the configuration back, under the same condition. */
  lemma LinkRoundTripExactly(c: Config)
    requires c.WellTyped() && Link(c).Ok?
    ensures ReadLink(Link(c).value) == Ok(c) <==>
            c.clientRandomPrefix.None? || (c.clientRandomPrefix.value != [] && ValidPrefix(c.clientRandomPrefix.value))
  {
    RoundTripExactly(c);
    LinkText(Encoded(c).value);
  }
}
