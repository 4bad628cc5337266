/** The configuration that a deep link carries, its field tags and its errors. */
module DeepLinkTypes {
  import opened Wrappers
  import opened Bytes
  import opened Utf8
  import opened Varint

  /** Text as its UTF-8 octets. */
  type Text = seq<byte>

  datatype Tag =
    | VersionTag | HostnameTag | AddressTag | CustomSniTag | HasIpv6Tag | UsernameTag | PasswordTag
    | SkipVerificationTag | CertificateTag | UpstreamProtocolTag | AntiDpiTag | ClientRandomPrefixTag
    | NameTag | DnsUpstreamsTag

  function TagOf(code: nat): (t: Option<Tag>) {
    match code
    case 0x00 => Some(VersionTag)
    case 0x01 => Some(HostnameTag)
    case 0x02 => Some(AddressTag)
    case 0x03 => Some(CustomSniTag)
    case 0x04 => Some(HasIpv6Tag)
    case 0x05 => Some(UsernameTag)
    case 0x06 => Some(PasswordTag)
    case 0x07 => Some(SkipVerificationTag)
    case 0x08 => Some(CertificateTag)
    case 0x09 => Some(UpstreamProtocolTag)
    case 0x0A => Some(AntiDpiTag)
    case 0x0B => Some(ClientRandomPrefixTag)
    case 0x0C => Some(NameTag)
    case 0x0D => Some(DnsUpstreamsTag)
    case _ => None
  }

  function Code(t: Tag): (b: byte)
    ensures b <= 0x0D
  {
    match t
    case VersionTag => 0x00
    case HostnameTag => 0x01
    case AddressTag => 0x02
    case CustomSniTag => 0x03
    case HasIpv6Tag => 0x04
    case UsernameTag => 0x05
    case PasswordTag => 0x06
    case SkipVerificationTag => 0x07
    case CertificateTag => 0x08
    case UpstreamProtocolTag => 0x09
    case AntiDpiTag => 0x0A
    case ClientRandomPrefixTag => 0x0B
    case NameTag => 0x0C
    case DnsUpstreamsTag => 0x0D
  }

  /** Exactly the codes up to 0x0D are tags, each of one tag. */
  lemma TagCodes(code: nat)
    ensures TagOf(code).Some? <==> code <= 0x0D
    ensures TagOf(code).Some? ==> Code(TagOf(code).value) == code
  {
  }

  /** A tag's code is its place in the list of fields. */
  lemma TagIsPlace(code: nat)
    requires code <= 0x0D
    ensures TagOf(code) == Some(
              [VersionTag, HostnameTag, AddressTag, CustomSniTag, HasIpv6Tag, UsernameTag, PasswordTag,
               SkipVerificationTag, CertificateTag, UpstreamProtocolTag, AntiDpiTag, ClientRandomPrefixTag,
               NameTag, DnsUpstreamsTag][code])
  {
  }

  lemma CodeTags(t: Tag)
    ensures TagOf(Code(t)) == Some(t)
  {
  }

  datatype Protocol = Http2 | Http3

  datatype DeepLinkError =
    | VarintFailure(e: VarintError)
    | TruncatedTlv(tag: byte, expected: nat, got: nat)
    | TruncatedListEntry(expected: nat, got: nat)
    | InvalidUtf8
    | InvalidBoolean(octet: byte)
    | InvalidProtocol(octet: byte)
    | UnsupportedVersion(found: nat)
    | InvalidPrefix
    | MissingRequiredField(field: Tag)
    | InvalidScheme
    | InvalidBase64

  datatype Config = Config(
    hostname: Text, addresses: seq<Text>, username: Text, password: Text,
    clientRandomPrefix: Option<Text>, customSni: Option<Text>, hasIpv6: bool, skipVerification: bool,
    certificate: Option<seq<byte>>, upstreamProtocol: Protocol, antiDpi: bool, name: Option<Text>,
    dnsUpstreams: seq<Text>)
  {
    /** The first required field that is empty. */
    function Missing(): (t: Option<Tag>) {
      if hostname == [] then Some(HostnameTag)
      else if addresses == [] then Some(AddressTag)
      else if username == [] then Some(UsernameTag)
      else if password == [] then Some(PasswordTag)
      else None
    }

    /** Every text is UTF-8, as the type of the fields guarantees. */
    predicate WellTyped() {
      && IsUtf8(hostname) && IsUtf8(username) && IsUtf8(password)
      && AllUtf8(addresses) && AllUtf8(dnsUpstreams)
      && (clientRandomPrefix.Some? ==> IsUtf8(clientRandomPrefix.value))
      && (customSni.Some? ==> IsUtf8(customSni.value))
      && (name.Some? ==> IsUtf8(name.value))
    }
  }

  /** What is reported as missing: nothing exactly when every required field is there, or else the first. */
  lemma MissingExactly(c: Config)
    ensures c.Missing() == None <==> c.hostname != [] && c.addresses != [] && c.username != [] && c.password != []
    ensures c.Missing() == Some(HostnameTag) <==> c.hostname == []
    ensures c.Missing() == Some(AddressTag) <==> c.hostname != [] && c.addresses == []
    ensures c.Missing() == Some(UsernameTag) <==> c.hostname != [] && c.addresses != [] && c.username == []
  {
  }

  predicate AllUtf8(texts: seq<Text>) {
    forall i :: 0 <= i < |texts| ==> IsUtf8(texts[i])
  }
}
