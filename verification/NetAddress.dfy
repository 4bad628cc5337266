/** Fixed-size (16 octet) IP addresses of the datagram framings. */
module NetAddress {
  import opened Bytes

  const IPV4_PADDING := 12

  /** `V4` holds 4 octets, `V6` holds 16. */
  datatype IpAddr = V4(octets: seq<byte>) | V6(octets: seq<byte>) {
    predicate WellFormed() {
      |octets| == if V4? then 4 else 16
    }
  }

  datatype SocketAddr = SocketAddr(ip: IpAddr, port: nat) {
    predicate WellFormed() {
      ip.WellFormed() && port < 0x1_0000
    }
  }

  predicate AllZero(s: seq<byte>) {
    forall i :: 0 <= i < |s| ==> s[i] == 0
  }

  function GetFixedSizeIp(s: seq<byte>): (ip: IpAddr)
    requires |s| == 16
    ensures ip.WellFormed()
  {
    if AllZero(s[..IPV4_PADDING]) then V4(s[IPV4_PADDING..]) else V6(s)
  }

  function PutFixedSizeIp(ip: IpAddr): (s: seq<byte>)
    requires ip.WellFormed()
    ensures |s| == 16
  {
    match ip
    case V4(o) => seq(IPV4_PADDING, _ => 0) + o
    case V6(o) => o
  }

  /** What a peer's address becomes on the wire: `::a.b.c.d` is read back as `a.b.c.d`. */
  function Canonical(ip: IpAddr): (c: IpAddr)
    requires ip.WellFormed()
  {
    if ip.V6? && AllZero(ip.octets[..IPV4_PADDING]) then V4(ip.octets[IPV4_PADDING..]) else ip
  }

  lemma GetPutFixedSizeIp(ip: IpAddr)
    requires ip.WellFormed()
    ensures GetFixedSizeIp(PutFixedSizeIp(ip)) == Canonical(ip)
    ensures PutFixedSizeIp(Canonical(ip)) == PutFixedSizeIp(ip)
  {
    var s := PutFixedSizeIp(ip);
    match ip {
      case V4(o) =>
        assert s[IPV4_PADDING..] == o;
        assert forall i :: 0 <= i < IPV4_PADDING ==> s[..IPV4_PADDING][i] == 0;
      case V6(o) =>
        if AllZero(o[..IPV4_PADDING]) {
          assert o[..IPV4_PADDING] == seq(IPV4_PADDING, _ => 0);
          assert o == o[..IPV4_PADDING] + o[IPV4_PADDING..];
        }
    }
  }

  lemma PutGetFixedSizeIp(s: seq<byte>)
    requires |s| == 16
    ensures PutFixedSizeIp(GetFixedSizeIp(s)) == s
  {
    GetPutFixedSizeIp(V6(s));
  }
}
