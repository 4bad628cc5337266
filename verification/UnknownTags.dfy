/** Which entries of a deep link a reader ignores: forward compatibility, and where it ends. */
module UnknownTags {
  import opened Wrappers
  import opened Bytes
  import opened Utf8
  import opened Varint
  import opened DeepLinkTypes
  import opened TlvPayload

  /** The low octet is no tag, or it is that of the version and the value starts with a version that is supported. */
  predicate Ignorable(x: Tlv) {
    || x.tag % 256 > 0x0D
    || (x.tag % 256 == 0 && DecodeVarint(x.value, 0).Ok? && DecodeVarint(x.value, 0).value.0 <= CURRENT_VERSION)
  }

  /** The entry can be put anywhere in a payload, and out again, without a difference. */
  ghost predicate Ignored(x: Tlv) {
    forall a, b :: AllWellFormed(a + b) ==> Decoded(Payload(a + [x] + b)) == Decoded(Payload(a + b))
  }

  lemma EffectOfIgnorable(x: Tlv)
    ensures Effect(x) == Ok(Nothing) <==> Ignorable(x)
  {
    TagCodes(x.tag % 256);
    if TagOf(x.tag % 256).Some? && Effect(x).Ok? {
      KindOfUpdate(TagOf(x.tag % 256).value, x.value);
    }
  }

  lemma IgnorableIsIgnored(x: Tlv, a: seq<Tlv>, b: seq<Tlv>)
    requires WellFormed(x) && Ignorable(x) && AllWellFormed(a + b)
    ensures Decoded(Payload(a + [x] + b)) == Decoded(Payload(a + b))
  {
    EffectOfIgnorable(x);
    Inserted(a, x, b);
    FoldAppend(DEFAULTS, a + [x], b);
    FoldAppend(DEFAULTS, a, [x]);
    FoldAppend(DEFAULTS, a, b);
    assert forall q :: Fold(q, [x]) == Ok(q);
    DecodedIsFold(a + [x] + b);
    DecodedIsFold(a + b);
  }

  lemma Inserted(a: seq<Tlv>, x: Tlv, b: seq<Tlv>)
    requires WellFormed(x) && AllWellFormed(a + b)
    ensures AllWellFormed(a + [x] + b)
  {
    forall i | 0 <= i < |a + [x] + b| ensures WellFormed((a + [x] + b)[i]) {
      if i != |a| {
        assert (a + [x] + b)[i] == (a + b)[if i < |a| then i else i - 1];
      }
    }
  }

  // ---------- A payload that tells ----------

  /** A short entry in its shortest form. */
  function Short(tag: byte, value: seq<byte>): (t: Tlv)
    requires tag < 0x40 && |value| < 0x40
  {
    Tlv([tag], tag, [|value|], value)
  }

  lemma ShortIsWellFormed(tag: byte, value: seq<byte>)
    requires tag < 0x40 && |value| < 0x40
    ensures WellFormed(Short(tag, value))
  {
  }

  /** A text other than the one given. */
  function Other(text: Text): (t: Text)
    ensures t != text && |t| == 1 && IsUtf8(t)
  {
    var a: Text := [0x61];
    var b: Text := [0x62];
    AsciiIsUtf8(a);
    AsciiIsUtf8(b);
    if text == a then assert a[0] != b[0]; b else a
  }

  /** The required fields, and one more entry. */
  function Base(hostname: Text, username: Text, password: Text, extra: seq<Tlv>): (ts: seq<Tlv>)
    requires |hostname| < 0x40 && |username| < 0x40 && |password| < 0x40
  {
    [Short(1, hostname), Short(2, hostname), Short(5, username), Short(6, password)] + extra
  }

  function Filled(hostname: Text, username: Text, password: Text): (p: Partial) {
    DEFAULTS.(hostname := Some(hostname), addresses := [hostname], username := Some(username), password := Some(password))
  }

  predicate Plain(text: Text) {
    |text| == 1 && IsUtf8(text)
  }

  lemma {:induction false} FoldShort(p: Partial, code: byte, tag: Tag, value: seq<byte>)
    requires code < 0x40 && |value| < 0x40 && TagOf(code) == Some(tag)
    ensures Fold(p, [Short(code, value)]) == match Parsed(tag, value) case Err(e) => Err(e) case Ok(u) => Ok(Put(p, u))
  {
    assert [Short(code, value)][1..] == [];
  }

  lemma FoldNext(p: Partial, ts: seq<Tlv>, q: Partial, more: seq<Tlv>)
    requires Fold(p, ts) == Ok(q)
    ensures Fold(p, ts + more) == Fold(q, more)
  {
    FoldAppend(p, ts, more);
  }

  lemma BaseFolds(h: Text, u: Text, w: Text, extra: seq<Tlv>)
    requires Plain(h) && Plain(u) && Plain(w)
    ensures Fold(DEFAULTS, Base(h, u, w, extra)) == Fold(Filled(h, u, w), extra)
  {
    var p1 := DEFAULTS.(hostname := Some(h));
    var p2 := p1.(addresses := [h]);
    var p3 := p2.(username := Some(u));
    var t1, t2, t3, t4 := [Short(1, h)], [Short(2, h)], [Short(5, u)], [Short(6, w)];
    FoldShort(DEFAULTS, 1, HostnameTag, h);
    FoldShort(p1, 2, AddressTag, h);
    FoldShort(p2, 5, UsernameTag, u);
    FoldShort(p3, 6, PasswordTag, w);
    assert p1.addresses + [h] == [h];
    FoldNext(DEFAULTS, t1, p1, t2);
    FoldNext(DEFAULTS, t1 + t2, p2, t3);
    FoldNext(DEFAULTS, t1 + t2 + t3, p3, t4);
    FoldNext(DEFAULTS, t1 + t2 + t3 + t4, Filled(h, u, w), extra);
    assert Base(h, u, w, extra) == t1 + t2 + t3 + t4 + extra;
  }

  lemma BaseIsWellFormed(h: Text, u: Text, w: Text, extra: seq<Tlv>)
    requires Plain(h) && Plain(u) && Plain(w) && AllWellFormed(extra)
    ensures AllWellFormed(Base(h, u, w, extra))
  {
    ShortIsWellFormed(1, h);
    ShortIsWellFormed(2, h);
    ShortIsWellFormed(5, u);
    ShortIsWellFormed(6, w);
  }

  /** A value that sets the field of `u` to something else than `u` does, where the default might not differ. */
  function ContraryValue(u: Update): (v: Option<seq<byte>>)
    ensures v.Some? ==> |v.value| <= 2
  {
    match u
    case HasIpv6(flag) => Some([if flag then 0 else 1])
    case SkipVerification(flag) => Some([if flag then 0 else 1])
    case AntiDpi(flag) => Some([if flag then 0 else 1])
    case UpstreamProtocol(protocol) => Some([if protocol == Http2 then 2 else 1])
    case DnsUpstreams(texts) => if texts == [] then Some([1, 0x61]) else None
    case _ => None
  }

  function Contrary(u: Update): (ts: seq<Tlv>) {
    if ContraryValue(u).Some? then [Short(Code(Kind(u)), ContraryValue(u).value)] else []
  }

  function Unlike(p: Partial, u: Update): (q: Partial) {
    match u
    case HasIpv6(flag) => p.(hasIpv6 := !flag)
    case SkipVerification(flag) => p.(skipVerification := !flag)
    case AntiDpi(flag) => p.(antiDpi := !flag)
    case UpstreamProtocol(protocol) => p.(upstreamProtocol := if protocol == Http2 then Http3 else Http2)
    case DnsUpstreams(texts) => if texts == [] then p.(dnsUpstreams := [[0x61]]) else p
    case _ => p
  }

  lemma OneText(value: seq<byte>)
    requires value == [1, 0x61]
    ensures TextsFrom(value, 0, []) == Ok([[0x61]])
  {
    var a: Text := [0x61];
    AsciiIsUtf8(a);
    assert DecodeVarint(value, 0) == Ok((1, 1)) && value[1..2] == a;
    assert TextAt(value, 0) == Ok((a, 2));
    var none: seq<Text> := [];
    assert none + [a] == [a];
    assert TextsFrom(value, 0, none) == TextsFrom(value, 2, none + [a]);
  }

  lemma ContraryParsed(p: Partial, u: Update)
    requires ContraryValue(u).Some?
    ensures var r := Parsed(Kind(u), ContraryValue(u).value); r.Ok? && Put(p, r.value) == Unlike(p, u)
  {
    if u.DnsUpstreams? {
      OneText(ContraryValue(u).value);
    }
  }

  lemma ContraryFolds(p: Partial, u: Update)
    ensures Fold(p, Contrary(u)) == Ok(Unlike(p, u)) && AllWellFormed(Contrary(u))
  {
    if ContraryValue(u).Some? {
      CodeTags(Kind(u));
      ContraryParsed(p, u);
      FoldShort(p, Code(Kind(u)), Kind(u), ContraryValue(u).value);
      ShortIsWellFormed(Code(Kind(u)), ContraryValue(u).value);
    }
  }

  /** The payload behind which the update `u` makes a difference, and what it is read as. */
  function Telling(u: Update): (ts: seq<Tlv>) {
    Base(if u.Hostname? then Other(u.text) else Other([]), if u.Username? then Other(u.text) else Other([]),
         if u.Password? then Other(u.text) else Other([]), Contrary(u))
  }

  function Told(u: Update): (p: Partial) {
    Unlike(Filled(if u.Hostname? then Other(u.text) else Other([]), if u.Username? then Other(u.text) else Other([]),
                  if u.Password? then Other(u.text) else Other([])), u)
  }

  lemma TellingFolds(u: Update)
    ensures Fold(DEFAULTS, Telling(u)) == Ok(Told(u)) && AllWellFormed(Telling(u))
    ensures Built(Told(u)).Ok?
  {
    var h := if u.Hostname? then Other(u.text) else Other([]);
    var n := if u.Username? then Other(u.text) else Other([]);
    var w := if u.Password? then Other(u.text) else Other([]);
    BaseFolds(h, n, w, Contrary(u));
    ContraryFolds(Filled(h, n, w), u);
    BaseIsWellFormed(h, n, w, Contrary(u));
  }

  lemma PutTells(u: Update)
    requires u != Nothing
    ensures Put(Told(u), u) != Told(u)
  {
    var p := Told(u);
    if u.Address? {
      assert |Put(p, u).addresses| == |p.addresses| + 1;
    } else if u.DnsUpstreams? && u.texts == [] {
      assert |p.dnsUpstreams| == 1;
    }
  }

  /** A configuration shows every field it was built from. */
  lemma BuiltShows(p: Partial, q: Partial)
    requires Built(p).Ok? && Built(p) == Built(q)
    ensures p == q
  {
  }

  lemma {:induction false} DecodedBehind(ts: seq<Tlv>, x: Tlv, p: Partial)
    requires AllWellFormed(ts) && WellFormed(x) && Fold(DEFAULTS, ts) == Ok(p)
    ensures Decoded(Payload(ts)) == Built(p)
    ensures Decoded(Payload(ts + [x] + [])) == match Effect(x) case Err(e) => Err(e) case Ok(u) => Built(Put(p, u))
  {
    assert ts + [] == ts && ts + [x] + [] == ts + [x];
    Inserted(ts, x, []);
    DecodedIsFold(ts);
    DecodedIsFold(ts + [x]);
    FoldNext(DEFAULTS, ts, p, [x]);
    assert [x][1..] == [];
  }

  lemma OthersAreNotIgnored(x: Tlv)
    requires WellFormed(x) && !Ignorable(x)
    ensures !Ignored(x)
  {
    EffectOfIgnorable(x);
    var u := if Effect(x).Ok? then Effect(x).value else Nothing;
    var ts := Telling(u);
    TellingFolds(u);
    DecodedBehind(ts, x, Told(u));
    if Effect(x).Ok? {
      PutTells(u);
      if Built(Put(Told(u), u)) == Built(Told(u)) {
        BuiltShows(Told(u), Put(Told(u), u));
      }
    }
    assert ts + [] == ts;
    assert Decoded(Payload(ts + [x] + [])) != Decoded(Payload(ts + []));
  }

  /**
    * An entry is ignored wherever it stands exactly when its low octet is no tag, or is the version's
    * with a supported version in it.
    */
  lemma IgnoredExactly(x: Tlv)
    requires WellFormed(x)
    ensures Ignored(x) <==> Ignorable(x)
  {
    if Ignorable(x) {
      forall a, b | AllWellFormed(a + b) ensures Decoded(Payload(a + [x] + b)) == Decoded(Payload(a + b)) {
        IgnorableIsIgnored(x, a, b);
      }
    } else {
      OthersAreNotIgnored(x);
    }
  }

  /** The failing case: the tag 0x100 is none that is known, and yet no payload with this entry is read. */
  lemma Tag256IsTakenForVersion(x: Tlv, a: seq<Tlv>, b: seq<Tlv>)
    requires WellFormed(x) && x.tag == 0x100 && x.value == [2] && AllWellFormed(a + b)
    ensures Effect(x) == Err(UnsupportedVersion(2)) && Decoded(Payload(a + [x] + b)).Err?
    ensures Decoded(Payload(Telling(Nothing))).Ok? && Decoded(Payload(Telling(Nothing) + [x] + [])).Err?
  {
    assert x.tag % 256 == 0;
    assert DecodeVarint(x.value, 0) == Ok((2, 1));
    Inserted(a, x, b);
    FoldAppend(DEFAULTS, a + [x], b);
    FoldAppend(DEFAULTS, a, [x]);
    DecodedIsFold(a + [x] + b);
    TellingFolds(Nothing);
    DecodedBehind(Telling(Nothing), x, Told(Nothing));
  }
}
