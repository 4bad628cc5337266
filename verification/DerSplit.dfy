/** Splitting concatenated DER certificates (lengths after section 8.1.3 of X.690). */
module DerSplit {
  import opened Wrappers
  import opened Bytes

  const WORD := 0x1_0000_0000_0000_0000
  const SEQUENCE: byte := 0x30

  datatype DerError =
    | EndOfData
    | InvalidLengthEncoding
    | NotASequence(offset: nat, octet: byte)
    | LengthOverflow
    | Truncated

  // ---------- Lengths ----------

  /** A 64-bit word shifted left by one octet, with `b` in the low octet. */
  function ShiftIn(word: nat, b: byte): (w: nat) {
    word * 256 % WORD + b
  }

  /** The next `n` octets shifted into a word. */
  function ShiftAll(word: nat, data: seq<byte>, from: nat, n: nat): (w: nat)
    requires from + n <= |data|
    decreases n
  {
    if n == 0 then word else ShiftAll(ShiftIn(word, data[from]), data, from + 1, n - 1)
  }

  /** A length and the offset behind it. */
  function LengthAt(data: seq<byte>, offset: nat): (r: Result<(nat, nat), DerError>)
    ensures r.Ok? ==> offset < r.value.1 <= |data|
  {
    if offset >= |data| then Err(EndOfData)
    else if data[offset] < 0x80 then Ok((data[offset], offset + 1))
    else
      var n := data[offset] - 0x80;
      if n == 0 || offset + 1 + n > |data| then Err(InvalidLengthEncoding)
      else Ok((ShiftAll(0, data, offset + 1, n), offset + 1 + n))
  }

  method ReadAsn1Length(data: seq<byte>, offset: nat) returns (r: Result<(nat, nat), DerError>)
    ensures r == LengthAt(data, offset)
  {
    if offset >= |data| {
      return Err(EndOfData);
    }
    var first := data[offset];
    if first < 0x80 {
      return Ok((first, offset + 1));
    }
    var count: nat := first - 0x80;
    if count == 0 || offset + 1 + count > |data| {
      return Err(InvalidLengthEncoding);
    }
    var length: nat := 0;
    for i := 0 to count
      invariant ShiftAll(0, data, offset + 1, count) == ShiftAll(length, data, offset + 1 + i, count - i)
    {
      length := ShiftIn(length, data[offset + 1 + i]);
    }
    return Ok((length, offset + 1 + count));
  }

  lemma ModUnique(value: nat, quotient: nat, rest: nat)
    requires value == quotient * WORD + rest && rest < WORD
    ensures value % WORD == rest
  {
  }

  lemma LowOctetFree(word: nat)
    ensures word * 256 % WORD <= WORD - 256
  {
    assert word * 256 % WORD % 256 == 0;
  }

  lemma OneShift(value: nat, b: byte)
    ensures ShiftIn(value % WORD, b) == (value * 256 + b) % WORD
  {
    var high, low := value / WORD, value % WORD;
    var top, rest := low * 256 / WORD, low * 256 % WORD;
    LowOctetFree(low);
    ModUnique(value * 256 + b, high * 256 + top, rest + b);
  }

  /** Shifting octets in keeps their value modulo the word size. */
  lemma {:induction false} ShiftIsModular(value: nat, data: seq<byte>, from: nat, n: nat)
    requires from + n <= |data|
    ensures ShiftAll(value % WORD, data, from, n) == BigEndian(value, data, from, n) % WORD
    decreases n
  {
    if n > 0 {
      OneShift(value, data[from]);
      ShiftIsModular(value * 256 + data[from], data, from + 1, n - 1);
    }
  }

  /** A header for a definite length: the short form, or the long form with its number of octets. */
  predicate IsHeader(header: seq<byte>, length: nat) {
    if |header| == 1 then length < 0x80 && header[0] == length
    else
      && 2 <= |header| <= 128 && header[0] == 0x80 + (|header| - 1)
      && FromBE(header[1..]) == length
  }

  /** What is read at a header, wherever it stands: its length, modulo the word size. */
  lemma HeaderRead(before: seq<byte>, header: seq<byte>, after: seq<byte>, length: nat)
    requires IsHeader(header, length)
    ensures LengthAt(before + header + after, |before|) == Ok((length % WORD, |before| + |header|))
  {
    var data, n := before + header + after, |header| - 1;
    assert data[|before|] == header[0];
    if n > 0 {
      var start := |before| + 1;
      assert data[start..start + n] == header[1..1 + n];
      SameOctets(0, header, 1, data, start, n);
      BigEndianIs(0, header, 1);
      var zero := 0;
      ShiftIsModular(zero, data, start, n);
    }
  }

  /** The octets between two offsets are such a header. */
  predicate HeaderAt(data: seq<byte>, offset: nat, next: nat, length: nat) {
    offset < next <= |data| && IsHeader(data[offset..next], length)
  }

  /** A length is read exactly where a header stands: an indefinite length (0x80) is not one. */
  lemma LengthExactly(data: seq<byte>, offset: nat, length: nat, next: nat)
    ensures LengthAt(data, offset) == Ok((length, next)) <==>
            exists total: nat :: HeaderAt(data, offset, next, total) && length == total % WORD
  {
    if LengthAt(data, offset) == Ok((length, next)) {
      var header := data[offset..next];
      var total: nat := if |header| == 1 then header[0] as int else FromBE(header[1..]);
      assert HeaderAt(data, offset, next, total);
      HeaderStands(data, offset, next, total);
    } else if total: nat :| HeaderAt(data, offset, next, total) && length == total % WORD {
      HeaderStands(data, offset, next, total);
    }
  }

  lemma HeaderStands(data: seq<byte>, offset: nat, next: nat, total: nat)
    requires HeaderAt(data, offset, next, total)
    ensures LengthAt(data, offset) == Ok((total % WORD, next))
  {
    HeaderRead(data[..offset], data[offset..next], data[next..], total);
    assert data == data[..offset] + data[offset..next] + data[next..];
  }

  /** Up to eight length octets, every length is read as it is. */
  lemma EightOctetsFit(header: seq<byte>, length: nat)
    requires IsHeader(header, length) && |header| <= 9
    ensures length < WORD
  {
    if |header| > 1 {
      ToFromBE(header[1..]);
      Pow256Values();
      Pow256Grows(|header| - 1, 8);
    }
  }

  lemma {:induction false} Pow256Grows(a: nat, b: nat)
    requires a <= b
    ensures Pow256(a) <= Pow256(b)
    decreases b
  {
    if a < b {
      Pow256Grows(a, b - 1);
    }
  }

  // ---------- Splitting ----------

  /** The end of the certificate at an offset. */
  function EndAt(data: seq<byte>, offset: nat): (r: Result<nat, DerError>)
    requires offset < |data|
    ensures r.Ok? ==> offset + 2 <= r.value <= |data| && data[offset] == SEQUENCE
  {
    if data[offset] != SEQUENCE then Err(NotASequence(offset, data[offset]))
    else
      match LengthAt(data, offset + 1)
      case Err(e) => Err(e)
      case Ok((length, body)) =>
        if body + length >= WORD then Err(LengthOverflow)
        else if body + length > |data| then Err(Truncated)
        else Ok(body + length)
  }

  /** A SEQUENCE whose header ends at `next` and tells a length of `total` octets. */
  predicate SequenceAt(data: seq<byte>, offset: nat, next: nat, total: nat)
    requires offset < |data|
  {
    data[offset] == 0x30 && HeaderAt(data, offset + 1, next, total)
  }

  /** A certificate ends exactly where its header says, within the data. */
  lemma EndExactly(data: seq<byte>, offset: nat, end: nat)
    requires offset < |data|
    ensures EndAt(data, offset) == Ok(end) <==>
            && end <= |data| && end < WORD
            && exists next: nat, total: nat :: SequenceAt(data, offset, next, total) && end == next + total % WORD
  {
    if EndAt(data, offset) == Ok(end) {
      var (length, next) := LengthAt(data, offset + 1).value;
      LengthExactly(data, offset + 1, length, next);
      var total: nat :| HeaderAt(data, offset + 1, next, total) && length == total % WORD;
      assert SequenceAt(data, offset, next, total);
    } else if next: nat, total: nat :| SequenceAt(data, offset, next, total) && end == next + total % WORD {
      HeaderStands(data, offset + 1, next, total);
    }
  }

  /** The certificates from an offset on, behind those found before. */
  function CertsFrom(data: seq<byte>, offset: nat, done: seq<seq<byte>>): (r: Result<seq<seq<byte>>, DerError>)
    requires offset <= |data|
    decreases |data| - offset
  {
    if offset == |data| then Ok(done)
    else
      match EndAt(data, offset)
      case Err(e) => Err(e)
      case Ok(end) => CertsFrom(data, end, done + [data[offset..end]])
  }

  method SplitDerCerts(data: seq<byte>) returns (r: Result<seq<seq<byte>>, DerError>)
    ensures r == CertsFrom(data, 0, [])
  {
    var certs: seq<seq<byte>> := [];
    var offset := 0;
    while offset < |data|
      invariant offset <= |data|
      invariant CertsFrom(data, 0, []) == CertsFrom(data, offset, certs)
    {
      if data[offset] != SEQUENCE {
        return Err(NotASequence(offset, data[offset]));
      }
      var length := ReadAsn1Length(data, offset + 1);
      if length.Err? {
        return Err(length.error);
      }
      var (bodyLength, headerEnd) := length.value;
      if headerEnd + bodyLength >= WORD {
        return Err(LengthOverflow);
      }
      var end := headerEnd + bodyLength;
      if end > |data| {
        return Err(Truncated);
      }
      certs := certs + [data[offset..end]];
      offset := end;
    }
    return Ok(certs);
  }

  /** A list of octet strings that are not empty and start as a SEQUENCE. */
  predicate AllSequences(certs: seq<seq<byte>>) {
    forall i :: 0 <= i < |certs| ==> |certs[i]| >= 2 && certs[i][0] == 0x30
  }

  /** What is split off concatenates back to the input, in non-empty parts. */
  lemma {:induction false} SplitConcatenates(data: seq<byte>, offset: nat, done: seq<seq<byte>>)
    requires offset <= |data| && Flatten(done) == data[..offset] && AllSequences(done)
    requires CertsFrom(data, offset, done).Ok?
    ensures Flatten(CertsFrom(data, offset, done).value) == data && AllSequences(CertsFrom(data, offset, done).value)
    decreases |data| - offset
  {
    if offset == |data| {
      assert data[..offset] == data;
    } else {
      var end := EndAt(data, offset).value;
      var cert := data[offset..end];
      FlattenAppend(done, [cert]);
      assert Flatten([cert]) == cert + Flatten([cert][1..]) == cert;
      assert data[..offset] + cert == data[..end];
      SplitConcatenates(data, end, done + [cert]);
    }
  }

  /** A certificate: a SEQUENCE with the header of its body's length. */
  datatype Blob = Blob(header: seq<byte>, body: seq<byte>)

  predicate WellFormed(b: Blob) {
    IsHeader(b.header, |b.body|) && |b.header| <= 9
  }

  function Octets(b: Blob): (s: seq<byte>) {
    [0x30] + b.header + b.body
  }

  function AllOctets(bs: seq<Blob>): (certs: seq<seq<byte>>)
    ensures |certs| == |bs| && forall i :: 0 <= i < |bs| ==> certs[i] == Octets(bs[i])
  {
    seq(|bs|, i requires 0 <= i < |bs| => Octets(bs[i]))
  }

  lemma BlobEnd(before: seq<byte>, b: Blob, after: seq<byte>, data: seq<byte>)
    requires WellFormed(b) && data == before + Octets(b) + after && |data| < WORD
    ensures |before| < |data| && EndAt(data, |before|) == Ok(|before| + |Octets(b)|)
    ensures data[|before|..|before| + |Octets(b)|] == Octets(b)
  {
    assert data == (before + [SEQUENCE]) + b.header + (b.body + after);
    HeaderRead(before + [SEQUENCE], b.header, b.body + after, |b.body|);
    EightOctetsFit(b.header, |b.body|);
    assert data[|before|] == SEQUENCE;
  }

  /** Splitting the concatenation of certificates gives those certificates back. */
  lemma {:induction false} SplitInverts(before: seq<byte>, bs: seq<Blob>, data: seq<byte>, done: seq<seq<byte>>)
    requires (forall i :: 0 <= i < |bs| ==> WellFormed(bs[i])) && |data| < WORD
    requires data == before + Flatten(AllOctets(bs))
    ensures CertsFrom(data, |before|, done) == Ok(done + AllOctets(bs))
    decreases bs
  {
    if bs == [] {
      assert done + AllOctets(bs) == done;
    } else {
      var b, rest := bs[0], bs[1..];
      assert AllOctets(bs)[1..] == AllOctets(rest);
      var after := Flatten(AllOctets(rest));
      assert data == before + Octets(b) + after;
      BlobEnd(before, b, after, data);
      SplitInverts(before + Octets(b), rest, data, done + [Octets(b)]);
      assert done + [Octets(b)] + AllOctets(rest) == done + AllOctets(bs);
    }
  }

  /** From the start: a split list is the input in parts, and the parts of a concatenation are found. */
  lemma SplitBothWays(data: seq<byte>, bs: seq<Blob>)
    ensures CertsFrom(data, 0, []).Ok? ==>
      Flatten(CertsFrom(data, 0, []).value) == data && AllSequences(CertsFrom(data, 0, []).value)
    ensures (forall i :: 0 <= i < |bs| ==> WellFormed(bs[i])) && data == Flatten(AllOctets(bs)) && |data| < WORD ==>
      CertsFrom(data, 0, []) == Ok(AllOctets(bs))
  {
    var none: seq<seq<byte>> := [];
    if CertsFrom(data, 0, none).Ok? {
      SplitConcatenates(data, 0, none);
    }
    if (forall i :: 0 <= i < |bs| ==> WellFormed(bs[i])) && data == Flatten(AllOctets(bs)) && |data| < WORD {
      assert [] + data == data && none + AllOctets(bs) == AllOctets(bs);
      SplitInverts([], bs, data, none);
    }
  }

  /** A ninth length octet is shifted out: a SEQUENCE of 2^64 octets is taken for an empty one. */
  lemma NinthOctetIsLost(header: seq<byte>)
    requires header == [0x89, 1, 0, 0, 0, 0, 0, 0, 0, 0]
    ensures LengthAt(header, 0) == Ok((0, 10)) && FromBE(header[1..]) == WORD
  {
    var tail := header[1..];
    FirstOctet(tail);
    Zeros(tail[1..]);
    Pow256Values();
    assert IsHeader(header, WORD);
    HeaderRead([], header, [], WORD);
    assert [] + header + [] == header;
  }

  lemma {:induction false} Zeros(s: seq<byte>)
    requires forall i :: 0 <= i < |s| ==> s[i] == 0
    ensures FromBE(s) == 0
  {
    if s != [] {
      Zeros(s[..|s| - 1]);
    }
  }
}
