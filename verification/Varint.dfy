/** Variable-length integers (section 16 of RFC 9000). */
module Varint {
  import opened Wrappers
  import opened Bytes

  const MAX_VARINT := 0x3FFF_FFFF_FFFF_FFFF

  datatype VarintError = Overflow(value: nat) | UnexpectedEof

  /** Octets of the shortest form. */
  function ShortestLength(value: nat): (n: nat)
    ensures n in {1, 2, 4, 8}
  {
    if value <= 0x3F then 1 else if value <= 0x3FFF then 2 else if value <= 0x3FFF_FFFF then 4 else 8
  }

  /** The two highest bits of the first octet tell the length. */
  function LengthMark(n: nat): (m: nat) {
    if n == 1 then 0
    else if n == 2 then 0x4000
    else if n == 4 then 0x8000_0000
    else 0xC000_0000_0000_0000
  }

  function EncodeVarint(value: nat): (r: Result<seq<byte>, VarintError>) {
    if value > MAX_VARINT then Err(Overflow(value))
    else
      var n := ShortestLength(value);
      Ok(ToBE(value + LengthMark(n), n))
  }

  /** The length that a first octet announces. */
  function FormLength(first: byte): (n: nat)
    ensures n in {1, 2, 4, 8}
  {
    if first < 0x40 then 1 else if first < 0x80 then 2 else if first < 0xC0 then 4 else 8
  }

  /** The integer at an offset, without its two length bits, and the offset behind it. */
  function DecodeVarint(data: seq<byte>, offset: nat): (r: Result<(nat, nat), VarintError>)
    ensures r.Ok? ==> offset < r.value.1 <= |data|
  {
    if offset >= |data| then Err(UnexpectedEof)
    else
      var n := FormLength(data[offset]);
      if offset + n > |data| then Err(UnexpectedEof)
      else Ok((BigEndian(data[offset] % 0x40, data, offset + 1, n - 1), offset + n))
  }

  /** `form` is one of the forms of `value`, not only the shortest. */
  predicate IsForm(form: seq<byte>, value: nat) {
    DecodeVarint(form, 0) == Ok((value, |form|))
  }

  /** A form is read wherever it stands. */
  lemma FormAnywhere(before: seq<byte>, form: seq<byte>, after: seq<byte>, value: nat)
    requires IsForm(form, value)
    ensures DecodeVarint(before + form + after, |before|) == Ok((value, |before| + |form|))
  {
    var data := before + form + after;
    var n := |form|;
    assert data[|before|] == form[0] && FormLength(form[0]) == n;
    assert data[|before| + 1..|before| + 1 + (n - 1)] == form[1..1 + (n - 1)];
    SameOctets(form[0] % 0x40, form, 1, data, |before| + 1, n - 1);
  }

  lemma WidthValues()
    ensures Pow256(1) == 0x100 && Pow256(2) == 0x1_0000 && Pow256(3) == 0x100_0000 && Pow256(4) == 0x1_0000_0000
    ensures Pow256(7) == 0x100_0000_0000_0000 && Pow256(8) == 0x1_0000_0000_0000_0000
  {
    Pow256Values();
    assert Pow256(3) == 256 * Pow256(2);
    assert Pow256(8) == 256 * Pow256(7);
  }

  lemma Form1(value: nat, s: seq<byte>)
    requires value <= 0x3F && |s| == 1 && FromBE(s) == value + 0
    ensures IsForm(s, value)
  {
    WidthValues();
    FirstOctet(s);
    BigEndianIs(s[0] % 0x40, s, 1);
  }

  lemma Form2(value: nat, s: seq<byte>)
    requires value <= 0x3FFF && |s| == 2 && FromBE(s) == value + 0x4000
    ensures IsForm(s, value)
  {
    WidthValues();
    FirstOctet(s);
    BigEndianIs(s[0] % 0x40, s, 1);
  }

  lemma Form4(value: nat, s: seq<byte>)
    requires value <= 0x3FFF_FFFF && |s| == 4 && FromBE(s) == value + 0x8000_0000
    ensures IsForm(s, value)
  {
    WidthValues();
    FirstOctet(s);
    BigEndianIs(s[0] % 0x40, s, 1);
  }

  lemma Form8(value: nat, s: seq<byte>)
    requires value <= MAX_VARINT && |s| == 8 && FromBE(s) == value + 0xC000_0000_0000_0000
    ensures IsForm(s, value)
  {
    WidthValues();
    FirstOctet(s);
    BigEndianIs(s[0] % 0x40, s, 1);
  }

  /** Every integer that can be encoded is read back from its encoding. */
  lemma VarintRoundTrip(value: nat)
    requires value <= MAX_VARINT
    ensures EncodeVarint(value).Ok? && IsForm(EncodeVarint(value).value, value)
  {
    var n, s := ShortestLength(value), EncodeVarint(value).value;
    WidthValues();
    FromToBE(value + LengthMark(n), n);
    if n == 1 {
      Form1(value, s);
    } else if n == 2 {
      Form2(value, s);
    } else if n == 4 {
      Form4(value, s);
    } else {
      Form8(value, s);
    }
  }

  /** No form of an integer is shorter than its encoding. */
  lemma EncodingIsShortest(form: seq<byte>, value: nat)
    requires IsForm(form, value)
    ensures EncodeVarint(value).Ok? && |EncodeVarint(value).value| <= |form|
  {
    WidthValues();
    BigEndianIs(form[0] % 0x40, form, 1);
    ToFromBE(form[1..]);
  }

  /** The four forms of an integer: so many octets, the two highest bits for their number, the value below. */
  lemma FormExactly(form: seq<byte>, value: nat)
    ensures IsForm(form, value) <==>
            || (|form| == 1 && value < 0x40 && FromBE(form) == value)
            || (|form| == 2 && value < 0x4000 && FromBE(form) == 0x4000 + value)
            || (|form| == 4 && value < 0x4000_0000 && FromBE(form) == 0x8000_0000 + value)
            || (|form| == 8 && value < 0x4000_0000_0000_0000 && FromBE(form) == 0xC000_0000_0000_0000 + value)
  {
    WidthValues();
    if IsForm(form, value) {
      FormIsMarked(form, value);
    }
    if |form| == 1 && value < 0x40 && FromBE(form) == value {
      Form1(value, form);
    } else if |form| == 2 && value < 0x4000 && FromBE(form) == 0x4000 + value {
      Form2(value, form);
    } else if |form| == 4 && value < 0x4000_0000 && FromBE(form) == 0x8000_0000 + value {
      Form4(value, form);
    } else if |form| == 8 && value < 0x4000_0000_0000_0000 && FromBE(form) == 0xC000_0000_0000_0000 + value {
      Form8(value, form);
    }
  }

  lemma FormIsMarked(form: seq<byte>, value: nat)
    requires IsForm(form, value)
    ensures |form| in {1, 2, 4, 8} && FromBE(form) == LengthMark(|form|) + value
    ensures |form| == 1 ==> value < 0x40
    ensures |form| == 2 ==> value < 0x4000
    ensures |form| == 4 ==> value < 0x4000_0000
    ensures |form| == 8 ==> value < 0x4000_0000_0000_0000
  {
    FirstOctet(form);
    BigEndianIs(form[0] % 0x40, form, 1);
    ToFromBE(form[1..]);
    WidthValues();
    Marked(form[0], FromBE(form[1..]));
  }

  /** The first octet of a form holds the mark and the highest bits of the value. */
  lemma Marked(first: byte, rest: nat)
    requires rest < Pow256(FormLength(first) - 1)
    ensures var n := FormLength(first);
            var value := first % 0x40 * Pow256(n - 1) + rest;
            && first * Pow256(n - 1) + rest == LengthMark(n) + value
            && (n == 1 ==> value < 0x40) && (n == 2 ==> value < 0x4000)
            && (n == 4 ==> value < 0x4000_0000) && (n == 8 ==> value < 0x4000_0000_0000_0000)
  {
    WidthValues();
  }
}
