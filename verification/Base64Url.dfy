/** base64url without padding (section 5 of RFC 4648), decoded strictly. */
module Base64Url {
  import opened Wrappers
  import opened Bytes

  type sextet = x: int | 0 <= x < 64

  /** The character for a 6-bit value. */
  function Symbol(v: sextet): (c: byte) {
    if v < 26 then 0x41 + v
    else if v < 52 then 0x61 + (v - 26)
    else if v < 62 then 0x30 + (v - 52)
    else if v == 62 then 0x2D
    else 0x5F
  }

  function Value(c: byte): (r: Option<sextet>)
    ensures r.Some? ==> Symbol(r.value) == c
  {
    if 0x41 <= c <= 0x5A then Some(c - 0x41)
    else if 0x61 <= c <= 0x7A then Some(c - 0x61 + 26)
    else if 0x30 <= c <= 0x39 then Some(c - 0x30 + 52)
    else if c == 0x2D then Some(62)
    else if c == 0x5F then Some(63)
    else None
  }

  function Symbols(v: seq<sextet>): (text: seq<byte>)
    ensures |text| == |v|
  {
    if v == [] then [] else [Symbol(v[0])] + Symbols(v[1..])
  }

  /** The values of a text, if every character is from the alphabet: padding is not. */
  function Values(text: seq<byte>): (r: Option<seq<sextet>>)
    ensures r.Some? ==> |r.value| == |text|
  {
    if text == [] then Some([])
    else
      match (Value(text[0]), Values(text[1..]))
      case (Some(v), Some(rest)) => Some([v] + rest)
      case _ => None
  }

  /** Octets as sextets; spare bits are zero. */
  function Split(bytes: seq<byte>): (v: seq<sextet>) {
    if bytes == [] then []
    else if |bytes| == 1 then [High(bytes[0]), Upper(bytes[0], 0)]
    else if |bytes| == 2 then [High(bytes[0]), Upper(bytes[0], bytes[1]), Lower(bytes[1], 0)]
    else
      [High(bytes[0]), Upper(bytes[0], bytes[1]), Lower(bytes[1], bytes[2]), Low(bytes[2])] + Split(bytes[3..])
  }

  function High(x: nat): (v: sextet)
    requires x < 256
  {
    x / 4
  }

  function Upper(x: nat, y: nat): (v: sextet)
    requires x < 256 && y < 256
  {
    x % 4 * 16 + y / 16
  }

  function Lower(y: nat, z: nat): (v: sextet)
    requires y < 256 && z < 256
  {
    y % 16 * 4 + z / 64
  }

  function Low(z: nat): (v: sextet) {
    z % 64
  }

  /** Sextets as octets: no single one may be left over, and spare bits must be zero. */
  function Join(v: seq<sextet>): (r: Option<seq<byte>>) {
    if v == [] then Some([])
    else if |v| == 1 then None
    else if |v| == 2 then if v[1] % 16 == 0 then Some([First(v[0], v[1])]) else None
    else if |v| == 3 then if v[2] % 4 == 0 then Some([First(v[0], v[1]), Second(v[1], v[2])]) else None
    else
      match Join(v[4..])
      case None => None
      case Some(rest) => Some([First(v[0], v[1]), Second(v[1], v[2]), Third(v[2], v[3])] + rest)
  }

  function First(a: nat, b: nat): (x: byte)
    requires a < 64 && b < 64
  {
    a * 4 + b / 16
  }

  function Second(b: nat, c: nat): (y: byte)
    requires b < 64 && c < 64
  {
    b % 16 * 16 + c / 4
  }

  function Third(c: nat, d: nat): (z: byte)
    requires c < 64 && d < 64
  {
    c % 4 * 64 + d
  }

  // ---------- The alphabet and the bits ----------

  /** The alphabet in order. */
  lemma SymbolIsPlace(v: sextet)
    ensures Symbol(v) ==
            (if v < 26 then "ABCDEFGHIJKLMNOPQRSTUVWXYZ"[v]
             else if v < 52 then "abcdefghijklmnopqrstuvwxyz"[v - 26]
             else "0123456789-_"[v - 52]) as int
  {
  }

  /** The value of four sextets, the most significant first. */
  function SextetBits(a: nat, b: nat, c: nat, d: nat): (n: nat) {
    ((a * 64 + b) * 64 + c) * 64 + d
  }

  /** The value of three octets, the most significant first. */
  function OctetBits(x: nat, y: nat, z: nat): (n: nat) {
    (x * 256 + y) * 256 + z
  }

  /** Groups of sextets and octets are the same bits; what is missing of the last group is zero. */
  lemma SplitIsPositional(bytes: seq<byte>)
    ensures |bytes| == 1 ==>
              var v := Split(bytes); |v| == 2 && SextetBits(v[0], v[1], 0, 0) == OctetBits(bytes[0], 0, 0)
    ensures |bytes| == 2 ==>
              var v := Split(bytes); |v| == 3 && SextetBits(v[0], v[1], v[2], 0) == OctetBits(bytes[0], bytes[1], 0)
    ensures |bytes| >= 3 ==>
              var v := Split(bytes);
              && |v| >= 4 && v[4..] == Split(bytes[3..])
              && SextetBits(v[0], v[1], v[2], v[3]) == OctetBits(bytes[0], bytes[1], bytes[2])
  {
    if |bytes| >= 3 {
      var v := Split(bytes);
      assert v[4..] == Split(bytes[3..]);
      GroupBits(bytes[0], bytes[1], bytes[2]);
    } else if |bytes| == 2 {
      GroupBits(bytes[0], bytes[1], 0);
    } else if |bytes| == 1 {
      GroupBits(bytes[0], 0, 0);
    }
  }

  lemma GroupBits(x: nat, y: nat, z: nat)
    requires x < 256 && y < 256 && z < 256
    ensures SextetBits(High(x), Upper(x, y), Lower(y, z), Low(z)) == OctetBits(x, y, z)
  {
  }

  function Encode(bytes: seq<byte>): (text: seq<byte>) {
    Symbols(Split(bytes))
  }

  function Decode(text: seq<byte>): (r: Option<seq<byte>>) {
    match Values(text)
    case None => None
    case Some(v) => Join(v)
  }

  lemma {:induction false} ValuesOfSymbols(v: seq<sextet>)
    ensures Values(Symbols(v)) == Some(v)
  {
    if v != [] {
      ValuesOfSymbols(v[1..]);
      assert Value(Symbol(v[0])) == Some(v[0]);
      assert Symbols(v)[1..] == Symbols(v[1..]);
      assert v == [v[0]] + v[1..];
    }
  }

  lemma {:induction false} SymbolsOfValues(text: seq<byte>)
    requires Values(text).Some?
    ensures Symbols(Values(text).value) == text
  {
    if text != [] {
      SymbolsOfValues(text[1..]);
      assert Values(text).value[1..] == Values(text[1..]).value;
    }
  }

  lemma GroupOfOctets(x: nat, y: nat, z: nat)
    requires x < 256 && y < 256 && z < 256
    ensures First(High(x), Upper(x, y)) == x
    ensures Second(Upper(x, y), Lower(y, z)) == y
    ensures Third(Lower(y, z), Low(z)) == z
    ensures y == 0 ==> Upper(x, y) % 16 == 0
    ensures z == 0 ==> Lower(y, z) % 4 == 0
  {
  }

  lemma GroupOfSextets(a: nat, b: nat, c: nat, d: nat)
    requires a < 64 && b < 64 && c < 64 && d < 64
    ensures High(First(a, b)) == a
    ensures Upper(First(a, b), Second(b, c)) == b
    ensures Lower(Second(b, c), Third(c, d)) == c
    ensures Low(Third(c, d)) == d
    ensures b % 16 == 0 ==> Upper(First(a, b), 0) == b
    ensures c % 4 == 0 ==> Lower(Second(b, c), 0) == c
  {
  }

  lemma JoinPair(a: sextet, b: sextet)
    requires b % 16 == 0
    ensures Join([a, b]) == Some([First(a, b)])
  {
  }

  lemma JoinOne(x: byte)
    ensures Join([High(x), Upper(x, 0)]) == Some([x])
  {
    GroupOfOctets(x, 0, 0);
    JoinPair(High(x), Upper(x, 0));
  }

  lemma JoinTwo(x: byte, y: byte)
    ensures Join([High(x), Upper(x, y), Lower(y, 0)]) == Some([x, y])
  {
    GroupOfOctets(x, y, 0);
  }

  lemma JoinGroup(x: byte, y: byte, z: byte, rest: seq<sextet>)
    requires Join(rest).Some?
    ensures Join([High(x), Upper(x, y), Lower(y, z), Low(z)] + rest) == Some([x, y, z] + Join(rest).value)
  {
    var v := [High(x), Upper(x, y), Lower(y, z), Low(z)] + rest;
    assert v[4..] == rest;
    GroupOfOctets(x, y, z);
  }

  lemma {:induction false} JoinOfSplit(bytes: seq<byte>)
    ensures Join(Split(bytes)) == Some(bytes)
    decreases |bytes|
  {
    if |bytes| == 1 {
      JoinOne(bytes[0]);
      assert bytes == [bytes[0]];
    } else if |bytes| == 2 {
      JoinTwo(bytes[0], bytes[1]);
      assert bytes == [bytes[0], bytes[1]];
    } else if |bytes| >= 3 {
      JoinOfSplit(bytes[3..]);
      JoinGroup(bytes[0], bytes[1], bytes[2], Split(bytes[3..]));
      assert bytes == [bytes[0], bytes[1], bytes[2]] + bytes[3..];
    }
  }

  lemma SplitTwo(a: sextet, b: sextet)
    requires b % 16 == 0
    ensures Split([First(a, b)]) == [a, b]
  {
    GroupOfSextets(a, b, 0, 0);
  }

  lemma SplitThree(a: sextet, b: sextet, c: sextet)
    requires c % 4 == 0
    ensures Split([First(a, b), Second(b, c)]) == [a, b, c]
  {
    GroupOfSextets(a, b, c, 0);
  }

  lemma SplitGroup(a: sextet, b: sextet, c: sextet, d: sextet, rest: seq<byte>)
    ensures Split([First(a, b), Second(b, c), Third(c, d)] + rest) == [a, b, c, d] + Split(rest)
  {
    var bytes := [First(a, b), Second(b, c), Third(c, d)] + rest;
    assert bytes[3..] == rest;
    GroupOfSextets(a, b, c, d);
  }

  lemma {:induction false} SplitOfJoin(v: seq<sextet>)
    requires Join(v).Some?
    ensures Split(Join(v).value) == v
    decreases |v|
  {
    if |v| == 2 {
      SplitTwo(v[0], v[1]);
      assert v == [v[0], v[1]];
    } else if |v| == 3 {
      SplitThree(v[0], v[1], v[2]);
      assert v == [v[0], v[1], v[2]];
    } else if |v| >= 4 {
      SplitOfJoin(v[4..]);
      SplitGroup(v[0], v[1], v[2], v[3], Join(v[4..]).value);
      assert v == [v[0], v[1], v[2], v[3]] + v[4..];
    }
  }

  lemma DecodeEncode(bytes: seq<byte>)
    ensures Decode(Encode(bytes)) == Some(bytes)
  {
    ValuesOfSymbols(Split(bytes));
    JoinOfSplit(bytes);
  }

  /** Strictness: a text that decodes is the encoding of what it decodes to. */
  lemma EncodeDecode(text: seq<byte>)
    requires Decode(text).Some?
    ensures Encode(Decode(text).value) == text
  {
    SymbolsOfValues(text);
    SplitOfJoin(Values(text).value);
  }
}
