/** The size line of a chunk in a chunked HTTP/1.1 body (section 7.1 of RFC 9112). */
module ChunkSizes {
  import opened Wrappers
  import opened Bytes
  import opened Hex
  import opened Utf8

  const USIZE_LIMIT := 0x1_0000_0000_0000_0000
  const SEMICOLON: byte := 0x3B
  const PLUS: byte := 0x2B

  function HexValue(s: seq<byte>): (v: nat)
    requires AllHex(s)
  {
    if s == [] then 0 else HexValue(s[..|s| - 1]) * 16 + HexDigit(s[|s| - 1])
  }

  /** `usize::from_str_radix(_, 16)`: an optional plus sign, then at least one digit. */
  function ParseHex(s: seq<byte>): (r: Option<nat>) {
    var digits := if |s| >= 2 && s[0] == PLUS then s[1..] else s;
    if digits == [] || !AllHex(digits) || HexValue(digits) >= USIZE_LIMIT then None else Some(HexValue(digits))
  }

  /** Octets of the white-space character (property White_Space of Unicode) that `s` starts with, or 0. */
  function LeadingSpace(s: seq<byte>): (n: nat)
    ensures n <= |s|
  {
    if |s| >= 1 && IsSpace1(s[0]) then 1
    else if |s| >= 2 && IsSpace2(s[0], s[1]) then 2
    else if |s| >= 3 && IsSpace3(s[0], s[1], s[2]) then 3
    else 0
  }

  function TrailingSpace(s: seq<byte>): (n: nat)
    ensures n <= |s|
  {
    var k := |s|;
    if k >= 1 && IsSpace1(s[k - 1]) then 1
    else if k >= 2 && IsSpace2(s[k - 2], s[k - 1]) then 2
    else if k >= 3 && IsSpace3(s[k - 3], s[k - 2], s[k - 1]) then 3
    else 0
  }

  predicate IsSpace1(a: byte) {
    9 <= a <= 13 || a == 0x20
  }

  predicate IsSpace2(a: byte, b: byte) {
    a == 0xC2 && (b == 0x85 || b == 0xA0)
  }

  predicate IsSpace3(a: byte, b: byte, c: byte) {
    || (a == 0xE1 && b == 0x9A && c == 0x80)
    || (a == 0xE2 && b == 0x80 && (0x80 <= c <= 0x8A || c == 0xA8 || c == 0xA9 || c == 0xAF))
    || (a == 0xE2 && b == 0x81 && c == 0x9F)
    || (a == 0xE3 && b == 0x80 && c == 0x80)
  }

  function TrimStart(s: seq<byte>): (r: seq<byte>)
    decreases |s|
  {
    if LeadingSpace(s) == 0 then s else TrimStart(s[LeadingSpace(s)..])
  }

  function TrimEnd(s: seq<byte>): (r: seq<byte>)
    decreases |s|
  {
    if TrailingSpace(s) == 0 then s else TrimEnd(s[..|s| - TrailingSpace(s)])
  }

  /** The text before the first semicolon, where chunk extensions start. */
  function FirstField(line: seq<byte>): (f: seq<byte>) {
    if line == [] || line[0] == SEMICOLON then [] else [line[0]] + FirstField(line[1..])
  }

  /** The size that a line announces. */
  function SizeOf(line: seq<byte>): (r: Option<nat>) {
    if IsUtf8(line) then ParseHex(TrimEnd(TrimStart(FirstField(line)))) else None
  }

  function HexChar(d: nat): (b: byte)
    requires d < 16
    ensures IsHex(b) && HexDigit(b) == d
  {
    if d < 10 then 0x30 + d else 0x57 + d
  }

  /** The shortest hexadecimal form of a size. */
  function ToHex(n: nat): (s: seq<byte>)
    ensures s != [] && AllHex(s)
  {
    if n < 16 then [HexChar(n)] else ToHex(n / 16) + [HexChar(n % 16)]
  }

  lemma {:induction false} HexRoundTrip(n: nat)
    ensures HexValue(ToHex(n)) == n
  {
    if n < 16 {
      assert ToHex(n)[..0] == [];
      assert HexValue(ToHex(n)[..0]) == 0;
    } else {
      HexRoundTrip(n / 16);
      assert ToHex(n)[..|ToHex(n)| - 1] == ToHex(n / 16);
    }
  }

  lemma {:induction false} FieldOfHex(digits: seq<byte>, rest: seq<byte>)
    requires AllHex(digits) && (rest == [] || rest[0] == SEMICOLON)
    ensures FirstField(digits + rest) == digits
  {
    if digits == [] {
      assert digits + rest == rest;
    } else {
      assert (digits + rest)[1..] == digits[1..] + rest;
      FieldOfHex(digits[1..], rest);
    }
  }

  lemma {:induction false} AsciiThenUtf8(s: seq<byte>, rest: seq<byte>)
    requires (forall i :: 0 <= i < |s| ==> s[i] <= 0x7F) && IsUtf8(rest)
    ensures IsUtf8(s + rest)
  {
    if s == [] {
      assert s + rest == rest;
    } else {
      assert (s + rest)[1..] == s[1..] + rest;
      AsciiThenUtf8(s[1..], rest);
    }
  }

  lemma SizeOfDigits(line: seq<byte>, digits: seq<byte>)
    requires IsUtf8(line) && FirstField(line) == digits && digits != [] && AllHex(digits)
    requires HexValue(digits) < USIZE_LIMIT
    ensures SizeOf(line) == Some(HexValue(digits))
  {
    assert IsHex(digits[0]) && IsHex(digits[|digits| - 1]);
    assert LeadingSpace(digits) == 0 && TrailingSpace(digits) == 0;
  }

  lemma DigitsThenRest(digits: seq<byte>, rest: seq<byte>)
    requires digits != [] && AllHex(digits) && HexValue(digits) < USIZE_LIMIT
    requires IsUtf8(rest) && (rest == [] || rest[0] == SEMICOLON)
    ensures SizeOf(digits + rest) == Some(HexValue(digits))
  {
    FieldOfHex(digits, rest);
    AsciiThenUtf8(digits, rest);
    SizeOfDigits(digits + rest, digits);
  }

  /** A size written in hexadecimal, with or without an extension, announces itself. */
  lemma SizeRoundTrip(n: nat, rest: seq<byte>)
    requires n < USIZE_LIMIT && IsUtf8(rest) && (rest == [] || rest[0] == SEMICOLON)
    ensures SizeOf(ToHex(n) + rest) == Some(n)
  {
    HexRoundTrip(n);
    DigitsThenRest(ToHex(n), rest);
  }
}
