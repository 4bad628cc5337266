/** Hexadecimal digits in ASCII. */
module Hex {
  import opened Bytes

  predicate IsHex(b: byte) {
    0x30 <= b <= 0x39 || 0x41 <= b <= 0x46 || 0x61 <= b <= 0x66
  }

  function HexDigit(b: byte): (d: nat)
    requires IsHex(b)
    ensures d < 16
  {
    if b <= 0x39 then b - 0x30 else if b <= 0x46 then b - 0x37 else b - 0x57
  }

  predicate AllHex(s: seq<byte>) {
    forall i :: 0 <= i < |s| ==> IsHex(s[i])
  }

  /** The sixteen digits in order. */
  function Lower(d: nat): (c: char)
    requires d < 16
  {
    match d
    case 0 => '0' case 1 => '1' case 2 => '2' case 3 => '3'
    case 4 => '4' case 5 => '5' case 6 => '6' case 7 => '7'
    case 8 => '8' case 9 => '9' case 10 => 'a' case 11 => 'b'
    case 12 => 'c' case 13 => 'd' case 14 => 'e' case _ => 'f'
  }

  function Upper(d: nat): (c: char)
    requires d < 16
  {
    match d
    case 10 => 'A' case 11 => 'B' case 12 => 'C'
    case 13 => 'D' case 14 => 'E' case 15 => 'F'
    case _ => Lower(d)
  }

  /** The octet is the hexadecimal digit `d`, in either case. */
  predicate Stands(b: byte, d: nat) {
    d < 16 && (b == Lower(d) as int || b == Upper(d) as int)
  }

  /** A digit's value is its place among the sixteen digits. */
  lemma HexDigitExactly(b: byte, d: nat)
    ensures IsHex(b) && HexDigit(b) == d <==> Stands(b, d)
  {
  }

  /** The octets are these digits. */
  predicate Spells(s: seq<byte>, ds: seq<nat>) {
    |s| == |ds| && forall i :: 0 <= i < |s| ==> Stands(s[i], ds[i])
  }

  /** Reading the digits one by one. */
  lemma SpellsExactly(s: seq<byte>, ds: seq<nat>)
    ensures Spells(s, ds) <==> |s| == |ds| && forall i :: 0 <= i < |s| ==> IsHex(s[i]) && HexDigit(s[i]) == ds[i]
  {
    forall i | 0 <= i < |s| && |s| == |ds|
      ensures IsHex(s[i]) && HexDigit(s[i]) == ds[i] <==> Stands(s[i], ds[i])
    {
      HexDigitExactly(s[i], ds[i]);
    }
  }

  /** The digits that a text spells. */
  lemma Digits(s: seq<byte>) returns (ds: seq<nat>)
    requires AllHex(s)
    ensures Spells(s, ds)
  {
    ds := seq(|s|, i requires 0 <= i < |s| => HexDigit(s[i]));
    SpellsExactly(s, ds);
  }

  /** Exactly the texts that spell some digits are hexadecimal. */
  lemma AllHexExactly(s: seq<byte>)
    ensures AllHex(s) <==> exists ds :: Spells(s, ds)
  {
    if AllHex(s) {
      var ds := Digits(s);
    } else if ds :| Spells(s, ds) {
      SpellsExactly(s, ds);
    }
  }
}
