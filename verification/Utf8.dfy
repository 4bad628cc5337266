/** Well-formed UTF-8, as `str::from_utf8` decides it (table 3-7 of the Unicode Standard). */
module Utf8 {
  import opened Bytes

  predicate Continuation(b: byte) {
    0x80 <= b <= 0xBF
  }

  /** Octets of the well-formed character that `s` starts with, or 0. */
  function CharLength(s: seq<byte>): (n: nat)
    ensures n <= |s| && n <= 4
  {
    if |s| >= 1 && s[0] <= 0x7F then 1
    else if |s| >= 2 && 0xC2 <= s[0] <= 0xDF && Continuation(s[1]) then 2
    else if |s| >= 3 && Continuation(s[2]) && LeadsThree(s[0], s[1]) then 3
    else if |s| >= 4 && Continuation(s[2]) && Continuation(s[3]) && LeadsFour(s[0], s[1]) then 4
    else 0
  }

  predicate LeadsThree(a: byte, b: byte) {
    || (a == 0xE0 && 0xA0 <= b <= 0xBF)
    || (0xE1 <= a <= 0xEC && Continuation(b))
    || (a == 0xED && 0x80 <= b <= 0x9F)
    || (0xEE <= a <= 0xEF && Continuation(b))
  }

  predicate LeadsFour(a: byte, b: byte) {
    || (a == 0xF0 && 0x90 <= b <= 0xBF)
    || (0xF1 <= a <= 0xF3 && Continuation(b))
    || (a == 0xF4 && 0x80 <= b <= 0x8F)
  }

  predicate IsUtf8(s: seq<byte>) {
    s == [] || (CharLength(s) > 0 && IsUtf8(s[CharLength(s)..]))
  }

  lemma {:induction false} AsciiIsUtf8(s: seq<byte>)
    requires forall i :: 0 <= i < |s| ==> s[i] <= 0x7F
    ensures IsUtf8(s)
  {
    if s != [] {
      AsciiIsUtf8(s[1..]);
    }
  }

  // ---------- The characters of a text ----------

  /** A Unicode scalar value: a code point that is not a surrogate. */
  predicate IsScalar(c: nat) {
    c <= 0x10FFFF && !(0xD800 <= c <= 0xDFFF)
  }

  predicate AllScalars(cs: seq<nat>) {
    forall i :: 0 <= i < |cs| ==> IsScalar(cs[i])
  }

  /** The octets of one scalar value: six bits in each octet but the first. */
  function EncodedChar(c: nat): (s: seq<byte>)
    requires IsScalar(c)
    ensures 1 <= |s| <= 4
  {
    if c < 0x80 then [c]
    else if c < 0x800 then [0xC0 + c / 64, 0x80 + c % 64]
    else if c < 0x10000 then [0xE0 + c / 4096, 0x80 + c / 64 % 64, 0x80 + c % 64]
    else [0xF0 + c / 262144, 0x80 + c / 4096 % 64, 0x80 + c / 64 % 64, 0x80 + c % 64]
  }

  function Encoded(cs: seq<nat>): (s: seq<byte>)
    requires AllScalars(cs)
  {
    if cs == [] then [] else EncodedChar(cs[0]) + Encoded(cs[1..])
  }

  lemma LeadOfThree(c: nat)
    requires IsScalar(c) && 0x800 <= c < 0x10000
    ensures LeadsThree(0xE0 + c / 4096, 0x80 + c / 64 % 64)
  {
    assert c / 64 == c / 4096 * 64 + c / 64 % 64;
  }

  lemma LeadOfFour(c: nat)
    requires IsScalar(c) && 0x10000 <= c
    ensures LeadsFour(0xF0 + c / 262144, 0x80 + c / 4096 % 64)
  {
    assert c / 4096 == c / 262144 * 64 + c / 4096 % 64;
  }

  lemma EncodedCharLength(c: nat, rest: seq<byte>)
    requires IsScalar(c)
    ensures CharLength(EncodedChar(c) + rest) == |EncodedChar(c)|
  {
    var s := EncodedChar(c) + rest;
    if 0x800 <= c < 0x10000 {
      LeadOfThree(c);
      assert s[0] == 0xE0 + c / 4096 && s[1] == 0x80 + c / 64 % 64 && Continuation(s[2]);
    } else if 0x10000 <= c {
      LeadOfFour(c);
      assert s[0] == 0xF0 + c / 262144 && s[1] == 0x80 + c / 4096 % 64;
      assert Continuation(s[2]) && Continuation(s[3]);
    }
  }

  /** The scalar value of a well-formed character. */
  lemma CharAt(s: seq<byte>) returns (c: nat)
    requires CharLength(s) > 0
    ensures IsScalar(c) && s[..CharLength(s)] == EncodedChar(c)
  {
    match CharLength(s) {
      case 1 => c := s[0];
      case 2 => c := CharOfTwo(s[0], s[1]);
      case 3 => c := CharOfThree(s[0], s[1], s[2]);
      case _ => c := CharOfFour(s[0], s[1], s[2], s[3]);
    }
  }

  lemma CharOfTwo(a: byte, b: byte) returns (c: nat)
    requires 0xC2 <= a <= 0xDF && Continuation(b)
    ensures IsScalar(c) && EncodedChar(c) == [a, b]
  {
    c := (a - 0xC0) * 64 + (b - 0x80);
  }

  lemma CharOfThree(x: byte, y: byte, z: byte) returns (c: nat)
    requires LeadsThree(x, y) && Continuation(z)
    ensures IsScalar(c) && EncodedChar(c) == [x, y, z]
  {
    c := (x - 0xE0) * 4096 + (y - 0x80) * 64 + (z - 0x80);
    assert c / 64 == (x - 0xE0) * 64 + (y - 0x80);
  }

  lemma CharOfFour(x: byte, y: byte, z: byte, w: byte) returns (c: nat)
    requires LeadsFour(x, y) && Continuation(z) && Continuation(w)
    ensures IsScalar(c) && EncodedChar(c) == [x, y, z, w]
  {
    c := (x - 0xF0) * 262144 + (y - 0x80) * 4096 + (z - 0x80) * 64 + (w - 0x80);
    assert c / 64 == (x - 0xF0) * 4096 + (y - 0x80) * 64 + (z - 0x80);
    assert c / 4096 == (x - 0xF0) * 64 + (y - 0x80);
  }

  lemma {:induction false} EncodedIsUtf8(cs: seq<nat>)
    requires AllScalars(cs)
    ensures IsUtf8(Encoded(cs))
  {
    if cs != [] {
      EncodedCharLength(cs[0], Encoded(cs[1..]));
      EncodedIsUtf8(cs[1..]);
      assert Encoded(cs)[|EncodedChar(cs[0])|..] == Encoded(cs[1..]);
    }
  }

  lemma {:induction false} Characters(s: seq<byte>) returns (cs: seq<nat>)
    requires IsUtf8(s)
    ensures AllScalars(cs) && s == Encoded(cs)
  {
    if s == [] {
      cs := [];
    } else {
      var n := CharLength(s);
      var c := CharAt(s);
      var rest := Characters(s[n..]);
      cs := [c] + rest;
      assert cs[1..] == rest;
      assert s == s[..n] + s[n..];
    }
  }

  /** A text is accepted exactly when it is the encoding of some list of scalar values. */
  lemma Utf8Exactly(s: seq<byte>)
    ensures IsUtf8(s) <==> exists cs :: AllScalars(cs) && s == Encoded(cs)
  {
    if IsUtf8(s) {
      var cs := Characters(s);
    } else if cs :| AllScalars(cs) && s == Encoded(cs) {
      EncodedIsUtf8(cs);
    }
  }

  lemma {:induction false} EncodedAppend(a: seq<nat>, b: seq<nat>)
    requires AllScalars(a) && AllScalars(b)
    ensures Encoded(a + b) == Encoded(a) + Encoded(b)
  {
    if a == [] {
      assert a + b == b;
    } else {
      EncodedAppend(a[1..], b);
      assert (a + b)[1..] == a[1..] + b;
    }
  }

  lemma Utf8Append(a: seq<byte>, b: seq<byte>)
    requires IsUtf8(a) && IsUtf8(b)
    ensures IsUtf8(a + b)
  {
    var cs := Characters(a);
    var ds := Characters(b);
    EncodedAppend(cs, ds);
    EncodedIsUtf8(cs + ds);
  }

  lemma {:induction false} Utf8Rest(a: seq<byte>, b: seq<byte>)
    requires IsUtf8(a) && IsUtf8(a + b)
    ensures IsUtf8(b)
  {
    if a == [] {
      assert a + b == b;
    } else {
      var n := CharLength(a);
      assert CharLength(a + b) == n;
      assert (a + b)[n..] == a[n..] + b;
      Utf8Rest(a[n..], b);
    }
  }
}
