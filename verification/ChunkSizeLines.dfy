/**
  * Which lines announce a chunk of which size: white space as the Unicode Standard lists it, a sign
  * that may be left out, hexadecimal digits and, behind a semicolon, extensions that are skipped.
  */
module ChunkSizeLines {
  import opened Wrappers
  import opened Bytes
  import opened Hex
  import opened Utf8
  import opened ChunkSizes

  // ---------- White space ----------

  /** The code points with the property White_Space. */
  predicate White(c: nat) {
    || 9 <= c <= 13 || c == 0x20 || c == 0x85 || c == 0xA0 || c == 0x1680
    || 0x2000 <= c <= 0x200A || c == 0x2028 || c == 0x2029 || c == 0x202F || c == 0x205F || c == 0x3000
  }

  predicate AllWhite(cs: seq<nat>) {
    AllScalars(cs) && forall i :: 0 <= i < |cs| ==> White(cs[i])
  }

  lemma WhiteStart(c: nat, rest: seq<byte>)
    requires White(c)
    ensures LeadingSpace(EncodedChar(c) + rest) == |EncodedChar(c)|
  {
  }

  lemma WhiteEnd(front: seq<byte>, c: nat)
    requires White(c)
    ensures TrailingSpace(front + EncodedChar(c)) == |EncodedChar(c)|
  {
  }

  lemma StartIsWhite(s: seq<byte>) returns (c: nat)
    requires LeadingSpace(s) > 0
    ensures White(c) && s[..LeadingSpace(s)] == EncodedChar(c)
  {
    match LeadingSpace(s) {
      case 1 => c := s[0];
      case 2 => c := s[1];
      case _ => c := WhiteOf(s[0], s[1], s[2]);
    }
  }

  lemma EndIsWhite(s: seq<byte>) returns (c: nat)
    requires TrailingSpace(s) > 0
    ensures White(c) && s[|s| - TrailingSpace(s)..] == EncodedChar(c)
  {
    var k := |s|;
    match TrailingSpace(s) {
      case 1 => c := s[k - 1];
      case 2 => c := s[k - 1];
      case _ => c := WhiteOf(s[k - 3], s[k - 2], s[k - 1]);
    }
  }

  lemma WhiteOf(x: byte, y: byte, z: byte) returns (c: nat)
    requires IsSpace3(x, y, z)
    ensures White(c) && EncodedChar(c) == [x, y, z]
  {
    c := (x - 0xE0) * 4096 + (y - 0x80) * 64 + (z - 0x80);
  }

  lemma Grouped(a: seq<byte>, b: seq<byte>, c: seq<byte>)
    ensures (a + b) + c == a + (b + c)
  {
  }

  lemma TrimsOne(c: nat, rest: seq<byte>)
    requires White(c)
    ensures TrimStart(EncodedChar(c) + rest) == TrimStart(rest)
  {
    WhiteStart(c, rest);
    DropAppend(EncodedChar(c), rest);
  }

  lemma TrimsLast(front: seq<byte>, c: nat)
    requires White(c)
    ensures TrimEnd(front + EncodedChar(c)) == TrimEnd(front)
  {
    WhiteEnd(front, c);
    DropAppend(front, EncodedChar(c));
  }

  lemma Cut(s: seq<byte>, n: nat)
    requires n <= |s|
    ensures s == s[..n] + s[n..]
  {
  }

  lemma WhiteFirst(c: nat, cs: seq<nat>)
    requires White(c) && AllWhite(cs)
    ensures AllWhite([c] + cs) && Encoded([c] + cs) == EncodedChar(c) + Encoded(cs)
  {
    assert ([c] + cs)[1..] == cs;
  }

  lemma WhiteLast(cs: seq<nat>, c: nat)
    requires White(c) && AllWhite(cs)
    ensures AllWhite(cs + [c]) && Encoded(cs + [c]) == Encoded(cs) + EncodedChar(c)
  {
    EncodedAppend(cs, [c]);
    assert [c][1..] == [];
    assert Encoded([c]) == EncodedChar(c) + Encoded([c][1..]) == EncodedChar(c);
  }

  /** Trimming takes away white space, and all of it. */
  lemma {:induction false} StartTrimmed(s: seq<byte>) returns (cs: seq<nat>)
    ensures AllWhite(cs) && s == Encoded(cs) + TrimStart(s)
    decreases |s|
  {
    if LeadingSpace(s) == 0 {
      cs := [];
      assert Encoded(cs) + s == s;
    } else {
      var n := LeadingSpace(s);
      var c := StartIsWhite(s);
      var rest := StartTrimmed(s[n..]);
      cs := [c] + rest;
      WhiteFirst(c, rest);
      Grouped(EncodedChar(c), Encoded(rest), TrimStart(s[n..]));
      Cut(s, n);
    }
  }

  lemma {:induction false} TrimsStart(cs: seq<nat>, rest: seq<byte>)
    requires AllWhite(cs) && LeadingSpace(rest) == 0
    ensures TrimStart(Encoded(cs) + rest) == rest
  {
    if cs == [] {
      assert Encoded(cs) + rest == rest;
    } else {
      Grouped(EncodedChar(cs[0]), Encoded(cs[1..]), rest);
      TrimsOne(cs[0], Encoded(cs[1..]) + rest);
      TrimsStart(cs[1..], rest);
    }
  }

  lemma {:induction false} EndTrimmed(s: seq<byte>) returns (cs: seq<nat>)
    ensures AllWhite(cs) && s == TrimEnd(s) + Encoded(cs)
    decreases |s|
  {
    if TrailingSpace(s) == 0 {
      cs := [];
    } else {
      var k := |s| - TrailingSpace(s);
      var c := EndIsWhite(s);
      var rest := EndTrimmed(s[..k]);
      cs := rest + [c];
      WhiteLast(rest, c);
      Grouped(TrimEnd(s[..k]), Encoded(rest), EncodedChar(c));
      Cut(s, k);
    }
  }

  lemma {:induction false} TrimsEnd(front: seq<byte>, cs: seq<nat>)
    requires AllWhite(cs) && TrailingSpace(front) == 0
    ensures TrimEnd(front + Encoded(cs)) == front
  {
    if cs == [] {
      assert front + Encoded(cs) == front;
    } else {
      var k := |cs| - 1;
      assert cs == cs[..k] + [cs[k]];
      WhiteLast(cs[..k], cs[k]);
      Grouped(front, Encoded(cs[..k]), EncodedChar(cs[k]));
      TrimsLast(front + Encoded(cs[..k]), cs[k]);
      TrimsEnd(front, cs[..k]);
    }
  }

  // ---------- Digits ----------

  function Pow16(n: nat): (p: nat) {
    if n == 0 then 1 else 16 * Pow16(n - 1)
  }

  /** The positional value of digits, the most significant first. */
  function Positional(ds: seq<nat>): (v: nat) {
    if ds == [] then 0 else ds[0] * Pow16(|ds| - 1) + Positional(ds[1..])
  }

  lemma {:induction false} PositionalLast(ds: seq<nat>, d: nat)
    ensures Positional(ds + [d]) == Positional(ds) * 16 + d
  {
    if ds == [] {
      assert ([] + [d])[1..] == [];
      assert Positional([] + [d]) == d * Pow16(0);
    } else {
      assert (ds + [d])[1..] == ds[1..] + [d];
      PositionalLast(ds[1..], d);
      calc {
        Positional(ds + [d]);
        ds[0] * Pow16(|ds|) + Positional(ds[1..]) * 16 + d;
        { Shifted(ds[0], Pow16(|ds| - 1)); }
        (ds[0] * Pow16(|ds| - 1) + Positional(ds[1..])) * 16 + d;
      }
    }
  }

  lemma Shifted(a: nat, p: nat)
    ensures a * (16 * p) == (a * p) * 16
  {
  }

  lemma {:induction false} DigitsAreValue(s: seq<byte>, ds: seq<nat>)
    requires |s| == |ds| && forall i :: 0 <= i < |s| ==> IsHex(s[i]) && HexDigit(s[i]) == ds[i]
    ensures HexValue(s) == Positional(ds)
    decreases |s|
  {
    if s != [] {
      var k := |s| - 1;
      DigitsAreValue(s[..k], ds[..k]);
      PositionalLast(ds[..k], ds[k]);
      assert ds == ds[..k] + [ds[k]];
    }
  }

  lemma HexValueIsPositional(s: seq<byte>, ds: seq<nat>)
    requires Spells(s, ds)
    ensures AllHex(s) && HexValue(s) == Positional(ds)
  {
    SpellsExactly(s, ds);
    DigitsAreValue(s, ds);
  }

  // ---------- Size lines ----------

  /** A line taken apart; `values` are the digits that `digits` spells. */
  datatype SizeLine = SizeLine(
    before: seq<nat>, plus: bool, digits: seq<byte>, values: seq<nat>, after: seq<nat>, extensions: seq<byte>)
  {
    predicate Valid() {
      && AllWhite(before) && AllWhite(after)
      && digits != [] && Spells(digits, values)
      && IsUtf8(extensions) && (extensions == [] || extensions[0] == 0x3B)
    }

    /** The text between the white space. */
    function Number(): (s: seq<byte>) {
      (if plus then [0x2B] else []) + digits
    }

    function Field(): (s: seq<byte>)
      requires Valid()
    {
      Encoded(before) + (Number() + Encoded(after))
    }

    function Text(): (s: seq<byte>)
      requires Valid()
    {
      Field() + extensions
    }
  }

  lemma {:induction false} FieldEnds(field: seq<byte>, rest: seq<byte>)
    requires SEMICOLON !in field && (rest == [] || rest[0] == SEMICOLON)
    ensures FirstField(field + rest) == field
  {
    if field == [] {
      assert field + rest == rest;
    } else {
      assert (field + rest)[1..] == field[1..] + rest;
      FieldEnds(field[1..], rest);
    }
  }

  lemma {:induction false} FieldThenRest(line: seq<byte>) returns (rest: seq<byte>)
    ensures line == FirstField(line) + rest && SEMICOLON !in FirstField(line)
    ensures rest == [] || rest[0] == SEMICOLON
  {
    if line == [] || line[0] == SEMICOLON {
      rest := line;
    } else {
      rest := FieldThenRest(line[1..]);
      assert line == [line[0]] + line[1..];
    }
  }

  lemma {:induction false} NoSemicolonInWhite(cs: seq<nat>)
    requires AllWhite(cs)
    ensures SEMICOLON !in Encoded(cs)
  {
    if cs != [] {
      assert White(cs[0]);
      assert SEMICOLON !in EncodedChar(cs[0]);
      NoSemicolonInWhite(cs[1..]);
    }
  }

  lemma NumberIsAscii(plus: bool, digits: seq<byte>)
    requires AllHex(digits)
    ensures var s := (if plus then [0x2B] else []) + digits; SEMICOLON !in s && IsUtf8(s)
  {
    var s := (if plus then [0x2B] else []) + digits;
    forall i | 0 <= i < |s| ensures s[i] <= 0x7F && s[i] != SEMICOLON {
      assert s[i] == 0x2B || IsHex(s[i]);
    }
    AsciiIsUtf8(s);
  }

  lemma NumberIsPlain(plus: bool, digits: seq<byte>, rest: seq<byte>)
    requires digits != [] && AllHex(digits)
    ensures var s := (if plus then [0x2B] else []) + digits;
            LeadingSpace(s + rest) == 0 && TrailingSpace(s) == 0 && ParseHex(s) == ParseHex(digits)
  {
    var s := (if plus then [0x2B] else []) + digits;
    assert IsHex(digits[0]) && IsHex(digits[|digits| - 1]);
    assert (s + rest)[0] == if plus then 0x2B else digits[0];
    assert s[|s| - 1] == digits[|digits| - 1];
    assert plus ==> s[1..] == digits;
    assert !plus ==> s == digits;
  }

  lemma FieldIsUtf8(before: seq<nat>, plus: bool, digits: seq<byte>, after: seq<nat>)
    requires AllWhite(before) && AllWhite(after) && digits != [] && AllHex(digits)
    ensures IsUtf8(Encoded(before) + (((if plus then [0x2B] else []) + digits) + Encoded(after)))
  {
    var number := (if plus then [0x2B] else []) + digits;
    NumberIsAscii(plus, digits);
    EncodedIsUtf8(before);
    EncodedIsUtf8(after);
    Utf8Append(number, Encoded(after));
    Utf8Append(Encoded(before), number + Encoded(after));
  }

  /** A well-formed line announces the positional value of its digits, if that fits. */
  lemma SizeIsPositional(l: SizeLine)
    requires l.Valid()
    ensures SizeOf(l.Text()) ==
              if Positional(l.values) < 0x1_0000_0000_0000_0000 then Some(Positional(l.values)) else None
  {
    HexValueIsPositional(l.digits, l.values);
    NumberIsAscii(l.plus, l.digits);
    NumberIsPlain(l.plus, l.digits, Encoded(l.after));
    NoSemicolonInWhite(l.before);
    NoSemicolonInWhite(l.after);
    FieldEnds(l.Field(), l.extensions);
    TrimsStart(l.before, l.Number() + Encoded(l.after));
    TrimsEnd(l.Number(), l.after);
    FieldIsUtf8(l.before, l.plus, l.digits, l.after);
    Utf8Append(l.Field(), l.extensions);
  }

  lemma ParsedNumber(number: seq<byte>) returns (plus: bool, digits: seq<byte>)
    requires ParseHex(number).Some?
    ensures digits != [] && AllHex(digits) && number == (if plus then [0x2B] else []) + digits
    ensures HexValue(digits) == ParseHex(number).value < 0x1_0000_0000_0000_0000
  {
    plus := |number| >= 2 && number[0] == PLUS;
    digits := if plus then number[1..] else number;
  }

  /** A line that announces a size is well formed, and the size is the positional value of its digits. */
  lemma SizeComesFromLine(line: seq<byte>) returns (l: SizeLine)
    requires SizeOf(line).Some?
    ensures l.Valid() && l.Text() == line && Positional(l.values) == SizeOf(line).value < 0x1_0000_0000_0000_0000
  {
    var extensions := FieldThenRest(line);
    var before := StartTrimmed(FirstField(line));
    var after := EndTrimmed(TrimStart(FirstField(line)));
    var plus, digits := ParsedNumber(TrimEnd(TrimStart(FirstField(line))));
    var values := Digits(digits);
    HexValueIsPositional(digits, values);
    l := SizeLine(before, plus, digits, values, after, extensions);
    FieldIsUtf8(before, plus, digits, after);
    Utf8Rest(FirstField(line), extensions);
  }

  /** A line announces `n` exactly when it is a well-formed line for `n`. */
  lemma SizeExactly(line: seq<byte>, n: nat)
    ensures SizeOf(line) == Some(n) <==>
            exists l: SizeLine :: l.Valid() && l.Text() == line && Positional(l.values) == n < 0x1_0000_0000_0000_0000
  {
    if SizeOf(line) == Some(n) {
      var l := SizeComesFromLine(line);
      assert l.Valid() && l.Text() == line && Positional(l.values) == n;
    } else if l: SizeLine :| l.Valid() && l.Text() == line && Positional(l.values) == n < 0x1_0000_0000_0000_0000 {
      SizeIsPositional(l);
    }
  }
}
