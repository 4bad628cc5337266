/**
  * The Internet checksum: the sum the endpoint computes, against the ones' complement sum of
  * section 1 of RFC 1071.
  */
module Checksum {
  import opened Bytes

  function Word(high: nat, low: nat): (n: nat) {
    high * 256 + low
  }

  /** The sum of the 16-bit words, an odd last octet padded with zero. */
  function WordSum(s: seq<byte>): (n: nat) {
    if s == [] then 0
    else if |s| == 1 then Word(s[0], 0)
    else Word(s[0], s[1]) + WordSum(s[2..])
  }

  /** Carries folded back until none is left. */
  function Folded(x: nat): (n: nat)
    ensures n < 0x1_0000
  {
    if x < 0x1_0000 then x else Folded(x / 0x1_0000 + x % 0x1_0000)
  }

  /** The checksum of section 1 of RFC 1071. */
  function Reference(s: seq<byte>): (c: nat) {
    0xFFFF - Folded(WordSum(s))
  }

  /** One fold, the rest of the carry cut off. */
  function FoldedOnce(x: nat): (c: nat)
    ensures c < 0x1_0000
  {
    0xFFFF - (x / 0x1_0000 + x) % 0x1_0000
  }

  predicate FitsOneFold(x: nat) {
    x / 0x1_0000 + x % 0x1_0000 < 0x1_0000
  }

  lemma {:induction false} WordSumBound(s: seq<byte>)
    ensures WordSum(s) <= 0xFFFF * ((|s| + 1) / 2)
  {
    if |s| >= 2 {
      WordSumBound(s[2..]);
    }
  }

  /** The length bound keeps the 32-bit accumulator and the final addition from overflowing. */
  method Rfc1071Checksum(bytes: seq<byte>) returns (c: nat)
    requires |bytes| <= 0x2_0000
    ensures c == FoldedOnce(WordSum(bytes))
  {
    var sum: nat := 0;
    var isEven := |bytes| % 2 == 0;
    var i := 0;
    SumBounded(bytes);
    while i < |bytes|
      invariant 0 <= i && i % 2 == 0
      invariant sum + SumFrom(bytes, i) == WordSum(bytes)
      decreases |bytes| - i
    {
      SumFromStep(bytes, i);
      SecondOctet(|bytes|, i);
      sum := sum + Word(bytes[i], 0);
      if isEven || i + 1 < |bytes| - 1 {
        sum := sum + bytes[i + 1];
      }
      NoOverflow(sum);
      i := i + 2;
    }
    c := 0xFFFF - (sum / 0x1_0000 + sum) % 0x1_0000;
  }

  lemma SumBounded(s: seq<byte>)
    requires |s| <= 0x2_0000
    ensures WordSum(s) <= 0xFFFF * 0x1_0000
  {
    WordSumBound(s);
  }

  /** The loop's test for a second octet. */
  lemma SecondOctet(n: nat, i: nat)
    requires i % 2 == 0 && i < n
    ensures n % 2 == 0 || i + 1 < n - 1 <==> i + 1 < n
  {
  }

  function SumFrom(s: seq<byte>, i: nat): (n: nat) {
    if i < |s| then WordSum(s[i..]) else 0
  }

  lemma SumFromStep(s: seq<byte>, i: nat)
    requires i < |s|
    ensures SumFrom(s, i) == Word(s[i], if i + 1 < |s| then s[i + 1] else 0) + SumFrom(s, i + 2)
  {
    if i + 2 <= |s| {
      assert s[i..][2..] == s[i + 2..];
    }
  }

  lemma NoOverflow(sum: nat)
    requires sum <= 0xFFFF * 0x1_0000
    ensures sum + sum / 0x1_0000 < 0x1_0000_0000
  {
  }

  lemma HighAndLow(high: nat, low: nat)
    requires low < 0x1_0000
    ensures (0x1_0000 * high + low) / 0x1_0000 == high && (0x1_0000 * high + low) % 0x1_0000 == low
  {
  }

  lemma SameRemainder(a: nat, k: nat)
    ensures (a + 0xFFFF * k) % 0xFFFF == a % 0xFFFF
  {
  }

  /** Folding takes the remainder by 65535, with 65535 for a non-zero multiple. */
  lemma {:induction false} FoldedIsRemainder(x: nat)
    ensures Folded(x) == if x == 0 then 0 else (x - 1) % 0xFFFF + 1
  {
    if x >= 0x1_0000 {
      var high, low := x / 0x1_0000, x % 0x1_0000;
      FoldedIsRemainder(high + low);
      SameRemainder(high + low - 1, high);
    }
  }

  /** What is kept of the sum when its upper half is added once. */
  lemma FoldedOnceValue(high: nat, low: nat)
    requires high < 0x1_0000 && low < 0x1_0000
    ensures FoldedOnce(0x1_0000 * high + low) ==
            0xFFFF - (if high + low < 0x1_0000 then high + low else high + low - 0x1_0000)
  {
    HighAndLow(high, low);
    var y := high + low;
    if y < 0x1_0000 {
      HighAndLow(high, y);
    } else {
      HighAndLow(high + 1, y - 0x1_0000);
    }
  }

  lemma FoldedValue(high: nat, low: nat)
    requires high < 0x1_0000 && low < 0x1_0000
    ensures Folded(0x1_0000 * high + low) == if high + low < 0x1_0000 then high + low else high + low - 0xFFFF
  {
    HighAndLow(high, low);
    var x, y := 0x1_0000 * high + low, high + low;
    assert Folded(x) == Folded(y) by {
      if high == 0 {
        assert x == y;
      }
    }
    if y >= 0x1_0000 {
      HighAndLow(1, y - 0x1_0000);
      assert Folded(y) == Folded(1 + (y - 0x1_0000));
    }
  }

  /** The sum of a message within the length bound, in halves. */
  lemma SumHalves(s: seq<byte>) returns (high: nat, low: nat)
    requires |s| <= 0x2_0000
    ensures high < 0x1_0000 && low < 0x1_0000 && WordSum(s) == 0x1_0000 * high + low
    ensures FitsOneFold(WordSum(s)) <==> high + low < 0x1_0000
  {
    SumBounded(s);
    high, low := WordSum(s) / 0x1_0000, WordSum(s) % 0x1_0000;
  }

  /** The endpoint's checksum is the standard's exactly when one fold is enough. */
  lemma OneFoldExactly(s: seq<byte>)
    requires |s| <= 0x2_0000
    ensures FoldedOnce(WordSum(s)) == Reference(s) <==> FitsOneFold(WordSum(s))
  {
    var high, low := SumHalves(s);
    FoldedOnceValue(high, low);
    FoldedValue(high, low);
  }

  /** The packet with its checksum filled in at offset 2. */
  function Filled(packet: seq<byte>): (s: seq<byte>)
    requires |packet| >= 4
  {
    packet[..2] + ToBE(FoldedOnce(WordSum(packet)), 2) + packet[4..]
  }

  lemma FilledSum(packet: seq<byte>)
    requires |packet| >= 4 && packet[2] == packet[3] == 0
    ensures WordSum(Filled(packet)) == WordSum(packet) + FoldedOnce(WordSum(packet))
  {
    var c := FoldedOnce(WordSum(packet));
    var t := ToBE(c, 2);
    Pow256Values();
    FromToBE(c, 2);
    assert FromBE(t[..1]) == FromBE(t[..1][..0]) * 256 + t[0];
    assert c == Word(t[0], t[1]);
    TwoWords(packet);
    TwoWords(Filled(packet));
    assert Filled(packet)[4..] == packet[4..];
  }

  lemma TwoWords(s: seq<byte>)
    requires |s| >= 4
    ensures WordSum(s) == Word(s[0], s[1]) + Word(s[2], s[3]) + WordSum(s[4..])
  {
    assert s[2..][2..] == s[4..];
  }

  /** A receiver's check of the filled-in packet passes exactly when one fold was enough. */
  lemma FilledPacketVerifiesExactly(packet: seq<byte>)
    requires 4 <= |packet| <= 0x2_0000 && packet[2] == packet[3] == 0
    ensures Folded(WordSum(Filled(packet))) == 0xFFFF <==> FitsOneFold(WordSum(packet))
  {
    FilledSum(packet);
    SumFoldsWhenFilled(packet);
  }

  lemma SumFoldsWhenFilled(s: seq<byte>)
    requires |s| <= 0x2_0000
    ensures Folded(WordSum(s) + FoldedOnce(WordSum(s))) == 0xFFFF <==> FitsOneFold(WordSum(s))
  {
    var high, low := SumHalves(s);
    FoldedWhenFilled(high, low);
  }

  lemma FoldedWhenFilled(high: nat, low: nat)
    requires high < 0x1_0000 && low < 0x1_0000
    ensures var x := 0x1_0000 * high + low;
            Folded(x + FoldedOnce(x)) == 0xFFFF <==> high + low < 0x1_0000
  {
    var x := 0x1_0000 * high + low;
    var total := x + FoldedOnce(x);
    FoldedOnceValue(high, low);
    FoldedIsRemainder(total);
    if high + low < 0x1_0000 {
      assert total == 0xFFFF * high + 0xFFFF;
      SameRemainder(0xFFFE, high);
    } else {
      assert total == 0xFFFF * (high + 2) + 1;
      SameRemainder(0, high + 2);
    }
  }

  /** The failing case: a message whose words sum up to 0x1FFFF. */
  lemma OneFoldCanFail(s: seq<byte>)
    requires |s| == 6 && s[0] == s[1] == s[2] == s[3] == 0xFF && s[4] == 0 && s[5] == 1
    ensures FoldedOnce(WordSum(s)) != Reference(s)
  {
    TwoWords(s);
    assert s[4..][2..] == [];
    assert WordSum(s) == 0x1_FFFF;
    OneFoldExactly(s);
  }
}
