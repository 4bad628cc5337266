/** Octets, big-endian integers and chunked streams. */
module Bytes {

  type byte = x: int | 0 <= x < 256

  /** The stream that a list of chunks carries. */
  function Flatten(chunks: seq<seq<byte>>): (stream: seq<byte>) {
    if chunks == [] then [] else chunks[0] + Flatten(chunks[1..])
  }

  lemma {:induction false} FlattenAppend(a: seq<seq<byte>>, b: seq<seq<byte>>)
    ensures Flatten(a + b) == Flatten(a) + Flatten(b)
  {
    if a == [] {
      assert a + b == b;
    } else {
      assert (a + b)[0] == a[0] && (a + b)[1..] == a[1..] + b;
      FlattenAppend(a[1..], b);
    }
  }

  function Pow256(k: nat): (p: nat)
    ensures p > 0
  {
    if k == 0 then 1 else 256 * Pow256(k - 1)
  }

  /** The low `k` octets of `v`, most significant first. */
  function ToBE(v: nat, k: nat): (s: seq<byte>)
    ensures |s| == k
  {
    if k == 0 then [] else ToBE(v / 256, k - 1) + [v % 256]
  }

  function FromBE(s: seq<byte>): (v: nat) {
    if s == [] then 0 else FromBE(s[..|s| - 1]) * 256 + s[|s| - 1]
  }

  lemma {:induction false} FromToBE(v: nat, k: nat)
    requires v < Pow256(k)
    ensures FromBE(ToBE(v, k)) == v
  {
    if k > 0 {
      FromToBE(v / 256, k - 1);
      assert ToBE(v, k)[..k - 1] == ToBE(v / 256, k - 1);
    }
  }

  lemma {:induction false} ToFromBE(s: seq<byte>)
    ensures FromBE(s) < Pow256(|s|)
    ensures ToBE(FromBE(s), |s|) == s
  {
    if s != [] {
      ToFromBE(s[..|s| - 1]);
      assert FromBE(s) / 256 == FromBE(s[..|s| - 1]);
      assert s == s[..|s| - 1] + [s[|s| - 1]];
    }
  }

  /** The next `n` octets, most significant first, behind what is read already. */
  function BigEndian(read: nat, data: seq<byte>, from: nat, n: nat): (v: nat)
    requires from + n <= |data|
    decreases n
  {
    if n == 0 then read else BigEndian(read * 256 + data[from], data, from + 1, n - 1)
  }

  lemma {:induction false} SameOctets(read: nat, a: seq<byte>, i: nat, b: seq<byte>, j: nat, n: nat)
    requires i + n <= |a| && j + n <= |b| && a[i..i + n] == b[j..j + n]
    ensures BigEndian(read, a, i, n) == BigEndian(read, b, j, n)
    decreases n
  {
    if n > 0 {
      assert a[i] == a[i..i + n][0] == b[j];
      assert a[i + 1..i + n] == a[i..i + n][1..] == b[j + 1..j + n];
      SameOctets(read * 256 + a[i], a, i + 1, b, j + 1, n - 1);
    }
  }

  lemma {:induction false} FirstOctet(s: seq<byte>)
    requires s != []
    ensures FromBE(s[1..]) < Pow256(|s| - 1)
    ensures FromBE(s) == s[0] as nat * Pow256(|s| - 1) + FromBE(s[1..])
    decreases |s|
  {
    ToFromBE(s[1..]);
    if |s| == 1 {
      assert s[..0] == [] && s[1..] == [];
    } else {
      var init := s[..|s| - 1];
      FirstOctet(init);
      assert s[1..][..|s| - 2] == init[1..];
      assert Pow256(|s| - 1) == 256 * Pow256(|s| - 2);
      assert FromBE(s) == FromBE(init) * 256 + s[|s| - 1];
      assert FromBE(s[1..]) == FromBE(init[1..]) * 256 + s[|s| - 1];
      Shift(s[0], Pow256(|s| - 2), FromBE(init[1..]));
    }
  }

  lemma Shift(a: nat, unit: nat, b: nat)
    ensures (a * unit + b) * 256 == a * (256 * unit) + b * 256
  {
  }

  lemma Distribute(a: nat, b: nat, unit: nat)
    ensures (a * 256 + b) * unit == a * (256 * unit) + b * unit
  {
  }

  lemma {:induction false} BigEndianIs(read: nat, s: seq<byte>, i: nat)
    requires i <= |s|
    ensures BigEndian(read, s, i, |s| - i) == read * Pow256(|s| - i) + FromBE(s[i..])
    decreases |s| - i
  {
    if i == |s| {
      assert s[i..] == [];
    } else {
      BigEndianIs(read * 256 + s[i], s, i + 1);
      FirstOctet(s[i..]);
      assert s[i..][1..] == s[i + 1..];
      Distribute(read, s[i], Pow256(|s| - i - 1));
    }
  }

  lemma Pow256Values()
    ensures Pow256(1) == 0x100 && Pow256(2) == 0x1_0000
    ensures Pow256(4) == 0x1_0000_0000 && Pow256(8) == 0x1_0000_0000_0000_0000
  {
    assert Pow256(2) == 256 * Pow256(1);
    assert Pow256(3) == 256 * Pow256(2);
    assert Pow256(4) == 256 * Pow256(3);
    assert Pow256(5) == 256 * Pow256(4);
    assert Pow256(6) == 256 * Pow256(5);
    assert Pow256(7) == 256 * Pow256(6);
    assert Pow256(8) == 256 * Pow256(7);
  }

  /** The part of a concatenation between two others. */
  lemma Middle(data: seq<byte>, before: seq<byte>, middle: seq<byte>, after: seq<byte>)
    requires data == before + (middle + after)
    ensures data[|before|..|before| + |middle|] == middle
  {
  }

  /** Reading past a leading part of a concatenation. */
  lemma DropAppend(a: seq<byte>, b: seq<byte>)
    ensures (a + b)[..|a|] == a && (a + b)[|a|..] == b
  {
  }
}
