/** The source audit's search for private-key markers in a stream that is read in chunks. */
module MarkerScan {
  import opened Wrappers

  /** A binary stream, one character per octet. */
  type Octets = string

  const BEGIN: Octets := "-----BEGIN "

  const MARKERS: seq<Octets> :=
    [BEGIN + "PRIVATE KEY-----", BEGIN + "ENCRYPTED PRIVATE KEY-----", BEGIN + "EC PRIVATE KEY-----",
     BEGIN + "OPENSSH PRIVATE KEY-----", BEGIN + "PGP PRIVATE KEY BLOCK-----", BEGIN + "RSA PRIVATE KEY-----"]

  predicate OccursAt(m: Octets, s: Octets, i: nat) {
    i + |m| <= |s| && s[i..i + |m|] == m
  }

  predicate Occurs(m: Octets, s: Octets) {
    exists i | 0 <= i <= |s| :: OccursAt(m, s, i)
  }

  /** Some marker occurs in the stream. */
  predicate Found(markers: seq<Octets>, s: Octets) {
    exists j | 0 <= j < |markers| :: Occurs(markers[j], s)
  }

  function MaxLength(markers: seq<Octets>): (n: nat)
    ensures forall j :: 0 <= j < |markers| ==> |markers[j]| <= n
  {
    if markers == [] then 0
    else
      var rest := MaxLength(markers[1..]);
      assert forall j :: 0 < j < |markers| ==> markers[j] == markers[1..][j - 1];
      if |markers[0]| > rest then |markers[0]| else rest
  }

  /** The last `n` octets; zero stands for all of them. */
  function Last(s: Octets, n: nat): (t: Octets) {
    if n == 0 || n >= |s| then s else s[|s| - n..]
  }

  /** The stream that reads deliver: an empty read is its end. */
  function Delivered(parts: seq<Octets>): (s: Octets) {
    if parts == [] || parts[0] == [] then [] else parts[0] + Delivered(parts[1..])
  }

  predicate IsSuffix(t: Octets, s: Octets) {
    |t| <= |s| && s[|s| - |t|..] == t
  }

  /** No marker is longer than `n` octets and one more. */
  predicate Bounded(markers: seq<Octets>, n: nat) {
    forall j :: 0 <= j < |markers| ==> |markers[j]| <= n + 1
  }

  /** What is kept of the stream seen so far: enough for any such marker to continue. */
  predicate Keeps(n: nat, overlap: Octets, seen: Octets) {
    IsSuffix(overlap, seen) && (overlap == seen || |overlap| >= n)
  }

  lemma SuffixOccurs(m: Octets, t: Octets, s: Octets)
    requires IsSuffix(t, s) && Occurs(m, t)
    ensures Occurs(m, s)
  {
    var i :| 0 <= i <= |t| && OccursAt(m, t, i);
    var k := |s| - |t| + i;
    assert s[k..k + |m|] == t[i..i + |m|];
    assert OccursAt(m, s, k);
  }

  /** A marker that is not in what was seen is in the kept part and the new chunk. */
  lemma OccursInData(m: Octets, overlap: Octets, seen: Octets, chunk: Octets)
    requires IsSuffix(overlap, seen) && (overlap == seen || |m| <= |overlap| + 1)
    requires !Occurs(m, seen) && Occurs(m, seen + chunk)
    ensures Occurs(m, overlap + chunk)
  {
    var i :| 0 <= i <= |seen + chunk| && OccursAt(m, seen + chunk, i);
    if i + |m| <= |seen| {
      assert seen[i..i + |m|] == (seen + chunk)[i..i + |m|];
      assert OccursAt(m, seen, i);
      assert false;
    }
    var k := i - (|seen| - |overlap|);
    assert k >= 0;
    assert (overlap + chunk)[k..k + |m|] == (seen + chunk)[i..i + |m|];
    assert OccursAt(m, overlap + chunk, k);
  }

  /** Searching the kept part and the new chunk is searching the whole stream so far. */
  lemma SearchIsExact(markers: seq<Octets>, n: nat, overlap: Octets, seen: Octets, chunk: Octets)
    requires Bounded(markers, n) && Keeps(n, overlap, seen) && !Found(markers, seen)
    ensures Found(markers, overlap + chunk) <==> Found(markers, seen + chunk)
  {
    if Found(markers, overlap + chunk) {
      var j :| 0 <= j < |markers| && Occurs(markers[j], overlap + chunk);
      assert IsSuffix(overlap + chunk, seen + chunk);
      SuffixOccurs(markers[j], overlap + chunk, seen + chunk);
    }
    if Found(markers, seen + chunk) {
      var j :| 0 <= j < |markers| && Occurs(markers[j], seen + chunk);
      OccursInData(markers[j], overlap, seen, chunk);
    }
  }

  lemma LastKeeps(n: nat, overlap: Octets, seen: Octets, chunk: Octets)
    requires Keeps(n, overlap, seen)
    ensures Keeps(n, Last(overlap + chunk, n), seen + chunk)
  {
    var data := overlap + chunk;
    assert IsSuffix(data, seen + chunk);
    assert IsSuffix(Last(data, n), seen + chunk);
    if Last(data, n) == data && overlap == seen {
      assert data == seen + chunk;
    }
  }

  lemma NothingInNothing(markers: seq<Octets>)
    requires forall j :: 0 <= j < |markers| ==> markers[j] != []
    ensures !Found(markers, [])
  {
  }

  lemma EarlierOccurs(markers: seq<Octets>, s: Octets, t: Octets)
    requires Found(markers, s)
    ensures Found(markers, s + t)
  {
    var j :| 0 <= j < |markers| && Occurs(markers[j], s);
    var m := markers[j];
    var i :| 0 <= i <= |s| && OccursAt(m, s, i);
    assert (s + t)[i..i + |m|] == s[i..i + |m|];
    assert OccursAt(m, s + t, i);
  }

  lemma DeliveredFirst(seen: Octets, chunk: Octets, parts: seq<Octets>)
    requires chunk != []
    ensures seen + Delivered([chunk] + parts) == (seen + chunk) + Delivered(parts)
  {
    assert ([chunk] + parts)[1..] == parts;
  }

  /** One round of the scan: exact, and ready for the next one. */
  lemma Round(markers: seq<Octets>, n: nat, overlap: Octets, seen: Octets, chunk: Octets, parts: seq<Octets>)
    requires Bounded(markers, n) && Keeps(n, overlap, seen) && !Found(markers, seen) && chunk != []
    ensures Found(markers, overlap + chunk) ==> Found(markers, seen + Delivered([chunk] + parts))
    ensures !Found(markers, overlap + chunk) ==> !Found(markers, seen + chunk)
    ensures Keeps(n, Last(overlap + chunk, n), seen + chunk)
  {
    SearchIsExact(markers, n, overlap, seen, chunk);
    DeliveredFirst(seen, chunk, parts);
    if Found(markers, overlap + chunk) {
      EarlierOccurs(markers, seen + chunk, Delivered(parts));
    }
    LastKeeps(n, overlap, seen, chunk);
  }

  /** The scan answers whether a marker occurs anywhere in the stream, however its reads cut it. */
  method ContainsMarker(markers: seq<Octets>, initial: Octets, source: seq<Octets>) returns (found: bool)
    requires markers != [] && forall j :: 0 <= j < |markers| ==> markers[j] != []
    ensures found <==> Found(markers, Delivered([initial] + source))
  {
    var longest := MaxLength(markers);
    assert |markers[0]| <= longest;
    NothingInNothing(markers);
    found := Scan(markers, longest - 1, initial, source);
  }

  method Scan(markers: seq<Octets>, overlapSize: nat, initial: Octets, source: seq<Octets>) returns (found: bool)
    requires Bounded(markers, overlapSize) && !Found(markers, [])
    ensures found <==> Found(markers, Delivered([initial] + source))
  {
    var overlap: Octets, chunk, parts := [], initial, source;
    ghost var seen: Octets, whole := [], Delivered([initial] + source);
    assert seen + whole == whole;
    while chunk != []
      invariant Keeps(overlapSize, overlap, seen) && !Found(markers, seen)
      invariant seen + Delivered([chunk] + parts) == whole
      decreases |parts|, |chunk|
    {
      var data := overlap + chunk;
      Round(markers, overlapSize, overlap, seen, chunk, parts);
      if Found(markers, data) {
        return true;
      }
      DeliveredFirst(seen, chunk, parts);
      overlap := Last(data, overlapSize);
      seen := seen + chunk;
      if parts == [] {
        chunk := [];
      } else {
        assert parts == [parts[0]] + parts[1..];
        chunk, parts := parts[0], parts[1..];
      }
    }
    assert seen + [] == seen;
    return false;
  }

  // ---------- Reading a declared size ----------

  /** A pipe: each read delivers at least one octet while there are any. */
  class Source {
    var left: Octets
    /** How many octets further reads would like to deliver. */
    var grants: seq<nat>

    constructor (octets: Octets, sizes: seq<nat>)
      ensures left == octets
    {
      left, grants := octets, sizes;
    }

    method Read(size: nat) returns (data: Octets)
      requires size > 0
      modifies this
      ensures data + left == old(left) && |data| <= size
      ensures data == [] <==> old(left) == []
    {
      var wanted := if grants == [] then size else grants[0];
      grants := if grants == [] then [] else grants[1..];
      var n := if wanted == 0 then 1 else if wanted < size then wanted else size;
      n := if n < |left| then n else |left|;
      data, left := left[..n], left[n..];
    }
  }

  class LimitedReader {
    const source: Source
    var remaining: nat

    constructor (s: Source, size: nat)
      ensures source == s && remaining == size
    {
      source, remaining := s, size;
    }

    /** At most `size` octets, or all that remain for a negative size. `None`: the source ended too early. */
    method Read(size: int) returns (data: Option<Octets>)
      modifies this, source
      ensures data.None? <==> old(remaining) > 0 && size != 0 && old(source.left) == []
      ensures data.None? ==> remaining == old(remaining) && source.left == []
      ensures data.Some? ==> data.value + source.left == old(source.left) && |data.value| + remaining == old(remaining)
      ensures data.Some? && size >= 0 ==> |data.value| <= size
      ensures data == Some([]) <==> old(remaining) == 0 || size == 0
    {
      if remaining == 0 {
        return Some([]);
      }
      var n := if size < 0 || size > remaining then remaining else size;
      if n == 0 {
        return Some([]);
      }
      var octets := source.Read(n);
      if octets == [] {
        return None;
      }
      remaining := remaining - |octets|;
      return Some(octets);
    }

    /** Reads to the end: exactly the declared octets, or a failure when the source holds fewer. */
    method ReadToEnd(size: int) returns (parts: Option<seq<Octets>>)
      requires size != 0
      modifies this, source
      ensures parts.None? <==> old(|source.left|) < old(remaining)
      ensures parts.Some? ==> Delivered(parts.value) == old(source.left)[..old(remaining)]
      ensures parts.Some? ==> remaining == 0 && source.left == old(source.left)[old(remaining)..]
    {
      var all: seq<Octets> := [];
      ghost var done: Octets := [];
      while remaining > 0
        invariant done + source.left == old(source.left) && |done| + remaining == old(remaining)
        invariant Delivered(all) == done && forall i :: 0 <= i < |all| ==> all[i] != []
        decreases remaining
      {
        var data := Read(size);
        if data.None? {
          return None;
        }
        DeliveredAppend(all, data.value);
        all := all + [data.value];
        done := done + data.value;
      }
      assert done == (done + source.left)[..|done|];
      return Some(all);
    }
  }

  lemma {:induction false} DeliveredAppend(parts: seq<Octets>, last: Octets)
    requires forall i :: 0 <= i < |parts| ==> parts[i] != []
    ensures Delivered(parts + [last]) == Delivered(parts) + last
  {
    if parts == [] {
      assert parts + [last] == [last];
      assert [last][1..] == [];
    } else {
      assert (parts + [last])[1..] == parts[1..] + [last];
      DeliveredAppend(parts[1..], last);
    }
  }

  /** The markers that the audit looks for can all be found. */
  lemma MarkersAreNotEmpty()
    ensures MARKERS != [] && forall j :: 0 <= j < |MARKERS| ==> MARKERS[j] != []
  {
  }

  /** The scan for the audit's own markers. */
  method ContainsPrivateKeyMarker(source: seq<Octets>, initial: Octets) returns (found: bool)
    ensures found <==> Found(MARKERS, Delivered([initial] + source))
  {
    MarkersAreNotEmpty();
    found := ContainsMarker(MARKERS, initial, source);
  }
}
