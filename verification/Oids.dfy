/**
 Object identifiers: the lexicographic order, the wrapped 32-bit comparison the agent uses
 in its place, and the covering relation between a view and an OID.
 */
module Oids {

  type Oid = seq<nat>

  datatype Option<+T> = None | Some(value: T)

  const ID_MODULUS: int := 0x1_0000_0000
  const ID_HALF: int := 0x8000_0000
  const OID_MAX_LEN: nat := 64
  const VALUE_MAX_LEN: nat := 1024

  /** Every sub-id fits the 32-bit unsigned type the agent stores it in. */
  ghost predicate Fits32(o: Oid) {
    forall i :: 0 <= i < |o| ==> o[i] < ID_MODULUS
  }

  /** Every sub-id stays below 2^31, where the signed comparison is safe. */
  ghost predicate Fits31(o: Oid) {
    forall i :: 0 <= i < |o| ==> o[i] < ID_HALF
  }

  /** Length of the longest common prefix. */
  function Lcp(a: Oid, b: Oid): (k: nat)
    ensures k <= |a| && k <= |b|
    ensures a[..k] == b[..k]
    ensures forall i :: 0 <= i < k ==> a[i] == b[i]
    ensures k < |a| && k < |b| ==> a[k] != b[k]
  {
    LcpFrom(a, b, 0)
  }

  function LcpFrom(a: Oid, b: Oid, from: nat): (k: nat)
    requires from <= |a| && from <= |b|
    requires forall i :: 0 <= i < from ==> a[i] == b[i]
    ensures from <= k <= |a| && k <= |b|
    ensures forall i :: 0 <= i < k ==> a[i] == b[i]
    ensures k < |a| && k < |b| ==> a[k] != b[k]
    decreases |a| - from
  {
    if from < |a| && from < |b| && a[from] == b[from] then LcpFrom(a, b, from + 1) else from
  }

  /** Strict lexicographic order on OIDs; a proper prefix comes first. */
  predicate Less(a: Oid, b: Oid) {
    var k := Lcp(a, b);
    k < |b| && (k == |a| || a[k] < b[k])
  }

  predicate Le(a: Oid, b: Oid) {
    a == b || Less(a, b)
  }

  /** `w` lies strictly after the whole subtree rooted at `c`. */
  ghost predicate Past(c: Oid, w: Oid) {
    Less(c, w) && !(c <= w)
  }

  ghost predicate Increasing(s: seq<Oid>) {
    forall i, j :: 0 <= i < j < |s| ==> Less(s[i], s[j])
  }

  /** The first position where two OIDs part decides their order. */
  lemma LessAt(a: Oid, b: Oid, k: nat)
    requires k <= |a| && k <= |b| && a[..k] == b[..k]
    requires k < |b|
    requires k == |a| || a[k] < b[k]
    ensures Less(a, b)
  {
    assert forall i :: 0 <= i < k ==> a[i] == a[..k][i] == b[..k][i] == b[i];
    assert Lcp(a, b) == k;
  }

  lemma LessTrans(a: Oid, b: Oid, c: Oid)
    requires Less(a, b) && Less(b, c)
    ensures Less(a, c)
  {
    var i, j := Lcp(a, b), Lcp(b, c);
    var k := if i < j then i else j;
    LessAt(a, c, k);
  }

  lemma LeTrans(a: Oid, b: Oid, c: Oid)
    requires Le(a, b) && Le(b, c)
    ensures Le(a, c)
    ensures Less(a, b) || Less(b, c) ==> Less(a, c)
  {
    if a != b && b != c {
      LessTrans(a, b, c);
    }
  }

  lemma Trichotomy(a: Oid, b: Oid)
    ensures a == b || Less(a, b) || Less(b, a)
    ensures !(Less(a, b) && Less(b, a))
    ensures !Less(a, a)
  {
    var k, l := Lcp(a, b), Lcp(b, a);
    assert k == l;
    if k == |a| && k == |b| {
      assert a == b;
    }
  }

  lemma PrefixIsLe(p: Oid, o: Oid)
    requires p <= o
    ensures Le(p, o)
    ensures p != o ==> Less(p, o)
  {
    if p != o {
      LessAt(p, o, |p|);
    }
  }

  /** A subtree is an interval: what is past its root is past everything in it. */
  lemma PastSubtree(c: Oid, v: Oid, w: Oid)
    requires c <= v && Past(c, w)
    ensures Less(v, w)
  {
    var k := Lcp(c, w);
    LessAt(v, w, k);
  }

  /** An OID between `p` and something under `p` lies under `p`. */
  lemma Between(p: Oid, e: Oid, c: Oid)
    requires p <= c && Le(p, e) && Le(e, c)
    ensures p <= e
  {
    if !(p <= e) {
      PastSubtree(p, c, e);
      Trichotomy(c, e);
    }
  }

  /** Under a common parent the next sub-id decides. */
  lemma SiblingLess(p: Oid, x: nat, y: nat, w: Oid)
    requires x < y && p + [y] <= w
    ensures Past(p + [x], w)
  {
    assert (p + [x])[..|p|] == p == (p + [y])[..|p|] == w[..|p|];
    assert w[|p|] == (p + [y])[|p|] == y;
    LessAt(p + [x], w, |p|);
  }

  /** The sign the agent's comparison returns: the 32-bit difference read as a signed integer. */
  function WrapDiff(x: int, y: int): (r: int)
    ensures -ID_HALF <= r < ID_HALF
    ensures r == 0 <==> (x - y) % ID_MODULUS == 0
    ensures -ID_HALF <= x - y < ID_HALF ==> r == x - y
  {
    var m := (x - y) % ID_MODULUS;
    if m < ID_HALF then m else m - ID_MODULUS
  }

  /** Specification of the comparison: wrapped difference at the first mismatch, else of the lengths. */
  function CmpSpec(a: Oid, b: Oid): int {
    var k := Lcp(a, b);
    if k < |a| && k < |b| then WrapDiff(a[k], b[k]) else WrapDiff(|a|, |b|)
  }

  /** The exact condition under which the wrapped comparison orders two OIDs as RFC 3416 wants. */
  ghost predicate CmpIsSafe(a: Oid, b: Oid) {
    var k := Lcp(a, b);
    k < |a| && k < |b| ==> a[k] < b[k] + ID_HALF && b[k] <= a[k] + ID_HALF
  }

  method OidCmp(a: Oid, b: Oid) returns (ret: int)
    requires Fits32(a) && Fits32(b) && |a| < ID_HALF && |b| < ID_HALF
    ensures ret == CmpSpec(a, b)
  {
    ret := 0;
    var i := 0;
    while i < |a| && i < |b| && ret == 0
      invariant 0 <= i <= |a| && i <= |b|
      invariant ret == 0 ==> forall j :: 0 <= j < i ==> a[j] == b[j]
      invariant ret != 0 ==>
        && 0 < i && (forall j :: 0 <= j < i - 1 ==> a[j] == b[j])
        && a[i - 1] != b[i - 1] && ret == WrapDiff(a[i - 1], b[i - 1])
      decreases |a| - i
    {
      ret := WrapDiff(a[i], b[i]);
      i := i + 1;
    }
    if ret == 0 {
      assert Lcp(a, b) == i;
      ret := WrapDiff(|a|, |b|);
    } else {
      assert Lcp(a, b) == i - 1;
    }
  }

  /** Zero means equality for all 32-bit sub-ids; the sign is the order exactly when the comparison is safe. */
  lemma CmpMeaning(a: Oid, b: Oid)
    requires Fits32(a) && Fits32(b) && |a| < ID_HALF && |b| < ID_HALF
    ensures CmpSpec(a, b) == 0 <==> a == b
    ensures (CmpSpec(a, b) < 0 <==> Less(a, b)) <==> CmpIsSafe(a, b)
    ensures Fits31(a) && Fits31(b) ==> CmpIsSafe(a, b)
  {
    var k := Lcp(a, b);
    if k == |a| == |b| {
      assert a == b;
    }
  }

  /** 1.0 and 1.4294967295 are ordered the wrong way round. */
  lemma CmpWrapsExample()
    ensures Less([1, 0], [1, 0xFFFF_FFFF]) && CmpSpec([1, 0], [1, 0xFFFF_FFFF]) > 0
  {
    assert Lcp([1, 0], [1, 0xFFFF_FFFF]) == 1;
  }

  /** 1 when the first OID covers the second, -1 for the converse, 0 when neither does. */
  method OidCover(a: Oid, b: Oid) returns (r: int)
    requires Fits32(a) && Fits32(b) && |a| < ID_HALF && |b| < ID_HALF
    ensures r == 1 <==> a <= b
    ensures r == -1 <==> b < a
    ensures r == 0 <==> !(a <= b) && !(b <= a)
  {
    if |a| <= |b| {
      var c := OidCmp(a, b[..|a|]);
      CmpMeaning(a, b[..|a|]);
      if c == 0 {
        return 1;
      }
    }
    if |b| <= |a| {
      var c := OidCmp(a[..|b|], b);
      CmpMeaning(a[..|b|], b);
      if c == 0 {
        return -1;
      }
    }
    return 0;
  }
}
